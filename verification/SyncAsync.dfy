/** xl2tpd's conversion between the packets of a tunnel and the asynchronous frames
    of pppd: `write_packet` stuffs a packet behind its check sequence into a buffer
    of fixed size, `read_packet` takes the next frame out of what pppd wrote. */
module SyncAsync {
  import opened Octets
  import opened AsyncFraming
  import Fcs

  const WBUF_SIZE: nat := 4096

  predicate Escapes(c: byte) { c < 0x20 || c == FRAME_ESC || c == FRAME_FLAG }

  function StuffOne(c: byte): (s: bytes)
    ensures 1 <= |s| <= 2
  {
    if Escapes(c) then [FRAME_ESC, Enc(c)] else [c]
  }

  function Stuffed(s: bytes): bytes
    decreases |s|
  {
    if s == [] then [] else Stuffed(s[..|s| - 1]) + StuffOne(s[|s| - 1])
  }

  /** `add_fcs` */
  function WithFcs(p: bytes): (r: bytes)
    ensures |r| == |p| + 2
  {
    var t := Fcs.Trailer(Fcs.Divide(Fcs.PPP_INITFCS, AsBits(p)));
    p + [t[0] as int, t[1] as int]
  }

  function Frame(p: bytes): bytes { [FRAME_FLAG] + (Stuffed(WithFcs(p)) + [FRAME_FLAG]) }

  /** The packet of a frame has the good check residue. */
  lemma WithFcsIsGood(p: bytes)
    ensures Fcs.Divide(Fcs.PPP_INITFCS, AsBits(WithFcs(p))) == Fcs.PPP_GOODFCS
  {
    hide Fcs.Divide, Fcs.Trailer, Fcs.Low, Fcs.High;
    var m := AsBits(p);
    var t := Fcs.Trailer(Fcs.Divide(Fcs.PPP_INITFCS, m));
    SameBits(t[0]);
    SameBits(t[1]);
    assert AsBits(WithFcs(p)) == m + [t[0], t[1]];
    assert t == [t[0], t[1]];
    Fcs.GoodExactly(m, t[0], t[1]);
  }

  /** With the opening flag and all but its last byte stuffed, `s` leaves room. */
  predicate Fits(s: bytes) { FitsUpTo(s, |s|) }

  predicate FitsUpTo(s: bytes, x: nat)
    requires x <= |s|
  {
    x == 0 || 1 + |Stuffed(s[..x - 1])| < WBUF_SIZE - 4
  }

  lemma NextFits(s: bytes, x: nat, pos: nat)
    requires x < |s| && pos == 1 + |Stuffed(s[..x])|
    ensures pos < WBUF_SIZE - 4 ==> FitsUpTo(s, x + 1)
    ensures pos >= WBUF_SIZE - 4 ==> !Fits(s)
  {
    StuffedGrows(s[..|s| - 1], x);
    assert s[..|s| - 1][..x] == s[..x];
  }

  lemma NothingFits(s: bytes)
    ensures FitsUpTo(s, 0)
  {
  }

  lemma {:induction false} StuffedGrows(s: bytes, k: nat)
    requires k <= |s|
    ensures |Stuffed(s[..k])| <= |Stuffed(s)|
    decreases |s|
  {
    if k == |s| {
      assert s[..k] == s;
    } else {
      StuffedGrows(s[..|s| - 1], k);
      assert s[..|s| - 1][..k] == s[..k];
    }
  }

  /** The loop of `write_packet`: the frame, or a refusal exactly when some byte
      would come too close to the end of the buffer, which is never overrun. */
  method WritePacket(p: bytes) returns (ok: bool, wbuf: array<byte>, pos: nat)
    ensures ok == Fits(WithFcs(p))
    ensures fresh(wbuf) && (ok ==> pos <= wbuf.Length && wbuf[..pos] == Frame(p))
  {
    hide Enc, WithFcs, StuffOne, FitsUpTo;
    assert FitsUpTo(WithFcs(p), 0) by { NothingFits(WithFcs(p)); }
    var s := WithFcs(p);
    wbuf := new byte[WBUF_SIZE](_ => 0);
    wbuf[0] := FRAME_FLAG;
    pos := 1;
    var x := 0;
    while x < |s|
      invariant x <= |s| && 1 <= pos <= WBUF_SIZE - 2 && wbuf[..pos] == [FRAME_FLAG] + Stuffed(s[..x])
      invariant FitsUpTo(s, x)
    {
      NextFits(s, x, pos);
      if pos >= WBUF_SIZE - 4 {
        return false, wbuf, pos;
      }
      ghost var was := wbuf[..pos];
      assert s[..x + 1][..x] == s[..x];
      pos := PutOne(wbuf, pos, s[x]);
      assert was + StuffOne(s[x]) == [FRAME_FLAG] + (Stuffed(s[..x]) + StuffOne(s[x]));
      x := x + 1;
    }
    assert s[..x] == s;
    ghost var was := wbuf[..pos];
    wbuf[pos] := FRAME_FLAG;
    pos := pos + 1;
    assert wbuf[..pos] == was + [FRAME_FLAG];
    ok := true;
  }

  method PutOne(wbuf: array<byte>, at: nat, c: byte) returns (pos: nat)
    requires at + 2 <= wbuf.Length
    modifies wbuf
    ensures at < pos <= at + 2 && wbuf[..pos] == old(wbuf[..at]) + StuffOne(c)
  {
    hide Enc;
    ghost var was := wbuf[..at];
    var e := c;
    pos := at;
    if Escapes(c) {
      e := Enc(c);
      wbuf[pos] := FRAME_ESC;
      pos := pos + 1;
      assert wbuf[..pos] == was + [FRAME_ESC];
    }
    wbuf[pos] := e;
    pos := pos + 1;
    assert wbuf[..pos] == was + StuffOne(c);
  }

  // -------------------------------------------------------------------- reading

  /** `read_packet` on the bytes at hand: it needs more, has a packet, or fails. */
  datatype Outcome = More(data: bytes, escape: bool) | Packet(data: bytes, rest: bytes) | Bad

  function ReadPacket(data: bytes, escape: bool, input: bytes, maxlen: nat): Outcome
    decreases |input|
  {
    if input == [] then More(data, escape)
    else
      var c, rest := input[0], input[1..];
      if c == FRAME_FLAG then
        if escape then Bad
        else if |data| >= 2 then Packet(data[..|data| - 2], rest)
        else if |data| == 1 then Packet(data, rest)
        else ReadPacket(data, escape, rest, maxlen)
      else if c == FRAME_ESC then ReadPacket(data, true, rest, maxlen)
      else if |data| < maxlen then ReadPacket(data + [if escape then Enc(c) else c], false, rest, maxlen)
      else Bad
  }

  lemma ReadOne(data: bytes, c: byte, rest: bytes, maxlen: nat)
    requires |data| < maxlen
    ensures ReadPacket(data, false, StuffOne(c) + rest, maxlen) == ReadPacket(data + [c], false, rest, maxlen)
  {
    EncFacts(c);
    var input := StuffOne(c) + rest;
    if Escapes(c) {
      assert input[0] == FRAME_ESC && input[1..] == [Enc(c)] + rest;
      var next := [Enc(c)] + rest;
      assert next[0] == Enc(c) && next[1..] == rest;
    } else {
      assert input[0] == c && input[1..] == rest;
    }
  }

  /** A stuffed stretch is read back byte for byte. */
  lemma {:induction false} ReadStuffed(s: bytes, rest: bytes, maxlen: nat)
    requires |s| <= maxlen
    ensures ReadPacket([], false, Stuffed(s) + rest, maxlen) == ReadPacket(s, false, rest, maxlen)
    decreases |s|
  {
    hide StuffOne, ReadPacket;
    if s == [] {
      assert [] + rest == rest;
    } else {
      var n := |s| - 1;
      ReadStuffed(s[..n], StuffOne(s[n]) + rest, maxlen);
      assert Stuffed(s) + rest == Stuffed(s[..n]) + (StuffOne(s[n]) + rest);
      ReadOne(s[..n], s[n], rest, maxlen);
      assert s[..n] + [s[n]] == s;
    }
  }

  lemma OpeningFlag(s: bytes, maxlen: nat)
    ensures ReadPacket([], false, [FRAME_FLAG] + s, maxlen) == ReadPacket([], false, s, maxlen)
  {
    assert ([FRAME_FLAG] + s)[1..] == s;
  }

  lemma ClosingFlag(s: bytes, rest: bytes, maxlen: nat)
    requires |s| >= 2
    ensures ReadPacket(s, false, [FRAME_FLAG] + rest, maxlen) == Packet(s[..|s| - 2], rest)
  {
    assert ([FRAME_FLAG] + rest)[1..] == rest;
  }

  /** What `write_packet` frames `read_packet` gives back: the packet without its
      check sequence, and everything behind the frame untouched. */
  lemma FrameIsReadBack(p: bytes, rest: bytes, maxlen: nat)
    requires |p| + 2 <= maxlen
    ensures ReadPacket([], false, Frame(p) + rest, maxlen) == Packet(p, rest)
  {
    hide WithFcs, Stuffed, ReadPacket;
    var s := WithFcs(p);
    assert s[..|p|] == p by { PacketFirst(p); }
    assert Frame(p) + rest == [FRAME_FLAG] + (Stuffed(s) + ([FRAME_FLAG] + rest));
    OpeningFlag(Stuffed(s) + ([FRAME_FLAG] + rest), maxlen);
    ReadStuffed(s, [FRAME_FLAG] + rest, maxlen);
    ClosingFlag(s, rest, maxlen);
  }

  lemma PacketFirst(p: bytes)
    ensures WithFcs(p)[..|p|] == p
  {
  }
}
