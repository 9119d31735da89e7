/** Byte-stuffed PPP frames (section 4.2 of RFC 1662) between pppoe and pppd: the
    encoder, and the decoder that is fed whatever a read returns. */
module AsyncFraming {
  import opened Octets
  import Fcs

  const FRAME_ESC: byte := 0x7D
  const FRAME_FLAG: byte := 0x7E
  const FRAME_ADDR: byte := 0xFF
  const FRAME_CTRL: byte := 0x03
  const ETH_JUMBO_LEN: nat := 1508
  const READ_CHUNK: nat := 4096

  /** `c ^ FRAME_ENC`: bit 5 turned over. */
  function Enc(c: byte): byte { if c / 32 % 2 == 1 then c - 32 else c + 32 }

  predicate MustEscape(c: byte) { c == FRAME_FLAG || c == FRAME_ADDR || c == FRAME_ESC || c < 0x20 }

  lemma EncFacts(c: byte)
    ensures Enc(Enc(c)) == c
    ensures MustEscape(c) ==> Enc(c) !in {FRAME_ESC, FRAME_FLAG, FRAME_ADDR}
  {
  }

  // ------------------------------------------------------------------ encoding

  function Stuff(s: bytes): bytes {
    if s == [] then []
    else (if MustEscape(s[0]) then [FRAME_ESC, Enc(s[0])] else [s[0]]) + Stuff(s[1..])
  }

  /** The two bytes of the frame check sequence. */
  function Tail(p: bytes): (t: bytes)
    ensures |t| == 2
  {
    var t := Fcs.Trailer(Fcs.Divide(Fcs.Divide(Fcs.PPP_INITFCS, [0xFF, 0x03]), AsBits(p)));
    [t[0] as int, t[1] as int]
  }

  function AsBits(p: bytes): Fcs.Message { seq(|p|, i requires 0 <= i < |p| => p[i] as bv8) }

  const PREAMBLE: bytes := [FRAME_FLAG, FRAME_ADDR, FRAME_ESC, Enc(FRAME_CTRL)]

  function Encode(p: bytes): bytes { PREAMBLE + (Stuff(p + Tail(p)) + [FRAME_FLAG]) }

  lemma SameBits(x: bv8)
    ensures (x as int) as bv8 == x
  {
  }

  /** Address, control, payload and tail together have the good check residue. */
  lemma FrameCheckIsGood(p: bytes)
    ensures Fcs.Divide(Fcs.PPP_INITFCS, [0xFF, 0x03] + AsBits(p) + AsBits(Tail(p))) == Fcs.PPP_GOODFCS
  {
    hide Fcs.Divide, Fcs.Trailer, Fcs.Low, Fcs.High;
    var head := [0xFF, 0x03];
    var m := head + AsBits(p);
    Fcs.DivideConcat(Fcs.PPP_INITFCS, head, AsBits(p));
    var t := Fcs.Trailer(Fcs.Divide(Fcs.PPP_INITFCS, m));
    SameBits(t[0]);
    SameBits(t[1]);
    assert AsBits(Tail(p)) == [t[0], t[1]];
    assert t == [t[0], t[1]];
    Fcs.GoodExactly(m, t[0], t[1]);
  }

  lemma {:induction false} StuffConcat(a: bytes, b: bytes)
    ensures Stuff(a + b) == Stuff(a) + Stuff(b)
  {
    if a == [] {
      assert a + b == b;
    } else {
      assert (a + b)[1..] == a[1..] + b;
      StuffConcat(a[1..], b);
    }
  }

  lemma {:induction false} StuffBounds(s: bytes)
    ensures |Stuff(s)| <= 2 * |s| && FRAME_ADDR !in Stuff(s)
  {
    if s != [] {
      EncFacts(s[0]);
      StuffBounds(s[1..]);
    }
  }

  /** The address byte stands in a frame once, behind the opening flag, and the
      frame of any packet that can be received fits the encoder's buffer. */
  lemma OneAddressPerFrame(p: bytes, j: nat)
    requires j < |Encode(p)|
    ensures Encode(p)[j] == FRAME_ADDR <==> j == 1
    ensures |p| <= ETH_JUMBO_LEN ==> |Encode(p)| <= 4096
  {
    hide Tail;
    StuffBounds(p + Tail(p));
    if j >= 4 {
      assert Encode(p)[j] == (Stuff(p + Tail(p)) + [FRAME_FLAG])[j - 4];
    }
  }

  // ------------------------------------------------------------------ decoding

  datatype Phase = WaitForAddr | DropProto | Building | Dead

  /** `sent` are the packets passed on so far. */
  datatype Decoder = Decoder(phase: Phase, packet: bytes, escaped: bool, sent: seq<bytes>)

  const INITIAL: Decoder := Decoder(WaitForAddr, [], false, [])

  function StepByte(d: Decoder, c: byte): Decoder {
    match d.phase
    case WaitForAddr => if c == FRAME_ADDR then d.(phase := DropProto) else d
    case DropProto => if c == Enc(FRAME_CTRL) then d.(phase := Building) else d
    case Building =>
      if c == FRAME_ESC then d.(escaped := true)
      else if c == FRAME_FLAG then
        if |d.packet| < 2 then d.(phase := Dead)
        else Decoder(WaitForAddr, [], false, d.sent + [d.packet[..|d.packet| - 2]])
      else if |d.packet| >= ETH_JUMBO_LEN - 4 then Decoder(WaitForAddr, [], false, d.sent)
      else d.(packet := d.packet + [if d.escaped then Enc(c) else c], escaped := false)
    case Dead => d
  }

  function Run(d: Decoder, s: bytes): Decoder
    decreases |s|
  {
    if s == [] then d else Run(StepByte(d, s[0]), s[1..])
  }

  lemma {:induction false} RunConcat(d: Decoder, a: bytes, b: bytes)
    ensures Run(d, a + b) == Run(Run(d, a), b)
    decreases |a|
  {
    hide StepByte;
    if a == [] {
      assert a + b == b;
    } else {
      assert (a + b)[1..] == a[1..] + b;
      RunConcat(StepByte(d, a[0]), a[1..], b);
    }
  }

  lemma RunOne(d: Decoder, c: byte)
    ensures Run(d, [c]) == StepByte(d, c)
  {
    hide StepByte;
    assert [c][1..] == [];
  }

  ghost predicate Waiting(d: Decoder) { d.phase == WaitForAddr && d.packet == [] && !d.escaped }

  lemma {:induction false} NoAddressNoChange(d: Decoder, s: bytes)
    requires d.phase == WaitForAddr && FRAME_ADDR !in s
    ensures Run(d, s) == d
    decreases |s|
  {
    if s != [] {
      NoAddressNoChange(d, s[1..]);
    }
  }

  /** What one stuffed byte does while a packet is being built. */
  lemma StuffedByte(d: Decoder, c: byte)
    requires d.phase == Building && !d.escaped
    ensures Run(d, Stuff([c])) ==
              if |d.packet| >= ETH_JUMBO_LEN - 4 then Decoder(WaitForAddr, [], false, d.sent)
              else d.(packet := d.packet + [c])
  {
    EncFacts(c);
    assert [c][1..] == [];
    if MustEscape(c) {
      assert Stuff([c]) == [FRAME_ESC] + [Enc(c)];
      RunConcat(d, [FRAME_ESC], [Enc(c)]);
      RunOne(d, FRAME_ESC);
      RunOne(d.(escaped := true), Enc(c));
    } else {
      assert Stuff([c]) == [c];
      RunOne(d, c);
    }
  }

  /** A stuffed stretch is unstuffed, or thrown away if it does not fit. */
  lemma {:induction false} StuffedStretch(d: Decoder, s: bytes)
    requires d.phase == Building && !d.escaped && |d.packet| <= ETH_JUMBO_LEN - 4
    ensures Run(d, Stuff(s)) ==
              if |d.packet| + |s| <= ETH_JUMBO_LEN - 4 then d.(packet := d.packet + s)
              else Decoder(WaitForAddr, [], false, d.sent)
    decreases |s|
  {
    hide StepByte, Stuff;
    if s == [] {
      StuffNothing();
      assert d.packet + s == d.packet;
    } else {
      var c, rest := [s[0]], s[1..];
      assert s == c + rest;
      StuffConcat(c, rest);
      RunConcat(d, Stuff(c), Stuff(rest));
      StuffedByte(d, s[0]);
      if |d.packet| >= ETH_JUMBO_LEN - 4 {
        StuffBounds(rest);
        NoAddressNoChange(Decoder(WaitForAddr, [], false, d.sent), Stuff(rest));
      } else {
        StuffedStretch(d.(packet := d.packet + c), rest);
        assert d.packet + c + rest == d.packet + s;
      }
    }
  }

  lemma StuffNothing()
    ensures Stuff([]) == []
  {
  }

  /** A waiting decoder takes one frame: the payload is passed on if it has at most
      1502 bytes, dropped otherwise, and the decoder waits again. */
  lemma FrameDecodes(d: Decoder, p: bytes)
    requires Waiting(d)
    ensures Run(d, Encode(p)) == d.(sent := d.sent + if |p| <= 1502 then [p] else [])
  {
    var s, b := p + Tail(p), d.(phase := Building);
    Preamble(d);
    hide StepByte, Stuff, Tail;
    RunConcat(d, PREAMBLE, Stuff(s) + [FRAME_FLAG]);
    RunConcat(b, Stuff(s), [FRAME_FLAG]);
    StuffedStretch(b, s);
    assert b.packet + s == s && s[..|p|] == p;
    var e := Run(b, Stuff(s));
    RunOne(e, FRAME_FLAG);
    Flag(e);
    assert d.sent + [] == d.sent;
  }

  lemma Preamble(d: Decoder)
    requires Waiting(d)
    ensures Run(d, PREAMBLE) == d.(phase := Building)
  {
    var a, b, c := PREAMBLE[1..], PREAMBLE[2..], PREAMBLE[3..];
    assert a[1..] == b && b[1..] == c && c[1..] == [];
    assert Run(d.(phase := DropProto), b) == Run(d.(phase := DropProto), c) == d.(phase := Building);
  }

  lemma Flag(e: Decoder)
    ensures e.phase == WaitForAddr ==> StepByte(e, FRAME_FLAG) == e
    ensures e.phase == Building && |e.packet| >= 2 ==>
              StepByte(e, FRAME_FLAG) == Decoder(WaitForAddr, [], false, e.sent + [e.packet[..|e.packet| - 2]])
  {
  }

  function EncodeAll(ps: seq<bytes>): bytes { if ps == [] then [] else Encode(ps[0]) + EncodeAll(ps[1..]) }

  function Fitting(ps: seq<bytes>): seq<bytes> {
    if ps == [] then [] else (if |ps[0]| <= 1502 then [ps[0]] else []) + Fitting(ps[1..])
  }

  /** Frames of any payloads, one after the other: exactly those of at most 1502
      bytes come out, in order, and the decoder is back where it started. */
  lemma {:induction false} FramesDecode(d: Decoder, ps: seq<bytes>)
    requires Waiting(d)
    ensures Run(d, EncodeAll(ps)) == d.(sent := d.sent + Fitting(ps))
    decreases |ps|
  {
    hide StepByte, Encode;
    if ps == [] {
      assert d.sent + [] == d.sent;
    } else {
      var one := if |ps[0]| <= 1502 then [ps[0]] else [];
      RunConcat(d, Encode(ps[0]), EncodeAll(ps[1..]));
      FrameDecodes(d, ps[0]);
      FramesDecode(d.(sent := d.sent + one), ps[1..]);
      assert d.sent + one + Fitting(ps[1..]) == d.sent + (one + Fitting(ps[1..]));
    }
  }

  lemma {:induction false} AllFitting(ps: seq<bytes>)
    requires forall p :: p in ps ==> |p| <= 1502
    ensures Fitting(ps) == ps
  {
    if ps != [] {
      AllFitting(ps[1..]);
    }
  }

  /** A decoder that waits in the middle of a frame, at whatever point, takes the
      very next one. */
  lemma Resynchronises(d: Decoder, p: bytes, k: nat, q: bytes)
    requires Waiting(d) && 2 <= k <= |Encode(p)| && |q| <= 1502
    ensures Run(d, Encode(p)[k..] + Encode(q)) == d.(sent := d.sent + [q])
  {
    hide Encode, StepByte;
    var s := Encode(p)[k..];
    forall j | 0 <= j < |s| ensures s[j] != FRAME_ADDR { OneAddressPerFrame(p, k + j); }
    NoAddressNoChange(d, s);
    RunConcat(d, s, Encode(q));
    FrameDecodes(d, q);
  }

  // -------------------------------------------------------------------- chunks

  function RunChunks(d: Decoder, chunks: seq<bytes>): Decoder
    decreases |chunks|
  {
    if chunks == [] then d else RunChunks(Run(d, chunks[0]), chunks[1..])
  }

  lemma {:induction false} ChunksDoNotMatter(d: Decoder, chunks: seq<bytes>)
    ensures RunChunks(d, chunks) == Run(d, Join(chunks))
    decreases |chunks|
  {
    hide StepByte;
    if chunks != [] {
      RunConcat(d, chunks[0], Join(chunks[1..]));
      ChunksDoNotMatter(Run(d, chunks[0]), chunks[1..]);
    }
  }

  /** Payloads of at most 1502 bytes, encoded and cut into reads anywhere, come out
      as they went in. */
  lemma StreamRoundTrip(ps: seq<bytes>, chunks: seq<bytes>)
    requires (forall p :: p in ps ==> |p| <= 1502) && Join(chunks) == EncodeAll(ps)
    ensures RunChunks(INITIAL, chunks) == INITIAL.(sent := ps)
  {
    hide StepByte, Encode;
    ChunksDoNotMatter(INITIAL, chunks);
    FramesDecode(INITIAL, ps);
    AllFitting(ps);
    assert [] + ps == ps;
  }
}
