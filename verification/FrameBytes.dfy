/** The two byte stuffings on the wire (section 4.2 of RFC 1662): which bytes are
    escaped and how, what never stands between two flags, and what a receiver that only
    knows the escape gets back. */
module FrameBytes {
  import opened Octets
  import opened AsyncFraming
  import SyncAsync
  import Fcs

  /** The escape turns bit 5 over and leaves the other bits. */
  lemma {:induction false} EscapeIs(high: nat, bit: nat, low: nat)
    requires high < 4 && bit < 2 && low < 32
    ensures Enc(64 * high + 32 * bit + low) == 64 * high + 32 * (1 - bit) + low
  {
    assert (64 * high + 32 * bit + low) / 32 == 2 * high + bit;
  }

  /** What a receiver makes of a stuffed string: a byte behind an escape has its bit 5 turned. */
  function Unstuffed(w: bytes): bytes {
    if w == [] then []
    else if w[0] == 0x7D && |w| > 1 then [Flipped(w[1])] + Unstuffed(w[2..])
    else [w[0]] + Unstuffed(w[1..])
  }

  function Flipped(c: byte): byte { if c % 64 < 32 then c + 32 else c - 32 }

  /** One byte on the wire: control characters, the escape and the flag are escaped by
      both daemons, the address by pppoe only, and nothing else is. */
  function OnWire(c: byte, address: bool): bytes {
    if c < 0x20 || c == 0x7D || c == 0x7E || (address && c == 0xFF) then [0x7D, Flipped(c)] else [c]
  }

  function AllOnWire(s: bytes, address: bool): bytes {
    if s == [] then [] else OnWire(s[0], address) + AllOnWire(s[1..], address)
  }

  lemma {:induction false} StuffIs(s: bytes)
    ensures Stuff(s) == AllOnWire(s, true)
  {
    if s != [] {
      StuffIs(s[1..]);
    }
  }

  lemma {:induction false} AllSnoc(s: bytes, c: byte, address: bool)
    ensures AllOnWire(s + [c], address) == AllOnWire(s, address) + OnWire(c, address)
  {
    hide OnWire;
    if s == [] {
      assert [c][1..] == [] && s + [c] == [c];
    } else {
      AllSnoc(s[1..], c, address);
      assert (s + [c])[1..] == s[1..] + [c];
    }
  }

  lemma {:induction false} OneIs(c: byte)
    ensures SyncAsync.StuffOne(c) == OnWire(c, false)
  {
  }

  lemma {:induction false} StuffedIs(s: bytes)
    ensures SyncAsync.Stuffed(s) == AllOnWire(s, false)
    decreases |s|
  {
    if s != [] {
      OneIs(s[|s| - 1]);
      hide OnWire, SyncAsync.StuffOne, AllOnWire;
      StuffedIs(s[..|s| - 1]);
      AllSnoc(s[..|s| - 1], s[|s| - 1], false);
      assert s[..|s| - 1] + [s[|s| - 1]] == s;
    }
  }

  /** No control character and no flag stands in a stuffed string, and no address if that
      is escaped too. */
  lemma {:induction false} NothingReserved(s: bytes, address: bool)
    ensures forall c :: c in AllOnWire(s, address) ==> c >= 0x20 && c != 0x7E && (address ==> c != 0xFF)
  {
    if s != [] {
      NothingReserved(s[1..], address);
    }
  }

  /** A receiver that knows the escape gets the string back, from either stuffing. */
  lemma {:induction false} UnstuffedIs(s: bytes, address: bool)
    ensures Unstuffed(AllOnWire(s, address)) == s
  {
    if s != [] {
      UnstuffedIs(s[1..], address);
      var w, rest := OnWire(s[0], address), AllOnWire(s[1..], address);
      assert (w + rest)[|w|..] == rest;
    }
  }

  /** A frame from pppoe to pppd: between two flags the address, the escaped control byte
      and the stuffed payload and check; no other flag, and no control character. */
  lemma {:induction false} FrameOnWire(p: bytes)
    ensures var w := AllOnWire(p + Tail(p), true);
            && Encode(p) == [0x7E, 0xFF, 0x7D, 0x23] + w + [0x7E]
            && Unstuffed(w) == p + Tail(p)
            && forall c :: c in w ==> c >= 0x20 && c !in {0x7E, 0xFF}
  {
    hide Tail, AllOnWire, Unstuffed, Stuff;
    StuffIs(p + Tail(p));
    UnstuffedIs(p + Tail(p), true);
    NothingReserved(p + Tail(p), true);
    assert Enc(FRAME_CTRL) == 0x23;
  }

  /** A frame from xl2tpd to pppd. */
  lemma {:induction false} PacketOnWire(p: bytes)
    ensures var w := AllOnWire(SyncAsync.WithFcs(p), false);
            && SyncAsync.Frame(p) == [0x7E] + w + [0x7E]
            && Unstuffed(w) == SyncAsync.WithFcs(p)
            && forall c :: c in w ==> c >= 0x20 && c != 0x7E
  {
    hide SyncAsync.WithFcs, AllOnWire, Unstuffed, SyncAsync.Stuffed;
    StuffedIs(SyncAsync.WithFcs(p));
    UnstuffedIs(SyncAsync.WithFcs(p), false);
    NothingReserved(SyncAsync.WithFcs(p), false);
  }

  lemma {:induction false} AtMostTwice(s: bytes, address: bool)
    ensures |s| <= |AllOnWire(s, address)| <= 2 * |s|
  {
    if s != [] {
      AtMostTwice(s[1..], address);
    }
  }

  /** Any packet of at most 2044 bytes is framed, and none of 4090 bytes or more. */
  lemma {:induction false} RoomForPackets(p: bytes)
    ensures |p| <= 2044 ==> SyncAsync.Fits(SyncAsync.WithFcs(p))
    ensures |p| >= 4090 ==> !SyncAsync.Fits(SyncAsync.WithFcs(p))
  {
    hide AllOnWire, SyncAsync.Stuffed;
    var s := SyncAsync.WithFcs(p);
    StuffedIs(s[..|s| - 1]);
    AtMostTwice(s[..|s| - 1], false);
  }

  // ----------------------------------------------------------------- reading

  lemma {:induction false} AllConcat(a: bytes, b: bytes, address: bool)
    ensures AllOnWire(a + b, address) == AllOnWire(a, address) + AllOnWire(b, address)
  {
    hide OnWire;
    if a == [] {
      assert a + b == b;
    } else {
      AllConcat(a[1..], b, address);
      assert (a + b)[0] == a[0] && (a + b)[1..] == a[1..] + b;
    }
  }

  /** A byte that no longer fits the buffer is an error, escaped or not. */
  lemma {:induction false} NoRoom(data: bytes, c: byte, rest: bytes)
    ensures SyncAsync.ReadPacket(data, false, OnWire(c, false) + rest, |data|) == SyncAsync.Bad
  {
    var input := OnWire(c, false) + rest;
    if c < 0x20 || c == 0x7D || c == 0x7E {
      assert input[0] == 0x7D && input[1..][0] == Flipped(c) && Flipped(c) !in {0x7D, 0x7E};
    } else {
      assert input[0] == c;
    }
  }

  /** A frame is read back as the packet with everything behind it untouched if the packet
      and its check fit the buffer, and is an error otherwise. */
  lemma {:induction false} ReadBackExactly(p: bytes, rest: bytes, maxlen: nat)
    ensures SyncAsync.ReadPacket([], false, SyncAsync.Frame(p) + rest, maxlen) ==
              if |p| + 2 <= maxlen then SyncAsync.Packet(p, rest) else SyncAsync.Bad
  {
    hide SyncAsync.WithFcs, SyncAsync.ReadPacket, SyncAsync.Stuffed, AllOnWire, OnWire;
    if |p| + 2 <= maxlen {
      SyncAsync.FrameIsReadBack(p, rest, maxlen);
    } else {
      var s := SyncAsync.WithFcs(p);
      var front, c, back := s[..maxlen], s[maxlen], s[maxlen + 1..];
      SplitOnWire(s, maxlen);
      StuffedIs(s);
      StuffedIs(front);
      var behind := AllOnWire(back, false) + [FRAME_FLAG] + rest;
      assert SyncAsync.Frame(p) + rest
          == [FRAME_FLAG] + (SyncAsync.Stuffed(front) + (OnWire(c, false) + behind));
      SyncAsync.OpeningFlag(SyncAsync.Stuffed(front) + (OnWire(c, false) + behind), maxlen);
      SyncAsync.ReadStuffed(front, OnWire(c, false) + behind, maxlen);
      NoRoom(front, c, behind);
    }
  }

  lemma {:induction false} SplitOnWire(s: bytes, k: nat)
    requires k < |s|
    ensures AllOnWire(s, false) == AllOnWire(s[..k], false) + OnWire(s[k], false) + AllOnWire(s[k + 1..], false)
  {
    AllConcat(s[..k + 1], s[k + 1..], false);
    AllSnoc(s[..k], s[k], false);
    assert s[..k + 1] + s[k + 1..] == s && s[..k] + [s[k]] == s[..k + 1];
  }

  /** Odd ends: an escaped flag is an error, a flag after one byte gives that byte, and
      input that ends is asked for more. */
  lemma {:induction false} OddEnds(data: bytes, c: byte, rest: bytes, maxlen: nat)
    ensures SyncAsync.ReadPacket(data, false, [0x7D, 0x7E] + rest, maxlen) == SyncAsync.Bad
    ensures SyncAsync.ReadPacket([c], false, [0x7E] + rest, maxlen) == SyncAsync.Packet([c], rest)
    ensures SyncAsync.ReadPacket(data, false, [], maxlen) == SyncAsync.More(data, false)
  {
    assert ([0x7D, 0x7E] + rest)[1..] == [0x7E] + rest && ([0x7E] + rest)[1..] == rest;
    assert ([0x7E] + rest)[0] == 0x7E;
  }

  // --------------------------------------------------------- the check value

  /** The check value of the nine digits "123456789" is 0x906e. */
  lemma {:induction false} CheckValue()
    ensures var digits := [0x31, 0x32, 0x33, 0x34, 0x35, 0x36, 0x37, 0x38, 0x39];
            Fcs.Divide(0xffff, digits) == 0x6f91 && 0x6f91 ^ 0xffff == 0x906e as bv16
  {
    hide Fcs.Feed, Fcs.Divide;
    var digits: Fcs.Message := [0x31, 0x32, 0x33, 0x34, 0x35, 0x36, 0x37, 0x38, 0x39];
    FirstDigits();
    MiddleDigits();
    LastDigits();
    Three(0xffff, digits);
    assert digits[3..][0] == 0x34 && digits[3..][1] == 0x35 && digits[3..][2] == 0x36;
    Three(0x634b, digits[3..]);
    assert digits[3..][3..] == digits[6..];
    assert digits[6..][0] == 0x37 && digits[6..][1] == 0x38 && digits[6..][2] == 0x39;
    Three(0x198d, digits[6..]);
    assert digits[6..][3..] == [];
    Nothing(0x6f91);
  }

  lemma {:induction false} Nothing(fcs: bv16)
    ensures Fcs.Divide(fcs, []) == fcs
  {
  }

  lemma {:induction false} Three(fcs: bv16, m: Fcs.Message)
    requires |m| >= 3
    ensures Fcs.Divide(fcs, m) == Fcs.Divide(Fcs.Feed(Fcs.Feed(Fcs.Feed(fcs, m[0]), m[1]), m[2]), m[3..])
  {
    hide Fcs.Feed;
    One(fcs, m);
    One(Fcs.Feed(fcs, m[0]), m[1..]);
    One(Fcs.Feed(Fcs.Feed(fcs, m[0]), m[1]), m[2..]);
    assert m[1..][1..] == m[2..] && m[2..][1..] == m[3..];
  }

  lemma {:induction false} One(fcs: bv16, m: Fcs.Message)
    requires m != []
    ensures Fcs.Divide(fcs, m) == Fcs.Divide(Fcs.Feed(fcs, m[0]), m[1..])
  {
  }

  lemma {:induction false} FirstDigits()
    ensures Fcs.Feed(0xffff, 0x31) == 0x2f8d && Fcs.Feed(0x2f8d, 0x32) == 0x4d53 && Fcs.Feed(0x4d53, 0x33) == 0x634b
  {
  }

  lemma {:induction false} MiddleDigits()
    ensures Fcs.Feed(0x634b, 0x34) == 0x8b13 && Fcs.Feed(0x8b13, 0x35) == 0x44bf && Fcs.Feed(0x44bf, 0x36) == 0x198d
  {
  }

  lemma {:induction false} LastDigits()
    ensures Fcs.Feed(0x198d, 0x37) == 0x1ac8 && Fcs.Feed(0x1ac8, 0x38) == 0xf795 && Fcs.Feed(0xf795, 0x39) == 0x6f91
  {
  }
}
