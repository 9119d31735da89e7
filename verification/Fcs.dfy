/** The 16-bit frame check sequence of PPP (Appendix C of RFC 1662): the table both
    daemons use, against bit-by-bit division by the reflected polynomial. */
module Fcs {
  type Message = seq<bv8>

  const PPP_INITFCS: bv16 := 0xffff
  const PPP_GOODFCS: bv16 := 0xf0b8
  const POLYNOMIAL: bv16 := 0x8408

  const ROW_0: seq<bv16> := [0x0000, 0x1189, 0x2312, 0x329b, 0x4624, 0x57ad, 0x6536, 0x74bf,
    0x8c48, 0x9dc1, 0xaf5a, 0xbed3, 0xca6c, 0xdbe5, 0xe97e, 0xf8f7]
  const ROW_1: seq<bv16> := [0x1081, 0x0108, 0x3393, 0x221a, 0x56a5, 0x472c, 0x75b7, 0x643e,
    0x9cc9, 0x8d40, 0xbfdb, 0xae52, 0xdaed, 0xcb64, 0xf9ff, 0xe876]
  const ROW_2: seq<bv16> := [0x2102, 0x308b, 0x0210, 0x1399, 0x6726, 0x76af, 0x4434, 0x55bd,
    0xad4a, 0xbcc3, 0x8e58, 0x9fd1, 0xeb6e, 0xfae7, 0xc87c, 0xd9f5]
  const ROW_3: seq<bv16> := [0x3183, 0x200a, 0x1291, 0x0318, 0x77a7, 0x662e, 0x54b5, 0x453c,
    0xbdcb, 0xac42, 0x9ed9, 0x8f50, 0xfbef, 0xea66, 0xd8fd, 0xc974]
  const ROW_4: seq<bv16> := [0x4204, 0x538d, 0x6116, 0x709f, 0x0420, 0x15a9, 0x2732, 0x36bb,
    0xce4c, 0xdfc5, 0xed5e, 0xfcd7, 0x8868, 0x99e1, 0xab7a, 0xbaf3]
  const ROW_5: seq<bv16> := [0x5285, 0x430c, 0x7197, 0x601e, 0x14a1, 0x0528, 0x37b3, 0x263a,
    0xdecd, 0xcf44, 0xfddf, 0xec56, 0x98e9, 0x8960, 0xbbfb, 0xaa72]
  const ROW_6: seq<bv16> := [0x6306, 0x728f, 0x4014, 0x519d, 0x2522, 0x34ab, 0x0630, 0x17b9,
    0xef4e, 0xfec7, 0xcc5c, 0xddd5, 0xa96a, 0xb8e3, 0x8a78, 0x9bf1]
  const ROW_7: seq<bv16> := [0x7387, 0x620e, 0x5095, 0x411c, 0x35a3, 0x242a, 0x16b1, 0x0738,
    0xffcf, 0xee46, 0xdcdd, 0xcd54, 0xb9eb, 0xa862, 0x9af9, 0x8b70]
  const ROW_8: seq<bv16> := [0x8408, 0x9581, 0xa71a, 0xb693, 0xc22c, 0xd3a5, 0xe13e, 0xf0b7,
    0x0840, 0x19c9, 0x2b52, 0x3adb, 0x4e64, 0x5fed, 0x6d76, 0x7cff]
  const ROW_9: seq<bv16> := [0x9489, 0x8500, 0xb79b, 0xa612, 0xd2ad, 0xc324, 0xf1bf, 0xe036,
    0x18c1, 0x0948, 0x3bd3, 0x2a5a, 0x5ee5, 0x4f6c, 0x7df7, 0x6c7e]
  const ROW_A: seq<bv16> := [0xa50a, 0xb483, 0x8618, 0x9791, 0xe32e, 0xf2a7, 0xc03c, 0xd1b5,
    0x2942, 0x38cb, 0x0a50, 0x1bd9, 0x6f66, 0x7eef, 0x4c74, 0x5dfd]
  const ROW_B: seq<bv16> := [0xb58b, 0xa402, 0x9699, 0x8710, 0xf3af, 0xe226, 0xd0bd, 0xc134,
    0x39c3, 0x284a, 0x1ad1, 0x0b58, 0x7fe7, 0x6e6e, 0x5cf5, 0x4d7c]
  const ROW_C: seq<bv16> := [0xc60c, 0xd785, 0xe51e, 0xf497, 0x8028, 0x91a1, 0xa33a, 0xb2b3,
    0x4a44, 0x5bcd, 0x6956, 0x78df, 0x0c60, 0x1de9, 0x2f72, 0x3efb]
  const ROW_D: seq<bv16> := [0xd68d, 0xc704, 0xf59f, 0xe416, 0x90a9, 0x8120, 0xb3bb, 0xa232,
    0x5ac5, 0x4b4c, 0x79d7, 0x685e, 0x1ce1, 0x0d68, 0x3ff3, 0x2e7a]
  const ROW_E: seq<bv16> := [0xe70e, 0xf687, 0xc41c, 0xd595, 0xa12a, 0xb0a3, 0x8238, 0x93b1,
    0x6b46, 0x7acf, 0x4854, 0x59dd, 0x2d62, 0x3ceb, 0x0e70, 0x1ff9]
  const ROW_F: seq<bv16> := [0xf78f, 0xe606, 0xd49d, 0xc514, 0xb1ab, 0xa022, 0x92b9, 0x8330,
    0x7bc7, 0x6a4e, 0x58d5, 0x495c, 0x3de3, 0x2c6a, 0x1ef1, 0x0f78]

  /** The 256 entries, sixteen to a row. */
  const FCSTAB: seq<seq<bv16>> := [ROW_0, ROW_1, ROW_2, ROW_3, ROW_4, ROW_5, ROW_6, ROW_7,
                                   ROW_8, ROW_9, ROW_A, ROW_B, ROW_C, ROW_D, ROW_E, ROW_F]

  function Entry(i: bv8): bv16 {
    RowOf(i >> 4);
    InRow(((i >> 4) as bv16) << 4, i & 15);
    FCSTAB[(i >> 4) as int][(i & 15) as int]
  }

  /** One bit of the division, the eight bits of a byte, and a whole message. */
  function Bit(x: bv16): bv16 { if x & 1 == 1 then (x >> 1) ^ POLYNOMIAL else x >> 1 }

  function Bits(x: bv16): bv16 { Bit(Bit(Bit(Bit(Bit(Bit(Bit(Bit(x)))))))) }

  function Feed(fcs: bv16, c: bv8): bv16 { Bits(fcs ^ (c as bv16)) }

  function Divide(fcs: bv16, m: Message): bv16
    decreases |m|
  {
    if m == [] then fcs else Divide(Feed(fcs, m[0]), m[1..])
  }

  // --------------------------------------------------------------------- table

  /** What a row that starts at `x` has to hold. */
  function Divided(x: bv16): seq<bv16> {
    [Bits(x), Bits(x + 1), Bits(x + 2), Bits(x + 3), Bits(x + 4), Bits(x + 5), Bits(x + 6), Bits(x + 7)]
    + [Bits(x + 8), Bits(x + 9), Bits(x + 10), Bits(x + 11), Bits(x + 12), Bits(x + 13), Bits(x + 14), Bits(x + 15)]
  }

  lemma Row0()
    ensures ROW_0 == Divided(0x00)
  {
  }

  lemma Row1()
    ensures ROW_1 == Divided(0x10)
  {
  }

  lemma Row2()
    ensures ROW_2 == Divided(0x20)
  {
  }

  lemma Row3()
    ensures ROW_3 == Divided(0x30)
  {
  }

  lemma Row4()
    ensures ROW_4 == Divided(0x40)
  {
  }

  lemma Row5()
    ensures ROW_5 == Divided(0x50)
  {
  }

  lemma Row6()
    ensures ROW_6 == Divided(0x60)
  {
  }

  lemma Row7()
    ensures ROW_7 == Divided(0x70)
  {
  }

  lemma Row8()
    ensures ROW_8 == Divided(0x80)
  {
  }

  lemma Row9()
    ensures ROW_9 == Divided(0x90)
  {
  }

  lemma RowA()
    ensures ROW_A == Divided(0xA0)
  {
  }

  lemma RowB()
    ensures ROW_B == Divided(0xB0)
  {
  }

  lemma RowC()
    ensures ROW_C == Divided(0xC0)
  {
  }

  lemma RowD()
    ensures ROW_D == Divided(0xD0)
  {
  }

  lemma RowE()
    ensures ROW_E == Divided(0xE0)
  {
  }

  lemma RowF()
    ensures ROW_F == Divided(0xF0)
  {
  }

  lemma RowOf(h: bv8)
    requires h < 16
    ensures |FCSTAB| == 16 && FCSTAB[h as int] == Divided((h as bv16) << 4)
  {
    hide Divided;
    if h == 0 {
      Row0();
    } else if h == 1 {
      Row1();
    } else if h == 2 {
      Row2();
    } else if h == 3 {
      Row3();
    } else if h == 4 {
      Row4();
    } else if h == 5 {
      Row5();
    } else if h == 6 {
      Row6();
    } else if h == 7 {
      Row7();
    } else if h == 8 {
      Row8();
    } else if h == 9 {
      Row9();
    } else if h == 10 {
      RowA();
    } else if h == 11 {
      RowB();
    } else if h == 12 {
      RowC();
    } else if h == 13 {
      RowD();
    } else if h == 14 {
      RowE();
    } else if h == 15 {
      RowF();
    }
  }

  lemma InRow(x: bv16, l: bv8)
    requires l < 16
    ensures |Divided(x)| == 16 && Divided(x)[l as int] == Bits(x + (l as bv16))
  {
    hide Bits;
    assert l == 0 || l == 1 || l == 2 || l == 3 || l == 4 || l == 5 || l == 6 || l == 7
        || l == 8 || l == 9 || l == 10 || l == 11 || l == 12 || l == 13 || l == 14 || l == 15;
  }

  /** Every entry of the table is the division of its own index. */
  lemma TableDivides(i: bv8)
    ensures Entry(i) == Bits(i as bv16)
  {
    hide Bits, Divided;
    RowOf(i >> 4);
    InRow(((i >> 4) as bv16) << 4, i & 15);
    Halves(i);
  }

  lemma Halves(i: bv8)
    ensures (((i >> 4) as bv16) << 4) + ((i & 15) as bv16) == i as bv16
  {
  }

  /** The byte that selects the table entry. */
  function LowByte(fcs: bv16, c: bv8): bv8 { ((fcs ^ (c as bv16)) & 0xff) as bv8 }

  /** One step of `pppFCS16` and of the macro `PPP_FCS`. */
  function Update(fcs: bv16, c: bv8): bv16 { (fcs >> 8) ^ Entry(LowByte(fcs, c)) }

  function Mixed(h: bv16, l: bv16): bv16 { h ^ l }

  function Halved(h: bv16): bv16 { h >> 1 }

  predicate Even(h: bv16) { h & 1 == 0 }

  lemma LowBitKept(h: bv16, l: bv16)
    requires Even(h)
    ensures Even(Mixed(h, l)) == Even(l)
  {
  }

  lemma HalvedMixed(h: bv16, l: bv16)
    ensures Halved(Mixed(h, l)) == Mixed(Halved(h), Halved(l))
  {
  }

  lemma MixedAssociates(a: bv16, b: bv16, c: bv16)
    ensures Mixed(Mixed(a, b), c) == Mixed(a, Mixed(b, c))
  {
  }

  lemma BitIs(x: bv16)
    ensures Bit(x) == if Even(x) then Halved(x) else Mixed(Halved(x), POLYNOMIAL)
  {
  }

  /** A bit of the division does nothing but shift what lies above it. */
  lemma BitSplits(h: bv16, l: bv16)
    requires Even(h)
    ensures Bit(Mixed(h, l)) == Mixed(Halved(h), Bit(l))
  {
    hide Bit, Mixed, Halved, Even;
    BitIs(Mixed(h, l));
    BitIs(l);
    LowBitKept(h, l);
    HalvedMixed(h, l);
    MixedAssociates(Halved(h), Halved(l), POLYNOMIAL);
  }

  function Halved4(h: bv16): bv16 { Halved(Halved(Halved(Halved(h)))) }

  predicate Even4(h: bv16) { Even(h) && Even(Halved(h)) && Even(Halved(Halved(h))) && Even(Halved(Halved(Halved(h)))) }

  function Bits4(x: bv16): bv16 { Bit(Bit(Bit(Bit(x)))) }

  lemma FourSplit(h: bv16, l: bv16)
    requires Even4(h)
    ensures Bits4(Mixed(h, l)) == Mixed(Halved4(h), Bits4(l))
  {
    hide Bit, Mixed, Halved, Even;
    BitSplits(h, l);
    BitSplits(Halved(h), Bit(l));
    BitSplits(Halved(Halved(h)), Bit(Bit(l)));
    BitSplits(Halved(Halved(Halved(h))), Bit(Bit(Bit(l))));
  }

  /** Eight bits shift the high byte down and divide the low one. */
  lemma ByteSplits(h: bv16, l: bv16)
    requires Even4(h) && Even4(Halved4(h))
    ensures Bits(Mixed(h, l)) == Mixed(Halved4(Halved4(h)), Bits(l))
  {
    hide Bit, Mixed, Halved4, Even4;
    FourSplit(h, l);
    FourSplit(Halved4(h), Bits4(l));
  }

  function HighPart(x: bv16): bv16 { x & 0xff00 }

  function ShiftedByte(x: bv16): bv16 { x >> 8 }

  lemma HighByte(x: bv16)
    ensures var h := HighPart(x); Even4(h) && Even4(Halved4(h)) && Halved4(Halved4(h)) == ShiftedByte(x)
  {
  }

  function Received(fcs: bv16, c: bv8): bv16 { fcs ^ (c as bv16) }

  lemma LowAndHigh(fcs: bv16, c: bv8)
    ensures Mixed(HighPart(Received(fcs, c)), LowByte(fcs, c) as bv16) == Received(fcs, c)
    ensures ShiftedByte(Received(fcs, c)) == ShiftedByte(fcs)
  {
  }

  /** The table takes care of the low byte, the shift of the high one. */
  lemma SplitBytes(fcs: bv16, c: bv8)
    ensures Feed(fcs, c) == Mixed(ShiftedByte(fcs), Bits(LowByte(fcs, c) as bv16))
  {
    FeedIs(fcs, c);
    hide Bits, LowByte, Even4, Halved4, Mixed, HighPart, ShiftedByte, Received, Feed;
    HighByte(Received(fcs, c));
    LowAndHigh(fcs, c);
    ByteSplits(HighPart(Received(fcs, c)), LowByte(fcs, c) as bv16);
  }

  lemma FeedIs(fcs: bv16, c: bv8)
    ensures Feed(fcs, c) == Bits(Received(fcs, c))
  {
  }

  lemma UpdateIs(fcs: bv16, c: bv8)
    ensures Update(fcs, c) == Mixed(ShiftedByte(fcs), Entry(LowByte(fcs, c)))
  {
    hide Entry, LowByte;
  }

  lemma UpdateDivides(fcs: bv16, c: bv8)
    ensures Update(fcs, c) == Feed(fcs, c)
  {
    hide Bits, Entry, LowByte, Feed, Update, Mixed, ShiftedByte;
    UpdateIs(fcs, c);
    TableDivides(LowByte(fcs, c));
    SplitBytes(fcs, c);
  }

  // ------------------------------------------------------------------ messages

  lemma {:induction false} DivideConcat(fcs: bv16, a: Message, b: Message)
    ensures Divide(fcs, a + b) == Divide(Divide(fcs, a), b)
    decreases |a|
  {
    hide Feed;
    if a == [] {
      assert a + b == b;
    } else {
      assert (a + b)[1..] == a[1..] + b;
      DivideConcat(Feed(fcs, a[0]), a[1..], b);
    }
  }

  lemma DivideOneMore(fcs: bv16, m: Message, c: bv8)
    ensures Divide(fcs, m + [c]) == Update(Divide(fcs, m), c)
  {
    hide Feed, Update;
    DivideConcat(fcs, m, [c]);
    UpdateDivides(Divide(fcs, m), c);
    assert [c][1..] == [];
  }

  /** The two bytes sent behind a message: the complement, low byte first. */
  function Trailer(fcs: bv16): (t: Message)
    ensures |t| == 2
  {
    [Low(fcs ^ 0xffff), High(fcs ^ 0xffff)]
  }

  function Low(x: bv16): bv8 { (x & 0xff) as bv8 }
  function High(x: bv16): bv8 { (x >> 8) as bv8 }

  /** Among all pairs of bytes only the complement leads to the good residue. */
  lemma OnlyComplementIsGood(fcs: bv16, lo: bv8, hi: bv8)
    ensures Feed(Feed(fcs, lo), hi) == PPP_GOODFCS <==> Trailer(fcs) == [lo, hi]
  {
    ResidueBits(fcs, lo, hi);
    hide Feed, Low, High;
    assert Trailer(fcs) == [Low(fcs ^ 0xffff), High(fcs ^ 0xffff)];
    assert Trailer(fcs) == [lo, hi] <==> (lo == Trailer(fcs)[0] && hi == Trailer(fcs)[1]);
  }

  lemma ResidueBits(fcs: bv16, lo: bv8, hi: bv8)
    ensures var g := fcs ^ 0xffff;
            Feed(Feed(fcs, lo), hi) == PPP_GOODFCS
            <==> (lo == Low(g) && hi == High(g))
  {
  }

  lemma DivideTwo(fcs: bv16, lo: bv8, hi: bv8)
    ensures Divide(fcs, [lo, hi]) == Feed(Feed(fcs, lo), hi)
  {
    hide Feed;
    assert [lo, hi][1..] == [hi] && [hi][1..] == [];
    assert Divide(Feed(fcs, lo), [hi]) == Feed(Feed(fcs, lo), hi);
  }

  /** A received message has the good residue exactly when its last two bytes are
      the check sequence of the others. */
  lemma GoodExactly(m: Message, lo: bv8, hi: bv8)
    ensures Divide(PPP_INITFCS, m + [lo, hi]) == PPP_GOODFCS <==> Trailer(Divide(PPP_INITFCS, m)) == [lo, hi]
  {
    hide Feed, Divide, Trailer;
    var fcs := Divide(PPP_INITFCS, m);
    DivideConcat(PPP_INITFCS, m, [lo, hi]);
    DivideTwo(fcs, lo, hi);
    OnlyComplementIsGood(fcs, lo, hi);
  }

  /** `pppFCS16`. */
  method PppFcs16(fcs0: bv16, cp: Message) returns (fcs: bv16)
    ensures fcs == Divide(fcs0, cp)
  {
    hide Divide, Update;
    fcs := fcs0;
    assert Divide(fcs0, []) == fcs0 by { DivideNothing(fcs0); }
    for i := 0 to |cp|
      invariant fcs == Divide(fcs0, cp[..i])
    {
      DivideOneMore(fcs0, cp[..i], cp[i]);
      assert cp[..i + 1] == cp[..i] + [cp[i]];
      fcs := Update(fcs, cp[i]);
    }
    assert cp[..|cp|] == cp;
  }

  lemma DivideNothing(fcs: bv16)
    ensures Divide(fcs, []) == fcs
  {
  }

  /** `add_fcs`: the complement goes behind the packet, low byte first. */
  method AddFcs(buf: array<bv8>, len: nat) returns (newLen: nat)
    requires len + 2 <= buf.Length
    modifies buf
    ensures newLen == len + 2 && buf[..len] == old(buf[..len]) && buf[newLen..] == old(buf[len + 2..])
    ensures buf[len..newLen] == Trailer(Divide(PPP_INITFCS, old(buf[..len])))
    ensures Divide(PPP_INITFCS, buf[..newLen]) == PPP_GOODFCS
  {
    hide Divide, Update, Low, High;
    ghost var m := buf[..len];
    var fcs := PppFcs16(PPP_INITFCS, buf[..len]);
    ghost var f := fcs;
    fcs := fcs ^ 0xffff;
    var lo, hi := Low(fcs), High(fcs);
    buf[len] := lo;
    buf[len + 1] := hi;
    newLen := len + 2;
    assert Trailer(f) == [lo, hi];
    assert buf[..newLen] == m + [lo, hi] && buf[len..newLen] == [lo, hi];
    GoodExactly(m, lo, hi);
  }
}
