/** Control message bodies as the `add_*_avp` builders and `encrypt_avp` make them,
    and what the walk makes of such a body. */
module AvpMessage {
  import opened Octets
  import opened Md5
  import opened AvpHiding
  import opened AvpWalk

  /** An AVP as it is sent: plain, or hidden with `pad` behind its value. */
  datatype Item = Plain(avp: Avp) | Hidden(avp: Avp, pad: bytes)

  /** The builders set the M bit or no flag at all; the whole AVP is at most 1023 bytes. */
  predicate Sendable(avp: Avp, room: nat) {
    avp.fl in {0, 8} && avp.attr <= AVP_MAX && AVP_HDR + |avp.value| + room <= MAXAVPSIZE
  }

  predicate Fits<S>(p: Peer<S>, item: Item, s: S) {
    match item
    case Plain(avp) => Sendable(avp, 0)
    case Hidden(avp, pad) =>
      Sendable(avp, 2 + |pad|) && (2 + |avp.value + pad|) % MD_SIG_SIZE == 0 && p.keys(s).Has?
  }

  function PlainWire(avp: Avp): (w: bytes)
    requires Sendable(avp, 0)
    ensures |w| == AVP_HDR + |avp.value|
  {
    BigHeader(Word(avp.fl, AVP_HDR + |avp.value|), avp.vendor, avp.attr) + avp.value
  }

  /** The bytes on the wire; a hidden AVP uses the secrets the reader holds by then. */
  function Wire<S>(p: Peer<S>, item: Item, s: S): (w: bytes)
    requires Fits(p, item, s)
    ensures AVP_HDR <= |w| <= MAXAVPSIZE
  {
    match item
    case Plain(avp) => PlainWire(avp)
    case Hidden(avp, pad) =>
      HiddenAvp(p.f, p.keys(s).keys, avp.fl, avp.vendor, avp.attr, |avp.value|, avp.value + pad)
  }

  ghost predicate AllFit<S>(p: Peer<S>, items: seq<Item>, s: S)
    decreases |items|
  {
    items != [] ==> Fits(p, items[0], s) && AllFit(p, items[1..], Deliver(p, items[0].avp, s).state)
  }

  /** The message body. */
  function Body<S>(p: Peer<S>, items: seq<Item>, s: S): bytes
    requires AllFit(p, items, s)
    decreases |items|
  {
    if items == [] then []
    else Wire(p, items[0], s) + Body(p, items[1..], Deliver(p, items[0].avp, s).state)
  }

  /** Every AVP given to its handler in order, until one is refused. */
  function DeliverAll<S>(p: Peer<S>, items: seq<Item>, s: S): (o: Outcome<S>)
    requires AllFit(p, items, s)
    ensures o != Overrun
    decreases |items|
  {
    if items == [] then Accepted(s, [])
    else
      match Deliver(p, items[0].avp, s)
      case Fatal(why, s') => Rejected(why, s')
      case Done(s') => Ahead(|Wire(p, items[0], s)|, DeliverAll(p, items[1..], s'))
  }

  // ------------------------------------------------------------------ one item

  /** A loop turn that goes well up to the handler. */
  ghost predicate Handed<S>(p: Peer<S>, h: bytes, r: Step<S>, at: nat, used: nat, avp: Avp, s: S)
    requires at + used <= |h|
  {
    && |r.mem| == |h| && r.mem[at + used..] == h[at + used..]
    && match Deliver(p, avp, s)
       case Done(s') => r.Go? && r.used == used && r.state == s'
       case Fatal(why, s') => r.Halt? && r.why == why && r.state == s'
  }

  lemma FlagBits(fl: Flags, n: nat)
    requires n <= MAXAVPSIZE && fl in {0, 4, 8, 12}
    ensures var w := Word(fl, n);
            && Length(w) == n && !ReservedBits(w) && HiddenBit(w) == (fl in {4, 12}) && Mandatory(w) == (fl >= 8)
  {
    WordParts(if fl == 0 then 0 else if fl == 4 then 16 else if fl == 8 then 32 else 48, n);
  }

  lemma WordParts(k: nat, n: nat)
    requires k in {0, 16, 32, 48} && n <= MAXAVPSIZE
    ensures var w := 1024 * k + n;
            w % 1024 == n && w / 1024 == k && w / 16384 == k / 16 && w / 32768 == k / 32
  {
    var w := 1024 * k + n;
    assert w / 1024 == k;
    assert w == 16384 * (k / 16) + n && w == 32768 * (k / 32) + 16384 * (k / 16 % 2) + n;
  }

  lemma OverSelf(m: bytes, at: nat, s: bytes)
    requires at + |s| <= |m| && m[at..at + |s|] == s
    ensures Over(m, at, s) == m
  {
    assert m == m[..at] + m[at..at + |s|] + m[at + |s|..];
  }

  /** A header in host order, with a value at least as long as it says, is read as that AVP. */
  lemma ReadAvp(m: bytes, at: nat, avp: Avp, fill: bytes)
    requires Sendable(avp, 0) && |avp.value| <= |fill| && fill[..|avp.value|] == avp.value
    requires at + AVP_HDR + |fill| <= |m|
    ensures AvpAt(Over(m, at, LittleHeader(Word(avp.fl, AVP_HDR + |avp.value|), avp.vendor, avp.attr) + fill), at) == avp
  {
    hide LittleHeader, Over, ReadLittle, Word;
    var n := AVP_HDR + |avp.value|;
    FlagBits(avp.fl, n);
    ReadHeader(m, at, Word(avp.fl, n), avp.vendor, avp.attr, fill);
    var r := Over(m, at, LittleHeader(Word(avp.fl, n), avp.vendor, avp.attr) + fill);
    assert r[at + AVP_HDR..at + n] == r[at + AVP_HDR..at + AVP_HDR + |fill|][..|avp.value|];
  }

  lemma HandOverHands<S>(p: Peer<S>, h: bytes, m: bytes, at: nat, from: nat, used: nat, avp: Avp, s: S)
    requires |h| == |m| && at + used <= |h| && from + AVP_HDR <= |m|
    requires m[at + used..] == h[at + used..] && AvpAt(m, from) == avp
    ensures Handed(p, h, HandOver(p, m, from, used, s), at, used, avp, s)
  {
  }

  lemma PlainTurn<S>(p: Peer<S>, m: bytes, at: nat, len: nat, first: bool, avp: Avp, s: S)
    requires Sendable(avp, 0) && (first ==> avp.attr == 0)
    requires AVP_HDR + |avp.value| <= len && at + len <= |m|
    requires m[at..at + AVP_HDR + |avp.value|] == PlainWire(avp)
    ensures Handed(p, m, Checked(p, SwapHeader(m, at), at, len, first, s), at, AVP_HDR + |avp.value|, avp, s)
  {
    var n := AVP_HDR + |avp.value|;
    var word := Word(avp.fl, n);
    OverSelf(m, at, PlainWire(avp));
    SwapLayout(m, at, word, avp.vendor, avp.attr, avp.value);
    var h := Over(m, at, LittleHeader(word, avp.vendor, avp.attr) + avp.value);
    ReadHeader(m, at, word, avp.vendor, avp.attr, avp.value);
    ReadAvp(m, at, avp, avp.value);
    FlagBits(avp.fl, n);
    assert h[at + n..] == m[at + n..];
    HandOverHands(p, m, h, at, at, n, avp, s);
    hide BigHeader, LittleHeader, Over, ReadLittle, Word, Length, Mandatory, ReservedBits, HiddenBit, SwapHeader,
         HandOver, HandOverHidden, Handed, AvpAt, PlainWire;
  }

  /** A hidden item in the buffer, with its header swapped. */
  lemma SwapItem(f: Transform, k: Keys, m: bytes, at: nat, avp: Avp, pad: bytes)
    requires Sendable(avp, 2 + |pad|) && (2 + |avp.value + pad|) % MD_SIG_SIZE == 0
    requires var n := AVP_HDR + 2 + |avp.value + pad|;
             at + n <= |m| && m[at..at + n] == HiddenAvp(f, k, avp.fl, avp.vendor, avp.attr, |avp.value|, avp.value + pad)
    ensures var fill := avp.value + pad;
            var cipher := Mask(f, Seed(k, avp.attr), k.secret, Big(|avp.value|) + fill);
            SwapHeader(m, at)
              == Over(m, at, LittleHeader(Word(SetH(avp.fl), AVP_HDR + 2 + |fill|), avp.vendor, avp.attr) + cipher)
  {
    var fill := avp.value + pad;
    var n := AVP_HDR + 2 + |fill|;
    var word := Word(SetH(avp.fl), n);
    var cipher := Mask(f, Seed(k, avp.attr), k.secret, Big(|avp.value|) + fill);
    assert m[at..at + n] == BigHeader(word, avp.vendor, avp.attr) + cipher;
    hide HiddenAvp, SetH, Mask, Seed, Big, BigHeader, LittleHeader, Word, SwapHeader, Over;
    OverSelf(m, at, BigHeader(word, avp.vendor, avp.attr) + cipher);
    SwapLayout(m, at, word, avp.vendor, avp.attr, cipher);
  }

  /** `decrypt_avp` on a hidden item gives the AVP it hides. */
  lemma UnhideItem(f: Transform, k: Keys, m: bytes, at: nat, avp: Avp, pad: bytes)
    requires Sendable(avp, 2 + |pad|) && (2 + |avp.value + pad|) % MD_SIG_SIZE == 0
    requires var n := AVP_HDR + 2 + |avp.value + pad|;
             at + n <= |m| && m[at..at + n] == HiddenAvp(f, k, avp.fl, avp.vendor, avp.attr, |avp.value|, avp.value + pad)
    ensures var n, h := AVP_HDR + 2 + |avp.value + pad|, SwapHeader(m, at);
            && ReadLittle(h, at) == Word(SetH(avp.fl), n) && ReadLittle(h, at + 4) == avp.attr && HiddenWord(h, at)
            && var r := UnhideAt(f, k, h, at);
               r.Restored? && AvpAt(r.mem, at + 2) == avp && r.mem[at + n..] == m[at + n..]
  {
    hide HiddenAvp, SetH, ClearH, Mask, Unmask, Seed, Big, BigHeader, LittleHeader, Word, ReadLittle, SwapHeader,
         UnhideAt, Rebuild, AvpAt, HiddenWord, Over;
    var fill := avp.value + pad;
    var word, plain := Word(SetH(avp.fl), AVP_HDR + 2 + |fill|), Big(|avp.value|) + fill;
    var cipher := Mask(f, Seed(k, avp.attr), k.secret, plain);
    SwapItem(f, k, m, at, avp, pad);
    SetHFlag(avp.fl);
    ReadHeader(m, at, word, avp.vendor, avp.attr, cipher);
    UnmaskInverts(f, Seed(k, avp.attr), k.secret, plain);
    ReadHidden(f, k, m, at, word, avp.vendor, avp.attr, cipher);
    var head := LittleHeader(word, avp.vendor, avp.attr) + cipher;
    RebuildPlain(Over(m, at, head), at, SetH(avp.fl), avp.vendor, avp.attr, |avp.value|, fill);
    assert fill[..|avp.value|] == avp.value;
    ReadAvp(Over(m, at, head), at + 2, avp, fill);
    BehindOver(m, at, head, LittleHeader(Word(avp.fl, AVP_HDR + |avp.value|), avp.vendor, avp.attr) + fill);
  }

  lemma BehindOver(m: bytes, at: nat, s: bytes, t: bytes)
    requires at + |s| <= |m| && |t| + 2 == |s|
    ensures Over(Over(m, at, s), at + 2, t)[at + |s|..] == m[at + |s|..]
  {
  }

  lemma CheckedHidden<S>(p: Peer<S>, h: bytes, at: nat, len: nat, first: bool, k: Keys, s: S)
    requires 0 < len && at + len <= |h| && HiddenWord(h, at) && p.keys(s) == Has(k)
    requires var word, attr := ReadLittle(h, at), ReadLittle(h, at + 4);
             && attr <= AVP_MAX && (first ==> attr == 0) && AVP_HDR + 2 <= Length(word) <= len
             && !ReservedBits(word) && HiddenBit(word)
    requires UnhideAt(p.f, k, h, at).Restored?
    ensures Checked(p, h, at, len, first, s)
              == HandOver(p, UnhideAt(p.f, k, h, at).mem, at + 2, Length(ReadLittle(h, at)), s)
  {
    hide ReadLittle, UnhideAt, Length, Mandatory, ReservedBits, HiddenBit, HandOver, HiddenWord;
  }

  lemma HiddenTurn<S>(p: Peer<S>, m: bytes, at: nat, len: nat, first: bool, avp: Avp, pad: bytes, s: S)
    requires Fits(p, Hidden(avp, pad), s) && (first ==> avp.attr == 0)
    requires var w := Wire(p, Hidden(avp, pad), s);
             |w| <= len && at + len <= |m| && m[at..at + |w|] == w
    ensures Handed(p, m, Checked(p, SwapHeader(m, at), at, len, first, s), at, |Wire(p, Hidden(avp, pad), s)|, avp, s)
  {
    hide Mask, SetH, Word, ReadLittle, SwapHeader, UnhideAt, AvpAt, Length, Mandatory, ReservedBits, HiddenBit,
         HandOver, HandOverHidden, Handed, Checked, BigHeader, Seed, Big, HiddenWord;
    var n, k := AVP_HDR + 2 + |avp.value + pad|, p.keys(s).keys;
    assert |Wire(p, Hidden(avp, pad), s)| == n;
    UnhideItem(p.f, k, m, at, avp, pad);
    SetHFlag(avp.fl);
    FlagBits(SetH(avp.fl), n);
    CheckedHidden(p, SwapHeader(m, at), at, len, first, k, s);
    HandOverHands(p, m, UnhideAt(p.f, k, SwapHeader(m, at), at).mem, at, at + 2, n, avp, s);
  }

  /** Which plain lengths can be hidden within the largest AVP. */
  lemma HidingLimit(len: nat)
    requires len >= AVP_HDR
    ensures HiddenLength(len) <= MAXAVPSIZE <==> len <= 1012
  {
  }

  /** A longer AVP that is hidden all the same has 1030 bytes; its length word reads as
      6, with a reserved bit set, so that the walk refuses it or, if it is optional,
      goes on in the middle of it. */
  lemma TooLongToHide<S>(p: Peer<S>, h: bytes, at: nat, left: nat, first: bool, fl: Flags, len: nat, s: S)
    requires 1012 < len <= MAXAVPSIZE && fl in {0, 8} && AVP_HDR <= left && at + left <= |h|
    requires ReadLittle(h, at) == Word(SetH(fl), HiddenLength(len)) && ReadLittle(h, at + 4) <= AVP_MAX
    requires first ==> ReadLittle(h, at + 4) == 0
    ensures HiddenLength(len) == 1030 && Length(ReadLittle(h, at)) == AVP_HDR
    ensures Checked(p, h, at, left, first, s) == if fl == 8 then Halt(Reserved, h, s) else Go(h, AVP_HDR, s)
  {
    hide ReadLittle, HandOver, HandOverHidden, ReservedBits, Mandatory, HiddenBit, Length, Word, SetH;
    assert HiddenLength(len) == 1030;
    LongWord(fl);
  }

  lemma LongWord(fl: Flags)
    requires fl in {0, 8}
    ensures var w := Word(SetH(fl), 1030); Length(w) == AVP_HDR && ReservedBits(w) && Mandatory(w) == (fl == 8)
  {
    assert Word(SetH(fl), 1030) == 1024 * (if fl == 0 then 17 else 49) + 6;
  }

  lemma SetHFlag(fl: Flags)
    requires fl in {0, 8}
    ensures SetH(fl) in {4, 12} && ClearH(SetH(fl)) == fl
  {
  }

  lemma ItemTurn<S>(p: Peer<S>, m: bytes, at: nat, len: nat, first: bool, item: Item, s: S)
    requires Fits(p, item, s) && (first ==> item.avp.attr == 0)
    requires var w := Wire(p, item, s);
             |w| <= len && at + len <= |m| && m[at..at + |w|] == w
    ensures Handed(p, m, Checked(p, SwapHeader(m, at), at, len, first, s), at, |Wire(p, item, s)|, item.avp, s)
  {
    match item
    case Plain(avp) => PlainTurn(p, m, at, len, first, avp, s);
    case Hidden(avp, pad) => HiddenTurn(p, m, at, len, first, avp, pad, s);
  }

  lemma SplitBody(m: bytes, m': bytes, at: nat, w: bytes, rest: bytes)
    requires at + |w| + |rest| <= |m| == |m'| && m[at..at + |w| + |rest|] == w + rest
    requires m'[at + |w|..] == m[at + |w|..]
    ensures m[at..at + |w|] == w && m'[at + |w|..at + |w| + |rest|] == rest
  {
    var b := m[at..at + |w| + |rest|];
    assert m[at..at + |w|] == b[..|w|] && m[at + |w|..at + |w| + |rest|] == b[|w|..];
    assert m'[at + |w|..at + |w| + |rest|] == m'[at + |w|..][..|rest|] == m[at + |w|..][..|rest|];
  }

  /** The walk over a body made by the builders hands every AVP, plain or hidden, to
      its handler once, in order and with the fields it was made of, and advances by
      exactly the bytes each one takes on the wire. */
  lemma {:induction false} WalkOfBody<S>(p: Peer<S>, m: bytes, at: nat, items: seq<Item>, first: bool, s: S)
    requires AllFit(p, items, s) && (first && items != [] ==> items[0].avp.attr == 0)
    requires var b := Body(p, items, s);
             at + |b| <= |m| && m[at..at + |b|] == b
    ensures Walk(p, m, at, |Body(p, items, s)|, first, s) == DeliverAll(p, items, s)
    decreases |items|
  {
    hide Wire, Fits, Checked, SwapHeader, Deliver;
    if items != [] {
      var item, tail := items[0], items[1..];
      var w, next := Wire(p, item, s), Deliver(p, item.avp, s).state;
      var rest := Body(p, tail, next);
      var len := |w| + |rest|;
      SplitBody(m, m, at, w, rest);
      ItemTurn(p, m, at, len, first, item, s);
      var step := Checked(p, SwapHeader(m, at), at, len, first, s);
      if step.Go? {
        SplitBody(m, step.mem, at, w, rest);
        WalkOfBody(p, step.mem, at + |w|, tail, false, next);
      }
    }
  }

  // --------------------------------------------------- bodies put together

  /** What the reader holds after these items. */
  function StateAfter<S>(p: Peer<S>, items: seq<Item>, s: S): S
    decreases |items|
  {
    if items == [] then s else StateAfter(p, items[1..], Deliver(p, items[0].avp, s).state)
  }

  lemma Associates(a: bytes, b: bytes, c: bytes)
    ensures a + (b + c) == (a + b) + c
  {
  }

  /** A body is the body of its first items followed by that of the others, as the
      reader will be by then. */
  lemma {:induction false} BodyConcat<S>(p: Peer<S>, a: seq<Item>, b: seq<Item>, s: S)
    requires AllFit(p, a, s) && AllFit(p, b, StateAfter(p, a, s))
    ensures AllFit(p, a + b, s) && Body(p, a + b, s) == Body(p, a, s) + Body(p, b, StateAfter(p, a, s))
    decreases |a|
  {
    hide Wire, Fits, Deliver;
    if a == [] {
      assert a + b == b;
    } else {
      assert (a + b)[0] == a[0] && (a + b)[1..] == a[1..] + b;
      var next := Deliver(p, a[0].avp, s).state;
      BodyConcat(p, a[1..], b, next);
      Associates(Wire(p, a[0], s), Body(p, a[1..], next), Body(p, b, StateAfter(p, a, s)));
    }
  }

  predicate AllSendable(avps: seq<Avp>) { forall i :: 0 <= i < |avps| ==> Sendable(avps[i], 0) }

  /** Plain AVPs one after the other, as the builders append them. */
  function PlainWires(avps: seq<Avp>): bytes
    requires AllSendable(avps)
  {
    if avps == [] then [] else PlainWires(avps[..|avps| - 1]) + PlainWire(avps[|avps| - 1])
  }

  function Plains(avps: seq<Avp>): seq<Item> {
    if avps == [] then [] else Plains(avps[..|avps| - 1]) + [Plain(avps[|avps| - 1])]
  }

  lemma {:induction false} PlainsStart(avps: seq<Avp>)
    ensures |Plains(avps)| == |avps| && (avps != [] ==> Plains(avps)[0].avp == avps[0])
  {
    if avps != [] {
      PlainsStart(avps[..|avps| - 1]);
    }
  }

  /** They are a message body for every reader. */
  lemma {:induction false} PlainBody<S>(p: Peer<S>, avps: seq<Avp>, s: S)
    requires AllSendable(avps)
    ensures AllFit(p, Plains(avps), s) && Body(p, Plains(avps), s) == PlainWires(avps)
  {
    if avps != [] {
      hide PlainWire, Deliver;
      var before, last := avps[..|avps| - 1], avps[|avps| - 1];
      PlainBody(p, before, s);
      var later := StateAfter(p, Plains(before), s);
      assert Fits(p, Plain(last), later);
      assert Body(p, [Plain(last)], later) == PlainWire(last) + [];
      BodyConcat(p, Plains(before), [Plain(last)], s);
    }
  }

  /** What was built, AVP by AVP, is handed over AVP by AVP. */
  lemma BuiltIsHandled<S>(p: Peer<S>, m: bytes, at: nat, avps: seq<Avp>, s: S)
    requires AllSendable(avps) && (avps != [] ==> avps[0].attr == 0)
    requires at + |PlainWires(avps)| <= |m| && m[at..at + |PlainWires(avps)|] == PlainWires(avps)
    ensures AllFit(p, Plains(avps), s)
    ensures Walk(p, m, at, |PlainWires(avps)|, true, s) == DeliverAll(p, Plains(avps), s)
  {
    hide PlainWires, Plains, DeliverAll, Walk;
    PlainBody(p, avps, s);
    PlainsStart(avps);
    WalkOfBody(p, m, at, Plains(avps), true, s);
  }
}
