/** What the handlers of a message are given, and what refuses it, told without the
    reader's own steps: by the attributes the daemon knows, the M bit of each AVP and
    what the handlers themselves say. */
module AvpDelivery {
  import opened Octets
  import opened AvpHiding
  import opened AvpWalk
  import opened AvpMessage
  import opened AvpSend

  // --------------------------------------------------------------- attributes

  /** The attributes the daemon has a handler for. */
  const KNOWN: set<nat> := {0, 1, 2, 3, 4, 6, 7, 8, 9, 10, 11, 13, 14, 15, 18, 19, 20, 21, 22, 23, 24, 25,
                            29, 30, 31, 32, 33, 35, 36, 38, 39}

  lemma HandlersAre(attr: nat)
    ensures HasHandler(attr) <==> attr in KNOWN
  {
  }

  /** An AVP header word: M bit, H bit, four reserved bits, ten bits of length. */
  lemma WordBits(m: nat, h: nat, z: nat, n: nat)
    requires m < 2 && h < 2 && z < 16 && n < 1024
    ensures var w := 0x8000 * m + 0x4000 * h + 0x400 * z + n;
            && w < 65536 && (Mandatory(w) <==> m == 1) && (HiddenBit(w) <==> h == 1)
            && (ReservedBits(w) <==> z != 0) && Length(w) == n
  {
    var w := 0x8000 * m + 0x4000 * h + 0x400 * z + n;
    assert w / 0x400 == 32 * m + 16 * h + z;
    assert w / 0x4000 == 2 * m + h && w / 0x8000 == m;
  }

  /** A plain AVP on the wire. */
  lemma {:induction false} PlainBytes(a: Avp)
    requires Sendable(a, 0)
    ensures var n := 6 + |a.value|;
            PlainWire(a) == [16 * a.fl + n / 256, n % 256, a.vendor / 256, a.vendor % 256, a.attr / 256, a.attr % 256]
                            + a.value
  {
    var n := 6 + |a.value|;
    assert Big(Word(a.fl, n)) == [16 * a.fl + n / 256, n % 256];
  }

  /** A 32-bit value on the wire, and 16-bit ones, highest byte first. */
  lemma {:induction false} ValueBytes(a: byte, b: byte, c: byte, d: byte)
    ensures LongValue(16777216 * a + 65536 * b + 256 * c + d) == [a, b, c, d]
    ensures Big(256 * a + b) == [a, b]
  {
    var x := 16777216 * a + 65536 * b + 256 * c + d;
    assert x / 65536 == 256 * a + b && x % 65536 == 256 * c + d;
    HighAndLow(a, b);
    HighAndLow(c, d);
  }

  lemma {:induction false} HighAndLow(a: byte, b: byte)
    ensures Big(256 * a + b) == [a, b]
  {
  }

  // ------------------------------------------------------------- whole messages

  /** The handlers' state after they were given these AVPs, those without a handler left out. */
  function Heard<S>(p: Peer<S>, items: seq<Item>, s: S): S
    decreases |items|
  {
    if items == [] then s
    else
      var a := items[0].avp;
      Heard(p, items[1..], if a.attr in KNOWN then p.handler(s, a).state else s)
  }

  /** A mandatory AVP that nobody handles, or whose handler fails. */
  predicate Refusable<S>(p: Peer<S>, a: Avp, s: S) {
    a.fl >= 8 && (a.attr !in KNOWN || p.handler(s, a).failed)
  }

  /** The `k` items before this one raise no objection. */
  ghost predicate GoodUntil<S>(p: Peer<S>, items: seq<Item>, k: nat, s: S) {
    k <= |items| && forall i :: 0 <= i < k ==> !Refusable(p, items[i].avp, Heard(p, items[..i], s))
  }

  function Size(item: Item): nat {
    match item
    case Plain(a) => 6 + |a.value|
    case Hidden(a, pad) => 8 + |a.value| + |pad|
  }

  function Sizes(items: seq<Item>): seq<nat> { seq(|items|, i requires 0 <= i < |items| => Size(items[i])) }

  lemma {:induction false} DeliverIs<S>(p: Peer<S>, a: Avp, s: S)
    ensures var s' := if a.attr in KNOWN then p.handler(s, a).state else s;
            Deliver(p, a, s) ==
              if Refusable(p, a, s) then Fatal(if a.attr in KNOWN then HandlerFailed else NoHandler, s') else Done(s')
  {
    HandlersAre(a.attr);
  }

  lemma {:induction false} GoodTail<S>(p: Peer<S>, items: seq<Item>, k: nat, s: S)
    requires GoodUntil(p, items, k, s) && k > 0
    ensures var s' := if items[0].avp.attr in KNOWN then p.handler(s, items[0].avp).state else s;
            && !Refusable(p, items[0].avp, s) && GoodUntil(p, items[1..], k - 1, s')
            && Heard(p, items[..k], s) == Heard(p, items[1..][..k - 1], s')
  {
    hide Refusable;
    var s' := if items[0].avp.attr in KNOWN then p.handler(s, items[0].avp).state else s;
    assert !Refusable(p, items[0].avp, Heard(p, items[..0], s)) && items[..0] == [];
    forall i | 0 <= i < k - 1 ensures !Refusable(p, items[1..][i].avp, Heard(p, items[1..][..i], s')) {
      assert items[..i + 1][0] == items[0] && items[..i + 1][1..] == items[1..][..i];
      assert !Refusable(p, items[i + 1].avp, Heard(p, items[..i + 1], s));
    }
    assert items[..k][0] == items[0] && items[..k][1..] == items[1..][..k - 1];
  }

  lemma {:induction false} AllDelivered<S>(p: Peer<S>, items: seq<Item>, s: S)
    requires AllFit(p, items, s) && GoodUntil(p, items, |items|, s)
    ensures DeliverAll(p, items, s) == Accepted(Heard(p, items, s), Sizes(items))
    decreases |items|
  {
    hide Deliver, Fits, Wire, GoodUntil, Refusable;
    if items == [] {
      assert Sizes(items) == [];
    } else {
      GoodTail(p, items, |items|, s);
      DeliverIs(p, items[0].avp, s);
      var s' := if items[0].avp.attr in KNOWN then p.handler(s, items[0].avp).state else s;
      assert items[1..][..|items| - 1] == items[1..] && items[..|items|] == items;
      AllDelivered(p, items[1..], s');
      WireSize(p, items[0], s);
      assert Sizes(items) == [Size(items[0])] + Sizes(items[1..]);
    }
  }

  lemma {:induction false} WireSize<S>(p: Peer<S>, item: Item, s: S)
    requires Fits(p, item, s)
    ensures |Wire(p, item, s)| == Size(item)
  {
  }

  lemma {:induction false} FirstRefused<S>(p: Peer<S>, items: seq<Item>, k: nat, s: S)
    requires AllFit(p, items, s) && k < |items| && GoodUntil(p, items, k, s)
    requires Refusable(p, items[k].avp, Heard(p, items[..k], s))
    ensures var a, t := items[k].avp, Heard(p, items[..k], s);
            DeliverAll(p, items, s) ==
              if a.attr in KNOWN then Rejected(HandlerFailed, p.handler(t, a).state) else Rejected(NoHandler, t)
    decreases k
  {
    hide Deliver, Fits, Wire, GoodUntil, Refusable;
    if k == 0 {
      assert items[..0] == [];
      DeliverIs(p, items[0].avp, s);
    } else {
      GoodTail(p, items, k, s);
      DeliverIs(p, items[0].avp, s);
      var s' := if items[0].avp.attr in KNOWN then p.handler(s, items[0].avp).state else s;
      FirstRefused(p, items[1..], k - 1, s');
    }
  }

  /** A message as the builders make it is accepted, with every AVP handled in order,
      unless one of them is mandatory and has no handler or one that fails. */
  lemma {:induction false} MessageIsHandled<S>(p: Peer<S>, m: bytes, at: nat, items: seq<Item>, first: bool, s: S)
    requires AllFit(p, items, s) && (first && items != [] ==> items[0].avp.attr == 0)
    requires var b := Body(p, items, s); at + |b| <= |m| && m[at..at + |b|] == b
    requires GoodUntil(p, items, |items|, s)
    ensures Walk(p, m, at, |Body(p, items, s)|, first, s) == Accepted(Heard(p, items, s), Sizes(items))
  {
    hide Body, Walk, Heard, GoodUntil, AllFit, DeliverAll;
    WalkOfBody(p, m, at, items, first, s);
    AllDelivered(p, items, s);
  }

  /** The first AVP that is refuses the message, with the handlers before it called and
      those after it not. */
  lemma {:induction false} MessageIsRefused<S>(p: Peer<S>, m: bytes, at: nat, items: seq<Item>, k: nat, first: bool, s: S)
    requires AllFit(p, items, s) && (first && items != [] ==> items[0].avp.attr == 0)
    requires var b := Body(p, items, s); at + |b| <= |m| && m[at..at + |b|] == b
    requires k < |items| && GoodUntil(p, items, k, s) && Refusable(p, items[k].avp, Heard(p, items[..k], s))
    ensures var a, t := items[k].avp, Heard(p, items[..k], s);
            Walk(p, m, at, |Body(p, items, s)|, first, s) ==
              if a.attr in KNOWN then Rejected(HandlerFailed, p.handler(t, a).state) else Rejected(NoHandler, t)
  {
    hide Body, Walk, Heard, GoodUntil, AllFit, DeliverAll, Refusable;
    WalkOfBody(p, m, at, items, first, s);
    FirstRefused(p, items, k, s);
  }

  // -------------------------------------------------------------- an observer

  /** Handlers that write down what they are given and never fail. */
  ghost predicate Records(p: Peer<seq<Avp>>) {
    forall t: seq<Avp>, a: Avp :: p.handler(t, a) == Handled(t + [a], false)
  }

  function Handling(a: Avp): seq<Avp> { if a.attr in KNOWN then [a] else [] }

  /** The AVPs that somebody handles, in order. */
  function Handlings(items: seq<Item>): seq<Avp> {
    if items == [] then [] else Handling(items[0].avp) + Handlings(items[1..])
  }

  lemma {:induction false} RecorderHears(p: Peer<seq<Avp>>, items: seq<Item>, s: seq<Avp>)
    requires Records(p)
    ensures Heard(p, items, s) == s + Handlings(items)
    decreases |items|
  {
    if items != [] {
      var a := items[0].avp;
      if a.attr in KNOWN {
        RecorderHears(p, items[1..], s + [a]);
        assert s + [a] + Handlings(items[1..]) == s + ([a] + Handlings(items[1..]));
      } else {
        RecorderHears(p, items[1..], s);
        assert [] + Handlings(items[1..]) == Handlings(items[1..]);
      }
    }
  }

  /** An observer in the handlers' place sees every AVP that has a handler once, in the
      order they were sent and with the fields they were made of, plain or hidden. */
  lemma {:induction false} ObserverSeesAll(p: Peer<seq<Avp>>, m: bytes, at: nat, items: seq<Item>, first: bool, s: seq<Avp>)
    requires Records(p) && AllFit(p, items, s) && (first && items != [] ==> items[0].avp.attr == 0)
    requires var b := Body(p, items, s); at + |b| <= |m| && m[at..at + |b|] == b
    requires forall i :: 0 <= i < |items| && items[i].avp.fl >= 8 ==> items[i].avp.attr in KNOWN
    ensures Walk(p, m, at, |Body(p, items, s)|, first, s) == Accepted(s + Handlings(items), Sizes(items))
  {
    forall i | 0 <= i < |items| ensures !Refusable(p, items[i].avp, Heard(p, items[..i], s)) {
      var t := Heard(p, items[..i], s);
      assert p.handler(t, items[i].avp) == Handled(t + [items[i].avp], false);
    }
    RecorderHears(p, items, s);
    hide Body, Walk, Heard, AllFit, Records, Refusable;
    MessageIsHandled(p, m, at, items, first, s);
  }

  /** A StopCCN: message type 4, the random vector where hiding is on, the tunnel id, and
      the result code with its text are what an observer sees, byte for byte. */
  lemma {:induction false} StopIsSeen(p: Peer<seq<Avp>>, m: bytes, at: nat, tid: u16, result: u16, error: u16, text: bytes,
                                      vector: bytes, s: seq<Avp>)
    requires Records(p) && 10 + |text| <= MAXAVPSIZE && (vector == [] || |vector| == VECTOR_SIZE)
    requires at <= |m| && m[at..] == PlainWires(StopAvps(tid, result, error, text, vector))
    ensures var o := Walk(p, m, at, |m| - at, true, s);
            && o.Accepted?
            && o.state == s + [Avp(8, 0, 0, [0, 4])] + (if vector == [] then [] else [Avp(8, 0, 36, vector)])
                          + [Avp(8, 0, 9, [tid / 256, tid % 256]),
                             Avp(8, 0, 1, [result / 256, result % 256, error / 256, error % 256] + text)]
  {
    hide StopAvps, Walk, AllFit, PlainWires, AllSendable, Records, Sendable;
    var avps := StopAvps(tid, result, error, text, vector);
    StopAvpsAre(tid, result, error, text, vector);
    assert |m| - at == |m[at..]| && m[at..at + |m[at..]|] == m[at..];
    BuiltIsSeen(p, m, at, avps, s);
    Grouped(s, [Avp(8, 0, 0, [0, 4])], if vector == [] then [] else [Avp(8, 0, 36, vector)],
            [Avp(8, 0, 9, [tid / 256, tid % 256]),
             Avp(8, 0, 1, [result / 256, result % 256, error / 256, error % 256] + text)]);
  }

  lemma {:induction false} Grouped(s: seq<Avp>, a: seq<Avp>, b: seq<Avp>, c: seq<Avp>)
    ensures s + (a + b + c) == s + a + b + c
  {
  }

  lemma {:induction false} StopAvpsAre(tid: u16, result: u16, error: u16, text: bytes, vector: bytes)
    requires 10 + |text| <= MAXAVPSIZE && (vector == [] || |vector| == VECTOR_SIZE)
    ensures var avps := StopAvps(tid, result, error, text, vector);
            && avps == [Avp(8, 0, 0, [0, 4])] + (if vector == [] then [] else [Avp(8, 0, 36, vector)])
                       + [Avp(8, 0, 9, [tid / 256, tid % 256]),
                          Avp(8, 0, 1, [result / 256, result % 256, error / 256, error % 256] + text)]
            && forall i :: 0 <= i < |avps| ==> avps[i].attr in KNOWN
  {
    assert Big(result) + Big(error) + text == [result / 256, result % 256, error / 256, error % 256] + text;
    assert Big(STOPCCN) == [0, 4];
  }

  /** Plain AVPs appended one by one are seen one by one. */
  lemma {:induction false} BuiltIsSeen(p: Peer<seq<Avp>>, m: bytes, at: nat, avps: seq<Avp>, s: seq<Avp>)
    requires Records(p) && AllSendable(avps) && (avps != [] ==> avps[0].attr == 0)
    requires at + |PlainWires(avps)| <= |m| && m[at..at + |PlainWires(avps)|] == PlainWires(avps)
    requires forall i :: 0 <= i < |avps| ==> avps[i].attr in KNOWN
    ensures var o := Walk(p, m, at, |PlainWires(avps)|, true, s); o.Accepted? && o.state == s + avps
  {
    PlainBody(p, avps, s);
    PlainsAre(avps);
    HandlingsAre(avps);
    hide PlainWires, Walk, AllFit, Body, Plains, Handlings, Records;
    ObserverSeesAll(p, m, at, Plains(avps), true, s);
  }

  lemma {:induction false} PlainsAre(avps: seq<Avp>)
    ensures |Plains(avps)| == |avps| && forall i :: 0 <= i < |avps| ==> Plains(avps)[i] == Plain(avps[i])
  {
    if avps != [] {
      PlainsAre(avps[..|avps| - 1]);
    }
  }

  lemma {:induction false} HandlingsAre(avps: seq<Avp>)
    requires forall i :: 0 <= i < |avps| ==> avps[i].attr in KNOWN
    ensures Handlings(Plains(avps)) == avps
  {
    if avps != [] {
      var before, last := avps[..|avps| - 1], avps[|avps| - 1];
      HandlingsAre(before);
      HandlingsConcat(Plains(before), [Plain(last)]);
      assert Handlings([Plain(last)]) == [last] + Handlings([]);
    }
  }

  lemma {:induction false} HandlingsConcat(a: seq<Item>, b: seq<Item>)
    ensures Handlings(a + b) == Handlings(a) + Handlings(b)
  {
    hide Handling, Handlings;
    if a == [] {
      assert a + b == b;
      NoHandlings();
    } else {
      HandlingsConcat(a[1..], b);
      HandlingsFirst(a + b);
      HandlingsFirst(a);
      assert (a + b)[0] == a[0] && (a + b)[1..] == a[1..] + b;
      InThree(Handling(a[0].avp), Handlings(a[1..]), Handlings(b));
    }
  }

  lemma {:induction false} NoHandlings()
    ensures Handlings([]) == []
  {
  }

  lemma {:induction false} HandlingsFirst(items: seq<Item>)
    requires items != []
    ensures Handlings(items) == Handling(items[0].avp) + Handlings(items[1..])
  {
  }

  lemma {:induction false} InThree(a: seq<Avp>, b: seq<Avp>, c: seq<Avp>)
    ensures a + (b + c) == (a + b) + c
  {
  }

  // ---------------------------------------------------------- what is refused

  /** The checks of one header, in their order: an unknown attribute, a length that
      overruns the message, a first AVP that is no message type, a length shorter than a
      header, reserved bits. Unknown attributes and reserved bits only refuse a message
      when the AVP is mandatory; otherwise the walk goes on behind the AVP. */
  lemma {:induction false} HeaderChecks<S>(p: Peer<S>, b: bytes, at: nat, len: nat, first: bool, s: S,
                                           m: nat, h: nat, z: nat, n: nat, attr: nat)
    requires 0 < len && at + len <= |b| && at + 6 <= |b|
    requires m < 2 && h < 2 && z < 16 && n < 1024 && attr < 65536
    requires 256 * (b[at] as int) + b[at + 1] == 0x8000 * m + 0x4000 * h + 0x400 * z + n
    requires 256 * (b[at + 4] as int) + b[at + 5] == attr
    ensures var o := Walk(p, b, at, len, first, s);
            var skipped := if n == 0 then Rejected(LeftOver, s)
                           else Ahead(n, Walk(p, SwapHeader(b, at), at + n, len - n, false, s));
            if attr > 39 then o == if m == 1 then Rejected(MandatoryUnknown, s) else skipped
            else if n > len then o == Rejected(TooLong, s)
            else if attr != 0 && first then o == Rejected(NotMessageType, s)
            else if n < 6 then o == Rejected(TooSmall, s)
            else z != 0 ==> o == if m == 1 then Rejected(Reserved, s) else skipped
  {
    hide Walk, SwapHeader, ReadLittle, Mandatory, HiddenBit, ReservedBits, Length, Checked, Ahead;
    HeaderReads(b, at, m, h, z, n, attr);
    WalkTable(p, b, at, len, first, s, ReadLittle(SwapHeader(b, at), at), m, z, n);
  }

  lemma {:induction false} WalkTable<S>(p: Peer<S>, b: bytes, at: nat, len: nat, first: bool, s: S,
                                        w: u16, m: nat, z: nat, n: nat)
    requires 0 < len && at + len <= |b| && at + 6 <= |b| && w == ReadLittle(SwapHeader(b, at), at)
    requires (Mandatory(w) <==> m == 1) && (ReservedBits(w) <==> z != 0) && Length(w) == n
    ensures var o, attr := Walk(p, b, at, len, first, s), ReadLittle(SwapHeader(b, at), at + 4);
            var skipped := if n == 0 then Rejected(LeftOver, s)
                           else Ahead(n, Walk(p, SwapHeader(b, at), at + n, len - n, false, s));
            if attr > 39 then o == if m == 1 then Rejected(MandatoryUnknown, s) else skipped
            else if n > len then o == Rejected(TooLong, s)
            else if attr != 0 && first then o == Rejected(NotMessageType, s)
            else if n < 6 then o == Rejected(TooSmall, s)
            else z != 0 ==> o == if m == 1 then Rejected(Reserved, s) else skipped
  {
    hide Walk, SwapHeader, ReadLittle, Mandatory, HiddenBit, ReservedBits, Length, Checked, Ahead;
    WalkStep(p, b, at, len, first, s);
    HeaderTable(p, SwapHeader(b, at), at, len, first, s, w, m, z, n);
  }

  /** The header bytes in network order, as the checks read them after the swap. */
  lemma {:induction false} HeaderReads(b: bytes, at: nat, m: nat, h: nat, z: nat, n: nat, attr: nat)
    requires at + 6 <= |b| && m < 2 && h < 2 && z < 16 && n < 1024
    requires 256 * (b[at] as int) + b[at + 1] == 0x8000 * m + 0x4000 * h + 0x400 * z + n
    requires 256 * (b[at + 4] as int) + b[at + 5] == attr
    ensures var g := SwapHeader(b, at);
            && ReadLittle(g, at + 4) == attr
            && var w := ReadLittle(g, at);
               && w == 0x8000 * m + 0x4000 * h + 0x400 * z + n
               && (Mandatory(w) <==> m == 1) && (HiddenBit(w) <==> h == 1) && (ReservedBits(w) <==> z != 0) && Length(w) == n
  {
    WordBits(m, h, z, n);
    SwapReads(b, at);
    hide SwapHeader, Mandatory, HiddenBit, ReservedBits, Length, ReadLittle;
  }

  lemma {:induction false} HeaderTable<S>(p: Peer<S>, g: bytes, at: nat, len: nat, first: bool, s: S,
                                          w: u16, m: nat, z: nat, n: nat)
    requires 0 < len && at + len <= |g| && at + 6 <= |g| && w == ReadLittle(g, at)
    requires (Mandatory(w) <==> m == 1) && (ReservedBits(w) <==> z != 0) && Length(w) == n
    ensures var r, attr := Checked(p, g, at, len, first, s), ReadLittle(g, at + 4);
            if attr > 39 then r == if m == 1 then Halt(MandatoryUnknown, g, s) else Go(g, n, s)
            else if n > len then r == Halt(TooLong, g, s)
            else if attr != 0 && first then r == Halt(NotMessageType, g, s)
            else if n < 6 then r == Halt(TooSmall, g, s)
            else z != 0 ==> r == if m == 1 then Halt(Reserved, g, s) else Go(g, n, s)
  {
    hide ReadLittle, Mandatory, HiddenBit, ReservedBits, Length, HandOver, HandOverHidden;
  }

  lemma {:induction false} WalkStep<S>(p: Peer<S>, b: bytes, at: nat, len: nat, first: bool, s: S)
    requires 0 < len && at + len <= |b| && at + 6 <= |b|
    ensures var r := Checked(p, SwapHeader(b, at), at, len, first, s);
            (r.Go? && r.used > 0 ==> at + len <= |r.mem|) &&
            Walk(p, b, at, len, first, s) ==
              match r
              case Halt(why, _, s') => Rejected(why, s')
              case Go(m', used, s') =>
                if used == 0 then Rejected(LeftOver, s')
                else Ahead(used, Walk(p, m', at + used, len - used, false, s'))
  {
    hide Checked, SwapHeader;
  }

  /** A hidden AVP that cannot be unhidden, for want of a random vector or because its
      length does not fit, refuses the message if it is mandatory; otherwise the walk
      goes on behind it. */
  lemma {:induction false} HiddenChecks<S>(p: Peer<S>, b: bytes, at: nat, len: nat, first: bool, s: S,
                                           m: nat, n: nat, attr: nat)
    requires 0 < len && at + len <= |b| && at + 6 <= |b| && m < 2 && 6 <= n <= len && n < 1024 && attr <= 39
    requires 256 * (b[at] as int) + b[at + 1] == 0x8000 * m + 0x4000 + n
    requires 256 * (b[at + 4] as int) + b[at + 5] == attr && (first ==> attr == 0)
    ensures var h := SwapHeader(b, at);
            && HiddenWord(h, at)
            && var bad := p.keys(s).NoVector? || UnhideAt(p.f, p.keys(s).keys, h, at).Refused?;
               var mem := if p.keys(s).NoVector? then h else UnhideAt(p.f, p.keys(s).keys, h, at).mem;
               bad ==> Walk(p, b, at, len, first, s) ==
                         if m == 1 then Rejected(BadHidden, s)
                         else Ahead(n, Walk(p, mem, at + n, len - n, false, s))
  {
    hide Walk, SwapHeader, ReadLittle, Mandatory, HiddenBit, ReservedBits, Length, Checked, UnhideAt;
    HeaderReads(b, at, m, 1, 0, n, attr);
    NoReserved(ReadLittle(SwapHeader(b, at), at));
    assert HiddenWord(SwapHeader(b, at), at);
    hide HiddenWord;
    BadHiddenWalk(p, b, at, len, first, s);
  }

  lemma {:induction false} BadHiddenWalk<S>(p: Peer<S>, b: bytes, at: nat, len: nat, first: bool, s: S)
    requires 0 < len && at + len <= |b| && at + 6 <= |b| && HiddenWord(SwapHeader(b, at), at)
    requires var w, attr := ReadLittle(SwapHeader(b, at), at), ReadLittle(SwapHeader(b, at), at + 4);
             && attr <= 39 && 6 <= Length(w) <= len && (first ==> attr == 0) && !ReservedBits(w) && HiddenBit(w)
    ensures var h := SwapHeader(b, at);
            var w := ReadLittle(h, at);
            var bad := p.keys(s).NoVector? || UnhideAt(p.f, p.keys(s).keys, h, at).Refused?;
            var mem := if p.keys(s).NoVector? then h else UnhideAt(p.f, p.keys(s).keys, h, at).mem;
            bad ==> Walk(p, b, at, len, first, s) ==
                      if Mandatory(w) then Rejected(BadHidden, s)
                      else Ahead(Length(w), Walk(p, mem, at + Length(w), len - Length(w), false, s))
  {
    hide Walk, SwapHeader, ReadLittle, Mandatory, HiddenBit, ReservedBits, Length, Checked, UnhideAt, HiddenWord, Ahead;
    WalkStep(p, b, at, len, first, s);
    BadHiddenTurn(p, SwapHeader(b, at), at, len, first, s);
  }

  lemma {:induction false} BadHiddenTurn<S>(p: Peer<S>, h: bytes, at: nat, len: nat, first: bool, s: S)
    requires 0 < len && at + len <= |h| && at + 6 <= |h| && HiddenWord(h, at)
    requires var w, attr := ReadLittle(h, at), ReadLittle(h, at + 4);
             && attr <= 39 && 6 <= Length(w) <= len && (first ==> attr == 0) && !ReservedBits(w) && HiddenBit(w)
    ensures var w := ReadLittle(h, at);
            var bad := p.keys(s).NoVector? || UnhideAt(p.f, p.keys(s).keys, h, at).Refused?;
            var mem := if p.keys(s).NoVector? then h else UnhideAt(p.f, p.keys(s).keys, h, at).mem;
            bad ==> Checked(p, h, at, len, first, s) ==
                      if Mandatory(w) then Halt(BadHidden, mem, s) else Go(mem, Length(w), s)
  {
    hide ReadLittle, Mandatory, HiddenBit, ReservedBits, Length, HandOver, UnhideAt, HiddenWord;
  }
}
