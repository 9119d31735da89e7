/** The walk over the AVPs of a control message: the header checks of section 4.1
    of RFC 2661, hidden AVPs unmasked on the way, and what the handlers are given. */
module AvpWalk {
  import opened Octets
  import opened Md5
  import opened AvpHiding

  const AVP_MAX: nat := 39
  const MAXAVPSIZE: nat := 1023

  predicate HasHandler(attr: nat) {
    attr <= AVP_MAX && attr !in {5, 12, 16, 17, 26, 27, 28, 34, 37}
  }

  predicate Mandatory(word: u16) { word / 32768 == 1 }
  predicate HiddenBit(word: u16) { word / 16384 % 2 == 1 }
  predicate ReservedBits(word: u16) { word / 1024 % 16 != 0 }
  function Length(word: u16): nat { word % 1024 }

  /** Why a message is refused. */
  datatype Reason = MandatoryUnknown | TooLong | NotMessageType | TooSmall | Reserved | BadHidden
                  | NoHandler | HandlerFailed | LeftOver

  datatype Avp = Avp(fl: Flags, vendor: u16, attr: u16, value: bytes) {
    predicate IsMandatory() { fl >= 8 }
  }

  datatype Vector = NoVector | Has(keys: Keys)
  datatype Handled<S> = Handled(state: S, failed: bool)

  /** The tunnel and call (`S`), the secrets they hold, and the handlers. */
  datatype Peer<!S> = Peer(f: Transform, keys: S -> Vector, handler: (S, Avp) -> Handled<S>)

  // ------------------------------------------------------------------- one AVP

  datatype Delivery<S> = Done(state: S) | Fatal(why: Reason, state: S)

  /** The handler's turn. */
  function Deliver<S>(p: Peer<S>, avp: Avp, s: S): Delivery<S> {
    if !HasHandler(avp.attr) then (if avp.IsMandatory() then Fatal(NoHandler, s) else Done(s))
    else
      var h := p.handler(s, avp);
      if h.failed && avp.IsMandatory() then Fatal(HandlerFailed, h.state) else Done(h.state)
  }

  /** The AVP whose header stands in host order at `at`. */
  function AvpAt(m: bytes, at: nat): Avp
    requires at + AVP_HDR <= |m|
  {
    var word := ReadLittle(m, at);
    var n := Length(word);
    Avp(word / 4096, ReadLittle(m, at + 2), ReadLittle(m, at + 4),
        if AVP_HDR <= n && at + n <= |m| then m[at + AVP_HDR..at + n] else [])
  }

  datatype Step<S> = Halt(why: Reason, mem: bytes, state: S) | Go(mem: bytes, used: nat, state: S)

  function HandOver<S>(p: Peer<S>, m: bytes, at: nat, used: nat, s: S): (r: Step<S>)
    requires at + AVP_HDR <= |m|
    ensures r.mem == m
  {
    match Deliver(p, AvpAt(m, at), s)
    case Done(s') => Go(m, used, s')
    case Fatal(why, s') => Halt(why, m, s')
  }

  function HandOverHidden<S>(p: Peer<S>, h: bytes, at: nat, word: u16, s: S): (r: Step<S>)
    requires at + AVP_HDR <= |h| && HiddenWord(h, at)
    ensures |r.mem| == |h|
  {
    match p.keys(s)
    case NoVector => if Mandatory(word) then Halt(BadHidden, h, s) else Go(h, Length(word), s)
    case Has(k) =>
      match UnhideAt(p.f, k, h, at)
      case Refused(mem) => if Mandatory(word) then Halt(BadHidden, mem, s) else Go(mem, Length(word), s)
      case Restored(mem) => HandOver(p, mem, at + 2, Length(word), s)
  }

  /** One turn of the loop; `h` already has its header in host order. */
  function Checked<S>(p: Peer<S>, h: bytes, at: nat, len: nat, first: bool, s: S): (r: Step<S>)
    requires 0 < len && at + len <= |h| && at + AVP_HDR <= |h|
    ensures |r.mem| == |h|
  {
    var word, attr := ReadLittle(h, at), ReadLittle(h, at + 4);
    if attr > AVP_MAX then (if Mandatory(word) then Halt(MandatoryUnknown, h, s) else Go(h, Length(word), s))
    else if Length(word) > len then Halt(TooLong, h, s)
    else if attr != 0 && first then Halt(NotMessageType, h, s)
    else if Length(word) < AVP_HDR then Halt(TooSmall, h, s)
    else if ReservedBits(word) then (if Mandatory(word) then Halt(Reserved, h, s) else Go(h, Length(word), s))
    else if HiddenBit(word) then NoReserved(word); HandOverHidden(p, h, at, word, s)
    else HandOver(p, h, at, Length(word), s)
  }

  lemma NoReserved(word: u16)
    requires !ReservedBits(word)
    ensures word % 4096 == Length(word)
  {
    assert word / 1024 == 16 * (word / 1024 / 16);
    assert word == 1024 * (word / 1024) + word % 1024;
  }

  // ----------------------------------------------------------------- the walk

  /** `used` are the lengths by which the walk advanced. `Overrun` is a walk that is about
      to swap header bytes behind the end of the buffer. */
  datatype Outcome<S> = Accepted(state: S, used: seq<nat>) | Rejected(why: Reason, state: S) | Overrun

  function Ahead<S>(n: nat, o: Outcome<S>): Outcome<S> {
    if o.Accepted? then o.(used := [n] + o.used) else o
  }

  /** `handle_avps` on the `len` bytes at `at`. */
  function Walk<S>(p: Peer<S>, m: bytes, at: nat, len: int, first: bool, s: S): Outcome<S>
    requires len > 0 ==> at + len <= |m|
    decreases if len > 0 then len else 0
  {
    if len < 0 then Rejected(LeftOver, s)
    else if len == 0 then Accepted(s, [])
    else if at + AVP_HDR > |m| then Overrun
    else
      match Checked(p, SwapHeader(m, at), at, len, first, s)
      case Halt(why, _, s') => Rejected(why, s')
      case Go(m', used, s') =>
        if used == 0 then Rejected(LeftOver, s')
        else Ahead(used, Walk(p, m', at + used, len - used, false, s'))
  }

  function Sum(used: seq<nat>): nat { if used == [] then 0 else used[0] + Sum(used[1..]) }

  lemma SumOfNone()
    ensures Sum([]) == 0
  {
  }

  lemma SumOfMore(n: nat, used: seq<nat>)
    requires n > 0 && forall k :: k in used ==> k > 0
    ensures Sum([n] + used) == n + Sum(used) && forall k :: k in [n] + used ==> k > 0
  {
    assert ([n] + used)[1..] == used;
  }

  /** A message is accepted only if the lengths the walk advanced by make up its body. */
  lemma {:induction false} LengthsMakeUpTheBody<S>(p: Peer<S>, m: bytes, at: nat, len: int, first: bool, s: S)
    requires len > 0 ==> at + len <= |m|
    ensures var o := Walk(p, m, at, len, first, s);
            o.Accepted? ==> Sum(o.used) == len && forall n :: n in o.used ==> n > 0
    decreases if len > 0 then len else 0
  {
    hide Checked, SwapHeader, Sum;
    if len == 0 {
      SumOfNone();
    } else if len > 0 && at + AVP_HDR <= |m| {
      var step := Checked(p, SwapHeader(m, at), at, len, first, s);
      if step.Go? && step.used > 0 {
        LengthsMakeUpTheBody(p, step.mem, at + step.used, len - step.used, false, step.state);
        var o := Walk(p, step.mem, at + step.used, len - step.used, false, step.state);
        if o.Accepted? {
          SumOfMore(step.used, o.used);
        }
      }
    }
  }

  // -------------------------------------------------- the lengths in the packet

  lemma SwapReads(m: bytes, at: nat)
    requires at + AVP_HDR <= |m|
    ensures var h := SwapHeader(m, at);
            && ReadLittle(h, at) == ReadBig(m, at) && ReadLittle(h, at + 2) == ReadBig(m, at + 2)
            && ReadLittle(h, at + 4) == ReadBig(m, at + 4) && h[at + AVP_HDR..] == m[at + AVP_HDR..]
  {
  }

  lemma RebuildFrame(m: bytes, at: nat, word: u16, vendor: u16, attr: u16, plain: bytes)
    requires at + AVP_HDR + |plain| <= |m| && AVP_HDR + |plain| < 4096
    ensures Rebuild(m, at, word, vendor, attr, plain).mem[at + AVP_HDR + |plain|..] == m[at + AVP_HDR + |plain|..]
  {
  }

  /** Unmasking touches nothing behind the AVP. */
  lemma UnhideFrame(f: Transform, k: Keys, m: bytes, at: nat)
    requires HiddenWord(m, at)
    ensures var n := ReadLittle(m, at) % 4096;
            n >= AVP_HDR ==> UnhideAt(f, k, m, at).mem[at + n..] == m[at + n..]
  {
    hide Rebuild, Unmask, Seed, ReadLittle;
    var attr := ReadLittle(m, at + 4);
    RebuildFrame(m, at, ReadLittle(m, at), ReadLittle(m, at + 2), attr, Unmask(f, Seed(k, attr), k.secret, CipherAt(m, at)));
  }

  lemma HandOverHiddenFrame<S>(p: Peer<S>, h: bytes, at: nat, word: u16, s: S)
    requires at + AVP_HDR <= |h| && HiddenWord(h, at) && word == ReadLittle(h, at)
    requires word % 4096 == Length(word) >= AVP_HDR
    ensures var r := HandOverHidden(p, h, at, word, s);
            r.Go? ==> r.used == Length(word) && r.mem[at + r.used..] == h[at + r.used..]
  {
    hide UnhideAt, ReadLittle, HandOver;
    if p.keys(s).Has? {
      UnhideFrame(p.f, p.keys(s).keys, h, at);
      if UnhideAt(p.f, p.keys(s).keys, h, at).Restored? {
        HandOverUses(p, UnhideAt(p.f, p.keys(s).keys, h, at).mem, at + 2, Length(word), s);
      }
    }
  }

  lemma HandOverUses<S>(p: Peer<S>, m: bytes, at: nat, used: nat, s: S)
    requires at + AVP_HDR <= |m|
    ensures HandOver(p, m, at, used, s).Go? ==> HandOver(p, m, at, used, s).used == used
  {
  }

  /** The walk advances by the length in the packet and leaves what follows as the
      swapping of the header left it. */
  lemma CheckedFrame<S>(p: Peer<S>, h: bytes, at: nat, len: nat, first: bool, s: S)
    requires 0 < len && at + len <= |h| && at + AVP_HDR <= |h|
    ensures var r := Checked(p, h, at, len, first, s);
            && (r.Go? ==> r.used == Length(ReadLittle(h, at)))
            && (r.Go? && at + r.used <= |h| ==> r.mem[at + r.used..] == h[at + r.used..])
  {
    hide ReadLittle, HandOver, HandOverHidden, Length, HiddenBit, ReservedBits, Mandatory;
    var word, attr := ReadLittle(h, at), ReadLittle(h, at + 4);
    HandOverUses(p, h, at, Length(word), s);
    if attr <= AVP_MAX && AVP_HDR <= Length(word) <= len && !ReservedBits(word) {
      NoReserved(word);
      HandOverHiddenFrame(p, h, at, word, s);
    }
  }

  /** The lengths written in the packet at `at`, one AVP after the other, are `used`. */
  ghost predicate Tiles(m: bytes, at: nat, len: int, used: seq<nat>)
    decreases |used|
  {
    if used == [] then len == 0
    else
      && at + AVP_HDR <= |m| && used[0] == Length(ReadBig(m, at)) && 0 < used[0] <= len
      && Tiles(m, at + used[0], len - used[0], used[1..])
  }

  /** Every AVP is at least a header long. */
  ghost predicate Whole(used: seq<nat>) { forall n :: n in used ==> n >= AVP_HDR }

  lemma WholeTail(n: nat, used: seq<nat>)
    ensures ([n] + used)[1..] == used && Sum([n] + used) == n + Sum(used)
    ensures Whole([n] + used) ==> n >= AVP_HDR && Whole(used)
  {
    assert n in [n] + used && forall k :: k in used ==> k in [n] + used;
  }

  lemma SliceOn(a: bytes, b: bytes, i: nat, j: nat)
    requires i <= j <= |a| == |b| && a[i..] == b[i..]
    ensures a[j..] == b[j..]
  {
    assert a[j..] == a[i..][j - i..] && b[j..] == b[i..][j - i..];
  }

  /** A turn that advances by the length in the packet, leaves what follows as the swap
      left it, and after which an accepted walk goes on to be accepted. */
  ghost predicate Advances<S>(p: Peer<S>, m: bytes, at: nat, len: nat, step: Step<S>, all: Outcome<S>)
    requires at + AVP_HDR <= |m| && at + len <= |m|
  {
    && step.Go? && step.used == Length(ReadBig(m, at)) && 0 < step.used <= len && |step.mem| == |m|
    && step.mem[at + step.used..] == SwapHeader(m, at)[at + step.used..]
    && var o := Walk(p, step.mem, at + step.used, len - step.used, false, step.state);
       o.Accepted? && all.Accepted? && all.used == [step.used] + o.used
  }

  /** One turn of an accepted walk. */
  lemma AcceptedTurn<S>(p: Peer<S>, m: bytes, at: nat, len: int, first: bool, s: S)
    requires len > 0 && at + len <= |m| && Walk(p, m, at, len, first, s).Accepted?
    ensures at + AVP_HDR <= |m|
    ensures Advances(p, m, at, len, Checked(p, SwapHeader(m, at), at, len, first, s), Walk(p, m, at, len, first, s))
  {
    hide Checked, SwapHeader, ReadLittle, ReadBig, Length;
    var h := SwapHeader(m, at);
    var step := Checked(p, h, at, len, first, s);
    SwapReads(m, at);
    CheckedFrame(p, h, at, len, first, s);
    LengthsMakeUpTheBody(p, step.mem, at + step.used, len - step.used, false, step.state);
  }

  // --------------------------------------------- when exactly the lengths tile

  /** Following the lengths written in `m`, each is still there when its turn comes,
      although the six header bytes of every AVP before it have been swapped; `cur`
      is the memory after those swaps. */
  ghost predicate Undisturbed(m: bytes, cur: bytes, at: nat, len: int)
    requires |cur| == |m|
    decreases if len > 0 then len else 0
  {
    len <= 0 || at + AVP_HDR > |m| ||
    var n := Length(ReadBig(m, at));
    && Length(ReadBig(cur, at)) == n
    && (n > 0 ==> Undisturbed(m, SwapHeader(cur, at), at + n, len - n))
  }

  lemma {:induction false} UndisturbedFrame(m: bytes, cur: bytes, cur': bytes, at: nat, len: int)
    requires |cur| == |cur'| == |m| && at <= |m| && cur[at..] == cur'[at..]
    ensures Undisturbed(m, cur, at, len) == Undisturbed(m, cur', at, len)
    decreases if len > 0 then len else 0
  {
    hide SwapHeader, ReadBig, Length;
    if len > 0 && at + AVP_HDR <= |m| {
      var n := Length(ReadBig(m, at));
      SwapFrame(cur, cur', at);
      if 0 < n && at + n <= |m| {
        SliceOn(SwapHeader(cur, at), SwapHeader(cur', at), at, at + n);
        UndisturbedFrame(m, SwapHeader(cur, at), SwapHeader(cur', at), at + n, len - n);
      }
    }
  }

  lemma SwapFrame(a: bytes, b: bytes, at: nat)
    requires |a| == |b| && at + AVP_HDR <= |a| && a[at..] == b[at..]
    ensures ReadBig(a, at) == ReadBig(b, at)
    ensures |SwapHeader(a, at)| == |a| && |SwapHeader(b, at)| == |b|
    ensures SwapHeader(a, at)[at..] == SwapHeader(b, at)[at..]
  {
    assert forall i :: at <= i < |a| ==> a[i] == a[at..][i - at] == b[at..][i - at] == b[i];
  }

  /** An accepted message is tiled by the lengths it arrived with if and only if none
      of them was disturbed by the swapping before it; `cur` is the memory the walk works on. */
  lemma {:induction false} TilesWhileUndisturbed<S>(p: Peer<S>, m: bytes, cur: bytes, at: nat, len: int, first: bool,
                                                    s: S)
    requires |cur| == |m| && (len > 0 ==> at + len <= |m|)
    ensures var o := Walk(p, cur, at, len, first, s);
            o.Accepted? ==> (Tiles(m, at, len, o.used) <==> Undisturbed(m, cur, at, len))
    decreases if len > 0 then len else 0
  {
    hide Checked, SwapHeader, ReadLittle, ReadBig, Length, Sum, Tiles, Undisturbed, Walk;
    if len <= 0 {
      NothingToTile(p, m, cur, at, len, first, s);
    } else if Walk(p, cur, at, len, first, s).Accepted? {
      AcceptedTurn(p, cur, at, len, first, s);
      var h := SwapHeader(cur, at);
      var step := Checked(p, h, at, len, first, s);
      var next, left := at + step.used, len - step.used;
      TilesWhileUndisturbed(p, m, step.mem, next, left, false, step.state);
      UndisturbedFrame(m, step.mem, h, next, left);
      TilesHead(m, cur, at, len, step.used, Walk(p, step.mem, next, left, false, step.state).used);
    }
  }

  lemma NothingToTile<S>(p: Peer<S>, m: bytes, cur: bytes, at: nat, len: int, first: bool, s: S)
    requires |cur| == |m| && len <= 0
    ensures var o := Walk(p, cur, at, len, first, s);
            o.Accepted? ==> Tiles(m, at, len, o.used) && Undisturbed(m, cur, at, len)
  {
  }

  lemma TilesHead(m: bytes, cur: bytes, at: nat, len: nat, n: nat, rest: seq<nat>)
    requires |cur| == |m| && at + AVP_HDR <= |m| && n == Length(ReadBig(cur, at)) && 0 < n <= len
    requires Tiles(m, at + n, len - n, rest) <==> Undisturbed(m, SwapHeader(cur, at), at + n, len - n)
    ensures Tiles(m, at, len, [n] + rest) <==> Undisturbed(m, cur, at, len)
  {
    hide SwapHeader, ReadBig, Length;
    assert ([n] + rest)[1..] == rest;
  }

  lemma TilesExactly<S>(p: Peer<S>, m: bytes, at: nat, len: int, first: bool, s: S)
    requires len > 0 ==> at + len <= |m|
    ensures var o := Walk(p, m, at, len, first, s);
            o.Accepted? ==> (Tiles(m, at, len, o.used) <==> Undisturbed(m, m, at, len))
  {
    TilesWhileUndisturbed(p, m, m, at, len, first, s);
  }

  /** Following the lengths written in the packet, no AVP but perhaps the last is
      shorter than its own header. */
  ghost predicate Steady(m: bytes, at: nat, len: int)
    decreases if len > 0 then len else 0
  {
    len <= 0 || at + AVP_HDR > |m| ||
    var n := Length(ReadBig(m, at));
    n == len || (n >= AVP_HDR && Steady(m, at + n, len - n))
  }

  lemma {:induction false} SteadyIsUndisturbed(m: bytes, cur: bytes, at: nat, len: int)
    requires |cur| == |m| && at <= |m| && cur[at..] == m[at..] && Steady(m, at, len)
    ensures Undisturbed(m, cur, at, len)
    decreases if len > 0 then len else 0
  {
    hide SwapHeader, ReadBig, ReadLittle, Length;
    if len > 0 && at + AVP_HDR <= |m| {
      var n := Length(ReadBig(m, at));
      SwapFrame(cur, m, at);
      if n != len && at + n <= |m| {
        SwapReads(cur, at);
        SliceOn(SwapHeader(cur, at), cur, at + AVP_HDR, at + n);
        SliceOn(cur, m, at, at + n);
        SteadyIsUndisturbed(m, SwapHeader(cur, at), at + n, len - n);
      }
    }
  }

  /** An accepted message in which no AVP but perhaps the last is shorter than a
      header is tiled by the lengths it arrived with. */
  lemma TilesIfSteady<S>(p: Peer<S>, m: bytes, at: nat, len: int, first: bool, s: S)
    requires len > 0 ==> at + len <= |m|
    requires Steady(m, at, len)
    ensures var o := Walk(p, m, at, len, first, s); o.Accepted? ==> Tiles(m, at, len, o.used)
  {
    hide Checked, SwapHeader, ReadBig, Length;
    if len > 0 {
      SteadyIsUndisturbed(m, m, at, len);
    }
    TilesExactly(p, m, at, len, first, s);
  }

  lemma {:induction false} SteadyFrame(m: bytes, m': bytes, at: nat, len: int)
    requires |m| == |m'| && at <= |m| && m[at..] == m'[at..]
    ensures Steady(m, at, len) == Steady(m', at, len)
    decreases if len > 0 then len else 0
  {
    hide SwapHeader, ReadBig, Length;
    if len > 0 && at + AVP_HDR <= |m| {
      SwapFrame(m, m', at);
      var n := Length(ReadBig(m, at));
      if n >= AVP_HDR && at + n <= |m| {
        SliceOn(m, m', at, at + n);
        SteadyFrame(m, m', at + n, len - n);
      }
    }
  }

  /** An accepted message whose AVPs were all at least a header long was steady. */
  lemma {:induction false} WholeIsSteady<S>(p: Peer<S>, m: bytes, at: nat, len: int, first: bool, s: S)
    requires len > 0 ==> at + len <= |m|
    ensures var o := Walk(p, m, at, len, first, s); o.Accepted? && Whole(o.used) ==> Steady(m, at, len)
    decreases if len > 0 then len else 0
  {
    hide Checked, SwapHeader, ReadLittle, ReadBig, Length, Whole, Sum;
    var all := Walk(p, m, at, len, first, s);
    if len > 0 && all.Accepted? && Whole(all.used) {
      AcceptedTurn(p, m, at, len, first, s);
      var h := SwapHeader(m, at);
      var step := Checked(p, h, at, len, first, s);
      var next, left := at + step.used, len - step.used;
      WholeTail(step.used, Walk(p, step.mem, next, left, false, step.state).used);
      SwapReads(m, at);
      SliceOn(h, m, at + AVP_HDR, next);
      WholeIsSteady(p, step.mem, next, left, false, step.state);
      SteadyFrame(step.mem, m, next, left);
    }
  }

  /** An accepted message whose AVPs were all at least a header long is tiled by
      the lengths it arrived with. */
  lemma AcceptedTiles<S>(p: Peer<S>, m: bytes, at: nat, len: int, first: bool, s: S)
    requires len > 0 ==> at + len <= |m|
    ensures var o := Walk(p, m, at, len, first, s); o.Accepted? && Whole(o.used) ==> Tiles(m, at, len, o.used)
  {
    hide Checked, Whole;
    WholeIsSteady(p, m, at, len, first, s);
    if Steady(m, at, len) {
      TilesIfSteady(p, m, at, len, first, s);
    }
  }

  lemma ShortFirst<S>(p: Peer<S>, s: S)
    ensures SwapHeader([0, 3, 0, 0, 1, 3, 0, 1, 0, 0, 0, 0], 0) == [3, 0, 0, 0, 3, 1, 0, 1, 0, 0, 0, 0]
    ensures var h := [3, 0, 0, 0, 3, 1, 0, 1, 0, 0, 0, 0]; Checked(p, h, 0, 6, true, s) == Go(h, 3, s)
  {
    var h: bytes := [3, 0, 0, 0, 3, 1, 0, 1, 0, 0, 0, 0];
    assert ReadLittle(h, 0) == 3 && ReadLittle(h, 4) == 259;
  }

  lemma ShortSecond<S>(p: Peer<S>, s: S)
    ensures SwapHeader([3, 0, 0, 0, 3, 1, 0, 1, 0, 0, 0, 0], 3) == [3, 0, 0, 3, 0, 0, 1, 0, 1, 0, 0, 0]
    ensures var h := [3, 0, 0, 3, 0, 0, 1, 0, 1, 0, 0, 0]; Checked(p, h, 3, 3, false, s) == Go(h, 3, s)
  {
    var h: bytes := [3, 0, 0, 3, 0, 0, 1, 0, 1, 0, 0, 0];
    assert ReadLittle(h, 3) == 3 && ReadLittle(h, 7) == 256;
  }

  /** The failing family: an unknown optional AVP shorter than its own header has the
      start of the next one swapped along with it. */
  lemma ShortUnknownShifts<S>(p: Peer<S>, s: S)
    ensures var m := [0, 3, 0, 0, 1, 3, 0, 1, 0, 0, 0, 0];
            Walk(p, m, 0, 6, true, s) == Accepted(s, [3, 3]) && !Tiles(m, 0, 6, [3, 3])
  {
    var m: bytes := [0, 3, 0, 0, 1, 3, 0, 1, 0, 0, 0, 0];
    assert Length(ReadBig(m, 3)) == 1;
    ShortFirst(p, s);
    ShortSecond(p, s);
    hide Checked, SwapHeader, Length, ReadBig;
    var h1, h2 := [3, 0, 0, 0, 3, 1, 0, 1, 0, 0, 0, 0], [3, 0, 0, 3, 0, 0, 1, 0, 1, 0, 0, 0];
    assert Walk(p, h2, 6, 0, false, s) == Accepted(s, []);
    assert Walk(p, h1, 3, 3, false, s) == Accepted(s, [3]);
  }
}
