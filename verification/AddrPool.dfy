/** The address ranges of an LNS and the hash table of addresses in use; addresses
    are numbers in host order. */
module AddrPool {
  import opened Octets

  datatype Sense = Allow | Deny
  datatype Range = Range(start: u32, end: u32, sense: Sense)

  predicate Holds(r: Range, x: u32) { r.start <= x <= r.end }

  /** The sense of the last range that holds `x`, or `status` if none does. */
  function LastSense(ranges: seq<Range>, x: u32, status: Sense): Sense {
    if ranges == [] then status
    else LastSense(ranges[1..], x, if Holds(ranges[0], x) then ranges[0].sense else status)
  }

  /** An address that may be given out: not in use, held by some range, and allowed
      by the last one that holds it. */
  predicate Available(used: set<u32>, ranges: seq<Range>, x: u32) {
    x !in used && LastSense(ranges, x, Deny) == Allow
  }

  const MAX_ADDR: u32 := 0xFFFF_FFFF

  /** Acceptable to an ALLOW range in front of the ranges `rest`. */
  predicate Accepts(used: set<u32>, rest: seq<Range>, x: u32) { x !in used && LastSense(rest, x, Allow) == Allow }

  /** The first acceptable address from `x` to `end`, or -1. */
  function FirstIn(used: set<u32>, x: nat, end: u32, rest: seq<Range>): (y: int)
    ensures y == -1 || x <= y <= end
    decreases end + 1 - x
  {
    if x > end then -1
    else if Accepts(used, rest, x) then x
    else FirstIn(used, x + 1, end, rest)
  }

  datatype Scanned = Offer(y: u32) | Nothing | Forever

  /** The loop over one ALLOW range. Up to 255.255.255.255 the unsigned counter never
      passes the end: it goes on from 0.0.0.0, through all addresses, if need be for ever. */
  function Scan(used: set<u32>, r: Range, rest: seq<Range>): Scanned {
    var y := FirstIn(used, r.start, r.end, rest);
    if y != -1 then Offer(y)
    else if r.end < MAX_ADDR then Nothing
    else
      var z := FirstIn(used, 0, MAX_ADDR, rest);
      if z != -1 then Offer(z) else Forever
  }

  /** What is still to come of the loop at `x`, before or after the counter has wrapped. */
  function ScanFrom(used: set<u32>, x: nat, end: u32, rest: seq<Range>, wrapped: bool): Scanned {
    var y := FirstIn(used, x, end, rest);
    if y != -1 then Offer(y)
    else if end < MAX_ADDR then Nothing
    else if wrapped then Forever
    else
      var z := FirstIn(used, 0, MAX_ADDR, rest);
      if z != -1 then Offer(z) else Forever
  }

  lemma ScanBegins(used: set<u32>, r: Range, rest: seq<Range>)
    ensures Scan(used, r, rest) == ScanFrom(used, r.start, r.end, rest, false)
  {
  }

  /** One turn: an acceptable address is offered; after any other the loop goes on behind it, or at 0. */
  lemma ScanTurn(used: set<u32>, x: u32, end: u32, rest: seq<Range>, wrapped: bool)
    requires x <= end && (wrapped ==> end == MAX_ADDR)
    ensures Accepts(used, rest, x) ==> ScanFrom(used, x, end, rest, wrapped) == Offer(x)
    ensures !Accepts(used, rest, x) ==>
              var now := ScanFrom(used, x, end, rest, wrapped);
              if x < MAX_ADDR then now == ScanFrom(used, x + 1, end, rest, wrapped)
              else if wrapped then now == Forever
              else now == ScanFrom(used, 0, end, rest, true)
  {
    hide Accepts;
    assert FirstIn(used, end + 1, end, rest) == -1;
  }

  lemma ScanEnds(used: set<u32>, x: u32, end: u32, rest: seq<Range>, wrapped: bool)
    requires x > end
    ensures ScanFrom(used, x, end, rest, wrapped) == Nothing
  {
  }

  datatype Answer = Given(y: u32) | Endless

  /** `get_addr`; 0 stands for none. */
  function Search(used: set<u32>, ranges: seq<Range>): Answer {
    if ranges == [] then Given(0)
    else if ranges[0].sense == Deny then Search(used, ranges[1..])
    else
      match Scan(used, ranges[0], ranges[1..])
      case Offer(y) => Given(y)
      case Nothing => Search(used, ranges[1..])
      case Forever => Endless
  }

  lemma {:induction false} FirstInFacts(used: set<u32>, x: nat, end: u32, rest: seq<Range>)
    ensures var y := FirstIn(used, x, end, rest);
            && (y != -1 ==> Accepts(used, rest, y))
            && forall z: u32 :: x <= z <= end && (y == -1 || z < y) ==> !Accepts(used, rest, z)
    decreases end + 1 - x
  {
    if x <= end && !Accepts(used, rest, x) {
      FirstInFacts(used, x + 1, end, rest);
    }
  }

  // ------------------------------------------- what the answer means, exactly

  /** The range has nothing to give. */
  ghost predicate Spent(used: set<u32>, r: Range, rest: seq<Range>) {
    forall x: u32 :: Holds(r, x) ==> !Accepts(used, rest, x)
  }

  /** The search goes past the first range. */
  ghost predicate GoesPast(used: set<u32>, r: Range, rest: seq<Range>) {
    r.sense == Deny || (r.end < MAX_ADDR && Spent(used, r, rest))
  }

  /** The range at which the search stops gets to 0.0.0.0 first: at its start, or
      because it ends at 255.255.255.255, is spent, and the counter wraps. */
  ghost predicate StopsAtZero(used: set<u32>, ranges: seq<Range>) {
    ranges != [] &&
    var r, rest := ranges[0], ranges[1..];
    if GoesPast(used, r, rest) then StopsAtZero(used, rest)
    else Accepts(used, rest, 0) && (r.start == 0 || Spent(used, r, rest))
  }

  /** The search stops at a spent range that ends at 255.255.255.255, and the first
      acceptable address of all, which is not 0.0.0.0, is held by no range behind it. */
  ghost predicate Strays(used: set<u32>, ranges: seq<Range>) {
    ranges != [] &&
    var r, rest := ranges[0], ranges[1..];
    if GoesPast(used, r, rest) then Strays(used, rest)
    else
      && Spent(used, r, rest)
      && exists y: u32 :: y > 0 && First(used, rest, y) && forall q :: q in rest ==> !Holds(q, y)
  }

  /** The first acceptable address of all. */
  ghost predicate First(used: set<u32>, rest: seq<Range>, y: u32) {
    Accepts(used, rest, y) && forall x: u32 :: x < y ==> !Accepts(used, rest, x)
  }

  /** If a later range holds `x`, what came before does not matter. */
  lemma {:induction false} LastSenseForgets(ranges: seq<Range>, x: u32, a: Sense, b: Sense)
    ensures (exists r :: r in ranges && Holds(r, x)) ==> LastSense(ranges, x, a) == LastSense(ranges, x, b)
    ensures (forall r :: r in ranges ==> !Holds(r, x)) ==> LastSense(ranges, x, a) == a && LastSense(ranges, x, b) == b
  {
    if ranges != [] {
      assert forall r :: r in ranges <==> r == ranges[0] || r in ranges[1..];
      LastSenseForgets(ranges[1..], x, a, b);
      if Holds(ranges[0], x) {
        LastSenseForgets(ranges[1..], x, ranges[0].sense, ranges[0].sense);
      }
    }
  }

  /** An address is available from the ranges if the first one gives it out, or if a later one holds it. */
  lemma AvailableFrom(used: set<u32>, r: Range, rest: seq<Range>, x: u32)
    ensures Available(used, [r] + rest, x) <==>
              (Available(used, rest, x) || (r.sense == Allow && Holds(r, x) && Accepts(used, rest, x)))
  {
    assert ([r] + rest)[1..] == rest;
    LastSenseForgets(rest, x, Deny, r.sense);
    LastSenseForgets(rest, x, Deny, Allow);
  }

  lemma ScanFacts(used: set<u32>, r: Range, rest: seq<Range>)
    requires r.sense == Allow
    ensures Scan(used, r, rest) == Nothing <==> GoesPast(used, r, rest)
    ensures Scan(used, r, rest) == Forever ==> forall x: u32 :: !Accepts(used, rest, x)
    ensures match Scan(used, r, rest)
            case Offer(y) =>
              && Accepts(used, rest, y)
              && (if Spent(used, r, rest) then First(used, rest, y) else Holds(r, y))
            case Nothing => true
            case Forever => true
  {
    hide Accepts, FirstIn;
    FirstInFacts(used, r.start, r.end, rest);
    FirstInFacts(used, 0, MAX_ADDR, rest);
    var y := FirstIn(used, r.start, r.end, rest);
    assert y != -1 ==> Holds(r, y);
  }

  /** An address that is not 0 was rightly given if and only if the search did not stray. */
  lemma {:induction false} PickedIsAvailable(used: set<u32>, ranges: seq<Range>)
    ensures var a := Search(used, ranges);
            a.Given? && a.y != 0 ==> (Available(used, ranges, a.y) <==> !Strays(used, ranges))
  {
    hide Accepts, Available, Spent, Scan, First;
    if ranges != [] {
      var r, rest := ranges[0], ranges[1..];
      assert ranges == [r] + rest;
      var a := Search(used, ranges);
      if r.sense == Allow { ScanFacts(used, r, rest); }
      if GoesPast(used, r, rest) {
        PickedIsAvailable(used, rest);
        if a.Given? {
          AvailableFrom(used, r, rest, a.y);
          GivesNothing(used, r, rest, a.y);
        }
      } else if a.Given? && a.y != 0 {
        AvailableFrom(used, r, rest, a.y);
        if Spent(used, r, rest) {
          SpentGives(used, r, rest, a.y);
          HeldBehind(used, rest, a.y);
        }
      }
    }
  }

  lemma GivesNothing(used: set<u32>, r: Range, rest: seq<Range>, x: u32)
    requires GoesPast(used, r, rest)
    ensures !(r.sense == Allow && Holds(r, x) && Accepts(used, rest, x))
  {
  }

  lemma SpentGives(used: set<u32>, r: Range, rest: seq<Range>, y: u32)
    requires Spent(used, r, rest) && First(used, rest, y)
    ensures !(Holds(r, y) && Accepts(used, rest, y))
    ensures forall z: u32 :: First(used, rest, z) ==> z == y
  {
    forall z: u32 | First(used, rest, z) ensures z == y {}
  }

  /** What the ranges behind accept is available from them exactly if one of them holds it. */
  lemma HeldBehind(used: set<u32>, rest: seq<Range>, y: u32)
    requires First(used, rest, y)
    ensures Available(used, rest, y) <==> exists q :: q in rest && Holds(q, y)
  {
    LastSenseForgets(rest, y, Deny, Allow);
  }

  /** The search returns nothing, or does not return, although an address is
      available, if and only if it stops at 0.0.0.0. */
  lemma {:induction false} ZeroExactly(used: set<u32>, ranges: seq<Range>)
    ensures StopsAtZero(used, ranges) ==> Search(used, ranges) == Given(0)
    ensures Search(used, ranges) == Given(0) && !StopsAtZero(used, ranges) ==>
              forall x: u32 :: !Available(used, ranges, x)
    ensures Search(used, ranges) == Endless ==> forall x: u32 :: !Available(used, ranges, x)
  {
    hide Accepts, Available, Scan, First, Holds, Spent;
    if ranges == [] {
      NoRanges(used);
    } else {
      var r, rest := ranges[0], ranges[1..];
      assert ranges == [r] + rest;
      ZeroExactly(used, rest);
      if r.sense == Allow {
        ScanFacts(used, r, rest);
        if !GoesPast(used, r, rest) { StopsHere(used, r, rest); }
      }
      forall x: u32 ensures Available(used, ranges, x) <==>
          (Available(used, rest, x) || (r.sense == Allow && Holds(r, x) && Accepts(used, rest, x)))
      {
        AvailableFrom(used, r, rest, x);
      }
      if GoesPast(used, r, rest) {
        forall x: u32 ensures !(r.sense == Allow && Holds(r, x) && Accepts(used, rest, x)) {
          GivesNothing(used, r, rest, x);
        }
      }
      if r.sense == Allow && Scan(used, r, rest) == Forever {
        forall x: u32 ensures !Available(used, rest, x) { AcceptsWhatIsAvailable(used, rest, x); }
      }
    }
  }

  /** Of a range at which the search stops: 0 is what it offers exactly if 0 comes first. */
  lemma StopsHere(used: set<u32>, r: Range, rest: seq<Range>)
    requires r.sense == Allow && !GoesPast(used, r, rest)
    ensures Accepts(used, rest, 0) && (r.start == 0 || Spent(used, r, rest)) <==> Scan(used, r, rest) == Offer(0)
  {
    ScanFacts(used, r, rest);
    hide Accepts;
    FirstInFacts(used, r.start, r.end, rest);
    FirstInFacts(used, 0, MAX_ADDR, rest);
    assert Holds(r, 0) <==> r.start == 0;
  }

  lemma AcceptsWhatIsAvailable(used: set<u32>, rest: seq<Range>, x: u32)
    ensures Available(used, rest, x) ==> Accepts(used, rest, x)
  {
    LastSenseForgets(rest, x, Deny, Allow);
  }

  lemma NoRanges(used: set<u32>)
    ensures forall x: u32 :: !Available(used, [], x)
  {
  }

  /** A search that ends returns nothing if and only if it stops at 0.0.0.0, or
      nothing is available and it does not stray. */
  lemma NonePickedExactly(used: set<u32>, ranges: seq<Range>)
    requires Search(used, ranges).Given?
    ensures Search(used, ranges) == Given(0) <==>
              (StopsAtZero(used, ranges) || (!Strays(used, ranges) && forall x: u32 :: !Available(used, ranges, x)))
  {
    hide Available, Search, StopsAtZero, Strays;
    PickedIsAvailable(used, ranges);
    ZeroExactly(used, ranges);
    if Strays(used, ranges) && Search(used, ranges) == Given(0) {
      StrayIsNotZero(used, ranges);
    }
  }

  lemma {:induction false} StrayIsNotZero(used: set<u32>, ranges: seq<Range>)
    requires Strays(used, ranges)
    ensures Search(used, ranges) != Given(0)
  {
    hide Accepts, Scan, Spent;
    var r, rest := ranges[0], ranges[1..];
    if r.sense == Allow { ScanFacts(used, r, rest); }
    if GoesPast(used, r, rest) {
      StrayIsNotZero(used, rest);
    } else {
      var y: u32 :| y > 0 && First(used, rest, y) && forall q :: q in rest ==> !Holds(q, y);
      SpentGives(used, r, rest, y);
    }
  }

  /** No ALLOW range ends at 255.255.255.255. */
  predicate Ends(ranges: seq<Range>) { forall r :: r in ranges && r.sense == Allow ==> r.end < MAX_ADDR }

  /** Then the search ends and never strays. */
  lemma {:induction false} EndsNeverStrays(used: set<u32>, ranges: seq<Range>)
    requires Ends(ranges)
    ensures Search(used, ranges).Given? && !Strays(used, ranges)
  {
    hide Accepts, FirstIn, First;
    if ranges != [] {
      assert ranges[0] in ranges && forall r :: r in ranges[1..] ==> r in ranges;
      EndsNeverStrays(used, ranges[1..]);
    }
  }

  lemma {:induction false} NeverAtZero(used: set<u32>, ranges: seq<Range>)
    requires Ends(ranges) && forall r :: r in ranges ==> !Holds(r, 0)
    ensures !StopsAtZero(used, ranges)
  {
    hide Accepts;
    if ranges != [] {
      assert ranges[0] in ranges && forall r :: r in ranges[1..] ==> r in ranges;
      NeverAtZero(used, ranges[1..]);
    }
  }

  /** In particular, with neither end of the address space in an ALLOW range: nothing
      is returned if and only if nothing is available. */
  lemma NonePickedIff(used: set<u32>, ranges: seq<Range>)
    requires Ends(ranges) && forall r :: r in ranges ==> !Holds(r, 0)
    ensures Search(used, ranges) == Given(0) <==> forall x: u32 :: !Available(used, ranges, x)
  {
    hide Available, Search, StopsAtZero, Strays;
    EndsNeverStrays(used, ranges);
    NeverAtZero(used, ranges);
    NonePickedExactly(used, ranges);
  }

  /** A range that starts at 0.0.0.0 ends the search with nothing although other
      addresses are free. */
  lemma ZeroEndsTheSearch()
    ensures var ranges := [Range(0, 5, Allow)];
            Search({}, ranges) == Given(0) && Available({}, ranges, 3)
  {
  }

  /** A spent range that ends at 255.255.255.255 gives out an address no range holds. */
  lemma WrapLeavesTheRange()
    ensures var ranges := [Range(MAX_ADDR, MAX_ADDR, Allow), Range(0, 0, Deny)];
            Search({MAX_ADDR}, ranges) == Given(1) && !Available({MAX_ADDR}, ranges, 1)
  {
    var rest := [Range(0, 0, Deny)];
    assert [Range(MAX_ADDR, MAX_ADDR, Allow), Range(0, 0, Deny)][1..] == rest;
    assert rest[1..] == [] && LastSense(rest, 1, Allow) == Allow && LastSense(rest, 1, Deny) == Deny;
    assert FirstIn({MAX_ADDR}, MAX_ADDR, MAX_ADDR, rest) == -1;
    assert !Accepts({MAX_ADDR}, rest, 0) && Accepts({MAX_ADDR}, rest, 1);
    assert FirstIn({MAX_ADDR}, 0, MAX_ADDR, rest) == FirstIn({MAX_ADDR}, 1, MAX_ADDR, rest) == 1;
    hide FirstIn, LastSense;
    assert Scan({MAX_ADDR}, Range(MAX_ADDR, MAX_ADDR, Allow), rest) == Offer(1);
  }

  // ---------------------------------------------------------------------- calls

  /** Addresses in use, and the address of every call (0 for none). */
  datatype State = State(used: set<u32>, calls: map<nat, u32>)

  /** An ICRQ creates a call; the LNS it arrives at may assign an address. */
  datatype Action = Icrq(call: nat, assign: bool, ranges: seq<Range>) | DestroyCall(call: nat)

  function Step(s: State, a: Action): State {
    match a
    case Icrq(c, assign, ranges) =>
      var a := if assign then Search(s.used, ranges) else Given(0);
      if c in s.calls || a.Endless? then s
      else
        var y := a.y;
        State(if y == 0 then s.used else s.used + {y}, s.calls[c := y])
    case DestroyCall(c) =>
      if c !in s.calls then s
      else State(if s.calls[c] == 0 then s.used else s.used - {s.calls[c]}, s.calls - {c})
  }

  function Exec(s: State, acts: seq<Action>): State {
    if acts == [] then s else Step(Exec(s, acts[..|acts| - 1]), acts[|acts| - 1])
  }

  /** The addresses in use are those of the live calls, each of one call only. */
  ghost predicate Ok(s: State) {
    && (forall x :: x in s.used <==> x != 0 && x in s.calls.Values)
    && forall c, d :: c in s.calls && d in s.calls && c != d && s.calls[c] == s.calls[d] ==> s.calls[c] == 0
  }

  lemma {:induction false} PickedIsUnused(used: set<u32>, ranges: seq<Range>)
    ensures var a := Search(used, ranges); a.Given? && a.y != 0 ==> a.y !in used
  {
    if ranges != [] {
      PickedIsUnused(used, ranges[1..]);
      if ranges[0].sense == Allow {
        ScanFacts(used, ranges[0], ranges[1..]);
      }
    }
  }

  lemma StepKeeps(s: State, a: Action)
    requires Ok(s)
    ensures Ok(Step(s, a))
  {
    var w := Step(s, a);
    if a.Icrq? {
      PickedIsUnused(s.used, a.ranges);
    }
    forall x | x in w.calls.Values && x != 0 ensures x in w.used {
      var c :| c in w.calls && w.calls[c] == x;
      assert c in s.calls ==> s.calls[c] in s.calls.Values;
    }
    forall x | x in w.used ensures x != 0 && x in w.calls.Values {
      if x in s.used {
        var c :| c in s.calls && s.calls[c] == x;
        assert c in w.calls && w.calls[c] == x;
      } else {
        assert a.call in w.calls && w.calls[a.call] == x;
      }
    }
  }

  /** In every run no address is given to two live calls, and none stays reserved
      after its call is gone. */
  lemma {:induction false} RunKeeps(s: State, acts: seq<Action>)
    requires Ok(s)
    ensures Ok(Exec(s, acts))
  {
    if acts != [] {
      RunKeeps(s, acts[..|acts| - 1]);
      StepKeeps(Exec(s, acts[..|acts| - 1]), acts[|acts| - 1]);
    }
  }

  // ----------------------------------------------------------------- hash table

  const ADDR_HASH_SIZE: nat := 256

  class AddrTable {
    const uaddr: array<seq<u32>>

    /** Every address is in its own bucket, once. */
    ghost predicate Valid()
      reads this, uaddr
    {
      && uaddr.Length == ADDR_HASH_SIZE
      && (forall b, i :: 0 <= b < ADDR_HASH_SIZE && 0 <= i < |uaddr[b]| ==> uaddr[b][i] % ADDR_HASH_SIZE == b)
      && forall b, i, j :: 0 <= b < ADDR_HASH_SIZE && 0 <= i < j < |uaddr[b]| ==> uaddr[b][i] != uaddr[b][j]
    }

    ghost predicate Has(x: u32)
      reads this, uaddr
      requires Valid()
    {
      x in uaddr[x % ADDR_HASH_SIZE]
    }

    ghost predicate Represents(used: set<u32>)
      reads this, uaddr
    {
      Valid() && forall x: u32 :: x in used <==> Has(x)
    }

    /** `init_addr` */
    constructor ()
      ensures Represents({}) && fresh(uaddr)
    {
      uaddr := new seq<u32>[ADDR_HASH_SIZE](_ => []);
    }

    /** `ip_used` */
    method IpUsed(addr: u32) returns (r: bool)
      requires Valid()
      ensures r == Has(addr)
    {
      var l, i := uaddr[addr % ADDR_HASH_SIZE], 0;
      while i < |l|
        invariant i <= |l| && addr !in l[..i]
      {
        if l[i] == addr {
          return true;
        }
        i := i + 1;
      }
      r := false;
    }

    /** `reserve_addr` */
    method Reserve(addr: u32, ghost used: set<u32>)
      requires Represents(used)
      modifies uaddr
      ensures Represents(used + {addr})
    {
      var r := IpUsed(addr);
      if r {
        return;
      }
      uaddr[addr % ADDR_HASH_SIZE] := [addr] + uaddr[addr % ADDR_HASH_SIZE];
    }

    /** `unreserve_addr` */
    method Unreserve(addr: u32, ghost used: set<u32>)
      requires Represents(used)
      modifies uaddr
      ensures Represents(used - {addr})
    {
      var b := addr % ADDR_HASH_SIZE;
      var l, i := uaddr[b], 0;
      ghost var was := l;
      while i < |l|
        invariant i <= |l| && addr !in l[..i]
        invariant forall x :: x != addr ==> (x in l <==> x in was)
        invariant forall x :: x in l ==> x in was
        invariant forall j, k :: 0 <= j < k < |l| ==> l[j] != l[k]
        decreases |l| - i
      {
        if l[i] == addr {
          l := l[..i] + l[i + 1..];
        } else {
          i := i + 1;
        }
      }
      forall k | 0 <= k < |l| ensures l[k] % ADDR_HASH_SIZE == b { assert l[k] in was; }
      uaddr[b] := l;
    }

    /** The remaining ranges have the last word on `x`. */
    method FinalSense(ranges: seq<Range>, from: nat, x: u32) returns (status: Sense)
      requires from <= |ranges|
      ensures status == LastSense(ranges[from..], x, Allow)
    {
      status := Allow;
      var j := from;
      while j < |ranges|
        invariant from <= j <= |ranges|
        invariant LastSense(ranges[j..], x, status) == LastSense(ranges[from..], x, Allow)
      {
        assert ranges[j..][1..] == ranges[j + 1..];
        if ranges[j].start <= x && x <= ranges[j].end {
          status := ranges[j].sense;
        }
        j := j + 1;
      }
    }

    /** The search of one ALLOW range; -1 if it has nothing to offer. */
    method SearchRange(ranges: seq<Range>, i: nat, ghost used: set<u32>) returns (y: int)
      requires Represents(used) && i < |ranges| && Scan(used, ranges[i], ranges[i + 1..]) != Forever
      ensures match Scan(used, ranges[i], ranges[i + 1..]) case Offer(z) => y == z case _ => y == -1
    {
      hide LastSense, FirstIn, ScanFrom;
      var x: u32, end := ranges[i].start, ranges[i].end;
      ghost var rest, wrapped := ranges[i + 1..], false;
      ScanBegins(used, ranges[i], rest);
      while x <= end
        invariant wrapped ==> end == MAX_ADDR
        invariant Scan(used, ranges[i], rest) == ScanFrom(used, x, end, rest, wrapped)
        decreases !wrapped, end + 1 - x
      {
        ScanTurn(used, x, end, rest, wrapped);
        var taken := IpUsed(x);
        if !taken {
          var status := FinalSense(ranges, i + 1, x);
          if status == Allow {
            return x;
          }
        }
        wrapped := wrapped || x == MAX_ADDR;
        x := (x + 1) % 0x1_0000_0000;
      }
      ScanEnds(used, x, end, rest, wrapped);
      y := -1;
    }

    /** `get_addr` */
    method GetAddr(ranges: seq<Range>, ghost used: set<u32>) returns (y: u32)
      requires Represents(used) && Search(used, ranges) != Endless
      ensures Search(used, ranges) == Given(y)
    {
      hide Scan;
      var i := 0;
      assert ranges[0..] == ranges;
      while i < |ranges|
        invariant i <= |ranges| && Search(used, ranges[i..]) == Search(used, ranges)
      {
        assert ranges[i..][0] == ranges[i] && ranges[i..][1..] == ranges[i + 1..];
        if ranges[i].sense == Allow {
          var found := SearchRange(ranges, i, used);
          if found != -1 {
            return found;
          }
        }
        i := i + 1;
      }
      y := 0;
    }
  }
}
