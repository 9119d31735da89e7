/** Which address a call is given: one that the configuration allows, read range by
    range, whenever there is one, and the lowest of the first range that has any. */
module AddrLeases {
  import opened Octets
  import opened AddrPool

  /** The last range that holds an address. */
  ghost predicate LastHolder(ranges: seq<Range>, x: u32, k: nat) {
    && k < |ranges| && ranges[k].start <= x <= ranges[k].end
    && forall j :: k < j < |ranges| ==> !(ranges[j].start <= x <= ranges[j].end)
  }

  ghost predicate HeldBySome(ranges: seq<Range>, x: u32) {
    exists k :: 0 <= k < |ranges| && ranges[k].start <= x <= ranges[k].end
  }

  lemma {:induction false} LastWins(ranges: seq<Range>, x: u32, status: Sense, k: nat)
    requires LastHolder(ranges, x, k)
    ensures LastSense(ranges, x, status) == ranges[k].sense
  {
    if k == 0 {
      NoneHolds(ranges[1..], x, ranges[0].sense);
    } else {
      assert ranges[1..][k - 1] == ranges[k];
      LastWins(ranges[1..], x, if Holds(ranges[0], x) then ranges[0].sense else status, k - 1);
    }
  }

  lemma {:induction false} NoneHolds(ranges: seq<Range>, x: u32, status: Sense)
    requires forall j :: 0 <= j < |ranges| ==> !(ranges[j].start <= x <= ranges[j].end)
    ensures LastSense(ranges, x, status) == status
  {
    if ranges != [] {
      NoneHolds(ranges[1..], x, status);
    }
  }

  lemma {:induction false} SomeLast(ranges: seq<Range>, x: u32) returns (k: nat)
    requires HeldBySome(ranges, x)
    ensures LastHolder(ranges, x, k)
    decreases |ranges|
  {
    var n := |ranges| - 1;
    if ranges[n].start <= x <= ranges[n].end {
      k := n;
    } else {
      var i :| 0 <= i < |ranges| && ranges[i].start <= x <= ranges[i].end;
      assert ranges[..n][i] == ranges[i];
      k := SomeLast(ranges[..n], x);
    }
  }

  /** An address may be given out if and only if it is not in use, some range holds it,
      and the last one that does is an ALLOW range. */
  lemma {:induction false} AvailableExactly(used: set<u32>, ranges: seq<Range>, x: u32)
    ensures Available(used, ranges, x) <==>
              x !in used && exists k: nat :: LastHolder(ranges, x, k) && ranges[k].sense == Allow
  {
    if HeldBySome(ranges, x) {
      var k := SomeLast(ranges, x);
      LastWins(ranges, x, Deny, k);
      forall j: nat | LastHolder(ranges, x, j) ensures j == k {}
    } else {
      NoneHolds(ranges, x, Deny);
    }
  }

  ghost predicate NoneBelow(used: set<u32>, rest: seq<Range>, start: u32, y: u32) {
    forall x: u32 :: start <= x < y ==> !Accepts(used, rest, x)
  }

  /** The address is the lowest acceptable one of the first ALLOW range that has any. */
  lemma {:induction false} LowestOfTheFirst(used: set<u32>, ranges: seq<Range>) returns (k: nat)
    requires Ends(ranges) && Search(used, ranges).Given? && Search(used, ranges).y != 0
    ensures var y := Search(used, ranges).y;
            && k < |ranges| && ranges[k].sense == Allow && ranges[k].start <= y <= ranges[k].end
            && Accepts(used, ranges[k + 1..], y)
            && NoneBelow(used, ranges[k + 1..], ranges[k].start, y)
            && forall j :: 0 <= j < k && ranges[j].sense == Allow ==> Spent(used, ranges[j], ranges[j + 1..])
  {
    hide Accepts, FirstIn;
    var r, rest := ranges[0], ranges[1..];
    assert forall q :: q in rest ==> q in ranges;
    FirstInFacts(used, r.start, r.end, rest);
    if r.sense == Allow && !Spent(used, r, rest) {
      k := 0;
    } else {
      assert r in ranges;
      if r.sense == Allow { ScanFacts(used, r, rest); }
      var i := LowestOfTheFirst(used, rest);
      k := i + 1;
      assert rest[i + 1..] == ranges[k + 1..] && rest[i] == ranges[k];
      forall j | 0 <= j < k && ranges[j].sense == Allow ensures Spent(used, ranges[j], ranges[j + 1..]) {
        if j > 0 {
          assert rest[j - 1] == ranges[j] && rest[j..] == ranges[j + 1..];
        }
      }
    }
  }

  /** A new call that is to be given an address gets one that is available whenever there is
      one, and then nobody else gets it until the call is destroyed; with neither end of
      the address space in a range. */
  lemma {:induction false} CallGetsAddress(s: State, c: nat, ranges: seq<Range>, x: u32)
    requires Ends(ranges) && (forall r :: r in ranges ==> !Holds(r, 0)) && c !in s.calls && Available(s.used, ranges, x)
    ensures var w := Step(s, Icrq(c, true, ranges));
            && c in w.calls && w.calls[c] != 0 && Available(s.used, ranges, w.calls[c])
            && w.used == s.used + {w.calls[c]} && w.calls == s.calls[c := w.calls[c]]
            && !Available(w.used, ranges, w.calls[c])
  {
    EndsNeverStrays(s.used, ranges);
    NonePickedIff(s.used, ranges);
    PickedIsAvailable(s.used, ranges);
    hide Search, LastSense, Strays;
  }

  /** A call that is not to be given one, or a destroyed call, leaves none in use. */
  lemma {:induction false} CallGivesBack(s: State, c: nat, ranges: seq<Range>)
    requires Ok(s)
    ensures c !in s.calls ==> Step(s, Icrq(c, false, ranges)) == State(s.used, s.calls[c := 0])
    ensures var w := Step(s, DestroyCall(c));
            && c !in w.calls && (forall d :: d != c ==> (d in w.calls <==> d in s.calls) && (d in s.calls ==> w.calls[d] == s.calls[d]))
            && (c in s.calls ==> s.calls[c] !in w.used && w.used + {s.calls[c]} == s.used + {s.calls[c]})
  {
  }
}
