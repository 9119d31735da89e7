/** Who is served by pppoe-server: which requests are granted a slot, what the slot is
    then, and how it is given up again. */
module ServerGrants {
  import opened LinkedLists
  import opened Octets
  import opened ServerSessions

  predicate IsOf(v: State, s: nat, mac: Mac) { s < |v.slots| && v.slots[s].eth == mac }

  /** The slots of this list that are a client's. */
  function SlotsOf(v: State, l: seq<nat>, mac: Mac): set<nat> { set s | s in l && IsOf(v, s, mac) }

  /** The busy slots of a client. */
  function OwnedBy(v: State, mac: Mac): set<nat> { SlotsOf(v, v.busy, mac) }

  lemma {:induction false} CountIs(v: State, l: seq<nat>, mac: Mac)
    requires forall i, j :: 0 <= i < j < |l| ==> l[i] != l[j]
    ensures CountFromMac(v, l, mac) == |SlotsOf(v, l, mac)|
  {
    if l == [] {
      assert SlotsOf(v, l, mac) == {};
    } else {
      CountIs(v, l[1..], mac);
      assert CountFromMac(v, l, mac) == (if IsOf(v, l[0], mac) then 1 else 0) + CountFromMac(v, l[1..], mac);
      hide IsOf, CountFromMac;
      assert forall s: nat :: s in l <==> s == l[0] || s in l[1..];
      assert l[0] !in l[1..];
      if IsOf(v, l[0], mac) {
        assert SlotsOf(v, l, mac) == SlotsOf(v, l[1..], mac) + {l[0]};
      } else {
        assert SlotsOf(v, l, mac) == SlotsOf(v, l[1..], mac);
      }
    }
  }

  lemma {:induction false} TwiceCounted(l: seq<nat>, i: nat, j: nat)
    requires i < j < |l| && l[i] == l[j]
    ensures multiset(l)[l[i]] >= 2
  {
    assert l == l[..i] + [l[i]] + l[i + 1..];
    assert l[i] == l[i + 1..][j - i - 1];
    assert l[i] in multiset(l[i + 1..]);
  }

  lemma {:induction false} BusyOnce(v: State, i: nat, j: nat)
    requires Partition(v) && i < j < |v.busy|
    ensures v.busy[i] != v.busy[j]
  {
    OneList(v, v.busy[i]);
    if v.busy[i] == v.busy[j] {
      TwiceCounted(v.busy, i, j);
    }
  }

  /** What the count of a client's sessions is. */
  lemma {:induction false} CountIsNumberOfSlots(c: Config, v: State, mac: Mac)
    requires Ok(c, v)
    ensures CountFromMac(v, v.busy, mac) == |OwnedBy(v, mac)|
  {
    forall i, j | 0 <= i < j < |v.busy| ensures v.busy[i] != v.busy[j] { BusyOnce(v, i, j); }
    CountIs(v, v.busy, mac);
  }

  /** The request can be granted: it comes from a station, one that has fewer sessions
      than it may have, what it asks for is acceptable, and a slot is free. */
  ghost predicate Admissible(c: Config, v: State, r: Request) {
    && r.mac[0] % 2 == 0 && (c.maxPerMac == 0 || |OwnedBy(v, r.mac)| < c.maxPerMac)
    && r.acceptable && v.free != []
  }

  /** A request is granted if and only if it can be: it gets the slot that was free
      longest, which is then busy with its process, and keeps its number. If no process
      can be started the slot is free again, behind the others. Any other request
      changes nothing. */
  lemma {:induction false} GrantedExactly(c: Config, v: State, r: Request)
    requires Ok(c, v)
    ensures var w := Step(c, v, Padr(r));
            if !Admissible(c, v, r) then w == v
            else
              var s := v.free[0];
              && s < |v.slots|
              && if r.child >= 0 then
                   && w.free == v.free[1..] && w.busy == [s] + v.busy
                   && w.slots == v.slots[s := Slot(s + 1 + c.offset, r.mac, r.child)]
                 else
                   && w.free == v.free[1..] + [s] && w.busy == v.busy
                   && w.slots == v.slots[s := Slot(s + 1 + c.offset, [0, 0, 0, 0, 0, 0], 0)]
  {
    CountIsNumberOfSlots(c, v, r.mac);
    if Admissible(c, v, r) {
      assert v.free[0] in v.free;
      OneList(v, v.free[0]);
      if r.child < 0 {
        FailedForkKeeps(c, v, r.mac);
        assert ([v.free[0]] + v.busy)[1..] == v.busy;
      }
    }
  }

  lemma {:induction false} DropIs(l: seq<nat>, s: nat)
    ensures forall x: nat :: x in Drop(l, s) ==> x in l
    ensures forall x: nat :: x != s && x in l ==> x in Drop(l, s)
    ensures |Drop(l, s)| == if s in l then |l| - 1 else |l|
  {
    if l != [] && l[0] != s {
      DropIs(l[1..], s);
    }
  }

  /** When the process of a busy slot ends the slot is free again, behind the others, and
      nobody's; the other busy slots stay what they are. */
  lemma {:induction false} ExitExactly(c: Config, v: State, s: nat)
    requires Ok(c, v)
    ensures var w := Step(c, v, ChildExit(s));
            if s !in v.busy then w == v
            else
              && s < |v.slots| && w.free == v.free + [s] && s !in w.busy && |w.busy| == |v.busy| - 1
              && (forall x :: x != s ==> (x in w.busy <==> x in v.busy))
              && w.slots == v.slots[s := Slot(s + 1 + c.offset, [0, 0, 0, 0, 0, 0], 0)]
  {
    OneList(v, s);
    DropIs(v.busy, s);
    if s in v.busy {
      StepKeeps(c, v, ChildExit(s));
      OneList(Step(c, v, ChildExit(s)), s);
      assert s in v.free + [s];
    }
  }

  /** In every run: a client that is granted a slot can end its session with a PADT under
      the number it was given, and no other client can. */
  lemma {:induction false} GrantedCanEnd(c: Config, v: State, acts: seq<Action>, r: Request, src: Mac)
    requires Ok(c, v) && r.child >= 0 && Admissible(c, Exec(c, v, acts), r)
    ensures var u := Exec(c, v, acts); var w := Exec(c, v, acts + [Padr(r)]);
            && u.free[0] < |w.slots|
            && PadtIndex(c, w, src, w.slots[u.free[0]].sess) == if src == r.mac then u.free[0] else -1
  {
    var u, on := Exec(c, v, acts), acts + [Padr(r)];
    assert on[..|acts|] == acts;
    RunKeeps(c, v, acts);
    GrantedExactly(c, u, r);
    RunKeeps(c, v, on);
    PadtReaches(c, Exec(c, v, on), src, u.free[0] + 1 + c.offset);
  }
}
