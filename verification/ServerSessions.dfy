/** The session slots of pppoe-server: a free list that is served from the front
    and refilled at the back, a busy list, and the numbers clients know the slots by. */
module ServerSessions {
  import opened LinkedLists
  import opened Octets

  const NO_MAC: Mac := [0, 0, 0, 0, 0, 0]

  datatype Slot = Slot(sess: u16, eth: Mac, pid: nat)

  datatype State = State(free: seq<nat>, busy: seq<nat>, slots: seq<Slot>)

  /** Limit per client (0 for none) and the offset of the session numbers. */
  datatype Config = Config(maxPerMac: nat, offset: nat)

  function Put(v: State, s: nat, eth: Mac, pid: nat): State {
    if s < |v.slots| then v.(slots := v.slots[s := v.slots[s].(eth := eth, pid := pid)]) else v
  }

  /** `pppoe_alloc_session` on the slot at the head of the free list. */
  function Allocated(v: State): State
    requires v.free != []
  {
    Put(State(v.free[1..], [v.free[0]] + v.busy, v.slots), v.free[0], NO_MAC, 0)
  }

  /** `pppoe_free_session`; a slot that is not busy is left alone. */
  function Released(v: State, s: nat): State {
    if s !in v.busy then v else Put(State(v.free + [s], Drop(v.busy, s), v.slots), s, NO_MAC, 0)
  }

  /** `count_sessions_from_mac` */
  function CountFromMac(v: State, busy: seq<nat>, mac: Mac): nat {
    if busy == [] then 0
    else (if busy[0] < |v.slots| && v.slots[busy[0]].eth == mac then 1 else 0) + CountFromMac(v, busy[1..], mac)
  }

  /** What a request leads to: refused, or a slot with a child process, or a slot
      given back because no process could be started. */
  datatype Request = Request(mac: Mac, acceptable: bool, child: int)

  predicate Admitted(c: Config, v: State, r: Request) {
    && Unicast(r.mac) && (c.maxPerMac == 0 || CountFromMac(v, v.busy, r.mac) < c.maxPerMac)
    && r.acceptable && v.free != []
  }

  /** The slot part of `processPADR`. */
  function Requested(c: Config, v: State, r: Request): State {
    if !Admitted(c, v, r) then v
    else
      var s, v1 := v.free[0], Allocated(v);
      if r.child < 0 then Released(Put(v1, s, r.mac, 0), s) else Put(v1, s, r.mac, r.child)
  }

  /** The slot a PADT stops, or -1; the subtraction is done on 64 bits. */
  function PadtIndex(c: Config, v: State, src: Mac, session: u16): int {
    var i := (session - 1 - c.offset) % 0x1_0000_0000_0000_0000;
    if i >= |v.slots| || v.slots[i].sess != session || v.slots[i].eth != src then -1 else i
  }

  /** A PADR arrives, or a child process ends. PADTs only tell a process to end. */
  datatype Action = Padr(request: Request) | ChildExit(slot: nat)

  function Step(c: Config, v: State, a: Action): State {
    match a
    case Padr(r) => Requested(c, v, r)
    case ChildExit(s) => Released(v, s)
  }

  function Exec(c: Config, v: State, acts: seq<Action>): State {
    if acts == [] then v else Step(c, Exec(c, v, acts[..|acts| - 1]), acts[|acts| - 1])
  }

  // ------------------------------------------------------------------ invariant

  /** Every slot is in exactly one of the two lists, once. */
  ghost predicate Partition(v: State) {
    multiset(v.free) + multiset(v.busy) == multiset(All(|v.slots|))
  }

  function All(n: nat): (l: seq<nat>)
    ensures |l| == n && forall i :: 0 <= i < n ==> l[i] == i
  {
    seq(n, i => i)
  }

  ghost predicate Numbered(c: Config, v: State) {
    |v.slots| + c.offset <= 65534 && forall i :: 0 <= i < |v.slots| ==> v.slots[i].sess == i + 1 + c.offset
  }

  /** Free slots belong to nobody. */
  ghost predicate FreeIsClear(v: State) {
    forall x :: x in v.free ==> x < |v.slots| && v.slots[x].eth == NO_MAC
  }

  ghost predicate Sound(c: Config, v: State) { Partition(v) && Numbered(c, v) && FreeIsClear(v) }

  ghost predicate WithinLimit(c: Config, v: State) {
    c.maxPerMac > 0 ==> forall mac: Mac :: CountFromMac(v, v.busy, mac) <= c.maxPerMac
  }

  ghost predicate Ok(c: Config, v: State) { Sound(c, v) && WithinLimit(c, v) }

  lemma CountOfAll(n: nat, x: nat)
    ensures multiset(All(n))[x] == if x < n then 1 else 0
  {
    if n > 0 {
      assert All(n) == All(n - 1) + [n - 1];
      CountOfAll(n - 1, x);
    }
  }

  /** A slot is in range, and in one list only. */
  lemma OneList(v: State, x: nat)
    requires Partition(v)
    ensures (x in v.free || x in v.busy) <==> x < |v.slots|
    ensures !(x in v.free && x in v.busy)
    ensures multiset(v.free)[x] <= 1 && multiset(v.busy)[x] <= 1
  {
    CountOfAll(|v.slots|, x);
    assert (multiset(v.free) + multiset(v.busy))[x] == multiset(v.free)[x] + multiset(v.busy)[x];
    assert x in v.free <==> x in multiset(v.free);
    assert x in v.busy <==> x in multiset(v.busy);
  }

  lemma ListsDisjoint(c: Config, v: State)
    requires Sound(c, v)
    ensures forall x :: x in v.busy ==> x < |v.slots| && x !in v.free
    ensures forall x :: x in v.free ==> x < |v.slots| && x !in v.busy
  {
    forall x: nat ensures (x in v.busy ==> x < |v.slots| && x !in v.free) && (x in v.free ==> x < |v.slots|) {
      OneList(v, x);
    }
  }

  lemma {:induction false} DropRemoves(l: seq<nat>, x: nat)
    requires x in l
    ensures multiset(Drop(l, x)) + multiset{x} == multiset(l)
  {
    assert l == [l[0]] + l[1..];
    if l[0] != x {
      DropRemoves(l[1..], x);
    }
  }

  /** Counting looks at the busy slots' owners only. */
  lemma {:induction false} CountFrame(v: State, w: State, busy: seq<nat>, mac: Mac)
    requires |w.slots| == |v.slots|
    requires forall x :: x in busy && x < |v.slots| ==> w.slots[x].eth == v.slots[x].eth
    ensures CountFromMac(w, busy, mac) == CountFromMac(v, busy, mac)
  {
    if busy != [] {
      CountFrame(v, w, busy[1..], mac);
    }
  }

  lemma {:induction false} CountDrop(v: State, busy: seq<nat>, x: nat, mac: Mac)
    ensures CountFromMac(v, Drop(busy, x), mac) <= CountFromMac(v, busy, mac)
  {
    if busy != [] && busy[0] != x {
      CountDrop(v, busy[1..], x, mac);
      assert ([busy[0]] + Drop(busy[1..], x))[1..] == Drop(busy[1..], x);
    }
  }

  // ----------------------------------------------------------- what steps keep

  lemma HeadAndTail(l: seq<nat>)
    requires l != []
    ensures multiset(l) == multiset{l[0]} + multiset(l[1..])
    ensures forall x :: x in l[1..] ==> x in l
  {
    assert l == [l[0]] + l[1..];
  }

  /** A slot that moves from the free to the busy list and gets an owner. */
  lemma GrantKeeps(c: Config, v: State, mac: Mac, pid: nat)
    requires Sound(c, v) && v.free != []
    ensures var w := Put(Allocated(v), v.free[0], mac, pid);
            && Sound(c, w) && v.free[0] !in v.busy
            && (WithinLimit(c, v) && (c.maxPerMac > 0 ==> CountFromMac(v, v.busy, mac) < c.maxPerMac) ==> WithinLimit(c, w))
  {
    var s, w := v.free[0], Put(Allocated(v), v.free[0], mac, pid);
    HeadAndTail(v.free);
    OneList(v, s);
    assert multiset(w.busy) == multiset{s} + multiset(v.busy);
    forall x | x in w.free ensures x < |w.slots| && w.slots[x].eth == NO_MAC {
      assert x in multiset(v.free[1..]);
      assert multiset(v.free)[x] == multiset{s}[x] + multiset(v.free[1..])[x];
      OneList(v, x);
    }
    forall m: Mac ensures CountFromMac(w, w.busy, m) == CountFromMac(v, v.busy, m) + if m == mac then 1 else 0 {
      CountFrame(v, w, v.busy, m);
      assert w.busy[1..] == v.busy;
    }
  }

  lemma ReleaseKeeps(c: Config, v: State, s: nat)
    requires Sound(c, v)
    ensures Sound(c, Released(v, s)) && (WithinLimit(c, v) ==> WithinLimit(c, Released(v, s)))
  {
    if s in v.busy {
      var w := Released(v, s);
      DropRemoves(v.busy, s);
      OneList(v, s);
      assert multiset(w.free) == multiset(v.free) + multiset{s};
      forall m: Mac ensures CountFromMac(w, w.busy, m) <= CountFromMac(v, v.busy, m) {
        CountDrop(v, v.busy, s, m);
        forall x | x in w.busy ensures x != s {
          assert x in multiset(w.busy) && multiset(v.busy)[x] == multiset(w.busy)[x] + multiset{s}[x];
          OneList(v, x);
        }
        CountFrame(v, w, w.busy, m);
      }
    }
  }

  /** A slot taken and given back at once ends up behind the others. */
  lemma FailedForkKeeps(c: Config, v: State, mac: Mac)
    requires Ok(c, v) && v.free != [] && (c.maxPerMac > 0 ==> CountFromMac(v, v.busy, mac) < c.maxPerMac)
    ensures var s := v.free[0];
            var w := Released(Put(Allocated(v), s, mac, 0), s);
            Ok(c, w) && w.free == v.free[1..] + [s] && w.busy == v.busy
  {
    GrantKeeps(c, v, mac, 0);
    ReleaseKeeps(c, Put(Allocated(v), v.free[0], mac, 0), v.free[0]);
    assert ([v.free[0]] + v.busy)[1..] == v.busy;
  }

  lemma StepKeeps(c: Config, v: State, a: Action)
    requires Ok(c, v)
    ensures Ok(c, Step(c, v, a)) && |Step(c, v, a).slots| == |v.slots|
  {
    match a
    case Padr(r) =>
      if Admitted(c, v, r) {
        if r.child < 0 {
          FailedForkKeeps(c, v, r.mac);
        } else {
          GrantKeeps(c, v, r.mac, r.child);
        }
      }
    case ChildExit(s) => ReleaseKeeps(c, v, s);
  }

  /** In every run the two lists partition the slots, free slots have no owner, the
      numbers stay what they were, and no client has more sessions than allowed. */
  lemma {:induction false} RunKeeps(c: Config, v: State, acts: seq<Action>)
    requires Ok(c, v)
    ensures Ok(c, Exec(c, v, acts)) && |Exec(c, v, acts).slots| == |v.slots|
  {
    if acts != [] {
      RunKeeps(c, v, acts[..|acts| - 1]);
      StepKeeps(c, Exec(c, v, acts[..|acts| - 1]), acts[|acts| - 1]);
    }
  }

  /** The last write to a slot counts. */
  lemma PutTwice(v: State, s: nat, eth: Mac, pid: nat, pid': nat)
    ensures Put(Put(v, s, eth, pid), s, eth, pid') == Put(v, s, eth, pid')
  {
  }

  // ----------------------------------------------------------- first in, first out

  /** The slots a step takes from the front of the free list, and puts at its end. */
  function Taken(c: Config, v: State, a: Action): seq<nat> {
    if a.Padr? && Admitted(c, v, a.request) then [v.free[0]] else []
  }

  function Given(c: Config, v: State, a: Action): seq<nat> {
    match a
    case Padr(r) => if Admitted(c, v, r) && r.child < 0 then [v.free[0]] else []
    case ChildExit(s) => if s in v.busy then [s] else []
  }

  function AllTaken(c: Config, v: State, acts: seq<Action>): seq<nat> {
    if acts == [] then []
    else AllTaken(c, v, acts[..|acts| - 1]) + Taken(c, Exec(c, v, acts[..|acts| - 1]), acts[|acts| - 1])
  }

  function AllGiven(c: Config, v: State, acts: seq<Action>): seq<nat> {
    if acts == [] then []
    else AllGiven(c, v, acts[..|acts| - 1]) + Given(c, Exec(c, v, acts[..|acts| - 1]), acts[|acts| - 1])
  }

  lemma StepConserves(c: Config, v: State, a: Action)
    requires Ok(c, v)
    ensures v.free + Given(c, v, a) == Taken(c, v, a) + Step(c, v, a).free
  {
    if a.Padr? && Admitted(c, v, a.request) {
      assert v.free == [v.free[0]] + v.free[1..];
      if a.request.child < 0 {
        FailedForkKeeps(c, v, a.request.mac);
      }
    }
  }

  /** Over a whole run slots are taken in exactly the order in which they stood in
      the free list at first and were freed afterwards. */
  lemma {:induction false} SlotsComeInTurn(c: Config, v: State, acts: seq<Action>)
    requires Ok(c, v)
    ensures v.free + AllGiven(c, v, acts) == AllTaken(c, v, acts) + Exec(c, v, acts).free
  {
    if acts != [] {
      var before, last := acts[..|acts| - 1], acts[|acts| - 1];
      var u := Exec(c, v, before);
      SlotsComeInTurn(c, v, before);
      RunKeeps(c, v, before);
      StepConserves(c, u, last);
      Requeue(v.free, AllGiven(c, v, before), Given(c, u, last), AllTaken(c, v, before), Taken(c, u, last),
              u.free, Step(c, u, last).free);
    }
  }

  lemma Requeue(f: seq<nat>, g: seq<nat>, dg: seq<nat>, t: seq<nat>, dt: seq<nat>, u: seq<nat>, w: seq<nat>)
    requires f + g == t + u && u + dg == dt + w
    ensures f + (g + dg) == (t + dt) + w
  {
    assert f + (g + dg) == (f + g) + dg == t + (u + dg) == (t + dt) + w;
  }

  // ----------------------------------------------------------------------- PADT

  /** The index arithmetic of `processPADT` inverts the numbering: a PADT reaches
      the slot with its number if the owner matches, and nothing for a number that
      no slot has, zero included. A client with an address reaches busy slots only. */
  lemma PadtReaches(c: Config, v: State, src: Mac, session: u16)
    requires Ok(c, v)
    ensures var i, n := PadtIndex(c, v, src, session), session - 1 - c.offset;
            && (i != -1 <==> 0 <= n < |v.slots| && v.slots[n].eth == src)
            && (i != -1 ==> i == n && v.slots[i].sess == session && (src != NO_MAC ==> i in v.busy))
  {
    var n := session - 1 - c.offset;
    Wrap(n);
    if 0 <= n < |v.slots| {
      OneList(v, n);
    }
  }

  lemma Wrap(n: int)
    requires -0x1_0000 <= n < 0x1_0000
    ensures n % 0x1_0000_0000_0000_0000 == if n >= 0 then n else n + 0x1_0000_0000_0000_0000
  {
  }
}
