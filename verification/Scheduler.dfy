/** The timer queue of xl2tpd: a list sorted by (seconds, microseconds), in which
    the microseconds may reach 1000000 because the carry is taken above it only. */
module Scheduler {

  const MILLION: int := 1000000

  datatype Timeval = Timeval(sec: int, usec: int)
  datatype Entry = Entry(id: nat, tv: Timeval)

  /** `TVLESS` and `TVLESSEQ`. */
  predicate Less(a: Timeval, b: Timeval) { if a.sec == b.sec then a.usec < b.usec else a.sec < b.sec }
  predicate LessEq(a: Timeval, b: Timeval) { if a.sec == b.sec then a.usec <= b.usec else a.sec <= b.sec }

  /** Microseconds since the epoch. */
  function Real(t: Timeval): int { t.sec * MILLION + t.usec }

  predicate ClockValue(t: Timeval) { 0 <= t.usec < MILLION }
  predicate QueueValue(t: Timeval) { 0 <= t.usec <= MILLION }

  /** `now + diff` as `schedule` computes it. */
  function Plus(now: Timeval, diff: Timeval): Timeval {
    var t := Timeval(now.sec + diff.sec, now.usec + diff.usec);
    if t.usec > MILLION then Timeval(t.sec + 1, t.usec - MILLION) else t
  }

  /** The comparison never contradicts real time, although one instant has two names. */
  lemma OrderIsReal(a: Timeval, b: Timeval)
    requires QueueValue(a) && QueueValue(b)
    ensures LessEq(a, b) ==> Real(a) <= Real(b)
    ensures Real(a) < Real(b) ==> Less(a, b)
  {
  }

  lemma PlusIsReal(now: Timeval, diff: Timeval)
    requires ClockValue(now) && ClockValue(diff)
    ensures QueueValue(Plus(now, diff)) && Real(Plus(now, diff)) == Real(now) + Real(diff)
  {
  }

  /** Behind every entry that is not later. */
  function Insert(l: seq<Entry>, e: Entry): seq<Entry> {
    if l == [] || Less(e.tv, l[0].tv) then [e] + l else [l[0]] + Insert(l[1..], e)
  }

  function Without(l: seq<Entry>, id: nat): seq<Entry> {
    if l == [] then [] else if l[0].id == id then l[1..] else [l[0]] + Without(l[1..], id)
  }

  /** The queue, the clock as last read, and what has been run. */
  datatype State = State(list: seq<Entry>, clock: Timeval, nextId: nat, log: seq<Entry>)

  /** Time passes; a callback or anyone else schedules or deschedules; the loop of
      `process_schedule` takes its next turn. */
  datatype Action = Tick(now: Timeval) | Schedule(diff: Timeval) | Deschedule(id: nat) | Fire

  predicate Due(s: State) { s.list != [] && LessEq(s.list[0].tv, s.clock) }

  function Step(s: State, a: Action): State {
    match a
    case Tick(now) => if ClockValue(now) && LessEq(s.clock, now) then s.(clock := now) else s
    case Schedule(diff) =>
      if ClockValue(diff) && diff.sec >= 0
      then s.(list := Insert(s.list, Entry(s.nextId, Plus(s.clock, diff))), nextId := s.nextId + 1) else s
    case Deschedule(id) => s.(list := Without(s.list, id))
    case Fire => if Due(s) then s.(list := s.list[1..], log := s.log + [s.list[0]]) else s
  }

  function Exec(s: State, acts: seq<Action>): State {
    if acts == [] then s else Step(Exec(s, acts[..|acts| - 1]), acts[|acts| - 1])
  }

  // ------------------------------------------------------------------ invariant

  /** `a` may stand in front of `b`: not later, and not younger if at the same timeval. */
  ghost predicate Before(a: Entry, b: Entry) { LessEq(a.tv, b.tv) && (a.tv == b.tv ==> a.id < b.id) }

  ghost predicate Sorted(l: seq<Entry>) { forall i, j :: 0 <= i < j < |l| ==> Before(l[i], l[j]) }

  ghost predicate EntriesOk(l: seq<Entry>, nextId: nat) {
    forall e :: e in l ==> QueueValue(e.tv) && e.id < nextId
  }

  /** An entry that has run against one that waits. */
  ghost predicate Ran(f: Entry, e: Entry) { Real(f.tv) <= Real(e.tv) && (f.tv == e.tv ==> f.id < e.id) }

  ghost predicate LogOk(s: State) {
    && (forall f :: f in s.log ==> Real(f.tv) <= Real(s.clock) && f.id < s.nextId)
    && (forall f, e :: f in s.log && e in s.list ==> Ran(f, e))
    && forall i, j :: 0 <= i < j < |s.log| ==> Ran(s.log[i], s.log[j])
  }

  ghost predicate Ok(s: State) {
    ClockValue(s.clock) && Sorted(s.list) && EntriesOk(s.list, s.nextId) && LogOk(s)
  }

  lemma {:induction false} InsertMembers(l: seq<Entry>, e: Entry)
    ensures forall x :: x in Insert(l, e) <==> x == e || x in l
  {
    if l != [] && !Less(e.tv, l[0].tv) {
      InsertMembers(l[1..], e);
    }
  }

  lemma {:induction false} InsertKeepsSorted(l: seq<Entry>, e: Entry)
    requires Sorted(l) && forall x :: x in l ==> x.id < e.id
    ensures Sorted(Insert(l, e))
  {
    if l == [] || Less(e.tv, l[0].tv) {
      forall i, j | 0 <= i < j < |l| + 1 ensures Before(([e] + l)[i], ([e] + l)[j]) {
        if i == 0 && j > 1 { assert Before(l[0], l[j - 1]); }
      }
    } else {
      InsertKeepsSorted(l[1..], e);
      InsertMembers(l[1..], e);
      var r := Insert(l[1..], e);
      forall j | 0 <= j < |r| ensures Before(l[0], r[j]) {
        assert r[j] in r && l[0] in l;
        if r[j] != e {
          var k :| 0 <= k < |l| - 1 && l[1..][k] == r[j];
          assert Before(l[0], l[k + 1]);
        }
      }
      assert Insert(l, e) == [l[0]] + r;
    }
  }

  lemma {:induction false} WithoutFacts(l: seq<Entry>, id: nat)
    requires Sorted(l)
    ensures Sorted(Without(l, id)) && forall x :: x in Without(l, id) ==> x in l
  {
    if l != [] && l[0].id != id {
      WithoutFacts(l[1..], id);
      var r := Without(l[1..], id);
      forall j | 0 <= j < |r| ensures Before(l[0], r[j]) {
        assert r[j] in r && r[j] in l[1..];
        var k :| 0 <= k < |l| - 1 && l[1..][k] == r[j];
        assert Before(l[0], l[k + 1]);
      }
    }
  }

  lemma ScheduleKeeps(s: State, diff: Timeval)
    requires Ok(s)
    ensures Ok(Step(s, Schedule(diff)))
  {
    if ClockValue(diff) && diff.sec >= 0 {
      var e := Entry(s.nextId, Plus(s.clock, diff));
      PlusIsReal(s.clock, diff);
      InsertMembers(s.list, e);
      InsertKeepsSorted(s.list, e);
      hide Insert, Sorted, Plus;
    }
  }

  lemma FireKeeps(s: State)
    requires Ok(s)
    ensures Ok(Step(s, Fire))
  {
    if Due(s) {
      var e, rest := s.list[0], s.list[1..];
      assert e in s.list;
      OrderIsReal(e.tv, s.clock);
      forall x | x in rest ensures x in s.list && Ran(e, x) {
        var k :| 0 <= k < |rest| && rest[k] == x;
        assert Before(e, s.list[k + 1]);
        OrderIsReal(e.tv, x.tv);
      }
    }
  }

  lemma StepKeeps(s: State, a: Action)
    requires Ok(s)
    ensures Ok(Step(s, a))
  {
    match a
    case Tick(now) => if ClockValue(now) && LessEq(s.clock, now) { OrderIsReal(s.clock, now); }
    case Schedule(diff) => ScheduleKeeps(s, diff);
    case Deschedule(id) => WithoutFacts(s.list, id);
    case Fire => FireKeeps(s);
  }

  lemma {:induction false} RunKeeps(s: State, acts: seq<Action>)
    requires Ok(s)
    ensures Ok(Exec(s, acts))
  {
    if acts != [] {
      hide Ok, Step;
      RunKeeps(s, acts[..|acts| - 1]);
      StepKeeps(Exec(s, acts[..|acts| - 1]), acts[|acts| - 1]);
    }
  }

  // ------------------------------------------------------------------- theorems

  /** In every run from an empty queue: events ran in the order of their deadlines,
      first in first out at equal timevals, none before its deadline; and the queue
      is in the order of real time. */
  lemma DeadlinesInOrder(clock: Timeval, acts: seq<Action>)
    requires ClockValue(clock)
    ensures var s := Exec(State([], clock, 0, []), acts);
            && (forall i, j :: 0 <= i < j < |s.log| ==>
                  Real(s.log[i].tv) <= Real(s.log[j].tv) && (s.log[i].tv == s.log[j].tv ==> s.log[i].id < s.log[j].id))
            && (forall f :: f in s.log ==> Real(f.tv) <= Real(s.clock))
            && forall i, j :: 0 <= i < j < |s.list| ==> Real(s.list[i].tv) <= Real(s.list[j].tv)
  {
    var s := Exec(State([], clock, 0, []), acts);
    RunKeeps(State([], clock, 0, []), acts);
    forall i, j | 0 <= i < j < |s.log| ensures Ran(s.log[i], s.log[j]) {}
    forall i, j | 0 <= i < j < |s.list| ensures Real(s.list[i].tv) <= Real(s.list[j].tv) {
      assert s.list[i] in s.list && s.list[j] in s.list && Before(s.list[i], s.list[j]);
      OrderIsReal(s.list[i].tv, s.list[j].tv);
    }
  }

  /** An event runs exactly when its deadline is not after the clock, whichever of
      its two names the deadline has. */
  lemma NeverEarlyNeverLate(s: State)
    requires Ok(s) && s.list != []
    ensures Due(s) <==> Real(s.list[0].tv) <= Real(s.clock)
  {
    assert s.list[0] in s.list;
    var t := s.list[0].tv;
    OrderIsReal(t, s.clock);
  }

  /** The wait until the first event. */
  function Wait(tv: Timeval, now: Timeval): Timeval {
    var wait := Timeval(tv.sec - now.sec, tv.usec - now.usec);
    var norm := if wait.usec < 0 then Timeval(wait.sec - 1, wait.usec + MILLION) else wait;
    if norm.sec <= 0 && norm.usec <= 0 then Timeval(1, 0) else norm
  }

  /** It is the exact difference and strictly positive: the one-second escape is never taken. */
  lemma WaitIsPositive(s: State)
    requires Ok(s) && s.list != [] && !Due(s)
    ensures var w := Wait(s.list[0].tv, s.clock);
            && Real(w) == Real(s.list[0].tv) - Real(s.clock) > 0
            && w.sec >= 0 && 0 <= w.usec <= MILLION && (w.sec > 0 || w.usec > 0)
  {
    assert s.list[0] in s.list;
  }

  // ------------------------------------------------------------------- in place

  lemma Regroup(l: seq<Entry>, p: nat, b: seq<Entry>)
    requires p < |l|
    ensures l[..p] + ([l[p]] + b) == l[..p + 1] + b
  {
    assert l[..p + 1] == l[..p] + [l[p]];
  }

  lemma InsertFrom(l: seq<Entry>, p: nat, e: Entry)
    requires p < |l|
    ensures Insert(l[p..], e) == if Less(e.tv, l[p].tv) then [e] + l[p..] else [l[p]] + Insert(l[p + 1..], e)
  {
    assert l[p..][1..] == l[p + 1..];
  }

  lemma WithoutFrom(l: seq<Entry>, p: nat, id: nat)
    requires p < |l|
    ensures Without(l[p..], id) == if l[p].id == id then l[p + 1..] else [l[p]] + Without(l[p + 1..], id)
  {
    assert l[p..][1..] == l[p + 1..];
  }

  lemma InsertLast(e: Entry)
    ensures Insert([], e) == [e] + []
  {
  }

  lemma WithoutLast(id: nat)
    ensures Without([], id) == []
  {
  }

  class Queue {
    var events: seq<Entry>
    var nextId: nat
    ghost var log: seq<Entry>

    ghost function View(now: Timeval): State
      reads this
    {
      State(events, now, nextId, log)
    }

    /** `init_scheduler` */
    constructor ()
      ensures forall now :: View(now) == State([], now, 0, [])
    {
      events, nextId, log := [], 0, [];
    }

    /** The search for the entry to link in front of. */
    method LinkIn(e: Entry)
      modifies this`events
      ensures events == Insert(old(events), e)
    {
      hide Insert, Less;
      var p, l := 0, events;
      assert l[0..] == l && l[..0] + Insert(l, e) == Insert(l, e);
      while p < |l|
        invariant p <= |l| && l[..p] + Insert(l[p..], e) == Insert(l, e)
      {
        InsertFrom(l, p, e);
        if Less(e.tv, l[p].tv) {
          break;
        }
        Regroup(l, p, Insert(l[p + 1..], e));
        p := p + 1;
      }
      if p == |l| {
        InsertLast(e);
        assert l[p..] == [];
      }
      assert Insert(l[p..], e) == [e] + l[p..];
      events := l[..p] + ([e] + l[p..]);
    }

    /** `schedule` */
    method Schedule(diff: Timeval, now: Timeval) returns (id: nat)
      requires ClockValue(now) && ClockValue(diff) && diff.sec >= 0
      modifies this`events, this`nextId
      ensures View(now) == Step(old(View(now)), Action.Schedule(diff)) && id == old(nextId)
    {
      hide Insert;
      var tv := Timeval(now.sec + diff.sec, now.usec + diff.usec);
      if tv.usec > MILLION {
        tv := Timeval(tv.sec + 1, tv.usec - MILLION);
      }
      id := nextId;
      LinkIn(Entry(id, tv));
      nextId := nextId + 1;
    }

    /** `deschedule` */
    method Deschedule(id: nat)
      modifies this`events
      ensures events == Without(old(events), id)
    {
      hide Without;
      var p, l := 0, events;
      assert l[0..] == l && l[..0] + Without(l, id) == Without(l, id);
      while p < |l|
        invariant p <= |l| && events == l && l[..p] + Without(l[p..], id) == Without(l, id)
      {
        WithoutFrom(l, p, id);
        if l[p].id == id {
          events := l[..p] + l[p + 1..];
          return;
        }
        Regroup(l, p, Without(l[p + 1..], id));
        p := p + 1;
      }
      WithoutLast(id);
      assert l[p..] == [] && l[..p] + [] == l;
    }

    /** One turn of the loop of `process_schedule`: the entry to run, if any. */
    method TakeDue(now: Timeval) returns (due: bool, e: Entry)
      modifies this
      ensures View(now) == Step(old(View(now)), Fire)
      ensures due == Due(old(View(now))) && (due ==> log == old(log) + [e])
    {
      due, e := false, Entry(0, now);
      if events != [] && LessEq(events[0].tv, now) {
        e := events[0];
        events := events[1..];
        log := log + [e];
        due := true;
      }
    }

    /** The end of `process_schedule`: whether to set an alarm, and for how long. */
    method NextAlarm(now: Timeval) returns (alarm: bool, wait: Timeval)
      requires Ok(View(now)) && !Due(View(now))
      ensures alarm <==> events != []
      ensures alarm ==> Real(wait) == Real(events[0].tv) - Real(now) > 0
    {
      alarm, wait := false, now;
      if events == [] {
        return;
      }
      WaitIsPositive(View(now));
      wait := Timeval(events[0].tv.sec - now.sec, events[0].tv.usec - now.usec);
      if wait.usec < 0 {
        wait := Timeval(wait.sec - 1, wait.usec + MILLION);
      }
      if wait.sec <= 0 && wait.usec <= 0 {
        wait := Timeval(1, 0);
      }
      alarm := true;
    }
  }
}
