/** Every event of the timer queue runs: those that are due when the queue is processed,
    all of them, and none that was descheduled. */
module SchedulerRuns {
  import opened Scheduler

  ghost predicate Distinct(l: seq<Entry>) { forall i, j :: 0 <= i < j < |l| ==> l[i].id != l[j].id }

  /** Every event has its own number. */
  ghost predicate OneEach(s: State) { Distinct(s.list) && forall e :: e in s.list ==> e.id < s.nextId }

  lemma {:induction false} InsertOne(l: seq<Entry>, e: Entry)
    requires Distinct(l) && forall x :: x in l ==> x.id != e.id
    ensures Distinct(Insert(l, e))
  {
    var r := Insert(l, e);
    if l == [] || Less(e.tv, l[0].tv) {
      forall i, j | 0 <= i < j < |r| ensures r[i].id != r[j].id {
        assert r[j] == l[j - 1] && (i > 0 ==> r[i] == l[i - 1]);
      }
    } else {
      InsertOne(l[1..], e);
      InsertMembers(l[1..], e);
      var t := Insert(l[1..], e);
      assert r == [l[0]] + t;
      forall j | 0 <= j < |t| ensures t[j].id != l[0].id {
        assert t[j] in t;
        if t[j] != e {
          var k :| 0 <= k < |l| - 1 && l[1..][k] == t[j];
        }
      }
    }
  }

  /** Descheduling takes the event out and leaves the others in their order. */
  lemma {:induction false} WithoutExactly(l: seq<Entry>, id: nat)
    requires Distinct(l)
    ensures Distinct(Without(l, id)) && forall x :: x in Without(l, id) <==> x in l && x.id != id
  {
    if l != [] {
      var rest := l[1..];
      forall x | x in rest ensures x.id != l[0].id {
        var k :| 0 <= k < |rest| && rest[k] == x;
        assert l[k + 1] == x;
      }
      if l[0].id != id {
        WithoutExactly(rest, id);
        assert Without(l, id) == [l[0]] + Without(rest, id);
        forall j | 0 <= j < |Without(rest, id)| ensures Without(rest, id)[j].id != l[0].id {
          assert Without(rest, id)[j] in Without(rest, id);
        }
      }
      assert forall x :: x in l <==> x == l[0] || x in rest;
    }
  }

  lemma {:induction false} StepOneEach(s: State, a: Action)
    requires OneEach(s)
    ensures OneEach(Step(s, a)) && s.nextId <= Step(s, a).nextId
  {
    match a
    case Tick(_) =>
    case Schedule(diff) =>
      var e := Entry(s.nextId, Plus(s.clock, diff));
      InsertOne(s.list, e);
      InsertMembers(s.list, e);
      hide Insert, Plus;
    case Deschedule(id) =>
      WithoutExactly(s.list, id);
      hide Without;
    case Fire =>
  }

  lemma {:induction false} RunOneEach(s: State, acts: seq<Action>)
    requires OneEach(s)
    ensures OneEach(Exec(s, acts)) && s.nextId <= Exec(s, acts).nextId
  {
    hide OneEach, Step;
    if acts != [] {
      RunOneEach(s, acts[..|acts| - 1]);
      StepOneEach(Exec(s, acts[..|acts| - 1]), acts[|acts| - 1]);
    }
  }

  // ------------------------------------------------------------ all that are due

  /** `process_schedule` from `s` on: events are run until none is due. */
  function Processed(s: State): State
    decreases |s.list|
  {
    if Due(s) then Processed(Step(s, Fire)) else s
  }

  /** Processing the queue runs exactly the events whose time has come, the earlier ones
      first, and leaves the others in the queue as they are. */
  lemma {:induction false} AllDueRun(s: State)
    requires Ok(s)
    ensures Ok(Processed(s)) && Processed(s).clock == s.clock
    ensures Processed(s).log + Processed(s).list == s.log + s.list && |s.log| <= |Processed(s).log|
    ensures forall e :: e in Processed(s).list ==> Real(e.tv) > Real(s.clock)
    ensures forall k :: |s.log| <= k < |Processed(s).log| ==> Real(Processed(s).log[k].tv) <= Real(s.clock)
    decreases |s.list|
  {
    if Due(s) {
      FireKeeps(s);
      NeverEarlyNeverLate(s);
      hide Ok, Real, LessEq;
      var t := Step(s, Fire);
      AllDueRun(t);
      OneMoved(s.log, s.list, Processed(t).log, Processed(t).list);
    } else if s.list != [] {
      NoneIsDue(s);
    }
  }

  lemma {:induction false} OneMoved(a: seq<Entry>, l: seq<Entry>, b: seq<Entry>, m: seq<Entry>)
    requires l != [] && b + m == a + [l[0]] + l[1..] && |a| < |b|
    ensures b + m == a + l && b[|a|] == l[0]
  {
    assert a + l == a + [l[0]] + l[1..];
    assert b[|a|] == (b + m)[|a|];
  }

  lemma {:induction false} NoneIsDue(s: State)
    requires Ok(s) && s.list != [] && !Due(s)
    ensures forall e :: e in s.list ==> Real(e.tv) > Real(s.clock)
  {
    NeverEarlyNeverLate(s);
    forall e | e in s.list ensures Real(e.tv) > Real(s.clock) {
      var k :| 0 <= k < |s.list| && s.list[k] == e;
      assert s.list[0] in s.list && (k > 0 ==> Before(s.list[0], s.list[k]));
      OrderIsReal(s.list[0].tv, e.tv);
    }
  }

  /** What is scheduled waits for exactly the time asked for. */
  lemma {:induction false} ScheduledWaits(s: State, diff: Timeval) returns (e: Entry)
    requires Ok(s) && 0 <= diff.usec < 1000000 && diff.sec >= 0
    ensures var w := Step(s, Schedule(diff));
            && e.id == s.nextId && Real(e.tv) == Real(s.clock) + (diff.sec * 1000000 + diff.usec)
            && (forall x :: x in w.list <==> x in s.list || x == e) && w.clock == s.clock && w.log == s.log
  {
    e := Entry(s.nextId, Plus(s.clock, diff));
    PlusIsReal(s.clock, diff);
    InsertMembers(s.list, e);
    hide Insert, Plus;
  }

  /** A million microseconds are not carried into the seconds, one more is. */
  lemma {:induction false} CarryIsLate(now: Timeval, diff: Timeval)
    requires 0 <= now.usec < 1000000 && 0 <= diff.usec < 1000000
    ensures var u, t := now.usec + diff.usec, Plus(now, diff);
            t == if u <= 1000000 then Timeval(now.sec + diff.sec, u) else Timeval(now.sec + diff.sec + 1, u - 1000000)
  {
  }

  /** The alarm is set for the difference to the first event, with a borrow if need be. */
  lemma {:induction false} AlarmExactly(s: State)
    requires Ok(s) && s.list != [] && !Due(s)
    ensures var t, now := s.list[0].tv, s.clock;
            Wait(t, now) == if t.usec < now.usec then Timeval(t.sec - now.sec - 1, t.usec - now.usec + 1000000)
                            else Timeval(t.sec - now.sec, t.usec - now.usec)
  {
    assert s.list[0] in s.list;
  }

  lemma {:induction false} StaysOrRuns(s: State, a: Action, e: Entry)
    requires OneEach(s) && (e in s.list || e in s.log) && a != Deschedule(e.id)
    ensures e in Step(s, a).list || e in Step(s, a).log
  {
    match a
    case Tick(_) =>
    case Schedule(diff) =>
      InsertMembers(s.list, Entry(s.nextId, Plus(s.clock, diff)));
      hide Insert, Plus;
    case Deschedule(id) =>
      WithoutExactly(s.list, id);
      hide Without;
    case Fire =>
      if Due(s) {
        assert s.list == [s.list[0]] + s.list[1..];
      }
  }

  /** In every run: an event that is waiting, and is not descheduled, has run once the
      queue has been processed at or after its deadline. */
  lemma {:induction false} WaitingEventRuns(s: State, acts: seq<Action>, e: Entry)
    requires Ok(s) && OneEach(s) && e in s.list && Deschedule(e.id) !in acts
    requires Real(e.tv) <= Real(Exec(s, acts).clock)
    ensures e in Processed(Exec(s, acts)).log
  {
    var t := Exec(s, acts);
    RunKeeps(s, acts);
    StillThere(s, acts, e);
    AllDueRun(t);
    hide Ok, Exec;
    var w := Processed(t);
    assert e in t.log + t.list;
    assert e in w.log + w.list;
  }

  lemma {:induction false} StillThere(s: State, acts: seq<Action>, e: Entry)
    requires OneEach(s) && e in s.list && Deschedule(e.id) !in acts
    ensures e in Exec(s, acts).list || e in Exec(s, acts).log
  {
    hide OneEach, Step;
    if acts != [] {
      var before, a := acts[..|acts| - 1], acts[|acts| - 1];
      StillThere(s, before, e);
      RunOneEach(s, before);
      assert a in acts;
      StaysOrRuns(Exec(s, before), a, e);
    }
  }

  /** In every run: an event that was descheduled before it ran never runs. */
  lemma {:induction false} DescheduledNeverRuns(s: State, acts: seq<Action>, id: nat)
    requires OneEach(s) && id < s.nextId && (forall f :: f in s.log ==> f.id != id)
    ensures var w := Exec(Step(s, Deschedule(id)), acts);
            && OneEach(w) && id < w.nextId
            && (forall f :: f in w.log ==> f.id != id) && (forall f :: f in w.list ==> f.id != id)
  {
    var t := Step(s, Deschedule(id));
    WithoutExactly(s.list, id);
    StepOneEach(s, Deschedule(id));
    GoneForGood(t, acts, id);
  }

  lemma {:induction false} GoneForGood(s: State, acts: seq<Action>, id: nat)
    requires OneEach(s) && id < s.nextId
    requires (forall f :: f in s.log ==> f.id != id) && (forall f :: f in s.list ==> f.id != id)
    ensures var w := Exec(s, acts);
            && OneEach(w) && id < w.nextId
            && (forall f :: f in w.log ==> f.id != id) && (forall f :: f in w.list ==> f.id != id)
  {
    hide OneEach, Step;
    RunOneEach(s, acts);
    if acts != [] {
      var before, a := acts[..|acts| - 1], acts[|acts| - 1];
      GoneForGood(s, before, id);
      RunOneEach(s, before);
      StepStaysGone(Exec(s, before), a, id);
    }
  }

  lemma {:induction false} StepStaysGone(s: State, a: Action, id: nat)
    requires OneEach(s) && id < s.nextId
    requires (forall f :: f in s.log ==> f.id != id) && (forall f :: f in s.list ==> f.id != id)
    ensures var w := Step(s, a);
            (forall f :: f in w.log ==> f.id != id) && (forall f :: f in w.list ==> f.id != id)
  {
    match a
    case Tick(_) =>
    case Schedule(diff) =>
      InsertMembers(s.list, Entry(s.nextId, Plus(s.clock, diff)));
      hide Insert, Plus;
    case Deschedule(x) =>
      WithoutExactly(s.list, x);
      hide Without;
    case Fire =>
      if Due(s) {
        assert s.list == [s.list[0]] + s.list[1..];
      }
  }
}
