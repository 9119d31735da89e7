/** Whose turn comes in a pass, and what a turn is: every handler that was listed when
    the pass began gets its turn, in the order of the list, whatever the callbacks do,
    and at its turn it is called if and only if it is not deleted and is triggered. */
module EventTurns {
  import opened EventSelector

  // ---------------------------------------------------------------- one turn

  /** Its descriptor is ready in a way it waits for, or its time has come. */
  predicate Ready(p: Pass, h: Handler) {
    || (h.readable && h.fd in p.readable)
    || (h.writable && h.fd in p.writable)
    || ((h.timer || h.timeout) && h.due <= p.now)
  }

  /** A turn calls the handler it has come to if and only if it is not deleted and is
      ready; a timer that is called is deleted first, and nothing else in the list changes. */
  lemma {:induction false} TurnExactly(s: State, i: nat)
    requires Inv(s) && s.passes != [] && !Top(s).calling && i < |s.list| && Top(s).cursor == s.list[i].id
    ensures var h, p, w := s.list[i], Top(s), Step(s, Visit);
            if !h.deleted && Ready(p, h) then
              && w.log == s.log + [Call(h.id, p.limit)] && Top(w) == p.(calling := true)
              && w.list == if h.timer then s.list[i := h.(deleted := true)] else s.list
            else w.log == s.log && w.list == s.list && !Top(w).calling
  {
    assert Ids(s.list)[i] == s.list[i].id;
    IndexIs(Ids(s.list), i);
    MarkAt(s.list, i);
    assert s.list[i] in s.list && HandlerOk(s.list[i], s.timers);
    hide Inv, Mark, Index, Ids, Next;
  }

  lemma {:induction false} IndexIs(ids: seq<nat>, i: nat)
    requires Descending(ids) && i < |ids|
    ensures Index(ids, ids[i]) == i
  {
    if i > 0 {
      TailDescending(ids);
      IndexIs(ids[1..], i - 1);
    }
  }

  lemma {:induction false} MarkAt(l: seq<Handler>, i: nat)
    requires Descending(Ids(l)) && i < |l|
    ensures Mark(l, l[i].id) == l[i := l[i].(deleted := true)]
  {
    forall j | 0 <= j < |l| && j != i ensures l[j].id != l[i].id {
      assert Ids(l)[j] == l[j].id && Ids(l)[i] == l[i].id;
    }
  }

  // ------------------------------------------------------------ a whole pass

  /** The handlers whose turn comes in the pass at depth `d`, in order. */
  function Turns(s: State, acts: seq<Action>, d: nat): seq<int> {
    if acts == [] then []
    else
      var t := Exec(s, acts[..|acts| - 1]);
      Turns(s, acts[..|acts| - 1], d)
      + if acts[|acts| - 1].Visit? && |t.passes| == d + 1 && !Top(t).calling && Top(t).cursor != NIL
        then [Top(t).cursor] else []
  }

  /** The pass at depth `d` is not over before the end of the run. */
  predicate Lasts(s: State, acts: seq<Action>, d: nat) {
    d < |Exec(s, acts).passes| && (acts == [] || Lasts(s, acts[..|acts| - 1], d))
  }

  /** How far the pass at depth `d` has come: `n` handlers of `p0.start` had their turn. */
  ghost predicate At(s: State, d: nat, p0: Pass, n: nat) {
    && d < |s.passes| && n <= |p0.start|
    && var p := s.passes[d];
       && p == p0.(cursor := p.cursor, calling := p.calling)
       && if p.calling then n > 0 && p.cursor == p0.start[n - 1]
          else |s.passes| == d + 1 && p.cursor == if n < |p0.start| then p0.start[n] else NIL
  }

  /** The handler behind one the pass began with is the next one it began with. */
  lemma {:induction false} NextOfStart(s: State, p: Pass, i: nat)
    requires Inv(s) && PassOk(Ids(s.list), s.nextId, p) && i < |p.start|
    ensures Next(Ids(s.list), p.start[i]) == if i + 1 < |p.start| then p.start[i + 1] else NIL
  {
    hide HandlersOk, Accounted, MarksOk, LogOk, PassesOk;
    var ids := Ids(s.list);
    var k := |ids| - |p.start|;
    assert ids[k..][i] == ids[k + i] && (i + 1 < |p.start| ==> ids[k..][i + 1] == ids[k + i + 1]);
    IndexIs(ids, k + i);
  }

  lemma {:induction false} VisitMoves(s: State, d: nat, p0: Pass, n: nat)
    requires Inv(s) && At(s, d, p0, n) && |s.passes| == d + 1 && !Top(s).calling && Top(s).cursor != NIL
    ensures n < |p0.start| && Top(s).cursor == p0.start[n] && At(Step(s, Visit), d, p0, n + 1)
  {
    var p := Top(s);
    assert PassOk(Ids(s.list), s.nextId, p);
    NextOfStart(s, p, n);
    hide Inv, Next, Index, Ids, Mark, PassOk, Triggered, PastDue;
    VisitedCursor(s);
  }

  /** A turn ends with the callback running, or at the next handler. */
  lemma {:induction false} VisitedCursor(s: State)
    requires Inv(s) && s.passes != [] && Top(s).cursor != NIL
    ensures var p, w := Top(s), Visited(s);
            && |w.passes| == |s.passes|
            && (w.passes == s.passes[..|s.passes| - 1] + [p.(calling := true)]
                || w.passes == s.passes[..|s.passes| - 1]
                               + [p.(calling := false, cursor := Next(Ids(s.list), p.cursor))])
  {
    assert PassOk(Ids(s.list), s.nextId, Top(s));
    IndexFinds(Ids(s.list), Top(s).cursor);
    hide Inv, Next, Index, Ids, Mark, PassOk;
  }

  lemma {:induction false} ReturnMoves(s: State, d: nat, p0: Pass, n: nat)
    requires Inv(s) && At(s, d, p0, n) && |s.passes| == d + 1 && Top(s).calling
    ensures At(Step(s, Return), d, p0, n)
  {
    var p := Top(s);
    assert PassOk(Ids(s.list), s.nextId, p);
    NextOfStart(s, p, n - 1);
    hide Inv, Next, Index, Ids, PassOk;
  }

  /** Every other step leaves the pass where it is. */
  lemma {:induction false} OthersStay(s: State, a: Action, d: nat, p0: Pass, n: nat)
    requires At(s, d, p0, n) && d < |Step(s, a).passes|
    requires |s.passes| == d + 1 ==> !a.Return? && !(a.Visit? && !Top(s).calling && Top(s).cursor != NIL)
    ensures At(Step(s, a), d, p0, n)
  {
    hide Index, Ids, Mark, Next, Kept, Without;
  }

  lemma {:induction false} StepAt(s: State, a: Action, d: nat, p0: Pass, n: nat)
    requires Inv(s) && At(s, d, p0, n) && d < |Step(s, a).passes|
    ensures var turn := a.Visit? && |s.passes| == d + 1 && !Top(s).calling && Top(s).cursor != NIL;
            && At(Step(s, a), d, p0, if turn then n + 1 else n)
            && (turn ==> n < |p0.start| && Top(s).cursor == p0.start[n])
  {
    hide Inv, At, Step;
    if a.Visit? && |s.passes| == d + 1 && !Top(s).calling && Top(s).cursor != NIL {
      VisitMoves(s, d, p0, n);
    } else if a.Return? && |s.passes| == d + 1 {
      if Top(s).calling {
        ReturnMoves(s, d, p0, n);
      } else {
        ReturnIdle(s);
      }
    } else {
      OthersStay(s, a, d, p0, n);
    }
  }

  lemma {:induction false} ReturnIdle(s: State)
    requires s.passes != [] && !Top(s).calling
    ensures Step(s, Return) == s
  {
  }

  /** As long as a pass lasts the handlers that had their turn are the first ones of
      those it began with, none twice and none left out. */
  lemma {:induction false} TurnsInOrder(s: State, acts: seq<Action>, d: nat, p0: Pass)
    requires Inv(s) && At(s, d, p0, 0) && Lasts(s, acts, d)
    ensures Inv(Exec(s, acts)) && |Turns(s, acts, d)| <= |p0.start|
    ensures Turns(s, acts, d) == p0.start[..|Turns(s, acts, d)|]
    ensures At(Exec(s, acts), d, p0, |Turns(s, acts, d)|)
  {
    hide Inv, At, Step;
    RunKeeps(s, acts);
    if acts != [] {
      var before, a := acts[..|acts| - 1], acts[|acts| - 1];
      TurnsInOrder(s, before, d, p0);
      var t, n := Exec(s, before), |Turns(s, before, d)|;
      StepAt(t, a, d, p0, n);
      assert n < |p0.start| ==> p0.start[..n + 1] == p0.start[..n] + [p0.start[n]];
    }
  }

  /** A pass that is ready to end has given every handler that was listed when it began
      its turn, once and in the order of the list, whatever callbacks added, deleted,
      destroyed or dispatched on the way. */
  lemma {:induction false} EveryHandlerGetsItsTurn(s: State, r: set<int>, w: set<int>, now: nat, acts: seq<Action>)
    requires Inv(s) && UsersTurn(s) && Lasts(Step(s, Enter(r, w, now, true)), acts, |s.passes|)
    requires var t := Exec(Step(s, Enter(r, w, now, true)), acts);
             |t.passes| == |s.passes| + 1 && !Top(t).calling && Top(t).cursor == NIL
    ensures Turns(Step(s, Enter(r, w, now, true)), acts, |s.passes|) == Ids(s.list)
  {
    hide Inv, Step, Exec, Lasts, Turns, Ids, At;
    var e, d, start := Step(s, Enter(r, w, now, true)), |s.passes|, Ids(s.list);
    EnteredAt(s, r, w, now);
    TurnsInOrder(e, acts, d, Top(e));
    OverMeansAll(Exec(e, acts), d, Top(e), |Turns(e, acts, d)|);
    assert start[..|start|] == start;
  }

  lemma {:induction false} EnteredAt(s: State, r: set<int>, w: set<int>, now: nat)
    requires Inv(s) && UsersTurn(s)
    ensures var e := Step(s, Enter(r, w, now, true));
            && |e.passes| == |s.passes| + 1 && Inv(e) && At(e, |s.passes|, Top(e), 0) && Top(e).start == Ids(s.list)
  {
    StepKeeps(s, Enter(r, w, now, true));
    assert s.list != [] ==> Ids(s.list)[0] == s.list[0].id;
    hide Inv;
  }

  lemma {:induction false} OverMeansAll(s: State, d: nat, p0: Pass, n: nat)
    requires At(s, d, p0, n) && |s.passes| == d + 1 && !Top(s).calling && Top(s).cursor == NIL
    ensures n == |p0.start|
  {
  }

  /** After a failed select nobody's turn comes. */
  lemma {:induction false} FailedSelectSkips(s: State, r: set<int>, w: set<int>, now: nat)
    requires UsersTurn(s)
    ensures var e := Step(s, Enter(r, w, now, false));
            && |e.passes| == |s.passes| + 1 && Top(e).cursor == NIL && !Top(e).calling
            && e.list == s.list && e.log == s.log && e.opsPending == s.opsPending
  {
  }

  /** A selector is destroyed at once outside every pass, and otherwise when the outermost
      pass returns: then every handler there ever was has been given back. */
  lemma {:induction false} DestroyIsHonoured(s: State)
    requires Inv(s) && UsersTurn(s)
    ensures var w := Step(s, Destroy);
            if s.passes == [] then w.list == [] && !w.alive && forall id: nat :: id < w.nextId ==> id in w.freed
            else w.alive && w.destroyPending && w.list == s.list && w.freed == s.freed
  {
    if s.passes == [] {
      IdSetIsIds(s.list);
    }
  }

  lemma {:induction false} PendingDestroyIsDone(s: State)
    requires Inv(s) && |s.passes| == 1 && !Top(s).calling && Top(s).cursor == NIL && s.destroyPending
    ensures var w := Step(s, Leave);
            w.list == [] && !w.alive && w.passes == [] && forall id: nat :: id < w.nextId ==> id in w.freed
  {
    IdSetIsIds(s.list);
  }
}
