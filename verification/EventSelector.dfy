/** The event selector: callbacks run from inside the dispatch loop may add and
    delete handlers, destroy the selector or dispatch again. One frame of `passes`
    is one running `Event_HandleEvent`; its depth is the nesting level. */
module EventSelector {

  const NIL: int := -1

  /** A handler; `timer` is a pure timer, `timeout` a deadline on a descriptor. */
  datatype Handler = Handler(id: nat, fd: int, readable: bool, writable: bool, timer: bool, timeout: bool,
                             due: nat, deleted: bool)

  /** What select and the clock said, the loop's cursor, whether its callback is
      running; `limit` and `start` remember the identifiers in use on entry. */
  datatype Pass = Pass(readable: set<int>, writable: set<int>, now: nat, cursor: int, calling: bool,
                       limit: nat, start: seq<nat>)

  /** A callback: which handler, and the limit of the pass that made it. */
  datatype Call = Call(id: nat, limit: nat)

  datatype State = State(alive: bool, list: seq<Handler>, passes: seq<Pass>, opsPending: bool, destroyPending: bool,
                         nextId: nat, freed: set<nat>, timers: set<nat>, log: seq<Call>)

  const FRESH: State := State(true, [], [], false, false, 0, {}, {}, [])

  function Ids(l: seq<Handler>): (ids: seq<nat>)
    ensures |ids| == |l|
  {
    seq(|l|, i requires 0 <= i < |l| => l[i].id)
  }

  function Index(ids: seq<nat>, id: int): (i: int)
    ensures i == NIL || (0 <= i < |ids| && ids[i] == id)
    ensures i == NIL ==> forall k :: 0 <= k < |ids| ==> ids[k] != id
  {
    if ids == [] then NIL
    else if ids[0] == id then 0
    else var i := Index(ids[1..], id); if i == NIL then NIL else i + 1
  }

  /** The handler behind `id` in the list. */
  function Next(ids: seq<nat>, id: int): int {
    var i := Index(ids, id);
    if i == NIL || i + 1 == |ids| then NIL else ids[i + 1]
  }

  function Mark(l: seq<Handler>, id: int): (m: seq<Handler>)
    ensures |m| == |l| && forall i :: 0 <= i < |l| ==> m[i] == if l[i].id == id then l[i].(deleted := true) else l[i]
  {
    seq(|l|, i requires 0 <= i < |l| => if l[i].id == id then l[i].(deleted := true) else l[i])
  }

  /** The handlers that are not marked, in order. */
  function Kept(l: seq<Handler>): seq<Handler> {
    if l == [] then [] else (if l[0].deleted then [] else [l[0]]) + Kept(l[1..])
  }

  function IdSet(l: seq<Handler>): set<nat> { set h <- l :: h.id }

  // --------------------------------------------------------------- operations

  /** `Event_AddHandler` and its two variants: in front of the list, at once. */
  function Added(s: State, h: Handler): State {
    s.(list := [h.(id := s.nextId, deleted := false)] + s.list, nextId := s.nextId + 1,
       timers := if h.timer then s.timers + {s.nextId} else s.timers)
  }

  function Without(l: seq<Handler>, id: int): seq<Handler> {
    if l == [] then [] else if l[0].id == id then l[1..] else [l[0]] + Without(l[1..], id)
  }

  /** `Event_DelHandler`: unlinked and freed, or only marked while a pass is running. */
  function Deleted(s: State, id: nat): State {
    if Index(Ids(s.list), id) == NIL then s
    else if s.passes != [] then s.(list := Mark(s.list, id), opsPending := true)
    else s.(list := Without(s.list, id), freed := s.freed + {id})
  }

  function Gone(s: State): State { s.(alive := false, freed := s.freed + IdSet(s.list), list := []) }

  /** `Event_DestroySelector` */
  function Destroyed(s: State): State {
    if s.passes != [] then s.(destroyPending := true, opsPending := true) else Gone(s)
  }

  /** `DoPendingChanges` */
  function Settled(s: State): State {
    if s.destroyPending then Gone(s.(opsPending := false, destroyPending := false))
    else s.(opsPending := false, list := Kept(s.list), freed := s.freed + (IdSet(s.list) - IdSet(Kept(s.list))))
  }

  /** `Event_HandleEvent` up to the loop; after a failed select the loop is skipped. */
  function Entered(s: State, readable: set<int>, writable: set<int>, now: nat, ok: bool): State {
    var cursor := if ok && s.list != [] then s.list[0].id else NIL;
    s.(passes := s.passes + [Pass(readable, writable, now, cursor, false, s.nextId, Ids(s.list))])
  }

  function Top(s: State): Pass
    requires s.passes != []
  {
    s.passes[|s.passes| - 1]
  }

  function WithTop(s: State, p: Pass): State
    requires s.passes != []
  {
    s.(passes := s.passes[..|s.passes| - 1] + [p])
  }

  function Advanced(s: State): State
    requires s.passes != []
  {
    WithTop(s, Top(s).(calling := false, cursor := Next(Ids(s.list), Top(s).cursor)))
  }

  predicate PastDue(p: Pass, h: Handler) { (h.timer || h.timeout) && h.due <= p.now }

  predicate Triggered(p: Pass, h: Handler) {
    (h.readable && h.fd in p.readable) || (h.writable && h.fd in p.writable) || PastDue(p, h)
  }

  /** One turn of the dispatch loop, up to the callback. */
  function Visited(s: State): State
    requires s.passes != []
  {
    var p := Top(s);
    var i := Index(Ids(s.list), p.cursor);
    if i == NIL then s else
    var h := s.list[i];
    if h.deleted || !Triggered(p, h) then Advanced(s)
    else
      var s1 := if h.timer && PastDue(p, h) then s.(list := Mark(s.list, h.id), opsPending := true) else s;
      WithTop(s1.(log := s.log + [Call(h.id, p.limit)]), p.(calling := true))
  }

  /** The end of `Event_HandleEvent`. */
  function Left(s: State): State
    requires s.passes != []
  {
    var s1 := s.(passes := s.passes[..|s.passes| - 1]);
    if s1.passes == [] && s1.opsPending then Settled(s1) else s1
  }

  // --------------------------------------------------------------------- runs

  datatype Action =
    | Add(handler: Handler)
    | Del(id: nat)
    | Destroy
    | Enter(readable: set<int>, writable: set<int>, now: nat, ok: bool)
    | Visit
    | Return
    | Leave

  /** The selector's users run outside every pass, or inside a callback. */
  predicate UsersTurn(s: State) { s.alive && (s.passes == [] || Top(s).calling) }

  function Step(s: State, a: Action): State {
    match a
    case Add(h) => if UsersTurn(s) && (h.timer ==> !h.readable && !h.writable) then Added(s, h) else s
    case Del(id) => if UsersTurn(s) then Deleted(s, id) else s
    case Destroy => if UsersTurn(s) then Destroyed(s) else s
    case Enter(r, w, now, ok) => if UsersTurn(s) then Entered(s, r, w, now, ok) else s
    case Visit => if s.passes != [] && !Top(s).calling && Top(s).cursor != NIL then Visited(s) else s
    case Return => if s.passes != [] && Top(s).calling then Advanced(s) else s
    case Leave => if s.passes != [] && !Top(s).calling && Top(s).cursor == NIL then Left(s) else s
  }

  function Exec(s: State, acts: seq<Action>): State {
    if acts == [] then s else Step(Exec(s, acts[..|acts| - 1]), acts[|acts| - 1])
  }

  // ---------------------------------------------------------------- invariant

  /** Newer handlers stand in front of older ones. */
  ghost predicate Descending(ids: seq<nat>) { forall i, j :: 0 <= i < j < |ids| ==> ids[i] > ids[j] }

  ghost predicate HandlerOk(h: Handler, timers: set<nat>) {
    (h.timer <==> h.id in timers) && (h.timer ==> !h.readable && !h.writable)
  }

  ghost predicate HandlersOk(s: State) { forall h :: h in s.list ==> HandlerOk(h, s.timers) }

  /** A pass stands on a live handler that was there when it began, and the list it
      began with is still the tail of the list. */
  ghost predicate PassOk(ids: seq<nat>, nextId: nat, p: Pass) {
    && p.limit <= nextId && (forall x :: x in p.start ==> x < p.limit)
    && (p.cursor != NIL ==> 0 <= p.cursor && p.cursor in ids && p.cursor < p.limit)
    && (p.calling ==> p.cursor != NIL)
    && |p.start| <= |ids| && ids[|ids| - |p.start|..] == p.start
  }

  ghost predicate PassesOk(s: State) {
    && (forall i :: 0 <= i < |s.passes| ==> PassOk(Ids(s.list), s.nextId, s.passes[i]))
    && forall i :: 0 <= i < |s.passes| - 1 ==> s.passes[i].calling
  }

  /** Every identifier ever given out is in the list or freed, not both. */
  ghost predicate Accounted(ids: seq<nat>, nextId: nat, freed: set<nat>) {
    forall id: nat :: (id in ids || id in freed <==> id < nextId) && !(id in ids && id in freed)
  }

  /** Marks are pending work, and only a running pass leaves any. */
  ghost predicate MarksOk(s: State) {
    && (s.passes == [] ==> !s.opsPending && !s.destroyPending)
    && (s.destroyPending ==> s.opsPending)
    && forall h :: h in s.list && h.deleted ==> s.opsPending
  }

  ghost predicate Listed(l: seq<Handler>, id: nat) { exists h :: h in l && h.id == id && !h.deleted }

  function Calls(log: seq<Call>, id: nat): nat {
    if log == [] then 0 else Calls(log[..|log| - 1], id) + if log[|log| - 1].id == id then 1 else 0
  }

  /** Callbacks go to handlers older than their pass, and to a pure timer once at most. */
  ghost predicate LogOk(s: State) {
    && (forall c :: c in s.log ==> c.id < c.limit <= s.nextId)
    && forall id :: id in s.timers ==> id < s.nextId && Calls(s.log, id) <= if Listed(s.list, id) then 0 else 1
  }

  ghost predicate Inv(s: State) {
    && Descending(Ids(s.list)) && HandlersOk(s) && PassesOk(s) && Accounted(Ids(s.list), s.nextId, s.freed)
    && MarksOk(s) && LogOk(s) && (!s.alive ==> s.passes == [] && s.list == [])
  }

  // -------------------------------------------------------------- small steps

  lemma MarkFacts(l: seq<Handler>, id: int, timers: set<nat>)
    requires forall h :: h in l ==> HandlerOk(h, timers)
    ensures Ids(Mark(l, id)) == Ids(l)
    ensures forall h :: h in Mark(l, id) ==> HandlerOk(h, timers)
    ensures forall x: nat :: Listed(Mark(l, id), x) <==> Listed(l, x) && x != id
  {
    var m := Mark(l, id);
    forall h | h in m ensures HandlerOk(h, timers) {
      var i :| 0 <= i < |m| && m[i] == h;
      assert l[i] in l;
    }
    forall x: nat ensures Listed(m, x) <==> Listed(l, x) && x != id {
      if Listed(l, x) && x != id {
        var g :| g in l && g.id == x && !g.deleted;
        var i :| 0 <= i < |l| && l[i] == g;
        assert m[i] == g;
      }
      if Listed(m, x) {
        var h :| h in m && h.id == x && !h.deleted;
        var i :| 0 <= i < |m| && m[i] == h;
        assert l[i] in l;
      }
    }
  }

  /** Marking a handler disturbs nothing that does not look at the mark. */
  lemma MarkKeeps(s: State, id: int)
    requires Inv(s) && s.passes != []
    ensures Inv(s.(list := Mark(s.list, id), opsPending := true))
  {
    MarkFacts(s.list, id, s.timers);
    hide PassOk, Accounted, Descending, HandlerOk, Listed, Calls;
  }

  lemma {:induction false} CallsOf(log: seq<Call>, id: nat)
    ensures Calls(log, id) > 0 <==> exists c :: c in log && c.id == id
  {
    if log != [] {
      var before, last := log[..|log| - 1], log[|log| - 1];
      assert log == before + [last];
      CallsOf(before, id);
    }
  }

  lemma CallsSnoc(log: seq<Call>, c: Call, id: nat)
    ensures Calls(log + [c], id) == Calls(log, id) + if c.id == id then 1 else 0
  {
    assert (log + [c])[..|log|] == log;
  }

  lemma PrependPassOk(ids: seq<nat>, n: nat, p: Pass)
    requires PassOk(ids, n, p)
    ensures PassOk([n] + ids, n + 1, p)
  {
    assert ([n] + ids)[|ids| + 1 - |p.start|..] == ids[|ids| - |p.start|..];
  }

  lemma PrependDescending(ids: seq<nat>, n: nat)
    requires Descending(ids) && forall x :: x in ids ==> x < n
    ensures Descending([n] + ids)
  {
    forall i, j | 0 <= i < j < |ids| + 1 ensures ([n] + ids)[i] > ([n] + ids)[j] {
      assert ids[j - 1] in ids;
    }
  }

  lemma AddedLog(s: State, h: Handler)
    requires LogOk(s)
    ensures LogOk(Added(s, h))
  {
    var w := Added(s, h);
    forall id | id in w.timers ensures id < w.nextId && Calls(w.log, id) <= if Listed(w.list, id) then 0 else 1 {
      CallsOf(s.log, id);
      if id in s.timers && Listed(w.list, id) {
        var g :| g in w.list && g.id == id && !g.deleted;
        assert g in s.list;
      }
    }
  }

  lemma AddedKeeps(s: State, h: Handler)
    requires Inv(s) && UsersTurn(s) && (h.timer ==> !h.readable && !h.writable)
    ensures Inv(Added(s, h))
  {
    var w := Added(s, h);
    AddedLog(s, h);
    assert Ids(w.list) == [s.nextId] + Ids(s.list);
    PrependDescending(Ids(s.list), s.nextId);
    hide LogOk, Listed;
    forall i | 0 <= i < |s.passes| ensures PassOk(Ids(w.list), w.nextId, w.passes[i]) {
      PrependPassOk(Ids(s.list), s.nextId, s.passes[i]);
    }
    forall g | g in w.list ensures HandlerOk(g, w.timers) {
      if g in s.list {
        assert HandlerOk(g, s.timers);
        IdIn(s.list, g);
      }
    }
  }

  lemma IdIn(l: seq<Handler>, h: Handler)
    requires h in l
    ensures h.id in Ids(l)
  {
    var i :| 0 <= i < |l| && l[i] == h;
    assert Ids(l)[i] == h.id;
  }

  // ------------------------------------------------------------------ removal

  lemma {:induction false} WithoutFacts(l: seq<Handler>, id: nat)
    requires Descending(Ids(l)) && id in Ids(l)
    ensures Descending(Ids(Without(l, id)))
    ensures forall x: nat :: x in Ids(Without(l, id)) <==> x in Ids(l) && x != id
    ensures forall h :: h in Without(l, id) ==> h in l
  {
    assert Ids(l) == [l[0].id] + Ids(l[1..]);
    TailDescending(Ids(l));
    if l[0].id != id {
      WithoutFacts(l[1..], id);
      assert Ids(Without(l, id)) == [l[0].id] + Ids(Without(l[1..], id));
      PrependDescending(Ids(Without(l[1..], id)), l[0].id);
    }
  }

  lemma TailDescending(ids: seq<nat>)
    requires Descending(ids) && ids != []
    ensures Descending(ids[1..]) && forall x :: x in ids[1..] ==> x < ids[0]
  {
  }

  lemma {:induction false} KeptFacts(l: seq<Handler>)
    requires Descending(Ids(l))
    ensures Descending(Ids(Kept(l)))
    ensures forall h :: h in Kept(l) <==> h in l && !h.deleted
    ensures forall x: nat :: x in Ids(Kept(l)) ==> x in Ids(l)
  {
    if l != [] {
      assert Ids(l) == [l[0].id] + Ids(l[1..]);
      TailDescending(Ids(l));
      KeptFacts(l[1..]);
      if !l[0].deleted {
        assert Ids(Kept(l)) == [l[0].id] + Ids(Kept(l[1..]));
        PrependDescending(Ids(Kept(l[1..])), l[0].id);
      } else {
        assert Kept(l) == Kept(l[1..]);
      }
    }
  }

  lemma IdSetIsIds(l: seq<Handler>)
    ensures forall x: nat :: x in IdSet(l) <==> x in Ids(l)
  {
    forall h | h in l ensures h.id in Ids(l) { IdIn(l, h); }
    forall x: nat | x in Ids(l) ensures x in IdSet(l) {
      var i :| 0 <= i < |l| && Ids(l)[i] == x;
      assert l[i] in l;
    }
  }

  /** Handlers that leave the list can only make the log's promise easier to keep. */
  lemma ShrinkLog(s: State, w: State)
    requires LogOk(s) && w.log == s.log && w.nextId == s.nextId && w.timers == s.timers
    requires forall h :: h in w.list ==> h in s.list
    ensures LogOk(w)
  {
  }

  lemma DeletedKeeps(s: State, id: nat)
    requires Inv(s) && UsersTurn(s)
    ensures Inv(Deleted(s, id))
  {
    if Index(Ids(s.list), id) != NIL {
      if s.passes != [] {
        MarkKeeps(s, id);
      } else {
        var w := Deleted(s, id);
        WithoutFacts(s.list, id);
        ShrinkLog(s, w);
        hide LogOk, Descending, Index;
      }
    }
  }

  lemma GoneKeeps(s: State)
    requires Inv(s) && s.passes == []
    ensures Inv(Gone(s))
  {
    var w := Gone(s);
    IdSetIsIds(s.list);
    ShrinkLog(s, w);
    hide LogOk;
  }

  lemma SettledKeeps(s: State)
    requires Descending(Ids(s.list)) && HandlersOk(s) && Accounted(Ids(s.list), s.nextId, s.freed) && LogOk(s)
    requires s.passes == [] && s.alive
    ensures Inv(Settled(s))
  {
    var w := Settled(s);
    IdSetIsIds(s.list);
    KeptFacts(s.list);
    IdSetIsIds(Kept(s.list));
    ShrinkLog(s, w);
    hide LogOk, Descending;
  }

  lemma DestroyedKeeps(s: State)
    requires Inv(s) && UsersTurn(s)
    ensures Inv(Destroyed(s))
  {
    if s.passes == [] {
      GoneKeeps(s);
    }
  }

  // ------------------------------------------------------------------ dispatch

  lemma {:induction false} IndexFinds(ids: seq<nat>, id: nat)
    requires id in ids
    ensures Index(ids, id) != NIL
  {
    if ids[0] != id {
      IndexFinds(ids[1..], id);
    }
  }

  lemma NextFacts(ids: seq<nat>, id: nat)
    requires Descending(ids)
    ensures Next(ids, id) == NIL || (0 <= Next(ids, id) < id && Next(ids, id) in ids)
  {
  }

  lemma IdsBelow(ids: seq<nat>, nextId: nat, freed: set<nat>)
    requires Accounted(ids, nextId, freed)
    ensures forall x :: x in ids ==> x < nextId
  {
  }

  lemma EnteredKeeps(s: State, r: set<int>, wr: set<int>, now: nat, ok: bool)
    requires Inv(s) && UsersTurn(s)
    ensures Inv(Entered(s, r, wr, now, ok))
  {
    hide LogOk, Descending, HandlerOk, Accounted, Ids;
    var w, ids := Entered(s, r, wr, now, ok), Ids(s.list);
    ShrinkLog(s, w);
    assert ids[|ids| - |ids|..] == ids;
    IdsBelow(ids, s.nextId, s.freed);
    if s.list != [] { IdIn(s.list, s.list[0]); }
    assert PassOk(ids, s.nextId, Top(w));
    forall i | 0 <= i < |w.passes| ensures PassOk(ids, w.nextId, w.passes[i]) {
      if i < |s.passes| { assert PassOk(ids, s.nextId, s.passes[i]); }
    }
  }

  lemma TopKeeps(s: State, p: Pass)
    requires Inv(s) && s.passes != [] && PassOk(Ids(s.list), s.nextId, p)
    ensures Inv(WithTop(s, p))
  {
    var w, n := WithTop(s, p), |s.passes|;
    forall i | 0 <= i < n ensures PassOk(Ids(w.list), w.nextId, w.passes[i]) && (i < n - 1 ==> w.passes[i].calling) {
      if i < n - 1 { assert w.passes[i] == s.passes[i]; }
    }
    hide LogOk, Descending, HandlersOk, Accounted, PassOk;
  }

  lemma AdvancedKeeps(s: State)
    requires Inv(s) && s.passes != [] && Top(s).cursor != NIL
    ensures Inv(Advanced(s))
  {
    var p := Top(s);
    assert PassOk(Ids(s.list), s.nextId, p);
    NextFacts(Ids(s.list), p.cursor);
    TopKeeps(s, p.(calling := false, cursor := Next(Ids(s.list), p.cursor)));
  }

  /** A callback is logged: to a live handler older than the pass, and if it is a
      pure timer the handler has just been marked. */
  lemma LoggedKeeps(s: State, c: Call)
    requires Inv(s) && c.id < c.limit <= s.nextId
    requires c.id in s.timers ==> Calls(s.log, c.id) == 0 && !Listed(s.list, c.id)
    ensures Inv(s.(log := s.log + [c]))
  {
    var w := s.(log := s.log + [c]);
    forall id | id in w.timers ensures id < w.nextId && Calls(w.log, id) <= if Listed(w.list, id) then 0 else 1 {
      CallsSnoc(s.log, c, id);
    }
    hide PassOk, Descending, HandlersOk, Accounted, Listed, Calls;
  }

  lemma VisitedKeeps(s: State)
    requires Inv(s) && s.passes != [] && Top(s).cursor != NIL
    ensures Inv(Visited(s))
  {
    var p, ids := Top(s), Ids(s.list);
    assert PassOk(ids, s.nextId, p);
    IndexFinds(ids, p.cursor);
    var h := s.list[Index(ids, p.cursor)];
    assert h in s.list && HandlerOk(h, s.timers) && h.id == p.cursor;
    if h.deleted || !Triggered(p, h) {
      AdvancedKeeps(s);
    } else {
      assert Listed(s.list, h.id);
      MarkKeeps(s, h.id);
      MarkFacts(s.list, h.id, s.timers);
      var s1 := if h.timer && PastDue(p, h) then s.(list := Mark(s.list, h.id), opsPending := true) else s;
      assert Ids(s1.list) == ids;
      TimerNotCalled(s, h);
      hide Inv, Listed, Calls;
      LoggedKeeps(s1, Call(h.id, p.limit));
      TopKeeps(s1.(log := s.log + [Call(h.id, p.limit)]), p.(calling := true));
    }
  }

  lemma TimerNotCalled(s: State, h: Handler)
    requires Inv(s) && h in s.list && !h.deleted
    ensures h.id in s.timers ==> Calls(s.log, h.id) == 0
  {
    assert Listed(s.list, h.id);
  }

  lemma LeftKeeps(s: State)
    requires Inv(s) && s.passes != []
    ensures Inv(Left(s))
  {
    var s1 := s.(passes := s.passes[..|s.passes| - 1]);
    if s1.passes == [] && s1.opsPending {
      SettledKeeps(s1);
    }
    hide PassOk, Descending, HandlersOk, Accounted, LogOk;
  }

  lemma StepKeeps(s: State, a: Action)
    requires Inv(s)
    ensures Inv(Step(s, a))
  {
    hide Inv;
    match a
    case Add(h) => if UsersTurn(s) && (h.timer ==> !h.readable && !h.writable) { AddedKeeps(s, h); }
    case Del(id) => if UsersTurn(s) { DeletedKeeps(s, id); }
    case Destroy => if UsersTurn(s) { DestroyedKeeps(s); }
    case Enter(r, w, now, ok) => if UsersTurn(s) { EnteredKeeps(s, r, w, now, ok); }
    case Visit => if s.passes != [] && !Top(s).calling && Top(s).cursor != NIL { VisitedKeeps(s); }
    case Return => if s.passes != [] && Top(s).calling { CallingStands(s); AdvancedKeeps(s); }
    case Leave => if s.passes != [] && !Top(s).calling && Top(s).cursor == NIL { LeftKeeps(s); }
  }

  lemma CallingStands(s: State)
    requires Inv(s) && s.passes != [] && Top(s).calling
    ensures Top(s).cursor != NIL
  {
    assert PassOk(Ids(s.list), s.nextId, Top(s));
  }

  /** Whatever callbacks do, in every run: passes stand on live handlers, a pass
      calls only handlers older than itself, a pure timer is called at most once,
      and marks are pending work of a running pass. */
  lemma {:induction false} RunKeeps(s: State, acts: seq<Action>)
    requires Inv(s)
    ensures Inv(Exec(s, acts))
  {
    if acts != [] {
      hide Inv;
      RunKeeps(s, acts[..|acts| - 1]);
      StepKeeps(Exec(s, acts[..|acts| - 1]), acts[|acts| - 1]);
    }
  }

  lemma FreshIsFine()
    ensures Inv(FRESH)
  {
  }

  // ----------------------------------------------------------------- theorems

  /** No handler is freed while a pass is running: memory is given back only by a
      step that ends outside every pass. */
  lemma NothingFreedWhileNested(s: State, a: Action)
    ensures Step(s, a).freed != s.freed ==> Step(s, a).passes == []
  {
  }

  /** In every run, whatever callbacks delete or destroy at whatever depth: neither the
      handler a running pass stands on nor any it began with has been given back. */
  lemma NoPassMeetsFreed(acts: seq<Action>, k: nat)
    requires k < |Exec(FRESH, acts).passes|
    ensures var s := Exec(FRESH, acts); var p := s.passes[k];
            && (p.cursor != NIL ==> p.cursor in Ids(s.list) && p.cursor !in s.freed)
            && forall x :: x in p.start ==> x in Ids(s.list) && x !in s.freed
  {
    FreshIsFine();
    RunKeeps(FRESH, acts);
    var s := Exec(FRESH, acts);
    var ids, p := Ids(s.list), s.passes[k];
    hide LogOk, HandlersOk, MarksOk, Descending;
    assert PassOk(ids, s.nextId, p);
    forall x | x in p.start ensures x in ids {
      var i :| 0 <= i < |p.start| && p.start[i] == x;
      assert ids[|ids| - |p.start|..][i] == x;
    }
  }

  /** Deleted, destroyed or fired as a timer: no longer to be called. */
  ghost predicate Silenced(s: State, id: nat) { id < s.nextId && !Listed(s.list, id) }

  lemma FewerListed(l: seq<Handler>, m: seq<Handler>, id: nat)
    requires forall h :: h in m ==> h in l
    ensures Listed(m, id) ==> Listed(l, id)
  {
  }

  lemma VisitStaysSilent(s: State, id: nat)
    requires Inv(s) && Silenced(s, id) && s.passes != []
    ensures Silenced(Visited(s), id) && Calls(Visited(s).log, id) == Calls(s.log, id)
  {
    var i := Index(Ids(s.list), Top(s).cursor);
    if i != NIL {
      var h := s.list[i];
      MarkFacts(s.list, h.id, s.timers);
      assert h in s.list && (!h.deleted ==> h.id != id);
      CallsSnoc(s.log, Call(h.id, Top(s).limit), id);
    }
  }

  lemma StepStaysSilent(s: State, a: Action, id: nat)
    requires Inv(s) && Silenced(s, id)
    ensures Silenced(Step(s, a), id) && Calls(Step(s, a).log, id) == Calls(s.log, id)
  {
    match a {
      case Add(_) =>
      case Del(x) =>
        MarkFacts(s.list, x, s.timers);
        if x in Ids(s.list) { WithoutFacts(s.list, x); FewerListed(s.list, Without(s.list, x), id); }
      case Destroy =>
      case Enter(_, _, _, _) =>
      case Visit => if s.passes != [] { VisitStaysSilent(s, id); }
      case Return =>
      case Leave => KeptFacts(s.list); FewerListed(s.list, Kept(s.list), id);
    }
    hide Inv, Listed, Calls, Visited;
  }

  /** A handler that was deleted, by whatever callback and at whatever depth, is
      never called again. */
  lemma {:induction false} SilencedForever(s: State, acts: seq<Action>, id: nat)
    requires Inv(s) && Silenced(s, id)
    ensures Silenced(Exec(s, acts), id) && Calls(Exec(s, acts).log, id) == Calls(s.log, id)
  {
    if acts != [] {
      hide Inv, Silenced, Calls;
      RunKeeps(s, acts[..|acts| - 1]);
      SilencedForever(s, acts[..|acts| - 1], id);
      StepStaysSilent(Exec(s, acts[..|acts| - 1]), acts[|acts| - 1], id);
    }
  }

  /** Deleting silences. */
  lemma DeletingSilences(s: State, id: nat)
    requires Inv(s) && UsersTurn(s) && id < s.nextId
    ensures Silenced(Step(s, Del(id)), id)
  {
    MarkFacts(s.list, id, s.timers);
    if id in Ids(s.list) {
      IndexFinds(Ids(s.list), id);
      WithoutFacts(s.list, id);
      forall h | h in Without(s.list, id) ensures h.id != id { IdIn(Without(s.list, id), h); }
    } else {
      forall h | h in s.list ensures h.id != id { IdIn(s.list, h); }
    }
  }

  /** A pure timer is called at most once in its life. */
  lemma TimersFireOnce(acts: seq<Action>, id: nat)
    requires id in Exec(FRESH, acts).timers
    ensures Calls(Exec(FRESH, acts).log, id) <= 1
  {
    FreshIsFine();
    RunKeeps(FRESH, acts);
  }

  /** A pass calls no handler that was added after the pass began. */
  lemma NewcomersWait(acts: seq<Action>, c: Call)
    requires c in Exec(FRESH, acts).log
    ensures c.id < c.limit
  {
    FreshIsFine();
    RunKeeps(FRESH, acts);
  }

  /** While a pass runs, handlers added meanwhile stand in front of those it began
      with, and none of these is missing. */
  lemma EntryListIsTail(s: State, k: nat)
    requires Inv(s) && k < |s.passes|
    ensures var ids, start := Ids(s.list), s.passes[k].start;
            |start| <= |ids| && ids == ids[..|ids| - |start|] + start
  {
    assert PassOk(Ids(s.list), s.nextId, s.passes[k]);
  }

  /** The outermost return leaves exactly the handlers that are not deleted, in order. */
  lemma OutermostReturn(s: State)
    requires Inv(s) && |s.passes| == 1 && !Top(s).calling && Top(s).cursor == NIL && !s.destroyPending
    ensures Step(s, Leave).list == Kept(s.list)
    ensures Step(s, Leave).passes == [] && forall h :: h in Step(s, Leave).list ==> !h.deleted
  {
    hide PassOk, Descending, HandlersOk, Accounted, LogOk;
    assert Descending(Ids(s.list));
    KeptFacts(s.list);
    if !s.opsPending {
      NothingMarked(s.list);
    }
  }

  lemma {:induction false} NothingMarked(l: seq<Handler>)
    requires forall h :: h in l ==> !h.deleted
    ensures Kept(l) == l
  {
    if l != [] {
      NothingMarked(l[1..]);
    }
  }
}
