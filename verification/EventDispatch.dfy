/** The selector in place: the handler list is unlinked, marked and settled by
    loops, and a dispatch is suspended while its callback runs. */
module EventDispatch {
  import opened EventSelector

  class Selector {
    var alive: bool
    var handlers: seq<Handler>
    var nestLevel: nat
    var opsPending: bool
    var destroyPending: bool
    /** The local variables of the running dispatches. */
    var frames: seq<Pass>
    var nextId: nat
    ghost var freed: set<nat>
    ghost var timers: set<nat>
    ghost var log: seq<Call>

    ghost function View(): State
      reads this
    {
      State(alive, handlers, frames, opsPending, destroyPending, nextId, freed, timers, log)
    }

    ghost predicate Valid()
      reads this
    {
      nestLevel == |frames| && Inv(View())
    }

    /** `Event_CreateSelector` */
    constructor ()
      ensures Valid() && View() == FRESH
    {
      alive, handlers, nestLevel, opsPending, destroyPending, frames := true, [], 0, false, false, [];
      nextId, freed, timers, log := 0, {}, {}, [];
      new;
      FreshIsFine();
    }

    /** `Event_AddHandler`, `Event_AddHandlerWithTimeout` and `Event_AddTimerHandler`,
        once their arguments have been checked. */
    method AddHandler(h: Handler)
      requires Valid() && UsersTurn(View()) && (h.timer ==> !h.readable && !h.writable)
      modifies this
      ensures Valid() && View() == Added(old(View()), h)
    {
      AddedKeeps(View(), h);
      if h.timer {
        timers := timers + {nextId};
      }
      handlers := [h.(id := nextId, deleted := false)] + handlers;
      nextId := nextId + 1;
    }

    /** `Event_DelHandler` */
    method DelHandler(id: nat) returns (r: int)
      requires Valid() && UsersTurn(View())
      modifies this
      ensures Valid() && View() == Deleted(old(View()), id)
      ensures r == 0 <==> Index(Ids(old(handlers)), id) != NIL
    {
      hide Inv, Added, Visited, Left;
      DeletedKeeps(View(), id);
      ghost var l := handlers;
      var cur := 0;
      while cur < |handlers|
        invariant cur <= |handlers| && handlers == l && View() == old(View())
        invariant forall k :: 0 <= k < cur ==> l[k].id != id
      {
        if handlers[cur].id == id {
          IndexAt(l, cur);
          if nestLevel != 0 {
            MarkOne(View(), cur);
            handlers := handlers[cur := handlers[cur].(deleted := true)];
            opsPending := true;
          } else {
            WithoutAt(l, cur);
            handlers := handlers[..cur] + handlers[cur + 1..];
            freed := freed + {id};
          }
          return 0;
        }
        cur := cur + 1;
      }
      NotThere(l, id);
      r := 1;
    }

    /** `DestroySelector` */
    method FreeAll()
      modifies this
      ensures View() == Gone(old(View())) && nestLevel == old(nestLevel)
    {
      freed := freed + IdSet(handlers);
      handlers := [];
      alive := false;
    }

    /** `Event_DestroySelector` */
    method DestroySelector()
      requires Valid() && UsersTurn(View())
      modifies this
      ensures Valid() && View() == Destroyed(old(View()))
    {
      DestroyedKeeps(View());
      if nestLevel != 0 {
        destroyPending := true;
        opsPending := true;
        return;
      }
      FreeAll();
    }

    /** The deletions of `DoPendingChanges`. */
    method DropMarked()
      modifies this`handlers
      ensures handlers == Kept(old(handlers))
    {
      hide Kept;
      ghost var l := handlers;
      var cur := 0;
      assert l[0..] == l;
      while cur < |handlers|
        invariant cur <= |handlers| && handlers[..cur] + Kept(handlers[cur..]) == Kept(l)
        decreases |handlers| - cur
      {
        KeptFrom(handlers, cur);
        if !handlers[cur].deleted {
          assert handlers[..cur + 1] == handlers[..cur] + [handlers[cur]];
          cur := cur + 1;
        } else {
          ghost var was := handlers;
          handlers := handlers[..cur] + handlers[cur + 1..];
          assert handlers[..cur] == was[..cur] && handlers[cur..] == was[cur + 1..];
        }
      }
      assert handlers[..cur] == handlers && handlers[cur..] == [];
      KeptNothing();
    }

    /** `DoPendingChanges` */
    method DoPendingChanges()
      modifies this
      ensures View() == Settled(old(View())) && nestLevel == old(nestLevel)
    {
      opsPending := false;
      if destroyPending {
        destroyPending := false;
        FreeAll();
        return;
      }
      ghost var l := handlers;
      DropMarked();
      freed := freed + (IdSet(l) - IdSet(handlers));
    }

    /** `Event_HandleEvent` up to its loop; `ok` if select succeeded. */
    method Enter(readable: set<int>, writable: set<int>, now: nat, ok: bool)
      requires Valid() && UsersTurn(View())
      modifies this
      ensures Valid() && View() == Entered(old(View()), readable, writable, now, ok)
    {
      EnteredKeeps(View(), readable, writable, now, ok);
      var cursor := if ok && handlers != [] then handlers[0].id else NIL;
      frames := frames + [Pass(readable, writable, now, cursor, false, nextId, Ids(handlers))];
      nestLevel := nestLevel + 1;
    }

    method MoveOn()
      requires Valid() && frames != [] && Top(View()).cursor != NIL
      modifies this`frames
      ensures Valid() && View() == Advanced(old(View()))
    {
      AdvancedKeeps(View());
      var p := frames[|frames| - 1];
      frames := frames[..|frames| - 1] + [p.(calling := false, cursor := Next(Ids(handlers), p.cursor))];
    }

    /** One turn of the loop: returns the handler whose callback is to run, or -1. */
    method Turn() returns (call: int)
      requires Valid() && frames != [] && !Top(View()).calling && Top(View()).cursor != NIL
      modifies this
      ensures Valid() && View() == Visited(old(View()))
      ensures call != NIL ==> 0 <= call && log == old(log) + [Call(call, Top(old(View())).limit)]
      ensures call == NIL ==> log == old(log)
    {
      VisitedKeeps(View());
      CursorStands(View());
      hide Inv, Mark, Index;
      var p := frames[|frames| - 1];
      var i := Index(Ids(handlers), p.cursor);
      var eh := handlers[i];
      if eh.deleted {
        MoveOn();
        return NIL;
      }
      var readable := eh.readable && eh.fd in p.readable;
      var writable := eh.writable && eh.fd in p.writable;
      var pastDue := (eh.timer || eh.timeout) && eh.due <= p.now;
      if !readable && !writable && !pastDue {
        MoveOn();
        return NIL;
      }
      Fire(i, pastDue);
      call := eh.id;
    }

    /** A triggered handler is about to be called; a pure timer is marked first. */
    method Fire(i: nat, pastDue: bool)
      requires frames != [] && i < |handlers| && Inv(View())
      modifies this
      ensures nestLevel == old(nestLevel)
      ensures var s := old(View());
              var h, p := s.list[i], Top(s);
              var s1 := if h.timer && pastDue then s.(list := Mark(s.list, h.id), opsPending := true) else s;
              View() == WithTop(s1.(log := s.log + [Call(h.id, p.limit)]), p.(calling := true))
    {
      MarkOne(View(), i);
      hide Inv, Mark;
      var eh, p := handlers[i], frames[|frames| - 1];
      if pastDue && eh.timer {
        opsPending := true;
        handlers := handlers[i := eh.(deleted := true)];
      }
      log := log + [Call(eh.id, p.limit)];
      frames := frames[..|frames| - 1] + [p.(calling := true)];
    }

    /** The end of `Event_HandleEvent`. */
    method Leave()
      requires Valid() && frames != [] && !Top(View()).calling && Top(View()).cursor == NIL
      modifies this
      ensures Valid() && View() == Left(old(View()))
    {
      LeftKeeps(View());
      frames := frames[..|frames| - 1];
      nestLevel := nestLevel - 1;
      if nestLevel == 0 && opsPending {
        DoPendingChanges();
      }
    }
  }

  lemma KeptFrom(l: seq<Handler>, i: nat)
    requires i < |l|
    ensures Kept(l[i..]) == (if l[i].deleted then [] else [l[i]]) + Kept(l[i + 1..])
  {
    assert l[i..][1..] == l[i + 1..];
  }

  lemma KeptNothing()
    ensures Kept([]) == []
  {
  }

  lemma CursorStands(s: State)
    requires Inv(s) && s.passes != [] && Top(s).cursor != NIL
    ensures Index(Ids(s.list), Top(s).cursor) != NIL
  {
    assert PassOk(Ids(s.list), s.nextId, Top(s));
    IndexFinds(Ids(s.list), Top(s).cursor);
  }

  /** With distinct identifiers, marking is one assignment. */
  lemma MarkOne(s: State, i: nat)
    requires Inv(s) && i < |s.list|
    ensures Mark(s.list, s.list[i].id) == s.list[i := s.list[i].(deleted := true)]
  {
    var l := s.list;
    forall j | 0 <= j < |l| && j != i ensures l[j].id != l[i].id {
      assert Ids(l)[j] == l[j].id && Ids(l)[i] == l[i].id;
    }
  }

  lemma IndexAt(l: seq<Handler>, i: nat)
    requires i < |l|
    ensures Index(Ids(l), l[i].id) != NIL
  {
    IdIn(l, l[i]);
    IndexFinds(Ids(l), l[i].id);
  }

  lemma NotThere(l: seq<Handler>, id: nat)
    requires forall k :: 0 <= k < |l| ==> l[k].id != id
    ensures Index(Ids(l), id) == NIL
  {
    assert forall k :: 0 <= k < |l| ==> Ids(l)[k] == l[k].id;
  }

  lemma {:induction false} WithoutAt(l: seq<Handler>, i: nat)
    requires i < |l| && forall k :: 0 <= k < i ==> l[k].id != l[i].id
    ensures Without(l, l[i].id) == l[..i] + l[i + 1..]
  {
    if i > 0 {
      WithoutAt(l[1..], i - 1);
      assert l[..i] + l[i + 1..] == [l[0]] + (l[1..][..i - 1] + l[1..][i..]);
    }
  }
}
