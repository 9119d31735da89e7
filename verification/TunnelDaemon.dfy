/** The retransmission and closing code as it runs on the shared event list and
    tunnel table; each method is proved against the function of
    `TunnelLifetime` that the theorems are about. */
module TunnelDaemon {
  import opened Octets
  import opened TunnelLifetime
  import Scheduler

  /** `Insert` puts the event at the first place whose event is later. */
  lemma {:induction false} InsertIsSplice(q: seq<Event>, e: Event, i: nat)
    requires i <= |q| && (forall j :: 0 <= j < i ==> q[j].due <= e.due)
    requires i == |q| || e.due < q[i].due
    ensures Insert(q, e) == q[..i] + [e] + q[i..]
  {
    if i > 0 {
      var rest := q[1..];
      InsertIsSplice(rest, e, i - 1);
      assert rest[i - 1..] == q[i..] && q[..i] == [q[0]] + rest[..i - 1];
      assert Insert(q, e) == [q[0]] + Insert(rest, e);
      hide Insert;
      assert [q[0]] + (rest[..i - 1] + [e] + q[i..]) == q[..i] + [e] + q[i..];
    }
  }

  lemma {:induction false} WithoutConcat(p: seq<Event>, q: seq<Event>, id: TunnelId)
    ensures Without(p + q, id) == Without(p, id) + Without(q, id)
  {
    if p == [] {
      assert p + q == q;
    } else {
      assert (p + q)[1..] == p[1..] + q;
      WithoutConcat(p[1..], q, id);
    }
  }

  class Daemon {
    var now: nat
    var maxRetries: nat
    var events: seq<Event>
    var tunnels: map<TunnelId, TunnelLifetime.Tunnel>
    var nextId: BufferId
    ghost var expired: seq<(Buffer, nat)>

    ghost function View(): World reads this {
      World(now, maxRetries, events, tunnels, nextId, expired)
    }

    method Schedule(delay: nat, b: Buffer)
      modifies this`events
      ensures View() == old(View()).(events := Insert(old(events), XmitEvent(now + delay, b)))
    {
      var e := XmitEvent(now + delay, b);
      var i := 0;
      while i < |events| && events[i].due <= e.due
        invariant i <= |events| && forall j :: 0 <= j < i ==> events[j].due <= e.due
      {
        i := i + 1;
      }
      InsertIsSplice(events, e, i);
      events := events[..i] + [e] + events[i..];
    }

    /** `add_control_hdr` and the first `control_xmit` of a fresh buffer. */
    method SendPacket(id: TunnelId, kind: Kind)
      requires id in tunnels && maxRetries >= 1
      modifies this`events, this`tunnels, this`nextId
      ensures View() == SendNew(old(View()), id, kind)
    {
      var t := tunnels[id];
      var newId := nextId;
      nextId := nextId + 1;
      tunnels := tunnels[id := t.(seqNum := (t.seqNum + 1) % 65536)];
      if t.seqNum < t.cLr {
        return;
      }
      Schedule(1, Buffer(newId, id, t.seqNum, kind, [now]));
    }

    /** Takes every event of the tunnel off the list while walking it. */
    method DescheduleTunnel(id: TunnelId)
      modifies this`events
      ensures View() == old(View()).(events := Without(old(events), id))
    {
      var i := 0;
      while i < |events|
        invariant i <= |events|
        invariant Without(events, id) == Without(old(events), id)
        invariant Without(events[..i], id) == events[..i]
        decreases |events| - i
      {
        var e := events[i];
        WithoutConcat(events[..i], events[i..], id);
        assert events == events[..i] + events[i..];
        if Owns(id, e) {
          ghost var tail := events[i + 1..];
          assert Without(events[i..], id) == Without(tail, id);
          WithoutConcat(events[..i], tail, id);
          events := events[..i] + events[i + 1..];
          assert events[..i] + tail == events;
        } else {
          WithoutConcat(events[..i], [e], id);
          assert events[..i + 1] == events[..i] + [e];
          i := i + 1;
        }
      }
      assert events[..i] == events;
    }

    /** `call_close` on the call that stands for the tunnel itself. */
    method CallClose(id: TunnelId)
      requires id in tunnels && maxRetries >= 1
      modifies this`events, this`tunnels, this`nextId
      ensures View() == CloseTunnel(old(View()), id)
    {
      DescheduleTunnel(id);
      if tunnels[id].closing {
        tunnels := tunnels - {id};
        return;
      }
      SendPacket(id, StopCCN);
      tunnels := tunnels[id := tunnels[id].(calls := [], closing := true)];
    }

    /** `control_xmit` when the timer of `b` has run. */
    method ControlXmit(b: Buffer)
      requires maxRetries >= 1 && b.sentAt != []
      modifies this
      ensures View() == Retransmit(old(View()), b)
    {
      if b.tunnel !in tunnels {
        return;
      }
      var t := tunnels[b.tunnel];
      var retries := |b.sentAt| + 1;
      if b.ns < t.cLr {
        return;
      }
      if retries > maxRetries {
        if t.needclose {
          tunnels := tunnels[b.tunnel := t.(needclose := false, closing := true)];
        } else {
          tunnels := tunnels[b.tunnel := t.(needclose := true)];
        }
        expired := expired + [(b, now)];
        CallClose(b.tunnel);
      } else {
        var shift := if retries - 1 > 31 then 31 else retries - 1;
        var delay := Pow2(shift);
        Schedule(delay, b.(sentAt := b.sentAt + [now]));
      }
    }
  }
  // ---------------------------------------------- the same queue, in whole seconds

  /** An event as the timer queue of `Scheduler` keeps it; `name` tells events apart. */
  function AsEntry(e: Event, name: Event -> nat): Scheduler.Entry {
    Scheduler.Entry(name(e), Scheduler.Timeval(e.due, 0))
  }

  function AsEntries(q: seq<Event>, name: Event -> nat): seq<Scheduler.Entry> {
    if q == [] then [] else [AsEntry(q[0], name)] + AsEntries(q[1..], name)
  }

  function Descheduled(l: seq<Scheduler.Entry>, ids: seq<nat>): seq<Scheduler.Entry>
    decreases |ids|
  {
    if ids == [] then l else Descheduled(Scheduler.Without(l, ids[0]), ids[1..])
  }

  function OwnedNames(q: seq<Event>, id: TunnelId, name: Event -> nat): seq<nat> {
    if q == [] then [] else (if Owns(id, q[0]) then [name(q[0])] else []) + OwnedNames(q[1..], id, name)
  }

  /** Inserting here is scheduling there. */
  lemma {:induction false} SameInsert(q: seq<Event>, e: Event, name: Event -> nat)
    ensures AsEntries(Insert(q, e), name) == Scheduler.Insert(AsEntries(q, name), AsEntry(e, name))
  {
    if q == [] || e.due < q[0].due {
      assert ([e] + q)[1..] == q;
    } else {
      var r := Insert(q[1..], e);
      assert ([q[0]] + r)[1..] == r;
      assert AsEntries(q, name)[1..] == AsEntries(q[1..], name);
      SameInsert(q[1..], e, name);
    }
  }

  lemma {:induction false} HeadStays(h: Scheduler.Entry, l: seq<Scheduler.Entry>, ids: seq<nat>)
    requires h.id !in ids
    ensures Descheduled([h] + l, ids) == [h] + Descheduled(l, ids)
    decreases |ids|
  {
    if ids != [] {
      assert ([h] + l)[0] == h && ([h] + l)[1..] == l;
      assert Scheduler.Without([h] + l, ids[0]) == [h] + Scheduler.Without(l, ids[0]);
      HeadStays(h, Scheduler.Without(l, ids[0]), ids[1..]);
    }
  }

  lemma {:induction false} OwnedAreNamed(q: seq<Event>, id: TunnelId, name: Event -> nat, x: Event)
    requires forall e :: e in q ==> name(e) != name(x)
    ensures name(x) !in OwnedNames(q, id, name)
  {
    if q != [] {
      OwnedAreNamed(q[1..], id, name, x);
    }
  }

  /** Taking a tunnel's events out is descheduling them one after the other. */
  lemma {:induction false} SameWithout(q: seq<Event>, id: TunnelId, name: Event -> nat)
    requires forall i, j :: 0 <= i < j < |q| ==> name(q[i]) != name(q[j])
    ensures AsEntries(Without(q, id), name) == Descheduled(AsEntries(q, name), OwnedNames(q, id, name))
  {
    if q != [] {
      var h, rest := q[0], q[1..];
      forall e | e in rest ensures name(e) != name(h) {
        var j :| 0 <= j < |rest| && rest[j] == e;
        assert q[j + 1] == e;
      }
      SameWithout(rest, id, name);
      OwnedAreNamed(rest, id, name, h);
      var l := AsEntries(q, name);
      assert l[0] == AsEntry(h, name) && l[1..] == AsEntries(rest, name);
      if Owns(id, h) {
        assert OwnedNames(q, id, name)[1..] == OwnedNames(rest, id, name);
        assert Without(q, id) == Without(rest, id);
      } else {
        assert OwnedNames(q, id, name) == OwnedNames(rest, id, name);
        HeadStays(AsEntry(h, name), AsEntries(rest, name), OwnedNames(rest, id, name));
        assert ([h] + Without(rest, id))[1..] == Without(rest, id);
      }
    }
  }
}
