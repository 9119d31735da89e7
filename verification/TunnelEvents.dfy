/** What each timer and each pass does to a tunnel's events, told by the events
    themselves, and what the periodic Hello is for: it notices a peer that has gone
    silent while nothing else is being sent. */
module TunnelEvents {
  import opened Octets
  import opened ControlTunnel
  import opened TunnelLifetime

  /** A transmission or a Hello of this tunnel. */
  predicate OfTunnel(e: Event, id: TunnelId) {
    (e.XmitEvent? && e.buf.tunnel == id) || (e.HelloEvent? && e.tunnel == id)
  }

  lemma OwnsIs(id: TunnelId, e: Event)
    ensures Owns(id, e) <==> OfTunnel(e, id)
  {
  }

  // ------------------------------------------------------------------ closing

  /** Closing takes every transmission and Hello of the tunnel out of the queue and
      leaves the events of others there; what may come in is one StopCCN. A tunnel that
      is closing already is gone. */
  lemma {:induction false} CloseClears(w: World, id: TunnelId, e: Event)
    requires id in w.tunnels
    ensures var w' := CloseTunnel(w, id);
            var stop := XmitEvent(w.now + 1, Buffer(w.nextId, id, w.tunnels[id].seqNum, StopCCN, [w.now]));
            && (e in w'.events <==>
                  || (e in w.events && !OfTunnel(e, id))
                  || (e == stop && !w.tunnels[id].closing && w.tunnels[id].cLr <= w.tunnels[id].seqNum))
            && (id in w'.tunnels <==> !w.tunnels[id].closing)
  {
    WithoutKeeps(w.events, id);
    OwnsIs(id, e);
    var t := w.tunnels[id];
    InsertKeeps(Without(w.events, id),
                XmitEvent(w.now + 1, Buffer(w.nextId, id, t.seqNum, StopCCN, [w.now])));
    hide Insert, Without, Owns, OfTunnel, Sorted, Inc;
  }

  /** The pass over the tunnels closes one that is asked to close and is not closing yet,
      destroys one that its peer has closed, and leaves every other alone. */
  lemma {:induction false} ClosePassExactly(w: World, id: TunnelId)
    requires id in w.tunnels
    ensures var w', t := Step(w, ClosePass(id)), w.tunnels[id];
            && (t.needclose && !t.closing ==>
                  w'.tunnels == w.tunnels[id := t.(seqNum := (t.seqNum + 1) % 65536, closing := true, calls := [])])
            && (!t.needclose && t.closing ==>
                  id !in w'.tunnels && forall e :: e in w'.events <==> e in w.events && !OfTunnel(e, id))
            && (t.needclose == t.closing ==> w' == w)
  {
    forall e: Event ensures e in CloseTunnel(w, id).events <==>
        || (e in w.events && !OfTunnel(e, id))
        || (e == XmitEvent(w.now + 1, Buffer(w.nextId, id, w.tunnels[id].seqNum, StopCCN, [w.now]))
            && !w.tunnels[id].closing && w.tunnels[id].cLr <= w.tunnels[id].seqNum)
    {
      CloseClears(w, id, e);
    }
    CloseClears(w, id, DialEvent(0, 0));
    hide Insert, Without, OfTunnel;
  }

  /** The last retry of a tunnel that is closing destroys it, whoever closed it. */
  lemma {:induction false} ExpiryWhileClosing(w: World, id: TunnelId)
    requires Expiring(w, id) && (w.tunnels[id].closing || w.tunnels[id].needclose)
    ensures id !in FireHead(w).tunnels
    ensures forall e :: e in FireHead(w).events ==> e in w.events && !OfTunnel(e, id)
  {
    WithoutKeeps(w.events[1..], id);
    forall e: Event ensures Owns(id, e) <==> OfTunnel(e, id) { OwnsIs(id, e); }
    hide Owns, OfTunnel, Sorted, Insert;
  }

  // ------------------------------------------------------------ retransmission

  /** A buffer whose time has come: one the peer has acknowledged is dropped; one with
      retries left is sent again and comes up after twice the time, at most 2^31 seconds. */
  lemma {:induction false} TimerExactly(w: World, b: Buffer)
    requires WellTimed(w) && w.events != [] && w.events[0] == XmitEvent(w.events[0].due, b)
    requires b.tunnel in w.tunnels
    ensures var w', n := FireHead(w), |b.sentAt|;
            && (b.ns < w.tunnels[b.tunnel].cLr ==> w' == w.(now := w.events[0].due, events := w.events[1..]))
            && (b.ns >= w.tunnels[b.tunnel].cLr && n < w.maxRetries ==>
                  && w'.now == w.events[0].due && w'.tunnels == w.tunnels
                  && forall e :: e in w'.events <==>
                       || e in w.events[1..]
                       || e == XmitEvent(w'.now + Pow2(if n < 31 then n else 31), b.(sentAt := b.sentAt + [w'.now])))
  {
    hide Insert, Without, CloseTunnel, Backoff;
    assert w.events[0] in w.events && EventOk(w.events[0], w.now, w.maxRetries);
    var n, b' := |b.sentAt|, b.(sentAt := b.sentAt + [w.events[0].due]);
    var e := XmitEvent(w.events[0].due + Pow2(if n < 31 then n else 31), b');
    assert Delay(|b'.sentAt| - 1) == Pow2(if n < 31 then n else 31);
    hide Pow2, Sorted, Delay;
    InsertKeeps(w.events[1..], e);
  }

  /** What becomes of a buffer that was sent `k` times: acknowledged, given up, or sent
      again, after the next of the doubling delays. */
  lemma {:induction false} XmitExactly(ns: u16, cLr: int, k: nat, maxRetries: nat)
    ensures Xmit(ns, cLr, k + 1, maxRetries) ==
              if ns < cLr then Toss else if k >= maxRetries then GiveUp else Transmit(Backoff(k + 1) - Backoff(k))
  {
  }

  /** A buffer of a tunnel that is gone is dropped. */
  lemma {:induction false} TimerOfNobody(w: World, b: Buffer)
    requires WellTimed(w) && w.events != [] && w.events[0] == XmitEvent(w.events[0].due, b)
    requires b.tunnel !in w.tunnels
    ensures FireHead(w) == w.(now := w.events[0].due, events := w.events[1..])
  {
    assert w.events[0] in w.events && EventOk(w.events[0], w.now, w.maxRetries);
    hide Insert, Without, Sorted;
  }

  /** A local message takes the next number and waits one second for its acknowledgement. */
  lemma {:induction false} LocalMessageWaits(w: World, id: TunnelId, e: Event)
    requires id in w.tunnels
    ensures var w', t := Step(w, SendLocal(id)), w.tunnels[id];
            && w'.tunnels == w.tunnels[id := t.(seqNum := (t.seqNum + 1) % 65536)]
            && (e in w'.events <==>
                  || e in w.events
                  || (e == XmitEvent(w.now + 1, Buffer(w.nextId, id, t.seqNum, Ordinary, [w.now]))
                      && t.cLr <= t.seqNum))
  {
    InsertKeeps(w.events, XmitEvent(w.now + 1, Buffer(w.nextId, id, w.tunnels[id].seqNum, Ordinary, [w.now])));
    hide Insert, Sorted;
  }

  // ------------------------------------------------------------------- Hello

  /** A Hello that comes due is sent like any message, and the next one is due a minute later. */
  lemma {:induction false} HelloExactly(w: World, id: TunnelId, e: Event)
    requires WellTimed(w) && w.events != [] && w.events[0] == HelloEvent(w.events[0].due, id) && id in w.tunnels
    ensures var w', t := FireHead(w), w.tunnels[id];
            && w'.now == w.events[0].due
            && w'.tunnels == w.tunnels[id := t.(seqNum := (t.seqNum + 1) % 65536)]
            && (e in w'.events <==>
                  || e in w.events[1..] || e == HelloEvent(w'.now + 60, id)
                  || (e == XmitEvent(w'.now + 1, Buffer(w.nextId, id, t.seqNum, Ordinary, [w'.now]))
                      && t.cLr <= t.seqNum))
  {
    PoppedKeeps(w);
    var w1, t := Popped(w), w.tunnels[id];
    var b := Buffer(w.nextId, id, t.seqNum, Ordinary, [w1.now]);
    InsertKeeps(w1.events, XmitEvent(w1.now + 1, b));
    InsertKeeps(SendNew(w1, id, Ordinary).events, HelloEvent(w1.now + 60, id));
    hide Insert, Sorted, WellTimed;
  }

  /** A Hello at `due` is still to come, or what it leads to is under way. */
  ghost predicate Watched(w: World, id: TunnelId, due: nat) {
    || (w.now <= due && HelloEvent(due, id) in w.events)
    || Doomed(w, id, due)
  }

  /** The step tosses a message of the tunnel unsent: its StopCCN, or a Hello. */
  ghost predicate Drops(w: World, act: Action, id: TunnelId) {
    || Tosses(w, act, id)
    || (&& id in w.tunnels && w.tunnels[id].seqNum < w.tunnels[id].cLr
        && act.Fire? && w.events != [] && w.events[0].HelloEvent? && w.events[0].tunnel == id)
  }

  /** Whatever closes the tunnel before the Hello is due leads to its end as well. */
  lemma {:induction false} CloseIsWatched(w: World, id: TunnelId, due: nat)
    requires WellTimed(w) && id in w.tunnels && w.now <= due
    requires w.tunnels[id].closing || w.tunnels[id].cLr <= w.tunnels[id].seqNum
    ensures Doomed(CloseTunnel(w, id), id, due)
  {
    var stop := XmitEvent(w.now + 1, Buffer(w.nextId, id, w.tunnels[id].seqNum, StopCCN, [w.now]));
    CloseClears(w, id, stop);
    if !w.tunnels[id].closing {
      SendStopTunnels(w, id);
      assert Waiting(CloseTunnel(w, id), id, due, stop);
    }
  }

  lemma {:induction false} ClosedFlag(w: World, id: TunnelId)
    requires id in w.tunnels && !w.tunnels[id].closing
    ensures id in CloseTunnel(w, id).tunnels && CloseTunnel(w, id).tunnels[id].closing
  {
    hide Insert, Without;
  }

  lemma {:induction false} SendStopTunnels(w: World, id: TunnelId)
    requires id in w.tunnels && !w.tunnels[id].closing
    ensures id in CloseTunnel(w, id).tunnels && CloseTunnel(w, id).tunnels[id].cLr == w.tunnels[id].cLr
  {
    hide Insert, Without;
  }

  /** The Hello itself: from now on a message is waiting. */
  lemma {:induction false} HelloDooms(w: World, id: TunnelId)
    requires WellTimed(w) && w.events != [] && w.events[0] == HelloEvent(w.events[0].due, id) && id in w.tunnels
    requires w.tunnels[id].cLr <= w.tunnels[id].seqNum
    ensures Doomed(FireHead(w), id, w.events[0].due)
  {
    var t := w.tunnels[id];
    var e := XmitEvent(w.events[0].due + 1, Buffer(w.nextId, id, t.seqNum, Ordinary, [w.events[0].due]));
    HelloExactly(w, id, e);
    hide FireHead, Sorted;
    assert Waiting(FireHead(w), id, w.events[0].due, e);
  }

  /** An expiry before the Hello is due. */
  lemma {:induction false} ExpiryIsWatched(w: World, id: TunnelId, due: nat)
    requires Expiring(w, id) && w.events[0].due <= due && !Tosses(w, Fire, id)
    ensures Doomed(FireHead(w), id, due)
  {
    if w.tunnels[id].closing || w.tunnels[id].needclose {
      ExpiryWhileClosing(w, id);
    } else {
      PoppedKeeps(w);
      var b, w1, t := w.events[0].buf, Popped(w), w.tunnels[id];
      assert w.events[0] in w.events && ExpiryOk((b, w1.now), w.maxRetries);
      var w2 := w1.(tunnels := w1.tunnels[id := t.(needclose := true)], expired := w1.expired + [(b, w1.now)]);
      assert FireHead(w) == CloseTunnel(w2, id);
      hide Sorted, Insert, Without;
      ClosedFlag(w2, id);
      CloseIsWatched(w2, id, due);
    }
  }

  /** A retransmission that is not the last leaves the Hello where it is. */
  lemma {:induction false} RetryIsWatched(w: World, id: TunnelId, due: nat)
    requires WellTimed(w) && w.events != [] && w.events[0].XmitEvent? && w.events[0].buf.tunnel == id
    requires HelloEvent(due, id) in w.events && id in w.tunnels
    requires w.events[0].buf.ns < w.tunnels[id].cLr || |w.events[0].buf.sentAt| < w.maxRetries
    ensures FireHead(w).now <= due && HelloEvent(due, id) in FireHead(w).events
  {
    TimerExactly(w, w.events[0].buf);
    HeadIsFirst(w, HelloEvent(due, id));
    hide FireHead, Sorted;
  }

  lemma {:induction false} HeadIsFirst(w: World, e: Event)
    requires WellTimed(w) && e in w.events
    ensures w.events[0].due <= e.due && (e == w.events[0] || e in w.events[1..])
  {
  }

  /** Events of others leave it there too. */
  lemma {:induction false} OtherIsWatched(w: World, id: TunnelId, due: nat)
    requires WellTimed(w) && HelloEvent(due, id) in w.events && w.events[0] != HelloEvent(due, id)
    requires id in w.tunnels && !(w.events[0].XmitEvent? && w.events[0].buf.tunnel == id)
    ensures FireHead(w).now <= due && HelloEvent(due, id) in FireHead(w).events
  {
    PoppedKeeps(w);
    HeadIsFirst(w, HelloEvent(due, id));
    assert w.events[0] in w.events;
    var w1, hello := Popped(w), HelloEvent(due, id);
    match w.events[0] {
      case XmitEvent(_, b) =>
        if b.tunnel in w1.tunnels {
          OtherBufferKeeps(w, b, hello, id);
        }
      case HelloEvent(_, h) =>
        if h in w1.tunnels {
          HelloExactly(w, h, hello);
        }
      case DialEvent(_, _) =>
    }
  }

  lemma {:induction false} OtherBufferKeeps(w: World, b: Buffer, e: Event, id: TunnelId)
    requires WellTimed(w) && w.events != [] && w.events[0] == XmitEvent(w.events[0].due, b)
    requires b.tunnel in w.tunnels && b.tunnel != id && e in w.events[1..] && OfTunnel(e, id)
    ensures e in FireHead(w).events && FireHead(w).now == w.events[0].due
  {
    TimerExactly(w, b);
    PoppedKeeps(w);
    assert w.events[0] in w.events;
    var w1, t := Popped(w), w.tunnels[b.tunnel];
    if b.ns >= t.cLr && |b.sentAt| == w.maxRetries {
      var t' := if t.needclose then t.(needclose := false, closing := true) else t.(needclose := true);
      var w2 := w1.(tunnels := w1.tunnels[b.tunnel := t'], expired := w1.expired + [(b, w1.now)]);
      assert FireHead(w) == CloseTunnel(w2, b.tunnel);
      CloseClears(w2, b.tunnel, e);
      CloseClock(w2, b.tunnel);
    }
  }

  lemma {:induction false} CloseClock(w: World, id: TunnelId)
    requires id in w.tunnels
    ensures CloseTunnel(w, id).now == w.now
  {
    hide Insert, Without;
  }

  lemma {:induction false} FireIsWatched(w: World, id: TunnelId, due: nat)
    requires WellTimed(w) && w.events != [] && id in w.tunnels && !Drops(w, Fire, id)
    requires w.now <= due && HelloEvent(due, id) in w.events
    ensures Watched(FireHead(w), id, due)
  {
    hide FireHead, Sorted, Doomed, Tosses;
    HeadIsFirst(w, HelloEvent(due, id));
    var e := w.events[0];
    assert e in w.events;
    if e.XmitEvent? && e.buf.tunnel == id {
      assert EventOk(e, w.now, w.maxRetries);
      if e.buf.ns >= w.tunnels[id].cLr && |e.buf.sentAt| == w.maxRetries {
        ExpiryIsWatched(w, id, due);
      } else {
        RetryIsWatched(w, id, due);
      }
    } else if e == HelloEvent(due, id) {
      HelloDooms(w, id);
    } else {
      OtherIsWatched(w, id, due);
    }
  }

  lemma {:induction false} StepIsWatched(w: World, act: Action, id: TunnelId, due: nat)
    requires WellTimed(w) && Watched(w, id, due) && !Drops(w, act, id)
    ensures Watched(Step(w, act), id, due)
  {
    if Doomed(w, id, due) {
      StepDooms(w, act, id, due);
    } else {
      hide Sorted, FireHead, CloseTunnel, SendNew;
      var hello := HelloEvent(due, id);
      assert id in w.tunnels by { NotGone(w, id, due); }
      match act
      case Fire => FireIsWatched(w, id, due);
      case Tick(t) => HeadIsFirst(w, hello);
      case ClosePass(k) =>
        if k in w.tunnels && w.tunnels[k].needclose != w.tunnels[k].closing {
          if k == id {
            PassIsWatched(w, id, due);
          } else {
            CloseClears(w, k, hello);
            CloseClock(w, k);
          }
        }
      case SendLocal(k) =>
        if k in w.tunnels {
          SendNewKeeps(w, k, Ordinary);
        }
      case SetCalls(_, _) =>
      case RequestClose(_) =>
    }
  }

  lemma {:induction false} NotGone(w: World, id: TunnelId, due: nat)
    requires !Doomed(w, id, due)
    ensures id in w.tunnels
  {
  }

  lemma {:induction false} PassIsWatched(w: World, id: TunnelId, due: nat)
    requires WellTimed(w) && id in w.tunnels && w.now <= due && w.tunnels[id].needclose != w.tunnels[id].closing
    requires !Tosses(w, ClosePass(id), id)
    ensures Doomed(CloseTunnel(w, id), id, due)
  {
    if !w.tunnels[id].closing {
      ClosedFlag(w, id);
    }
    CloseIsWatched(w, id, due);
  }

  lemma {:induction false} RunIsWatched(w: World, acts: seq<Action>, id: TunnelId, due: nat)
    requires WellTimed(w) && Watched(w, id, due)
    requires forall n :: 0 <= n < |acts| ==> !Drops(Exec(w, acts[..n]), acts[n], id)
    ensures WellTimed(Exec(w, acts)) && Watched(Exec(w, acts), id, due)
  {
    hide Drops, Watched, WellTimed, Step;
    BackoffOverRuns(w, acts);
    if acts != [] {
      var before := acts[..|acts| - 1];
      forall n | 0 <= n < |before| ensures !Drops(Exec(w, before[..n]), before[n], id) {
        assert before[..n] == acts[..n];
      }
      RunIsWatched(w, before, id, due);
      StepIsWatched(Exec(w, before), acts[|acts| - 1], id, due);
    }
  }

  /** A tunnel with a Hello in the queue, whose peer is silent from now on, is gone two
      full backoffs after the Hello was due, whatever else the daemon does meanwhile and
      even if nothing was waiting for the peer, unless its StopCCN or the Hello was tossed. */
  lemma {:induction false} HelloNoticesSilence(w: World, acts: seq<Action>, id: TunnelId, due: nat)
    requires WellTimed(w) && HelloEvent(due, id) in w.events && id in w.tunnels
    requires forall n :: 0 <= n < |acts| ==> !Drops(Exec(w, acts[..n]), acts[n], id)
    requires Exec(w, acts).now > due + 2 * Backoff(w.maxRetries)
    ensures id !in Exec(w, acts).tunnels
  {
    assert w.now <= due by { assert EventOk(HelloEvent(due, id), w.now, w.maxRetries); }
    RunIsWatched(w, acts, id, due);
    BackoffOverRuns(w, acts);
    hide Drops, Exec, Backoff;
    if id in Exec(w, acts).tunnels {
      DoomBoundsClock(Exec(w, acts), id, due);
    }
  }
}
