/** Retransmission with exponential backoff, and how a tunnel whose peer has
    gone silent is closed and destroyed. Timers are prompt: the clock never
    passes the time of a queued event. The peer is silent, so `cLr` is fixed. */
module TunnelLifetime {
  import opened Octets
  import opened ControlTunnel

  type TunnelId = nat
  type BufferId = nat

  const HELLO_DELAY: nat := 60

  datatype Kind = StopCCN | Ordinary

  /** A control buffer. `sentAt` records when it was put on the wire, so
      `|sentAt|` is the value `retries` had at the last transmission. */
  datatype Buffer = Buffer(id: BufferId, tunnel: TunnelId, ns: u16, kind: Kind, sentAt: seq<nat>)

  datatype Event =
    | XmitEvent(due: nat, buf: Buffer)
    | HelloEvent(due: nat, tunnel: TunnelId)
    | DialEvent(due: nat, lac: nat)

  datatype Tunnel = Tunnel(seqNum: u16, cLr: int, needclose: bool, closing: bool, calls: seq<nat>)

  datatype World = World(
    now: nat, maxRetries: nat, events: seq<Event>, tunnels: map<TunnelId, Tunnel>,
    nextId: BufferId, expired: seq<(Buffer, nat)>)

  predicate Owns(id: TunnelId, e: Event) {
    match e
    case XmitEvent(_, b) => b.tunnel == id
    case HelloEvent(_, t) => t == id
    case DialEvent(_, _) => false
  }

  /** Insertion into the timer queue: behind every event that is not later. */
  function Insert(q: seq<Event>, e: Event): seq<Event> {
    if q == [] || e.due < q[0].due then [e] + q else [q[0]] + Insert(q[1..], e)
  }

  function Without(q: seq<Event>, id: TunnelId): seq<Event> {
    if q == [] then []
    else (if Owns(id, q[0]) then [] else [q[0]]) + Without(q[1..], id)
  }

  /** Delay before the (k+1)-st transmission, and the sum of the first k delays. */
  function Delay(k: nat): nat { Pow2(if k > 31 then 31 else k) }

  function Backoff(k: nat): nat { if k == 0 then 0 else Backoff(k - 1) + Delay(k - 1) }

  function Arm(w: World, b: Buffer): World
    requires b.sentAt != []
  {
    w.(events := Insert(w.events, XmitEvent(w.now + Delay(|b.sentAt| - 1), b)))
  }

  /** A new numbered packet and its first `control_xmit`; `maxRetries` is at least 1,
      so it is either sent or, if its number is below `cLr`, silently tossed. */
  function SendNew(w: World, id: TunnelId, kind: Kind): World
    requires id in w.tunnels
  {
    var t := w.tunnels[id];
    var w1 := w.(tunnels := w.tunnels[id := t.(seqNum := Inc(t.seqNum))], nextId := w.nextId + 1);
    if t.seqNum < t.cLr then w1 else Arm(w1, Buffer(w.nextId, id, t.seqNum, kind, [w.now]))
  }

  /** `call_close` on the tunnel's own call. */
  function CloseTunnel(w: World, id: TunnelId): World
    requires id in w.tunnels
  {
    var w1 := w.(events := Without(w.events, id));
    if w.tunnels[id].closing then w1.(tunnels := w1.tunnels - {id})
    else
      var w2 := SendNew(w1, id, StopCCN);
      w2.(tunnels := w2.tunnels[id := w2.tunnels[id].(calls := [], closing := true)])
  }

  /** `control_xmit` out of the timer queue. */
  function Retransmit(w: World, b: Buffer): World {
    if b.tunnel !in w.tunnels then w else
    var t := w.tunnels[b.tunnel];
    match Xmit(b.ns, t.cLr, |b.sentAt| + 1, w.maxRetries)
    case Toss => w
    case GiveUp =>
      var t' := if t.needclose then t.(needclose := false, closing := true) else t.(needclose := true);
      CloseTunnel(w.(tunnels := w.tunnels[b.tunnel := t'], expired := w.expired + [(b, w.now)]), b.tunnel)
    case Transmit(_) => Arm(w, b.(sentAt := b.sentAt + [w.now]))
  }

  /** The head of the queue runs, at its time. */
  function FireHead(w: World): World
    requires w.events != []
  {
    var e := w.events[0];
    var w1 := w.(now := if w.now < e.due then e.due else w.now, events := w.events[1..]);
    match e
    case XmitEvent(_, b) => Retransmit(w1, b)
    case HelloEvent(_, id) =>
      if id !in w1.tunnels then w1 else
      var w2 := SendNew(w1, id, Ordinary);
      w2.(events := Insert(w2.events, HelloEvent(w2.now + HELLO_DELAY, id)))
    case DialEvent(_, _) => w1
  }

  /** What can happen while nothing arrives from the peer: a timer runs, time
      passes up to the next timer, the file-descriptor pass closes a tunnel whose
      two flags differ, and local actions send a message, change the set of calls
      or ask for the tunnel to be closed. */
  datatype Action =
    | Fire
    | Tick(until: nat)
    | ClosePass(id: TunnelId)
    | SendLocal(id: TunnelId)
    | SetCalls(id: TunnelId, calls: seq<nat>)
    | RequestClose(id: TunnelId)

  function Step(w: World, act: Action): World {
    match act
    case Fire => if w.events == [] then w else FireHead(w)
    case Tick(t) =>
      if w.now <= t && (w.events == [] || t <= w.events[0].due) then w.(now := t) else w
    case ClosePass(id) =>
      if id in w.tunnels && w.tunnels[id].needclose != w.tunnels[id].closing
      then CloseTunnel(w, id) else w
    case SendLocal(id) => if id in w.tunnels then SendNew(w, id, Ordinary) else w
    case SetCalls(id, calls) =>
      if id in w.tunnels then w.(tunnels := w.tunnels[id := w.tunnels[id].(calls := calls)]) else w
    case RequestClose(id) =>
      if id in w.tunnels then w.(tunnels := w.tunnels[id := w.tunnels[id].(needclose := true)]) else w
  }

  function Exec(w: World, acts: seq<Action>): World {
    if acts == [] then w else Step(Exec(w, acts[..|acts| - 1]), acts[|acts| - 1])
  }

  // ------------------------------------------------------------ queue and time

  ghost predicate Sorted(q: seq<Event>) {
    q == [] || ((forall e :: e in q[1..] ==> q[0].due <= e.due) && Sorted(q[1..]))
  }

  lemma {:induction false} InsertKeeps(q: seq<Event>, e: Event)
    ensures forall x :: x in Insert(q, e) <==> x in q || x == e
    ensures Sorted(q) ==> Sorted(Insert(q, e))
  {
    if q != [] && q[0].due <= e.due {
      InsertKeeps(q[1..], e);
      assert Insert(q, e)[1..] == Insert(q[1..], e);
    } else {
      assert Insert(q, e)[1..] == q;
      assert Sorted(q) ==> forall x :: x in q ==> q[0].due <= x.due;
    }
  }

  lemma {:induction false} WithoutKeeps(q: seq<Event>, id: TunnelId)
    ensures forall x :: x in Without(q, id) <==> x in q && !Owns(id, x)
    ensures Sorted(q) ==> Sorted(Without(q, id))
  {
    if q != [] {
      WithoutKeeps(q[1..], id);
      if !Owns(id, q[0]) {
        assert Without(q, id)[1..] == Without(q[1..], id);
      } else {
        assert Without(q, id) == Without(q[1..], id);
      }
    }
  }

  lemma {:induction false} BackoffMonotone(j: nat, k: nat)
    requires j <= k
    ensures Backoff(j) <= Backoff(k)
  {
    if j < k {
      BackoffMonotone(j, k - 1);
    }
  }

  /** Up to 32 transmissions the delays double each time and add up to 2^k - 1 seconds. */
  lemma {:induction false} BackoffIsPow2Minus1(k: nat)
    requires k <= 32
    ensures Backoff(k) == Pow2(k) - 1
  {
    if k > 0 {
      BackoffIsPow2Minus1(k - 1);
    }
  }

  /** The transmissions of a buffer lie exactly on the backoff curve. */
  ghost predicate OnCurve(b: Buffer, maxRetries: nat) {
    && 1 <= |b.sentAt| <= maxRetries
    && forall j :: 0 <= j < |b.sentAt| ==> b.sentAt[j] == b.sentAt[0] + Backoff(j)
  }

  ghost predicate EventOk(e: Event, now: nat, maxRetries: nat) {
    && now <= e.due
    && (e.XmitEvent? ==>
          OnCurve(e.buf, maxRetries) && e.due == e.buf.sentAt[0] + Backoff(|e.buf.sentAt|))
  }

  ghost predicate ExpiryOk(x: (Buffer, nat), maxRetries: nat) {
    OnCurve(x.0, maxRetries) && |x.0.sentAt| == maxRetries && x.1 == x.0.sentAt[0] + Backoff(maxRetries)
  }

  ghost predicate WellTimed(w: World) {
    && 1 <= w.maxRetries && Sorted(w.events)
    && (forall e :: e in w.events ==> EventOk(e, w.now, w.maxRetries))
    && (forall x :: x in w.expired ==> ExpiryOk(x, w.maxRetries))
  }

  lemma ArmKeeps(w: World, b: Buffer)
    requires WellTimed(w) && OnCurve(b, w.maxRetries) && b.sentAt[|b.sentAt| - 1] == w.now
    ensures WellTimed(Arm(w, b))
    ensures XmitEvent(b.sentAt[0] + Backoff(|b.sentAt|), b) in Arm(w, b).events
    ensures forall e :: e in w.events ==> e in Arm(w, b).events
  {
    InsertKeeps(w.events, XmitEvent(w.now + Delay(|b.sentAt| - 1), b));
  }

  lemma SendNewKeeps(w: World, id: TunnelId, kind: Kind)
    requires WellTimed(w) && id in w.tunnels
    ensures var w' := SendNew(w, id, kind); var t := w.tunnels[id];
            && WellTimed(w') && (forall e :: e in w.events ==> e in w'.events)
            && (t.cLr <= t.seqNum ==>
                 var b := Buffer(w.nextId, id, t.seqNum, kind, [w.now]);
                 XmitEvent(w.now + 1, b) in w'.events)
            && w'.tunnels == w.tunnels[id := t.(seqNum := Inc(t.seqNum))]
            && w'.now == w.now && w'.maxRetries == w.maxRetries && w'.expired == w.expired
  {
    var t := w.tunnels[id];
    if t.cLr <= t.seqNum {
      var b := Buffer(w.nextId, id, t.seqNum, kind, [w.now]);
      var w1 := w.(tunnels := w.tunnels[id := t.(seqNum := Inc(t.seqNum))], nextId := w.nextId + 1);
      assert Backoff(1) == 1;
      ArmKeeps(w1, b);
    }
  }

  lemma CloseKeeps(w: World, id: TunnelId)
    requires WellTimed(w) && id in w.tunnels
    ensures WellTimed(CloseTunnel(w, id))
    ensures forall e :: e in w.events && !Owns(id, e) ==> e in CloseTunnel(w, id).events
    ensures forall k :: k != id && k in w.tunnels ==>
              k in CloseTunnel(w, id).tunnels && CloseTunnel(w, id).tunnels[k] == w.tunnels[k]
  {
    WithoutKeeps(w.events, id);
    var w1 := w.(events := Without(w.events, id));
    if !w.tunnels[id].closing {
      SendNewKeeps(w1, id, StopCCN);
    }
  }

  lemma RetransmitKeeps(w: World, b: Buffer)
    requires WellTimed(w) && OnCurve(b, w.maxRetries)
    requires w.now == b.sentAt[0] + Backoff(|b.sentAt|)
    ensures WellTimed(Retransmit(w, b))
  {
    if b.tunnel in w.tunnels {
      var t := w.tunnels[b.tunnel];
      match Xmit(b.ns, t.cLr, |b.sentAt| + 1, w.maxRetries)
      case Toss =>
      case GiveUp =>
        var t' := if t.needclose then t.(needclose := false, closing := true) else t.(needclose := true);
        var w1 := w.(tunnels := w.tunnels[b.tunnel := t'], expired := w.expired + [(b, w.now)]);
        assert ExpiryOk((b, w.now), w.maxRetries);
        CloseKeeps(w1, b.tunnel);
      case Transmit(_) =>
        var b' := b.(sentAt := b.sentAt + [w.now]);
        ArmKeeps(w, b');
    }
  }

  ghost function Popped(w: World): World
    requires w.events != []
  {
    w.(now := if w.now < w.events[0].due then w.events[0].due else w.now, events := w.events[1..])
  }

  lemma PoppedKeeps(w: World)
    requires WellTimed(w) && w.events != []
    ensures WellTimed(Popped(w)) && Popped(w).now == w.events[0].due
    ensures forall e :: e in w.events ==> e == w.events[0] || e in Popped(w).events
  {
    assert w.events[0] in w.events;
    forall e | e in w.events[1..] ensures EventOk(e, w.events[0].due, w.maxRetries) {
      assert e in w.events && EventOk(e, w.now, w.maxRetries);
    }
  }

  lemma StepKeeps(w: World, act: Action)
    requires WellTimed(w)
    ensures WellTimed(Step(w, act))
  {
    match act
    case Fire =>
      if w.events != [] {
        PoppedKeeps(w);
        assert w.events[0] in w.events;
        var w1 := Popped(w);
        match w.events[0]
        case XmitEvent(_, b) => RetransmitKeeps(w1, b);
        case HelloEvent(_, id) =>
          if id in w1.tunnels {
            SendNewKeeps(w1, id, Ordinary);
            var w2 := SendNew(w1, id, Ordinary);
            InsertKeeps(w2.events, HelloEvent(w2.now + HELLO_DELAY, id));
          }
        case DialEvent(_, _) =>
      }
    case Tick(t) =>
      if w.now <= t && w.events != [] && t <= w.events[0].due {
        forall e | e in w.events ensures EventOk(e, t, w.maxRetries) {
          assert EventOk(e, w.now, w.maxRetries);
          assert e == w.events[0] || e in w.events[1..];
        }
      }
    case ClosePass(id) =>
      if id in w.tunnels { CloseKeeps(w, id); }
    case SendLocal(id) =>
      if id in w.tunnels { SendNewKeeps(w, id, Ordinary); }
    case SetCalls(_, _) =>
    case RequestClose(_) =>
  }

  /** Over every run of timers: no buffer is ever sent more than `maxRetries`
      times, all its transmissions and its expiry lie on the backoff curve, and
      no event is left behind by the clock. */
  lemma {:induction false} BackoffOverRuns(w: World, acts: seq<Action>)
    requires WellTimed(w)
    ensures WellTimed(Exec(w, acts)) && Exec(w, acts).maxRetries == w.maxRetries
  {
    if acts != [] {
      BackoffOverRuns(w, acts[..|acts| - 1]);
      StepKeeps(Exec(w, acts[..|acts| - 1]), acts[|acts| - 1]);
    }
  }

  // -------------------------------------------------------------- two expiries

  /** The head of the queue is a buffer of tunnel `id` whose last retry is over. */
  ghost predicate Expiring(w: World, id: TunnelId) {
    && WellTimed(w) && w.events != [] && w.events[0].XmitEvent? && id in w.tunnels
    && w.events[0].buf.tunnel == id && |w.events[0].buf.sentAt| == w.maxRetries
    && w.events[0].buf.ns >= w.tunnels[id].cLr
  }

  ghost function Owned(w: World, id: TunnelId): set<Event> {
    set e | e in w.events && Owns(id, e)
  }

  /** Closing a running tunnel: its events and calls go, a StopCCN is sent. */
  lemma CloseSendsStop(w: World, id: TunnelId)
    requires id in w.tunnels && !w.tunnels[id].closing && w.tunnels[id].cLr <= w.tunnels[id].seqNum
    ensures var w' := CloseTunnel(w, id); var t := w.tunnels[id];
            && w'.tunnels == w.tunnels[id := t.(seqNum := Inc(t.seqNum), closing := true, calls := [])]
            && Owned(w', id) ==
                 {XmitEvent(w.now + 1, Buffer(w.nextId, id, t.seqNum, StopCCN, [w.now]))}
            && (forall e :: e in w.events && !Owns(id, e) ==> e in w'.events)
            && w'.now == w.now
  {
    hide Insert, Without, CloseTunnel, Sorted, Inc;
    var w', t := CloseTunnel(w, id), w.tunnels[id];
    var stop := XmitEvent(w.now + 1, Buffer(w.nextId, id, t.seqNum, StopCCN, [w.now]));
    ClosedWorld(w, id);
    WithoutKeeps(w.events, id);
    InsertKeeps(Without(w.events, id), stop);
    assert Owned(w', id) == {stop};
  }

  lemma ClosedWorld(w: World, id: TunnelId)
    requires id in w.tunnels && !w.tunnels[id].closing && w.tunnels[id].cLr <= w.tunnels[id].seqNum
    ensures var w' := CloseTunnel(w, id); var t := w.tunnels[id];
            && w'.tunnels == w.tunnels[id := t.(seqNum := Inc(t.seqNum), closing := true, calls := [])]
            && w'.events == Insert(Without(w.events, id),
                                   XmitEvent(w.now + 1, Buffer(w.nextId, id, t.seqNum, StopCCN, [w.now])))
            && w'.now == w.now
  {
    hide Insert, Without, Inc;
  }

  /** The first expiry leaves nothing of the tunnel in the queue but one StopCCN,
      just sent for the first time, and no call; other tunnels keep their events. */
  lemma FirstExpirySendsStop(w: World, id: TunnelId)
    requires Expiring(w, id) && !w.tunnels[id].needclose && !w.tunnels[id].closing
    requires w.tunnels[id].cLr <= w.tunnels[id].seqNum
    ensures var w' := FireHead(w); var t := w.tunnels[id];
            && w'.tunnels == w.tunnels[id := t.(seqNum := Inc(t.seqNum), needclose := true,
                                                closing := true, calls := [])]
            && Owned(w', id) ==
                 {XmitEvent(w'.now + 1, Buffer(w.nextId, id, t.seqNum, StopCCN, [w'.now]))}
            && (forall e :: e in w.events && !Owns(id, e) ==> e in w'.events)
  {
    var b, w1, t := w.events[0].buf, Popped(w), w.tunnels[id];
    var w2 := w1.(tunnels := w1.tunnels[id := t.(needclose := true)],
                  expired := w1.expired + [(b, w1.now)]);
    assert FireHead(w) == CloseTunnel(w2, id);
    CloseSendsStop(w2, id);
  }

  /** An expiry on a tunnel that is already asked to close destroys it, with all its events. */
  lemma SecondExpiryDestroys(w: World, id: TunnelId)
    requires Expiring(w, id) && w.tunnels[id].needclose
    ensures id !in FireHead(w).tunnels && Owned(FireHead(w), id) == {}
    ensures forall e :: e in w.events && !Owns(id, e) ==> e in FireHead(w).events
  {
    PoppedKeeps(w);
    WithoutKeeps(w.events[1..], id);
  }

  // ------------------------------------------------------------------ deadline

  /** A queued, unacknowledged buffer of tunnel `id` first sent no later than `limit`. */
  ghost predicate Waiting(w: World, id: TunnelId, limit: int, e: Event) {
    && e in w.events && e.XmitEvent? && e.buf.tunnel == id && e.buf.sentAt != []
    && e.buf.sentAt[0] <= limit && id in w.tunnels && e.buf.ns >= w.tunnels[id].cLr
  }

  ghost predicate SomeWaiting(w: World, id: TunnelId, limit: int) {
    exists e :: Waiting(w, id, limit, e)
  }

  /** Either a buffer first sent at or before `t0` is still being retried, or
      the tunnel is closing with a buffer first sent within one full backoff of
      `t0`, or the tunnel is gone. */
  ghost predicate Doomed(w: World, id: TunnelId, t0: nat) {
    || id !in w.tunnels
    || SomeWaiting(w, id, t0)
    || (w.tunnels[id].needclose && w.tunnels[id].closing && SomeWaiting(w, id, t0 + Backoff(w.maxRetries)))
  }

  /** The step closes the tunnel while the number of its StopCCN has wrapped below
      what the peer acknowledged, so that the message is tossed unsent. */
  ghost predicate Tosses(w: World, act: Action, id: TunnelId) {
    && id in w.tunnels && !w.tunnels[id].closing && w.tunnels[id].seqNum < w.tunnels[id].cLr
    && id in Step(w, act).tunnels && Step(w, act).tunnels[id].closing
  }

  /** A waiting buffer bounds the clock. */
  lemma WaitingBoundsClock(w: World, id: TunnelId, limit: int, e: Event)
    requires WellTimed(w) && Waiting(w, id, limit, e)
    ensures w.now <= e.due <= limit + Backoff(w.maxRetries)
  {
    assert EventOk(e, w.now, w.maxRetries);
    BackoffMonotone(|e.buf.sentAt|, w.maxRetries);
  }

  /** Closing a tunnel on which something is waiting dooms it further. */
  lemma CloseDooms(w: World, id: TunnelId, t0: nat)
    requires WellTimed(w) && id in w.tunnels && (w.tunnels[id].closing || w.tunnels[id].cLr <= w.tunnels[id].seqNum)
    requires w.now <= t0 + Backoff(w.maxRetries) && (w.tunnels[id].needclose || w.tunnels[id].closing)
    ensures Doomed(CloseTunnel(w, id), id, t0)
  {
    if !w.tunnels[id].closing {
      CloseKeeps(w, id);
      WithoutKeeps(w.events, id);
      var w1 := w.(events := Without(w.events, id));
      SendNewKeeps(w1, id, StopCCN);
      var b := Buffer(w.nextId, id, w.tunnels[id].seqNum, StopCCN, [w.now]);
      assert Waiting(CloseTunnel(w, id), id, t0 + Backoff(w.maxRetries), XmitEvent(w.now + 1, b));
    }
  }

  /** Buffers that stay queued keep waiting. */
  lemma WaitingCarries(w: World, w': World, id: TunnelId, limit: int)
    requires SomeWaiting(w, id, limit) && id in w.tunnels && id in w'.tunnels
    requires w'.tunnels[id].cLr == w.tunnels[id].cLr
    requires forall e :: e in w.events && e.XmitEvent? && e.buf.tunnel == id ==> e in w'.events
    ensures SomeWaiting(w', id, limit)
  {
    var e :| Waiting(w, id, limit, e);
    assert Waiting(w', id, limit, e);
  }

  /** A step that keeps the tunnel's buffers, flags and `cLr` keeps it doomed. */
  lemma DoomCarries(w: World, w': World, id: TunnelId, t0: nat)
    requires Doomed(w, id, t0) && w'.maxRetries == w.maxRetries && id in w.tunnels && id in w'.tunnels
    requires w'.tunnels[id].cLr == w.tunnels[id].cLr
    requires w.tunnels[id].needclose ==> w'.tunnels[id].needclose
    requires w.tunnels[id].closing == w'.tunnels[id].closing
    requires forall e :: e in w.events && e.XmitEvent? && e.buf.tunnel == id ==> e in w'.events
    ensures Doomed(w', id, t0)
  {
    if SomeWaiting(w, id, t0) {
      WaitingCarries(w, w', id, t0);
    } else {
      WaitingCarries(w, w', id, t0 + Backoff(w.maxRetries));
    }
  }

  /** The clock can be read off any doomed world. */
  lemma DoomBoundsClock(w: World, id: TunnelId, t0: nat)
    requires WellTimed(w) && Doomed(w, id, t0) && id in w.tunnels
    ensures w.now <= t0 + 2 * Backoff(w.maxRetries)
    ensures !(w.tunnels[id].needclose && w.tunnels[id].closing) ==>
              w.now <= t0 + Backoff(w.maxRetries)
              && (w.events != [] ==> w.events[0].due <= t0 + Backoff(w.maxRetries))
  {
    if SomeWaiting(w, id, t0) {
      var e :| Waiting(w, id, t0, e);
      WaitingBoundsClock(w, id, t0, e);
      assert e == w.events[0] || e in w.events[1..];
    } else {
      var e :| Waiting(w, id, t0 + Backoff(w.maxRetries), e);
      WaitingBoundsClock(w, id, t0 + Backoff(w.maxRetries), e);
    }
  }

  /** The head, waiting or not, is retried; whatever was waiting still is. */
  lemma RetryCarries(w: World, id: TunnelId, limit: int)
    requires WellTimed(w) && SomeWaiting(w, id, limit) && id in w.tunnels
    requires w.events != [] && w.events[0].XmitEvent? && w.events[0].buf.tunnel == id
    requires |w.events[0].buf.sentAt| + 1 <= w.maxRetries || w.events[0].buf.ns < w.tunnels[id].cLr
    ensures SomeWaiting(FireHead(w), id, limit)
    ensures FireHead(w).tunnels == w.tunnels && FireHead(w).maxRetries == w.maxRetries
  {
    hide Sorted;
    PoppedKeeps(w);
    var b, w1, w' := w.events[0].buf, Popped(w), FireHead(w);
    assert w.events[0] in w.events;
    var e :| Waiting(w, id, limit, e);
    if b.ns < w.tunnels[id].cLr {
      assert Waiting(w', id, limit, e);
    } else {
      var b' := b.(sentAt := b.sentAt + [w1.now]);
      ArmKeeps(w1, b');
      var x := XmitEvent(b'.sentAt[0] + Backoff(|b'.sentAt|), b');
      assert Waiting(w', id, limit, if e == w.events[0] then x else e);
    }
  }

  lemma ExpiryDooms(w: World, id: TunnelId, t0: nat)
    requires Expiring(w, id) && Doomed(w, id, t0) && !Tosses(w, Fire, id)
    ensures Doomed(FireHead(w), id, t0)
  {
    PoppedKeeps(w);
    var b, w1, t := w.events[0].buf, Popped(w), w.tunnels[id];
    assert w.events[0] in w.events && ExpiryOk((b, w1.now), w.maxRetries);
    if t.needclose {
      SecondExpiryDestroys(w, id);
    } else {
      DoomBoundsClock(w, id, t0);
      CloseDooms(w1.(tunnels := w1.tunnels[id := t.(needclose := true)],
                     expired := w1.expired + [(b, w1.now)]), id, t0);
    }
  }

  lemma RetransmitDooms(w: World, id: TunnelId, t0: nat)
    requires WellTimed(w) && Doomed(w, id, t0) && !Tosses(w, Fire, id) && id in w.tunnels
    requires w.events != [] && w.events[0].XmitEvent? && w.events[0].buf.tunnel == id
    ensures Doomed(FireHead(w), id, t0)
  {
    assert w.events[0] in w.events;
    if w.events[0].buf.ns >= w.tunnels[id].cLr && |w.events[0].buf.sentAt| == w.maxRetries {
      ExpiryDooms(w, id, t0);
    } else if SomeWaiting(w, id, t0) {
      RetryCarries(w, id, t0);
    } else {
      RetryCarries(w, id, t0 + Backoff(w.maxRetries));
    }
  }

  /** A buffer of another tunnel leaves the doomed tunnel's events and flags alone. */
  lemma OtherBufferCarries(w: World, b: Buffer, id: TunnelId)
    requires WellTimed(w) && id in w.tunnels && b.tunnel != id && OnCurve(b, w.maxRetries)
    requires w.now == b.sentAt[0] + Backoff(|b.sentAt|)
    ensures var w' := Retransmit(w, b);
            && id in w'.tunnels && w'.tunnels[id] == w.tunnels[id] && w'.maxRetries == w.maxRetries
            && forall e :: e in w.events && e.XmitEvent? && e.buf.tunnel == id ==> e in w'.events
  {
    if b.tunnel in w.tunnels {
      var t := w.tunnels[b.tunnel];
      match Xmit(b.ns, t.cLr, |b.sentAt| + 1, w.maxRetries)
      case Toss =>
      case GiveUp =>
        var t' := if t.needclose then t.(needclose := false, closing := true) else t.(needclose := true);
        assert ExpiryOk((b, w.now), w.maxRetries);
        CloseKeeps(w.(tunnels := w.tunnels[b.tunnel := t'], expired := w.expired + [(b, w.now)]), b.tunnel);
      case Transmit(_) => ArmKeeps(w, b.(sentAt := b.sentAt + [w.now]));
    }
  }

  lemma FireOtherDooms(w: World, id: TunnelId, t0: nat)
    requires WellTimed(w) && Doomed(w, id, t0) && id in w.tunnels && w.events != []
    requires !(w.events[0].XmitEvent? && w.events[0].buf.tunnel == id)
    ensures Doomed(FireHead(w), id, t0)
  {
    PoppedKeeps(w);
    assert w.events[0] in w.events;
    hide Sorted, Backoff;
    var w1 := Popped(w);
    match w.events[0] {
      case XmitEvent(_, b) => OtherBufferCarries(w1, b, id);
      case HelloEvent(_, h) =>
        if h in w1.tunnels {
          SendNewKeeps(w1, h, Ordinary);
          var w2 := SendNew(w1, h, Ordinary);
          InsertKeeps(w2.events, HelloEvent(w2.now + HELLO_DELAY, h));
        }
      case DialEvent(_, _) =>
    }
    DoomCarries(w, FireHead(w), id, t0);
  }

  lemma StepDooms(w: World, act: Action, id: TunnelId, t0: nat)
    requires WellTimed(w) && Doomed(w, id, t0) && !Tosses(w, act, id)
    ensures Doomed(Step(w, act), id, t0)
  {
    if id in w.tunnels {
      match act
      case Fire =>
        if w.events != [] {
          if w.events[0].XmitEvent? && w.events[0].buf.tunnel == id {
            RetransmitDooms(w, id, t0);
          } else {
            FireOtherDooms(w, id, t0);
          }
        }
      case Tick(t) => DoomCarries(w, Step(w, act), id, t0);
      case ClosePass(k) =>
        if k in w.tunnels && w.tunnels[k].needclose != w.tunnels[k].closing {
          CloseKeeps(w, k);
          if k == id {
            DoomBoundsClock(w, id, t0);
            CloseDooms(w, id, t0);
          } else {
            DoomCarries(w, Step(w, act), id, t0);
          }
        }
      case SendLocal(k) =>
        if k in w.tunnels {
          SendNewKeeps(w, k, Ordinary);
          DoomCarries(w, Step(w, act), id, t0);
        }
      case SetCalls(_, _) => DoomCarries(w, Step(w, act), id, t0);
      case RequestClose(_) => DoomCarries(w, Step(w, act), id, t0);
    } else {
      NeverReborn(w, act, id);
    }
  }

  lemma NeverReborn(w: World, act: Action, id: TunnelId)
    requires id !in w.tunnels
    ensures id !in Step(w, act).tunnels
  {
  }

  lemma {:induction false} RunDooms(w: World, acts: seq<Action>, id: TunnelId, t0: nat)
    requires WellTimed(w) && Doomed(w, id, t0)
    requires forall n :: 0 <= n < |acts| ==> !Tosses(Exec(w, acts[..n]), acts[n], id)
    ensures WellTimed(Exec(w, acts)) && Doomed(Exec(w, acts), id, t0)
  {
    BackoffOverRuns(w, acts);
    if acts != [] {
      var before := acts[..|acts| - 1];
      forall n | 0 <= n < |before| ensures !Tosses(Exec(w, before[..n]), before[n], id) {
        assert before[..n] == acts[..n];
      }
      RunDooms(w, before, id, t0);
      StepDooms(Exec(w, before), acts[|acts| - 1], id, t0);
    }
  }

  /** A peer that stays silent after a packet first sent at time `e.buf.sentAt[0]`
      loses its tunnel: once two full backoffs have gone by since then the tunnel
      no longer exists, whatever else the daemon did meanwhile, unless the StopCCN
      was tossed when the tunnel was closed. */
  lemma SilentPeerDeadline(w: World, acts: seq<Action>, id: TunnelId, e: Event)
    requires WellTimed(w) && e in w.events && e.XmitEvent? && e.buf.tunnel == id
    requires e.buf.sentAt != [] && id in w.tunnels && w.tunnels[id].cLr <= e.buf.ns
    requires forall n :: 0 <= n < |acts| ==> !Tosses(Exec(w, acts[..n]), acts[n], id)
    requires Exec(w, acts).now > e.buf.sentAt[0] + 2 * Backoff(w.maxRetries)
    ensures id !in Exec(w, acts).tunnels
  {
    var t0 := e.buf.sentAt[0];
    assert Waiting(w, id, t0, e);
    RunDooms(w, acts, id, t0);
    BackoffOverRuns(w, acts);
    if id in Exec(w, acts).tunnels {
      DoomBoundsClock(Exec(w, acts), id, t0);
    }
  }

  // -------------------------------------------- when the closing message is lost

  /** Closing queues the StopCCN exactly when its number is not below `cLr`. */
  lemma StopQueuedIff(w: World, id: TunnelId)
    requires WellTimed(w) && id in w.tunnels && !w.tunnels[id].closing
    ensures (exists e :: e in CloseTunnel(w, id).events && Owns(id, e))
              <==> w.tunnels[id].cLr <= w.tunnels[id].seqNum
  {
    WithoutKeeps(w.events, id);
    var w1 := w.(events := Without(w.events, id));
    SendNewKeeps(w1, id, StopCCN);
    if w.tunnels[id].cLr <= w.tunnels[id].seqNum {
      var b := Buffer(w.nextId, id, w.tunnels[id].seqNum, StopCCN, [w.now]);
      assert Owns(id, XmitEvent(w.now + 1, b)) && XmitEvent(w.now + 1, b) in CloseTunnel(w, id).events;
    }
  }

  /** A closing tunnel with nothing in the queue. */
  ghost predicate Orphan(w: World, id: TunnelId) {
    && id in w.tunnels && w.tunnels[id].needclose && w.tunnels[id].closing
    && forall e :: e in w.events ==> !Owns(id, e)
  }

  predicate TimerOnly(act: Action) { act.Fire? || act.Tick? || act.ClosePass? }

  lemma OrphanStep(w: World, act: Action, id: TunnelId)
    requires Orphan(w, id) && TimerOnly(act)
    ensures Orphan(Step(w, act), id)
  {
    match act
    case Fire =>
      if w.events != [] {
        var w1 := Popped(w);
        assert w.events[0] in w.events;
        match w.events[0]
        case XmitEvent(_, b) =>
          if b.tunnel in w1.tunnels {
            var t := w1.tunnels[b.tunnel];
            match Xmit(b.ns, t.cLr, |b.sentAt| + 1, w.maxRetries)
            case Toss =>
            case GiveUp =>
              var t' := if t.needclose then t.(needclose := false, closing := true) else t.(needclose := true);
              OrphanOther(w1.(tunnels := w1.tunnels[b.tunnel := t'], expired := w1.expired + [(b, w1.now)]),
                          b.tunnel, id);
            case Transmit(d) =>
              InsertKeeps(w1.events, XmitEvent(w1.now + Delay(|b.sentAt|), b.(sentAt := b.sentAt + [w1.now])));
          }
        case HelloEvent(_, h) =>
          if h in w1.tunnels {
            OrphanSend(w1, h, Ordinary, id);
            var w2 := SendNew(w1, h, Ordinary);
            InsertKeeps(w2.events, HelloEvent(w2.now + HELLO_DELAY, h));
          }
        case DialEvent(_, _) =>
      }
    case Tick(_) =>
    case ClosePass(k) =>
      if k in w.tunnels && w.tunnels[k].needclose != w.tunnels[k].closing { OrphanOther(w, k, id); }
  }

  lemma OrphanSend(w: World, k: TunnelId, kind: Kind, id: TunnelId)
    requires Orphan(w, id) && k in w.tunnels && k != id
    ensures Orphan(SendNew(w, k, kind), id)
  {
    var b := Buffer(w.nextId, k, w.tunnels[k].seqNum, kind, [w.now]);
    InsertKeeps(w.events, XmitEvent(w.now + Delay(0), b));
  }

  lemma OrphanOther(w: World, k: TunnelId, id: TunnelId)
    requires Orphan(w, id) && k in w.tunnels && k != id
    ensures Orphan(CloseTunnel(w, k), id)
  {
    WithoutKeeps(w.events, k);
    if !w.tunnels[k].closing {
      OrphanSend(w.(events := Without(w.events, k)), k, StopCCN, id);
    }
  }

  lemma TossOrphans(w: World, act: Action, id: TunnelId)
    requires Tosses(w, act, id)
    ensures Orphan(Step(w, act), id)
  {
    if act.ClosePass? && act.id == id {
      WithoutKeeps(w.events, id);
    } else if act.Fire? && w.events != [] {
      WithoutKeeps(w.events[1..], id);
    }
  }

  lemma {:induction false} TossedForGood(w: World, acts: seq<Action>, id: TunnelId, n: nat)
    requires n < |acts| && Tosses(Exec(w, acts[..n]), acts[n], id)
    requires forall i :: 0 <= i < |acts| ==> TimerOnly(acts[i])
    ensures Orphan(Exec(w, acts), id)
  {
    hide Tosses, Step, Orphan;
    var before := acts[..|acts| - 1];
    if n == |before| {
      TossOrphans(Exec(w, before), acts[n], id);
    } else {
      assert before[..n] == acts[..n];
      TossedForGood(w, before, id, n);
      OrphanStep(Exec(w, before), acts[|before|], id);
    }
  }

  /** While only timers run, the deadline is met if and only if no StopCCN of the
      tunnel was tossed. */
  lemma DeadlineExactly(w: World, acts: seq<Action>, id: TunnelId, e: Event)
    requires WellTimed(w) && e in w.events && e.XmitEvent? && e.buf.tunnel == id
    requires e.buf.sentAt != [] && id in w.tunnels && w.tunnels[id].cLr <= e.buf.ns
    requires forall i :: 0 <= i < |acts| ==> TimerOnly(acts[i])
    requires Exec(w, acts).now > e.buf.sentAt[0] + 2 * Backoff(w.maxRetries)
    ensures id !in Exec(w, acts).tunnels <==>
              (forall n :: 0 <= n < |acts| ==> !Tosses(Exec(w, acts[..n]), acts[n], id))
  {
    hide Tosses, WellTimed, Exec;
    if n :| 0 <= n < |acts| && Tosses(Exec(w, acts[..n]), acts[n], id) {
      TossedForGood(w, acts, id, n);
    } else {
      SilentPeerDeadline(w, acts, id, e);
    }
  }

  /** A world in which the deadline is missed: the number 65535 has been sent and is
      waiting, so the StopCCN would be number 0, and the tunnel is to be closed. */
  lemma WrapExample(until: nat) returns (w: World, acts: seq<Action>)
    ensures WellTimed(w) && acts == [ClosePass(1), Tick(until)]
    ensures w.events == [XmitEvent(1, Buffer(0, 1, 65535, Ordinary, [0]))]
    ensures w.tunnels == map[1 := Tunnel(0, 65535, true, false, [])]
    ensures 1 in Exec(w, acts).tunnels && Exec(w, acts).now == until
  {
    var b := Buffer(0, 1, 65535, Ordinary, [0]);
    w := World(0, 1, [XmitEvent(1, b)], map[1 := Tunnel(0, 65535, true, false, [])], 1, []);
    acts := [ClosePass(1), Tick(until)];
    assert Backoff(1) == 1 && EventOk(XmitEvent(1, b), 0, 1);
    assert acts[..1] == [ClosePass(1)] && acts[..1][..0] == [];
    assert Exec(w, acts[..1]) == Step(Exec(w, []), ClosePass(1));
    assert Without(w.events, 1) == [] by { assert w.events[1..] == []; }
  }

  /** When the number of the StopCCN has wrapped below `cLr` the message is tossed
      unsent, and the tunnel then survives every later run of timers. */
  lemma {:induction false} WrappedTunnelStays(w: World, id: TunnelId, acts: seq<Action>)
    requires WellTimed(w) && id in w.tunnels && w.tunnels[id].needclose && !w.tunnels[id].closing
    requires w.tunnels[id].seqNum < w.tunnels[id].cLr
    requires forall i :: 0 <= i < |acts| ==> TimerOnly(acts[i])
    ensures Orphan(Exec(CloseTunnel(w, id), acts), id)
  {
    if acts == [] {
      WithoutKeeps(w.events, id);
    } else {
      WrappedTunnelStays(w, id, acts[..|acts| - 1]);
      OrphanStep(Exec(CloseTunnel(w, id), acts[..|acts| - 1]), acts[|acts| - 1], id);
    }
  }
}
