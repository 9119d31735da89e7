/** The tunnel part of the control state machine (section 7.2.1 of RFC 2661),
    run by an initiator `a` and a responder `b` over the control channel of
    `ControlChannel`. Every Message Type AVP carries the M bit, so a message
    that does not fit the tunnel's state is refused before it is acted on. */
module TunnelSetup {
  import opened Octets
  import opened ControlTunnel
  import Chan = ControlChannel

  const IDLE: nat := 0
  const SCCRQ: nat := 1
  const SCCRP: nat := 2
  const SCCCN: nat := 3

  /** What the handshake reads of a message: its type and assigned tunnel id. */
  datatype Msg = StartRequest(tid: u16) | StartReply(tid: u16) | StartConnected | Stop(tid: u16) | Other

  function Body(m: Msg): seq<int> {
    match m
    case StartRequest(tid) => [1, tid]
    case StartReply(tid) => [2, tid]
    case StartConnected => [3]
    case Stop(tid) => [4, tid]
    case Other => [6]
  }

  function Parse(body: seq<int>): (m: Msg) {
    if body == [] then Other
    else if body == [3] then StartConnected
    else if |body| == 2 && 0 <= body[1] < 65536 then
      if body[0] == 1 then StartRequest(body[1])
      else if body[0] == 2 then StartReply(body[1])
      else if body[0] == 4 then Stop(body[1])
      else Other
    else Other
  }

  datatype End = End(state: nat, ourtid: u16, tid: int, qtid: int, needclose: bool, closing: bool)

  /** What the environment decides while a message is handled: `deny` is a refusal
      that asks for the tunnel to be closed (authorization, framing, host name, a
      challenge answered wrongly); `twice` says that another tunnel of this peer
      already uses the same tunnel id; `late` is a failure to set up our own
      challenge, met only after the state has moved on; `oddPeer` that the peer is
      the one known to put the receiver's tunnel id into its StopCCN; `noResult`
      that a StopCCN came without a valid result code. */
  datatype Verdict = Verdict(deny: bool, twice: bool, late: bool, oddPeer: bool, noResult: bool)

  /** `message_type_avp`: is the message appropriate in this state? */
  predicate Fits(e: End, m: Msg) {
    match m
    case StartRequest(_) => e.state == IDLE || e.state == SCCRQ
    case StartReply(_) => e.state == SCCRQ
    case StartConnected => e.state == SCCRP
    case Stop(_) => true
    case Other => true
  }

  /** `handle_avps` and `control_finish`: the new state and the messages sent. */
  function Handle(e: End, m: Msg, v: Verdict): (End, seq<Msg>) {
    if !Fits(e, m) then (e.(needclose := true), []) else
    match m
    case StartRequest(tid) =>
      var f := e.(tid := tid);
      if f.tid <= 0 || v.deny then (f.(needclose := true), [])
      else if v.twice then (f.(needclose := false, closing := true), [])
      else (f.(state := SCCRP), if v.late then [] else [StartReply(f.ourtid)])
    case StartReply(tid) =>
      var f := e.(tid := tid);
      if f.tid <= 0 || v.deny then (f.(needclose := true), [])
      else (f.(state := SCCCN), [StartConnected])
    case StartConnected =>
      if v.deny then (e.(needclose := true), []) else (e.(state := SCCCN), [])
    case Stop(tid) =>
      var f := e.(qtid := tid);
      var expected := if v.oddPeer then f.ourtid else f.tid;
      if f.qtid != expected && expected > 0 then (f, [])
      else
        var g := f.(tid := if f.tid == 0 then f.qtid else f.tid);
        if v.noResult then (g, []) else (g.(needclose := false, closing := true), [])
    case Other => (e, [])
  }

  /** The fields as the daemon keeps them. */
  class TunnelRecord {
    var state: nat
    const ourtid: u16
    var tid: int
    var qtid: int
    var needclose: bool
    var closing: bool

    constructor (ourtid: u16, initiator: bool)
      ensures View() == Created(ourtid, initiator)
    {
      this.ourtid := ourtid;
      state, tid, qtid := IDLE, if initiator then 0 else -1, -1;
      needclose, closing := false, false;
    }

    ghost function View(): End reads this { End(state, ourtid, tid, qtid, needclose, closing) }

    /** First the Message Type AVP, then the Assigned Tunnel Id AVP, then `control_finish`. */
    method Receive(m: Msg, v: Verdict) returns (replies: seq<Msg>)
      modifies this
      ensures (View(), replies) == Handle(old(View()), m, v)
    {
      replies := [];
      if (m.StartRequest? && state != IDLE && state != SCCRQ)
         || (m.StartReply? && state != SCCRQ) || (m.StartConnected? && state != SCCRP)
      {
        needclose := true;
        return;
      }
      match m {
        case StartRequest(t) => tid := t;
        case StartReply(t) => tid := t;
        case Stop(t) => qtid := t;
        case _ =>
      }
      match m {
        case StartRequest(_) =>
          if tid <= 0 || v.deny {
            needclose := true;
          } else if v.twice {
            needclose, closing := false, true;
          } else {
            state := SCCRP;
            if v.late {
              return;
            }
            replies := [StartReply(ourtid)];
          }
        case StartReply(_) =>
          if tid <= 0 || v.deny {
            needclose := true;
          } else {
            state := SCCCN;
            replies := [StartConnected];
          }
        case StartConnected =>
          if v.deny {
            needclose := true;
          } else {
            state := SCCCN;
          }
        case Stop(_) =>
          var expected := if v.oddPeer then ourtid else tid;
          if qtid != expected && expected > 0 {
            return;
          }
          if tid == 0 {
            tid := qtid;
          }
          if v.noResult {
            return;
          }
          needclose, closing := false, true;
        case Other =>
      }
    }
  }

  function Created(ourtid: u16, initiator: bool): End {
    End(IDLE, ourtid, if initiator then 0 else -1, -1, false, false)
  }

  // -------------------------------------------------------------- both ends

  datatype Pair = Pair(chan: Chan.System, a: End, b: End)

  function Swap(p: Pair): Pair { Pair(Chan.Swap(p.chan), p.b, p.a) }

  /** What end `a` can do: start the tunnel (only the initiator does), take in a
      packet, send a message that is not part of the handshake, or any step of
      the channel that neither numbers nor accepts a message. */
  datatype Action =
    | Start
    | Take(call: CallFlags, packet: Packet, verdict: Verdict)
    | SendStop
    | SendOther
    | Background(act: Chan.Action)

  function SendAll(s: Chan.System, ms: seq<Msg>): Chan.System
    decreases |ms|
  {
    if ms == [] then s
    else SendAll(Chan.StepA(s, Chan.Send(Body(ms[0]), 5)), ms[1..])
  }

  function StepA(p: Pair, act: Action): Pair {
    match act
    case Start =>
      if p.a.state != IDLE then p
      else p.(a := p.a.(state := SCCRQ), chan := SendAll(p.chan, [StartRequest(p.a.ourtid)]))
    case Take(c, pkt, v) =>
      var s := Chan.StepA(p.chan, Chan.Deliver(c, pkt));
      if |s.a.accepted| == |p.chan.a.accepted| then p.(chan := s)
      else
        var r := Handle(p.a, Parse(pkt.body), v);
        p.(a := r.0, chan := SendAll(s, r.1))
    case SendStop => p.(chan := SendAll(p.chan, [Stop(p.a.ourtid)]))
    case SendOther => p.(chan := SendAll(p.chan, [Other]))
    case Background(act) =>
      if act.Send? || act.Deliver? then p else p.(chan := Chan.StepA(p.chan, act))
  }

  datatype Move = ByInitiator(act: Action) | ByResponder(act: Action)

  function Step(p: Pair, m: Move): Pair {
    match m
    case ByInitiator(act) => StepA(p, act)
    case ByResponder(act) => if act.Start? then p else Swap(StepA(Swap(p), act))
  }

  function Exec(p: Pair, moves: seq<Move>): Pair {
    if moves == [] then p else Step(Exec(p, moves[..|moves| - 1]), moves[|moves| - 1])
  }

  ghost predicate Init(p: Pair) {
    Chan.Init(p.chan) && p.a == Created(p.a.ourtid, true) && p.b == Created(p.b.ourtid, false)
  }

  // -------------------------------------------------------------- invariant

  /** A message an initiator, or a responder, in this state may have sent. */
  predicate SentBy(e: End, initiator: bool, m: Msg) {
    match m
    case StartRequest(tid) => initiator && tid == e.ourtid
    case StartReply(tid) => !initiator && tid == e.ourtid
    case StartConnected => initiator && e.state == SCCCN
    case Stop(tid) => tid == e.ourtid
    case Other => true
  }

  ghost predicate Says(x: Chan.Peer, e: End, initiator: bool) {
    forall i :: 0 <= i < |x.sent| ==> SentBy(e, initiator, Parse(x.sent[i]))
  }

  ghost predicate Agreed(a: End, b: End) {
    && (a.state == IDLE || a.state == SCCRQ || a.state == SCCCN)
    && (b.state == IDLE || b.state == SCCRP || b.state == SCCCN)
    && (b.state == SCCCN ==> a.state == SCCCN)
    && (a.tid == 0 || a.tid == b.ourtid) && (b.tid == -1 || b.tid == 0 || b.tid == a.ourtid)
    && (a.state == SCCCN ==> a.tid == b.ourtid) && (b.state != IDLE ==> b.tid == a.ourtid)
  }

  ghost predicate Inv(p: Pair) {
    && Chan.Inv(p.chan) && Agreed(p.a, p.b)
    && Says(p.chan.a, p.a, true) && Says(p.chan.b, p.b, false)
  }

  lemma ParseBody(m: Msg)
    ensures Parse(Body(m)) == m && IsMessage(Body(m))
  {
  }

  /** Sending messages keeps the channel invariant and adds exactly those messages. */
  lemma {:induction false} SendAllKeeps(s: Chan.System, ms: seq<Msg>, e: End, initiator: bool)
    requires Chan.Inv(s) && Chan.Bounded(SendAll(s, ms)) && Says(s.a, e, initiator)
    requires forall i :: 0 <= i < |ms| ==> SentBy(e, initiator, ms[i])
    ensures Chan.Inv(SendAll(s, ms)) && Says(SendAll(s, ms).a, e, initiator)
    ensures SendAll(s, ms).b == s.b
    decreases |ms|
  {
    if ms != [] {
      ParseBody(ms[0]);
      var s1 := Chan.StepA(s, Chan.Send(Body(ms[0]), 5));
      SendAllGrows(s1, ms[1..]);
      assert s1.a.sent == s.a.sent + [Body(ms[0])];
      Chan.StepAKeeps(s, Chan.Send(Body(ms[0]), 5));
      SendAllKeeps(s1, ms[1..], e, initiator);
    }
  }

  lemma {:induction false} SendAllGrows(s: Chan.System, ms: seq<Msg>)
    ensures Chan.Bounded(SendAll(s, ms)) ==> Chan.Bounded(s)
    decreases |ms|
  {
    if ms != [] {
      var s1 := Chan.StepA(s, Chan.Send(Body(ms[0]), 5));
      SendAllGrows(s1, ms[1..]);
      Chan.StepGrows(s, Chan.ByA(Chan.Send(Body(ms[0]), 5)));
    }
  }

  /** The end that acts, whichever it is, keeps its half of the invariant. */
  lemma StepAKeeps(p: Pair, act: Action, initiator: bool)
    requires Chan.Inv(p.chan) && Says(p.chan.a, p.a, initiator) && Says(p.chan.b, p.b, !initiator)
    requires if initiator then Agreed(p.a, p.b) else Agreed(p.b, p.a)
    requires act.Start? ==> initiator
    requires Chan.Bounded(StepA(p, act).chan)
    ensures var q := StepA(p, act);
            && Chan.Inv(q.chan) && q.b == p.b && q.chan.b.sent == p.chan.b.sent
            && Says(q.chan.a, q.a, initiator) && Says(q.chan.b, q.b, !initiator)
            && if initiator then Agreed(q.a, q.b) else Agreed(q.b, q.a)
  {
    hide Chan.Inv, SendAll, Parse;
    match act
    case Start =>
      if p.a.state == IDLE {
        SendAllKeeps(p.chan, [StartRequest(p.a.ourtid)], p.a.(state := SCCRQ), initiator);
      }
    case Take(c, pkt, v) => TakeKeeps(p, c, pkt, v, initiator);
    case SendStop => SendAllKeeps(p.chan, [Stop(p.a.ourtid)], p.a, initiator);
    case SendOther => SendAllKeeps(p.chan, [Other], p.a, initiator);
    case Background(act) =>
      if !(act.Send? || act.Deliver?) {
        Chan.StepAKeeps(p.chan, act);
      }
  }

  /** Acting on a message that the other end may have sent keeps the two ends agreed,
      and takes back nothing that was said. */
  lemma HandleAgrees(a: End, b: End, m: Msg, v: Verdict, initiator: bool)
    requires SentBy(b, !initiator, m) && if initiator then Agreed(a, b) else Agreed(b, a)
    ensures var r := Handle(a, m, v);
            && (if initiator then Agreed(r.0, b) else Agreed(b, r.0))
            && (forall i :: 0 <= i < |r.1| ==> SentBy(r.0, initiator, r.1[i]))
            && forall said :: SentBy(a, initiator, said) ==> SentBy(r.0, initiator, said)
  {
  }

  lemma TakeKeeps(p: Pair, c: CallFlags, pkt: Packet, v: Verdict, initiator: bool)
    requires Chan.Inv(p.chan) && Says(p.chan.a, p.a, initiator) && Says(p.chan.b, p.b, !initiator)
    requires if initiator then Agreed(p.a, p.b) else Agreed(p.b, p.a)
    requires Chan.Bounded(StepA(p, Take(c, pkt, v)).chan)
    ensures var q := StepA(p, Take(c, pkt, v));
            && Chan.Inv(q.chan) && q.b == p.b && q.chan.b.sent == p.chan.b.sent
            && Says(q.chan.a, q.a, initiator) && Says(q.chan.b, q.b, !initiator)
            && if initiator then Agreed(q.a, q.b) else Agreed(q.b, q.a)
  {
    var s := Chan.StepA(p.chan, Chan.Deliver(c, pkt));
    if |s.a.accepted| == |p.chan.a.accepted| {
      Chan.StepAKeeps(p.chan, Chan.Deliver(c, pkt));
    } else {
      var m := Parse(pkt.body);
      var r := Handle(p.a, m, v);
      SendAllGrows(s, r.1);
      Chan.StepAKeeps(p.chan, Chan.Deliver(c, pkt));
      assert Chan.Genuine(p.chan.b, pkt);
      assert p.chan.b.sent[pkt.ns] == pkt.body;
      assert SentBy(p.b, !initiator, m);
      assert s.a.sent == p.chan.a.sent;
      HandleAgrees(p.a, p.b, m, v, initiator);
      hide Handle, SentBy, Agreed, SendAll, Chan.Inv, Chan.Bounded, Parse;
      SendAllKeeps(s, r.1, r.0, initiator);
    }
  }

  lemma {:induction false} RunKeeps(p: Pair, moves: seq<Move>)
    requires Init(p) && Chan.Bounded(Exec(p, moves).chan)
    ensures Inv(Exec(p, moves))
  {
    if moves == [] {
      Chan.RunKeeps(p.chan, []);
    } else {
      var before, m := Exec(p, moves[..|moves| - 1]), moves[|moves| - 1];
      StepGrows(before, m);
      RunKeeps(p, moves[..|moves| - 1]);
      match m
      case ByInitiator(act) => StepAKeeps(before, act, true);
      case ByResponder(act) => if !act.Start? { StepAKeeps(Swap(before), act, false); }
    }
  }

  lemma StepGrows(p: Pair, m: Move)
    ensures Chan.Bounded(Step(p, m).chan) ==> Chan.Bounded(p.chan)
  {
    match m
    case ByInitiator(act) => StepAGrows(p, act);
    case ByResponder(act) => StepAGrows(Swap(p), act);
  }

  lemma StepAGrows(p: Pair, act: Action)
    ensures Chan.Bounded(StepA(p, act).chan) ==> Chan.Bounded(p.chan)
  {
    match act
    case Start => SendAllGrows(p.chan, [StartRequest(p.a.ourtid)]);
    case Take(c, pkt, v) =>
      SendAllGrows(Chan.StepA(p.chan, Chan.Deliver(c, pkt)), Handle(p.a, Parse(pkt.body), v).1);
      Chan.StepGrows(p.chan, Chan.ByA(Chan.Deliver(c, pkt)));
    case SendStop => SendAllGrows(p.chan, [Stop(p.a.ourtid)]);
    case SendOther => SendAllGrows(p.chan, [Other]);
    case Background(act) => Chan.StepGrows(p.chan, Chan.ByA(act));
  }

  // ------------------------------------------------------------ main results

  /** In every run over the lossy network: a connected responder has a connected
      initiator, and two connected ends know each other's tunnel id. */
  lemma HandshakeAgreement(p: Pair, moves: seq<Move>)
    requires Init(p) && Chan.Bounded(Exec(p, moves).chan)
    ensures var q := Exec(p, moves);
            && (q.b.state == SCCCN ==> q.a.state == SCCCN)
            && (q.a.state == SCCCN && q.b.state == SCCCN ==>
                  q.a.tid == q.b.ourtid && q.b.tid == q.a.ourtid)
            && (q.a.state == SCCCN ==> q.a.tid == q.b.ourtid)
  {
    RunKeeps(p, moves);
  }

  ghost predicate InRange(p: Pair) { p.a.state <= SCCCN && p.b.state <= SCCCN }

  lemma StepGoesForward(p: Pair, m: Move)
    requires InRange(p)
    ensures InRange(Step(p, m))
    ensures p.a.state <= Step(p, m).a.state && p.b.state <= Step(p, m).b.state
  {
    hide Chan.StepA, SendAll, Parse;
  }

  /** Over a whole run no tunnel state is ever taken back. */
  lemma {:induction false} StatesNeverGoBack(p: Pair, moves: seq<Move>, n: nat)
    requires InRange(p) && n <= |moves|
    ensures InRange(Exec(p, moves))
    ensures Exec(p, moves[..n]).a.state <= Exec(p, moves).a.state
    ensures Exec(p, moves[..n]).b.state <= Exec(p, moves).b.state
  {
    if n == |moves| {
      assert moves[..n] == moves;
      if n > 0 {
        StatesNeverGoBack(p, moves[..n - 1], 0);
        StepGoesForward(Exec(p, moves[..n - 1]), moves[n - 1]);
      }
    } else {
      var before := moves[..|moves| - 1];
      assert before[..n] == moves[..n];
      StatesNeverGoBack(p, before, n);
      StepGoesForward(Exec(p, before), moves[|moves| - 1]);
    }
  }

  lemma {:induction false} ExecSnoc(p: Pair, moves: seq<Move>, m: Move)
    ensures Exec(p, moves + [m]) == Step(Exec(p, moves), m)
  {
    assert (moves + [m])[..|moves|] == moves;
  }

  const FLAGS := CallFlags(false, false, false, 0)
  const YES := Verdict(false, false, false, false, false)

  function Request(idA: u16): Packet { Packet(OUR_VERSION, 14, 0, 0, [1, idA]) }
  function Reply(idB: u16): Packet { Packet(OUR_VERSION, 14, 0, 1, [2, idB]) }
  const CONNECTED := Packet(OUR_VERSION, 13, 1, 1, [3])

  /** Nobody asks for either tunnel to be closed. */
  ghost predicate Open(p: Pair) { !p.a.needclose && !p.a.closing && !p.b.needclose && !p.b.closing }

  ghost predicate Requested(p: Pair, idA: u16) {
    && Open(p)
    && p.a.state == SCCRQ && p.a.ourtid == idA && p.b.state == IDLE
    && p.chan.a.t == Channel(1, 0, 0, 0, true) && p.chan.b == Chan.START
    && Request(idA) in p.chan.aToB
  }

  ghost predicate Replied(p: Pair, idB: u16) {
    && Open(p)
    && p.a.state == SCCRQ && p.b.state == SCCRP
    && p.chan.a.t == Channel(1, 0, 0, 0, true) && p.chan.b.t == Channel(1, 1, 0, 0, true)
    && Reply(idB) in p.chan.bToA
  }

  ghost predicate HalfConnected(p: Pair) {
    && Open(p)
    && p.a.state == SCCCN && p.b.state == SCCRP
    && p.chan.b.t == Channel(1, 1, 0, 0, true) && CONNECTED in p.chan.aToB
  }

  /** A sole message leaves at once. */
  lemma SendOne(s: Chan.System, m: Msg)
    requires s.a.t.cLr <= s.a.t.seqNum
    ensures SendAll(s, [m]) == Chan.StepA(s, Chan.Send(Body(m), 5))
    ensures SendAll(s, [m]).a.t == s.a.t.(seqNum := Inc(s.a.t.seqNum))
    ensures Header(s.a.t, Body(m)) in SendAll(s, [m]).aToB
  {
    assert SendAll(s, [m]) == SendAll(Chan.StepA(s, Chan.Send(Body(m), 5)), []);
  }

  lemma DoRequest(p: Pair)
    requires p.chan == Chan.System(Chan.START, Chan.START, {}, {}) && p.a.state == p.b.state == IDLE && Open(p)
    ensures Requested(Step(p, ByInitiator(Start)), p.a.ourtid)
    ensures Step(p, ByInitiator(Start)).b == p.b
  {
    SendOne(p.chan, StartRequest(p.a.ourtid));
  }

  lemma DoReply(p: Pair, idA: u16)
    requires Requested(p, idA) && idA > 0
    ensures Replied(Step(p, ByResponder(Take(FLAGS, Request(idA), YES))), p.b.ourtid)
  {
    var s := Chan.StepA(Chan.Swap(p.chan), Chan.Deliver(FLAGS, Request(idA)));
    assert s.a.t == Channel(0, 1, 0, 0, true) && |s.a.accepted| == 1;
    ParseBody(StartRequest(idA));
    SendOne(s, StartReply(p.b.ourtid));
  }

  lemma DoConnect(p: Pair, idB: u16)
    requires Replied(p, idB) && idB > 0
    ensures HalfConnected(Step(p, ByInitiator(Take(FLAGS, Reply(idB), YES))))
  {
    var s := Chan.StepA(p.chan, Chan.Deliver(FLAGS, Reply(idB)));
    assert s.a.t == Channel(1, 1, 1, 0, true) && |s.a.accepted| == |p.chan.a.accepted| + 1;
    ParseBody(StartReply(idB));
    SendOne(s, StartConnected);
  }

  lemma DoFinish(p: Pair)
    requires HalfConnected(p)
    ensures var q := Step(p, ByResponder(Take(FLAGS, CONNECTED, YES)));
            q.a.state == SCCCN && q.b.state == SCCCN && Open(q)
  {
    var s := Chan.StepA(Chan.Swap(p.chan), Chan.Deliver(FLAGS, CONNECTED));
    assert |s.a.accepted| == |p.chan.b.accepted| + 1;
    ParseBody(StartConnected);
  }

  /** The agreement is not empty: for any two non-zero ids some run connects both ends, and
      neither is asked to close. */
  lemma HandshakeCanComplete(idA: u16, idB: u16) returns (p: Pair, moves: seq<Move>)
    requires idA > 0 && idB > 0
    ensures Init(p) && p.a.ourtid == idA && p.b.ourtid == idB
    ensures Exec(p, moves).a.state == SCCCN && Exec(p, moves).b.state == SCCCN && Open(Exec(p, moves))
  {
    p := Pair(Chan.System(Chan.START, Chan.START, {}, {}), Created(idA, true), Created(idB, false));
    DoRequest(p);
    moves := [ByInitiator(Start)];
    ExecSnoc(p, [], ByInitiator(Start));
    assert [] + [ByInitiator(Start)] == moves;
    DoReply(Exec(p, moves), idA);
    ExecSnoc(p, moves, ByResponder(Take(FLAGS, Request(idA), YES)));
    moves := moves + [ByResponder(Take(FLAGS, Request(idA), YES))];
    DoConnect(Exec(p, moves), idB);
    ExecSnoc(p, moves, ByInitiator(Take(FLAGS, Reply(idB), YES)));
    moves := moves + [ByInitiator(Take(FLAGS, Reply(idB), YES))];
    DoFinish(Exec(p, moves));
    ExecSnoc(p, moves, ByResponder(Take(FLAGS, CONNECTED, YES)));
    moves := moves + [ByResponder(Take(FLAGS, CONNECTED, YES))];
  }
}
