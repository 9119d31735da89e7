/** Two peers running the control channel over a network that may lose,
    duplicate, delay and reorder packets. A packet once sent stays available
    for delivery for ever, any number of times and in any order; a lost packet
    is one that is never delivered. */
module ControlChannel {
  import opened ControlTunnel

  /** A control buffer waiting on its retransmission timer. */
  datatype Buffer = Buffer(packet: Packet, retries: nat)

  /** One end. `sent`, `accepted` and `acked` record the run: message bodies
      numbered so far, message bodies handed to the AVP code so far, and
      buffers dropped because the peer's Nr covered them. */
  datatype Peer = Peer(
    t: Channel, cnu: bool, pending: seq<Buffer>,
    sent: seq<seq<int>>, accepted: seq<seq<int>>, acked: seq<Buffer>)

  datatype System = System(a: Peer, b: Peer, aToB: set<Packet>, bToA: set<Packet>)

  function Swap(s: System): System { System(s.b, s.a, s.bToA, s.aToB) }

  ghost predicate InitPeer(p: Peer) {
    && p.t.seqNum == 0 && p.t.recSeqNum == 0 && p.t.cLr == 0 && p.t.sanity
    && p.pending == [] && p.sent == [] && p.accepted == [] && p.acked == [] && !p.cnu
  }

  ghost predicate Init(s: System) {
    InitPeer(s.a) && InitPeer(s.b) && s.aToB == {} && s.bToA == {}
  }

  /** Pending buffer `i` comes up for (re)transmission. */
  function FireTimer(p: Peer, i: nat, maxRetries: nat): (Peer, set<Packet>)
    requires i < |p.pending|
  {
    var b := p.pending[i].(retries := p.pending[i].retries + 1);
    var rest := p.pending[..i] + p.pending[i + 1..];
    match Xmit(b.packet.ns, p.t.cLr, b.retries, maxRetries)
    case Toss => (p.(pending := rest, acked := p.acked + [b]), {})
    case GiveUp => (p.(pending := rest), {})
    case Transmit(_) => (p.(pending := p.pending[i := b]), {b.packet})
  }

  function Enqueue(p: Peer, body: seq<int>): Peer {
    p.(t := p.t.(seqNum := Inc(p.t.seqNum)), sent := p.sent + [body],
       pending := p.pending + [Buffer(Header(p.t, body), 0)])
  }

  /** `new_outgoing`, `add_control_hdr`, then the first `control_xmit`. */
  function SendMessage(p: Peer, body: seq<int>, maxRetries: nat): (Peer, set<Packet>) {
    FireTimer(Enqueue(p, body), |p.pending|, maxRetries)
  }

  function Receive(p: Peer, c: CallFlags, pkt: Packet): (Peer, set<Packet>) {
    var k := HandleControl(p.t, c, pkt);
    var q := p.(t := k.t, cnu := p.cnu || k.c.cnu,
                accepted := if k.ok && !pkt.IsZlb() then p.accepted + [pkt.body] else p.accepted);
    (q, set z | z in k.zlb)
  }

  /** Everything one end can do: number and send a message, retransmit, take
      in a packet for one of its calls, acknowledge with a ZLB (the last step of
      the network loop), learn the peer's tunnel id or find the ZLB unnecessary
      after a reply, and drop a buffer from the timer queue when closing. */
  datatype Action =
    | Send(body: seq<int>, maxRetries: nat)
    | Timer(index: nat, maxRetries: nat)
    | Deliver(call: CallFlags, packet: Packet)
    | Acknowledge
    | Answered(tid: int)
    | Abandon(index: nat)

  predicate Enabled(s: System, act: Action) {
    match act
    case Send(body, _) => IsMessage(body)
    case Timer(i, _) => i < |s.a.pending|
    case Deliver(_, pkt) => pkt in s.bToA
    case Acknowledge => s.a.cnu
    case Answered(_) => true
    case Abandon(i) => i < |s.a.pending|
  }

  /** End `a` acts; an action that is not possible changes nothing. */
  function StepA(s: System, act: Action): System {
    if !Enabled(s, act) then s else
    var r := match act
      case Send(body, m) => SendMessage(s.a, body, m)
      case Timer(i, m) => FireTimer(s.a, i, m)
      case Deliver(c, pkt) => Receive(s.a, c, pkt)
      case Acknowledge => (s.a.(cnu := false), {Header(s.a.t, [])})
      case Answered(tid) => (s.a.(cnu := false, t := s.a.t.(tid := tid)), {})
      case Abandon(i) => (s.a.(pending := s.a.pending[..i] + s.a.pending[i + 1..]), {});
    System(r.0, s.b, s.aToB + r.1, s.bToA)
  }

  datatype Move = ByA(act: Action) | ByB(act: Action)

  function Step(s: System, m: Move): System {
    match m
    case ByA(act) => StepA(s, act)
    case ByB(act) => Swap(StepA(Swap(s), act))
  }

  /** The state after a run, that is, after any interleaving of moves. */
  function Exec(s: System, moves: seq<Move>): System {
    if moves == [] then s else Step(Exec(s, moves[..|moves| - 1]), moves[|moves| - 1])
  }

  /** Fewer than 65536 numbered messages in either direction. */
  predicate Bounded(s: System) { |s.a.sent| < 65536 && |s.b.sent| < 65536 }

  // ---------------------------------------------------------------- invariant

  /** Packets on the wire and in buffers say only what is true of their sender. */
  ghost predicate Genuine(x: Peer, p: Packet) {
    && VersionOk(p.version) && p.length == HDR_LEN + |p.body| && p.nr <= |x.accepted|
    && p.ns <= |x.sent|
    && (!p.IsZlb() ==> p.ns < |x.sent| && x.sent[p.ns] == p.body)
  }

  /** What holds of the direction from `x` to `y`. */
  ghost predicate Direction(x: Peer, y: Peer, wire: set<Packet>) {
    && x.t.seqNum == |x.sent| && y.t.recSeqNum == |y.accepted| && x.t.cLr <= |y.accepted|
    && y.accepted <= x.sent
    && (forall p :: p in wire ==> Genuine(x, p))
    && (forall i :: 0 <= i < |x.pending| ==>
          Genuine(x, x.pending[i].packet) && !x.pending[i].packet.IsZlb())
    && (forall i :: 0 <= i < |x.acked| ==> Delivered(x.acked[i], y))
  }

  ghost predicate Delivered(b: Buffer, y: Peer) {
    b.packet.ns < |y.accepted| && y.accepted[b.packet.ns] == b.packet.body
  }

  ghost predicate Inv(s: System) {
    && Bounded(s) && s.a.t.sanity && s.b.t.sanity
    && Direction(s.a, s.b, s.aToB) && Direction(s.b, s.a, s.bToA)
  }

  /** Growth of an end keeps everything it ever sent genuine. */
  lemma GenuineGrows(x: Peer, x': Peer, p: Packet)
    requires Genuine(x, p) && x.sent <= x'.sent && x.accepted <= x'.accepted
    ensures Genuine(x', p)
  {
  }

  lemma TimerKeeps(x: Peer, y: Peer, wire: set<Packet>, i: nat, m: nat)
    requires Direction(x, y, wire) && i < |x.pending|
    ensures var r := FireTimer(x, i, m);
            Direction(r.0, y, wire + r.1) && r.0.sent == x.sent && r.0.accepted == x.accepted
              && r.0.t == x.t
  {
    var r := FireTimer(x, i, m);
    var b := x.pending[i];
    assert Genuine(x, b.packet) && !b.packet.IsZlb();
    forall p | p in wire + r.1 ensures Genuine(r.0, p) {
      assert p in wire || p == b.packet;
      GenuineGrows(x, r.0, p);
    }
    forall j | 0 <= j < |r.0.pending|
      ensures Genuine(r.0, r.0.pending[j].packet) && !r.0.pending[j].packet.IsZlb()
    {
      var k := if |r.0.pending| == |x.pending| || j < i then j else j + 1;
      assert r.0.pending[j].packet == x.pending[k].packet;
      GenuineGrows(x, r.0, x.pending[k].packet);
    }
    assert b.packet.ns < x.t.cLr ==> Delivered(b, y);
  }

  lemma EnqueueKeeps(x: Peer, y: Peer, wire: set<Packet>, body: seq<int>)
    requires Direction(x, y, wire) && IsMessage(body) && |x.sent| + 1 < 65536
    requires x.t.recSeqNum == |x.accepted|
    ensures Direction(Enqueue(x, body), y, wire)
  {
    var q := Enqueue(x, body);
    forall p | p in wire ensures Genuine(q, p) { GenuineGrows(x, q, p); }
    forall j | 0 <= j < |q.pending| ensures Genuine(q, q.pending[j].packet) && !q.pending[j].packet.IsZlb() {
      if j < |x.pending| {
        GenuineGrows(x, q, x.pending[j].packet);
      }
    }
  }

  /** One received packet keeps both directions. */
  lemma ReceiveKeeps(x: Peer, y: Peer, out: set<Packet>, inc: set<Packet>, c: CallFlags, pkt: Packet)
    requires Direction(x, y, out) && Direction(y, x, inc) && pkt in inc
    requires |x.sent| < 65536 && |y.sent| < 65536 && x.t.sanity
    ensures var r := Receive(x, c, pkt);
            Direction(r.0, y, out + r.1) && Direction(y, r.0, inc)
              && r.0.sent == x.sent && x.accepted <= r.0.accepted
  {
    var r := Receive(x, c, pkt);
    var x' := r.0;
    assert Genuine(y, pkt);
    assert |x.accepted| <= |y.sent|;
    forall p | p in out + r.1 ensures Genuine(x', p) {
      if p in out {
        GenuineGrows(x, x', p);
      }
    }
    forall j | 0 <= j < |x'.pending|
      ensures Genuine(x', x'.pending[j].packet) && !x'.pending[j].packet.IsZlb()
    {
      GenuineGrows(x, x', x.pending[j].packet);
    }
    forall j | 0 <= j < |y.acked| ensures Delivered(y.acked[j], x') {
      assert Delivered(y.acked[j], x);
    }
  }

  /** Actions that touch neither the counters nor the histories. */
  lemma QuietKeeps(x: Peer, x': Peer, y: Peer, wire: set<Packet>, more: set<Packet>)
    requires Direction(x, y, wire)
    requires x' == x.(t := x'.t, cnu := x'.cnu, pending := x'.pending) && x'.t == x.t.(tid := x'.t.tid)
    requires forall b :: b in x'.pending ==> b in x.pending
    requires forall p :: p in more ==> Genuine(x, p)
    ensures Direction(x', y, wire + more)
  {
    forall p | p in wire + more ensures Genuine(x', p) { GenuineGrows(x, x', p); }
    forall j | 0 <= j < |x'.pending|
      ensures Genuine(x', x'.pending[j].packet) && !x'.pending[j].packet.IsZlb()
    {
      assert x'.pending[j] in x.pending;
      GenuineGrows(x, x', x'.pending[j].packet);
    }
  }

  lemma StepAKeeps(s: System, act: Action)
    requires Inv(s) && Bounded(StepA(s, act))
    ensures Inv(StepA(s, act))
  {
    if Enabled(s, act) {
      match act
      case Send(body, m) =>
        EnqueueKeeps(s.a, s.b, s.aToB, body);
        TimerKeeps(Enqueue(s.a, body), s.b, s.aToB, |s.a.pending|, m);
      case Timer(i, m) => TimerKeeps(s.a, s.b, s.aToB, i, m);
      case Deliver(c, pkt) => ReceiveKeeps(s.a, s.b, s.aToB, s.bToA, c, pkt);
      case Acknowledge => QuietKeeps(s.a, s.a.(cnu := false), s.b, s.aToB, {Header(s.a.t, [])});
      case Answered(tid) =>
        QuietKeeps(s.a, s.a.(cnu := false, t := s.a.t.(tid := tid)), s.b, s.aToB, {});
      case Abandon(i) =>
        QuietKeeps(s.a, s.a.(pending := s.a.pending[..i] + s.a.pending[i + 1..]), s.b, s.aToB, {});
    }
  }

  lemma StepKeeps(s: System, m: Move)
    requires Inv(s) && Bounded(Step(s, m))
    ensures Inv(Step(s, m))
  {
    match m
    case ByA(act) => StepAKeeps(s, act);
    case ByB(act) => StepAKeeps(Swap(s), act);
  }

  /** A step never forgets a numbered message, so a bounded end state bounds the whole run. */
  lemma StepGrows(s: System, m: Move)
    ensures Bounded(Step(s, m)) ==> Bounded(s)
  {
  }

  lemma {:induction false} RunKeeps(s: System, moves: seq<Move>)
    requires Init(s) && Bounded(Exec(s, moves))
    ensures Inv(Exec(s, moves))
  {
    if moves != [] {
      var before := Exec(s, moves[..|moves| - 1]);
      StepGrows(before, moves[|moves| - 1]);
      RunKeeps(s, moves[..|moves| - 1]);
      StepKeeps(before, moves[|moves| - 1]);
    }
  }

  // ------------------------------------------------------------- main results

  /** In every run with fewer than 65536 numbered messages each way, each end
      has accepted a prefix of what the other numbered (so in order, without
      gaps, once each), and every buffer an end dropped as acknowledged is a
      message the other end really accepted. */
  lemma ChannelSafety(s: System, moves: seq<Move>)
    requires Init(s) && Bounded(Exec(s, moves))
    ensures var r := Exec(s, moves);
            && r.b.accepted <= r.a.sent && r.a.accepted <= r.b.sent
            && (forall i :: 0 <= i < |r.a.acked| ==> Delivered(r.a.acked[i], r.b))
            && (forall i :: 0 <= i < |r.b.acked| ==> Delivered(r.b.acked[i], r.a))
  {
    RunKeeps(s, moves);
  }

  ghost predicate DroppedAsAcked(x: Peer, k: nat) {
    exists i :: 0 <= i < |x.acked| && x.acked[i].packet.ns == k
  }

  /** When every number has been dropped as acknowledged, everything was delivered. */
  lemma AllAckedMeansAllDelivered(s: System, moves: seq<Move>)
    requires Init(s) && Bounded(Exec(s, moves))
    requires var a := Exec(s, moves).a; forall k :: 0 <= k < |a.sent| ==> DroppedAsAcked(a, k)
    ensures Exec(s, moves).b.accepted == Exec(s, moves).a.sent
  {
    ChannelSafety(s, moves);
    var a, b := Exec(s, moves).a, Exec(s, moves).b;
    if |a.sent| > 0 {
      assert DroppedAsAcked(a, |a.sent| - 1);
      var i :| 0 <= i < |a.acked| && a.acked[i].packet.ns == |a.sent| - 1;
      assert Delivered(a.acked[i], b);
    }
  }

  /** A ZLB that arrives in any reachable state moves neither counter and adds
      nothing to what was accepted. */
  lemma ZlbsNeverCount(s: System, moves: seq<Move>, c: CallFlags, p: Packet)
    requires Init(s) && Bounded(Exec(s, moves)) && p in Exec(s, moves).bToA && p.IsZlb()
    ensures var a := Exec(s, moves).a; var q := Receive(a, c, p).0;
            q.t.seqNum == a.t.seqNum && q.t.recSeqNum == a.t.recSeqNum
              && q.accepted == a.accepted && q.sent == a.sent
  {
    RunKeeps(s, moves);
    assert Genuine(Exec(s, moves).b, p);
  }

  // ------------------------------------------------------- the bound is sharp

  const PAYLOAD: seq<int> := [0]
  const IDLE := CallFlags(false, false, false, 0)
  const START := Peer(Channel(0, 0, 0, 0, true), false, [], [], [], [])

  function Numbered(k: nat): Packet { Packet(OUR_VERSION, HDR_LEN + 1, k % 65536, 0, PAYLOAD) }
  function Acknowledging(k: nat): Packet { Packet(OUR_VERSION, HDR_LEN, 0, k % 65536, []) }
  function Copies(k: nat): seq<seq<int>> { seq(k, i => PAYLOAD) }

  /** `a` has sent `k` messages one at a time, each accepted, acknowledged by a
      ZLB and dropped from the timer queue. */
  ghost predicate Rounds(s: System, k: nat) {
    && s.a.t == Channel(k % 65536, 0, k % 65536, 0, true) && s.a.pending == []
    && s.b.t == Channel(0, k % 65536, 0, 0, true) && s.b.pending == []
    && s.a.sent == Copies(k) && s.b.accepted == Copies(k)
    && (k > 0 ==> Numbered(0) in s.aToB)
  }

  lemma {:induction false} ExecSnoc(s: System, moves: seq<Move>, m: Move)
    ensures Exec(s, moves + [m]) == Step(Exec(s, moves), m)
  {
    assert (moves + [m])[..|moves|] == moves;
  }

  /** `a` numbers a message and `b` accepts it. */
  lemma SendAndAccept(s: System, k: nat)
    requires Rounds(s, k) && k < 65536
    ensures var r := Step(Step(s, ByA(Send(PAYLOAD, 5))), ByB(Deliver(IDLE, Numbered(k))));
            && r.a == s.a.(t := s.a.t.(seqNum := (k + 1) % 65536), sent := Copies(k + 1),
                           pending := [Buffer(Numbered(k), 1)])
            && r.b == s.b.(t := s.b.t.(recSeqNum := (k + 1) % 65536), accepted := Copies(k + 1),
                           cnu := true)
            && r.aToB == s.aToB + {Numbered(k)} && r.bToA == s.bToA
  {
    assert Copies(k) + [PAYLOAD] == Copies(k + 1);
    assert Header(s.a.t, PAYLOAD) == Numbered(k);
    var r1 := Step(s, ByA(Send(PAYLOAD, 5)));
    assert r1.a.pending == [Buffer(Numbered(k), 1)];
    assert Numbered(k) in r1.aToB;
  }

  /** `b` acknowledges with a ZLB, `a` takes it in and its timer drops the buffer. */
  lemma AckAndToss(s: System, k: nat)
    requires s.a.t == Channel((k + 1) % 65536, 0, k % 65536, 0, true) && k < 65535
    requires s.a.pending == [Buffer(Numbered(k), 1)] && s.a.sent == Copies(k + 1)
    requires s.b.t == Channel(0, (k + 1) % 65536, 0, 0, true) && s.b.pending == [] && s.b.cnu
    requires s.b.accepted == Copies(k + 1) && Numbered(0) in s.aToB
    ensures Rounds(Step(Step(Step(s, ByB(Acknowledge)), ByA(Deliver(IDLE, Acknowledging(k + 1)))),
                        ByA(Timer(0, 5))), k + 1)
  {
    assert Header(s.b.t, []) == Acknowledging(k + 1);
    var s1 := Step(s, ByB(Acknowledge));
    assert Acknowledging(k + 1) in s1.bToA;
    var s2 := Step(s1, ByA(Deliver(IDLE, Acknowledging(k + 1))));
    assert s2.a.t.cLr == k + 1 && s2.a.pending == s.a.pending;
    assert s2.a.pending[..0] + s2.a.pending[1..] == [];
  }

  lemma {:induction false} ManyRounds(k: nat) returns (moves: seq<Move>)
    requires k <= 65535
    ensures Rounds(Exec(System(START, START, {}, {}), moves), k)
  {
    var s := System(START, START, {}, {});
    if k == 0 {
      moves := [];
      assert Copies(0) == [];
    } else {
      moves := ManyRounds(k - 1);
      SendAndAccept(Exec(s, moves), k - 1);
      moves := Then(s, moves, ByA(Send(PAYLOAD, 5)));
      moves := Then(s, moves, ByB(Deliver(IDLE, Numbered(k - 1))));
      AckAndToss(Exec(s, moves), k - 1);
      moves := Then(s, moves, ByB(Acknowledge));
      moves := Then(s, moves, ByA(Deliver(IDLE, Acknowledging(k))));
      moves := Then(s, moves, ByA(Timer(0, 5)));
    }
  }

  lemma Then(s: System, moves: seq<Move>, m: Move) returns (r: seq<Move>)
    ensures Exec(s, r) == Step(Exec(s, moves), m)
  {
    ExecSnoc(s, moves, m);
    r := moves + [m];
  }

  /** With 65536 numbered messages the guarantee is lost: in some run the
      receiver accepts the very first message a second time. So 65536 is the
      exact bound for `ChannelSafety`. */
  lemma BoundIsSharp() returns (s: System, moves: seq<Move>)
    ensures Init(s)
    ensures var r := Exec(s, moves);
            |r.a.sent| == 65536 && |r.b.accepted| == 65537
              && !(r.b.accepted <= r.a.sent)
  {
    s := System(START, START, {}, {});
    moves := ManyRounds(65535);
    SendAndAccept(Exec(s, moves), 65535);
    moves := Then(s, moves, ByA(Send(PAYLOAD, 5)));
    moves := Then(s, moves, ByB(Deliver(IDLE, Numbered(65535))));
    moves := Then(s, moves, ByB(Deliver(IDLE, Numbered(0))));
  }
}
