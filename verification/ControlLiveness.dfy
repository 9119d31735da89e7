/** What the channel does for a peer that missed an acknowledgement: an old message is
    answered, and the answer ends its retransmission. */
module ControlLiveness {
  import opened Octets
  import opened ControlTunnel
  import opened ControlChannel

  /** The acknowledgement of a channel with these counters. */
  function Zlb(seqNum: nat, recSeqNum: nat): Packet {
    Packet(Version(true, true, true, 2), 12, seqNum % 65536, recSeqNum % 65536, [])
  }

  // ------------------------------------------------------------- one packet

  /** A packet out of turn moves nothing; if it is a message whose number was passed
      fewer than 32768 numbers ago it is answered by one ZLB with the counters as they
      stand, and in every other case by nothing. */
  lemma OutOfTurnExactly(t: Channel, c: CallFlags, p: Packet)
    requires p.length == 12 + |p.body| && p.ns != t.recSeqNum
    ensures var r := HandleControl(t, c, p);
            && !r.ok && r.t == t
            && r.zlb == if p.body != [] && 0 < t.recSeqNum - p.ns < 32768 then [Zlb(t.seqNum, t.recSeqNum)] else []
  {
  }

  /** A packet out of turn leaves the call alone, unless it is the first one of a tunnel
      that was made for it: then the tunnel is to be closed at once. */
  lemma OutOfTurnFlags(t: Channel, c: CallFlags, p: Packet)
    requires p.length == 12 + |p.body| && p.ns != t.recSeqNum
    ensures var r := HandleControl(t, c, p);
            r.c == if t.recSeqNum == 0 && t.tid == -1 then c.(needclose := false, closing := true) else c
  {
  }

  /** A message in turn is counted, its acknowledgement taken, and a reply made due. */
  lemma InTurnCounts(t: Channel, c: CallFlags, p: Packet)
    requires p.length == 12 + |p.body| && p.ns == t.recSeqNum && p.body != []
    requires p.version == Version(true, true, true, 2) || !t.sanity
    ensures var r := HandleControl(t, c, p);
            && r.ok && r.zlb == [] && r.c == c.(cnu := true)
            && r.t == t.(recSeqNum := if p.ns == 65535 then 0 else p.ns + 1, cLr := p.nr)
  {
  }

  /** A ZLB in turn is not counted, calls for no reply, and ends a close that waits for it. */
  lemma ZlbIsTaken(t: Channel, c: CallFlags, p: Packet)
    requires p.length == 12 && p.ns == t.recSeqNum && p.body == []
    requires p.version == Version(true, true, true, 2) || !t.sanity
    ensures var r := HandleControl(t, c, p);
            && r.ok && r.zlb == [] && r.t == t.(cLr := p.nr) && !r.c.cnu && r.c.closing == c.closing
            && (r.c.needclose <==> c.needclose && !(c.closing && p.nr >= c.closeSs))
  {
  }

  /** A packet whose length word is wrong is ignored; one in turn with a bad version word is refused. */
  lemma BadPacketsRefused(t: Channel, c: CallFlags, p: Packet)
    ensures p.length != 12 + |p.body| ==> HandleControl(t, c, p) == Check(false, t, c, [])
    ensures t.sanity && p.version != Version(true, true, true, 2) ==> !HandleControl(t, c, p).ok
  {
  }

  /** A reply makes the ZLB unnecessary, and the peer's tunnel id may be learnt with it;
      nothing else changes. */
  lemma ReplyAcknowledges(s: System, tid: int)
    ensures Step(s, ByA(Answered(tid))) == s.(a := s.a.(cnu := false, t := s.a.t.(tid := tid)))
  {
  }

  // ------------------------------------------------------- buffers on the wire

  /** What waits for its acknowledgement has been sent. */
  ghost predicate OnWire(x: Peer, wire: set<Packet>) {
    forall i :: 0 <= i < |x.pending| ==> x.pending[i].packet in wire
  }

  lemma TimerOnWire(x: Peer, wire: set<Packet>, i: nat, m: nat)
    requires i < |x.pending| && forall j :: 0 <= j < |x.pending| && j != i ==> x.pending[j].packet in wire
    ensures var r := FireTimer(x, i, m); OnWire(r.0, wire + r.1)
  {
    var r := FireTimer(x, i, m);
    forall j | 0 <= j < |r.0.pending| ensures r.0.pending[j].packet in wire + r.1 {
      var k := if |r.0.pending| == |x.pending| || j < i then j else j + 1;
      assert r.0.pending[j].packet == x.pending[k].packet;
    }
  }

  lemma StepAOnWire(s: System, act: Action)
    requires OnWire(s.a, s.aToB)
    ensures OnWire(StepA(s, act).a, StepA(s, act).aToB)
  {
    if Enabled(s, act) {
      match act
      case Send(body, m) => TimerOnWire(Enqueue(s.a, body), s.aToB, |s.a.pending|, m);
      case Timer(i, m) => TimerOnWire(s.a, s.aToB, i, m);
      case Deliver(_, _) =>
      case Acknowledge =>
      case Answered(_) =>
      case Abandon(i) =>
        var w := StepA(s, act).a;
        forall j | 0 <= j < |w.pending| ensures w.pending[j].packet in s.aToB {
          assert w.pending[j] == s.a.pending[if j < i then j else j + 1];
        }
    }
  }

  lemma {:induction false} RunOnWire(s: System, moves: seq<Move>)
    requires Init(s)
    ensures OnWire(Exec(s, moves).a, Exec(s, moves).aToB) && OnWire(Exec(s, moves).b, Exec(s, moves).bToA)
  {
    hide StepA, OnWire;
    if moves == [] {
      EmptyOnWire(s);
    } else {
      var before := Exec(s, moves[..|moves| - 1]);
      RunOnWire(s, moves[..|moves| - 1]);
      match moves[|moves| - 1]
      case ByA(act) => StepAOnWire(before, act); OtherEnd(before, act);
      case ByB(act) => StepAOnWire(Swap(before), act); OtherEnd(Swap(before), act);
    }
  }

  lemma EmptyOnWire(s: System)
    requires Init(s)
    ensures OnWire(s.a, s.aToB) && OnWire(s.b, s.bToA)
  {
  }

  lemma OtherEnd(s: System, act: Action)
    ensures StepA(s, act).b == s.b && StepA(s, act).bToA == s.bToA
  {
  }

  // ------------------------------------------------------------- main results

  /** Delivering a message again that was accepted fewer than 32768 messages ago puts a
      ZLB with the current counts on the wire and changes no count; one from further
      back is not answered. */
  lemma AgainExactly(s: System, moves: seq<Move>, i: nat, c: CallFlags)
    requires Init(s) && Bounded(Exec(s, moves))
    requires i < |Exec(s, moves).a.pending| && Exec(s, moves).a.pending[i].packet.ns < |Exec(s, moves).b.accepted|
    ensures var r := Exec(s, moves); var p := r.a.pending[i].packet;
            var w := Step(r, ByB(Deliver(c, p)));
            && w.b == r.b.(cnu := r.b.cnu || c.cnu) && w.a == r.a && w.aToB == r.aToB
            && w.bToA == if |r.b.accepted| - p.ns < 32768 then r.bToA + {Zlb(|r.b.sent|, |r.b.accepted|)} else r.bToA
  {
    RunKeeps(s, moves);
    RunOnWire(s, moves);
    var r := Exec(s, moves);
    var p := r.a.pending[i].packet;
    assert Genuine(r.a, p) && !p.IsZlb() && p in r.aToB;
    OutOfTurnExactly(r.b.t, c, p);
    OutOfTurnFlags(r.b.t, c, p);
    assert (set z | z in [Zlb(|r.b.sent|, |r.b.accepted|)]) == {Zlb(|r.b.sent|, |r.b.accepted|)};
  }

  /** A peer that has taken in all that the other numbered takes in the other's ZLB, and
      a buffer it covers is then dropped as acknowledged when its timer runs. */
  lemma ZlbEndsRetransmission(s: System, moves: seq<Move>, i: nat, c: CallFlags, m: nat)
    requires Init(s) && Bounded(Exec(s, moves))
    requires var r := Exec(s, moves);
             && |r.a.accepted| == |r.b.sent| && Zlb(|r.b.sent|, |r.b.accepted|) in r.bToA
             && i < |r.a.pending| && r.a.pending[i].packet.ns < |r.b.accepted|
    ensures var r := Exec(s, moves); var b := r.a.pending[i];
            var w := Step(Step(r, ByA(Deliver(c, Zlb(|r.b.sent|, |r.b.accepted|)))), ByA(Timer(i, m)));
            && w.a.acked == r.a.acked + [b.(retries := b.retries + 1)]
            && w.a.pending == r.a.pending[..i] + r.a.pending[i + 1..]
            && w.a.accepted == r.a.accepted && w.a.sent == r.a.sent && w.b == r.b
  {
    hide Exec, Step, StepA, Inv, HandleControl;
    RunKeeps(s, moves);
    ZlbEnds(Exec(s, moves), i, c, m);
  }

  lemma ZlbEnds(r: System, i: nat, c: CallFlags, m: nat)
    requires Inv(r) && |r.a.accepted| == |r.b.sent| && Zlb(|r.b.sent|, |r.b.accepted|) in r.bToA
    requires i < |r.a.pending| && r.a.pending[i].packet.ns < |r.b.accepted|
    ensures var b := r.a.pending[i];
            var w := Step(Step(r, ByA(Deliver(c, Zlb(|r.b.sent|, |r.b.accepted|)))), ByA(Timer(i, m)));
            && w.a.acked == r.a.acked + [b.(retries := b.retries + 1)]
            && w.a.pending == r.a.pending[..i] + r.a.pending[i + 1..]
            && w.a.accepted == r.a.accepted && w.a.sent == r.a.sent && w.b == r.b
  {
    hide HandleControl, Genuine, Delivered;
    ZlbIsTaken(r.a.t, c, Zlb(|r.b.sent|, |r.b.accepted|));
    var w := Step(r, ByA(Deliver(c, Zlb(|r.b.sent|, |r.b.accepted|))));
    assert w.a.t.cLr == |r.b.accepted| && w.a.pending == r.a.pending && w.a.acked == r.a.acked;
  }

  /** A lost acknowledgement is made good: the message is delivered again, answered, and
      the answer ends its retransmission. */
  lemma LostAckIsMadeGood(s: System, moves: seq<Move>, i: nat, c: CallFlags, d: CallFlags, m: nat)
    requires Init(s) && Bounded(Exec(s, moves))
    requires var r := Exec(s, moves);
             && |r.a.accepted| == |r.b.sent| && i < |r.a.pending|
             && 0 < |r.b.accepted| - r.a.pending[i].packet.ns < 32768
    ensures var r := Exec(s, moves); var b := r.a.pending[i];
            var zlb := Zlb(|r.b.sent|, |r.b.accepted|);
            var again := Step(r, ByB(Deliver(c, b.packet)));
            var w := Step(Step(again, ByA(Deliver(d, zlb))), ByA(Timer(i, m)));
            && zlb in again.bToA && w.a.acked == r.a.acked + [b.(retries := b.retries + 1)]
            && w.a.pending == r.a.pending[..i] + r.a.pending[i + 1..] && w.b.accepted == r.b.accepted
  {
    hide Step;
    AgainExactly(s, moves, i, c);
    var r := Exec(s, moves);
    var on := moves + [ByB(Deliver(c, r.a.pending[i].packet))];
    ExecSnoc(s, moves, ByB(Deliver(c, r.a.pending[i].packet)));
    ZlbEndsRetransmission(s, on, i, d, m);
  }

  /** A message accepted in turn is acknowledged by the ZLB of the next pass of the loop,
      which ends its retransmission. */
  lemma AcceptedIsAcknowledged(s: System, moves: seq<Move>, i: nat, c: CallFlags, d: CallFlags, m: nat)
    requires Init(s) && Bounded(Exec(s, moves))
    requires var r := Exec(s, moves);
             && |r.a.accepted| == |r.b.sent| && i < |r.a.pending|
             && r.a.pending[i].packet.ns == |r.b.accepted|
    ensures var r := Exec(s, moves); var b := r.a.pending[i];
            var zlb := Zlb(|r.b.sent|, |r.b.accepted| + 1);
            var taken := Step(Step(r, ByB(Deliver(c, b.packet))), ByB(Acknowledge));
            var w := Step(Step(taken, ByA(Deliver(d, zlb))), ByA(Timer(i, m)));
            && taken.b.accepted == r.b.accepted + [b.packet.body] && zlb in taken.bToA
            && w.a.acked == r.a.acked + [b.(retries := b.retries + 1)]
            && w.a.pending == r.a.pending[..i] + r.a.pending[i + 1..]
  {
    hide Step, Zlb, Exec, Init;
    TakenAndAnswered(s, moves, i, c);
    var r := Exec(s, moves);
    var one := moves + [ByB(Deliver(c, r.a.pending[i].packet))];
    ExecSnoc(s, moves, ByB(Deliver(c, r.a.pending[i].packet)));
    ExecSnoc(s, one, ByB(Acknowledge));
    ZlbEndsRetransmission(s, one + [ByB(Acknowledge)], i, d, m);
  }

  lemma TakenAndAnswered(s: System, moves: seq<Move>, i: nat, c: CallFlags)
    requires Init(s) && Bounded(Exec(s, moves))
    requires var r := Exec(s, moves); i < |r.a.pending| && r.a.pending[i].packet.ns == |r.b.accepted|
    ensures var r := Exec(s, moves); var b := r.a.pending[i];
            var taken := Step(Step(r, ByB(Deliver(c, b.packet))), ByB(Acknowledge));
            && taken.a == r.a && taken.b.accepted == r.b.accepted + [b.packet.body] && taken.b.sent == r.b.sent
            && taken.bToA == r.bToA + {Zlb(|r.b.sent|, |r.b.accepted| + 1)} && !taken.b.cnu
  {
    hide Exec, Step, StepA, Inv, OnWire, HandleControl;
    RunKeeps(s, moves);
    RunOnWire(s, moves);
    Taken(Exec(s, moves), i, c);
  }

  lemma Taken(r: System, i: nat, c: CallFlags)
    requires Inv(r) && OnWire(r.a, r.aToB) && i < |r.a.pending| && r.a.pending[i].packet.ns == |r.b.accepted|
    ensures var b := r.a.pending[i];
            var taken := Step(Step(r, ByB(Deliver(c, b.packet))), ByB(Acknowledge));
            && taken.a == r.a && taken.b.accepted == r.b.accepted + [b.packet.body] && taken.b.sent == r.b.sent
            && taken.bToA == r.bToA + {Zlb(|r.b.sent|, |r.b.accepted| + 1)} && !taken.b.cnu
  {
    hide HandleControl, Delivered;
    var p := r.a.pending[i].packet;
    assert Genuine(r.a, p) && !p.IsZlb() && p in r.aToB;
    InTurnCounts(r.b.t, c, p);
    hide Direction, Genuine, Inv, OnWire;
  }
}
