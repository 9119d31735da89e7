/** How a tunnel ends and what keeps it from starting: the flags a message leaves
    behind, one message at a time and over whole runs. */
module TunnelStop {
  import opened Octets
  import opened ControlTunnel
  import opened TunnelSetup
  import Chan = ControlChannel

  // ------------------------------------------------------------- one message

  /** A StopCCN answers nothing and moves no state. It marks the tunnel closed by its
      peer, with no StopCCN of our own to follow, if and only if it names the expected
      tunnel id, or none is known yet, and has a result code. A connection that knows no
      id yet takes the one named. */
  lemma {:induction false} StopExactly(e: End, id: u16, v: Verdict)
    ensures var (r, replies) := Handle(e, Stop(id), v);
            var expected := if v.oddPeer then e.ourtid else e.tid;
            var meant := expected <= 0 || id == expected;
            && replies == [] && r.state == e.state && r.ourtid == e.ourtid && r.qtid == id
            && r.tid == (if meant && e.tid == 0 then id else e.tid)
            && (if meant && !v.noResult then r.closing && !r.needclose
                else r.closing == e.closing && r.needclose == e.needclose)
  {
  }

  /** A request makes a tunnel that waits for one or has sent one a replier; any other
      tunnel, and one whose peer is refused, is to be closed; one that another tunnel
      has already is closed without a word. */
  lemma {:induction false} RequestExactly(e: End, id: u16, v: Verdict)
    ensures var (r, replies) := Handle(e, StartRequest(id), v);
            && r.ourtid == e.ourtid && r.qtid == e.qtid
            && if e.state != 0 && e.state != 1 then r == e.(needclose := true) && replies == []
               else
                 && r.tid == id
                 && if id == 0 || v.deny then replies == [] && r.needclose && r.closing == e.closing && r.state == e.state
                    else if v.twice then replies == [] && !r.needclose && r.closing && r.state == e.state
                    else
                      && r.state == 2 && r.needclose == e.needclose && r.closing == e.closing
                      && replies == if v.late then [] else [StartReply(e.ourtid)]
  {
  }

  /** A reply connects a tunnel that has sent a request, and is answered by the last
      message of the handshake; any other tunnel is to be closed. */
  lemma {:induction false} ReplyExactly(e: End, id: u16, v: Verdict)
    ensures var (r, replies) := Handle(e, StartReply(id), v);
            && r.ourtid == e.ourtid && r.qtid == e.qtid && r.closing == e.closing
            && (r.needclose <==> e.needclose || e.state != 1 || id == 0 || v.deny)
            && r.tid == (if e.state == 1 then id else e.tid)
            && if e.state == 1 && id != 0 && !v.deny then r.state == 3 && replies == [StartConnected]
               else r.state == e.state && replies == []
  {
  }

  /** The last message connects a replier; any other tunnel is to be closed. */
  lemma {:induction false} ConnectedExactly(e: End, v: Verdict)
    ensures var (r, replies) := Handle(e, StartConnected, v);
            && replies == [] && r.ourtid == e.ourtid && r.tid == e.tid && r.qtid == e.qtid && r.closing == e.closing
            && (r.needclose <==> e.needclose || e.state != 2 || v.deny)
            && r.state == if e.state == 2 && !v.deny then 3 else e.state
  {
  }

  /** Any other message leaves the tunnel as it is. */
  lemma {:induction false} OtherExactly(e: End, v: Verdict)
    ensures Handle(e, Other, v) == (e, [])
  {
  }

  // ------------------------------------------------------------- whole runs

  /** What end `a` does with a StopCCN of the other end that it takes in. */
  ghost predicate ClosedByPeer(p: Pair, q: Pair) {
    && q.a.closing && !q.a.needclose && q.a.state == p.a.state && q.a.tid == p.a.tid == p.b.ourtid
    && q.chan.a.sent == p.chan.a.sent && q.b == p.b
  }

  lemma {:induction false} TakesStop(p: Pair, c: CallFlags, pkt: Packet, v: Verdict, initiator: bool)
    requires Chan.Inv(p.chan) && Says(p.chan.b, p.b, !initiator) && p.a.tid == p.b.ourtid
    requires |Chan.StepA(p.chan, Chan.Deliver(c, pkt)).a.accepted| > |p.chan.a.accepted|
    requires Parse(pkt.body).Stop? && !v.noResult && !v.oddPeer
    ensures ClosedByPeer(p, StepA(p, Take(c, pkt, v)))
  {
    assert Chan.Genuine(p.chan.b, pkt);
    assert p.chan.b.sent[pkt.ns] == pkt.body && SentBy(p.b, !initiator, Parse(pkt.body));
    StopExactly(p.a, p.b.ourtid, v);
    hide Parse, Handle, Chan.Inv, Says, SentBy;
    assert SendAll(Chan.StepA(p.chan, Chan.Deliver(c, pkt)), []) == Chan.StepA(p.chan, Chan.Deliver(c, pkt));
  }

  /** In every run: a connected initiator that takes in a StopCCN with a result code, and
      any responder past its request that does, is closed by its peer: it will be
      destroyed, keeps state and tunnel id, and answers nothing. */
  lemma {:induction false} StopClosesTheOther(p: Pair, moves: seq<Move>, c: CallFlags, pkt: Packet, v: Verdict)
    requires Init(p) && Chan.Bounded(Exec(p, moves).chan)
    requires Parse(pkt.body).Stop? && !v.noResult && !v.oddPeer
    ensures var q := Exec(p, moves);
            && (q.a.state == SCCCN && |Chan.StepA(q.chan, Chan.Deliver(c, pkt)).a.accepted| > |q.chan.a.accepted| ==>
                  ClosedByPeer(q, Step(q, ByInitiator(Take(c, pkt, v)))))
            && (q.b.state != IDLE && |Chan.StepA(Chan.Swap(q.chan), Chan.Deliver(c, pkt)).a.accepted| > |q.chan.b.accepted| ==>
                  ClosedByPeer(Swap(q), Swap(Step(q, ByResponder(Take(c, pkt, v))))))
  {
    hide StepA, Chan.StepA, Parse;
    RunKeeps(p, moves);
    var q := Exec(p, moves);
    if q.a.state == SCCCN && |Chan.StepA(q.chan, Chan.Deliver(c, pkt)).a.accepted| > |q.chan.a.accepted| {
      TakesStop(q, c, pkt, v, true);
    }
    if q.b.state != IDLE && |Chan.StepA(Chan.Swap(q.chan), Chan.Deliver(c, pkt)).a.accepted| > |q.chan.b.accepted| {
      InvSwaps(q.chan);
      TakesStop(Swap(q), c, pkt, v, false);
    }
  }

  lemma {:induction false} InvSwaps(s: Chan.System)
    requires Chan.Inv(s)
    ensures Chan.Inv(Chan.Swap(s))
  {
  }

  /** The StopCCN that the responder sends now. */
  function StopPacket(p: Pair): Packet {
    Packet(Version(true, true, true, 2), 14, p.chan.b.t.seqNum, p.chan.b.t.recSeqNum, [4, p.b.ourtid])
  }

  /** And it does get there: when a responder, all of whose messages a connected
      initiator has taken in, sends its StopCCN, the packet is on the wire, and an
      initiator that takes it in next is closed by its peer. */
  lemma {:induction false} StopArrives(p: Pair, moves: seq<Move>, c: CallFlags, v: Verdict)
    requires Init(p) && Chan.Bounded(Exec(p, moves + [ByResponder(SendStop)]).chan) && !v.noResult && !v.oddPeer
    requires var q := Exec(p, moves);
             q.a.state == SCCCN && |q.chan.a.accepted| == |q.chan.b.sent|
    ensures var pkt := StopPacket(Exec(p, moves));
            var q := Exec(p, moves + [ByResponder(SendStop)]);
            && pkt in q.chan.bToA && ClosedByPeer(q, Step(q, ByInitiator(Take(c, pkt, v))))
  {
    var on := moves + [ByResponder(SendStop)];
    var q, r := Exec(p, moves), Exec(p, on);
    ExecSnoc(p, moves, ByResponder(SendStop));
    StepGrows(q, ByResponder(SendStop));
    RunKeeps(p, moves);
    RunKeeps(p, on);
    StopIsSent(q);
    var pkt := StopPacket(q);
    hide Step, StepA, Handle;
    ParseBody(Stop(q.b.ourtid));
    InTurn(r.chan, c, pkt);
    StopClosesTheOther(p, on, c, pkt, v);
  }

  lemma {:induction false} StopIsSent(q: Pair)
    requires Inv(q)
    ensures var r := Step(q, ByResponder(SendStop));
            && StopPacket(q) in r.chan.bToA && r.a == q.a && r.b == q.b && r.chan.a == q.chan.a
  {
    ParseBody(Stop(q.b.ourtid));
    SendOne(Chan.Swap(q.chan), Stop(q.b.ourtid));
    hide Parse;
  }

  lemma {:induction false} InTurn(s: Chan.System, c: CallFlags, pkt: Packet)
    requires pkt in s.bToA && pkt.length == 12 + |pkt.body| && pkt.body != [] && VersionOk(pkt.version)
    requires pkt.ns == s.a.t.recSeqNum
    ensures |Chan.StepA(s, Chan.Deliver(c, pkt)).a.accepted| == |s.a.accepted| + 1
  {
  }
}
