/** The relay as a whole: what each received frame does to the session table, and
    what holds over every sequence of received frames and cleaning passes. */
module RelayFrames {
  import opened Octets
  import opened RelayTable
  import opened RelayOrder
  import opened RelayHeap
  import opened RelaySessions
  import opened PppoeTags
  import opened RelayDiscovery

  const CODE_SESS: nat := 0x00
  const CODE_PADO: nat := 0x07
  const CODE_PADR: nat := 0x19

  /** Every recorded interface is one of the configured ones. */
  ghost predicate IfacesOk(t: Table, n: nat) {
    forall i :: 0 <= i < |t.entries| ==> t.entries[i].ac < n && t.entries[i].cli < n
  }

  /** A frame sent on to one end of a session. */
  function Passed(f: Frame, ifs: seq<Interface>, to: Endpoint): Out
    requires to.iface < |ifs|
  {
    Out(to.iface, false, f.(dst := to.mac, src := ifs[to.iface].mac, session := to.ses))
  }

  /** Relaying of a session frame: the table after it, and what is sent. */
  ghost function RelaySession(t: Table, ifs: seq<Interface>, i: nat, f: Frame, epoch: nat): (Table, seq<Out>)
    requires i < |ifs| && IfacesOk(t, |ifs|)
  {
    if f.code != CODE_SESS || f.dst != ifs[i].mac then (t, []) else
    match Find(t.entries, f.src, f.session)
    case Nowhere => (t, [])
    case Found(k, side) => (Touched(t, k, epoch), [Passed(f, ifs, EndpointOf(t.entries[k], Other(side)))])
  }

  /** Relaying of a PADT, which ends the session. */
  ghost function RelayPadt(t: Table, ifs: seq<Interface>, i: nat, f: Frame): (Table, seq<Out>)
    requires i < |ifs| && IfacesOk(t, |ifs|)
  {
    if f.dst != ifs[i].mac then (t, []) else
    match Find(t.entries, f.src, f.session)
    case Nowhere => (t, [])
    case Found(k, side) => (Closed(t, k), [Passed(f, ifs, EndpointOf(t.entries[k], Other(side)))])
  }

  /** A discovery packet, by its code. */
  ghost function RelayPacket(t: Table, ifs: seq<Interface>, i: nat, f: Frame, epoch: nat): (Table, seq<Out>)
    requires ValidConfig(ifs) && i < |ifs| && IfacesOk(t, |ifs|)
  {
    if f.code == CODE_PADT then RelayPadt(t, ifs, i, f)
    else if f.code == CODE_PADI then (t, Padi(ifs, i, f))
    else if f.code == CODE_PADO then (t, Pado(ifs, i, f))
    else if f.code == CODE_PADR then (t, Padr(ifs, i, f))
    else if f.code == CODE_PADS then Pads(t, ifs, i, f, epoch)
    else (t, [])
  }

  // ------------------------------------------------------- frames as operations

  /** What reaches the relay: a frame on the session or on the discovery socket of
      interface `i`, or the time to look for idle sessions. */
  datatype Input =
    | SessionFrame(i: nat, f: Frame, epoch: nat)
    | DiscoveryPacket(i: nat, f: Frame, epoch: nat)
    | Cleaning(now: nat, idle: nat)

  predicate OnInterface(ifs: seq<Interface>, x: Input) { x.Cleaning? || x.i < |ifs| }

  ghost function After(t: Table, ifs: seq<Interface>, x: Input): Table
    requires ValidConfig(ifs) && OnInterface(ifs, x) && IfacesOk(t, |ifs|)
  {
    match x
    case SessionFrame(i, f, epoch) => RelaySession(t, ifs, i, f, epoch).0
    case DiscoveryPacket(i, f, epoch) => RelayPacket(t, ifs, i, f, epoch).0
    case Cleaning(now, idle) => CleanFrom(t, 0, now, idle)
  }

  /** The client a PADS names, if it is one the relay goes on with. */
  function NamedClient(ifs: seq<Interface>, i: nat, f: Frame): Option<Mac>
    requires i < |ifs|
  {
    if f.code == CODE_PADS && Unicast(f.src) && f.session != 0 && Target(ifs, i, f, true).Some?
    then Some(DataMac(RelayTag(f.payload).value)) else None
  }

  /** The operation on the table that an input amounts to, if any. */
  function OpOf(t: Table, ifs: seq<Interface>, x: Input): (r: Option<Op>)
    requires OnInterface(ifs, x)
  {
    match x
    case Cleaning(now, idle) => Some(Clean(now, idle))
    case SessionFrame(i, f, epoch) =>
      var r := Find(t.entries, f.src, f.session);
      if f.code == CODE_SESS && f.dst == ifs[i].mac && r.Found? then Some(Touch(r.k, epoch)) else None
    case DiscoveryPacket(i, f, epoch) =>
      if f.code == CODE_PADT then
        var r := Find(t.entries, f.src, f.session);
        if f.dst == ifs[i].mac && r.Found? then Some(Close(r.k)) else None
      else
        match NamedClient(ifs, i, f)
        case None => None
        case Some(mac) => Some(Open(Params(epoch, i, Target(ifs, i, f, true).value, f.src, mac, f.session)))
  }

  function Applied(t: Table, op: Option<Op>): Table { if op.None? then t else Step(t, op.value) }

  /** Every received frame is one operation on the table, or none. */
  lemma InputIsOp(t: Table, ifs: seq<Interface>, x: Input)
    requires ValidConfig(ifs) && OnInterface(ifs, x) && IfacesOk(t, |ifs|)
    ensures After(t, ifs, x) == Applied(t, OpOf(t, ifs, x))
  {
    hide Find, RelayTag, FindTag, Stripped, ErrorFrame, HostUniq, IfacesOk;
  }

  // ---------------------------------------------------------------- the interfaces

  lemma {:induction false} CleanKeepsIfaces(t: Table, k: nat, now: nat, idle: nat, n: nat)
    requires IfacesOk(t, n)
    ensures IfacesOk(CleanFrom(t, k, now, idle), n)
    decreases |t.entries| - k
  {
    if k < |t.entries| {
      if Stale(t.entries[k], now, idle) {
        CleanKeepsIfaces(Closed(t, k), k, now, idle, n);
      } else {
        CleanKeepsIfaces(t, k + 1, now, idle, n);
      }
    }
  }

  /** No input records an interface that is not configured. */
  lemma InputKeepsIfaces(t: Table, ifs: seq<Interface>, x: Input)
    requires ValidConfig(ifs) && OnInterface(ifs, x) && IfacesOk(t, |ifs|)
    ensures IfacesOk(After(t, ifs, x), |ifs|)
  {
    InputIsOp(t, ifs, x);
    hide Find, RelayTag, After;
    match OpOf(t, ifs, x)
    case None =>
    case Some(op) =>
      match op
      case Clean(now, idle) => CleanKeepsIfaces(t, 0, now, idle, |ifs|);
      case Open(p) =>
      case Close(_) =>
      case Touch(_, _) =>
  }

  // ------------------------------------------------------------------- runs

  predicate AllOnInterfaces(ifs: seq<Interface>, xs: seq<Input>) {
    forall j :: 0 <= j < |xs| ==> OnInterface(ifs, xs[j])
  }

  /** The table after the inputs `xs`, from an empty table of `n` slots. */
  ghost function Relayed(n: nat, ifs: seq<Interface>, xs: seq<Input>): (t: Table)
    requires ValidConfig(ifs) && AllOnInterfaces(ifs, xs)
    ensures IfacesOk(t, |ifs|)
  {
    if xs == [] then Empty(n)
    else
      var t := Relayed(n, ifs, xs[..|xs| - 1]);
      InputKeepsIfaces(t, ifs, xs[|xs| - 1]);
      After(t, ifs, xs[|xs| - 1])
  }

  /** The operations the inputs amount to. */
  ghost function OpsOf(n: nat, ifs: seq<Interface>, xs: seq<Input>): seq<Op>
    requires ValidConfig(ifs) && AllOnInterfaces(ifs, xs)
  {
    if xs == [] then []
    else
      var before := xs[..|xs| - 1];
      var op := OpOf(Relayed(n, ifs, before), ifs, xs[|xs| - 1]);
      if op.None? then OpsOf(n, ifs, before) else OpsOf(n, ifs, before) + [op.value]
  }

  /** A run of received frames is a run of operations, each session between two interfaces. */
  lemma {:induction false} FramesAreOps(n: nat, ifs: seq<Interface>, xs: seq<Input>)
    requires ValidConfig(ifs) && AllOnInterfaces(ifs, xs)
    ensures Relayed(n, ifs, xs) == Exec(Empty(n), OpsOf(n, ifs, xs)) && Between(OpsOf(n, ifs, xs))
  {
    hide After, Step, OpOf, OnInterface, IfacesOk, Between;
    if xs == [] {
      BetweenNone();
    } else {
      var before, x := xs[..|xs| - 1], xs[|xs| - 1];
      OnInterfaces(ifs, xs);
      FramesAreOps(n, ifs, before);
      var t, ops := Relayed(n, ifs, before), OpsOf(n, ifs, before);
      InputIsOp(t, ifs, x);
      var op := OpOf(t, ifs, x);
      if op.Some? {
        OpIsBetween(t, ifs, x);
        BetweenMore(ops, op.value);
        assert (ops + [op.value])[..|ops|] == ops;
      }
    }
  }

  lemma OnInterfaces(ifs: seq<Interface>, xs: seq<Input>)
    requires AllOnInterfaces(ifs, xs) && xs != []
    ensures AllOnInterfaces(ifs, xs[..|xs| - 1]) && OnInterface(ifs, xs[|xs| - 1])
  {
  }

  lemma OpIsBetween(t: Table, ifs: seq<Interface>, x: Input)
    requires OnInterface(ifs, x) && OpOf(t, ifs, x).Some?
    ensures OpOf(t, ifs, x).value.Open? ==> OpOf(t, ifs, x).value.p.ac != OpOf(t, ifs, x).value.p.cli
  {
    hide Find, RelayTag, FindTag, Target;
  }

  lemma BetweenNone()
    ensures Between([])
  {
  }

  lemma BetweenMore(ops: seq<Op>, op: Op)
    requires Between(ops) && (op.Open? ==> op.p.ac != op.p.cli)
    ensures Between(ops + [op])
  {
  }

  /** Every PADS that may open a session comes from an access concentrator and names a client. */
  predicate Apart(isAc: Mac -> bool, ifs: seq<Interface>, xs: seq<Input>)
    requires AllOnInterfaces(ifs, xs)
  {
    forall j :: 0 <= j < |xs| && xs[j].DiscoveryPacket? ==>
      var client := NamedClient(ifs, xs[j].i, xs[j].f);
      client.Some? ==> isAc(xs[j].f.src) && !isAc(client.value)
  }

  lemma {:induction false} ApartIsProper(isAc: Mac -> bool, n: nat, ifs: seq<Interface>, xs: seq<Input>)
    requires ValidConfig(ifs) && AllOnInterfaces(ifs, xs) && Apart(isAc, ifs, xs)
    ensures Proper(isAc, OpsOf(n, ifs, xs))
  {
    hide NamedClient, Find, RelayTag;
    if xs != [] {
      var before := xs[..|xs| - 1];
      ApartIsProper(isAc, n, ifs, before);
      assert xs[|xs| - 1].DiscoveryPacket? ==> OnInterface(ifs, xs[|xs| - 1]);
    }
  }

  // ------------------------------------------------------------ main results

  /** Whatever frames are received, the slots stay partitioned, the numbers clients
      see are distinct and not zero, and every session is between configured interfaces. */
  lemma EveryRunKeeps(n: nat, ifs: seq<Interface>, xs: seq<Input>)
    requires n <= 65534 && ValidConfig(ifs) && AllOnInterfaces(ifs, xs)
    ensures var t := Relayed(n, ifs, xs);
            SlotsOk(t) && DistinctNumbers(t.entries) && IfacesOk(t, |ifs|)
  {
    FramesAreOps(n, ifs, xs);
    NumbersAreDistinct(n, OpsOf(n, ifs, xs));
  }

  /** If no concentrator is a client, keys are unique and relaying is an involution
      after every sequence of received frames. */
  lemma ApartRunKeeps(isAc: Mac -> bool, n: nat, ifs: seq<Interface>, xs: seq<Input>)
    requires n <= 65534 && ValidConfig(ifs) && AllOnInterfaces(ifs, xs) && Apart(isAc, ifs, xs)
    ensures Inv(isAc, Relayed(n, ifs, xs)) && Involutive(Relayed(n, ifs, xs))
  {
    FramesAreOps(n, ifs, xs);
    ApartIsProper(isAc, n, ifs, xs);
    RunKeeps(isAc, n, OpsOf(n, ifs, xs));
    UniqueGivesInvolution(Relayed(n, ifs, xs));
  }

  /** Without any such assumption: relaying is an involution throughout a sequence of
      received frames if and only if every confirmation that opened a session was harmless. */
  lemma FramesInvolutiveExactly(n: nat, ifs: seq<Interface>, xs: seq<Input>)
    requires ValidConfig(ifs) && AllOnInterfaces(ifs, xs)
    ensures AlwaysInvolutive(Empty(n), OpsOf(n, ifs, xs)) <==> SafeRun(Empty(n), OpsOf(n, ifs, xs))
    ensures Relayed(n, ifs, xs) == Exec(Empty(n), OpsOf(n, ifs, xs))
  {
    FramesAreOps(n, ifs, xs);
    InvolutiveExactly(Empty(n), OpsOf(n, ifs, xs));
  }

  /** Looking up does not depend on when a session was last active. */
  lemma {:induction false} FindIgnoresEpoch(es: seq<Entry>, es': seq<Entry>, mac: Mac, ses: u16)
    requires |es'| == |es| && forall i, x :: 0 <= i < |es| ==> Key(es'[i], x) == Key(es[i], x)
    ensures Find(es', mac, ses) == Find(es, mac, ses)
  {
    hide Key;
    if es != [] {
      FindIgnoresEpoch(es[1..], es'[1..], mac, ses);
    }
  }

  /** A relayed frame and what its receiver answers with. */
  ghost predicate AnswerTo(t: Table, ifs: seq<Interface>, i: nat, f: Frame, epoch: nat, answer: Frame)
    requires i < |ifs| && IfacesOk(t, |ifs|)
  {
    var outs := RelaySession(t, ifs, i, f, epoch).1;
    && outs != [] && answer.src == outs[0].frame.dst && answer.dst == outs[0].frame.src
    && answer.session == outs[0].frame.session && answer.code == CODE_SESS
  }

  /** A session frame and its answer: what the receiver of a relayed frame sends back,
      to the address and under the number it saw, is addressed to the first sender,
      under the sender's own number. */
  lemma AnswerReachesSender(t: Table, ifs: seq<Interface>, i: nat, f: Frame, epoch: nat, answer: Frame, later: nat)
    requires i < |ifs| && IfacesOk(t, |ifs|) && Involutive(t) && AnswerTo(t, ifs, i, f, epoch, answer)
    ensures var (t', outs) := RelaySession(t, ifs, i, f, epoch);
            && |outs| == 1 && outs[0].iface < |ifs| && IfacesOk(t', |ifs|)
            && var (_, back) := RelaySession(t', ifs, outs[0].iface, answer, later);
               && |back| == 1 && back[0].frame.dst == f.src && back[0].frame.session == f.session
               && back[0].frame.payload == answer.payload
  {
    hide Find;
    var (t', outs) := RelaySession(t, ifs, i, f, epoch);
    assert AnswerReturns(t, f.src, f.session);
    hide Involutive;
    forall j, x | 0 <= j < |t.entries| ensures Key(t'.entries[j], x) == Key(t.entries[j], x) {}
    FindIgnoresEpoch(t.entries, t'.entries, answer.src, answer.session);
    assert Find(t'.entries, answer.src, answer.session) == Find(t.entries, answer.src, answer.session);
  }

  /** The interface the answer leaves through is the recorded one, and the frame's own
      if and only if the frame came in where its sender is recorded: the relay does not
      compare the two. */
  lemma AnswerLeavesWhereRecorded(t: Table, ifs: seq<Interface>, i: nat, f: Frame, epoch: nat, answer: Frame, later: nat)
    requires i < |ifs| && IfacesOk(t, |ifs|) && UniqueKeys(t.entries) && AnswerTo(t, ifs, i, f, epoch, answer)
    ensures var (t', outs) := RelaySession(t, ifs, i, f, epoch);
            var r := Find(t.entries, f.src, f.session);
            && |outs| == 1 && outs[0].iface < |ifs| && IfacesOk(t', |ifs|) && r.Found?
            && var (_, back) := RelaySession(t', ifs, outs[0].iface, answer, later);
               && |back| == 1 && back[0].iface == EndpointOf(t.entries[r.k], r.side).iface
               && (back[0].iface == i <==> EndpointOf(t.entries[r.k], r.side).iface == i)
  {
    hide Find;
    var (t', outs) := RelaySession(t, ifs, i, f, epoch);
    var r := Find(t.entries, f.src, f.session);
    UniqueFind(t.entries, r.k, Other(r.side));
    hide UniqueKeys;
    forall j, x | 0 <= j < |t.entries| ensures Key(t'.entries[j], x) == Key(t.entries[j], x) {}
    FindIgnoresEpoch(t.entries, t'.entries, answer.src, answer.session);
    assert Other(Other(r.side)) == r.side;
  }

  /** The failing family: `X` is recorded behind interface 0, its frame comes in on
      interface 2 and is relayed all the same, and the answer leaves through interface 0. */
  lemma AnswerGoesElsewhere(ifs: seq<Interface>, payload: bytes) returns (t: Table, f: Frame)
    requires |ifs| == 3
    ensures t == Exec(Empty(2), [Open(Params(0, 1, 0, Y, X, 7))]) && IfacesOk(t, 3)
    ensures f == Frame(ifs[2].mac, X, CODE_SESS, 1, payload)
    ensures RelaySession(t, ifs, 2, f, 0) == (t, [Out(1, false, Frame(Y, ifs[1].mac, CODE_SESS, 7, payload))])
    ensures RelaySession(t, ifs, 1, Frame(ifs[1].mac, Y, CODE_SESS, 7, payload), 0)
              == (t, [Out(0, false, Frame(X, ifs[0].mac, CODE_SESS, 1, payload))])
  {
    t := HeldForX();
    f := Frame(ifs[2].mac, X, CODE_SESS, 1, payload);
    HeldIsFound(t);
    hide Find, Exec;
    assert Touched(t, 0, 0).entries == t.entries;
  }

  lemma HeldIsFound(t: Table)
    requires t == Table(2, [Entry(0, 1, 0, Y, X, 7, 0)], [1])
    ensures Find(t.entries, X, 1) == Found(0, ClientSide) && Find(t.entries, Y, 7) == Found(0, AcSide)
  {
    assert X[5] != Y[5];
  }

  // ----------------------------------------------- stations that stay where they are

  /** Every session is recorded behind the interfaces its two stations are behind. */
  ghost predicate PlacesOk(place: Mac -> nat, t: Table) {
    forall e :: e in t.entries ==> e.ac == place(e.acMac) && e.cli == place(e.cliMac)
  }

  /** A PADS that may open a session comes in where its sender is, and names its client there. */
  predicate InPlace(place: Mac -> nat, ifs: seq<Interface>, x: Input)
    requires OnInterface(ifs, x)
  {
    x.DiscoveryPacket? && NamedClient(ifs, x.i, x.f).Some? ==>
      x.i == place(x.f.src) && Target(ifs, x.i, x.f, true).value == place(NamedClient(ifs, x.i, x.f).value)
  }

  lemma {:induction false} CleanKeepsPlaces(place: Mac -> nat, t: Table, k: nat, now: nat, idle: nat)
    requires PlacesOk(place, t)
    ensures PlacesOk(place, CleanFrom(t, k, now, idle))
    decreases |t.entries| - k
  {
    if k < |t.entries| {
      if Stale(t.entries[k], now, idle) {
        CleanKeepsPlaces(place, Closed(t, k), k, now, idle);
      } else {
        CleanKeepsPlaces(place, t, k + 1, now, idle);
      }
    }
  }

  lemma InputKeepsPlaces(place: Mac -> nat, t: Table, ifs: seq<Interface>, x: Input)
    requires ValidConfig(ifs) && OnInterface(ifs, x) && IfacesOk(t, |ifs|)
    requires PlacesOk(place, t) && InPlace(place, ifs, x)
    ensures PlacesOk(place, After(t, ifs, x))
  {
    InputIsOp(t, ifs, x);
    hide Find, RelayTag, After, Target;
    match OpOf(t, ifs, x)
    case None =>
    case Some(op) =>
      match op
      case Clean(now, idle) => CleanKeepsPlaces(place, t, 0, now, idle);
      case Open(_) =>
      case Close(_) =>
      case Touch(k, epoch) =>
        if k < |t.entries| {
          assert t.entries[k] in t.entries;
        }
  }

  lemma {:induction false} PlacesOverRuns(place: Mac -> nat, n: nat, ifs: seq<Interface>, xs: seq<Input>)
    requires ValidConfig(ifs) && AllOnInterfaces(ifs, xs)
    requires forall j :: 0 <= j < |xs| ==> InPlace(place, ifs, xs[j])
    ensures PlacesOk(place, Relayed(n, ifs, xs))
  {
    hide After, InPlace, PlacesOk, IfacesOk;
    if xs == [] {
      NoPlaces(place, n);
    } else {
      OnInterfaces(ifs, xs);
      PlacesOverRuns(place, n, ifs, xs[..|xs| - 1]);
      InputKeepsPlaces(place, Relayed(n, ifs, xs[..|xs| - 1]), ifs, xs[|xs| - 1]);
    }
  }

  lemma NoPlaces(place: Mac -> nat, n: nat)
    ensures PlacesOk(place, Empty(n))
  {
  }

  /** When stations stay behind their interfaces and concentrators are no clients, the
      answer to any relayed session frame, after any received frames, goes back to its
      sender: MAC, number and interface. */
  lemma AnswerReachesSenderInPlace(place: Mac -> nat, isAc: Mac -> bool, n: nat, ifs: seq<Interface>, xs: seq<Input>,
                                   f: Frame, epoch: nat, answer: Frame, later: nat)
    requires n <= 65534 && ValidConfig(ifs) && AllOnInterfaces(ifs, xs) && Apart(isAc, ifs, xs)
    requires forall j :: 0 <= j < |xs| ==> InPlace(place, ifs, xs[j])
    requires place(f.src) < |ifs| && AnswerTo(Relayed(n, ifs, xs), ifs, place(f.src), f, epoch, answer)
    ensures var (t', outs) := RelaySession(Relayed(n, ifs, xs), ifs, place(f.src), f, epoch);
            && |outs| == 1 && outs[0].iface < |ifs| && IfacesOk(t', |ifs|)
            && var (_, back) := RelaySession(t', ifs, outs[0].iface, answer, later);
               && |back| == 1 && back[0].iface == place(f.src)
               && back[0].frame.dst == f.src && back[0].frame.session == f.session
  {
    hide Find, Apart, InPlace, SlotsOk, MacsOk, UniqueKeys, Involutive, AllOnInterfaces;
    var t := Relayed(n, ifs, xs);
    ApartRunKeeps(isAc, n, ifs, xs);
    PlacesOverRuns(place, n, ifs, xs);
    AnswerReachesSender(t, ifs, place(f.src), f, epoch, answer, later);
    AnswerLeavesWhereRecorded(t, ifs, place(f.src), f, epoch, answer, later);
    var r := Find(t.entries, f.src, f.session);
    assert t.entries[r.k] in t.entries && Key(t.entries[r.k], r.side) == (f.src, f.session);
  }
}
