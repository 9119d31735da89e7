/** Relaying of session frames: which endpoint a frame is passed on to, over
    every sequence of openings, closings, activity and cleaning passes. */
module RelaySessions {
  import opened Octets
  import opened RelayTable
  import opened RelayOrder
  import opened RelayHeap

  /** One end of a session as the relay addresses it. */
  datatype Endpoint = Endpoint(iface: nat, mac: Mac, ses: u16)

  function EndpointOf(e: Entry, side: Side): Endpoint {
    match side
    case AcSide => Endpoint(e.ac, e.acMac, e.acSes)
    case ClientSide => Endpoint(e.cli, e.cliMac, ClientSes(e))
  }

  function Other(side: Side): Side { if side.AcSide? then ClientSide else AcSide }

  datatype Option<T> = None | Some(value: T)

  /** Where a frame from `mac` with session number `ses` goes. */
  function Forward(t: Table, mac: Mac, ses: u16): Option<Endpoint> {
    match Find(t.entries, mac, ses)
    case Nowhere => None
    case Found(k, side) => Some(EndpointOf(t.entries[k], Other(side)))
  }

  // ------------------------------------------------------------------- runs

  /** What changes the table. `Open` is what a PADS does: a session is opened only
      if the access concentrator's key is not in use. */
  datatype Op = Open(p: Params) | Close(k: nat) | Touch(k: nat, epoch: nat) | Clean(now: nat, idle: nat)

  function Touched(t: Table, k: nat, epoch: nat): Table
    requires k < |t.entries|
  {
    t.(entries := t.entries[k := t.entries[k].(epoch := epoch)])
  }

  function Step(t: Table, op: Op): Table {
    match op
    case Open(p) =>
      if Find(t.entries, p.acMac, p.acSes).Nowhere? then Opened(t, p) else t
    case Close(k) => if k < |t.entries| then Closed(t, k) else t
    case Touch(k, epoch) => if k < |t.entries| then Touched(t, k, epoch) else t
    case Clean(now, idle) => CleanFrom(t, 0, now, idle)
  }

  function Exec(t: Table, ops: seq<Op>): Table {
    if ops == [] then t else Step(Exec(t, ops[..|ops| - 1]), ops[|ops| - 1])
  }

  /** The relay as it starts: `n` free slots. */
  function Empty(n: nat): Table { Table(n, [], seq(n, i => i)) }

  /** Every session is opened between a client and an access concentrator. */
  predicate Proper(isAc: Mac -> bool, ops: seq<Op>) {
    forall i :: 0 <= i < |ops| && ops[i].Open? ==> isAc(ops[i].p.acMac) && !isAc(ops[i].p.cliMac)
  }

  /** The two ends of a session are behind different interfaces. */
  predicate Between(ops: seq<Op>) {
    forall i :: 0 <= i < |ops| && ops[i].Open? ==> ops[i].p.ac != ops[i].p.cli
  }

  // ------------------------------------------------------- slots and numbers

  ghost predicate SlotsOk(t: Table) {
    && t.size <= 65534 && |t.entries| + |t.free| == t.size
    && (forall i :: 0 <= i < |t.entries| ==> t.entries[i].id < t.size && t.entries[i].id !in t.free)
    && (forall i :: 0 <= i < |t.free| ==> t.free[i] < t.size)
    && (forall i, j :: 0 <= i < j < |t.entries| ==> t.entries[i].id != t.entries[j].id)
    && (forall i, j :: 0 <= i < j < |t.free| ==> t.free[i] != t.free[j])
  }

  lemma OpenKeepsSlots(t: Table, p: Params)
    requires SlotsOk(t)
    ensures SlotsOk(Opened(t, p))
  {
    if t.free != [] {
      var t' := Opened(t, p);
      assert t.free[0] in t.free;
      forall j | 0 < j < |t'.entries| ensures t'.entries[j] == t.entries[j - 1] {}
      forall i | 0 <= i < |t'.free| ensures t'.free[i] == t.free[i + 1] {}
    }
  }

  lemma CloseKeepsSlots(t: Table, k: nat)
    requires SlotsOk(t) && k < |t.entries|
    ensures SlotsOk(Closed(t, k))
  {
    var t' := Closed(t, k);
    forall i | 0 <= i < |t'.entries| ensures t'.entries[i] == t.entries[if i < k then i else i + 1] {}
    forall i | 0 < i < |t'.free| ensures t'.free[i] == t.free[i - 1] && t'.free[i] != t'.free[0] {
      assert t.free[i - 1] in t.free;
    }
    forall i | 0 <= i < |t'.entries| ensures t'.entries[i].id !in t'.free {
      assert t'.entries[i].id !in t.free;
    }
  }

  lemma {:induction false} CleanKeepsSlots(t: Table, k: nat, now: nat, idle: nat)
    requires SlotsOk(t)
    ensures SlotsOk(CleanFrom(t, k, now, idle))
    decreases |t.entries| - k
  {
    if k < |t.entries| {
      if Stale(t.entries[k], now, idle) {
        CloseKeepsSlots(t, k);
        CleanKeepsSlots(Closed(t, k), k, now, idle);
      } else {
        CleanKeepsSlots(t, k + 1, now, idle);
      }
    }
  }

  lemma {:induction false} RunKeepsSlots(t: Table, ops: seq<Op>)
    requires SlotsOk(t)
    ensures SlotsOk(Exec(t, ops))
  {
    hide SlotsOk;
    if ops != [] {
      var before := ops[..|ops| - 1];
      RunKeepsSlots(t, before);
      var u := Exec(t, before);
      match ops[|ops| - 1]
      case Open(p) => OpenKeepsSlots(u, p);
      case Close(k) => if k < |u.entries| { CloseKeepsSlots(u, k); }
      case Touch(k, epoch) => if k < |u.entries| { TouchKeepsSlots(u, k, epoch); }
      case Clean(now, idle) => CleanKeepsSlots(u, 0, now, idle);
    }
  }

  lemma TouchKeepsSlots(t: Table, k: nat, epoch: nat)
    requires SlotsOk(t) && k < |t.entries|
    ensures SlotsOk(Touched(t, k, epoch))
  {
    var t' := Touched(t, k, epoch);
    forall i | 0 <= i < |t'.entries| ensures t'.entries[i].id == t.entries[i].id {}
  }

  ghost predicate DistinctNumbers(es: seq<Entry>) {
    && (forall i :: 0 <= i < |es| ==> ClientSes(es[i]) != 0)
    && (forall i, j :: 0 <= i < j < |es| ==> ClientSes(es[i]) != ClientSes(es[j]))
  }

  lemma SlotsGiveNumbers(t: Table)
    requires SlotsOk(t)
    ensures DistinctNumbers(t.entries)
  {
  }

  /** In every run, whoever takes part, the numbers clients see are distinct and not zero. */
  lemma NumbersAreDistinct(n: nat, ops: seq<Op>)
    requires n <= 65534
    ensures SlotsOk(Exec(Empty(n), ops)) && DistinctNumbers(Exec(Empty(n), ops).entries)
  {
    RunKeepsSlots(Empty(n), ops);
    SlotsGiveNumbers(Exec(Empty(n), ops));
  }

  // ---------------------------------------------------------------- the keys

  /** No two endpoints share a key. */
  ghost predicate UniqueKeys(es: seq<Entry>) {
    forall i, j, x, y :: 0 <= i < |es| && 0 <= j < |es| && Key(es[i], x) == Key(es[j], y) ==> (i == j && x == y)
  }

  /** The number a creation would give its client. */
  function NextNumber(t: Table): u16
    requires t.free != []
  {
    (t.free[0] + 1) % 65536
  }

  /** If this creation happens, the key it gives the client is nobody else's: it is
      no key of a session already there, nor the concentrator's own. */
  predicate Harmless(t: Table, p: Params) {
    Find(t.entries, p.acMac, p.acSes).Nowhere? && t.free != [] ==>
      Find(t.entries, p.cliMac, NextNumber(t)).Nowhere? && (p.cliMac, NextNumber(t)) != (p.acMac, p.acSes)
  }

  predicate Safe(t: Table, op: Op) { op.Open? ==> Harmless(t, op.p) }

  /** An operation keeps keys unique if and only if it is safe. */
  lemma OpenUniqueExactly(t: Table, p: Params)
    requires UniqueKeys(t.entries)
    ensures UniqueKeys(Step(t, Open(p)).entries) <==> Harmless(t, p)
  {
    if Find(t.entries, p.acMac, p.acSes).Nowhere? && t.free != [] {
      var es, num := Opened(t, p).entries, NextNumber(t);
      assert Key(es[0], ClientSide) == (p.cliMac, num) && Key(es[0], AcSide) == (p.acMac, p.acSes);
      match Find(t.entries, p.cliMac, num)
      case Found(k, side) => assert es[k + 1] == t.entries[k];
      case Nowhere =>
        forall i, j, x, y | 0 <= i < |es| && 0 <= j < |es| && Key(es[i], x) == Key(es[j], y) && Harmless(t, p)
          ensures i == j && x == y
        {
          assert i > 0 ==> es[i] == t.entries[i - 1] && t.entries[i - 1] in t.entries;
          assert j > 0 ==> es[j] == t.entries[j - 1] && t.entries[j - 1] in t.entries;
        }
    }
  }

  lemma CloseKeepsUnique(t: Table, k: nat)
    requires UniqueKeys(t.entries) && k < |t.entries|
    ensures UniqueKeys(Closed(t, k).entries)
  {
    var es := Closed(t, k).entries;
    forall i, j, x, y | 0 <= i < |es| && 0 <= j < |es| && Key(es[i], x) == Key(es[j], y) ensures i == j && x == y {
      assert es[i] == t.entries[if i < k then i else i + 1] && es[j] == t.entries[if j < k then j else j + 1];
    }
  }

  lemma {:induction false} CleanKeepsUnique(t: Table, k: nat, now: nat, idle: nat)
    requires UniqueKeys(t.entries)
    ensures UniqueKeys(CleanFrom(t, k, now, idle).entries)
    decreases |t.entries| - k
  {
    if k < |t.entries| {
      if Stale(t.entries[k], now, idle) {
        CloseKeepsUnique(t, k);
        CleanKeepsUnique(Closed(t, k), k, now, idle);
      } else {
        CleanKeepsUnique(t, k + 1, now, idle);
      }
    }
  }

  lemma StepUniqueExactly(t: Table, op: Op)
    requires UniqueKeys(t.entries)
    ensures UniqueKeys(Step(t, op).entries) <==> Safe(t, op)
  {
    match op
    case Open(p) => OpenUniqueExactly(t, p);
    case Close(k) => if k < |t.entries| { CloseKeepsUnique(t, k); }
    case Touch(k, epoch) =>
      if k < |t.entries| {
        forall i, x | 0 <= i < |t.entries| ensures Key(Step(t, op).entries[i], x) == Key(t.entries[i], x) {}
      }
    case Clean(now, idle) => CleanKeepsUnique(t, 0, now, idle);
  }

  // -------------------------------------------------- relaying as an involution

  /** If a frame of `mac` under `ses` goes to some end, then a frame of that end
      under the number it sees goes back to `mac` under `ses`, and from there to
      the same end again; the two are the two ends of one session. */
  ghost predicate AnswerReturns(t: Table, mac: Mac, ses: u16) {
    match Forward(t, mac, ses)
    case None => true
    case Some(to) =>
      && Forward(t, to.mac, to.ses).Some?
      && var back := Forward(t, to.mac, to.ses).value;
         && back.mac == mac && back.ses == ses
         && Forward(t, back.mac, back.ses) == Some(to)
         && exists k, side :: 0 <= k < |t.entries|
              && to == EndpointOf(t.entries[k], side) && back == EndpointOf(t.entries[k], Other(side))
  }

  ghost predicate Involutive(t: Table) { forall mac, ses :: AnswerReturns(t, mac, ses) }

  lemma UniqueGivesInvolution(t: Table)
    requires UniqueKeys(t.entries)
    ensures Involutive(t)
  {
    forall mac, ses ensures AnswerReturns(t, mac, ses) {
      match Find(t.entries, mac, ses)
      case Nowhere =>
      case Found(k, side) =>
        var to := EndpointOf(t.entries[k], Other(side));
        assert Key(t.entries[k], Other(side)) == (to.mac, to.ses) && t.entries[k] in t.entries;
        assert Find(t.entries, to.mac, to.ses).Found?;
        assert to == EndpointOf(t.entries[k], Other(side)) && Other(Other(side)) == side;
    }
  }

  lemma UniqueFind(es: seq<Entry>, k: nat, side: Side)
    requires UniqueKeys(es) && k < |es|
    ensures Find(es, Key(es[k], side).0, Key(es[k], side).1) == Found(k, side)
  {
    hide Key;
    assert es[k] in es;
    assert Find(es, Key(es[k], side).0, Key(es[k], side).1).Found?;
  }

  /** After a creation the new session's two keys come first. */
  lemma OpenedForward(t: Table, p: Params, mac: Mac, ses: u16)
    requires t.free != [] && Find(t.entries, p.acMac, p.acSes).Nowhere?
    ensures Forward(Step(t, Open(p)), mac, ses) ==
              if (mac, ses) == (p.cliMac, NextNumber(t)) then Some(Endpoint(p.ac, p.acMac, p.acSes))
              else if (mac, ses) == (p.acMac, p.acSes) then Some(Endpoint(p.cli, p.cliMac, NextNumber(t)))
              else Forward(t, mac, ses)
  {
    assert Opened(t, p).entries[1..] == t.entries;
  }

  /** The new client's key hides an old one, whose other end is no longer answered. */
  lemma HiddenKey(t: Table, p: Params, j: nat, y: Side)
    requires UniqueKeys(t.entries) && t.free != [] && Find(t.entries, p.acMac, p.acSes).Nowhere?
    requires j < |t.entries| && Key(t.entries[j], y) == (p.cliMac, NextNumber(t))
    ensures var key := Key(t.entries[j], Other(y)); !AnswerReturns(Step(t, Open(p)), key.0, key.1)
  {
    var t', e := Step(t, Open(p)), t.entries[j];
    var key := Key(e, Other(y));
    UniqueFind(t.entries, j, Other(y));
    OpenedForward(t, p, key.0, key.1);
    OpenedForward(t, p, p.cliMac, NextNumber(t));
    assert Key(e, y) != Key(e, Other(y)) && key != (p.acMac, p.acSes) by { assert e in t.entries; }
    hide UniqueKeys, Find, Step;
    assert Forward(t', key.0, key.1) == Some(EndpointOf(e, y));
    assert Forward(t', p.cliMac, NextNumber(t)) == Some(Endpoint(p.ac, p.acMac, p.acSes));
  }

  /** Both ends of the new session have one key: a frame goes back where it came from. */
  lemma OwnKeyTwice(t: Table, p: Params)
    requires t.free != [] && Find(t.entries, p.acMac, p.acSes).Nowhere? && p.ac != p.cli
    requires (p.cliMac, NextNumber(t)) == (p.acMac, p.acSes)
    ensures !AnswerReturns(Step(t, Open(p)), p.acMac, p.acSes)
  {
    var es, to := Step(t, Open(p)).entries, Endpoint(p.ac, p.acMac, p.acSes);
    assert Key(es[0], ClientSide) == Key(es[0], AcSide) == (p.acMac, p.acSes);
    assert Forward(Step(t, Open(p)), p.acMac, p.acSes) == Some(to);
    forall k, side | 0 <= k < |es| && to == EndpointOf(es[k], side) ensures to != EndpointOf(es[k], Other(side)) {
      assert k > 0 ==> es[k] == t.entries[k - 1] && t.entries[k - 1] in t.entries;
      assert Key(es[k], side) == (p.acMac, p.acSes);
    }
  }

  /** A creation that is not harmless misdirects answers at once. */
  lemma HarmMisdirects(t: Table, p: Params) returns (mac: Mac, ses: u16)
    requires UniqueKeys(t.entries) && p.ac != p.cli && !Harmless(t, p)
    ensures !AnswerReturns(Step(t, Open(p)), mac, ses)
  {
    hide UniqueKeys, AnswerReturns, Step;
    match Find(t.entries, p.cliMac, NextNumber(t))
    case Found(j, y) =>
      mac, ses := Key(t.entries[j], Other(y)).0, Key(t.entries[j], Other(y)).1;
      HiddenKey(t, p, j, y);
    case Nowhere =>
      mac, ses := p.acMac, p.acSes;
      OwnKeyTwice(t, p);
  }

  // ------------------------------------------------------------ over whole runs

  /** Every operation is safe when it comes. */
  ghost predicate SafeRun(t: Table, ops: seq<Op>) {
    ops == [] || (SafeRun(t, ops[..|ops| - 1]) && Safe(Exec(t, ops[..|ops| - 1]), ops[|ops| - 1]))
  }

  ghost predicate AlwaysUnique(t: Table, ops: seq<Op>) {
    UniqueKeys(Exec(t, ops).entries) && (ops == [] || AlwaysUnique(t, ops[..|ops| - 1]))
  }

  ghost predicate AlwaysInvolutive(t: Table, ops: seq<Op>) {
    Involutive(Exec(t, ops)) && (ops == [] || AlwaysInvolutive(t, ops[..|ops| - 1]))
  }

  /** Keys stay unique throughout a run if and only if every creation is harmless when it happens. */
  lemma {:induction false} UniqueExactly(t: Table, ops: seq<Op>)
    requires UniqueKeys(t.entries)
    ensures AlwaysUnique(t, ops) <==> SafeRun(t, ops)
  {
    hide UniqueKeys, Safe;
    if ops != [] {
      var before := ops[..|ops| - 1];
      UniqueExactly(t, before);
      if AlwaysUnique(t, before) {
        StepUniqueExactly(Exec(t, before), ops[|ops| - 1]);
      }
    }
  }

  /** Answers find their way back throughout a run if and only if every creation is
      harmless when it happens. */
  lemma {:induction false} InvolutiveExactly(t: Table, ops: seq<Op>)
    requires UniqueKeys(t.entries) && Between(ops)
    ensures AlwaysInvolutive(t, ops) <==> SafeRun(t, ops)
  {
    hide UniqueKeys, Harmless, Involutive;
    UniqueExactly(t, ops);
    if ops == [] {
      UniqueGivesInvolution(t);
    } else {
      var before, op := ops[..|ops| - 1], ops[|ops| - 1];
      var u := Exec(t, before);
      InvolutiveExactly(t, before);
      UniqueExactly(t, before);
      if SafeRun(t, ops) {
        UniqueGivesInvolution(Exec(t, ops));
      } else if SafeRun(t, before) {
        var mac, ses := HarmMisdirects(u, op.p);
        NotInvolutive(Exec(t, ops), mac, ses);
      }
    }
  }

  lemma NotInvolutive(t: Table, mac: Mac, ses: u16)
    requires !AnswerReturns(t, mac, ses)
    ensures !Involutive(t)
  {
  }

  // ------------------------------------------- clients and concentrators apart

  ghost predicate MacsOk(isAc: Mac -> bool, t: Table) {
    forall i :: 0 <= i < |t.entries| ==> isAc(t.entries[i].acMac) && !isAc(t.entries[i].cliMac)
  }

  ghost predicate Inv(isAc: Mac -> bool, t: Table) { SlotsOk(t) && MacsOk(isAc, t) && UniqueKeys(t.entries) }

  /** Between a client and a concentrator a creation is harmless: client numbers are
      distinct, and no concentrator has a client's MAC. */
  lemma ProperIsHarmless(isAc: Mac -> bool, t: Table, p: Params)
    requires SlotsOk(t) && MacsOk(isAc, t) && isAc(p.acMac) && !isAc(p.cliMac)
    ensures Harmless(t, p)
  {
    if t.free != [] {
      assert t.free[0] in t.free;
      forall i, side | 0 <= i < |t.entries| ensures Key(t.entries[i], side) != (p.cliMac, NextNumber(t)) {
        assert ClientSes(t.entries[i]) == t.entries[i].id + 1 && NextNumber(t) == t.free[0] + 1;
      }
    }
  }

  lemma {:induction false} CleanKeepsMacs(isAc: Mac -> bool, t: Table, k: nat, now: nat, idle: nat)
    requires MacsOk(isAc, t)
    ensures MacsOk(isAc, CleanFrom(t, k, now, idle))
    decreases |t.entries| - k
  {
    if k < |t.entries| {
      if Stale(t.entries[k], now, idle) {
        CleanKeepsMacs(isAc, Closed(t, k), k, now, idle);
      } else {
        CleanKeepsMacs(isAc, t, k + 1, now, idle);
      }
    }
  }

  lemma {:induction false} ProperIsSafe(isAc: Mac -> bool, t: Table, ops: seq<Op>)
    requires SlotsOk(t) && MacsOk(isAc, t) && Proper(isAc, ops)
    ensures SafeRun(t, ops) && MacsOk(isAc, Exec(t, ops))
  {
    hide SlotsOk, Harmless;
    if ops != [] {
      var before, op := ops[..|ops| - 1], ops[|ops| - 1];
      var u := Exec(t, before);
      ProperIsSafe(isAc, t, before);
      RunKeepsSlots(t, before);
      match op
      case Open(p) => ProperIsHarmless(isAc, u, p);
      case Clean(now, idle) => CleanKeepsMacs(isAc, u, 0, now, idle);
      case Close(_) =>
      case Touch(_, _) =>
    }
  }

  lemma RunKeeps(isAc: Mac -> bool, n: nat, ops: seq<Op>)
    requires n <= 65534 && Proper(isAc, ops)
    ensures Inv(isAc, Exec(Empty(n), ops))
  {
    ProperIsSafe(isAc, Empty(n), ops);
    UniqueExactly(Empty(n), ops);
    RunKeepsSlots(Empty(n), ops);
  }

  // ------------------------------------------------------------ main results

  /** Over every run between clients and concentrators no two endpoints share a key,
      and the numbers the clients see are distinct and not zero. */
  lemma KeysAreUnique(isAc: Mac -> bool, n: nat, ops: seq<Op>)
    requires n <= 65534 && Proper(isAc, ops)
    ensures UniqueKeys(Exec(Empty(n), ops).entries) && DistinctNumbers(Exec(Empty(n), ops).entries)
  {
    RunKeeps(isAc, n, ops);
    SlotsGiveNumbers(Exec(Empty(n), ops));
  }

  /** Over every such run relaying is an involution on MACs and numbers; the answer
      leaves through the interface recorded for the end with that MAC and number. */
  lemma ForwardingIsAnInvolution(isAc: Mac -> bool, n: nat, ops: seq<Op>, mac: Mac, ses: u16)
    requires n <= 65534 && Proper(isAc, ops)
    ensures AnswerReturns(Exec(Empty(n), ops), mac, ses) && AnswerIsRecorded(Exec(Empty(n), ops), mac, ses)
  {
    RunKeeps(isAc, n, ops);
    UniqueGivesInvolution(Exec(Empty(n), ops));
    UniqueGivesRecorded(Exec(Empty(n), ops), mac, ses);
  }

  /** The answer goes to the end found under this MAC and number, as it is recorded. */
  ghost predicate AnswerIsRecorded(t: Table, mac: Mac, ses: u16) {
    match Find(t.entries, mac, ses)
    case Nowhere => true
    case Found(k, side) =>
      var to := EndpointOf(t.entries[k], Other(side));
      Forward(t, to.mac, to.ses) == Some(EndpointOf(t.entries[k], side))
  }

  lemma UniqueGivesRecorded(t: Table, mac: Mac, ses: u16)
    requires UniqueKeys(t.entries)
    ensures AnswerIsRecorded(t, mac, ses)
  {
    match Find(t.entries, mac, ses)
    case Nowhere =>
    case Found(k, side) => UniqueFind(t.entries, k, Other(side));
  }

  const X: Mac := [2, 0, 0, 0, 0, 1]
  const Y: Mac := [2, 0, 0, 0, 0, 2]
  const Z: Mac := [2, 0, 0, 0, 0, 3]

  /** Disjoint MACs suffice; the exact condition is `Harmless`. Here the station `Y`
      is access concentrator of one session and client of another, its two keys are
      the same, and what it answers to `Z` is passed to `X`. */
  lemma SharedMacBreaksIt() returns (t: Table)
    ensures t == Exec(Empty(2), [Open(Params(0, 0, 1, Y, Z, 2)), Open(Params(0, 0, 1, X, Y, 7))])
    ensures Forward(t, Z, 1) == Some(Endpoint(0, Y, 2)) && Forward(t, Y, 2) == Some(Endpoint(0, X, 7))
  {
    var t0 := Table(2, [], [0, 1]);
    assert Empty(2) == t0;
    var p, q := Params(0, 0, 1, Y, Z, 2), Params(0, 0, 1, X, Y, 7);
    var e, f := Entry(0, 0, 1, Y, Z, 2, 0), Entry(1, 0, 1, X, Y, 7, 0);
    var ops := [Open(p), Open(q)];
    assert ops[..1] == [Open(p)] && ops[..1][..0] == [];
    var t1 := Step(t0, Open(p));
    assert t1.entries == [e] && t1.free == [1];
    assert X[5] != Y[5] && Z[5] != Y[5] && X[5] != Z[5];
    assert [e][1..] == [] && Find([], X, 7) == Nowhere;
    t := Step(t1, Open(q));
    assert t.entries == [f, e];
    assert Exec(t0, ops[..1]) == Step(Exec(t0, []), Open(p));
    assert Exec(t0, ops) == Step(t1, Open(q));
    assert [f, e][1..] == [e];
    assert Find([e], Z, 1) == Found(0, ClientSide);
  }
}
