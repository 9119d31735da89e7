/** The session table of the PPPoE relay. Sessions and hash entries live in two
    arrays allocated once; `Mem` is the memory, `Shape` the lists its links
    spell out, `Table` the plain table the whole structure stands for. */
module RelayTable {
  import opened LinkedLists
  import opened Octets

  const HASHTAB_SIZE: nat := 18917

  type BucketIndex = n: nat | n < HASHTAB_SIZE
  /** How a peer's MAC and session number pick a bucket; everything below holds for any choice. */
  type Bucketing = (Mac, u16) -> BucketIndex

  /** The fields other than the links. */
  datatype Session = Session(acHash: int, clientHash: int, epoch: nat, sesNum: u16)
  datatype Hash = Hash(peer: int, iface: nat, peerMac: Mac, sesNum: u16, ses: int)

  datatype Mem = Mem(
    sesLinks: seq<Link>, sessions: seq<Session>, hashLinks: seq<Link>, hashes: seq<Hash>,
    buckets: seq<int>, freeSessions: int, activeSessions: int, freeHashes: int, numSessions: nat)

  datatype Shape = Shape(active: seq<nat>, free: seq<nat>, chains: seq<seq<nat>>, freeHashes: seq<nat>)

  /** The exclusive-or of the six address bytes and the session number that the relay uses. */
  function RelayHash(mac: Mac, sesNum: u16): bv32 {
    var ans1 := (mac[0] as bv32) | ((mac[1] as bv32) << 8) | ((mac[2] as bv32) << 16) | ((mac[3] as bv32) << 24);
    var ans2 := (sesNum as bv32) | ((mac[4] as bv32) << 16) | ((mac[5] as bv32) << 24);
    ans1 ^ ans2
  }

  const RELAY_BUCKETING: Bucketing := (mac, sesNum) => (RelayHash(mac, sesNum) as nat) % HASHTAB_SIZE

  function SesAt(m: Mem, i: int): Session {
    if 0 <= i < |m.sessions| then m.sessions[i] else Session(NIL, NIL, 0, 0)
  }
  function HashAt(m: Mem, i: int): Hash {
    if 0 <= i < |m.hashes| then m.hashes[i] else Hash(NIL, 0, [0, 0, 0, 0, 0, 0], 0, NIL)
  }
  function PutSes(m: Mem, i: int, s: Session): Mem {
    if 0 <= i < |m.sessions| then m.(sessions := m.sessions[i := s]) else m
  }
  function PutHash(m: Mem, i: int, h: Hash): Mem {
    if 0 <= i < |m.hashes| then m.(hashes := m.hashes[i := h]) else m
  }
  function BucketOf(bo: Bucketing, h: Hash): BucketIndex { bo(h.peerMac, h.sesNum) }

  // ------------------------------------------------------------- the operations

  function AddHash(bo: Bucketing, m: Mem, h: int): Mem
    requires |m.buckets| == HASHTAB_SIZE
  {
    var b := BucketOf(bo, HashAt(m, h));
    m.(hashLinks := PushLinks(m.hashLinks, m.buckets[b], h), buckets := m.buckets[b := h])
  }

  function Unhash(bo: Bucketing, m: Mem, h: int): Mem
    requires |m.buckets| == HASHTAB_SIZE
  {
    var b := BucketOf(bo, HashAt(m, h));
    var p, n := LinkAt(m.hashLinks, h).prev, LinkAt(m.hashLinks, h).next;
    m.(hashLinks := SetNext(Bypass(m.hashLinks, p, n), h, m.freeHashes), freeHashes := h,
       buckets := if p == NIL then m.buckets[b := n] else m.buckets)
  }

  /** What a new session is made from. */
  datatype Params = Params(epoch: nat, ac: nat, cli: nat, acMac: Mac, cliMac: Mac, acSes: u16)

  /** The head of the free list moves to the front of the active list. */
  function Activate(m: Mem, epoch: nat): Mem {
    var s := m.freeSessions;
    var m1 := m.(freeSessions := LinkAt(m.sesLinks, s).next, numSessions := m.numSessions + 1,
                 sesLinks := PushLinks(m.sesLinks, m.activeSessions, s), activeSessions := s);
    PutSes(m1, s, SesAt(m1, s).(epoch := epoch))
  }

  /** Two free hash entries are taken and filled in for session `s`. */
  function FillHashes(m: Mem, s: int, p: Params): Mem {
    var a := m.freeHashes;
    var c := LinkAt(m.hashLinks, a).next;
    var m1 := m.(freeHashes := LinkAt(m.hashLinks, c).next);
    var m2 := PutSes(m1, s, SesAt(m1, s).(acHash := a, clientHash := c));
    var m3 := PutHash(m2, a, Hash(c, p.ac, p.acMac, p.acSes, s));
    PutHash(m3, c, Hash(a, p.cli, p.cliMac, SesAt(m, s).sesNum, s))
  }

  function CreateSession(bo: Bucketing, m: Mem, p: Params): Mem
    requires |m.buckets| == HASHTAB_SIZE
  {
    if m.numSessions >= |m.sessions| then m else
    var s := m.freeSessions;
    var m2 := FillHashes(Activate(m, p.epoch), s, p);
    AddHash(bo, AddHash(bo, m2, SesAt(m2, s).acHash), SesAt(m2, s).clientHash)
  }

  function Deactivate(m: Mem, s: int): Mem {
    var p, n := LinkAt(m.sesLinks, s).prev, LinkAt(m.sesLinks, s).next;
    m.(activeSessions := if p == NIL then n else m.activeSessions,
       sesLinks := SetNext(Bypass(m.sesLinks, p, n), s, m.freeSessions), freeSessions := s)
  }

  function FreeSession(bo: Bucketing, m: Mem, s: int): Mem
    requires |m.buckets| == HASHTAB_SIZE
  {
    var m1 := Deactivate(m, s);
    var m2 := Unhash(bo, Unhash(bo, m1, SesAt(m, s).acHash), SesAt(m, s).clientHash);
    m2.(numSessions := if m.numSessions > 0 then m.numSessions - 1 else 0)
  }

  // ------------------------------------------------------------ the hash table

  /** One bucket: its chain is linked both ways and holds only entries of this bucket. */
  ghost predicate BucketOk(bo: Bucketing, m: Mem, head: int, l: seq<nat>, b: nat) {
    && Chain(m.hashLinks, head, l)
    && forall x :: x in l ==> x < |m.hashes| && BucketOf(bo, m.hashes[x]) == b
  }

  /** Every entry is free, or in the chain of its own bucket, or one of the `loose` ones. */
  ghost predicate PlaceOk(bo: Bucketing, m: Mem, g: Shape, loose: set<nat>, h: nat)
    requires h < |m.hashes| && |g.chains| == HASHTAB_SIZE
  {
    var chained := h in g.chains[BucketOf(bo, m.hashes[h])];
    if h in g.freeHashes then h !in loose && !chained else (h in loose) != chained
  }

  ghost predicate HashesOk(bo: Bucketing, m: Mem, g: Shape, loose: set<nat>) {
    && |m.buckets| == HASHTAB_SIZE && |g.chains| == HASHTAB_SIZE && |m.hashLinks| == |m.hashes|
    && (forall b :: 0 <= b < HASHTAB_SIZE ==> BucketOk(bo, m, m.buckets[b], g.chains[b], b))
    && Stack(m.hashLinks, m.freeHashes, g.freeHashes)
    && (forall h :: 0 <= h < |m.hashes| ==> PlaceOk(bo, m, g, loose, h))
  }

  /** An entry is in no chain but its own. */
  lemma OnlyInOwnChain(bo: Bucketing, m: Mem, g: Shape, loose: set<nat>, h: nat, b: nat)
    requires HashesOk(bo, m, g, loose) && b < HASHTAB_SIZE && h in g.chains[b]
    ensures h < |m.hashes| && b == BucketOf(bo, m.hashes[h]) && h !in loose && h !in g.freeHashes
  {
    assert BucketOk(bo, m, m.buckets[b], g.chains[b], b);
    assert PlaceOk(bo, m, g, loose, h);
  }

  /** Relinking loose entries and entries of chain `b` disturbs no other chain and no free entry. */
  lemma OthersFrame(bo: Bucketing, m: Mem, g: Shape, loose: set<nat>, b: nat, m': Mem)
    requires HashesOk(bo, m, g, loose) && b < HASHTAB_SIZE
    requires |m'.hashLinks| == |m.hashLinks| && m'.hashes == m.hashes
    requires forall x :: 0 <= x < |m.hashes| && x !in loose && x !in g.chains[b] ==>
               m'.hashLinks[x] == m.hashLinks[x]
    ensures forall c :: 0 <= c < HASHTAB_SIZE && c != b ==> BucketOk(bo, m', m.buckets[c], g.chains[c], c)
    ensures Stack(m'.hashLinks, m.freeHashes, g.freeHashes)
  {
    forall c | 0 <= c < HASHTAB_SIZE && c != b ensures BucketOk(bo, m', m.buckets[c], g.chains[c], c) {
      forall x | x in g.chains[c] ensures x < |m.hashes| && m'.hashLinks[x] == m.hashLinks[x] {
        OnlyInOwnChain(bo, m, g, loose, x, c);
        if x in g.chains[b] { OnlyInOwnChain(bo, m, g, loose, x, b); }
      }
      assert BucketOk(bo, m, m.buckets[c], g.chains[c], c);
      ChainFrame(m.hashLinks, m'.hashLinks, m.buckets[c], g.chains[c]);
    }
    forall x | x in g.freeHashes ensures x < |m.hashes| && m'.hashLinks[x] == m.hashLinks[x] {
      assert PlaceOk(bo, m, g, loose, x);
      if x in g.chains[b] { OnlyInOwnChain(bo, m, g, loose, x, b); }
    }
    StackFrame(m.hashLinks, m'.hashLinks, m.freeHashes, g.freeHashes);
  }

  ghost function Pushed(bo: Bucketing, m: Mem, g: Shape, h: nat): Shape
    requires |g.chains| == HASHTAB_SIZE
  {
    var b := BucketOf(bo, HashAt(m, h));
    g.(chains := g.chains[b := [h] + g.chains[b]])
  }

  lemma AddHashKeeps(bo: Bucketing, m: Mem, g: Shape, loose: set<nat>, h: nat)
    requires HashesOk(bo, m, g, loose) && h in loose && h < |m.hashes|
    ensures HashesOk(bo, AddHash(bo, m, h), Pushed(bo, m, g, h), loose - {h})
  {
    var b := BucketOf(bo, m.hashes[h]);
    var m', l, g' := AddHash(bo, m, h), g.chains[b], Pushed(bo, m, g, h);
    assert BucketOk(bo, m, m.buckets[b], l, b);
    assert h !in l by { if h in l { OnlyInOwnChain(bo, m, g, loose, h, b); } }
    PushKeepsChain(m.hashLinks, l, h);
    OthersFrame(bo, m, g, loose, b, m');
    assert BucketOk(bo, m', h, [h] + l, b);
    forall c | 0 <= c < HASHTAB_SIZE ensures BucketOk(bo, m', m'.buckets[c], g'.chains[c], c) {
    }
    forall x | 0 <= x < |m'.hashes| ensures PlaceOk(bo, m', g', loose - {h}, x) {
      assert PlaceOk(bo, m, g, loose, x) && PlaceOk(bo, m, g, loose, h);
    }
  }

  ghost predicate InChainAt(bo: Bucketing, m: Mem, g: Shape, h: nat, i: nat) {
    && h < |m.hashes| && |g.chains| == HASHTAB_SIZE
    && var l := g.chains[BucketOf(bo, m.hashes[h])]; i < |l| && l[i] == h
  }

  ghost function Popped(bo: Bucketing, m: Mem, g: Shape, h: nat, i: nat): Shape
    requires InChainAt(bo, m, g, h, i)
  {
    var b := BucketOf(bo, m.hashes[h]);
    g.(chains := g.chains[b := Remove(g.chains[b], i)], freeHashes := [h] + g.freeHashes)
  }

  lemma UnhashKeeps(bo: Bucketing, m: Mem, g: Shape, loose: set<nat>, h: nat, i: nat)
    requires HashesOk(bo, m, g, loose) && InChainAt(bo, m, g, h, i)
    ensures HashesOk(bo, Unhash(bo, m, h), Popped(bo, m, g, h, i), loose)
  {
    var b := BucketOf(bo, m.hashes[h]);
    var m', l, g' := Unhash(bo, m, h), g.chains[b], Popped(bo, m, g, h, i);
    assert BucketOk(bo, m, m.buckets[b], l, b);
    assert m.hashLinks[l[i]] == Link(At(l, i + 1), At(l, i - 1));
    assert h in l;
    BypassKeepsChain(m.hashLinks, m.buckets[b], l, i);
    var mid := m.(hashLinks := Bypass(m.hashLinks, At(l, i - 1), At(l, i + 1)));
    OthersFrame(bo, m, g, loose, b, mid);
    OnlyInOwnChain(bo, m, g, loose, h, b);
    PushKeepsStack(mid.hashLinks, g.freeHashes, h);
    forall c | 0 <= c < HASHTAB_SIZE ensures BucketOk(bo, m', m'.buckets[c], g'.chains[c], c) {
      forall x | x in g'.chains[c]
        ensures x < |m.hashes| && m'.hashLinks[x] == mid.hashLinks[x] && BucketOf(bo, m.hashes[x]) == c
      {
        if c == b {
          RemoveMembers(m.hashLinks, m.buckets[b], l, i, x);
        } else {
          OnlyInOwnChain(bo, m, g, loose, x, c);
        }
      }
      ChainFrame(mid.hashLinks, m'.hashLinks, m'.buckets[c], g'.chains[c]);
    }
    forall x | 0 <= x < |m'.hashes| ensures PlaceOk(bo, m', g', loose, x) {
      assert PlaceOk(bo, m, g, loose, x);
      RemoveMembers(m.hashLinks, m.buckets[b], l, i, x);
    }
  }

  /** Unlinking takes the entry out of every chain it is in, which is only its own. */
  lemma PoppedDrops(bo: Bucketing, m: Mem, g: Shape, h: nat, i: nat, b: nat)
    requires HashesOk(bo, m, g, {}) && InChainAt(bo, m, g, h, i) && b < HASHTAB_SIZE
    ensures Popped(bo, m, g, h, i).chains[b] == Drop(g.chains[b], h)
  {
    var l := g.chains[b];
    assert BucketOk(bo, m, m.buckets[b], l, b);
    if b == BucketOf(bo, m.hashes[h]) {
      assert h !in l[..i] by {
        if h in l[..i] {
          var j :| 0 <= j < i && l[..i][j] == h;
          ChainDistinct(m.hashLinks, m.buckets[b], l, j, i);
        }
      }
      DropIsRemove(l, i);
    } else {
      if h in l { OnlyInOwnChain(bo, m, g, {}, h, b); }
      DropAbsent(l, h);
    }
  }

  // ------------------------------------------------------------- the whole table

  ghost predicate ListsOk(m: Mem, g: Shape) {
    && |m.sesLinks| == |m.sessions| < 65535
    && Chain(m.sesLinks, m.activeSessions, g.active) && Stack(m.sesLinks, m.freeSessions, g.free)
    && m.numSessions == |g.active| && |g.active| + |g.free| == |m.sessions|
    && |m.hashes| == 2 * |m.sessions| && |g.freeHashes| == 2 * (|m.sessions| - |g.active|)
    && (forall s :: 0 <= s < |m.sessions| ==> (s in g.active) != (s in g.free))
    && (forall s :: 0 <= s < |m.sessions| ==> m.sessions[s].sesNum == s + 1)
  }

  /** An active session and its two hash entries point at each other. */
  ghost predicate Paired(m: Mem, g: Shape, s: nat) {
    var a, c := SesAt(m, s).acHash, SesAt(m, s).clientHash;
    && 0 <= a < |m.hashes| && 0 <= c < |m.hashes| && a != c
    && a !in g.freeHashes && c !in g.freeHashes
    && m.hashes[a].peer == c && m.hashes[c].peer == a && m.hashes[a].ses == m.hashes[c].ses == s
    && m.hashes[c].sesNum == SesAt(m, s).sesNum
  }

  /** A hash entry in use belongs to an active session. */
  ghost predicate Used(m: Mem, g: Shape, h: nat) {
    var s := HashAt(m, h).ses;
    0 <= s && s in g.active && (h == SesAt(m, s).acHash || h == SesAt(m, s).clientHash)
  }

  ghost predicate PairsOk(m: Mem, g: Shape) {
    && (forall s :: s in g.active ==> Paired(m, g, s))
    && (forall h :: 0 <= h < |m.hashes| && h !in g.freeHashes ==> Used(m, g, h))
  }

  ghost predicate Ok(bo: Bucketing, m: Mem, g: Shape) {
    HashesOk(bo, m, g, {}) && ListsOk(m, g) && PairsOk(m, g)
  }

  // ---------------------------------------------------------- creating a session

  lemma ActivateKeeps(m: Mem, g: Shape, epoch: nat)
    requires ListsOk(m, g) && g.free != []
    ensures var m', s := Activate(m, epoch), g.free[0];
            && m.freeSessions == s < |m.sessions| && s !in g.active
            && Chain(m'.sesLinks, s, [s] + g.active) && m'.activeSessions == s
            && Stack(m'.sesLinks, m'.freeSessions, g.free[1..])
            && |m'.sesLinks| == |m.sesLinks|
            && (forall x :: 0 <= x < |m.sessions| ==> (x == s || x in g.active) != (x in g.free[1..]))
            && m'.sessions == m.sessions[s := m.sessions[s].(epoch := epoch)]
  {
    var s := g.free[0];
    PopKeepsStack(m.sesLinks, m.freeSessions, g.free);
    assert s in g.free;
    PushKeepsChain(m.sesLinks, g.active, s);
    var m' := Activate(m, epoch);
    forall x | x in g.free[1..] ensures x < |m.sesLinks| && m'.sesLinks[x].next == m.sesLinks[x].next {
      assert x in g.free;
    }
    StackFrame(m.sesLinks, m'.sesLinks, m'.freeSessions, g.free[1..]);
  }

  /** After the fill the two entries are loose: taken from the free list, in no chain yet. */
  lemma FillKeeps(bo: Bucketing, m: Mem, g: Shape, s: nat, p: Params)
    requires HashesOk(bo, m, g, {}) && |g.freeHashes| >= 2
    ensures var m', a, c := FillHashes(m, s, p), g.freeHashes[0], g.freeHashes[1];
            && a != c && a < |m.hashes| && c < |m.hashes|
            && HashesOk(bo, m', g.(freeHashes := g.freeHashes[2..]), {a, c})
            && m'.hashes == m.hashes[a := Hash(c, p.ac, p.acMac, p.acSes, s)]
                                    [c := Hash(a, p.cli, p.cliMac, SesAt(m, s).sesNum, s)]
            && m' == PutSes(m, s, SesAt(m, s).(acHash := a, clientHash := c))
                       .(hashes := m'.hashes, freeHashes := m'.freeHashes)
  {
    var m', l := FillHashes(m, s, p), g.freeHashes;
    var a, c := l[0], l[1];
    StackDistinct(m.hashLinks, m.freeHashes, l, 0, 1);
    assert m.hashLinks[l[0]].next == At(l, 1) && m.hashLinks[l[1]].next == At(l, 2);
    PopKeepsStack(m.hashLinks, m.freeHashes, l);
    PopKeepsStack(m.hashLinks, l[1], l[1..]);
    assert l[1..][1..] == l[2..];
    assert a in l && c in l;
    var g' := g.(freeHashes := l[2..]);
    forall b | 0 <= b < HASHTAB_SIZE ensures BucketOk(bo, m', m'.buckets[b], g'.chains[b], b) {
      assert BucketOk(bo, m, m.buckets[b], g.chains[b], b);
      forall x | x in g.chains[b] ensures x != a && x != c { OnlyInOwnChain(bo, m, g, {}, x, b); }
    }
    forall x | 0 <= x < |m'.hashes| ensures PlaceOk(bo, m', g', {a, c}, x) {
      assert PlaceOk(bo, m, g, {}, x);
      if x == a || x == c {
        var b := BucketOf(bo, m'.hashes[x]);
        assert x in g.freeHashes;
        if x in g.chains[b] {
          OnlyInOwnChain(bo, m, g, {}, x, b);
          assert false;
        }
      }
    }
  }

  ghost function Created(bo: Bucketing, m: Mem, g: Shape, p: Params): Shape
    requires |g.chains| == HASHTAB_SIZE && g.free != [] && |g.freeHashes| >= 2
  {
    var s, a, c := g.free[0], g.freeHashes[0], g.freeHashes[1];
    var m2 := FillHashes(Activate(m, p.epoch), s, p);
    Pushed(bo, m2, Pushed(bo, m2, Shape([s] + g.active, g.free[1..], g.chains, g.freeHashes[2..]), a), c)
  }

  lemma CreateHashes(bo: Bucketing, m: Mem, g: Shape, p: Params)
    requires HashesOk(bo, m, g, {}) && |g.freeHashes| >= 2 && g.free != [] && g.free[0] < |m.sessions|
    requires m.freeSessions == g.free[0] && m.numSessions < |m.sessions|
    ensures var m', s, a, c := CreateSession(bo, m, p), g.free[0], g.freeHashes[0], g.freeHashes[1];
            && HashesOk(bo, m', Created(bo, m, g, p), {})
            && a != c && a < |m.hashes| && c < |m.hashes|
            && m'.sessions == m.sessions[s := Session(a, c, p.epoch, m.sessions[s].sesNum)]
            && m'.hashes == m.hashes[a := Hash(c, p.ac, p.acMac, p.acSes, s)]
                                    [c := Hash(a, p.cli, p.cliMac, m.sessions[s].sesNum, s)]
            && m'.(hashLinks := m.hashLinks, hashes := m.hashes, buckets := m.buckets,
                   freeHashes := m.freeHashes, sessions := m.sessions)
               == Activate(m, p.epoch).(sessions := m.sessions)
  {
    hide PlaceOk, BucketOk, HashesOk, PushLinks;
    var s, a, c := g.free[0], g.freeHashes[0], g.freeHashes[1];
    var m1 := Activate(m, p.epoch);
    HashesFrame(bo, m, g, m1, g, {});
    FillKeeps(bo, m1, g, s, p);
    var m2 := FillHashes(m1, s, p);
    var g2 := Shape([s] + g.active, g.free[1..], g.chains, g.freeHashes[2..]);
    HashesFrame(bo, m2, g.(freeHashes := g.freeHashes[2..]), m2, g2, {a, c});
    AddHashKeeps(bo, m2, g2, {a, c}, a);
    AddHashKeeps(bo, AddHash(bo, m2, a), Pushed(bo, m2, g2, a), {a, c} - {a}, c);
    assert {a, c} - {a} - {c} == {};
  }

  lemma CreateKeeps(bo: Bucketing, m: Mem, g: Shape, p: Params)
    requires Ok(bo, m, g) && m.numSessions < |m.sessions|
    ensures var m', s, a, c := CreateSession(bo, m, p), g.free[0], g.freeHashes[0], g.freeHashes[1];
            && Ok(bo, m', Created(bo, m, g, p)) && s < |m.sessions| && s !in g.active
            && m'.sessions == m.sessions[s := Session(a, c, p.epoch, m.sessions[s].sesNum)]
            && a != c && a < |m.hashes| && c < |m.hashes|
            && m'.hashes == m.hashes[a := Hash(c, p.ac, p.acMac, p.acSes, s)]
                                    [c := Hash(a, p.cli, p.cliMac, m.sessions[s].sesNum, s)]
  {
    hide PlaceOk, BucketOk, Used, Paired, FillHashes, AddHash, CreateSession, PairsOk;
    ActivateKeeps(m, g, p.epoch);
    CreateHashes(bo, m, g, p);
    TwoFree(m, g);
    var m', g' := CreateSession(bo, m, p), Created(bo, m, g, p);
    CreatedPairs(m, g, m', g', p, g.free[0], g.freeHashes[0], g.freeHashes[1]);
  }

  lemma HashesFrame(bo: Bucketing, m: Mem, g: Shape, m': Mem, g': Shape, loose: set<nat>)
    requires HashesOk(bo, m, g, loose) && g'.chains == g.chains && g'.freeHashes == g.freeHashes
    requires m'.hashLinks == m.hashLinks && m'.hashes == m.hashes
    requires m'.buckets == m.buckets && m'.freeHashes == m.freeHashes
    ensures HashesOk(bo, m', g', loose)
  {
    forall b | 0 <= b < HASHTAB_SIZE ensures BucketOk(bo, m', m'.buckets[b], g'.chains[b], b) {
      assert BucketOk(bo, m, m.buckets[b], g.chains[b], b);
    }
    forall h | 0 <= h < |m'.hashes| ensures PlaceOk(bo, m', g', loose, h) {
      assert PlaceOk(bo, m, g, loose, h);
    }
  }

  /** The first two free entries and the rest of the free list. */
  lemma TwoFree(m: Mem, g: Shape)
    requires Stack(m.hashLinks, m.freeHashes, g.freeHashes) && |g.freeHashes| >= 2
    ensures var l := g.freeHashes;
            && l[0] != l[1] && l[0] < |m.hashLinks| && l[1] < |m.hashLinks|
            && (forall x :: x in l <==> x == l[0] || x == l[1] || x in l[2..])
            && l[0] !in l[2..] && l[1] !in l[2..]
  {
    var l := g.freeHashes;
    PopKeepsStack(m.hashLinks, m.freeHashes, l);
    PopKeepsStack(m.hashLinks, m.hashLinks[l[0]].next, l[1..]);
    assert l[1..][1..] == l[2..] && l[1..][0] == l[1];
  }

  lemma CreatedPairs(m: Mem, g: Shape, m': Mem, g': Shape, p: Params, s: nat, a: nat, c: nat)
    requires PairsOk(m, g) && s < |m.sessions| && s !in g.active && a != c && a < |m.hashes| && c < |m.hashes|
    requires forall x :: x in g.freeHashes <==> x == a || x == c || x in g'.freeHashes
    requires a !in g'.freeHashes && c !in g'.freeHashes && g'.active == [s] + g.active
    requires m'.sessions == m.sessions[s := Session(a, c, p.epoch, m.sessions[s].sesNum)]
    requires m'.hashes == m.hashes[a := Hash(c, p.ac, p.acMac, p.acSes, s)]
                                  [c := Hash(a, p.cli, p.cliMac, m.sessions[s].sesNum, s)]
    ensures PairsOk(m', g')
  {
    forall t | t in g'.active ensures Paired(m', g', t) {
      if t != s {
        assert t in g.active && Paired(m, g, t);
      }
    }
    forall h | 0 <= h < |m'.hashes| && h !in g'.freeHashes ensures Used(m', g', h) {
      if h != a && h != c {
        assert Used(m, g, h);
      }
    }
  }

  // ------------------------------------------------------------ freeing a session

  lemma DeactivateKeeps(m: Mem, g: Shape, k: nat)
    requires ListsOk(m, g) && k < |g.active|
    ensures var m', s := Deactivate(m, g.active[k]), g.active[k];
            && Chain(m'.sesLinks, m'.activeSessions, Remove(g.active, k))
            && m'.freeSessions == s && Stack(m'.sesLinks, s, [s] + g.free)
            && |m'.sesLinks| == |m.sesLinks|
            && (forall x :: 0 <= x < |m.sessions| ==>
                  (x in Remove(g.active, k)) != (x == s || x in g.free))
            && s !in Remove(g.active, k)
  {
    var s, r := g.active[k], Remove(g.active, k);
    assert s in g.active && m.sesLinks[g.active[k]] == Link(At(g.active, k + 1), At(g.active, k - 1));
    BypassKeepsChain(m.sesLinks, m.activeSessions, g.active, k);
    var mid := Bypass(m.sesLinks, At(g.active, k - 1), At(g.active, k + 1));
    forall x | x in g.free ensures x < |mid| && mid[x] == m.sesLinks[x] {
      assert x in g.free && x !in g.active;
    }
    StackFrame(m.sesLinks, mid, m.freeSessions, g.free);
    PushKeepsStack(mid, g.free, s);
    var m' := Deactivate(m, s);
    forall x | x in r ensures x < |mid| && m'.sesLinks[x] == mid[x] {
      RemoveMembers(m.sesLinks, m.activeSessions, g.active, k, x);
    }
    ChainFrame(mid, m'.sesLinks, m'.activeSessions, r);
    forall x | 0 <= x < |m.sessions| ensures (x in r) != (x == s || x in g.free) {
      RemoveMembers(m.sesLinks, m.activeSessions, g.active, k, x);
    }
    RemoveMembers(m.sesLinks, m.activeSessions, g.active, k, s);
  }

  /** A hash entry in use sits somewhere in the chain of its bucket. */
  lemma WhereInChain(bo: Bucketing, m: Mem, g: Shape, loose: set<nat>, h: nat) returns (i: nat)
    requires HashesOk(bo, m, g, loose) && h < |m.hashes| && h !in g.freeHashes && h !in loose
    ensures InChainAt(bo, m, g, h, i)
  {
    assert PlaceOk(bo, m, g, loose, h);
    var l := g.chains[BucketOf(bo, m.hashes[h])];
    i :| 0 <= i < |l| && l[i] == h;
  }

  lemma UnhashBoth(bo: Bucketing, m: Mem, g: Shape, a: nat, c: nat) returns (g': Shape)
    requires HashesOk(bo, m, g, {}) && a != c && a < |m.hashes| && c < |m.hashes|
    requires a !in g.freeHashes && c !in g.freeHashes
    ensures var m' := Unhash(bo, Unhash(bo, m, a), c);
            && HashesOk(bo, m', g', {})
            && m' == m.(hashLinks := m'.hashLinks, freeHashes := m'.freeHashes, buckets := m'.buckets)
    ensures g' == g.(chains := g'.chains, freeHashes := [c] + ([a] + g.freeHashes))
    ensures |g'.chains| == |g.chains| == HASHTAB_SIZE
    ensures forall b :: 0 <= b < HASHTAB_SIZE ==> g'.chains[b] == Drop(Drop(g.chains[b], a), c)
  {
    hide PlaceOk, BucketOk, Drop;
    var ia := WhereInChain(bo, m, g, {}, a);
    UnhashKeeps(bo, m, g, {}, a, ia);
    var m2, g2 := Unhash(bo, m, a), Popped(bo, m, g, a, ia);
    var ic := WhereInChain(bo, m2, g2, {}, c);
    UnhashKeeps(bo, m2, g2, {}, c, ic);
    g' := Popped(bo, m2, g2, c, ic);
    forall b | 0 <= b < HASHTAB_SIZE ensures g'.chains[b] == Drop(Drop(g.chains[b], a), c) {
      PoppedDrops(bo, m, g, a, ia, b);
      PoppedDrops(bo, m2, g2, c, ic, b);
    }
  }

  /** Every chain without the two entries of `s`. */
  ghost predicate Unchained(m: Mem, g: Shape, s: nat, g': Shape) {
    var a, c := SesAt(m, s).acHash, SesAt(m, s).clientHash;
    && 0 <= a && 0 <= c && |g'.chains| == |g.chains| == HASHTAB_SIZE
    && forall b :: 0 <= b < HASHTAB_SIZE ==> g'.chains[b] == Drop(Drop(g.chains[b], a), c)
  }

  lemma FreeKeeps(bo: Bucketing, m: Mem, g: Shape, k: nat) returns (g': Shape)
    requires Ok(bo, m, g) && k < |g.active|
    ensures var m' := FreeSession(bo, m, g.active[k]);
            && Ok(bo, m', g') && m'.sessions == m.sessions && m'.hashes == m.hashes
    ensures g'.active == Remove(g.active, k) && g'.free == [g.active[k]] + g.free
    ensures forall x :: x in g'.active ==> x in g.active && x != g.active[k]
    ensures Unchained(m, g, g.active[k], g')
  {
    var s := g.active[k];
    assert s in g.active && Paired(m, g, s);
    hide PlaceOk, BucketOk, Used, Unhash, HashesOk, Drop;
    var a, c := SesAt(m, s).acHash, SesAt(m, s).clientHash;
    DeactivateKeeps(m, g, k);
    var m1 := Deactivate(m, s);
    var g1 := g.(active := Remove(g.active, k), free := [s] + g.free);
    HashesFrame(bo, m, g, m1, g1, {});
    g' := UnhashBoth(bo, m1, g1, a, c);
    HashesFrame(bo, Unhash(bo, Unhash(bo, m1, a), c), g', FreeSession(bo, m, s), g', {});
    FreedPairs(bo, m, g, k, FreeSession(bo, m, s), g');
  }

  lemma FreedPairs(bo: Bucketing, m: Mem, g: Shape, k: nat, m': Mem, g': Shape)
    requires Ok(bo, m, g) && k < |g.active|
    requires m'.sessions == m.sessions && m'.hashes == m.hashes && g'.active == Remove(g.active, k)
    requires var s := g.active[k];
             g'.freeHashes == [SesAt(m, s).clientHash, SesAt(m, s).acHash] + g.freeHashes
               || g'.freeHashes == [SesAt(m, s).clientHash] + ([SesAt(m, s).acHash] + g.freeHashes)
    ensures PairsOk(m', g')
    ensures forall x :: x in g'.active <==> x in g.active && x != g.active[k]
  {
    var s := g.active[k];
    assert s in g.active && Paired(m, g, s);
    forall x: nat ensures x in g'.active <==> x in g.active && x != s {
      RemoveMembers(m.sesLinks, m.activeSessions, g.active, k, x);
    }
    forall t | t in g'.active ensures Paired(m', g', t) { assert Paired(m, g, t); }
    forall h | 0 <= h < |m'.hashes| && h !in g'.freeHashes ensures Used(m', g', h) {
      assert Used(m, g, h);
    }
  }

  // ------------------------------------------------------- what it all stands for

  /** One relayed session: who is on either side, and the access concentrator's session number. */
  datatype Entry = Entry(id: nat, ac: nat, cli: nat, acMac: Mac, cliMac: Mac, acSes: u16, epoch: nat)

  /** The sessions, newest first, and the free slots, next to be used first. */
  datatype Table = Table(size: nat, entries: seq<Entry>, free: seq<nat>)

  /** The number the client sees. */
  function ClientSes(e: Entry): u16 { (e.id + 1) % 65536 }

  function EntryOf(m: Mem, s: nat): Entry {
    var x := SesAt(m, s);
    var a, c := HashAt(m, x.acHash), HashAt(m, x.clientHash);
    Entry(s, a.iface, c.iface, a.peerMac, c.peerMac, a.sesNum, x.epoch)
  }

  ghost function Abstract(m: Mem, g: Shape): Table {
    Table(|m.sessions|, seq(|g.active|, i requires 0 <= i < |g.active| => EntryOf(m, g.active[i])), g.free)
  }

  function Opened(t: Table, p: Params): Table {
    if t.free == [] then t
    else t.(entries := [Entry(t.free[0], p.ac, p.cli, p.acMac, p.cliMac, p.acSes, p.epoch)] + t.entries,
            free := t.free[1..])
  }

  function Closed(t: Table, k: nat): Table
    requires k < |t.entries|
  {
    t.(entries := t.entries[..k] + t.entries[k + 1..], free := [t.entries[k].id] + t.free)
  }

  /** Old sessions read the same after a creation. */
  lemma EntryKept(bo: Bucketing, m: Mem, g: Shape, p: Params, t: nat)
    requires Ok(bo, m, g) && m.numSessions < |m.sessions| && t in g.active
    ensures EntryOf(CreateSession(bo, m, p), t) == EntryOf(m, t)
  {
    hide PlaceOk, BucketOk, Used, Created, CreateSession;
    CreateKeeps(bo, m, g, p);
    assert Paired(m, g, t);
    TwoFree(m, g);
  }

  lemma OpenedEntries(m: Mem, g: Shape, m': Mem, g': Shape, p: Params)
    requires g.free != [] && |m'.sessions| == |m.sessions|
    requires g'.active == [g.free[0]] + g.active && g'.free == g.free[1..]
    requires forall t :: t in g.active ==> EntryOf(m', t) == EntryOf(m, t)
    requires EntryOf(m', g.free[0]) == Entry(g.free[0], p.ac, p.cli, p.acMac, p.cliMac, p.acSes, p.epoch)
    ensures Abstract(m', g') == Opened(Abstract(m, g), p)
  {
    var es, es' := Opened(Abstract(m, g), p).entries, Abstract(m', g').entries;
    forall i | 0 <= i < |es'| ensures es'[i] == es[i] {
      if i > 0 {
        assert g'.active[i] == g.active[i - 1] && g.active[i - 1] in g.active;
      }
    }
    assert es' == es;
  }

  lemma CreateRefines(bo: Bucketing, m: Mem, g: Shape, p: Params)
    requires Ok(bo, m, g) && m.numSessions < |m.sessions|
    ensures Ok(bo, CreateSession(bo, m, p), Created(bo, m, g, p))
    ensures Abstract(CreateSession(bo, m, p), Created(bo, m, g, p)) == Opened(Abstract(m, g), p)
  {
    hide PlaceOk, BucketOk, Used, Paired, FillHashes, AddHash, CreateSession, PairsOk;
    CreateKeeps(bo, m, g, p);
    var m', g' := CreateSession(bo, m, p), Created(bo, m, g, p);
    forall t | t in g.active ensures EntryOf(m', t) == EntryOf(m, t) { EntryKept(bo, m, g, p, t); }
    OpenedEntries(m, g, m', g', p);
  }

  lemma ClosedEntries(m: Mem, g: Shape, m': Mem, g': Shape, k: nat)
    requires k < |g.active| && m'.sessions == m.sessions && m'.hashes == m.hashes
    requires g'.active == Remove(g.active, k) && g'.free == [g.active[k]] + g.free
    ensures Abstract(m', g') == Closed(Abstract(m, g), k)
  {
    assert Abstract(m', g').entries == Closed(Abstract(m, g), k).entries;
  }

  lemma FreeRefines(bo: Bucketing, m: Mem, g: Shape, k: nat) returns (g': Shape)
    requires Ok(bo, m, g) && k < |g.active|
    ensures Ok(bo, FreeSession(bo, m, g.active[k]), g')
    ensures Abstract(FreeSession(bo, m, g.active[k]), g') == Closed(Abstract(m, g), k)
    ensures g'.active == Remove(g.active, k) && Unchained(m, g, g.active[k], g')
    ensures var m' := FreeSession(bo, m, g.active[k]); m'.sessions == m.sessions && m'.hashes == m.hashes
  {
    g' := FreeKeeps(bo, m, g, k);
    ClosedEntries(m, g, FreeSession(bo, m, g.active[k]), g', k);
  }

  // ------------------------------------------------------------------- lookup

  datatype Side = AcSide | ClientSide

  function Key(e: Entry, side: Side): (Mac, u16) {
    match side
    case AcSide => (e.acMac, e.acSes)
    case ClientSide => (e.cliMac, ClientSes(e))
  }

  ghost predicate HasKey(m: Mem, h: nat, mac: Mac, ses: u16) {
    HashAt(m, h).peerMac == mac && HashAt(m, h).sesNum == ses
  }

  /** The hash entry of session `s` on one side. */
  function HashOn(m: Mem, s: nat, side: Side): int {
    if side.AcSide? then SesAt(m, s).acHash else SesAt(m, s).clientHash
  }

  /** A key is in the chain of its bucket exactly when some active session has it on some side. */
  lemma ChainHoldsKey(bo: Bucketing, m: Mem, g: Shape, mac: Mac, ses: u16, h: nat)
    requires Ok(bo, m, g) && h in g.chains[bo(mac, ses)] && HasKey(m, h, mac, ses)
    ensures var s := HashAt(m, h).ses;
            && 0 <= s && s in g.active
            && exists side :: HashOn(m, s, side) == h && Key(EntryOf(m, s), side) == (mac, ses)
  {
    OnlyInOwnChain(bo, m, g, {}, h, bo(mac, ses));
    assert Used(m, g, h);
    var s := HashAt(m, h).ses;
    assert Paired(m, g, s);
    var side := if h == SesAt(m, s).acHash then AcSide else ClientSide;
    assert HashOn(m, s, side) == h && Key(EntryOf(m, s), side) == (mac, ses);
  }

  lemma KeyIsInChain(bo: Bucketing, m: Mem, g: Shape, s: nat, side: Side)
    requires Ok(bo, m, g) && s in g.active
    ensures var h := HashOn(m, s, side); var key := Key(EntryOf(m, s), side);
            0 <= h && h in g.chains[bo(key.0, key.1)] && HasKey(m, h, key.0, key.1)
  {
    assert Paired(m, g, s);
    assert PlaceOk(bo, m, g, {}, HashOn(m, s, side));
  }

  /** The entry of the other end, as the code reads it through `peer`. */
  lemma PeerOf(bo: Bucketing, m: Mem, g: Shape, k: nat, side: Side)
    requires Ok(bo, m, g) && k < |g.active|
    ensures var h := HashOn(m, g.active[k], side); var e := Abstract(m, g).entries[k];
            && 0 <= h < |m.hashes| && 0 <= m.hashes[h].peer < |m.hashes|
            && var q := m.hashes[m.hashes[h].peer];
               && q.ses == g.active[k] && m.hashes[h].ses == g.active[k]
               && q.iface == (if side.AcSide? then e.cli else e.ac)
               && (q.peerMac, q.sesNum) == Key(e, if side.AcSide? then ClientSide else AcSide)
  {
    assert g.active[k] in g.active && Paired(m, g, g.active[k]);
  }

  /** Recording activity changes one epoch and nothing else. */
  lemma TouchKeeps(bo: Bucketing, m: Mem, g: Shape, k: nat, epoch: nat)
    requires Ok(bo, m, g) && k < |g.active| && g.active[k] < |m.sessions|
    ensures var s := g.active[k]; var m' := PutSes(m, s, m.sessions[s].(epoch := epoch));
            && Ok(bo, m', g)
            && Abstract(m', g).entries == Abstract(m, g).entries[k := Abstract(m, g).entries[k].(epoch := epoch)]
  {
    var s := g.active[k];
    var m' := PutSes(m, s, m.sessions[s].(epoch := epoch));
    HashesFrame(bo, m, g, m', g, {});
    forall t | t in g.active ensures Paired(m', g, t) { assert Paired(m, g, t); }
    forall h | 0 <= h < |m'.hashes| && h !in g.freeHashes ensures Used(m', g, h) { assert Used(m, g, h); }
    forall i | 0 <= i < |g.active| && i != k ensures g.active[i] != s {
      ChainDistinct(m.sesLinks, m.activeSessions, g.active, i, k);
    }
    var es, es' := Abstract(m, g).entries, Abstract(m', g).entries;
    assert es' == es[k := es[k].(epoch := epoch)];
  }
}
