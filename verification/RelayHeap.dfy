/** The relay's session table in memory: the arrays allocated by `initRelay` and
    the code that relinks them, proved to act on the plain `Table` as intended. */
module RelayHeap {
  import opened LinkedLists
  import opened Octets
  import opened RelayTable
  import opened RelayOrder

  /** A PADT that the relay sends: interface, destination and session number. */
  datatype Padt = Padt(iface: nat, mac: Mac, ses: u16)

  /** Idle for longer than the timeout, in unsigned 32-bit arithmetic. */
  predicate Stale(e: Entry, now: nat, idleTimeout: nat) {
    (now - e.epoch) % 0x1_0000_0000 > idleTimeout
  }

  /** The cleaning pass from position `k` on, as it walks the list it shortens. */
  function CleanFrom(t: Table, k: nat, now: nat, idle: nat): Table
    decreases |t.entries| - k
  {
    if k >= |t.entries| then t
    else if Stale(t.entries[k], now, idle) then CleanFrom(Closed(t, k), k, now, idle)
    else CleanFrom(t, k + 1, now, idle)
  }

  function Select(es: seq<Entry>, stale: bool, now: nat, idle: nat): seq<Entry> {
    if es == [] then []
    else if Stale(es[0], now, idle) == stale then [es[0]] + Select(es[1..], stale, now, idle)
    else Select(es[1..], stale, now, idle)
  }

  /** The slots, last one first. */
  function IdsReversed(es: seq<Entry>): seq<nat> {
    if es == [] then [] else IdsReversed(es[1..]) + [es[0].id]
  }

  function Notices(es: seq<Entry>): seq<Padt> {
    if es == [] then []
    else [Padt(es[0].ac, es[0].acMac, es[0].acSes),
          Padt(es[0].cli, es[0].cliMac, ClientSes(es[0]))] + Notices(es[1..])
  }

  /** A cleaning pass removes exactly the stale sessions, keeps the others in
      order, and gives the slots back in the order they were met. */
  lemma {:induction false} CleaningIsExact(t: Table, k: nat, now: nat, idle: nat)
    requires k <= |t.entries|
    ensures var r := CleanFrom(t, k, now, idle);
            && r.entries == t.entries[..k] + Select(t.entries[k..], false, now, idle)
            && r.free == IdsReversed(Select(t.entries[k..], true, now, idle)) + t.free
            && r.size == t.size
    decreases |t.entries| - k
  {
    if k == |t.entries| {
      assert t.entries[..k] == t.entries && t.entries[k..] == [];
    } else {
      var e, es, rest := t.entries[k], t.entries[k..], t.entries[k + 1..];
      assert es[0] == e && es[1..] == rest;
      if Stale(e, now, idle) {
        CleaningIsExact(Closed(t, k), k, now, idle);
        assert Closed(t, k).entries[k..] == rest && Closed(t, k).entries[..k] == t.entries[..k];
        PrependReversed(e, Select(rest, true, now, idle), t.free);
      } else {
        CleaningIsExact(t, k + 1, now, idle);
        assert t.entries[..k + 1] + Select(rest, false, now, idle)
            == t.entries[..k] + ([e] + Select(rest, false, now, idle));
      }
    }
  }

  lemma PrependReversed(e: Entry, es: seq<Entry>, free: seq<nat>)
    ensures IdsReversed(es) + ([e.id] + free) == IdsReversed([e] + es) + free
  {
    assert ([e] + es)[1..] == es;
  }

  ghost function FreshShape(n: nat): Shape {
    Shape([], seq(n, i => i), seq(HASHTAB_SIZE, _ => []), seq(2 * n, i => i))
  }

  /** Records `0 .. |ls|` linked into one list in index order. */
  ghost predicate InOrder(ls: seq<Link>) {
    forall j :: 0 <= j < |ls| ==> ls[j] == Link(if j + 1 < |ls| then j + 1 else NIL, j - 1)
  }

  lemma FreshIsOk(bo: Bucketing, m: Mem, n: nat)
    requires 1 <= n <= 65534 && |m.sesLinks| == |m.sessions| == n && |m.hashLinks| == |m.hashes| == 2 * n
    requires InOrder(m.sesLinks) && InOrder(m.hashLinks)
    requires forall s :: 0 <= s < n ==> m.sessions[s].sesNum == s + 1
    requires m.buckets == seq(HASHTAB_SIZE, _ => NIL) && m.numSessions == 0
    requires m.freeSessions == 0 && m.activeSessions == NIL && m.freeHashes == 0
    ensures Ok(bo, m, FreshShape(n)) && NewestFirst(bo, m, FreshShape(n))
    ensures Abstract(m, FreshShape(n)) == Table(n, [], seq(n, i => i))
  {
    var g := FreshShape(n);
    forall h: nat | h < 2 * n ensures h in g.freeHashes && PlaceOk(bo, m, g, {}, h) {
      assert g.freeHashes[h] == h;
    }
    forall s: nat | s < n ensures s in g.free { assert g.free[s] == s; }
    forall i | 0 <= i < |g.free| ensures m.sesLinks[g.free[i]].next == At(g.free, i + 1) {
      assert g.free[i] == i;
    }
    forall i | 0 <= i < |g.freeHashes| ensures m.hashLinks[g.freeHashes[i]].next == At(g.freeHashes, i + 1) {
      assert g.freeHashes[i] == i;
    }
  }

  lemma SlotsLeft(bo: Bucketing, m: Mem, g: Shape)
    requires Ok(bo, m, g)
    ensures |m.sesLinks| == |m.sessions| && |m.buckets| == HASHTAB_SIZE && |m.hashLinks| == |m.hashes|
    ensures if m.numSessions >= |m.sessions| then g.free == []
            else g.free != [] && |g.freeHashes| >= 2 && m.freeSessions == g.free[0] < |m.sessions|
  {
  }

  /** What a creation brings about, and what its code relies on. */
  lemma CreateFacts(bo: Bucketing, m: Mem, g: Shape, p: Params)
    requires Ok(bo, m, g) && NewestFirst(bo, m, g) && m.numSessions < |m.sessions|
    ensures |m.buckets| == HASHTAB_SIZE && |g.chains| == HASHTAB_SIZE && g.free != [] && |g.freeHashes| >= 2
    ensures var m', g' := CreateSession(bo, m, p), Created(bo, m, g, p);
            Ok(bo, m', g') && NewestFirst(bo, m', g') && Abstract(m', g') == Opened(Abstract(m, g), p)
  {
    hide PlaceOk, BucketOk, PairsOk, NewestFirst, CreateSession, Created, EntryOf, PushLinks;
    SlotsLeft(bo, m, g);
    CreatedLists(bo, m, g, p);
    CreateRefines(bo, m, g, p);
    CreateNewest(bo, m, g, p);
  }

  lemma CreateReads(bo: Bucketing, m: Mem, g: Shape, p: Params)
    requires Ok(bo, m, g) && m.numSessions < |m.sessions|
    ensures |m.buckets| == HASHTAB_SIZE
    ensures 0 <= m.freeHashes < |m.hashLinks| && 0 <= m.hashLinks[m.freeHashes].next < |m.hashes|
    ensures |Activate(m, p.epoch).buckets| == HASHTAB_SIZE
    ensures var m2 := FillHashes(Activate(m, p.epoch), m.freeSessions, p); var c := m.hashLinks[m.freeHashes].next;
            |m2.buckets| == HASHTAB_SIZE && CreateSession(bo, m, p) == AddHash(bo, AddHash(bo, m2, m.freeHashes), c)
  {
    hide PlaceOk, BucketOk, PairsOk, PushLinks;
    SlotsLeft(bo, m, g);
    TwoFree(m, g);
    assert m.hashLinks[g.freeHashes[0]].next == At(g.freeHashes, 1);
  }

  class Relay {
    const bucketOf: Bucketing
    const sesLinks: array<Link>
    const sessions: array<Session>
    const hashLinks: array<Link>
    const hashes: array<Hash>
    const buckets: array<int>
    var freeSessions: int
    var activeSessions: int
    var freeHashes: int
    var numSessions: nat
    ghost var shape: Shape

    ghost function Memory(): Mem
      reads this, sesLinks, sessions, hashLinks, hashes, buckets
    {
      Mem(sesLinks[..], sessions[..], hashLinks[..], hashes[..], buckets[..],
          freeSessions, activeSessions, freeHashes, numSessions)
    }

    ghost predicate Valid()
      reads this, sesLinks, sessions, hashLinks, hashes, buckets
    {
      sesLinks != hashLinks && Ok(bucketOf, Memory(), shape) && NewestFirst(bucketOf, Memory(), shape)
    }

    ghost function View(): Table
      reads this, sesLinks, sessions, hashLinks, hashes, buckets
    {
      Abstract(Memory(), shape)
    }

    /** `initRelay`: both arrays become free lists, every bucket is empty. */
    constructor (nsess: nat, bo: Bucketing)
      requires 1 <= nsess <= 65534
      ensures Valid() && fresh(sesLinks) && fresh(sessions) && fresh(hashLinks) && fresh(hashes) && fresh(buckets)
      ensures View() == Table(nsess, [], seq(nsess, i => i)) && bucketOf == bo
    {
      bucketOf := bo;
      var sl := new Link[nsess](_ => Link(NIL, NIL));
      var ss := new Session[nsess](_ => Session(NIL, NIL, 0, 0));
      var hl := new Link[2 * nsess](_ => Link(NIL, NIL));
      var hs := new Hash[2 * nsess](_ => Hash(NIL, 0, [0, 0, 0, 0, 0, 0], 0, NIL));
      var bs := new int[HASHTAB_SIZE](_ => NIL);
      ghost var empty := seq(HASHTAB_SIZE, _ => NIL);
      assert bs[..] == empty;
      for i := 0 to nsess
        invariant bs[..] == empty
        invariant forall j :: 0 <= j < i ==>
                    sl[j] == Link(if j + 1 < nsess then j + 1 else NIL, j - 1) && ss[j].sesNum == j + 1
      {
        sl[i] := Link(if i + 1 < nsess then i + 1 else NIL, i - 1);
        ss[i] := ss[i].(sesNum := i + 1);
      }
      ghost var sl0, ss0 := sl[..], ss[..];
      for i := 0 to 2 * nsess
        invariant bs[..] == empty && sl[..] == sl0 && ss[..] == ss0
        invariant forall j :: 0 <= j < i ==> hl[j] == Link(if j + 1 < 2 * nsess then j + 1 else NIL, j - 1)
      {
        hl[i] := Link(if i + 1 < 2 * nsess then i + 1 else NIL, i - 1);
      }
      sesLinks, sessions, hashLinks, hashes, buckets := sl, ss, hl, hs, bs;
      freeSessions, activeSessions, freeHashes, numSessions := 0, NIL, 0, 0;
      shape := FreshShape(nsess);
      new;
      FreshIsOk(bo, Memory(), nsess);
    }

    method Link1(links: array<Link>, p: int, next: int)
      modifies links
      ensures links[..] == SetNext(old(links[..]), p, next)
    {
      if 0 <= p < links.Length {
        links[p] := links[p].(next := next);
      }
    }

    method Link2(links: array<Link>, p: int, prev: int)
      modifies links
      ensures links[..] == SetPrev(old(links[..]), p, prev)
    {
      if 0 <= p < links.Length {
        links[p] := links[p].(prev := prev);
      }
    }

    method PutInBucket(h: nat)
      requires buckets.Length == HASHTAB_SIZE && h < hashes.Length == hashLinks.Length && sesLinks != hashLinks
      modifies hashLinks, buckets
      ensures Memory() == AddHash(bucketOf, old(Memory()), h)
    {
      var b := bucketOf(hashes[h].peerMac, hashes[h].sesNum);
      var top := buckets[b];
      Link1(hashLinks, h, top);
      Link2(hashLinks, h, NIL);
      Link2(hashLinks, top, h);
      buckets[b] := h;
    }

    method TakeFromBucket(h: nat)
      requires buckets.Length == HASHTAB_SIZE && h < hashes.Length == hashLinks.Length && sesLinks != hashLinks
      modifies this`freeHashes, hashLinks, buckets
      ensures Memory() == Unhash(bucketOf, old(Memory()), h)
    {
      var b := bucketOf(hashes[h].peerMac, hashes[h].sesNum);
      var p, n := hashLinks[h].prev, hashLinks[h].next;
      if p != NIL {
        Link1(hashLinks, p, n);
      } else {
        buckets[b] := n;
      }
      Link2(hashLinks, n, p);
      Link1(hashLinks, h, freeHashes);
      freeHashes := h;
    }

    /** `createSession`; `NIL` when every slot is in use. */
    method CreateSession(p: Params) returns (s: int)
      requires Valid()
      modifies this, sesLinks, sessions, hashLinks, hashes, buckets
      ensures Valid() && View() == Opened(old(View()), p)
      ensures s == if old(View()).free == [] then NIL else old(View()).free[0]
    {
      hide Ok, NewestFirst, Created, EntryOf, Activate, FillHashes, AddHash;
      ghost var m0, g0 := Memory(), shape;
      SlotsLeft(bucketOf, m0, g0);
      if numSessions >= sessions.Length {
        return NIL;
      }
      CreateFacts(bucketOf, m0, g0, p);
      CreateReads(bucketOf, m0, g0, p);
      s := freeSessions;
      Grab(s, p.epoch);
      var a, c := Fill(s, p);
      PutInBucket(a);
      PutInBucket(c);
      shape := Created(bucketOf, m0, g0, p);
    }

    method Grab(s: nat, epoch: nat)
      requires s == freeSessions < sessions.Length == sesLinks.Length && sesLinks != hashLinks
      modifies this`freeSessions, this`numSessions, this`activeSessions, sesLinks, sessions
      ensures Memory() == Activate(old(Memory()), epoch)
    {
      freeSessions := sesLinks[s].next;
      numSessions := numSessions + 1;
      var top := activeSessions;
      Link1(sesLinks, s, top);
      Link2(sesLinks, s, NIL);
      Link2(sesLinks, top, s);
      activeSessions := s;
      sessions[s] := sessions[s].(epoch := epoch);
    }

    method Fill(s: nat, p: Params) returns (a: nat, c: nat)
      requires s < sessions.Length && sesLinks != hashLinks && 0 <= freeHashes < hashes.Length == hashLinks.Length
      requires 0 <= hashLinks[freeHashes].next < hashes.Length
      modifies this`freeHashes, sessions, hashes
      ensures Memory() == FillHashes(old(Memory()), s, p)
      ensures a == old(freeHashes) && c == old(hashLinks[freeHashes].next)
    {
      a := freeHashes;
      c := hashLinks[a].next;
      freeHashes := hashLinks[c].next;
      sessions[s] := sessions[s].(acHash := a, clientHash := c);
      hashes[a] := Hash(c, p.ac, p.acMac, p.acSes, s);
      hashes[c] := Hash(a, p.cli, p.cliMac, sessions[s].sesNum, s);
    }

    /** `freeSession`. */
    method FreeSession(s: nat, ghost k: nat)
      requires Valid() && k < |shape.active| && shape.active[k] == s
      modifies this, sesLinks, hashLinks, buckets
      ensures Valid() && View() == Closed(old(View()), k) && shape.active == Remove(old(shape.active), k)
    {
      ghost var g1 := FreeRefines(bucketOf, Memory(), shape, k);
      FreeNewest(bucketOf, Memory(), shape, k, RelayTable.FreeSession(bucketOf, Memory(), s), g1);
      ActiveFacts(bucketOf, Memory(), shape, k);
      Release(s);
      shape := g1;
    }

    /** Off the active list, onto the free list, both hash entries out of their buckets. */
    method Release(s: nat)
      requires s < sessions.Length == sesLinks.Length && sesLinks != hashLinks && numSessions > 0
      requires buckets.Length == HASHTAB_SIZE && hashes.Length == hashLinks.Length
      requires 0 <= sessions[s].acHash < hashes.Length && 0 <= sessions[s].clientHash < hashes.Length
      modifies this`activeSessions, this`freeSessions, this`freeHashes, this`numSessions, sesLinks, hashLinks, buckets
      ensures Memory() == RelayTable.FreeSession(bucketOf, old(Memory()), s)
    {
      Unlink(s);
      TakeFromBucket(sessions[s].acHash);
      TakeFromBucket(sessions[s].clientHash);
      numSessions := numSessions - 1;
    }

    method Unlink(s: nat)
      requires s < sesLinks.Length && sesLinks != hashLinks
      modifies this`activeSessions, this`freeSessions, sesLinks
      ensures Memory() == Deactivate(old(Memory()), s)
    {
      var p, n := sesLinks[s].prev, sesLinks[s].next;
      if p != NIL {
        Link1(sesLinks, p, n);
      } else {
        activeSessions := n;
      }
      Link2(sesLinks, n, p);
      Link1(sesLinks, s, freeSessions);
      freeSessions := s;
    }

    /** `findSession`: the hash entry of the newest active session with this key;
        the first match in the bucket. */
    method FindSession(mac: Mac, ses: u16) returns (h: int)
      requires Valid()
      ensures match Find(View().entries, mac, ses)
              case Nowhere => h == NIL
              case Found(k, side) =>
                && k < |shape.active| && h == HashOn(Memory(), shape.active[k], side) && 0 <= h < hashes.Length
                && hashes[h].ses == shape.active[k]
    {
      hide Find, ListsOk, PairsOk, PlaceOk, ChainOf;
      var b := bucketOf(mac, ses);
      ghost var m, l, i := Memory(), shape.chains[b], 0;
      assert BucketOk(bucketOf, m, m.buckets[b], l, b);
      FoundAgrees(bucketOf, m, shape, mac, ses);
      assert l[0..] == l;
      h := buckets[b];
      while h != NIL
        invariant i <= |l| && h == At(l, i)
        invariant FirstKey(m, l, mac, ses) == FirstKey(m, l[i..], mac, ses)
        decreases |l| - i
      {
        assert l[i] in l && l[i..][0] == l[i] && l[i..][1..] == l[i + 1..];
        if hashes[h].peerMac == mac && hashes[h].sesNum == ses {
          return;
        }
        assert m.hashLinks[l[i]] == Link(At(l, i + 1), At(l, i - 1));
        h := hashLinks[h].next;
        i := i + 1;
      }
    }

    /** `ses->epoch = Epoch`. */
    method Touch(s: nat, ghost k: nat, epoch: nat)
      requires Valid() && k < |shape.active| && shape.active[k] == s
      modifies sessions
      ensures Valid() && shape == old(shape)
      ensures View() == old(View()).(entries := old(View()).entries[k := old(View()).entries[k].(epoch := epoch)])
    {
      ActiveFacts(bucketOf, Memory(), shape, k);
      TouchKeeps(bucketOf, Memory(), shape, k, epoch);
      TouchNewest(bucketOf, Memory(), shape, s, epoch);
      ghost var m := Memory();
      sessions[s] := sessions[s].(epoch := epoch);
      assert Memory() == PutSes(m, s, m.sessions[s].(epoch := epoch));
    }

    /** The body of the cleaning loop for the session in position `k`. */
    method CleanOne(cur: nat, ghost k: nat, now: nat, idleTimeout: nat) returns (next: int, sent: seq<Padt>)
      requires Valid() && k < |shape.active| && shape.active[k] == cur
      modifies this, sesLinks, hashLinks, buckets
      ensures Valid() && next == At(old(shape.active), k + 1)
      ensures var e := old(View()).entries[k];
              if Stale(e, now, idleTimeout) then
                   && View() == Closed(old(View()), k) && shape.active == Remove(old(shape.active), k)
                   && sent == [Padt(e.ac, e.acMac, e.acSes), Padt(e.cli, e.cliMac, ClientSes(e))]
                 else View() == old(View()) && shape.active == old(shape.active) && sent == []
    {
      ActiveFacts(bucketOf, Memory(), shape, k);
      next := sesLinks[cur].next;
      var x := sessions[cur];
      sent := [];
      if (now - x.epoch) % 0x1_0000_0000 > idleTimeout {
        var a, c := hashes[x.acHash], hashes[x.clientHash];
        sent := [Padt(a.iface, a.peerMac, a.sesNum), Padt(c.iface, c.peerMac, c.sesNum)];
        FreeSession(cur, k);
      }
    }

    /** The loop stands at session `cur` with `done` sessions of `t0` behind it. */
    ghost predicate Cleaning(cur: int, k: nat, t0: Table, done: nat, sent: seq<Padt>, now: nat, idle: nat)
      reads this, sesLinks, sessions, hashLinks, hashes, buckets
    {
      Valid() && k <= |shape.active| && cur == At(shape.active, k)
        && WalkedTo(View(), k, t0, done, sent, now, idle)
    }

    method CleanNext(cur: nat, ghost k: nat, ghost t0: Table, ghost done: nat, before: seq<Padt>,
                     now: nat, idleTimeout: nat)
      returns (next: int, sent: seq<Padt>, ghost k': nat)
      requires Cleaning(cur, k, t0, done, before, now, idleTimeout)
      modifies this, sesLinks, hashLinks, buckets
      ensures Cleaning(next, k', t0, done + 1, sent, now, idleTimeout)
      ensures |shape.active| - k' < old(|shape.active|) - k
    {
      ghost var t := View();
      WalkOn(t, k, t0, done, before, now, idleTimeout);
      next, sent := CleanOne(cur, k, now, idleTimeout);
      k' := if Stale(t.entries[k], now, idleTimeout) then k else k + 1;
      assert before + [] == before;
      sent := before + sent;
    }

    /** `cleanSessions` with the clock held at `now`. */
    method CleanSessions(now: nat, idleTimeout: nat) returns (sent: seq<Padt>)
      requires Valid()
      modifies this, sesLinks, hashLinks, buckets
      ensures Valid() && View() == CleanFrom(old(View()), 0, now, idleTimeout)
      ensures sent == Notices(Select(old(View()).entries, true, now, idleTimeout))
    {
      sent := [];
      var cur := activeSessions;
      ghost var t0 := View();
      ghost var k: nat, done: nat := 0, 0;
      assert t0.entries[0..] == t0.entries;
      while cur != NIL
        invariant Cleaning(cur, k, t0, done, sent, now, idleTimeout)
        decreases |shape.active| - k
      {
        cur, sent, k := CleanNext(cur, k, t0, done, sent, now, idleTimeout);
        done := done + 1;
      }
      Finished(View(), k, t0, done, sent, now, idleTimeout);
    }
  }

  lemma Finished(t: Table, k: nat, t0: Table, done: nat, sent: seq<Padt>, now: nat, idle: nat)
    requires WalkedTo(t, k, t0, done, sent, now, idle) && k == |t.entries|
    ensures t == CleanFrom(t0, 0, now, idle) && sent == Notices(Select(t0.entries, true, now, idle))
  {
    assert t0.entries[done..] == [];
  }

  /** The facts the code reads off an active session. */
  lemma ActiveFacts(bo: Bucketing, m: Mem, g: Shape, k: nat)
    requires Ok(bo, m, g) && k < |g.active|
    ensures var s := g.active[k];
            && s < |m.sessions| == |m.sesLinks| && m.sesLinks[s].next == At(g.active, k + 1)
            && m.numSessions > 0 && Abstract(m, g).entries[k] == EntryOf(m, s)
            && 0 <= m.sessions[s].acHash < |m.hashes| && 0 <= m.sessions[s].clientHash < |m.hashes|
            && m.hashes[m.sessions[s].clientHash].sesNum == s + 1
  {
    assert g.active[k] in g.active && Paired(m, g, g.active[k]);
    assert m.sesLinks[g.active[k]] == Link(At(g.active, k + 1), At(g.active, k - 1));
  }

  /** Where a cleaning pass stands: `done` sessions of `t0` looked at, `k` of them kept. */
  ghost predicate WalkedTo(t: Table, k: nat, t0: Table, done: nat, sent: seq<Padt>, now: nat, idle: nat) {
    && k <= |t.entries| && done <= |t0.entries| && t.entries[k..] == t0.entries[done..]
    && CleanFrom(t, k, now, idle) == CleanFrom(t0, 0, now, idle)
    && sent + Notices(Select(t0.entries[done..], true, now, idle))
         == Notices(Select(t0.entries, true, now, idle))
  }

  lemma WalkOn(t: Table, k: nat, t0: Table, done: nat, sent: seq<Padt>, now: nat, idle: nat)
    requires WalkedTo(t, k, t0, done, sent, now, idle) && k < |t.entries|
    ensures var e := t.entries[k];
            if Stale(e, now, idle) then
              WalkedTo(Closed(t, k), k, t0, done + 1,
                       sent + [Padt(e.ac, e.acMac, e.acSes), Padt(e.cli, e.cliMac, ClientSes(e))], now, idle)
            else WalkedTo(t, k + 1, t0, done + 1, sent, now, idle)
  {
    var rest, e := t0.entries[done..], t.entries[k];
    assert rest[0] == t.entries[k..][0] == e;
    assert rest[1..] == t0.entries[done + 1..] && t.entries[k + 1..] == t.entries[k..][1..];
    if Stale(e, now, idle) {
      var ss := Select(rest[1..], true, now, idle);
      assert ([e] + ss)[1..] == ss;
      assert Closed(t, k).entries[k..] == t.entries[k + 1..];
    } else {
      assert Select(rest, true, now, idle) == Select(rest[1..], true, now, idle);
    }
  }
}
