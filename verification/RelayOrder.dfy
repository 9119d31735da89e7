/** The order of the entries in one bucket of the relay's hash table: newest
    session first, and of one session the client's entry first. It decides which
    entry a look-up meets when several have the same key. */
module RelayOrder {
  import opened LinkedLists
  import opened Octets
  import opened RelayTable

  function IfIn(bo: Bucketing, m: Mem, h: int, b: nat): seq<nat> {
    if 0 <= h < |m.hashes| && BucketOf(bo, m.hashes[h]) == b then [h] else []
  }

  /** What session `s` has in bucket `b`; the client's entry was added last. */
  function Piece(bo: Bucketing, m: Mem, s: nat, b: nat): seq<nat> {
    IfIn(bo, m, SesAt(m, s).clientHash, b) + IfIn(bo, m, SesAt(m, s).acHash, b)
  }

  function ChainOf(bo: Bucketing, m: Mem, l: seq<nat>, b: nat): seq<nat> {
    if l == [] then [] else Piece(bo, m, l[0], b) + ChainOf(bo, m, l[1..], b)
  }

  /** Every chain follows the list of active sessions. */
  ghost predicate NewestFirst(bo: Bucketing, m: Mem, g: Shape) {
    |g.chains| == HASHTAB_SIZE && forall b :: 0 <= b < HASHTAB_SIZE ==> g.chains[b] == ChainOf(bo, m, g.active, b)
  }

  lemma {:induction false} ChainOfFrame(bo: Bucketing, m: Mem, m': Mem, l: seq<nat>, b: nat)
    requires forall s :: s in l ==> Piece(bo, m', s, b) == Piece(bo, m, s, b)
    ensures ChainOf(bo, m', l, b) == ChainOf(bo, m, l, b)
  {
    if l != [] {
      ChainOfFrame(bo, m, m', l[1..], b);
    }
  }

  // --------------------------------------------------------------- creation

  lemma PieceKept(bo: Bucketing, m: Mem, g: Shape, p: Params, s: nat, b: nat)
    requires Ok(bo, m, g) && m.numSessions < |m.sessions| && s in g.active
    ensures Piece(bo, CreateSession(bo, m, p), s, b) == Piece(bo, m, s, b)
  {
    hide PlaceOk, BucketOk, Used, Created, CreateSession, HashesOk;
    CreateKeeps(bo, m, g, p);
    assert Paired(m, g, s);
    CreateFrame(bo, m, g, p);
  }

  lemma CreateFrame(bo: Bucketing, m: Mem, g: Shape, p: Params)
    requires Ok(bo, m, g) && m.numSessions < |m.sessions|
    ensures |g.freeHashes| >= 2 && g.freeHashes[0] in g.freeHashes && g.freeHashes[1] in g.freeHashes
  {
  }

  /** The chains after a creation. */
  lemma CreatedChain(bo: Bucketing, m: Mem, g: Shape, p: Params, b: nat)
    requires Ok(bo, m, g) && m.numSessions < |m.sessions| && b < HASHTAB_SIZE
    ensures Created(bo, m, g, p).chains[b] == Piece(bo, CreateSession(bo, m, p), g.free[0], b) + g.chains[b]
  {
    hide PlaceOk, BucketOk, Used, Paired, Activate, FillHashes, PushLinks, PairsOk;
    CreateKeeps(bo, m, g, p);
  }

  lemma CreateNewest(bo: Bucketing, m: Mem, g: Shape, p: Params)
    requires Ok(bo, m, g) && NewestFirst(bo, m, g) && m.numSessions < |m.sessions|
    ensures NewestFirst(bo, CreateSession(bo, m, p), Created(bo, m, g, p))
  {
    CreatedLists(bo, m, g, p);
    var m', g' := CreateSession(bo, m, p), Created(bo, m, g, p);
    hide Ok, CreateSession, Created, Piece;
    forall b | 0 <= b < HASHTAB_SIZE ensures g'.chains[b] == ChainOf(bo, m', g'.active, b) {
      CreatedChain(bo, m, g, p, b);
      forall s | s in g.active ensures Piece(bo, m', s, b) == Piece(bo, m, s, b) { PieceKept(bo, m, g, p, s, b); }
      ChainOfFrame(bo, m, m', g.active, b);
      assert g'.active[1..] == g.active;
    }
  }

  lemma CreatedLists(bo: Bucketing, m: Mem, g: Shape, p: Params)
    requires Ok(bo, m, g) && m.numSessions < |m.sessions|
    ensures g.free != [] && |Created(bo, m, g, p).chains| == HASHTAB_SIZE
    ensures Created(bo, m, g, p).active == [g.free[0]] + g.active
  {
  }

  // ---------------------------------------------------------------- freeing

  lemma DropOne(l: seq<nat>, rest: seq<nat>, x: nat)
    requires (l == [] || l == [x]) && x !in rest
    ensures Drop(l + rest, x) == rest
  {
    DropAbsent(rest, x);
    DropConcat(l, rest, x);
    assert [] + rest == rest;
  }

  lemma HeadDropped(bo: Bucketing, m: Mem, s: nat, rest: seq<nat>, b: nat, a: nat, c: nat)
    requires SesAt(m, s).acHash == a && SesAt(m, s).clientHash == c && a != c
    requires a !in rest && c !in rest
    ensures Drop(Drop(Piece(bo, m, s, b) + rest, a), c) == rest
  {
    var cs, acs := IfIn(bo, m, c, b), IfIn(bo, m, a, b);
    assert (cs == [] || cs == [c]) && (acs == [] || acs == [a]);
    hide Drop, IfIn, BucketOf;
    assert Piece(bo, m, s, b) + rest == cs + (acs + rest);
    DropConcat(cs, acs + rest, a);
    DropOne(acs, rest, a);
    DropOne(cs, rest, c);
  }

  lemma {:induction false} WithoutSession(bo: Bucketing, m: Mem, l: seq<nat>, k: nat, b: nat, a: nat, c: nat)
    requires k < |l| && SesAt(m, l[k]).acHash == a && SesAt(m, l[k]).clientHash == c && a != c
    requires forall i :: 0 <= i < |l| && i != k ==> a !in Piece(bo, m, l[i], b) && c !in Piece(bo, m, l[i], b)
    ensures Drop(Drop(ChainOf(bo, m, l, b), a), c) == ChainOf(bo, m, Remove(l, k), b)
  {
    hide Drop, Piece;
    var p, rest := Piece(bo, m, l[0], b), ChainOf(bo, m, l[1..], b);
    if k == 0 {
      NotInChain(bo, m, l[1..], b, a);
      NotInChain(bo, m, l[1..], b, c);
      HeadDropped(bo, m, l[0], rest, b, a, c);
      assert Remove(l, 0) == l[1..];
    } else {
      WithoutSession(bo, m, l[1..], k - 1, b, a, c);
      DropConcat(p, rest, a);
      DropConcat(p, Drop(rest, a), c);
      assert Remove(l, k)[0] == l[0] && Remove(l, k)[1..] == Remove(l[1..], k - 1);
    }
  }

  lemma {:induction false} NotInChain(bo: Bucketing, m: Mem, l: seq<nat>, b: nat, x: nat)
    requires forall s :: s in l ==> x !in Piece(bo, m, s, b)
    ensures x !in ChainOf(bo, m, l, b)
  {
    if l != [] {
      NotInChain(bo, m, l[1..], b, x);
    }
  }

  /** The entries of one active session are in no piece of another. */
  lemma OwnPieces(bo: Bucketing, m: Mem, g: Shape, k: nat, i: nat, b: nat)
    requires Ok(bo, m, g) && k < |g.active| && i < |g.active| && i != k
    ensures var x := SesAt(m, g.active[k]);
            && 0 <= x.acHash && 0 <= x.clientHash && x.acHash != x.clientHash
            && x.acHash !in Piece(bo, m, g.active[i], b) && x.clientHash !in Piece(bo, m, g.active[i], b)
  {
    hide PlaceOk, BucketOk, HashesOk;
    ChainDistinct(m.sesLinks, m.activeSessions, g.active, k, i);
    assert g.active[k] in g.active && g.active[i] in g.active;
    assert Paired(m, g, g.active[k]) && Paired(m, g, g.active[i]);
  }

  lemma FreeNewest(bo: Bucketing, m: Mem, g: Shape, k: nat, m': Mem, g': Shape)
    requires Ok(bo, m, g) && NewestFirst(bo, m, g) && k < |g.active|
    requires m'.sessions == m.sessions && m'.hashes == m.hashes
    requires g'.active == Remove(g.active, k) && Unchained(m, g, g.active[k], g')
    ensures NewestFirst(bo, m', g')
  {
    hide Drop, Piece;
    var x := SesAt(m, g.active[k]);
    assert g.active[k] in g.active && Paired(m, g, g.active[k]);
    hide Ok, Paired;
    forall b | 0 <= b < HASHTAB_SIZE ensures g'.chains[b] == ChainOf(bo, m', g'.active, b) {
      forall i | 0 <= i < |g.active| && i != k
        ensures x.acHash !in Piece(bo, m, g.active[i], b) && x.clientHash !in Piece(bo, m, g.active[i], b)
      {
        OwnPieces(bo, m, g, k, i, b);
      }
      WithoutSession(bo, m, g.active, k, b, x.acHash, x.clientHash);
      SamePieces(bo, m, m', g'.active, b);
    }
  }

  lemma SamePieces(bo: Bucketing, m: Mem, m': Mem, l: seq<nat>, b: nat)
    requires m'.sessions == m.sessions && m'.hashes == m.hashes
    ensures ChainOf(bo, m', l, b) == ChainOf(bo, m, l, b)
  {
    forall s | s in l ensures Piece(bo, m', s, b) == Piece(bo, m, s, b) {}
    ChainOfFrame(bo, m, m', l, b);
  }

  lemma TouchNewest(bo: Bucketing, m: Mem, g: Shape, s: nat, epoch: nat)
    requires NewestFirst(bo, m, g) && s < |m.sessions|
    ensures NewestFirst(bo, PutSes(m, s, m.sessions[s].(epoch := epoch)), g)
  {
    var m' := PutSes(m, s, m.sessions[s].(epoch := epoch));
    forall b | 0 <= b < HASHTAB_SIZE ensures g.chains[b] == ChainOf(bo, m', g.active, b) {
      forall t | t in g.active ensures Piece(bo, m', t, b) == Piece(bo, m, t, b) {}
      ChainOfFrame(bo, m, m', g.active, b);
    }
  }

  // ----------------------------------------------------------------- look-up

  datatype Found = Nowhere | Found(k: nat, side: Side)

  /** The newest active session with this key on either side. */
  function Find(es: seq<Entry>, mac: Mac, ses: u16): (r: Found)
    ensures r.Found? ==> r.k < |es| && Key(es[r.k], r.side) == (mac, ses)
    ensures r.Nowhere? ==> forall e, side :: e in es ==> Key(e, side) != (mac, ses)
  {
    if es == [] then Nowhere
    else if Key(es[0], ClientSide) == (mac, ses) then Found(0, ClientSide)
    else if Key(es[0], AcSide) == (mac, ses) then Found(0, AcSide)
    else
      var r := Find(es[1..], mac, ses);
      assert forall e :: e in es ==> e == es[0] || e in es[1..];
      if r.Found? then Found(r.k + 1, r.side) else Nowhere
  }

  /** The first entry with this key in a chain. */
  function FirstKey(m: Mem, l: seq<nat>, mac: Mac, ses: u16): int {
    if l == [] then NIL
    else if HashAt(m, l[0]).peerMac == mac && HashAt(m, l[0]).sesNum == ses then l[0]
    else FirstKey(m, l[1..], mac, ses)
  }

  lemma {:induction false} FirstOfConcat(m: Mem, l: seq<nat>, r: seq<nat>, mac: Mac, ses: u16)
    ensures var h := FirstKey(m, l, mac, ses);
            FirstKey(m, l + r, mac, ses) == if h == NIL then FirstKey(m, r, mac, ses) else h
  {
    if l == [] {
      assert l + r == r;
    } else {
      assert (l + r)[0] == l[0] && (l + r)[1..] == l[1..] + r;
      FirstOfConcat(m, l[1..], r, mac, ses);
    }
  }

  /** What an active session's two entries hold. */
  ghost predicate ReadsAsEntry(m: Mem, s: nat) {
    var x := SesAt(m, s);
    0 <= x.acHash < |m.hashes| && 0 <= x.clientHash < |m.hashes| && m.hashes[x.clientHash].sesNum == (s + 1) % 65536
  }

  lemma FirstInPiece(bo: Bucketing, m: Mem, s: nat, mac: Mac, ses: u16)
    requires ReadsAsEntry(m, s)
    ensures FirstKey(m, Piece(bo, m, s, bo(mac, ses)), mac, ses)
              == if Key(EntryOf(m, s), ClientSide) == (mac, ses) then SesAt(m, s).clientHash
                 else if Key(EntryOf(m, s), AcSide) == (mac, ses) then SesAt(m, s).acHash
                 else NIL
  {
    var b, x := bo(mac, ses), SesAt(m, s);
    FirstOfConcat(m, IfIn(bo, m, x.clientHash, b), IfIn(bo, m, x.acHash, b), mac, ses);
  }

  lemma {:induction false} FirstInChain(bo: Bucketing, m: Mem, l: seq<nat>, es: seq<Entry>, mac: Mac, ses: u16)
    requires |es| == |l| && forall i :: 0 <= i < |l| ==> es[i] == EntryOf(m, l[i]) && ReadsAsEntry(m, l[i])
    ensures FirstKey(m, ChainOf(bo, m, l, bo(mac, ses)), mac, ses)
              == match Find(es, mac, ses) case Nowhere => NIL case Found(k, side) => HashOn(m, l[k], side)
  {
    hide Piece, Key, EntryOf, BucketOf;
    if l != [] {
      var b := bo(mac, ses);
      FirstOfConcat(m, Piece(bo, m, l[0], b), ChainOf(bo, m, l[1..], b), mac, ses);
      FirstInPiece(bo, m, l[0], mac, ses);
      FirstInChain(bo, m, l[1..], es[1..], mac, ses);
    }
  }

  /** The first match in the bucket is what the search of the plain table finds,
      whether keys are unique or not. */
  lemma FoundAgrees(bo: Bucketing, m: Mem, g: Shape, mac: Mac, ses: u16)
    requires Ok(bo, m, g) && NewestFirst(bo, m, g)
    ensures var h := FirstKey(m, g.chains[bo(mac, ses)], mac, ses);
            match Find(Abstract(m, g).entries, mac, ses)
            case Nowhere => h == NIL
            case Found(k, side) =>
              && k < |g.active| && h == HashOn(m, g.active[k], side) && 0 <= h < |m.hashes|
              && m.hashes[h].ses == g.active[k]
  {
    hide Find, FirstKey, ChainOf, PlaceOk, BucketOk;
    forall i | 0 <= i < |g.active| ensures ReadsAsEntry(m, g.active[i]) && Paired(m, g, g.active[i]) {
      assert g.active[i] in g.active && Paired(m, g, g.active[i]);
    }
    FirstInChain(bo, m, g.active, Abstract(m, g).entries, mac, ses);
  }
}
