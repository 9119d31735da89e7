/** The slot array of pppoe-server with its intrusive lists: a free list with a
    head and a tail pointer, and a busy list that is searched from its head. */
module ServerPool {
  import opened Octets
  import opened LinkedLists
  import opened ServerSessions

  // ------------------------------------------------------ singly linked lists

  lemma StackHasNoRepeats(ls: seq<Link>, head: int, l: seq<nat>, i: nat)
    requires Stack(ls, head, l) && i < |l|
    ensures l[i] !in l[..i]
  {
    if l[i] in l[..i] {
      var k :| 0 <= k < i && l[..i][k] == l[i];
      StackDistinct(ls, head, l, k, i);
    }
  }

  /** Unlinking the entry behind `l[i - 1]`. */
  function Unlink(ls: seq<Link>, p: int, x: nat): seq<Link> { SetNext(ls, p, LinkAt(ls, x).next) }

  lemma UnlinkKeepsStack(ls: seq<Link>, head: int, l: seq<nat>, i: nat)
    requires Stack(ls, head, l) && i < |l|
    ensures Stack(Unlink(ls, At(l, i - 1), l[i]), if i == 0 then ls[l[0]].next else head, Remove(l, i))
  {
    var r, ls' := Remove(l, i), Unlink(ls, At(l, i - 1), l[i]);
    assert ls[l[i]].next == At(l, i + 1);
    forall j | 0 <= j < |r| ensures r[j] < |ls'| && ls'[r[j]].next == At(r, j + 1) {
      var k := if j < i then j else j + 1;
      assert ls[l[k]].next == At(l, k + 1);
      if i > 0 && k != i - 1 {
        StackDistinct(ls, head, l, k, i - 1);
      }
    }
  }

  /** Linking `x` behind the last entry. */
  lemma AppendKeepsStack(ls: seq<Link>, head: int, l: seq<nat>, x: nat)
    requires Stack(ls, head, l) && x < |ls| && x !in l
    ensures var ls' := SetNext(SetNext(ls, x, NIL), At(l, |l| - 1), x);
            Stack(ls', if l == [] then x else head, l + [x])
  {
    var ls', l' := SetNext(SetNext(ls, x, NIL), At(l, |l| - 1), x), l + [x];
    forall j | 0 <= j < |l'| ensures l'[j] < |ls'| && ls'[l'[j]].next == At(l', j + 1) {
      if j < |l| {
        assert l[j] in l && ls[l[j]].next == At(l, j + 1);
        if j != |l| - 1 {
          StackDistinct(ls, head, l, j, |l| - 1);
        }
      } else {
        assert l != [] ==> l[|l| - 1] in l;
      }
    }
  }

  // ------------------------------------------------------------------- shuffle

  ghost predicate IsPermutation(p: seq<nat>) { multiset(p) == multiset(All(|p|)) }

  lemma PermutationMembers(p: seq<nat>, x: nat)
    requires IsPermutation(p)
    ensures multiset(p)[x] == if x < |p| then 1 else 0
    ensures x in p <==> x < |p|
  {
    CountOfAll(|p|, x);
    assert x in p <==> x in multiset(p);
  }

  lemma SwapKeepsMultiset(s: seq<nat>, i: nat, j: nat)
    requires i < |s| && j < |s|
    ensures multiset(s[i := s[j]][j := s[i]]) == multiset(s)
  {
  }

  lemma TwiceCounted(p: seq<nat>, i: nat, j: nat)
    requires i < j < |p|
    ensures p[i] == p[j] ==> multiset(p)[p[i]] >= 2
  {
    assert p == p[..j] + p[j..] && p[..j][i] in multiset(p[..j]) && p[j..][0] in multiset(p[j..]);
  }

  lemma OncePerPermutation(p: seq<nat>, i: nat, j: nat)
    requires IsPermutation(p) && i < j < |p|
    ensures p[i] != p[j]
  {
    PermutationMembers(p, p[i]);
    TwiceCounted(p, i, j);
  }

  /** The random order of `main`; `rand` is what `rand()` returns. */
  method Shuffle(n: nat, rand: nat -> nat) returns (permutation: array<nat>)
    ensures fresh(permutation) && permutation.Length == n && IsPermutation(permutation[..])
  {
    permutation := new nat[n](i => i);
    assert permutation[..] == All(n);
    var i := 0;
    while i + 1 < n
      invariant multiset(permutation[..]) == multiset(All(n))
    {
      var j := i + rand(i) % (n - i);
      SwapKeepsMultiset(permutation[..], i, j);
      if j != i {
        var tmp := permutation[j];
        permutation[j] := permutation[i];
        permutation[i] := tmp;
      }
      i := i + 1;
    }
  }

  method InitialOrder(n: nat, randomize: bool, rand: nat -> nat) returns (order: array<nat>)
    ensures fresh(order) && order.Length == n && IsPermutation(order[..])
    ensures !randomize ==> order[..] == All(n)
  {
    if randomize {
      order := Shuffle(n, rand);
    } else {
      order := new nat[n](i => i);
      assert order[..] == All(n);
    }
  }

  lemma FreshIsOk(c: Config, v: State)
    requires IsPermutation(v.free) && v.busy == [] && |v.free| == |v.slots| && |v.slots| + c.offset <= 65534
    requires forall i :: 0 <= i < |v.slots| ==> v.slots[i] == Slot(i + 1 + c.offset, NO_MAC, 0)
    ensures Ok(c, v)
  {
    forall x | x in v.free ensures x < |v.slots| { PermutationMembers(v.free, x); }
  }

  lemma NothingBusy(ls: seq<Link>)
    ensures Stack(ls, NIL, [])
  {
  }

  // ---------------------------------------------------------------------- pool

  class Pool {
    const config: Config
    const links: array<Link>
    const slots: array<Slot>
    var freeSessions: int
    var lastFreeSession: int
    var busySessions: int
    var numActiveSessions: nat
    ghost var free: seq<nat>
    ghost var busy: seq<nat>

    ghost predicate Valid()
      reads this, links, slots
    {
      && links.Length == slots.Length && Sound(config, View())
      && Stack(links[..], freeSessions, free) && Stack(links[..], busySessions, busy)
      && lastFreeSession == At(free, |free| - 1) && numActiveSessions == |busy|
    }

    ghost function View(): State
      reads this, slots
    {
      State(free, busy, slots[..])
    }

    /** The set-up in `main`: numbers, then the links in array order or at random. */
    constructor (n: nat, config: Config, randomize: bool, rand: nat -> nat)
      requires 0 < n && n + config.offset <= 65534
      ensures Valid() && fresh(links) && fresh(slots) && this.config == config
      ensures slots.Length == n && Ok(config, View()) && busy == [] && IsPermutation(free) && |free| == n
      ensures !randomize ==> free == All(n)
    {
      this.config := config;
      links := new Link[n](_ => Link(NIL, NIL));
      slots := new Slot[n](i requires 0 <= i < n => Slot(i + 1 + config.offset, NO_MAC, 0));
      busySessions, numActiveSessions, busy, free := NIL, 0, [], [];
      freeSessions, lastFreeSession := NIL, NIL;
      new;
      hide Sound, Stack;
      var order := InitialOrder(n, randomize, rand);
      LinkTogether(order);
      FreshIsOk(config, View());
      NothingBusy(links[..]);
    }

    method LinkTogether(order: array<nat>)
      requires 0 < order.Length == links.Length && IsPermutation(order[..])
      modifies this`freeSessions, this`lastFreeSession, this`free, links
      ensures free == order[..] && Stack(links[..], freeSessions, free)
      ensures lastFreeSession == At(free, |free| - 1)
    {
      var n := order.Length;
      ghost var p := order[..];
      forall i | 0 <= i < n ensures p[i] < n { PermutationMembers(p, p[i]); }
      freeSessions, lastFreeSession := order[0], order[n - 1];
      var i := 0;
      while i + 1 < n
        invariant i + 1 <= n && order[..] == p && freeSessions == p[0] && lastFreeSession == p[n - 1]
        invariant forall k :: 0 <= k < i ==> links[p[k]].next == p[k + 1]
      {
        forall k | 0 <= k < i ensures p[k] != p[i] { OncePerPermutation(p, k, i); }
        links[order[i]] := links[order[i]].(next := order[i + 1]);
        i := i + 1;
      }
      forall k | 0 <= k < n - 1 ensures p[k] != p[n - 1] { OncePerPermutation(p, k, n - 1); }
      links[order[n - 1]] := links[order[n - 1]].(next := NIL);
      free := p;
    }

    /** `count_sessions_from_mac` */
    method CountSessions(eth: Mac) returns (n: nat)
      requires Valid()
      ensures n == CountFromMac(View(), busy, eth)
    {
      n := 0;
      var s := busySessions;
      ghost var i := 0;
      assert busy[0..] == busy;
      while s != NIL
        invariant 0 <= i <= |busy| && s == At(busy, i)
        invariant n + CountFromMac(View(), busy[i..], eth) == CountFromMac(View(), busy, eth)
        decreases |busy| - i
      {
        assert busy[i..][1..] == busy[i + 1..] && links[..][busy[i]].next == At(busy, i + 1);
        if slots[s].eth == eth {
          n := n + 1;
        }
        s := links[s].next;
        i := i + 1;
      }
    }

    /** The lists, apart from what they mean. */
    ghost predicate Linked()
      reads this, links
    {
      && Stack(links[..], freeSessions, free) && Stack(links[..], busySessions, busy)
      && lastFreeSession == At(free, |free| - 1)
      && forall x :: x in busy ==> x !in free
    }

    /** From the head of the free list to the head of the busy list. */
    method MoveToBusy(ses: nat)
      requires Linked() && free != [] && ses == freeSessions
      modifies this`freeSessions, this`lastFreeSession, this`busySessions, this`free, this`busy, links
      ensures Linked() && free == old(free)[1..] && busy == [ses] + old(busy)
    {
      ghost var ls, b := links[..], busy;
      PopKeepsStack(ls, ses, free);
      assert ses in free;
      PushKeepsStack(ls, busy, ses);
      if ses == lastFreeSession {
        LastIsOnly(ls, ses, free);
        lastFreeSession := NIL;
      }
      freeSessions := links[ses].next;
      links[ses] := links[ses].(next := busySessions);
      busySessions := ses;
      assert links[..] == SetNext(ls, ses, At(b, 0));
      free, busy := free[1..], [ses] + busy;
      StackFrame(ls, links[..], freeSessions, free);
    }

    method SetSlot(s: nat, eth: Mac, pid: nat)
      requires s < slots.Length
      modifies slots
      ensures View() == Put(old(View()), s, eth, pid)
    {
      slots[s] := slots[s].(eth := eth, pid := pid);
    }

    /** `pppoe_alloc_session` */
    method AllocSession() returns (ses: int)
      requires Valid()
      modifies this, links, slots
      ensures Valid()
      ensures if old(free) == [] then ses == NIL && View() == old(View())
              else ses == old(free[0]) < slots.Length && View() == Allocated(old(View()))
    {
      hide Sound, Stack;
      ses := freeSessions;
      ghost var v := View();
      HeadOf(links[..], ses, free);
      if ses == NIL {
        return;
      }
      GrantKeeps(config, v, NO_MAC, 0);
      PutTwice(State(free[1..], [ses] + busy, v.slots), ses, NO_MAC, 0, 0);
      ListsDisjoint(config, v);
      MoveToBusy(ses);
      SetSlot(ses, NO_MAC, 0);
      numActiveSessions := numActiveSessions + 1;
    }

    /** The search along the busy list: `cur` and the entry before it. */
    method FindBusy(ses: nat) returns (cur: int, prev: int, ghost i: nat)
      requires Valid()
      ensures i <= |busy| && cur == At(busy, i) && prev == At(busy, i - 1)
      ensures (cur == NIL <==> i == |busy|) && (cur == NIL <==> ses !in busy) && (cur != NIL ==> cur == ses)
    {
      cur, prev, i := busySessions, NIL, 0;
      while cur != NIL
        invariant i <= |busy| && cur == At(busy, i) && prev == At(busy, i - 1) && ses !in busy[..i]
        decreases |busy| - i
      {
        assert links[..][busy[i]].next == At(busy, i + 1);
        if ses == cur {
          return;
        }
        assert busy[..i + 1] == busy[..i] + [busy[i]];
        prev := cur;
        cur := links[cur].next;
        i := i + 1;
      }
      assert busy[..i] == busy;
    }

    /** `pppoe_free_session` */
    method FreeSession(ses: nat) returns (r: int)
      requires Valid()
      modifies this, links, slots
      ensures Valid() && View() == Released(old(View()), ses)
      ensures r == if ses in old(busy) then 0 else -1
    {
      hide Sound, Stack;
      var cur, prev, i := FindBusy(ses);
      if cur == NIL {
        return -1;
      }
      ghost var v := View();
      ReleaseKeeps(config, v, ses);
      ListsDisjoint(config, v);
      UnlinkBusy(ses, prev, i);
      AppendFree(ses);
      SetSlot(ses, NO_MAC, 0);
      numActiveSessions := numActiveSessions - 1;
      r := 0;
    }

    method UnlinkBusy(ses: nat, prev: int, ghost i: nat)
      requires Linked() && i < |busy| && busy[i] == ses && prev == At(busy, i - 1)
      modifies this`busySessions, this`busy, links
      ensures Linked() && busy == Drop(old(busy), ses) && |busy| == |old(busy)| - 1 && ses !in busy
    {
      ghost var ls := links[..];
      StackHasNoRepeats(ls, busySessions, busy, i);
      DropIsRemove(busy, i);
      UnlinkKeepsStack(ls, busySessions, busy, i);
      RemovedFrom(ls, busySessions, busy, i);
      if prev != NIL {
        assert prev in busy;
        links[prev] := links[prev].(next := links[ses].next);
      } else {
        busySessions := links[ses].next;
      }
      assert links[..] == Unlink(ls, prev, ses);
      busy := Remove(busy, i);
      StackFrame(ls, links[..], freeSessions, free);
    }

    method AppendFree(ses: nat)
      requires Linked() && ses < links.Length && ses !in busy && ses !in free
      modifies this`freeSessions, this`lastFreeSession, this`free, links
      ensures Linked() && free == old(free) + [ses]
    {
      ghost var ls := links[..];
      AppendKeepsStack(ls, freeSessions, free, ses);
      assert free != [] ==> free[|free| - 1] in free;
      links[ses] := links[ses].(next := NIL);
      if lastFreeSession != NIL {
        links[lastFreeSession] := links[lastFreeSession].(next := ses);
        lastFreeSession := ses;
      } else {
        freeSessions := ses;
        lastFreeSession := ses;
      }
      assert links[..] == SetNext(SetNext(ls, ses, NIL), At(free, |free| - 1), ses);
      free := free + [ses];
      StackFrame(ls, links[..], busySessions, busy);
    }

    /** The slot part of `processPADR`. */
    method ProcessPadr(r: Request)
      requires Valid()
      modifies this, links, slots
      ensures Valid() && View() == Requested(config, old(View()), r)
    {
      hide Sound, Stack, Allocated, Released;
      ghost var v := View();
      if r.mac[0] % 2 != 0 {
        return;
      }
      if config.maxPerMac != 0 {
        var n := CountSessions(r.mac);
        if n >= config.maxPerMac {
          return;
        }
      }
      if !r.acceptable {
        return;
      }
      var s := AllocSession();
      if s == NIL {
        return;
      }
      GrantKeeps(config, v, r.mac, 0);
      SetSlot(s, r.mac, 0);
      if r.child < 0 {
        var freed := FreeSession(s);
        return;
      }
      GrantKeeps(config, v, r.mac, r.child);
      PutTwice(Allocated(v), s, r.mac, 0, r.child);
      SetSlot(s, r.mac, r.child);
    }

    /** `processPADT` for a packet addressed to us: the slot to stop, or -1. */
    method ProcessPadt(src: Mac, session: u16) returns (i: int)
      requires Valid()
      ensures i == PadtIndex(config, View(), src, session)
    {
      i := (session - 1 - config.offset) % 0x1_0000_0000_0000_0000;
      if i >= slots.Length || slots[i].sess != session || slots[i].eth != src {
        return -1;
      }
    }

    /** `childHandler` */
    method ChildHandler(session: nat)
      requires Valid()
      modifies this, links, slots
      ensures Valid() && View() == Released(old(View()), session)
    {
      var r := FreeSession(session);
    }
  }

  lemma HeadOf(ls: seq<Link>, head: int, l: seq<nat>)
    requires Stack(ls, head, l)
    ensures if l == [] then head == NIL else head == l[0] < |ls|
  {
  }

  lemma LastIsOnly(ls: seq<Link>, head: int, l: seq<nat>)
    requires Stack(ls, head, l) && l != [] && l[0] == At(l, |l| - 1)
    ensures |l| == 1
  {
    if |l| > 1 {
      StackDistinct(ls, head, l, 0, |l| - 1);
    }
  }

  lemma RemovedFrom(ls: seq<Link>, head: int, l: seq<nat>, i: nat)
    requires Stack(ls, head, l) && i < |l|
    ensures l[i] !in Remove(l, i) && forall x :: x in Remove(l, i) ==> x in l
  {
    var r := Remove(l, i);
    forall j | 0 <= j < |r| ensures r[j] != l[i] && r[j] in l {
      var k := if j < i then j else j + 1;
      assert r[j] == l[k];
      StackDistinct(ls, head, l, k, i);
    }
  }
}
