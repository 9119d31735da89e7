/** Intrusive lists threaded through an array of records: a pointer is an index
    or `NIL`. A list is described by the sequence of indices it runs through. */
module LinkedLists {

  const NIL: int := -1

  /** The two link fields of a record. */
  datatype Link = Link(next: int, prev: int)

  function At(l: seq<nat>, i: int): int { if 0 <= i < |l| then l[i] else NIL }

  function LinkAt(ls: seq<Link>, i: int): Link { if 0 <= i < |ls| then ls[i] else Link(NIL, NIL) }

  /** `if (p) p->next = x` and `if (p) p->prev = x`. */
  function SetNext(ls: seq<Link>, p: int, x: int): seq<Link> {
    if 0 <= p < |ls| then ls[p := ls[p].(next := x)] else ls
  }
  function SetPrev(ls: seq<Link>, p: int, x: int): seq<Link> {
    if 0 <= p < |ls| then ls[p := ls[p].(prev := x)] else ls
  }

  /** A doubly linked list; that its entries are distinct follows. */
  ghost predicate Chain(ls: seq<Link>, head: int, l: seq<nat>) {
    && head == At(l, 0) && (forall i :: 0 <= i < |l| ==> l[i] < |ls|)
    && forall i {:trigger ls[l[i]]} :: 0 <= i < |l| ==> ls[l[i]] == Link(At(l, i + 1), At(l, i - 1))
  }

  /** A singly linked list: `prev` is not kept. */
  ghost predicate Stack(ls: seq<Link>, head: int, l: seq<nat>) {
    && head == At(l, 0) && (forall i :: 0 <= i < |l| ==> l[i] < |ls|)
    && forall i {:trigger ls[l[i]]} :: 0 <= i < |l| ==> ls[l[i]].next == At(l, i + 1)
  }

  lemma {:induction false} ChainDistinct(ls: seq<Link>, head: int, l: seq<nat>, i: nat, j: nat)
    requires Chain(ls, head, l) && i < |l| && j < |l| && i != j
    ensures l[i] != l[j]
  {
    assert ls[l[i]].prev == At(l, i - 1) && ls[l[j]].prev == At(l, j - 1);
    if i > 0 && j > 0 {
      ChainDistinct(ls, head, l, i - 1, j - 1);
    }
  }

  lemma {:induction false} StackDistinct(ls: seq<Link>, head: int, l: seq<nat>, i: nat, j: nat)
    requires Stack(ls, head, l) && i < |l| && j < |l| && i != j
    ensures l[i] != l[j]
    decreases |l| - i
  {
    assert ls[l[i]].next == At(l, i + 1) && ls[l[j]].next == At(l, j + 1);
    if i + 1 < |l| && j + 1 < |l| {
      StackDistinct(ls, head, l, i + 1, j + 1);
    }
  }

  lemma ChainFrame(ls: seq<Link>, ls': seq<Link>, head: int, l: seq<nat>)
    requires Chain(ls, head, l) && |ls'| == |ls|
    requires forall x :: x in l ==> x < |ls| && ls'[x] == ls[x]
    ensures Chain(ls', head, l)
  {
    forall i | 0 <= i < |l| ensures ls'[l[i]] == ls[l[i]] { assert l[i] in l; }
  }

  lemma StackFrame(ls: seq<Link>, ls': seq<Link>, head: int, l: seq<nat>)
    requires Stack(ls, head, l) && |ls'| == |ls|
    requires forall x :: x in l ==> x < |ls| && ls'[x].next == ls[x].next
    ensures Stack(ls', head, l)
  {
    forall i | 0 <= i < |l| ensures ls'[l[i]].next == ls[l[i]].next { assert l[i] in l; }
  }

  /** Linking `h` in front of a doubly linked list. */
  function PushLinks(ls: seq<Link>, head: int, h: int): seq<Link> {
    SetPrev(SetPrev(SetNext(ls, h, head), h, NIL), head, h)
  }

  lemma PushKeepsChain(ls: seq<Link>, l: seq<nat>, h: nat)
    requires Chain(ls, At(l, 0), l) && h < |ls| && h !in l
    ensures Chain(PushLinks(ls, At(l, 0), h), h, [h] + l)
    ensures |PushLinks(ls, At(l, 0), h)| == |ls|
    ensures forall x :: 0 <= x < |ls| && x != h && x !in l ==> PushLinks(ls, At(l, 0), h)[x] == ls[x]
  {
    var ls', l' := PushLinks(ls, At(l, 0), h), [h] + l;
    assert At(l, 0) != NIL ==> At(l, 0) in l;
    forall i | 0 <= i < |l'| ensures l'[i] < |ls'| && ls'[l'[i]] == Link(At(l', i + 1), At(l', i - 1)) {
      if i > 0 {
        assert l'[i] == l[i - 1] && l[i - 1] in l && ls[l[i - 1]] == Link(At(l, i), At(l, i - 2));
        if i > 1 {
          ChainDistinct(ls, At(l, 0), l, i - 1, 0);
        }
      }
    }
  }

  function Remove(l: seq<nat>, i: nat): seq<nat>
    requires i < |l|
  {
    l[..i] + l[i + 1..]
  }

  /** Taking an entry with neighbours `p` and `n` out of a doubly linked list. */
  function Bypass(ls: seq<Link>, p: int, n: int): seq<Link> { SetPrev(SetNext(ls, p, n), n, p) }

  lemma BypassAt(ls: seq<Link>, p: int, n: int, x: nat)
    requires x < |ls|
    ensures |Bypass(ls, p, n)| == |ls|
    ensures Bypass(ls, p, n)[x] == Link(if x == p then n else ls[x].next, if x == n then p else ls[x].prev)
  {
  }

  lemma BypassKeepsChain(ls: seq<Link>, head: int, l: seq<nat>, i: nat)
    requires Chain(ls, head, l) && i < |l|
    ensures var ls' := Bypass(ls, At(l, i - 1), At(l, i + 1));
            && Chain(ls', if i == 0 then At(l, 1) else head, Remove(l, i)) && |ls'| == |ls|
            && forall x :: 0 <= x < |ls| && x !in l ==> ls'[x] == ls[x]
  {
    var r, p, n := Remove(l, i), At(l, i - 1), At(l, i + 1);
    var ls' := Bypass(ls, p, n);
    forall j | 0 <= j < |r| ensures r[j] < |ls'| && ls'[r[j]] == Link(At(r, j + 1), At(r, j - 1)) {
      var k := if j < i then j else j + 1;
      assert ls[l[k]] == Link(At(l, k + 1), At(l, k - 1));
      if i > 0 && k != i - 1 { ChainDistinct(ls, head, l, k, i - 1); }
      if i + 1 < |l| && k != i + 1 { ChainDistinct(ls, head, l, k, i + 1); }
      BypassAt(ls, p, n, l[k]);
    }
    assert p != NIL ==> p in l;
    assert n != NIL ==> n in l;
    forall x | 0 <= x < |ls| && x !in l ensures ls'[x] == ls[x] { BypassAt(ls, p, n, x); }
  }

  lemma RemoveMembers(ls: seq<Link>, head: int, l: seq<nat>, i: nat, x: nat)
    requires Chain(ls, head, l) && i < |l|
    ensures x in Remove(l, i) <==> x in l && x != l[i]
  {
    var r := Remove(l, i);
    if x in l && x != l[i] {
      var k :| 0 <= k < |l| && l[k] == x;
      assert r[if k < i then k else k - 1] == x;
    }
    if x in r {
      var k :| 0 <= k < |r| && r[k] == x;
      assert l[if k < i then k else k + 1] == x;
      ChainDistinct(ls, head, l, if k < i then k else k + 1, i);
    }
  }

  /** The list without the first occurrence of `x`. */
  function Drop(l: seq<nat>, x: nat): seq<nat> {
    if l == [] then [] else if l[0] == x then l[1..] else [l[0]] + Drop(l[1..], x)
  }

  lemma {:induction false} DropIsRemove(l: seq<nat>, i: nat)
    requires i < |l| && l[i] !in l[..i]
    ensures Drop(l, l[i]) == Remove(l, i)
  {
    if i > 0 {
      assert l[1..][..i - 1] == l[..i][1..];
      assert l[0] == l[..i][0];
      DropIsRemove(l[1..], i - 1);
      assert [l[0]] + Remove(l[1..], i - 1) == Remove(l, i);
    } else {
      assert Remove(l, 0) == l[1..];
    }
  }

  lemma Regroup(h: nat, l: seq<nat>, r: seq<nat>)
    ensures [h] + (l + r) == ([h] + l) + r
  {
  }

  lemma {:induction false} DropConcat(l: seq<nat>, r: seq<nat>, x: nat)
    ensures Drop(l + r, x) == if x in l then Drop(l, x) + r else l + Drop(r, x)
  {
    if l == [] {
      assert l + r == r;
    } else {
      assert (l + r)[0] == l[0] && (l + r)[1..] == l[1..] + r;
      if l[0] != x {
        DropConcat(l[1..], r, x);
        assert l == [l[0]] + l[1..];
        Regroup(l[0], l[1..], Drop(r, x));
        Regroup(l[0], Drop(l[1..], x), r);
      }
    }
  }

  lemma DropAbsent(l: seq<nat>, x: nat)
    requires x !in l
    ensures Drop(l, x) == l
  {
    DropConcat(l, [], x);
    assert l + [] == l;
  }

  lemma PushKeepsStack(ls: seq<Link>, l: seq<nat>, h: nat)
    requires Stack(ls, At(l, 0), l) && h < |ls| && h !in l
    ensures Stack(SetNext(ls, h, At(l, 0)), h, [h] + l)
  {
    var ls', l' := SetNext(ls, h, At(l, 0)), [h] + l;
    forall i | 0 <= i < |l'| ensures l'[i] < |ls'| && ls'[l'[i]].next == At(l', i + 1) {
      if i > 0 {
        assert l'[i] == l[i - 1] && l[i - 1] in l && ls[l[i - 1]].next == At(l, i);
      }
    }
  }

  lemma PopKeepsStack(ls: seq<Link>, head: int, l: seq<nat>)
    requires Stack(ls, head, l) && l != []
    ensures Stack(ls, ls[l[0]].next, l[1..])
    ensures forall x :: x in l <==> x == l[0] || x in l[1..]
    ensures l[0] !in l[1..]
  {
    assert ls[l[0]].next == At(l, 1);
    forall i | 0 <= i < |l[1..]| ensures ls[l[1..][i]].next == At(l[1..], i + 1) {
      assert l[1..][i] == l[i + 1];
      assert ls[l[i + 1]].next == At(l, i + 2);
    }
    if l[0] in l[1..] {
      var k :| 0 <= k < |l| - 1 && l[1..][k] == l[0];
      StackDistinct(ls, head, l, 0, k + 1);
    }
  }
}
