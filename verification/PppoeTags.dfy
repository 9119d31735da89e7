/** Tags of a PPPoE discovery packet (section 4 and Appendix A of RFC 2516):
    looking one up, and inserting and removing bytes in the packet buffer. */
module PppoeTags {
  import opened Octets

  const ETH_JUMBO_LEN: nat := 1508
  const MAX_PPPOE_PAYLOAD: nat := 1502
  const TAG_HDR_SIZE: nat := 4
  const TAG_END_OF_LIST: nat := 0x0000
  const TAG_HOST_UNIQ: nat := 0x0103
  const TAG_RELAY_SESSION_ID: nat := 0x0110
  const TAG_GENERIC_ERROR: nat := 0x0203

  function Word(p: bytes, i: nat): nat
    requires i + 2 <= |p|
  {
    (p[i] as int) * 256 + p[i + 1]
  }

  /** The offset of the first tag of this type at or after `pos`, or -1. */
  function FindFrom(p: bytes, ty: nat, pos: nat): (r: int)
    ensures r != -1 ==> pos <= r && r + TAG_HDR_SIZE <= |p| && Word(p, r) == ty
                        && r + TAG_HDR_SIZE + Word(p, r + 2) <= |p|
    decreases |p| - pos
  {
    if pos + TAG_HDR_SIZE > |p| then -1
    else if Word(p, pos) == TAG_END_OF_LIST then -1
    else if pos + Word(p, pos + 2) + TAG_HDR_SIZE > |p| then -1
    else if Word(p, pos) == ty then pos
    else FindFrom(p, ty, pos + TAG_HDR_SIZE + Word(p, pos + 2))
  }

  function FindTag(p: bytes, ty: nat): (r: int)
    ensures r != -1 ==> 0 <= r && r + TAG_HDR_SIZE <= |p| && r + TAG_HDR_SIZE + Word(p, r + 2) <= |p|
  {
    if |p| > MAX_PPPOE_PAYLOAD then -1 else FindFrom(p, ty, 0)
  }

  function TagData(p: bytes, loc: nat): bytes
    requires loc + TAG_HDR_SIZE <= |p| && loc + TAG_HDR_SIZE + Word(p, loc + 2) <= |p|
  {
    p[loc + TAG_HDR_SIZE..loc + TAG_HDR_SIZE + Word(p, loc + 2)]
  }

  function EncodeTag(ty: nat, data: bytes): bytes
    requires ty < 65536 && |data| < 65536
  {
    [ty / 256, ty % 256, |data| / 256, |data| % 256] + data
  }

  // ---------------------------------------------------- how the walk sees edits

  /** Prepending a tag of another type shifts the walk. */
  lemma {:induction false} FindShifts(p: bytes, q: bytes, ty: nat, pos: nat)
    ensures FindFrom(q + p, ty, |q| + pos) == if FindFrom(p, ty, pos) == -1 then -1 else |q| + FindFrom(p, ty, pos)
    decreases |p| - pos
  {
    var w := q + p;
    if pos + TAG_HDR_SIZE <= |p| {
      assert Word(w, |q| + pos) == Word(p, pos) && Word(w, |q| + pos + 2) == Word(p, pos + 2);
      if Word(p, pos) != TAG_END_OF_LIST && pos + Word(p, pos + 2) + TAG_HDR_SIZE <= |p| && Word(p, pos) != ty {
        FindShifts(p, q, ty, pos + TAG_HDR_SIZE + Word(p, pos + 2));
      }
    }
  }

  /** Rewriting data bytes of the tag at `loc` leaves every tag header where it was. */
  lemma {:induction false} FindAfterRewrite(p: bytes, p': bytes, ty: nat, pos: nat, loc: nat)
    requires FindFrom(p, ty, pos) == loc && |p'| == |p|
    requires p'[..loc + TAG_HDR_SIZE] == p[..loc + TAG_HDR_SIZE]
    ensures FindFrom(p', ty, pos) == loc && Word(p', loc + 2) == Word(p, loc + 2)
    decreases |p| - pos
  {
    hide FindFrom;
    StepBeforeRewrite(p, p', ty, pos, loc);
    if pos < loc {
      FindAfterRewrite(p, p', ty, pos + TAG_HDR_SIZE + Word(p, pos + 2), loc);
    }
  }

  /** At the tag, or one step before it, the walk sees what it saw. */
  lemma StepBeforeRewrite(p: bytes, p': bytes, ty: nat, pos: nat, loc: nat)
    requires FindFrom(p, ty, pos) == loc && |p'| == |p|
    requires p'[..loc + TAG_HDR_SIZE] == p[..loc + TAG_HDR_SIZE]
    ensures Word(p', loc + 2) == Word(p, loc + 2)
    ensures if pos == loc then FindFrom(p', ty, pos) == loc
            else
              && pos + TAG_HDR_SIZE <= |p|
              && var next := pos + TAG_HDR_SIZE + Word(p, pos + 2);
                 FindFrom(p, ty, next) == loc && FindFrom(p', ty, pos) == FindFrom(p', ty, next)
  {
    SameWord(p, p', loc, loc + TAG_HDR_SIZE);
    SameWord(p, p', loc + 2, loc + TAG_HDR_SIZE);
    if pos < loc {
      SameWord(p, p', pos, loc + TAG_HDR_SIZE);
      SameWord(p, p', pos + 2, loc + TAG_HDR_SIZE);
    }
    hide Word;
  }

  lemma SameWord(p: bytes, p': bytes, i: nat, n: nat)
    requires i + 2 <= n <= |p| == |p'| && p[..n] == p'[..n]
    ensures Word(p, i) == Word(p', i)
  {
    assert p[i] == p[..n][i] == p'[i] && p[i + 1] == p[..n][i + 1] == p'[i + 1];
  }

  /** `p` without the `n` bytes at `loc`. */
  function Cut(p: bytes, loc: nat, n: nat): bytes
    requires loc + n <= |p|
  {
    p[..loc] + p[loc + n..]
  }

  lemma Halves(p: bytes, i: nat)
    requires i <= |p|
    ensures p[..i] + p[i..] == p
  {
  }

  /** Behind the gap the walk goes on as it would have. */
  lemma FindBehindCut(p: bytes, ty: nat, loc: nat, n: nat)
    requires loc + n <= |p|
    ensures var r := FindFrom(p, ty, loc + n); FindFrom(Cut(p, loc, n), ty, loc) == if r == -1 then -1 else r - n
  {
    hide FindFrom, Word;
    Halves(p, loc + n);
    var rest, a, b := p[loc + n..], p[..loc], p[..loc + n];
    FindShifts(rest, a, ty, 0);
    FindShifts(rest, b, ty, 0);
    assert Cut(p, loc, n) == a + rest && |a| + 0 == loc && |b| + 0 == loc + n;
  }

  /** Before the gap the walk takes the same step. */
  lemma StepBeforeCut(p: bytes, ty: nat, pos: nat, loc: nat, n: nat)
    requires pos < loc && loc + n <= |p| && FindFrom(p, ty, pos) == loc
    ensures var next := pos + TAG_HDR_SIZE + Word(p, pos + 2);
            && FindFrom(p, ty, next) == loc && next <= loc
            && FindFrom(Cut(p, loc, n), ty, pos) == FindFrom(Cut(p, loc, n), ty, next)
  {
    var c := Cut(p, loc, n);
    assert Word(c, pos) == Word(p, pos) && Word(c, pos + 2) == Word(p, pos + 2);
  }

  lemma {:induction false} WalkToCut(p: bytes, ty: nat, pos: nat, loc: nat, n: nat)
    requires pos <= loc && loc + n <= |p| && FindFrom(p, ty, pos) == loc
    ensures FindFrom(Cut(p, loc, n), ty, pos) == FindFrom(Cut(p, loc, n), ty, loc)
    decreases loc - pos
  {
    hide FindFrom, Cut;
    if pos < loc {
      StepBeforeCut(p, ty, pos, loc, n);
      WalkToCut(p, ty, pos + TAG_HDR_SIZE + Word(p, pos + 2), loc, n);
    }
  }

  /** Cutting the tag at `loc` out: the walk then meets what followed it. */
  lemma FindAfterRemoval(p: bytes, ty: nat, loc: nat, n: nat)
    requires FindFrom(p, ty, 0) == loc && n == TAG_HDR_SIZE + Word(p, loc + 2)
    ensures FindFrom(Cut(p, loc, n), ty, 0) == -1 <==> FindFrom(p, ty, loc + n) == -1
  {
    WalkToCut(p, ty, 0, loc, n);
    FindBehindCut(p, ty, loc, n);
  }

  // --------------------------------------------------------------- the buffer

  lemma FilledIn(p: bytes, was: bytes, loc: nat, data: bytes, length: nat)
    requires |p| == |was| && loc <= length && length + |data| <= |p| && p[..loc] == was[..loc]
    requires forall j :: loc + |data| <= j < length + |data| ==> p[j] == was[j - |data|]
    ensures Over(p, loc, data)[..length + |data|] == was[..length][..loc] + data + was[..length][loc..]
  {
    assert was[..length][..loc] == was[..loc] && was[..length][loc..] == was[loc..length];
    assert p[loc + |data|..length + |data|] == was[loc..length];
    assert p[loc + |data|..][..length - loc] == p[loc + |data|..length + |data|];
  }

  lemma MovedDown(p: bytes, was: bytes, loc: nat, len: nat, plen: nat)
    requires |p| == |was| && loc + len <= plen <= |p| && p[..loc] == was[..loc]
    requires forall j :: loc <= j < plen - len ==> p[j] == was[j + len]
    ensures p[..plen - len] == Cut(was[..plen], loc, len)
  {
    assert was[..plen][..loc] == was[..loc] && was[..plen][loc + len..] == was[loc + len..plen];
    assert p[loc..plen - len] == was[loc + len..plen];
    assert p[..plen - len] == p[..loc] + p[loc..plen - len];
  }

  /** A packet in its fixed buffer; `length` is the PPPoE payload length. */
  class PacketBuffer {
    const payload: array<byte>
    var length: nat

    ghost predicate Valid() reads this { payload.Length == ETH_JUMBO_LEN && length < 65536 }

    ghost function Contents(): bytes
      requires Valid() && length <= ETH_JUMBO_LEN
      reads this, payload
    {
      payload[..length]
    }

    /** `memmove` of the bytes from `loc` up by `n`. */
    method MoveUp(loc: nat, n: nat)
      requires loc <= length && length + n <= payload.Length
      modifies payload
      ensures payload[..loc] == old(payload[..loc])
      ensures forall j :: loc + n <= j < length + n ==> payload[j] == old(payload[j - n])
    {
      ghost var was := payload[..];
      var i := length;
      while i > loc
        invariant loc <= i <= length
        invariant forall j :: i + n <= j < length + n ==> payload[j] == was[j - n]
        invariant forall j :: 0 <= j < i ==> payload[j] == was[j]
      {
        i := i - 1;
        payload[i + n] := payload[i];
      }
    }

    /** `memmove` of the bytes behind `loc + len` down to `loc`. */
    method MoveDown(loc: nat, len: nat)
      requires loc + len <= length <= payload.Length
      modifies payload
      ensures payload[..loc] == old(payload[..loc])
      ensures forall j :: loc <= j < length - len ==> payload[j] == old(payload[j + len])
    {
      ghost var was := payload[..];
      var i := loc;
      while i + len < length
        invariant loc <= i && i + len <= length
        invariant forall j :: loc <= j < i ==> payload[j] == was[j + len]
        invariant forall j :: 0 <= j < payload.Length && !(loc <= j < i) ==> payload[j] == was[j]
      {
        payload[i] := payload[i + len];
        i := i + 1;
      }
    }

    /** `insertBytes`: everything from `loc` on moves up, or nothing happens. */
    method InsertBytes(loc: int, data: bytes) returns (r: int)
      requires Valid() && length <= ETH_JUMBO_LEN
      modifies this`length, payload
      ensures Valid() && length <= ETH_JUMBO_LEN
      ensures var was := old(Contents());
              if loc < 0 || loc > |was| || |data| + |was| > MAX_PPPOE_PAYLOAD
              then r == -1 && Contents() == was
              else r == |data| && Contents() == was[..loc] + data + was[loc..]
    {
      if loc < 0 || loc > length || |data| + length > MAX_PPPOE_PAYLOAD {
        return -1;
      }
      hide Over;
      ghost var was := payload[..];
      MoveUp(loc, |data|);
      FilledIn(payload[..], was, loc, data, length);
      CopyInto(payload, loc, data);
      length := length + |data|;
      r := |data|;
    }

    /** `removeBytes`: everything after the gap moves down, or nothing happens. */
    method RemoveBytes(loc: int, len: int) returns (r: int)
      requires Valid() && length <= ETH_JUMBO_LEN
      modifies this`length, payload
      ensures Valid() && length <= ETH_JUMBO_LEN
      ensures var was := old(Contents());
              if len < 0 || len > |was| || loc < 0 || loc + len > |was|
              then r == -1 && Contents() == was
              else r == len && Contents() == Cut(was, loc, len)
    {
      if len < 0 || len > length || loc < 0 || loc + len > length {
        return -1;
      }
      hide Cut;
      ghost var was := payload[..];
      MoveDown(loc, len);
      MovedDown(payload[..], was, loc, len, length);
      length := length - len;
      r := len;
    }

    /** `findTag`, walking the buffer by hand. */
    method FindTagIn(ty: nat) returns (loc: int)
      requires Valid() && length <= ETH_JUMBO_LEN
      ensures loc == FindTag(Contents(), ty)
    {
      if length > MAX_PPPOE_PAYLOAD {
        return -1;
      }
      ghost var p := Contents();
      var cur := 0;
      while cur + TAG_HDR_SIZE <= length
        invariant FindFrom(p, ty, cur) == FindFrom(p, ty, 0)
        decreases length - cur
      {
        var tagType := (payload[cur] as int) * 256 + payload[cur + 1];
        var tagLen := (payload[cur + 2] as int) * 256 + payload[cur + 3];
        if tagType == TAG_END_OF_LIST {
          return -1;
        }
        if cur + tagLen + TAG_HDR_SIZE > length {
          return -1;
        }
        if tagType == ty {
          return cur;
        }
        cur := cur + TAG_HDR_SIZE + tagLen;
      }
      loc := -1;
    }
  }
}
