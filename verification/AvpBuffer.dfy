/** `encrypt_avp` and `decrypt_avp` as they work on a packet buffer: overlapping
    header rewrites, then one 16-byte segment at a time. */
module AvpBuffer {
  import opened Octets
  import opened Md5
  import opened AvpHiding

  /** One segment is masked where it stands. */
  method XorSegment(buf: array<byte>, at: nat, n: nat, digest: Digest)
    requires at + n <= buf.Length && n <= MD_SIG_SIZE
    modifies buf
    ensures buf[..] == Over(old(buf[..]), at, XorSeq(old(buf[at..at + n]), digest))
  {
    ghost var was := buf[..];
    ghost var s := XorSeq(was[at..at + n], digest);
    hide Xor;
    for k := 0 to n
      invariant forall i :: 0 <= i < buf.Length ==> buf[i] == if at <= i < at + k then s[i - at] else was[i]
    {
      buf[at + k] := Xor(buf[at + k], digest[k]);
    }
    assert buf[..] == Over(was, at, s);
  }

  lemma JoinTwo(a: bytes, b: bytes)
    ensures Join([a, b]) == a + b
  {
    assert [a, b][1..] == [b] && [b][1..] == [];
    assert Join([b]) == b + Join([]) == b;
  }

  lemma JoinThree(a: bytes, b: bytes, c: bytes)
    ensures Join([a, b, c]) == a + b + c
  {
    assert [a, b, c][1..] == [b, c];
    JoinTwo(b, c);
    assert a + (b + c) == a + b + c;
  }

  method FirstDigest(f: Transform, k: Keys, attr: bytes) returns (d: Digest)
    requires |attr| == 2
    ensures d == DigestOf(f, attr + k.secret + k.vector)
  {
    JoinThree(attr, k.secret, k.vector);
    d := DigestInPieces(f, [attr, k.secret, k.vector]);
  }

  method NextDigest(f: Transform, k: Keys, segment: bytes) returns (d: Digest)
    requires |segment| == MD_SIG_SIZE
    ensures d == DigestOf(f, k.secret + segment)
  {
    JoinTwo(k.secret, segment);
    d := DigestInPieces(f, [k.secret, segment]);
  }

  // ---------------------------------------------------------------------- hiding

  /** The four header assignments of `encrypt_avp`, in order. */
  function Rewritten(m: bytes, at: nat, word: u16, vlen: u16): (r: bytes)
    requires at + 8 <= |m|
    ensures |r| == |m|
  {
    var m1 := Over(m, at, Big(word));
    var m2 := Over(m1, at + 2, m1[at + 4..at + 6]);
    var m3 := Over(m2, at + 4, m2[at + 6..at + 8]);
    Over(m3, at + 6, Big(vlen))
  }

  lemma OverPoints(m: bytes, at: nat, s: bytes)
    requires at + |s| <= |m|
    ensures forall i :: 0 <= i < |m| ==>
              Over(m, at, s)[i] == if at <= i < at + |s| then s[i - at] else m[i]
  {
  }

  lemma OverSlice(m: bytes, at: nat, s: bytes)
    requires at + |s| <= |m|
    ensures Over(m, at, s)[at..at + |s|] == s
  {
  }

  lemma BigOfRead(m: bytes, at: nat)
    requires at + 2 <= |m|
    ensures Big(ReadBig(m, at)) == m[at..at + 2]
  {
    LowByte(m[at], m[at + 1]);
  }

  lemma LowByte(hi: byte, lo: byte)
    ensures ((hi as int) * 256 + lo) / 256 == hi && ((hi as int) * 256 + lo) % 256 == lo
  {
  }

  /** No field is overwritten before it is moved. */
  lemma RewrittenLayout(m: bytes, at: nat, word: u16, vlen: u16)
    requires at + 8 <= |m|
    ensures Rewritten(m, at, word, vlen) ==
              Over(m, at, BigHeader(word, ReadBig(m, at + 4), ReadBig(m, at + 6)) + Big(vlen))
  {
    BigOfRead(m, at + 4);
    BigOfRead(m, at + 6);
    hide Over, Big, ReadBig;
    var vendor, attr := m[at + 4..at + 6], m[at + 6..at + 8];
    var s2 := Big(word) + vendor;
    var s3 := s2 + attr;
    assert BigHeader(word, ReadBig(m, at + 4), ReadBig(m, at + 6)) == s3;
    OverBehind(m, at, Big(word), at + 4, at + 6);
    OverJoins(m, at, Big(word), vendor);
    OverBehind(m, at, s2, at + 6, at + 8);
    OverJoins(m, at, s2, attr);
    OverJoins(m, at, s3, Big(vlen));
  }

  lemma OverJoins(m: bytes, at: nat, a: bytes, b: bytes)
    requires at + |a| + |b| <= |m|
    ensures Over(Over(m, at, a), at + |a|, b) == Over(m, at, a + b)
  {
    var m1 := Over(m, at, a);
    assert m1[..at + |a|] == m[..at] + a;
    assert m1[at + |a| + |b|..] == m[at + |a| + |b|..] == m[at + |a + b|..];
    assert (m[..at] + a) + b == m[..at] + (a + b);
  }

  lemma OverBehind(m: bytes, at: nat, s: bytes, i: nat, j: nat)
    requires at + |s| <= i <= j <= |m|
    ensures Over(m, at, s)[i..j] == m[i..j]
  {
  }

  // ---------------------------------------------------------------------- masking

  /** One segment moves from the plain side to the masked side of the chain. */
  lemma MaskStep(f: Transform, seed: bytes, secret: bytes, p: bytes)
    requires |p| % MD_SIG_SIZE == 0 && p != []
    ensures var c := XorSeq(p[..MD_SIG_SIZE], DigestOf(f, seed));
            Mask(f, seed, secret, p) == c + Mask(f, secret + c, secret, p[MD_SIG_SIZE..])
  {
  }

  lemma SegmentsLeft(n: nat)
    requires n % MD_SIG_SIZE == 0 && n > 0
    ensures n >= MD_SIG_SIZE && (n - MD_SIG_SIZE) % MD_SIG_SIZE == 0
  {
  }

  lemma Onward(done: bytes, c: bytes, tail: bytes)
    ensures done + (c + tail) == (done + c) + tail
  {
  }

  /** A stretch that is masked up to `done`, with `rest` of it still plain. */
  ghost predicate Stretch(m: bytes, was: bytes, at: nat, done: bytes, rest: bytes) {
    && |m| == |was| && at + |done| + |rest| <= |m|
    && m == was[..at] + done + was[at + |done|..] && was[at + |done|..at + |done| + |rest|] == rest
  }

  lemma StretchStep(m: bytes, was: bytes, at: nat, done: bytes, rest: bytes, n: nat, s: bytes)
    requires Stretch(m, was, at, done, rest) && |s| == n <= |rest|
    ensures m[at + |done|..at + |done| + n] == rest[..n]
    ensures Stretch(Over(m, at + |done|, s), was, at, done + s, rest[n..])
  {
    var from := at + |done|;
    Parts(was, from, |rest|, n);
    assert m[..from] == was[..at] + done;
    assert m[from..] == was[from..];
    Parts(m, from, |rest|, n);
    hide Over;
    OverJoins(was, at, done, s);
    OverJoins(was, at, done, was[from..from + |rest|]);
    StretchIsOver(m, was, at, done, rest);
    assert at + |done + s| == from + n;
    OverPoints(was, at, done + s);
  }

  lemma Parts(m: bytes, from: nat, len: nat, n: nat)
    requires from + len <= |m| && n <= len
    ensures m[from..from + len][..n] == m[from..from + n] && m[from..from + len][n..] == m[from + n..from + len]
    ensures m[from..][n..] == m[from + n..] && m[from..][..n] == m[from..from + n]
  {
  }

  lemma StretchIsOver(m: bytes, was: bytes, at: nat, done: bytes, rest: bytes)
    requires Stretch(m, was, at, done, rest)
    ensures m == Over(was, at, done)
  {
  }

  lemma StretchStart(was: bytes, at: nat, rest: bytes)
    requires at + |rest| <= |was| && was[at..at + |rest|] == rest
    ensures Stretch(was, was, at, [], rest)
  {
    assert was[..at] + [] + was[at..] == was;
  }

  lemma MaskOfNothing(f: Transform, seed: bytes, secret: bytes)
    ensures Mask(f, seed, secret, []) == []
  {
  }

  lemma StretchEnd(m: bytes, was: bytes, at: nat, done: bytes)
    requires Stretch(m, was, at, done, [])
    ensures m == Over(was, at, done)
  {
  }

  method MaskInPlace(f: Transform, k: Keys, buf: array<byte>, at: nat, end: nat, attr: bytes)
    requires |attr| == 2 && at <= end <= buf.Length && (end - at) % MD_SIG_SIZE == 0
    modifies buf
    ensures buf[..] == Over(old(buf[..]), at,
                            Mask(f, attr + k.secret + k.vector, k.secret, old(buf[at..end])))
  {
    hide Mask, Over, DigestOf, Stretch, XorSeq;
    ghost var was, plain := buf[..], buf[at..end];
    ghost var done, rest, seed := [], plain, attr + k.secret + k.vector;
    ghost var whole := Mask(f, seed, k.secret, plain);
    StretchStart(was, at, plain);
    var digest := FirstDigest(f, k, attr);
    var ptr := at;
    while ptr < end
      invariant at <= ptr <= end && ptr == at + |done| && |rest| == end - ptr && |rest| % MD_SIG_SIZE == 0
      invariant Stretch(buf[..], was, at, done, rest)
      invariant whole == done + Mask(f, seed, k.secret, rest)
      invariant ptr < end ==> digest == DigestOf(f, seed)
    {
      SegmentsLeft(|rest|);
      ghost var c := XorSeq(rest[..MD_SIG_SIZE], digest);
      MaskStep(f, seed, k.secret, rest);
      Onward(done, c, Mask(f, k.secret + c, k.secret, rest[MD_SIG_SIZE..]));
      StretchStep(buf[..], was, at, done, rest, MD_SIG_SIZE, c);
      OverSlice(buf[..], ptr, c);
      XorSegment(buf, ptr, MD_SIG_SIZE, digest);
      var segment := buf[ptr..ptr + MD_SIG_SIZE];
      done, rest, seed := done + c, rest[MD_SIG_SIZE..], k.secret + c;
      ptr := ptr + MD_SIG_SIZE;
      if ptr < end {
        digest := NextDigest(f, k, segment);
      }
    }
    MaskOfNothing(f, seed, k.secret);
    assert rest == [] && done + [] == done;
    StretchEnd(buf[..], was, at, done);
  }

  /** The result of the rewriting and of the masking, put together. */
  lemma HiddenFromParts(f: Transform, k: Keys, m: bytes, at: nat, len: nat)
    requires AVP_HDR <= len && HiddenLength(len) < 4096 && at + HiddenLength(len) <= |m|
    ensures len + 2 <= HiddenLength(len) && (HiddenLength(len) - AVP_HDR) % MD_SIG_SIZE == 0
    ensures var n, attr := HiddenLength(len), ReadBig(m, at + 6);
            var r := Rewritten(m, at, Word(SetH(m[at + 2] / 16), n), len - AVP_HDR);
            var plain := r[at + AVP_HDR..at + n];
            && |plain| % MD_SIG_SIZE == 0
            && Over(r, at + AVP_HDR, Mask(f, Seed(k, attr), k.secret, plain)) == HideAt(f, k, m, at, len)
  {
    hide Rewritten, Mask, Word, BigHeader, Seed, SetH, ReadBig, Over;
    HiddenLengthFits(len);
    var n, vendor, attr := HiddenLength(len), ReadBig(m, at + 4), ReadBig(m, at + 6);
    hide HiddenLength;
    var word := Word(SetH(m[at + 2] / 16), n);
    RewrittenLayout(m, at, word, len - AVP_HDR);
    var head, vlen, fill := BigHeader(word, vendor, attr), Big(len - AVP_HDR), m[at + 8..at + n];
    PartsOver(m, at, head, vlen, fill);
    OverOver(m, at, head, vlen, Mask(f, Seed(k, attr), k.secret, vlen + fill));
  }

  lemma PartsOver(m: bytes, at: nat, head: bytes, vlen: bytes, fill: bytes)
    requires at + |head| + |vlen| + |fill| <= |m|
    requires fill == m[at + |head| + |vlen|..at + |head| + |vlen| + |fill|]
    ensures Over(m, at, head + vlen)[at + |head|..at + |head| + |vlen| + |fill|] == vlen + fill
  {
    var from := at + |head| + |vlen|;
    assert Over(m, at, head + vlen)[from..from + |fill|] == m[from..from + |fill|];
  }

  lemma OverOver(m: bytes, at: nat, head: bytes, x: bytes, c: bytes)
    requires at + |head| + |c| <= |m| && |x| <= |c|
    ensures Over(Over(m, at, head + x), at + |head|, c) == Over(m, at, head + c)
  {
    var r := Over(m, at, head + x);
    assert r[..at + |head|] == m[..at] + head;
    assert r[at + |head| + |c|..] == m[at + |head| + |c|..];
    assert m[..at] + head + c == m[..at] + (head + c);
  }

  /** The header assignments of `encrypt_avp`. */
  method RewriteHeader(buf: array<byte>, at: nat, word: u16, vlen: u16) returns (attr: bytes)
    requires at + 8 <= buf.Length
    modifies buf
    ensures buf[..] == Rewritten(old(buf[..]), at, word, vlen)
    ensures attr == old(buf[at + 6..at + 8])
  {
    hide Over;
    OverPoints(buf[..], at, Big(word));
    CopyInto(buf, at, Big(word));
    OverPoints(buf[..], at + 2, buf[at + 4..at + 6]);
    CopyInto(buf, at + 2, buf[at + 4..at + 6]);
    attr := buf[at + 6..at + 8];
    CopyInto(buf, at + 4, attr);
    CopyInto(buf, at + 6, Big(vlen));
  }

  /** `encrypt_avp` on the AVP of `len` bytes at `at + 2`; `end` is the new end of the packet. */
  method EncryptAvp(f: Transform, k: Keys, buf: array<byte>, at: nat, len: nat) returns (end: nat)
    requires AVP_HDR <= len && HiddenLength(len) < 4096 && at + HiddenLength(len) <= buf.Length
    modifies buf
    ensures buf[..] == HideAt(f, k, old(buf[..]), at, len)
    ensures end == at + HiddenLength(len)
  {
    hide HideAt, HiddenLength, Rewritten, Word, SetH, Over, Mask, ReadBig;
    HiddenFromParts(f, k, buf[..], at, len);
    BigOfRead(buf[..], at + 6);
    var word := Word(SetH(buf[at + 2] / 16), HiddenLength(len));
    var attr := RewriteHeader(buf, at, word, len - AVP_HDR);
    end := at + HiddenLength(len);
    MaskInPlace(f, k, buf, at + AVP_HDR, end, attr);
  }

  // -------------------------------------------------------------------- unhiding

  lemma UnmaskStep(f: Transform, seed: bytes, secret: bytes, c: bytes, n: nat)
    requires c != [] && n == if |c| < MD_SIG_SIZE then |c| else MD_SIG_SIZE
    ensures Unmask(f, seed, secret, c) ==
              XorSeq(c[..n], DigestOf(f, seed)) + Unmask(f, secret + c[..n], secret, c[n..])
  {
    assert n == |c| ==> c[..n] == c && Unmask(f, secret + c[..n], secret, c[n..]) == [];
  }

  lemma UnmaskOfNothing(f: Transform, seed: bytes, secret: bytes)
    ensures Unmask(f, seed, secret, []) == []
  {
  }

  method UnmaskInPlace(f: Transform, k: Keys, buf: array<byte>, at: nat, end: nat, attr: bytes)
    requires |attr| == 2 && at <= end <= buf.Length
    modifies buf
    ensures buf[..] == Over(old(buf[..]), at,
                            Unmask(f, attr + k.secret + k.vector, k.secret, old(buf[at..end])))
  {
    hide Unmask, Over, DigestOf, Stretch, XorSeq;
    ghost var was, cipher := buf[..], buf[at..end];
    ghost var done, rest, seed := [], cipher, attr + k.secret + k.vector;
    ghost var whole := Unmask(f, seed, k.secret, cipher);
    StretchStart(was, at, cipher);
    var digest := FirstDigest(f, k, attr);
    var ptr := at;
    while ptr < end
      invariant at <= ptr <= end && ptr == at + |done| && |rest| == end - ptr
      invariant Stretch(buf[..], was, at, done, rest)
      invariant whole == done + Unmask(f, seed, k.secret, rest)
      invariant ptr < end ==> digest == DigestOf(f, seed)
    {
      var n := if end - ptr < MD_SIG_SIZE then end - ptr else MD_SIG_SIZE;
      var saved := buf[ptr..ptr + n];
      ghost var p := XorSeq(rest[..n], digest);
      UnmaskStep(f, seed, k.secret, rest, n);
      Onward(done, p, Unmask(f, k.secret + rest[..n], k.secret, rest[n..]));
      StretchStep(buf[..], was, at, done, rest, n, p);
      XorSegment(buf, ptr, n, digest);
      done, rest, seed := done + p, rest[n..], k.secret + saved;
      ptr := ptr + n;
      if ptr < end {
        digest := NextDigest(f, k, saved);
      }
    }
    UnmaskOfNothing(f, seed, k.secret);
    assert rest == [] && done + [] == done;
    StretchEnd(buf[..], was, at, done);
  }

  /** The three header assignments of `decrypt_avp`, in order. */
  function MovedUp(m: bytes, at: nat, word: u16): (r: bytes)
    requires at + 8 <= |m|
    ensures |r| == |m|
  {
    var m1 := Over(m, at + 6, m[at + 4..at + 6]);
    var m2 := Over(m1, at + 4, m1[at + 2..at + 4]);
    Over(m2, at + 2, Little(word))
  }

  lemma LittleOfRead(m: bytes, at: nat)
    requires at + 2 <= |m|
    ensures Little(ReadLittle(m, at)) == m[at..at + 2]
  {
    LowByte(m[at + 1], m[at]);
  }

  lemma MovedUpLayout(m: bytes, at: nat, word: u16)
    requires at + 8 <= |m|
    ensures MovedUp(m, at, word) ==
              Over(m, at + 2, LittleHeader(word, ReadLittle(m, at + 2), ReadLittle(m, at + 4)))
  {
    LittleOfRead(m, at + 2);
    LittleOfRead(m, at + 4);
    var s := Little(word) + m[at + 2..at + 4] + m[at + 4..at + 6];
    assert s == LittleHeader(word, ReadLittle(m, at + 2), ReadLittle(m, at + 4));
    hide Little, ReadLittle, LittleHeader;
    var m1 := Over(m, at + 6, m[at + 4..at + 6]);
    assert m1[..at + 6] == m[..at + 6] && m1[at + 6..] == m[at + 4..at + 6] + m[at + 8..];
    assert m1[at + 2..at + 4] == m[at + 2..at + 4];
    var m2 := Over(m1, at + 4, m[at + 2..at + 4]);
    assert m2[..at + 2] == m[..at + 2];
    assert m2[at + 4..] == m[at + 2..at + 4] + (m[at + 4..at + 6] + m[at + 8..]);
    assert Little(word) + (m[at + 2..at + 4] + (m[at + 4..at + 6] + m[at + 8..])) == s + m[at + 8..];
  }

  /** The header over the unmasked value is the plain AVP over the hidden one. */
  lemma HeaderOverPlain(m: bytes, at: nat, head: bytes, plain: bytes)
    requires |head| == AVP_HDR && 2 <= |plain| && at + AVP_HDR + |plain| <= |m|
    ensures Over(Over(m, at + AVP_HDR, plain), at + 2, head) == Over(m, at + 2, head + plain[2..])
  {
    var u := Over(m, at + AVP_HDR, plain);
    assert u[..at + 2] == m[..at + 2];
    assert u[at + 8..] == plain[2..] + m[at + AVP_HDR + |plain|..];
    assert head + (plain[2..] + m[at + AVP_HDR + |plain|..]) == (head + plain[2..]) + m[at + AVP_HDR + |plain|..];
  }

  /** Unmasking leaves the header and its neighbours as they are. */
  lemma AfterUnmask(m: bytes, at: nat, plain: bytes)
    requires at + AVP_HDR + |plain| <= |m|
    ensures var u := Over(m, at + AVP_HDR, plain);
            && u[..at + AVP_HDR] == m[..at + AVP_HDR] && u[at + AVP_HDR + |plain|..] == m[at + AVP_HDR + |plain|..]
            && ReadLittle(u, at) == ReadLittle(m, at) && ReadLittle(u, at + 2) == ReadLittle(m, at + 2)
            && ReadLittle(u, at + 4) == ReadLittle(m, at + 4)
            && (2 <= |plain| ==> ReadBig(u, at + AVP_HDR) == ReadBig(plain, 0))
  {
    OverPoints(m, at + AVP_HDR, plain);
  }

  method MoveHeaderUp(buf: array<byte>, at: nat, word: u16)
    requires at + 8 <= buf.Length
    modifies buf
    ensures buf[..] == MovedUp(old(buf[..]), at, word)
  {
    hide Over;
    CopyInto(buf, at + 6, buf[at + 4..at + 6]);
    CopyInto(buf, at + 4, buf[at + 2..at + 4]);
    CopyInto(buf, at + 2, Little(word));
  }

  method UnmaskValue(f: Transform, k: Keys, buf: array<byte>, at: nat) returns (end: nat)
    requires HiddenWord(buf[..], at)
    modifies buf
    ensures var m := old(buf[..]);
            && end == at + AVP_HDR + |CipherAt(m, at)|
            && buf[..] == Over(m, at + AVP_HDR, Unmask(f, Seed(k, ReadLittle(m, at + 4)), k.secret, CipherAt(m, at)))
  {
    hide Unmask, Over, ReadLittle;
    var n := ReadLittle(buf[..], at) % 4096;
    end := if n < AVP_HDR then at + AVP_HDR else at + n;
    assert buf[at + AVP_HDR..end] == CipherAt(buf[..], at);
    UnmaskInPlace(f, k, buf, at + AVP_HDR, end, Big(ReadLittle(buf[..], at + 4)));
  }

  /** `decrypt_avp` on the hidden AVP at `at`. */
  method DecryptAvp(f: Transform, k: Keys, buf: array<byte>, at: nat) returns (ok: bool)
    requires HiddenWord(buf[..], at)
    modifies buf
    ensures var r := UnhideAt(f, k, old(buf[..]), at);
            ok == r.Restored? && buf[..] == r.mem
  {
    ghost var m := buf[..];
    var word, attr := ReadLittle(buf[..], at), ReadLittle(buf[..], at + 4);
    hide Unmask, Over, MovedUp, ReadLittle, ReadBig, LittleHeader, Word, ClearH, CipherAt, HiddenWord, Seed;
    ghost var plain := Unmask(f, Seed(k, attr), k.secret, CipherAt(m, at));
    AfterUnmask(m, at, plain);
    var end := UnmaskValue(f, k, buf, at);
    if end < at + AVP_HDR + 2 || ReadBig(buf[..], at + AVP_HDR) > end - at - AVP_HDR - 2 {
      return false;
    }
    var plainWord := Word(ClearH(word / 4096), AVP_HDR + ReadBig(buf[..], at + AVP_HDR));
    MovedUpLayout(buf[..], at, plainWord);
    HeaderOverPlain(m, at, LittleHeader(plainWord, ReadLittle(m, at + 2), attr), plain);
    MoveHeaderUp(buf, at, plainWord);
    ok := true;
  }
}
