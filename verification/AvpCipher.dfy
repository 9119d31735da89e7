/** What a hidden AVP is on the wire (section 4.3 of RFC 2661): every byte of the value
    and of its length is added digit by digit to a digest, and each digest depends on
    the cipher before it. */
module AvpCipher {
  import opened Octets
  import opened Md5
  import opened AvpHiding

  // ------------------------------------------------------------ exclusive or

  /** Binary digit `j`, the lowest one first. */
  function Digit(x: nat, j: nat): nat { if j == 0 then x % 2 else Digit(x / 2, j - 1) }

  lemma {:induction false} XorBitsDigit(a: nat, b: nat, n: nat, j: nat)
    requires j < n
    ensures Digit(XorBits(a, b, n), j) == (Digit(a, j) + Digit(b, j)) % 2
  {
    var rest := XorBits(a / 2, b / 2, n - 1);
    var bit := (a % 2 + b % 2) % 2;
    LowBit(bit, rest);
    if j > 0 {
      XorBitsDigit(a / 2, b / 2, n - 1, j - 1);
    }
  }

  /** Each of the eight digits is the sum of the two digits, modulo 2. */
  lemma XorAddsDigits(a: byte, b: byte, j: nat)
    requires j < 8
    ensures Digit(Xor(a, b), j) == (Digit(a, j) + Digit(b, j)) % 2
  {
    XorBitsDigit(a, b, 8, j);
  }

  lemma {:induction false} XorBitsSame(a: nat, b: nat, n: nat)
    requires a < Pow2(n) && b < Pow2(n)
    ensures XorBits(a, b, n) == a <==> b == 0
  {
    if n > 0 {
      XorBitsSame(a / 2, b / 2, n - 1);
      LowBit((a % 2 + b % 2) % 2, XorBits(a / 2, b / 2, n - 1));
    }
  }

  /** Masking shows nothing of a byte unless the digest's byte is zero, and then all of it. */
  lemma XorSame(a: byte, b: byte)
    ensures Xor(a, b) == a <==> b == 0
  {
    assert Pow2(4) == 16 && Pow2(8) == 256;
    XorBitsSame(a, b, 8);
  }

  /** `c` is `p` with the bytes of `d` added to it, digit by digit. */
  ghost predicate Added(c: bytes, p: bytes, d: bytes) {
    && |c| == |p| <= |d|
    && forall i, j :: 0 <= i < |p| && 0 <= j < 8 ==> Digit(c[i], j) == (Digit(p[i], j) + Digit(d[i], j)) % 2
  }

  lemma XorSeqAdds(p: bytes, d: bytes)
    requires |p| <= |d|
    ensures Added(XorSeq(p, d), p, d)
    ensures forall i :: 0 <= i < |p| ==> (XorSeq(p, d)[i] == p[i] <==> d[i] == 0)
  {
    hide Xor, Digit;
    var c := XorSeq(p, d);
    forall i, j | 0 <= i < |p| && 0 <= j < 8 ensures Digit(c[i], j) == (Digit(p[i], j) + Digit(d[i], j)) % 2 {
      XorAddsDigits(p[i], d[i], j);
    }
    forall i | 0 <= i < |p| ensures XorSeq(p, d)[i] == p[i] <==> d[i] == 0 { XorSame(p[i], d[i]); }
  }

  // ---------------------------------------------------------------- segments

  /** Sixteen bytes, or what is left of them. */
  function Segment(s: bytes, k: nat): bytes
    requires 16 * k <= |s|
  {
    s[16 * k..if 16 * k + 16 <= |s| then 16 * k + 16 else |s|]
  }

  /** What is digested for a segment: `first`, then the secret and the cipher before it. */
  function Key(first: bytes, secret: bytes, c: bytes, k: nat): bytes
    requires 16 * k <= |c|
  {
    if k == 0 then first else secret + Segment(c, k - 1)
  }

  /** Every segment of `c` is the one of `p` added to the digest of its key. */
  ghost predicate Chained(f: Transform, first: bytes, secret: bytes, p: bytes, c: bytes) {
    && |c| == |p|
    && forall k :: 0 <= k && 16 * k < |p| ==>
         Added(Segment(c, k), Segment(p, k), DigestOf(f, Key(first, secret, c, k)))
  }

  /** A segment further on is a segment of the rest. */
  lemma SegmentBehind(s: bytes, k: nat)
    requires |s| >= 16 && 16 * k <= |s| - 16
    ensures Segment(s, k + 1) == Segment(s[16..], k)
  {
  }

  /** One more segment in front of a chain. */
  lemma ChainedBefore(f: Transform, first: bytes, secret: bytes, p: bytes, c: bytes)
    requires |c| == |p| >= 16 && Added(c[..16], p[..16], DigestOf(f, first))
    requires Chained(f, secret + c[..16], secret, p[16..], c[16..])
    ensures Chained(f, first, secret, p, c)
  {
    hide Added, DigestOf;
    forall k | 0 <= k && 16 * k < |p|
      ensures Added(Segment(c, k), Segment(p, k), DigestOf(f, Key(first, secret, c, k)))
    {
      if k > 0 {
        SegmentBehind(c, k - 1);
        SegmentBehind(p, k - 1);
        KeyBehind(first, secret, c, k - 1);
      }
    }
  }

  lemma KeyBehind(first: bytes, secret: bytes, c: bytes, k: nat)
    requires |c| >= 16 && 16 * k <= |c| - 16
    ensures Key(first, secret, c, k + 1) == Key(secret + c[..16], secret, c[16..], k)
  {
    if k > 0 {
      SegmentBehind(c, k - 1);
    }
  }

  lemma {:induction false} MaskChains(f: Transform, first: bytes, secret: bytes, p: bytes)
    requires |p| % MD_SIG_SIZE == 0
    ensures Chained(f, first, secret, p, Mask(f, first, secret, p))
    decreases |p|
  {
    if p != [] {
      var c := XorSeq(p[..16], DigestOf(f, first));
      XorSeqAdds(p[..16], DigestOf(f, first));
      MaskChains(f, secret + c, secret, p[16..]);
      hide XorSeq, DigestOf, Added, Chained;
      var all := Mask(f, first, secret, p);
      assert all[..16] == c && all[16..] == Mask(f, secret + c, secret, p[16..]);
      ChainedBefore(f, first, secret, p, all);
    }
  }

  /** Unmasking adds the same digests, and takes a last short segment as it is. */
  lemma {:induction false} UnmaskChains(f: Transform, first: bytes, secret: bytes, c: bytes)
    ensures |Unmask(f, first, secret, c)| == |c|
    ensures forall k :: 0 <= k && 16 * k < |c| ==>
              Added(Segment(Unmask(f, first, secret, c), k), Segment(c, k), DigestOf(f, Key(first, secret, c, k)))
    decreases |c|
  {
    var p := Unmask(f, first, secret, c);
    if |c| <= 16 {
      XorSeqAdds(c, DigestOf(f, first));
      assert c != [] ==> Segment(c, 0) == c && Segment(p, 0) == p;
      forall k | 0 <= k && 16 * k < |c| ensures k == 0 {}
    } else {
      var rest := Unmask(f, secret + c[..16], secret, c[16..]);
      XorSeqAdds(c[..16], DigestOf(f, first));
      UnmaskChains(f, secret + c[..16], secret, c[16..]);
      assert p[..16] == XorSeq(c[..16], DigestOf(f, first)) && p[16..] == rest;
      hide XorSeq, DigestOf, Added, Unmask;
      forall k | 0 <= k && 16 * k < |c|
        ensures Added(Segment(p, k), Segment(c, k), DigestOf(f, Key(first, secret, c, k)))
      {
        if k > 0 {
          SegmentBehind(c, k - 1);
          SegmentBehind(p, k - 1);
          KeyBehind(first, secret, c, k - 1);
        }
      }
    }
  }

  // ------------------------------------------------------------ on the wire

  /** A value hidden in memory: the header with the H bit and the hidden length, vendor
      and attribute in network order; behind it the length of the value, the value and the
      bytes that fill the last segment, masked by digests of attribute, secret and random
      vector for the first segment and of secret and cipher for the others. Nothing else
      changes. */
  lemma HiddenOnWire(f: Transform, k: Keys, m: bytes, at: nat, fl: Flags, vendor: u16, attr: u16, value: bytes)
    requires CanHide(m, at, fl, vendor, attr, value)
    ensures var n := HiddenLength(6 + |value|);
            var h := HideAt(f, k, m, at, 6 + |value|);
            && |h| == |m| && h[..at] == m[..at] && h[at + n..] == m[at + n..]
            && h[at..at + 6] == [16 * fl + 64 + n / 256, n % 256, vendor / 256, vendor % 256, attr / 256, attr % 256]
            && Chained(f, [attr / 256, attr % 256] + k.secret + k.vector, k.secret,
                       [|value| / 256, |value| % 256] + value + m[at + 8 + |value|..at + n], h[at + 6..at + n])
  {
    hide HiddenLength, Mask, ReadBig, Chained, Added;
    HiddenLengthFits(6 + |value|);
    var n := HiddenLength(6 + |value|);
    PlainFields(m, at + 2, fl, vendor, attr, value);
    hide PlainAt;
    var fill := m[at + 8..at + n];
    assert fill == value + m[at + 8 + |value|..at + n];
    var plain := Big(|value|) + fill;
    assert plain == [|value| / 256, |value| % 256] + value + m[at + 8 + |value|..at + n];
    MaskChains(f, Seed(k, attr), k.secret, plain);
    var head := BigHeader(Word(SetH(fl), n), vendor, attr);
    WordBytes(fl, n);
    var w := head + Mask(f, Seed(k, attr), k.secret, plain);
    assert HideAt(f, k, m, at, 6 + |value|) == Over(m, at, w);
    OverParts(m, at, w);
    assert w[..6] == head && w[6..] == Mask(f, Seed(k, attr), k.secret, plain);
    InTwo(Over(m, at, w), at, 6, n);
  }

  lemma InTwo(m: bytes, at: nat, k: nat, n: nat)
    requires k <= n && at + n <= |m|
    ensures m[at..at + n][..k] == m[at..at + k] && m[at..at + n][k..] == m[at + k..at + n]
  {
  }

  lemma WordBytes(fl: Flags, n: nat)
    requires n < 4096 && ClearH(fl) == fl
    ensures Big(Word(SetH(fl), n)) == [16 * fl + 64 + n / 256, n % 256]
  {
  }

  lemma OverParts(m: bytes, at: nat, w: bytes)
    requires at + |w| <= |m|
    ensures var h := Over(m, at, w);
            |h| == |m| && h[..at] == m[..at] && h[at..at + |w|] == w && h[at + |w|..] == m[at + |w|..]
  {
  }

  /** A hidden AVP is refused if and only if the length that its unmasked bytes begin with
      is not there or does not fit into them. */
  lemma RefusedExactly(f: Transform, k: Keys, m: bytes, at: nat)
    requires HiddenWord(m, at)
    ensures var c, attr := CipherAt(m, at), m[at + 4] + (m[at + 5] as int) * 256;
            var p := Unmask(f, [attr / 256, attr % 256] + k.secret + k.vector, k.secret, c);
            UnhideAt(f, k, m, at).Refused? <==> |c| < 2 || (p[0] as int) * 256 + p[1] > |c| - 2
  {
    hide Unmask, CipherAt, HiddenWord;
  }
}
