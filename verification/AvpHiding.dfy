/** Hiding of AVP values (section 4.3 of RFC 2661), done in place: the header
    slides two bytes down over the plain AVP, a length word takes the freed
    place, and each 16-byte segment is masked with an MD5 digest chained over the
    segment before it. Unhiding slides the header back up. */
module AvpHiding {
  import opened Octets
  import opened Md5

  const AVP_HDR: nat := 6
  const MD_SIG_SIZE: nat := 16

  // ------------------------------------------------------------------- masking

  /** Exclusive or of the low `n` bits, one binary digit at a time. */
  function XorBits(a: nat, b: nat, n: nat): nat {
    if n == 0 then 0 else (a % 2 + b % 2) % 2 + 2 * XorBits(a / 2, b / 2, n - 1)
  }

  lemma LowBit(bit: nat, rest: nat)
    requires bit < 2
    ensures (bit + 2 * rest) % 2 == bit && (bit + 2 * rest) / 2 == rest
  {
  }

  lemma BitTwice(x: nat, y: nat)
    requires x < 2 && y < 2
    ensures ((x + y) % 2 + y) % 2 == x
  {
  }

  lemma XorBitsUnfold(bit: nat, rest: nat, b: nat, n: nat)
    requires n > 0 && bit < 2
    ensures XorBits(bit + 2 * rest, b, n) == (bit + b % 2) % 2 + 2 * XorBits(rest, b / 2, n - 1)
  {
    LowBit(bit, rest);
  }

  lemma {:induction false} XorBitsTwice(a: nat, b: nat, n: nat)
    requires a < Pow2(n)
    ensures XorBits(a, b, n) < Pow2(n) && XorBits(XorBits(a, b, n), b, n) == a
  {
    if n > 0 {
      var low, rest := (a % 2 + b % 2) % 2, XorBits(a / 2, b / 2, n - 1);
      XorBitsTwice(a / 2, b / 2, n - 1);
      assert XorBits(a, b, n) == low + 2 * rest && Pow2(n) == 2 * Pow2(n - 1);
      hide XorBits, Pow2;
      BitTwice(a % 2, b % 2);
      XorBitsUnfold(low, rest, b, n);
    }
  }

  function Xor(a: byte, b: byte): byte {
    assert Pow2(4) == 16 && Pow2(8) == 256;
    XorBitsTwice(a, b, 8);
    XorBits(a, b, 8)
  }

  lemma XorTwice(a: byte, b: byte)
    ensures Xor(Xor(a, b), b) == a
  {
    assert Pow2(4) == 16 && Pow2(8) == 256;
    XorBitsTwice(a, b, 8);
  }

  function XorSeq(p: bytes, d: bytes): (r: bytes)
    requires |p| <= |d|
    ensures |r| == |p|
  {
    seq(|p|, i requires 0 <= i < |p| => Xor(p[i], d[i]))
  }

  /** What is digested to mask a segment: the attribute number, secret and random
      vector for the first one, the secret and the cipher before it for the others. */
  function Mask(f: Transform, seed: bytes, secret: bytes, p: bytes): (c: bytes)
    requires |p| % MD_SIG_SIZE == 0
    ensures |c| == |p|
    decreases |p|
  {
    if p == [] then []
    else
      var c := XorSeq(p[..MD_SIG_SIZE], DigestOf(f, seed));
      c + Mask(f, secret + c, secret, p[MD_SIG_SIZE..])
  }

  function Unmask(f: Transform, seed: bytes, secret: bytes, c: bytes): (p: bytes)
    ensures |p| == |c|
    decreases |c|
  {
    if |c| <= MD_SIG_SIZE then XorSeq(c, DigestOf(f, seed))
    else XorSeq(c[..MD_SIG_SIZE], DigestOf(f, seed))
         + Unmask(f, secret + c[..MD_SIG_SIZE], secret, c[MD_SIG_SIZE..])
  }

  lemma {:induction false} UnmaskInverts(f: Transform, seed: bytes, secret: bytes, p: bytes)
    requires |p| % MD_SIG_SIZE == 0
    ensures Unmask(f, seed, secret, Mask(f, seed, secret, p)) == p
    decreases |p|
  {
    if p != [] {
      var d := DigestOf(f, seed);
      var head, tail := p[..MD_SIG_SIZE], p[MD_SIG_SIZE..];
      var c := XorSeq(head, d);
      XorSeqTwice(head, d);
      UnmaskInverts(f, secret + c, secret, tail);
      var rest := Mask(f, secret + c, secret, tail);
      hide XorSeq, DigestOf;
      assert (c + rest)[..MD_SIG_SIZE] == c && (c + rest)[MD_SIG_SIZE..] == rest;
      if tail == [] {
        assert c + rest == c;
      }
    }
  }

  lemma XorSeqTwice(p: bytes, d: bytes)
    requires |p| <= |d|
    ensures XorSeq(XorSeq(p, d), d) == p
  {
    forall i | 0 <= i < |p| ensures XorSeq(XorSeq(p, d), d)[i] == p[i] { XorTwice(p[i], d[i]); }
  }

  // -------------------------------------------------------------------- headers

  function Big(x: u16): (s: bytes)
    ensures |s| == 2
  {
    [x / 256, x % 256]
  }

  function ReadBig(m: bytes, i: nat): u16
    requires i + 2 <= |m|
  {
    (m[i] as int) * 256 + m[i + 1]
  }

  function ReadLittle(m: bytes, i: nat): u16
    requires i + 2 <= |m|
  {
    m[i] + (m[i + 1] as int) * 256
  }

  function Little(x: u16): (s: bytes)
    ensures |s| == 2
  {
    [x % 256, x / 256]
  }

  /** The four flag bits of a header word; the H bit is worth 4. */
  type Flags = n: nat | n < 16

  function SetH(fl: Flags): Flags { if fl / 4 % 2 == 1 then fl else fl + 4 }
  function ClearH(fl: Flags): Flags { if fl / 4 % 2 == 1 then fl - 4 else fl }

  /** The first header word: four flag bits, twelve bits of length. */
  function Word(fl: Flags, n: nat): (w: u16)
    requires n < 4096
    ensures w / 4096 == fl && w % 4096 == n
  {
    fl * 4096 + n
  }

  /** Total length of a hidden AVP whose plain form has `len` bytes. */
  function HiddenLength(len: nat): nat
    requires len >= AVP_HDR
  {
    ((len - AVP_HDR + 1) / 16 + 1) * 16 + AVP_HDR
  }

  type Secret = s: bytes | |s| < 0x1_0000_0000 witness []

  /** The secret and the random vector in force for one tunnel. */
  datatype Keys = Keys(secret: Secret, vector: Secret)

  function Seed(k: Keys, attr: u16): bytes { Big(attr) + k.secret + k.vector }

  function BigHeader(word: u16, vendor: u16, attr: u16): (h: bytes)
    ensures |h| == AVP_HDR
  {
    Big(word) + Big(vendor) + Big(attr)
  }

  function LittleHeader(word: u16, vendor: u16, attr: u16): (h: bytes)
    ensures |h| == AVP_HDR
  {
    Little(word) + Little(vendor) + Little(attr)
  }

  /** The hidden AVP made of these fields: the value's length word, the value and
      whatever bytes pad it (`fill`) are masked behind a header with the H bit. */
  function HiddenAvp(f: Transform, k: Keys, fl: Flags, vendor: u16, attr: u16, vlen: u16, fill: bytes): (w: bytes)
    requires (2 + |fill|) % MD_SIG_SIZE == 0 && AVP_HDR + 2 + |fill| < 4096
    ensures |w| == AVP_HDR + 2 + |fill|
  {
    BigHeader(Word(SetH(fl), AVP_HDR + 2 + |fill|), vendor, attr)
      + Mask(f, Seed(k, attr), k.secret, Big(vlen) + fill)
  }

  /** The memory after `encrypt_avp`: the plain AVP of `len` bytes stands at
      `at + 2`, the hidden one will stand at `at`. */
  function HideAt(f: Transform, k: Keys, m: bytes, at: nat, len: nat): bytes
    requires AVP_HDR <= len && HiddenLength(len) < 4096 && at + HiddenLength(len) <= |m|
  {
    Over(m, at, HiddenAvp(f, k, m[at + 2] / 16, ReadBig(m, at + 4), ReadBig(m, at + 6), len - AVP_HDR,
                          m[at + 8..at + HiddenLength(len)]))
  }

  /** A refused AVP is left unmasked where it stands. */
  datatype Unhidden = Refused(mem: bytes) | Restored(mem: bytes)

  /** The plain header written two bytes above the hidden one, over the unmasked value. */
  function Rebuild(m: bytes, at: nat, word: u16, vendor: u16, attr: u16, plain: bytes): (r: Unhidden)
    requires at + AVP_HDR + |plain| <= |m| && AVP_HDR + |plain| < 4096
    ensures |r.mem| == |m| && (r.Restored? ==> 2 <= |plain|)
  {
    if |plain| < 2 || ReadBig(plain, 0) > |plain| - 2 then Refused(Over(m, at + AVP_HDR, plain))
    else Restored(Over(m, at + 2,
           LittleHeader(Word(ClearH(word / 4096), AVP_HDR + ReadBig(plain, 0)), vendor, attr) + plain[2..]))
  }

  /** The header word at `at` and the whole AVP it announces are in memory. */
  ghost predicate HiddenWord(m: bytes, at: nat) {
    at + AVP_HDR <= |m| && at + ReadLittle(m, at) % 4096 <= |m|
  }

  /** The masked bytes behind the header at `at`. */
  function CipherAt(m: bytes, at: nat): (c: bytes)
    requires HiddenWord(m, at)
    ensures at + AVP_HDR + |c| <= |m| && AVP_HDR + |c| < 4096
  {
    var n := ReadLittle(m, at) % 4096;
    if n < AVP_HDR then [] else m[at + AVP_HDR..at + n]
  }

  /** `decrypt_avp` on a header already in host (little-endian) order: the memory
      with the plain header, also in host order, at `at + 2`. */
  function UnhideAt(f: Transform, k: Keys, m: bytes, at: nat): (r: Unhidden)
    requires HiddenWord(m, at)
    ensures |r.mem| == |m| && (r.Restored? ==> at + AVP_HDR + 2 <= |m|)
  {
    var attr := ReadLittle(m, at + 4);
    Rebuild(m, at, ReadLittle(m, at), ReadLittle(m, at + 2), attr, Unmask(f, Seed(k, attr), k.secret, CipherAt(m, at)))
  }

  /** The walker puts the six header bytes into host order. */
  function SwapHeader(m: bytes, at: nat): (r: bytes)
    requires at + AVP_HDR <= |m|
    ensures |r| == |m|
  {
    Over(m, at, [m[at + 1], m[at], m[at + 3], m[at + 2], m[at + 5], m[at + 4]])
  }

  /** A plain AVP of `len` bytes in network order at `at`. */
  ghost predicate PlainAt(m: bytes, at: nat, fl: Flags, vendor: u16, attr: u16, value: bytes) {
    && at + AVP_HDR + |value| <= |m| && AVP_HDR + |value| < 4096
    && m[at..at + AVP_HDR + |value|] == Big(Word(fl, AVP_HDR + |value|)) + Big(vendor) + Big(attr) + value
  }

  /** The same with its header in host order, as the handlers see it. */
  ghost predicate HostAt(m: bytes, at: nat, fl: Flags, vendor: u16, attr: u16, value: bytes) {
    && at + AVP_HDR + |value| <= |m| && AVP_HDR + |value| < 4096
    && m[at..at + AVP_HDR + |value|] ==
         Little(Word(fl, AVP_HDR + |value|)) + Little(vendor) + Little(attr) + value
  }

  // ------------------------------------------------------------- the round trip

  lemma BigHeaderBytes(word: u16, vendor: u16, attr: u16)
    ensures var h := BigHeader(word, vendor, attr);
            && |h| == 6 && h[0] == word / 256 && h[1] == word % 256
            && ReadBig(h, 2) == vendor && ReadBig(h, 4) == attr
  {
  }

  lemma LittleHeaderBytes(word: u16, vendor: u16, attr: u16)
    ensures var h := LittleHeader(word, vendor, attr);
            |h| == 6 && ReadLittle(h, 0) == word && ReadLittle(h, 2) == vendor && ReadLittle(h, 4) == attr
  {
  }

  /** A header and what follows it, read back from where they were written. */
  lemma ReadOver(m: bytes, at: nat, head: bytes, c: bytes)
    requires |head| == AVP_HDR && at + AVP_HDR + |c| <= |m|
    ensures var h := Over(m, at, head + c);
            && (forall i :: 0 <= i < AVP_HDR ==> h[at + i] == head[i])
            && h[at + AVP_HDR..at + AVP_HDR + |c|] == c
  {
    var h := Over(m, at, head + c);
    forall i | 0 <= i < AVP_HDR + |c| ensures h[at + i] == (head + c)[i] {}
  }

  lemma PlainFields(m: bytes, at: nat, fl: Flags, vendor: u16, attr: u16, value: bytes)
    requires PlainAt(m, at, fl, vendor, attr, value)
    ensures m[at] / 16 == fl && ReadBig(m, at + 2) == vendor && ReadBig(m, at + 4) == attr
    ensures m[at + 6..at + 6 + |value|] == value
  {
    var n := AVP_HDR + |value|;
    var s, head := m[at..at + n], BigHeader(Word(fl, n), vendor, attr);
    BigHeaderBytes(Word(fl, n), vendor, attr);
    assert s == head + value;
    forall i | 0 <= i < AVP_HDR ensures m[at + i] == head[i] { assert s[i] == head[i]; }
    assert m[at + 6..at + n] == s[6..];
  }

  lemma SwapLayout(m: bytes, at: nat, word: u16, vendor: u16, attr: u16, c: bytes)
    requires at + AVP_HDR + |c| <= |m|
    ensures SwapHeader(Over(m, at, BigHeader(word, vendor, attr) + c), at)
              == Over(m, at, LittleHeader(word, vendor, attr) + c)
  {
    var s := BigHeader(word, vendor, attr) + c;
    var h := Over(m, at, s);
    forall i | 0 <= i < |s| ensures h[at + i] == s[i] {}
    assert h[at + AVP_HDR..] == c + m[at + AVP_HDR + |c|..];
  }

  /** The unmasked length word and fill give the plain AVP back. */
  lemma RebuildPlain(m: bytes, at: nat, fl: Flags, vendor: u16, attr: u16, vlen: u16, fill: bytes)
    requires vlen <= |fill| && at + AVP_HDR + 2 + |fill| <= |m| && AVP_HDR + 2 + |fill| < 4096
    ensures Rebuild(m, at, Word(fl, AVP_HDR + 2 + |fill|), vendor, attr, Big(vlen) + fill)
              == Restored(Over(m, at + 2, LittleHeader(Word(ClearH(fl), AVP_HDR + vlen), vendor, attr) + fill))
  {
    var plain := Big(vlen) + fill;
    assert plain[2..] == fill && ReadBig(plain, 0) == vlen;
  }

  /** A little-endian header and its value, read back. */
  lemma ReadHeader(m: bytes, at: nat, word: u16, vendor: u16, attr: u16, c: bytes)
    requires at + AVP_HDR + |c| <= |m|
    ensures var h := Over(m, at, LittleHeader(word, vendor, attr) + c);
            && ReadLittle(h, at) == word && ReadLittle(h, at + 2) == vendor && ReadLittle(h, at + 4) == attr
            && h[at + AVP_HDR..at + AVP_HDR + |c|] == c
  {
    hide LittleHeader, Over;
    LittleHeaderBytes(word, vendor, attr);
    ReadOver(m, at, LittleHeader(word, vendor, attr), c);
  }

  lemma ReadCipher(m: bytes, at: nat, word: u16, vendor: u16, attr: u16, c: bytes)
    requires at + AVP_HDR + |c| <= |m| && word % 4096 == AVP_HDR + |c|
    ensures var h := Over(m, at, LittleHeader(word, vendor, attr) + c);
            HiddenWord(h, at) && CipherAt(h, at) == c
  {
    hide LittleHeader, Over, ReadLittle;
    ReadHeader(m, at, word, vendor, attr, c);
  }

  /** What `decrypt_avp` makes of a hidden AVP standing at `at`. */
  lemma ReadHidden(f: Transform, k: Keys, m: bytes, at: nat, word: u16, vendor: u16, attr: u16, c: bytes)
    requires at + AVP_HDR + |c| <= |m| && word % 4096 == AVP_HDR + |c|
    ensures var h := Over(m, at, LittleHeader(word, vendor, attr) + c);
            && ReadLittle(h, at) == word && HiddenWord(h, at)
            && UnhideAt(f, k, h, at) == Rebuild(h, at, word, vendor, attr, Unmask(f, Seed(k, attr), k.secret, c))
  {
    hide LittleHeader, Over, ReadLittle, Unmask, Rebuild, Seed, CipherAt, HiddenWord;
    ReadHeader(m, at, word, vendor, attr, c);
    ReadCipher(m, at, word, vendor, attr, c);
  }

  lemma RestoredLayout(h: bytes, at: nat, fl: Flags, vendor: u16, attr: u16, value: bytes, fill: bytes)
    requires |value| <= |fill| && fill[..|value|] == value && at + AVP_HDR + |fill| <= |h| && AVP_HDR + |value| < 4096
    ensures HostAt(Over(h, at, LittleHeader(Word(fl, AVP_HDR + |value|), vendor, attr) + fill), at,
                   fl, vendor, attr, value)
  {
    var head, n := LittleHeader(Word(fl, AVP_HDR + |value|), vendor, attr), AVP_HDR + |value|;
    ReadOver(h, at, head, fill);
    var r := Over(h, at, head + fill);
    assert r[at + AVP_HDR..at + n] == r[at + AVP_HDR..at + AVP_HDR + |fill|][..|value|];
    assert r[at..at + n] == head + value;
  }

  /** The AVP of these fields, which stands at `at + 2`, can be hidden at `at`. */
  ghost predicate CanHide(m: bytes, at: nat, fl: Flags, vendor: u16, attr: u16, value: bytes) {
    && PlainAt(m, at + 2, fl, vendor, attr, value) && ClearH(fl) == fl
    && HiddenLength(AVP_HDR + |value|) < 4096 && at + HiddenLength(AVP_HDR + |value|) <= |m|
  }

  lemma HiddenLengthFits(len: nat)
    requires len >= AVP_HDR
    ensures len + 2 <= HiddenLength(len) <= len + 17 && (HiddenLength(len) - AVP_HDR) % 16 == 0
  {
  }

  /** The hidden AVP in memory, after the walker has swapped its header. */
  lemma HiddenLayout(f: Transform, k: Keys, m: bytes, at: nat, fl: Flags, vendor: u16, attr: u16, value: bytes)
    requires CanHide(m, at, fl, vendor, attr, value)
    ensures var n := HiddenLength(AVP_HDR + |value|);
            var fill := m[at + 8..at + n];
            && fill[..|value|] == value && (2 + |fill|) % 16 == 0
            && var cipher := Mask(f, Seed(k, attr), k.secret, Big(|value|) + fill);
               SwapHeader(HideAt(f, k, m, at, AVP_HDR + |value|), at)
                 == Over(m, at, LittleHeader(Word(SetH(fl), n), vendor, attr) + cipher)
  {
    hide HiddenLength, Mask, Seed, SwapHeader, LittleHeader, BigHeader, Word, SetH, ReadBig, Over;
    var n := HiddenLength(AVP_HDR + |value|);
    HiddenLengthFits(AVP_HDR + |value|);
    var fill := m[at + 8..at + n];
    PlainFields(m, at + 2, fl, vendor, attr, value);
    assert fill[..|value|] == m[at + 8..at + 8 + |value|];
    var cipher := Mask(f, Seed(k, attr), k.secret, Big(|value|) + fill);
    SwapLayout(m, at, Word(SetH(fl), n), vendor, attr, cipher);
  }

  /** Hiding in place and unhiding with the same secret and vector gives back
      flags, vendor, attribute, length and value, for every value that fits. */
  lemma UnhidingRestores(f: Transform, k: Keys, m: bytes, at: nat, fl: Flags, vendor: u16, attr: u16, value: bytes)
    requires CanHide(m, at, fl, vendor, attr, value)
    ensures var h := SwapHeader(HideAt(f, k, m, at, AVP_HDR + |value|), at);
            && ReadLittle(h, at) == Word(SetH(fl), HiddenLength(AVP_HDR + |value|))
            && HiddenWord(h, at)
            && var r := UnhideAt(f, k, h, at);
               r.Restored? && HostAt(r.mem, at + 2, fl, vendor, attr, value)
  {
    hide HiddenLength, LittleHeader, Mask, Unmask, Seed, HideAt, UnhideAt, SwapHeader, Over, Rebuild, ReadLittle, Word,
         PlainAt, HostAt;
    var n := HiddenLength(AVP_HDR + |value|);
    HiddenLengthFits(AVP_HDR + |value|);
    var fill, word := m[at + 8..at + n], Word(SetH(fl), n);
    HiddenLayout(f, k, m, at, fl, vendor, attr, value);
    var cipher := Mask(f, Seed(k, attr), k.secret, Big(|value|) + fill);
    UnmaskInverts(f, Seed(k, attr), k.secret, Big(|value|) + fill);
    ReadHidden(f, k, m, at, word, vendor, attr, cipher);
    var h := Over(m, at, LittleHeader(word, vendor, attr) + cipher);
    RebuildPlain(h, at, SetH(fl), vendor, attr, |value|, fill);
    RestoredLayout(h, at + 2, fl, vendor, attr, value, fill);
  }
}
