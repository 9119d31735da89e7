/** Streaming MD5 (RFC 1321): the context accepts a message in pieces and must
    come to the one-shot digest of the whole. The block function is a parameter. */
module Md5 {
  import opened Octets

  datatype State = State(a: u32, b: u32, c: u32, d: u32)
  type Block = s: bytes | |s| == 64 witness seq(64, _ => 0)
  type Digest = s: bytes | |s| == 16 witness seq(16, _ => 0)
  type Transform = (State, Block) -> State

  const INIT := State(0x67452301, 0xefcdab89, 0x98badcfe, 0x10325476)

  // ---------------------------------------------------------- the one-shot digest

  /** Section 3.4: the block function folded over a whole number of blocks. */
  function Fold(f: Transform, s: State, m: bytes): State
    requires |m| % 64 == 0
    decreases |m|
  {
    if m == [] then s else Fold(f, f(s, m[..64]), m[64..])
  }

  function Zeros(n: nat): (z: bytes)
    ensures |z| == n
  {
    seq(n, _ => 0)
  }

  function LittleEndian(x: nat, n: nat): (s: bytes)
    ensures |s| == n
  {
    if n == 0 then [] else [x % 256] + LittleEndian(x / 256, n - 1)
  }

  /** How many zeros leave room for the length at the end of a block. */
  function Filler(n: nat): (z: nat)
    ensures (n + 1 + z + 8) % 64 == 0
  {
    var q, r := n / 64, n % 64;
    var z := if r < 56 then 55 - r else 119 - r;
    assert n + 1 + z + 8 == 64 * (q + if r < 56 then 1 else 2);
    z
  }

  /** Sections 3.1 and 3.2: a one bit, zeros up to 56 mod 64, the bit length in 64 bits. */
  function Pad(m: bytes): (r: bytes)
    ensures |r| % 64 == 0
  {
    m + [0x80] + Zeros(Filler(|m|)) + LittleEndian(8 * |m| % 0x1_0000_0000_0000_0000, 8)
  }

  function StateBytes(s: State): Digest {
    LittleEndian(s.a, 4) + LittleEndian(s.b, 4) + LittleEndian(s.c, 4) + LittleEndian(s.d, 4)
  }

  function DigestOf(f: Transform, m: bytes): Digest { StateBytes(Fold(f, INIT, Pad(m))) }

  /** The four registers as a digest start with: 01 23 45 67 89 ab cd ef fe dc ba 98 76 54 32 10. */
  lemma InitBytes()
    ensures StateBytes(INIT) == [0x01, 0x23, 0x45, 0x67] + [0x89, 0xab, 0xcd, 0xef]
                                + [0xfe, 0xdc, 0xba, 0x98] + [0x76, 0x54, 0x32, 0x10]
  {
    hide LittleEndian;
    FourBytes(0x01, 0x23, 0x45, 0x67);
    FourBytes(0x89, 0xab, 0xcd, 0xef);
    FourBytes(0xfe, 0xdc, 0xba, 0x98);
    FourBytes(0x76, 0x54, 0x32, 0x10);
  }

  lemma FourBytes(a: byte, b: byte, c: byte, d: byte)
    ensures LittleEndian(a + 256 * b + 65536 * c + 16777216 * d, 4) == [a, b, c, d]
  {
    var x, y := c + 256 * d, b + 256 * (c + 256 * d);
    LowFirst(a, y, 4);
    LowFirst(b, x, 3);
    LowFirst(c, d, 2);
    LowFirst(d, 0, 1);
    hide LittleEndian;
    assert a + 256 * b + 65536 * c + 16777216 * d == a + 256 * y;
  }

  lemma LowFirst(l: byte, q: nat, n: nat)
    requires n > 0
    ensures LittleEndian(l + 256 * q, n) == [l] + LittleEndian(q, n - 1)
    ensures n == 1 ==> LittleEndian(l + 256 * q, n) == [l]
  {
    assert (l + 256 * q) % 256 == l && (l + 256 * q) / 256 == q;
  }

  /** The value of a little-endian byte string. */
  function ValueOf(s: bytes): nat { if s == [] then 0 else s[0] + 256 * ValueOf(s[1..]) }

  lemma {:induction false} LittleEndianValue(x: nat, n: nat)
    requires x < Pow256(n)
    ensures ValueOf(LittleEndian(x, n)) == x
  {
    if n > 0 {
      LittleEndianValue(x / 256, n - 1);
      assert LittleEndian(x, n)[1..] == LittleEndian(x / 256, n - 1);
    }
  }

  /** What is digested: the message, the byte 0x80, zeros, and the length in bits, little
      end first, modulo 2^64; in as few blocks as hold it. */
  lemma PaddingBytes(m: bytes)
    ensures var p := Pad(m); var n := |p|;
            && n % 64 == 0 && |m| + 9 <= n < |m| + 9 + 64 && p[..|m|] == m && p[|m|] == 0x80
            && (forall i :: |m| < i < n - 8 ==> p[i] == 0)
            && ValueOf(p[n - 8..]) == 8 * |m| % 0x1_0000_0000_0000_0000
  {
    var x, z := 8 * |m| % 0x1_0000_0000_0000_0000, Filler(|m|);
    var tail := LittleEndian(x, 8);
    assert Pow256(4) == 0x1_0000_0000 && Pow256(8) == 0x1_0000_0000_0000_0000;
    LittleEndianValue(x, 8);
    hide LittleEndian, ValueOf, Pow256, Filler;
    PaddingParts(m, z, tail);
  }

  lemma PaddingParts(m: bytes, z: nat, tail: bytes)
    requires |tail| == 8
    ensures var p := m + [0x80] + Zeros(z) + tail; var n := |m| + 1 + z + 8;
            && |p| == n && p[..|m|] == m && p[|m|] == 0x80 && p[n - 8..] == tail
            && forall i :: |m| < i < n - 8 ==> p[i] == 0
  {
  }

  /** A digest is the block function run over the padded message from the first block on. */
  lemma DigestBlocks(f: Transform, m: bytes, b: Block, rest: bytes)
    requires Pad(m) == b + rest && |rest| % 64 == 0
    ensures DigestOf(f, m) == StateBytes(Fold(f, f(INIT, b), rest))
    ensures rest == [] ==> DigestOf(f, m) == StateBytes(f(INIT, b))
  {
    hide Pad, StateBytes;
    assert (b + rest)[..64] == b && (b + rest)[64..] == rest;
  }

  lemma {:induction false} FoldConcat(f: Transform, s: State, x: bytes, y: bytes)
    requires |x| % 64 == 0 && |y| % 64 == 0
    ensures Fold(f, s, x + y) == Fold(f, Fold(f, s, x), y)
    decreases |x|
  {
    if x == [] {
      assert x + y == y;
    } else {
      assert (x + y)[..64] == x[..64] && (x + y)[64..] == x[64..] + y;
      FoldConcat(f, f(s, x[..64]), x[64..], y);
    }
  }

  lemma FoldOneMore(f: Transform, s: State, x: bytes, b: Block)
    requires |x| % 64 == 0
    ensures Fold(f, s, x + b) == f(Fold(f, s, x), b)
  {
    FoldConcat(f, s, x, b);
    assert b[..64] == b && b[64..] == [];
  }

  // -------------------------------------------------------------- the bit counter

  /** The two words of the counter hold the length in bits, modulo 2^64. */
  ghost predicate Counts(lo: u32, hi: u32, n: nat) {
    hi * 0x1_0000_0000 + lo == 8 * n % 0x1_0000_0000_0000_0000
  }

  /** The counter update of MD5Update, carry and all. */
  lemma CounterAdds(lo: u32, hi: u32, n: nat, len: u32)
    requires Counts(lo, hi, n)
    ensures var lo' := (lo + len * 8 % 0x1_0000_0000) % 0x1_0000_0000;
            var carry := if lo' < lo then 1 else 0;
            Counts(lo', (hi + carry + len / 0x2000_0000) % 0x1_0000_0000, n + len)
  {
    var m := 0x1_0000_0000;
    var low, top := len * 8 % m, len / 0x2000_0000;
    assert len * 8 == top * m + low;
    var lo' := (lo + low) % m;
    var carry := if lo' < lo then 1 else 0;
    assert lo + low == carry * m + lo';
    var sum := (hi + carry + top) * m + lo';
    assert sum == hi * m + lo + len * 8;
    ModSplit(hi + carry + top, lo');
    ModAdd(8 * n, hi * m + lo, len * 8);
  }

  lemma ModSplit(h: nat, l: u32)
    ensures (h * 0x1_0000_0000 + l) % 0x1_0000_0000_0000_0000 == h % 0x1_0000_0000 * 0x1_0000_0000 + l
  {
    var q, r := h / 0x1_0000_0000, h % 0x1_0000_0000;
    assert h * 0x1_0000_0000 + l == q * 0x1_0000_0000_0000_0000 + (r * 0x1_0000_0000 + l);
  }

  lemma ModAdd(x: nat, r: nat, d: nat)
    requires r == x % 0x1_0000_0000_0000_0000
    ensures (r + d) % 0x1_0000_0000_0000_0000 == (x + d) % 0x1_0000_0000_0000_0000
  {
    var q := x / 0x1_0000_0000_0000_0000;
    assert x + d == q * 0x1_0000_0000_0000_0000 + (r + d);
  }

  /** The byte offset in the block is read off the low word. */
  lemma OffsetFromCounter(lo: u32, hi: u32, n: nat)
    requires Counts(lo, hi, n)
    ensures lo / 8 % 64 == n % 64
  {
    var q := 8 * n / 0x1_0000_0000_0000_0000;
    assert 8 * n == q * 0x1_0000_0000_0000_0000 + hi * 0x1_0000_0000 + lo;
    assert lo % 8 == 0;
    assert n == q * 0x2000_0000_0000_0000 + hi * 0x2000_0000 + lo / 8;
  }

  function Pow256(k: nat): (p: nat)
    ensures p > 0
  {
    if k == 0 then 1 else 256 * Pow256(k - 1)
  }

  lemma ShiftOut(q: nat, l: nat, n: nat)
    requires n > 0
    ensures LittleEndian(256 * q + l, n) == [l % 256] + LittleEndian(q + l / 256, n - 1)
  {
    assert (256 * q + l) % 256 == l % 256 && (256 * q + l) / 256 == q + l / 256;
  }

  lemma {:induction false} LittleEndianHighPart(hi: nat, lo: nat, k: nat, n: nat)
    requires lo < Pow256(k)
    ensures LittleEndian(hi * Pow256(k) + lo, k + n) == LittleEndian(lo, k) + LittleEndian(hi, n)
  {
    if k > 0 {
      var q := hi * Pow256(k - 1);
      MovedFactor(hi, Pow256(k - 1));
      ShiftOut(q, lo, k + n);
      ShiftOut(0, lo, k);
      hide LittleEndian;
      LittleEndianHighPart(hi, lo / 256, k - 1, n);
      assert k + n - 1 == (k - 1) + n;
      assert [lo % 256] + (LittleEndian(lo / 256, k - 1) + LittleEndian(hi, n))
          == ([lo % 256] + LittleEndian(lo / 256, k - 1)) + LittleEndian(hi, n);
    }
  }

  lemma MovedFactor(a: nat, b: nat)
    ensures a * (256 * b) == 256 * (a * b)
  {
  }

  /** The counter's two words, stored one after the other, are the 64-bit length. */
  lemma LittleEndianSplit(hi: u32, lo: u32)
    ensures LittleEndian(hi * 0x1_0000_0000 + lo, 8) == LittleEndian(lo, 4) + LittleEndian(hi, 4)
  {
    assert Pow256(1) == 256 && Pow256(2) == 0x1_0000;
    assert Pow256(3) == 0x100_0000 && Pow256(4) == 0x1_0000_0000;
    LittleEndianHighPart(hi, lo, 4, 4);
  }

  // ------------------------------------------------------------------ the context

  lemma Regroup1(a: bytes, b: bytes, c: bytes, d: bytes, e: bytes)
    ensures (a + b) + c + d + e == a + (b + c + d + e)
  {
    assert (a + b) + c == a + (b + c);
    assert a + (b + c) + d == a + (b + c + d);
  }

  lemma Regroup2(a: bytes, b: bytes, c: bytes, d: bytes, d': bytes, e: bytes)
    ensures (a + b) + c + (d + d') + e == a + (b + c + d) + ([] + d' + e)
  {
    assert [] + d' == d';
    assert (a + b) + c == a + (b + c);
    assert a + (b + c) + (d + d') == a + (b + c + d) + d';
  }

  /** The padded message: whole blocks, then one block or two. */
  lemma PadLayout(done: bytes, tail: bytes)
    requires |done| % 64 == 0 && |tail| < 64
    ensures var length := LittleEndian(8 * (|done| + |tail|) % 0x1_0000_0000_0000_0000, 8);
            Pad(done + tail) ==
              if |tail| >= 56 then done + (tail + [0x80] + Zeros(63 - |tail|)) + ([] + Zeros(56) + length)
              else done + (tail + [0x80] + Zeros(55 - |tail|) + length)
  {
    var r, length := |tail|, LittleEndian(8 * (|done| + |tail|) % 0x1_0000_0000_0000_0000, 8);
    PadCount(|done|, r);
    if r >= 56 {
      assert Zeros(119 - r) == Zeros(63 - r) + Zeros(56);
      Regroup2(done, tail, [0x80], Zeros(63 - r), Zeros(56), length);
    } else {
      Regroup1(done, tail, [0x80], Zeros(55 - r), length);
    }
  }

  lemma PadCount(n: nat, r: nat)
    requires n % 64 == 0 && r < 64
    ensures Filler(n + r) == if r >= 56 then 119 - r else 55 - r
  {
    OffsetInBlock(n, n + r);
  }

  lemma TakeMore(m: bytes, p: bytes, i: nat, j: nat)
    requires i <= j <= |p|
    ensures m + p[..i] + p[i..j] == m + p[..j] && (j == |p| ==> m + p[..j] == m + p)
  {
    assert p[..j] == p[..i] + p[i..j];
  }

  class Context {
    const transform: Transform
    var buf: State
    var bits0: u32
    var bits1: u32
    const data: array<byte>
    /** The whole message so far, and the part of it that went through the block function. */
    ghost var msg: bytes
    ghost var absorbed: bytes

    ghost predicate Synced()
      reads this
    {
      |absorbed| % 64 == 0 && buf == Fold(transform, INIT, absorbed)
    }

    /** What is not absorbed yet stands at the front of the block. */
    ghost predicate Buffered()
      reads this, data
    {
      && data.Length == 64 && Synced()
      && |absorbed| <= |msg| < |absorbed| + 64 && msg == absorbed + data[..|msg| - |absorbed|]
    }

    ghost predicate Valid()
      reads this, data
    {
      Counts(bits0, bits1, |msg|) && Buffered()
    }

    /** `MD5Init` on a context of its own. */
    constructor (transform: Transform)
      ensures Valid() && msg == [] && this.transform == transform && fresh(data)
    {
      this.transform := transform;
      buf, bits0, bits1 := INIT, 0, 0;
      data := new byte[64](_ => 0);
      msg, absorbed := [], [];
    }

    /** `MD5Transform` on the full block. */
    method Absorb()
      requires data.Length == 64 && Synced()
      modifies this`buf, this`absorbed
      ensures Synced() && absorbed == old(absorbed) + data[..]
    {
      FoldOneMore(transform, INIT, absorbed, data[..]);
      buf := transform(buf, data[..]);
      absorbed := absorbed + data[..];
    }

    method Count(len: u32) returns (t: nat)
      requires Counts(bits0, bits1, |msg|)
      modifies this`bits0, this`bits1
      ensures t == |msg| % 64 && Counts(bits0, bits1, |msg| + len)
    {
      CounterAdds(bits0, bits1, |msg|, len);
      OffsetFromCounter(bits0, bits1, |msg|);
      var was := bits0;
      bits0 := (was + len * 8 % 0x1_0000_0000) % 0x1_0000_0000;
      var hi := bits1;
      if bits0 < was {
        hi := hi + 1;
      }
      bits1 := (hi + len / 0x2000_0000) % 0x1_0000_0000;
      t := was / 8 % 64;
    }

    /** A partly filled block is topped up first; `done` if the piece did not fill it. */
    method LeadIn(t: nat, p: bytes) returns (off: nat, done: bool)
      requires Buffered() && 0 < t == |msg| - |absorbed|
      modifies this`buf, this`absorbed, this`msg, data
      ensures if done then Buffered() && msg == old(msg) + p
              else Synced() && off <= |p| && msg == old(msg) && absorbed == msg + p[..off]
    {
      var room := 64 - t;
      if |p| < room {
        CopyInto(data, t, p);
        msg := msg + p;
        return 0, true;
      }
      CopyInto(data, t, p[..room]);
      Absorb();
      off, done := room, false;
    }

    /** The block of the piece that starts at `off`. */
    method TakeBlock(p: bytes, off: nat)
      requires data.Length == 64 && off + 64 <= |p| && Synced() && absorbed == msg + p[..off]
      modifies this`buf, this`absorbed, data
      ensures Synced() && absorbed == msg + p[..off + 64]
    {
      CopyInto(data, 0, p[off..off + 64]);
      TakeMore(msg, p, off, off + 64);
      assert data[..] == p[off..off + 64];
      Absorb();
    }

    /** The last few bytes of the piece wait at the front of the block. */
    method Keep(p: bytes, off: nat)
      requires data.Length == 64 && off <= |p| < off + 64 && Synced() && absorbed == msg + p[..off]
      modifies this`msg, data
      ensures Buffered() && msg == old(msg) + p
    {
      CopyInto(data, 0, p[off..]);
      TakeMore(msg, p, off, |p|);
      assert data[..|p| - off] == p[off..|p|];
      msg := msg + p;
    }

    /** `MD5Update`. */
    method Update(p: bytes)
      requires Valid() && |p| < 0x1_0000_0000
      modifies this, data
      ensures Valid() && msg == old(msg) + p
    {
      hide Fold;
      OffsetInBlock(|absorbed|, |msg|);
      var t := Count(|p|);
      var off := 0;
      if t != 0 {
        var done;
        off, done := LeadIn(t, p);
        if done {
          return;
        }
      } else {
        assert msg == absorbed == absorbed + p[..0];
      }
      while |p| - off >= 64
        invariant off <= |p| && msg == old(msg) && Counts(bits0, bits1, |msg| + |p|)
        invariant Synced() && absorbed == msg + p[..off]
        decreases |p| - off
      {
        TakeBlock(p, off);
        off := off + 64;
      }
      Keep(p, off);
    }

    /** The padding that goes into the last block, with the length at its end. */
    method PadLast(count: nat, length: bytes)
      requires data.Length == 64 && count <= 56 && |length| == 8 && Synced()
      modifies this`buf, this`absorbed, data
      ensures Synced() && absorbed == old(absorbed) + (old(data[..count]) + Zeros(56 - count) + length)
    {
      CopyInto(data, count, Zeros(56 - count));
      CopyInto(data, 56, length);
      Absorb();
    }

    /** The mark bit; if the length no longer fits, zeros close this block first. */
    method Mark(count: nat) returns (next: nat)
      requires data.Length == 64 && count < 64 && Synced()
      modifies this`buf, this`absorbed, data
      ensures Synced() && next <= 56
      ensures var tail := old(data[..count]);
              if count >= 56 then
                next == 0 && absorbed == old(absorbed) + (tail + [0x80] + Zeros(63 - count))
              else next == count + 1 && absorbed == old(absorbed) && data[..next] == tail + [0x80]
    {
      CopyInto(data, count, [0x80]);
      next := count + 1;
      if 64 - next < 8 {
        CopyInto(data, next, Zeros(64 - next));
        Absorb();
        next := 0;
      }
    }

    /** `MD5Final`; the context is wiped afterwards and must be started again. */
    method Final() returns (digest: Digest)
      requires Valid()
      modifies this, data
      ensures digest == DigestOf(transform, old(msg))
    {
      hide LittleEndian, Fold, Pad, Zeros;
      OffsetFromCounter(bits0, bits1, |msg|);
      OffsetInBlock(|absorbed|, |msg|);
      LittleEndianSplit(bits1, bits0);
      var count := bits0 / 8 % 64;
      PadLayout(absorbed, data[..count]);
      var length := LittleEndian(bits0, 4) + LittleEndian(bits1, 4);
      count := Mark(count);
      assert count == 0 ==> data[..count] == [];
      PadLast(count, length);
      digest := StateBytes(buf);
      Wipe();
    }

    method Wipe()
      modifies this`buf, this`bits0, this`bits1, data
    {
      for i := 0 to data.Length {
        data[i] := 0;
      }
      buf, bits0, bits1 := State(0, 0, 0, 0), 0, 0;
    }
  }

  lemma OffsetInBlock(a: nat, n: nat)
    requires a % 64 == 0 && a <= n < a + 64
    ensures n % 64 == n - a
  {
  }

  /** For every way of cutting a message into pieces, Init, the Updates and Final
      come to the one-shot digest of the pieces put together. */
  method DigestInPieces(f: Transform, pieces: seq<bytes>) returns (digest: Digest)
    requires forall i :: 0 <= i < |pieces| ==> |pieces[i]| < 0x1_0000_0000
    ensures digest == DigestOf(f, Join(pieces))
  {
    hide DigestOf, Counts, Fold;
    var ctx := new Context(f);
    for i := 0 to |pieces|
      invariant ctx.Valid() && fresh(ctx) && fresh(ctx.data) && ctx.transform == f
      invariant ctx.msg == Join(pieces[..i])
    {
      JoinSnoc(pieces[..i], pieces[i]);
      assert pieces[..i + 1] == pieces[..i] + [pieces[i]];
      ctx.Update(pieces[i]);
    }
    assert pieces[..|pieces|] == pieces;
    digest := ctx.Final();
  }

  lemma {:induction false} JoinSnoc(pieces: seq<bytes>, p: bytes)
    ensures Join(pieces + [p]) == Join(pieces) + p
  {
    if pieces == [] {
      assert [p][1..] == [];
      assert pieces + [p] == [p];
    } else {
      assert (pieces + [p])[1..] == pieces[1..] + [p];
      JoinSnoc(pieces[1..], p);
    }
  }
}
