/** Octets and the fixed-width unsigned integers of the two daemons. */
module Octets {
  type byte = n: nat | n < 256
  type bytes = seq<byte>
  type u16 = n: nat | n < 65536
  type u32 = n: nat | n < 0x1_0000_0000
  type Mac = m: bytes | |m| == 6 witness [0, 0, 0, 0, 0, 0]

  predicate Unicast(m: Mac) { m[0] % 2 == 0 }

  function Pow2(n: nat): nat { if n == 0 then 1 else 2 * Pow2(n - 1) }

  function Join(pieces: seq<bytes>): bytes {
    if pieces == [] then [] else pieces[0] + Join(pieces[1..])
  }

  /** `s` written over `m` at `at`. */
  function Over(m: bytes, at: nat, s: bytes): (r: bytes)
    requires at + |s| <= |m|
    ensures |r| == |m|
  {
    m[..at] + s + m[at + |s|..]
  }

  /** `memcpy` of `s` into the buffer. */
  method CopyInto(buf: array<byte>, at: nat, s: bytes)
    requires at + |s| <= buf.Length
    modifies buf
    ensures buf[..] == Over(old(buf[..]), at, s)
  {
    ghost var was := buf[..];
    for k := 0 to |s|
      invariant forall i :: 0 <= i < buf.Length ==> buf[i] == if at <= i < at + k then s[i - at] else was[i]
    {
      buf[at + k] := s[k];
    }
    assert buf[..] == Over(was, at, s);
  }
}
