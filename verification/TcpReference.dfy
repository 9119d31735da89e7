/** What a TCP SYN is, field by field, and when its checksum is right, in the network's
    own terms: the pseudo header and the segment summed as big-endian words (section
    3.1 of RFC 793). */
module TcpReference {
  import opened Octets
  import opened TcpClamp

  /** Where the IP header of a session packet starts. */
  function IpOffset(m: bytes): nat
    requires |m| > 0
  {
    if m[0] % 2 == 1 then 1 else 2
  }

  /** A packet is looked at if and only if it is IPv4 (protocol 0x21 in one byte or two),
      holds the headers, is not a later fragment, and is TCP with the SYN flag set,
      whatever its other flags are. */
  lemma SynExactly(m: bytes, len: nat, ver: nat, ihl: nat, bits: nat, frag: nat, high: nat, syn: nat, fin: nat)
    requires |m| >= 128 && ver < 16 && ihl < 16 && bits < 8 && frag < 8192 && high < 64 && syn < 2 && fin < 2
    requires var ip := IpOffset(m);
             && m[ip] == 16 * ver + ihl
             && 256 * (m[ip + 6] as int) + m[ip + 7] == 8192 * bits + frag
             && m[ip + 4 * ihl + 13] == 4 * high + 2 * syn + fin
    ensures var ip := IpOffset(m);
            IsSyn(m, len) <==>
              && (if ip == 1 then m[0] == 0x21 else m[0] == 0 && m[1] == 0x21)
              && len >= 40 + ip && ver == 4 && frag == 0 && m[ip + 9] == 6 && syn == 1
  {
    var ip := IpOffset(m);
    FragmentBytes(m[ip + 6], m[ip + 7], bits, frag);
    FlagBit(high, syn, fin);
    assert m[ip] / 16 == ver && m[ip] % 16 == ihl;
  }

  lemma FragmentBytes(a: byte, b: byte, bits: nat, frag: nat)
    requires frag < 8192 && 256 * (a as int) + b == 8192 * bits + frag
    ensures a % 32 == 0 && b == 0 <==> frag == 0
  {
    assert frag == 256 * (a - 32 * bits) + b;
    assert 0 <= a - 32 * bits < 32;
    assert a % 32 == a - 32 * bits;
  }

  lemma FlagBit(high: nat, syn: nat, fin: nat)
    requires syn < 2 && fin < 2
    ensures (4 * high + 2 * syn + fin) / 2 % 2 == syn
  {
    assert (4 * high + 2 * syn + fin) / 2 == 2 * high + syn;
  }

  // ------------------------------------------------------------- the checksum

  /** Big-endian 16-bit words, the last one filled with a zero byte if need be. */
  function NetworkWords(s: bytes): nat {
    if |s| == 0 then 0
    else if |s| == 1 then 256 * (s[0] as int)
    else 256 * (s[0] as int) + s[1] + NetworkWords(s[2..])
  }

  /** Every second byte. */
  function SecondBytes(s: bytes): nat { if |s| < 2 then 0 else s[1] + SecondBytes(s[2..]) }

  /** Summed as little-endian words a byte string gives the same up to a factor of 256,
      modulo 65535. */
  lemma {:induction false} OtherEnd(m: bytes, at: nat, n: nat)
    requires at + n <= |m|
    ensures 256 * Words(m, at, n) == NetworkWords(m[at..at + n]) + 65535 * SecondBytes(m[at..at + n])
    decreases n
  {
    if n >= 2 {
      OtherEnd(m, at + 2, n - 2);
      assert m[at..at + n][2..] == m[at + 2..at + n];
    }
  }

  lemma {:induction false} WordsConcat(a: bytes, b: bytes)
    requires |a| % 2 == 0
    ensures NetworkWords(a + b) == NetworkWords(a) + NetworkWords(b)
    decreases |a|
  {
    if a == [] {
      assert a + b == b;
    } else {
      WordsConcat(a[2..], b);
      assert (a + b)[2..] == a[2..] + b;
    }
  }

  /** What the checksum covers: source and destination address, a zero byte, the
      protocol, the segment's length, and the segment. */
  function Covered(m: bytes, ihl: nat, n: nat): bytes
    requires |m| >= 128 && ihl < 16 && n < 65536 && IpOffset(m) + 4 * ihl + n <= |m|
  {
    var ip := IpOffset(m);
    m[ip + 12..ip + 20] + [0, m[ip + 9]] + [n / 256, n % 256] + m[ip + 4 * ihl..ip + 4 * ihl + n]
  }

  lemma Residue256(t: nat, b: nat, k: nat)
    requires 256 * t == b + 65535 * k
    ensures t % 65535 == 0 <==> b % 65535 == 0
  {
    if t % 65535 == 0 {
      var q := t / 65535;
      assert b == 65535 * (256 * q - k);
    }
    if b % 65535 == 0 {
      var q := b / 65535;
      assert 256 * t == 65535 * (q + k);
      assert t == 65535 * (256 * (q + k) - t);
    }
  }

  lemma CoveredWords(m: bytes, ihl: nat, n: nat)
    requires |m| >= 128 && ihl < 16 && n < 65536 && IpOffset(m) + 4 * ihl + n <= |m|
    ensures var ip := IpOffset(m);
            NetworkWords(Covered(m, ihl, n)) ==
              NetworkWords(m[ip + 12..ip + 20]) + m[ip + 9] + n + NetworkWords(m[ip + 4 * ihl..ip + 4 * ihl + n])
  {
    var ip := IpOffset(m);
    var a, b, c, d := m[ip + 12..ip + 20], [0, m[ip + 9]], [n / 256, n % 256], m[ip + 4 * ihl..ip + 4 * ihl + n];
    WordsConcat(a + b + c, d);
    WordsConcat(a + b, c);
    WordsConcat(a, b);
    assert b[2..] == [] && c[2..] == [];
  }

  /** The checksum of a segment counts as right if and only if what it covers, its own
      field included, sums up to a positive multiple of 65535. */
  lemma ValidExactly(m: bytes, ver: nat, ihl: nat, n: nat)
    requires |m| >= 128 && ver < 16 && ihl < 16 && n < 65536 && IpOffset(m) + 4 * ihl + n <= |m|
    requires var ip := IpOffset(m); m[ip] == 16 * ver + ihl && 256 * (m[ip + 2] as int) + m[ip + 3] == 4 * ihl + n
    ensures SegmentInMemory(m)
    ensures var s := NetworkWords(Covered(m, ihl, n)); Checksum(m) == 0 <==> s > 0 && s % 65535 == 0
  {
    var ip := IpOffset(m);
    LengthFields(m, ver, ihl, n);
    FoldsToOnes(Total(m));
    TotalInNetworkOrder(m, ip, ihl, n);
    hide Total, NetworkWords, Covered, Fold, SegmentInMemory, IpOffset;
  }

  lemma LengthFields(m: bytes, ver: nat, ihl: nat, n: nat)
    requires |m| >= 128 && ver < 16 && ihl < 16 && n < 65536 && IpOffset(m) + 4 * ihl + n <= |m|
    requires var ip := IpOffset(m); m[ip] == 16 * ver + ihl && 256 * (m[ip + 2] as int) + m[ip + 3] == 4 * ihl + n
    ensures SegmentInMemory(m) && IpAt(m) == IpOffset(m) && TcpAt(m) == IpOffset(m) + 4 * ihl && SegmentLength(m) == n
  {
    assert m[IpOffset(m)] % 16 == ihl;
  }

  lemma TotalInNetworkOrder(m: bytes, ip: nat, ihl: nat, n: nat)
    requires |m| >= 128 && ihl < 16 && n < 65536 && ip == IpOffset(m) && ip + 4 * ihl + n <= |m|
    requires SegmentInMemory(m) && ip == IpAt(m) && ip + 4 * ihl == TcpAt(m) && n == SegmentLength(m)
    ensures var s := NetworkWords(Covered(m, ihl, n));
            Total(m) > 0 && Total(m) % 65535 == 0 <==> s > 0 && s % 65535 == 0
  {
    hide Words, NetworkWords, SecondBytes, Covered, Total, SegmentInMemory, SegmentLength;
    var tcp := ip + 4 * ihl;
    var a, b := m[ip + 12..ip + 20], m[tcp..tcp + n];
    CoveredWords(m, ihl, n);
    OtherEnd(m, ip + 12, 8);
    OtherEnd(m, tcp, n);
    TotalIs(m, ip, tcp, n);
    FewSeconds(a);
    FewSeconds(b);
    SameResidue65535(Total(m), NetworkWords(a), NetworkWords(b), SecondBytes(a), SecondBytes(b),
                     Words(m, ip + 12, 8), Words(m, tcp, n), m[ip + 9], n);
  }

  lemma SameResidue65535(total: nat, a: nat, b: nat, a2: nat, b2: nat, wa: nat, wb: nat, p: byte, n: nat)
    requires 256 * wa == a + 65535 * a2 && 256 * wb == b + 65535 * b2 && a2 <= a && b2 <= b
    requires total == wa + 256 * (p as int) + n / 256 + 256 * (n % 256) + wb
    ensures var s := a + p + n + b; total > 0 && total % 65535 == 0 <==> s > 0 && s % 65535 == 0
  {
    var s, k := a + p + n + b, a2 + p + n % 256 + b2;
    assert n == 256 * (n / 256) + n % 256;
    assert 256 * total == s + 65535 * k;
    Residue256(total, s, k);
    assert k <= s;
  }

  lemma {:induction false} FewSeconds(s: bytes)
    ensures SecondBytes(s) <= NetworkWords(s)
    decreases |s|
  {
    if |s| >= 2 {
      FewSeconds(s[2..]);
    }
  }

  lemma TotalIs(m: bytes, ip: nat, tcp: nat, n: nat)
    requires SegmentInMemory(m) && ip == IpAt(m) && tcp == TcpAt(m) && n == SegmentLength(m)
    ensures Total(m) == Words(m, ip + 12, 8) + 256 * (m[ip + 9] as int) + n / 256 + 256 * (n % 256) + Words(m, tcp, n)
  {
    hide Words;
  }

  // --------------------------------------------------------------- the options

  /** An option is a filler, or kind, length and data. */
  datatype Opt = Filler | Opt(kind: byte, data: bytes)

  predicate Writable(o: Opt) { o.Filler? || (o.kind >= 2 && |o.data| + 2 < 256) }

  function OptBytes(o: Opt): bytes
    requires Writable(o)
  {
    if o.Filler? then [1] else [o.kind, |o.data| + 2] + o.data
  }

  predicate AllWritable(opts: seq<Opt>) { forall i :: 0 <= i < |opts| ==> Writable(opts[i]) }

  function OptsBytes(opts: seq<Opt>): bytes
    requires AllWritable(opts)
  {
    if opts == [] then [] else OptBytes(opts[0]) + OptsBytes(opts[1..])
  }

  /** The options `opts` stand at `at`, and end the list there or before `end`. */
  ghost predicate Listed(m: bytes, at: nat, end: nat, opts: seq<Opt>) {
    && AllWritable(opts) && end + 4 <= |m|
    && var stop := at + |OptsBytes(opts)|;
       stop <= end && m[at..stop] == OptsBytes(opts) && (stop < end ==> m[stop] == 0)
  }

  predicate IsMss(o: Opt) { o.Opt? && o.kind == 2 }

  predicate LowMss(o: Opt, clamp: u16) {
    IsMss(o) && |o.data| == 2 ==> 256 * (o.data[0] as int) + o.data[1] <= clamp
  }

  lemma {:induction false} Halved(m: bytes, at: nat, head: bytes, tail: bytes)
    requires at + |head| + |tail| <= |m| && m[at..at + |head + tail|] == head + tail
    ensures m[at..at + |head|] == head && m[at + |head|..at + |head| + |tail|] == tail
  {
    var s := m[at..at + |head + tail|];
    assert m[at..at + |head|] == s[..|head|] && m[at + |head|..at + |head| + |tail|] == s[|head|..];
  }

  lemma {:induction false} ListedTail(m: bytes, at: nat, end: nat, opts: seq<Opt>)
    requires Listed(m, at, end, opts) && opts != []
    ensures var n := |OptBytes(opts[0])|;
            && Listed(m, at + n, end, opts[1..]) && n > 0 && at + n <= end
            && AllWritable(opts) && Writable(opts[0]) && end + 4 <= |m|
            && m[at..at + n] == OptBytes(opts[0]) && |OptsBytes(opts)| == n + |OptsBytes(opts[1..])|
  {
    var head, tail := OptBytes(opts[0]), OptsBytes(opts[1..]);
    assert |head| > 0 && OptsBytes(opts) == head + tail;
    hide OptBytes, OptsBytes;
    Halved(m, at, head, tail);
  }

  lemma {:induction false} OptAt(m: bytes, at: nat, o: Opt)
    requires Writable(o) && at + |OptBytes(o)| <= |m| && m[at..at + |OptBytes(o)|] == OptBytes(o)
    ensures o.Filler? ==> m[at] == 1
    ensures o.Opt? ==> m[at] == o.kind && m[at + 1] == |o.data| + 2
    ensures o.Opt? && |o.data| == 2 ==> m[at + 2] == o.data[0] && m[at + 3] == o.data[1]
  {
    var s := m[at..at + |OptBytes(o)|];
    assert m[at] == s[0];
    if o.Opt? {
      assert m[at + 1] == s[1];
      if |o.data| == 2 {
        assert m[at + 2] == s[2] && m[at + 3] == s[3];
      }
    }
  }

  lemma {:induction false} ListedNone(m: bytes, at: nat, end: nat, clamp: u16)
    requires Listed(m, at, end, [])
    ensures AllMss(m, at, end, clamp) && FindMss(m, at, end) == -1
  {
  }

  /** One option read. */
  lemma {:induction false} ReadOption(m: bytes, at: nat, end: nat, o: Opt, clamp: u16)
    requires Writable(o) && end + 4 <= |m| && at + |OptBytes(o)| <= end && m[at..at + |OptBytes(o)|] == OptBytes(o)
    ensures AllMss(m, at, end, clamp) <==> LowMss(o, clamp) && AllMss(m, at + |OptBytes(o)|, end, clamp)
    ensures FindMss(m, at, end) ==
              if !IsMss(o) then FindMss(m, at + |OptBytes(o)|, end) else if |o.data| == 2 then at else -1
  {
    OptAt(m, at, o);
  }

  /** All MSS options of a list are low if and only if each of them is. */
  lemma {:induction false} AllMssExactly(m: bytes, at: nat, end: nat, opts: seq<Opt>, clamp: u16)
    requires Listed(m, at, end, opts)
    ensures AllMss(m, at, end, clamp) <==> forall i :: 0 <= i < |opts| ==> LowMss(opts[i], clamp)
    decreases |opts|
  {
    hide Listed, OptsBytes, OptBytes, AllMss, LowMss, Writable;
    if opts == [] {
      ListedNone(m, at, end, clamp);
    } else {
      ListedTail(m, at, end, opts);
      ReadOption(m, at, end, opts[0], clamp);
      AllMssExactly(m, at + |OptBytes(opts[0])|, end, opts[1..], clamp);
      assert forall i :: 0 < i < |opts| ==> opts[i] == opts[1..][i - 1];
    }
  }

  /** The walk finds the first MSS option of a list if that has the right length, and
      otherwise nothing. */
  lemma {:induction false} FindMssExactly(m: bytes, at: nat, end: nat, opts: seq<Opt>, k: nat)
    requires Listed(m, at, end, opts) && k <= |opts| && (k < |opts| ==> IsMss(opts[k]))
    requires forall j :: 0 <= j < k ==> !IsMss(opts[j])
    ensures FindMss(m, at, end) ==
              if k < |opts| && |opts[k].data| == 2 then at + |OptsBytes(opts[..k])| else -1
    decreases k
  {
    hide Listed, OptBytes, OptsBytes, FindMss, IsMss, Writable;
    if opts == [] {
      ListedNone(m, at, end, 0);
    } else {
      ListedTail(m, at, end, opts);
      ReadOption(m, at, end, opts[0], 0);
      if k > 0 {
        FindMssExactly(m, at + |OptBytes(opts[0])|, end, opts[1..], k - 1);
        FrontBytes(opts, k);
      } else {
        NoBytes(opts);
      }
    }
  }

  lemma {:induction false} FrontBytes(opts: seq<Opt>, k: nat)
    requires AllWritable(opts) && 0 < k <= |opts|
    ensures |OptsBytes(opts[..k])| == |OptBytes(opts[0])| + |OptsBytes(opts[1..][..k - 1])|
  {
    assert opts[..k][0] == opts[0] && opts[..k][1..] == opts[1..][..k - 1];
  }

  lemma {:induction false} NoBytes(opts: seq<Opt>)
    ensures OptsBytes(opts[..0]) == []
  {
  }
}
