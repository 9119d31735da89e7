/** The ones'-complement checksum of a TCP segment (RFC 1071, little-endian words)
    and the clamping of its MSS option, which must leave the checksum valid. */
module TcpClamp {
  import opened Octets

  // ------------------------------------------------------------------ checksum

  /** The 16-bit words of `n` bytes at `at`, as a little-endian machine reads them. */
  function Words(m: bytes, at: nat, n: nat): nat
    requires at + n <= |m|
    decreases n
  {
    if n == 0 then 0
    else if n == 1 then m[at]
    else WordAt(m, at) + Words(m, at + 2, n - 2)
  }

  function WordAt(m: bytes, at: nat): u16
    requires at + 2 <= |m|
  {
    m[at] + 256 * (m[at + 1] as int)
  }

  /** The carries are added back until the sum fits 16 bits. */
  function Fold(s: nat): u16
    decreases s
  {
    if s < 0x1_0000 then s else Fold(s % 0x1_0000 + s / 0x1_0000)
  }

  /** Folding keeps the residue modulo 2^16 - 1, and gives zero for zero only. */
  lemma {:induction false} FoldResidue(s: nat)
    ensures Fold(s) % 65535 == s % 65535 && (Fold(s) == 0 <==> s == 0)
    decreases s
  {
    if s >= 0x1_0000 {
      var t := s % 0x1_0000 + s / 0x1_0000;
      FoldResidue(t);
      SameResidue(t, s / 0x1_0000);
      assert s == t + 65535 * (s / 0x1_0000);
    }
  }

  lemma SameResidue(t: nat, k: nat)
    ensures (t + 65535 * k) % 65535 == t % 65535
  {
  }

  /** A sum folds to all ones exactly when it is a positive multiple of 2^16 - 1. */
  lemma FoldsToOnes(s: nat)
    ensures Fold(s) == 0xFFFF <==> s > 0 && s % 65535 == 0
  {
    FoldResidue(s);
  }

  // ---------------------------------------------------------------- the packet

  /** Where the IP header starts: behind an 8-bit or a 16-bit protocol field. */
  function IpAt(m: bytes): nat
    requires |m| > 0
  {
    if m[0] % 2 == 1 then 1 else 2
  }

  function TcpAt(m: bytes): nat
    requires |m| >= 4
  {
    IpAt(m) + m[IpAt(m)] % 16 * 4
  }

  /** Bytes of TCP header and data by the IP header's own account; 16-bit arithmetic. */
  function SegmentLength(m: bytes): u16
    requires |m| >= 8
  {
    var ip := IpAt(m);
    ((m[ip + 2] as int) * 256 + m[ip + 3] - m[ip] % 16 * 4) % 0x1_0000
  }

  function PseudoHeader(m: bytes, count: u16): nat
    requires |m| >= 128
  {
    var ip := IpAt(m);
    Words(m, ip + 12, 8) + 256 * (m[ip + 9] as int) + count / 256 + 256 * (count % 256)
  }

  function Total(m: bytes): nat
    requires SegmentInMemory(m)
  {
    PseudoHeader(m, SegmentLength(m)) + Words(m, TcpAt(m), SegmentLength(m))
  }

  /** `computeTCPChecksum` */
  function Checksum(m: bytes): u16
    requires SegmentInMemory(m)
  {
    0xFFFF - Fold(Total(m))
  }

  predicate SegmentInMemory(m: bytes) {
    |m| >= 128 && TcpAt(m) + SegmentLength(m) <= |m|
  }

  /** The tests made before anything is touched: IPv4, long enough, first fragment, TCP, SYN. */
  predicate IsSyn(m: bytes, len: nat)
    requires |m| >= 128
  {
    var ip := IpAt(m);
    && (if ip == 1 then m[0] == 0x21 else m[0] == 0 && m[1] == 0x21)
    && len >= 40 + ip
    && m[ip] / 16 == 4
    && m[ip + 6] % 32 == 0 && m[ip + 7] == 0
    && m[ip + 9] == 6
    && m[TcpAt(m) + 13] / 2 % 2 == 1
  }

  /** The walk over the options: the position of the MSS option, or -1 if there is
      none before the end or before something malformed. */
  function FindMss(m: bytes, opt: nat, end: nat): (r: int)
    requires end + 4 <= |m|
    ensures r == -1 || opt <= r < end
    decreases end - opt
  {
    if opt >= end || m[opt] == 0 then -1
    else if m[opt] == 1 then FindMss(m, opt + 1, end)
    else if m[opt] == 2 then (if m[opt + 1] != 4 then -1 else opt)
    else if m[opt + 1] < 2 then -1
    else FindMss(m, opt + m[opt + 1], end)
  }

  /** Where the options end. */
  function OptionsEnd(m: bytes): (end: nat)
    requires |m| >= 128
    ensures end + 4 <= |m|
  {
    TcpAt(m) + m[TcpAt(m) + 12] / 16 * 4
  }

  function MssAt(m: bytes): (at: int)
    requires |m| >= 128
    ensures at == -1 || TcpAt(m) + 20 <= at <= |m| - 4
  {
    FindMss(m, TcpAt(m) + 20, OptionsEnd(m))
  }

  function Mss(m: bytes, at: nat): u16
    requires at + 4 <= |m|
  {
    (m[at + 2] as int) * 256 + m[at + 3]
  }

  /** MSS lowered, checksum field zeroed. */
  function Lowered(m: bytes, at: nat, tcp: nat, clamp: u16): (r: bytes)
    requires at + 4 <= |m| && tcp + 18 <= |m|
    ensures |r| == |m|
  {
    m[at + 2 := clamp / 256][at + 3 := clamp % 256][tcp + 16 := 0][tcp + 17 := 0]
  }

  function PutWord(m: bytes, at: nat, w: u16): (r: bytes)
    requires at + 2 <= |m|
    ensures |r| == |m|
  {
    m[at := w % 256][at + 1 := w / 256]
  }

  /** The segment the IP header announces is a TCP segment that lies in the buffer. */
  predicate Laid(m: bytes) {
    SegmentInMemory(m) && m[IpAt(m)] % 16 >= 5 && SegmentLength(m) >= 20
  }

  /** The buffer is large enough for any headers, and a SYN is laid out properly. */
  predicate WellFormed(m: bytes, len: nat) {
    |m| >= 128 && (IsSyn(m, len) ==> Laid(m))
  }

  /** `clampMSS` */
  function Clamped(m: bytes, len: nat, clamp: u16): (r: bytes)
    requires WellFormed(m, len)
    ensures |r| == |m|
  {
    if !IsSyn(m, len) || Checksum(m) != 0 then m
    else
      var at, tcp := MssAt(m), TcpAt(m);
      if at == -1 || Mss(m, at) <= clamp then m
      else
        var z := Lowered(m, at, tcp, clamp);
        LoweredFrame(m, at, tcp, clamp);
        PutWord(z, tcp + 16, Checksum(z))
  }

  // ------------------------------------------------------------- what it keeps

  /** Nothing that the packet's layout depends on is touched. */
  lemma LoweredFrame(m: bytes, at: nat, tcp: nat, clamp: u16)
    requires Laid(m) && tcp == TcpAt(m) && tcp + 20 <= at <= |m| - 4
    ensures var z := Lowered(m, at, tcp, clamp);
            && z[..tcp] == m[..tcp] && IpAt(z) == IpAt(m) && TcpAt(z) == TcpAt(m)
            && SegmentLength(z) == SegmentLength(m) && SegmentInMemory(z)
  {
    SameHeader(m, Lowered(m, at, tcp, clamp));
  }

  lemma SameHeader(m: bytes, z: bytes)
    requires Laid(m) && |z| == |m| && z[..TcpAt(m)] == m[..TcpAt(m)]
    ensures IpAt(z) == IpAt(m) && TcpAt(z) == TcpAt(m) && SegmentLength(z) == SegmentLength(m)
    ensures PseudoHeader(z, SegmentLength(m)) == PseudoHeader(m, SegmentLength(m))
  {
    var tcp, ip := TcpAt(m), IpAt(m);
    assert tcp >= ip + 20;
    forall i | 0 <= i < tcp ensures z[i] == m[i] { assert z[..tcp][i] == m[..tcp][i]; }
    WordsLocal(m, z, ip + 12, 8);
  }

  lemma {:induction false} WordsLocal(m: bytes, z: bytes, at: nat, n: nat)
    requires at + n <= |m| == |z| && forall i :: at <= i < at + n ==> z[i] == m[i]
    ensures Words(z, at, n) == Words(m, at, n)
    decreases n
  {
    if n >= 2 {
      WordsLocal(m, z, at + 2, n - 2);
    }
  }

  /** A word written over zeros, at an even distance, is added to the sum. */
  lemma {:induction false} WordsPut(m: bytes, at: nat, n: nat, k: nat, w: u16)
    requires at + n <= |m| && 2 * k + 2 <= n && WordAt(m, at + 2 * k) == 0
    ensures Words(PutWord(m, at + 2 * k, w), at, n) == Words(m, at, n) + w
    decreases k
  {
    var r := PutWord(m, at + 2 * k, w);
    if k == 0 {
      WordsLocal(m, r, at + 2, n - 2);
      assert WordAt(r, at) == w;
    } else {
      WordsPut(m, at + 2, n - 2, k - 1, w);
      assert at + 2 + 2 * (k - 1) == at + 2 * k;
    }
  }

  /** What is written into the zeroed field is added to the total. */
  lemma TotalPut(z: bytes, w: u16)
    requires Laid(z) && WordAt(z, TcpAt(z) + 16) == 0
    ensures var r := PutWord(z, TcpAt(z) + 16, w);
            SegmentInMemory(r) && Total(r) == Total(z) + w
  {
    hide Words;
    var tcp := TcpAt(z);
    var r := PutWord(z, tcp + 16, w);
    assert r[..tcp] == z[..tcp];
    SameHeader(z, r);
    assert tcp + 16 == tcp + 2 * 8;
    WordsPut(z, tcp, SegmentLength(z), 8, w);
  }

  /** A checksum written into its zeroed field makes the sum fold to all ones. */
  lemma ChecksumMakesValid(z: bytes)
    requires Laid(z) && WordAt(z, TcpAt(z) + 16) == 0
    ensures var r := PutWord(z, TcpAt(z) + 16, Checksum(z));
            SegmentInMemory(r) && Checksum(r) == 0
  {
    hide Words, Fold;
    var f := Fold(Total(z));
    TotalPut(z, Checksum(z));
    FoldResidue(Total(z));
    Complement(Total(z), f);
    FoldsToOnes(Total(PutWord(z, TcpAt(z) + 16, Checksum(z))));
  }

  lemma Complement(s: nat, f: u16)
    requires f % 65535 == s % 65535 && (f == 0 <==> s == 0)
    ensures s + (65535 - f) > 0 && (s + (65535 - f)) % 65535 == 0
  {
    var q := s / 65535;
    if f == 65535 {
      assert s == 65535 * q;
    } else {
      assert s + (65535 - f) == 65535 * (q + 1);
    }
  }

  /** The walk reads only what stands in front of the option's value. */
  lemma {:induction false} FindMssFrame(m: bytes, z: bytes, opt: nat, end: nat)
    requires end + 4 <= |m| == |z| && FindMss(m, opt, end) != -1
    requires forall i :: opt <= i < FindMss(m, opt, end) + 2 ==> z[i] == m[i]
    ensures FindMss(z, opt, end) == FindMss(m, opt, end)
    decreases end - opt
  {
    if m[opt] == 1 {
      FindMssFrame(m, z, opt + 1, end);
    } else if m[opt] != 2 {
      FindMssFrame(m, z, opt + m[opt + 1], end);
    }
  }

  /** A packet that is lowered. */
  ghost predicate TooHigh(m: bytes, len: nat, clamp: u16)
    requires WellFormed(m, len)
  {
    IsSyn(m, len) && Checksum(m) == 0 && MssAt(m) != -1 && Mss(m, MssAt(m)) > clamp
  }

  /** The bytes that clamping may change. */
  predicate Touched(m: bytes, i: nat)
    requires |m| >= 128
  {
    var at, tcp := MssAt(m), TcpAt(m);
    at != -1 && i in {at + 2, at + 3, tcp + 16, tcp + 17}
  }

  lemma OnlyTouched(m: bytes, len: nat, clamp: u16, i: nat)
    requires WellFormed(m, len) && i < |m| && !Touched(m, i)
    ensures Clamped(m, len, clamp)[i] == m[i]
  {
    hide Checksum;
  }

  /** The new option value, which the checksum field does not overlap. */
  lemma LoweredMss(m: bytes, at: nat, tcp: nat, clamp: u16, w: u16)
    requires tcp + 20 <= at && at + 4 <= |m|
    ensures Mss(PutWord(Lowered(m, at, tcp, clamp), tcp + 16, w), at) == clamp
  {
    var r := PutWord(Lowered(m, at, tcp, clamp), tcp + 16, w);
    assert r[at + 2] == clamp / 256 && r[at + 3] == clamp % 256;
  }

  /** The option is found again where it was. */
  lemma SameMssAt(m: bytes, r: bytes)
    requires Laid(m) && |r| == |m| && MssAt(m) != -1
    requires forall i :: 0 <= i < |m| && !Touched(m, i) ==> r[i] == m[i]
    ensures MssAt(r) == MssAt(m)
  {
    var at, tcp := MssAt(m), TcpAt(m);
    assert r[..tcp] == m[..tcp];
    SameHeader(m, r);
    hide Words, PseudoHeader, SegmentLength, SegmentInMemory;
    assert r[tcp + 12] == m[tcp + 12];
    FindMssFrame(m, r, tcp + 20, OptionsEnd(m));
  }

  lemma ClampedTooHigh(m: bytes, len: nat, clamp: u16)
    requires WellFormed(m, len) && TooHigh(m, len, clamp)
    ensures var at, tcp, r := MssAt(m), TcpAt(m), Clamped(m, len, clamp);
            && SegmentInMemory(r) && Checksum(r) == 0 && Mss(r, at) == clamp
  {
    hide Checksum, MssAt, PutWord, IpAt;
    var at, tcp := MssAt(m), TcpAt(m);
    var z := Lowered(m, at, tcp, clamp);
    LoweredFrame(m, at, tcp, clamp);
    ChecksumMakesValid(z);
    LoweredMss(m, at, tcp, clamp, Checksum(z));
  }

  /** Clamping a SYN whose checksum is right leaves the checksum right, whatever the
      alignment of the option, and lowers an option that is too high to the clamp;
      any other packet is left alone. */
  lemma ClampIsRight(m: bytes, len: nat, clamp: u16)
    requires WellFormed(m, len)
    ensures var r, at := Clamped(m, len, clamp), MssAt(m);
            if IsSyn(m, len) && Checksum(m) == 0 then
              && SegmentInMemory(r) && Checksum(r) == 0 && MssAt(r) == at
              && (at != -1 ==> Mss(r, at) == if Mss(m, at) <= clamp then Mss(m, at) else clamp)
            else r == m
    ensures forall i :: 0 <= i < |m| && !Touched(m, i) ==> Clamped(m, len, clamp)[i] == m[i]
  {
    hide Checksum, Lowered, PutWord, MssAt, Mss, IsSyn, SegmentInMemory, SegmentLength, IpAt, Touched;
    forall i | 0 <= i < |m| && !Touched(m, i) ensures Clamped(m, len, clamp)[i] == m[i] {
      OnlyTouched(m, len, clamp, i);
    }
    if TooHigh(m, len, clamp) {
      ClampedTooHigh(m, len, clamp);
      SameMssAt(m, Clamped(m, len, clamp));
    }
  }

  // ------------------------------------------------------- every option there is

  /** Every MSS option of the list, read as kind, length and value, is at most `clamp`;
      behind a length that leads nowhere there is nothing to read. */
  predicate AllMss(m: bytes, opt: nat, end: nat, clamp: u16)
    requires end + 4 <= |m|
    decreases end - opt
  {
    if opt >= end || m[opt] == 0 then true
    else if m[opt] == 1 then AllMss(m, opt + 1, end, clamp)
    else if m[opt + 1] < 2 then true
    else (m[opt] == 2 && m[opt + 1] == 4 ==> Mss(m, opt) <= clamp) && AllMss(m, opt + m[opt + 1], end, clamp)
  }

  /** Where the options begin that the walk does not look at: behind the first MSS
      option, or behind one of the wrong length. */
  function Unread(m: bytes, opt: nat, end: nat): (r: nat)
    requires end + 4 <= |m|
    ensures opt <= r
    decreases end - opt
  {
    if opt >= end || m[opt] == 0 then opt
    else if m[opt] == 1 then Unread(m, opt + 1, end)
    else if m[opt + 1] < 2 then opt
    else if m[opt] == 2 then opt + m[opt + 1]
    else Unread(m, opt + m[opt + 1], end)
  }

  /** All options are low exactly if the one the walk finds is, and those it does not look at are. */
  lemma {:induction false} FoundAndUnread(m: bytes, opt: nat, end: nat, clamp: u16)
    requires end + 4 <= |m|
    ensures var at := FindMss(m, opt, end);
            && (at != -1 ==> Unread(m, opt, end) == at + 4)
            && (AllMss(m, opt, end, clamp) <==>
                  (at != -1 ==> Mss(m, at) <= clamp) && AllMss(m, Unread(m, opt, end), end, clamp))
    decreases end - opt
  {
    if opt < end && m[opt] == 1 {
      FoundAndUnread(m, opt + 1, end, clamp);
    } else if opt < end && m[opt] > 2 && m[opt + 1] >= 2 {
      FoundAndUnread(m, opt + m[opt + 1], end, clamp);
    }
  }

  lemma {:induction false} AllMssFrame(m: bytes, z: bytes, opt: nat, end: nat, clamp: u16)
    requires end + 4 <= |m| == |z| && forall i :: opt <= i < |m| ==> z[i] == m[i]
    ensures AllMss(z, opt, end, clamp) == AllMss(m, opt, end, clamp)
    decreases end - opt
  {
    if opt < end && m[opt] == 1 {
      AllMssFrame(m, z, opt + 1, end, clamp);
    } else if opt < end && m[opt] > 1 && m[opt + 1] >= 2 {
      AllMssFrame(m, z, opt + m[opt + 1], end, clamp);
    }
  }

  /** Where the options end is not touched. */
  lemma SameEnd(m: bytes, len: nat, clamp: u16)
    requires WellFormed(m, len) && IsSyn(m, len)
    ensures TcpAt(Clamped(m, len, clamp)) == TcpAt(m) && OptionsEnd(Clamped(m, len, clamp)) == OptionsEnd(m)
  {
    var r, tcp := Clamped(m, len, clamp), TcpAt(m);
    hide Checksum, SegmentInMemory, Clamped, SegmentLength, Mss, MssAt;
    ClampIsRight(m, len, clamp);
    assert tcp >= IpAt(m) + 20;
    assert !Touched(m, 0) && !Touched(m, IpAt(m)) && !Touched(m, tcp + 12);
  }

  /** Of a valid SYN that is clamped every MSS option is at most the clamp if and only
      if those behind the first one were: the walk stops there. Of one in which the
      walk finds none, if and only if those behind the place where it stopped were. */
  lemma AllClampedExactly(m: bytes, len: nat, clamp: u16)
    requires WellFormed(m, len) && IsSyn(m, len) && Checksum(m) == 0
    ensures var r, first, end := Clamped(m, len, clamp), TcpAt(m) + 20, OptionsEnd(m);
            && TcpAt(r) == TcpAt(m) && OptionsEnd(r) == end
            && (AllMss(r, first, end, clamp) <==> AllMss(m, Unread(m, first, end), end, clamp))
            && (MssAt(m) != -1 ==> Unread(m, first, end) == MssAt(m) + 4)
  {
    var r, first, end := Clamped(m, len, clamp), TcpAt(m) + 20, OptionsEnd(m);
    hide Checksum, IsSyn, SegmentInMemory, SegmentLength, Clamped, AllMss, FindMss, Unread, IpAt, TcpAt, Mss, Laid, OptionsEnd,
         Touched;
    SameEnd(m, len, clamp);
    ClampIsRight(m, len, clamp);
    FoundAndUnread(m, first, end, clamp);
    if MssAt(m) == -1 {
      NothingClamped(m, len, clamp);
    } else {
      OnlyBefore(m, len, clamp);
      LoweredOnes(m, r, first, end, clamp);
    }
  }

  lemma OnlyBefore(m: bytes, len: nat, clamp: u16)
    requires WellFormed(m, len) && MssAt(m) != -1
    ensures forall i :: MssAt(m) + 4 <= i < |m| ==> Clamped(m, len, clamp)[i] == m[i]
  {
    hide Checksum, Clamped, MssAt, IsSyn;
    forall i | MssAt(m) + 4 <= i < |m| ensures Clamped(m, len, clamp)[i] == m[i] {
      OnlyTouched(m, len, clamp, i);
    }
  }

  lemma LoweredOnes(m: bytes, r: bytes, first: nat, end: nat, clamp: u16)
    requires end + 4 <= |m| == |r|
    requires var at := FindMss(m, first, end); FindMss(r, first, end) == at && at != -1 && Mss(r, at) <= clamp
    requires forall i :: FindMss(m, first, end) + 4 <= i < |m| ==> r[i] == m[i]
    ensures AllMss(r, first, end, clamp) <==> AllMss(m, Unread(m, first, end), end, clamp)
  {
    hide AllMss, FindMss, Unread, Mss;
    FoundAndUnread(m, first, end, clamp);
    FoundAndUnread(r, first, end, clamp);
    AllMssFrame(m, r, FindMss(m, first, end) + 4, end, clamp);
  }

  lemma NothingClamped(m: bytes, len: nat, clamp: u16)
    requires WellFormed(m, len) && MssAt(m) == -1
    ensures Clamped(m, len, clamp) == m
  {
    hide Checksum, IsSyn, MssAt;
  }

  /** The headers of a SYN with eight bytes of options, checksum field zero. */
  function SynHeaders(): (h: bytes)
    ensures |h| == 129
  {
    seq(129, _ => 0)[0 := 0x21][1 := 0x45][4 := 48][10 := 6][33 := 0x70][34 := 2]
  }

  /** A SYN with these options and the right checksum. */
  function SynWith(options: bytes): (m: bytes)
    requires |options| == 8
    ensures |m| == 129
  {
    var z := Over(SynHeaders(), 41, options);
    SynIsLaid(z);
    PutWord(z, 37, Checksum(z))
  }

  lemma SynIsLaid(z: bytes)
    requires |z| == 129 && forall i :: 0 <= i < 41 ==> z[i] == SynHeaders()[i]
    ensures Laid(z) && TcpAt(z) == 21 && SegmentLength(z) == 28 && WordAt(z, 37) == 0
    ensures IsSyn(z, 49) && OptionsEnd(z) == 49
  {
    assert z[0] == 0x21 && z[1] == 0x45 && z[3] == 0 && z[4] == 48;
    assert z[7] == z[8] == 0 && z[10] == 6 && z[33] == 0x70 && z[34] == 2 && z[37] == z[38] == 0;
  }

  lemma SynWithFacts(options: bytes)
    requires |options| == 8
    ensures var m := SynWith(options);
            && (forall i :: 0 <= i < 8 ==> m[41 + i] == options[i])
            && WellFormed(m, 49) && IsSyn(m, 49) && Checksum(m) == 0
            && TcpAt(m) == 21 && OptionsEnd(m) == 49
  {
    hide Words, Fold, PseudoHeader, SegmentLength;
    var z := Over(SynHeaders(), 41, options);
    SynIsLaid(z);
    ChecksumMakesValid(z);
    var m := SynWith(options);
    assert forall i :: 0 <= i < 37 ==> m[i] == z[i];
    assert m[..21] == z[..21];
    SameHeader(z, m);
  }

  /** The walk over two options of four bytes. */
  lemma WalkOfSyn(m: bytes, clamp: u16)
    requires |m| == 129 && TcpAt(m) == 21 && OptionsEnd(m) == 49
    ensures m[41] == 2 && m[42] == 4 ==> MssAt(m) == 41
    ensures m[41] == 2 && m[42] == 3 ==> MssAt(m) == -1
    ensures m[41] == 2 && m[42] == 3 && m[44] == 2 && m[45] == 4 && Mss(m, 44) > clamp ==> !AllMss(m, 41, 49, clamp)
  {
    if m[41] == 2 && m[42] == 3 {
      assert AllMss(m, 41, 49, clamp) == AllMss(m, 44, 49, clamp);
    }
  }

  /** The failing family: the second MSS option of a valid SYN stays as it is. */
  lemma SecondStays()
    ensures var m := SynWith([2, 4, 5, 180, 2, 4, 5, 180]);
            && WellFormed(m, 49) && IsSyn(m, 49) && Checksum(m) == 0 && MssAt(m) == 41
            && Mss(Clamped(m, 49, 1412), 41) == 1412 && Mss(Clamped(m, 49, 1412), 45) == 1460
  {
    hide Checksum, IsSyn, SegmentInMemory, SegmentLength, Clamped, SynWith, MssAt, TcpAt, OptionsEnd, AllMss, Laid;
    var options: bytes := [2, 4, 5, 180, 2, 4, 5, 180];
    var m := SynWith(options);
    SynWithFacts(options);
    assert m[41] == options[0] && m[42] == options[1] && m[43] == options[2] && m[44] == options[3];
    assert m[47] == options[6] && m[48] == options[7];
    WalkOfSyn(m, 1412);
    ClampIsRight(m, 49, 1412);
    OnlyBefore(m, 49, 1412);
  }

  /** So does an MSS option behind one of the wrong length. */
  lemma BogusHides()
    ensures var m := SynWith([2, 3, 0, 2, 4, 5, 180, 0]);
            && WellFormed(m, 49) && IsSyn(m, 49) && Checksum(m) == 0 && MssAt(m) == -1
            && Clamped(m, 49, 1412) == m && Mss(m, 44) == 1460 && !AllMss(m, 41, 49, 1412)
  {
    hide Checksum, IsSyn, SegmentInMemory, SegmentLength, Clamped, SynWith, MssAt, TcpAt, OptionsEnd, AllMss, Laid;
    var options: bytes := [2, 3, 0, 2, 4, 5, 180, 0];
    var m := SynWith(options);
    SynWithFacts(options);
    assert m[41] == options[0] && m[42] == options[1] && m[43] == options[2] && m[44] == options[3];
    assert m[45] == options[4] && m[46] == options[5] && m[47] == options[6];
    WalkOfSyn(m, 1412);
    NothingClamped(m, 49, 1412);
  }

  // ------------------------------------------------------------------ in place

  /** The additions of `computeTCPChecksum`; the 32-bit accumulator never overflows. */
  method AddSegment(m: array<byte>) returns (sum: u32)
    requires SegmentInMemory(m[..])
    ensures sum == Total(m[..])
  {
    ghost var s := m[..];
    var addr: nat, count: u16 := TcpAt(m[..]), SegmentLength(m[..]);
    sum := PseudoHeader(m[..], count);
    ghost var end: nat, n: nat := addr + count, count;
    hide PseudoHeader, SegmentLength, TcpAt;
    while count > 1
      invariant addr + count == end <= |s| && count <= n
      invariant sum + Words(s, addr, count) == Total(s)
      invariant sum <= 8 * 0x1_0000 + (n - count) * 0x8000
    {
      sum := sum + WordAt(m[..], addr);
      addr := addr + 2;
      count := count - 2;
    }
    if count > 0 {
      sum := sum + m[addr];
    }
  }

  /** `computeTCPChecksum` */
  method ComputeTcpChecksum(m: array<byte>) returns (csum: u16)
    requires SegmentInMemory(m[..])
    ensures csum == Checksum(m[..])
  {
    hide Total, SegmentInMemory;
    var sum := AddSegment(m);
    ghost var total := sum;
    while sum >= 0x1_0000
      invariant Fold(sum) == Fold(total)
      decreases sum
    {
      sum := sum % 0x1_0000 + sum / 0x1_0000;
    }
    csum := 0xFFFF - sum;
  }

  /** The loop over the options. */
  method LookForMss(m: array<byte>) returns (mssopt: int)
    requires m.Length >= 128
    ensures mssopt == MssAt(m[..])
  {
    var tcp := TcpAt(m[..]);
    var end := tcp + m[tcp + 12] / 16 * 4;
    var opt: nat := tcp + 20;
    while opt < end
      invariant FindMss(m[..], opt, end) == FindMss(m[..], tcp + 20, end)
      decreases end - opt
    {
      if m[opt] == 0 {
        break;
      }
      if m[opt] == 1 {
        opt := opt + 1;
      } else if m[opt] == 2 {
        if m[opt + 1] != 4 {
          return -1;
        }
        return opt;
      } else {
        if m[opt + 1] < 2 {
          return -1;
        }
        opt := opt + m[opt + 1];
      }
    }
    mssopt := -1;
  }

  method LowerMss(payload: array<byte>, at: nat, tcp: nat, clamp: u16)
    requires at + 4 <= payload.Length && tcp + 18 <= payload.Length
    modifies payload
    ensures payload[..] == Lowered(old(payload[..]), at, tcp, clamp)
  {
    payload[at + 2] := clamp / 256;
    payload[at + 3] := clamp % 256;
    payload[tcp + 16] := 0;
    payload[tcp + 17] := 0;
  }

  method StoreWord(payload: array<byte>, at: nat, w: u16)
    requires at + 2 <= payload.Length
    modifies payload
    ensures payload[..] == PutWord(old(payload[..]), at, w)
  {
    payload[at] := w % 256;
    payload[at + 1] := w / 256;
  }

  /** `clampMSS` on the payload of a session packet. */
  method ClampMss(payload: array<byte>, len: nat, clamp: u16)
    requires WellFormed(payload[..], len)
    modifies payload
    ensures payload[..] == Clamped(old(payload[..]), len, clamp)
  {
    if !IsSyn(payload[..], len) {
      return;
    }
    hide Checksum, Words, Total, IsSyn, Lowered, PutWord, MssAt, Mss, SegmentInMemory, TcpAt;
    var csum := ComputeTcpChecksum(payload);
    if csum != 0 {
      return;
    }
    var tcp := TcpAt(payload[..]);
    var at := LookForMss(payload);
    if at == -1 || Mss(payload[..], at) <= clamp {
      return;
    }
    LoweredFrame(payload[..], at, tcp, clamp);
    LowerMss(payload, at, tcp, clamp);
    csum := ComputeTcpChecksum(payload);
    StoreWord(payload, tcp + 16, csum);
  }
}
