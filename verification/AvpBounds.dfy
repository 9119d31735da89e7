/** The end of the buffer: `handle_avps` swaps six header bytes without looking
    whether six bytes are left. When it stays inside the packet, and when not. */
module AvpBounds {
  import opened Octets
  import opened Md5
  import opened AvpHiding
  import opened AvpWalk

  lemma OverPrefix(m: bytes, at: nat, s: bytes, end: nat)
    requires at + |s| <= end <= |m|
    ensures Over(m[..end], at, s) == Over(m, at, s)[..end]
  {
  }

  lemma ReadPrefix(m: bytes, i: nat, end: nat)
    requires i + 2 <= end <= |m|
    ensures ReadLittle(m[..end], i) == ReadLittle(m, i) && ReadBig(m[..end], i) == ReadBig(m, i)
  {
  }

  lemma SwapPrefix(m: bytes, at: nat, end: nat)
    requires at + AVP_HDR <= end <= |m|
    ensures SwapHeader(m[..end], at) == SwapHeader(m, at)[..end]
  {
    OverPrefix(m, at, [m[at + 1], m[at], m[at + 3], m[at + 2], m[at + 5], m[at + 4]], end);
  }

  lemma AvpAtPrefix(m: bytes, at: nat, end: nat)
    requires at + AVP_HDR <= end <= |m| && at + Length(ReadLittle(m, at)) <= end
    ensures AvpAt(m[..end], at) == AvpAt(m, at)
  {
    ReadPrefix(m, at, end);
    ReadPrefix(m, at + 2, end);
    ReadPrefix(m, at + 4, end);
    hide ReadLittle;
  }

  lemma RebuildPrefix(m: bytes, at: nat, word: u16, vendor: u16, attr: u16, plain: bytes, end: nat)
    requires at + AVP_HDR + |plain| <= end <= |m| && AVP_HDR + |plain| < 4096
    ensures var a, b := Rebuild(m[..end], at, word, vendor, attr, plain), Rebuild(m, at, word, vendor, attr, plain);
            && a.Restored? == b.Restored? && a.mem == b.mem[..end]
            && (b.Restored? ==> at + 2 + Length(ReadLittle(b.mem, at + 2)) <= end)
  {
    hide ReadBig, ClearH;
    if |plain| < 2 || ReadBig(plain, 0) > |plain| - 2 {
      OverPrefix(m, at + AVP_HDR, plain, end);
    } else {
      var w := Word(ClearH(word / 4096), AVP_HDR + ReadBig(plain, 0));
      OverPrefix(m, at + 2, LittleHeader(w, vendor, attr) + plain[2..], end);
      ReadHeader(m, at + 2, w, vendor, attr, plain[2..]);
      LengthOf(w);
    }
  }

  lemma LengthOf(word: u16)
    ensures Length(word) <= word % 4096
  {
    assert word % 1024 == word % 4096 % 1024;
  }

  lemma UnhidePrefix(f: Transform, k: Keys, m: bytes, at: nat, end: nat)
    requires at + AVP_HDR <= end <= |m| && at + ReadLittle(m, at) % 4096 <= end
    ensures HiddenWord(m[..end], at) && HiddenWord(m, at)
    ensures var a, b := UnhideAt(f, k, m[..end], at), UnhideAt(f, k, m, at);
            && a.Restored? == b.Restored? && a.mem == b.mem[..end]
            && (b.Restored? ==> at + 2 + AVP_HDR <= end && at + 2 + Length(ReadLittle(b.mem, at + 2)) <= end)
  {
    ReadPrefix(m, at, end);
    ReadPrefix(m, at + 2, end);
    ReadPrefix(m, at + 4, end);
    var attr := ReadLittle(m, at + 4);
    hide Rebuild, Unmask, Seed, ReadLittle, Length;
    assert CipherAt(m[..end], at) == CipherAt(m, at);
    hide CipherAt;
    var plain := Unmask(f, Seed(k, attr), k.secret, CipherAt(m, at));
    RebuildPrefix(m, at, ReadLittle(m, at), ReadLittle(m, at + 2), attr, plain, end);
  }

  lemma HandOverPrefix<S>(p: Peer<S>, m: bytes, at: nat, end: nat, used: nat, s: S)
    requires at + AVP_HDR <= end <= |m| && at + Length(ReadLittle(m, at)) <= end
    ensures var r := HandOver(p, m, at, used, s); HandOver(p, m[..end], at, used, s) == r.(mem := r.mem[..end])
  {
    hide AvpAt, Deliver, ReadLittle, Length;
    AvpAtPrefix(m, at, end);
  }

  /** The hidden AVP's turn once it has been unmasked. */
  function Unmasked<S>(p: Peer<S>, u: Unhidden, at: nat, word: u16, s: S): (r: Step<S>)
    requires u.Restored? ==> at + AVP_HDR + 2 <= |u.mem|
  {
    match u
    case Refused(mem) => if Mandatory(word) then Halt(BadHidden, mem, s) else Go(mem, Length(word), s)
    case Restored(mem) => HandOver(p, mem, at + 2, Length(word), s)
  }

  lemma HiddenIsUnmasked<S>(p: Peer<S>, h: bytes, at: nat, word: u16, s: S)
    requires at + AVP_HDR <= |h| && HiddenWord(h, at)
    ensures HandOverHidden(p, h, at, word, s) ==
              if p.keys(s).Has? then Unmasked(p, UnhideAt(p.f, p.keys(s).keys, h, at), at, word, s)
              else if Mandatory(word) then Halt(BadHidden, h, s) else Go(h, Length(word), s)
  {
    hide UnhideAt, HandOver, Mandatory, Length, HiddenWord;
  }

  lemma UnmaskedPrefix<S>(p: Peer<S>, a: Unhidden, b: Unhidden, at: nat, end: nat, word: u16, s: S)
    requires end <= |b.mem| && a.Restored? == b.Restored? && a.mem == b.mem[..end]
    requires b.Restored? ==> at + 2 + AVP_HDR <= end && at + 2 + Length(ReadLittle(b.mem, at + 2)) <= end
    ensures var r := Unmasked(p, b, at, word, s);
            |r.mem| == |b.mem| && Unmasked(p, a, at, word, s) == r.(mem := r.mem[..end])
  {
    hide HandOver, Mandatory, Length, ReadLittle;
    if b.Restored? {
      HandOverPrefix(p, b.mem, at + 2, end, Length(word), s);
    }
  }

  lemma HandOverHiddenPrefix<S>(p: Peer<S>, h: bytes, at: nat, end: nat, s: S)
    requires at + AVP_HDR <= end <= |h| && at + ReadLittle(h, at) % 4096 <= end
    ensures HiddenWord(h, at) && HiddenWord(h[..end], at)
    ensures var word := ReadLittle(h, at); var r := HandOverHidden(p, h, at, word, s);
            HandOverHidden(p, h[..end], at, word, s) == r.(mem := r.mem[..end])
  {
    assert HiddenWord(h, at) && HiddenWord(h[..end], at) by { ReadPrefix(h, at, end); }
    hide UnhideAt, ReadLittle, HandOver, HandOverHidden, Unmasked, Mandatory, Length, HiddenWord;
    var word := ReadLittle(h, at);
    HiddenIsUnmasked(p, h, at, word, s);
    HiddenIsUnmasked(p, h[..end], at, word, s);
    if p.keys(s).Has? {
      var k := p.keys(s).keys;
      UnhidePrefix(p.f, k, h, at, end);
      UnmaskedPrefix(p, UnhideAt(p.f, k, h[..end], at), UnhideAt(p.f, k, h, at), at, end, word, s);
    }
  }

  /** A turn that gets past the checks. */
  predicate Passes(word: u16, attr: u16, len: nat, first: bool) {
    attr <= AVP_MAX && AVP_HDR <= Length(word) <= len && !(attr != 0 && first) && !ReservedBits(word)
  }

  lemma PassedTurn<S>(p: Peer<S>, h: bytes, at: nat, len: nat, first: bool, s: S)
    requires 0 < len && at + len <= |h| && at + AVP_HDR <= |h|
    requires Passes(ReadLittle(h, at), ReadLittle(h, at + 4), len, first)
    ensures var word := ReadLittle(h, at);
            && at + word % 4096 <= at + len && HiddenWord(h, at) && Length(word) <= len
            && Checked(p, h, at, len, first, s) ==
                 if HiddenBit(word) then HandOverHidden(p, h, at, word, s) else HandOver(p, h, at, Length(word), s)
  {
    hide ReadLittle, Mandatory, HiddenBit, ReservedBits, HandOver, HandOverHidden;
    NoReserved(ReadLittle(h, at));
  }

  lemma StoppedTurn<S>(p: Peer<S>, h: bytes, end: nat, at: nat, len: nat, first: bool, s: S)
    requires AVP_HDR <= len && at + len == end <= |h|
    requires ReadLittle(h[..end], at) == ReadLittle(h, at) && ReadLittle(h[..end], at + 4) == ReadLittle(h, at + 4)
    requires !Passes(ReadLittle(h, at), ReadLittle(h, at + 4), len, first)
    ensures Checked(p, h, at, len, first, s).mem == h
    ensures Checked(p, h[..end], at, len, first, s) == Checked(p, h, at, len, first, s).(mem := h[..end])
  {
    hide ReadLittle, Mandatory, HiddenBit, ReservedBits, HandOver, HandOverHidden, Length;
  }

  /** A turn with a whole header left does the same whatever stands behind the packet. */
  lemma CheckedPrefix<S>(p: Peer<S>, h: bytes, at: nat, len: nat, first: bool, s: S)
    requires AVP_HDR <= len && at + len <= |h|
    ensures var r := Checked(p, h, at, len, first, s);
            Checked(p, h[..at + len], at, len, first, s) == r.(mem := r.mem[..at + len])
  {
    hide Checked, Passes, ReadLittle, HiddenBit, Length, HandOver, HandOverHidden, HiddenWord;
    var end, word := at + len, ReadLittle(h, at);
    ReadPrefix(h, at, end);
    ReadPrefix(h, at + 4, end);
    if Passes(word, ReadLittle(h, at + 4), len, first) {
      PassedTurn(p, h, at, len, first, s);
      PassedTurn(p, h[..end], at, len, first, s);
      HandOverPrefix(p, h, at, end, Length(word), s);
      HandOverHiddenPrefix(p, h, at, end, s);
    } else {
      StoppedTurn(p, h, end, at, len, first, s);
    }
  }

  /** In a buffer that ends with the packet the walk either overruns it or does what it
      does in a larger one: it touches what stands behind the packet exactly when it overruns. */
  lemma {:induction false} BehindExactly<S>(p: Peer<S>, m: bytes, at: nat, len: int, first: bool, s: S)
    requires len > 0 && at + len <= |m|
    ensures var full := Walk(p, m[..at + len], at, len, first, s);
            full == Overrun || full == Walk(p, m, at, len, first, s)
    decreases len
  {
    hide Checked, SwapHeader;
    if len >= AVP_HDR {
      var end := at + len;
      SwapPrefix(m, at, end);
      CheckedPrefix(p, SwapHeader(m, at), at, len, first, s);
      var step := Checked(p, SwapHeader(m, at), at, len, first, s);
      if step.Go? && 0 < step.used < len {
        BehindExactly(p, step.mem, at + step.used, len - step.used, false, step.state);
      }
    }
  }

  /** Five more bytes are always enough. */
  lemma {:induction false} RoomSuffices<S>(p: Peer<S>, m: bytes, at: nat, len: int, first: bool, s: S)
    requires len > 0 ==> at + len + AVP_HDR - 1 <= |m|
    ensures Walk(p, m, at, len, first, s) != Overrun
    decreases if len > 0 then len else 0
  {
    hide Checked, SwapHeader;
    if len > 0 {
      var step := Checked(p, SwapHeader(m, at), at, len, first, s);
      if step.Go? && step.used > 0 {
        RoomSuffices(p, step.mem, at + step.used, len - step.used, false, step.state);
      }
    }
  }

  /** Following the lengths, as the swaps leave them, no stub shorter than a header is met. */
  ghost predicate Stubless(cur: bytes, at: nat, len: int)
    decreases if len > 0 then len else 0
  {
    len <= 0 ||
    (len >= AVP_HDR && at + AVP_HDR <= |cur| &&
     var n := Length(ReadBig(cur, at));
     n > 0 ==> Stubless(SwapHeader(cur, at), at + n, len - n))
  }

  lemma {:induction false} StublessFrame(cur: bytes, cur': bytes, at: nat, len: int)
    requires |cur| == |cur'| && at <= |cur| && cur[at..] == cur'[at..]
    requires len > 0 ==> at + len <= |cur|
    ensures Stubless(cur, at, len) == Stubless(cur', at, len)
    decreases if len > 0 then len else 0
  {
    hide SwapHeader, ReadBig, Length;
    if len >= AVP_HDR {
      SwapFrame(cur, cur', at);
      var n := Length(ReadBig(cur, at));
      if 0 < n <= len {
        SliceOn(SwapHeader(cur, at), SwapHeader(cur', at), at, at + n);
        StublessFrame(SwapHeader(cur, at), SwapHeader(cur', at), at + n, len - n);
      }
    }
  }

  /** In a buffer that ends with the packet, a walk that is not refused overruns it if
      and only if following the lengths meets a stub. */
  lemma {:induction false} OverrunExactly<S>(p: Peer<S>, m: bytes, at: nat, len: int, first: bool, s: S)
    requires len > 0 ==> at + len == |m|
    ensures var o := Walk(p, m, at, len, first, s);
            o.Rejected? || (o == Overrun <==> !Stubless(m, at, len))
    decreases if len > 0 then len else 0
  {
    hide Checked, SwapHeader, ReadLittle, ReadBig, Length;
    if len >= AVP_HDR {
      var h := SwapHeader(m, at);
      var step := Checked(p, h, at, len, first, s);
      SwapReads(m, at);
      CheckedFrame(p, h, at, len, first, s);
      if step.Go? && step.used > 0 {
        OverrunExactly(p, step.mem, at + step.used, len - step.used, false, step.state);
        if step.used <= len {
          StublessFrame(step.mem, h, at + step.used, len - step.used);
        }
      }
    }
  }

  /** A packet that every peer walks off the end of: an unknown optional AVP of three
      bytes, then three more bytes. */
  lemma StubOverruns<S>(p: Peer<S>, s: S)
    ensures Walk(p, [0, 3, 0, 0, 1, 3], 0, 6, true, s) == Overrun
  {
    var h: bytes := [3, 0, 0, 0, 3, 1];
    assert SwapHeader([0, 3, 0, 0, 1, 3], 0) == h;
    assert ReadLittle(h, 0) == 3 && ReadLittle(h, 4) == 259;
    assert Checked(p, h, 0, 6, true, s) == Go(h, 3, s);
    hide Checked, SwapHeader;
    assert Walk(p, h, 3, 3, false, s) == Overrun;
  }
}
