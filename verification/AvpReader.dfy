/** `handle_avps` as it works on the packet buffer: each header is put into host
    order in place, hidden AVPs are unmasked in place, and the loop moves on. */
module AvpReader {
  import opened Octets
  import opened AvpHiding
  import opened AvpBuffer
  import opened AvpWalk

  /** The first `k` half-words at `at` swapped. */
  function SwapPairs(m: bytes, at: nat, k: nat): (r: bytes)
    requires at + 2 * k <= |m|
    ensures |r| == |m|
  {
    if k == 0 then m
    else var i := at + 2 * (k - 1); SwapPairs(m, at, k - 1)[i := m[i + 1]][i + 1 := m[i]]
  }

  lemma {:induction false} SwapPairsBehind(m: bytes, at: nat, k: nat)
    requires at + 2 * k <= |m|
    ensures SwapPairs(m, at, k)[at + 2 * k..] == m[at + 2 * k..]
  {
    if k > 0 {
      SwapPairsBehind(m, at, k - 1);
      var r := SwapPairs(m, at, k - 1);
      assert r[at + 2 * k..] == r[at + 2 * (k - 1)..][2..] == m[at + 2 * k..];
    }
  }

  lemma SwapPairsIsHeader(m: bytes, at: nat)
    requires at + AVP_HDR <= |m|
    ensures SwapPairs(m, at, 3) == SwapHeader(m, at)
  {
    assert SwapPairs(m, at, 1) == m[at := m[at + 1]][at + 1 := m[at]];
    assert SwapPairs(m, at, 2) == SwapPairs(m, at, 1)[at + 2 := m[at + 3]][at + 3 := m[at + 2]];
  }

  /** `swaps` over one header. */
  method SwapInPlace(buf: array<byte>, at: nat)
    requires at + AVP_HDR <= buf.Length
    modifies buf
    ensures buf[..] == SwapHeader(old(buf[..]), at)
  {
    ghost var was := buf[..];
    for k := 0 to 3
      invariant buf[..] == SwapPairs(was, at, k)
    {
      SwapPairsBehind(was, at, k);
      var i := at + 2 * k;
      assert buf[i] == buf[i..][0] == was[i..][0] && buf[i + 1] == buf[i..][1] == was[i..][1];
      buf[i], buf[i + 1] := buf[i + 1], buf[i];
    }
    SwapPairsIsHeader(was, at);
  }

  /** How a turn of the loop ends: `halt` with a reason, or onward by `used`. */
  function Ended<S>(m: bytes, halt: bool, why: Reason, used: nat, s: S): Step<S> {
    if halt then Halt(why, m, s) else Go(m, used, s)
  }

  /** The handler's turn: looked up, called, and its failure weighed against the M bit. */
  method HandOverInPlace<S>(p: Peer<S>, buf: array<byte>, at: nat, length: nat, s: S)
    returns (halt: bool, why: Reason, used: nat, s': S)
    requires at + AVP_HDR <= buf.Length
    ensures Ended(buf[..], halt, why, used, s') == HandOver(p, buf[..], at, length, s)
  {
    var avp := AvpAt(buf[..], at);
    halt, why, used, s' := false, NoHandler, length, s;
    if !HasHandler(avp.attr) {
      halt := avp.IsMandatory();
      return;
    }
    var h := p.handler(s, avp);
    s' := h.state;
    if h.failed && avp.IsMandatory() {
      halt, why := true, HandlerFailed;
    }
  }

  /** One turn of the loop behind the byte swap. */
  method Turn<S>(p: Peer<S>, buf: array<byte>, at: nat, len: nat, first: bool, s: S)
    returns (halt: bool, why: Reason, used: nat, s': S)
    requires 0 < len && at + len <= buf.Length && at + AVP_HDR <= buf.Length
    modifies buf
    ensures Ended(buf[..], halt, why, used, s') == Checked(p, old(buf[..]), at, len, first, s)
  {
    hide ReadLittle, Length, Mandatory, ReservedBits, HiddenBit, HandOver, UnhideAt;
    var word, attr := ReadLittle(buf[..], at), ReadLittle(buf[..], at + 4);
    var mandatory := Mandatory(word);
    halt, why, used, s' := true, LeftOver, Length(word), s;
    if attr > AVP_MAX {
      halt, why := mandatory, MandatoryUnknown;
      return;
    }
    if Length(word) > len {
      why := TooLong;
      return;
    }
    if attr != 0 && first {
      why := NotMessageType;
      return;
    }
    if Length(word) < AVP_HDR {
      why := TooSmall;
      return;
    }
    if ReservedBits(word) {
      halt, why := mandatory, Reserved;
      return;
    }
    var from := at;
    if HiddenBit(word) {
      NoReserved(word);
      var vector := p.keys(s);
      var ok := false;
      if vector.Has? {
        ok := DecryptAvp(p.f, vector.keys, buf, at);
      }
      if !ok {
        halt, why := mandatory, BadHidden;
        return;
      }
      from := at + 2;
    }
    halt, why, used, s' := HandOverInPlace(p, buf, from, Length(word), s);
  }

  function AheadAll<S>(used: seq<nat>, o: Outcome<S>): Outcome<S> {
    if o.Accepted? then o.(used := used + o.used) else o
  }

  lemma AheadOneMore<S>(used: seq<nat>, n: nat, o: Outcome<S>)
    ensures AheadAll(used, Ahead(n, o)) == AheadAll(used + [n], o)
  {
    if o.Accepted? {
      assert used + ([n] + o.used) == (used + [n]) + o.used;
    }
  }

  /** `handle_avps` on the `total` bytes of AVPs at `start`, which does not check that a
      whole header is left; the caller has to know that the walk stays in the buffer. */
  method HandleAvps<S>(p: Peer<S>, buf: array<byte>, start: nat, total: int, s0: S) returns (o: Outcome<S>)
    requires total > 0 ==> start + total <= buf.Length
    requires Walk(p, buf[..], start, total, true, s0) != Overrun
    modifies buf
    ensures o == Walk(p, old(buf[..]), start, total, true, s0)
  {
    hide Checked, SwapHeader;
    var at: nat, len, first, s, used: seq<nat> := start, total, true, s0, [];
    while len > 0
      invariant len > 0 ==> at + len <= buf.Length
      invariant Walk(p, old(buf[..]), start, total, true, s0) == AheadAll(used, Walk(p, buf[..], at, len, first, s))
      decreases len
    {
      SwapInPlace(buf, at);
      var halt, why, n;
      halt, why, n, s := Turn(p, buf, at, len, first, s);
      if halt {
        return Rejected(why, s);
      }
      if n == 0 {
        break;
      }
      AheadOneMore(used, n, Walk(p, buf[..], at + n, len - n, false, s));
      at, len, first, used := at + n, len - n, false, used + [n];
    }
    if len != 0 {
      return Rejected(LeftOver, s);
    }
    return Accepted(s, used);
  }
}
