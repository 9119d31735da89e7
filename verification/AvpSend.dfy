/** The `add_*_avp` builders, by the shape of the value they write, and the
    handlers' reading of the same values. */
module AvpSend {
  import opened Octets
  import opened AvpHiding
  import opened AvpWalk
  import opened AvpMessage

  const VENDOR_ID: u16 := 0

  /** `ntohs` of the half-words behind the header. */
  function ReadShort(value: bytes): u16
    requires |value| >= 2
  {
    ReadBig(value, 0)
  }

  function ReadSecond(value: bytes): u16
    requires |value| >= 4
  {
    ReadBig(value, 2)
  }

  /** The two half-words put together, as for serial number, speeds and channel. */
  function ReadLong(value: bytes): u32
    requires |value| >= 4
  {
    ReadShort(value) * 0x1_0000 + ReadSecond(value)
  }

  function LongValue(x: u32): bytes { Big(x / 0x1_0000) + Big(x % 0x1_0000) }

  /** A 32-bit field split by its builder is put together again by its handler. */
  lemma LongRoundTrip(x: u32)
    ensures ReadLong(LongValue(x)) == x
  {
    ReadOfBig(x / 0x1_0000);
    ReadOfBig(x % 0x1_0000);
    assert LongValue(x)[..2] == Big(x / 0x1_0000) && LongValue(x)[2..] == Big(x % 0x1_0000);
  }

  lemma ReadOfBig(x: u16)
    ensures ReadBig(Big(x), 0) == x
  {
  }

  /** The bearer and framing handlers look at the second half-word only: they get
      the value that was written exactly when it fits in 16 bits. */
  lemma LowHalfOnly(x: u32)
    ensures ReadSecond(LongValue(x)) == x <==> x < 0x1_0000
  {
    ReadOfBig(x % 0x1_0000);
    assert LongValue(x)[2..] == Big(x % 0x1_0000);
  }

  function Flag(mandatory: bool): Flags { if mandatory then 8 else 0 }

  /** The AVP a builder appends. */
  function Built(mandatory: bool, attr: u16, value: bytes): Avp { Avp(Flag(mandatory), VENDOR_ID, attr, value) }

  const STOPCCN: u16 := 4
  const VECTOR_SIZE: nat := 16

  /** The AVPs of a StopCCN; the random vector only where hiding is on. */
  function StopAvps(tid: u16, result: u16, error: u16, text: bytes, vector: bytes): (avps: seq<Avp>)
    requires 10 + |text| <= MAXAVPSIZE && (vector == [] || |vector| == VECTOR_SIZE)
    ensures AllSendable(avps) && avps != [] && avps[0].attr == 0
  {
    [Built(true, 0, Big(STOPCCN))] + (if vector == [] then [] else [Built(true, 36, vector)])
    + [Built(true, 9, Big(tid)), Built(true, 1, Big(result) + Big(error) + text)]
  }

  lemma OneMore(avps: seq<Avp>, a: Avp)
    requires AllSendable(avps) && Sendable(a, 0)
    ensures AllSendable(avps + [a]) && PlainWires(avps + [a]) == PlainWires(avps) + PlainWire(a)
  {
    assert (avps + [a])[..|avps|] == avps;
  }

  lemma NoneYet()
    ensures AllSendable([]) && PlainWires([]) == []
  {
  }

  /** A StopCCN, from builder to handlers: every reader is handed its AVPs in order,
      with the values that were put in, even if it fills the buffer. */
  lemma StopIsHandled<S>(p: Peer<S>, m: bytes, at: nat, tid: u16, result: u16, error: u16, text: bytes,
                         vector: bytes, s: S)
    requires 10 + |text| <= MAXAVPSIZE && (vector == [] || |vector| == VECTOR_SIZE)
    requires at <= |m| && m[at..] == PlainWires(StopAvps(tid, result, error, text, vector))
    ensures var avps := StopAvps(tid, result, error, text, vector);
            && AllFit(p, Plains(avps), s)
            && Walk(p, m, at, |m| - at, true, s) == DeliverAll(p, Plains(avps), s)
  {
    hide PlainWires, Plains, DeliverAll, Walk, Big, AllFit, AllSendable;
    BuiltIsHandled(p, m, at, StopAvps(tid, result, error, text, vector), s);
  }

  /** `struct buffer` of an outgoing packet. */
  class Packet {
    const start: array<byte>
    var len: nat

    constructor (size: nat)
      ensures fresh(start) && start.Length == size && len == 0
    {
      start := new byte[size](_ => 0);
      len := 0;
    }

    ghost predicate Valid()
      reads this
    {
      len <= start.Length
    }

    ghost function Contents(): bytes
      reads this, start
      requires Valid()
    {
      start[..len]
    }

    /** `add_header` and `add_nonmandatory_header`: they write, but do not advance. */
    method AddHeader(mandatory: bool, length: nat, attr: u16)
      requires Valid() && length <= MAXAVPSIZE && len + AVP_HDR <= start.Length
      modifies start
      ensures Valid()
      ensures start[..] == Over(old(start[..]), len, BigHeader(Word(Flag(mandatory), length), VENDOR_ID, attr))
    {
      hide Word, Big;
      HeaderInSteps(start[..], len, Big(Word(Flag(mandatory), length)), Big(VENDOR_ID), Big(attr));
      CopyInto(start, len, Big(Word(Flag(mandatory), length)));
      CopyInto(start, len + 2, Big(VENDOR_ID));
      CopyInto(start, len + 4, Big(attr));
    }

    /** A whole AVP: header, value, advance. */
    method AddAvp(mandatory: bool, attr: u16, value: bytes)
      requires Valid() && attr <= AVP_MAX && AVP_HDR + |value| <= MAXAVPSIZE
      requires len + AVP_HDR + |value| <= start.Length
      modifies this`len, start
      ensures Valid() && Contents() == old(Contents()) + PlainWire(Built(mandatory, attr, value))
    {
      hide BigHeader, Word;
      ghost var was := start[..];
      ghost var head := BigHeader(Word(Flag(mandatory), AVP_HDR + |value|), VENDOR_ID, attr);
      AddHeader(mandatory, AVP_HDR + |value|, attr);
      CopyInto(start, len + AVP_HDR, value);
      AppendInSteps(was, len, head, value);
      len := len + AVP_HDR + |value|;
    }

    /** Message type, protocol version, firmware, tunnel id, window size, call id, processing delay. */
    method AddShortAvp(mandatory: bool, attr: u16, x: u16)
      requires Valid() && attr <= AVP_MAX && len + 8 <= start.Length
      modifies this`len, start
      ensures Valid() && Contents() == old(Contents()) + PlainWire(Built(mandatory, attr, Big(x)))
      ensures ReadShort(Big(x)) == x
    {
      ReadOfBig(x);
      AddAvp(mandatory, attr, Big(x));
    }

    /** Serial number, bearer, framing, speeds, physical channel, bit rates. */
    method AddLongAvp(mandatory: bool, attr: u16, x: u32)
      requires Valid() && attr <= AVP_MAX && len + 10 <= start.Length
      modifies this`len, start
      ensures Valid() && Contents() == old(Contents()) + PlainWire(Built(mandatory, attr, LongValue(x)))
      ensures ReadLong(LongValue(x)) == x
    {
      LongRoundTrip(x);
      AddAvp(mandatory, attr, Big(x / 0x1_0000) + Big(x % 0x1_0000));
    }

    /** Result code: two half-words and a message. */
    method AddResultCode(result: u16, error: u16, text: bytes)
      requires Valid() && 10 + |text| <= MAXAVPSIZE && len + 10 + |text| <= start.Length
      modifies this`len, start
      ensures Valid()
      ensures var value := Big(result) + Big(error) + text;
              && Contents() == old(Contents()) + PlainWire(Built(true, 1, value))
              && ReadShort(value) == result && ReadSecond(value) == error && value[4..] == text
    {
      ReadOfBig(result);
      ReadOfBig(error);
      AddAvp(true, 1, Big(result) + Big(error) + text);
    }

    /** The AVPs of a StopCCN. */
    method AddStopCcn(tid: u16, result: u16, error: u16, text: bytes, vector: bytes)
      requires Valid() && 10 + |text| <= MAXAVPSIZE && (vector == [] || |vector| == VECTOR_SIZE)
      requires len + 8 + (if vector == [] then 0 else AVP_HDR + VECTOR_SIZE) + 8 + 10 + |text| <= start.Length
      modifies this`len, start
      ensures Valid()
      ensures Contents() == old(Contents()) + PlainWires(StopAvps(tid, result, error, text, vector))
    {
      hide PlainWires, PlainWire, AllSendable, Big;
      ghost var was, avps := Contents(), [];
      NoneYet();
      assert was + [] == was;
      AddShortAvp(true, 0, STOPCCN);
      avps := Grown(was, avps, Built(true, 0, Big(STOPCCN)), Contents());
      if vector != [] {
        AddAvp(true, 36, vector);
        avps := Grown(was, avps, Built(true, 36, vector), Contents());
      }
      AddShortAvp(true, 9, tid);
      avps := Grown(was, avps, Built(true, 9, Big(tid)), Contents());
      AddResultCode(result, error, text);
      avps := Grown(was, avps, Built(true, 1, Big(result) + Big(error) + text), Contents());
      assert avps == StopAvps(tid, result, error, text, vector);
    }

    /** Host name, cut to what an AVP can hold. */
    method AddHostName(name: bytes)
      requires Valid() && len + MAXAVPSIZE <= start.Length
      modifies this`len, start
      ensures Valid()
      ensures var cut := if |name| > MAXAVPSIZE - AVP_HDR then name[..MAXAVPSIZE - AVP_HDR] else name;
              Contents() == old(Contents()) + PlainWire(Built(true, 7, cut))
    {
      var n := |name|;
      if n > MAXAVPSIZE - AVP_HDR {
        n := MAXAVPSIZE - AVP_HDR;
      }
      assert n == |name| ==> name[..n] == name;
      AddAvp(true, 7, name[..n]);
    }
  }

  /** One more AVP behind those already built. */
  lemma Grown(was: bytes, avps: seq<Avp>, a: Avp, now: bytes) returns (r: seq<Avp>)
    requires AllSendable(avps) && Sendable(a, 0) && now == (was + PlainWires(avps)) + PlainWire(a)
    ensures r == avps + [a] && AllSendable(r) && now == was + PlainWires(r)
  {
    hide PlainWires, PlainWire;
    r := avps + [a];
    OneMore(avps, a);
    assert (was + PlainWires(avps)) + PlainWire(a) == was + (PlainWires(avps) + PlainWire(a));
  }

  lemma HeaderInSteps(m: bytes, at: nat, a: bytes, b: bytes, c: bytes)
    requires |a| == |b| == |c| == 2 && at + 6 <= |m|
    ensures Over(Over(Over(m, at, a), at + 2, b), at + 4, c) == Over(m, at, a + b + c)
  {
    var m1 := Over(m, at, a);
    assert m1[..at + 2] == m[..at] + a && m1[at + 2..] == m[at + 2..];
    var m2 := Over(m1, at + 2, b);
    assert m2[..at + 4] == m[..at] + (a + b) && m2[at + 4..] == m[at + 4..];
    assert m[..at] + (a + b) + c == m[..at] + (a + b + c);
  }

  lemma AppendInSteps(m: bytes, at: nat, head: bytes, value: bytes)
    requires |head| == AVP_HDR && at + AVP_HDR + |value| <= |m|
    ensures Over(Over(m, at, head), at + AVP_HDR, value)[..at + AVP_HDR + |value|] == m[..at] + (head + value)
  {
    var m1 := Over(m, at, head);
    assert m1[..at + AVP_HDR] == m[..at] + head;
    assert m[..at] + head + value == m[..at] + (head + value);
  }
}
