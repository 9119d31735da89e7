/** Numbering and acceptance of control packets on one L2TP tunnel
    (section 5.8 of RFC 2661): the headers that are written, the test every
    received control packet must pass, zero-length bodies (ZLBs) and the
    retransmission decision. */
module ControlTunnel {
  import opened Octets

  const HDR_LEN: nat := 12
  const MAX_RECV_SIZE: nat := 4096
  const VER_L2TP: nat := 2

  /** The version word of a control header. */
  datatype Version = Version(tbit: bool, lbit: bool, fbit: bool, ver: nat)

  const OUR_VERSION := Version(true, true, true, VER_L2TP)

  /** A control packet: the header fields the channel reads, and the AVP bytes. */
  datatype Packet = Packet(version: Version, length: nat, ns: u16, nr: u16, body: seq<int>) {
    predicate IsZlb() { body == [] }
  }

  /** A body that fits a `MAX_RECV_SIZE` buffer and is not a ZLB. */
  predicate IsMessage(body: seq<int>) { 0 < |body| <= MAX_RECV_SIZE - HDR_LEN }

  /** The tunnel fields that the channel reads and writes. */
  datatype Channel = Channel(seqNum: u16, recSeqNum: u16, cLr: int, tid: int, sanity: bool)

  /** The flags of the call a control packet is addressed to. */
  datatype CallFlags = CallFlags(cnu: bool, needclose: bool, closing: bool, closeSs: u16)

  /** `zlb` is what is sent on the spot. */
  datatype Check = Check(ok: bool, t: Channel, c: CallFlags, zlb: seq<Packet>)

  function Inc(n: u16): u16 { (n + 1) % 65536 }

  function Dec(n: u16): u16 { (n + 65535) % 65536 }

  function Header(t: Channel, body: seq<int>): Packet {
    Packet(OUR_VERSION, (HDR_LEN + |body|) % 65536, t.seqNum, t.recSeqNum, body)
  }

  /** A number the receiver has already passed, as the receiver judges it. The
      second disjunct is int arithmetic and never holds. */
  predicate IsOld(ns: u16, expected: u16) {
    (ns < expected && expected - ns < 32768) || (ns > expected && expected - ns > 32768)
  }

  predicate VersionOk(v: Version) { v.tbit && v.lbit && v.fbit && v.ver == VER_L2TP }

  function CheckControl(t: Channel, c: CallFlags, p: Packet): Check {
    if HDR_LEN + |p.body| != p.length then Check(false, t, c, [])
    else if p.ns != t.recSeqNum then
      if IsOld(p.ns, t.recSeqNum) then
        Check(false, t, c, if p.IsZlb() then [] else [Header(t, [])])
      else if t.recSeqNum == 0 && t.tid == -1 then
        Check(false, t, c.(needclose := false, closing := true), [])
      else Check(false, t, c, [])
    else
      Check(!t.sanity || VersionOk(p.version),
            t.(recSeqNum := Inc(t.recSeqNum), cLr := p.nr), c.(cnu := true), [])
  }

  /** The receive count is advanced before the version word is looked at: a ZLB of the
      right length and number with a bad version word is refused without its number
      being given back. */
  predicate Miscounted(t: Channel, p: Packet) {
    p.length == HDR_LEN && p.ns == t.recSeqNum && t.sanity && !VersionOk(p.version)
  }

  /** Such a ZLB, and the message that is lost to it: the next one with that number counts as old. */
  lemma BadVersionZlbCounts(c: CallFlags, body: seq<int>)
    requires IsMessage(body)
    ensures var t := Channel(0, 0, 0, 1, true);
            var zlb := Packet(Version(true, true, true, 3), HDR_LEN, 0, 0, []);
            var after := HandleControl(t, c, zlb);
            && !after.ok && after.t.recSeqNum == 1
            && !HandleControl(after.t, after.c, Header(Channel(0, 0, 0, 1, true), body)).ok
  {
    assert IsOld(0, 1);
  }

  /** What one received packet does up to the point where its AVPs are looked at. */
  function HandleControl(t: Channel, c: CallFlags, p: Packet): (r: Check)
    ensures p.IsZlb() ==>
              (r.t.seqNum == t.seqNum && r.t.recSeqNum == t.recSeqNum <==> !Miscounted(t, p))
  {
    var k := CheckControl(t, c, p);
    if k.ok && p.IsZlb() then
      k.(t := k.t.(recSeqNum := Dec(k.t.recSeqNum)),
         c := k.c.(cnu := false,
                   needclose := k.c.needclose && !(k.c.closing && k.t.cLr >= k.c.closeSs)))
    else k
  }

  datatype XmitAction = Toss | GiveUp | Transmit(delay: nat)

  /** `retries` is the count after the increment at the head of `control_xmit`. */
  function Xmit(ns: u16, cLr: int, retries: nat, maxRetries: nat): XmitAction
    requires retries > 0
  {
    if ns < cLr then Toss
    else if retries > maxRetries then GiveUp
    else Transmit(Pow2(if retries - 1 > 31 then 31 else retries - 1))
  }

  class Call {
    var cnu: bool
    var needclose: bool
    var closing: bool
    var closeSs: u16

    ghost function View(): CallFlags reads this { CallFlags(cnu, needclose, closing, closeSs) }
  }

  class Tunnel {
    var controlSeqNum: u16
    var controlRecSeqNum: u16
    var cLr: int
    var tid: int
    var sanity: bool

    ghost function View(): Channel reads this {
      Channel(controlSeqNum, controlRecSeqNum, cLr, tid, sanity)
    }

    method AddControlHdr(body: seq<int>) returns (p: Packet)
      modifies this`controlSeqNum
      ensures p == Header(old(View()), body)
      ensures View() == old(View()).(seqNum := Inc(old(controlSeqNum)))
    {
      p := Packet(OUR_VERSION, (HDR_LEN + |body|) % 65536, controlSeqNum, controlRecSeqNum, body);
      controlSeqNum := (controlSeqNum + 1) % 65536;
    }

    /** The header is written as for any packet, then the number is taken back. */
    method ControlZlb() returns (p: Packet)
      modifies this`controlSeqNum
      ensures p == Header(View(), []) && View() == old(View())
    {
      p := AddControlHdr([]);
      controlSeqNum := (controlSeqNum + 65535) % 65536;
    }

    method CheckControlPacket(p: Packet, c: Call) returns (ok: bool, zlb: seq<Packet>)
      modifies this, c
      ensures Check(ok, View(), c.View(), zlb) == CheckControl(old(View()), old(c.View()), p)
    {
      zlb := [];
      if HDR_LEN + |p.body| != p.length {
        return false, [];
      }
      if p.ns != controlRecSeqNum {
        if (p.ns < controlRecSeqNum && controlRecSeqNum - p.ns < 32768)
           || (p.ns > controlRecSeqNum && controlRecSeqNum - p.ns > 32768)
        {
          if p.body != [] {
            var z := ControlZlb();
            zlb := [z];
          }
        } else if controlRecSeqNum == 0 && tid == -1 {
          c.needclose := false;
          c.closing := true;
        }
        return false, zlb;
      }
      controlRecSeqNum := (controlRecSeqNum + 1) % 65536;
      c.cnu := true;
      cLr := p.nr;
      ok := true;
      if sanity {
        ok := p.version.tbit && p.version.lbit && p.version.fbit && p.version.ver == VER_L2TP;
      }
    }

    method HandleControlPacket(p: Packet, c: Call) returns (ok: bool, zlb: seq<Packet>)
      modifies this, c
      ensures Check(ok, View(), c.View(), zlb) == HandleControl(old(View()), old(c.View()), p)
    {
      ok, zlb := CheckControlPacket(p, c);
      if ok && p.body == [] {
        controlRecSeqNum := (controlRecSeqNum + 65535) % 65536;
        c.cnu := false;
        if c.needclose && c.closing {
          if cLr >= c.closeSs {
            c.needclose := false;
          }
        }
      }
    }
  }
}
