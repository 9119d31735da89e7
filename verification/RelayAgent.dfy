/** The relay's packet handlers, working on the packet buffer and on the session
    table in memory, proved against the functions of `RelayDiscovery` and
    `RelayFrames`. */
module RelayAgent {
  import opened LinkedLists
  import opened Octets
  import opened RelayTable
  import opened RelayOrder
  import opened RelayHeap
  import opened RelaySessions
  import opened PppoeTags
  import opened RelayDiscovery
  import opened RelayFrames

  const NO_HASH := Hash(NIL, 0, [0, 0, 0, 0, 0, 0], 0, NIL)

  /** Data written over the front of a buffer, seen in its first `n` bytes. */
  lemma {:induction false} WrittenOver(m: bytes, at: nat, data: bytes, n: nat)
    requires at + |data| <= n <= |m|
    ensures Over(m, at, data)[..n] == m[..n][..at] + data + m[..n][at + |data|..]
  {
    assert m[..n][..at] == m[..at] && m[..n][at + |data|..] == m[at + |data|..n];
  }

  class Agent {
    const ifs: seq<Interface>
    const relay: Relay

    constructor (ifs: seq<Interface>, relay: Relay)
      requires ValidConfig(ifs) && relay.Valid() && relay.View().entries == []
      ensures this.ifs == ifs && this.relay == relay && Valid()
    {
      this.ifs, this.relay := ifs, relay;
    }

    /** The relay as it starts up, with its own bucket function. */
    constructor Start(ifs: seq<Interface>, nsess: nat)
      requires ValidConfig(ifs) && 1 <= nsess <= 65534
      ensures this.ifs == ifs && Valid() && fresh(relay)
      ensures relay.View() == Empty(nsess) && relay.bucketOf == RELAY_BUCKETING
    {
      this.ifs := ifs;
      relay := new Relay(nsess, RELAY_BUCKETING);
    }

    ghost predicate Valid()
      reads relay, relay.sesLinks, relay.sessions, relay.hashLinks, relay.hashes, relay.buckets
    {
      ValidConfig(ifs) && relay.Valid() && IfacesOk(relay.View(), |ifs|)
    }

    /** `relayHandlePADI`; the packet keeps the tag that was added to it. */
    method HandlePADI(i: nat, f: Frame, pkt: PacketBuffer) returns (outs: seq<Out>)
      requires ValidConfig(ifs) && i < |ifs| && pkt.Valid() && pkt.length <= ETH_JUMBO_LEN && pkt.Contents() == f.payload
      modifies pkt`length, pkt.payload
      ensures outs == Padi(ifs, i, f)
    {
      outs := [];
      if !ifs[i].clientOK {
        return;
      }
      if f.src[0] % 2 != 0 || f.dst != [255, 255, 255, 255, 255, 255] {
        return;
      }
      var loc := pkt.FindTagIn(TAG_RELAY_SESSION_ID);
      if loc != -1 {
        return;
      }
      ghost var was := pkt.Contents();
      var tag := EncodeTag(TAG_RELAY_SESSION_ID, RelayData(i, f.src));
      var r := pkt.InsertBytes(0, tag);
      if r < 0 {
        return;
      }
      assert was[..0] + tag + was[0..] == tag + was;
      var p := pkt.payload[..pkt.length];
      ghost var g := f.(payload := p);
      for k := 0 to |ifs|
        invariant outs + Flood(ifs, i, g, k) == Flood(ifs, i, g, 0)
      {
        if k != i && ifs[k].acOK {
          outs := outs + [Out(k, true, f.(src := ifs[k].mac, payload := p))];
        }
      }
    }

    /** The common part of `relayHandlePADO`, `relayHandlePADR` and `relayHandlePADS`:
        where the relay tag sits and where it points, or -1. */
    method LookUpTarget(i: nat, f: Frame, pkt: PacketBuffer, toClient: bool)
      returns (loc: int, k: int, mac: Mac)
      requires ValidConfig(ifs) && i < |ifs| && pkt.Valid() && pkt.length <= ETH_JUMBO_LEN
      requires pkt.Contents() == f.payload
      ensures k == -1 <==> Target(ifs, i, f, toClient).None?
      ensures k != -1 ==>
                && Target(ifs, i, f, toClient) == Some(k) && loc == FindTag(f.payload, TAG_RELAY_SESSION_ID)
                && mac == DataMac(RelayTag(f.payload).value)
                && loc + TAG_HDR_SIZE + MY_RELAY_TAG_LEN <= pkt.length && 0 <= loc
    {
      hide FindFrom, FindTag;
      loc, k, mac := -1, -1, f.dst;
      if (toClient && !ifs[i].acOK) || (!toClient && !ifs[i].clientOK) {
        return;
      }
      if f.dst != ifs[i].mac {
        return;
      }
      loc := pkt.FindTagIn(TAG_RELAY_SESSION_ID);
      if loc == -1 {
        return;
      }
      if (pkt.payload[loc + 2] as int) * 256 + pkt.payload[loc + 3] != MY_RELAY_TAG_LEN {
        return;
      }
      var d := pkt.payload[loc + TAG_HDR_SIZE..loc + TAG_HDR_SIZE + MY_RELAY_TAG_LEN];
      assert d == TagData(f.payload, loc);
      var n := DataIface(d);
      if n >= |ifs| || n == i || (toClient && !ifs[n].clientOK) || (!toClient && !ifs[n].acOK) {
        return;
      }
      k, mac := n, DataMac(d);
    }

    /** `relayHandlePADO` and `relayHandlePADR`. */
    method HandleTurn(i: nat, f: Frame, pkt: PacketBuffer, toClient: bool) returns (outs: seq<Out>)
      requires ValidConfig(ifs) && i < |ifs| && pkt.Valid() && pkt.length <= ETH_JUMBO_LEN
      requires pkt.Contents() == f.payload
      modifies pkt.payload
      ensures outs == if toClient then Pado(ifs, i, f) else Padr(ifs, i, f)
    {
      hide Target, RelayTag, FindTag, FindFrom, DataMac, RelayData;
      outs := [];
      if (toClient && f.src == [255, 255, 255, 255, 255, 255]) || (!toClient && f.src[0] % 2 != 0) {
        return;
      }
      var loc, k, mac := LookUpTarget(i, f, pkt, toClient);
      if k == -1 {
        return;
      }
      ghost var was, data := pkt.payload[..], RelayData(i, f.src);
      CopyInto(pkt.payload, loc + TAG_HDR_SIZE, RelayData(i, f.src));
      var q := pkt.payload[..pkt.length];
      WrittenOver(was, loc + TAG_HDR_SIZE, data, pkt.length);
      outs := [Out(k, true, f.(dst := mac, src := ifs[k].mac, payload := q))];
    }

    /** The session a key belongs to and the hash entry of its other end. */
    method LookUpPeer(f: Frame) returns (s: int, q: Hash, ghost k: nat)
      requires Valid()
      ensures s == NIL <==> Find(relay.View().entries, f.src, f.session).Nowhere?
      ensures s != NIL ==>
                var r := Find(relay.View().entries, f.src, f.session);
                var to := EndpointOf(relay.View().entries[r.k], Other(r.side));
                && k == r.k && k < |relay.shape.active| && s == relay.shape.active[k]
                && Endpoint(q.iface, q.peerMac, q.sesNum) == to && to.iface < |ifs|
    {
      hide Find, Ok, NewestFirst;
      var sh := relay.FindSession(f.src, f.session);
      k := 0;
      if sh == NIL {
        return NIL, NO_HASH, 0;
      }
      ghost var r := Find(relay.View().entries, f.src, f.session);
      PeerOf(relay.bucketOf, relay.Memory(), relay.shape, r.k, r.side);
      s := relay.hashes[sh].ses;
      q := relay.hashes[relay.hashes[sh].peer];
      k := r.k;
    }

    /** `relayGotSessionPacket`. */
    method GotSessionPacket(i: nat, f: Frame, epoch: nat) returns (outs: seq<Out>)
      requires Valid() && i < |ifs|
      modifies relay.sessions
      ensures Valid() && (relay.View(), outs) == RelaySession(old(relay.View()), ifs, i, f, epoch)
    {
      outs := [];
      if f.code != CODE_SESS || f.dst != ifs[i].mac {
        return;
      }
      var s, q;
      ghost var k;
      s, q, k := LookUpPeer(f);
      if s == NIL {
        return;
      }
      relay.Touch(s, k, epoch);
      outs := [Passed(f, ifs, Endpoint(q.iface, q.peerMac, q.sesNum))];
    }

    /** `relayHandlePADT`. */
    method HandlePADT(i: nat, f: Frame) returns (outs: seq<Out>)
      requires Valid() && i < |ifs|
      modifies relay, relay.sesLinks, relay.hashLinks, relay.buckets
      ensures Valid() && (relay.View(), outs) == RelayPadt(old(relay.View()), ifs, i, f)
    {
      outs := [];
      if f.dst != ifs[i].mac {
        return;
      }
      var s, q;
      ghost var k;
      s, q, k := LookUpPeer(f);
      if s == NIL {
        return;
      }
      outs := [Passed(f, ifs, Endpoint(q.iface, q.peerMac, q.sesNum))];
      relay.FreeSession(s, k);
    }

    /** The relay's number for the session that owns hash entry `sh`. */
    method NumberOf(sh: nat, ghost mac: Mac, ghost ses: u16) returns (num: u16)
      requires Valid() && sh < relay.hashes.Length
      requires var r := Find(relay.View().entries, mac, ses);
               r.Found? && r.k < |relay.shape.active| && relay.shape.active[r.k] == relay.hashes[sh].ses
      ensures num == ClientSes(relay.View().entries[Find(relay.View().entries, mac, ses).k])
    {
      hide Find, NewestFirst, HashesOk, PairsOk, Key;
      ghost var r := Find(relay.View().entries, mac, ses);
      ActiveFacts(relay.bucketOf, relay.Memory(), relay.shape, r.k);
      num := relay.sessions[relay.hashes[sh].ses].sesNum;
    }

    /** Opens a session and returns the relay's number for it; -1 when there is no slot. */
    method OpenSession(p: Params) returns (num: int)
      requires relay.Valid()
      modifies relay, relay.sesLinks, relay.sessions, relay.hashLinks, relay.hashes, relay.buckets
      ensures relay.Valid() && relay.View() == Opened(old(relay.View()), p)
      ensures if old(relay.View()).free == [] then num == -1
              else num >= 0 && num == ClientSes(relay.View().entries[0])
    {
      var s := relay.CreateSession(p);
      if s == NIL {
        return -1;
      }
      ActiveFacts(relay.bucketOf, relay.Memory(), relay.shape, 0);
      num := relay.sessions[s].sesNum;
    }

    /** The session a confirmation is about, found or opened; -1 when there is no slot. */
    method BindSession(k: nat, i: nat, f: Frame, cliMac: Mac, epoch: nat) returns (num: int)
      requires Valid() && i < |ifs| && k < |ifs|
      modifies relay, relay.sesLinks, relay.sessions, relay.hashLinks, relay.hashes, relay.buckets
      ensures Valid()
      ensures var b := Bind(old(relay.View()), k, i, f, cliMac, epoch);
              relay.View() == b.0 && (if num == -1 then b.1 == None else num >= 0 && b.1 == Some(num))
    {
      var sh := relay.FindSession(f.src, f.session);
      if sh != NIL {
        num := NumberOf(sh, f.src, f.session);
      } else {
        num := OpenSession(Params(epoch, i, k, f.src, cliMac, f.session));
      }
    }

    /** The two error frames when no session could be allocated. */
    method RefuseSession(i: nat, k: nat, mac: Mac, f: Frame, pkt: PacketBuffer) returns (outs: seq<Out>)
      requires i < |ifs| && k < |ifs| && pkt.Valid() && pkt.length <= ETH_JUMBO_LEN && pkt.Contents() == f.payload
      ensures outs == ErrorFrame(CODE_PADS, 0, ifs, k, mac, HostUniq(f.payload))
                      + ErrorFrame(CODE_PADT, f.session, ifs, i, f.src, [])
    {
      hide ErrorFrame, EncodeTag, FindTag, FindFrom;
      var hu := pkt.FindTagIn(TAG_HOST_UNIQ);
      var hostUniq: bytes := [];
      if hu != -1 {
        var n := (pkt.payload[hu + 2] as int) * 256 + pkt.payload[hu + 3];
        assert n == Word(f.payload, hu + 2);
        hostUniq := pkt.payload[hu..hu + TAG_HDR_SIZE + n];
        assert hostUniq == pkt.Contents()[hu..hu + TAG_HDR_SIZE + n];
      }
      assert hostUniq == HostUniq(f.payload);
      outs := ErrorFrame(CODE_PADS, 0, ifs, k, mac, hostUniq)
           + ErrorFrame(CODE_PADT, f.session, ifs, i, f.src, []);
    }

    /** The tag goes out of the packet and the packet to the client. */
    method ConfirmSession(loc: nat, k: nat, mac: Mac, session: u16, f: Frame, pkt: PacketBuffer) returns (out: Out)
      requires k < |ifs| && pkt.Valid() && pkt.length <= ETH_JUMBO_LEN && pkt.Contents() == f.payload
      requires RelayTag(f.payload).Some? && loc == FindTag(f.payload, TAG_RELAY_SESSION_ID)
      modifies pkt`length, pkt.payload
      ensures out == Out(k, true, f.(dst := mac, src := ifs[k].mac, session := session,
                                     payload := Stripped(f.payload)))
    {
      var r := pkt.RemoveBytes(loc, MY_RELAY_TAG_LEN + TAG_HDR_SIZE);
      out := Out(k, true, f.(dst := mac, src := ifs[k].mac, session := session,
                             payload := pkt.payload[..pkt.length]));
    }

    /** `relayHandlePADS`. */
    method HandlePADS(i: nat, f: Frame, pkt: PacketBuffer, epoch: nat) returns (outs: seq<Out>)
      requires Valid() && i < |ifs| && pkt.Valid() && pkt.length <= ETH_JUMBO_LEN && pkt.Contents() == f.payload
      modifies relay, relay.sesLinks, relay.sessions, relay.hashLinks, relay.hashes, relay.buckets
      modifies pkt`length, pkt.payload
      ensures Valid() && (relay.View(), outs) == Pads(old(relay.View()), ifs, i, f, epoch)
    {
      hide Target, RelayTag, FindFrom, FindTag, DataMac, ErrorFrame, HostUniq;
      outs := [];
      if f.src[0] % 2 != 0 {
        return;
      }
      var loc, k, mac := LookUpTarget(i, f, pkt, true);
      if k == -1 {
        return;
      }
      var session := f.session;
      if session != 0 {
        var num := BindSession(k, i, f, mac, epoch);
        if num == -1 {
          outs := RefuseSession(i, k, mac, f, pkt);
          return;
        }
        session := num;
      }
      var out := ConfirmSession(loc, k, mac, session, f, pkt);
      outs := [out];
    }

    /** The switch of `relayGotDiscoveryPacket` on a packet whose header was accepted. */
    method GotDiscoveryPacket(i: nat, f: Frame, pkt: PacketBuffer, epoch: nat) returns (outs: seq<Out>)
      requires Valid() && i < |ifs| && pkt.Valid() && pkt.length <= ETH_JUMBO_LEN && pkt.Contents() == f.payload
      modifies relay, relay.sesLinks, relay.sessions, relay.hashLinks, relay.hashes, relay.buckets
      modifies pkt`length, pkt.payload
      ensures Valid() && (relay.View(), outs) == RelayPacket(old(relay.View()), ifs, i, f, epoch)
    {
      hide Padi, Pado, Padr, Pads, RelayPadt;
      outs := [];
      if f.code == CODE_PADT {
        outs := HandlePADT(i, f);
      } else if f.code == CODE_PADI {
        outs := HandlePADI(i, f, pkt);
      } else if f.code == CODE_PADO {
        outs := HandleTurn(i, f, pkt, true);
      } else if f.code == CODE_PADR {
        outs := HandleTurn(i, f, pkt, false);
      } else if f.code == CODE_PADS {
        outs := HandlePADS(i, f, pkt, epoch);
      }
    }

    /** The cleaning pass of `relayLoop`, when there is an idle timeout. */
    method CleanIdle(now: nat, idleTimeout: nat) returns (sent: seq<Padt>)
      requires Valid()
      modifies relay, relay.sesLinks, relay.hashLinks, relay.buckets
      ensures Valid() && relay.View() == CleanFrom(old(relay.View()), 0, now, idleTimeout)
      ensures sent == Notices(Select(old(relay.View()).entries, true, now, idleTimeout))
    {
      CleanKeepsIfaces(relay.View(), 0, now, idleTimeout, |ifs|);
      sent := relay.CleanSessions(now, idleTimeout);
    }
  }
}
