/** Relaying of discovery packets: the Relay-Session-Id tag is written on the way
    out and turned round at every hop, so that each answer finds its way back
    (sections 5.1 to 5.4 and Appendix A of RFC 2516). */
module RelayDiscovery {
  import opened Octets
  import opened RelayTable
  import opened RelayOrder
  import opened RelaySessions
  import opened PppoeTags

  const MY_RELAY_TAG_LEN: nat := 10
  const CODE_PADI: nat := 0x09
  const CODE_PADS: nat := 0x65
  const CODE_PADT: nat := 0xA7

  datatype Interface = Interface(mac: Mac, clientOK: bool, acOK: bool)
  datatype Frame = Frame(dst: Mac, src: Mac, code: nat, session: u16, payload: bytes)
  /** A frame sent on an interface, through its discovery or its session socket. */
  datatype Out = Out(iface: nat, discovery: bool, frame: Frame)

  predicate Broadcast(m: Mac) { m == [255, 255, 255, 255, 255, 255] }

  /** The tag value: a native (little-endian) 32-bit interface index, then a MAC. */
  function RelayData(iface: nat, mac: Mac): (d: bytes)
    requires iface < 256
    ensures |d| == MY_RELAY_TAG_LEN
  {
    [iface, 0, 0, 0] + mac
  }

  function DataIface(d: bytes): nat
    requires |d| == MY_RELAY_TAG_LEN
  {
    (d[0] as int) + 256 * (d[1] as int) + 65536 * (d[2] as int) + 16777216 * (d[3] as int)
  }

  function DataMac(d: bytes): Mac
    requires |d| == MY_RELAY_TAG_LEN
  {
    d[4..10]
  }

  /** The value of the first relay tag, if the packet has one of our length. */
  function RelayTag(p: bytes): Option<bytes> {
    var loc := FindTag(p, TAG_RELAY_SESSION_ID);
    if loc == -1 || Word(p, loc + 2) != MY_RELAY_TAG_LEN then None else Some(TagData(p, loc))
  }

  predicate ValidConfig(ifs: seq<Interface>) { 2 <= |ifs| <= 8 }

  // ---------------------------------------------------------------- handlers

  function Flood(ifs: seq<Interface>, i: nat, f: Frame, k: nat): seq<Out>
    requires k <= |ifs|
    decreases |ifs| - k
  {
    if k == |ifs| then []
    else if k == i || !ifs[k].acOK then Flood(ifs, i, f, k + 1)
    else [Out(k, true, f.(src := ifs[k].mac))] + Flood(ifs, i, f, k + 1)
  }

  function Padi(ifs: seq<Interface>, i: nat, f: Frame): seq<Out>
    requires ValidConfig(ifs) && i < |ifs|
  {
    if !ifs[i].clientOK || !Unicast(f.src) || !Broadcast(f.dst) then []
    else if FindTag(f.payload, TAG_RELAY_SESSION_ID) != -1 then []
    else if |f.payload| + TAG_HDR_SIZE + MY_RELAY_TAG_LEN > MAX_PPPOE_PAYLOAD then []
    else
      var tag := EncodeTag(TAG_RELAY_SESSION_ID, RelayData(i, f.src));
      Flood(ifs, i, f.(payload := tag + f.payload), 0)
  }

  /** Where the relay tag sends a packet received on interface `i`: the interface
      it names, provided it is another one that may have that kind of station. */
  function Target(ifs: seq<Interface>, i: nat, f: Frame, toClient: bool): (r: Option<nat>)
    requires i < |ifs|
    ensures r.Some? ==> r.value < |ifs| && r.value != i && RelayTag(f.payload).Some?
  {
    if (if toClient then !ifs[i].acOK else !ifs[i].clientOK) || f.dst != ifs[i].mac then None
    else match RelayTag(f.payload)
      case None => None
      case Some(d) =>
        var k := DataIface(d);
        if k >= |ifs| || k == i || !(if toClient then ifs[k].clientOK else ifs[k].acOK) then None
        else Some(k)
  }

  /** The relay tag now names the station the packet came from. */
  function Turned(p: bytes, i: nat, src: Mac): bytes
    requires i < 256 && RelayTag(p).Some?
  {
    var at := FindTag(p, TAG_RELAY_SESSION_ID) + TAG_HDR_SIZE;
    p[..at] + RelayData(i, src) + p[at + MY_RELAY_TAG_LEN..]
  }

  function Turn(ifs: seq<Interface>, i: nat, f: Frame, toClient: bool): seq<Out>
    requires ValidConfig(ifs) && i < |ifs|
  {
    match Target(ifs, i, f, toClient)
    case None => []
    case Some(k) =>
      [Out(k, true, f.(dst := DataMac(RelayTag(f.payload).value), src := ifs[k].mac,
                       payload := Turned(f.payload, i, f.src)))]
  }

  function Pado(ifs: seq<Interface>, i: nat, f: Frame): seq<Out>
    requires ValidConfig(ifs) && i < |ifs|
  {
    if Broadcast(f.src) then [] else Turn(ifs, i, f, true)
  }

  function Padr(ifs: seq<Interface>, i: nat, f: Frame): seq<Out>
    requires ValidConfig(ifs) && i < |ifs|
  {
    if !Unicast(f.src) then [] else Turn(ifs, i, f, false)
  }

  /** The Generic-Error text, byte for byte. */
  const ERROR_TEXT: bytes := [82, 80, 45, 80, 80, 80, 111, 69, 58, 32, 82, 101, 108, 97, 121, 58, 32,
    85, 110, 97, 98, 108, 101, 32, 116, 111, 32, 97, 108, 108, 111, 99, 97, 116, 101, 32,
    115, 101, 115, 115, 105, 111, 110]

  /** `relaySendError`; `hostUniq` is a whole tag or empty. */
  function ErrorFrame(code: nat, session: u16, ifs: seq<Interface>, k: nat, mac: Mac, hostUniq: bytes): seq<Out>
    requires k < |ifs|
  {
    var payload := EncodeTag(TAG_GENERIC_ERROR, ERROR_TEXT) + hostUniq;
    if |payload| > MAX_PPPOE_PAYLOAD then []
    else [Out(k, code == CODE_PADT, Frame(mac, ifs[k].mac, code, session, payload))]
  }

  function HostUniq(p: bytes): bytes {
    var loc := FindTag(p, TAG_HOST_UNIQ);
    if loc == -1 then [] else p[loc..loc + TAG_HDR_SIZE + Word(p, loc + 2)]
  }

  /** The session a PADS is about, opened if it is new; the last component is the
      number the client is given, or `None` when no slot is left. */
  function Bind(t: Table, k: nat, i: nat, f: Frame, cliMac: Mac, epoch: nat): (Table, Option<u16>) {
    match Find(t.entries, f.src, f.session)
    case Found(j, _) => (t, Some(ClientSes(t.entries[j])))
    case Nowhere =>
      if t.free == [] then (t, None)
      else
        var t' := Opened(t, Params(epoch, i, k, f.src, cliMac, f.session));
        (t', Some(ClientSes(t'.entries[0])))
  }

  function Stripped(p: bytes): bytes
    requires RelayTag(p).Some?
  {
    Cut(p, FindTag(p, TAG_RELAY_SESSION_ID), TAG_HDR_SIZE + MY_RELAY_TAG_LEN)
  }

  function Pads(t: Table, ifs: seq<Interface>, i: nat, f: Frame, epoch: nat): (Table, seq<Out>)
    requires ValidConfig(ifs) && i < |ifs|
  {
    if !Unicast(f.src) then (t, []) else
    match Target(ifs, i, f, true)
    case None => (t, [])
    case Some(k) =>
      var mac := DataMac(RelayTag(f.payload).value);
      var out := f.(dst := mac, src := ifs[k].mac, payload := Stripped(f.payload));
      if f.session == 0 then (t, [Out(k, true, out)])
      else
        var b := Bind(t, k, i, f, mac, epoch);
        match b.1
        case None =>
          (t, ErrorFrame(CODE_PADS, 0, ifs, k, mac, HostUniq(f.payload))
              + ErrorFrame(CODE_PADT, f.session, ifs, i, f.src, []))
        case Some(num) => (b.0, [Out(k, true, out.(session := num))])
  }

  // ----------------------------------------------------------- one hop at a time

  lemma RelayTagAfterPrepend(p: bytes, d: bytes)
    requires |d| == MY_RELAY_TAG_LEN && |p| + TAG_HDR_SIZE + MY_RELAY_TAG_LEN <= MAX_PPPOE_PAYLOAD
    ensures RelayTag(EncodeTag(TAG_RELAY_SESSION_ID, d) + p) == Some(d)
  {
    var q := EncodeTag(TAG_RELAY_SESSION_ID, d) + p;
    assert Word(q, 0) == TAG_RELAY_SESSION_ID && Word(q, 2) == MY_RELAY_TAG_LEN;
    assert FindTag(q, TAG_RELAY_SESSION_ID) == 0;
    assert TagData(q, 0) == d;
  }

  /** Turning keeps the packet's layout: only the ten value bytes differ. */
  lemma TurnedKeepsLayout(p: bytes, i: nat, src: Mac)
    requires i < 256 && RelayTag(p).Some?
    ensures RelayTag(Turned(p, i, src)) == Some(RelayData(i, src)) && |Turned(p, i, src)| == |p|
    ensures var loc := FindTag(p, TAG_RELAY_SESSION_ID);
            forall j :: 0 <= j < |p| && !(loc + TAG_HDR_SIZE <= j < loc + TAG_HDR_SIZE + MY_RELAY_TAG_LEN) ==>
              Turned(p, i, src)[j] == p[j]
  {
    var loc, p' := FindTag(p, TAG_RELAY_SESSION_ID), Turned(p, i, src);
    FindAfterRewrite(p, p', TAG_RELAY_SESSION_ID, 0, loc);
    assert TagData(p', loc) == RelayData(i, src);
  }

  lemma DataRoundTrip(i: nat, mac: Mac)
    requires i < 256
    ensures DataIface(RelayData(i, mac)) == i && DataMac(RelayData(i, mac)) == mac
  {
  }

  lemma {:induction false} FloodMembers(ifs: seq<Interface>, i: nat, f: Frame, k: nat, o: Out)
    requires k <= |ifs|
    ensures o in Flood(ifs, i, f, k) <==>
              && k <= o.iface < |ifs| && o.iface != i && ifs[o.iface].acOK
              && o == Out(o.iface, true, f.(src := ifs[o.iface].mac))
    decreases |ifs| - k
  {
    if k < |ifs| {
      FloodMembers(ifs, i, f, k + 1, o);
    }
  }

  // ------------------------------------------------------------- the main result

  /** A client on interface `c` and an access concentrator on interface `a`. */
  ghost predicate Stations(ifs: seq<Interface>, c: nat, cm: Mac, a: nat, am: Mac) {
    && ValidConfig(ifs) && c < |ifs| && a < |ifs| && c != a && ifs[c].clientOK && ifs[a].acOK
    && Unicast(cm) && Unicast(am)
  }

  /** A PADI reaches every other interface that may have an access concentrator,
      each copy tagged with the client it came from. */
  lemma PadiNamesTheClient(ifs: seq<Interface>, c: nat, cm: Mac, f: Frame, o: Out)
    requires ValidConfig(ifs) && c < |ifs| && f.src == cm && o in Padi(ifs, c, f)
    ensures o.iface != c && o.iface < |ifs| && ifs[o.iface].acOK && o.frame.src == ifs[o.iface].mac
    ensures RelayTag(o.frame.payload) == Some(RelayData(c, cm))
    ensures o.frame.payload[TAG_HDR_SIZE + MY_RELAY_TAG_LEN..] == f.payload
  {
    RelayTagAfterPrepend(f.payload, RelayData(c, cm));
    var tag := EncodeTag(TAG_RELAY_SESSION_ID, RelayData(c, cm));
    FloodMembers(ifs, c, f.(payload := tag + f.payload), 0, o);
  }

  /** An answer that echoes the tag naming station (`k`, `mac`) goes there and
      nowhere else, and carries a tag that names the station it came from. */
  lemma TurnFindsTheWay(ifs: seq<Interface>, i: nat, f: Frame, k: nat, mac: Mac, toClient: bool)
    requires ValidConfig(ifs) && i < |ifs| && k < |ifs| && k != i && f.dst == ifs[i].mac
    requires if toClient then ifs[i].acOK && ifs[k].clientOK else ifs[i].clientOK && ifs[k].acOK
    requires RelayTag(f.payload) == Some(RelayData(k, mac))
    ensures Target(ifs, i, f, toClient) == Some(k)
    ensures Turn(ifs, i, f, toClient) ==
              [Out(k, true, f.(dst := mac, src := ifs[k].mac, payload := Turned(f.payload, i, f.src)))]
    ensures RelayTag(Turned(f.payload, i, f.src)) == Some(RelayData(i, f.src))
  {
    DataRoundTrip(k, mac);
    TurnedKeepsLayout(f.payload, i, f.src);
  }

  /** After a PADS no relay tag is left, unless the packet had a second one. */
  lemma StrippedHasNoTag(p: bytes)
    requires RelayTag(p).Some?
    ensures var loc := FindTag(p, TAG_RELAY_SESSION_ID);
            FindTag(Stripped(p), TAG_RELAY_SESSION_ID) == -1 <==>
              FindFrom(p, TAG_RELAY_SESSION_ID, loc + TAG_HDR_SIZE + MY_RELAY_TAG_LEN) == -1
  {
    FindAfterRemoval(p, TAG_RELAY_SESSION_ID, FindTag(p, TAG_RELAY_SESSION_ID), TAG_HDR_SIZE + MY_RELAY_TAG_LEN);
  }

  /** A packet with two relay tags keeps the second. */
  lemma SecondTagStays(d: bytes, e: bytes)
    requires |d| == |e| == MY_RELAY_TAG_LEN
    ensures var p := EncodeTag(TAG_RELAY_SESSION_ID, d) + EncodeTag(TAG_RELAY_SESSION_ID, e);
            && RelayTag(p) == Some(d) && Stripped(p) == EncodeTag(TAG_RELAY_SESSION_ID, e)
            && RelayTag(Stripped(p)) == Some(e)
  {
    var tag, rest := EncodeTag(TAG_RELAY_SESSION_ID, d), EncodeTag(TAG_RELAY_SESSION_ID, e);
    RelayTagAfterPrepend(rest, d);
    RelayTagAfterPrepend([], e);
    assert rest + [] == rest;
    FirstTag(rest, d);
    assert Stripped(tag + rest) == rest;
  }

  lemma FirstTag(p: bytes, d: bytes)
    requires |d| == MY_RELAY_TAG_LEN && |p| + TAG_HDR_SIZE + MY_RELAY_TAG_LEN <= MAX_PPPOE_PAYLOAD
    ensures FindTag(EncodeTag(TAG_RELAY_SESSION_ID, d) + p, TAG_RELAY_SESSION_ID) == 0
  {
    var q := EncodeTag(TAG_RELAY_SESSION_ID, d) + p;
    assert Word(q, 0) == TAG_RELAY_SESSION_ID && Word(q, 2) == MY_RELAY_TAG_LEN;
  }

  /** `reply` is sent by `src` in answer to `o` and echoes its relay tag; its other
      tags are its own business. */
  ghost predicate Answers(reply: Frame, o: Out, src: Mac) {
    && reply.src == src && reply.dst == o.frame.src
    && RelayTag(reply.payload) == RelayTag(o.frame.payload)
  }

  /** The session found under the concentrator's key is that of the client `cm` on interface `c`. */
  predicate Bound(t: Table, am: Mac, session: u16, c: nat, cm: Mac) {
    match Find(t.entries, am, session)
    case Nowhere => false
    case Found(k, _) =>
      var e := t.entries[k];
      e.acMac == am && e.acSes == session && e.cli == c && e.cliMac == cm
  }

  /** What a PADS does that names client (`c`, `cm`): an error is passed on; without a
      slot both ends are told; otherwise the client is given the number of the
      session under the concentrator's key, opened if there was none. The client is
      bound to that session if and only if the key was not in use or the session was
      already the client's: a concentrator that reuses the number of a session held
      for another client gets the new client connected to nothing. */
  ghost predicate Confirmed(t: Table, ifs: seq<Interface>, a: nat, c: nat, cm: Mac, pads: Frame, epoch: nat)
    requires ValidConfig(ifs) && a < |ifs| && c < |ifs| && RelayTag(pads.payload).Some?
  {
    var (t', confirms) := Pads(t, ifs, a, pads, epoch);
    var am, session := pads.src, pads.session;
    var confirm := Frame(cm, ifs[c].mac, pads.code, session, Stripped(pads.payload));
    if session == 0 then t' == t && confirms == [Out(c, true, confirm)]
    else
      var r := Find(t.entries, am, session);
      if r.Nowhere? && t.free == [] then
        t' == t && confirms == ErrorFrame(CODE_PADS, 0, ifs, c, cm, HostUniq(pads.payload))
                               + ErrorFrame(CODE_PADT, session, ifs, a, am, [])
      else
        var r' := Find(t'.entries, am, session);
        && t' == (if r.Nowhere? then Opened(t, Params(epoch, a, c, am, cm, session)) else t)
        && r'.Found? && confirms == [Out(c, true, confirm.(session := ClientSes(t'.entries[r'.k])))]
        && (Bound(t', am, session, c, cm) <==> r.Nowhere? || Bound(t, am, session, c, cm))
  }

  /** A creation is found again under the concentrator's key, as the client's. */
  lemma OpenedIsBound(t: Table, p: Params)
    requires t.free != []
    ensures Find(Opened(t, p).entries, p.acMac, p.acSes).Found?
    ensures Find(Opened(t, p).entries, p.acMac, p.acSes).k == 0
    ensures Bound(Opened(t, p), p.acMac, p.acSes, p.cli, p.cliMac)
  {
    var e := Opened(t, p).entries[0];
    assert Key(e, AcSide) == (p.acMac, p.acSes);
  }

  /** So it is for every PADS that has a target. */
  lemma PadsConfirms(ifs: seq<Interface>, a: nat, c: nat, t: Table, epoch: nat, pads: Frame)
    requires ValidConfig(ifs) && a < |ifs| && Unicast(pads.src) && Target(ifs, a, pads, true) == Some(c)
    ensures Confirmed(t, ifs, a, c, DataMac(RelayTag(pads.payload).value), pads, epoch)
  {
    var p := Params(epoch, a, c, pads.src, DataMac(RelayTag(pads.payload).value), pads.session);
    hide RelayTag, Stripped, FindTag, FindFrom, Find, Opened, ErrorFrame, HostUniq, Bound;
    if t.free != [] {
      OpenedIsBound(t, p);
    }
  }

  /** The whole exchange, as long as every station echoes the relay tag it was
      given: the offer goes to the client that asked, the request to the
      concentrator that offered, the confirmation back to the client, with the
      effect that `Confirmed` says. */
  lemma DiscoveryRoundTrip(ifs: seq<Interface>, c: nat, cm: Mac, a: nat, am: Mac, t: Table, epoch: nat,
                           padi: Frame, asked: Out, pado: Frame, padr: Frame, pads: Frame)
    requires Stations(ifs, c, cm, a, am) && Answers(pado, asked, am)
    requires padi.src == cm && asked in Padi(ifs, c, padi) && asked.iface == a
    ensures var offers := Pado(ifs, a, pado);
            && |offers| == 1 && offers[0].iface == c && offers[0].frame.dst == cm
            && (Answers(padr, offers[0], cm) ==>
                  var requests := Padr(ifs, c, padr);
                  && |requests| == 1 && requests[0].iface == a && requests[0].frame.dst == am
                  && (Answers(pads, requests[0], am) ==>
                        RelayTag(pads.payload).Some? && Confirmed(t, ifs, a, c, cm, pads, epoch)))
  {
    hide RelayTag, Turned, Padi, Find, FindTag, FindFrom, RelayData, Confirmed;
    PadiNamesTheClient(ifs, c, cm, padi, asked);
    TurnFindsTheWay(ifs, a, pado, c, cm, true);
    DataRoundTrip(c, cm);
    var offer := Pado(ifs, a, pado)[0];
    if Answers(padr, offer, cm) {
      TurnFindsTheWay(ifs, c, padr, a, am, false);
      var request := Padr(ifs, c, padr)[0];
      if Answers(pads, request, am) {
        TurnFindsTheWay(ifs, a, pads, c, cm, true);
        PadsConfirms(ifs, a, c, t, epoch, pads);
      }
    }
  }

  /** What being bound is worth: the concentrator's frames then reach the client under
      the number it was given; and frames of a client under that number reach the
      concentrator's session if and only if the session is held for its MAC. */
  lemma BoundIsConnected(t: Table, am: Mac, session: u16, c: nat, cm: Mac)
    requires UniqueKeys(t.entries) && Find(t.entries, am, session).Found?
    requires Find(t.entries, am, session).side == AcSide
    ensures var e := t.entries[Find(t.entries, am, session).k];
            var there, back := Forward(t, am, session), Forward(t, cm, ClientSes(e));
            && (Bound(t, am, session, c, cm) <==> there == Some(Endpoint(c, cm, ClientSes(e))))
            && (e.cliMac == cm <==> back.Some? && back.value.mac == am && back.value.ses == session)
  {
    var k := Find(t.entries, am, session).k;
    var e := t.entries[k];
    UniqueFind(t.entries, k, ClientSide);
    var r := Find(t.entries, cm, ClientSes(e));
    if r.Found? {
      assert Key(t.entries[r.k], Other(r.side)) == (am, session) ==> r.k == k && Other(r.side) == AcSide;
    }
  }

  /** A confirmation whose key is held by a session opens nothing and is passed on with
      that session's number, whoever it is for; the client it names can use the number
      if and only if the session is the client's. */
  lemma DuplicateConfirmation(ifs: seq<Interface>, a: nat, t: Table, epoch: nat, pads: Frame)
    requires ValidConfig(ifs) && a < |ifs| && pads.session != 0
    requires Find(t.entries, pads.src, pads.session).Found?
    ensures Pads(t, ifs, a, pads, epoch).0 == t
    ensures Unicast(pads.src) && Target(ifs, a, pads, true).Some? ==>
              var outs := Pads(t, ifs, a, pads, epoch).1;
              var r := Find(t.entries, pads.src, pads.session);
              && |outs| == 1 && outs[0].frame.session == ClientSes(t.entries[r.k])
              && outs[0].frame.dst == DataMac(RelayTag(pads.payload).value)
              && (UniqueKeys(t.entries) && r.side == AcSide ==>
                    var to := Forward(t, outs[0].frame.dst, outs[0].frame.session);
                    (to.Some? && to.value.mac == pads.src && to.value.ses == pads.session)
                      <==> outs[0].frame.dst == t.entries[r.k].cliMac)
  {
    hide UniqueKeys, Stripped, FindTag, FindFrom, Find;
    if Unicast(pads.src) && Target(ifs, a, pads, true).Some? && UniqueKeys(t.entries)
       && Find(t.entries, pads.src, pads.session).side == AcSide {
      BoundIsConnected(t, pads.src, pads.session, 0, DataMac(RelayTag(pads.payload).value));
    }
  }

  /** The failing family in one table: the concentrator `Y` confirms session 7 to `Z`
      while the relay holds it for `X`. `Z` is given `X`'s number, which is of no use
      to it, and the concentrator's frames go on to `X`. */
  lemma ReusedNumberMisbinds(ifs: seq<Interface>, code: nat) returns (t: Table, pads: Frame)
    requires |ifs| == 2 && ifs[0].clientOK && ifs[1].acOK
    ensures t == Exec(Empty(2), [Open(Params(0, 1, 0, Y, X, 7))])
    ensures pads.src == Y && pads.session == 7 && Target(ifs, 1, pads, true) == Some(0)
    ensures Pads(t, ifs, 1, pads, 0) == (t, [Out(0, true, Frame(Z, ifs[0].mac, code, 1, []))])
    ensures Forward(t, Z, 1) == None && Forward(t, Y, 7) == Some(Endpoint(0, X, 1))
  {
    t := HeldForX();
    var data := RelayData(0, Z);
    var tag := EncodeTag(TAG_RELAY_SESSION_ID, data);
    pads := Frame(ifs[1].mac, Y, code, 7, tag);
    assert tag + [] == tag;
    RelayTagAfterPrepend([], data);
    DataRoundTrip(0, Z);
    FirstTag([], data);
    assert Stripped(tag) == [];
    hide Find, FindTag, FindFrom, Exec, Empty, RelayTag, Stripped, RelayData, EncodeTag;
    TurnFindsTheWay(ifs, 1, pads, 0, Z, true);
  }

  lemma HeldForX() returns (t: Table)
    ensures t == Exec(Empty(2), [Open(Params(0, 1, 0, Y, X, 7))])
    ensures t == Table(2, [Entry(0, 1, 0, Y, X, 7, 0)], [1])
    ensures Find(t.entries, Y, 7) == Found(0, AcSide) && Find(t.entries, Z, 1) == Nowhere
  {
    var p, e := Params(0, 1, 0, Y, X, 7), Entry(0, 1, 0, Y, X, 7, 0);
    t := Table(2, [e], [1]);
    assert X[5] != Y[5] && Z[5] != Y[5] && X[5] != Z[5];
    assert [Open(p)][..0] == [] && Empty(2) == Table(2, [], [0, 1]);
    assert Exec(Empty(2), [Open(p)]) == Step(Exec(Empty(2), []), Open(p));
    assert [e][1..] == [];
  }
}
