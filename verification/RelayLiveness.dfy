/** How long the relay keeps a session: exactly until a PADT from one of its ends, or
    the first cleaning pass that comes too long after the last frame it relayed. */
module RelayLiveness {
  import opened Octets
  import opened RelayTable
  import opened RelayOrder
  import opened RelayHeap
  import opened RelaySessions
  import opened PppoeTags
  import opened RelayDiscovery
  import opened RelayFrames

  // ------------------------------------------------------- what concerns a session

  /** The frame has the address and the number of one of the session's two ends. */
  predicate From(e: Entry, f: Frame) {
    || (f.src == e.acMac && f.session == e.acSes)
    || (f.src == e.cliMac && f.session == (e.id + 1) % 65536)
  }

  /** One of its ends sends a session frame to the relay. */
  predicate Spoken(e: Entry, ifs: seq<Interface>, x: Input)
    requires OnInterface(ifs, x)
  {
    x.SessionFrame? && x.f.code == 0 && x.f.dst == ifs[x.i].mac && From(e, x.f)
  }

  /** One of its ends sends the relay a PADT, or a cleaning pass finds it idle for longer
      than the timeout, on an unsigned 32-bit clock. */
  predicate Ended(e: Entry, ifs: seq<Interface>, x: Input)
    requires OnInterface(ifs, x)
  {
    || (x.DiscoveryPacket? && x.f.code == 0xA7 && x.f.dst == ifs[x.i].mac && From(e, x.f))
    || (x.Cleaning? && (x.now - e.epoch) % 0x1_0000_0000 > x.idle)
  }

  /** The session with the time of its last frame. */
  function Heard(e: Entry, ifs: seq<Interface>, x: Input): Entry
    requires OnInterface(ifs, x)
  {
    if Spoken(e, ifs, x) then e.(epoch := x.epoch) else e
  }

  // ------------------------------------------------------------- one input

  lemma FromKey(es: seq<Entry>, k: nat, f: Frame)
    requires UniqueKeys(es) && k < |es|
    ensures var r := Find(es, f.src, f.session);
            From(es[k], f) <==> r.Found? && r.k == k
  {
    if f.src == es[k].acMac && f.session == es[k].acSes {
      assert Key(es[k], AcSide) == (f.src, f.session);
      UniqueFind(es, k, AcSide);
    } else if f.src == es[k].cliMac && f.session == ClientSes(es[k]) {
      assert Key(es[k], ClientSide) == (f.src, f.session);
      UniqueFind(es, k, ClientSide);
    }
  }

  lemma {:induction false} SelectMembers(es: seq<Entry>, stale: bool, now: nat, idle: nat, e: Entry)
    ensures e in Select(es, stale, now, idle) <==> e in es && Stale(e, now, idle) == stale
  {
    hide Stale;
    if es != [] {
      SelectMembers(es[1..], stale, now, idle, e);
    }
  }

  /** A cleaning pass removes a session if and only if it was idle for longer than the timeout. */
  lemma CleaningMembers(t: Table, now: nat, idle: nat, e: Entry)
    ensures e in CleanFrom(t, 0, now, idle).entries <==>
              e in t.entries && (now - e.epoch) % 0x1_0000_0000 <= idle
  {
    hide CleanFrom, Select;
    CleaningIsExact(t, 0, now, idle);
    assert t.entries[..0] == [] && t.entries[0..] == t.entries;
    SelectMembers(t.entries, false, now, idle, e);
  }

  lemma ClosedMembers(t: Table, j: nat, k: nat)
    requires SlotsOk(t) && j < |t.entries| && k < |t.entries|
    ensures if j == k then forall e :: e in Closed(t, j).entries ==> e.id != t.entries[k].id
            else t.entries[k] in Closed(t, j).entries
  {
    var es := Closed(t, j).entries;
    forall i | 0 <= i < |es| ensures es[i] == t.entries[if i < j then i else i + 1] {}
    if j != k {
      assert es[if k < j then k else k - 1] == t.entries[k];
    }
  }

  /** No two sessions have one slot. */
  lemma OneSlot(t: Table, e: Entry, e': Entry)
    requires SlotsOk(t) && e in t.entries && e' in t.entries && e.id == e'.id
    ensures e == e'
  {
  }

  /** What an input does to one session of the table: it ends it, leaving no session in
      its slot, or it leaves it there, with the input's time if it is one of its frames. */
  lemma InputEndsExactly(t: Table, ifs: seq<Interface>, x: Input, e: Entry)
    requires ValidConfig(ifs) && OnInterface(ifs, x) && IfacesOk(t, |ifs|)
    requires SlotsOk(t) && UniqueKeys(t.entries) && e in t.entries
    ensures var es := After(t, ifs, x).entries;
            if Ended(e, ifs, x) then forall e' :: e' in es ==> e'.id != e.id else Heard(e, ifs, x) in es
  {
    InputIsOp(t, ifs, x);
    var k: nat :| k < |t.entries| && t.entries[k] == e;
    match x
    case Cleaning(now, idle) =>
      hide CleanFrom, UniqueKeys;
      forall e' | e' in CleanFrom(t, 0, now, idle).entries && e'.id == e.id ensures e' == e && !Ended(e, ifs, x) {
        CleaningMembers(t, now, idle, e');
        OneSlot(t, e, e');
      }
      CleaningMembers(t, now, idle, e);
    case SessionFrame(i, f, epoch) => FrameTouches(t, ifs, x, k);
    case DiscoveryPacket(i, f, epoch) => PacketCloses(t, ifs, x, k);
  }

  lemma FrameTouches(t: Table, ifs: seq<Interface>, x: Input, k: nat)
    requires OnInterface(ifs, x) && x.SessionFrame? && UniqueKeys(t.entries) && k < |t.entries|
    ensures |Applied(t, OpOf(t, ifs, x)).entries| == |t.entries|
    ensures Applied(t, OpOf(t, ifs, x)).entries[k] == Heard(t.entries[k], ifs, x)
  {
    FromKey(t.entries, k, x.f);
    hide Find, UniqueKeys, From;
  }

  lemma PacketCloses(t: Table, ifs: seq<Interface>, x: Input, k: nat)
    requires OnInterface(ifs, x) && x.DiscoveryPacket? && SlotsOk(t) && UniqueKeys(t.entries) && k < |t.entries|
    ensures var es := Applied(t, OpOf(t, ifs, x)).entries;
            if Ended(t.entries[k], ifs, x) then forall e :: e in es ==> e.id != t.entries[k].id else t.entries[k] in es
  {
    FromKey(t.entries, k, x.f);
    hide Find, UniqueKeys, From, NamedClient, SlotsOk, Closed, Target;
    var op := OpOf(t, ifs, x);
    if op.Some? && op.value.Close? && op.value.k < |t.entries| {
      ClosedMembers(t, op.value.k, k);
    }
  }

  /** Ended, a session is reached by neither key. */
  lemma GoneFromKeys(t: Table, ifs: seq<Interface>, x: Input, e: Entry)
    requires ValidConfig(ifs) && OnInterface(ifs, x) && IfacesOk(t, |ifs|)
    requires SlotsOk(t) && UniqueKeys(t.entries) && e in t.entries && Ended(e, ifs, x)
    ensures var t' := After(t, ifs, x);
            Forward(t', e.acMac, e.acSes) == None && Forward(t', e.cliMac, (e.id + 1) % 65536) == None
  {
    InputEndsExactly(t, ifs, x, e);
    var t' := After(t, ifs, x);
    forall e' | e' in t'.entries ensures e' in t.entries && e' != e { NothingNew(t, ifs, x, e'); }
    forall side: Side ensures Find(t'.entries, Key(e, side).0, Key(e, side).1).Nowhere? {
      KeyGone(t.entries, t'.entries, e, side);
    }
    assert Key(e, AcSide) == (e.acMac, e.acSes) && Key(e, ClientSide) == (e.cliMac, ClientSes(e));
  }

  /** A PADT or a cleaning pass adds nothing. */
  lemma NothingNew(t: Table, ifs: seq<Interface>, x: Input, e: Entry)
    requires ValidConfig(ifs) && OnInterface(ifs, x) && IfacesOk(t, |ifs|) && e in After(t, ifs, x).entries
    requires x.Cleaning? || (x.DiscoveryPacket? && x.f.code == CODE_PADT)
    ensures e in t.entries
  {
    InputIsOp(t, ifs, x);
    hide Find;
    if x.Cleaning? {
      CleaningMembers(t, x.now, x.idle, e);
    }
  }

  lemma KeyGone(es: seq<Entry>, es': seq<Entry>, e: Entry, side: Side)
    requires UniqueKeys(es) && e in es && forall e' :: e' in es' ==> e' in es && e' != e
    ensures Find(es', Key(e, side).0, Key(e, side).1).Nowhere?
  {
    hide Key;
    var j: nat :| j < |es| && es[j] == e;
    forall e', s: Side | e' in es' ensures Key(e', s) != Key(e, side) {
      var i: nat :| i < |es| && es[i] == e';
    }
  }

  // ------------------------------------------------------------- whole runs

  /** The session after the inputs `ys`, with the time of the last frame of its ends. */
  function LastHeard(e: Entry, ifs: seq<Interface>, ys: seq<Input>): (r: Entry)
    requires AllOnInterfaces(ifs, ys)
  {
    if ys == [] then e
    else Heard(LastHeard(e, ifs, ys[..|ys| - 1]), ifs, ys[|ys| - 1])
  }

  /** None of the inputs `ys` ends the session, which was last heard of as `e` says. */
  predicate Lives(e: Entry, ifs: seq<Interface>, ys: seq<Input>)
    requires AllOnInterfaces(ifs, ys)
  {
    ys == [] || (Lives(e, ifs, ys[..|ys| - 1]) && !Ended(LastHeard(e, ifs, ys[..|ys| - 1]), ifs, ys[|ys| - 1]))
  }

  /** The inputs up to and including the `ys`. */
  lemma Joined(isAc: Mac -> bool, ifs: seq<Interface>, xs: seq<Input>, ys: seq<Input>)
    requires ys != [] && AllOnInterfaces(ifs, xs + ys) && Apart(isAc, ifs, xs + ys)
    ensures var zs := ys[..|ys| - 1];
            && (xs + ys)[..|xs + ys| - 1] == xs + zs && (xs + ys)[|xs + ys| - 1] == ys[|ys| - 1]
            && AllOnInterfaces(ifs, xs + zs) && AllOnInterfaces(ifs, zs) && AllOnInterfaces(ifs, ys)
            && Apart(isAc, ifs, xs + zs) && OnInterface(ifs, ys[|ys| - 1])
  {
    var zs := ys[..|ys| - 1];
    assert (xs + ys)[..|xs + ys| - 1] == xs + zs;
    forall j | 0 <= j < |ys| ensures OnInterface(ifs, ys[j]) { assert ys[j] == (xs + ys)[|xs| + j]; }
    forall j | 0 <= j < |xs + zs| ensures (xs + zs)[j] == (xs + ys)[j] {}
  }

  /** A session in the table stays there, with the time of its last frame, over any
      further inputs that do not end it. */
  lemma {:induction false} LivingIsKept(isAc: Mac -> bool, n: nat, ifs: seq<Interface>, xs: seq<Input>, ys: seq<Input>,
                                        e: Entry)
    requires n <= 65534 && ValidConfig(ifs) && AllOnInterfaces(ifs, xs) && AllOnInterfaces(ifs, ys)
    requires AllOnInterfaces(ifs, xs + ys) && Apart(isAc, ifs, xs + ys)
    requires e in Relayed(n, ifs, xs).entries && Lives(e, ifs, ys)
    ensures LastHeard(e, ifs, ys) in Relayed(n, ifs, xs + ys).entries
  {
    hide Apart, Heard, Ended, After, IfacesOk, SlotsOk, UniqueKeys, MacsOk, Involutive, AllOnInterfaces;
    if ys == [] {
      assert xs + ys == xs;
    } else {
      var zs, y := ys[..|ys| - 1], ys[|ys| - 1];
      Joined(isAc, ifs, xs, ys);
      LivingIsKept(isAc, n, ifs, xs, zs, e);
      ApartRunKeeps(isAc, n, ifs, xs + zs);
      InputEndsExactly(Relayed(n, ifs, xs + zs), ifs, y, LastHeard(e, ifs, zs));
    }
  }

  lemma {:induction false} SameStation(e: Entry, ifs: seq<Interface>, ys: seq<Input>)
    requires AllOnInterfaces(ifs, ys)
    ensures LastHeard(e, ifs, ys) == e.(epoch := LastHeard(e, ifs, ys).epoch)
  {
    hide Spoken;
    if ys != [] {
      SameStation(e, ifs, ys[..|ys| - 1]);
    }
  }

  /** As long as nothing ends a session both its ends are relayed to each other, under
      their own numbers; the first input that ends it leaves neither of them relayed. */
  lemma SessionLivesExactly(isAc: Mac -> bool, n: nat, ifs: seq<Interface>, xs: seq<Input>, ys: seq<Input>, e: Entry)
    requires n <= 65534 && ValidConfig(ifs) && AllOnInterfaces(ifs, xs) && AllOnInterfaces(ifs, ys)
    requires AllOnInterfaces(ifs, xs + ys) && Apart(isAc, ifs, xs + ys)
    requires e in Relayed(n, ifs, xs).entries && (ys == [] || Lives(e, ifs, ys[..|ys| - 1]))
    ensures var t := Relayed(n, ifs, xs + ys);
            var there, back := Forward(t, e.cliMac, (e.id + 1) % 65536), Forward(t, e.acMac, e.acSes);
            if Lives(e, ifs, ys) then
              && there == Some(Endpoint(e.ac, e.acMac, e.acSes))
              && back == Some(Endpoint(e.cli, e.cliMac, (e.id + 1) % 65536))
            else there == None && back == None
  {
    hide Apart, Heard, Ended, After, IfacesOk, SlotsOk, UniqueKeys, MacsOk, Involutive, AllOnInterfaces, Forward;
    SameStation(e, ifs, ys);
    if Lives(e, ifs, ys) {
      LivingIsKept(isAc, n, ifs, xs, ys, e);
      ApartRunKeeps(isAc, n, ifs, xs + ys);
      EntryIsRelayed(Relayed(n, ifs, xs + ys), LastHeard(e, ifs, ys));
    } else {
      var zs, y := ys[..|ys| - 1], ys[|ys| - 1];
      Joined(isAc, ifs, xs, ys);
      LivingIsKept(isAc, n, ifs, xs, zs, e);
      ApartRunKeeps(isAc, n, ifs, xs + zs);
      SameStation(e, ifs, zs);
      GoneFromKeys(Relayed(n, ifs, xs + zs), ifs, y, LastHeard(e, ifs, zs));
    }
  }

  /** Without any assumption on the table: the sender of a relayed frame is relayed to
      the same place after every cleaning pass within the timeout. */
  lemma ActivityKeepsAlive(t: Table, ifs: seq<Interface>, i: nat, f: Frame, epoch: nat, now: nat, idle: nat)
    requires ValidConfig(ifs) && i < |ifs| && IfacesOk(t, |ifs|) && RelaySession(t, ifs, i, f, epoch).1 != []
    requires (now - epoch) % 0x1_0000_0000 <= idle
    ensures var t1 := After(t, ifs, SessionFrame(i, f, epoch));
            && IfacesOk(t1, |ifs|) && Forward(t, f.src, f.session).Some?
            && Forward(After(t1, ifs, Cleaning(now, idle)), f.src, f.session) == Forward(t, f.src, f.session)
  {
    InputKeepsIfaces(t, ifs, SessionFrame(i, f, epoch));
    var t1, r := After(t, ifs, SessionFrame(i, f, epoch)), Find(t.entries, f.src, f.session);
    TouchedIsFound(t, r.k, epoch, f.src, f.session);
    hide Find, CleanFrom, IfacesOk;
    assert Find(t1.entries, f.src, f.session) == r;
    KeptByCleaning(t1, now, idle, f.src, f.session);
  }

  lemma KeptByCleaning(t: Table, now: nat, idle: nat, mac: Mac, ses: u16)
    requires var r := Find(t.entries, mac, ses); r.Found? && !Stale(t.entries[r.k], now, idle)
    ensures Forward(CleanFrom(t, 0, now, idle), mac, ses) == Forward(t, mac, ses)
  {
    hide Find, Stale, CleanFrom, Select;
    CleaningIsExact(t, 0, now, idle);
    var kept := Select(t.entries, false, now, idle);
    assert t.entries[..0] == [] && t.entries[0..] == t.entries && [] + kept == kept;
    FoundAmongKept(t.entries, now, idle, mac, ses);
  }

  lemma TouchedIsFound(t: Table, k: nat, epoch: nat, mac: Mac, ses: u16)
    requires k < |t.entries|
    ensures Find(Touched(t, k, epoch).entries, mac, ses) == Find(t.entries, mac, ses)
  {
    var es := Touched(t, k, epoch).entries;
    forall j, x | 0 <= j < |t.entries| ensures Key(es[j], x) == Key(t.entries[j], x) {}
    FindIgnoresEpoch(t.entries, es, mac, ses);
  }

  /** The newest session with a key is still the newest one when idle ones are gone. */
  lemma {:induction false} FoundAmongKept(es: seq<Entry>, now: nat, idle: nat, mac: Mac, ses: u16)
    requires var r := Find(es, mac, ses); r.Found? && !Stale(es[r.k], now, idle)
    ensures var r, kept := Find(es, mac, ses), Select(es, false, now, idle);
            var r' := Find(kept, mac, ses);
            r'.Found? && r'.side == r.side && kept[r'.k] == es[r.k]
  {
    hide Stale, Key;
    if Find(es, mac, ses).k > 0 {
      FoundAmongKept(es[1..], now, idle, mac, ses);
    }
    assert !Stale(es[0], now, idle) ==> Select(es, false, now, idle)[1..] == Select(es[1..], false, now, idle);
  }

  // --------------------------------------------------------------- what is sent

  /** Of a relayed frame only the addresses and the session number are new. */
  lemma OnlyAddressesChange(t: Table, ifs: seq<Interface>, i: nat, f: Frame, epoch: nat, o: Out)
    requires i < |ifs| && IfacesOk(t, |ifs|) && o in RelaySession(t, ifs, i, f, epoch).1
    ensures o.iface < |ifs| && o.frame == Frame(o.frame.dst, ifs[o.iface].mac, 0, o.frame.session, f.payload)
    ensures Forward(t, f.src, f.session) == Some(Endpoint(o.iface, o.frame.dst, o.frame.session)) && !o.discovery
  {
    hide Find;
  }

  /** A PADT of one end is passed on to the other under its own number, and the session
      is over for both. */
  lemma PadtEndsBoth(t: Table, ifs: seq<Interface>, i: nat, f: Frame, epoch: nat, e: Entry)
    requires ValidConfig(ifs) && i < |ifs| && IfacesOk(t, |ifs|) && SlotsOk(t) && UniqueKeys(t.entries)
    requires e in t.entries && From(e, f) && f.code == 0xA7 && f.dst == ifs[i].mac
    ensures var (t', outs) := RelayPacket(t, ifs, i, f, epoch);
            && Forward(t', e.acMac, e.acSes) == None && Forward(t', e.cliMac, (e.id + 1) % 65536) == None
            && |outs| == 1 && outs[0].iface < |ifs| && outs[0].frame.src == ifs[outs[0].iface].mac
            && outs[0].frame.code == 0xA7 && outs[0].frame.payload == f.payload
            && (outs[0].iface, outs[0].frame.dst, outs[0].frame.session) ==
                 if f.src == e.acMac && f.session == e.acSes then (e.cli, e.cliMac, (e.id + 1) % 65536)
                 else (e.ac, e.acMac, e.acSes)
  {
    GoneFromKeys(t, ifs, DiscoveryPacket(i, f, epoch), e);
    EntryIsRelayed(t, e);
    hide UniqueKeys, SlotsOk, Find, Closed;
  }

  /** The notices of a cleaning pass are the two ends of the idle sessions, and no others. */
  lemma NoticesAreTheEnds(t: Table, now: nat, idle: nat, o: Padt)
    ensures o in Notices(Select(t.entries, true, now, idle)) <==>
              exists e :: && e in t.entries && (now - e.epoch) % 0x1_0000_0000 > idle
                          && (o == Padt(e.ac, e.acMac, e.acSes) || o == Padt(e.cli, e.cliMac, (e.id + 1) % 65536))
  {
    var es := Select(t.entries, true, now, idle);
    NoticeOf(es, o);
    hide Select, Notices;
    forall e ensures e in es <==> e in t.entries && (now - e.epoch) % 0x1_0000_0000 > idle {
      SelectMembers(t.entries, true, now, idle, e);
    }
  }

  lemma {:induction false} NoticeOf(es: seq<Entry>, o: Padt)
    ensures o in Notices(es) <==>
              exists e :: e in es && (o == Padt(e.ac, e.acMac, e.acSes) || o == Padt(e.cli, e.cliMac, (e.id + 1) % 65536))
  {
    if es != [] {
      NoticeOf(es[1..], o);
      assert forall e :: e in es <==> e == es[0] || e in es[1..];
    }
  }

  /** A confirmation that opens a session puts it into the table with the time it came,
      in the slot that is next, between the two stations it is about. */
  lemma OpenedIsEntered(t: Table, ifs: seq<Interface>, a: nat, c: nat, pads: Frame, epoch: nat)
    requires ValidConfig(ifs) && a < |ifs| && IfacesOk(t, |ifs|) && pads.code == CODE_PADS
    requires Unicast(pads.src) && pads.session != 0 && Target(ifs, a, pads, true) == Some(c)
    requires Forward(t, pads.src, pads.session) == None && t.free != []
    ensures var e := Entry(t.free[0], a, c, pads.src, DataMac(RelayTag(pads.payload).value), pads.session, epoch);
            After(t, ifs, DiscoveryPacket(a, pads, epoch)) == t.(entries := [e] + t.entries, free := t.free[1..])
  {
    InputIsOp(t, ifs, DiscoveryPacket(a, pads, epoch));
    hide Find, RelayTag, FindTag, Target;
  }

  lemma EntryIsRelayed(t: Table, e: Entry)
    requires UniqueKeys(t.entries) && e in t.entries
    ensures Forward(t, e.cliMac, (e.id + 1) % 65536) == Some(Endpoint(e.ac, e.acMac, e.acSes))
    ensures Forward(t, e.acMac, e.acSes) == Some(Endpoint(e.cli, e.cliMac, (e.id + 1) % 65536))
  {
    var k: nat :| k < |t.entries| && t.entries[k] == e;
    UniqueFind(t.entries, k, AcSide);
    UniqueFind(t.entries, k, ClientSide);
    hide UniqueKeys, Find;
  }
}
