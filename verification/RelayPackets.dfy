/** Discovery packets byte by byte: what a packet's tags are, whatever its payload, and
    what the relay sends on for each code (sections 4 and 5 of RFC 2516). */
module RelayPackets {
  import opened Octets
  import opened RelayTable
  import opened RelayOrder
  import opened RelaySessions
  import opened PppoeTags
  import opened RelayDiscovery
  import opened RelayFrames

  // ------------------------------------------------------------- tags in a payload

  datatype Tag = Tag(ty: u16, data: bytes)

  function TagBytes(tag: Tag): bytes
    requires |tag.data| < 65536
  {
    [tag.ty / 256, tag.ty % 256, |tag.data| / 256, |tag.data| % 256] + tag.data
  }

  predicate Plain(tags: seq<Tag>) { forall i :: 0 <= i < |tags| ==> tags[i].ty != 0 && |tags[i].data| < 65536 }

  function TagsBytes(tags: seq<Tag>): bytes
    requires Plain(tags)
  {
    if tags == [] then [] else TagBytes(tags[0]) + TagsBytes(tags[1..])
  }

  /** Here the tags end: too short for a tag, the end-of-list type, or a length that overruns. */
  predicate EndsTags(rest: bytes) {
    |rest| < 4 || (rest[0] == 0 && rest[1] == 0) || 4 + 256 * (rest[2] as int) + rest[3] > |rest|
  }

  /** Every payload is a list of tags and something that ends it. */
  lemma {:induction false} EveryPayload(p: bytes) returns (tags: seq<Tag>, rest: bytes)
    ensures Plain(tags) && EndsTags(rest) && p == TagsBytes(tags) + rest
  {
    if EndsTags(p) {
      tags, rest := [], p;
    } else {
      var n := 256 * (p[2] as int) + p[3];
      var tag, more := Tag(256 * (p[0] as int) + p[1], p[4..4 + n]), p[4 + n..];
      var others;
      others, rest := EveryPayload(more);
      tags := [tag] + others;
      assert tags[1..] == others && TagBytes(tag) == p[..4 + n];
      assert p == p[..4 + n] + more;
    }
  }

  lemma {:induction false} OneStep(tag: Tag, p: bytes, ty: nat)
    requires tag.ty != 0 && |tag.data| < 65536
    ensures FindFrom(TagBytes(tag) + p, ty, 0) ==
              if tag.ty == ty then 0 else FindFrom(TagBytes(tag) + p, ty, |TagBytes(tag)| + 0)
  {
    var w := TagBytes(tag) + p;
    assert Word(w, 0) == tag.ty && Word(w, 2) == |tag.data|;
  }

  lemma {:induction false} NothingIn(rest: bytes, ty: nat)
    requires EndsTags(rest)
    ensures FindFrom(rest, ty, 0) == -1
  {
  }

  /** `k` is the first tag of this type, or the number of tags if there is none. */
  predicate FirstOf(tags: seq<Tag>, ty: nat, k: nat) {
    k <= |tags| && (k < |tags| ==> tags[k].ty == ty) && forall j :: 0 <= j < k ==> tags[j].ty != ty
  }

  lemma {:induction false} FindsIn(tags: seq<Tag>, rest: bytes, ty: nat, k: nat)
    requires Plain(tags) && EndsTags(rest) && ty != 0 && FirstOf(tags, ty, k)
    ensures FindFrom(TagsBytes(tags) + rest, ty, 0) == if k == |tags| then -1 else |TagsBytes(tags[..k])|
  {
    hide FindFrom, TagBytes, EndsTags;
    var w := TagsBytes(tags) + rest;
    if tags == [] {
      assert w == rest;
      NothingIn(rest, ty);
    } else {
      var head, more := TagBytes(tags[0]), TagsBytes(tags[1..]) + rest;
      assert w == head + more;
      OneStep(tags[0], more, ty);
      if k > 0 {
        FindShifts(more, head, ty, 0);
        FindsIn(tags[1..], rest, ty, k - 1);
        assert tags[..k][0] == tags[0] && tags[1..][..k - 1] == tags[..k][1..];
      }
    }
  }

  lemma {:induction false} TagsConcat(a: seq<Tag>, b: seq<Tag>)
    requires Plain(a) && Plain(b)
    ensures Plain(a + b) && TagsBytes(a + b) == TagsBytes(a) + TagsBytes(b)
  {
    if a == [] {
      assert a + b == b;
    } else {
      TagsConcat(a[1..], b);
      TagsFirst(a);
      assert (a + b)[0] == a[0] && (a + b)[1..] == a[1..] + b;
      PlainBoth(a, b);
      TagsFirst(a + b);
      hide TagBytes, TagsBytes;
      InThree(TagBytes(a[0]), TagsBytes(a[1..]), TagsBytes(b));
    }
  }

  lemma {:induction false} PlainBoth(a: seq<Tag>, b: seq<Tag>)
    requires Plain(a) && Plain(b)
    ensures Plain(a + b)
  {
  }

  lemma {:induction false} TagsFirst(tags: seq<Tag>)
    requires Plain(tags) && tags != []
    ensures TagsBytes(tags) == TagBytes(tags[0]) + TagsBytes(tags[1..])
  {
  }

  lemma {:induction false} InThree(a: bytes, b: bytes, c: bytes)
    ensures a + (b + c) == (a + b) + c
  {
  }

  lemma {:induction false} Regroup(a: bytes, b: bytes, c: bytes, d: bytes)
    ensures a + b + (c + d) == a + (b + c) + d
  {
  }

  lemma {:induction false} TagInFront(tag: Tag, more: seq<Tag>)
    requires tag.ty != 0 && |tag.data| < 65536 && Plain(more)
    ensures Plain([tag] + more) && TagsBytes([tag] + more) == TagBytes(tag) + TagsBytes(more)
  {
    assert ([tag] + more)[1..] == more;
  }

  lemma {:induction false} TagAt(front: bytes, tag: Tag, behind: bytes, p: bytes)
    requires |tag.data| < 65536 && p == front + TagBytes(tag) + behind
    ensures var n := |front|;
            && n + 4 + |tag.data| <= |p| && Word(p, n + 2) == |tag.data| && TagData(p, n) == tag.data
  {
    var n := |front|;
    assert p[n + 2] == TagBytes(tag)[2] && p[n + 3] == TagBytes(tag)[3];
    assert p[n + 4..n + 4 + |tag.data|] == tag.data;
  }

  /** The search finds the first tag of a type and reads its data, wherever it stands. */
  lemma {:induction false} FindsFirst(before: seq<Tag>, tag: Tag, behind: bytes, p: bytes)
    requires Plain(before) && tag.ty != 0 && |tag.data| < 65536
    requires p == TagsBytes(before) + TagBytes(tag) + behind && |p| <= MAX_PPPOE_PAYLOAD
    requires forall j :: 0 <= j < |before| ==> before[j].ty != tag.ty
    ensures FindTag(p, tag.ty) == |TagsBytes(before)| && TagData(p, |TagsBytes(before)|) == tag.data
    ensures Word(p, |TagsBytes(before)| + 2) == |tag.data|
  {
    hide TagBytes, FindFrom, EndsTags, Word;
    var more, rest := EveryPayload(behind);
    var tags := before + ([tag] + more);
    TagInFront(tag, more);
    TagsConcat(before, [tag] + more);
    hide TagsBytes;
    assert p == TagsBytes(tags) + rest by { Regroup(TagsBytes(before), TagBytes(tag), TagsBytes(more), rest); }
    assert tags[|before|] == tag && tags[..|before|] == before;
    FindsIn(tags, rest, tag.ty, |before|);
    TagAt(TagsBytes(before), tag, behind, p);
  }

  // ------------------------------------------------------------------- a PADI

  /** A PADI goes to every other interface that may have a concentrator and to nothing
      else, provided it comes from a client, by broadcast, untagged and with room for the
      tag; each copy carries the tag that names the client in front of the payload. */
  lemma {:induction false} PadiExactly(t: Table, ifs: seq<Interface>, c: nat, f: Frame, epoch: nat, o: Out)
    requires ValidConfig(ifs) && c < |ifs| && IfacesOk(t, |ifs|) && f.code == 0x09
    ensures RelayPacket(t, ifs, c, f, epoch) == (t, Padi(ifs, c, f))
    ensures var outs := Padi(ifs, c, f);
            && (forall j, k :: 0 <= j < k < |outs| ==> outs[j].iface < outs[k].iface)
            && (o in outs <==>
                  && ifs[c].clientOK && f.src[0] % 2 == 0 && f.dst == [255, 255, 255, 255, 255, 255]
                  && FindTag(f.payload, 0x0110) == -1 && |f.payload| + 14 <= 1502
                  && o.iface < |ifs| && o.iface != c && ifs[o.iface].acOK
                  && o == Out(o.iface, true, Frame(f.dst, ifs[o.iface].mac, 0x09, f.session,
                                                   [1, 16, 0, 10] + [c, 0, 0, 0] + f.src + f.payload)))
  {
    hide FindTag, FindFrom, Flood;
    var tag := EncodeTag(TAG_RELAY_SESSION_ID, RelayData(c, f.src));
    assert tag + f.payload == [1, 16, 0, 10] + [c, 0, 0, 0] + f.src + f.payload;
    hide EncodeTag, RelayData;
    FloodMembers(ifs, c, f.(payload := tag + f.payload), 0, o);
    FloodInOrder(ifs, c, f.(payload := tag + f.payload), 0);
  }

  lemma {:induction false} FloodInOrder(ifs: seq<Interface>, i: nat, f: Frame, k: nat)
    requires k <= |ifs|
    ensures forall j :: 0 <= j < |Flood(ifs, i, f, k)| ==> k <= Flood(ifs, i, f, k)[j].iface
    ensures forall j, m :: 0 <= j < m < |Flood(ifs, i, f, k)| ==>
              Flood(ifs, i, f, k)[j].iface < Flood(ifs, i, f, k)[m].iface
    decreases |ifs| - k
  {
    if k < |ifs| {
      FloodInOrder(ifs, i, f, k + 1);
      var rest := Flood(ifs, i, f, k + 1);
      if k != i && ifs[k].acOK {
        var o := Out(k, true, f.(src := ifs[k].mac));
        assert Flood(ifs, i, f, k) == [o] + rest;
        forall j | 0 < j < |[o] + rest| ensures ([o] + rest)[j].iface > k { assert ([o] + rest)[j] == rest[j - 1]; }
      }
    }
  }

  // ------------------------------------------------------------ PADO and PADR

  /** A packet with a relay tag, its first one, between other tags and bytes. */
  ghost predicate Tagged(p: bytes, before: seq<Tag>, data: bytes, behind: bytes) {
    && Plain(before) && |data| < 65536 && |p| <= MAX_PPPOE_PAYLOAD
    && (forall j :: 0 <= j < |before| ==> before[j].ty != 0x0110)
    && p == TagsBytes(before) + TagBytes(Tag(0x0110, data)) + behind
  }

  /** The relay tag's data: where it points, and the tag with new data or taken out. */
  lemma {:induction false} TaggedFacts(p: bytes, before: seq<Tag>, data: bytes, behind: bytes)
    requires Tagged(p, before, data, behind)
    ensures FindTag(p, TAG_RELAY_SESSION_ID) == |TagsBytes(before)|
    ensures RelayTag(p) == if |data| == 10 then Some(data) else None
    ensures |data| == 10 ==> Stripped(p) == TagsBytes(before) + behind
    ensures |data| == 10 ==> forall i, src ::
              i < 256 ==> Turned(p, i, src) == TagsBytes(before) + [1, 16, 0, 10] + [i, 0, 0, 0] + src + behind
  {
    var front, tag := TagsBytes(before), Tag(0x0110, data);
    FindsFirst(before, tag, behind, p);
    hide FindTag, FindFrom, TagData, TagsBytes;
    if |data| == 10 {
      assert p[..|front|] == front && p[|front| + 14..] == behind;
      assert p[..|front| + 4] == front + [1, 16, 0, 10];
      forall i: nat, src: Mac | i < 256
        ensures Turned(p, i, src) == front + [1, 16, 0, 10] + [i, 0, 0, 0] + src + behind
      {
        assert |front| + TAG_HDR_SIZE + MY_RELAY_TAG_LEN == |front| + 14;
        assert front + [1, 16, 0, 10] + ([i, 0, 0, 0] + src) + behind
            == front + [1, 16, 0, 10] + [i, 0, 0, 0] + src + behind;
      }
    }
  }

  /** The interface that tag data names, little end first. */
  function Named(data: bytes): nat
    requires |data| == 10
  {
    (data[0] as int) + 256 * ((data[1] as int) + 256 * ((data[2] as int) + 256 * (data[3] as int)))
  }

  /** May packets go to a station of this kind behind interface `k`, coming in on `i`? */
  predicate MayPass(ifs: seq<Interface>, i: nat, k: nat, toClient: bool)
    requires i < |ifs|
  {
    && k < |ifs| && k != i
    && (toClient ==> ifs[i].acOK && ifs[k].clientOK) && (!toClient ==> ifs[i].clientOK && ifs[k].acOK)
  }

  /** Where a tagged packet goes. */
  lemma {:induction false} TargetIs(ifs: seq<Interface>, i: nat, f: Frame, toClient: bool,
                                    before: seq<Tag>, data: bytes, behind: bytes)
    requires i < |ifs| && Tagged(f.payload, before, data, behind)
    ensures Target(ifs, i, f, toClient) ==
              if f.dst == ifs[i].mac && |data| == 10 && MayPass(ifs, i, Named(data), toClient)
              then Some(Named(data)) else None
  {
    TaggedFacts(f.payload, before, data, behind);
    hide FindTag, FindFrom, RelayTag, TagsBytes, Tagged;
    assert |data| == 10 ==> DataIface(data) == Named(data);
  }

  lemma {:induction false} ByCode(t: Table, ifs: seq<Interface>, i: nat, f: Frame, epoch: nat)
    requires ValidConfig(ifs) && i < |ifs| && IfacesOk(t, |ifs|)
    ensures f.code == 0x07 ==> RelayPacket(t, ifs, i, f, epoch) == (t, Pado(ifs, i, f))
    ensures f.code == 0x19 ==> RelayPacket(t, ifs, i, f, epoch) == (t, Padr(ifs, i, f))
    ensures f.code == 0x65 ==> RelayPacket(t, ifs, i, f, epoch) == Pads(t, ifs, i, f, epoch)
  {
    hide Pado, Padr, Pads;
  }

  /** An offer (0x07) or a request (0x19) goes to the station its relay tag names, with
      the tag naming its sender instead and nothing else changed; and it goes nowhere
      unless the tag has the right length and names another interface that may have such
      a station, the packet is addressed to the relay, and its sender is acceptable. */
  lemma {:induction false} TurnExactly(t: Table, ifs: seq<Interface>, i: nat, f: Frame, epoch: nat,
                    before: seq<Tag>, data: bytes, behind: bytes)
    requires ValidConfig(ifs) && i < |ifs| && IfacesOk(t, |ifs|) && (f.code == 0x07 || f.code == 0x19)
    requires Tagged(f.payload, before, data, behind)
    ensures RelayPacket(t, ifs, i, f, epoch) == (t,
              if && f.dst == ifs[i].mac && |data| == 10 && MayPass(ifs, i, Named(data), f.code == 0x07)
                 && (if f.code == 0x07 then f.src != [255, 255, 255, 255, 255, 255] else f.src[0] % 2 == 0)
              then [Out(Named(data), true,
                        Frame(data[4..10], ifs[Named(data)].mac, f.code, f.session,
                              TagsBytes(before) + [1, 16, 0, 10] + [i, 0, 0, 0] + f.src + behind))]
              else [])
  {
    TaggedFacts(f.payload, before, data, behind);
    TargetIs(ifs, i, f, f.code == 0x07, before, data, behind);
    ByCode(t, ifs, i, f, epoch);
    hide FindTag, FindFrom, RelayTag, Turned, TagsBytes, Tagged, Target, RelayPacket, Named, IfacesOk, MayPass;
    if Target(ifs, i, f, f.code == 0x07).Some? {
      assert Turned(f.payload, i, f.src) == TagsBytes(before) + [1, 16, 0, 10] + [i, 0, 0, 0] + f.src + behind;
    }
  }

  /** Without a relay tag an offer, a request or a confirmation goes nowhere. */
  lemma {:induction false} UntaggedIsDropped(t: Table, ifs: seq<Interface>, i: nat, f: Frame, epoch: nat)
    requires ValidConfig(ifs) && i < |ifs| && IfacesOk(t, |ifs|)
    requires f.code == 0x07 || f.code == 0x19 || f.code == 0x65
    requires FindTag(f.payload, 0x0110) == -1
    ensures RelayPacket(t, ifs, i, f, epoch) == (t, [])
  {
    hide FindTag, FindFrom, Find;
  }

  /** A packet with any other code goes nowhere. */
  lemma {:induction false} UnknownIsDropped(t: Table, ifs: seq<Interface>, i: nat, f: Frame, epoch: nat)
    requires ValidConfig(ifs) && i < |ifs| && IfacesOk(t, |ifs|) && f.code !in {0x07, 0x09, 0x19, 0x65, 0xA7}
    ensures RelayPacket(t, ifs, i, f, epoch) == (t, [])
  {
  }

  // ------------------------------------------------------------------- a PADS

  /** The text of the relay's Generic-Error tag. */
  lemma {:induction false} ErrorText()
    ensures var text := "RP-PPPoE: Relay: Unable to allocate session";
            |ERROR_TEXT| == |text| == 43 && forall i :: 0 <= i < 43 ==> ERROR_TEXT[i] == text[i] as int
  {
  }

  function ErrorTag(): bytes { [2, 3, 0, 43] + ERROR_TEXT }

  /** A packet that is sent unless it would be too long. */
  function IfItFits(o: Out): seq<Out> { if |o.frame.payload| > 1502 then [] else [o] }

  lemma {:induction false} ErrorPacket(code: nat, session: u16, ifs: seq<Interface>, k: nat, mac: Mac, hostUniq: bytes)
    requires k < |ifs|
    ensures ErrorFrame(code, session, ifs, k, mac, hostUniq) ==
              IfItFits(Out(k, code == 0xA7, Frame(mac, ifs[k].mac, code, session, ErrorTag() + hostUniq)))
  {
    assert EncodeTag(TAG_GENERIC_ERROR, ERROR_TEXT) == ErrorTag();
  }

  /** What a confirmation (0x65) that names client (`c`, `cm`) does when its key is new and
      no slot is left: the client is sent an error under number 0, with its Host-Uniq
      tag, and the concentrator a PADT; the table stays as it is. */
  lemma {:induction false} RefusalExactly(t: Table, ifs: seq<Interface>, a: nat, f: Frame, epoch: nat,
                       before: seq<Tag>, data: bytes, behind: bytes, front: seq<Tag>, hu: bytes, back: bytes)
    requires ValidConfig(ifs) && a < |ifs| && IfacesOk(t, |ifs|) && f.code == 0x65 && f.session != 0
    requires Tagged(f.payload, before, data, behind) && |data| == 10 && MayPass(ifs, a, Named(data), true)
    requires f.dst == ifs[a].mac && f.src[0] % 2 == 0
    requires Forward(t, f.src, f.session) == None && t.free == []
    requires Plain(front) && |hu| < 65536 && (forall j :: 0 <= j < |front| ==> front[j].ty != 0x0103)
    requires f.payload == TagsBytes(front) + TagBytes(Tag(0x0103, hu)) + back
    ensures RelayPacket(t, ifs, a, f, epoch) ==
              (t, IfItFits(Out(Named(data), false,
                     Frame(data[4..10], ifs[Named(data)].mac, 0x65, 0, ErrorTag() + TagBytes(Tag(0x0103, hu)))))
                  + [Out(a, true, Frame(f.src, ifs[a].mac, 0xA7, f.session, ErrorTag()))])
  {
    TaggedFacts(f.payload, before, data, behind);
    HostUniqIs(f.payload, front, hu, back);
    TargetIs(ifs, a, f, true, before, data, behind);
    ByCode(t, ifs, a, f, epoch);
    hide FindTag, FindFrom, RelayTag, TagsBytes, Tagged, HostUniq, Find, TagBytes, Stripped, ErrorTag, ErrorFrame;
    hide Target, RelayPacket, Named, IfacesOk, MayPass, Plain, IfItFits;
    RefusalPackets(ifs, a, f.src, f.session, Named(data), data[4..10], TagBytes(Tag(0x0103, hu)));
  }

  lemma {:induction false} RefusalPackets(ifs: seq<Interface>, a: nat, am: Mac, session: u16, c: nat, cm: Mac, hu: bytes)
    requires a < |ifs| && c < |ifs|
    ensures ErrorFrame(CODE_PADS, 0, ifs, c, cm, hu) + ErrorFrame(CODE_PADT, session, ifs, a, am, []) ==
              IfItFits(Out(c, false, Frame(cm, ifs[c].mac, 0x65, 0, ErrorTag() + hu)))
              + [Out(a, true, Frame(am, ifs[a].mac, 0xA7, session, ErrorTag()))]
  {
    assert ErrorTag() + [] == ErrorTag() && |ErrorTag()| == 47;
    ErrorPacket(0x65, 0, ifs, c, cm, hu);
    ErrorPacket(0xA7, session, ifs, a, am, []);
  }

  lemma {:induction false} HostUniqIs(p: bytes, front: seq<Tag>, hu: bytes, back: bytes)
    requires Plain(front) && |hu| < 65536 && (forall j :: 0 <= j < |front| ==> front[j].ty != 0x0103)
    requires |p| <= MAX_PPPOE_PAYLOAD && p == TagsBytes(front) + TagBytes(Tag(0x0103, hu)) + back
    ensures HostUniq(p) == TagBytes(Tag(0x0103, hu))
  {
    FindsFirst(front, Tag(0x0103, hu), back, p);
    var n := |TagsBytes(front)|;
    assert p[n..n + 4 + |hu|] == TagBytes(Tag(0x0103, hu));
  }

  /** And otherwise: the packet goes to the client the tag names without the tag. Under
      number 0 it is passed on as it is; under a key that is in use it is given that
      session's number; under a new key it opens a session in the next slot and is given
      its number. */
  lemma {:induction false} PadsExactly(t: Table, ifs: seq<Interface>, a: nat, f: Frame, epoch: nat,
                    before: seq<Tag>, data: bytes, behind: bytes)
    requires ValidConfig(ifs) && a < |ifs| && IfacesOk(t, |ifs|) && f.code == 0x65
    requires Tagged(f.payload, before, data, behind)
    requires f.session == 0 || Forward(t, f.src, f.session).Some? || t.free != []
    ensures var (t', outs) := RelayPacket(t, ifs, a, f, epoch);
            if !(f.dst == ifs[a].mac && f.src[0] % 2 == 0 && |data| == 10 && MayPass(ifs, a, Named(data), true))
            then t' == t && outs == []
            else
              && |outs| == 1 && outs[0] == Out(Named(data), true,
                   Frame(data[4..10], ifs[Named(data)].mac, 0x65, outs[0].frame.session, TagsBytes(before) + behind))
              && if f.session == 0 then t' == t && outs[0].frame.session == 0
                 else if Forward(t, f.src, f.session).Some?
                   then t' == t && outs[0].frame.session == (t.entries[Find(t.entries, f.src, f.session).k].id + 1) % 65536
                   else && outs[0].frame.session == (t.free[0] + 1) % 65536
                        && t' == Table(t.size, [Entry(t.free[0], a, Named(data), f.src, data[4..10], f.session, epoch)] + t.entries,
                                       t.free[1..])
  {
    TaggedFacts(f.payload, before, data, behind);
    hide FindTag, FindFrom, RelayTag, TagsBytes, Tagged, HostUniq, Find, EncodeTag, TagBytes, Stripped, ErrorFrame;
    TargetIs(ifs, a, f, true, before, data, behind);
    ByCode(t, ifs, a, f, epoch);
    hide Target, RelayPacket, Named, IfacesOk, MayPass, Plain;
  }
}
