/** The bytes of a packet on the wire, in numbers and offsets: what the encoder writes, and exactly which
    frames the decoder accepts as which packet. */
module WireLayout {
  import opened Words
  import opened Wrappers
  import opened Codec
  import opened Packets
  import Crc

  // ----- numbers, lowest byte first

  function Two(d: Bytes, at: nat): nat
    requires at + 2 <= |d|
  {
    var a: nat, b: nat := d[at], d[at + 1];
    a + 0x100 * b
  }

  function Four(d: Bytes, at: nat): nat
    requires at + 4 <= |d|
  {
    Two(d, at) + 0x1_0000 * Two(d, at + 2)
  }

  function Eight(d: Bytes, at: nat): nat
    requires at + 8 <= |d|
  {
    Four(d, at) + 0x1_0000_0000 * Four(d, at + 4)
  }

  lemma ValueOfOne(d: Bytes)
    requires |d| == 1
    ensures LeValue(d) == d[0]
  {
    assert d[1..] == [];
  }

  lemma ValueOfTwo(d: Bytes)
    requires |d| == 2
    ensures LeValue(d) == Two(d, 0)
  {
    ValueOfOne(d[1..]);
  }

  lemma ValueOfFour(d: Bytes)
    requires |d| == 4
    ensures LeValue(d) == Four(d, 0)
  {
    assert d[1..][1..] == d[2..];
    ValueOfTwo(d[2..]);
  }

  lemma ValueOfEight(d: Bytes)
    requires |d| == 8
    ensures LeValue(d) == Eight(d, 0)
  {
    assert LeValue(d[1..]) == d[1] + 256 * LeValue(d[2..]) by {
      assert d[1..][1..] == d[2..];
    }
    assert LeValue(d[2..]) == d[2] + 256 * LeValue(d[3..]) by {
      assert d[2..][1..] == d[3..];
    }
    assert LeValue(d[3..]) == d[3] + 256 * LeValue(d[4..]) by {
      assert d[3..][1..] == d[4..];
    }
    ValueOfFour(d[4..]);
  }

  lemma WordIsFour(d: Bytes, at: nat)
    requires at + 4 <= |d|
    ensures WordAt(d, at) == Four(d, at)
  {
    ValueOfFour(d[at..at + 4]);
  }

  lemma ReadsTwo(d: Bytes)
    ensures ReadU16(d) == if |d| < 2 then Err(Eof) else Ok(Parsed(Two(d, 0), d[2..]))
  {
    if |d| >= 2 {
      ValueOfTwo(d[..2]);
    }
  }

  lemma ReadsFour(d: Bytes)
    ensures ReadU32(d) == if |d| < 4 then Err(Eof) else Ok(Parsed(Four(d, 0), d[4..]))
  {
    if |d| >= 4 {
      ValueOfFour(d[..4]);
    }
  }

  lemma ReadsEight(d: Bytes)
    ensures ReadU64(d) == if |d| < 8 then Err(Eof) else Ok(Parsed(Eight(d, 0), d[8..]))
  {
    if |d| >= 8 {
      ValueOfEight(d[..8]);
    }
  }

  // ----- sections

  predicate FragmentLaid(b: Bytes, f: Fragment) {
    |b| == 8 && Four(b, 0) == f.streamId && Two(b, 4) == f.sequence && Two(b, 6) == f.count
  }

  predicate RouteLaid(b: Bytes, r: Route) {
    && |r.relayPath| <= 32 && |b| == 6 + 2 * |r.relayPath|
    && Two(b, 0) == r.region && Two(b, 2) == r.collector && b[4] == r.priority && b[5] == |r.relayPath|
    && forall i | 0 <= i < |r.relayPath| :: Two(b, 6 + 2 * i) == r.relayPath[i]
  }

  /** Names one after the other, each behind its length. */
  predicate NamesLaid(b: Bytes, names: seq<Bytes>)
    decreases |names|
  {
    if |names| == 0 then b == [] else
      && |b| >= 2 && Two(b, 0) == |names[0]|
      && 2 + |names[0]| <= |b| && b[2..2 + |names[0]|] == names[0]
      && NamesLaid(b[2 + |names[0]|..], names[1..])
  }

  predicate CapsLaid(b: Bytes, c: DeviceCaps) {
    && |c.bands| <= 16 && |b| >= 4
    && (c.compression <==> b[0] % 2 == 1) && (c.encryption <==> b[0] / 2 % 2 == 1)
    && (c.gpsTime <==> b[0] / 4 % 2 == 1)
    && Two(b, 1) == c.maxPayload && b[3] == |c.bands| && NamesLaid(b[4..], c.bands)
  }

  predicate ExtensionLaid(b: Bytes, e: Extension) {
    |b| == 4 + |e.value| && Two(b, 0) == e.kind && Two(b, 2) == |e.value| && b[4..] == e.value
  }

  datatype Section = Section(id: uint8, body: Bytes)

  /** Sections one after the other, each behind its identifier and length, and then a zero. */
  predicate SectionsLaid(d: Bytes, list: seq<Section>)
    decreases |list|
  {
    if |list| == 0 then d == [0] else
      var n := |list[0].body|;
      && |d| >= 3 && d[0] == list[0].id != 0 && Two(d, 1) == n
      && 3 + n <= |d| && d[3..3 + n] == list[0].body
      && SectionsLaid(d[3 + n..], list[1..])
  }

  // ----- what the decoder makes of a section

  lemma FragmentExactly(b: Bytes, f: Fragment)
    ensures GetFragment(b) == Ok(Parsed(f, [])) <==> FragmentLaid(b, f) && f.sequence < f.count
  {
    ReadsFour(b);
    if |b| >= 4 {
      ReadsTwo(b[4..]);
    }
    if |b| >= 6 {
      assert b[4..][2..] == b[6..];
      ReadsTwo(b[6..]);
    }
    if |b| >= 8 {
      assert b[6..][2..] == b[8..];
      assert |b| == 8 <==> b[8..] == [];
      assert GetFragment(b).Ok? ==>
        GetFragment(b).value == Parsed(Fragment(Four(b, 0), Two(b, 4), Two(b, 6)), b[8..]);
    }
  }

  predicate HopsLaid(b: Bytes, path: seq<uint16>) {
    |b| == 2 * |path| && forall i | 0 <= i < |path| :: Two(b, 2 * i) == path[i]
  }

  lemma HopsLaidCons(b: Bytes, path: seq<uint16>)
    requires |path| > 0
    ensures HopsLaid(b, path) <==> |b| >= 2 && Two(b, 0) == path[0] && HopsLaid(b[2..], path[1..])
  {
    if |b| == 2 * |path| {
      assert forall i | 0 <= i < |path| - 1 :: Two(b, 2 * (i + 1)) == Two(b[2..], 2 * i);
      if HopsLaid(b[2..], path[1..]) && Two(b, 0) == path[0] {
        forall i | 0 <= i < |path|
          ensures Two(b, 2 * i) == path[i]
        {
          if i > 0 {
            assert Two(b[2..], 2 * (i - 1)) == path[1..][i - 1];
          }
        }
      }
      if HopsLaid(b, path) {
        forall i | 0 <= i < |path[1..]|
          ensures Two(b[2..], 2 * i) == path[1..][i]
        {
          assert Two(b, 2 * (i + 1)) == path[i + 1];
        }
      }
    }
  }

  lemma {:induction false} HopsExactly(b: Bytes, n: nat, path: seq<uint16>)
    ensures GetHops(b, n) == Ok(Parsed(path, [])) <==> |path| == n && HopsLaid(b, path)
    decreases n
  {
    if n > 0 {
      ReadsTwo(b);
      if |path| > 0 {
        HopsLaidCons(b, path);
        if |b| >= 2 {
          HopsExactly(b[2..], n - 1, path[1..]);
          if GetHops(b[2..], n - 1).Ok? {
            HopsCons(b, n, path);
          }
        }
      }
    }
  }

  lemma HopsCons(b: Bytes, n: nat, path: seq<uint16>)
    requires n > 0 && |b| >= 2 && |path| > 0 && GetHops(b[2..], n - 1).Ok?
    ensures GetHops(b, n) == Ok(Parsed(path, []))
        <==> Two(b, 0) == path[0] && GetHops(b[2..], n - 1) == Ok(Parsed(path[1..], []))
  {
    ReadsTwo(b);
    var more := GetHops(b[2..], n - 1).value;
    assert GetHops(b, n) == Ok(Parsed([Two(b, 0) as uint16] + more.value, more.rest));
    assert ([Two(b, 0) as uint16] + more.value)[1..] == more.value;
    assert path == [path[0]] + path[1..];
  }

  lemma HopsLaidAt(b: Bytes, path: seq<uint16>)
    requires |b| >= 6
    ensures HopsLaid(b[6..], path)
        <==> |b| == 6 + 2 * |path| && forall i | 0 <= i < |path| :: Two(b, 6 + 2 * i) == path[i]
  {
    if |b| == 6 + 2 * |path| {
      assert forall i | 0 <= i < |path| :: Two(b[6..], 2 * i) == Two(b, 6 + 2 * i);
    }
  }

  /** The fixed fields of a route and the bytes of its hops. */
  lemma RouteFields(b: Bytes)
    requires |b| >= 6
    ensures var hops := GetHops(b[6..], b[5]);
      GetRoute(b) == if b[5] > 32 then Err(MalformedPacket) else if hops.Err? then Err(hops.error)
                     else Ok(Parsed(Route(Two(b, 0), Two(b, 2), b[4], hops.value.value), hops.value.rest))
  {
    ReadsTwo(b);
    ReadsTwo(b[2..]);
    assert b[2..][2..] == b[4..] && b[4..][1..] == b[5..] && b[5..][1..] == b[6..];
  }

  lemma RouteShort(b: Bytes)
    requires |b| < 6
    ensures GetRoute(b).Err?
  {
    ReadsTwo(b);
    if |b| >= 2 {
      ReadsTwo(b[2..]);
    }
  }

  lemma RouteExactly(b: Bytes, r: Route)
    ensures GetRoute(b) == Ok(Parsed(r, [])) <==> RouteLaid(b, r)
  {
    if |b| < 6 {
      RouteShort(b);
    } else {
      RouteFields(b);
      HopsExactly(b[6..], b[5], r.relayPath);
      HopsLaidAt(b, r.relayPath);
    }
  }

  /** No name is longer than the decoder takes. */
  predicate NamesShort(names: seq<Bytes>) {
    forall i | 0 <= i < |names| :: |names[i]| <= 64
  }

  lemma NamesShortCons(names: seq<Bytes>)
    requires |names| > 0
    ensures NamesShort(names) <==> |names[0]| <= 64 && NamesShort(names[1..])
  {
    if NamesShort(names[1..]) {
      assert forall i | 1 <= i < |names| :: names[i] == names[1..][i - 1];
    }
  }

  lemma NameRead(b: Bytes)
    ensures ReadString(b, 64)
         == if |b| < 2 then Err(Eof) else if Two(b, 0) > 64 then Err(MalformedPacket)
            else if |b| < 2 + Two(b, 0) then Err(Eof)
            else Ok(Parsed(b[2..2 + Two(b, 0)], b[2 + Two(b, 0)..]))
  {
    ReadsTwo(b);
    if |b| >= 2 && |b| >= 2 + Two(b, 0) {
      assert b[2..][..Two(b, 0)] == b[2..2 + Two(b, 0)];
      assert b[2..][Two(b, 0)..] == b[2 + Two(b, 0)..];
    }
  }

  lemma NamesRead(b: Bytes, n: nat, name: Bytes, rest: Bytes, names: seq<Bytes>)
    requires n > 0 && |names| > 0 && ReadString(b, 64) == Ok(Parsed(name, rest))
    ensures GetBands(b, n) == Ok(Parsed(names, []))
        <==> name == names[0] && GetBands(rest, n - 1) == Ok(Parsed(names[1..], []))
  {
    var more := GetBands(rest, n - 1);
    assert names == [names[0]] + names[1..];
    if more.Ok? {
      assert ([name] + more.value.value)[1..] == more.value.value;
    }
  }

  lemma {:induction false} NamesExactly(b: Bytes, n: nat, names: seq<Bytes>)
    ensures GetBands(b, n) == Ok(Parsed(names, [])) <==> |names| == n && NamesShort(names) && NamesLaid(b, names)
    decreases n
  {
    if n > 0 {
      NameRead(b);
      if |names| > 0 {
        NamesShortCons(names);
        if ReadString(b, 64).Ok? {
          var rest := ReadString(b, 64).value.rest;
          NamesRead(b, n, ReadString(b, 64).value.value, rest, names);
          NamesExactly(rest, n - 1, names[1..]);
        }
      }
    }
  }

  lemma CapsFields(b: Bytes)
    requires |b| >= 4
    ensures var bands := GetBands(b[4..], b[3]);
      GetCaps(b) == if b[3] > 16 then Err(MalformedPacket) else if bands.Err? then Err(bands.error)
                    else Ok(Parsed(DeviceCaps(b[0] % 2 == 1, b[0] / 2 % 2 == 1, b[0] / 4 % 2 == 1, Two(b, 1),
                                     bands.value.value), bands.value.rest))
  {
    ReadsTwo(b[1..]);
    assert b[1..][2..] == b[3..] && b[3..][1..] == b[4..];
  }

  lemma CapsShort(b: Bytes)
    requires |b| < 4
    ensures GetCaps(b).Err?
  {
    if |b| >= 1 {
      ReadsTwo(b[1..]);
    }
  }

  lemma CapsExactly(b: Bytes, c: DeviceCaps)
    ensures GetCaps(b) == Ok(Parsed(c, [])) <==> CapsLaid(b, c) && NamesShort(c.bands)
  {
    if |b| < 4 {
      CapsShort(b);
    } else {
      CapsFields(b);
      NamesExactly(b[4..], b[3], c.bands);
    }
  }

  lemma ExtensionExactly(b: Bytes, e: Extension)
    ensures GetExtension(b) == Ok(Parsed(e, [])) <==> ExtensionLaid(b, e)
  {
    ReadsTwo(b);
    if |b| >= 2 {
      ReadsTwo(b[2..]);
    }
    if |b| >= 4 {
      assert b[2..][2..] == b[4..];
      var n := Two(b, 2);
      assert Two(b[2..], 0) == n;
      if |b[4..]| >= n {
        assert |b[4..][n..]| == |b| - 4 - n;
        assert n == |b| - 4 ==> b[4..][..n] == b[4..] && b[4..][n..] == [];
      }
    }
  }

  // ----- what a list of sections makes of a packet

  /** A section as the decoder takes it: fragment, route, capabilities and extension by their numbers, and
      any other number without a body unless it must be known. */
  predicate Adds(p: Packet, s: Section, q: Packet, strict: bool) {
    if s.id == 1 then
      q.fragment.Some? && FragmentLaid(s.body, q.fragment.value)
      && q.fragment.value.sequence < q.fragment.value.count && q == p.(fragment := q.fragment)
    else if s.id == 2 then
      q.route.Some? && RouteLaid(s.body, q.route.value) && q == p.(route := q.route)
    else if s.id == 3 then
      q.capabilities.Some? && CapsLaid(s.body, q.capabilities.value) && NamesShort(q.capabilities.value.bands)
      && q == p.(capabilities := q.capabilities)
    else if s.id == 4 then
      |q.extensions| > 0
      && var e := q.extensions[|q.extensions| - 1];
         ExtensionLaid(s.body, e) && q == p.(extensions := p.extensions + [e])
    else
      !strict && s.body == [] && q == p
  }

  ghost predicate Builds(p: Packet, list: seq<Section>, q: Packet, strict: bool)
    decreases |list|
  {
    if |list| == 0 then p == q
    else exists m :: Adds(p, list[0], m, strict) && Builds(m, list[1..], q, strict)
  }

  lemma AddsExactly(p: Packet, s: Section, q: Packet, strict: bool)
    ensures ApplySection(p, s.id, s.body, strict) == Ok(q) <==> Adds(p, s, q, strict)
  {
    if s.id == 1 {
      if q.fragment.Some? {
        FragmentExactly(s.body, q.fragment.value);
      }
      if GetFragment(s.body).Ok? {
        FragmentExactly(s.body, GetFragment(s.body).value.value);
      }
    } else if s.id == 2 {
      if q.route.Some? {
        RouteExactly(s.body, q.route.value);
      }
      if GetRoute(s.body).Ok? {
        RouteExactly(s.body, GetRoute(s.body).value.value);
      }
    } else if s.id == 3 {
      if q.capabilities.Some? {
        CapsExactly(s.body, q.capabilities.value);
      }
      if GetCaps(s.body).Ok? {
        CapsExactly(s.body, GetCaps(s.body).value.value);
      }
    } else if s.id == 4 {
      if |q.extensions| > 0 {
        ExtensionExactly(s.body, q.extensions[|q.extensions| - 1]);
      }
      if GetExtension(s.body).Ok? {
        ExtensionExactly(s.body, GetExtension(s.body).value.value);
      }
    }
  }

  lemma SectionRead(p: Packet, d: Bytes, strict: bool)
    requires d != [] && d[0] != 0
    ensures GetSections(p, d, Applier(strict))
         == if |d| < 3 || |d| < 3 + Two(d, 1) then Err(Eof) else
              var n := Two(d, 1);
              match ApplySection(p, d[0], d[3..3 + n], strict)
              case Err(e) => Err(e)
              case Ok(q) => GetSections(q, d[3 + n..], Applier(strict))
  {
    ReadsTwo(d[1..]);
    if |d| >= 3 {
      assert d[1..][2..] == d[3..];
      var n := Two(d, 1);
      assert n == Two(d[1..], 0);
      if |d| >= 3 + n {
        assert d[3..][..n] == d[3..3 + n] && d[3..][n..] == d[3 + n..];
      }
    }
  }

  lemma {:induction false} ListFound(p: Packet, d: Bytes, q: Packet, strict: bool) returns (list: seq<Section>)
    requires GetSections(p, d, Applier(strict)) == Ok(q)
    ensures SectionsLaid(d, list) && Builds(p, list, q, strict)
    decreases |d|
  {
    if d[0] == 0 {
      list := [];
      assert d == [0];
    } else {
      SectionRead(p, d, strict);
      var n := Two(d, 1);
      var s := Section(d[0], d[3..3 + n]);
      var m := ApplySection(p, s.id, s.body, strict).value;
      AddsExactly(p, s, m, strict);
      var later := ListFound(m, d[3 + n..], q, strict);
      list := [s] + later;
      assert list[1..] == later;
    }
  }

  lemma {:induction false} ListBuilds(p: Packet, d: Bytes, list: seq<Section>, q: Packet, strict: bool)
    requires SectionsLaid(d, list) && Builds(p, list, q, strict)
    ensures GetSections(p, d, Applier(strict)) == Ok(q)
    decreases |list|
  {
    if |list| == 0 {
      assert d[1..] == [];
    } else {
      var m :| Adds(p, list[0], m, strict) && Builds(m, list[1..], q, strict);
      AddsExactly(p, list[0], m, strict);
      SectionRead(p, d, strict);
      ListBuilds(m, d[3 + |list[0].body|..], list[1..], q, strict);
    }
  }

  // ----- the frame

  function VersionNumber(v: Version): nat {
    if v.V1? then 1 else if v.V2? then 2 else 3
  }

  function KindNumber(k: PacketKind): nat {
    if k.Heartbeat? then 1 else if k.Observation? then 2 else if k.Spectrum? then 3 else if k.Control? then 4 else 5
  }

  /** Magic word and header: every field of fixed place. */
  predicate HeaderLaid(frame: Bytes, p: Packet)
    requires |frame| >= 36
  {
    && frame[0] == 0x41 && frame[1] == 0x54 && frame[2] == 0x48 && frame[3] == 0x4e
    && frame[8] == VersionNumber(p.version) && frame[9] == KindNumber(p.kind)
    && Eight(frame, 10) == p.device && Eight(frame, 18) == p.timestamp && Four(frame, 26) == p.sequence
    && frame[30] == p.compression && frame[31] == p.encryption
  }

  /** Everything but the checksum, for `n` bytes of sections; every length is given in 32 bits. */
  predicate PartsLaid(frame: Bytes, p: Packet, n: nat) {
    && |frame| == 44 + n + |p.payload|
    && HeaderLaid(frame, p)
    && Four(frame, 4) == (32 + n + |p.payload|) % TWO_32 && Four(frame, 32) == n % TWO_32
    && Four(frame, 36 + n) == |p.payload| % TWO_32
    && frame[40 + n..40 + n + |p.payload|] == p.payload
  }

  /** The last four bytes are the checksum of all before them. */
  predicate Checked(frame: Bytes) {
    |frame| >= 4 && Four(frame, |frame| - 4) == Crc.Checksum(frame[..|frame| - 4])
  }

  predicate FrameLaid(frame: Bytes, p: Packet, n: nat) {
    PartsLaid(frame, p, n) && Checked(frame)
  }

  /** The packet as it is before any section is read. */
  function Plain(p: Packet): Packet {
    p.(fragment := None, route := None, capabilities := None, extensions := [], payload := [])
  }

  lemma ReadsHeader(b: Bytes)
    requires |b| >= 24
    ensures GetHeader(b)
         == if !(1 <= b[0] <= 3) then Err(UnsupportedVersion) else if !(1 <= b[1] <= 5) then Err(MalformedPacket)
            else Ok(Parsed(Packet(VersionFrom(b[0]).value, KindFrom(b[1]).value, Eight(b, 2), Eight(b, 10),
                             Four(b, 18), b[22], b[23], None, None, None, [], []), b[24..]))
  {
    assert b[1..][1..] == b[2..];
    ReadsEight(b[2..]);
    assert b[2..][8..] == b[10..] && Eight(b[2..], 0) == Eight(b, 2);
    ReadsEight(b[10..]);
    assert b[10..][8..] == b[18..] && Eight(b[10..], 0) == Eight(b, 10);
    ReadsFour(b[18..]);
    assert b[18..][4..] == b[22..] && Four(b[18..], 0) == Four(b, 18);
    assert b[22..][1..] == b[23..] && b[23..][1..] == b[24..];
  }
}
