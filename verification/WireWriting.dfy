/** What the encoder writes, in numbers and offsets: which packets it takes and the one frame it makes of each. */
module WireWriting {
  import opened Words
  import opened Wrappers
  import opened Codec
  import opened Packets
  import opened WireFrames
  import opened WireLayout
  import Crc
  import PacketTheorems

  // ----- numbers

  lemma WritesTwo(b: Bytes, v: nat)
    requires |b| == 2
    ensures b == PutU16(v) <==> Two(b, 0) == v % 0x1_0000
  {
    Pow256Values();
    LowBytes(v, 2);
    ValueOfBytes(v % 0x1_0000, 2);
    ValueOfTwo(b);
    BytesOfValue(b);
  }

  lemma WritesFour(b: Bytes, v: nat)
    requires |b| == 4
    ensures b == PutU32(v) <==> Four(b, 0) == v % 0x1_0000_0000
  {
    Pow256Values();
    LowBytes(v, 4);
    ValueOfBytes(v % 0x1_0000_0000, 4);
    ValueOfFour(b);
    BytesOfValue(b);
  }

  lemma WritesEight(b: Bytes, v: uint64)
    requires |b| == 8
    ensures b == PutU64(v) <==> Eight(b, 0) == v
  {
    Pow256Values();
    ValueOfBytes(v, 8);
    ValueOfEight(b);
    BytesOfValue(b);
  }

  // ----- section bodies

  lemma Joined(b: Bytes, x: Bytes, y: Bytes)
    ensures b == x + y <==> |b| == |x| + |y| && b[..|x|] == x && b[|x|..] == y
  {
    if |b| == |x| + |y| {
      assert b == b[..|x|] + b[|x|..];
    }
  }

  lemma FragmentWritten(b: Bytes, f: Fragment)
    ensures b == PutFragment(f) <==> FragmentLaid(b, f)
  {
    if |b| == 8 {
      WritesFour(b[..4], f.streamId);
      WritesTwo(b[4..6], f.sequence);
      WritesTwo(b[6..], f.count);
      assert b == b[..4] + b[4..6] + b[6..];
      assert PutFragment(f)[..4] == PutU32(f.streamId) && PutFragment(f)[4..6] == PutU16(f.sequence)
          && PutFragment(f)[6..] == PutU16(f.count);
    }
  }

  lemma {:induction false} HopsWritten(b: Bytes, path: seq<uint16>)
    ensures b == PutHops(path) <==> HopsLaid(b, path)
    decreases |path|
  {
    if |path| > 0 {
      HopsLaidCons(b, path);
      if |b| >= 2 {
        WritesTwo(b[..2], path[0]);
        HopsWritten(b[2..], path[1..]);
        Joined(b, PutU16(path[0]), PutHops(path[1..]));
      }
    }
  }

  lemma RouteWritten(b: Bytes, r: Route)
    ensures PutRoute(r) == Ok(b) <==> RouteLaid(b, r)
  {
    if |b| >= 6 && |r.relayPath| <= 32 {
      WritesTwo(b[..2], r.region);
      WritesTwo(b[2..4], r.collector);
      HopsWritten(b[6..], r.relayPath);
      HopsLaidAt(b, r.relayPath);
      var all := PutRoute(r).value;
      assert all[..2] == PutU16(r.region) && all[2..4] == PutU16(r.collector) && all[4] == r.priority
          && all[5] == |r.relayPath| && all[6..] == PutHops(r.relayPath);
      assert b == b[..2] + b[2..4] + [b[4]] + [b[5]] + b[6..];
    }
  }

  lemma NameWritten(b: Bytes, name: Bytes)
    ensures PutString(name) == Ok(b) <==> |b| >= 2 && Two(b, 0) == |name| && b[2..] == name
  {
    if |b| >= 2 {
      WritesTwo(b[..2], |name|);
      Joined(b, PutU16(|name|), name);
    }
  }

  lemma {:induction false} NamesWritten(b: Bytes, names: seq<Bytes>)
    ensures PutBands(names) == Ok(b) <==> NamesLaid(b, names)
    decreases |names|
  {
    if |names| > 0 {
      var n := 2 + |names[0]|;
      if |b| >= n {
        NameWritten(b[..n], names[0]);
        NamesWritten(b[n..], names[1..]);
        assert b == b[..n] + b[n..];
      }
      if PutBands(names).Ok? {
        Joined(b, PutString(names[0]).value, PutBands(names[1..]).value);
      }
    }
  }

  lemma CapsParts(b: Bytes, flags: uint8, most: Bytes, count: uint8, names: Bytes)
    requires |most| == 2
    ensures b == [flags] + most + [count] + names
        <==> |b| >= 4 && b[0] == flags && b[1..3] == most && b[3] == count && b[4..] == names
  {
    var all := [flags] + most + [count] + names;
    assert all[1..3] == most && all[4..] == names;
    if |b| >= 4 {
      assert b == [b[0]] + b[1..3] + [b[3]] + b[4..];
    }
  }

  lemma CapsWritten(b: Bytes, c: DeviceCaps)
    ensures PutCaps(c) == Ok(b) <==> CapsLaid(b, c) && b[0] < 8
  {
    if |b| >= 4 {
      WritesTwo(b[1..3], c.maxPayload);
      NamesWritten(b[4..], c.bands);
      FlagsAre(b[0], c);
    }
    if PutCaps(c).Ok? {
      CapsParts(b, Flags(c), PutU16(c.maxPayload), |c.bands|, PutBands(c.bands).value);
    }
  }

  lemma FlagsAre(raw: uint8, c: DeviceCaps)
    ensures raw == Flags(c)
        <==> raw < 8 && (c.compression <==> raw % 2 == 1) && (c.encryption <==> raw / 2 % 2 == 1)
             && (c.gpsTime <==> raw / 4 % 2 == 1)
  {
  }

  lemma ExtensionWritten(b: Bytes, e: Extension)
    requires |e.value| <= 65535
    ensures b == PutExtension(e) <==> ExtensionLaid(b, e)
  {
    if |b| == 4 + |e.value| {
      WritesTwo(b[..2], e.kind);
      WritesTwo(b[2..4], |e.value|);
      var all := PutExtension(e);
      assert all[..2] == PutU16(e.kind) && all[2..4] == PutU16(|e.value|) && all[4..] == e.value;
      assert b == b[..2] + b[2..4] + b[4..];
    }
  }

  // ----- lists of sections

  /** Identifiers that do not end the list, and bodies that fit their length field. */
  predicate Listable(list: seq<Section>) {
    forall i | 0 <= i < |list| :: list[i].id != 0 && |list[i].body| <= 65535
  }

  function SectionBytes(s: Section): (b: Bytes)
    ensures |b| == 3 + |s.body|
  {
    [s.id] + PutU16(|s.body|) + s.body
  }

  function ListBytes(list: seq<Section>): Bytes
    decreases |list|
  {
    if |list| == 0 then []
    else SectionBytes(list[0]) + ListBytes(list[1..])
  }

  lemma ListableCons(list: seq<Section>)
    requires |list| > 0
    ensures Listable(list) <==> list[0].id != 0 && |list[0].body| <= 65535 && Listable(list[1..])
  {
    if Listable(list[1..]) {
      assert forall i | 1 <= i < |list| :: list[i] == list[1..][i - 1];
    }
  }

  lemma SectionWritten(b: Bytes, s: Section)
    requires |b| == 3 + |s.body| && |s.body| <= 65535
    ensures b == SectionBytes(s) <==> b[0] == s.id && Two(b, 1) == |s.body| && b[3..] == s.body
  {
    WritesTwo(b[1..3], |s.body|);
    assert b == [b[0]] + b[1..3] + b[3..];
    assert SectionBytes(s)[1..3] == PutU16(|s.body|) && SectionBytes(s)[3..] == s.body;
  }

  lemma {:induction false} ListWritten(d: Bytes, list: seq<Section>)
    ensures SectionsLaid(d, list) <==> Listable(list) && d == ListBytes(list) + [0]
    decreases |list|
  {
    if |list| > 0 {
      var n := 3 + |list[0].body|;
      ListableCons(list);
      Joined(d, SectionBytes(list[0]), ListBytes(list[1..]) + [0]);
      PacketTheorems.ConcatThree(SectionBytes(list[0]), ListBytes(list[1..]), [0]);
      if |d| >= n && n <= 65538 {
        SectionWritten(d[..n], list[0]);
        ListWritten(d[n..], list[1..]);
        assert Two(d[..n], 1) == Two(d, 1);
        assert d[..n][3..] == d[3..n];
      }
    }
  }

  lemma {:induction false} ListBytesConcat(a: seq<Section>, b: seq<Section>)
    ensures ListBytes(a + b) == ListBytes(a) + ListBytes(b)
    decreases |a|
  {
    if |a| == 0 {
      assert a + b == b;
    } else {
      assert (a + b)[0] == a[0] && (a + b)[1..] == a[1..] + b;
      ListBytesConcat(a[1..], b);
    }
  }

  lemma SingleListed(s: Section)
    ensures PutSection(s.id, s.body) == if |s.body| <= 65535 then Ok(ListBytes([s])) else Err(InvalidArgument)
  {
    assert [s][1..] == [];
    assert ListBytes([s]) == SectionBytes(s);
  }

  // ----- the sections of a packet

  predicate FragmentSection(list: seq<Section>, f: Option<Fragment>) {
    if f.None? then list == [] else |list| == 1 && list[0].id == 1 && FragmentLaid(list[0].body, f.value)
  }

  predicate RouteSection(list: seq<Section>, r: Option<Route>) {
    if r.None? then list == [] else |list| == 1 && list[0].id == 2 && RouteLaid(list[0].body, r.value)
  }

  predicate CapsSection(list: seq<Section>, c: Option<DeviceCaps>) {
    if c.None? then list == []
    else |list| == 1 && list[0].id == 3 && CapsLaid(list[0].body, c.value) && list[0].body[0] < 8
  }

  predicate ExtensionSections(list: seq<Section>, es: seq<Extension>) {
    && |list| == |es|
    && forall i | 0 <= i < |es| :: list[i].id == 4 && ExtensionLaid(list[i].body, es[i])
  }

  /** Fragment, route, capabilities and extensions, in this order. */
  predicate Writes(list: seq<Section>, p: Packet) {
    var f := if p.fragment.Some? then 1 else 0;
    var r := f + if p.route.Some? then 1 else 0;
    var c := r + if p.capabilities.Some? then 1 else 0;
    && |list| == c + |p.extensions|
    && FragmentSection(list[..f], p.fragment) && RouteSection(list[f..r], p.route)
    && CapsSection(list[r..c], p.capabilities) && ExtensionSections(list[c..], p.extensions)
  }

  lemma OneSection(list: seq<Section>)
    requires |list| == 1
    ensures Listable(list) <==> list[0].id != 0 && |list[0].body| <= 65535
    ensures PutSection(list[0].id, list[0].body)
         == if |list[0].body| <= 65535 then Ok(ListBytes(list)) else Err(InvalidArgument)
  {
    assert list == [list[0]];
    SingleListed(list[0]);
  }

  lemma FragmentIs(f: Option<Fragment>, list: seq<Section>)
    requires FragmentSection(list, f) && Listable(list)
    ensures FragmentPart(f) == Ok(ListBytes(list))
  {
    if f.Some? {
      OneSection(list);
      FragmentWritten(list[0].body, f.value);
    }
  }

  lemma FragmentFound(f: Option<Fragment>) returns (list: seq<Section>)
    requires FragmentPart(f).Ok?
    ensures FragmentSection(list, f) && Listable(list)
  {
    if f.None? {
      return [];
    }
    FragmentWritten(PutFragment(f.value), f.value);
    list := [Section(1, PutFragment(f.value))];
  }

  lemma RouteIs(r: Option<Route>, list: seq<Section>)
    requires RouteSection(list, r) && Listable(list)
    ensures RoutePart(r) == Ok(ListBytes(list))
  {
    if r.Some? {
      OneSection(list);
      RouteWritten(list[0].body, r.value);
    }
  }

  lemma RouteFound(r: Option<Route>) returns (list: seq<Section>)
    requires RoutePart(r).Ok?
    ensures RouteSection(list, r) && Listable(list)
  {
    if r.None? {
      return [];
    }
    RouteWritten(PutRoute(r.value).value, r.value);
    list := [Section(2, PutRoute(r.value).value)];
  }

  lemma CapsIs(c: Option<DeviceCaps>, list: seq<Section>)
    requires CapsSection(list, c) && Listable(list)
    ensures CapsPart(c) == Ok(ListBytes(list))
  {
    if c.Some? {
      OneSection(list);
      CapsWritten(list[0].body, c.value);
    }
  }

  lemma CapsFound(c: Option<DeviceCaps>) returns (list: seq<Section>)
    requires CapsPart(c).Ok?
    ensures CapsSection(list, c) && Listable(list)
  {
    if c.None? {
      return [];
    }
    CapsWritten(PutCaps(c.value).value, c.value);
    list := [Section(3, PutCaps(c.value).value)];
  }

  lemma ExtensionSectionsCons(list: seq<Section>, es: seq<Extension>)
    requires |es| > 0 && |list| > 0
    ensures ExtensionSections(list, es)
        <==> list[0].id == 4 && ExtensionLaid(list[0].body, es[0]) && ExtensionSections(list[1..], es[1..])
  {
    if list[0].id == 4 && ExtensionLaid(list[0].body, es[0]) && ExtensionSections(list[1..], es[1..]) {
      forall i | 0 <= i < |es|
        ensures list[i].id == 4 && ExtensionLaid(list[i].body, es[i])
      {
        if i > 0 {
          assert list[i] == list[1..][i - 1] && es[i] == es[1..][i - 1];
        }
      }
    }
  }

  lemma {:induction false} ExtensionsAre(es: seq<Extension>, list: seq<Section>)
    requires ExtensionSections(list, es) && Listable(list)
    ensures ExtensionsPart(es) == Ok(ListBytes(list))
    decreases |es|
  {
    if |es| > 0 {
      ExtensionSectionsCons(list, es);
      ListableCons(list);
      ExtensionWritten(list[0].body, es[0]);
      SingleListed(list[0]);
      assert ListBytes([list[0]]) == SectionBytes(list[0]);
      ExtensionsAre(es[1..], list[1..]);
    }
  }

  lemma {:induction false} ExtensionsFound(es: seq<Extension>) returns (list: seq<Section>)
    requires ExtensionsPart(es).Ok?
    ensures ExtensionSections(list, es) && Listable(list)
    decreases |es|
  {
    if |es| == 0 {
      return [];
    }
    var more := ExtensionsFound(es[1..]);
    ExtensionWritten(PutExtension(es[0]), es[0]);
    list := [Section(4, PutExtension(es[0]))] + more;
    assert list[1..] == more;
    ExtensionSectionsCons(list, es);
    ListableCons(list);
  }

  lemma ListableParts(a: seq<Section>, b: seq<Section>)
    ensures Listable(a + b) <==> Listable(a) && Listable(b)
  {
    var all := a + b;
    assert forall i | 0 <= i < |a| :: all[i] == a[i];
    assert forall i | 0 <= i < |b| :: all[|a| + i] == b[i];
    if Listable(a) && Listable(b) {
      forall i | 0 <= i < |all|
        ensures all[i].id != 0 && |all[i].body| <= 65535
      {
        assert all[i] == if i < |a| then a[i] else b[i - |a|];
      }
    }
    if Listable(all) {
      forall i | 0 <= i < |b|
        ensures b[i].id != 0 && |b[i].body| <= 65535
      {
        assert all[|a| + i] == b[i];
      }
    }
  }

  lemma FourParts(a: seq<Section>, b: seq<Section>, c: seq<Section>, d: seq<Section>)
    ensures Listable(a + b + c + d) <==> Listable(a) && Listable(b) && Listable(c) && Listable(d)
    ensures ListBytes(a + b + c + d) == ListBytes(a) + ListBytes(b) + ListBytes(c) + ListBytes(d)
  {
    ListableParts(a, b);
    ListableParts(a + b, c);
    ListableParts(a + b + c, d);
    ListBytesConcat(a, b);
    ListBytesConcat(a + b, c);
    ListBytesConcat(a + b + c, d);
  }

  /** The sections of the four parts together. */
  lemma PartsWritten(p: Packet, f: seq<Section>, r: seq<Section>, c: seq<Section>, e: seq<Section>)
    requires FragmentSection(f, p.fragment) && RouteSection(r, p.route) && CapsSection(c, p.capabilities)
    requires ExtensionSections(e, p.extensions)
    requires Listable(f) && Listable(r) && Listable(c) && Listable(e)
    ensures PutSections(p) == Ok(ListBytes(f + r + c + e) + [0])
  {
    FourParts(f, r, c, e);
    FragmentIs(p.fragment, f);
    RouteIs(p.route, r);
    CapsIs(p.capabilities, c);
    ExtensionsAre(p.extensions, e);
  }

  lemma Cut<T>(list: seq<T>, f: nat, r: nat, c: nat)
    requires f <= r <= c <= |list|
    ensures list == list[..f] + list[f..r] + list[r..c] + list[c..]
  {
  }

  lemma Pasted<T>(f: seq<T>, r: seq<T>, c: seq<T>, e: seq<T>)
    ensures var list := f + r + c + e;
      && list[..|f|] == f && list[|f|..|f| + |r|] == r && list[|f| + |r|..|f| + |r| + |c|] == c
      && list[|f| + |r| + |c|..] == e
  {
  }

  lemma SectionsAre(p: Packet, list: seq<Section>, d: Bytes)
    requires Writes(list, p) && SectionsLaid(d, list)
    ensures PutSections(p) == Ok(d)
  {
    var f := if p.fragment.Some? then 1 else 0;
    var r := f + if p.route.Some? then 1 else 0;
    var c := r + if p.capabilities.Some? then 1 else 0;
    Cut(list, f, r, c);
    ListWritten(d, list);
    FourParts(list[..f], list[f..r], list[r..c], list[c..]);
    PartsWritten(p, list[..f], list[f..r], list[r..c], list[c..]);
  }

  lemma SectionsFound(p: Packet) returns (list: seq<Section>)
    requires PutSections(p).Ok?
    ensures Writes(list, p) && SectionsLaid(PutSections(p).value, list)
  {
    var f := FragmentFound(p.fragment);
    var r := RouteFound(p.route);
    var c := CapsFound(p.capabilities);
    var e := ExtensionsFound(p.extensions);
    list := f + r + c + e;
    Pasted(f, r, c, e);
    FourParts(f, r, c, e);
    PartsWritten(p, f, r, c, e);
    ListWritten(PutSections(p).value, list);
  }

  // ----- the frame

  lemma SevenParts(b: Bytes, v: uint8, k: uint8, d: Bytes, t: Bytes, q: Bytes, c: uint8, e: uint8)
    requires |b| == 24 && |d| == 8 && |t| == 8 && |q| == 4
    ensures b == [v] + [k] + d + t + q + [c] + [e]
        <==> b[0] == v && b[1] == k && b[2..10] == d && b[10..18] == t && b[18..22] == q && b[22] == c && b[23] == e
  {
    var all := [v] + [k] + d + t + q + [c] + [e];
    assert all[2..10] == d && all[10..18] == t && all[18..22] == q;
    assert b == [b[0]] + [b[1]] + b[2..10] + b[10..18] + b[18..22] + [b[22]] + [b[23]];
  }

  lemma HeaderWritten(b: Bytes, p: Packet)
    requires |b| == 24
    ensures b == PutHeader(p) <==> FieldsLaid(b, p)
  {
    SevenParts(b, PutVersion(p.version), PutKind(p.kind), PutU64(p.device), PutU64(p.timestamp),
               PutU32(p.sequence), p.compression, p.encryption);
    WritesEight(b[2..10], p.device);
    WritesEight(b[10..18], p.timestamp);
    WritesFour(b[18..22], p.sequence);
    assert Eight(b[2..10], 0) == Eight(b, 2) && Eight(b[10..18], 0) == Eight(b, 10);
    FourBetween(b, 18, 22);
  }

  /** Bytes behind their length. */
  predicate Counted(b: Bytes, x: Bytes) {
    |b| == 4 + |x| && Four(b, 0) == |x| % TWO_32 && b[4..] == x
  }

  lemma CountedWritten(b: Bytes, x: Bytes)
    ensures b == PutU32(|x|) + x <==> Counted(b, x)
  {
    if |b| == 4 + |x| {
      WritesFour(b[..4], |x|);
      Joined(b, PutU32(|x|), x);
    }
  }

  lemma BodyWritten(b: Bytes, p: Packet, s: Bytes)
    ensures b == PutBody(p, s)
        <==> |b| == 32 + |s| + |p.payload| && FieldsLaid(b[..24], p) && Counted(b[24..28 + |s|], s)
             && Counted(b[28 + |s|..], p.payload)
  {
    var c := 28 + |s|;
    if |b| == 32 + |s| + |p.payload| {
      HeaderWritten(b[..24], p);
      CountedWritten(b[24..c], s);
      CountedWritten(b[c..], p.payload);
      assert b == b[..24] + b[24..c] + b[c..];
      var all := PutBody(p, s);
      assert all[..24] == PutHeader(p) && all[24..c] == PutU32(|s|) + s;
      assert all[c..] == PutU32(|p.payload|) + p.payload;
    }
  }

  lemma CoveredWritten(d: Bytes, body: Bytes)
    ensures d == Covered(body) <==> |d| == 8 + |body| && StartsWithMagic(d) && Counted(d[4..], body)
  {
    if |d| == 8 + |body| {
      CountedWritten(d[4..], body);
      MagicWritten(d[..4]);
      Joined(d, PutU32(MAGIC), PutU32(|body|) + body);
    }
    PacketTheorems.ConcatThree(PutU32(MAGIC), PutU32(|body|), body);
  }

  lemma MagicWritten(d: Bytes)
    requires |d| == 4
    ensures d == PutU32(MAGIC) <==> StartsWithMagic(d)
  {
    WritesFour(d, 0x4e485441);
  }

  lemma CheckBehind(frame: Bytes, covered: Bytes, check: uint32)
    ensures frame == covered + PutU32(check)
        <==> |frame| >= 4 && frame[..|frame| - 4] == covered && Four(frame, |frame| - 4) == check
  {
    Joined(frame, covered, PutU32(check));
    if |frame| >= 4 {
      WritesFour(frame[|frame| - 4..], check);
      FourFrom(frame, |frame| - 4);
    }
  }

  lemma EncodedParts(frame: Bytes, p: Packet, s: Bytes)
    requires PutSections(p) == Ok(s)
    ensures Encode(p) == Ok(frame)
        <==> |frame| >= 4 && frame[..|frame| - 4] == Covered(PutBody(p, s)) && Checked(frame)
  {
    var covered := Covered(PutBody(p, s));
    CheckBehind(frame, covered, Crc.Checksum(covered));
  }

  lemma FourTo(b: Bytes, hi: nat, at: nat)
    requires at + 4 <= hi <= |b|
    ensures Four(b[..hi], at) == Four(b, at)
  {
  }

  lemma FourBetween(b: Bytes, lo: nat, hi: nat)
    requires lo + 4 <= hi <= |b|
    ensures Four(b[lo..hi], 0) == Four(b, lo)
  {
  }

  lemma HeaderPlaced(frame: Bytes, covered: Bytes, p: Packet)
    requires |frame| >= 40 && covered == frame[..|frame| - 4]
    ensures HeaderLaid(frame, p) <==> StartsWithMagic(covered) && FieldsLaid(covered[8..][..24], p)
  {
    FieldsWithin(frame, |frame| - 4, p);
    assert covered[8..][..24] == frame[8..|frame| - 4][..24];
    FieldsFront(frame[8..|frame| - 4], p);
  }

  lemma FieldsFront(b: Bytes, p: Packet)
    requires |b| >= 24
    ensures FieldsLaid(b[..24], p) <==> FieldsLaid(b, p)
  {
    FourTo(b, 24, 2);
    FourTo(b, 24, 6);
    FourTo(b, 24, 10);
    FourTo(b, 24, 14);
    FourTo(b, 24, 18);
  }

  /** A stretch of the body is one of the frame. */
  lemma StretchPlaced(frame: Bytes, body: Bytes, lo: nat, hi: nat, x: Bytes)
    requires |frame| == |body| + 12 && body == frame[8..|frame| - 4] && lo + 4 <= hi <= |body| && x == body[lo..hi]
    ensures Four(x, 0) == Four(frame, 8 + lo) && x[4..] == frame[12 + lo..8 + hi]
  {
    var y, z := x[4..], frame[12 + lo..8 + hi];
    forall k | 0 <= k < |y|
      ensures y[k] == z[k]
    {
      assert x[4 + k] == body[lo + (4 + k)] == frame[8 + (lo + (4 + k))];
    }
    forall k | 0 <= k < 4
      ensures x[k] == frame[8 + lo + k]
    {
      assert x[k] == body[lo + k] == frame[8 + (lo + k)];
    }
  }

  /** The counted parts of a frame, at their places. */
  lemma CountsPlaced(frame: Bytes, covered: Bytes, body: Bytes, n: nat, m: nat)
    requires |frame| == 44 + n + m && covered == frame[..|frame| - 4] && body == covered[8..]
    ensures Four(covered[4..], 0) == Four(frame, 4) && covered[4..][4..] == body
    ensures Four(body[24..28 + n], 0) == Four(frame, 32) && body[24..28 + n][4..] == frame[36..36 + n]
    ensures Four(body[28 + n..], 0) == Four(frame, 36 + n) && body[28 + n..][4..] == frame[40 + n..40 + n + m]
  {
    FourFrom(covered, 4);
    FourTo(frame, |frame| - 4, 4);
    assert body == frame[8..|frame| - 4];
    StretchPlaced(frame, body, 24, 28 + n, body[24..28 + n]);
    StretchPlaced(frame, body, 28 + n, |body|, body[28 + n..]);
  }

  /** The parts of what the checksum covers. */
  predicate Parts(covered: Bytes, p: Packet, s: Bytes) {
    && |covered| == 40 + |s| + |p.payload|
    && var body := covered[8..];
       && StartsWithMagic(covered) && Counted(covered[4..], body) && FieldsLaid(body[..24], p)
       && Counted(body[24..28 + |s|], s) && Counted(body[28 + |s|..], p.payload)
  }

  lemma CoveredBody(covered: Bytes, p: Packet, s: Bytes)
    ensures covered == Covered(PutBody(p, s)) <==> Parts(covered, p, s)
  {
    CoveredWritten(covered, PutBody(p, s));
    if |covered| >= 8 {
      BodyWritten(covered[8..], p, s);
      assert covered[4..][4..] == covered[8..];
    }
  }

  lemma PartsPlaced(frame: Bytes, covered: Bytes, p: Packet, s: Bytes)
    requires |frame| == 44 + |s| + |p.payload| && covered == frame[..|frame| - 4]
    ensures Parts(covered, p, s) <==> PartsLaid(frame, p, |s|) && frame[36..36 + |s|] == s
  {
    HeaderPlaced(frame, covered, p);
    CountsPlaced(frame, covered, covered[8..], |s|, |p.payload|);
  }

  lemma CoveredParts(frame: Bytes, covered: Bytes, p: Packet, s: Bytes)
    requires |frame| >= 4 && covered == frame[..|frame| - 4]
    ensures covered == Covered(PutBody(p, s)) <==> PartsLaid(frame, p, |s|) && frame[36..36 + |s|] == s
  {
    CoveredBody(covered, p, s);
    if |frame| == 44 + |s| + |p.payload| {
      PartsPlaced(frame, covered, p, s);
    }
  }

  lemma FrameWritten(frame: Bytes, p: Packet, s: Bytes, n: nat)
    requires PutSections(p) == Ok(s) && n == |s|
    ensures Encode(p) == Ok(frame) <==> FrameLaid(frame, p, n) && frame[36..36 + n] == s
  {
    EncodedParts(frame, p, s);
    if |frame| >= 4 {
      CoveredParts(frame, frame[..|frame| - 4], p, s);
    }
  }

  /** A frame of `p` with the sections `list`, as the encoder writes it. */
  ghost predicate Written(frame: Bytes, p: Packet, n: nat, list: seq<Section>) {
    FrameLaid(frame, p, n) && SectionsLaid(frame[36..36 + n], list) && Writes(list, p)
  }

  lemma EncodedIsWritten(p: Packet, frame: Bytes) returns (n: nat, list: seq<Section>)
    requires Encode(p) == Ok(frame)
    ensures Written(frame, p, n, list)
  {
    n := |PutSections(p).value|;
    FrameWritten(frame, p, PutSections(p).value, n);
    list := SectionsFound(p);
  }

  lemma FrameEncoded(p: Packet, frame: Bytes, n: nat, s: Bytes, list: seq<Section>)
    requires SectionsLaid(s, list) && Writes(list, p)
    requires |s| == n && FrameLaid(frame, p, n) && frame[36..36 + n] == s
    ensures Encode(p) == Ok(frame)
  {
    SectionsAre(p, list, s);
    FrameWritten(frame, p, s, n);
  }

  lemma WrittenIsEncoded(p: Packet, frame: Bytes, n: nat, list: seq<Section>)
    requires Written(frame, p, n, list)
    ensures Encode(p) == Ok(frame)
  {
    FrameEncoded(p, frame, n, frame[36..36 + n], list);
  }

  /** The encoder's frame for a packet is the one and only one with every number at its place. */
  lemma WritesExactly(p: Packet, frame: Bytes)
    ensures Encode(p) == Ok(frame) <==> exists n: nat, list: seq<Section> :: Written(frame, p, n, list)
  {
    if Encode(p) == Ok(frame) {
      var n, list := EncodedIsWritten(p, frame);
    }
    forall n: nat, list: seq<Section> | Written(frame, p, n, list)
      ensures Encode(p) == Ok(frame)
    {
      WrittenIsEncoded(p, frame, n, list);
    }
  }

  // ----- which packets the encoder takes

  function NamesSize(names: seq<Bytes>): nat
    decreases |names|
  {
    if |names| == 0 then 0 else 2 + |names[0]| + NamesSize(names[1..])
  }

  lemma {:induction false} NamesFit(names: seq<Bytes>)
    ensures PutBands(names).Ok? ==> |PutBands(names).value| == NamesSize(names)
    ensures PutBands(names).Err? ==> PutBands(names).error == InvalidArgument && NamesSize(names) > 65535
    decreases |names|
  {
    if |names| > 0 {
      NamesFit(names[1..]);
    }
  }

  /** At most 32 hops and 16 bands, and every section within 65535 bytes. */
  predicate Encodable(p: Packet) {
    && (p.route.Some? ==> |p.route.value.relayPath| <= 32)
    && (p.capabilities.Some? ==>
         |p.capabilities.value.bands| <= 16 && 4 + NamesSize(p.capabilities.value.bands) <= 65535)
    && forall i | 0 <= i < |p.extensions| :: 4 + |p.extensions[i].value| <= 65535
  }

  lemma {:induction false} HopsSized(path: seq<uint16>)
    ensures |PutHops(path)| == 2 * |path|
    decreases |path|
  {
    if |path| > 0 {
      HopsSized(path[1..]);
    }
  }

  lemma {:induction false} ExtensionsFit(es: seq<Extension>)
    ensures ExtensionsPart(es).Ok? <==> forall i | 0 <= i < |es| :: 4 + |es[i].value| <= 65535
    ensures ExtensionsPart(es).Err? ==> ExtensionsPart(es).error == InvalidArgument
    decreases |es|
  {
    if |es| > 0 {
      ExtensionsFit(es[1..]);
      assert forall i | 1 <= i < |es| :: es[i] == es[1..][i - 1];
      assert forall i | 0 <= i < |es[1..]| :: es[1..][i] == es[i + 1];
    }
  }

  lemma CapsFit(c: DeviceCaps)
    ensures CapsPart(Some(c)).Ok? <==> |c.bands| <= 16 && 4 + NamesSize(c.bands) <= 65535
    ensures CapsPart(Some(c)).Err? ==> CapsPart(Some(c)).error == InvalidArgument
  {
    NamesFit(c.bands);
  }

  lemma RouteFits(r: Route)
    ensures RoutePart(Some(r)).Ok? <==> |r.relayPath| <= 32
    ensures RoutePart(Some(r)).Err? ==> RoutePart(Some(r)).error == InvalidArgument
  {
    HopsSized(r.relayPath);
  }

  lemma SectionsFit(p: Packet)
    ensures PutSections(p).Ok? <==> Encodable(p)
    ensures PutSections(p).Err? ==> PutSections(p).error == InvalidArgument
  {
    if p.route.Some? {
      RouteFits(p.route.value);
    }
    if p.capabilities.Some? {
      CapsFit(p.capabilities.value);
    }
    ExtensionsFit(p.extensions);
  }

  lemma EncodesExactly(p: Packet)
    ensures Encode(p).Ok? <==> Encodable(p)
    ensures Encode(p).Err? ==> Encode(p).error == InvalidArgument
  {
    SectionsFit(p);
  }
}
