/** What the packet codec writes it reads back: every section, the header and the frame, and the exact
    condition under which a packet survives the round trip. */
module PacketTheorems {
  import opened Words
  import opened Wrappers
  import opened Codec
  import opened Packets
  import Crc

  // ----- each section body is read back, and has the size it was read from

  lemma FragmentBack(f: Fragment, rest: Bytes)
    ensures GetFragment(PutFragment(f) + rest)
         == if CoordinatesOk(f) then Ok(Parsed(f, rest)) else Err(MalformedPacket)
  {
    var count := PutU16(f.count) + rest;
    var sequence := PutU16(f.sequence) + count;
    assert PutFragment(f) + rest == PutU32(f.streamId) + sequence;
    ReadBackU32(f.streamId, sequence);
    ReadBackU16(f.sequence, count);
    ReadBackU16(f.count, rest);
    FragmentFields(PutFragment(f) + rest, f, sequence, count, rest);
  }

  lemma FragmentFields(data: Bytes, f: Fragment, sequence: Bytes, count: Bytes, rest: Bytes)
    requires ReadU32(data) == Ok(Parsed(f.streamId, sequence))
    requires ReadU16(sequence) == Ok(Parsed(f.sequence, count)) && ReadU16(count) == Ok(Parsed(f.count, rest))
    ensures GetFragment(data) == if CoordinatesOk(f) then Ok(Parsed(f, rest)) else Err(MalformedPacket)
  {
  }

  lemma {:induction false} HopsBack(hops: seq<uint16>, rest: Bytes)
    ensures GetHops(PutHops(hops) + rest, |hops|) == Ok(Parsed(hops, rest))
    decreases |hops|
  {
    if |hops| == 0 {
      assert PutHops(hops) + rest == rest;
    } else {
      assert PutHops(hops) + rest == PutU16(hops[0]) + (PutHops(hops[1..]) + rest);
      ReadBackU16(hops[0], PutHops(hops[1..]) + rest);
      HopsBack(hops[1..], rest);
      assert [hops[0]] + hops[1..] == hops;
    }
  }

  lemma {:induction false} HopsSize(data: Bytes, n: nat)
    requires GetHops(data, n).Ok?
    ensures var r := GetHops(data, n).value;
      |r.value| == n && |PutHops(r.value)| + |r.rest| == |data|
    decreases n
  {
    if n > 0 {
      var hop := ReadU16(data).value;
      HopsSize(hop.rest, n - 1);
      assert GetHops(data, n).value.value[1..] == GetHops(hop.rest, n - 1).value.value;
    }
  }

  lemma RouteBack(r: Route, rest: Bytes)
    requires PutRoute(r).Ok?
    ensures GetRoute(PutRoute(r).value + rest) == Ok(Parsed(r, rest))
  {
    var path := PutHops(r.relayPath) + rest;
    var hops := PutU8(|r.relayPath|) + path;
    var priority := PutU8(r.priority) + hops;
    var collector := PutU16(r.collector) + priority;
    assert PutRoute(r).value + rest == PutU16(r.region) + collector;
    ReadBackU16(r.region, collector);
    ReadBackU16(r.collector, priority);
    assert priority[1..] == hops && hops[1..] == path;
    HopsBack(r.relayPath, rest);
  }

  lemma RouteSize(data: Bytes)
    requires GetRoute(data).Ok?
    ensures var r := GetRoute(data).value;
      PutRoute(r.value).Ok? && |PutRoute(r.value).value| + |r.rest| == |data|
  {
    var region := ReadU16(data).value;
    var collector := ReadU16(region.rest).value;
    var priority := ReadU8(collector.rest).value;
    var hops := ReadU8(priority.rest).value;
    HopsSize(hops.rest, hops.value);
  }

  predicate BandsOk(bands: seq<Bytes>) {
    forall i | 0 <= i < |bands| :: |bands[i]| <= 64
  }

  lemma BandsOkCons(bands: seq<Bytes>)
    requires |bands| > 0
    ensures BandsOk(bands) <==> |bands[0]| <= 64 && BandsOk(bands[1..])
  {
    if BandsOk(bands[1..]) {
      assert forall i | 1 <= i < |bands| :: bands[i] == bands[1..][i - 1];
    }
  }

  lemma ConcatThree(a: Bytes, b: Bytes, c: Bytes)
    ensures a + b + c == a + (b + c)
  {
  }

  lemma BandsShape(bands: seq<Bytes>, rest: Bytes)
    requires |bands| > 0 && PutBands(bands).Ok?
    ensures PutString(bands[0]).Ok? && PutBands(bands[1..]).Ok?
    ensures PutBands(bands).value + rest == PutString(bands[0]).value + (PutBands(bands[1..]).value + rest)
  {
    ConcatThree(PutString(bands[0]).value, PutBands(bands[1..]).value, rest);
  }

  /** A first band in front of bands that read back as they should. */
  lemma BandsRead(data: Bytes, bands: seq<Bytes>, later: Bytes, rest: Bytes)
    requires |bands| > 0
    requires ReadString(data, 64) == if |bands[0]| <= 64 then Ok(Parsed(bands[0], later)) else Err(MalformedPacket)
    requires GetBands(later, |bands| - 1)
          == if BandsOk(bands[1..]) then Ok(Parsed(bands[1..], rest)) else Err(MalformedPacket)
    ensures GetBands(data, |bands|) == if BandsOk(bands) then Ok(Parsed(bands, rest)) else Err(MalformedPacket)
  {
    BandsOkCons(bands);
    assert [bands[0]] + bands[1..] == bands;
  }

  lemma {:induction false} BandsBack(bands: seq<Bytes>, rest: Bytes)
    requires PutBands(bands).Ok?
    ensures GetBands(PutBands(bands).value + rest, |bands|)
         == if BandsOk(bands) then Ok(Parsed(bands, rest)) else Err(MalformedPacket)
    decreases |bands|
  {
    if |bands| == 0 {
      assert PutBands(bands).value + rest == rest;
    } else {
      BandsShape(bands, rest);
      var later := PutBands(bands[1..]).value + rest;
      ReadBackString(bands[0], 64, later);
      BandsBack(bands[1..], rest);
      BandsRead(PutBands(bands).value + rest, bands, later, rest);
    }
  }

  lemma {:induction false} BandsSize(data: Bytes, n: nat)
    requires GetBands(data, n).Ok?
    ensures var r := GetBands(data, n).value;
      |r.value| == n && BandsOk(r.value) && PutBands(r.value).Ok?
      && |PutBands(r.value).value| + |r.rest| == |data|
    decreases n
  {
    if n > 0 {
      var band := ReadString(data, 64).value;
      BandsSize(band.rest, n - 1);
      assert GetBands(data, n).value.value[1..] == GetBands(band.rest, n - 1).value.value;
    }
  }

  lemma FlagsBack(c: DeviceCaps)
    ensures var f := Flags(c);
      (f % 2 == 1) == c.compression && (f / 2 % 2 == 1) == c.encryption && (f / 4 % 2 == 1) == c.gpsTime
  {
  }

  /** The fields before the bands. */
  lemma CapsHeadBack(flags: uint8, maxPayload: uint16, count: uint8, bands: Bytes)
    ensures var data := PutU8(flags) + (PutU16(maxPayload) + (PutU8(count) + bands));
      ReadU8(data) == Ok(Parsed(flags, PutU16(maxPayload) + (PutU8(count) + bands)))
      && ReadU16(PutU16(maxPayload) + (PutU8(count) + bands)) == Ok(Parsed(maxPayload, PutU8(count) + bands))
      && ReadU8(PutU8(count) + bands) == Ok(Parsed(count, bands))
  {
    ReadBackU16(maxPayload, PutU8(count) + bands);
    assert (PutU8(count) + bands)[1..] == bands;
    var data := PutU8(flags) + (PutU16(maxPayload) + (PutU8(count) + bands));
    assert data[1..] == PutU16(maxPayload) + (PutU8(count) + bands);
  }

  lemma CapsBack(c: DeviceCaps, rest: Bytes)
    requires PutCaps(c).Ok?
    ensures GetCaps(PutCaps(c).value + rest)
         == if BandsOk(c.bands) then Ok(Parsed(c, rest)) else Err(MalformedPacket)
  {
    var bands := PutBands(c.bands).value + rest;
    var data := PutU8(Flags(c)) + (PutU16(c.maxPayload) + (PutU8(|c.bands|) + bands));
    assert PutCaps(c).value + rest == data;
    CapsHeadBack(Flags(c), c.maxPayload, |c.bands|, bands);
    BandsBack(c.bands, rest);
    FlagsBack(c);
  }

  lemma CapsSize(data: Bytes)
    requires GetCaps(data).Ok?
    ensures var r := GetCaps(data).value;
      PutCaps(r.value).Ok? && BandsOk(r.value.bands) && |PutCaps(r.value).value| + |r.rest| == |data|
  {
    var flags := ReadU8(data).value;
    var maxPayload := ReadU16(flags.rest).value;
    var count := ReadU8(maxPayload.rest).value;
    BandsSize(count.rest, count.value);
  }

  lemma ExtensionBack(e: Extension, rest: Bytes)
    requires |e.value| <= 65535
    ensures GetExtension(PutExtension(e) + rest) == Ok(Parsed(e, rest))
  {
    var value := e.value + rest;
    assert PutExtension(e) + rest == PutU16(e.kind) + (PutU16(|e.value|) + value);
    ReadBackU16(e.kind, PutU16(|e.value|) + value);
    ReadBackU16(|e.value|, value);
    TakeBack(e.value, rest);
  }

  // ----- the section list

  lemma SectionShape(id: uint8, body: Bytes, rest: Bytes)
    requires PutSection(id, body).Ok?
    ensures var data := PutSection(id, body).value + rest;
      |data| > 0 && data[0] == id && data[1..] == PutU16(|body|) + (body + rest)
  {
  }

  /** How the section loop goes on after a section it could read. */
  lemma NextSection(p: Packet, data: Bytes, body: Bytes, rest: Bytes, step: SectionStep)
    requires |data| > 0 && data[0] != 0 && |body| <= 65535
    requires ReadU16(data[1..]) == Ok(Parsed(|body|, body + rest))
    requires Take(body + rest, |body|) == Ok(Parsed(body, rest))
    ensures GetSections(p, data, step)
         == var q := step(p, data[0], body);
            if q.Ok? then GetSections(q.value, rest, step) else q
  {
  }

  /** Reading a written section applies its body and goes on with the rest. */
  lemma SectionBack(p: Packet, id: uint8, body: Bytes, rest: Bytes, step: SectionStep)
    requires id != 0 && PutSection(id, body).Ok?
    ensures GetSections(p, PutSection(id, body).value + rest, step)
         == var q := step(p, id, body);
            if q.Ok? then GetSections(q.value, rest, step) else q
  {
    var data := PutSection(id, body).value + rest;
    SectionShape(id, body, rest);
    ReadBackU16(|body|, body + rest);
    TakeBack(body, rest);
    NextSection(p, data, body, rest, step);
  }

  /** `step` reads back each kind of section the encoder writes. */
  ghost predicate ReadsFragments(step: SectionStep) {
    forall p: Packet, f: Fragment :: step(p, FRAGMENT_SECTION, PutFragment(f)) == WithFragment(p, f)
  }

  ghost predicate ReadsRoutes(step: SectionStep) {
    forall p: Packet, r: Route | PutRoute(r).Ok? ::
      step(p, ROUTE_SECTION, PutRoute(r).value) == Ok(p.(route := Some(r)))
  }

  ghost predicate ReadsCaps(step: SectionStep) {
    forall p: Packet, c: DeviceCaps | PutCaps(c).Ok? ::
      step(p, CAPABILITIES_SECTION, PutCaps(c).value) == WithCaps(p, c)
  }

  ghost predicate ReadsExtensions(step: SectionStep) {
    forall p: Packet, e: Extension | |e.value| <= 65535 ::
      step(p, EXTENSION_SECTION, PutExtension(e)) == Ok(p.(extensions := p.extensions + [e]))
  }

  function WithFragment(p: Packet, f: Fragment): Result<Packet> {
    if CoordinatesOk(f) then Ok(p.(fragment := Some(f))) else Err(MalformedPacket)
  }

  function WithCaps(p: Packet, c: DeviceCaps): Result<Packet> {
    if BandsOk(c.bands) then Ok(p.(capabilities := Some(c))) else Err(MalformedPacket)
  }

  ghost predicate ReadsBack(step: SectionStep) {
    ReadsFragments(step) && ReadsRoutes(step) && ReadsCaps(step) && ReadsExtensions(step)
  }

  lemma StepFragment(p: Packet, f: Fragment, strict: bool)
    ensures ApplySection(p, FRAGMENT_SECTION, PutFragment(f), strict) == WithFragment(p, f)
  {
    FragmentBack(f, []);
    assert PutFragment(f) + [] == PutFragment(f);
  }

  lemma StepRoute(p: Packet, r: Route, strict: bool)
    requires PutRoute(r).Ok?
    ensures ApplySection(p, ROUTE_SECTION, PutRoute(r).value, strict) == Ok(p.(route := Some(r)))
  {
    RouteBack(r, []);
    assert PutRoute(r).value + [] == PutRoute(r).value;
  }

  lemma StepCaps(p: Packet, c: DeviceCaps, strict: bool)
    requires PutCaps(c).Ok?
    ensures ApplySection(p, CAPABILITIES_SECTION, PutCaps(c).value, strict) == WithCaps(p, c)
  {
    CapsBack(c, []);
    assert PutCaps(c).value + [] == PutCaps(c).value;
  }

  lemma StepExtension(p: Packet, e: Extension, strict: bool)
    requires |e.value| <= 65535
    ensures ApplySection(p, EXTENSION_SECTION, PutExtension(e), strict)
         == Ok(p.(extensions := p.extensions + [e]))
  {
    ExtensionBack(e, []);
    assert PutExtension(e) + [] == PutExtension(e);
  }

  lemma ApplierReadsBack(strict: bool)
    ensures ReadsBack(Applier(strict))
  {
    var step := Applier(strict);
    forall p: Packet, f: Fragment
      ensures step(p, FRAGMENT_SECTION, PutFragment(f)) == WithFragment(p, f)
    {
      StepFragment(p, f, strict);
    }
    forall p: Packet, r: Route | PutRoute(r).Ok?
      ensures step(p, ROUTE_SECTION, PutRoute(r).value) == Ok(p.(route := Some(r)))
    {
      StepRoute(p, r, strict);
    }
    forall p: Packet, c: DeviceCaps | PutCaps(c).Ok?
      ensures step(p, CAPABILITIES_SECTION, PutCaps(c).value) == WithCaps(p, c)
    {
      StepCaps(p, c, strict);
    }
    forall p: Packet, e: Extension | |e.value| <= 65535
      ensures step(p, EXTENSION_SECTION, PutExtension(e)) == Ok(p.(extensions := p.extensions + [e]))
    {
      StepExtension(p, e, strict);
    }
  }

  lemma ExtensionsSplit(es: seq<Extension>, rest: Bytes)
    requires |es| > 0 && ExtensionsPart(es).Ok?
    ensures PutSection(EXTENSION_SECTION, PutExtension(es[0])).Ok? && |es[0].value| <= 65535
    ensures ExtensionsPart(es[1..]).Ok?
    ensures ExtensionsPart(es).value + rest
         == PutSection(EXTENSION_SECTION, PutExtension(es[0])).value + (ExtensionsPart(es[1..]).value + rest)
  {
  }

  lemma AppendSplit<T>(xs: seq<T>, ys: seq<T>)
    requires |ys| > 0
    ensures xs + [ys[0]] + ys[1..] == xs + ys
  {
  }

  lemma {:induction false} ExtensionsBack(p: Packet, es: seq<Extension>, rest: Bytes, step: SectionStep)
    requires ExtensionsPart(es).Ok? && ReadsExtensions(step)
    ensures GetSections(p, ExtensionsPart(es).value + rest, step)
         == GetSections(p.(extensions := p.extensions + es), rest, step)
    decreases |es|
  {
    if |es| == 0 {
      assert ExtensionsPart(es).value + rest == rest;
      assert p.extensions + es == p.extensions;
    } else {
      ExtensionsSplit(es, rest);
      var q := p.(extensions := p.extensions + [es[0]]);
      var more := ExtensionsPart(es[1..]).value + rest;
      assert GetSections(p, ExtensionsPart(es).value + rest, step) == GetSections(q, more, step) by {
        SectionBack(p, EXTENSION_SECTION, PutExtension(es[0]), more, step);
      }
      AppendSplit(p.extensions, es);
      ExtensionsBack(q, es[1..], rest, step);
    }
  }

  /** What the decoder demands of a packet beyond what the encoder checks. */
  predicate WireOk(p: Packet) {
    && (p.fragment.Some? ==> CoordinatesOk(p.fragment.value))
    && (p.capabilities.Some? ==> BandsOk(p.capabilities.value.bands))
  }

  lemma FragmentPartBack(p: Packet, f: Option<Fragment>, rest: Bytes, step: SectionStep)
    requires FragmentPart(f).Ok? && ReadsFragments(step)
    ensures GetSections(p, FragmentPart(f).value + rest, step)
         == if f.None? then GetSections(p, rest, step)
            else if CoordinatesOk(f.value) then GetSections(p.(fragment := f), rest, step)
            else Err(MalformedPacket)
  {
    if f.None? {
      assert FragmentPart(f).value + rest == rest;
    } else {
      SectionBack(p, FRAGMENT_SECTION, PutFragment(f.value), rest, step);
    }
  }

  lemma RoutePartBack(p: Packet, r: Option<Route>, rest: Bytes, step: SectionStep)
    requires RoutePart(r).Ok? && ReadsRoutes(step)
    ensures GetSections(p, RoutePart(r).value + rest, step)
         == if r.None? then GetSections(p, rest, step) else GetSections(p.(route := r), rest, step)
  {
    if r.None? {
      assert RoutePart(r).value + rest == rest;
    } else {
      SectionBack(p, ROUTE_SECTION, PutRoute(r.value).value, rest, step);
    }
  }

  lemma CapsPartBack(p: Packet, c: Option<DeviceCaps>, rest: Bytes, step: SectionStep)
    requires CapsPart(c).Ok? && ReadsCaps(step)
    ensures GetSections(p, CapsPart(c).value + rest, step)
         == if c.None? then GetSections(p, rest, step)
            else if BandsOk(c.value.bands) then GetSections(p.(capabilities := c), rest, step)
            else Err(MalformedPacket)
  {
    if c.None? {
      assert CapsPart(c).value + rest == rest;
    } else {
      SectionBack(p, CAPABILITIES_SECTION, PutCaps(c.value).value, rest, step);
    }
  }

  lemma SectionsShape(p: Packet)
    requires PutSections(p).Ok?
    ensures FragmentPart(p.fragment).Ok? && RoutePart(p.route).Ok? && CapsPart(p.capabilities).Ok?
    ensures ExtensionsPart(p.extensions).Ok?
    ensures PutSections(p).value
         == FragmentPart(p.fragment).value
            + (RoutePart(p.route).value
               + (CapsPart(p.capabilities).value + (ExtensionsPart(p.extensions).value + [0])))
  {
    ConcatFive(FragmentPart(p.fragment).value, RoutePart(p.route).value, CapsPart(p.capabilities).value,
               ExtensionsPart(p.extensions).value, [0]);
  }

  lemma ConcatFive(a: Bytes, b: Bytes, c: Bytes, d: Bytes, e: Bytes)
    ensures a + b + c + d + e == a + (b + (c + (d + e)))
  {
  }

  /** A packet without sections and payload. */
  function Bare(p: Packet): Packet {
    p.(fragment := None, route := None, capabilities := None, extensions := [], payload := [])
  }

  lemma TerminatorBack(p: Packet, step: SectionStep)
    ensures GetSections(p, [0], step) == Ok(p)
  {
    assert [0 as uint8][1..] == [];
  }

  /** Written sections are read back onto a packet that has none. */
  lemma SectionsBack(p: Packet, step: SectionStep)
    requires PutSections(p).Ok? && ReadsBack(step)
    ensures GetSections(Bare(p), PutSections(p).value, step)
         == if WireOk(p) then Ok(p.(payload := [])) else Err(MalformedPacket)
  {
    SectionsShape(p);
    var b1 := Bare(p).(fragment := p.fragment);
    var b2 := b1.(route := p.route);
    var b3 := b2.(capabilities := p.capabilities);
    var extensions := ExtensionsPart(p.extensions).value + [0];
    var capabilities := CapsPart(p.capabilities).value + extensions;
    var route := RoutePart(p.route).value + capabilities;
    FragmentPartBack(Bare(p), p.fragment, route, step);
    RoutePartBack(b1, p.route, capabilities, step);
    CapsPartBack(b2, p.capabilities, extensions, step);
    ExtensionsBack(b3, p.extensions, [0], step);
    assert b3.(extensions := b3.extensions + p.extensions) == p.(payload := []);
    TerminatorBack(p.(payload := []), step);
  }

  // ----- the frame

  lemma ReadBackU8(v: uint8, rest: Bytes)
    ensures ReadU8(PutU8(v) + rest) == Ok(Parsed(v, rest))
  {
    assert (PutU8(v) + rest)[1..] == rest;
  }

  lemma HeaderShape(p: Packet, rest: Bytes)
    ensures PutHeader(p) + rest
         == PutU8(PutVersion(p.version)) + (PutU8(PutKind(p.kind)) + (PutU64(p.device)
            + (PutU64(p.timestamp) + (PutU32(p.sequence) + (PutU8(p.compression)
            + (PutU8(p.encryption) + rest))))))
  {
  }

  /** Reading a header field by field, whatever the bytes are. */
  lemma HeaderFields(p: Packet, data: Bytes, kind: Bytes, device: Bytes, timestamp: Bytes, sequence: Bytes,
                     compression: Bytes, encryption: Bytes, rest: Bytes)
    requires ReadU8(data) == Ok(Parsed(PutVersion(p.version), kind))
    requires ReadU8(kind) == Ok(Parsed(PutKind(p.kind), device))
    requires ReadU64(device) == Ok(Parsed(p.device, timestamp))
    requires ReadU64(timestamp) == Ok(Parsed(p.timestamp, sequence))
    requires ReadU32(sequence) == Ok(Parsed(p.sequence, compression))
    requires ReadU8(compression) == Ok(Parsed(p.compression, encryption))
    requires ReadU8(encryption) == Ok(Parsed(p.encryption, rest))
    ensures GetHeader(data) == Ok(Parsed(Bare(p), rest))
  {
  }

  lemma HeaderBack(p: Packet, rest: Bytes)
    ensures GetHeader(PutHeader(p) + rest) == Ok(Parsed(Bare(p), rest))
  {
    HeaderShape(p, rest);
    var encryption := PutU8(p.encryption) + rest;
    var compression := PutU8(p.compression) + encryption;
    var sequence := PutU32(p.sequence) + compression;
    var timestamp := PutU64(p.timestamp) + sequence;
    var device := PutU64(p.device) + timestamp;
    var kind := PutU8(PutKind(p.kind)) + device;
    ReadBackU8(PutVersion(p.version), kind);
    ReadBackU8(PutKind(p.kind), device);
    ReadBackU64(p.device, timestamp);
    ReadBackU64(p.timestamp, sequence);
    ReadBackU32(p.sequence, compression);
    ReadBackU8(p.compression, encryption);
    ReadBackU8(p.encryption, rest);
    HeaderFields(p, PutHeader(p) + rest, kind, device, timestamp, sequence, compression, encryption, rest);
  }

  lemma BlobBack(s: Bytes, rest: Bytes)
    requires |s| < TWO_32
    ensures ReadU32((PutU32(|s|) + s) + rest) == Ok(Parsed(|s|, s + rest))
    ensures Take(s + rest, |s|) == Ok(Parsed(s, rest))
  {
    assert (PutU32(|s|) + s) + rest == PutU32(|s|) + (s + rest);
    ReadBackU32(|s|, s + rest);
    TakeBack(s, rest);
  }

  lemma BodyBack(p: Packet, strict: bool)
    requires PutSections(p).Ok? && |PutSections(p).value| < TWO_32 && |p.payload| < TWO_32
    ensures GetBody(PutBody(p, PutSections(p).value), strict)
         == if WireOk(p) then Ok(p) else Err(MalformedPacket)
  {
    var sections := PutSections(p).value;
    var payload := PutU32(|p.payload|) + p.payload;
    var blob := PutU32(|sections|) + sections;
    assert PutBody(p, sections) == PutHeader(p) + (blob + payload);
    HeaderBack(p, blob + payload);
    BlobBack(sections, payload);
    ApplierReadsBack(strict);
    SectionsBack(p, Applier(strict));
    BlobBack(p.payload, []);
    assert payload + [] == payload && p.payload + [] == p.payload;
  }

  lemma FrameSlices(a: Bytes, b: Bytes, body: Bytes, c: Bytes)
    requires |a| == 4 && |b| == 4 && |c| == 4
    ensures var frame := a + b + body + c;
      && |frame| == |body| + 12
      && frame[0..4] == a && frame[4..8] == b && frame[8..|frame| - 4] == body
      && frame[..|frame| - 4] == a + b + body && frame[|frame| - 4..|frame| - 4 + 4] == c
  {
  }

  /** The words of a frame, whatever its magic word and length word. */
  lemma FrameWords(magic: uint32, size: nat, body: Bytes, crc: uint32)
    ensures var frame := PutU32(magic) + PutU32(size) + body + PutU32(crc);
      && |frame| == |body| + 12
      && WordAt(frame, 0) == magic && WordAt(frame, 4) == size % TWO_32 && WordAt(frame, |frame| - 4) == crc
      && frame[8..|frame| - 4] == body && frame[..|frame| - 4] == PutU32(magic) + PutU32(size) + body
  {
    FrameSlices(PutU32(magic), PutU32(size), body, PutU32(crc));
    WordOfBytes(magic);
    WordOfBytes(size);
    WordOfBytes(crc);
  }

  lemma FrameShape(body: Bytes, crc: uint32)
    ensures var frame := Covered(body) + PutU32(crc);
      |frame| == |body| + 12
      && WordAt(frame, 0) == MAGIC && WordAt(frame, 4) == |body| % TWO_32
      && frame[8..|frame| - 4] == body
      && frame[..|frame| - 4] == Covered(body) && WordAt(frame, |frame| - 4) == crc
  {
    FrameWords(MAGIC, |body|, body, crc);
  }

  lemma WordOfBytes(v: nat)
    ensures LeValue(PutU32(v)) == v % TWO_32
  {
    Pow256Values();
    LowBytes(v, 4);
    ValueOfBytes(v % TWO_32, 4);
  }

  lemma ShapedLength(size: nat)
    requires size >= 12
    ensures Wrap32((size - 12) % TWO_32 + 12) == size <==> size < TWO_32
  {
    LengthTest((size - 12) % TWO_32, size);
  }

  lemma WellShaped(frame: Bytes, options: DecodeOptions)
    requires |frame| >= 12
    requires WordAt(frame, 0) == MAGIC && WordAt(frame, 4) == (|frame| - 12) % TWO_32
    requires WordAt(frame, |frame| - 4) == Crc.Checksum(frame[..|frame| - 4])
    ensures EnvelopeError(frame, options)
         == if |frame| <= options.maxPacketSize && |frame| < TWO_32 then None else Some(MalformedPacket)
  {
    ShapedLength(|frame|);
  }

  /** A frame around any body is accepted up to its body, within the limit and the length field. */
  lemma FrameBack(body: Bytes, options: DecodeOptions)
    ensures Decode(Covered(body) + PutU32(Crc.Checksum(Covered(body))), options)
         == if |body| + 12 <= options.maxPacketSize && |body| + 12 < TWO_32
            then GetBody(body, options.requireKnown) else Err(MalformedPacket)
  {
    FrameShape(body, Crc.Checksum(Covered(body)));
    WellShaped(Covered(body) + PutU32(Crc.Checksum(Covered(body))), options);
  }

  /** The size of what `Encode` produces, before any 32-bit field is narrowed. */
  lemma EncodedSize(p: Packet)
    requires Encode(p).Ok?
    ensures |Encode(p).value| == |PutBody(p, PutSections(p).value)| + 12
    ensures |Encode(p).value| == 44 + |PutSections(p).value| + |p.payload|
  {
  }

  lemma EncodedFrame(p: Packet) returns (body: Bytes)
    requires Encode(p).Ok?
    ensures Encode(p).value == Covered(body) + PutU32(Crc.Checksum(Covered(body)))
  {
    body := PutBody(p, PutSections(p).value);
  }

  /** The magic word and the length word of whatever `Encode` produces. */
  lemma FrameOfPacket(p: Packet, frame: Bytes)
    requires Encode(p) == Ok(frame)
    ensures |frame| >= 12 && WordAt(frame, 0) == MAGIC && WordAt(frame, 4) == (|frame| - 12) % TWO_32
  {
    var body := EncodedFrame(p);
    FrameShape(body, Crc.Checksum(Covered(body)));
  }

  /** Decoding an encoded packet, exactly: the packet comes back if and only if its fragment
      coordinates and band names are ones the decoder accepts, and the frame is within both the
      configured limit and the 32-bit length field.  Nothing else can come back. */
  lemma RoundTripExact(p: Packet, options: DecodeOptions)
    requires Encode(p).Ok?
    ensures var frame := Encode(p).value;
      Decode(frame, options)
      == if WireOk(p) && |frame| <= options.maxPacketSize && |frame| < TWO_32 then Ok(p)
         else Err(MalformedPacket)
  {
    EncodedSize(p);
    FrameBack(PutBody(p, PutSections(p).value), options);
    if |Encode(p).value| < TWO_32 {
      BodyBack(p, options.requireKnown);
    }
  }
}
