/** The packet codec as the source runs it, writing and reading through cursors; each method is
    proved to compute the function of module Packets that the theorems are about. */
module PacketCodec {
  import opened Words
  import opened Wrappers
  import opened Codec
  import opened Packets
  import Crc

  // ----- encoding

  method WriteFragment(w: BinaryWriter, f: Fragment)
    modifies w
    ensures w.buffer == old(w.buffer) + PutFragment(f)
  {
    w.U32(f.streamId);
    w.U16(f.sequence);
    w.U16(f.count);
  }

  method WriteHops(w: BinaryWriter, hops: seq<uint16>)
    modifies w
    ensures w.buffer == old(w.buffer) + PutHops(hops)
  {
    for i := 0 to |hops|
      invariant w.buffer + PutHops(hops[i..]) == old(w.buffer) + PutHops(hops)
    {
      assert hops[i..][1..] == hops[i + 1..];
      w.U16(hops[i]);
    }
    assert hops[|hops|..] == [];
  }

  method WriteRoute(w: BinaryWriter, route: Route) returns (r: Result<()>)
    modifies w
    ensures r.Ok? <==> PutRoute(route).Ok?
    ensures r.Ok? ==> w.buffer == old(w.buffer) + PutRoute(route).value
    ensures r.Err? ==> r.error == PutRoute(route).error
  {
    w.U16(route.region);
    w.U16(route.collector);
    w.U8(route.priority);
    if |route.relayPath| > 32 {
      return Err(InvalidArgument);
    }
    w.U8(|route.relayPath|);
    WriteHops(w, route.relayPath);
    assert w.buffer == old(w.buffer) + PutRoute(route).value;
    r := Ok(());
  }

  method WriteBands(w: BinaryWriter, bands: seq<Bytes>) returns (r: Result<()>)
    modifies w
    ensures r.Ok? <==> PutBands(bands).Ok?
    ensures r.Ok? ==> w.buffer == old(w.buffer) + PutBands(bands).value
    ensures r.Err? ==> r.error == PutBands(bands).error
  {
    for i := 0 to |bands|
      invariant PutBands(bands[i..]).Ok? <==> PutBands(bands).Ok?
      invariant PutBands(bands).Err? ==> PutBands(bands) == PutBands(bands[i..])
      invariant PutBands(bands).Ok? ==>
        w.buffer + PutBands(bands[i..]).value == old(w.buffer) + PutBands(bands).value
    {
      assert bands[i..][1..] == bands[i + 1..];
      var _ :- w.String(bands[i]);
    }
    assert bands[|bands|..] == [];
    r := Ok(());
  }

  method WriteCapabilities(w: BinaryWriter, caps: DeviceCaps) returns (r: Result<()>)
    modifies w
    ensures r.Ok? <==> PutCaps(caps).Ok?
    ensures r.Ok? ==> w.buffer == old(w.buffer) + PutCaps(caps).value
    ensures r.Err? ==> r.error == PutCaps(caps).error
  {
    w.U8(Flags(caps));
    w.U16(caps.maxPayload);
    if |caps.bands| > 16 {
      return Err(InvalidArgument);
    }
    w.U8(|caps.bands|);
    var _ :- WriteBands(w, caps.bands);
    assert w.buffer == old(w.buffer) + PutCaps(caps).value;
    r := Ok(());
  }

  method WriteSection(out: BinaryWriter, id: uint8, section: Bytes) returns (r: Result<()>)
    modifies out
    ensures r.Ok? <==> PutSection(id, section).Ok?
    ensures r.Ok? ==> out.buffer == old(out.buffer) + PutSection(id, section).value
    ensures r.Err? ==> r.error == PutSection(id, section).error
  {
    if |section| > 65535 {
      return Err(InvalidArgument);
    }
    out.U8(id);
    out.U16(|section|);
    out.Put(section);
    r := Ok(());
  }

  method WriteExtensions(out: BinaryWriter, extensions: seq<Extension>) returns (r: Result<()>)
    modifies out
    ensures r.Ok? <==> ExtensionsPart(extensions).Ok?
    ensures r.Ok? ==> out.buffer == old(out.buffer) + ExtensionsPart(extensions).value
    ensures r.Err? ==> r.error == ExtensionsPart(extensions).error
  {
    for i := 0 to |extensions|
      invariant ExtensionsPart(extensions[i..]).Ok? <==> ExtensionsPart(extensions).Ok?
      invariant ExtensionsPart(extensions).Err? ==>
        ExtensionsPart(extensions) == ExtensionsPart(extensions[i..])
      invariant ExtensionsPart(extensions).Ok? ==>
        out.buffer + ExtensionsPart(extensions[i..]).value == old(out.buffer) + ExtensionsPart(extensions).value
    {
      assert extensions[i..][1..] == extensions[i + 1..];
      var s := new BinaryWriter();
      s.U16(extensions[i].kind);
      s.U16(|extensions[i].value|);
      s.Put(extensions[i].value);
      assert s.buffer == PutExtension(extensions[i]);
      var _ :- WriteSection(out, EXTENSION_SECTION, s.buffer);
    }
    assert extensions[|extensions|..] == [];
    r := Ok(());
  }

  method EncodePayloadSections(p: Packet) returns (r: Result<Bytes>)
    ensures r == PutSections(p)
  {
    var out := new BinaryWriter();
    if p.fragment.Some? {
      var s := new BinaryWriter();
      WriteFragment(s, p.fragment.value);
      assert s.buffer == PutFragment(p.fragment.value);
      var written := WriteSection(out, FRAGMENT_SECTION, s.buffer);
    }
    ghost var fragment := out.buffer;
    assert FragmentPart(p.fragment).Ok? && FragmentPart(p.fragment).value == fragment;
    if p.route.Some? {
      var s := new BinaryWriter();
      var _ :- WriteRoute(s, p.route.value);
      assert s.buffer == PutRoute(p.route.value).value;
      var _ :- WriteSection(out, ROUTE_SECTION, s.buffer);
    }
    ghost var route := out.buffer;
    assert RoutePart(p.route).Ok? && route == fragment + RoutePart(p.route).value;
    if p.capabilities.Some? {
      var s := new BinaryWriter();
      var _ :- WriteCapabilities(s, p.capabilities.value);
      assert s.buffer == PutCaps(p.capabilities.value).value;
      var _ :- WriteSection(out, CAPABILITIES_SECTION, s.buffer);
    }
    assert CapsPart(p.capabilities).Ok? && out.buffer == route + CapsPart(p.capabilities).value;
    var _ :- WriteExtensions(out, p.extensions);
    out.U8(0);
    r := Ok(out.buffer);
  }

  method WriteHeader(w: BinaryWriter, p: Packet)
    modifies w
    ensures w.buffer == old(w.buffer) + PutHeader(p)
  {
    w.U8(PutVersion(p.version));
    w.U8(PutKind(p.kind));
    w.U64(p.device);
    w.U64(p.timestamp);
    w.U32(p.sequence);
    w.U8(p.compression);
    w.U8(p.encryption);
  }

  method WriteBlob(w: BinaryWriter, s: Bytes)
    modifies w
    ensures w.buffer == old(w.buffer) + (PutU32(|s|) + s)
  {
    w.U32(|s|);
    w.Put(s);
  }

  method WriteFrame(body: Bytes) returns (r: Bytes)
    ensures r == Covered(body) + PutU32(Crc.Checksum(Covered(body)))
  {
    var frame := new BinaryWriter();
    frame.U32(MAGIC);
    WriteBlob(frame, body);
    assert frame.buffer == Covered(body);
    var crc := Crc.ComputeChecksum(frame.buffer);
    frame.U32(crc);
    r := frame.buffer;
  }

  method EncodePacket(p: Packet) returns (r: Result<Bytes>)
    ensures r == Encode(p)
  {
    var body := new BinaryWriter();
    WriteHeader(body, p);
    assert body.buffer == PutHeader(p);
    var sections :- EncodePayloadSections(p);
    WriteBlob(body, sections);
    WriteBlob(body, p.payload);
    assert body.buffer == PutBody(p, sections);
    var frame := WriteFrame(body.buffer);
    r := Ok(frame);
  }

  // ----- decoding

  method ReadFragment(r: BinaryReader) returns (f: Result<Fragment>)
    requires r.Valid()
    modifies r`offset
    ensures r.Valid() && Agrees(GetFragment(old(r.Rest())), f, r.Rest())
  {
    var streamId :- r.U32();
    var sequence :- r.U16();
    var count :- r.U16();
    if count == 0 || sequence >= count {
      return Err(MalformedPacket);
    }
    f := Ok(Fragment(streamId, sequence, count));
  }

  /** Reading the whole list comes out as what was read before followed by what is still to come. */
  ghost predicate Resumes<T>(all: Result<Parsed<seq<T>>>, read: seq<T>, later: Result<Parsed<seq<T>>>) {
    match later
    case Ok(p) => all == Ok(Parsed(read + p.value, p.rest))
    case Err(e) => all == Err(e)
  }

  lemma ResumesFromStart<T>(all: Result<Parsed<seq<T>>>)
    ensures Resumes(all, [], all)
  {
    if all.Ok? {
      assert [] + all.value.value == all.value.value;
    }
  }

  lemma ResumesNext<T>(
    all: Result<Parsed<seq<T>>>, read: seq<T>, later: Result<Parsed<seq<T>>>, x: T, more: Result<Parsed<seq<T>>>)
    requires Resumes(all, read, later)
    requires later == match more { case Ok(p) => Ok(Parsed([x] + p.value, p.rest)) case Err(e) => Err(e) }
    ensures Resumes(all, read + [x], more)
  {
    if more.Ok? {
      assert read + ([x] + more.value.value) == read + [x] + more.value.value;
    }
  }

  method ReadHops(r: BinaryReader, n: nat) returns (path: Result<seq<uint16>>)
    requires r.Valid()
    modifies r`offset
    ensures r.Valid() && Agrees(GetHops(old(r.Rest()), n), path, r.Rest())
  {
    ghost var all := GetHops(r.Rest(), n);
    var hops: seq<uint16> := [];
    ResumesFromStart(all);
    for i := 0 to n
      invariant r.Valid()
      invariant Resumes(all, hops, GetHops(r.Rest(), n - i))
    {
      ghost var later := GetHops(r.Rest(), n - i);
      var hop :- r.U16();
      ResumesNext(all, hops, later, hop, GetHops(r.Rest(), n - i - 1));
      hops := hops + [hop];
    }
    assert hops + [] == hops;
    path := Ok(hops);
  }

  method ReadRoute(r: BinaryReader) returns (route: Result<Route>)
    requires r.Valid()
    modifies r`offset
    ensures r.Valid() && Agrees(GetRoute(old(r.Rest())), route, r.Rest())
  {
    var region :- r.U16();
    var collector :- r.U16();
    var priority :- r.U8();
    var hops :- r.U8();
    if hops > 32 {
      return Err(MalformedPacket);
    }
    var path :- ReadHops(r, hops);
    route := Ok(Route(region, collector, priority, path));
  }

  method ReadBands(r: BinaryReader, n: nat) returns (names: Result<seq<Bytes>>)
    requires r.Valid()
    modifies r`offset
    ensures r.Valid() && Agrees(GetBands(old(r.Rest()), n), names, r.Rest())
  {
    ghost var all := GetBands(r.Rest(), n);
    var bands: seq<Bytes> := [];
    ResumesFromStart(all);
    for i := 0 to n
      invariant r.Valid()
      invariant Resumes(all, bands, GetBands(r.Rest(), n - i))
    {
      ghost var later := GetBands(r.Rest(), n - i);
      var band :- r.String(64);
      ResumesNext(all, bands, later, band, GetBands(r.Rest(), n - i - 1));
      bands := bands + [band];
    }
    assert bands + [] == bands;
    names := Ok(bands);
  }

  method ReadCapabilities(r: BinaryReader) returns (caps: Result<DeviceCaps>)
    requires r.Valid()
    modifies r`offset
    ensures r.Valid() && Agrees(GetCaps(old(r.Rest())), caps, r.Rest())
  {
    var flags :- r.U8();
    var maxPayload :- r.U16();
    var count :- r.U8();
    if count > 16 {
      return Err(MalformedPacket);
    }
    var bands :- ReadBands(r, count);
    caps := Ok(DeviceCaps(flags % 2 == 1, flags / 2 % 2 == 1, flags / 4 % 2 == 1, maxPayload, bands));
  }

  method ReadExtension(r: BinaryReader) returns (e: Result<Extension>)
    requires r.Valid()
    modifies r`offset
    ensures r.Valid() && Agrees(GetExtension(old(r.Rest())), e, r.Rest())
  {
    var kind :- r.U16();
    var size :- r.U16();
    var value :- r.ReadBytes(size);
    e := Ok(Extension(kind, value));
  }

  /** The switch on one section, and the test that its body was used up. */
  method DecodeSection(p: Packet, id: uint8, body: Bytes, requireKnown: bool) returns (r: Result<Packet>)
    ensures r == ApplySection(p, id, body, requireKnown)
  {
    var section := new BinaryReader(body);
    var q := p;
    if id == FRAGMENT_SECTION {
      var f :- ReadFragment(section);
      q := p.(fragment := Some(f));
    } else if id == ROUTE_SECTION {
      var route :- ReadRoute(section);
      q := p.(route := Some(route));
    } else if id == CAPABILITIES_SECTION {
      var caps :- ReadCapabilities(section);
      q := p.(capabilities := Some(caps));
    } else if id == EXTENSION_SECTION {
      var e :- ReadExtension(section);
      q := p.(extensions := p.extensions + [e]);
    } else if requireKnown {
      return Err(MalformedPacket);
    }
    if section.Remaining() != 0 {
      return Err(MalformedPacket);
    }
    r := Ok(q);
  }

  method DecodePayloadSections(p: Packet, sections: Bytes, requireKnown: bool) returns (r: Result<Packet>)
    ensures r == GetSections(p, sections, Applier(requireKnown))
  {
    var reader := new BinaryReader(sections);
    var q := p;
    while reader.Remaining() != 0
      invariant reader.Valid()
      invariant GetSections(q, reader.Rest(), Applier(requireKnown))
             == GetSections(p, sections, Applier(requireKnown))
      decreases reader.Remaining()
    {
      var first := reader.U8();
      var id := first.value;
      if id == 0 {
        if reader.Remaining() != 0 {
          return Err(MalformedPacket);
        }
        return Ok(q);
      }
      var length :- reader.U16();
      var body :- reader.ReadBytes(length);
      q :- DecodeSection(q, id, body, requireKnown);
    }
    r := Err(MalformedPacket);
  }

  method DecodeBody(body: Bytes, requireKnown: bool) returns (r: Result<Packet>)
    ensures r == GetBody(body, requireKnown)
  {
    var reader := new BinaryReader(body);
    var rawVersion :- reader.U8();
    var version :- VersionFrom(rawVersion);
    var rawKind :- reader.U8();
    var kind :- KindFrom(rawKind);
    var device :- reader.U64();
    var timestamp :- reader.U64();
    var sequence :- reader.U32();
    var compression :- reader.U8();
    var encryption :- reader.U8();
    var p := Packet(version, kind, device, timestamp, sequence, compression, encryption,
                    None, None, None, [], []);
    assert GetHeader(body) == Ok(Parsed(p, reader.Rest()));
    var sectionLength :- reader.U32();
    var sections :- reader.ReadBytes(sectionLength);
    p :- DecodePayloadSections(p, sections, requireKnown);
    var payloadLength :- reader.U32();
    var payload :- reader.ReadBytes(payloadLength);
    if reader.Remaining() != 0 {
      return Err(MalformedPacket);
    }
    r := Ok(p.(payload := payload));
  }

  method NextWord(r: BinaryReader) returns (w: uint32)
    requires r.Valid() && r.offset + 4 <= |r.data|
    modifies r`offset
    ensures w == WordAt(r.data, old(r.offset)) && r.offset == old(r.offset) + 4
  {
    WordRead(r.data, r.offset);
    var word := r.U32();
    w := word.value;
    assert |r.Rest()| == |r.data| - r.offset;
  }

  method NextBytes(r: BinaryReader, n: nat) returns (s: Bytes)
    requires r.Valid() && r.offset + n <= |r.data|
    modifies r`offset
    ensures s == r.data[old(r.offset)..old(r.offset) + n] && r.offset == old(r.offset) + n
  {
    var taken := r.ReadBytes(n);
    s := taken.value;
  }

  /** The tests on the envelope, read in order through one cursor. */
  method OpenEnvelope(frame: Bytes, options: DecodeOptions) returns (body: Result<Bytes>)
    ensures body == var e := EnvelopeError(frame, options);
      if e.Some? then Err(e.value) else Ok(frame[8..|frame| - 4])
  {
    if |frame| < 12 || |frame| > options.maxPacketSize {
      return Err(MalformedPacket);
    }
    var expected := Crc.ComputeChecksum(frame[..|frame| - 4]);
    var envelope := new BinaryReader(frame);
    var magic := NextWord(envelope);
    if magic != MAGIC {
      return Err(MalformedPacket);
    }
    var length: nat := NextWord(envelope);
    if Wrap32(length + 12) != |frame| {
      return Err(MalformedPacket);
    }
    LengthTest(length, |frame|);
    var content := NextBytes(envelope, length);
    var crc := NextWord(envelope);
    if crc != expected {
      return Err(ChecksumMismatch);
    }
    body := Ok(content);
  }

  method DecodePacket(frame: Bytes, options: DecodeOptions) returns (r: Result<Packet>)
    ensures r == Decode(frame, options)
  {
    var body :- OpenEnvelope(frame, options);
    r := DecodeBody(body, options.requireKnown);
  }
}
