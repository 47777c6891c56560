/** The packet codec of src/protocol/packet.cpp as functions: what a packet looks like on the
    wire, and what a received frame decodes to.  PacketCodec proves the imperative code against
    these functions and PacketTheorems states what they promise. */
module Packets {
  import opened Words
  import opened Wrappers
  import opened Codec
  import Crc

  const MAGIC: uint32 := 0x4e485441

  datatype DecodeOptions = DecodeOptions(maxPacketSize: nat, requireKnown: bool)

  datatype Version = V1 | V2 | V3

  datatype PacketKind = Heartbeat | Observation | Spectrum | Control | Capabilities

  datatype Fragment = Fragment(streamId: uint32, sequence: uint16, count: uint16)

  datatype Route = Route(region: uint16, collector: uint16, priority: uint8, relayPath: seq<uint16>)

  datatype DeviceCaps = DeviceCaps(
    compression: bool, encryption: bool, gpsTime: bool, maxPayload: uint16, bands: seq<Bytes>)

  datatype Extension = Extension(kind: uint16, value: Bytes)

  /** Compression and encryption modes stay raw bytes: the decoder casts them unchecked. */
  datatype Packet = Packet(
    version: Version, kind: PacketKind, device: uint64, timestamp: uint64, sequence: uint32,
    compression: uint8, encryption: uint8,
    fragment: Option<Fragment>, route: Option<Route>, capabilities: Option<DeviceCaps>,
    extensions: seq<Extension>, payload: Bytes)

  // ----- enumerations

  function PutVersion(v: Version): uint8 {
    match v case V1 => 1 case V2 => 2 case V3 => 3
  }

  function VersionFrom(raw: uint8): Result<Version> {
    match raw case 1 => Ok(V1) case 2 => Ok(V2) case 3 => Ok(V3) case _ => Err(UnsupportedVersion)
  }

  function PutKind(k: PacketKind): uint8 {
    match k
    case Heartbeat => 1 case Observation => 2 case Spectrum => 3 case Control => 4 case Capabilities => 5
  }

  function KindFrom(raw: uint8): Result<PacketKind> {
    match raw
    case 1 => Ok(Heartbeat) case 2 => Ok(Observation) case 3 => Ok(Spectrum)
    case 4 => Ok(Control) case 5 => Ok(Capabilities)
    case _ => Err(MalformedPacket)
  }

  // ----- section bodies

  function PutFragment(f: Fragment): Bytes {
    PutU32(f.streamId) + PutU16(f.sequence) + PutU16(f.count)
  }

  predicate CoordinatesOk(f: Fragment) {
    f.count != 0 && f.sequence < f.count
  }

  function GetFragment(data: Bytes): Result<Parsed<Fragment>> {
    var id :- ReadU32(data);
    var sequence :- ReadU16(id.rest);
    var count :- ReadU16(sequence.rest);
    var f := Fragment(id.value, sequence.value, count.value);
    if CoordinatesOk(f) then Ok(Parsed(f, count.rest)) else Err(MalformedPacket)
  }

  function PutHops(hops: seq<uint16>): Bytes
    decreases |hops|
  {
    if |hops| == 0 then [] else PutU16(hops[0]) + PutHops(hops[1..])
  }

  function GetHops(data: Bytes, n: nat): Result<Parsed<seq<uint16>>>
    decreases n
  {
    if n == 0 then Ok(Parsed([], data)) else
      var hop :- ReadU16(data);
      var more :- GetHops(hop.rest, n - 1);
      Ok(Parsed([hop.value] + more.value, more.rest))
  }

  function PutRoute(r: Route): Result<Bytes> {
    if |r.relayPath| > 32 then Err(InvalidArgument) else
      Ok(PutU16(r.region) + PutU16(r.collector) + PutU8(r.priority) + PutU8(|r.relayPath|)
         + PutHops(r.relayPath))
  }

  function GetRoute(data: Bytes): Result<Parsed<Route>> {
    var region :- ReadU16(data);
    var collector :- ReadU16(region.rest);
    var priority :- ReadU8(collector.rest);
    var hops :- ReadU8(priority.rest);
    if hops.value > 32 then Err(MalformedPacket) else
      var path :- GetHops(hops.rest, hops.value);
      Ok(Parsed(Route(region.value, collector.value, priority.value, path.value), path.rest))
  }

  function PutBands(bands: seq<Bytes>): Result<Bytes>
    decreases |bands|
  {
    if |bands| == 0 then Ok([]) else
      var band :- PutString(bands[0]);
      var more :- PutBands(bands[1..]);
      Ok(band + more)
  }

  function GetBands(data: Bytes, n: nat): Result<Parsed<seq<Bytes>>>
    decreases n
  {
    if n == 0 then Ok(Parsed([], data)) else
      var band :- ReadString(data, 64);
      var more :- GetBands(band.rest, n - 1);
      Ok(Parsed([band.value] + more.value, more.rest))
  }

  function Flags(c: DeviceCaps): uint8 {
    (if c.compression then 1 else 0) + (if c.encryption then 2 else 0) + (if c.gpsTime then 4 else 0)
  }

  function PutCaps(c: DeviceCaps): Result<Bytes> {
    if |c.bands| > 16 then Err(InvalidArgument) else
      var bands :- PutBands(c.bands);
      Ok(PutU8(Flags(c)) + PutU16(c.maxPayload) + PutU8(|c.bands|) + bands)
  }

  function GetCaps(data: Bytes): Result<Parsed<DeviceCaps>> {
    var flags :- ReadU8(data);
    var maxPayload :- ReadU16(flags.rest);
    var count :- ReadU8(maxPayload.rest);
    if count.value > 16 then Err(MalformedPacket) else
      var bands :- GetBands(count.rest, count.value);
      var f := flags.value;
      Ok(Parsed(DeviceCaps(f % 2 == 1, f / 2 % 2 == 1, f / 4 % 2 == 1, maxPayload.value, bands.value),
                bands.rest))
  }

  function PutExtension(e: Extension): Bytes {
    PutU16(e.kind) + PutU16(|e.value|) + e.value
  }

  function GetExtension(data: Bytes): Result<Parsed<Extension>> {
    var kind :- ReadU16(data);
    var size :- ReadU16(kind.rest);
    var value :- Take(size.rest, size.value);
    Ok(Parsed(Extension(kind.value, value.value), value.rest))
  }

  // ----- the section list

  const FRAGMENT_SECTION: uint8 := 1
  const ROUTE_SECTION: uint8 := 2
  const CAPABILITIES_SECTION: uint8 := 3
  const EXTENSION_SECTION: uint8 := 4

  function PutSection(id: uint8, body: Bytes): Result<Bytes> {
    if |body| > 65535 then Err(InvalidArgument) else Ok(PutU8(id) + PutU16(|body|) + body)
  }

  function FragmentPart(f: Option<Fragment>): Result<Bytes> {
    if f.None? then Ok([]) else PutSection(FRAGMENT_SECTION, PutFragment(f.value))
  }

  function RoutePart(r: Option<Route>): Result<Bytes> {
    if r.None? then Ok([]) else
      var body :- PutRoute(r.value);
      PutSection(ROUTE_SECTION, body)
  }

  function CapsPart(c: Option<DeviceCaps>): Result<Bytes> {
    if c.None? then Ok([]) else
      var body :- PutCaps(c.value);
      PutSection(CAPABILITIES_SECTION, body)
  }

  function ExtensionsPart(es: seq<Extension>): Result<Bytes>
    decreases |es|
  {
    if |es| == 0 then Ok([]) else
      var first :- PutSection(EXTENSION_SECTION, PutExtension(es[0]));
      var more :- ExtensionsPart(es[1..]);
      Ok(first + more)
  }

  function PutSections(p: Packet): Result<Bytes> {
    var fragment :- FragmentPart(p.fragment);
    var route :- RoutePart(p.route);
    var capabilities :- CapsPart(p.capabilities);
    var extensions :- ExtensionsPart(p.extensions);
    Ok(fragment + route + capabilities + extensions + PutU8(0))
  }

  /** What one section does to the packet under construction; its body must be used up. */
  function ApplySection(p: Packet, id: uint8, body: Bytes, requireKnown: bool): Result<Packet> {
    if id == FRAGMENT_SECTION then
      var f :- GetFragment(body);
      if f.rest == [] then Ok(p.(fragment := Some(f.value))) else Err(MalformedPacket)
    else if id == ROUTE_SECTION then
      var r :- GetRoute(body);
      if r.rest == [] then Ok(p.(route := Some(r.value))) else Err(MalformedPacket)
    else if id == CAPABILITIES_SECTION then
      var c :- GetCaps(body);
      if c.rest == [] then Ok(p.(capabilities := Some(c.value))) else Err(MalformedPacket)
    else if id == EXTENSION_SECTION then
      var e :- GetExtension(body);
      if e.rest == [] then Ok(p.(extensions := p.extensions + [e.value])) else Err(MalformedPacket)
    else if requireKnown then Err(MalformedPacket)
    else if body == [] then Ok(p) else Err(MalformedPacket)
  }

  type SectionStep = (Packet, uint8, Bytes) -> Result<Packet>

  function Applier(requireKnown: bool): SectionStep {
    (p: Packet, id: uint8, body: Bytes) => ApplySection(p, id, body, requireKnown)
  }

  /** The section loop, for any treatment `step` of one section: sections follow one another up to
      the terminator, which must be the last byte. */
  function GetSections(p: Packet, data: Bytes, step: SectionStep): Result<Packet>
    decreases |data|
  {
    if data == [] then Err(MalformedPacket) else
      var id, rest := data[0], data[1..];
      if id == 0 then (if rest == [] then Ok(p) else Err(MalformedPacket)) else
        var length :- ReadU16(rest);
        var body :- Take(length.rest, length.value);
        var q :- step(p, id, body.value);
        GetSections(q, body.rest, step)
  }

  // ----- the frame

  function PutHeader(p: Packet): Bytes {
    PutU8(PutVersion(p.version)) + PutU8(PutKind(p.kind)) + PutU64(p.device) + PutU64(p.timestamp)
    + PutU32(p.sequence) + PutU8(p.compression) + PutU8(p.encryption)
  }

  function PutBody(p: Packet, sections: Bytes): Bytes {
    PutHeader(p) + (PutU32(|sections|) + sections) + (PutU32(|p.payload|) + p.payload)
  }

  function Covered(body: Bytes): Bytes {
    PutU32(MAGIC) + PutU32(|body|) + body
  }

  function Encode(p: Packet): Result<Bytes> {
    var sections :- PutSections(p);
    var covered := Covered(PutBody(p, sections));
    Ok(covered + PutU32(Crc.Checksum(covered)))
  }

  function GetHeader(data: Bytes): Result<Parsed<Packet>> {
    var rawVersion :- ReadU8(data);
    var version :- VersionFrom(rawVersion.value);
    var rawKind :- ReadU8(rawVersion.rest);
    var kind :- KindFrom(rawKind.value);
    var device :- ReadU64(rawKind.rest);
    var timestamp :- ReadU64(device.rest);
    var sequence :- ReadU32(timestamp.rest);
    var compression :- ReadU8(sequence.rest);
    var encryption :- ReadU8(compression.rest);
    Ok(Parsed(Packet(version, kind, device.value, timestamp.value, sequence.value,
                     compression.value, encryption.value, None, None, None, [], []),
              encryption.rest))
  }

  function GetBody(body: Bytes, requireKnown: bool): Result<Packet> {
    var header :- GetHeader(body);
    var sectionLength :- ReadU32(header.rest);
    var sections :- Take(sectionLength.rest, sectionLength.value);
    var p :- GetSections(header.value, sections.value, Applier(requireKnown));
    var payloadLength :- ReadU32(sections.rest);
    var payload :- Take(payloadLength.rest, payloadLength.value);
    if payload.rest == [] then Ok(p.(payload := payload.value)) else Err(MalformedPacket)
  }

  /** What is wrong with the envelope of a received frame: its size, its magic word, its declared
      body length (added up in 32 bits), or the checksum of everything before the last four bytes. */
  function EnvelopeError(frame: Bytes, options: DecodeOptions): (e: Option<ErrorCode>)
    ensures e.None? ==> |frame| >= 12
  {
    if |frame| < 12 || |frame| > options.maxPacketSize then Some(MalformedPacket)
    else if WordAt(frame, 0) != MAGIC then Some(MalformedPacket)
    else if Wrap32(WordAt(frame, 4) + 12) != |frame| then Some(MalformedPacket)
    else if WordAt(frame, |frame| - 4) != Crc.Checksum(frame[..|frame| - 4]) then Some(ChecksumMismatch)
    else None
  }

  /** The wrapping test of the declared length is the exact one for every size that the length field
      can describe, and fails for every larger one. */
  lemma LengthTest(length: uint32, size: nat)
    requires size >= 12
    ensures Wrap32(length as nat + 12) == size <==> length + 12 == size && size < TWO_32
  {
  }

  function Decode(frame: Bytes, options: DecodeOptions): Result<Packet> {
    var e := EnvelopeError(frame, options);
    if e.Some? then Err(e.value) else GetBody(frame[8..|frame| - 4], options.requireKnown)
  }
}
