/** Every accepted frame has a normal form: the frame of the packet it decodes to, which is never
    longer and decodes to the same packet.  The decoder accepts sections in any order, repeated,
    and unknown empty ones; the normal form has each at most once, in order. */
module NormalForm {
  import opened Words
  import opened Wrappers
  import opened Codec
  import opened Packets
  import opened PacketTheorems
  import Crc

  /** The encoder accepts every part of `p`, and the decoder accepts what it writes. */
  ghost predicate Tidy(p: Packet) {
    && FragmentPart(p.fragment).Ok? && RoutePart(p.route).Ok? && CapsPart(p.capabilities).Ok?
    && ExtensionsPart(p.extensions).Ok?
    && WireOk(p)
  }

  ghost function PartsSize(p: Packet): nat
    requires Tidy(p)
  {
    |FragmentPart(p.fragment).value| + |RoutePart(p.route).value| + |CapsPart(p.capabilities).value|
    + |ExtensionsPart(p.extensions).value|
  }

  ghost predicate SameHeader(p: Packet, q: Packet) {
    Bare(p) == Bare(q) && p.payload == q.payload
  }

  lemma {:induction false} ExtensionsAppend(es: seq<Extension>, e: Extension)
    requires ExtensionsPart(es).Ok? && |e.value| <= 65531
    ensures ExtensionsPart(es + [e]).Ok?
    ensures |ExtensionsPart(es + [e]).value| == |ExtensionsPart(es).value| + 7 + |e.value|
    decreases |es|
  {
    if |es| == 0 {
      assert es + [e] == [e];
      assert |ExtensionsPart([e]).value| == |PutSection(EXTENSION_SECTION, PutExtension(e)).value|;
    } else {
      ExtensionsAppend(es[1..], e);
      assert (es + [e])[1..] == es[1..] + [e];
      assert (es + [e])[0] == es[0];
    }
  }

  lemma ApplyFragment(p: Packet, body: Bytes, strict: bool)
    requires Tidy(p) && ApplySection(p, FRAGMENT_SECTION, body, strict).Ok?
    ensures var q := ApplySection(p, FRAGMENT_SECTION, body, strict).value;
      SameHeader(p, q) && Tidy(q) && PartsSize(q) <= PartsSize(p) + 3 + |body|
  {
    var q := ApplySection(p, FRAGMENT_SECTION, body, strict).value;
    var id := ReadU32(body).value;
    var sequence := ReadU16(id.rest).value;
    assert |body| == 8;
    assert |FragmentPart(q.fragment).value| == 11;
  }

  lemma ApplyRoute(p: Packet, body: Bytes, strict: bool)
    requires Tidy(p) && |body| <= 65535 && ApplySection(p, ROUTE_SECTION, body, strict).Ok?
    ensures var q := ApplySection(p, ROUTE_SECTION, body, strict).value;
      SameHeader(p, q) && Tidy(q) && PartsSize(q) <= PartsSize(p) + 3 + |body|
  {
    var q := ApplySection(p, ROUTE_SECTION, body, strict).value;
    RouteSize(body);
    assert |PutRoute(q.route.value).value| == |body|;
    assert |RoutePart(q.route).value| == 3 + |body|;
  }

  lemma ApplyCaps(p: Packet, body: Bytes, strict: bool)
    requires Tidy(p) && |body| <= 65535 && ApplySection(p, CAPABILITIES_SECTION, body, strict).Ok?
    ensures var q := ApplySection(p, CAPABILITIES_SECTION, body, strict).value;
      SameHeader(p, q) && Tidy(q) && PartsSize(q) <= PartsSize(p) + 3 + |body|
  {
    var q := ApplySection(p, CAPABILITIES_SECTION, body, strict).value;
    CapsSize(body);
    assert |PutCaps(q.capabilities.value).value| == |body|;
    assert |CapsPart(q.capabilities).value| == 3 + |body|;
  }

  lemma ApplyExtension(p: Packet, body: Bytes, strict: bool)
    requires Tidy(p) && |body| <= 65535 && ApplySection(p, EXTENSION_SECTION, body, strict).Ok?
    ensures var q := ApplySection(p, EXTENSION_SECTION, body, strict).value;
      SameHeader(p, q) && Tidy(q) && PartsSize(q) <= PartsSize(p) + 3 + |body|
  {
    var q := ApplySection(p, EXTENSION_SECTION, body, strict).value;
    var e := GetExtension(body).value.value;
    var kind := ReadU16(body).value;
    var size := ReadU16(kind.rest).value;
    assert |body| == 4 + |e.value|;
    assert q.extensions == p.extensions + [e];
    ExtensionsAppend(p.extensions, e);
  }

  ghost predicate KeepsTidy(step: SectionStep) {
    forall p: Packet, id, body: Bytes | Tidy(p) && |body| <= 65535 && step(p, id, body).Ok? ::
      var q := step(p, id, body).value;
      SameHeader(p, q) && Tidy(q) && PartsSize(q) <= PartsSize(p) + 3 + |body|
  }

  lemma ApplierKeepsTidy(strict: bool)
    ensures KeepsTidy(Applier(strict))
  {
    var step := Applier(strict);
    forall p: Packet, id, body: Bytes | Tidy(p) && |body| <= 65535 && step(p, id, body).Ok?
      ensures var q := step(p, id, body).value;
        SameHeader(p, q) && Tidy(q) && PartsSize(q) <= PartsSize(p) + 3 + |body|
    {
      if id == FRAGMENT_SECTION {
        ApplyFragment(p, body, strict);
      } else if id == ROUTE_SECTION {
        ApplyRoute(p, body, strict);
      } else if id == CAPABILITIES_SECTION {
        ApplyCaps(p, body, strict);
      } else if id == EXTENSION_SECTION {
        ApplyExtension(p, body, strict);
      }
    }
  }

  /** Accepted sections, however written, are no shorter than their parts written once. */
  lemma {:induction false} SectionsTidy(p: Packet, data: Bytes, step: SectionStep)
    requires Tidy(p) && KeepsTidy(step) && GetSections(p, data, step).Ok?
    ensures var q := GetSections(p, data, step).value;
      SameHeader(p, q) && Tidy(q) && PartsSize(q) + 1 <= PartsSize(p) + |data|
    decreases |data|
  {
    var id, rest := data[0], data[1..];
    if id != 0 {
      var length := ReadU16(rest).value;
      var body := Take(length.rest, length.value).value;
      SectionsTidy(step(p, id, body.value).value, body.rest, step);
    }
  }

  lemma HeaderSize(data: Bytes)
    requires GetHeader(data).Ok?
    ensures var h := GetHeader(data).value;
      h.value == Bare(h.value) && |data| == 24 + |h.rest|
  {
    var rawVersion := ReadU8(data).value;
    var rawKind := ReadU8(rawVersion.rest).value;
    var device := ReadU64(rawKind.rest).value;
    var timestamp := ReadU64(device.rest).value;
    var sequence := ReadU32(timestamp.rest).value;
    var compression := ReadU8(sequence.rest).value;
  }

  lemma BodyTidy(body: Bytes, strict: bool)
    requires GetBody(body, strict).Ok?
    ensures var p := GetBody(body, strict).value;
      Tidy(p) && 33 + PartsSize(p) + |p.payload| <= |body|
  {
    var header := GetHeader(body).value;
    HeaderSize(body);
    var sectionLength := ReadU32(header.rest).value;
    var sections := Take(sectionLength.rest, sectionLength.value).value;
    ApplierKeepsTidy(strict);
    SectionsTidy(header.value, sections.value, Applier(strict));
    var q := GetSections(header.value, sections.value, Applier(strict)).value;
    var payloadLength := ReadU32(sections.rest).value;
    var p := GetBody(body, strict).value;
    assert p == q.(payload := p.payload);
    assert PartsSize(p) == PartsSize(q);
  }

  lemma TidyEncodes(p: Packet)
    requires Tidy(p)
    ensures Encode(p).Ok? && |Encode(p).value| == 45 + PartsSize(p) + |p.payload|
  {
    EncodedSize(p);
  }

  lemma AcceptedBody(frame: Bytes, options: DecodeOptions)
    requires Decode(frame, options).Ok?
    ensures 12 <= |frame| < TWO_32 && |frame| <= options.maxPacketSize
    ensures GetBody(frame[8..|frame| - 4], options.requireKnown) == Decode(frame, options)
  {
  }

  /** The normal form: re-encoding what an accepted frame decodes to succeeds, is no longer than
      the frame, and decodes to the same packet, under the same options or any with room for it. */
  lemma AcceptedHasNormalForm(frame: Bytes, options: DecodeOptions, others: DecodeOptions)
    requires Decode(frame, options).Ok?
    ensures var p := Decode(frame, options).value;
      && Encode(p).Ok?
      && |Encode(p).value| <= |frame|
      && (|frame| <= others.maxPacketSize ==> Decode(Encode(p).value, others) == Ok(p))
      && Decode(Encode(p).value, options) == Ok(p)
  {
    var p := Decode(frame, options).value;
    AcceptedBody(frame, options);
    BodyTidy(frame[8..|frame| - 4], options.requireKnown);
    TidyEncodes(p);
    RoundTripExact(p, options);
    RoundTripExact(p, others);
  }

  // ----- bursts of errors

  /** The trailer holds the checksum of the bytes before it. */
  predicate ChecksumHolds(frame: Bytes)
    requires |frame| >= 4
  {
    WordAt(frame, |frame| - 4) == Crc.Checksum(frame[..|frame| - 4])
  }

  lemma AcceptedChecksum(frame: Bytes, options: DecodeOptions)
    ensures Decode(frame, options).Ok? ==> |frame| >= 12 && ChecksumHolds(frame)
  {
  }

  lemma TrailerSplit(frame: Bytes)
    requires |frame| >= 4
    ensures var n := |frame| - 4;
      frame == frame[..n] + frame[n..n + 4] && |frame[n..n + 4]| == 4
  {
  }

  /** A frame that ends in its own checksum leaves the register at a constant. */
  lemma ChecksumResidue(frame: Bytes)
    requires |frame| >= 4 && ChecksumHolds(frame)
    ensures Crc.Register(Crc.Not(Crc.DEFAULT_SEED), frame, Crc.POLYNOMIAL) == Crc.Residue()
  {
    TrailerSplit(frame);
    Crc.OwnChecksumResidue(frame[..|frame| - 4], frame[|frame| - 4..|frame| - 4 + 4]);
  }

  lemma SplitWindow(s: Bytes, lo: nat, hi: nat)
    requires lo <= hi <= |s|
    ensures s == s[..lo] + s[lo..hi] + s[hi..]
  {
  }

  /** A frame that differs from an accepted one, but only inside a window of at most four bytes, is
      rejected, wherever in the frame the window lies. */
  lemma BurstRejected(frame: Bytes, damaged: Bytes, options: DecodeOptions, lo: nat, hi: nat)
    requires Decode(frame, options).Ok?
    requires |damaged| == |frame| && damaged != frame
    requires lo <= hi <= |frame| && hi - lo <= 4
    requires damaged[..lo] == frame[..lo] && damaged[hi..] == frame[hi..]
    ensures Decode(damaged, options).Err?
  {
    AcceptedChecksum(frame, options);
    AcceptedChecksum(damaged, options);
    if Decode(damaged, options).Ok? {
      ChecksumResidue(frame);
      ChecksumResidue(damaged);
      SplitWindow(frame, lo, hi);
      SplitWindow(damaged, lo, hi);
      Crc.BurstChangesRegister(Crc.Not(Crc.DEFAULT_SEED), frame[..lo], frame[lo..hi], damaged[lo..hi], frame[hi..]);
      assert false;
    }
  }

  // ----- strict and relaxed decoding

  predicate KnownSection(id: uint8) {
    id == FRAGMENT_SECTION || id == ROUTE_SECTION || id == CAPABILITIES_SECTION || id == EXTENSION_SECTION
  }

  /** A written section of unknown kind is passed over in relaxed mode if and only if its body is empty,
      and never in strict mode. */
  lemma UnknownSection(p: Packet, id: uint8, body: Bytes, rest: Bytes, strict: bool)
    requires id != 0 && !KnownSection(id) && PutSection(id, body).Ok?
    ensures GetSections(p, PutSection(id, body).value + rest, Applier(strict))
         == if !strict && body == [] then GetSections(p, rest, Applier(strict)) else Err(MalformedPacket)
  {
    SectionBack(p, id, body, rest, Applier(strict));
  }

  /** Some section before the terminator is of unknown kind. */
  predicate HoldsUnknown(data: Bytes)
    decreases |data|
  {
    data != [] && data[0] != 0
    && (!KnownSection(data[0])
        || (var length := ReadU16(data[1..]);
            length.Ok?
            && var body := Take(length.value.rest, length.value.value);
               body.Ok? && HoldsUnknown(body.value.rest)))
  }

  /** Where relaxed mode accepts the sections, strict mode does so exactly if all kinds are known. */
  lemma {:induction false} StrictSections(p: Packet, data: Bytes)
    ensures var strict, relaxed := GetSections(p, data, Applier(true)), GetSections(p, data, Applier(false));
      (strict.Ok? <==> relaxed.Ok? && !HoldsUnknown(data)) && (strict.Ok? ==> strict == relaxed)
    decreases |data|
  {
    if data != [] && data[0] != 0 && ReadU16(data[1..]).Ok? {
      var length := ReadU16(data[1..]).value;
      var body := Take(length.rest, length.value);
      if body.Ok? && KnownSection(data[0]) {
        var q := ApplySection(p, data[0], body.value.value, false);
        assert ApplySection(p, data[0], body.value.value, true) == q;
        if q.Ok? {
          StrictSections(q.value, body.value.rest);
        }
      }
    }
  }

  /** The sections of a frame body, as far as they can be read. */
  function SectionsOf(body: Bytes): Bytes {
    var header := GetHeader(body);
    if header.Err? then [] else
      var length := ReadU32(header.value.rest);
      if length.Err? then [] else
        var sections := Take(length.value.rest, length.value.value);
        if sections.Err? then [] else sections.value.value
  }

  lemma StrictBody(body: Bytes)
    ensures GetBody(body, true).Ok? <==> GetBody(body, false).Ok? && !HoldsUnknown(SectionsOf(body))
    ensures GetBody(body, true).Ok? ==> GetBody(body, true) == GetBody(body, false)
  {
    var header := GetHeader(body);
    if header.Ok? {
      StrictSections(header.value.value, SectionsOf(body));
    }
  }

  /** Strict decoding accepts exactly the frames that relaxed decoding accepts and that hold no section
      of unknown kind, with the same packet. */
  lemma StrictExactly(frame: Bytes, limit: nat)
    ensures var strict := Decode(frame, DecodeOptions(limit, true));
      var relaxed := Decode(frame, DecodeOptions(limit, false));
      && (strict.Ok? <==> relaxed.Ok? && !HoldsUnknown(SectionsOf(frame[8..|frame| - 4])))
      && (strict.Ok? ==> strict == relaxed)
  {
    if EnvelopeError(frame, DecodeOptions(limit, true)).None? {
      StrictBody(frame[8..|frame| - 4]);
    }
  }
}
