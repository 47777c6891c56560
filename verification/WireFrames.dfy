/** Whole frames, in numbers and offsets: exactly which frames the decoder accepts as which packet, and with
    what error it refuses the others. */
module WireFrames {
  import opened Words
  import opened Wrappers
  import opened Codec
  import opened Packets
  import opened WireLayout
  import Crc

  // ----- the sections leave the header and the payload alone

  lemma {:induction false} BuildsKeeps(p: Packet, list: seq<Section>, q: Packet, strict: bool)
    requires Builds(p, list, q, strict)
    ensures Plain(q) == Plain(p) && q.payload == p.payload
    decreases |list|
  {
    if |list| > 0 {
      var m :| Adds(p, list[0], m, strict) && Builds(m, list[1..], q, strict);
      BuildsKeeps(m, list[1..], q, strict);
    }
  }

  // ----- the header

  /** The header fields alone, where they stand behind magic word and length. */
  predicate FieldsLaid(b: Bytes, p: Packet)
    requires |b| >= 24
  {
    && b[0] == VersionNumber(p.version) && b[1] == KindNumber(p.kind)
    && Eight(b, 2) == p.device && Eight(b, 10) == p.timestamp && Four(b, 18) == p.sequence
    && b[22] == p.compression && b[23] == p.encryption
  }

  lemma VersionIs(raw: uint8, v: Version)
    ensures VersionFrom(raw) == Ok(v) <==> raw == VersionNumber(v)
  {
  }

  lemma KindIs(raw: uint8, k: PacketKind)
    ensures KindFrom(raw) == Ok(k) <==> raw == KindNumber(k)
  {
  }

  lemma HeaderExactly(b: Bytes, p: Packet)
    requires |b| >= 24
    ensures GetHeader(b) == Ok(Parsed(Plain(p), b[24..])) <==> FieldsLaid(b, p)
    ensures GetHeader(b).Ok? ==>
      var h := GetHeader(b).value;
      h.rest == b[24..] && Plain(h.value) == h.value
  {
    ReadsHeader(b);
    VersionIs(b[0], p.version);
    KindIs(b[1], p.kind);
  }

  lemma HeaderShort(b: Bytes)
    requires |b| < 24
    ensures GetHeader(b).Err?
  {
  }

  // ----- the body

  /** A body with `n` bytes of sections. */
  predicate BodyLaid(b: Bytes, p: Packet, n: nat) {
    && |b| == 32 + n + |p.payload| && FieldsLaid(b, p)
    && Four(b, 24) == n && Four(b, 28 + n) == |p.payload| && b[32 + n..] == p.payload
  }

  /** The payload behind its length, up to the end of the body. */
  function WithPayload(q: Packet, tail: Bytes): Result<Packet> {
    if |tail| < 4 || |tail| < 4 + Four(tail, 0) then Err(Eof)
    else if |tail| > 4 + Four(tail, 0) then Err(MalformedPacket)
    else Ok(q.(payload := tail[4..]))
  }

  lemma PayloadRead(q: Packet, tail: Bytes)
    ensures var length := ReadU32(tail);
      WithPayload(q, tail)
        == if length.Err? then Err(length.error) else
             var payload := Take(length.value.rest, length.value.value);
             if payload.Err? then Err(payload.error)
             else if payload.value.rest == [] then Ok(q.(payload := payload.value.value)) else Err(MalformedPacket)
  {
    ReadsFour(tail);
    if |tail| >= 4 && |tail| >= 4 + Four(tail, 0) {
      var m := Four(tail, 0);
      assert |tail[4..][m..]| == |tail| - (4 + m);
      assert |tail| == 4 + m ==> tail[4..][..m] == tail[4..] && tail[4..][m..] == [];
    }
  }

  /** What is behind the header: the sections, the payload and nothing else. */
  lemma TailSteps(b: Bytes, h: Packet, sections: Bytes, tail: Bytes, strict: bool)
    requires |b| >= 24 && GetHeader(b) == Ok(Parsed(h, b[24..]))
    requires |sections| < TWO_32 && ReadU32(b[24..]) == Ok(Parsed(|sections|, sections + tail))
    ensures var q := GetSections(h, sections, Applier(strict));
      GetBody(b, strict) == if q.Err? then q else WithPayload(q.value, tail)
  {
    TakeBack(sections, tail);
    var q := GetSections(h, sections, Applier(strict));
    if q.Ok? {
      PayloadRead(q.value, tail);
    }
  }

  lemma FourFrom(b: Bytes, at: nat)
    requires at + 4 <= |b|
    ensures Four(b[at..], 0) == Four(b, at)
  {
  }

  /** A number at the front of what is left, and what is behind it. */
  lemma ReadsFourAt(b: Bytes, at: nat)
    requires at <= |b|
    ensures ReadU32(b[at..]) == if |b| < at + 4 then Err(Eof) else Ok(Parsed(Four(b, at), b[at + 4..]))
  {
    ReadsFour(b[at..]);
    if |b| >= at + 4 {
      FourFrom(b, at);
      assert b[at..][4..] == b[at + 4..];
    }
  }

  lemma TailRead(b: Bytes, h: Packet, strict: bool)
    requires |b| >= 24 && GetHeader(b) == Ok(Parsed(h, b[24..]))
    ensures |b| < 28 || |b| < 28 + Four(b, 24) ==> GetBody(b, strict) == Err(Eof)
    ensures |b| >= 28 && |b| >= 28 + Four(b, 24) ==>
      var n := Four(b, 24);
      var q := GetSections(h, b[28..28 + n], Applier(strict));
      GetBody(b, strict) == if q.Err? then q else WithPayload(q.value, b[28 + n..])
  {
    ReadsFourAt(b, 24);
    if |b| >= 28 && |b| >= 28 + Four(b, 24) {
      var n := Four(b, 24);
      assert b[28..] == b[28..28 + n] + b[28 + n..];
      TailSteps(b, h, b[28..28 + n], b[28 + n..], strict);
    }
  }

  lemma TailLaid(b: Bytes, n: nat, payload: Bytes)
    requires |b| >= 28 + n
    ensures |b| == 32 + n + |payload| && Four(b, 28 + n) == |payload| && b[32 + n..] == payload
        <==> |b[28 + n..]| >= 4 && |b[28 + n..]| == 4 + Four(b[28 + n..], 0) && b[28 + n..][4..] == payload
  {
    if |b| >= 32 + n {
      FourFrom(b, 28 + n);
      assert b[28 + n..][4..] == b[32 + n..];
    }
  }

  lemma BodyRead(b: Bytes, p: Packet, strict: bool) returns (n: nat, list: seq<Section>)
    requires GetBody(b, strict) == Ok(p)
    ensures BodyLaid(b, p, n) && SectionsLaid(b[28..28 + n], list)
    ensures Builds(Plain(p), list, p.(payload := []), strict)
  {
    if |b| < 24 {
      HeaderShort(b);
    }
    HeaderExactly(b, p);
    var h := GetHeader(b).value.value;
    TailRead(b, h, strict);
    n := Four(b, 24);
    var q := GetSections(h, b[28..28 + n], Applier(strict)).value;
    list := ListFound(h, b[28..28 + n], q, strict);
    BuildsKeeps(h, list, q, strict);
    TailLaid(b, n, p.payload);
    assert q == p.(payload := []);
  }

  lemma BodyAccepted(b: Bytes, p: Packet, n: nat, list: seq<Section>, strict: bool)
    requires BodyLaid(b, p, n) && SectionsLaid(b[28..28 + n], list)
    requires Builds(Plain(p), list, p.(payload := []), strict)
    ensures GetBody(b, strict) == Ok(p)
  {
    HeaderExactly(b, p);
    TailLaid(b, n, p.payload);
    ListBuilds(Plain(p), b[28..28 + n], list, p.(payload := []), strict);
    BodyFound(b, Plain(p), n, p.(payload := []), strict);
  }

  lemma BodyFound(b: Bytes, h: Packet, n: nat, q: Packet, strict: bool)
    requires |b| >= 28 + n && Four(b, 24) == n && GetHeader(b) == Ok(Parsed(h, b[24..]))
    requires GetSections(h, b[28..28 + n], Applier(strict)) == Ok(q)
    ensures GetBody(b, strict) == WithPayload(q, b[28 + n..])
  {
    TailRead(b, h, strict);
  }

  // ----- the frame

  predicate StartsWithMagic(frame: Bytes)
    requires |frame| >= 4
  {
    frame[0] == 0x41 && frame[1] == 0x54 && frame[2] == 0x48 && frame[3] == 0x4e
  }

  lemma MagicIs(d: Bytes)
    requires |d| >= 4
    ensures WordAt(d, 0) == MAGIC <==> StartsWithMagic(d)
  {
    WordIsFour(d, 0);
  }

  lemma CheckedIs(frame: Bytes)
    requires |frame| >= 4
    ensures Checked(frame) <==> WordAt(frame, |frame| - 4) == Crc.Checksum(frame[..|frame| - 4])
  {
    WordIsFour(frame, |frame| - 4);
  }

  lemma LengthIs(frame: Bytes)
    requires |frame| >= 12
    ensures Wrap32(WordAt(frame, 4) as nat + 12) == |frame| <==> Four(frame, 4) + 12 == |frame| < 0x1_0000_0000
  {
    WordIsFour(frame, 4);
    LengthTest(WordAt(frame, 4), |frame|);
  }

  /** The four tests on the envelope, in order. */
  lemma EnvelopeExactly(frame: Bytes, options: DecodeOptions)
    ensures EnvelopeError(frame, options)
         == if |frame| < 12 || |frame| > options.maxPacketSize then Some(MalformedPacket)
            else if !StartsWithMagic(frame) then Some(MalformedPacket)
            else if !(Four(frame, 4) + 12 == |frame| < 0x1_0000_0000) then Some(MalformedPacket)
            else if !Checked(frame) then Some(ChecksumMismatch)
            else None
  {
    if |frame| >= 12 {
      MagicIs(frame);
      LengthIs(frame);
      CheckedIs(frame);
    }
  }

  lemma FourWithin(d: Bytes, hi: nat, at: nat)
    requires 8 + at + 4 <= hi <= |d|
    ensures Four(d[8..hi], at) == Four(d, 8 + at)
  {
  }

  lemma EightWithin(d: Bytes, hi: nat, at: nat)
    requires 8 + at + 8 <= hi <= |d|
    ensures Eight(d[8..hi], at) == Eight(d, 8 + at)
  {
    FourWithin(d, hi, at);
    FourWithin(d, hi, at + 4);
  }

  lemma FieldsWithin(frame: Bytes, hi: nat, p: Packet)
    requires 36 <= hi <= |frame|
    ensures HeaderLaid(frame, p) <==> StartsWithMagic(frame) && FieldsLaid(frame[8..hi], p)
  {
    EightWithin(frame, hi, 2);
    EightWithin(frame, hi, 10);
    FourWithin(frame, hi, 18);
  }

  lemma BodyWithin(frame: Bytes, p: Packet, n: nat)
    requires |frame| == 44 + n + |p.payload| && HeaderLaid(frame, p)
    ensures BodyLaid(frame[8..|frame| - 4], p, n)
        <==> Four(frame, 32) == n && Four(frame, 36 + n) == |p.payload|
             && frame[40 + n..40 + n + |p.payload|] == p.payload
  {
    var b := frame[8..|frame| - 4];
    FieldsWithin(frame, |frame| - 4, p);
    FourWithin(frame, |frame| - 4, 24);
    FourWithin(frame, |frame| - 4, 28 + n);
    assert b[32 + n..] == frame[40 + n..40 + n + |p.payload|];
  }

  /** The lengths of a frame fit their fields. */
  lemma SmallLengths(size: nat, n: nat, m: nat)
    requires size == 44 + n + m && size < TWO_32
    ensures (32 + n + m) % TWO_32 == size - 12 && n % TWO_32 == n && m % TWO_32 == m
  {
  }

  lemma SectionsWithin(d: Bytes, body: Bytes, n: nat)
    requires 40 + n <= |d| && body == d[8..|d| - 4]
    ensures d[36..36 + n] == body[28..28 + n]
  {
    var x, y := d[36..36 + n], body[28..28 + n];
    forall i | 0 <= i < n
      ensures x[i] == y[i]
    {
    }
  }

  lemma PartsWithin(frame: Bytes, p: Packet, n: nat)
    requires 12 <= |frame| < TWO_32
    ensures PartsLaid(frame, p, n)
        <==> StartsWithMagic(frame) && Four(frame, 4) + 12 == |frame| && BodyLaid(frame[8..|frame| - 4], p, n)
  {
    if |frame| == 44 + n + |p.payload| {
      SmallLengths(|frame|, n, |p.payload|);
      FieldsWithin(frame, |frame| - 4, p);
      if HeaderLaid(frame, p) {
        BodyWithin(frame, p, n);
      }
    }
  }

  /** A frame of `p` with the sections `list`, as the decoder takes it. */
  ghost predicate Spells(frame: Bytes, p: Packet, n: nat, list: seq<Section>, strict: bool) {
    && FrameLaid(frame, p, n) && SectionsLaid(frame[36..36 + n], list)
    && Builds(Plain(p), list, p.(payload := []), strict)
  }

  lemma AcceptedSpells(frame: Bytes, p: Packet, options: DecodeOptions) returns (n: nat, list: seq<Section>)
    requires Decode(frame, options) == Ok(p)
    ensures |frame| <= options.maxPacketSize && |frame| < TWO_32 && Spells(frame, p, n, list, options.requireKnown)
  {
    EnvelopeExactly(frame, options);
    var body := frame[8..|frame| - 4];
    n, list := BodyRead(body, p, options.requireKnown);
    PartsWithin(frame, p, n);
    SectionsWithin(frame, body, n);
  }

  lemma SpelledAccepted(frame: Bytes, p: Packet, n: nat, list: seq<Section>, options: DecodeOptions)
    requires |frame| <= options.maxPacketSize && |frame| < TWO_32 && Spells(frame, p, n, list, options.requireKnown)
    ensures Decode(frame, options) == Ok(p)
  {
    EnvelopeExactly(frame, options);
    var body := frame[8..|frame| - 4];
    PartsWithin(frame, p, n);
    SectionsWithin(frame, body, n);
    BodyAccepted(body, p, n, list, options.requireKnown);
  }

  /** A frame decodes to `p` exactly when it is within the limit and the length field, every field of the
      header, the payload and the checksum are the numbers at their places, and the sections between build
      the rest of the packet. */
  lemma DecodesExactly(frame: Bytes, p: Packet, options: DecodeOptions)
    ensures Decode(frame, options) == Ok(p)
        <==> |frame| <= options.maxPacketSize && |frame| < 0x1_0000_0000
             && exists n: nat, list: seq<Section> :: Spells(frame, p, n, list, options.requireKnown)
  {
    if Decode(frame, options) == Ok(p) {
      var n, list := AcceptedSpells(frame, p, options);
    }
    if |frame| <= options.maxPacketSize && |frame| < TWO_32 {
      forall n: nat, list: seq<Section> | Spells(frame, p, n, list, options.requireKnown)
        ensures Decode(frame, options) == Ok(p)
      {
        SpelledAccepted(frame, p, n, list, options);
      }
    }
  }

  /** A sound envelope with a version or kind that does not exist. */
  lemma UnknownNumbers(frame: Bytes, options: DecodeOptions)
    requires 36 <= |frame| <= options.maxPacketSize && StartsWithMagic(frame)
    requires |frame| < TWO_32 && Four(frame, 4) + 12 == |frame| && Checked(frame)
    ensures !(1 <= frame[8] <= 3) ==> Decode(frame, options) == Err(UnsupportedVersion)
    ensures 1 <= frame[8] <= 3 && !(1 <= frame[9] <= 5) ==> Decode(frame, options) == Err(MalformedPacket)
  {
    EnvelopeExactly(frame, options);
    ReadsHeader(frame[8..|frame| - 4]);
  }
}
