/** The repair scanner of src/storage/repair.cpp: it looks at every offset of a damaged archive for
    a frame that decodes, jumps over each one found, and moves on by one byte otherwise. */
module Repair {
  import opened Words
  import opened Wrappers
  import opened Codec
  import opened Packets
  import opened Stream
  import PacketCodec

  datatype Salvaged = Salvaged(offset: nat, captureTime: uint64, packet: Packet)

  datatype Report = Report(candidates: nat, rejected: nat, packets: seq<Salvaged>)

  /** The size of the frame that the words at `offset` declare. */
  function DeclaredSize(data: Bytes, offset: nat): nat {
    if offset + 8 <= |data| then WordAt(data, offset + 4) + 12 else 12
  }

  predicate Candidate(data: Bytes, offset: nat) {
    offset + 12 <= |data| && WordAt(data, offset) == MAGIC
  }

  /** A frame that fits and decodes begins at `offset`. */
  predicate Salvageable(data: Bytes, offset: nat, link: Link) {
    && Candidate(data, offset)
    && DeclaredSize(data, offset) <= link.limit
    && offset + DeclaredSize(data, offset) <= |data|
    && link.decode(data[offset..offset + DeclaredSize(data, offset)]).Ok?
  }

  /** The record prefix in front of a frame gives its capture time, if its length field agrees. */
  function InferredTime(data: Bytes, offset: nat): uint64
    requires offset + 8 <= |data|
  {
    if offset < 12 then 0
    else if WordAt(data, offset - 4) != Wrap32(DeclaredSize(data, offset)) then 0
    else
      LeValueBound(data[offset - 12..offset - 4]);
      Pow256Values();
      LeValue(data[offset - 12..offset - 4])
  }

  function SalvagedAt(data: Bytes, offset: nat, link: Link): Salvaged
    requires Salvageable(data, offset, link)
  {
    Salvaged(offset, InferredTime(data, offset),
             link.decode(data[offset..offset + DeclaredSize(data, offset)]).value)
  }

  function Scan(data: Bytes, offset: nat, link: Link): Report
    decreases |data| - offset
  {
    if offset + 12 > |data| then Report(0, 0, [])
    else if !Candidate(data, offset) then Scan(data, offset + 1, link)
    else if Salvageable(data, offset, link) then
      var r := Scan(data, offset + DeclaredSize(data, offset), link);
      Report(r.candidates + 1, r.rejected, [SalvagedAt(data, offset, link)] + r.packets)
    else
      var r := Scan(data, offset + 1, link);
      Report(r.candidates + 1, r.rejected + 1, r.packets)
  }

  // ----- the scanner as it runs

  method DecodeSlice(data: Bytes, offset: nat, size: nat, options: DecodeOptions) returns (r: Result<Packet>)
    requires offset + size <= |data|
    ensures r == LinkFor(options).decode(data[offset..offset + size])
  {
    r := PacketCodec.DecodePacket(data[offset..offset + size], options);
  }

  method InferCaptureTime(data: Bytes, offset: nat) returns (time: uint64)
    requires offset + 8 <= |data|
    ensures time == InferredTime(data, offset)
  {
    if offset < 12 {
      return 0;
    }
    var prefix := offset - 12;
    var recorded := WordAt(data, prefix + 8);
    var length: nat := WordAt(data, offset + 4);
    if recorded != Wrap32(length + 12) {
      return 0;
    }
    var reader := new BinaryReader(data[prefix..prefix + 8]);
    assert reader.Rest()[..8] == data[offset - 12..offset - 4];
    var word := reader.U64();
    time := word.value;
  }

  /** A candidate is salvaged exactly if it fits the data and the limit and decodes. */
  lemma TriedFrame(data: Bytes, offset: nat, size: nat, link: Link, decoded: Result<Packet>)
    requires Candidate(data, offset) && size == DeclaredSize(data, offset)
    requires size <= link.limit && offset + size <= |data| ==> link.decode(data[offset..offset + size]) == decoded
    ensures Salvageable(data, offset, link) <==> size <= link.limit && offset + size <= |data| && decoded.Ok?
    ensures Salvageable(data, offset, link) ==>
      SalvagedAt(data, offset, link) == Salvaged(offset, InferredTime(data, offset), decoded.value)
  {
  }

  /** What the loop body does at a magic word: nothing is salvaged if the frame does not fit or
      does not decode. */
  method TryFrame(data: Bytes, offset: nat, options: DecodeOptions) returns (found: Option<Salvaged>)
    requires Candidate(data, offset)
    ensures var link := LinkFor(options);
      found == if Salvageable(data, offset, link) then Some(SalvagedAt(data, offset, link)) else None
  {
    var length: nat := WordAt(data, offset + 4);
    var size := length + 12;
    if size > options.maxPacketSize || offset + size > |data| {
      TriedFrame(data, offset, size, LinkFor(options), Err(MalformedPacket));
      return None;
    }
    var decoded := DecodeSlice(data, offset, size, options);
    TriedFrame(data, offset, size, LinkFor(options), decoded);
    if decoded.Err? {
      return None;
    }
    var time := InferCaptureTime(data, offset);
    found := Some(Salvaged(offset, time, decoded.value));
  }

  /** A report on an earlier part of the data, followed by one on the rest. */
  function Joined(a: Report, b: Report): Report {
    Report(a.candidates + b.candidates, a.rejected + b.rejected, a.packets + b.packets)
  }

  /** The report so far and what the scan has still to find from `offset` on are the whole. */
  ghost predicate ScannedTo(data: Bytes, offset: nat, report: Report, link: Link) {
    Scan(data, 0, link) == Joined(report, Scan(data, offset, link))
  }

  lemma ScannedFound(data: Bytes, offset: nat, report: Report, link: Link, s: Salvaged)
    requires ScannedTo(data, offset, report, link) && Salvageable(data, offset, link)
    requires s == SalvagedAt(data, offset, link)
    ensures ScannedTo(data, offset + DeclaredSize(data, offset),
              Report(report.candidates + 1, report.rejected, report.packets + [s]), link)
  {
    JoinFound(report, s, Scan(data, offset + DeclaredSize(data, offset), link));
  }

  lemma ScannedRejected(data: Bytes, offset: nat, report: Report, link: Link)
    requires ScannedTo(data, offset, report, link)
    requires Candidate(data, offset) && !Salvageable(data, offset, link)
    ensures ScannedTo(data, offset + 1, Report(report.candidates + 1, report.rejected + 1, report.packets), link)
  {
  }

  lemma ScannedNoise(data: Bytes, offset: nat, report: Report, link: Link)
    requires ScannedTo(data, offset, report, link) && offset + 12 <= |data| && !Candidate(data, offset)
    ensures ScannedTo(data, offset + 1, report, link)
  {
  }

  lemma JoinFound(a: Report, s: Salvaged, b: Report)
    ensures Joined(a, Report(b.candidates + 1, b.rejected, [s] + b.packets))
         == Joined(Report(a.candidates + 1, a.rejected, a.packets + [s]), b)
  {
    assert a.packets + ([s] + b.packets) == a.packets + [s] + b.packets;
  }

  lemma ScannedAll(data: Bytes, offset: nat, report: Report, link: Link)
    requires offset + 12 > |data| && ScannedTo(data, offset, report, link)
    ensures report == Scan(data, 0, link)
  {
    assert report.packets + [] == report.packets;
  }

  /** The loop body at a magic word: where it goes on and what it then has to report. */
  method TakeFrame(data: Bytes, offset: nat, report: Report, options: DecodeOptions) returns (next: nat, more: Report)
    requires Candidate(data, offset) && ScannedTo(data, offset, report, LinkFor(options))
    ensures next > offset && ScannedTo(data, next, more, LinkFor(options))
  {
    var found := TryFrame(data, offset, options);
    if found.Some? {
      ScannedFound(data, offset, report, LinkFor(options), found.value);
      next := offset + DeclaredSize(data, offset);
      more := Report(report.candidates + 1, report.rejected, report.packets + [found.value]);
    } else {
      ScannedRejected(data, offset, report, LinkFor(options));
      next := offset + 1;
      more := Report(report.candidates + 1, report.rejected + 1, report.packets);
    }
  }

  method ScanBytes(data: Bytes, options: DecodeOptions) returns (report: Report)
    ensures report == Scan(data, 0, LinkFor(options))
  {
    ghost var link := LinkFor(options);
    report := Report(0, 0, []);
    if |data| < 12 {
      return;
    }
    var offset := 0;
    while offset + 12 <= |data|
      invariant ScannedTo(data, offset, report, link)
      decreases |data| - offset
    {
      if WordAt(data, offset) == MAGIC {
        offset, report := TakeFrame(data, offset, report, options);
      } else {
        ScannedNoise(data, offset, report, link);
        offset := offset + 1;
      }
    }
    ScannedAll(data, offset, report, link);
  }

  // ----- what a report says

  lemma {:induction false} CandidatesAccounted(data: Bytes, offset: nat, link: Link)
    ensures var r := Scan(data, offset, link);
      r.candidates == r.rejected + |r.packets|
    decreases |data| - offset
  {
    if offset + 12 > |data| {
    } else if Salvageable(data, offset, link) {
      CandidatesAccounted(data, offset + DeclaredSize(data, offset), link);
    } else {
      CandidatesAccounted(data, offset + 1, link);
    }
  }

  function FrameEnd(data: Bytes, s: Salvaged): nat {
    s.offset + DeclaredSize(data, s.offset)
  }

  ghost predicate Genuine(data: Bytes, s: Salvaged, link: Link) {
    Salvageable(data, s.offset, link) && s == SalvagedAt(data, s.offset, link)
  }

  /** The salvaged frames really are there, in order and without overlap, from `offset` on. */
  ghost predicate Disjoint(data: Bytes, offset: nat, ps: seq<Salvaged>, link: Link) {
    && (forall i | 0 <= i < |ps| :: Genuine(data, ps[i], link) && offset <= ps[i].offset)
    && (forall i, j | 0 <= i < j < |ps| :: FrameEnd(data, ps[i]) <= ps[j].offset)
  }

  lemma ConsAt<T>(x: T, xs: seq<T>, i: nat)
    requires i <= |xs|
    ensures ([x] + xs)[i] == if i == 0 then x else xs[i - 1]
  {
  }

  /** The `i`-th of the salvaged frames with `s` in front is there, and ends before the `j`-th begins. */
  lemma DisjointConsAt(data: Bytes, s: Salvaged, ps: seq<Salvaged>, link: Link, i: nat, j: nat)
    requires Genuine(data, s, link) && Disjoint(data, FrameEnd(data, s), ps, link) && i <= j <= |ps|
    ensures var all := [s] + ps;
      && Genuine(data, all[i], link) && s.offset <= all[i].offset
      && (i < j ==> FrameEnd(data, all[i]) <= all[j].offset)
  {
    ConsAt(s, ps, i);
    ConsAt(s, ps, j);
  }

  lemma DisjointCons(data: Bytes, s: Salvaged, ps: seq<Salvaged>, link: Link)
    requires Genuine(data, s, link) && Disjoint(data, FrameEnd(data, s), ps, link)
    ensures Disjoint(data, s.offset, [s] + ps, link)
  {
    forall i, j | 0 <= i <= j <= |ps|
      ensures Genuine(data, ([s] + ps)[i], link) && s.offset <= ([s] + ps)[i].offset
      ensures i < j ==> FrameEnd(data, ([s] + ps)[i]) <= ([s] + ps)[j].offset
    {
      DisjointConsAt(data, s, ps, link, i, j);
    }
  }

  lemma DisjointEarlier(data: Bytes, offset: nat, ps: seq<Salvaged>, link: Link)
    requires Disjoint(data, offset + 1, ps, link)
    ensures Disjoint(data, offset, ps, link)
  {
  }

  lemma {:induction false} SalvageIsSound(data: Bytes, offset: nat, link: Link)
    ensures Disjoint(data, offset, Scan(data, offset, link).packets, link)
    decreases |data| - offset
  {
    if offset + 12 > |data| {
    } else if Salvageable(data, offset, link) {
      var s := SalvagedAt(data, offset, link);
      SalvageIsSound(data, FrameEnd(data, s), link);
      DisjointCons(data, s, Scan(data, FrameEnd(data, s), link).packets, link);
    } else {
      SalvageIsSound(data, offset + 1, link);
      DisjointEarlier(data, offset, Scan(data, offset + 1, link).packets, link);
    }
  }

  /** `o` lies in the frame of one of the salvaged packets. */
  ghost predicate Inside(data: Bytes, o: nat, ps: seq<Salvaged>) {
    exists i :: 0 <= i < |ps|
      && ps[i].offset <= o < ps[i].offset + DeclaredSize(data, ps[i].offset)
  }

  /** No frame is missed: an offset at which a frame decodes is the offset of a salvaged packet, or
      lies inside one salvaged before it. */
  lemma {:induction false} SalvageIsComplete(data: Bytes, offset: nat, o: nat, link: Link)
    requires offset <= o && Salvageable(data, o, link)
    ensures Inside(data, o, Scan(data, offset, link).packets)
    decreases |data| - offset
  {
    var all := Scan(data, offset, link).packets;
    if Salvageable(data, offset, link) {
      var next := offset + DeclaredSize(data, offset);
      var later := Scan(data, next, link).packets;
      if o < next {
        assert all[0].offset == offset;
      } else {
        SalvageIsComplete(data, next, o, link);
        var i :| 0 <= i < |later|
          && later[i].offset <= o < later[i].offset + DeclaredSize(data, later[i].offset);
        assert all[i + 1] == later[i];
      }
    } else {
      SalvageIsComplete(data, offset + 1, o, link);
    }
  }

  // ----- an undamaged archive is recovered exactly

  /** An archive record: capture time, frame length, frame, record checksum
      (src/storage/archive.cpp:12), and the packet the frame decodes to. */
  datatype Record = Record(time: uint64, frame: Bytes, crc: uint32, packet: Packet)

  function RecordBytes(r: Record): Bytes {
    PutU64(r.time) + PutU32(|r.frame|) + r.frame + PutU32(r.crc)
  }

  function Image(records: seq<Record>): Bytes
    decreases |records|
  {
    if |records| == 0 then [] else RecordBytes(records[0]) + Image(records[1..])
  }

  function Expected(records: seq<Record>, offset: nat): seq<Salvaged>
    decreases |records|
  {
    if |records| == 0 then [] else
      [Salvaged(offset + 12, records[0].time, records[0].packet)]
      + Expected(records[1..], offset + 16 + |records[0].frame|)
  }

  /** `o` lies in the frame of a record of the image that begins at `offset`. */
  predicate InFrames(records: seq<Record>, offset: nat, o: nat)
    decreases |records|
  {
    |records| > 0
    && (offset + 12 <= o < offset + 12 + |records[0].frame|
        || InFrames(records[1..], offset + 16 + |records[0].frame|, o))
  }

  ghost predicate Stored(r: Record, link: Link) {
    Receivable(Item([], r.frame, r.packet), link)
  }

  lemma {:induction false} NothingBefore(records: seq<Record>, offset: nat, o: nat)
    requires o < offset + 12
    ensures !InFrames(records, offset, o)
    decreases |records|
  {
    if |records| > 0 {
      NothingBefore(records[1..], offset + 16 + |records[0].frame|, o);
    }
  }

  lemma {:induction false} ScanSkips(data: Bytes, start: nat, end: nat, link: Link)
    requires start <= end
    requires forall o | start <= o < end :: !Salvageable(data, o, link)
    ensures Scan(data, start, link).packets == Scan(data, end, link).packets
    decreases end - start
  {
    if start < end {
      ScanSkips(data, start + 1, end, link);
    }
  }

  /** The fields of the record that stands at `offset`. */
  lemma RecordFields(data: Bytes, offset: nat, r: Record, rest: Bytes, link: Link)
    requires offset <= |data| && data[offset..] == RecordBytes(r) + rest
    requires Stored(r, link)
    ensures var at := offset + 12;
      && Salvageable(data, at, link)
      && DeclaredSize(data, at) == |r.frame|
      && SalvagedAt(data, at, link) == Salvaged(at, r.time, r.packet)
      && offset + 16 + |r.frame| <= |data|
      && data[offset + 16 + |r.frame|..] == rest
  {
    var at, n := offset + 12, |r.frame|;
    var tail := data[offset..];
    assert |RecordBytes(r)| == 16 + n;
    Slice(data, offset, 0, 8);
    Slice(data, offset, 8, 12);
    Slice(data, offset, 12, 12 + n);
    assert tail[0..8] == PutU64(r.time) && tail[8..12] == PutU32(n) && tail[12..12 + n] == r.frame;
    assert tail[16 + n..] == rest;
    assert data[offset + 16 + n..] == tail[16 + n..];
    assert data[at..at + 4] == data[at..at + n][0..4];
    assert data[at + 4..at + 4 + 4] == data[at..at + n][4..8];
    Pow256Values();
    ValueOfBytes(r.time, 8);
    WordOfLength(n);
  }

  lemma Slice(data: Bytes, offset: nat, i: nat, j: nat)
    requires offset <= |data| && i <= j <= |data| - offset
    ensures data[offset..][i..j] == data[offset + i..offset + j]
  {
  }

  lemma WordOfLength(n: nat)
    ensures LeValue(PutU32(n)) == Wrap32(n)
  {
    Pow256Values();
    LowBytes(n, 4);
    ValueOfBytes(n % TWO_32, 4);
  }

  /** The scan from `start` skips to the frame at `at` and then past what follows it. */
  lemma ScanTakes(data: Bytes, start: nat, at: nat, next: nat, link: Link)
    requires start <= at && Salvageable(data, at, link) && at + DeclaredSize(data, at) <= next
    requires forall o | start <= o < at :: !Salvageable(data, o, link)
    requires forall o | at + DeclaredSize(data, at) <= o < next :: !Salvageable(data, o, link)
    ensures Scan(data, start, link).packets == [SalvagedAt(data, at, link)] + Scan(data, next, link).packets
  {
    ScanSkips(data, start, at, link);
    ScanSkips(data, at + DeclaredSize(data, at), next, link);
  }

  lemma RecordRecovered(data: Bytes, offset: nat, r: Record, rest: Bytes, link: Link)
    requires offset <= |data| && data[offset..] == RecordBytes(r) + rest && Stored(r, link)
    requires forall o | offset <= o < offset + 12 :: !Salvageable(data, o, link)
    requires forall o | offset + 12 + |r.frame| <= o < offset + 16 + |r.frame| :: !Salvageable(data, o, link)
    ensures offset + 16 + |r.frame| <= |data| && data[offset + 16 + |r.frame|..] == rest
    ensures Scan(data, offset, link).packets
         == [Salvaged(offset + 12, r.time, r.packet)] + Scan(data, offset + 16 + |r.frame|, link).packets
  {
    RecordFields(data, offset, r, rest, link);
    ScanTakes(data, offset, offset + 12, offset + 16 + |r.frame|, link);
  }

  /** Whatever passes for a frame from `offset` on lies in the frame of a record. */
  ghost predicate OnlyFrames(data: Bytes, offset: nat, records: seq<Record>, link: Link) {
    forall o: nat | offset <= o && Salvageable(data, o, link) :: InFrames(records, offset, o)
  }

  lemma OnlyFramesNext(data: Bytes, offset: nat, records: seq<Record>, link: Link)
    requires |records| > 0 && OnlyFrames(data, offset, records, link)
    ensures var at, n := offset + 12, |records[0].frame|;
      && (forall o | offset <= o < at :: !Salvageable(data, o, link))
      && (forall o | at + n <= o < at + n + 4 :: !Salvageable(data, o, link))
      && OnlyFrames(data, at + n + 4, records[1..], link)
  {
    var at, n := offset + 12, |records[0].frame|;
    forall o | offset <= o < at
      ensures !Salvageable(data, o, link)
    {
      NothingBefore(records, offset, o);
    }
    forall o | at + n <= o < at + n + 4
      ensures !Salvageable(data, o, link)
    {
      NothingBefore(records[1..], at + n + 4, o);
    }
  }

  /** Past the first record stand the others, and nothing else that decodes. */
  lemma FirstRecovered(data: Bytes, offset: nat, records: seq<Record>, link: Link)
    requires |records| > 0 && offset <= |data| && data[offset..] == Image(records)
    requires Stored(records[0], link) && OnlyFrames(data, offset, records, link)
    ensures var next := offset + 16 + |records[0].frame|;
      && next <= |data| && data[next..] == Image(records[1..]) && OnlyFrames(data, next, records[1..], link)
      && Scan(data, offset, link).packets
         == [Salvaged(offset + 12, records[0].time, records[0].packet)] + Scan(data, next, link).packets
  {
    OnlyFramesNext(data, offset, records, link);
    RecordRecovered(data, offset, records[0], Image(records[1..]), link);
  }

  ghost predicate AllStored(records: seq<Record>, link: Link) {
    forall i | 0 <= i < |records| :: Stored(records[i], link)
  }

  lemma AllStoredSplit(records: seq<Record>, link: Link)
    requires AllStored(records, link) && |records| > 0
    ensures Stored(records[0], link) && AllStored(records[1..], link)
  {
    forall i | 0 <= i < |records[1..]|
      ensures Stored(records[1..][i], link)
    {
      assert records[1..][i] == records[i + 1];
    }
  }

  lemma NoneLeft(data: Bytes, offset: nat, link: Link)
    requires offset <= |data| && data[offset..] == []
    ensures Scan(data, offset, link).packets == []
  {
  }

  lemma ExpectedCons(records: seq<Record>, offset: nat, found: seq<Salvaged>, later: seq<Salvaged>)
    requires |records| > 0 && later == Expected(records[1..], offset + 16 + |records[0].frame|)
    requires found == [Salvaged(offset + 12, records[0].time, records[0].packet)] + later
    ensures found == Expected(records, offset)
  {
  }

  lemma {:induction false} RecordsRecovered(data: Bytes, offset: nat, records: seq<Record>, link: Link)
    requires offset <= |data| && data[offset..] == Image(records)
    requires AllStored(records, link)
    requires OnlyFrames(data, offset, records, link)
    ensures Scan(data, offset, link).packets == Expected(records, offset)
    decreases |records|
  {
    if |records| == 0 {
      NoneLeft(data, offset, link);
    } else {
      AllStoredSplit(records, link);
      FirstRecovered(data, offset, records, link);
      var next := offset + 16 + |records[0].frame|;
      RecordsRecovered(data, next, records[1..], link);
      ExpectedCons(records, offset, Scan(data, offset, link).packets, Scan(data, next, link).packets);
    }
  }

  /** What lies inside the packets found from the first record on lies inside its packet or in a later one. */
  lemma InsideCons(data: Bytes, o: nat, first: Salvaged, later: seq<Salvaged>)
    requires Inside(data, o, [first] + later)
    ensures first.offset <= o < first.offset + DeclaredSize(data, first.offset) || Inside(data, o, later)
  {
    var all := [first] + later;
    var i :| 0 <= i < |all| && all[i].offset <= o < all[i].offset + DeclaredSize(data, all[i].offset);
    if i > 0 {
      assert later[i - 1] == all[i];
    }
  }

  /** What lies inside a packet that the image is expected to give lies in the frame of a record. */
  lemma {:induction false} ExpectedInside(data: Bytes, offset: nat, records: seq<Record>, link: Link, o: nat)
    requires offset <= |data| && data[offset..] == Image(records) && AllStored(records, link)
    requires Inside(data, o, Expected(records, offset))
    ensures InFrames(records, offset, o)
    decreases |records|
  {
    var r, more := records[0], records[1..];
    var next := offset + 16 + |r.frame|;
    AllStoredSplit(records, link);
    RecordFields(data, offset, r, Image(more), link);
    InsideCons(data, o, Salvaged(offset + 12, r.time, r.packet), Expected(more, next));
    if Inside(data, o, Expected(more, next)) {
      ExpectedInside(data, next, more, link, o);
    }
  }

  /** Every place in the archive from which a packet decodes lies in the frame of a record. */
  ghost predicate NoStrays(header: Bytes, records: seq<Record>, link: Link) {
    forall o: nat | Salvageable(header + Image(records), o, link) :: InFrames(records, |header|, o)
  }

  lemma CleanRecovered(header: Bytes, records: seq<Record>, link: Link)
    requires AllStored(records, link) && NoStrays(header, records, link)
    ensures Scan(header + Image(records), 0, link).packets == Expected(records, |header|)
  {
    var data := header + Image(records);
    assert data[|header|..] == Image(records);
    forall o | 0 <= o < |header|
      ensures !Salvageable(data, o, link)
    {
      NothingBefore(records, |header|, o);
    }
    ScanSkips(data, 0, |header|, link);
    RecordsRecovered(data, |header|, records, link);
  }

  /** Scanning an intact archive gives back every record, with its offset, capture time and packet, and
      nothing else, if and only if no stretch of bytes outside the frames passes for a frame itself. */
  lemma ArchiveRecovered(header: Bytes, records: seq<Record>, link: Link)
    requires AllStored(records, link)
    ensures Scan(header + Image(records), 0, link).packets == Expected(records, |header|)
        <==> NoStrays(header, records, link)
  {
    var data := header + Image(records);
    if NoStrays(header, records, link) {
      CleanRecovered(header, records, link);
    } else if Scan(data, 0, link).packets == Expected(records, |header|) {
      assert data[|header|..] == Image(records);
      forall o: nat | Salvageable(data, o, link)
        ensures InFrames(records, |header|, o)
      {
        SalvageIsComplete(data, 0, o, link);
        ExpectedInside(data, |header|, records, link, o);
      }
      assert false;
    }
  }
}
