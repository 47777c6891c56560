/** What the repair scanner takes for a frame, and what it reports of one, in numbers and offsets. */
module RepairReports {
  import opened Words
  import opened Wrappers
  import opened Codec
  import opened Packets
  import opened Stream
  import opened Repair
  import opened WireFrames
  import opened WireLayout
  import StreamReports
  import WireWriting

  /** The size that the header at `o` declares. */
  function SizeAt(data: Bytes, o: nat): nat
    requires o + 8 <= |data|
  {
    Four(data, o + 4) + 12
  }

  /** A magic word with a whole frame behind it that is within the limit and decodes. */
  predicate FrameStands(data: Bytes, o: nat, link: Link) {
    && o + 12 <= |data| && StreamReports.MagicAt(data, o)
    && SizeAt(data, o) <= link.limit && o + SizeAt(data, o) <= |data|
    && link.decode(data[o..o + SizeAt(data, o)]).Ok?
  }

  lemma SizeIs(data: Bytes, o: nat)
    requires o + 8 <= |data|
    ensures DeclaredSize(data, o) == SizeAt(data, o)
  {
    WordIsFour(data, o + 4);
  }

  lemma MagicStands(data: Bytes, o: nat)
    requires o + 4 <= |data|
    ensures WordAt(data, o) == MAGIC <==> StreamReports.MagicAt(data, o)
  {
    WordIsFour(data, o);
  }

  lemma SalvageableExactly(data: Bytes, o: nat, link: Link)
    ensures Salvageable(data, o, link) <==> FrameStands(data, o, link)
  {
    if o + 12 <= |data| {
      SizeIs(data, o);
      MagicStands(data, o);
    }
  }

  /** The capture time is the number in front of the recorded length, if there is room for both and the recorded
      length is that of the frame. */
  lemma TimeExactly(data: Bytes, o: nat)
    requires o + 12 <= |data|
    ensures InferredTime(data, o)
         == if o >= 12 && Four(data, o - 4) == SizeAt(data, o) % TWO_32 then Eight(data, o - 12) else 0
  {
    SizeIs(data, o);
    if o >= 12 {
      WordIsFour(data, o - 4);
      ValueOfEight(data[o - 12..o - 4]);
      EightFrom(data, o - 12);
    }
  }

  lemma EightFrom(data: Bytes, at: nat)
    requires at + 8 <= |data|
    ensures Eight(data[at..at + 8], 0) == Eight(data, at)
  {
  }

  /** Every salvaged packet comes from a frame that stands there, with the time recorded in front of it. */
  lemma SalvagedExactly(data: Bytes, link: Link, i: nat)
    requires i < |Scan(data, 0, link).packets|
    ensures var s := Scan(data, 0, link).packets[i];
      && FrameStands(data, s.offset, link)
      && link.decode(data[s.offset..s.offset + SizeAt(data, s.offset)]) == Ok(s.packet)
      && s.captureTime
         == (if s.offset >= 12 && Four(data, s.offset - 4) == SizeAt(data, s.offset) % TWO_32
             then Eight(data, s.offset - 12) else 0)
  {
    SalvageIsSound(data, 0, link);
    var s := Scan(data, 0, link).packets[i];
    assert Genuine(data, s, link);
    SalvageableExactly(data, s.offset, link);
    SizeIs(data, s.offset);
    TimeExactly(data, s.offset);
  }

  /** `o` lies in the frame salvaged as `s`. */
  predicate LiesIn(data: Bytes, o: nat, s: Salvaged) {
    s.offset + 8 <= |data| && s.offset <= o < s.offset + SizeAt(data, s.offset)
  }

  /** Every frame that stands somewhere is salvaged, or begins inside a salvaged one. */
  lemma NoneMissed(data: Bytes, o: nat, link: Link)
    requires FrameStands(data, o, link)
    ensures exists s :: s in Scan(data, 0, link).packets && LiesIn(data, o, s)
  {
    SalvageableExactly(data, o, link);
    SalvageIsComplete(data, 0, o, link);
    var ps := Scan(data, 0, link).packets;
    var i :| 0 <= i < |ps| && ps[i].offset <= o < ps[i].offset + DeclaredSize(data, ps[i].offset);
    SalvagedExactly(data, link, i);
    SizeIs(data, ps[i].offset);
    assert ps[i] in ps && LiesIn(data, o, ps[i]);
  }

  /** A record of an archive: time, length, frame and checksum, one behind the other. */
  lemma RecordLaid(r: Record)
    ensures var b, n := RecordBytes(r), |r.frame|;
      && |b| == 16 + n && Eight(b, 0) == r.time && Four(b, 8) == n % TWO_32
      && b[12..12 + n] == r.frame && Four(b, 12 + n) == r.crc
  {
    var b, n := RecordBytes(r), |r.frame|;
    WireWriting.WritesEight(PutU64(r.time), r.time);
    WireWriting.WritesFour(PutU32(n), n);
    WireWriting.WritesFour(PutU32(r.crc), r.crc);
    assert b[0..8] == PutU64(r.time) && b[8..12] == PutU32(n) && b[12 + n..16 + n] == PutU32(r.crc);
    EightFrom(b, 0);
    assert Four(b[8..12], 0) == Four(b, 8) && Four(b[12 + n..16 + n], 0) == Four(b, 12 + n);
    assert r.crc % TWO_32 == r.crc;
  }

  // ----- what is rejected

  /** A magic word from `from` on, with room for a header, that begins no decodable frame and lies in none of those
      salvaged. */
  ghost predicate IsRejected(data: Bytes, from: nat, ps: seq<Salvaged>, link: Link, o: nat) {
    && from <= o && o + 12 <= |data| && StreamReports.MagicAt(data, o) && !FrameStands(data, o, link)
    && forall s | s in ps :: !LiesIn(data, o, s)
  }

  ghost function Rejections(data: Bytes, from: nat, link: Link): set<nat> {
    set o: nat | o < |data| && IsRejected(data, from, Scan(data, from, link).packets, link, o)
  }

  /** Frames salvaged from `from` on hold nothing in front of it. */
  lemma NothingInFront(data: Bytes, from: nat, link: Link, s: Salvaged, o: nat)
    requires s in Scan(data, from, link).packets && o < from
    ensures !LiesIn(data, o, s)
  {
    SalvageIsSound(data, from, link);
  }

  lemma RejectedMore(data: Bytes, from: nat, link: Link)
    requires from + 12 <= |data| && !FrameStands(data, from, link)
    requires Scan(data, from, link).packets == Scan(data, from + 1, link).packets
    ensures StreamReports.MagicAt(data, from) ==>
      Rejections(data, from, link) == Rejections(data, from + 1, link) + {from}
      && from !in Rejections(data, from + 1, link)
    ensures !StreamReports.MagicAt(data, from) ==> Rejections(data, from, link) == Rejections(data, from + 1, link)
  {
    forall s | s in Scan(data, from + 1, link).packets
      ensures !LiesIn(data, from, s)
    {
      NothingInFront(data, from + 1, link, s, from);
    }
  }

  lemma SalvagedNone(data: Bytes, from: nat, s: Salvaged, link: Link)
    requires FrameStands(data, from, link) && s.offset == from
    requires Scan(data, from, link).packets == [s] + Scan(data, from + SizeAt(data, from), link).packets
    ensures Rejections(data, from, link) == Rejections(data, from + SizeAt(data, from), link)
  {
    var next := from + SizeAt(data, from);
    var now, later := Scan(data, from, link).packets, Scan(data, next, link).packets;
    assert now[0] == s;
    forall o: nat
      ensures IsRejected(data, from, now, link, o) <==> IsRejected(data, next, later, link, o)
    {
      assert from <= o < next ==> LiesIn(data, o, s);
      assert forall x :: x in now <==> x == s || x in later;
    }
  }

  /** The rejected candidates are exactly those. */
  lemma {:induction false} RejectedExactly(data: Bytes, from: nat, link: Link)
    ensures Scan(data, from, link).rejected == |Rejections(data, from, link)|
    decreases |data| - from
  {
    if from + 12 > |data| {
      assert Rejections(data, from, link) == {};
    } else {
      SalvageableExactly(data, from, link);
      MagicStands(data, from);
      SizeIs(data, from);
      if Salvageable(data, from, link) {
        SalvagedNone(data, from, SalvagedAt(data, from, link), link);
        RejectedExactly(data, from + SizeAt(data, from), link);
      } else {
        RejectedMore(data, from, link);
        RejectedExactly(data, from + 1, link);
      }
    }
  }
}
