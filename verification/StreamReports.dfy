/** What the stream parser reports of any bytes at all, in terms of the bytes alone: of every frame, sound or
    damaged, of every header that announces too much, and of the noise between them. */
module StreamReports {
  import opened Words
  import opened Wrappers
  import opened Codec
  import opened Packets
  import opened Stream
  import opened WireFrames
  import opened WireLayout

  // ----- one step at a time

  /** A magic word and the length of what follows it, within the limit. */
  predicate Framed(frame: Bytes, limit: nat) {
    12 <= |frame| <= limit && StartsWithMagic(frame) && Four(frame, 4) + 12 == |frame|
  }

  predicate Announces(data: Bytes) {
    |data| >= 8 && StartsWithMagic(data)
  }

  /** Every whole frame is answered by exactly one call: with the packet, or with the decoder's own error. */
  lemma FrameReported(frame: Bytes, rest: Bytes, link: Link)
    requires Framed(frame, link.limit)
    ensures var next := Run(rest, link);
      Run(frame + rest, link) == match link.decode(frame)
                                 case Ok(p) => Outcome([Delivered(p)] + next.events, next.residue)
                                 case Err(e) => Outcome([Failed(e)] + next.events, next.residue)
  {
    var data := frame + rest;
    MagicIs(data);
    WordIsFour(data, 4);
    assert data[..|frame|] == frame && data[|frame|..] == rest;
  }

  /** A header that announces too much costs one error and one byte. */
  lemma OversizedReported(data: Bytes, link: Link)
    requires Announces(data) && Four(data, 4) + 12 > link.limit
    ensures var next := Run(data[1..], link);
      Run(data, link) == Outcome([Failed(MalformedPacket)] + next.events, next.residue)
  {
    MagicIs(data);
    WordIsFour(data, 4);
  }

  lemma ByteDropped(data: Bytes, link: Link)
    requires |data| >= 4 && !StartsWithMagic(data)
    ensures Run(data, link) == Run(data[1..], link)
  {
    MagicIs(data);
    assert Run(data, link).events == [] + Run(data[1..], link).events;
  }

  /** Too little to tell: fewer than four bytes, or the beginning of a frame within the limit. */
  predicate Incomplete(data: Bytes, limit: nat) {
    || |data| < 4
    || (StartsWithMagic(data) && (|data| < 8 || |data| < Four(data, 4) + 12 <= limit))
  }

  lemma IncompleteWaits(data: Bytes, link: Link)
    requires Incomplete(data, link.limit)
    ensures Run(data, link) == Outcome([], data)
  {
    if |data| >= 4 {
      MagicIs(data);
      if |data| >= 8 {
        WordIsFour(data, 4);
      }
    }
  }

  // ----- whole runs

  predicate MagicAt(data: Bytes, k: nat) {
    k + 4 <= |data| && data[k] == 0x41 && data[k + 1] == 0x54 && data[k + 2] == 0x48 && data[k + 3] == 0x4e
  }

  ghost predicate NoMagic(noise: Bytes) {
    forall k: nat :: !MagicAt(noise, k)
  }

  lemma NoMagicIsQuiet(noise: Bytes)
    requires NoMagic(noise)
    ensures Quiet(noise)
  {
    forall k | 0 <= k && k + 4 <= |noise|
      ensures WordAt(noise, k) != MAGIC
    {
      WordIsFour(noise, k);
      assert !MagicAt(noise, k);
    }
  }

  /** Noise, a whole frame, the header of a frame beyond the limit with whatever stands behind it up to the
      next magic word, or the beginning of a frame that has not arrived in full. */
  datatype Piece = Noise(bytes: Bytes) | Whole(bytes: Bytes) | Oversized(bytes: Bytes) | Begun(bytes: Bytes)

  function Wired(pieces: seq<Piece>): Bytes
    decreases |pieces|
  {
    if |pieces| == 0 then [] else pieces[0].bytes + Wired(pieces[1..])
  }

  /** Pieces as any bytes fall into: only a frame may be followed by noise, and only the last can be begun. */
  ghost predicate Cut(pieces: seq<Piece>, limit: nat)
    decreases |pieces|
  {
    |pieces| == 0
    || (&& Cut(pieces[1..], limit)
        && (pieces[0].Whole? || |pieces| == 1 || !pieces[1].Noise?)
        && match pieces[0]
           case Noise(n) => |n| > 0 && NoMagic(n)
           case Whole(f) => Framed(f, limit)
           case Oversized(h) =>
             && |h| >= 4 && StartsWithMagic(h) && NoMagic(h[1..])
             && |Wired(pieces)| >= 8 && Four(Wired(pieces), 4) + 12 > limit
           case Begun(b) => |pieces| == 1 && |b| >= 4 && Incomplete(b, limit))
  }

  /** One call for every whole frame, by what the decoder says of it, and one for every oversized header. */
  function Reports(pieces: seq<Piece>, link: Link): seq<Event>
    decreases |pieces|
  {
    if |pieces| == 0 then [] else
      (match pieces[0]
       case Noise(_) => []
       case Whole(f) => (match link.decode(f) case Ok(p) => [Delivered(p)] case Err(e) => [Failed(e)])
       case Oversized(_) => [Failed(MalformedPacket)]
       case Begun(_) => [])
      + Reports(pieces[1..], link)
  }

  function LastThree(b: Bytes): Bytes {
    b[|b| - Min(3, |b|)..]
  }

  /** What stays buffered: a frame begun, or the last three bytes of what is no frame. */
  function Kept(pieces: seq<Piece>): Bytes {
    if |pieces| == 0 then [] else
      match pieces[|pieces| - 1]
      case Noise(n) => LastThree(n)
      case Whole(_) => []
      case Oversized(h) => LastThree(h)
      case Begun(b) => b
  }

  lemma {:induction false} TrailingNoise(noise: Bytes, link: Link)
    requires NoMagic(noise)
    ensures Run(noise, link) == Outcome([], LastThree(noise))
    decreases |noise|
  {
    if |noise| < 4 {
      IncompleteWaits(noise, link);
      assert LastThree(noise) == noise;
    } else {
      assert !MagicAt(noise, 0);
      ByteDropped(noise, link);
      NoMagicBehind(noise);
      TrailingNoise(noise[1..], link);
    }
  }

  lemma NoMagicBehind(noise: Bytes)
    requires |noise| > 0 && NoMagic(noise)
    ensures NoMagic(noise[1..])
  {
    forall k: nat
      ensures !MagicAt(noise[1..], k)
    {
      assert !MagicAt(noise, k + 1);
    }
  }

  lemma NoisePassed(noise: Bytes, rest: Bytes, link: Link)
    requires NoMagic(noise) && |rest| >= 4 && StartsWithMagic(rest)
    ensures Run(noise + rest, link) == Run(rest, link)
  {
    NoMagicIsQuiet(noise);
    MagicIs(rest);
    NoiseSkipped(noise, rest, link);
  }

  /** A piece that is not noise begins with the magic word. */
  lemma BeginsWithMagic(pieces: seq<Piece>, limit: nat)
    requires |pieces| > 0 && !pieces[0].Noise? && Cut(pieces, limit)
    ensures |Wired(pieces)| >= 4 && StartsWithMagic(Wired(pieces))
  {
  }

  lemma NoiseReported(n: Bytes, rest: seq<Piece>, data: Bytes, link: Link)
    requires NoMagic(n) && data == Wired(rest)
    requires |rest| == 0 || (|data| >= 4 && StartsWithMagic(data))
    ensures Run(n + data, link) == if |rest| == 0 then Outcome([], LastThree(n)) else Run(data, link)
  {
    if |rest| == 0 {
      assert n + data == n;
      TrailingNoise(n, link);
    } else {
      NoisePassed(n, data, link);
    }
  }

  lemma LastThreeBehind(h: Bytes)
    requires |h| >= 4
    ensures LastThree(h[1..]) == LastThree(h)
  {
  }

  lemma BehindFirst(h: Bytes, data: Bytes)
    requires |h| > 0
    ensures (h + data)[1..] == h[1..] + data
  {
  }

  /** The header begins with a magic word also with more behind it. */
  lemma HeaderAnnounces(h: Bytes, data: Bytes)
    requires |h| >= 4 && StartsWithMagic(h) && |h + data| >= 8
    ensures Announces(h + data)
  {
  }

  lemma OversizedPassed(h: Bytes, rest: seq<Piece>, data: Bytes, link: Link)
    requires |h| >= 4 && StartsWithMagic(h) && NoMagic(h[1..]) && data == Wired(rest)
    requires |h + data| >= 8 && Four(h + data, 4) + 12 > link.limit
    requires |rest| == 0 || (|data| >= 4 && StartsWithMagic(data))
    ensures var next := if |rest| == 0 then Outcome([], LastThree(h)) else Run(data, link);
      Run(h + data, link) == Outcome([Failed(MalformedPacket)] + next.events, next.residue)
  {
    HeaderAnnounces(h, data);
    OversizedReported(h + data, link);
    BehindFirst(h, data);
    NoiseReported(h[1..], rest, data, link);
    LastThreeBehind(h);
  }

  /** What stands behind a piece that is no frame: nothing, or a magic word. */
  lemma Behind(pieces: seq<Piece>, limit: nat)
    requires |pieces| > 0 && Cut(pieces, limit) && !pieces[0].Whole?
    ensures |pieces| == 1 || (|Wired(pieces[1..])| >= 4 && StartsWithMagic(Wired(pieces[1..])))
  {
    if |pieces| > 1 {
      BeginsWithMagic(pieces[1..], limit);
    }
  }

  lemma FirstReported(pieces: seq<Piece>, link: Link)
    requires |pieces| > 0 && Cut(pieces, link.limit)
    ensures var next := Run(Wired(pieces[1..]), link);
      Run(Wired(pieces), link)
        == match pieces[0]
           case Noise(n) => if |pieces| == 1 then Outcome([], LastThree(n)) else next
           case Whole(f) => (match link.decode(f)
                             case Ok(p) => Outcome([Delivered(p)] + next.events, next.residue)
                             case Err(e) => Outcome([Failed(e)] + next.events, next.residue))
           case Oversized(h) =>
             var more := if |pieces| == 1 then Outcome([], LastThree(h)) else next;
             Outcome([Failed(MalformedPacket)] + more.events, more.residue)
           case Begun(b) => Outcome([], b)
  {
    var rest := pieces[1..];
    if !pieces[0].Whole? {
      Behind(pieces, link.limit);
    }
    match pieces[0]
    case Noise(n) => NoiseReported(n, rest, Wired(rest), link);
    case Whole(f) => FrameReported(f, Wired(rest), link);
    case Oversized(h) => OversizedPassed(h, rest, Wired(rest), link);
    case Begun(b) =>
      assert Wired(pieces) == b;
      IncompleteWaits(b, link);
  }

  lemma KeptLater(pieces: seq<Piece>)
    requires |pieces| > 1
    ensures Kept(pieces) == Kept(pieces[1..])
  {
  }

  lemma {:induction false} RunReports(pieces: seq<Piece>, link: Link)
    requires Cut(pieces, link.limit)
    ensures Run(Wired(pieces), link) == Outcome(Reports(pieces, link), Kept(pieces))
    decreases |pieces|
  {
    if |pieces| == 0 {
      IncompleteWaits([], link);
    } else {
      RunReports(pieces[1..], link);
      FirstReported(pieces, link);
      if |pieces| > 1 {
        KeptLater(pieces);
      }
    }
  }

  /** For any bytes cut into pushes anywhere: the calls are exactly those of the frames and the oversized
      headers among them, in order, and what stays buffered is known. */
  lemma ChunksReport(pieces: seq<Piece>, chunks: seq<Bytes>, link: Link)
    requires Cut(pieces, link.limit) && Flatten(chunks) == Wired(pieces)
    ensures PushAll([], chunks, link) == Outcome(Reports(pieces, link), Kept(pieces))
  {
    ChunkingInvariance([], chunks, link);
    assert [] + Flatten(chunks) == Wired(pieces);
    RunReports(pieces, link);
  }

  // ----- any bytes fall into such pieces

  lemma NoMagicInFront(b: uint8, noise: Bytes)
    requires NoMagic(noise) && !MagicAt([b] + noise, 0)
    ensures NoMagic([b] + noise)
  {
    forall k: nat
      ensures !MagicAt([b] + noise, k)
    {
      if k > 0 {
        assert !MagicAt(noise, k - 1);
      }
    }
  }

  /** The first bytes of what the pieces spell. */
  lemma FirstBytes(pieces: seq<Piece>)
    requires |pieces| > 0
    ensures Wired(pieces)[..|pieces[0].bytes|] == pieces[0].bytes
  {
  }

  /** A byte that starts no magic word goes to the noise behind it. */
  lemma NoiseGrows(b: uint8, rest: seq<Piece>, limit: nat) returns (pieces: seq<Piece>)
    requires Cut(rest, limit) && !MagicAt([b] + Wired(rest), 0)
    ensures Cut(pieces, limit) && Wired(pieces) == [b] + Wired(rest)
    ensures |pieces| > 0 && pieces[0].Noise? && pieces[0].bytes[0] == b
  {
    if |rest| > 0 && rest[0].Noise? {
      var n := rest[0].bytes;
      FirstBytes(rest);
      assert MagicAt([b] + n, 0) ==> MagicAt([b] + Wired(rest), 0);
      NoMagicInFront(b, n);
      pieces := [Noise([b] + n)] + rest[1..];
      assert pieces[1..] == rest[1..];
    } else {
      pieces := [Noise([b])] + rest;
      assert pieces[1..] == rest;
    }
  }

  /** A magic word in front of a length beyond the limit takes the noise behind its first byte. */
  lemma HeaderGrows(data: Bytes, rest: seq<Piece>, limit: nat) returns (pieces: seq<Piece>)
    requires Announces(data) && Four(data, 4) + 12 > limit
    requires Cut(rest, limit) && Wired(rest) == data[1..] && |rest| > 0 && rest[0].Noise?
    requires |rest[0].bytes| >= 3
    ensures Cut(pieces, limit) && Wired(pieces) == data
  {
    var n := rest[0].bytes;
    FirstBytes(rest);
    var h := [data[0]] + n;
    assert h[1..] == n;
    assert n[0] == data[1..][0] && n[1] == data[1..][1] && n[2] == data[1..][2];
    pieces := [Oversized(h)] + rest[1..];
    assert pieces[1..] == rest[1..];
    assert Wired(pieces) == [data[0]] + Wired(rest) == data;
  }

  lemma {:induction false} Pieces(data: Bytes, limit: nat) returns (pieces: seq<Piece>)
    ensures Cut(pieces, limit) && Wired(pieces) == data
    ensures |data| > 0 && !MagicAt(data, 0) ==> |pieces| > 0 && pieces[0].Noise? && pieces[0].bytes[0] == data[0]
    decreases |data|
  {
    if data == [] {
      pieces := [];
    } else if !MagicAt(data, 0) {
      var rest := Pieces(data[1..], limit);
      assert data == [data[0]] + data[1..];
      pieces := NoiseGrows(data[0], rest, limit);
    } else if Incomplete(data, limit) {
      pieces := [Begun(data)];
      assert pieces[1..] == [] && Wired(pieces) == data + [];
    } else if Four(data, 4) + 12 <= limit {
      var n := Four(data, 4) + 12;
      var rest := Pieces(data[n..], limit);
      pieces := [Whole(data[..n])] + rest;
      assert pieces[1..] == rest && data == data[..n] + data[n..];
    } else {
      var rest := Pieces(data[1..], limit);
      pieces := HeaderGrows(data, rest, limit);
    }
  }

  /** So the calls and the buffer are exactly these for any bytes in any pushes. */
  lemma EveryWire(chunks: seq<Bytes>, link: Link)
    ensures exists pieces: seq<Piece> ::
      Cut(pieces, link.limit) && Wired(pieces) == Flatten(chunks)
      && PushAll([], chunks, link) == Outcome(Reports(pieces, link), Kept(pieces))
  {
    var pieces := Pieces(Flatten(chunks), link.limit);
    ChunksReport(pieces, chunks, link);
  }

  /** A frame right behind a stray magic word still gets through, behind one error, unless the limit reaches
      the length that the second magic word spells. */
  lemma StrayMagic(frame: Bytes, rest: Bytes, link: Link)
    requires Framed(frame, link.limit) && link.limit < 0x4e48_5441 + 12
    ensures var next := Run(frame + rest, link);
      Run([0x41, 0x54, 0x48, 0x4e] + (frame + rest), link)
        == Outcome([Failed(MalformedPacket)] + next.events, next.residue)
  {
    var word: Bytes, data := [0x41, 0x54, 0x48, 0x4e], frame + rest;
    assert Four(word + data, 4) == 0x4e48_5441;
    OversizedReported(word + data, link);
    assert (word + data)[1..] == word[1..] + data;
    NoisePassed(word[1..], data, link);
  }
}
