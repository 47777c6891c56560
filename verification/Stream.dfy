/** The resynchronising stream parser of src/stream/stream_parser.cpp.  Its handlers are modelled
    by the log of the calls made to them. */
module Stream {
  import opened Words
  import opened Wrappers
  import opened Codec
  import opened Packets
  import opened PacketTheorems
  import PacketCodec

  datatype Event = Delivered(packet: Packet) | Failed(error: ErrorCode)

  // ----- what the parser does to a buffer, step by step

  /** Bytes taken off the front in one step (none: the parser waits) and the handler calls made. */
  datatype Step = Step(taken: nat, events: seq<Event>)

  /** All the parser knows of the packets: a size limit and a way to decode a whole frame. */
  datatype Link = Link(limit: nat, decode: Bytes -> Result<Packet>)

  function LinkFor(options: DecodeOptions): Link {
    Link(options.maxPacketSize, (frame: Bytes) => Decode(frame, options))
  }

  function FrameEvent(frame: Bytes, link: Link): Event {
    match link.decode(frame)
    case Ok(p) => Delivered(p)
    case Err(e) => Failed(e)
  }

  function NextStep(buffer: Bytes, link: Link): (s: Step)
    ensures s.taken <= |buffer|
  {
    if |buffer| < 4 then Step(0, [])
    else if WordAt(buffer, 0) != MAGIC then Step(1, [])
    else if |buffer| < 8 then Step(0, [])
    else
      var length: nat := WordAt(buffer, 4) + 12;
      if length > link.limit then Step(1, [Failed(MalformedPacket)])
      else if |buffer| < length then Step(0, [])
      else Step(length, [FrameEvent(buffer[..length], link)])
  }

  datatype Outcome = Outcome(events: seq<Event>, residue: Bytes) {
    function Then(next: Outcome): Outcome {
      Outcome(events + next.events, next.residue)
    }
  }

  /** Steps until the parser waits. */
  function Run(buffer: Bytes, link: Link): Outcome
    decreases |buffer|
  {
    var s := NextStep(buffer, link);
    if s.taken == 0 then Outcome([], buffer)
    else Outcome(s.events, []).Then(Run(buffer[s.taken..], link))
  }

  class StreamParser {
    const options: DecodeOptions
    var buffer: Bytes
    var log: seq<Event>

    constructor (options: DecodeOptions)
      ensures this.options == options && buffer == [] && log == []
    {
      this.options := options;
      buffer := [];
      log := [];
    }

    method Push(data: Bytes)
      modifies this
      ensures var all := Run(old(buffer) + data, LinkFor(options));
        log == old(log) + all.events && buffer == all.residue
    {
      buffer := buffer + data;
      ghost var start := buffer;
      ghost var sofar: seq<Event> := [];
      var again := true;
      while again
        invariant log == old(log) + sofar
        invariant Run(start, LinkFor(options)) == Outcome(sofar, []).Then(Run(buffer, LinkFor(options)))
        invariant !again ==> NextStep(buffer, LinkFor(options)).taken == 0
        decreases |buffer|, again
      {
        ghost var events;
        again, events := TryExtractOne();
        ConcatEvents(sofar, events, Run(buffer, LinkFor(options)).events);
        ConcatEvents(old(log), sofar, events);
        sofar := sofar + events;
      }
      assert sofar + [] == sofar;
    }

    method Clear()
      modifies this`buffer
      ensures buffer == []
    {
      buffer := [];
    }

    method DiscardUntilMagic()
      modifies this`buffer
      ensures |buffer| <= |old(buffer)|
      ensures Run(buffer, LinkFor(options)) == Run(old(buffer), LinkFor(options))
      ensures |buffer| >= 4 ==> WordAt(buffer, 0) == MAGIC
    {
      while |buffer| >= 4
        invariant |buffer| <= |old(buffer)|
        invariant Run(buffer, LinkFor(options)) == Run(old(buffer), LinkFor(options))
        decreases |buffer|
      {
        if WordAt(buffer, 0) == MAGIC {
          return;
        }
        assert Run(buffer, LinkFor(options)).events == Run(buffer[1..], LinkFor(options)).events;
        buffer := buffer[1..];
      }
    }

    method TryExtractOne() returns (again: bool, ghost events: seq<Event>)
      modifies this
      ensures log == old(log) + events
      ensures Run(old(buffer), LinkFor(options)) == Outcome(events, []).Then(Run(buffer, LinkFor(options)))
      ensures again ==> |buffer| < |old(buffer)|
      ensures !again ==> |buffer| <= |old(buffer)| && NextStep(buffer, LinkFor(options)).taken == 0
    {
      DiscardUntilMagic();
      if |buffer| < 8 {
        return false, [];
      }
      var length: nat := WordAt(buffer, 4) + 12;
      if length > options.maxPacketSize {
        log := log + [Failed(MalformedPacket)];
        buffer := buffer[1..];
        return true, [Failed(MalformedPacket)];
      }
      if |buffer| < length {
        return false, [];
      }
      var frame := PopFrame(length);
      Report(frame);
      return true, [FrameEvent(frame, LinkFor(options))];
    }

    /** Moves a frame out of the buffer byte by byte. */
    method PopFrame(length: nat) returns (frame: Bytes)
      requires length <= |buffer|
      modifies this`buffer
      ensures frame == old(buffer)[..length] && buffer == old(buffer)[length..]
    {
      frame := [];
      for i := 0 to length
        invariant frame == old(buffer)[..i] && buffer == old(buffer)[i..]
      {
        frame := frame + [buffer[0]];
        buffer := buffer[1..];
      }
    }

    /** Decodes a frame and calls the handler for the result. */
    method Report(frame: Bytes)
      modifies this`log
      ensures log == old(log) + [FrameEvent(frame, LinkFor(options))]
    {
      var decoded := PacketCodec.DecodePacket(frame, options);
      match decoded {
        case Ok(p) => log := log + [Delivered(p)];
        case Err(e) => log := log + [Failed(e)];
      }
    }
  }

  // ----- where the parser waits

  /** Too few bytes to tell, or the beginning of a frame that is still incomplete. */
  predicate Waiting(buffer: Bytes, link: Link) {
    || |buffer| < 4
    || (WordAt(buffer, 0) == MAGIC
        && (|buffer| < 8
            || (WordAt(buffer, 4) + 12 <= link.limit && |buffer| < WordAt(buffer, 4) + 12)))
  }

  /** What is left waits for more, and is shorter than the larger of 8 and the packet limit. */
  lemma {:induction false} ResidueWaits(buffer: Bytes, link: Link)
    ensures var r := Run(buffer, link).residue;
      Waiting(r, link) && Run(r, link) == Outcome([], r) && |r| < Max(8, link.limit)
    decreases |buffer|
  {
    var s := NextStep(buffer, link);
    if s.taken != 0 {
      ResidueWaits(buffer[s.taken..], link);
    }
  }

  // ----- chunking does not matter

  /** A step that does not wait is not changed by bytes that arrive later. */
  lemma StepExtends(a: Bytes, b: Bytes, link: Link)
    requires NextStep(a, link).taken != 0
    ensures NextStep(a + b, link) == NextStep(a, link)
  {
    assert (a + b)[0..4] == a[0..4];
    if |a| >= 8 {
      assert (a + b)[4..8] == a[4..8];
      var length: nat := WordAt(a, 4) + 12;
      if length <= |a| {
        assert (a + b)[..length] == a[..length];
      }
    }
  }

  lemma {:induction false} RunConcat(a: Bytes, b: Bytes, link: Link)
    ensures var first := Run(a, link);
      Run(a + b, link) == Outcome(first.events, []).Then(Run(first.residue + b, link))
    decreases |a|
  {
    var s := NextStep(a, link);
    if s.taken != 0 {
      var rest := a[s.taken..];
      StepExtends(a, b, link);
      assert (a + b)[s.taken..] == rest + b;
      RunConcat(rest, b, link);
      var first := Run(rest, link);
      ConcatEvents(s.events, first.events, Run(first.residue + b, link).events);
    }
  }

  lemma ConcatEvents(a: seq<Event>, b: seq<Event>, c: seq<Event>)
    ensures a + (b + c) == (a + b) + c
  {
  }

  function Flatten(chunks: seq<Bytes>): Bytes
    decreases |chunks|
  {
    if |chunks| == 0 then [] else chunks[0] + Flatten(chunks[1..])
  }

  /** The chunks pushed one after another onto `buffer`. */
  function PushAll(buffer: Bytes, chunks: seq<Bytes>, link: Link): Outcome
    decreases |chunks|
  {
    if |chunks| == 0 then Outcome([], buffer) else
      var first := Run(buffer + chunks[0], link);
      Outcome(first.events, []).Then(PushAll(first.residue, chunks[1..], link))
  }

  lemma FlattenHead(buffer: Bytes, chunks: seq<Bytes>)
    requires |chunks| > 0
    ensures buffer + chunks[0] + Flatten(chunks[1..]) == buffer + Flatten(chunks)
  {
    ConcatThree(buffer, chunks[0], Flatten(chunks[1..]));
  }

  /** However a byte stream is split into pushes, the handlers see the same calls in the same order
      and the same bytes stay buffered as when it is pushed at once. */
  lemma {:induction false} ChunkingInvariance(buffer: Bytes, chunks: seq<Bytes>, link: Link)
    requires Waiting(buffer, link)
    ensures PushAll(buffer, chunks, link) == Run(buffer + Flatten(chunks), link)
    decreases |chunks|
  {
    if |chunks| == 0 {
      assert buffer + Flatten(chunks) == buffer;
    } else {
      var first := Run(buffer + chunks[0], link);
      ResidueWaits(buffer + chunks[0], link);
      ChunkingInvariance(first.residue, chunks[1..], link);
      RunConcat(buffer + chunks[0], Flatten(chunks[1..]), link);
      FlattenHead(buffer, chunks);
    }
  }

  // ----- packets get through noise

  /** No magic word lies inside the noise. */
  ghost predicate Quiet(noise: Bytes) {
    forall k | 0 <= k && k + 4 <= |noise| :: WordAt(noise, k) != MAGIC
  }

  lemma MagicBytes(data: Bytes, k: nat)
    requires k + 4 <= |data| && WordAt(data, k) == MAGIC
    ensures data[k..k + 4] == [0x41, 0x54, 0x48, 0x4e]
  {
    BytesOfValue(data[k..k + 4]);
    assert LeBytes(MAGIC, 4) == [0x41] + LeBytes(0x4e4854, 3);
    assert LeBytes(0x4e4854, 3) == [0x54] + LeBytes(0x4e48, 2);
    assert LeBytes(0x4e48, 2) == [0x48] + LeBytes(0x4e, 1);
    assert LeBytes(0x4e, 1) == [0x4e] + LeBytes(0, 0);
  }

  /** The four bytes of the magic word all differ, so none can start in the last bytes of quiet
      noise and end in the frame behind it. */
  lemma NoStraddling(noise: Bytes, rest: Bytes)
    requires |noise| > 0 && Quiet(noise) && |rest| >= 4 && WordAt(rest, 0) == MAGIC
    ensures WordAt(noise + rest, 0) != MAGIC
  {
    var data := noise + rest;
    if |noise| >= 4 {
      assert WordAt(noise, 0) != MAGIC;
      assert data[0..4] == noise[0..4];
    } else {
      MagicBytes(rest, 0);
      assert data[|noise|] == rest[0] == rest[0..4][0];
      if WordAt(data, 0) == MAGIC {
        MagicBytes(data, 0);
        assert false;
      }
    }
  }

  lemma {:induction false} NoiseSkipped(noise: Bytes, rest: Bytes, link: Link)
    requires Quiet(noise) && |rest| >= 4 && WordAt(rest, 0) == MAGIC
    ensures Run(noise + rest, link) == Run(rest, link)
    decreases |noise|
  {
    if |noise| == 0 {
      assert noise + rest == rest;
    } else {
      var data := noise + rest;
      NoStraddling(noise, rest);
      assert data[1..] == noise[1..] + rest;
      forall k | 0 <= k && k + 4 <= |noise[1..]|
        ensures WordAt(noise[1..], k) != MAGIC
      {
        assert noise[1..][k..k + 4] == noise[k + 1..k + 1 + 4];
        assert WordAt(noise, k + 1) != MAGIC;
      }
      NoiseSkipped(noise[1..], rest, link);
      assert NextStep(data, link) == Step(1, []);
      assert Run(data, link).events == [] + Run(data[1..], link).events;
    }
  }

  /** What stands on the wire: some noise, then a frame and the packet it decodes to. */
  datatype Item = Item(noise: Bytes, frame: Bytes, packet: Packet)

  ghost predicate Receivable(item: Item, link: Link) {
    && Quiet(item.noise)
    && 12 <= |item.frame| <= link.limit
    && WordAt(item.frame, 0) == MAGIC && WordAt(item.frame, 4) + 12 == |item.frame|
    && link.decode(item.frame) == Ok(item.packet)
  }

  function Wire(items: seq<Item>): Bytes
    decreases |items|
  {
    if |items| == 0 then [] else items[0].noise + items[0].frame + Wire(items[1..])
  }

  function Deliveries(items: seq<Item>): seq<Event>
    decreases |items|
  {
    if |items| == 0 then [] else [Delivered(items[0].packet)] + Deliveries(items[1..])
  }

  lemma FrameExtracted(frame: Bytes, p: Packet, rest: Bytes, link: Link)
    requires Receivable(Item([], frame, p), link)
    ensures var data := frame + rest;
      WordAt(data, 0) == MAGIC
      && Run(data, link) == Outcome([Delivered(p)], []).Then(Run(rest, link))
  {
    var data := frame + rest;
    assert data[0..4] == frame[0..4];
    assert data[4..8] == frame[4..8];
    assert data[..|frame|] == frame && data[|frame|..] == rest;
  }

  lemma ItemDelivers(item: Item, rest: Bytes, link: Link)
    requires Receivable(item, link)
    ensures Run(item.noise + item.frame + rest, link)
         == Outcome([Delivered(item.packet)], []).Then(Run(rest, link))
  {
    FrameExtracted(item.frame, item.packet, rest, link);
    NoiseSkipped(item.noise, item.frame + rest, link);
    assert item.noise + item.frame + rest == item.noise + (item.frame + rest);
  }

  lemma {:induction false} WireDelivers(items: seq<Item>, rest: Bytes, link: Link)
    requires forall i | 0 <= i < |items| :: Receivable(items[i], link)
    ensures Run(Wire(items) + rest, link) == Outcome(Deliveries(items), []).Then(Run(rest, link))
    decreases |items|
  {
    if |items| == 0 {
      assert Wire(items) + rest == rest;
    } else {
      var more := Wire(items[1..]) + rest;
      assert Wire(items) + rest == items[0].noise + items[0].frame + more;
      WireDelivers(items[1..], rest, link);
      ItemDelivers(items[0], more, link);
      ConcatEvents([Delivered(items[0].packet)], Deliveries(items[1..]), Run(rest, link).events);
    }
  }

  lemma NothingToRun(link: Link)
    ensures Run([], link) == Outcome([], [])
  {
  }

  /** Frames, each behind any quiet noise and cut into pushes anywhere, are delivered exactly, in
      order, with no error and nothing left over. */
  lemma FramesGetThrough(items: seq<Item>, chunks: seq<Bytes>, link: Link)
    requires forall i | 0 <= i < |items| :: Receivable(items[i], link)
    requires Flatten(chunks) == Wire(items)
    ensures PushAll([], chunks, link) == Outcome(Deliveries(items), [])
  {
    assert [] + Flatten(chunks) == Wire(items) + [];
    ChunkingInvariance([], chunks, link);
    WireDelivers(items, [], link);
    NothingToRun(link);
  }

  /** A packet the encoder accepts and the decoder takes back, small enough for the limit. */
  predicate Sendable(p: Packet, options: DecodeOptions) {
    && Encode(p).Ok? && WireOk(p)
    && |Encode(p).value| <= options.maxPacketSize && |Encode(p).value| < TWO_32
  }

  lemma SentFrame(p: Packet)
    requires Encode(p).Ok? && |Encode(p).value| < TWO_32
    ensures var frame := Encode(p).value;
      12 <= |frame| && WordAt(frame, 0) == MAGIC && WordAt(frame, 4) + 12 == |frame|
  {
    FrameOfPacket(p, Encode(p).value);
    var n := |Encode(p).value| - 12;
    SmallModulo(n);
    assert WordAt(Encode(p).value, 4) == n;
  }

  lemma SmallModulo(n: nat)
    ensures n < TWO_32 ==> n % TWO_32 == n
  {
  }

  lemma SentIsReceivable(p: Packet, noise: Bytes, options: DecodeOptions)
    requires Sendable(p, options) && Quiet(noise)
    ensures Receivable(Item(noise, Encode(p).value, p), LinkFor(options))
  {
    SentFrame(p);
    RoundTripExact(p, options);
  }

  /** End to end with the packet codec: encode any sendable packets, put any quiet noise before each
      frame, cut the bytes into pushes anywhere, and exactly those packets come out, in order. */
  lemma EndToEnd(packets: seq<Packet>, noises: seq<Bytes>, chunks: seq<Bytes>, options: DecodeOptions)
    requires |packets| == |noises|
    requires forall i | 0 <= i < |packets| :: Sendable(packets[i], options) && Quiet(noises[i])
    requires Flatten(chunks) == Wire(Sent(packets, noises))
    ensures PushAll([], chunks, LinkFor(options)) == Outcome(Deliveries(Sent(packets, noises)), [])
    ensures PacketsIn(Deliveries(Sent(packets, noises))) == packets
  {
    var items := Sent(packets, noises);
    forall i | 0 <= i < |items|
      ensures Receivable(items[i], LinkFor(options))
    {
      SentIsReceivable(packets[i], noises[i], options);
    }
    FramesGetThrough(items, chunks, LinkFor(options));
    DeliveredPackets(items, packets);
  }

  function Sent(packets: seq<Packet>, noises: seq<Bytes>): (items: seq<Item>)
    requires |packets| == |noises|
  {
    seq(|packets|, i requires 0 <= i < |packets| =>
      Item(noises[i], match Encode(packets[i]) case Ok(f) => f case Err(_) => [], packets[i]))
  }

  lemma {:induction false} DeliveredPackets(items: seq<Item>, packets: seq<Packet>)
    requires |items| == |packets|
    requires forall i | 0 <= i < |items| :: items[i].packet == packets[i]
    ensures PacketsIn(Deliveries(items)) == packets
    decreases |items|
  {
    if |items| > 0 {
      DeliveredPackets(items[1..], packets[1..]);
      assert Deliveries(items)[1..] == Deliveries(items[1..]);
      assert packets == [packets[0]] + packets[1..];
    }
  }

  // ----- nothing is invented

  function PacketsIn(events: seq<Event>): seq<Packet>
    decreases |events|
  {
    if |events| == 0 then []
    else (match events[0] case Delivered(p) => [p] case Failed(_) => []) + PacketsIn(events[1..])
  }

  /** The `n` bytes of `data` at `k` are a frame of `p`. */
  predicate FrameAt(data: Bytes, k: nat, n: nat, p: Packet, link: Link) {
    k + n <= |data| && link.decode(data[k..k + n]) == Ok(p)
  }

  /** `ps` are decoded from consecutive, disjoint stretches of `data`. */
  ghost predicate Carries(data: Bytes, ps: seq<Packet>, link: Link)
    decreases |ps|
  {
    |ps| == 0
    || exists k: nat, n: nat ::
         FrameAt(data, k, n, ps[0], link) && Carries(data[k + n..], ps[1..], link)
  }

  lemma FrameAtLater(data: Bytes, m: nat, k: nat, n: nat, p: Packet, link: Link)
    requires m <= |data| && FrameAt(data[m..], k, n, p, link)
    ensures FrameAt(data, m + k, n, p, link) && data[m..][k + n..] == data[m + k + n..]
  {
    assert data[m..][k..k + n] == data[m + k..m + k + n];
  }

  lemma CarriesLater(data: Bytes, m: nat, ps: seq<Packet>, link: Link)
    requires m <= |data| && Carries(data[m..], ps, link)
    ensures Carries(data, ps, link)
  {
    if |ps| > 0 {
      var k: nat, n: nat :| FrameAt(data[m..], k, n, ps[0], link)
        && Carries(data[m..][k + n..], ps[1..], link);
      FrameAtLater(data, m, k, n, ps[0], link);
    }
  }

  lemma CarriesCons(data: Bytes, n: nat, p: Packet, ps: seq<Packet>, link: Link)
    requires FrameAt(data, 0, n, p, link) && Carries(data[n..], ps, link)
    ensures Carries(data, [p] + ps, link)
  {
    var k: nat := 0;
    var all := [p] + ps;
    assert all[1..] == ps && data[k + n..] == data[n..];
    assert FrameAt(data, k, n, all[0], link) && Carries(data[k + n..], all[1..], link);
  }

  lemma StepCarries(buffer: Bytes, link: Link, later: seq<Event>)
    requires var s := NextStep(buffer, link);
      s.taken != 0 && Carries(buffer[s.taken..], PacketsIn(later), link)
    ensures Carries(buffer, PacketsIn(NextStep(buffer, link).events + later), link)
  {
    var s := NextStep(buffer, link);
    var all := s.events + later;
    if |s.events| == 0 {
      assert all == later;
      CarriesLater(buffer, s.taken, PacketsIn(later), link);
    } else {
      assert all[1..] == later;
      if s.events[0].Failed? {
        assert PacketsIn(all) == PacketsIn(later);
        CarriesLater(buffer, s.taken, PacketsIn(later), link);
      } else {
        var p := s.events[0].packet;
        assert buffer[0..0 + s.taken] == buffer[..s.taken];
        assert FrameAt(buffer, 0, s.taken, p, link);
        CarriesCons(buffer, s.taken, p, PacketsIn(later), link);
      }
    }
  }

  /** Every delivered packet was decoded from its own stretch of the received bytes, in order. */
  lemma {:induction false} NothingInvented(buffer: Bytes, link: Link)
    ensures Carries(buffer, PacketsIn(Run(buffer, link).events), link)
    decreases |buffer|
  {
    var s := NextStep(buffer, link);
    if s.taken != 0 {
      NothingInvented(buffer[s.taken..], link);
      StepCarries(buffer, link, Run(buffer[s.taken..], link).events);
    }
  }
}
