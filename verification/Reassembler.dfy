/** The fragment reassembler of src/protocol/reassembler.cpp. */
module Reassembler {
  import opened Words
  import opened Wrappers
  import opened Packets

  datatype Key = Key(device: uint64, streamId: uint32)

  /** What a stream under assembly amounts to: the packet it will become, without payload, and the
      fragment that arrived for each place. */
  datatype Assembly = Assembly(first: Packet, slots: seq<Option<Bytes>>)

  function Size(slot: Option<Bytes>): nat {
    if slot.Some? then |slot.value| else 0
  }

  function TotalSize(slots: seq<Option<Bytes>>): nat
    decreases |slots|
  {
    if |slots| == 0 then 0 else Size(slots[0]) + TotalSize(slots[1..])
  }

  predicate Complete(slots: seq<Option<Bytes>>) {
    forall i | 0 <= i < |slots| :: slots[i].Some?
  }

  function Joined(slots: seq<Option<Bytes>>): Bytes
    decreases |slots|
  {
    if |slots| == 0 then [] else (if slots[0].Some? then slots[0].value else []) + Joined(slots[1..])
  }

  function Empty(n: nat): (slots: seq<Option<Bytes>>)
    ensures |slots| == n
  {
    seq(n, _ => None)
  }

  function KeyOf(p: Packet): Key
    requires p.fragment.Some?
  {
    Key(p.device, p.fragment.value.streamId)
  }

  type Assemblies = map<Key, Assembly>

  datatype Pushed = Pushed(result: Result<Option<Packet>>, assemblies: Assemblies)

  /** What one push returns or throws, and what it leaves under assembly. */
  function PushResult(assemblies: Assemblies, limit: nat, p: Packet): Pushed {
    if p.fragment.None? then Pushed(Ok(Some(p)), assemblies) else
      var f := p.fragment.value;
      if f.count == 0 || f.sequence >= f.count then Pushed(Err(MalformedPacket), assemblies) else
        var key := KeyOf(p);
        var a := if key in assemblies then assemblies[key]
                 else Assembly(p.(payload := [], fragment := None), Empty(f.count));
        if |a.slots| != f.count then Pushed(Err(MalformedPacket), assemblies)
        else if a.slots[f.sequence].Some? then Pushed(Ok(None), assemblies)
        else Stored(assemblies, limit, key, a, f.sequence, p.payload)
  }

  /** The stream already holds a copy of the fragment. */
  predicate AlreadyHeld(assemblies: Assemblies, p: Packet) {
    && p.fragment.Some? && CoordinatesOk(p.fragment.value) && KeyOf(p) in assemblies
    && var slots := assemblies[KeyOf(p)].slots;
       |slots| == p.fragment.value.count && slots[p.fragment.value.sequence].Some?
  }

  /** Storing a new fragment drops the stream if it grows over the limit and ends it if it was the
      last one missing. */
  function Stored(assemblies: Assemblies, limit: nat, key: Key, a: Assembly, i: nat, payload: Bytes): Pushed
    requires i < |a.slots|
  {
    if TotalSize(a.slots) + |payload| > limit then Pushed(Err(MalformedPacket), assemblies - {key})
    else
      var slots := a.slots[i := Some(payload)];
      if Complete(slots) then Pushed(Ok(Some(a.first.(payload := Joined(slots)))), assemblies - {key})
      else Pushed(Ok(None), assemblies[key := a.(slots := slots)])
  }

  // ----- the reassembler as it runs, with its redundant counters

  datatype PendingStream = PendingStream(
    first: Packet, fragments: seq<Bytes>, present: seq<bool>, received: nat, totalPayload: nat)

  function Count(present: seq<bool>): nat
    decreases |present|
  {
    if |present| == 0 then 0 else (if present[0] then 1 else 0) + Count(present[1..])
  }

  function Slots(s: PendingStream): (slots: seq<Option<Bytes>>)
    requires |s.fragments| == |s.present|
    ensures |slots| == |s.fragments|
  {
    seq(|s.fragments|, i requires 0 <= i < |s.fragments| =>
      if s.present[i] then Some(s.fragments[i]) else None)
  }

  /** The counters agree with the flags and with the stored fragments. */
  predicate Growing(s: PendingStream) {
    && |s.fragments| == |s.present|
    && s.received == Count(s.present)
    && s.totalPayload == TotalSize(Slots(s))
  }

  /** A stream that is kept is incomplete and within the limit. */
  predicate Consistent(s: PendingStream, limit: nat) {
    Growing(s) && s.received < |s.present| && s.totalPayload <= limit
  }

  ghost predicate AllConsistent(pending: map<Key, PendingStream>, limit: nat) {
    forall k | k in pending :: Consistent(pending[k], limit)
  }

  ghost function Abstract(pending: map<Key, PendingStream>, limit: nat): Assemblies
    requires AllConsistent(pending, limit)
  {
    map k | k in pending :: Assembly(pending[k].first, Slots(pending[k]))
  }

  lemma AbstractDrop(pending: map<Key, PendingStream>, limit: nat, key: Key)
    requires AllConsistent(pending, limit)
    ensures AllConsistent(pending - {key}, limit)
    ensures Abstract(pending - {key}, limit) == Abstract(pending, limit) - {key}
  {
  }

  lemma AbstractPut(pending: map<Key, PendingStream>, limit: nat, key: Key, s: PendingStream)
    requires AllConsistent(pending, limit) && Consistent(s, limit)
    ensures AllConsistent(pending[key := s], limit)
    ensures Abstract(pending[key := s], limit) == Abstract(pending, limit)[key := Assembly(s.first, Slots(s))]
  {
  }

  class FragmentReassembler {
    const maxPayloadBytes: nat
    var pending: map<Key, PendingStream>
    var fragmentsSeen: nat
    var completedMessages: nat
    var duplicateFragments: nat
    var rejectedFragments: nat

    ghost predicate Valid()
      reads this
    {
      AllConsistent(pending, maxPayloadBytes)
    }

    ghost function Assemblies(): Assemblies
      requires Valid()
      reads this
    {
      Abstract(pending, maxPayloadBytes)
    }

    constructor (maxPayloadBytes: nat)
      ensures Valid() && Assemblies() == map[] && this.maxPayloadBytes == maxPayloadBytes
    {
      this.maxPayloadBytes := maxPayloadBytes;
      pending := map[];
      fragmentsSeen, completedMessages, duplicateFragments, rejectedFragments := 0, 0, 0, 0;
    }

    method Push(p: Packet) returns (r: Result<Option<Packet>>)
      requires Valid()
      modifies this
      ensures Valid()
      ensures Pushed(r, Assemblies()) == PushResult(old(Assemblies()), maxPayloadBytes, p)
      ensures p.fragment.None? ==> r == Ok(Some(p)) && pending == old(pending)
      ensures fragmentsSeen == old(fragmentsSeen) + 1
      ensures rejectedFragments == old(rejectedFragments) + if r.Err? then 1 else 0
      ensures completedMessages
           == old(completedMessages) + if p.fragment.Some? && r.Ok? && r.value.Some? then 1 else 0
      ensures duplicateFragments == old(duplicateFragments) + if AlreadyHeld(old(Assemblies()), p) then 1 else 0
    {
      fragmentsSeen := fragmentsSeen + 1;
      if p.fragment.None? {
        return Ok(Some(p));
      }
      var f := p.fragment.value;
      if f.count == 0 || f.sequence >= f.count {
        rejectedFragments := rejectedFragments + 1;
        return Err(MalformedPacket);
      }
      var key := KeyOf(p);
      var s;
      if key !in pending {
        s := PendingStream(p.(payload := [], fragment := None), seq(f.count, _ => []), seq(f.count, _ => false), 0, 0);
        NothingPresent(s);
        assert Slots(s) == Empty(f.count);
      } else {
        s := pending[key];
        if |s.fragments| != f.count {
          rejectedFragments := rejectedFragments + 1;
          return Err(MalformedPacket);
        }
      }
      if s.present[f.sequence] {
        duplicateFragments := duplicateFragments + 1;
        return Ok(None);
      }
      r := Store(key, s, f.sequence, p.payload);
    }

    method Store(key: Key, s: PendingStream, i: nat, payload: Bytes) returns (r: Result<Option<Packet>>)
      requires Valid() && Growing(s) && i < |s.present| && !s.present[i]
      modifies this`pending, this`rejectedFragments, this`completedMessages
      ensures Valid()
      ensures Pushed(r, Assemblies())
           == Stored(old(Assemblies()), maxPayloadBytes, key, Assembly(s.first, Slots(s)), i, payload)
      ensures rejectedFragments == old(rejectedFragments) + if r.Err? then 1 else 0
      ensures completedMessages == old(completedMessages) + if r.Ok? && r.value.Some? then 1 else 0
    {
      if s.totalPayload + |payload| > maxPayloadBytes {
        AbstractDrop(pending, maxPayloadBytes, key);
        pending := pending - {key};
        rejectedFragments := rejectedFragments + 1;
        return Err(MalformedPacket);
      }
      FillSlot(s, i, payload);
      var t := Filled(s, i, payload);
      if t.received != |t.fragments| {
        AbstractPut(pending, maxPayloadBytes, key, t);
        pending := pending[key := t];
        return Ok(None);
      }
      AllPresent(t);
      var joined := JoinFragments(t.fragments);
      AbstractDrop(pending, maxPayloadBytes, key);
      pending := pending - {key};
      completedMessages := completedMessages + 1;
      return Ok(Some(t.first.(payload := joined)));
    }

    method Clear(device: uint64, streamId: uint32)
      requires Valid()
      modifies this`pending
      ensures Valid() && Assemblies() == old(Assemblies()) - {Key(device, streamId)}
    {
      pending := pending - {Key(device, streamId)};
    }
  }

  function Filled(s: PendingStream, i: nat, payload: Bytes): PendingStream
    requires i < |s.fragments| == |s.present|
  {
    s.(totalPayload := s.totalPayload + |payload|, fragments := s.fragments[i := payload],
       present := s.present[i := true], received := s.received + 1)
  }

  function AllOf(fragments: seq<Bytes>): (slots: seq<Option<Bytes>>)
    ensures |slots| == |fragments|
  {
    seq(|fragments|, i requires 0 <= i < |fragments| => Some(fragments[i]))
  }

  method JoinFragments(fragments: seq<Bytes>) returns (payload: Bytes)
    ensures payload == Joined(AllOf(fragments))
  {
    ghost var slots := AllOf(fragments);
    payload := [];
    for i := 0 to |fragments|
      invariant payload + Joined(slots[i..]) == Joined(slots)
    {
      JoinedFrom(payload, slots, i);
      payload := payload + fragments[i];
    }
    assert slots[|fragments|..] == [];
  }

  lemma JoinedFrom(payload: Bytes, slots: seq<Option<Bytes>>, i: nat)
    requires i < |slots| && slots[i].Some?
    ensures payload + Joined(slots[i..]) == payload + slots[i].value + Joined(slots[i + 1..])
  {
    assert slots[i..][1..] == slots[i + 1..];
  }

  lemma {:induction false} CountFalse(present: seq<bool>)
    requires forall i | 0 <= i < |present| :: !present[i]
    ensures Count(present) == 0
    decreases |present|
  {
    if |present| > 0 {
      CountFalse(present[1..]);
    }
  }

  lemma {:induction false} SizeOfEmpty(n: nat)
    ensures TotalSize(Empty(n)) == 0
    decreases n
  {
    if n > 0 {
      assert Empty(n)[1..] == Empty(n - 1);
      SizeOfEmpty(n - 1);
    }
  }

  lemma NothingPresent(s: PendingStream)
    requires |s.fragments| == |s.present| && s.received == s.totalPayload == 0
    requires forall i | 0 <= i < |s.present| :: !s.present[i]
    ensures Growing(s)
    ensures Slots(s) == Empty(|s.fragments|)
  {
    CountFalse(s.present);
    assert Slots(s) == Empty(|s.fragments|);
    SizeOfEmpty(|s.fragments|);
  }

  lemma {:induction false} CountSet(present: seq<bool>, i: nat)
    requires i < |present| && !present[i]
    ensures Count(present[i := true]) == Count(present) + 1
    decreases |present|
  {
    if i == 0 {
      assert present[i := true][1..] == present[1..];
    } else {
      assert present[i := true][1..] == present[1..][i - 1 := true];
      CountSet(present[1..], i - 1);
    }
  }

  lemma {:induction false} CountAll(present: seq<bool>)
    ensures Count(present) <= |present|
    ensures Count(present) == |present| <==> forall i | 0 <= i < |present| :: present[i]
    decreases |present|
  {
    if |present| > 0 {
      CountAll(present[1..]);
      assert forall i | 1 <= i < |present| :: present[i] == present[1..][i - 1];
      if forall i | 0 <= i < |present| :: present[i] {
        assert forall i | 0 <= i < |present[1..]| :: present[1..][i];
      }
    }
  }

  lemma {:induction false} SizeSet(slots: seq<Option<Bytes>>, i: nat, payload: Bytes)
    requires i < |slots| && slots[i].None?
    ensures TotalSize(slots[i := Some(payload)]) == TotalSize(slots) + |payload|
    decreases |slots|
  {
    if i == 0 {
      assert slots[i := Some(payload)][1..] == slots[1..];
    } else {
      assert slots[i := Some(payload)][1..] == slots[1..][i - 1 := Some(payload)];
      SizeSet(slots[1..], i - 1, payload);
    }
  }

  lemma FillSlot(s: PendingStream, i: nat, payload: Bytes)
    requires Growing(s) && i < |s.present| && !s.present[i]
    ensures var t := Filled(s, i, payload);
      && Slots(t) == Slots(s)[i := Some(payload)]
      && Growing(t) && t.received <= |t.present|
      && (t.received == |t.fragments| <==> Complete(Slots(t)))
  {
    var t := Filled(s, i, payload);
    assert Slots(t) == Slots(s)[i := Some(payload)];
    CountSet(s.present, i);
    SizeSet(Slots(s), i, payload);
    CountAll(t.present);
    assert forall j | 0 <= j < |t.present| :: Slots(t)[j].Some? == t.present[j];
  }

  lemma AllPresent(s: PendingStream)
    requires |s.fragments| == |s.present| && Complete(Slots(s))
    ensures Slots(s) == AllOf(s.fragments)
  {
    assert forall i | 0 <= i < |s.fragments| :: Slots(s)[i].Some?;
  }

  // ----- reassembly does not depend on order, repeats or other streams

  /** The assemblies after the pushes of `ps`, in order. */
  function After(start: Assemblies, limit: nat, ps: seq<Packet>): Assemblies
    decreases |ps|
  {
    if |ps| == 0 then start
    else PushResult(After(start, limit, ps[..|ps| - 1]), limit, ps[|ps| - 1]).assemblies
  }

  predicate Belongs(p: Packet, key: Key) {
    p.fragment.Some? && p.device == key.device && p.fragment.value.streamId == key.streamId
  }

  /** A packet of the stream that claims to be one of `count` fragments, and can be. */
  predicate Joins(p: Packet, key: Key, count: nat) {
    Belongs(p, key) && p.fragment.value.count == count && p.fragment.value.sequence < count
  }

  /** The number of fragments that the first packet of the stream with possible coordinates claims. */
  function FirstCount(ps: seq<Packet>, key: Key): Option<nat>
    decreases |ps|
  {
    if |ps| == 0 then None
    else if Belongs(ps[0], key) && ps[0].fragment.value.sequence < ps[0].fragment.value.count then
      Some(ps[0].fragment.value.count as nat)
    else FirstCount(ps[1..], key)
  }

  /** The stream, if it has begun, is one of `count` fragments; its other packets may claim anything. */
  predicate Counts(ps: seq<Packet>, key: Key, count: nat) {
    FirstCount(ps, key).None? || FirstCount(ps, key) == Some(count)
  }

  /** The payload of the first packet to arrive that joins the stream at place `place`. */
  function FirstCopy(ps: seq<Packet>, key: Key, count: nat, place: nat): Option<Bytes>
    decreases |ps|
  {
    if |ps| == 0 then None
    else if Joins(ps[0], key, count) && ps[0].fragment.value.sequence == place then Some(ps[0].payload)
    else FirstCopy(ps[1..], key, count, place)
  }

  function FirstCopies(ps: seq<Packet>, key: Key, count: nat): (slots: seq<Option<Bytes>>)
    ensures |slots| == count
  {
    seq(count, i requires 0 <= i < count => FirstCopy(ps, key, count, i))
  }

  /** The packet a message becomes: the first to join its stream, whatever its place. */
  function FirstOf(ps: seq<Packet>, key: Key, count: nat): Option<Packet>
    decreases |ps|
  {
    if |ps| == 0 then None
    else if Joins(ps[0], key, count) then Some(ps[0].(payload := [], fragment := None))
    else FirstOf(ps[1..], key, count)
  }

  lemma {:induction false} LaterCopy(ps: seq<Packet>, p: Packet, key: Key, count: nat, place: nat)
    ensures FirstCopy(ps + [p], key, count, place)
         == if FirstCopy(ps, key, count, place).Some? then FirstCopy(ps, key, count, place)
            else if Joins(p, key, count) && p.fragment.value.sequence == place then Some(p.payload) else None
    ensures FirstOf(ps + [p], key, count)
         == if FirstOf(ps, key, count).Some? then FirstOf(ps, key, count)
            else if Joins(p, key, count) then Some(p.(payload := [], fragment := None)) else None
    ensures FirstOf(ps, key, count).None? ==> FirstCopy(ps, key, count, place).None?
    decreases |ps|
  {
    if |ps| == 0 {
      assert ps + [p] == [p];
    } else {
      assert (ps + [p])[1..] == ps[1..] + [p];
      LaterCopy(ps[1..], p, key, count, place);
    }
  }

  lemma {:induction false} LaterCount(ps: seq<Packet>, p: Packet, key: Key)
    ensures FirstCount(ps + [p], key)
         == if FirstCount(ps, key).Some? then FirstCount(ps, key) else FirstCount([p], key)
    decreases |ps|
  {
    if |ps| == 0 {
      assert ps + [p] == [p];
    } else {
      assert (ps + [p])[1..] == ps[1..] + [p];
      LaterCount(ps[1..], p, key);
    }
  }

  /** The first copies after one more packet. */
  lemma CopiesAfter(ps: seq<Packet>, p: Packet, key: Key, count: nat)
    ensures FirstCopies(ps + [p], key, count)
         == if Joins(p, key, count) && FirstCopy(ps, key, count, p.fragment.value.sequence).None?
            then FirstCopies(ps, key, count)[p.fragment.value.sequence := Some(p.payload)]
            else FirstCopies(ps, key, count)
    ensures FirstOf(ps, key, count).None? ==> FirstCopies(ps, key, count) == Empty(count)
    ensures TotalSize(FirstCopies(ps, key, count)) <= TotalSize(FirstCopies(ps + [p], key, count))
    ensures Complete(FirstCopies(ps, key, count)) ==> Complete(FirstCopies(ps + [p], key, count))
  {
    forall i | 0 <= i < count {
      LaterCopy(ps, p, key, count, i);
    }
    var before, after := FirstCopies(ps, key, count), FirstCopies(ps + [p], key, count);
    assert forall i | 0 <= i < count :: before[i] == FirstCopy(ps, key, count, i);
    SizeMonotone(before, after);
  }

  lemma {:induction false} SizeMonotone(slots: seq<Option<Bytes>>, more: seq<Option<Bytes>>)
    requires |slots| == |more| && forall i | 0 <= i < |slots| :: slots[i].Some? ==> more[i] == slots[i]
    ensures TotalSize(slots) <= TotalSize(more)
    decreases |slots|
  {
    if |slots| > 0 {
      SizeMonotone(slots[1..], more[1..]);
    }
  }

  /** What a run has made of the stream `key`, as long as its message is not complete: exactly the
      first copies are stored, and the stream is known if and only if a packet has joined it. */
  ghost predicate Gathered(assemblies: Assemblies, ps: seq<Packet>, key: Key, count: nat) {
    && (key in assemblies <==> FirstOf(ps, key, count).Some?)
    && (key in assemblies ==>
          assemblies[key] == Assembly(FirstOf(ps, key, count).value, FirstCopies(ps, key, count)))
  }

  /** The whole message, once every fragment of it has come: the first packet to join the stream, with
      the first copies in sequence order for payload. */
  function Message(ps: seq<Packet>, key: Key, count: nat): Option<Packet> {
    var slots := FirstCopies(ps, key, count);
    if Complete(slots) && FirstOf(ps, key, count).Some? then
      Some(FirstOf(ps, key, count).value.(payload := Joined(slots)))
    else None
  }

  /** What the push of a packet of the stream, the last of `ps`, returns or throws: a refusal if the
      packet cannot join it or the first copies have grown over the limit, and otherwise the message if
      that is complete. */
  function Answer(ps: seq<Packet>, p: Packet, key: Key, count: nat, limit: nat): Result<Option<Packet>> {
    if !Joins(p, key, count) || TotalSize(FirstCopies(ps, key, count)) > limit then Err(MalformedPacket)
    else Ok(Message(ps, key, count))
  }

  /** A packet without a fragment comes back as it was, whatever is under assembly, and changes nothing. */
  lemma WholePacketPasses(assemblies: Assemblies, limit: nat, p: Packet)
    requires p.fragment.None?
    ensures PushResult(assemblies, limit, p) == Pushed(Ok(Some(p)), assemblies)
  {
  }

  /** A fragment whose coordinates are impossible, or whose count is not that of its stream, is refused and
      changes nothing. */
  lemma MisfitRefused(assemblies: Assemblies, limit: nat, p: Packet)
    requires p.fragment.Some?
    requires p.fragment.value.sequence >= p.fragment.value.count
          || (Key(p.device, p.fragment.value.streamId) in assemblies
              && |assemblies[Key(p.device, p.fragment.value.streamId)].slots| != p.fragment.value.count)
    ensures PushResult(assemblies, limit, p) == Pushed(Err(MalformedPacket), assemblies)
  {
  }

  /** Whatever is pushed, no stream changes but the packet's own. */
  lemma OthersUntouched(assemblies: Assemblies, limit: nat, p: Packet, key: Key)
    requires !Belongs(p, key)
    ensures var after := PushResult(assemblies, limit, p).assemblies;
      (key in after <==> key in assemblies) && (key in after ==> after[key] == assemblies[key])
  {
  }

  lemma {:induction false} JoinedSplits(slots: seq<Option<Bytes>>, i: nat)
    requires i <= |slots|
    ensures Joined(slots) == Joined(slots[..i]) + Joined(slots[i..])
    ensures |Joined(slots)| == TotalSize(slots)
    decreases |slots|
  {
    if |slots| > 0 {
      JoinedSplits(slots[1..], if i == 0 then 0 else i - 1);
      if i == 0 {
        assert slots[..0] == [] && slots[0..] == slots;
      } else {
        assert slots[..i][1..] == slots[1..][..i - 1] && slots[1..][i - 1..] == slots[i..];
      }
    }
  }

  /** Each fragment stands in the message behind all fragments of lower places. */
  lemma JoinedAt(slots: seq<Option<Bytes>>, i: nat)
    requires i < |slots| && slots[i].Some?
    ensures var from, fragment := TotalSize(slots[..i]), slots[i].value;
      from + |fragment| <= |Joined(slots)| && Joined(slots)[from..from + |fragment|] == fragment
  {
    JoinedSplits(slots, i);
    JoinedSplits(slots[..i], 0);
    assert slots[i..][0] == slots[i];
  }

  /** One push: the stream gathers on, or the push supplies the last missing fragment, or it takes the
      stream over the limit, which drops it. */
  lemma PushGathers(assemblies: Assemblies, limit: nat, ps: seq<Packet>, p: Packet, key: Key, count: nat)
    requires Gathered(assemblies, ps, key, count) && Counts(ps + [p], key, count) && count > 0
    requires TotalSize(FirstCopies(ps, key, count)) <= limit && !Complete(FirstCopies(ps, key, count))
    ensures var r, copies := PushResult(assemblies, limit, p), FirstCopies(ps + [p], key, count);
      && (Belongs(p, key) ==> r.result == Answer(ps + [p], p, key, count, limit))
      && (Joins(p, key, count) ==> FirstOf(ps + [p], key, count).Some?)
      && (if TotalSize(copies) > limit || Complete(copies) then Joins(p, key, count) && key !in r.assemblies
          else Gathered(r.assemblies, ps + [p], key, count))
  {
    CopiesAfter(ps, p, key, count);
    LaterCopy(ps, p, key, count, 0);
    if Joins(p, key, count) {
      var i := p.fragment.value.sequence;
      var slots := FirstCopies(ps, key, count);
      assert slots[i] == FirstCopy(ps, key, count, i);
      if slots[i].None? {
        SizeSet(slots, i, p.payload);
      }
    } else if Belongs(p, key) {
      OnlyJoinersCount(ps, p, key, count);
      MisfitRefused(assemblies, limit, p);
    } else {
      OthersUntouched(assemblies, limit, p, key);
    }
  }

  /** A packet of the stream that does not join it has impossible coordinates, or comes after one that
      did. */
  lemma OnlyJoinersCount(ps: seq<Packet>, p: Packet, key: Key, count: nat)
    requires Counts(ps + [p], key, count) && Belongs(p, key) && !Joins(p, key, count)
    ensures p.fragment.value.sequence >= p.fragment.value.count
         || (FirstOf(ps, key, count).Some? && p.fragment.value.count != count)
  {
    LaterCount(ps, p, key);
    if p.fragment.value.sequence < p.fragment.value.count {
      assert FirstCount([p], key) == Some(p.fragment.value.count as nat);
      CountsMeansJoined(ps, key, count);
    }
  }

  lemma {:induction false} CountsMeansJoined(ps: seq<Packet>, key: Key, count: nat)
    requires FirstCount(ps, key) == Some(count)
    ensures FirstOf(ps, key, count).Some?
    decreases |ps|
  {
    if !(Belongs(ps[0], key) && ps[0].fragment.value.sequence < ps[0].fragment.value.count) {
      CountsMeansJoined(ps[1..], key, count);
    }
  }

  /** After any pushes, a stream that is not complete and within the limit holds exactly the first copies
      of the packets that join it. */
  lemma {:induction false} RunGathers(start: Assemblies, limit: nat, ps: seq<Packet>, key: Key, count: nat)
    requires key !in start && Counts(ps, key, count) && count > 0
    requires TotalSize(FirstCopies(ps, key, count)) <= limit
    requires !Complete(FirstCopies(ps, key, count))
    ensures Gathered(After(start, limit, ps), ps, key, count)
    decreases |ps|
  {
    if |ps| > 0 {
      var init, p := ps[..|ps| - 1], ps[|ps| - 1];
      assert ps == init + [p];
      CopiesAfter(init, p, key, count);
      LaterCount(init, p, key);
      RunGathers(start, limit, init, key, count);
      PushGathers(After(start, limit, init), limit, init, p, key, count);
    }
  }

  /** Reassembly.  Start without the stream; let any packets arrive, of this stream and of others, with
      repeats and with coordinates that agree or not, and let `count` be the one that the stream's first
      packet with possible coordinates claims.  While the message is incomplete and within the limit, the
      push of a packet of the stream is refused without effect if it cannot join; otherwise it returns
      the message exactly when it supplies the last missing fragment, is refused and drops the stream
      exactly when it takes the first copies over the limit, and returns nothing in all other cases. */
  lemma Reassembly(start: Assemblies, limit: nat, ps: seq<Packet>, p: Packet, key: Key, count: nat)
    requires key !in start && count > 0 && Counts(ps + [p], key, count) && Belongs(p, key)
    requires TotalSize(FirstCopies(ps, key, count)) <= limit && !Complete(FirstCopies(ps, key, count))
    ensures var r, copies := PushResult(After(start, limit, ps), limit, p), FirstCopies(ps + [p], key, count);
      && r.result == Answer(ps + [p], p, key, count, limit)
      && (Message(ps + [p], key, count).Some? <==> Complete(copies))
      && (key in r.assemblies
          <==> TotalSize(copies) <= limit && !Complete(copies) && FirstOf(ps + [p], key, count).Some?)
  {
    CopiesAfter(ps, p, key, count);
    LaterCount(ps, p, key);
    RunGathers(start, limit, ps, key, count);
    PushGathers(After(start, limit, ps), limit, ps, p, key, count);
  }

  lemma {:induction false} CopyAt(ps: seq<Packet>, key: Key, count: nat, place: nat, j: nat)
    requires j < |ps| && Joins(ps[j], key, count) && ps[j].fragment.value.sequence == place
    ensures FirstCopy(ps, key, count, place).Some?
    decreases |ps|
  {
    if j > 0 {
      CopyAt(ps[1..], key, count, place, j - 1);
    }
  }

  /** Order does not matter: two arrival orders of the same packets, with at most one payload for
      each place, complete the same payload. */
  lemma OrderInsensitive(ps: seq<Packet>, qs: seq<Packet>, key: Key, count: nat)
    requires forall p :: p in ps <==> p in qs
    requires forall p, q | p in ps && q in ps && Joins(p, key, count) && Joins(q, key, count) ::
               p.fragment.value.sequence == q.fragment.value.sequence ==> p.payload == q.payload
    ensures FirstCopies(ps, key, count) == FirstCopies(qs, key, count)
  {
    forall i | 0 <= i < count
      ensures FirstCopy(ps, key, count, i) == FirstCopy(qs, key, count, i)
    {
      CopyComesFrom(ps, key, count, i);
      CopyComesFrom(qs, key, count, i);
      if FirstCopy(ps, key, count, i).Some? {
        var j :| 0 <= j < |ps| && Supplies(ps[j], key, count, i, FirstCopy(ps, key, count, i).value);
        assert ps[j] in qs;
        var k :| 0 <= k < |qs| && qs[k] == ps[j];
        CopyAt(qs, key, count, i, k);
      } else if FirstCopy(qs, key, count, i).Some? {
        var j :| 0 <= j < |qs| && Supplies(qs[j], key, count, i, FirstCopy(qs, key, count, i).value);
        assert qs[j] in ps;
        var k :| 0 <= k < |ps| && ps[k] == qs[j];
        CopyAt(ps, key, count, i, k);
      }
    }
  }

  predicate Supplies(p: Packet, key: Key, count: nat, place: nat, payload: Bytes) {
    Joins(p, key, count) && p.fragment.value.sequence == place && p.payload == payload
  }

  lemma {:induction false} CopyComesFrom(ps: seq<Packet>, key: Key, count: nat, place: nat)
    ensures FirstCopy(ps, key, count, place).Some? ==>
      exists j :: 0 <= j < |ps| && Supplies(ps[j], key, count, place, FirstCopy(ps, key, count, place).value)
    decreases |ps|
  {
    if |ps| > 0 && FirstCopy(ps, key, count, place).Some? {
      if Supplies(ps[0], key, count, place, FirstCopy(ps, key, count, place).value) {
      } else {
        CopyComesFrom(ps[1..], key, count, place);
        var j :| 0 <= j < |ps[1..]| && Supplies(ps[1..][j], key, count, place, FirstCopy(ps, key, count, place).value);
        assert ps[j + 1] == ps[1..][j];
      }
    }
  }
}
