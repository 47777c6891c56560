/** A collection of archive indexes with a per-device index, src/storage/archive_collection.cpp. */
module Collection {
  import opened Words
  import opened Wrappers
  import opened OrderedMaps
  import opened Sorting

  datatype IndexEntry = IndexEntry(offset: uint64, time: uint64, payload: uint64, device: uint64, sequence: uint32)

  datatype Archive = Archive(path: string, ordinal: uint64, index: seq<IndexEntry>)

  datatype Ref = Ref(
    path: string, ordinal: uint64, offset: uint64, time: uint64, payload: uint64, device: uint64, sequence: uint32)

  /** A limit of zero is no limit. */
  datatype Query = Query(
    start: Option<uint64>, end: Option<uint64>, device: Option<uint64>, kind: Option<nat>,
    minPayload: Option<uint64>, maxPayload: Option<uint64>, limit: nat)

  datatype Stats = Stats(scanned: nat, matched: nat, byTime: nat, byDevice: nat, byKind: nat, byPayload: nat)

  const NO_STATS: Stats := Stats(0, 0, 0, 0, 0, 0)

  /** The records of the collection, those of each device, and the summary. */
  datatype Contents = Contents(
    records: seq<Ref>, byDevice: map<uint64, seq<Ref>>, count: nat, first: uint64, last: uint64)

  const NOTHING: Contents := Contents([], map[], 0, 0, 0)

  function MakeRef(archive: Archive, entry: IndexEntry): Ref {
    Ref(archive.path, archive.ordinal, entry.offset, entry.time, entry.payload, entry.device, entry.sequence)
  }

  function ByTime(ref: Ref): Key {
    Key(ref.time, ref.ordinal, ref.offset)
  }

  function OfDevice(byDevice: map<uint64, seq<Ref>>, device: uint64): seq<Ref> {
    if device in byDevice then byDevice[device] else []
  }

  function Added(c: Contents, ref: Ref): Contents {
    Contents(
      c.records + [ref],
      c.byDevice[ref.device := OfDevice(c.byDevice, ref.device) + [ref]],
      c.count + 1,
      if c.count == 0 then ref.time else Min(c.first, ref.time),
      if c.count == 0 then ref.time else Max(c.last, ref.time))
  }

  function AddedAll(c: Contents, archive: Archive, n: nat): Contents
    requires n <= |archive.index|
  {
    if n == 0 then c else Added(AddedAll(c, archive, n - 1), MakeRef(archive, archive.index[n - 1]))
  }

  function Gathered(archives: seq<Archive>): Contents
    decreases |archives|
  {
    if |archives| == 0 then NOTHING else
      var last := archives[|archives| - 1];
      AddedAll(Gathered(archives[..|archives| - 1]), last, |last.index|)
  }

  function Arranged(c: Contents): Contents {
    c.(records := Sort(c.records, ByTime),
       byDevice := map d | d in c.byDevice :: Sort(c.byDevice[d], ByTime))
  }

  function Built(archives: seq<Archive>): Contents {
    Arranged(Gathered(archives))
  }

  // ----- queries

  /** The first reason to skip the record, in the order in which the reasons are tested. */
  datatype Verdict = Matches | SkippedByTime | SkippedByDevice | SkippedByPayload

  function Judged(ref: Ref, query: Query): Verdict {
    if query.start.Some? && ref.time < query.start.value then SkippedByTime
    else if query.end.Some? && ref.time > query.end.value then SkippedByTime
    else if query.device.Some? && ref.device != query.device.value then SkippedByDevice
    else if query.minPayload.Some? && ref.payload < query.minPayload.value then SkippedByPayload
    else if query.maxPayload.Some? && ref.payload > query.maxPayload.value then SkippedByPayload
    else Matches
  }

  function Selects(query: Query): Ref -> bool {
    (ref: Ref) => Judged(ref, query) == Matches
  }

  /** What the records say their packets' kinds are; a record that cannot be loaded has none. */
  type Kinds = Ref -> Option<nat>

  function SelectsKind(query: Query, kinds: Kinds): Ref -> bool {
    (ref: Ref) => Judged(ref, query) == Matches && (query.kind.Some? ==> kinds(ref) == query.kind)
  }

  /** The first `limit` elements, or all for a limit of zero. */
  function Limited<T>(s: seq<T>, limit: nat): seq<T> {
    if limit == 0 || |s| <= limit then s else s[..limit]
  }

  /** The records to scan: those of the queried device, or all. */
  function Source(c: Contents, query: Query): seq<Ref> {
    if query.device.Some? then OfDevice(c.byDevice, query.device.value) else c.records
  }

  function CountedAs(stats: Stats, verdict: Verdict): Stats {
    var after := stats.(scanned := stats.scanned + 1);
    match verdict
    case Matches => after.(matched := after.matched + 1)
    case SkippedByTime => after.(byTime := after.byTime + 1)
    case SkippedByDevice => after.(byDevice := after.byDevice + 1)
    case SkippedByPayload => after.(byPayload := after.byPayload + 1)
  }

  /** The counters after one more record; one of the wrong kind no longer counts as matched. */
  function CountedRef(stats: Stats, ref: Ref, query: Query, kinds: Kinds): Stats {
    var after := CountedAs(stats, Judged(ref, query));
    if Judged(ref, query) == Matches && !SelectsKind(query, kinds)(ref) then
      after.(matched := after.matched - 1, byKind := after.byKind + 1)
    else after
  }

  function CountedRefs(scanned: seq<Ref>, query: Query, kinds: Kinds): Stats
    decreases |scanned|
  {
    if |scanned| == 0 then NO_STATS else
      var n := |scanned| - 1;
      CountedRef(CountedRefs(scanned[..n], query, kinds), scanned[n], query, kinds)
  }

  method RefMatchesQuery(ref: Ref, query: Query, stats: Stats) returns (matches: bool, after: Stats)
    ensures matches <==> Judged(ref, query) == Matches
    ensures after == CountedAs(stats, Judged(ref, query))
  {
    after := stats.(scanned := stats.scanned + 1);
    if query.start.Some? && ref.time < query.start.value {
      return false, after.(byTime := after.byTime + 1);
    }
    if query.end.Some? && ref.time > query.end.value {
      return false, after.(byTime := after.byTime + 1);
    }
    if query.device.Some? && ref.device != query.device.value {
      return false, after.(byDevice := after.byDevice + 1);
    }
    if query.minPayload.Some? && ref.payload < query.minPayload.value {
      return false, after.(byPayload := after.byPayload + 1);
    }
    if query.maxPayload.Some? && ref.payload > query.maxPayload.value {
      return false, after.(byPayload := after.byPayload + 1);
    }
    return true, after.(matched := after.matched + 1);
  }

  /** The tests of one turn of the search loop. */
  method VisitRef(ref: Ref, query: Query, kinds: Kinds, stats: Stats) returns (kept: bool, after: Stats)
    ensures kept <==> SelectsKind(query, kinds)(ref)
    ensures after == CountedRef(stats, ref, query, kinds)
  {
    kept, after := RefMatchesQuery(ref, query, stats);
    if kept && query.kind.Some? && kinds(ref) != query.kind {
      kept, after := false, after.(matched := after.matched - 1, byKind := after.byKind + 1);
    }
  }

  lemma CountedNext(source: seq<Ref>, i: nat, query: Query, kinds: Kinds)
    requires i < |source|
    ensures CountedRefs(source[..i + 1], query, kinds)
         == CountedRef(CountedRefs(source[..i], query, kinds), source[i], query, kinds)
  {
    assert source[..i + 1][..i] == source[..i];
  }

  // ----- the collection, built in place

  class ArchiveCollection {
    var records: seq<Ref>
    var byDevice: map<uint64, seq<Ref>>
    var count: nat
    var first: uint64
    var last: uint64

    ghost function Value(): Contents
      reads this
    {
      Contents(records, byDevice, count, first, last)
    }

    constructor ()
      ensures Value() == NOTHING
    {
      records, byDevice, count, first, last := [], map[], 0, 0, 0;
    }

    method AddRecordRef(ref: Ref)
      modifies this
      ensures Value() == Added(old(Value()), ref)
    {
      records := records + [ref];
      if ref.device !in byDevice {
        byDevice := byDevice[ref.device := []];
      }
      byDevice := byDevice[ref.device := byDevice[ref.device] + [ref]];
      if count == 0 {
        first, last := ref.time, ref.time;
      } else {
        first, last := Min(first, ref.time), Max(last, ref.time);
      }
      count := count + 1;
      assert byDevice == Added(old(Value()), ref).byDevice;
    }

    method SortCollection()
      modifies this
      ensures Value() == Arranged(old(Value()))
    {
      records := Sort(records, ByTime);
      var rest := byDevice.Keys;
      ghost var before := byDevice;
      while rest != {}
        invariant rest <= before.Keys && byDevice.Keys == before.Keys
        invariant forall d | d in before :: byDevice[d] == if d in rest then before[d] else Sort(before[d], ByTime)
        invariant records == Sort(old(records), ByTime)
        invariant count == old(count) && first == old(first) && last == old(last)
        decreases |rest|
      {
        var d := Least(rest);
        byDevice := byDevice[d := Sort(byDevice[d], ByTime)];
        rest := rest - {d};
      }
      assert byDevice == Arranged(old(Value())).byDevice;
    }

    method Build(archives: seq<Archive>)
      requires Value() == NOTHING
      modifies this
      ensures Value() == Built(archives)
    {
      for i := 0 to |archives|
        invariant Value() == Gathered(archives[..i])
      {
        assert archives[..i + 1][..i] == archives[..i];
        for j := 0 to |archives[i].index|
          invariant Value() == AddedAll(Gathered(archives[..i]), archives[i], j)
        {
          AddRecordRef(MakeRef(archives[i], archives[i].index[j]));
        }
      }
      assert archives[..|archives|] == archives;
      SortCollection();
    }

    /** Without an index entry for the queried device there is nothing to scan. */
    method SourceFor(query: Query) returns (source: seq<Ref>)
      ensures source == Source(Value(), query)
    {
      source := records;
      if query.device.Some? {
        if query.device.value !in byDevice {
          return [];
        }
        source := byDevice[query.device.value];
      }
    }

    method FilterCollectionRefs(query: Query) returns (refs: seq<Ref>)
      ensures refs == Limited(Filter(Source(Value(), query), Selects(query)), query.limit)
    {
      refs := [];
      var source := SourceFor(query);
      for i := 0 to |source|
        invariant refs == Filter(source[..i], Selects(query))
        invariant query.limit != 0 ==> |refs| < query.limit
      {
        FilterNext(source, i, Selects(query));
        if Judged(source[i], query) == Matches {
          refs := refs + [source[i]];
          if query.limit != 0 && |refs| >= query.limit {
            FilterStops(source, i + 1, Selects(query));
            return;
          }
        }
      }
      assert source[..|source|] == source;
    }

    /** The search counts what becomes of each record up to the one that reaches the limit; loading a
        record for its kind reads the archive. */
    method SearchArchiveCollection(query: Query, kinds: Kinds) returns (refs: seq<Ref>, stats: Stats)
      ensures refs == Limited(Filter(Source(Value(), query), SelectsKind(query, kinds)), query.limit)
      ensures stats.scanned <= |Source(Value(), query)|
      ensures stats == CountedRefs(Source(Value(), query)[..stats.scanned], query, kinds)
      ensures stats.scanned == |Source(Value(), query)| || (query.limit != 0 && |refs| == query.limit)
    {
      refs, stats := [], NO_STATS;
      var source := SourceFor(query);
      for i := 0 to |source|
        invariant refs == Filter(source[..i], SelectsKind(query, kinds))
        invariant query.limit != 0 ==> |refs| < query.limit
        invariant stats == CountedRefs(source[..i], query, kinds) && stats.scanned == i
      {
        CountedNext(source, i, query, kinds);
        FilterNext(source, i, SelectsKind(query, kinds));
        var kept;
        kept, stats := VisitRef(source[i], query, kinds, stats);
        if !kept {
          continue;
        }
        refs := refs + [source[i]];
        if query.limit != 0 && |refs| >= query.limit {
          FilterStops(source, i + 1, SelectsKind(query, kinds));
          return;
        }
      }
      assert source[..|source|] == source;
    }

    method RecordAtOrAfter(time: uint64) returns (found: Option<Ref>)
      requires Sorted(records, ByTime)
      ensures found.None? ==> forall i | 0 <= i < |records| :: records[i].time < time
      ensures found.Some? ==> exists k ::
        && 0 <= k < |records| && records[k] == found.value && time <= records[k].time
        && forall i | 0 <= i < k :: records[i].time < time
    {
      TimesAscend(records);
      var low, high := 0, |records|;
      while low < high
        invariant 0 <= low <= high <= |records|
        invariant forall i | 0 <= i < low :: records[i].time < time
        invariant forall i | high <= i < |records| :: time <= records[i].time
      {
        var mid := (low + high) / 2;
        if records[mid].time < time {
          low := mid + 1;
        } else {
          high := mid;
        }
      }
      found := if low == |records| then None else Some(records[low]);
    }
  }

  lemma TimesAscend(records: seq<Ref>)
    requires Sorted(records, ByTime)
    ensures forall i, j | 0 <= i < j < |records| :: records[i].time <= records[j].time
  {
    forall i, j | 0 <= i < j < |records|
      ensures records[i].time <= records[j].time
    {
      assert !Less(ByTime(records[j]), ByTime(records[i]));
    }
  }

  lemma FilterNext<T>(s: seq<T>, i: nat, p: T -> bool)
    requires i < |s|
    ensures Filter(s[..i + 1], p) == if p(s[i]) then Filter(s[..i], p) + [s[i]] else Filter(s[..i], p)
  {
    assert s[..i + 1] == s[..i] + [s[i]];
    FilterAppend(s[..i], [s[i]], p);
    assert [s[i]][1..] == [];
  }

  /** What has been found so far is how the whole result begins. */
  lemma FilterStops<T>(s: seq<T>, n: nat, p: T -> bool)
    requires n <= |s|
    ensures |Filter(s[..n], p)| > 0 ==> Limited(Filter(s, p), |Filter(s[..n], p)|) == Filter(s[..n], p)
  {
    assert s == s[..n] + s[n..];
    FilterAppend(s[..n], s[n..], p);
  }
}
