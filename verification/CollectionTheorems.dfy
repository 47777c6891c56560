/** The per-device index of a collection agrees with its full list of records. */
module CollectionTheorems {
  import opened Words
  import opened Sorting
  import opened Collection

  function RefsOf(archive: Archive, n: nat): seq<Ref>
    requires n <= |archive.index|
  {
    seq(n, i requires 0 <= i < n => MakeRef(archive, archive.index[i]))
  }

  function AllRefs(archives: seq<Archive>): seq<Ref>
    decreases |archives|
  {
    if |archives| == 0 then [] else
      var last := archives[|archives| - 1];
      AllRefs(archives[..|archives| - 1]) + RefsOf(last, |last.index|)
  }

  function IsFrom(device: uint64): Ref -> bool {
    (ref: Ref) => ref.device == device
  }

  /** The index holds, for each device, its records in the order of the full list. */
  ghost predicate Indexed(c: Contents) {
    && (forall d: uint64 :: OfDevice(c.byDevice, d) == Filter(c.records, IsFrom(d)))
    && (forall d | d in c.byDevice :: |c.byDevice[d]| > 0)
  }

  /** The summary is that of the records. */
  ghost predicate Summarised(c: Contents) {
    && c.count == |c.records|
    && (forall i | 0 <= i < |c.records| :: c.first <= c.records[i].time <= c.last)
    && (c.count > 0 ==> (exists i :: 0 <= i < |c.records| && c.records[i].time == c.first)
                        && exists i :: 0 <= i < |c.records| && c.records[i].time == c.last)
  }

  lemma AddedIndexed(c: Contents, ref: Ref)
    requires Indexed(c)
    ensures Indexed(Added(c, ref))
  {
    forall d: uint64
      ensures OfDevice(Added(c, ref).byDevice, d) == Filter(Added(c, ref).records, IsFrom(d))
    {
      FilterAppend(c.records, [ref], IsFrom(d));
      assert [ref][1..] == [];
      assert OfDevice(c.byDevice, d) == Filter(c.records, IsFrom(d));
    }
  }

  lemma AddedSummarised(c: Contents, ref: Ref)
    requires Summarised(c)
    ensures Summarised(Added(c, ref))
  {
    var all := c.records + [ref];
    assert all[|c.records|] == ref && forall i | 0 <= i < |c.records| :: all[i] == c.records[i];
    if c.count > 0 {
      var i :| 0 <= i < |c.records| && c.records[i].time == c.first;
      var j :| 0 <= j < |c.records| && c.records[j].time == c.last;
      assert all[i].time == c.first && all[j].time == c.last;
    }
  }

  lemma RefsOfMore(records: seq<Ref>, archive: Archive, n: nat)
    requires 0 < n <= |archive.index|
    ensures records + RefsOf(archive, n - 1) + [MakeRef(archive, archive.index[n - 1])] == records + RefsOf(archive, n)
  {
  }

  lemma AddedAllStep(c: Contents, archive: Archive, n: nat)
    requires 0 < n <= |archive.index|
    ensures AddedAll(c, archive, n) == Added(AddedAll(c, archive, n - 1), MakeRef(archive, archive.index[n - 1]))
  {
  }

  /** What adding one record keeps, adding all of an archive keeps. */
  lemma {:induction false} AddedAllKeeps(c: Contents, archive: Archive, n: nat, kept: Contents -> bool)
    requires n <= |archive.index| && kept(c)
    requires forall before, ref | kept(before) :: kept(Added(before, ref))
    ensures kept(AddedAll(c, archive, n))
    decreases n
  {
    if n > 0 {
      AddedAllKeeps(c, archive, n - 1, kept);
      AddedAllStep(c, archive, n);
    }
  }

  lemma AddedAllIndexed(c: Contents, archive: Archive, n: nat)
    requires n <= |archive.index| && Indexed(c) && Summarised(c)
    ensures Indexed(AddedAll(c, archive, n)) && Summarised(AddedAll(c, archive, n))
  {
    forall before, ref | Indexed(before)
      ensures Indexed(Added(before, ref))
    {
      AddedIndexed(before, ref);
    }
    forall before, ref | Summarised(before)
      ensures Summarised(Added(before, ref))
    {
      AddedSummarised(before, ref);
    }
    AddedAllKeeps(c, archive, n, Indexed);
    AddedAllKeeps(c, archive, n, Summarised);
  }

  lemma {:induction false} AddedAllRecords(c: Contents, archive: Archive, n: nat)
    requires n <= |archive.index|
    ensures AddedAll(c, archive, n).records == c.records + RefsOf(archive, n)
    decreases n
  {
    if n == 0 {
      assert RefsOf(archive, 0) == [];
    } else {
      AddedAllRecords(c, archive, n - 1);
      RefsOfMore(c.records, archive, n);
    }
  }

  lemma {:induction false} GatheredIndexed(archives: seq<Archive>)
    ensures Indexed(Gathered(archives)) && Summarised(Gathered(archives))
    ensures Gathered(archives).records == AllRefs(archives)
    decreases |archives|
  {
    if |archives| > 0 {
      var last := archives[|archives| - 1];
      GatheredIndexed(archives[..|archives| - 1]);
      AddedAllIndexed(Gathered(archives[..|archives| - 1]), last, |last.index|);
      AddedAllRecords(Gathered(archives[..|archives| - 1]), last, |last.index|);
    }
  }

  lemma SortedSummarised(c: Contents, out: seq<Ref>)
    requires Summarised(c) && IsSort(out, c.records, ByTime)
    ensures Summarised(c.(records := out))
  {
    assert |out| == |c.records| by {
      assert |multiset(out)| == |multiset(c.records)|;
    }
    assert forall r :: (r in out <==> r in multiset(out)) && (r in c.records <==> r in multiset(c.records));
    assert forall i | 0 <= i < |out| :: out[i] in c.records;
    assert forall i | 0 <= i < |c.records| :: c.records[i] in out;
  }

  /** Every collection is the stable sort of all records by time, archive and offset; each device's
      index entry is the sorted list restricted to that device; the summary spans the records. */
  lemma BuiltIsIndexed(archives: seq<Archive>)
    ensures IsStableSort(Built(archives).records, AllRefs(archives), ByTime)
    ensures Indexed(Built(archives)) && Summarised(Built(archives))
  {
    var c := Gathered(archives);
    GatheredIndexed(archives);
    SortIsStable(c.records, ByTime);
    SortPermutes(c.records, ByTime);
    SortedSummarised(c, Sort(c.records, ByTime));
    forall d: uint64
      ensures OfDevice(Built(archives).byDevice, d) == Filter(Built(archives).records, IsFrom(d))
    {
      SortCommutesWithFilter(c.records, ByTime, IsFrom(d));
      assert OfDevice(c.byDevice, d) == Filter(c.records, IsFrom(d));
    }
    forall d | d in Built(archives).byDevice
      ensures |Built(archives).byDevice[d]| > 0
    {
      SortPermutes(c.byDevice[d], ByTime);
      assert |multiset(Sort(c.byDevice[d], ByTime))| == |multiset(c.byDevice[d])|;
    }
  }

  // ----- queries through the index

  /** A filter that implies another needs only look at what passes the other. */
  lemma {:induction false} FilterWithin<T>(s: seq<T>, p: T -> bool, q: T -> bool)
    requires forall i | 0 <= i < |s| :: q(s[i]) ==> p(s[i])
    ensures Filter(Filter(s, p), q) == Filter(s, q)
    decreases |s|
  {
    if |s| > 0 {
      FilterWithin(s[1..], p, q);
      FilterAppend(if p(s[0]) then [s[0]] else [], Filter(s[1..], p), q);
      assert [s[0]][1..] == [];
    }
  }

  lemma SourceSuffices(c: Contents, query: Query, p: Ref -> bool)
    requires Indexed(c) && forall ref :: p(ref) ==> Judged(ref, query) == Matches
    ensures Filter(Source(c, query), p) == Filter(c.records, p)
  {
    if query.device.Some? {
      var d := query.device.value;
      assert OfDevice(c.byDevice, d) == Filter(c.records, IsFrom(d));
      forall i | 0 <= i < |c.records|
        ensures p(c.records[i]) ==> IsFrom(d)(c.records[i])
      {
        assert p(c.records[i]) ==> Judged(c.records[i], query) == Matches;
      }
      FilterWithin(c.records, IsFrom(d), p);
    }
  }

  /** A query through the index finds what a scan of every record finds, in the same order and cut
      off at the same place; so does a search that also looks at kinds. */
  lemma IndexFindsWhatAScanFinds(archives: seq<Archive>, query: Query, kinds: Kinds)
    ensures var c := Built(archives);
      && Limited(Filter(Source(c, query), Selects(query)), query.limit)
         == Limited(Filter(c.records, Selects(query)), query.limit)
      && Limited(Filter(Source(c, query), SelectsKind(query, kinds)), query.limit)
         == Limited(Filter(c.records, SelectsKind(query, kinds)), query.limit)
  {
    BuiltIsIndexed(archives);
    SourceSuffices(Built(archives), query, Selects(query));
    SourceSuffices(Built(archives), query, SelectsKind(query, kinds));
  }

  lemma LimitedSorted(s: seq<Ref>, limit: nat)
    requires Sorted(s, ByTime)
    ensures Sorted(Limited(s, limit), ByTime)
  {
  }

  function ByTimeOnly(ref: Ref): Key {
    Key(ref.time, 0, 0)
  }

  /** The search's final stable sort by time never moves anything. */
  lemma ResultsAlreadySorted(archives: seq<Archive>, query: Query, kinds: Kinds)
    ensures var refs := Limited(Filter(Source(Built(archives), query), SelectsKind(query, kinds)), query.limit);
      Sort(refs, ByTimeOnly) == refs
  {
    var c := Built(archives);
    var p := SelectsKind(query, kinds);
    BuiltIsIndexed(archives);
    IndexFindsWhatAScanFinds(archives, query, kinds);
    FilterSorted(c.records, ByTime, p);
    LimitedSorted(Filter(c.records, p), query.limit);
    var refs := Limited(Filter(c.records, p), query.limit);
    TimesAscend(refs);
    SortIsStable(refs, ByTimeOnly);
    assert IsStableSort(refs, refs, ByTimeOnly);
    StableSortUnique(Sort(refs, ByTimeOnly), refs, refs, ByTimeOnly);
  }

  function Falls(query: Query, verdict: Verdict): Ref -> bool {
    (ref: Ref) => Judged(ref, query) == verdict
  }

  function WrongKind(query: Query, kinds: Kinds): Ref -> bool {
    (ref: Ref) => Judged(ref, query) == Matches && !SelectsKind(query, kinds)(ref)
  }

  /** The search's counters count the records of each verdict, and add up to those scanned. */
  lemma {:induction false} CountersAddUp(scanned: seq<Ref>, query: Query, kinds: Kinds)
    ensures var stats := CountedRefs(scanned, query, kinds);
      && stats.scanned == |scanned|
      && stats.matched == |Filter(scanned, SelectsKind(query, kinds))|
      && stats.byTime == |Filter(scanned, Falls(query, SkippedByTime))|
      && stats.byDevice == |Filter(scanned, Falls(query, SkippedByDevice))|
      && stats.byPayload == |Filter(scanned, Falls(query, SkippedByPayload))|
      && stats.byKind == |Filter(scanned, WrongKind(query, kinds))|
      && stats.scanned == stats.matched + stats.byTime + stats.byDevice + stats.byKind + stats.byPayload
    decreases |scanned|
  {
    if |scanned| > 0 {
      var n := |scanned| - 1;
      CountersAddUp(scanned[..n], query, kinds);
      OneMoreCounted(scanned, SelectsKind(query, kinds));
      OneMoreCounted(scanned, Falls(query, SkippedByTime));
      OneMoreCounted(scanned, Falls(query, SkippedByDevice));
      OneMoreCounted(scanned, Falls(query, SkippedByPayload));
      OneMoreCounted(scanned, WrongKind(query, kinds));
    }
  }

  lemma OneMoreCounted(scanned: seq<Ref>, p: Ref -> bool)
    requires |scanned| > 0
    ensures var n := |scanned| - 1;
      |Filter(scanned, p)| == |Filter(scanned[..n], p)| + (if p(scanned[n]) then 1 else 0)
  {
    assert scanned[..|scanned|] == scanned;
    FilterNext(scanned, |scanned| - 1, p);
  }
}
