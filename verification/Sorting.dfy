/** Stable sorting by a key, as `std::stable_sort` and repeated selection of the first least element
    do it: what it means, that it determines the result, and that it commutes with filtering. */
module Sorting {

  /** Keys compare lexicographically. */
  datatype Key = Key(first: int, second: int, third: int)

  predicate Less(a: Key, b: Key) {
    a.first < b.first
    || (a.first == b.first && (a.second < b.second || (a.second == b.second && a.third < b.third)))
  }

  function Filter<T>(s: seq<T>, p: T -> bool): seq<T>
    decreases |s|
  {
    if |s| == 0 then [] else (if p(s[0]) then [s[0]] else []) + Filter(s[1..], p)
  }

  function HasKey<T>(key: T -> Key, k: Key): T -> bool {
    x => key(x) == k
  }

  predicate Sorted<T>(s: seq<T>, key: T -> Key) {
    forall i, j | 0 <= i < j < |s| :: !Less(key(s[j]), key(s[i]))
  }

  /** `out` is sorted, and holds the elements of each key in the order in which `s` does. */
  ghost predicate IsStableSort<T>(out: seq<T>, s: seq<T>, key: T -> Key) {
    Sorted(out, key) && forall k :: Filter(out, HasKey(key, k)) == Filter(s, HasKey(key, k))
  }

  lemma ConcatThree<T>(a: seq<T>, b: seq<T>, c: seq<T>)
    ensures a + (b + c) == a + b + c
  {
  }

  lemma {:induction false} FilterAppend<T>(a: seq<T>, b: seq<T>, p: T -> bool)
    ensures Filter(a + b, p) == Filter(a, p) + Filter(b, p)
    decreases |a|
  {
    if |a| == 0 {
      assert a + b == b;
    } else {
      assert (a + b)[1..] == a[1..] + b && (a + b)[0] == a[0];
      FilterAppend(a[1..], b, p);
      var head := if p(a[0]) then [a[0]] else [];
      ConcatThree(head, Filter(a[1..], p), Filter(b, p));
    }
  }

  lemma {:induction false} FilterMember<T>(s: seq<T>, p: T -> bool, x: T)
    ensures x in Filter(s, p) <==> x in s && p(x)
    decreases |s|
  {
    if |s| > 0 {
      FilterMember(s[1..], p, x);
      assert x in s <==> x == s[0] || x in s[1..];
    }
  }

  lemma FilterAround<T>(a: seq<T>, x: T, b: seq<T>, p: T -> bool)
    ensures Filter(a + [x] + b, p) == Filter(a, p) + (if p(x) then [x] else []) + Filter(b, p)
  {
    FilterAppend(a + [x], b, p);
    FilterAppend(a, [x], p);
    assert [x][1..] == [];
  }

  lemma HeadKey<T>(a: seq<T>, b: seq<T>, s: seq<T>, key: T -> Key)
    requires |a| > 0 && IsStableSort(a, s, key) && IsStableSort(b, s, key)
    ensures |b| > 0 && !Less(key(a[0]), key(b[0]))
  {
    var k := key(a[0]);
    FilterMember(a, HasKey(key, k), a[0]);
    FilterMember(b, HasKey(key, k), a[0]);
    assert Filter(a, HasKey(key, k)) == Filter(b, HasKey(key, k));
    var i :| 0 <= i < |b| && b[i] == a[0];
    assert i == 0 || !Less(key(b[i]), key(b[0]));
  }

  lemma FilterTail<T>(s: seq<T>, p: T -> bool)
    requires |s| > 0
    ensures Filter(s[1..], p) == if p(s[0]) then Filter(s, p)[1..] else Filter(s, p)
  {
  }

  lemma TailSorted<T>(a: seq<T>, s: seq<T>, key: T -> Key)
    requires |a| > 0 && IsStableSort(a, s, key)
    ensures IsStableSort(a[1..], a[1..], key)
  {
    assert forall i | 0 <= i < |a[1..]| :: a[1..][i] == a[i + 1];
  }

  /** There is only one stable sort of a sequence. */
  lemma {:induction false} StableSortUnique<T>(a: seq<T>, b: seq<T>, s: seq<T>, key: T -> Key)
    requires IsStableSort(a, s, key) && IsStableSort(b, s, key)
    ensures a == b
    decreases |a|
  {
    if |a| > 0 {
      HeadKey(a, b, s, key);
      HeadKey(b, a, s, key);
      var k := key(a[0]);
      assert key(b[0]) == k;
      assert Filter(a, HasKey(key, k))[0] == a[0] && Filter(b, HasKey(key, k))[0] == b[0];
      assert Filter(a, HasKey(key, k)) == Filter(b, HasKey(key, k));
      TailSorted(a, s, key);
      TailSorted(b, s, key);
      forall c
        ensures Filter(a[1..], HasKey(key, c)) == Filter(b[1..], HasKey(key, c))
      {
        FilterTail(a, HasKey(key, c));
        FilterTail(b, HasKey(key, c));
        assert Filter(a, HasKey(key, c)) == Filter(b, HasKey(key, c));
      }
      StableSortUnique(a[1..], b[1..], a[1..], key);
      assert a == [a[0]] + a[1..] && b == [b[0]] + b[1..];
    } else if |b| > 0 {
      HeadKey(b, a, s, key);
    }
  }

  // ----- a stable sort exists

  /** `x` goes in front of the first element that does not come strictly before it. */
  function Insert<T>(x: T, s: seq<T>, key: T -> Key): seq<T>
    decreases |s|
  {
    if |s| == 0 || !Less(key(s[0]), key(x)) then [x] + s else [s[0]] + Insert(x, s[1..], key)
  }

  function Sort<T>(s: seq<T>, key: T -> Key): seq<T>
    decreases |s|
  {
    if |s| == 0 then [] else Insert(s[0], Sort(s[1..], key), key)
  }

  lemma {:induction false} InsertMember<T>(x: T, s: seq<T>, key: T -> Key, y: T)
    ensures y in Insert(x, s, key) <==> y == x || y in s
    decreases |s|
  {
    if |s| == 0 || !Less(key(s[0]), key(x)) {
    } else {
      InsertMember(x, s[1..], key, y);
      assert y in s <==> y == s[0] || y in s[1..];
    }
  }

  lemma HeadFirst<T>(s: seq<T>, key: T -> Key)
    requires Sorted(s, key) && |s| > 0
    ensures forall y | y in s :: !Less(key(y), key(s[0]))
  {
    forall y | y in s
      ensures !Less(key(y), key(s[0]))
    {
      var i :| 0 <= i < |s| && s[i] == y;
      assert i == 0 || !Less(key(s[i]), key(s[0]));
    }
  }

  lemma ConsSorted<T>(x: T, s: seq<T>, key: T -> Key)
    requires Sorted(s, key) && forall y | y in s :: !Less(key(y), key(x))
    ensures Sorted([x] + s, key)
  {
  }

  lemma {:induction false} InsertSorted<T>(x: T, s: seq<T>, key: T -> Key)
    requires Sorted(s, key)
    ensures Sorted(Insert(x, s, key), key)
    decreases |s|
  {
    if |s| == 0 || !Less(key(s[0]), key(x)) {
      if |s| > 0 {
        HeadFirst(s, key);
      }
      ConsSorted(x, s, key);
    } else {
      assert forall i | 0 <= i < |s[1..]| :: s[1..][i] == s[i + 1];
      InsertSorted(x, s[1..], key);
      HeadFirst(s, key);
      forall y | y in Insert(x, s[1..], key)
        ensures !Less(key(y), key(s[0]))
      {
        InsertMember(x, s[1..], key, y);
        assert y in s[1..] ==> y in s;
      }
      ConsSorted(s[0], Insert(x, s[1..], key), key);
    }
  }

  lemma {:induction false} InsertFilter<T>(x: T, s: seq<T>, key: T -> Key, k: Key)
    ensures Filter(Insert(x, s, key), HasKey(key, k)) == Filter([x] + s, HasKey(key, k))
    decreases |s|
  {
    if |s| == 0 || !Less(key(s[0]), key(x)) {
    } else {
      InsertFilter(x, s[1..], key, k);
      assert Insert(x, s, key)[1..] == Insert(x, s[1..], key);
      assert ([x] + s)[1..] == s && ([x] + s[1..])[1..] == s[1..];
    }
  }

  lemma {:induction false} SortIsStable<T>(s: seq<T>, key: T -> Key)
    ensures IsStableSort(Sort(s, key), s, key)
    decreases |s|
  {
    if |s| > 0 {
      var rest := Sort(s[1..], key);
      SortIsStable(s[1..], key);
      InsertSorted(s[0], rest, key);
      forall k
        ensures Filter(Sort(s, key), HasKey(key, k)) == Filter(s, HasKey(key, k))
      {
        InsertFilter(s[0], rest, key, k);
        assert ([s[0]] + rest)[1..] == rest;
        assert Filter(rest, HasKey(key, k)) == Filter(s[1..], HasKey(key, k));
      }
    }
  }

  // ----- sorting without stability

  /** What `std::sort` promises: the same elements, sorted, equal keys in any order. */
  ghost predicate IsSort<T>(out: seq<T>, s: seq<T>, key: T -> Key) {
    Sorted(out, key) && multiset(out) == multiset(s)
  }

  lemma {:induction false} InsertPermutes<T>(x: T, s: seq<T>, key: T -> Key)
    ensures multiset(Insert(x, s, key)) == multiset([x] + s)
    decreases |s|
  {
    if |s| == 0 || !Less(key(s[0]), key(x)) {
    } else {
      InsertPermutes(x, s[1..], key);
      assert s == [s[0]] + s[1..];
    }
  }

  lemma {:induction false} SortPermutes<T>(s: seq<T>, key: T -> Key)
    ensures IsSort(Sort(s, key), s, key)
    decreases |s|
  {
    SortIsStable(s, key);
    if |s| > 0 {
      SortPermutes(s[1..], key);
      InsertPermutes(s[0], Sort(s[1..], key), key);
      assert s == [s[0]] + s[1..];
    }
  }

  // ----- sorting commutes with filtering

  lemma {:induction false} FilterSorted<T>(s: seq<T>, key: T -> Key, p: T -> bool)
    requires Sorted(s, key)
    ensures Sorted(Filter(s, p), key)
    decreases |s|
  {
    if |s| > 0 {
      assert forall i | 0 <= i < |s[1..]| :: s[1..][i] == s[i + 1];
      FilterSorted(s[1..], key, p);
      if p(s[0]) {
        forall y | y in Filter(s[1..], p)
          ensures !Less(key(y), key(s[0]))
        {
          FilterMember(s[1..], p, y);
          HeadFirst(s, key);
          assert y in s;
        }
        ConsSorted(s[0], Filter(s[1..], p), key);
      }
    }
  }

  lemma {:induction false} FiltersCommute<T>(s: seq<T>, p: T -> bool, q: T -> bool)
    ensures Filter(Filter(s, p), q) == Filter(Filter(s, q), p)
    decreases |s|
  {
    if |s| > 0 {
      FiltersCommute(s[1..], p, q);
      FilterAppend(if p(s[0]) then [s[0]] else [], Filter(s[1..], p), q);
      FilterAppend(if q(s[0]) then [s[0]] else [], Filter(s[1..], q), p);
    }
  }

  /** Filtering a sorted sequence and sorting a filtered one give the same sequence. */
  lemma SortCommutesWithFilter<T>(s: seq<T>, key: T -> Key, p: T -> bool)
    ensures Filter(Sort(s, key), p) == Sort(Filter(s, p), key)
  {
    SortIsStable(s, key);
    SortIsStable(Filter(s, p), key);
    FilterSorted(Sort(s, key), key, p);
    forall k
      ensures Filter(Filter(Sort(s, key), p), HasKey(key, k)) == Filter(Filter(s, p), HasKey(key, k))
    {
      FiltersCommute(Sort(s, key), p, HasKey(key, k));
      FiltersCommute(s, p, HasKey(key, k));
      assert Filter(Sort(s, key), HasKey(key, k)) == Filter(s, HasKey(key, k));
    }
    StableSortUnique(Filter(Sort(s, key), p), Sort(Filter(s, p), key), Filter(s, p), key);
  }
}
