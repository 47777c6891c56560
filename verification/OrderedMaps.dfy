/** `std::map` keyed by 64-bit numbers: a Dafny map whose keys are visited by taking the least one
    left each time, with sums over its values. */
module OrderedMaps {
  import opened Words

  lemma {:induction false} LeastExists(s: set<uint64>, e: uint64)
    requires e in s
    ensures exists x :: x in s && forall y | y in s :: x <= y
    decreases e
  {
    if y :| y in s && y < e {
      LeastExists(s, y);
    }
  }

  function Least(s: set<uint64>): (x: uint64)
    requires s != {}
    ensures x in s && forall y | y in s :: x <= y
  {
    var e: uint64 :| e in s;
    LeastExists(s, e);
    var x :| x in s && forall y | y in s :: x <= y;
    x
  }

  function Total(m: map<uint64, nat>): nat
    decreases |m|
  {
    if m == map[] then 0 else
      var k := Least(m.Keys);
      m[k] + Total(m - {k})
  }

  /** A sum may be taken apart at any key. */
  lemma {:induction false} TotalSplit(m: map<uint64, nat>, k: uint64)
    requires k in m
    ensures Total(m) == m[k] + Total(m - {k})
    decreases |m|
  {
    var least := Least(m.Keys);
    if k != least {
      TotalSplit(m - {least}, k);
      TotalSplit(m - {k}, least);
      assert m - {least} - {k} == m - {k} - {least};
    }
  }

  lemma TotalUpdate(m: map<uint64, nat>, k: uint64, v: nat)
    ensures Total(m[k := v]) == v + Total(m - {k})
    ensures k !in m ==> Total(m[k := v]) == v + Total(m)
    ensures k in m ==> Total(m[k := v]) + m[k] == Total(m) + v
  {
    TotalSplit(m[k := v], k);
    assert m[k := v] - {k} == m - {k};
    if k in m {
      TotalSplit(m, k);
    } else {
      assert m - {k} == m;
    }
  }

  /** Sets that agree everywhere but at one element, which the second lacks. */
  lemma DifferAt(a: set<uint64>, b: set<uint64>, k: uint64)
    requires k !in b && forall i | i != k :: i in a <==> i in b
    ensures |a| == |b| + (if k in a then 1 else 0)
  {
    if k in a {
      assert a == b + {k};
    } else {
      assert a == b;
    }
  }
}
