/** What the checksum is: the remainder, over GF(2), of the message polynomial on division by the
    Castagnoli polynomial.  A polynomial is the set of the exponents it has. */
module CrcDivision {
  import opened Words
  import opened Crc

  // ----- polynomials over GF(2)

  ghost function Sum(a: set<nat>, b: set<nat>): set<nat> {
    (a - b) + (b - a)
  }

  /** Times the `k`-th power of the variable. */
  ghost function Raised(a: set<nat>, k: nat): set<nat> {
    set e | e in a :: e + k
  }

  /** The exponents of `a` that make up `e` together with one of `b`. */
  ghost function Pairs(a: set<nat>, b: set<nat>, e: nat): set<nat> {
    set i: nat | i in a && i <= e && e - i in b
  }

  ghost function Sums(a: set<nat>, b: set<nat>): set<nat> {
    set i, j | i in a && j in b :: i + j
  }

  /** An odd number of pairs make up `e`. */
  ghost predicate Odd(a: set<nat>, b: set<nat>, e: nat) {
    |Pairs(a, b, e)| % 2 == 1
  }

  ghost function Product(a: set<nat>, b: set<nat>): set<nat> {
    set e | e in Sums(a, b) && Odd(a, b, e)
  }

  const GENERATOR: set<nat> := {32, 28, 27, 26, 25, 23, 22, 20, 19, 18, 14, 13, 11, 10, 9, 8, 6, 0}

  /** The two differ by a multiple of `g`. */
  ghost predicate Congruent(a: set<nat>, b: set<nat>, g: set<nat>) {
    exists q :: a == Sum(Product(q, g), b)
  }

  /** `r` is what division of `dividend` by the generator leaves. */
  ghost predicate IsRemainder(dividend: set<nat>, r: set<nat>) {
    (forall e | e in r :: e < 32) && Congruent(dividend, r, GENERATOR)
  }

  lemma PairIsSum(a: set<nat>, b: set<nat>, e: nat, i: nat)
    requires i in Pairs(a, b, e)
    ensures e in Sums(a, b)
  {
    var j: nat := e - i;
    assert i in a && j in b && i + j == e;
  }

  lemma ProductHas(a: set<nat>, b: set<nat>, e: nat)
    ensures e in Product(a, b) <==> Odd(a, b, e)
  {
    if Odd(a, b, e) {
      assert Pairs(a, b, e) != {};
      var i :| i in Pairs(a, b, e);
      PairIsSum(a, b, e, i);
    }
  }

  lemma TwiceMore(i: nat, j: nat, k: nat)
    ensures (i + j) % 2 == ((i + k) + (j + k)) % 2
  {
  }

  lemma SizeOfSum(a: set<nat>, b: set<nat>)
    ensures |Sum(a, b)| % 2 == (|a| + |b|) % 2
  {
    TwiceMore(|a - b|, |b - a|, |a * b|);
    assert a == (a - b) + a * b && b == (b - a) + a * b;
    assert |a| == |a - b| + |a * b|;
    assert |b| == |b - a| + |a * b|;
    assert |Sum(a, b)| == |a - b| + |b - a|;
  }

  lemma PairsOfSum(a: set<nat>, c: set<nat>, b: set<nat>, e: nat)
    ensures Pairs(Sum(a, c), b, e) == Sum(Pairs(a, b, e), Pairs(c, b, e))
  {
  }

  lemma OddOfSum(a: set<nat>, c: set<nat>, b: set<nat>, e: nat)
    ensures Odd(Sum(a, c), b, e) <==> Odd(a, b, e) != Odd(c, b, e)
  {
    PairsOfSum(a, c, b, e);
    SizeOfSum(Pairs(a, b, e), Pairs(c, b, e));
    OddSum(|Pairs(Sum(a, c), b, e)|, |Pairs(a, b, e)|, |Pairs(c, b, e)|);
  }

  lemma OddSum(n: nat, i: nat, j: nat)
    requires n % 2 == (i + j) % 2
    ensures n % 2 == 1 <==> (i % 2 == 1) != (j % 2 == 1)
  {
  }

  lemma ProductOfSumHas(a: set<nat>, c: set<nat>, b: set<nat>, e: nat)
    ensures e in Product(Sum(a, c), b) <==> (e in Product(a, b)) != (e in Product(c, b))
  {
    ProductHas(Sum(a, c), b, e);
    ProductHas(a, b, e);
    ProductHas(c, b, e);
    OddOfSum(a, c, b, e);
  }

  lemma SameElements(a: set<nat>, b: set<nat>)
    requires forall e: nat :: e in a <==> e in b
    ensures a == b
  {
  }

  lemma ProductOfSum(a: set<nat>, c: set<nat>, b: set<nat>)
    ensures Product(Sum(a, c), b) == Sum(Product(a, b), Product(c, b))
  {
    var left, right := Product(Sum(a, c), b), Sum(Product(a, b), Product(c, b));
    forall e: nat
      ensures e in left <==> e in right
    {
      ProductOfSumHas(a, c, b, e);
    }
    SameElements(left, right);
  }

  lemma PairsOfPower(k: nat, b: set<nat>, e: nat)
    ensures Pairs({k}, b, e) == if k <= e && e - k in b then {k} else {}
  {
  }

  lemma ProductOfPower(k: nat, b: set<nat>)
    ensures Product({k}, b) == Raised(b, k)
  {
    var left, right := Product({k}, b), Raised(b, k);
    forall e: nat
      ensures e in left <==> e in right
    {
      ProductHas({k}, b, e);
      InRaised(b, k, e);
      PairsOfPower(k, b, e);
    }
    SameElements(left, right);
  }

  lemma ProductOfNothing(b: set<nat>)
    ensures Product({}, b) == {}
  {
  }

  lemma SumAssociates(a: set<nat>, b: set<nat>, c: set<nat>)
    ensures Sum(Sum(a, b), c) == Sum(a, Sum(b, c)) && Sum(a, b) == Sum(b, a)
  {
  }

  lemma SumOfRaised(a: set<nat>, b: set<nat>, k: nat)
    ensures Raised(Sum(a, b), k) == Sum(Raised(a, k), Raised(b, k))
  {
    forall e: nat
      ensures e in Raised(Sum(a, b), k) <==> e in Sum(Raised(a, k), Raised(b, k))
    {
      InRaised(a, k, e);
      InRaised(b, k, e);
      InRaised(Sum(a, b), k, e);
    }
  }

  lemma InRaised(a: set<nat>, k: nat, e: nat)
    ensures e in Raised(a, k) <==> k <= e && e - k in a
  {
    if k <= e && e - k in a {
      var i: nat := e - k;
      assert i + k == e;
    }
  }

  lemma RaisedTwice(a: set<nat>, j: nat, k: nat)
    ensures Raised(Raised(a, j), k) == Raised(a, j + k)
  {
    forall e: nat
      ensures e in Raised(Raised(a, j), k) <==> e in Raised(a, j + k)
    {
      InRaised(Raised(a, j), k, e);
      InRaised(a, j + k, e);
      if k <= e {
        InRaised(a, j, e - k);
      }
    }
  }

  lemma Multiple(a: set<nat>, b: set<nat>, g: set<nat>, q: set<nat>)
    requires a == Sum(Product(q, g), b)
    ensures Congruent(a, b, g)
  {
  }

  lemma Congruence(a: set<nat>, g: set<nat>)
    ensures Congruent(a, a, g)
  {
    ProductOfNothing(g);
    assert Sum({}, a) == a;
    Multiple(a, a, g, {});
  }

  lemma CongruenceChains(a: set<nat>, b: set<nat>, c: set<nat>, g: set<nat>)
    requires Congruent(a, b, g) && Congruent(b, c, g)
    ensures Congruent(a, c, g)
  {
    var p :| a == Sum(Product(p, g), b);
    var q :| b == Sum(Product(q, g), c);
    ProductOfSum(p, q, g);
    SumAssociates(Product(p, g), Product(q, g), c);
    Multiple(a, c, g, Sum(p, q));
  }

  lemma CongruenceAdds(a: set<nat>, b: set<nat>, c: set<nat>, g: set<nat>)
    requires Congruent(a, b, g)
    ensures Congruent(Sum(c, a), Sum(c, b), g)
  {
    var q :| a == Sum(Product(q, g), b);
    SumAssociates(c, Product(q, g), b);
    SumAssociates(Product(q, g), c, b);
    Multiple(Sum(c, a), Sum(c, b), g, q);
  }

  // ----- a quotient and a remainder are unique

  ghost function Largest(s: set<nat>): (m: nat)
    requires s != {}
    ensures m in s && forall e | e in s :: e <= m
    decreases |s|
  {
    var i :| i in s;
    if s == {i} then i else
      assert (s - {i}) + {i} == s;
      var m := Largest(s - {i});
      if m < i then i else m
  }

  /** `g` has the exponent 32 and none above it. */
  ghost predicate OfDegree32(g: set<nat>) {
    32 in g && forall e | e in g :: e <= 32
  }

  lemma GeneratorDegree()
    ensures OfDegree32(GENERATOR)
  {
  }

  lemma TopPair(q: set<nat>, m: nat, g: set<nat>)
    requires m in q && (forall e | e in q :: e <= m) && OfDegree32(g)
    ensures Pairs(q, g, m + 32) == {m}
  {
    var pairs, only := Pairs(q, g, m + 32), {m};
    forall i: nat
      ensures i in pairs <==> i in only
    {
    }
    SameElements(pairs, only);
  }

  /** A multiple of `g` that is not zero has an exponent of 32 or more. */
  lemma ProductIsLarge(q: set<nat>, m: nat, g: set<nat>)
    requires m in q && (forall e | e in q :: e <= m) && OfDegree32(g)
    ensures m + 32 in Product(q, g)
  {
    TopPair(q, m, g);
    ProductHas(q, g, m + 32);
  }

  lemma DivisionIsUnique(p: set<nat>, r: set<nat>, q: set<nat>, s: set<nat>, g: set<nat>)
    requires OfDegree32(g) && Sum(Product(p, g), r) == Sum(Product(q, g), s)
    requires forall e | e in r || e in s :: e < 32
    ensures p == q && r == s
  {
    ProductOfSum(p, q, g);
    SumMoved(Product(p, g), r, Product(q, g), s);
    if Sum(p, q) != {} {
      ProductIsLarge(Sum(p, q), Largest(Sum(p, q)), g);
      assert false;
    }
    SumIsNothing(p, q);
  }

  lemma SumMoved(a: set<nat>, r: set<nat>, b: set<nat>, s: set<nat>)
    requires Sum(a, r) == Sum(b, s)
    ensures Sum(a, b) == Sum(r, s)
  {
    assert forall e: nat :: e in Sum(a, r) <==> e in Sum(b, s);
    SameElements(Sum(a, b), Sum(r, s));
  }

  lemma SumIsNothing(a: set<nat>, b: set<nat>)
    requires Sum(a, b) == {}
    ensures a == b
  {
    assert a - b == {} && b - a == {};
  }

  /** There is only one remainder. */
  lemma RemainderIsUnique(dividend: set<nat>, r: set<nat>, s: set<nat>)
    requires IsRemainder(dividend, r) && IsRemainder(dividend, s)
    ensures r == s
  {
    var p :| dividend == Sum(Product(p, GENERATOR), r);
    var q :| dividend == Sum(Product(q, GENERATOR), s);
    GeneratorDegree();
    DivisionIsUnique(p, r, q, s, GENERATOR);
  }

  // ----- registers and messages as polynomials

  /** Bit `i` of the register stands for the exponent `31 - i`. */
  predicate Holds(w: Word, e: nat)
    requires e < 32
  {
    w[31 - e]
  }

  ghost function Polynomial(w: Word): set<nat> {
    set e: nat | e < 32 && Holds(w, e)
  }

  /** The same for the bits that are not set. */
  ghost function Complement(w: Word): set<nat> {
    set e: nat | e < 32 && !Holds(w, e)
  }

  predicate HasBit(v: nat, i: nat) {
    v / Pow2(i) % 2 == 1
  }

  /** The bits of the message in the order they are sent: the bytes in order, each with its lowest bit
      first.  The last bit is the constant term. */
  ghost function Message(data: Bytes): set<nat> {
    set e: nat | e < 8 * |data| && Sends(data, e)
  }

  predicate Sends(data: Bytes, e: nat)
    requires e < 8 * |data|
  {
    var place := 8 * |data| - 1 - e;
    HasBit(data[place / 8], place % 8)
  }

  lemma MessageHead(data: Bytes)
    requires |data| > 0
    ensures Message(data) == Sum(Raised(Message(data[..1]), 8 * (|data| - 1)), Message(data[1..]))
  {
    var n := |data| - 1;
    var left, right := Message(data), Sum(Raised(Message(data[..1]), 8 * n), Message(data[1..]));
    forall e: nat
      ensures e in left <==> e in right
    {
      InRaised(Message(data[..1]), 8 * n, e);
      if e < 8 * n {
        LaterPlace(8 * n - 1 - e);
        assert e in left <==> Sends(data[1..], e);
      } else if e < 8 * |data| {
        assert e in left <==> Sends(data[..1], e - 8 * n);
      }
    }
    SameElements(left, right);
  }

  lemma LaterPlace(place: nat)
    ensures (place + 8) / 8 == place / 8 + 1 && (place + 8) % 8 == place % 8
  {
  }

  // ----- the constant of the code is the generator

  lemma PowersUpTo15()
    ensures Pow2(0) == 1 && Pow2(1) == 2 && Pow2(2) == 4 && Pow2(3) == 8
    ensures Pow2(4) == 0x10 && Pow2(5) == 0x20 && Pow2(6) == 0x40 && Pow2(7) == 0x80
    ensures Pow2(8) == 0x100 && Pow2(9) == 0x200 && Pow2(10) == 0x400 && Pow2(11) == 0x800
    ensures Pow2(12) == 0x1000 && Pow2(13) == 0x2000 && Pow2(14) == 0x4000 && Pow2(15) == 0x8000
  {
  }

  lemma PowersUpTo31()
    ensures Pow2(16) == 0x1_0000 && Pow2(17) == 0x2_0000 && Pow2(18) == 0x4_0000 && Pow2(19) == 0x8_0000
    ensures Pow2(20) == 0x10_0000 && Pow2(21) == 0x20_0000 && Pow2(22) == 0x40_0000 && Pow2(23) == 0x80_0000
    ensures Pow2(24) == 0x100_0000 && Pow2(25) == 0x200_0000 && Pow2(26) == 0x400_0000 && Pow2(27) == 0x800_0000
    ensures Pow2(28) == 0x1000_0000 && Pow2(29) == 0x2000_0000 && Pow2(30) == 0x4000_0000
    ensures Pow2(31) == 0x8000_0000
  {
    PowersUpTo15();
  }

  lemma ConstantFrom0(i: nat)
    requires 0 <= i < 8
    ensures HasBit(0x82f63b78, i) <==> i == 3 || i == 4 || i == 5 || i == 6
  {
    PowersUpTo15();
    assert !HasBit(0x82f63b78, 0) && !HasBit(0x82f63b78, 1) && !HasBit(0x82f63b78, 2) && HasBit(0x82f63b78, 3);
    assert HasBit(0x82f63b78, 4) && HasBit(0x82f63b78, 5) && HasBit(0x82f63b78, 6) && !HasBit(0x82f63b78, 7);
  }

  lemma ConstantFrom8(i: nat)
    requires 8 <= i < 16
    ensures HasBit(0x82f63b78, i) <==> i == 8 || i == 9 || i == 11 || i == 12 || i == 13
  {
    PowersUpTo15();
    assert HasBit(0x82f63b78, 8) && HasBit(0x82f63b78, 9) && !HasBit(0x82f63b78, 10) && HasBit(0x82f63b78, 11);
    assert HasBit(0x82f63b78, 12) && HasBit(0x82f63b78, 13) && !HasBit(0x82f63b78, 14) && !HasBit(0x82f63b78, 15);
  }

  lemma ConstantFrom16(i: nat)
    requires 16 <= i < 24
    ensures HasBit(0x82f63b78, i) <==> i == 17 || i == 18 || i == 20 || i == 21 || i == 22 || i == 23
  {
    PowersUpTo31();
    assert !HasBit(0x82f63b78, 16) && HasBit(0x82f63b78, 17) && HasBit(0x82f63b78, 18) && !HasBit(0x82f63b78, 19);
    assert HasBit(0x82f63b78, 20) && HasBit(0x82f63b78, 21) && HasBit(0x82f63b78, 22) && HasBit(0x82f63b78, 23);
  }

  lemma ConstantFrom24(i: nat)
    requires 24 <= i < 32
    ensures HasBit(0x82f63b78, i) <==> i == 25 || i == 31
  {
    PowersUpTo31();
    assert !HasBit(0x82f63b78, 24) && HasBit(0x82f63b78, 25) && !HasBit(0x82f63b78, 26) && !HasBit(0x82f63b78, 27);
    assert !HasBit(0x82f63b78, 28) && !HasBit(0x82f63b78, 29) && !HasBit(0x82f63b78, 30) && HasBit(0x82f63b78, 31);
  }

  /** The numeral in the code has the exponents below 32 of the generator, highest in the lowest bit. */
  lemma ConstantIsGenerator(e: nat)
    requires e < 32
    ensures Holds(POLYNOMIAL, e) <==> e in GENERATOR
  {
    var i: nat := 31 - e;
    assert Holds(POLYNOMIAL, e) <==> HasBit(0x82f63b78, i);
    if i < 8 {
      ConstantFrom0(i);
    } else if i < 16 {
      ConstantFrom8(i);
    } else if i < 24 {
      ConstantFrom16(i);
    } else {
      ConstantFrom24(i);
    }
  }

  // ----- every step of the register is a step of the division

  lemma ShiftedRaises(w: Word)
    ensures Sum(Raised(Polynomial(w), 1), if w[0] then {32} else {}) == Polynomial(ShiftRight(w))
  {
    var left, right := Sum(Raised(Polynomial(w), 1), if w[0] then {32} else {}), Polynomial(ShiftRight(w));
    forall e: nat
      ensures e in left <==> e in right
    {
      InRaised(Polynomial(w), 1, e);
      if 0 < e <= 32 {
        assert e - 1 in Polynomial(w) <==> Holds(w, e - 1);
      }
      if e < 32 {
        assert e in right <==> Holds(ShiftRight(w), e);
      }
    }
    SameElements(left, right);
  }

  lemma XorIsSum(a: Word, b: Word)
    ensures Polynomial(Xor(a, b)) == Sum(Polynomial(a), Polynomial(b))
  {
    var left, right := Polynomial(Xor(a, b)), Sum(Polynomial(a), Polynomial(b));
    forall e: nat
      ensures e in left <==> e in right
    {
      if e < 32 {
        assert Holds(Xor(a, b), e) <==> Holds(a, e) != Holds(b, e);
      }
    }
    SameElements(left, right);
  }

  /** The polynomial of the register is `g` without its highest exponent. */
  ghost predicate Divides(polynomial: Word, g: set<nat>) {
    Sum({32}, Polynomial(polynomial)) == g
  }

  lemma GeneratorDivides()
    ensures Divides(POLYNOMIAL, GENERATOR)
  {
    var left := Sum({32}, Polynomial(POLYNOMIAL));
    forall e: nat
      ensures e in left <==> e in GENERATOR
    {
      if e < 32 {
        ConstantIsGenerator(e);
        assert e in Polynomial(POLYNOMIAL) <==> Holds(POLYNOMIAL, e);
      } else if e in GENERATOR {
        GeneratorDegree();
      }
    }
    SameElements(left, GENERATOR);
  }

  lemma TopSubtracted(r: set<nat>, s: set<nat>, top: set<nat>, low: set<nat>, g: set<nat>)
    requires Sum(r, top) == s && Sum(top, low) == g
    ensures r == Sum(g, Sum(s, low))
  {
    assert forall e: nat :: e in Sum(r, top) <==> e in s;
    assert forall e: nat :: e in Sum(top, low) <==> e in g;
    SameElements(r, Sum(g, Sum(s, low)));
  }

  /** One turn raises the register by one and subtracts the generator if an exponent of 32 has come up. */
  lemma TurnDivides(w: Word, polynomial: Word, g: set<nat>)
    requires Divides(polynomial, g)
    ensures Raised(Polynomial(w), 1)
         == Sum(if w[0] then g else {}, Polynomial(Turn(w, polynomial)))
  {
    ShiftedRaises(w);
    if w[0] {
      XorIsSum(ShiftRight(w), polynomial);
      TopSubtracted(Raised(Polynomial(w), 1), Polynomial(ShiftRight(w)), {32}, Polynomial(polynomial), g);
    } else {
      SumWithNothing(Raised(Polynomial(w), 1));
      SumWithNothing(Polynomial(ShiftRight(w)));
    }
  }

  lemma SumWithNothing(a: set<nat>)
    ensures Sum(a, {}) == a && Sum({}, a) == a
  {
  }

  lemma OneMoreTurn(v: Word, k: nat, polynomial: Word, g: set<nat>)
    requires Divides(polynomial, g)
    ensures Congruent(Raised(Polynomial(v), k + 1), Raised(Polynomial(Turn(v, polynomial)), k), g)
  {
    var top: set<nat> := if v[0] then {k} else {};
    TurnDivides(v, polynomial, g);
    RaisedTwice(Polynomial(v), 1, k);
    SumOfRaised(if v[0] then g else {}, Polynomial(Turn(v, polynomial)), k);
    ProductOfPower(k, g);
    ProductOfNothing(g);
    assert Raised({}, k) == {};
    Multiple(Raised(Polynomial(v), k + 1), Raised(Polynomial(Turn(v, polynomial)), k), g, top);
  }

  lemma {:induction false} TurnsDivide(w: Word, n: nat, k: nat, polynomial: Word, g: set<nat>)
    requires Divides(polynomial, g)
    ensures Congruent(Raised(Polynomial(w), n + k), Raised(Polynomial(Turns(w, n, polynomial)), k), g)
    decreases n
  {
    if n == 0 {
      Congruence(Raised(Polynomial(w), k), g);
    } else {
      var v := Turns(w, n - 1, polynomial);
      TurnsDivide(w, n - 1, k + 1, polynomial, g);
      OneMoreTurn(v, k, polynomial, g);
      CongruenceChains(Raised(Polynomial(w), n + k), Raised(Polynomial(v), k + 1),
        Raised(Polynomial(Turn(v, polynomial)), k), g);
    }
  }

  /** A byte enters the register in its upper places. */
  lemma WidenIsByte(b: uint8)
    ensures Polynomial(Widen(b)) == Raised(Message([b]), 24)
  {
    var left, right := Polynomial(Widen(b)), Raised(Message([b]), 24);
    forall e: nat
      ensures e in left <==> e in right
    {
      InRaised(Message([b]), 24, e);
      if 24 <= e < 32 {
        assert Holds(Widen(b), e) <==> HasBit(b, 31 - e);
        assert Sends([b], e - 24) <==> HasBit(b, 31 - e);
      } else if e < 24 {
        assert !Holds(Widen(b), e);
      }
    }
    SameElements(left, right);
  }

  /** A byte on top of the register, and what remains of both. */
  lemma ByteDivides(w: Word, b: uint8, k: nat, polynomial: Word, g: set<nat>)
    requires Divides(polynomial, g)
    ensures Congruent(Sum(Raised(Message([b]), 32 + k), Raised(Polynomial(w), 8 + k)),
              Raised(Polynomial(ByteStep(w, b, polynomial)), k), g)
  {
    var n := 8;
    TurnsDivide(Xor(w, Widen(b)), n, k, polynomial, g);
    XorIsSum(w, Widen(b));
    WidenIsByte(b);
    SumOfRaised(Polynomial(w), Raised(Message([b]), 24), n + k);
    RaisedTwice(Message([b]), 24, n + k);
    SumAssociates(Raised(Polynomial(w), 8 + k), Raised(Message([b]), 32 + k), {});
  }

  /** What division leaves of the message and of the register it starts from. */
  ghost function Dividend(start: set<nat>, data: Bytes): set<nat> {
    Sum(Raised(Message(data), 32), Raised(start, 8 * |data|))
  }

  lemma RaisedHead(data: Bytes)
    requires |data| > 0
    ensures Raised(Message(data), 32)
         == Sum(Raised(Message([data[0]]), 32 + 8 * (|data| - 1)), Raised(Message(data[1..]), 32))
  {
    var k := 8 * (|data| - 1);
    MessageHead(data);
    assert data[..1] == [data[0]];
    SumOfRaised(Raised(Message([data[0]]), k), Message(data[1..]), 32);
    RaisedTwice(Message([data[0]]), k, 32);
  }

  lemma DividendHead(start: set<nat>, next: set<nat>, data: Bytes)
    requires |data| > 0
    ensures var k := 8 * (|data| - 1);
      var first, later := Raised(Message([data[0]]), 32 + k), Raised(Message(data[1..]), 32);
      Dividend(start, data) == Sum(Sum(first, later), Raised(start, 8 + k))
      && Dividend(next, data[1..]) == Sum(later, Raised(next, k))
  {
    RaisedHead(data);
  }

  /** The first byte divided leaves the same as what it makes of the register and the other bytes. */
  lemma HeadDivides(start: set<nat>, next: set<nat>, data: Bytes, g: set<nat>)
    requires |data| > 0
    requires var k := 8 * (|data| - 1);
      Congruent(Sum(Raised(Message([data[0]]), 32 + k), Raised(start, 8 + k)), Raised(next, k), g)
    ensures Congruent(Dividend(start, data), Dividend(next, data[1..]), g)
  {
    var k := 8 * (|data| - 1);
    DividendHead(start, next, data);
    LaterAdded(Raised(Message([data[0]]), 32 + k), Raised(Message(data[1..]), 32), Raised(start, 8 + k),
      Raised(next, k), g);
  }

  lemma LaterAdded(first: set<nat>, later: set<nat>, start: set<nat>, next: set<nat>, g: set<nat>)
    requires Congruent(Sum(first, start), next, g)
    ensures Congruent(Sum(Sum(first, later), start), Sum(later, next), g)
  {
    CongruenceAdds(Sum(first, start), next, later, g);
    SumAssociates(later, first, start);
    SumAssociates(first, later, start);
  }

  lemma NoDataDivides(start: set<nat>)
    ensures Dividend(start, []) == start
  {
    assert Message([]) == {} && Raised({}, 32) == {};
    assert Raised(start, 0) == start;
  }

  lemma {:induction false} RegisterDivides(start: Word, data: Bytes, polynomial: Word, g: set<nat>)
    requires Divides(polynomial, g)
    ensures Congruent(Dividend(Polynomial(start), data), Polynomial(Register(start, data, polynomial)), g)
    decreases |data|
  {
    if |data| == 0 {
      NoDataDivides(Polynomial(start));
      Congruence(Polynomial(start), g);
    } else {
      var next := ByteStep(start, data[0], polynomial);
      ByteDivides(start, data[0], 8 * (|data| - 1), polynomial, g);
      HeadDivides(Polynomial(start), Polynomial(next), data, g);
      RegisterDivides(next, data[1..], polynomial, g);
      CongruenceChains(Dividend(Polynomial(start), data), Dividend(Polynomial(next), data[1..]),
        Polynomial(Register(next, data[1..], polynomial)), g);
    }
  }

  // ----- what the checksum is

  /** The register after any data is the remainder of the message, shifted up by 32, and of the register
      it started from, shifted up by the length of the message. */
  lemma RegisterIsRemainder(start: Word, data: Bytes)
    ensures IsRemainder(Dividend(Polynomial(start), data), Polynomial(Register(start, data, POLYNOMIAL)))
  {
    GeneratorDivides();
    RegisterDivides(start, data, POLYNOMIAL, GENERATOR);
  }

  lemma ComplementOf(w: Word)
    ensures Complement(w) == Polynomial(Not(w)) && Polynomial(w) == Complement(Not(w))
  {
    forall e: nat | e < 32
      ensures Holds(Not(w), e) <==> !Holds(w, e)
    {
    }
  }

  lemma ComplementDetermines(a: Word, b: Word)
    requires Complement(a) == Complement(b)
    ensures a == b
  {
    forall i | 0 <= i < 32
      ensures a[i] == b[i]
    {
      var e: nat := 31 - i;
      assert e in Complement(a) <==> !Holds(a, e);
      assert e in Complement(b) <==> !Holds(b, e);
    }
  }

  /** For every data and seed: a word is the checksum if and only if its complement is the remainder of
      the message and the complement of the seed. */
  lemma ChecksumIsRemainder(data: Bytes, seed: Word, w: Word)
    ensures w == Crc32c(data, seed) <==> IsRemainder(Dividend(Complement(seed), data), Complement(w))
  {
    var c := Crc32c(data, seed);
    RegisterIsRemainder(Not(seed), data);
    ComplementOf(seed);
    ComplementOf(Register(Not(seed), data, POLYNOMIAL));
    assert IsRemainder(Dividend(Complement(seed), data), Complement(c));
    if IsRemainder(Dividend(Complement(seed), data), Complement(w)) {
      RemainderIsUnique(Dividend(Complement(seed), data), Complement(w), Complement(c));
      ComplementDetermines(w, c);
    }
  }

  /** The highest bit of a number stands for the constant term. */
  predicate Shows(c: uint32, e: nat)
    requires e < 32
  {
    HasBit(c, 31 - e)
  }

  /** The bits of a number that are not set, as exponents. */
  ghost function Unset(c: uint32): set<nat> {
    set e: nat | e < 32 && !Shows(c, e)
  }

  lemma UnsetIsComplement(c: uint32)
    ensures Unset(c) == Complement(Bits(c, 32))
  {
    forall e: nat | e < 32
      ensures Holds(Bits(c, 32), e) <==> Shows(c, e)
    {
    }
  }

  lemma SeedComplement(data: Bytes)
    ensures Dividend(Complement(DEFAULT_SEED), data) == Raised(Message(data), 32)
  {
    AllOnes();
    forall e: nat | e < 32
      ensures Holds(DEFAULT_SEED, e)
    {
    }
    assert Complement(DEFAULT_SEED) == {};
    assert Raised({}, 8 * |data|) == {};
    SumWithNothing(Raised(Message(data), 32));
  }

  /** For every data: the number on the wire is the checksum if and only if the bits it has not set are the
      remainder of the message alone. */
  lemma WireChecksumIsRemainder(data: Bytes, c: uint32)
    ensures c == Checksum(data) <==> IsRemainder(Raised(Message(data), 32), Unset(c))
  {
    Pow2Of32();
    NumberOfBits(c, 32);
    BitsOfNumber(Crc32c(data, DEFAULT_SEED));
    SeedComplement(data);
    UnsetIsComplement(c);
    ChecksumIsRemainder(data, DEFAULT_SEED, Bits(c, 32));
  }
}
