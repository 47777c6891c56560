/** Fixed-width unsigned integers as ranges of `int`, with wrap-around written out where the
    C++ code adds or multiplies them. */
module Words {

  const TWO_8: nat := 0x100
  const TWO_16: nat := 0x1_0000
  const TWO_32: nat := 0x1_0000_0000
  const TWO_64: nat := 0x1_0000_0000_0000_0000
  const MAX_64: nat := 0xFFFF_FFFF_FFFF_FFFF

  type uint8 = x: int | 0 <= x < 0x100
  type uint16 = x: int | 0 <= x < 0x1_0000
  type uint32 = x: int | 0 <= x < 0x1_0000_0000
  type uint64 = x: int | 0 <= x < 0x1_0000_0000_0000_0000

  type Bytes = seq<uint8>

  function Wrap32(x: nat): uint32 {
    x % TWO_32
  }

  function Wrap64(x: nat): uint64 {
    x % TWO_64
  }

  function Min(a: int, b: int): int {
    if a < b then a else b
  }

  function Max(a: int, b: int): int {
    if a < b then b else a
  }

  lemma MultiplyMonotone(d: nat, a: nat, b: nat)
    ensures a <= b ==> d * a <= d * b
  {
  }

  lemma DivideDown(n: nat, d: nat)
    requires d > 0
    ensures 0 <= n / d <= n
  {
    MultiplyMonotone(n / d, 1, d);
    assert n == d * (n / d) + n % d;
  }

  lemma QuotientIs(v: nat, d: nat, q: nat)
    requires d > 0 && d * q <= v < d * (q + 1)
    ensures v / d == q
  {
    var k := v / d;
    assert d * k <= v < d * k + d by { assert v == d * k + v % d; }
    MultiplyMonotone(d, k + 1, q);
    MultiplyMonotone(d, q + 1, k);
  }
}
