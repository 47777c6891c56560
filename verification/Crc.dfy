/** CRC-32C as src/codec/crc.cpp computes it: reflected Castagnoli polynomial (section 12.1 of
    RFC 3720), register inverted on the way in and on the way out.  A 32-bit word is the sequence
    of its bits, least significant first. */
module Crc {
  import opened Words
  import Codec

  type Word = w: seq<bool> | |w| == 32 witness seq(32, _ => false)

  // ----- bits of a number

  function Bits(v: nat, n: nat): (bits: seq<bool>)
    ensures |bits| == n
  {
    seq(n, i requires 0 <= i < n => v / Pow2(i) % 2 == 1)
  }

  function Number(bits: seq<bool>): nat
    decreases |bits|
  {
    if |bits| == 0 then 0 else (if bits[0] then 1 else 0) + 2 * Number(bits[1..])
  }

  function Pow2(n: nat): (p: nat)
    ensures p > 0
    decreases n
  {
    if n == 0 then 1 else 2 * Pow2(n - 1)
  }

  lemma {:induction false} NumberBound(bits: seq<bool>)
    ensures Number(bits) < Pow2(|bits|)
    decreases |bits|
  {
    if |bits| > 0 {
      NumberBound(bits[1..]);
    }
  }

  lemma BitsUnfold(v: nat, n: nat)
    requires n > 0
    ensures Bits(v, n) == [v % 2 == 1] + Bits(v / 2, n - 1)
  {
    forall i | 0 < i < n
      ensures v / Pow2(i) == v / 2 / Pow2(i - 1)
    {
      DivideTwice(v, Pow2(i - 1));
    }
  }

  lemma Doubled(v: nat, half: nat, d: nat, q: nat)
    requires 2 * half <= v <= 2 * half + 1 && d * q <= half < d * (q + 1)
    ensures 2 * d * q <= v < 2 * d * (q + 1)
  {
    assert 2 * d * q == 2 * (d * q) && 2 * d * (q + 1) == 2 * (d * (q + 1));
  }

  lemma DivideTwice(v: nat, d: nat)
    requires d > 0
    ensures v / (2 * d) == v / 2 / d
  {
    var half, q := v / 2, v / 2 / d;
    assert half == d * q + half % d;
    Doubled(v, half, d, q);
    QuotientIs(v, 2 * d, q);
  }

  lemma {:induction false} BitsOfNumber(bits: seq<bool>)
    ensures Bits(Number(bits), |bits|) == bits
    decreases |bits|
  {
    if |bits| > 0 {
      BitsOfNumber(bits[1..]);
      BitsUnfold(Number(bits), |bits|);
    }
  }

  lemma {:induction false} NumberOfBits(v: nat, n: nat)
    requires v < Pow2(n)
    ensures Number(Bits(v, n)) == v
    decreases n
  {
    if n > 0 {
      NumberOfBits(v / 2, n - 1);
      BitsUnfold(v, n);
    }
  }

  // ----- the algorithm

  const POLYNOMIAL: Word := Bits(0x82f63b78, 32)
  const DEFAULT_SEED: Word := Bits(0xffff_ffff, 32)

  function Xor(a: Word, b: Word): Word {
    seq(32, i requires 0 <= i < 32 => a[i] != b[i])
  }

  function Not(a: Word): Word {
    seq(32, i requires 0 <= i < 32 => !a[i])
  }

  function ShiftRight(a: Word): Word {
    a[1..] + [false]
  }

  function Widen(b: uint8): Word {
    Bits(b, 8) + seq(24, _ => false)
  }

  /** One turn of the inner loop: the mask `0 - (crc & 1)` is all ones or all zeros. */
  function Turn(crc: Word, polynomial: Word): Word {
    if crc[0] then Xor(ShiftRight(crc), polynomial) else ShiftRight(crc)
  }

  function Turns(crc: Word, n: nat, polynomial: Word): Word
    decreases n
  {
    if n == 0 then crc else Turn(Turns(crc, n - 1, polynomial), polynomial)
  }

  function ByteStep(crc: Word, b: uint8, polynomial: Word): Word {
    Turns(Xor(crc, Widen(b)), 8, polynomial)
  }

  function Register(crc: Word, data: Bytes, polynomial: Word): Word
    decreases |data|
  {
    if |data| == 0 then crc else Register(ByteStep(crc, data[0], polynomial), data[1..], polynomial)
  }

  function Crc32c(data: Bytes, seed: Word): Word {
    Not(Register(Not(seed), data, POLYNOMIAL))
  }

  /** The checksum of a frame, as the 32-bit number that goes on the wire. */
  function Checksum(data: Bytes): (c: uint32) {
    NumberBound(Crc32c(data, DEFAULT_SEED));
    Pow2Of32();
    Number(Crc32c(data, DEFAULT_SEED))
  }

  lemma Pow2Of32()
    ensures Pow2(32) == TWO_32
  {
    assert Pow2(8) == 256;
    assert Pow2(16) == 65536;
    assert Pow2(24) == 16777216;
  }

  method ComputeCrc32c(data: Bytes, seed: Word) returns (r: Word)
    ensures r == Crc32c(data, seed)
  {
    var polynomial := POLYNOMIAL;
    var crc := Not(seed);
    for i := 0 to |data|
      invariant Register(crc, data[i..], polynomial) == Register(Not(seed), data, polynomial)
    {
      assert data[i..][1..] == data[i + 1..];
      crc := Xor(crc, Widen(data[i]));
      ghost var start := crc;
      for bit := 0 to 8
        invariant crc == Turns(start, bit, polynomial)
      {
        crc := Turn(crc, polynomial);
      }
    }
    assert data[|data|..] == [];
    r := Not(crc);
  }

  method ComputeChecksum(data: Bytes) returns (r: uint32)
    ensures r == Checksum(data)
  {
    var crc := ComputeCrc32c(data, DEFAULT_SEED);
    NumberBound(crc);
    Pow2Of32();
    r := Number(crc);
  }

  // ----- composition by seed

  lemma {:induction false} RegisterConcat(crc: Word, a: Bytes, b: Bytes, polynomial: Word)
    ensures Register(crc, a + b, polynomial) == Register(Register(crc, a, polynomial), b, polynomial)
    decreases |a|
  {
    if |a| == 0 {
      assert a + b == b;
    } else {
      assert (a + b)[1..] == a[1..] + b;
      RegisterConcat(ByteStep(crc, a[0], polynomial), a[1..], b, polynomial);
    }
  }

  /** A checksum may be resumed: the checksum of a first part, fed as the seed of the second,
      gives the checksum of the whole. */
  lemma SeedComposition(a: Bytes, b: Bytes, seed: Word)
    ensures Crc32c(a + b, seed) == Crc32c(b, Crc32c(a, seed))
  {
    RegisterConcat(Not(seed), a, b, POLYNOMIAL);
    assert Not(Crc32c(a, seed)) == Register(Not(seed), a, POLYNOMIAL);
  }

  // ----- every step is a bijection on 32-bit words

  /** Undoes `Turn`: the top bit of the result is the bit that was shifted out. */
  function TurnBack(crc: Word, polynomial: Word): Word {
    if crc[31] then [true] + Xor(crc, polynomial)[..31] else [false] + crc[..31]
  }

  /** A turn is a bijection on words because the polynomial has its top bit set. */
  lemma TurnBijective(x: Word, polynomial: Word)
    requires polynomial[31]
    ensures TurnBack(Turn(x, polynomial), polynomial) == x
    ensures Turn(TurnBack(x, polynomial), polynomial) == x
  {
    var up, down := Turn(x, polynomial), TurnBack(x, polynomial);
    assert up[31] == x[0];
    assert down[0] == x[31];
    if x[0] {
      assert forall i | 0 <= i < 31 :: Xor(up, polynomial)[i] == x[i + 1];
    }
    if x[31] {
      assert forall i | 0 <= i < 31 :: ShiftRight(down)[i] == Xor(x, polynomial)[i];
    }
  }

  lemma {:induction false} TurnsInjective(x: Word, y: Word, n: nat, polynomial: Word)
    requires polynomial[31]
    requires Turns(x, n, polynomial) == Turns(y, n, polynomial)
    ensures x == y
    decreases n
  {
    if n > 0 {
      TurnBijective(Turns(x, n - 1, polynomial), polynomial);
      TurnBijective(Turns(y, n - 1, polynomial), polynomial);
      TurnsInjective(x, y, n - 1, polynomial);
    }
  }

  lemma XorCancels(x: Word, y: Word, z: Word)
    ensures Xor(x, z) == Xor(y, z) ==> x == y
    ensures Xor(z, x) == Xor(z, y) ==> x == y
  {
    assert forall i | 0 <= i < 32 :: Xor(x, z)[i] == (x[i] != z[i]) && Xor(y, z)[i] == (y[i] != z[i]);
    assert forall i | 0 <= i < 32 :: Xor(z, x)[i] == (x[i] != z[i]) && Xor(z, y)[i] == (y[i] != z[i]);
  }

  lemma {:induction false} RegisterInjective(x: Word, y: Word, data: Bytes, polynomial: Word)
    requires polynomial[31]
    requires Register(x, data, polynomial) == Register(y, data, polynomial)
    ensures x == y
    decreases |data|
  {
    if |data| > 0 {
      var b := data[0];
      RegisterInjective(ByteStep(x, b, polynomial), ByteStep(y, b, polynomial), data[1..], polynomial);
      TurnsInjective(Xor(x, Widen(b)), Xor(y, Widen(b)), 8, polynomial);
      XorCancels(x, y, Widen(b));
    }
  }

  lemma PolynomialTop()
    ensures POLYNOMIAL[31]
  {
    Pow2Of32();
    assert Pow2(32) == 2 * Pow2(31);
    assert POLYNOMIAL[31] == (0x82f63b78 / Pow2(31) % 2 == 1);
  }

  // ----- up to four bytes act on the register like one 32-bit word

  /** The sum modulo two of `x` and of `w` moved up by `n` places. */
  function XorUp(x: Word, w: Word, n: nat): Word
    requires n <= 32
  {
    seq(32, i requires 0 <= i < 32 => x[i] != (i >= n && w[i - n]))
  }

  /** `w` has no bit in its upper `n` places, so moving it up by `n` loses nothing. */
  predicate Fits(w: Word, n: nat) {
    forall i | 0 <= i < 32 && i >= 32 - n :: !w[i]
  }

  lemma TurnUp(x: Word, w: Word, n: nat, polynomial: Word)
    requires n < 32 && Fits(w, n + 1)
    ensures Turn(XorUp(x, w, n + 1), polynomial) == XorUp(Turn(x, polynomial), w, n)
  {
  }

  /** A word placed `n + k` bits up reaches place `n` after `k` turns untouched. */
  lemma {:induction false} TurnsUp(x: Word, w: Word, n: nat, k: nat, polynomial: Word)
    requires n + k <= 32 && Fits(w, n + k)
    ensures Turns(XorUp(x, w, n + k), k, polynomial) == XorUp(Turns(x, k, polynomial), w, n)
    decreases k
  {
    if k == 0 {
    } else {
      TurnsUp(x, w, n + 1, k - 1, polynomial);
      TurnUp(Turns(x, k - 1, polynomial), w, n, polynomial);
    }
  }

  lemma {:induction false} TurnsAdd(x: Word, m: nat, n: nat, polynomial: Word)
    ensures Turns(Turns(x, m, polynomial), n, polynomial) == Turns(x, m + n, polynomial)
    decreases n
  {
    if n > 0 {
      TurnsAdd(x, m, n - 1, polynomial);
    }
  }

  /** A word fed after `m` turns could have been placed `m` bits up at the start. */
  lemma LateWord(y: Word, w: Word, m: nat, k: nat, polynomial: Word)
    requires m <= 32 && Fits(w, m)
    ensures Turns(Xor(Turns(y, m, polynomial), w), k, polynomial)
         == Turns(XorUp(y, w, m), m + k, polynomial)
  {
    TurnsUp(y, w, 0, m, polynomial);
    var now := Turns(y, m, polynomial);
    assert XorUp(now, w, 0) == Xor(now, w);
    TurnsAdd(XorUp(y, w, m), m, k, polynomial);
  }

  /** The bits of a window, first byte lowest. */
  function WindowBits(w: Bytes): (bits: seq<bool>)
    ensures |bits| == 8 * |w|
    decreases |w|
  {
    if |w| == 0 then [] else WindowBits(w[..|w| - 1]) + Bits(w[|w| - 1], 8)
  }

  function Padded(bits: seq<bool>): Word
    requires |bits| <= 32
  {
    bits + seq(32 - |bits|, _ => false)
  }

  lemma PaddedAppend(x: Word, bits: seq<bool>, b: uint8)
    requires |bits| <= 24
    ensures XorUp(Xor(x, Padded(bits)), Widen(b), |bits|) == Xor(x, Padded(bits + Bits(b, 8)))
  {
    var l, r := XorUp(Xor(x, Padded(bits)), Widen(b), |bits|), Xor(x, Padded(bits + Bits(b, 8)));
    forall i | 0 <= i < 32
      ensures l[i] == r[i]
    {
    }
  }

  /** The same for one byte of data. */
  lemma LateByte(x: Word, bits: seq<bool>, b: uint8, polynomial: Word)
    requires |bits| <= 24
    ensures Register(Turns(Xor(x, Padded(bits)), |bits|, polynomial), [b], polynomial)
         == Turns(Xor(x, Padded(bits + Bits(b, 8))), |bits| + 8, polynomial)
  {
    var k := 8;
    LateWord(Xor(x, Padded(bits)), Widen(b), |bits|, k, polynomial);
    PaddedAppend(x, bits, b);
    var now := Turns(Xor(x, Padded(bits)), |bits|, polynomial);
    assert Register(now, [b], polynomial) == ByteStep(now, b, polynomial);
  }

  lemma {:induction false} WindowAsWord(x: Word, w: Bytes, polynomial: Word)
    requires |w| <= 4
    ensures Register(x, w, polynomial) == Turns(Xor(x, Padded(WindowBits(w))), 8 * |w|, polynomial)
    decreases |w|
  {
    if |w| == 0 {
      assert Xor(x, Padded(WindowBits(w))) == x;
    } else {
      var init, last := w[..|w| - 1], w[|w| - 1];
      var bits := WindowBits(init);
      var now := Turns(Xor(x, Padded(bits)), |bits|, polynomial);
      assert w == init + [last];
      RegisterConcat(x, init, [last], polynomial);
      WindowAsWord(x, init, polynomial);
      assert Register(x, w, polynomial) == Register(now, [last], polynomial);
      LateByte(x, bits, last, polynomial);
      assert WindowBits(w) == bits + Bits(last, 8);
    }
  }

  lemma {:induction false} WindowBitsInjective(w: Bytes, v: Bytes)
    requires |w| == |v| && WindowBits(w) == WindowBits(v)
    ensures w == v
    decreases |w|
  {
    if |w| > 0 {
      var m := |w| - 1;
      ConcatInjective(WindowBits(w[..m]), Bits(w[m], 8), WindowBits(v[..m]), Bits(v[m], 8));
      WindowBitsInjective(w[..m], v[..m]);
      ByteBitsInjective(w[m], v[m]);
      assert w == w[..m] + [w[m]];
      assert v == v[..m] + [v[m]];
    }
  }

  lemma ConcatInjective(a: seq<bool>, b: seq<bool>, c: seq<bool>, d: seq<bool>)
    requires |a| == |c| && a + b == c + d
    ensures a == c && b == d
  {
    assert a == (a + b)[..|a|] && c == (c + d)[..|c|];
    assert b == (a + b)[|a|..] && d == (c + d)[|c|..];
  }

  lemma ByteBitsInjective(b: uint8, c: uint8)
    ensures Bits(b, 8) == Bits(c, 8) ==> b == c
  {
    assert Pow2(8) == 256;
    NumberOfBits(b, 8);
    NumberOfBits(c, 8);
  }

  /** Two messages that differ, but only inside a window of at most four bytes, leave different
      registers. */
  lemma BurstChangesRegister(start: Word, before: Bytes, w: Bytes, v: Bytes, after: Bytes)
    requires |w| == |v| <= 4 && w != v
    ensures Register(start, before + w + after, POLYNOMIAL) != Register(start, before + v + after, POLYNOMIAL)
  {
    var p := POLYNOMIAL;
    PolynomialTop();
    var x := Register(start, before, p);
    RegisterConcat(start, before + w, after, p);
    RegisterConcat(start, before, w, p);
    RegisterConcat(start, before + v, after, p);
    RegisterConcat(start, before, v, p);
    if Register(start, before + w + after, p) == Register(start, before + v + after, p) {
      RegisterInjective(Register(x, w, p), Register(x, v, p), after, p);
      WindowAsWord(x, w, p);
      WindowAsWord(x, v, p);
      var s, t := WindowBits(w), WindowBits(v);
      TurnsInjective(Xor(x, Padded(s)), Xor(x, Padded(t)), 8 * |w|, p);
      XorCancels(Padded(s), Padded(t), x);
      assert s == Padded(s)[..|s|] && t == Padded(t)[..|t|];
      WindowBitsInjective(w, v);
      assert false;
    }
  }

  /** So they have different checksums. */
  lemma BurstChangesChecksum(before: Bytes, w: Bytes, v: Bytes, after: Bytes)
    requires |w| == |v| <= 4 && w != v
    ensures Checksum(before + w + after) != Checksum(before + v + after)
  {
    var start := Not(DEFAULT_SEED);
    var a, b := Register(start, before + w + after, POLYNOMIAL), Register(start, before + v + after, POLYNOMIAL);
    BurstChangesRegister(start, before, w, v, after);
    NotInjective(a, b);
    BitsOfNumber(Not(a));
    BitsOfNumber(Not(b));
  }

  lemma NotInjective(a: Word, b: Word)
    ensures Not(a) == Not(b) ==> a == b
  {
    assert forall i | 0 <= i < 32 :: Not(a)[i] == !a[i] && Not(b)[i] == !b[i];
  }

  // ----- data followed by its own checksum

  /** The register that any data followed by its own checksum leaves. */
  function Residue(): Word {
    Turns(DEFAULT_SEED, 32, POLYNOMIAL)
  }

  lemma AllOnes()
    ensures forall i | 0 <= i < 32 :: DEFAULT_SEED[i]
  {
    NumberOfOnes(32);
    Pow2Of32();
    BitsOfNumber(seq(32, _ => true));
  }

  lemma {:induction false} NumberOfOnes(n: nat)
    ensures Number(seq(n, _ => true)) == Pow2(n) - 1
    decreases n
  {
    if n > 0 {
      assert seq(n, _ => true)[1..] == seq(n - 1, _ => true);
      NumberOfOnes(n - 1);
    }
  }

  lemma TwiceSum(bit: nat, low: nat, p: nat, high: nat)
    ensures bit + 2 * (low + p * high) == bit + 2 * low + 2 * p * high
  {
  }

  lemma {:induction false} NumberAppend(a: seq<bool>, b: seq<bool>)
    ensures Number(a + b) == Number(a) + Pow2(|a|) * Number(b)
    decreases |a|
  {
    if |a| == 0 {
      assert a + b == b;
    } else {
      assert (a + b)[1..] == a[1..] + b;
      NumberAppend(a[1..], b);
      TwiceSum(if a[0] then 1 else 0, Number(a[1..]), Pow2(|a| - 1), Number(b));
    }
  }

  lemma {:induction false} WindowBitsHead(w: Bytes)
    requires |w| > 0
    ensures WindowBits(w) == Bits(w[0], 8) + WindowBits(w[1..])
    decreases |w|
  {
    if |w| == 1 {
      assert w[..0] == [] && w[1..] == [];
    } else {
      var n := |w| - 1;
      WindowBitsHead(w[..n]);
      assert w[..n][1..] == w[1..][..n - 1];
      assert Bits(w[0], 8) + WindowBits(w[..n][1..]) + Bits(w[n], 8)
          == Bits(w[0], 8) + (WindowBits(w[1..][..n - 1]) + Bits(w[n], 8));
    }
  }

  lemma {:induction false} NumberOfWindow(w: Bytes)
    ensures Number(WindowBits(w)) == Codec.LeValue(w)
    decreases |w|
  {
    if |w| > 0 {
      WindowBitsHead(w);
      NumberOfWindow(w[1..]);
      NumberAppend(Bits(w[0], 8), WindowBits(w[1..]));
      assert Pow2(8) == 256;
      NumberOfBits(w[0], 8);
    }
  }

  /** Data followed by its own checksum always leaves the same register. */
  lemma OwnChecksumResidue(data: Bytes, trailer: Bytes)
    requires |trailer| == 4 && Codec.LeValue(trailer) == Checksum(data)
    ensures Register(Not(DEFAULT_SEED), data + trailer, POLYNOMIAL) == Residue()
  {
    var x := Register(Not(DEFAULT_SEED), data, POLYNOMIAL);
    var bits := WindowBits(trailer);
    NumberOfWindow(trailer);
    BitsOfNumber(bits);
    BitsOfNumber(Not(x));
    assert bits == Not(x);
    assert Padded(bits) == bits;
    AllOnes();
    assert Xor(x, Padded(bits)) == DEFAULT_SEED;
    RegisterConcat(Not(DEFAULT_SEED), data, trailer, POLYNOMIAL);
    WindowAsWord(x, trailer, POLYNOMIAL);
  }
}
