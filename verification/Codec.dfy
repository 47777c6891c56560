/** The little-endian cursor and buffer of src/codec/binary_reader.cpp and
    src/codec/binary_writer.cpp, each proved against a function on byte sequences. */
module Codec {
  import opened Words
  import opened Wrappers

  // ----- little-endian numbers

  function Pow256(n: nat): (p: nat)
    ensures p > 0
    decreases n
  {
    if n == 0 then 1 else 256 * Pow256(n - 1)
  }

  /** The `n` low bytes of `v`, lowest first; higher bytes are lost. */
  function LeBytes(v: nat, n: nat): (bs: Bytes)
    ensures |bs| == n
    decreases n, v
  {
    if n == 0 then [] else [v % 256] + LeBytes(v / 256, n - 1)
  }

  function LeValue(bs: Bytes): nat
    decreases |bs|
  {
    if |bs| == 0 then 0 else bs[0] + 256 * LeValue(bs[1..])
  }

  lemma {:induction false} LeValueBound(bs: Bytes)
    ensures LeValue(bs) < Pow256(|bs|)
    decreases |bs|
  {
    if |bs| > 0 {
      LeValueBound(bs[1..]);
    }
  }

  /** Writing then reading a number gives back its low bytes. */
  lemma {:induction false} ValueOfBytes(v: nat, n: nat)
    requires v < Pow256(n)
    ensures LeValue(LeBytes(v, n)) == v
    decreases n
  {
    if n > 0 {
      ValueOfBytes(v / 256, n - 1);
    }
  }

  lemma LowByte(b: uint8, high: nat)
    ensures (b + 256 * high) % 256 == b && (b + 256 * high) / 256 == high
  {
  }

  /** Reading then writing a number gives back its bytes. */
  lemma {:induction false} BytesOfValue(bs: Bytes)
    ensures LeBytes(LeValue(bs), |bs|) == bs
    decreases |bs|
  {
    if |bs| > 0 {
      BytesOfValue(bs[1..]);
      LowByte(bs[0], LeValue(bs[1..]));
      assert bs == [bs[0]] + bs[1..];
    }
  }

  lemma Pow256Values()
    ensures Pow256(1) == TWO_8 && Pow256(2) == TWO_16 && Pow256(4) == TWO_32 && Pow256(8) == TWO_64
  {
    assert Pow256(3) == 0x100_0000;
    assert Pow256(6) == 0x1_0000_0000_0000;
  }

  // ----- reading from the front of a byte sequence

  /** A value read and the bytes after it. */
  datatype Parsed<+T> = Parsed(value: T, rest: Bytes)

  function Take(data: Bytes, n: nat): Result<Parsed<Bytes>> {
    if |data| < n then Err(Eof) else Ok(Parsed(data[..n], data[n..]))
  }

  function ReadWord(data: Bytes, width: nat): (r: Result<Parsed<nat>>)
    ensures r.Ok? ==> r.value.value < Pow256(width)
  {
    if |data| < width then Err(Eof) else
      LeValueBound(data[..width]);
      Ok(Parsed(LeValue(data[..width]), data[width..]))
  }

  function ReadU8(data: Bytes): Result<Parsed<uint8>> {
    if |data| < 1 then Err(Eof) else Ok(Parsed(data[0], data[1..]))
  }

  function ReadU16(data: Bytes): Result<Parsed<uint16>> {
    Pow256Values();
    var r :- ReadWord(data, 2);
    Ok(Parsed(r.value, r.rest))
  }

  function ReadU32(data: Bytes): Result<Parsed<uint32>> {
    Pow256Values();
    var r :- ReadWord(data, 4);
    Ok(Parsed(r.value, r.rest))
  }

  function ReadU64(data: Bytes): Result<Parsed<uint64>> {
    Pow256Values();
    var r :- ReadWord(data, 8);
    Ok(Parsed(r.value, r.rest))
  }

  /** The four bytes at `offset` as a number. */
  function WordAt(data: Bytes, offset: nat): uint32
    requires offset + 4 <= |data|
  {
    LeValueBound(data[offset..offset + 4]);
    Pow256Values();
    LeValue(data[offset..offset + 4])
  }

  lemma WordRead(data: Bytes, offset: nat)
    requires offset + 4 <= |data|
    ensures ReadU32(data[offset..]) == Ok(Parsed(WordAt(data, offset), data[offset + 4..]))
  {
    assert data[offset..][..4] == data[offset..offset + 4];
    assert data[offset..][4..] == data[offset + 4..];
  }

  /** A length-prefixed string of at most `limit` bytes. */
  function ReadString(data: Bytes, limit: nat): Result<Parsed<Bytes>> {
    var n :- ReadU16(data);
    if n.value > limit then Err(MalformedPacket) else Take(n.rest, n.value)
  }

  // ----- what the writer puts on the wire

  function PutU8(v: uint8): (bs: Bytes)
    ensures |bs| == 1
  {
    [v]
  }

  function PutU16(v: nat): (bs: Bytes)
    ensures |bs| == 2
  {
    LeBytes(v, 2)
  }

  function PutU32(v: nat): (bs: Bytes)
    ensures |bs| == 4
  {
    LeBytes(v, 4)
  }

  function PutU64(v: nat): (bs: Bytes)
    ensures |bs| == 8
  {
    LeBytes(v, 8)
  }

  function PutString(s: Bytes): Result<Bytes> {
    if |s| > 65535 then Err(InvalidArgument) else Ok(PutU16(|s|) + s)
  }

  // ----- the reader undoes the writer

  lemma ReadBackU16(v: nat, rest: Bytes)
    ensures ReadU16(PutU16(v) + rest) == Ok(Parsed(v % TWO_16, rest))
  {
    Pow256Values();
    LowBytes(v, 2);
    ValueOfBytes(v % TWO_16, 2);
    assert (PutU16(v) + rest)[..2] == PutU16(v) && (PutU16(v) + rest)[2..] == rest;
  }

  lemma ReadBackU32(v: nat, rest: Bytes)
    ensures ReadU32(PutU32(v) + rest) == Ok(Parsed(v % TWO_32, rest))
  {
    Pow256Values();
    LowBytes(v, 4);
    ValueOfBytes(v % TWO_32, 4);
    assert (PutU32(v) + rest)[..4] == PutU32(v) && (PutU32(v) + rest)[4..] == rest;
  }

  lemma ReadBackU64(v: uint64, rest: Bytes)
    ensures ReadU64(PutU64(v) + rest) == Ok(Parsed(v, rest))
  {
    Pow256Values();
    ValueOfBytes(v, 8);
    assert (PutU64(v) + rest)[..8] == PutU64(v) && (PutU64(v) + rest)[8..] == rest;
  }

  lemma {:induction false} LowBytes(v: nat, n: nat)
    ensures LeBytes(v, n) == LeBytes(v % Pow256(n), n)
    decreases n
  {
    if n > 0 {
      var p := Pow256(n - 1);
      LowBytes(v / 256, n - 1);
      LowBytes(v % Pow256(n) / 256, n - 1);
      ModuloQuotient(v, p);
    }
  }

  lemma ModuloQuotient(v: nat, p: nat)
    requires p > 0
    ensures v % (256 * p) % 256 == v % 256
    ensures v % (256 * p) / 256 % p == v / 256 % p
  {
    var q, m := v / (256 * p), v % (256 * p);
    assert v == 256 * (q * p) + m;
    assert v / 256 == q * p + m / 256;
    assert 0 <= m / 256 < p;
    ModuloIs(v / 256, p, q, m / 256);
  }

  lemma ModuloIs(v: nat, p: nat, q: nat, m: nat)
    requires m < p && v == q * p + m
    ensures v % p == m
  {
    assert p * q <= v < p * (q + 1);
    QuotientIs(v, p, q);
  }

  lemma TakeBack(s: Bytes, rest: Bytes)
    ensures Take(s + rest, |s|) == Ok(Parsed(s, rest))
  {
    assert (s + rest)[..|s|] == s && (s + rest)[|s|..] == rest;
  }

  lemma ReadBackString(s: Bytes, limit: nat, rest: Bytes)
    requires |s| <= 65535
    ensures ReadString(PutString(s).value + rest, limit)
         == if |s| <= limit then Ok(Parsed(s, rest)) else Err(MalformedPacket)
  {
    assert PutString(s).value + rest == PutU16(|s|) + (s + rest);
    ReadBackU16(|s|, s + rest);
    TakeBack(s, rest);
  }

  // ----- the cursor and the buffer themselves

  /** A read that was specified to give `spec` gave `r` and left `rest` to be read. */
  ghost predicate Agrees<T>(spec: Result<Parsed<T>>, r: Result<T>, rest: Bytes) {
    match spec
    case Ok(p) => r == Ok(p.value) && rest == p.rest
    case Err(e) => r == Err(e)
  }

  lemma Distribute(low: nat, p: nat, b: nat)
    ensures 256 * (low + p * b) == 256 * low + 256 * p * b
  {
  }

  /** One more byte counts as much as all before it leave room for. */
  lemma {:induction false} ValueOfMore(bs: Bytes, b: uint8)
    ensures LeValue(bs + [b]) == LeValue(bs) + Pow256(|bs|) * b
    decreases |bs|
  {
    if |bs| == 0 {
      assert bs + [b] == [b] && [b][1..] == [];
    } else {
      assert (bs + [b])[1..] == bs[1..] + [b];
      ValueOfMore(bs[1..], b);
      Distribute(LeValue(bs[1..]), Pow256(|bs| - 1), b);
    }
  }

  /** The `i`-th byte of the first `n` of what is left, and what is left after them. */
  lemma RestSplit(data: Bytes, offset: nat, n: nat, i: nat)
    requires offset + n <= |data| && i < n
    ensures data[offset..][..n][i] == data[offset + i]
  {
  }

  lemma RestAfter(data: Bytes, offset: nat, n: nat)
    requires offset + n <= |data|
    ensures data[offset..][n..] == data[offset + n..] && |data[offset..]| >= n && |data[offset..][..n]| == n
  {
  }

  lemma ValueOfPrefix(word: Bytes, i: nat)
    requires i < |word|
    ensures LeValue(word[..i + 1]) == LeValue(word[..i]) + Pow256(i) * word[i]
  {
    assert word[..i + 1] == word[..i] + [word[i]];
    ValueOfMore(word[..i], word[i]);
  }

  class BinaryReader {
    const data: Bytes
    var offset: nat

    ghost predicate Valid()
      reads this
    {
      offset <= |data|
    }

    ghost function Rest(): Bytes
      requires Valid()
      reads this
    {
      data[offset..]
    }

    constructor (data: Bytes)
      ensures Valid() && Rest() == data
      ensures this.data == data && offset == 0
    {
      this.data := data;
      offset := 0;
    }

    function Remaining(): nat
      requires Valid()
      reads this
    {
      |data| - offset
    }

    method U8() returns (r: Result<uint8>)
      requires Valid()
      modifies this`offset
      ensures Valid() && Agrees(ReadU8(old(Rest())), r, Rest())
    {
      if Remaining() < 1 {
        return Err(Eof);
      }
      r := Ok(data[offset]);
      offset := offset + 1;
    }

    /** The shared body of `u16`, `u32` and `u64`: byte `i` is added `8 * i` bits up. */
    method Word(width: nat) returns (r: Result<nat>)
      requires Valid()
      modifies this`offset
      ensures Valid() && Agrees(ReadWord(old(Rest()), width), r, Rest())
    {
      if Remaining() < width {
        return Err(Eof);
      }
      RestAfter(data, offset, width);
      ghost var word := Rest()[..width];
      var v: nat, scale: nat := 0, 1;
      for i := 0 to width
        invariant offset == old(offset)
        invariant v == LeValue(word[..i]) && scale == Pow256(i)
      {
        RestSplit(data, offset, width, i);
        ValueOfPrefix(word, i);
        v := v + scale * data[offset + i];
        scale := 256 * scale;
      }
      assert word[..width] == word;
      offset := offset + width;
      r := Ok(v);
    }

    method U16() returns (r: Result<uint16>)
      requires Valid()
      modifies this`offset
      ensures Valid() && Agrees(ReadU16(old(Rest())), r, Rest())
    {
      Pow256Values();
      var v :- Word(2);
      r := Ok(v);
    }

    method U32() returns (r: Result<uint32>)
      requires Valid()
      modifies this`offset
      ensures Valid() && Agrees(ReadU32(old(Rest())), r, Rest())
    {
      Pow256Values();
      var v :- Word(4);
      r := Ok(v);
    }

    method U64() returns (r: Result<uint64>)
      requires Valid()
      modifies this`offset
      ensures Valid() && Agrees(ReadU64(old(Rest())), r, Rest())
    {
      Pow256Values();
      var v :- Word(8);
      r := Ok(v);
    }

    method ReadBytes(n: nat) returns (r: Result<Bytes>)
      requires Valid()
      modifies this`offset
      ensures Valid() && Agrees(Take(old(Rest()), n), r, Rest())
      ensures r.Ok? ==> offset == old(offset) + n && r.value == data[old(offset)..offset]
    {
      if Remaining() < n {
        return Err(Eof);
      }
      assert Rest()[..n] == data[offset..offset + n];
      r := Ok(data[offset..offset + n]);
      offset := offset + n;
    }

    method String(limit: nat) returns (r: Result<Bytes>)
      requires Valid()
      modifies this`offset
      ensures Valid() && Agrees(ReadString(old(Rest()), limit), r, Rest())
    {
      var n :- U16();
      if n > limit {
        return Err(MalformedPacket);
      }
      r := ReadBytes(n);
    }
  }

  class BinaryWriter {
    var buffer: Bytes

    constructor ()
      ensures buffer == []
    {
      buffer := [];
    }

    method U8(v: uint8)
      modifies this
      ensures buffer == old(buffer) + PutU8(v)
    {
      buffer := buffer + [v];
    }

    /** The shared body of `u16`, `u32` and `u64`: byte `i` is the value shifted down `8 * i` bits. */
    method Word(value: nat, width: nat)
      modifies this
      ensures buffer == old(buffer) + LeBytes(value, width)
    {
      var shifted := value;
      for i := 0 to width
        invariant buffer + LeBytes(shifted, width - i) == old(buffer) + LeBytes(value, width)
      {
        assert buffer + LeBytes(shifted, width - i)
            == buffer + [shifted % 256] + LeBytes(shifted / 256, width - i - 1);
        buffer := buffer + [shifted % 256];
        shifted := shifted / 256;
      }
    }

    method U16(v: nat)
      modifies this
      ensures buffer == old(buffer) + PutU16(v)
    {
      Word(v, 2);
    }

    method U32(v: nat)
      modifies this
      ensures buffer == old(buffer) + PutU32(v)
    {
      Word(v, 4);
    }

    method U64(v: uint64)
      modifies this
      ensures buffer == old(buffer) + PutU64(v)
    {
      Word(v, 8);
    }

    method Put(value: Bytes)
      modifies this
      ensures buffer == old(buffer) + value
    {
      buffer := buffer + value;
    }

    method String(value: Bytes) returns (r: Result<()>)
      modifies this
      ensures r.Ok? <==> PutString(value).Ok?
      ensures r.Ok? ==> buffer == old(buffer) + PutString(value).value
      ensures r.Err? ==> r == Err(InvalidArgument) && buffer == old(buffer)
    {
      if |value| > 65535 {
        return Err(InvalidArgument);
      }
      U16(|value|);
      buffer := buffer + value;
      r := Ok(());
    }
  }
}
