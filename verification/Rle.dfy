/** Run-length compression, src/compression/compressor.cpp: a stream of (count, value) pairs. */
module Rle {
  import opened Words
  import opened Wrappers

  const MAX_RUN: nat := 255

  /** How many of the first bytes, at most 255, equal the first one. */
  function RunLength(input: Bytes): (n: nat)
    requires |input| > 0
    ensures 1 <= n <= |input| && n <= MAX_RUN
    ensures forall i | 0 <= i < n :: input[i] == input[0]
    ensures n < |input| && n < MAX_RUN ==> input[n] != input[0]
  {
    RunFrom(input, 1)
  }

  function RunFrom(input: Bytes, n: nat): (r: nat)
    requires 1 <= n <= |input| && n <= MAX_RUN && forall i | 0 <= i < n :: input[i] == input[0]
    ensures n <= r <= |input| && r <= MAX_RUN
    ensures forall i | 0 <= i < r :: input[i] == input[0]
    ensures r < |input| && r < MAX_RUN ==> input[r] != input[0]
    decreases |input| - n
  {
    if n < |input| && n < MAX_RUN && input[n] == input[0] then RunFrom(input, n + 1) else n
  }

  function Compressed(input: Bytes): Bytes
    decreases |input|
  {
    if |input| == 0 then [] else
      var n := RunLength(input);
      [n, input[0]] + Compressed(input[n..])
  }

  function Repeated(value: uint8, n: nat): Bytes {
    seq(n, _ => value)
  }

  /** The bytes a well-formed stream stands for. */
  function Expanded(stream: Bytes): Bytes
    requires |stream| % 2 == 0
    decreases |stream|
  {
    if |stream| == 0 then [] else Repeated(stream[1], stream[0]) + Expanded(stream[2..])
  }

  // ----- the loops

  /** The inner loop: the run that starts at `i`. */
  method RunAt(input: Bytes, i: nat) returns (run: uint8)
    requires i < |input|
    ensures run == RunLength(input[i..])
  {
    run := 1;
    ghost var rest := input[i..];
    while i + run < |input| && input[i + run] == input[i] && run < 255
      invariant 1 <= run <= 255 && i + run <= |input|
      invariant forall k | 0 <= k < run :: rest[k] == rest[0]
      invariant RunLength(rest) == RunFrom(rest, run)
    {
      run := run + 1;
    }
  }

  method Compress(input: Bytes) returns (out: Bytes)
    ensures out == Compressed(input)
  {
    out := [];
    var i := 0;
    ghost var all := Compressed(input);
    assert input[0..] == input;
    while i < |input|
      invariant 0 <= i <= |input|
      invariant all == out + Compressed(input[i..])
    {
      var run := RunAt(input, i);
      CompressedStep(input, i, run);
      PairFirst(out, run, input[i], Compressed(input[i + run..]));
      out := out + [run] + [input[i]];
      i := i + run;
    }
    assert Compressed(input[i..]) == [];
  }

  lemma CompressedStep(input: Bytes, i: nat, run: uint8)
    requires i < |input| && RunLength(input[i..]) == run
    ensures i + run <= |input| && Compressed(input[i..]) == [run, input[i]] + Compressed(input[i + run..])
  {
    assert input[i..][run..] == input[i + run..];
  }

  lemma PairFirst(out: Bytes, run: uint8, value: uint8, rest: Bytes)
    ensures out + ([run, value] + rest) == out + [run] + [value] + rest
  {
  }

  lemma ExpandedPair(run: uint8, value: uint8, rest: Bytes)
    requires |rest| % 2 == 0
    ensures Expanded([run, value] + rest) == Repeated(value, run) + Expanded(rest)
  {
    assert ([run, value] + rest)[2..] == rest;
  }

  /** Decoding accepts exactly the streams of whole pairs whose expansion fits, and yields it. */
  method Decompress(input: Bytes, maxOutput: nat) returns (r: Result<Bytes>)
    ensures r == if |input| % 2 == 0 && |Expanded(input)| <= maxOutput then Ok(Expanded(input))
                 else Err(MalformedPacket)
  {
    if |input| % 2 != 0 {
      return Err(MalformedPacket);
    }
    var out: Bytes := [];
    var i := 0;
    assert input[0..] == input;
    while i < |input|
      invariant 0 <= i <= |input| && i % 2 == 0
      invariant Expanded(input) == out + Expanded(input[i..])
      invariant |out| <= maxOutput
    {
      var run := input[i];
      assert input[i..] == [run, input[i + 1]] + input[i + 2..];
      ExpandedPair(run, input[i + 1], input[i + 2..]);
      if |out| + run > maxOutput {
        return Err(MalformedPacket);
      }
      assert Expanded(input) == out + Repeated(input[i + 1], run) + Expanded(input[i + 2..]);
      out := out + Repeated(input[i + 1], run);
      i := i + 2;
    }
    assert input[i..] == [] && out + [] == out;
    r := Ok(out);
  }

  // ----- the theorems

  lemma {:induction false} CompressedPairs(input: Bytes)
    ensures |Compressed(input)| % 2 == 0
    decreases |input|
  {
    if |input| > 0 {
      CompressedPairs(input[RunLength(input)..]);
    }
  }

  lemma RunIsRepeated(input: Bytes)
    requires |input| > 0
    ensures Repeated(input[0], RunLength(input)) + input[RunLength(input)..] == input
  {
    assert Repeated(input[0], RunLength(input)) == input[..RunLength(input)];
  }

  /** Expanding a compressed input gives the input back. */
  lemma {:induction false} RoundTrip(input: Bytes)
    ensures |Compressed(input)| % 2 == 0 && Expanded(Compressed(input)) == input
    decreases |input|
  {
    CompressedPairs(input);
    if |input| > 0 {
      var n := RunLength(input);
      var later := Compressed(input[n..]);
      RoundTrip(input[n..]);
      ExpandedPair(n, input[0], later);
      assert Compressed(input) == [n, input[0]] + later;
      RunIsRepeated(input);
    }
  }

  /** Compressing what is left of an expansion takes no more than the whole stream. */
  lemma {:induction false} StaysShorter(stream: Bytes, skipped: Bytes, input: Bytes)
    requires |stream| % 2 == 0 && Expanded(stream) == skipped + input
    ensures |Compressed(input)| <= |stream|
    decreases |stream|
  {
    if |input| > 0 {
      var run, value, later := stream[0], stream[1], Expanded(stream[2..]);
      if |skipped| >= run {
        assert later == (skipped + input)[run..] == skipped[run..] + input;
        StaysShorter(stream[2..], skipped[run..], input);
      } else {
        var k := run - |skipped|;
        var n := RunLength(input);
        assert (skipped + input)[run..] == input[k..] == later;
        forall i | 0 <= i < k
          ensures input[i] == value
        {
          assert input[i] == (skipped + input)[|skipped| + i] == Repeated(value, run)[|skipped| + i];
        }
        assert n >= k;
        assert later == later[..n - k] + input[n..];
        StaysShorter(stream[2..], later[..n - k], input[n..]);
      }
    }
  }

  /** No stream that stands for an input is shorter than the compressed one, so compressing decoded
      data again never lengthens it. */
  lemma CompressedIsShortest(stream: Bytes)
    requires |stream| % 2 == 0
    ensures |Compressed(Expanded(stream))| <= |stream|
  {
    assert Expanded(stream) == [] + Expanded(stream);
    StaysShorter(stream, [], Expanded(stream));
  }

  // ----- the format, place by place

  /** Where the run of pair `k` begins in what the stream stands for: behind those of the pairs before it. */
  function RunStart(stream: Bytes, k: nat): nat
    requires 2 * k <= |stream|
  {
    if k == 0 then 0 else RunStart(stream, k - 1) + stream[2 * (k - 1)]
  }

  /** Pair `k` is a count at an even place and a value behind it: that many bytes of the output are the value. */
  predicate PairHolds(stream: Bytes, k: nat, out: Bytes)
    requires 2 * k + 2 <= |stream|
  {
    && RunStart(stream, k) + stream[2 * k] <= |out|
    && forall j | RunStart(stream, k) <= j < RunStart(stream, k) + stream[2 * k] :: out[j] == stream[2 * k + 1]
  }

  /** `out` is as long as the counts say, and every pair tells a stretch of it. */
  ghost predicate Tells(stream: Bytes, out: Bytes)
    requires |stream| % 2 == 0
  {
    && |out| == RunStart(stream, |stream| / 2)
    && forall k: nat | 2 * k + 2 <= |stream| :: PairHolds(stream, k, out)
  }

  lemma {:induction false} RunStartLater(stream: Bytes, k: nat)
    requires 2 <= |stream| && 2 * k + 2 <= |stream|
    ensures RunStart(stream, k + 1) == stream[0] + RunStart(stream[2..], k)
    decreases k
  {
    if k > 0 {
      RunStartLater(stream, k - 1);
      assert stream[2..][2 * (k - 1)] == stream[2 * k];
    }
  }

  lemma TellsFirst(stream: Bytes, out: Bytes)
    requires |stream| % 2 == 0 && |stream| > 0
    requires |out| >= stream[0] && out[..stream[0]] == Repeated(stream[1], stream[0])
    requires Tells(stream[2..], out[stream[0]..])
    ensures Tells(stream, out)
  {
    var n, rest, later := stream[0], stream[2..], out[stream[0]..];
    RunStartLater(stream, |rest| / 2);
    forall k: nat | 2 * k + 2 <= |stream|
      ensures PairHolds(stream, k, out)
    {
      if k == 0 {
        assert forall j | 0 <= j < n :: out[j] == out[..n][j];
      } else {
        RunStartLater(stream, k - 1);
        assert PairHolds(rest, k - 1, later);
        assert rest[2 * (k - 1)] == stream[2 * k] && rest[2 * (k - 1) + 1] == stream[2 * k + 1];
        assert forall j | n <= j < |out| :: out[j] == later[j - n];
      }
    }
  }

  /** The expansion of a stream is what its pairs tell. */
  lemma {:induction false} ExpandedTells(stream: Bytes)
    requires |stream| % 2 == 0
    ensures Tells(stream, Expanded(stream))
    decreases |stream|
  {
    if |stream| > 0 {
      ExpandedTells(stream[2..]);
      TellsFirst(stream, Expanded(stream));
    }
  }

  lemma {:induction false} RunStartGrows(stream: Bytes, j: nat, k: nat)
    requires j <= k && 2 * k <= |stream|
    ensures RunStart(stream, j) <= RunStart(stream, k)
    decreases k
  {
    if j < k {
      RunStartGrows(stream, j, k - 1);
    }
  }

  /** Each byte of the output belongs to a pair. */
  lemma {:induction false} PairOf(stream: Bytes, n: nat, j: nat) returns (k: nat)
    requires 2 * n <= |stream| && j < RunStart(stream, n)
    ensures k < n && RunStart(stream, k) <= j < RunStart(stream, k) + stream[2 * k]
    decreases n
  {
    if j < RunStart(stream, n - 1) {
      k := PairOf(stream, n - 1, j);
    } else {
      k := n - 1;
    }
  }

  /** And nothing else is told by them. */
  lemma ExpandedExactly(stream: Bytes, out: Bytes)
    requires |stream| % 2 == 0
    ensures Expanded(stream) == out <==> Tells(stream, out)
  {
    ExpandedTells(stream);
    if Tells(stream, out) {
      var e := Expanded(stream);
      forall j | 0 <= j < |out|
        ensures out[j] == e[j]
      {
        var k := PairOf(stream, |stream| / 2, j);
        assert PairHolds(stream, k, out) && PairHolds(stream, k, e);
      }
    }
  }
}
