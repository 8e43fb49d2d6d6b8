/** The general two-dimensional convolution, and the one that is written out for 3 by 3. Numbers are
    integers. */
module Convolution2d {
  /** Sizes of a layer: the input has `ktime` steps of `inChannels` rows, which are `kheight - 1` longer
      than the rows of the output. */
  datatype Shape = Shape(inChannels: nat, outChannels: nat, ktime: nat, kheight: nat, height: nat, hstride: nat)

  function InStride(s: Shape): nat
    requires s.kheight > 0
  {
    s.height + s.kheight - 1
  }

  /** Where row `k` of rows of size `size` begins. */
  function RowAt(k: nat, size: nat): nat {
    k * size
  }

  lemma RowInside(k: nat, rows: nat, size: nat)
    requires k < rows
    ensures RowAt(k, size) + size <= RowAt(rows, size)
  {
    RowNext(k, size);
    RowOrder(k + 1, rows, size);
  }

  lemma RowNext(k: nat, size: nat)
    ensures RowAt(k + 1, size) == RowAt(k, size) + size
  {}

  lemma RowOrder(k: nat, l: nat, size: nat)
    requires k <= l
    ensures RowAt(k, size) <= RowAt(l, size)
  {
    assert (l - k) * size >= 0;
  }

  lemma RowsApart(k: nat, l: nat, size: nat)
    requires k != l
    ensures RowAt(k, size) + size <= RowAt(l, size) || RowAt(l, size) + size <= RowAt(k, size)
  {
    if k < l {
      RowInside(k, l, size);
    } else {
      RowInside(l, k, size);
    }
  }

  /** The weight of one tap. */
  function WeightIndex(s: Shape, i: nat, m: nat, t: nat, h: nat): nat {
    RowAt(RowAt(RowAt(i, s.inChannels) + m, s.ktime) + t, s.kheight) + h
  }

  /** The first input that the tap meets. */
  function InputIndex(s: Shape, m: nat, t: nat, h: nat): nat
    requires s.kheight > 0
  {
    RowAt(RowAt(t, s.inChannels) + m, InStride(s)) + h
  }

  function WeightCount(s: Shape): nat {
    RowAt(RowAt(RowAt(s.outChannels, s.inChannels), s.ktime), s.kheight)
  }

  function InputCount(s: Shape): nat
    requires s.kheight > 0
  {
    RowAt(RowAt(s.ktime, s.inChannels), InStride(s))
  }

  ghost predicate Ok(s: Shape, weights: seq<int>, input: seq<int>) {
    s.kheight > 0 && WeightCount(s) <= |weights| && InputCount(s) <= |input|
  }

  lemma WeightInside(s: Shape, i: nat, m: nat, t: nat, h: nat)
    requires i < s.outChannels && m < s.inChannels && t < s.ktime && h < s.kheight
    ensures WeightIndex(s, i, m, t, h) < WeightCount(s)
  {
    hide RowAt;
    RowInside(i, s.outChannels, s.inChannels);
    RowInside(RowAt(i, s.inChannels) + m, RowAt(s.outChannels, s.inChannels), s.ktime);
    RowInside(RowAt(RowAt(i, s.inChannels) + m, s.ktime) + t, RowAt(RowAt(s.outChannels, s.inChannels), s.ktime),
              s.kheight);
  }

  lemma InputInside(s: Shape, m: nat, t: nat, h: nat, j: nat)
    requires m < s.inChannels && t < s.ktime && h < s.kheight && j < s.height
    ensures InputIndex(s, m, t, h) + j < InputCount(s)
  {
    hide RowAt;
    RowInside(t, s.ktime, s.inChannels);
    RowInside(RowAt(t, s.inChannels) + m, RowAt(s.ktime, s.inChannels), InStride(s));
  }

  // ----- what a convolution is -----

  /** One tap at output position j. */
  function Tap(s: Shape, weights: seq<int>, input: seq<int>, i: nat, m: nat, t: nat, h: nat, j: nat): int
    requires Ok(s, weights, input) && i < s.outChannels && m < s.inChannels && t < s.ktime && h < s.kheight
    requires j < s.height
  {
    WeightInside(s, i, m, t, h);
    InputInside(s, m, t, h, j);
    weights[WeightIndex(s, i, m, t, h)] * input[InputIndex(s, m, t, h) + j]
  }

  ghost function HeightSum(s: Shape, weights: seq<int>, input: seq<int>, i: nat, m: nat, t: nat, j: nat, n: nat): int
    requires Ok(s, weights, input) && i < s.outChannels && m < s.inChannels && t < s.ktime && j < s.height
    requires n <= s.kheight
  {
    if n == 0 then 0 else HeightSum(s, weights, input, i, m, t, j, n - 1) + Tap(s, weights, input, i, m, t, n - 1, j)
  }

  ghost function TimeSum(s: Shape, weights: seq<int>, input: seq<int>, i: nat, m: nat, j: nat, n: nat): int
    requires Ok(s, weights, input) && i < s.outChannels && m < s.inChannels && j < s.height && n <= s.ktime
  {
    if n == 0 then 0
    else TimeSum(s, weights, input, i, m, j, n - 1) + HeightSum(s, weights, input, i, m, n - 1, j, s.kheight)
  }

  ghost function ChannelSum(s: Shape, weights: seq<int>, input: seq<int>, i: nat, j: nat, n: nat): int
    requires Ok(s, weights, input) && i < s.outChannels && j < s.height && n <= s.inChannels
  {
    if n == 0 then 0
    else ChannelSum(s, weights, input, i, j, n - 1) + TimeSum(s, weights, input, i, n - 1, j, s.ktime)
  }

  /** No row after `i` and before `rows` covers position `k`. */
  ghost predicate LastRow(s: Shape, i: nat, k: int, rows: nat) {
    forall l :: i < l < rows ==> !InRow(s, l, k)
  }

  /** Rows before `rows` hold the convolution, except where a later row covers them; what is between rows or
      behind them is as it was. */
  ghost predicate Convolved(s: Shape, weights: seq<int>, input: seq<int>, out: seq<int>, before: seq<int>, rows: nat)
    requires Ok(s, weights, input) && rows <= s.outChannels
  {
    && |out| == |before|
    && (forall i, j :: 0 <= i < rows && 0 <= j < s.height && LastRow(s, i, RowAt(i, s.hstride) + j, rows) ==>
          OutputIs(s, weights, input, out, i, j))
    && (forall k :: 0 <= k < |out| && (forall i :: 0 <= i < rows ==> !InRow(s, i, k)) ==> out[k] == before[k])
  }

  ghost predicate InRow(s: Shape, i: nat, k: int) {
    RowAt(i, s.hstride) <= k < RowAt(i, s.hstride) + s.height
  }

  ghost predicate OutputIs(s: Shape, weights: seq<int>, input: seq<int>, out: seq<int>, i: nat, j: nat)
    requires Ok(s, weights, input) && i < s.outChannels && j < s.height
  {
    RowAt(i, s.hstride) + j < |out| && out[RowAt(i, s.hstride) + j] == ChannelSum(s, weights, input, i, j, s.inChannels)
  }

  lemma NextRow(s: Shape, weights: seq<int>, input: seq<int>, out: seq<int>, next: seq<int>, before: seq<int>, i: nat)
    requires Ok(s, weights, input) && i < s.outChannels && Convolved(s, weights, input, out, before, i)
    requires |next| == |out| && RowAt(i, s.hstride) + s.height <= |out|
    requires forall j :: 0 <= j < s.height ==> OutputIs(s, weights, input, next, i, j)
    requires forall k :: 0 <= k < |out| && !InRow(s, i, k) ==> next[k] == out[k]
    ensures Convolved(s, weights, input, next, before, i + 1)
  {
    hide RowAt, ChannelSum, Ok;
    forall i', j | 0 <= i' < i + 1 && 0 <= j < s.height && LastRow(s, i', RowAt(i', s.hstride) + j, i + 1)
      ensures OutputIs(s, weights, input, next, i', j)
    {
      if i' < i {
        assert LastRow(s, i', RowAt(i', s.hstride) + j, i);
        assert OutputIs(s, weights, input, out, i', j);
        assert !InRow(s, i, RowAt(i', s.hstride) + j);
      }
    }
    forall k | 0 <= k < |out| && (forall i' :: 0 <= i' < i + 1 ==> !InRow(s, i', k))
      ensures next[k] == before[k]
    {
      assert !InRow(s, i, k);
    }
  }

  /** Rows that are no longer than the stride do not cover each other: all of them hold the convolution. */
  lemma AllRows(s: Shape, weights: seq<int>, input: seq<int>, out: seq<int>, before: seq<int>)
    requires Ok(s, weights, input) && Convolved(s, weights, input, out, before, s.outChannels) && s.height <= s.hstride
    ensures forall i, j :: 0 <= i < s.outChannels && 0 <= j < s.height ==> OutputIs(s, weights, input, out, i, j)
  {
    hide RowAt, ChannelSum, Ok, OutputIs;
    forall i, j | 0 <= i < s.outChannels && 0 <= j < s.height
      ensures OutputIs(s, weights, input, out, i, j)
    {
      var k := RowAt(i, s.hstride) + j;
      forall l | i < l < s.outChannels
        ensures !InRow(s, l, k)
      {
        RowsApart(i, l, s.hstride);
      }
      assert LastRow(s, i, k, s.outChannels);
    }
  }

  // ----- the general form -----

  /** A row of output, while it is being added up. */
  ghost predicate RowIs(out: seq<int>, start: nat, height: nat, sums: seq<int>, before: seq<int>) {
    && |out| == |before| && start + height <= |out| && |sums| == height
    && (forall j :: 0 <= j < height ==> out[start + j] == sums[j])
    && (forall k :: 0 <= k < |out| && !(start <= k < start + height) ==> out[k] == before[k])
  }

  /** The sums after `m` channels, `t` steps and `h` taps. */
  ghost function Sums(s: Shape, weights: seq<int>, input: seq<int>, i: nat, m: nat, t: nat, h: nat): (x: seq<int>)
    requires Ok(s, weights, input) && i < s.outChannels && m < s.inChannels && t < s.ktime && h <= s.kheight
    ensures |x| == s.height
  {
    seq(s.height, j requires 0 <= j < s.height =>
      ChannelSum(s, weights, input, i, j, m) + TimeSum(s, weights, input, i, m, j, t)
      + HeightSum(s, weights, input, i, m, t, j, h))
  }

  ghost function ChannelSums(s: Shape, weights: seq<int>, input: seq<int>, i: nat, m: nat): (x: seq<int>)
    requires Ok(s, weights, input) && i < s.outChannels && m <= s.inChannels
    ensures |x| == s.height
  {
    seq(s.height, j requires 0 <= j < s.height => ChannelSum(s, weights, input, i, j, m))
  }

  method FillRow(out: array<int>, start: nat, height: nat, ghost before: seq<int>)
    requires out[..] == before && start + height <= out.Length
    modifies out
    ensures RowIs(out[..], start, height, seq(height, _ => 0), before)
  {
    forall j | start <= j < start + height {
      out[j] := 0;
    }
  }

  /** Adds one tap to a row. */
  method AddTap(out: array<int>, start: nat, height: nat, weight: int, input: seq<int>, inputBase: nat,
                ghost sums: seq<int>, ghost next: seq<int>, ghost before: seq<int>)
    requires RowIs(out[..], start, height, sums, before) && inputBase + height <= |input|
    requires |next| == height && forall j :: 0 <= j < height ==> next[j] == sums[j] + weight * input[inputBase + j]
    modifies out
    ensures RowIs(out[..], start, height, next, before)
  {
    for j := 0 to height
      invariant forall k :: 0 <= k < out.Length ==> start <= k < start + height || out[k] == before[k]
      invariant forall k :: 0 <= k < height ==> out[start + k] == if k < j then next[k] else sums[k]
    {
      out[start + j] := out[start + j] + weight * input[inputBase + j];
    }
  }

  ghost function TimeSums(s: Shape, weights: seq<int>, input: seq<int>, i: nat, m: nat, t: nat): (x: seq<int>)
    requires Ok(s, weights, input) && i < s.outChannels && m < s.inChannels && t <= s.ktime
    ensures |x| == s.height
  {
    seq(s.height, j requires 0 <= j < s.height =>
      ChannelSum(s, weights, input, i, j, m) + TimeSum(s, weights, input, i, m, j, t))
  }

  lemma FirstSums(s: Shape, weights: seq<int>, input: seq<int>, i: nat)
    requires Ok(s, weights, input) && i < s.outChannels
    ensures ChannelSums(s, weights, input, i, 0) == seq(s.height, _ => 0)
  {}

  lemma FirstTime(s: Shape, weights: seq<int>, input: seq<int>, i: nat, m: nat)
    requires Ok(s, weights, input) && i < s.outChannels && m < s.inChannels
    ensures TimeSums(s, weights, input, i, m, 0) == ChannelSums(s, weights, input, i, m)
    ensures TimeSums(s, weights, input, i, m, s.ktime) == ChannelSums(s, weights, input, i, m + 1)
  {}

  lemma FirstTap(s: Shape, weights: seq<int>, input: seq<int>, i: nat, m: nat, t: nat)
    requires Ok(s, weights, input) && i < s.outChannels && m < s.inChannels && t < s.ktime
    ensures Sums(s, weights, input, i, m, t, 0) == TimeSums(s, weights, input, i, m, t)
    ensures Sums(s, weights, input, i, m, t, s.kheight) == TimeSums(s, weights, input, i, m, t + 1)
  {}

  lemma NextTap(s: Shape, weights: seq<int>, input: seq<int>, i: nat, m: nat, t: nat, h: nat)
    requires Ok(s, weights, input) && i < s.outChannels && m < s.inChannels && t < s.ktime && h < s.kheight
    ensures WeightIndex(s, i, m, t, h) < |weights| && InputIndex(s, m, t, h) + s.height <= |input|
    ensures forall j :: 0 <= j < s.height ==>
              Sums(s, weights, input, i, m, t, h + 1)[j]
              == Sums(s, weights, input, i, m, t, h)[j]
              + weights[WeightIndex(s, i, m, t, h)] * input[InputIndex(s, m, t, h) + j]
  {
    hide WeightIndex, InputIndex, WeightCount, InputCount, ChannelSum, TimeSum;
    WeightInside(s, i, m, t, h);
    InputRowInside(s, m, t, h);
    forall j | 0 <= j < s.height
      ensures Sums(s, weights, input, i, m, t, h + 1)[j]
           == Sums(s, weights, input, i, m, t, h)[j] + Tap(s, weights, input, i, m, t, h, j)
    {
    }
  }

  lemma InputRowInside(s: Shape, m: nat, t: nat, h: nat)
    requires m < s.inChannels && t < s.ktime && h < s.kheight
    ensures InputIndex(s, m, t, h) + s.height <= InputCount(s)
  {
    hide RowAt;
    RowInside(t, s.ktime, s.inChannels);
    RowInside(RowAt(t, s.inChannels) + m, RowAt(s.ktime, s.inChannels), InStride(s));
  }

  method ConvRow(out: array<int>, s: Shape, weights: seq<int>, input: seq<int>, i: nat, start: nat,
                 ghost before: seq<int>)
    requires Ok(s, weights, input) && i < s.outChannels
    requires RowIs(out[..], start, s.height, ChannelSums(s, weights, input, i, 0), before)
    modifies out
    ensures RowIs(out[..], start, s.height, ChannelSums(s, weights, input, i, s.inChannels), before)
  {
    hide RowIs, Sums, TimeSums, ChannelSums, WeightIndex, InputIndex;
    for m := 0 to s.inChannels
      invariant RowIs(out[..], start, s.height, ChannelSums(s, weights, input, i, m), before)
    {
      FirstTime(s, weights, input, i, m);
      for t := 0 to s.ktime
        invariant RowIs(out[..], start, s.height, TimeSums(s, weights, input, i, m, t), before)
      {
        FirstTap(s, weights, input, i, m, t);
        for h := 0 to s.kheight
          invariant RowIs(out[..], start, s.height, Sums(s, weights, input, i, m, t, h), before)
        {
          NextTap(s, weights, input, i, m, t, h);
          var weight := weights[WeightIndex(s, i, m, t, h)];
          AddTap(out, start, s.height, weight, input, InputIndex(s, m, t, h),
                 Sums(s, weights, input, i, m, t, h), Sums(s, weights, input, i, m, t, h + 1), before);
        }
      }
    }
  }

  lemma RowDone(s: Shape, weights: seq<int>, input: seq<int>, out: seq<int>, next: seq<int>, before: seq<int>, i: nat)
    requires Ok(s, weights, input) && i < s.outChannels && Convolved(s, weights, input, out, before, i)
    requires RowIs(next, RowAt(i, s.hstride), s.height, ChannelSums(s, weights, input, i, s.inChannels), out)
    ensures Convolved(s, weights, input, next, before, i + 1)
  {
    hide RowAt, ChannelSum, Ok, Convolved;
    SameSize(s, weights, input, out, before, i);
    forall j | 0 <= j < s.height
      ensures OutputIs(s, weights, input, next, i, j)
    {
      assert ChannelSums(s, weights, input, i, s.inChannels)[j] == ChannelSum(s, weights, input, i, j, s.inChannels);
    }
    NextRow(s, weights, input, out, next, before, i);
  }

  lemma SameSize(s: Shape, weights: seq<int>, input: seq<int>, out: seq<int>, before: seq<int>, rows: nat)
    requires Ok(s, weights, input) && rows <= s.outChannels && Convolved(s, weights, input, out, before, rows)
    ensures |out| == |before|
  {}

  /** The last row of output, and with it every row, lies in a buffer of that length. */
  predicate RowsFit(s: Shape, length: nat) {
    s.outChannels > 0 ==> RowAt(s.outChannels - 1, s.hstride) + s.height <= length
  }

  lemma RowFits(s: Shape, i: nat, length: nat)
    requires i < s.outChannels && RowsFit(s, length)
    ensures RowAt(i, s.hstride) + s.height <= length
  {
    RowOrder(i, s.outChannels - 1, s.hstride);
  }

  /** A whole stride for every row is no more than the rows need, whatever the buffer, if and only if there
      are no rows or they are at least as long as the stride. */
  lemma StrideNeeded(s: Shape)
    ensures (forall length: nat :: RowsFit(s, length) ==> RowAt(s.outChannels, s.hstride) <= length)
       <==> s.outChannels == 0 || s.hstride <= s.height
  {
    if s.outChannels > 0 {
      var needed := RowAt(s.outChannels - 1, s.hstride) + s.height;
      RowNext(s.outChannels - 1, s.hstride);
      assert RowsFit(s, needed);
    }
  }

  /** Rows of 224 values that are 226 apart, behind the first value of a buffer for 8 times 226: up to 8 of
      them fit, and only for 8 would a whole stride for every row not fit. */
  lemma PitchRows(s: Shape)
    requires s.outChannels <= 8 && s.height == 224 && s.hstride == 226
    ensures RowsFit(s, 8 * 226 - 1)
    ensures RowAt(s.outChannels, s.hstride) > 8 * 226 - 1 <==> s.outChannels == 8
  {}

  lemma NothingConvolved(s: Shape, weights: seq<int>, input: seq<int>, out: seq<int>)
    requires Ok(s, weights, input)
    ensures Convolved(s, weights, input, out, out, 0)
  {}

  /** The convolution for any kernel. */
  method Conv2dFloat(out: array<int>, s: Shape, weights: seq<int>, input: seq<int>)
    requires Ok(s, weights, input) && RowsFit(s, out.Length)
    modifies out
    ensures Convolved(s, weights, input, out[..], old(out[..]), s.outChannels)
  {
    hide RowIs, ChannelSums, Convolved, RowAt, WeightCount, InputCount;
    ghost var before := out[..];
    NothingConvolved(s, weights, input, before);
    for i := 0 to s.outChannels
      invariant Convolved(s, weights, input, out[..], before, i)
    {
      ghost var now := out[..];
      RowFits(s, i, out.Length);
      FirstSums(s, weights, input, i);
      FillRow(out, RowAt(i, s.hstride), s.height, now);
      ConvRow(out, s, weights, input, i, RowAt(i, s.hstride), now);
      RowDone(s, weights, input, now, out[..], before, i);
    }
  }

  // ----- 3 by 3 -----

  /** The nine terms of the written-out form. */
  function NineTerms(weights: seq<int>, input: seq<int>, weightBase: nat, inputBase: nat, step: nat): int
    requires weightBase + 9 <= |weights| && inputBase + 2 * step + 3 <= |input|
  {
    weights[weightBase] * input[inputBase]
    + weights[weightBase + 1] * input[inputBase + 1]
    + weights[weightBase + 2] * input[inputBase + 2]
    + weights[weightBase + 3] * input[inputBase + step]
    + weights[weightBase + 4] * input[inputBase + step + 1]
    + weights[weightBase + 5] * input[inputBase + step + 2]
    + weights[weightBase + 6] * input[inputBase + 2 * step]
    + weights[weightBase + 7] * input[inputBase + 2 * step + 1]
    + weights[weightBase + 8] * input[inputBase + 2 * step + 2]
  }

  lemma WeightNine(s: Shape, i: nat, m: nat, t: nat, h: nat)
    requires s.ktime == 3 && s.kheight == 3
    ensures WeightIndex(s, i, m, t, h) == (i * s.inChannels + m) * 3 * 3 + 3 * t + h
  {}

  lemma InputNine(s: Shape, m: nat, t: nat, h: nat)
    requires s.kheight == 3 && t < 3
    ensures InputIndex(s, m, t, h) == m * InStride(s) + t * (s.inChannels * InStride(s)) + h
  {
    var p := s.inChannels * InStride(s);
    assert (t * s.inChannels + m) * InStride(s) == t * s.inChannels * InStride(s) + m * InStride(s);
    assert t * s.inChannels * InStride(s) == t * p;
  }

  lemma TapNine(s: Shape, weights: seq<int>, input: seq<int>, i: nat, m: nat, t: nat, h: nat, j: nat)
    requires Ok(s, weights, input) && s.ktime == 3 && s.kheight == 3
    requires i < s.outChannels && m < s.inChannels && t < 3 && h < 3 && j < s.height
    ensures var w, x := (i * s.inChannels + m) * 3 * 3 + 3 * t + h,
                        m * InStride(s) + j + t * (s.inChannels * InStride(s)) + h;
            0 <= w < |weights| && 0 <= x < |input| && Tap(s, weights, input, i, m, t, h, j) == weights[w] * input[x]
  {
    hide RowAt, WeightIndex, InputIndex, WeightCount, InputCount;
    WeightInside(s, i, m, t, h);
    InputInside(s, m, t, h, j);
    WeightNine(s, i, m, t, h);
    InputNine(s, m, t, h);
  }

  /** Where the nine terms of one channel are. */
  lemma NineInside(s: Shape, weights: seq<int>, input: seq<int>, i: nat, m: nat, j: nat)
    requires Ok(s, weights, input) && s.ktime == 3 && s.kheight == 3
    requires i < s.outChannels && m < s.inChannels && j < s.height
    ensures var base, inputBase, step := (i * s.inChannels + m) * 3 * 3, m * InStride(s) + j,
                                         s.inChannels * InStride(s);
            0 <= base && base + 9 <= |weights| && 0 <= inputBase && 0 <= step && inputBase + 2 * step + 3 <= |input|
  {
    hide Ok, Tap;
    TapNine(s, weights, input, i, m, 2, 2, j);
  }

  /** All taps of one channel are the nine terms. */
  lemma NineTaps(s: Shape, weights: seq<int>, input: seq<int>, i: nat, m: nat, j: nat)
    requires Ok(s, weights, input) && s.ktime == 3 && s.kheight == 3
    requires i < s.outChannels && m < s.inChannels && j < s.height
    requires var base, inputBase, step := (i * s.inChannels + m) * 3 * 3, m * InStride(s) + j,
                                          s.inChannels * InStride(s);
             0 <= base && base + 9 <= |weights| && 0 <= inputBase && 0 <= step && inputBase + 2 * step + 3 <= |input|
    ensures TimeSum(s, weights, input, i, m, j, 3)
         == NineTerms(weights, input, (i * s.inChannels + m) * 3 * 3, m * InStride(s) + j, s.inChannels * InStride(s))
  {
    hide Ok, Tap, InStride;
    ThreeTaps(s, weights, input, i, m, 0, j);
    ThreeTaps(s, weights, input, i, m, 1, j);
    ThreeTaps(s, weights, input, i, m, 2, j);
    assert TimeSum(s, weights, input, i, m, j, 2)
        == TimeSum(s, weights, input, i, m, j, 1) + HeightSum(s, weights, input, i, m, 1, j, 3);
    assert TimeSum(s, weights, input, i, m, j, 1) == HeightSum(s, weights, input, i, m, 0, j, 3);
  }

  lemma TapAt(s: Shape, weights: seq<int>, input: seq<int>, i: nat, m: nat, t: nat, h: nat, j: nat, w: int, x: int)
    requires Ok(s, weights, input) && s.ktime == 3 && s.kheight == 3
    requires i < s.outChannels && m < s.inChannels && t < 3 && h < 3 && j < s.height
    requires w == (i * s.inChannels + m) * 3 * 3 + 3 * t && x == m * InStride(s) + j + t * (s.inChannels * InStride(s))
    ensures 0 <= w + h < |weights| && 0 <= x + h < |input|
    ensures Tap(s, weights, input, i, m, t, h, j) == weights[w + h] * input[x + h]
    ensures h == 0 ==> w >= 0 && x >= 0
  {
    hide Ok, Tap, InStride;
    TapNine(s, weights, input, i, m, t, h, j);
  }

  /** Three taps of one step. */
  lemma ThreeTaps(s: Shape, weights: seq<int>, input: seq<int>, i: nat, m: nat, t: nat, j: nat)
    requires Ok(s, weights, input) && s.ktime == 3 && s.kheight == 3
    requires i < s.outChannels && m < s.inChannels && t < 3 && j < s.height
    ensures var w, x := (i * s.inChannels + m) * 3 * 3 + 3 * t, m * InStride(s) + j + t * (s.inChannels * InStride(s));
            && 0 <= w && w + 3 <= |weights| && 0 <= x && x + 3 <= |input|
            && HeightSum(s, weights, input, i, m, t, j, 3)
               == weights[w] * input[x] + weights[w + 1] * input[x + 1] + weights[w + 2] * input[x + 2]
  {
    hide Ok, Tap, InStride;
    var w, x := (i * s.inChannels + m) * 3 * 3 + 3 * t, m * InStride(s) + j + t * (s.inChannels * InStride(s));
    TapAt(s, weights, input, i, m, t, 0, j, w, x);
    TapAt(s, weights, input, i, m, t, 1, j, w, x);
    TapAt(s, weights, input, i, m, t, 2, j, w, x);
    assert HeightSum(s, weights, input, i, m, t, j, 2)
        == HeightSum(s, weights, input, i, m, t, j, 1) + Tap(s, weights, input, i, m, t, 1, j);
  }

  /** Adds the nine terms of one channel to a row. */
  method AddNine(out: array<int>, s: Shape, weights: seq<int>, input: seq<int>, i: nat, m: nat, start: nat,
                 ghost before: seq<int>)
    requires Ok(s, weights, input) && s.ktime == 3 && s.kheight == 3 && i < s.outChannels && m < s.inChannels
    requires RowIs(out[..], start, s.height, ChannelSums(s, weights, input, i, m), before)
    modifies out
    ensures RowIs(out[..], start, s.height, ChannelSums(s, weights, input, i, m + 1), before)
  {
    hide Ok, InStride, NineTerms, TimeSum;
    ghost var sums, next := ChannelSums(s, weights, input, i, m), ChannelSums(s, weights, input, i, m + 1);
    for j := 0 to s.height
      invariant start + s.height <= out.Length == |before|
      invariant forall k :: 0 <= k < out.Length ==> start <= k < start + s.height || out[k] == before[k]
      invariant forall k :: 0 <= k < s.height ==> out[start + k] == if k < j then next[k] else sums[k]
    {
      NineInside(s, weights, input, i, m, j);
      NineTaps(s, weights, input, i, m, j);
      var weightBase := (i * s.inChannels + m) * 3 * 3;
      var inputBase := m * InStride(s) + j;
      out[start + j] := out[start + j] + NineTerms(weights, input, weightBase, inputBase, s.inChannels * InStride(s));
    }
  }

  /** The convolution written out for 3 by 3 gives what the general one gives. */
  method Conv2d3x3Float(out: array<int>, s: Shape, weights: seq<int>, input: seq<int>)
    requires Ok(s, weights, input) && RowsFit(s, out.Length) && s.ktime == 3 && s.kheight == 3
    modifies out
    ensures Convolved(s, weights, input, out[..], old(out[..]), s.outChannels)
  {
    hide RowIs, ChannelSums, Convolved, RowAt, WeightCount, InputCount;
    ghost var before := out[..];
    NothingConvolved(s, weights, input, before);
    for i := 0 to s.outChannels
      invariant Convolved(s, weights, input, out[..], before, i)
    {
      ghost var now := out[..];
      RowFits(s, i, out.Length);
      FirstSums(s, weights, input, i);
      FillRow(out, RowAt(i, s.hstride), s.height, now);
      for m := 0 to s.inChannels
        invariant RowIs(out[..], RowAt(i, s.hstride), s.height, ChannelSums(s, weights, input, i, m), now)
      {
        AddNine(out, s, weights, input, i, m, RowAt(i, s.hstride), now);
      }
      RowDone(s, weights, input, now, out[..], before, i);
    }
  }

  lemma {:induction false} LastCover(s: Shape, k: int, rows: nat, l: nat) returns (i: nat)
    requires l < rows && InRow(s, l, k)
    ensures i < rows && InRow(s, i, k) && LastRow(s, i, k, rows)
  {
    if InRow(s, rows - 1, k) {
      return rows - 1;
    }
    i := LastCover(s, k, rows - 1, l);
  }

  /** The convolution determines the output: the two methods cannot differ. */
  lemma ConvolvedOnce(s: Shape, weights: seq<int>, input: seq<int>, a: seq<int>, b: seq<int>, before: seq<int>)
    requires Ok(s, weights, input) && Convolved(s, weights, input, a, before, s.outChannels)
    requires Convolved(s, weights, input, b, before, s.outChannels)
    ensures a == b
  {
    hide RowAt, ChannelSum, Ok;
    forall k | 0 <= k < |a|
      ensures a[k] == b[k]
    {
      if l: nat :| l < s.outChannels && InRow(s, l, k) {
        var i := LastCover(s, k, s.outChannels, l);
        assert RowAt(i, s.hstride) + (k - RowAt(i, s.hstride)) == k;
        assert OutputIs(s, weights, input, a, i, k - RowAt(i, s.hstride));
        assert OutputIs(s, weights, input, b, i, k - RowAt(i, s.hstride));
      }
    }
  }
}
