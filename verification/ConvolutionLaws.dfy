/** Which weight meets which input: the convolution with a single weight that is not zero. */
module ConvolutionLaws {
  import opened Convolution2d

  lemma SamePlace(a: nat, r: nat, b: nat, q: nat, size: nat)
    requires r < size && q < size && RowAt(a, size) + r == RowAt(b, size) + q
    ensures a == b && r == q
  {
    hide RowAt;
    if a != b {
      RowsApart(a, b, size);
    }
  }

  /** Output channel, input channel, step and tap, the tap being the fastest. */
  lemma WeightAt(s: Shape, i: nat, m: nat, t: nat, h: nat)
    ensures WeightIndex(s, i, m, t, h) == ((i * s.inChannels + m) * s.ktime + t) * s.kheight + h
  {}

  /** Step, input channel and position. */
  lemma InputAt(s: Shape, m: nat, t: nat, h: nat)
    requires s.kheight > 0
    ensures InputIndex(s, m, t, h) == (t * s.inChannels + m) * (s.height + s.kheight - 1) + h
  {}

  lemma OneWeight(s: Shape, i: nat, m: nat, t: nat, h: nat, i': nat, m': nat, t': nat, h': nat)
    requires m < s.inChannels && t < s.ktime && h < s.kheight && m' < s.inChannels && t' < s.ktime && h' < s.kheight
    requires WeightIndex(s, i, m, t, h) == WeightIndex(s, i', m', t', h')
    ensures i == i' && m == m' && t == t' && h == h'
  {
    hide RowAt;
    SamePlace(RowAt(RowAt(i, s.inChannels) + m, s.ktime) + t, h, RowAt(RowAt(i', s.inChannels) + m', s.ktime) + t', h',
              s.kheight);
    SamePlace(RowAt(i, s.inChannels) + m, t, RowAt(i', s.inChannels) + m', t', s.ktime);
    SamePlace(i, m, i', m', s.inChannels);
  }

  /** All weights are 0, except that of one tap, which is 1. */
  ghost predicate OnlyTap(s: Shape, weights: seq<int>, i: nat, m: nat, t: nat, h: nat) {
    && i < s.outChannels && m < s.inChannels && t < s.ktime && h < s.kheight && WeightCount(s) <= |weights|
    && forall w :: 0 <= w < |weights| ==> weights[w] == if w == WeightIndex(s, i, m, t, h) then 1 else 0
  }

  lemma TapIs(s: Shape, weights: seq<int>, input: seq<int>, i: nat, m: nat, t: nat, h: nat,
              i': nat, m': nat, t': nat, h': nat, j: nat)
    requires Ok(s, weights, input) && OnlyTap(s, weights, i, m, t, h)
    requires i' < s.outChannels && m' < s.inChannels && t' < s.ktime && h' < s.kheight && j < s.height
    ensures InputIndex(s, m', t', h') + j < |input|
    ensures Tap(s, weights, input, i', m', t', h', j)
         == if i' == i && m' == m && t' == t && h' == h then input[InputIndex(s, m, t, h) + j] else 0
  {
    hide WeightIndex, InputIndex, WeightCount, InputCount;
    WeightInside(s, i', m', t', h');
    InputInside(s, m', t', h', j);
    if WeightIndex(s, i, m, t, h) == WeightIndex(s, i', m', t', h') {
      OneWeight(s, i, m, t, h, i', m', t', h');
    }
  }

  lemma {:induction false} HeightIs(s: Shape, weights: seq<int>, input: seq<int>, i: nat, m: nat, t: nat, h: nat,
                                    i': nat, m': nat, t': nat, j: nat, n: nat)
    requires Ok(s, weights, input) && OnlyTap(s, weights, i, m, t, h)
    requires i' < s.outChannels && m' < s.inChannels && t' < s.ktime && j < s.height && n <= s.kheight
    ensures InputIndex(s, m, t, h) + j < |input|
    ensures HeightSum(s, weights, input, i', m', t', j, n)
         == if i' == i && m' == m && t' == t && h < n then input[InputIndex(s, m, t, h) + j] else 0
  {
    hide Tap, OnlyTap, Ok, InputIndex;
    TapIs(s, weights, input, i, m, t, h, i, m, t, h, j) by {
      Inside(s, weights, i, m, t, h);
    }
    if n > 0 {
      HeightIs(s, weights, input, i, m, t, h, i', m', t', j, n - 1);
      TapIs(s, weights, input, i, m, t, h, i', m', t', n - 1, j);
    }
  }

  lemma Inside(s: Shape, weights: seq<int>, i: nat, m: nat, t: nat, h: nat)
    requires OnlyTap(s, weights, i, m, t, h)
    ensures i < s.outChannels && m < s.inChannels && t < s.ktime && h < s.kheight
  {}

  lemma {:induction false} TimeIs(s: Shape, weights: seq<int>, input: seq<int>, i: nat, m: nat, t: nat, h: nat,
                                  i': nat, m': nat, j: nat, n: nat)
    requires Ok(s, weights, input) && OnlyTap(s, weights, i, m, t, h)
    requires i' < s.outChannels && m' < s.inChannels && j < s.height && n <= s.ktime
    ensures InputIndex(s, m, t, h) + j < |input|
    ensures TimeSum(s, weights, input, i', m', j, n)
         == if i' == i && m' == m && t < n then input[InputIndex(s, m, t, h) + j] else 0
  {
    hide HeightSum, OnlyTap, Ok, InputIndex;
    Inside(s, weights, i, m, t, h);
    HeightIs(s, weights, input, i, m, t, h, i', m', t, j, 0);
    if n > 0 {
      TimeIs(s, weights, input, i, m, t, h, i', m', j, n - 1);
      HeightIs(s, weights, input, i, m, t, h, i', m', n - 1, j, s.kheight);
    }
  }

  lemma {:induction false} ChannelIs(s: Shape, weights: seq<int>, input: seq<int>, i: nat, m: nat, t: nat, h: nat,
                                     i': nat, j: nat, n: nat)
    requires Ok(s, weights, input) && OnlyTap(s, weights, i, m, t, h)
    requires i' < s.outChannels && j < s.height && n <= s.inChannels
    ensures InputIndex(s, m, t, h) + j < |input|
    ensures ChannelSum(s, weights, input, i', j, n)
         == if i' == i && m < n then input[InputIndex(s, m, t, h) + j] else 0
  {
    hide TimeSum, OnlyTap, Ok, InputIndex;
    Inside(s, weights, i, m, t, h);
    TimeIs(s, weights, input, i, m, t, h, i', m, j, 0);
    if n > 0 {
      ChannelIs(s, weights, input, i, m, t, h, i', j, n - 1);
      TimeIs(s, weights, input, i, m, t, h, i', n - 1, j, s.ktime);
    }
  }

  /** A single weight 1 moves one row of the input to one row of the output, and the other rows are 0. */
  lemma SingleWeight(s: Shape, weights: seq<int>, input: seq<int>, i: nat, m: nat, t: nat, h: nat, i': nat, j: nat)
    requires Ok(s, weights, input) && i < s.outChannels && m < s.inChannels && t < s.ktime && h < s.kheight
    requires forall w :: 0 <= w < |weights| ==>
               weights[w] == if w == ((i * s.inChannels + m) * s.ktime + t) * s.kheight + h then 1 else 0
    requires i' < s.outChannels && j < s.height
    ensures 0 <= (t * s.inChannels + m) * (s.height + s.kheight - 1) + h + j < |input|
    ensures ChannelSum(s, weights, input, i', j, s.inChannels)
         == if i' == i then input[(t * s.inChannels + m) * (s.height + s.kheight - 1) + h + j] else 0
  {
    hide WeightIndex, InputIndex, ChannelSum;
    WeightAt(s, i, m, t, h);
    InputAt(s, m, t, h);
    ChannelIs(s, weights, input, i, m, t, h, i', j, s.inChannels);
  }
}
