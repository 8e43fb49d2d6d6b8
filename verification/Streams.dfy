/** The end of a stream of samples that began with silence. */
module Streams {
  function Zeros(n: nat): (z: seq<real>)
    ensures |z| == n
  {
    seq(n, _ => 0.0)
  }

  /** The last `n` samples of the stream `s`, preceded by zeros. */
  function Last(n: nat, s: seq<real>): (t: seq<real>)
    ensures |t| == n
  {
    if |s| >= n then s[|s| - n..] else Zeros(n - |s|) + s
  }

  lemma LastAt(n: nat, s: seq<real>, k: nat)
    requires k < n
    ensures Last(n, s)[k] == if k + |s| >= n then s[k + |s| - n] else 0.0
  {}

  /** What is kept after more samples have arrived. */
  lemma LastOn(n: nat, s: seq<real>, x: seq<real>)
    ensures |x| <= n ==> Last(n, s + x) == Last(n, s)[|x|..] + x
    ensures |x| >= n ==> Last(n, s + x) == x[|x| - n..]
  {
    hide Last;
    forall k | 0 <= k < n
      ensures Last(n, s + x)[k] == if k + |x| >= n then x[k + |x| - n] else Last(n, s)[k + |x|]
    {
      LastOnAt(n, s, x, k);
    }
  }

  lemma LastOnAt(n: nat, s: seq<real>, x: seq<real>, k: nat)
    requires k < n
    ensures Last(n, s + x)[k] == if k + |x| >= n then x[k + |x| - n] else Last(n, s)[k + |x|]
  {
    LastAt(n, s + x, k);
    if k + |x| < n {
      LastAt(n, s, k + |x|);
    }
  }

  /** A shorter history is the end of a longer one. */
  lemma LastOfLast(m: nat, n: nat, s: seq<real>)
    requires m <= n
    ensures Last(n, s)[n - m..] == Last(m, s)
  {
    forall k | 0 <= k < m
      ensures Last(n, s)[n - m + k] == Last(m, s)[k]
    {
      LastAt(n, s, n - m + k);
      LastAt(m, s, k);
    }
  }

  /** Copies within an array, as if through a buffer. */
  method CopyWithin(a: array<real>, from: nat, to: nat, dest: nat)
    requires from <= to <= a.Length && dest + (to - from) <= a.Length
    modifies a
    ensures a[..] == old(a[..dest]) + old(a[from..to]) + old(a[dest + (to - from)..])
  {
    forall k | 0 <= k < to - from {
      a[dest + k] := a[from + k];
    }
  }

  /** Copies a sequence into an array. */
  method CopyTo(a: array<real>, dest: nat, s: seq<real>)
    requires dest + |s| <= a.Length
    modifies a
    ensures a[..] == old(a[..dest]) + s + old(a[dest + |s|..])
  {
    forall k | 0 <= k < |s| {
      a[dest + k] := s[k];
    }
  }
}
