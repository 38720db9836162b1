/** Sample arithmetic shared by every part of the model.

  A signal is a sequence of samples. The source stores float32 samples; the
  model uses `real`, so sums are exact and the order in which partial sums are
  added does not matter.
 */
module Signals {

  /** The "no candidate yet" score of the MSE search (`LARGE_VAL`, 1e20). */
  const LargeVal: real := 100000000000000000000.0

  /** `my_max` on `size_t`. */
  function Max(x: nat, y: nat): (r: nat)
    ensures x <= r && y <= r && (r == x || r == y)
  {
    if x > y then x else y
  }

  /** `my_min` on `size_t`. */
  function Min(x: nat, y: nat): (r: nat)
    ensures r <= x && r <= y && (r == x || r == y)
  {
    if x < y then x else y
  }

  /** `my_min3`: the least of three lengths. */
  function Min3(x: nat, y: nat, z: nat): (r: nat)
    ensures r <= x && r <= y && r <= z && (r == x || r == y || r == z)
  {
    Min(Min(x, y), z)
  }

  function Sq(x: real): real {
    x * x
  }

  /** Sum of squared differences of the first `n` sample pairs. */
  function SumSq(a: seq<real>, b: seq<real>, n: nat): real
    requires n <= |a| && n <= |b|
  {
    if n == 0 then 0.0 else SumSq(a, b, n - 1) + Sq(a[n - 1] - b[n - 1])
  }

  /** Mean squared error of the first `n` sample pairs. */
  function Mse(a: seq<real>, b: seq<real>, n: nat): real
    requires 0 < n <= |a| && n <= |b|
  {
    SumSq(a, b, n) / (n as real)
  }

  function Zeros(n: nat): (z: seq<real>)
    ensures |z| == n
    ensures forall k :: 0 <= k < n ==> z[k] == 0.0
  {
    seq(n, _ => 0.0)
  }

  /** Polarity inversion: every sample negated. */
  function Negate(s: seq<real>): (r: seq<real>)
    ensures |r| == |s|
    ensures forall k :: 0 <= k < |s| ==> r[k] == -s[k]
  {
    seq(|s|, k requires 0 <= k < |s| => -s[k])
  }

  lemma NegateInvolution(s: seq<real>)
    ensures Negate(Negate(s)) == s
  {
  }

  lemma {:induction false} SumSqNonnegative(a: seq<real>, b: seq<real>, n: nat)
    requires n <= |a| && n <= |b|
    ensures SumSq(a, b, n) >= 0.0
  {
    if n > 0 {
      SumSqNonnegative(a, b, n - 1);
    }
  }

  /** Partial sums of squares never decrease as more pairs are added. */
  lemma {:induction false} SumSqMonotone(a: seq<real>, b: seq<real>, m: nat, n: nat)
    requires m <= n <= |a| && n <= |b|
    ensures SumSq(a, b, m) <= SumSq(a, b, n)
  {
    if m < n {
      SumSqMonotone(a, b, m, n - 1);
    }
  }

  /** The squared difference does not depend on which signal comes first. */
  lemma {:induction false} SumSqSymmetric(a: seq<real>, b: seq<real>, n: nat)
    requires n <= |a| && n <= |b|
    ensures SumSq(a, b, n) == SumSq(b, a, n)
  {
    if n > 0 {
      SumSqSymmetric(a, b, n - 1);
    }
  }

  lemma MseNonnegative(a: seq<real>, b: seq<real>, n: nat)
    requires 0 < n <= |a| && n <= |b|
    ensures Mse(a, b, n) >= 0.0
  {
    SumSqNonnegative(a, b, n);
  }

  /** Identical windows have zero error. */
  lemma {:induction false} SumSqSelf(a: seq<real>, n: nat)
    requires n <= |a|
    ensures SumSq(a, a, n) == 0.0
  {
    if n > 0 {
      SumSqSelf(a, n - 1);
    }
  }

  /** Inverting one signal scores like inverting the other: `(-x) - y` and
      `x - (-y)` differ only in sign. */
  lemma {:induction false} SumSqMirror(a: seq<real>, b: seq<real>, n: nat)
    requires n <= |a| && n <= |b|
    ensures SumSq(Negate(a), b, n) == SumSq(a, Negate(b), n)
  {
    if n > 0 {
      SumSqMirror(a, b, n - 1);
    }
  }
}
