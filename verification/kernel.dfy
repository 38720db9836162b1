/** The windowed mean-squared-error kernel `fastmse` of fast_align_audio/_faa.c.

  The C code accumulates squared differences in an 8-lane vector, one block
  of 8 sample pairs at a time. After every block that starts at an index `i`
  with `i % 100 == 96` it adds the lanes up and gives up early, returning
  `LargeVal`, when the partial mean already reaches the caller's threshold.
  The tail shorter than one block is added by a scalar loop.
 */
module Kernel {
  import opened Signals

  /** Number of float lanes of one `__m256` vector. */
  const Lanes: nat := 8

  /** `sum_m256`: the lanes of one vector added one after another. */
  function SumM256(v: seq<real>): real
    requires |v| == Lanes
  {
    0.0 + v[0] + v[1] + v[2] + v[3] + v[4] + v[5] + v[6] + v[7]
  }

  /** `_mm256_sub_ps` on the 8 pairs starting at `i`. */
  function SubPs(a: seq<real>, b: seq<real>, i: nat): (r: seq<real>)
    requires i + Lanes <= |a| && i + Lanes <= |b|
    ensures |r| == Lanes && forall j :: 0 <= j < Lanes ==> r[j] == a[i + j] - b[i + j]
  {
    seq(Lanes, j requires 0 <= j < Lanes => a[i + j] - b[i + j])
  }

  /** `_mm256_mul_ps`: lane-wise product. */
  function MulPs(x: seq<real>, y: seq<real>): (r: seq<real>)
    requires |x| == Lanes && |y| == Lanes
    ensures |r| == Lanes && forall j :: 0 <= j < Lanes ==> r[j] == x[j] * y[j]
  {
    seq(Lanes, j requires 0 <= j < Lanes => x[j] * y[j])
  }

  /** `_mm256_add_ps`: lane-wise sum. */
  function AddPs(x: seq<real>, y: seq<real>): (r: seq<real>)
    requires |x| == Lanes && |y| == Lanes
    ensures |r| == Lanes && forall j :: 0 <= j < Lanes ==> r[j] == x[j] + y[j]
  {
    seq(Lanes, j requires 0 <= j < Lanes => x[j] + y[j])
  }

  /** One pass of the block loop body: `total + (a[i..i+8] - b[i..i+8])^2`, lane by lane. */
  function AddSquares(total: seq<real>, a: seq<real>, b: seq<real>, i: nat): (r: seq<real>)
    requires |total| == Lanes && i + Lanes <= |a| && i + Lanes <= |b|
    ensures |r| == Lanes
  {
    var res := SubPs(a, b, i);
    AddPs(total, MulPs(res, res))
  }

  /** The squared differences of the first `n` pairs, one term per pair. */
  function Terms(a: seq<real>, b: seq<real>, n: nat): (t: seq<real>)
    requires n <= |a| && n <= |b|
    ensures |t| == n
  {
    seq(n, k requires 0 <= k < n => Sq(a[k] - b[k]))
  }

  /** Sum of the first `k` terms, added left to right. */
  function Sum(t: seq<real>, k: nat): real
    requires k <= |t|
  {
    if k == 0 then 0.0 else Sum(t, k - 1) + t[k - 1]
  }

  /** Summing the terms is summing the squared differences. */
  lemma {:induction false} SumOfTerms(a: seq<real>, b: seq<real>, n: nat, k: nat)
    requires k <= n <= |a| && n <= |b|
    ensures Sum(Terms(a, b, n), k) == SumSq(a, b, k)
  {
    if k > 0 {
      SumOfTerms(a, b, n, k - 1);
    }
  }

  /** Adding one block's squares to the 8 lanes adds the block's 8 terms to
      the lanes' total: the lanes only regroup the plain sum. */
  lemma BlockAddsTerms(total: seq<real>, a: seq<real>, b: seq<real>, n: nat, i: nat)
    requires |total| == Lanes && i + Lanes <= n <= |a| && n <= |b|
    ensures SumM256(AddSquares(total, a, b, i)) - SumM256(total)
         == Sum(Terms(a, b, n), i + 8) - Sum(Terms(a, b, n), i)
  {
    var t := Terms(a, b, n);
    var res := SubPs(a, b, i);
    var r := AddSquares(total, a, b, i);
    assert r[0] == total[0] + t[i] by { assert t[i] == res[0] * res[0]; }
    assert r[1] == total[1] + t[i + 1] by { assert t[i + 1] == res[1] * res[1]; }
    assert r[2] == total[2] + t[i + 2] by { assert t[i + 2] == res[2] * res[2]; }
    assert r[3] == total[3] + t[i + 3] by { assert t[i + 3] == res[3] * res[3]; }
    assert r[4] == total[4] + t[i + 4] by { assert t[i + 4] == res[4] * res[4]; }
    assert r[5] == total[5] + t[i + 5] by { assert t[i + 5] == res[5] * res[5]; }
    assert r[6] == total[6] + t[i + 6] by { assert t[i + 6] == res[6] * res[6]; }
    assert r[7] == total[7] + t[i + 7] by { assert t[i + 7] == res[7] * res[7]; }
    assert Sum(t, i + 8) == Sum(t, i + 7) + t[i + 7];
    assert Sum(t, i + 7) == Sum(t, i + 6) + t[i + 6];
    assert Sum(t, i + 6) == Sum(t, i + 5) + t[i + 5];
    assert Sum(t, i + 5) == Sum(t, i + 4) + t[i + 4];
    assert Sum(t, i + 4) == Sum(t, i + 3) + t[i + 3];
    assert Sum(t, i + 3) == Sum(t, i + 2) + t[i + 2];
    assert Sum(t, i + 2) == Sum(t, i + 1) + t[i + 1];
    assert Sum(t, i + 1) == Sum(t, i) + t[i];
  }

  /** The block starting at index `i` is followed by the early-abort check. */
  predicate IsCheckpoint(i: nat)
  {
    i % 100 == 96
  }

  /** A checkpoint of the block loop at which the kernel gives up: block `q`
      (the pairs `8 * q` .. `8 * q + 7`) lies inside the window, starts at an
      index `8 * q` with `8 * q % 100 == 96`, and the mean over `n` of the
      squared differences up to and including that block reaches `threshold`. */
  predicate AbortsAt(threshold: real, n: nat, a: seq<real>, b: seq<real>, q: nat)
  {
    && 0 < n <= |a| && n <= |b|
    && 8 * q + 8 <= n
    && IsCheckpoint(8 * q)
    && SumSq(a, b, 8 * q + 8) / (n as real) >= threshold
  }

  /** Some checkpoint of the window gives up. */
  ghost predicate Aborts(threshold: real, n: nat, a: seq<real>, b: seq<real>)
  {
    exists q: nat :: AbortsAt(threshold, n, a, b, q)
  }

  /** None of the blocks `0 .. m - 1` is an abort checkpoint. */
  predicate NoAbortBefore(threshold: real, n: nat, a: seq<real>, b: seq<real>, m: nat)
  {
    m == 0 || (NoAbortBefore(threshold, n, a, b, m - 1) && !AbortsAt(threshold, n, a, b, m - 1))
  }

  lemma {:induction false} NoAbortBeforeMeans(threshold: real, n: nat, a: seq<real>, b: seq<real>, m: nat, q: nat)
    requires NoAbortBefore(threshold, n, a, b, m) && q < m
    ensures !AbortsAt(threshold, n, a, b, q)
  {
    if q < m - 1 {
      NoAbortBeforeMeans(threshold, n, a, b, m - 1, q);
    }
  }

  /** When the block loop ran to its end without giving up, no checkpoint exists. */
  lemma NoCheckpointFires(threshold: real, n: nat, a: seq<real>, b: seq<real>, m: nat)
    requires 0 < n <= |a| && n <= |b|
    requires 8 * m <= n < 8 * m + 8
    requires NoAbortBefore(threshold, n, a, b, m)
    ensures !Aborts(threshold, n, a, b)
  {
    forall q: nat | AbortsAt(threshold, n, a, b, q)
      ensures false
    {
      NoAbortBeforeMeans(threshold, n, a, b, m, q);
    }
  }

  /** An abort only happens when the exact MSE is no better than the threshold,
      because partial sums of squares only grow. */
  lemma AbortIsSound(threshold: real, n: nat, a: seq<real>, b: seq<real>)
    requires 0 < n <= |a| && n <= |b|
    ensures Aborts(threshold, n, a, b) ==> Mse(a, b, n) >= threshold
  {
    if Aborts(threshold, n, a, b) {
      var q: nat :| AbortsAt(threshold, n, a, b, q);
      SumSqMonotone(a, b, 8 * q + 8, n);
      DivideMonotone(SumSq(a, b, 8 * q + 8), SumSq(a, b, n), n as real);
    }
  }

  lemma DivideMonotone(x: real, y: real, d: real)
    requires x <= y && d > 0.0
    ensures x / d <= y / d
  {
  }

  /** One pass of the block loop of `fastmse` over the block starting at `i`:
      the lanes' total advances by the block's squared differences, and the
      early-abort check after it fires exactly when the block is an abort
      checkpoint. */
  method AddBlock(threshold: real, n: nat, a: seq<real>, b: seq<real>, total: seq<real>, i: nat, ghost m: nat)
    returns (next: seq<real>, fires: bool)
    requires 0 < n <= |a| && n <= |b| && i == 8 * m && i + 8 <= n
    requires |total| == Lanes && SumM256(total) == Sum(Terms(a, b, n), i)
    requires NoAbortBefore(threshold, n, a, b, m)
    ensures |next| == Lanes && SumM256(next) == Sum(Terms(a, b, n), i + 8)
    ensures fires ==> Aborts(threshold, n, a, b)
    ensures !fires ==> NoAbortBefore(threshold, n, a, b, m + 1)
  {
    BlockAddsTerms(total, a, b, n, i);
    SumOfTerms(a, b, n, i + 8);
    next := AddSquares(total, a, b, i);
    fires := IsCheckpoint(i) && SumM256(next) / (n as real) >= threshold;
    if fires {
      assert AbortsAt(threshold, n, a, b, m);
    }
  }

  /** The block loop of `fastmse`: adds the squared differences of whole
      blocks of 8 pairs lane by lane and, after every block that starts at an
      index `i` with `i % 100 == 96`, gives up when the partial mean reaches
      `threshold`. It stops at the first such checkpoint, or before the first
      block that would run past `n`. */
  method AccumulateBlocks(threshold: real, n: nat, a: seq<real>, b: seq<real>)
    returns (total: seq<real>, i: nat, aborted: bool)
    requires 0 < n <= |a| && n <= |b|
    ensures aborted <==> Aborts(threshold, n, a, b)
    ensures !aborted ==> i <= n < i + 8 && |total| == Lanes && SumM256(total) == Sum(Terms(a, b, n), i)
  {
    total := [0.0, 0.0, 0.0, 0.0, 0.0, 0.0, 0.0, 0.0];
    i := 0;
    ghost var m: nat := 0;
    while i + 8 <= n
      invariant i == 8 * m && i <= n
      invariant |total| == Lanes && SumM256(total) == Sum(Terms(a, b, n), i)
      invariant NoAbortBefore(threshold, n, a, b, m)
    {
      var fires;
      total, fires := AddBlock(threshold, n, a, b, total, i, m);
      if fires {
        return total, i, true;
      }
      i := i + 8;
      m := m + 1;
    }
    NoCheckpointFires(threshold, n, a, b, m);
    aborted := false;
  }

  /** The scalar loop of `fastmse` over the pairs `i .. n - 1` left after the
      last whole block, starting from the lanes' total. */
  method AddTail(n: nat, a: seq<real>, b: seq<real>, start: real, i0: nat) returns (sum: real)
    requires i0 <= n <= |a| && n <= |b|
    requires start == Sum(Terms(a, b, n), i0)
    ensures sum == SumSq(a, b, n)
  {
    ghost var t := Terms(a, b, n);
    sum := start;
    var i := i0;
    while i < n
      invariant i <= n
      invariant sum == Sum(t, i)
    {
      sum := sum + (a[i] - b[i]) * (a[i] - b[i]);
      i := i + 1;
    }
    SumOfTerms(a, b, n, n);
  }

  /** `fastmse(abort_threshold, n, a, b)`: the exact mean squared error of the
      first `n` pairs, or `LargeVal` when some checkpoint gives up; it gives up
      only when the exact error could not beat the threshold anyway. */
  method FastMse(threshold: real, n: nat, a: seq<real>, b: seq<real>) returns (r: real)
    requires 0 < n <= |a| && n <= |b|
    ensures Aborts(threshold, n, a, b) ==> r == LargeVal
    ensures !Aborts(threshold, n, a, b) ==> r == Mse(a, b, n)
    ensures Mse(a, b, n) < threshold ==> r == Mse(a, b, n)
    ensures r == Mse(a, b, n) || (r == LargeVal && Mse(a, b, n) >= threshold)
  {
    AbortIsSound(threshold, n, a, b);
    var total, i, aborted := AccumulateBlocks(threshold, n, a, b);
    if aborted {
      return LargeVal;
    }
    var sum := AddTail(n, a, b, SumM256(total), i);
    r := sum / (n as real);
  }
}
