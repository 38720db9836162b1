/** The older search in the embedded C source of _fastalign_numba.py.

  Its kernel is the same early-aborting windowed MSE as `Kernel.FastMse`
  (the tail squares with `pow(x, 2)`, which over reals is `x * x`). Its scan
  differs from fast_align_audio/_faa.c in two ways: the loop bound is
  `min3(a_len, b_len, max_offset)`, so both direction guards always hold, and
  only the index of the best candidate is returned.
 */
module NumbaScan {
  import opened Signals
  import opened OffsetScan

  /** The loop bound of the older search. */
  function NumbaBound(aLen: nat, bLen: nat, maxOffset: nat): (n: nat)
    ensures n <= aLen && n <= bLen && n <= maxOffset
    ensures n == aLen || n == bLen || n == maxOffset
  {
    Min3(aLen, bLen, maxOffset)
  }

  /** The best candidate of the older search, as the naive fold. */
  function NumbaSearch(a: seq<real>, b: seq<real>, maxOffset: nat, la: nat): MinResult
  {
    Fold(a, b, la, ScanOrder(|a|, |b|, NumbaBound(|a|, |b|, maxOffset)))
  }

  /** `fast_find_alignment` of the older source: the index of the fold's result. */
  method FindAlignmentIndex(a: seq<real>, b: seq<real>, maxOffset: nat, la: nat) returns (idx: int)
    ensures idx == NumbaSearch(a, b, maxOffset, la).minIdx
  {
    var r := Initial;
    var bound := Min3(|a|, |b|, maxOffset);
    var i := 0;
    while i < bound
      invariant i <= bound
      invariant r == Fold(a, b, la, ScanOrder(|a|, |b|, i))
    {
      r := ScanPass(a, b, la, r, i);
      i := i + 1;
    }
    idx := r.minIdx;
  }

  /** Below the older bound both guards hold on every pass: pass `j` scores
      `+j` and then `-j`, two candidates per pass. */
  lemma {:induction false} GuardsAlwaysHold(aLen: nat, bLen: nat, k: nat)
    requires k <= aLen && k <= bLen
    ensures |ScanOrder(aLen, bLen, k)| == 2 * k
    ensures forall j :: 0 <= j < k ==>
      (ScanOrder(aLen, bLen, k)[2 * j] == Forward(j) && ScanOrder(aLen, bLen, k)[2 * j + 1] == Backward(j))
  {
    if k > 0 {
      GuardsAlwaysHold(aLen, bLen, k - 1);
      var cs := ScanOrder(aLen, bLen, k - 1);
      assert ScanOrder(aLen, bLen, k) == cs + [Forward(k - 1), Backward(k - 1)];
    }
  }

  /** The older search reports an offset whose magnitude is below its loop
      bound, or 0 when the bound is 0. */
  lemma NumbaIndexBound(a: seq<real>, b: seq<real>, maxOffset: nat, la: nat)
    ensures var idx := NumbaSearch(a, b, maxOffset, la).minIdx;
            var bound := NumbaBound(|a|, |b|, maxOffset);
      && (bound == 0 ==> idx == 0)
      && (bound > 0 ==> -(bound as int) < idx < bound)
  {
    var bound := NumbaBound(|a|, |b|, maxOffset);
    var cs := ScanOrder(|a|, |b|, bound);
    FoldOffsetFromCandidates(a, b, la, cs);
    ScanOrderShifts(|a|, |b|, bound);
    if NumbaSearch(a, b, maxOffset, la).minIdx != 0 {
      var j :| 0 <= j < |cs| && NumbaSearch(a, b, maxOffset, la).minIdx == Offset(cs[j]);
    }
  }

  /** For signals of equal length both loop bounds coincide, so both searches
      return the same result. */
  lemma SameAsCurrentForEqualLengths(a: seq<real>, b: seq<real>, maxOffset: nat, la: nat)
    requires |a| == |b|
    ensures NumbaSearch(a, b, maxOffset, la) == Search(a, b, maxOffset, la)
  {
  }

  /** The current search scans a superset of the older one's candidates, in
      the same order, so its best score is never worse. */
  lemma CurrentNeverWorse(a: seq<real>, b: seq<real>, maxOffset: nat, la: nat)
    ensures Search(a, b, maxOffset, la).minVal <= NumbaSearch(a, b, maxOffset, la).minVal
  {
    ScanOrderPrefix(|a|, |b|, NumbaBound(|a|, |b|, maxOffset), Bound(|a|, |b|, maxOffset));
    FoldPrefixMinVal(a, b, la, ScanOrder(|a|, |b|, NumbaBound(|a|, |b|, maxOffset)),
                     ScanOrder(|a|, |b|, Bound(|a|, |b|, maxOffset)));
  }
}
