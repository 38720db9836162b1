/** The correlation-coefficient search of fast_align_audio/alignment.py:
  `fast_autocorr` and `find_best_alignment_offset_with_corr_coef`.

  `np.corrcoef` itself is a parameter `corrcoef`: the model covers which
  samples are paired for each lag, which lags are tried, the lookahead window,
  and which coefficient is selected, not the coefficient's arithmetic.
 */
module Correlation {
  import opened Signals
  import opened Errors

  /** The correlation coefficient of two rows of equal length, as `np.corrcoef`
      computes it; the model treats it as given. */
  type CorrCoef = (seq<real>, seq<real>) -> real

  /** `s[::4]`: every fourth sample, starting with the first. */
  function Every4(s: seq<real>): (r: seq<real>)
    ensures |r| == (|s| + 3) / 4
    ensures forall k :: 0 <= k < |r| ==> r[k] == s[4 * k]
  {
    if |s| == 0 then []
    else if |s| <= 4 then [s[0]]
    else [s[0]] + Every4(s[4..])
  }

  /** `s[start:]` for a start that is not negative: past the end it is empty. */
  function Drop(s: seq<real>, start: nat): (r: seq<real>)
    ensures |r| == |s| - Min(start, |s|)
    ensures forall k :: 0 <= k < |r| ==> r[k] == s[start + k]
  {
    s[Min(start, |s|)..]
  }

  /** `s[:stop]`: a negative stop counts from the end, and either is clipped. */
  function Take(s: seq<real>, stop: int): (r: seq<real>)
    ensures stop >= 0 ==> |r| == Min(stop, |s|)
    ensures stop < 0 ==> |r| == if |s| + stop > 0 then |s| + stop else 0
    ensures r == s[..|r|]
  {
    if stop >= 0 then s[..Min(stop, |s|)]
    else if |s| + stop > 0 then s[..|s| + stop]
    else []
  }

  /** `s[start:stop]` with `start <= stop`, both clipped to the length. */
  function Slice(s: seq<real>, start: nat, stop: nat): (r: seq<real>)
    requires start <= stop
    ensures |r| <= stop - start
    ensures start <= |s| ==> r == s[start..Min(stop, |s|)]
    ensures start > |s| ==> r == []
  {
    s[Min(start, |s|)..Min(stop, |s|)]
  }

  /** The two rows `fast_autocorr` hands to `np.corrcoef` for lag `t`. */
  function LagRows(original: seq<real>, delayed: seq<real>, t: int): (seq<real>, seq<real>)
  {
    if t == 0 then (Every4(original), Every4(delayed))
    else if t < 0 then (Every4(Drop(original, -t)), Every4(Take(delayed, t)))
    else (Every4(Take(original, -t)), Every4(Drop(delayed, t)))
  }

  /** `fast_autocorr(original, delayed, t)`: the correlation of every fourth
      pair at lag `t`. numpy refuses to stack rows of different lengths. */
  function FastAutocorr(corrcoef: CorrCoef, original: seq<real>, delayed: seq<real>, t: int): Result<real>
  {
    var rows := LagRows(original, delayed, t);
    if |rows.0| == |rows.1| then Success(corrcoef(rows.0, rows.1)) else Failure(RaggedRows)
  }

  /** Which samples `fast_autocorr` pairs at lag `t`, for signals of any
      lengths: pair `k` is `original[4k]` with `delayed[4k + t]` for a lag
      that is not negative, and `original[4k - t]` with `delayed[4k]` for a
      negative one. Each row keeps every fourth of the samples the shift
      leaves in its signal; the call succeeds exactly when the two rows have
      the same length, which signals of one length always give. */
  lemma LagPairing(corrcoef: CorrCoef, original: seq<real>, delayed: seq<real>, t: int)
    ensures var rows := LagRows(original, delayed, t);
            var shift: nat := if t >= 0 then t else -t;
      && |rows.0| == (|original| - Min(shift, |original|) + 3) / 4
      && |rows.1| == (|delayed| - Min(shift, |delayed|) + 3) / 4
      && (forall k :: 0 <= k < |rows.0| && t >= 0 ==> rows.0[k] == original[4 * k])
      && (forall k :: 0 <= k < |rows.1| && t >= 0 ==> rows.1[k] == delayed[4 * k + t])
      && (forall k :: 0 <= k < |rows.0| && t < 0 ==> rows.0[k] == original[4 * k - t])
      && (forall k :: 0 <= k < |rows.1| && t < 0 ==> rows.1[k] == delayed[4 * k])
      && (FastAutocorr(corrcoef, original, delayed, t).Success? <==> |rows.0| == |rows.1|)
      && (|rows.0| == |rows.1| ==> FastAutocorr(corrcoef, original, delayed, t) == Success(corrcoef(rows.0, rows.1)))
      && (|original| == |delayed| ==> |rows.0| == |rows.1|)
  {
  }

  /** Windows of different lengths can still be stacked: lag 0 of four
      samples against two keeps one sample of each. */
  lemma UnequalWindowsStack(corrcoef: CorrCoef)
    ensures FastAutocorr(corrcoef, [1.0, 2.0, 3.0, 4.0], [5.0, 6.0], 0) == Success(corrcoef([1.0], [5.0]))
  {
    LagPairing(corrcoef, [1.0, 2.0, 3.0, 4.0], [5.0, 6.0], 0);
  }

  /** The lags `range(minOffset, maxOffset)`, in increasing order. */
  function Lags(minOffset: int, maxOffset: int): (lags: seq<int>)
    ensures |lags| == if maxOffset > minOffset then maxOffset - minOffset else 0
    ensures forall k :: 0 <= k < |lags| ==> lags[k] == minOffset + k
    decreases maxOffset - minOffset
  {
    if maxOffset <= minOffset then [] else Lags(minOffset, maxOffset - 1) + [maxOffset - 1]
  }

  /** The coefficient list built by the loop over `lags`, where `coef(lag)`
      is one pass of the loop body; the first lag that raises ends the loop. */
  function Coefs(coef: int -> Result<real>, lags: seq<int>): (r: Result<seq<real>>)
    ensures r.Success? ==> |r.value| == |lags|
    ensures r.Success? ==> forall k :: 0 <= k < |lags| ==> coef(lags[k]) == Success(r.value[k])
    ensures r.Failure? <==> exists k :: 0 <= k < |lags| && coef(lags[k]).Failure?
  {
    if |lags| == 0 then Success([])
    else
      match coef(lags[0])
      case Failure(e) => Failure(e)
      case Success(c) =>
        match Coefs(coef, lags[1..])
        case Failure(e) =>
          assert forall k :: 0 <= k < |lags| - 1 ==> lags[1..][k] == lags[k + 1];
          Failure(e)
        case Success(cs) => Success([c] + cs)
  }

  /** `np.argmax`: the first index holding the greatest value. */
  function FirstArgmax(s: seq<real>): (i: nat)
    requires |s| > 0
    ensures i < |s|
    ensures forall k :: 0 <= k < |s| ==> s[k] <= s[i]
    ensures forall k :: 0 <= k < i ==> s[k] < s[i]
  {
    if |s| == 1 then 0
    else
      var j := FirstArgmax(s[..|s| - 1]);
      if s[|s| - 1] > s[j] then |s| - 1 else j
  }

  function Abs(x: real): (r: real)
    ensures r >= 0.0 && (r == x || r == -x)
  {
    if x < 0.0 then -x else x
  }

  /** `np.abs` of a list. */
  function Magnitudes(s: seq<real>): (r: seq<real>)
    ensures |r| == |s| && forall k :: 0 <= k < |s| ==> r[k] == Abs(s[k])
  {
    seq(|s|, k requires 0 <= k < |s| => Abs(s[k]))
  }

  /** The part of both signals the search looks at: when a lookahead is given
      and the reference is longer than it, `lookahead` samples from the middle
      of the reference, at the same indices of both signals. */
  function LookaheadWindows(reference: seq<real>, delayed: seq<real>, lookahead: Option<nat>): (w: (seq<real>, seq<real>))
    ensures lookahead.None? || |reference| <= lookahead.value ==> w == (reference, delayed)
    ensures lookahead.Some? && |reference| > lookahead.value ==>
      var mid := |reference| / 2;
      && |w.0| <= lookahead.value && |w.1| <= lookahead.value
      && w.0 == reference[mid..Min(mid + lookahead.value, |reference|)]
      && (mid <= |delayed| ==> w.1 == delayed[mid..Min(mid + lookahead.value, |delayed|)])
      && (mid > |delayed| ==> w.1 == [])
  {
    if lookahead.Some? && |reference| > lookahead.value then
      var mid := |reference| / 2;
      (Slice(reference, mid, mid + lookahead.value), Slice(delayed, mid, mid + lookahead.value))
    else
      (reference, delayed)
  }

  /** The quantity the selection maximises: the coefficient itself, or its
      magnitude when both polarities count. */
  function Rank(c: real, bothPolarities: bool): real
  {
    if bothPolarities then Abs(c) else c
  }

  /** `np.argmax(np.abs(coefs))` or `np.argmax(coefs)`: the first index of
      greatest rank. */
  function PickIndex(coefs: seq<real>, bothPolarities: bool): (i: nat)
    requires |coefs| > 0
    ensures i < |coefs|
    ensures forall k :: 0 <= k < |coefs| ==> Rank(coefs[k], bothPolarities) <= Rank(coefs[i], bothPolarities)
    ensures forall k :: 0 <= k < i ==> Rank(coefs[k], bothPolarities) < Rank(coefs[i], bothPolarities)
  {
    if bothPolarities then
      var mags := Magnitudes(coefs);
      var i := FirstArgmax(mags);
      assert forall k :: 0 <= k < |coefs| ==> Rank(coefs[k], bothPolarities) == mags[k];
      i
    else
      FirstArgmax(coefs)
  }

  /** The loop over the lags and the selection that follows it, where
      `coef(lag)` is the coefficient of one lag: the lag in
      `[minOffset, maxOffset)` of greatest rank, and its coefficient. */
  function SelectLag(coef: int -> Result<real>, minOffset: int, maxOffset: int, bothPolarities: bool): (r: Result<(int, real)>)
    ensures r.Success? ==> minOffset <= r.value.0 < maxOffset
    ensures maxOffset <= minOffset ==> r == Failure(EmptyArgmax)
  {
    match Coefs(coef, Lags(minOffset, maxOffset))
    case Failure(e) => Failure(e)
    case Success(coefs) =>
      if |coefs| == 0 then Failure(EmptyArgmax)
      else
        var idx := PickIndex(coefs, bothPolarities);
        Success((idx + minOffset, coefs[idx]))
  }

  /** `find_best_alignment_offset_with_corr_coef`: the lag loop runs
      `fast_autocorr` on the lookahead windows. */
  function CorrSearch(corrcoef: CorrCoef, reference: seq<real>, delayed: seq<real>,
                      minOffset: int, maxOffset: int, lookahead: Option<nat>, bothPolarities: bool): Result<(int, real)>
  {
    var w := LookaheadWindows(reference, delayed, lookahead);
    SelectLag(lag => FastAutocorr(corrcoef, w.0, w.1, lag), minOffset, maxOffset, bothPolarities)
  }

  /** The coefficient list holds lag `minOffset + k` at index `k`. */
  lemma CoefsByLag(coef: int -> Result<real>, minOffset: int, maxOffset: int)
    requires Coefs(coef, Lags(minOffset, maxOffset)).Success?
    ensures var coefs := Coefs(coef, Lags(minOffset, maxOffset)).value;
      && |coefs| == |Lags(minOffset, maxOffset)|
      && forall k :: 0 <= k < |coefs| ==> coef(minOffset + k) == Success(coefs[k])
  {
  }

  /** The search succeeds exactly when the lag range is not empty and no lag
      in it raises. */
  lemma SelectLagSucceeds(coef: int -> Result<real>, minOffset: int, maxOffset: int, bothPolarities: bool)
    ensures SelectLag(coef, minOffset, maxOffset, bothPolarities).Success?
      <==> (minOffset < maxOffset && forall lag :: minOffset <= lag < maxOffset ==> coef(lag).Success?)
  {
    var lags := Lags(minOffset, maxOffset);
    var cr := Coefs(coef, lags);
    if cr.Failure? {
      var k :| 0 <= k < |lags| && coef(lags[k]).Failure?;
      assert minOffset <= lags[k] < maxOffset;
    } else {
      CoefsByLag(coef, minOffset, maxOffset);
      var coefs := cr.value;
      forall lag | minOffset <= lag < maxOffset
        ensures coef(lag).Success?
      {
        assert coef(minOffset + (lag - minOffset)) == Success(coefs[lag - minOffset]);
      }
    }
  }

  /** Picking from a list that holds lag `minOffset + k` at index `k` picks
      the first lag of greatest rank. */
  lemma PickedLagIsFirstBest(coef: int -> Result<real>, coefs: seq<real>, minOffset: int, maxOffset: int,
                             bothPolarities: bool, idx: nat)
    requires |coefs| == if maxOffset > minOffset then maxOffset - minOffset else 0
    requires forall k :: 0 <= k < |coefs| ==> coef(minOffset + k) == Success(coefs[k])
    requires |coefs| > 0 && idx == PickIndex(coefs, bothPolarities)
    ensures coef(minOffset + idx) == Success(coefs[idx])
    ensures forall lag :: minOffset <= lag < maxOffset ==>
      && coef(lag).Success?
      && Rank(coef(lag).value, bothPolarities) <= Rank(coefs[idx], bothPolarities)
      && (lag < idx + minOffset ==> Rank(coef(lag).value, bothPolarities) < Rank(coefs[idx], bothPolarities))
  {
    forall lag | minOffset <= lag < maxOffset
      ensures coef(lag) == Success(coefs[lag - minOffset])
    {
      assert coef(minOffset + (lag - minOffset)) == Success(coefs[lag - minOffset]);
    }
  }

  /** What the search selects: the first lag of the range whose coefficient
      has the greatest rank (the coefficient, or its magnitude when both
      polarities count), reported with its signed coefficient. */
  lemma SelectLagPicksFirstBest(coef: int -> Result<real>, minOffset: int, maxOffset: int, bothPolarities: bool)
    requires SelectLag(coef, minOffset, maxOffset, bothPolarities).Success?
    ensures var r := SelectLag(coef, minOffset, maxOffset, bothPolarities).value;
      && coef(r.0) == Success(r.1)
      && forall lag :: minOffset <= lag < maxOffset ==>
           && coef(lag).Success?
           && Rank(coef(lag).value, bothPolarities) <= Rank(r.1, bothPolarities)
           && (lag < r.0 ==> Rank(coef(lag).value, bothPolarities) < Rank(r.1, bothPolarities))
  {
    var coefs := Coefs(coef, Lags(minOffset, maxOffset)).value;
    CoefsByLag(coef, minOffset, maxOffset);
    PickedLagIsFirstBest(coef, coefs, minOffset, maxOffset, bothPolarities, PickIndex(coefs, bothPolarities));
  }

  /** The correlation search on the lookahead windows: it succeeds exactly
      when the lag range is not empty and every lag's rows can be stacked,
      and then reports the first lag of greatest rank with its coefficient. */
  lemma CorrSearchPicksFirstBest(corrcoef: CorrCoef, reference: seq<real>, delayed: seq<real>,
                                 minOffset: int, maxOffset: int, lookahead: Option<nat>, bothPolarities: bool)
    ensures var w := LookaheadWindows(reference, delayed, lookahead);
            var r := CorrSearch(corrcoef, reference, delayed, minOffset, maxOffset, lookahead, bothPolarities);
      && (r.Success? <==> (minOffset < maxOffset
                           && forall lag :: minOffset <= lag < maxOffset ==> FastAutocorr(corrcoef, w.0, w.1, lag).Success?))
      && (r.Success? ==>
            && FastAutocorr(corrcoef, w.0, w.1, r.value.0) == Success(r.value.1)
            && forall lag :: minOffset <= lag < maxOffset ==>
                 Rank(FastAutocorr(corrcoef, w.0, w.1, lag).value, bothPolarities) <= Rank(r.value.1, bothPolarities)
                 && (lag < r.value.0 ==>
                       Rank(FastAutocorr(corrcoef, w.0, w.1, lag).value, bothPolarities) < Rank(r.value.1, bothPolarities)))
  {
    var w := LookaheadWindows(reference, delayed, lookahead);
    var coef := lag => FastAutocorr(corrcoef, w.0, w.1, lag);
    assert forall lag :: coef(lag) == FastAutocorr(corrcoef, w.0, w.1, lag);
    assert CorrSearch(corrcoef, reference, delayed, minOffset, maxOffset, lookahead, bothPolarities)
        == SelectLag(coef, minOffset, maxOffset, bothPolarities);
    SelectLagSucceeds(coef, minOffset, maxOffset, bothPolarities);
    if SelectLag(coef, minOffset, maxOffset, bothPolarities).Success? {
      SelectLagPicksFirstBest(coef, minOffset, maxOffset, bothPolarities);
    }
  }
}
