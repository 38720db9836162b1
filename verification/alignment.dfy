/** The search drivers and the shift applicator of fast_align_audio/alignment.py:
  `find_best_alignment_offset`, `align_delayed_signal_with_reference` and
  `align`.
 */
module Alignment {
  import opened Signals
  import opened Errors
  import opened OffsetScan
  import opened Correlation
  import opened CropPad

  /** The lookahead of the MSE path: the caller's, or else the longer length. */
  function DefaultLookahead(reference: seq<real>, delayed: seq<real>, lookahead: Option<nat>): (la: nat)
    ensures lookahead.None? ==> la >= |reference| && la >= |delayed|
    ensures lookahead.Some? ==> la == lookahead.value
  {
    if lookahead.None? then Max(|reference|, |delayed|) else lookahead.value
  }

  /** The MSE path: the C search with `delayed` in the shifted role and
      `reference` in the other, and, when both polarities count, the same
      search on the inverted delayed signal, kept only if strictly better. */
  function MseSearch(reference: seq<real>, delayed: seq<real>, maxOffset: nat, lookahead: Option<nat>,
                     bothPolarities: bool): (int, real)
  {
    var la := DefaultLookahead(reference, delayed, lookahead);
    var plain := Search(delayed, reference, maxOffset, la);
    if bothPolarities then
      var inverted := Search(Negate(delayed), reference, maxOffset, la);
      if inverted.minVal < plain.minVal then (inverted.minIdx, inverted.minVal) else (plain.minIdx, plain.minVal)
    else
      (plain.minIdx, plain.minVal)
  }

  /** Without a lookahead there is no maximum: every window the MSE path
      scores is the whole overlap of the two shifted signals, and the result
      is the one any lookahead covering both signals gives. */
  lemma NoLookaheadIsUnbounded(reference: seq<real>, delayed: seq<real>, maxOffset: nat, la: nat, bothPolarities: bool)
    requires la >= |reference| && la >= |delayed|
    ensures forall c :: InScan(|delayed|, |reference|, c) ==>
      Window(delayed, reference, DefaultLookahead(reference, delayed, None), c)
      == if c.Forward? then Min(|delayed| - c.i, |reference|) else Min(|delayed|, |reference| - c.i)
    ensures MseSearch(reference, delayed, maxOffset, None, bothPolarities)
         == MseSearch(reference, delayed, maxOffset, Some(la), bothPolarities)
  {
    var none := DefaultLookahead(reference, delayed, None);
    forall c | InScan(|delayed|, |reference|, c)
      ensures Window(delayed, reference, none, c)
           == if c.Forward? then Min(|delayed| - c.i, |reference|) else Min(|delayed|, |reference| - c.i)
    {
      WindowUnclipped(delayed, reference, none, c);
    }
    var cs := ScanOrder(|delayed|, |reference|, Bound(|delayed|, |reference|, maxOffset));
    FoldUnclipped(delayed, reference, none, la, cs);
    FoldUnclipped(Negate(delayed), reference, none, la, cs);
  }

  /** `find_best_alignment_offset`: "mse" runs the MSE path, "corr" the
      correlation search over the lags `[-maxOffset, maxOffset)` on the whole
      signals, and any other method raises. */
  function FindBestAlignmentOffset(corrcoef: CorrCoef, reference: seq<real>, delayed: seq<real>, maxOffset: nat,
                                   lookahead: Option<nat>, searchMethod: string, bothPolarities: bool): Result<(int, real)>
  {
    if searchMethod == "mse" then Success(MseSearch(reference, delayed, maxOffset, lookahead, bothPolarities))
    else if searchMethod == "corr" then CorrSearch(corrcoef, reference, delayed, -(maxOffset as int), maxOffset, None, bothPolarities)
    else Failure(UnknownMethod)
  }

  /** Considering both polarities yields the better of the two scans, and the
      inverted scan wins only with a strictly smaller error; the offset comes
      with the error it achieved. */
  lemma PolarityKeepsBetter(reference: seq<real>, delayed: seq<real>, maxOffset: nat, lookahead: Option<nat>)
    ensures var la := DefaultLookahead(reference, delayed, lookahead);
            var plain := Search(delayed, reference, maxOffset, la);
            var inverted := Search(Negate(delayed), reference, maxOffset, la);
            var both := MseSearch(reference, delayed, maxOffset, lookahead, true);
      && MseSearch(reference, delayed, maxOffset, lookahead, false) == (plain.minIdx, plain.minVal)
      && both.1 <= plain.minVal && both.1 <= inverted.minVal
      && (both.1 == plain.minVal || both.1 == inverted.minVal)
      && (both != (plain.minIdx, plain.minVal) ==> both == (inverted.minIdx, inverted.minVal) && inverted.minVal < plain.minVal)
  {
  }

  /** Bounds on the offset of the MSE path: a positive offset is an index of
      the delayed signal, a negative one an index of the reference, its
      magnitude is below `maxOffset`, and the error never exceeds `LargeVal`. */
  lemma MseSearchBounds(reference: seq<real>, delayed: seq<real>, maxOffset: nat, lookahead: Option<nat>, bothPolarities: bool)
    ensures var r := MseSearch(reference, delayed, maxOffset, lookahead, bothPolarities);
      && (r.0 > 0 ==> r.0 < |delayed|)
      && (r.0 < 0 ==> -r.0 < |reference|)
      && (r.0 == 0 || (r.0 < maxOffset && -r.0 < maxOffset))
      && 0.0 <= r.1 <= LargeVal
  {
    var la := DefaultLookahead(reference, delayed, lookahead);
    SearchBounds(delayed, reference, maxOffset, la);
    SearchBounds(Negate(delayed), reference, maxOffset, la);
  }

  lemma ScoreMirror(a: seq<real>, b: seq<real>, la: nat, c: Candidate)
    requires InScan(|a|, |b|, c) && Window(a, b, la, c) > 0
    ensures Window(Negate(a), b, la, c) == Window(a, Negate(b), la, c) == Window(a, b, la, c)
    ensures Score(Negate(a), b, la, c) == Score(a, Negate(b), la, c)
  {
    var n := Window(a, b, la, c);
    match c
    case Forward(i) =>
      assert Negate(a)[i..] == Negate(a[i..]);
      SumSqMirror(a[i..], b, n);
    case Backward(i) =>
      assert Negate(b)[i..] == Negate(b[i..]);
      SumSqMirror(a, b[i..], n);
  }

  /** Scanning the inverted shifted signal is scanning against the inverted
      other signal: every candidate scores the same. */
  lemma {:induction false} FoldMirror(a: seq<real>, b: seq<real>, la: nat, cs: seq<Candidate>)
    requires AllInScan(|a|, |b|, cs)
    ensures AllInScan(|Negate(a)|, |b|, cs) && AllInScan(|a|, |Negate(b)|, cs)
    ensures Fold(Negate(a), b, la, cs) == Fold(a, Negate(b), la, cs)
  {
    if |cs| > 0 {
      var c := cs[|cs| - 1];
      FoldMirror(a, b, la, cs[..|cs| - 1]);
      if Window(a, b, la, c) > 0 {
        ScoreMirror(a, b, la, c);
      }
    }
  }

  /** The MSE path does not depend on the common polarity of the two
      signals: inverting both gives the same offset and error. */
  lemma PolarityInvariance(reference: seq<real>, delayed: seq<real>, maxOffset: nat, lookahead: Option<nat>, bothPolarities: bool)
    ensures MseSearch(Negate(reference), Negate(delayed), maxOffset, lookahead, bothPolarities)
         == MseSearch(reference, delayed, maxOffset, lookahead, bothPolarities)
  {
    var la := DefaultLookahead(reference, delayed, lookahead);
    var cs := ScanOrder(|delayed|, |reference|, Bound(|delayed|, |reference|, maxOffset));
    FoldMirror(delayed, Negate(reference), la, cs);
    NegateInvolution(reference);
    assert Search(Negate(delayed), Negate(reference), maxOffset, la) == Search(delayed, reference, maxOffset, la);
    FoldMirror(delayed, reference, la, cs);
    NegateInvolution(delayed);
    assert Search(Negate(Negate(delayed)), Negate(reference), maxOffset, la) == Search(Negate(delayed), reference, maxOffset, la);
  }

  /** With both polarities considered, inverting the delayed signal swaps
      the roles of the two scans: the error found is the same, and so is the
      offset unless the two scans tie. */
  lemma BothPolaritiesIgnoreInversion(reference: seq<real>, delayed: seq<real>, maxOffset: nat, lookahead: Option<nat>)
    ensures var la := DefaultLookahead(reference, delayed, lookahead);
            var plain := Search(delayed, reference, maxOffset, la);
            var inverted := Search(Negate(delayed), reference, maxOffset, la);
            var r := MseSearch(reference, delayed, maxOffset, lookahead, true);
            var r' := MseSearch(reference, Negate(delayed), maxOffset, lookahead, true);
      && r'.1 == r.1
      && (plain.minVal != inverted.minVal ==> r' == r)
  {
    NegateInvolution(delayed);
  }

  /** The correlation path ignores the lookahead and searches the lags
      `[-maxOffset, maxOffset)`, so with `maxOffset` 0 it always raises; the
      MSE path always succeeds, and a method other than "mse" or "corr"
      raises. */
  lemma MethodDispatch(corrcoef: CorrCoef, reference: seq<real>, delayed: seq<real>, maxOffset: nat,
                       lookahead: Option<nat>, lookahead': Option<nat>, searchMethod: string, bothPolarities: bool)
    ensures searchMethod == "corr" ==>
      FindBestAlignmentOffset(corrcoef, reference, delayed, maxOffset, lookahead, searchMethod, bothPolarities)
      == FindBestAlignmentOffset(corrcoef, reference, delayed, maxOffset, lookahead', searchMethod, bothPolarities)
    ensures searchMethod == "corr" ==>
      var r := FindBestAlignmentOffset(corrcoef, reference, delayed, maxOffset, lookahead, searchMethod, bothPolarities);
      && (r.Success? ==> -(maxOffset as int) <= r.value.0 < maxOffset)
      && (maxOffset == 0 ==> r == Failure(EmptyArgmax))
    ensures searchMethod == "mse" ==>
      FindBestAlignmentOffset(corrcoef, reference, delayed, maxOffset, lookahead, searchMethod, bothPolarities).Success?
    ensures searchMethod != "mse" && searchMethod != "corr" ==>
      FindBestAlignmentOffset(corrcoef, reference, delayed, maxOffset, lookahead, searchMethod, bothPolarities) == Failure(UnknownMethod)
  {
  }

  /** `placeholder[slot] = source` for a slot of `width` samples: numpy needs
      the source to have that many samples, or exactly one, which it repeats. */
  function Broadcast(width: nat, source: seq<real>): (r: Result<seq<real>>)
    ensures r.Success? <==> |source| == width || |source| == 1
    ensures r.Success? ==> |r.value| == width
    ensures |source| == width ==> r == Success(source)
    ensures |source| == 1 ==> forall k :: 0 <= k < width ==> r.value[k] == source[0]
  {
    if |source| == width then Success(source)
    else if |source| == 1 then Success(seq(width, _ => source[0]))
    else Failure(ShapeMismatch)
  }

  /** `align_delayed_signal_with_reference` as written: a zero signal as long
      as the reference, into which the delayed signal is copied shifted left
      by a positive offset (`placeholder[0:-offset] = delayed[offset:]`) or
      right by a negative one (`placeholder[-offset:] = delayed[0:offset]`). */
  function AlignDelayed(reference: seq<real>, delayed: seq<real>, offset: int): Result<seq<real>>
  {
    var n := |reference|;
    if offset < 0 then
      var start := Min(-offset, n);
      match Broadcast(n - start, Take(delayed, offset))
      case Failure(e) => Failure(e)
      case Success(v) => Success(Zeros(start) + v)
    else
      // `placeholder[0:-0]` is the empty slot `placeholder[0:0]`
      var stop := if offset == 0 then 0 else n - Min(offset, n);
      match Broadcast(stop, Drop(delayed, offset))
      case Failure(e) => Failure(e)
      case Success(v) => Success(v + Zeros(n - stop))
  }

  /** For signals of one length and a non-zero offset the shift always
      succeeds, keeps the length, and fills with zeros what the shift vacates. */
  lemma AlignDelayedShifts(reference: seq<real>, delayed: seq<real>, offset: int)
    requires |reference| == |delayed| && offset != 0
    ensures var r := AlignDelayed(reference, delayed, offset);
      && r.Success? && |r.value| == |delayed|
      && forall j :: 0 <= j < |delayed| ==>
           r.value[j] == if 0 <= j + offset < |delayed| then delayed[j + offset] else 0.0
  {
  }

  /** Offset 0, which the search reports for signals already in line, makes
      the source copy the whole delayed signal into an empty slot: numpy
      raises for any delayed signal of two or more samples, whatever the
      length of the reference. */
  lemma ZeroOffsetFails(reference: seq<real>, delayed: seq<real>)
    requires |delayed| >= 2
    ensures AlignDelayed(reference, delayed, 0) == Failure(ShapeMismatch)
  {
  }

  /** A one-sample delayed signal broadcasts into the empty slot, so offset 0
      silently drops it and returns silence of the reference's length. */
  lemma ZeroOffsetZeroesOneSample(reference: seq<real>, x: real)
    ensures AlignDelayed(reference, [x], 0) == Success(Zeros(|reference|))
  {
    assert Drop([x], 0) == [x];
    assert Broadcast(0, [x]).value == [];
    assert [] + Zeros(|reference|) == Zeros(|reference|);
  }

  /** `align_delayed_signal_with_reference` with offset 0 handled as the
      plain copy `placeholder[0:] = delayed[0:]`, which is the evident intent. */
  function AlignDelayedFixed(reference: seq<real>, delayed: seq<real>, offset: int): Result<seq<real>>
  {
    if offset == 0 then Broadcast(|reference|, delayed) else AlignDelayed(reference, delayed, offset)
  }

  /** With the fix, signals of one length are shifted for every offset,
      0 included. */
  lemma AlignDelayedFixedShifts(reference: seq<real>, delayed: seq<real>, offset: int)
    requires |reference| == |delayed|
    ensures var r := AlignDelayedFixed(reference, delayed, offset);
      && r.Success? && |r.value| == |delayed|
      && forall j :: 0 <= j < |delayed| ==>
           r.value[j] == if 0 <= j + offset < |delayed| then delayed[j + offset] else 0.0
  {
    if offset != 0 {
      AlignDelayedShifts(reference, delayed, offset);
    }
  }

  /** Shifting a signal left by `k` and then right by `k` restores it, except
      for the first `k` samples, which become zeros. */
  lemma ShiftRoundTrip(x: seq<real>, k: nat)
    requires k <= |x|
    ensures AlignDelayedFixed(x, AlignDelayedFixed(x, x, k).value, -(k as int)) == Success(Zeros(k) + x[k..])
  {
    AlignDelayedFixedShifts(x, x, k);
    var y := AlignDelayedFixed(x, x, k).value;
    AlignDelayedFixedShifts(x, y, -(k as int));
    var z := AlignDelayedFixed(x, y, -(k as int)).value;
    assert z == Zeros(k) + x[k..];
  }

  /** A reference delayed by `k` samples (`k` zeros in front, the tail cut
      off) is put back in line by offset `k`, up to the `k` samples lost at
      the end. */
  lemma UndoesDelay(reference: seq<real>, k: nat)
    requires k <= |reference|
    ensures AlignDelayedFixed(reference, Zeros(k) + reference[..|reference| - k], k)
         == Success(reference[..|reference| - k] + Zeros(k))
  {
    var delayed := Zeros(k) + reference[..|reference| - k];
    AlignDelayedFixedShifts(reference, delayed, k);
    assert AlignDelayedFixed(reference, delayed, k).value == reference[..|reference| - k] + Zeros(k);
  }

  /** A reference advanced by `k` samples (its first `k` samples cut off,
      zeros at the end) is put back in line by offset `-k`, up to the `k`
      samples lost at the front. */
  lemma UndoesAdvance(reference: seq<real>, k: nat)
    requires k <= |reference|
    ensures AlignDelayedFixed(reference, reference[k..] + Zeros(k), -(k as int)) == Success(Zeros(k) + reference[k..])
  {
    var delayed := reference[k..] + Zeros(k);
    AlignDelayedFixedShifts(reference, delayed, -(k as int));
    assert AlignDelayedFixed(reference, delayed, -(k as int)).value == Zeros(k) + reference[k..];
  }

  /** `align` of alignment.py: the MSE offset of `a` with `b` as reference,
      then the crop/pad and length fix. */
  function Align(a: seq<real>, b: seq<real>, maxOffset: nat, maxLookahead: Option<nat>,
                 alignMode: string, fixLength: Option<string>): Result<(seq<real>, seq<real>)>
  {
    var offset := MseSearch(b, a, maxOffset, maxLookahead, false).0;
    AlignPair(a, b, offset, alignMode, fixLength)
  }

  /** The padded-array scenario in miniature: the reference `[0, 1, 0, 0]`
      with one zero put in front is found at offset `+1` with error 0, for a
      lookahead covering both signals. */
  lemma PaddedReferenceFound(corrcoef: CorrCoef)
    ensures FindBestAlignmentOffset(corrcoef, [0.0, 1.0, 0.0, 0.0], [0.0, 0.0, 1.0, 0.0, 0.0], 4, Some(5), "mse", false)
         == Success((1, 0.0))
  {
    PaddedScan();
  }

  /** The scan behind `PaddedReferenceFound`: `+0` and `-0` score 0.5, and
      `+1` matches exactly. */
  lemma PaddedScan()
    ensures Search([0.0, 0.0, 1.0, 0.0, 0.0], [0.0, 1.0, 0.0, 0.0], 4, 5) == MinResult(1, 0.0)
  {
    var a := [0.0, 0.0, 1.0, 0.0, 0.0];
    var b := [0.0, 1.0, 0.0, 0.0];
    var cs := ScanOrder(5, 4, 4);
    assert ScanOrder(5, 4, 2) == [Forward(0), Backward(0), Forward(1), Backward(1)] by {
      assert ScanOrder(5, 4, 1) == [Forward(0), Backward(0)];
    }
    ScanOrderPrefix(5, 4, 2, 4);
    assert cs[0] == Forward(0) && cs[1] == Backward(0) && cs[2] == Forward(1);
    assert a[0..] == a && b[0..] == b;
    assert SumSq(a, b, 4) == 2.0 by {
      assert SumSq(a, b, 1) == 0.0;
      assert SumSq(a, b, 2) == 1.0;
      assert SumSq(a, b, 3) == 2.0;
    }
    assert SumSq(a[1..], b, 4) == 0.0 by {
      assert SumSq(a[1..], b, 1) == 0.0;
      assert SumSq(a[1..], b, 2) == 0.0;
      assert SumSq(a[1..], b, 3) == 0.0;
    }
    assert Score(a, b, 5, cs[0]) == 0.5;
    assert Score(a, b, 5, cs[1]) == 0.5;
    assert Score(a, b, 5, cs[2]) == 0.0;
    ExactMatchWins(a, b, 5, cs, 2);
    assert Search(a, b, 4, 5) == Fold(a, b, 5, cs);
  }

  /** The padded-array scenario in general: any signal with `k` zeros put in
      front, `k` below the maximum offset, is found by the MSE path with
      error 0, and at offset `+k` when no candidate scanned before `+k`
      matches exactly (as for a reference that is not constant near its
      start). */
  lemma PaddedSignalFound(corrcoef: CorrCoef, s: seq<real>, k: nat, maxOffset: nat, lookahead: Option<nat>)
    requires |s| > 0 && k < maxOffset && (lookahead.None? || lookahead.value > 0)
    ensures var r := FindBestAlignmentOffset(corrcoef, s, Zeros(k) + s, maxOffset, lookahead, "mse", false);
      && r.Success? && r.value.1 == 0.0
      && (NoExactMatchBefore(Zeros(k) + s, s, DefaultLookahead(s, Zeros(k) + s, lookahead), k) ==> r.value == (k as int, 0.0))
  {
    ShiftRecovered(s, k, maxOffset, DefaultLookahead(s, Zeros(k) + s, lookahead));
  }

  /** A reference delayed by one sample within the same length is found at
      offset `+1`, and shifting by that offset restores the reference. */
  lemma DelayedByOneSample(corrcoef: CorrCoef)
    ensures FindBestAlignmentOffset(corrcoef, [0.0, 1.0, 0.0, 0.0], [0.0, 0.0, 1.0, 0.0], 4, None, "mse", false)
         == Success((1, 0.0))
    ensures AlignDelayed([0.0, 1.0, 0.0, 0.0], [0.0, 0.0, 1.0, 0.0], 1) == Success([0.0, 1.0, 0.0, 0.0])
  {
    PositiveOffsetExample();
    var r := [0.0, 1.0, 0.0, 0.0];
    AlignDelayedShifts(r, [0.0, 0.0, 1.0, 0.0], 1);
    assert AlignDelayed(r, [0.0, 0.0, 1.0, 0.0], 1).value == r;
  }

  /** A reference advanced by one sample is found at offset `-1`, and
      shifting by that offset restores the reference. */
  lemma AdvancedByOneSample(corrcoef: CorrCoef)
    ensures FindBestAlignmentOffset(corrcoef, [0.0, 1.0, 0.0, 0.0], [1.0, 0.0, 0.0, 0.0], 4, None, "mse", false)
         == Success((-1, 0.0))
    ensures AlignDelayed([0.0, 1.0, 0.0, 0.0], [1.0, 0.0, 0.0, 0.0], -1) == Success([0.0, 1.0, 0.0, 0.0])
  {
    NegativeOffsetExample();
    var r := [0.0, 1.0, 0.0, 0.0];
    AlignDelayedShifts(r, [1.0, 0.0, 0.0, 0.0], -1);
    assert AlignDelayed(r, [1.0, 0.0, 0.0, 0.0], -1).value == r;
  }
}
