# fast-align-audio in Dafny

fast-align-audio finds the offset that best lines up two audio signals.
The offset is measured in samples. A positive offset means the first
signal must be shifted left; a negative offset means the second must be.
The project then crops or pads the two signals so that they line up.

This project models the repository's core and proves properties of that
model:

- **The MSE kernel `fastmse`** (module `Kernel`). This is the C kernel in
  fast_align_audio/_faa.c. It sums squared differences eight lanes at a
  time, as the AVX code does. It can give up early: at a checkpoint, if the
  partial error already reaches the incumbent's, it returns `LARGE_VAL`.
  The model proves the two possible outcomes. The result is either the
  exact mean squared error or `LARGE_VAL`. `LARGE_VAL` is returned only
  when the exact error could not have won anyway.
- **The offset search `fast_find_alignment`** (module `OffsetScan`). For
  every shift `i` below the bound, it scores candidate `+i` (the first
  signal shifted) and then `-i` (the second signal shifted). Each candidate
  is compared over a window capped by the lookahead. A candidate replaces
  the incumbent only with a strictly smaller error. The loop is proved
  equal to a naive fold over the candidates in scan order. The fold is
  characterised as the first strict minimum. Swapping the two signals
  keeps the error and negates the offset, except on a tie within the
  winning pass.
- **The older search embedded in _fastalign_numba.py** (module
  `NumbaScan`). It uses the same kernel. Its loop bound is different, and
  it returns only the index.
- **The Python drivers in fast_align_audio/alignment.py** (modules
  `Correlation`, `CropPad`, `Alignment`):
  - `fast_autocorr`, which correlates every fourth sample at a lag;
  - the correlation search, with its lookahead window and argmax;
  - `find_best_alignment_offset`, covering the "mse" and "corr" methods
    and the polarity option;
  - `align_delayed_signal_with_reference`;
  - `align`, `_align` and `_fix`.
- **The older entry points `best_offset` and `align`** of
  fast_align_audio/fast_align_audio.py (module `FastAlignAudio`).

Samples and errors are real numbers. A C pointer `&a[i]` becomes the slice
`a[i..]`. Python exceptions become `Failure` values of `Errors.Result`. The
model does not compute `np.corrcoef`: it is a parameter, `corrcoef`, and
the correlation proofs hold for every such function. What else the model
omits is listed under "Left out" below.

## Model

| member | source | states |
|---|---|---|
| Kernel.SumM256 | fast_align_audio/_faa.c:7-12 | definition: the eight lanes added in order; characterised by Kernel.BlockAddsTerms and Kernel.AccumulateBlocks, which tie the lane sum to the squared differences |
| Kernel.BlockAddsTerms | fast_align_audio/_faa.c:19-23 | one vector step (`_mm256_sub_ps`, then `_mm256_mul_ps` and `_mm256_add_ps` lane by lane) raises the sum over the eight lanes by exactly the squared differences of samples `i .. i+7` |
| Kernel.AbortIsSound | fast_align_audio/_faa.c:24-29 | if some checkpoint's partial error divided by `n` reaches the threshold, the full mean squared error reaches it too |
| Kernel.AddBlock | fast_align_audio/_faa.c:20-29 | one pass of the block loop: the lanes then hold the squared differences of the first `i + 8` samples; the pass aborts only at a checkpoint that really fires, and otherwise no checkpoint so far has fired |
| Kernel.AccumulateBlocks | fast_align_audio/_faa.c:19-30 | the block loop aborts exactly when some checkpoint (a block starting at `i % 100 == 96` whose partial error over `n` reaches the threshold) fires; otherwise it stops with fewer than 8 samples left and the lanes summing to the error of the samples so far |
| Kernel.AddTail | fast_align_audio/_faa.c:31-35 | the scalar tail loop completes the lane sum to the sum of squared differences over all `n` samples |
| Kernel.FastMse | fast_align_audio/_faa.c:14-36 | `fastmse` returns `LARGE_VAL` if a checkpoint fires and the exact mean squared error otherwise; an error below the threshold is always returned exactly, and `LARGE_VAL` is returned only when the error is at least the threshold; the kernel of _fastalign_numba.py (lines 19-41) is the same loop, with `pow(x, 2)` equal to `x * x` over reals |
| Signals.SumSqMonotone | fast_align_audio/_faa.c:24-29 | the error of a prefix of the window never exceeds the error of the whole window; this makes an early abort safe |
| Signals.Max | fast_align_audio/_faa.c:39-41 | `my_max` is the larger of its arguments |
| Signals.Min | fast_align_audio/_faa.c:43-45 | `my_min` is the smaller of its arguments |
| Signals.Min3 | fast_align_audio/_faa.c:47-49 | `my_min3` is the smallest of its three arguments |
| OffsetScan.ScanOrder | fast_align_audio/_faa.c:61-75 | definition: pass `i` of the loop scores `+i` when `i < a_len` and then `-i` when `i < b_len`; its contract states that every listed candidate starts inside its shifted signal, and OffsetScan.ScanOrderPrefix and OffsetScan.ForwardAfterPasses characterise the order |
| OffsetScan.Bound | fast_align_audio/_faa.c:61 | the loop bound `my_min(my_max(a_len, b_len), max_offset)` is at most `max_offset`, within the longer signal, and equal to one of the three |
| OffsetScan.Window | fast_align_audio/_faa.c:63 | the window length `my_min3(a_len - i, b_len, max_lookahead)` (and its mirror at line 70) never reads past either shifted signal |
| OffsetScan.Step | fast_align_audio/_faa.c:62-75 | scoring one candidate: a non-empty window with a strictly smaller error takes over, with its signed offset and error; otherwise the incumbent stays; the best error never rises |
| OffsetScan.Fold | fast_align_audio/_faa.c:59-78 | definition: the candidates scored one after another from `{0, LARGE_VAL}`; characterised by OffsetScan.FoldCharacterised as the first strict minimum |
| OffsetScan.Search | fast_align_audio/_faa.c:56-79 | definition: the fold over the scan order below `min(max(a_len, b_len), max_offset)`; OffsetScan.FindAlignment is proved to compute it, and OffsetScan.SearchBounds and OffsetScan.SignSymmetry state its properties |
| OffsetScan.FoldIsLowerBound | fast_align_audio/_faa.c:59-78 | the reported error is at most `LARGE_VAL` and at most the error of every candidate with a non-empty window |
| OffsetScan.FoldIsAttained | fast_align_audio/_faa.c:59-78 | the result is `{0, LARGE_VAL}` or the offset and error of a candidate whose error is below `LARGE_VAL` and strictly below every earlier candidate's |
| OffsetScan.FoldIsFirstStrictMinimum | fast_align_audio/_faa.c:59-78 | the result is `{0, LARGE_VAL}` if no candidate scores below `LARGE_VAL`; otherwise it is the first candidate of least error, and every candidate before it scores strictly more |
| OffsetScan.FirstStrictMinimumIsUnique | fast_align_audio/_faa.c:59-78 | at most one result fits that description |
| OffsetScan.FoldCharacterised | fast_align_audio/_faa.c:59-78 | a result is what the scan returns if and only if it is the first strict minimum of the candidates in scan order |
| OffsetScan.ScoresNonnegative | fast_align_audio/_faa.c:56-79 | every candidate's error is non-negative, and so is the reported error |
| OffsetScan.ExactMatchWins | fast_align_audio/_faa.c:64-67 | a candidate with error 0 wins when every candidate scored before it has a positive error: ties keep the earlier candidate |
| OffsetScan.SelfAlignment | fast_align_audio/_faa.c:56-79 | a non-empty signal searched against itself yields offset 0 with error 0 |
| OffsetScan.PositiveOffsetExample | fast_align_audio/_faa.c:56-79 | `[0,0,1,0]` against `[0,1,0,0]` yields offset `+1` with error 0 |
| OffsetScan.NegativeOffsetExample | fast_align_audio/_faa.c:56-79 | `[1,0,0,0]` against `[0,1,0,0]` yields offset `-1` with error 0 |
| OffsetScan.ForwardAfterPasses | fast_align_audio/_faa.c:61-67 | candidate `+k` is scored right after the first `k` passes, for `k` below the bound and below `a_len` |
| OffsetScan.NoExactMatchInPrefix | fast_align_audio/_faa.c:61-75 | when no candidate of the first `k` passes matches exactly, every candidate scored before pass `k` has a positive error |
| OffsetScan.DelayedCopyMatches | tests/test_find_best_alignment_offset.py:14-20 | a signal with `k` zeros in front, shifted by `+k`, has a non-empty window against the original and error 0 |
| OffsetScan.ShiftRecovered | fast_align_audio/_faa.c:56-79 | a signal with `k` zeros in front, `k` below the maximum offset, is found with error 0, and at `+k` when no candidate of the first `k` passes matches exactly |
| OffsetScan.ScanOrderPrefix | fast_align_audio/_faa.c:61 | fewer passes of the loop score a prefix of the candidates of more passes |
| OffsetScan.FoldPrefixMinVal | fast_align_audio/_faa.c:61-76 | scoring more candidates never raises the best error |
| OffsetScan.FoldOffsetFromCandidates | fast_align_audio/_faa.c:65-73 | the reported offset is 0 or the signed offset of a scored candidate |
| OffsetScan.SearchBounds | fast_align_audio/_faa.c:56-79 | a positive offset is below `a_len`, a negative one is above `-b_len`, a non-zero one has magnitude below `max_offset`, and the error lies between 0 and `LARGE_VAL` |
| OffsetScan.WindowUnclipped | fast_align_audio/_faa.c:63-70 | a lookahead covering both signals never clips: each window is the whole overlap `min(a_len - i, b_len)` or `min(a_len, b_len - i)` |
| OffsetScan.FoldUnclipped | fast_align_audio/_faa.c:56-79 | any two lookaheads covering both signals give the same scan result |
| OffsetScan.FoldPass | fast_align_audio/_faa.c:61-76 | each pass of the loop scores `+i` when `i < a_len`, then `-i` when `i < b_len` |
| OffsetScan.PassesAreFold | fast_align_audio/_faa.c:61-76 | running the passes one after another scores the candidates in scan order |
| OffsetScan.SwapScores | fast_align_audio/_faa.c:63-70 | swapping the two signals turns candidate `+i` into `-i` and back, with the same window and the same error |
| OffsetScan.PassMirrored | fast_align_audio/_faa.c:62-75 | one pass over the swapped signals reports the mirrored result: the same error, the negated offset, or `+i` for both when `+i` and `-i` of that pass tie |
| OffsetScan.ScanMirrored | fast_align_audio/_faa.c:61-76 | every prefix of passes over the swapped signals reports the mirrored result |
| OffsetScan.MirroredPassStep | fast_align_audio/_faa.c:62-75 | if the first `k - 1` passes over the swapped signals report the mirrored result, so do the first `k` |
| OffsetScan.SignSymmetry | fast_align_audio/_faa.c:56-79 | swapping the two signals finds the same error; the offset is negated, except when `+i` and `-i` of the winning pass tie, where both orders report `+i` |
| OffsetScan.SignSymmetryTie | fast_align_audio/_faa.c:56-79 | `[0,1,0]` and `[1,0,1]` report offset `+1` with error 0 in both orders, so swapping does not always negate the offset |
| OffsetScan.TieScan | fast_align_audio/_faa.c:56-79 | `[0,1,0]` against `[1,0,1]` yields offset `+1` with error 0 |
| OffsetScan.TieAtShiftOne | fast_align_audio/_faa.c:62-75 | for that pair, `+1` and `-1` both match exactly |
| OffsetScan.ScoreCandidate | fast_align_audio/_faa.c:62-75 | the guarded kernel call plus the update is one step of the fold; an empty window (a 0/0 NaN in C) never takes over |
| OffsetScan.ScanPass | fast_align_audio/_faa.c:62-75 | one pass over shift `i` extends the fold by the candidates `+i` and `-i` whose guards hold |
| OffsetScan.FindAlignment | fast_align_audio/_faa.c:56-79 | `fast_find_alignment` returns the fold over all candidates below `min(max(a_len, b_len), max_offset)` |
| NumbaScan.NumbaBound | _fastalign_numba.py:56 | the older loop bound `min3(a_len, b_len, max_offset)` is within both signals and `max_offset`, and equal to one of the three |
| NumbaScan.NumbaSearch | _fastalign_numba.py:51-73 | definition: the fold over the scan order below the older bound; characterised by NumbaScan.FindAlignmentIndex, NumbaScan.GuardsAlwaysHold and NumbaScan.NumbaIndexBound |
| NumbaScan.FindAlignmentIndex | _fastalign_numba.py:51-73 | the older search returns the index of the fold over the candidates below `min3(a_len, b_len, max_offset)` |
| NumbaScan.GuardsAlwaysHold | _fastalign_numba.py:56-70 | below the older bound both guards always hold: pass `j` scores `+j` and then `-j` |
| NumbaScan.NumbaIndexBound | _fastalign_numba.py:51-73 | the older search's index has magnitude below its loop bound, and is 0 when the bound is 0 |
| NumbaScan.SameAsCurrentForEqualLengths | _fastalign_numba.py:56 | for signals of equal length, the older search and the current one return the same result |
| NumbaScan.CurrentNeverWorse | _fastalign_numba.py:56 | the current search's best error is never above the older one's: its candidates extend the older list |
| Correlation.Every4 | fast_align_audio/alignment.py:11 | `s[::4]` holds `s[4k]` at index `k` and has `ceil(len/4)` samples |
| Correlation.Take | fast_align_audio/alignment.py:13-15 | `s[:stop]` with a negative `stop` drops `-stop` samples from the end, or all of them |
| Correlation.FastAutocorr | fast_align_audio/alignment.py:8-15 | definition: `np.corrcoef` of the two decimated rows for lag `t`, or the stacking error; characterised by Correlation.LagPairing |
| Correlation.LagPairing | fast_align_audio/alignment.py:8-15 | for signals of any lengths, pair `k` is `original[4k]` with `delayed[4k+t]` for `t >= 0`, and `original[4k-t]` with `delayed[4k]` for `t < 0`; each row holds every fourth of the samples its signal has left after the shift by `abs(t)`; `fast_autocorr` succeeds exactly when the rows have one length, which signals of one length always give |
| Correlation.UnequalWindowsStack | fast_align_audio/alignment.py:8-10 | windows of different lengths can still be correlated: four samples against two at lag 0 give one-sample rows |
| Correlation.LookaheadWindows | fast_align_audio/alignment.py:48-58 | without a lookahead, or when the reference is not longer than it, both whole signals are used; otherwise `lookahead` samples starting at the middle of the reference, at the same indices in both signals |
| Correlation.Lags | fast_align_audio/alignment.py:61 | `range(min, max)` lists `min + k` at index `k`, and is empty when `max <= min` |
| Correlation.Coefs | fast_align_audio/alignment.py:60-65 | the coefficient list has one entry per lag, in lag order, and fails exactly when some lag's `fast_autocorr` raises |
| Correlation.FirstArgmax | fast_align_audio/alignment.py:74 | `np.argmax` is the first index of the greatest value |
| Correlation.PickIndex | fast_align_audio/alignment.py:67-74 | the chosen index has the greatest rank (the coefficient, or its magnitude `np.abs` for both polarities), and every earlier index has a strictly smaller rank |
| Correlation.SelectLag | fast_align_audio/alignment.py:60-77 | the reported lag lies in `[min, max)`, and an empty lag range raises |
| Correlation.SelectLagSucceeds | fast_align_audio/alignment.py:60-75 | the selection succeeds exactly when the lag range is non-empty and no lag raises |
| Correlation.SelectLagPicksFirstBest | fast_align_audio/alignment.py:67-77 | the reported lag is the first lag of greatest rank, reported with its signed coefficient |
| Correlation.CorrSearch | fast_align_audio/alignment.py:18-77 | definition: the lag selection over the lookahead windows; characterised by Correlation.CorrSearchPicksFirstBest |
| Correlation.CorrSearchPicksFirstBest | fast_align_audio/alignment.py:18-77 | `find_best_alignment_offset_with_corr_coef` succeeds exactly when the range is non-empty and every lag's rows stack; it then returns the first lag of greatest rank over the lookahead windows, with its coefficient |
| CropPad.PadEnd | fast_align_audio/alignment.py:215-216 | `np.pad(s, (0, w))` keeps `s` and appends `w` zeros |
| CropPad.AlignOp | fast_align_audio/alignment.py:197-202 | "crop" drops the first `offset` samples of `x`; "pad" puts `offset` zeros before `y`; any other mode changes nothing; `_align` at fast_align_audio/fast_align_audio.py:73-78 is the same code |
| CropPad.CropUndoesPad | fast_align_audio/alignment.py:197-202 | cropping `offset` samples from a signal padded by `offset` gives the signal back |
| CropPad.Fix | fast_align_audio/alignment.py:205-219 | None keeps both; "shortest" cuts both to the shorter length, keeping prefixes; "longest" zero-pads both at the end to the longer length; any other mode raises; `_fix` at fast_align_audio/fast_align_audio.py:81-95 is the same code |
| CropPad.FixIdempotent | fast_align_audio/alignment.py:205-219 | fixing the lengths a second time changes nothing |
| CropPad.AlignPair | fast_align_audio/alignment.py:171-177 | definition: `_align` in the direction the offset's sign picks, then `_fix`; characterised by CropPad.AlignPairZeroOffset and CropPad.CropLinesUpPairs |
| CropPad.AlignPairZeroOffset | fast_align_audio/alignment.py:171-177 | with offset 0, neither signal is cropped or padded; only the lengths are fixed |
| CropPad.CropLinesUpPairs | fast_align_audio/alignment.py:171-177 | with "crop", sample `j` of the cropped signal is sample `offset + j` of `a` (or `j - offset` of `b` for a negative offset), which is the pairing the search scored |
| Alignment.DefaultLookahead | fast_align_audio/alignment.py:119-120 | a missing lookahead defaults to a value covering both signals; a given lookahead is passed on unchanged |
| Alignment.NoLookaheadIsUnbounded | fast_align_audio/alignment.py:98-100 | without a lookahead there is no maximum: every scored window is the whole overlap of the shifted signals, and the MSE path gives the result of any lookahead covering both signals |
| Alignment.MseSearch | fast_align_audio/alignment.py:114-141 | definition: the C search with the delayed signal shifted, and for both polarities the inverted search kept when strictly better; characterised by Alignment.PolarityKeepsBetter, Alignment.MseSearchBounds and Alignment.PolarityInvariance |
| Alignment.FindBestAlignmentOffset | fast_align_audio/alignment.py:80-151 | definition: the branch on the method; characterised by Alignment.MethodDispatch |
| Alignment.PolarityKeepsBetter | fast_align_audio/alignment.py:122-141 | the MSE path returns the C result for one polarity; for both polarities it returns the smaller of the two errors, and the inverted scan's offset only when its error is strictly smaller |
| Alignment.MseSearchBounds | fast_align_audio/alignment.py:114-141 | a positive offset indexes the delayed signal and a negative one the reference; a non-zero offset has magnitude below `max_offset_samples`; the error lies between 0 and `LARGE_VAL` |
| Alignment.ScoreMirror | fast_align_audio/alignment.py:133 | inverting the shifted signal gives every candidate the same error as inverting the other signal |
| Alignment.FoldMirror | fast_align_audio/alignment.py:131-138 | the scan over the inverted delayed signal equals the scan against the inverted reference |
| Alignment.PolarityInvariance | fast_align_audio/alignment.py:114-141 | inverting both signals changes neither the offset nor the error of the MSE path |
| Alignment.BothPolaritiesIgnoreInversion | fast_align_audio/alignment.py:130-141 | with both polarities considered, inverting the delayed signal keeps the error found, and keeps the offset unless the two polarities tie |
| Alignment.MethodDispatch | fast_align_audio/alignment.py:114-151 | "mse" always succeeds; "corr" ignores the lookahead, reports a lag in `[-max_offset_samples, max_offset_samples)`, and raises when `max_offset_samples` is 0 (the `argmax` of no coefficients); any other method raises |
| Alignment.Broadcast | fast_align_audio/alignment.py:191-193 | a slice assignment succeeds exactly when the source has the slot's length or one sample; the slot's length is kept, a source of the slot's length is copied, and a single sample is repeated across the slot |
| Alignment.AlignDelayed | fast_align_audio/alignment.py:181-194 | definition: a zero signal of the reference's length with the shifted delayed signal assigned into it, as written; characterised by Alignment.AlignDelayedShifts, Alignment.ZeroOffsetFails and Alignment.ZeroOffsetZeroesOneSample |
| Alignment.AlignDelayedShifts | fast_align_audio/alignment.py:181-194 | for equal lengths and a non-zero offset: success, the length of the reference, and sample `j` is `delayed[j + offset]` where that exists and 0 elsewhere |
| Alignment.ZeroOffsetFails | fast_align_audio/alignment.py:192-193 | offset 0 raises for any delayed signal of two or more samples, whatever the reference's length |
| Alignment.ZeroOffsetZeroesOneSample | fast_align_audio/alignment.py:192-193 | offset 0 with a one-sample delayed signal succeeds silently and returns zeros of the reference's length |
| Alignment.AlignDelayedFixed | fast_align_audio/alignment.py:181-194 | definition: as written, except that offset 0 copies the delayed signal; characterised by Alignment.AlignDelayedFixedShifts and Alignment.ShiftRoundTrip |
| Alignment.AlignDelayedFixedShifts | fast_align_audio/alignment.py:181-194 | with offset 0 handled as a plain copy, the shift formula holds for every offset |
| Alignment.ShiftRoundTrip | fast_align_audio/alignment.py:181-194 | with the corrected shift, shifting by `k` and then by `-k` restores the signal, except that its first `k` samples become 0 (for `k = 0` nothing changes) |
| Alignment.UndoesDelay | fast_align_audio/alignment.py:192-193 | with the corrected shift, a signal delayed by `k` samples is put back in line by offset `k`, apart from the `k` samples lost at the end |
| Alignment.UndoesAdvance | fast_align_audio/alignment.py:189-191 | with the corrected shift, a signal advanced by `k` samples is put back in line by offset `-k`, apart from the `k` samples lost at the front |
| Alignment.Align | fast_align_audio/alignment.py:154-178 | definition: the MSE offset of `a` against `b`, then CropPad.AlignPair; characterised by FastAlignAudio.AlignsAgree and FastAlignAudio.SelfAlignIsIdentity |
| Alignment.PaddedReferenceFound | tests/test_find_best_alignment_offset.py:14-20 | the reference `[0,1,0,0]`, padded with one zero in front, is found at offset `+1` with error 0 |
| Alignment.PaddedScan | fast_align_audio/_faa.c:56-79 | `[0,0,1,0,0]` against `[0,1,0,0]`, with maximum offset 4 and lookahead 5, yields offset `+1` with error 0 |
| Alignment.PaddedSignalFound | tests/test_find_best_alignment_offset.py:14-20 | any non-empty reference padded with `k` zeros in front, `k` below `max_offset_samples`, is found by the "mse" method with error 0, and at offset `+k` when no candidate of the first `k` passes matches exactly |
| Alignment.DelayedByOneSample | tests/test_alignment.py:23-34 | `[0,0,1,0]` against `[0,1,0,0]` gives offset `+1`, and `align_delayed_signal_with_reference` as written, shifting by it, restores the reference |
| Alignment.AdvancedByOneSample | tests/test_alignment.py:36-47 | `[1,0,0,0]` against `[0,1,0,0]` gives offset `-1`, and `align_delayed_signal_with_reference` as written, shifting by it, restores the reference |
| FastAlignAudio.BestOffset | fast_align_audio/fast_align_audio.py:5-44 | definition: the offset of the C search with `a` shifted against `b`; characterised by FastAlignAudio.BestOffsetIsMseOffset and FastAlignAudio.BestOffsetBounds |
| FastAlignAudio.Align | fast_align_audio/fast_align_audio.py:47-70 | definition: `best_offset`, then the crop or pad and the length fix; characterised by FastAlignAudio.AlignsAgree |
| FastAlignAudio.BestOffsetIsMseOffset | fast_align_audio/fast_align_audio.py:5-44 | `best_offset(a, b)` is the offset `find_best_alignment_offset(b, a)` reports with the MSE method and one polarity |
| FastAlignAudio.BestOffsetBounds | fast_align_audio/fast_align_audio.py:5-44 | a positive offset indexes `a`, a negative one indexes `b`, and a non-zero one has magnitude below `max_offset` |
| FastAlignAudio.AlignsAgree | fast_align_audio/fast_align_audio.py:47-70 | the older `align` and the `align` of alignment.py return the same result for every input |
| FastAlignAudio.SelfAlignIsIdentity | fast_align_audio/fast_align_audio.py:47-70 | a non-empty signal aligned with itself gets offset 0, and "crop" without a length fix returns both copies unchanged |

## Left out

- Floating point. Samples and errors are reals. float32 rounding, the
  order in which lanes are summed, and `float` against `double` are not
  modelled. Nor is `pow(x, 2)` against `x * x`, which are equal over reals.
- NaN. For an empty window, C computes 0/0. That is NaN, and NaN never
  compares smaller, so the model treats such a candidate as skipped.
  NaN samples in the input are not modelled.
- Vectors and memory. AVX registers are modelled as 8-element sequences.
  `memcpy` and aligned and unaligned loads are copies with no effect on the
  values. The pointer casts of alignment.py hand the C code the arrays'
  data in place; the lifetime of that data is not modelled (see
  `Alignment.MseSearch` below).
- Alignment.MseSearch: assumes the inverted scan reads `-delayed_signal`.
  At fast_align_audio/alignment.py:133 the pointer comes from the
  temporary array `-delayed_signal`, which nothing keeps alive once
  `.ctypes.data` has been taken, so the C call may read freed memory. The
  model does not represent that use-after-free.
- Integer widths. Lengths, `max_offset` and `max_lookahead` are
  non-negative integers. Python values are not wrapped into `size_t`. A
  negative argument (`max_offset_samples` or a lookahead) is not modelled.
  Nor is the `int` truncation of the offset in `MinResult`; it is exact for
  offsets below 2^31.
- The foreign-function declaration. fast_align_audio/_fast_align_audio_cffi.py
  declares `fast_find_alignment` as returning `ssize_t`, while _faa.c
  returns the struct `MinResult`, and alignment.py reads `min_idx` and
  `min_val` from it. The model follows the C code and alignment.py. For
  fast_align_audio.py, `best_offset` is read as returning `min_idx`.
- The argument checks. The dtype, contiguity and `ndim` assertions are
  not modelled. Signals are one-dimensional sequences of reals.
- `np.corrcoef`. It is a parameter of the correlation functions, so
  nothing is assumed about the coefficient it returns. It returns NaN for a
  constant or too-short row, and `np.argmax` then picks the first NaN.
  Neither behaviour is modelled: coefficients are reals.
- Kernel.FastMse: requires a non-empty window. For an empty window the C
  code divides 0 by 0. The scan skips such a candidate rather than calling
  the kernel (`OffsetScan.ScoreCandidate`).
- `np.floor(len / 2)`. It is integer division of a length, so the model
  computes it exactly.
- Alignment.AlignDelayedShifts: only signals of equal length with a
  non-zero offset are characterised in full. Any other length pair, with
  every broadcasting outcome, is defined by `Alignment.AlignDelayed` and
  `Alignment.Broadcast`, but no shift formula is stated for it.
- Left outside the model: the audio loading in the tests, librosa, the
  fastalign.py script, and the build scripts.

## Findings

| source | as written | input that shows it | evidently intended | confidence | as-written member | corrected member |
|---|---|---|---|---|---|---|
| fast_align_audio/alignment.py:192-193 | for offset 0, `placeholder[0:-0]` is the empty slice `placeholder[0:0]`, and the whole `delayed_signal[0:]` is assigned into it: numpy refuses a delayed signal of two or more samples, and broadcasts a one-sample one into the empty slot, so the result is all zeros | reference and delayed both `[0.0, 1.0]`, offset 0 (the offset the search reports for signals already in line), raises; reference `[0.0, 1.0]` with delayed `[0.5]` returns `[0.0, 0.0]` | offset 0 copies the delayed signal unchanged | high for numpy's broadcasting rule; not executed | Alignment.ZeroOffsetFails, Alignment.ZeroOffsetZeroesOneSample | Alignment.AlignDelayedFixedShifts |
