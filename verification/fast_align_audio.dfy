/** fast_align_audio/fast_align_audio.py: the older entry points
  `best_offset` and `align`, both over the C search.
 */
module FastAlignAudio {
  import opened Signals
  import opened Errors
  import opened OffsetScan
  import opened CropPad
  import Alignment

  /** `best_offset(a, b, max_offset, max_lookahead)`: the offset of `a` with
      respect to `b` the C search reports, with the lookahead defaulting to
      the longer length. */
  function BestOffset(a: seq<real>, b: seq<real>, maxOffset: nat, maxLookahead: Option<nat>): int
  {
    var la := if maxLookahead.None? then Max(|a|, |b|) else maxLookahead.value;
    Search(a, b, maxOffset, la).minIdx
  }

  /** `align(a, b, ...)`: the best offset, then crop or pad, then the length fix. */
  function Align(a: seq<real>, b: seq<real>, maxOffset: nat, maxLookahead: Option<nat>,
                 alignMode: string, fixLength: Option<string>): Result<(seq<real>, seq<real>)>
  {
    AlignPair(a, b, BestOffset(a, b, maxOffset, maxLookahead), alignMode, fixLength)
  }

  /** `best_offset(a, b)` is the offset `find_best_alignment_offset(b, a)` reports
      with the MSE method on one polarity: both put `a` in the shifted role. */
  lemma BestOffsetIsMseOffset(a: seq<real>, b: seq<real>, maxOffset: nat, maxLookahead: Option<nat>)
    ensures BestOffset(a, b, maxOffset, maxLookahead) == Alignment.MseSearch(b, a, maxOffset, maxLookahead, false).0
  {
  }

  /** The older `align` and the one in alignment.py agree on every input. */
  lemma AlignsAgree(a: seq<real>, b: seq<real>, maxOffset: nat, maxLookahead: Option<nat>,
                    alignMode: string, fixLength: Option<string>)
    ensures Align(a, b, maxOffset, maxLookahead, alignMode, fixLength)
         == Alignment.Align(a, b, maxOffset, maxLookahead, alignMode, fixLength)
  {
    BestOffsetIsMseOffset(a, b, maxOffset, maxLookahead);
  }

  /** Bounds on `best_offset`: a positive offset indexes `a`, a negative one
      indexes `b`, and its magnitude stays below `max_offset`. */
  lemma BestOffsetBounds(a: seq<real>, b: seq<real>, maxOffset: nat, maxLookahead: Option<nat>)
    ensures var k := BestOffset(a, b, maxOffset, maxLookahead);
      && (k > 0 ==> k < |a|)
      && (k < 0 ==> -k < |b|)
      && (k == 0 || (k < maxOffset && -k < maxOffset))
  {
    var la := if maxLookahead.None? then Max(|a|, |b|) else maxLookahead.value;
    SearchBounds(a, b, maxOffset, la);
  }

  /** A signal aligned with itself needs no shift, and aligning it with
      "crop" and no length fix returns both copies untouched. */
  lemma SelfAlignIsIdentity(a: seq<real>, maxOffset: nat)
    requires |a| > 0 && maxOffset > 0
    ensures BestOffset(a, a, maxOffset, None) == 0
    ensures Align(a, a, maxOffset, None, "crop", None) == Success((a, a))
  {
    SelfAlignment(a, maxOffset, Max(|a|, |a|));
    AlignPairZeroOffset(a, a, "crop", None);
  }
}
