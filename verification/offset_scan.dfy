/** The offset search `fast_find_alignment` of fast_align_audio/_faa.c.

  For `i = 0, 1, ...` below `min(max(|a|, |b|), max_offset)` the search scores
  two candidates: the forward shift `+i` (window `a[i..]` against `b`) and the
  backward shift `-i` (window `a` against `b[i..]`). Each window is clipped to
  the samples both sides have left and to the lookahead. The incumbent
  `(min_idx, min_val)` starts at `(0, LargeVal)` and is replaced only by a
  strictly smaller score; the incumbent's score is also the early-abort
  threshold handed to the kernel.

  The specification is a plain left fold over the candidates in scan order
  with exact mean squared errors; `FindAlignment` is the C loop with the
  early-aborting kernel, and is proved to compute the fold.
 */
module OffsetScan {
  import opened Signals
  import Kernel

  /** The C struct `MinResult`: best offset so far and its score. */
  datatype MinResult = MinResult(minIdx: int, minVal: real)

  /** The incumbent before any candidate is scored. */
  const Initial: MinResult := MinResult(0, LargeVal)

  /** A shift of `a` against `b`: `Forward(i)` compares `a[i..]` with `b`,
      `Backward(i)` compares `a` with `b[i..]`. */
  datatype Candidate = Forward(i: nat) | Backward(i: nat)

  /** The offset the search reports for a candidate: `+i` or `-i`. */
  function Offset(c: Candidate): int
  {
    match c
    case Forward(i) => i
    case Backward(i) => -(i as int)
  }

  /** The guard under which the C loop scores a candidate: the shifted
      signal still has a sample at index `i`. */
  predicate InScan(aLen: nat, bLen: nat, c: Candidate)
  {
    match c
    case Forward(i) => i < aLen
    case Backward(i) => i < bLen
  }

  predicate AllInScan(aLen: nat, bLen: nat, cs: seq<Candidate>)
  {
    forall k :: 0 <= k < |cs| ==> InScan(aLen, bLen, cs[k])
  }

  /** Candidates of the first `k` passes of the loop, in the order they are
      scored: `+0, -0, +1, -1, ...`, each only when its guard holds. */
  function ScanOrder(aLen: nat, bLen: nat, k: nat): (cs: seq<Candidate>)
    ensures AllInScan(aLen, bLen, cs)
  {
    if k == 0 then []
    else
      ScanOrder(aLen, bLen, k - 1)
      + (if k - 1 < aLen then [Forward(k - 1)] else [])
      + (if k - 1 < bLen then [Backward(k - 1)] else [])
  }

  /** The number of sample pairs the kernel compares for a candidate:
      `my_min3(a_len - i, b_len, max_lookahead)` or
      `my_min3(a_len, b_len - i, max_lookahead)`. Reads stay in bounds:
      the window fits inside both shifted signals. */
  function Window(a: seq<real>, b: seq<real>, la: nat, c: Candidate): (n: nat)
    requires InScan(|a|, |b|, c)
    ensures c.Forward? ==> n <= |a| - c.i && n <= |b|
    ensures c.Backward? ==> n <= |a| && n <= |b| - c.i
  {
    match c
    case Forward(i) => Min3(|a| - i, |b|, la)
    case Backward(i) => Min3(|a|, |b| - i, la)
  }

  /** The exact mean squared error of a candidate's window. */
  function Score(a: seq<real>, b: seq<real>, la: nat, c: Candidate): real
    requires InScan(|a|, |b|, c) && Window(a, b, la, c) > 0
  {
    var n := Window(a, b, la, c);
    match c
    case Forward(i) => Mse(a[i..], b, n)
    case Backward(i) => Mse(a, b[i..], n)
  }

  /** A candidate that can take over: its window is not empty and its score
      is strictly below the incumbent's. An empty window makes the C kernel
      divide 0 by 0; the resulting NaN never compares smaller. */
  predicate Improves(a: seq<real>, b: seq<real>, la: nat, r: MinResult, c: Candidate)
    requires InScan(|a|, |b|, c)
  {
    Window(a, b, la, c) > 0 && Score(a, b, la, c) < r.minVal
  }

  /** Scoring one candidate against the incumbent. */
  function Step(r: MinResult, a: seq<real>, b: seq<real>, la: nat, c: Candidate): (r': MinResult)
    requires InScan(|a|, |b|, c)
    ensures r'.minVal <= r.minVal
    ensures Improves(a, b, la, r, c) ==> r' == MinResult(Offset(c), Score(a, b, la, c))
    ensures !Improves(a, b, la, r, c) ==> r' == r
  {
    if Improves(a, b, la, r, c) then MinResult(Offset(c), Score(a, b, la, c)) else r
  }

  /** The naive search: score the candidates one after another from `Initial`. */
  function Fold(a: seq<real>, b: seq<real>, la: nat, cs: seq<Candidate>): MinResult
    requires AllInScan(|a|, |b|, cs)
  {
    if |cs| == 0 then Initial
    else Step(Fold(a, b, la, cs[..|cs| - 1]), a, b, la, cs[|cs| - 1])
  }

  /** The loop bound of `fast_find_alignment`. */
  function Bound(aLen: nat, bLen: nat, maxOffset: nat): (n: nat)
    ensures n <= maxOffset && (n <= aLen || n <= bLen)
    ensures n == maxOffset || n == aLen || n == bLen
  {
    Min(Max(aLen, bLen), maxOffset)
  }

  /** What `fast_find_alignment(|a|, a, |b|, b, maxOffset, la)` returns. */
  function Search(a: seq<real>, b: seq<real>, maxOffset: nat, la: nat): MinResult
  {
    Fold(a, b, la, ScanOrder(|a|, |b|, Bound(|a|, |b|, maxOffset)))
  }

  /** Scoring one more candidate is one more step of the fold. */
  lemma FoldSnoc(a: seq<real>, b: seq<real>, la: nat, cs: seq<Candidate>, c: Candidate)
    requires AllInScan(|a|, |b|, cs) && InScan(|a|, |b|, c)
    ensures AllInScan(|a|, |b|, cs + [c])
    ensures Fold(a, b, la, cs + [c]) == Step(Fold(a, b, la, cs), a, b, la, c)
  {
    assert (cs + [c])[..|cs|] == cs;
  }

  /** Candidate `j` produces `r`: its window is not empty, `r` is its offset
      and score, that score is below `LargeVal`, and every earlier candidate
      scores strictly more. */
  predicate AttainedAt(a: seq<real>, b: seq<real>, la: nat, cs: seq<Candidate>, r: MinResult, j: nat)
    requires AllInScan(|a|, |b|, cs)
  {
    && j < |cs| && Window(a, b, la, cs[j]) > 0
    && r == MinResult(Offset(cs[j]), Score(a, b, la, cs[j]))
    && r.minVal < LargeVal
    && forall k :: 0 <= k < j && Window(a, b, la, cs[k]) > 0 ==> r.minVal < Score(a, b, la, cs[k])
  }

  /** The reference characterisation of the fold's result: it is the first
      candidate in scan order whose score is the least of all scores and below
      `LargeVal`; when no score is below `LargeVal` it is `Initial`. */
  predicate IsFirstStrictMinimum(a: seq<real>, b: seq<real>, la: nat, cs: seq<Candidate>, r: MinResult)
    requires AllInScan(|a|, |b|, cs)
  {
    && r.minVal <= LargeVal
    && (forall k :: 0 <= k < |cs| && Window(a, b, la, cs[k]) > 0 ==> r.minVal <= Score(a, b, la, cs[k]))
    && (r == Initial || exists j: nat :: j < |cs| && AttainedAt(a, b, la, cs, r, j))
  }

  /** The fold's score is at most `LargeVal` and at most every candidate's
      score. */
  lemma {:induction false} FoldIsLowerBound(a: seq<real>, b: seq<real>, la: nat, cs: seq<Candidate>)
    requires AllInScan(|a|, |b|, cs)
    ensures Fold(a, b, la, cs).minVal <= LargeVal
    ensures forall k :: 0 <= k < |cs| && Window(a, b, la, cs[k]) > 0 ==> Fold(a, b, la, cs).minVal <= Score(a, b, la, cs[k])
  {
    if |cs| > 0 {
      var init := cs[..|cs| - 1];
      FoldIsLowerBound(a, b, la, init);
      forall k | 0 <= k < |cs| && Window(a, b, la, cs[k]) > 0
        ensures Fold(a, b, la, cs).minVal <= Score(a, b, la, cs[k])
      {
        if k < |cs| - 1 {
          assert cs[k] == init[k];
        }
      }
    }
  }

  /** The fold's result is `Initial` or produced by one of the candidates. */
  lemma {:induction false} FoldIsAttained(a: seq<real>, b: seq<real>, la: nat, cs: seq<Candidate>)
    requires AllInScan(|a|, |b|, cs)
    ensures Fold(a, b, la, cs) == Initial || exists j: nat :: j < |cs| && AttainedAt(a, b, la, cs, Fold(a, b, la, cs), j)
  {
    if |cs| > 0 {
      var init := cs[..|cs| - 1];
      var c := cs[|cs| - 1];
      var p := Fold(a, b, la, init);
      var r := Fold(a, b, la, cs);
      assert r == Step(p, a, b, la, c);
      if Improves(a, b, la, p, c) {
        FoldIsLowerBound(a, b, la, init);
        assert forall k :: 0 <= k < |init| ==> cs[k] == init[k];
        AttainedByLast(a, b, la, cs, p, r);
      } else {
        FoldIsAttained(a, b, la, init);
        if p != Initial {
          var j: nat :| j < |init| && AttainedAt(a, b, la, init, p, j);
          AttainedInPrefix(a, b, la, init, cs, p, j);
        }
      }
    }
  }

  /** The last candidate produces the result when it beat an incumbent that
      was at most every earlier score. */
  lemma AttainedByLast(a: seq<real>, b: seq<real>, la: nat, cs: seq<Candidate>, p: MinResult, r: MinResult)
    requires AllInScan(|a|, |b|, cs) && |cs| > 0
    requires forall k :: 0 <= k < |cs| - 1 && Window(a, b, la, cs[k]) > 0 ==> p.minVal <= Score(a, b, la, cs[k])
    requires p.minVal <= LargeVal && Improves(a, b, la, p, cs[|cs| - 1])
    requires r == MinResult(Offset(cs[|cs| - 1]), Score(a, b, la, cs[|cs| - 1]))
    ensures AttainedAt(a, b, la, cs, r, |cs| - 1)
  {
  }

  /** A candidate that produces a result among a prefix still produces it
      among the longer list. */
  lemma AttainedInPrefix(a: seq<real>, b: seq<real>, la: nat, init: seq<Candidate>, cs: seq<Candidate>, r: MinResult, j: nat)
    requires AllInScan(|a|, |b|, cs) && init <= cs
    requires AllInScan(|a|, |b|, init) && AttainedAt(a, b, la, init, r, j)
    ensures AttainedAt(a, b, la, cs, r, j)
  {
    assert forall k :: 0 <= k < |init| ==> cs[k] == init[k];
  }

  /** The fold computes the first strict minimum: ties keep the earliest
      candidate, and a score equal to the incumbent's never takes over. */
  lemma FoldIsFirstStrictMinimum(a: seq<real>, b: seq<real>, la: nat, cs: seq<Candidate>)
    requires AllInScan(|a|, |b|, cs)
    ensures IsFirstStrictMinimum(a, b, la, cs, Fold(a, b, la, cs))
  {
    FoldIsLowerBound(a, b, la, cs);
    FoldIsAttained(a, b, la, cs);
  }

  /** The characterisation pins the result down: any two results that are
      first strict minima of the same candidates are equal. */
  lemma FirstStrictMinimumIsUnique(a: seq<real>, b: seq<real>, la: nat, cs: seq<Candidate>, r1: MinResult, r2: MinResult)
    requires AllInScan(|a|, |b|, cs)
    requires IsFirstStrictMinimum(a, b, la, cs, r1) && IsFirstStrictMinimum(a, b, la, cs, r2)
    ensures r1 == r2
  {
    if r1 != Initial && r2 != Initial {
      var j1: nat :| j1 < |cs| && AttainedAt(a, b, la, cs, r1, j1);
      var j2: nat :| j2 < |cs| && AttainedAt(a, b, la, cs, r2, j2);
      assert r1.minVal == r2.minVal;
      assert j1 == j2;
    }
  }

  /** The fold is the only first strict minimum. */
  lemma FoldCharacterised(a: seq<real>, b: seq<real>, la: nat, cs: seq<Candidate>, r: MinResult)
    requires AllInScan(|a|, |b|, cs)
    ensures IsFirstStrictMinimum(a, b, la, cs, r) <==> Fold(a, b, la, cs) == r
  {
    FoldIsFirstStrictMinimum(a, b, la, cs);
    if IsFirstStrictMinimum(a, b, la, cs, r) {
      FirstStrictMinimumIsUnique(a, b, la, cs, r, Fold(a, b, la, cs));
    }
  }

  lemma ScoresNonnegative(a: seq<real>, b: seq<real>, la: nat, cs: seq<Candidate>)
    requires AllInScan(|a|, |b|, cs)
    ensures forall k :: 0 <= k < |cs| && Window(a, b, la, cs[k]) > 0 ==> 0.0 <= Score(a, b, la, cs[k])
    ensures 0.0 <= Fold(a, b, la, cs).minVal
  {
    FoldIsAttained(a, b, la, cs);
    forall k | 0 <= k < |cs| && Window(a, b, la, cs[k]) > 0
      ensures 0.0 <= Score(a, b, la, cs[k])
    {
      var n := Window(a, b, la, cs[k]);
      match cs[k]
      case Forward(i) => MseNonnegative(a[i..], b, n);
      case Backward(i) => MseNonnegative(a, b[i..], n);
    }
  }

  /** A signal aligned with itself: the very first candidate `+0` scores a
      perfect 0, so the search reports offset 0 with error 0. */
  lemma SelfAlignment(a: seq<real>, maxOffset: nat, la: nat)
    requires |a| > 0 && maxOffset > 0 && la > 0
    ensures Search(a, a, maxOffset, la) == MinResult(0, 0.0)
  {
    var cs := ScanOrder(|a|, |a|, Bound(|a|, |a|, maxOffset));
    assert ScanOrder(|a|, |a|, 1) == [Forward(0), Backward(0)];
    ScanOrderPrefix(|a|, |a|, 1, Bound(|a|, |a|, maxOffset));
    assert cs[0] == Forward(0);
    assert a[0..] == a;
    SumSqSelf(a, Window(a, a, la, Forward(0)));
    ScoresNonnegative(a, a, la, cs);
    assert AttainedAt(a, a, la, cs, MinResult(0, 0.0), 0);
    FoldCharacterised(a, a, la, cs, MinResult(0, 0.0));
  }

  /** An exact match wins when every candidate scored before it has a
      positive error: nothing can beat a score of 0, and ties keep the
      earlier candidate. */
  lemma ExactMatchWins(a: seq<real>, b: seq<real>, la: nat, cs: seq<Candidate>, j: nat)
    requires AllInScan(|a|, |b|, cs) && j < |cs|
    requires Window(a, b, la, cs[j]) > 0 && Score(a, b, la, cs[j]) == 0.0
    requires forall k :: 0 <= k < j && Window(a, b, la, cs[k]) > 0 ==> Score(a, b, la, cs[k]) > 0.0
    ensures Fold(a, b, la, cs) == MinResult(Offset(cs[j]), 0.0)
  {
    ScoresNonnegative(a, b, la, cs);
    assert AttainedAt(a, b, la, cs, MinResult(Offset(cs[j]), 0.0), j);
    FoldCharacterised(a, b, la, cs, MinResult(Offset(cs[j]), 0.0));
  }

  /** The delayed signal `[0, 0, 1, 0]` against the reference `[0, 1, 0, 0]`:
      the shift `+1` matches exactly and the two shift-0 candidates before it
      score 0.5. */
  lemma PositiveOffsetExample()
    ensures Search([0.0, 0.0, 1.0, 0.0], [0.0, 1.0, 0.0, 0.0], 4, 4) == MinResult(1, 0.0)
  {
    var a := [0.0, 0.0, 1.0, 0.0];
    var b := [0.0, 1.0, 0.0, 0.0];
    var cs := ScanOrder(4, 4, 4);
    assert ScanOrder(4, 4, 2) == [Forward(0), Backward(0), Forward(1), Backward(1)] by {
      assert ScanOrder(4, 4, 1) == [Forward(0), Backward(0)];
    }
    ScanOrderPrefix(4, 4, 2, 4);
    assert cs[0] == Forward(0) && cs[1] == Backward(0) && cs[2] == Forward(1) && cs[3] == Backward(1);
    assert a[0..] == a && b[0..] == b;
    assert SumSq(a, b, 4) == 2.0 by {
      assert SumSq(a, b, 1) == 0.0;
      assert SumSq(a, b, 2) == 1.0;
      assert SumSq(a, b, 3) == 2.0;
    }
    assert SumSq(a[1..], b, 3) == 0.0 by {
      assert SumSq(a[1..], b, 1) == 0.0;
      assert SumSq(a[1..], b, 2) == 0.0;
    }
    assert Score(a, b, 4, cs[0]) == 0.5;
    assert Score(a, b, 4, cs[1]) == 0.5;
    assert Score(a, b, 4, cs[2]) == 0.0;
    ExactMatchWins(a, b, 4, cs, 2);
    assert Search(a, b, 4, 4) == Fold(a, b, 4, cs);
  }

  /** The delayed signal `[1, 0, 0, 0]` against the reference `[0, 1, 0, 0]`:
      the shift `-1` matches exactly, after candidates scoring 0.5, 0.5 and 1/3. */
  lemma NegativeOffsetExample()
    ensures Search([1.0, 0.0, 0.0, 0.0], [0.0, 1.0, 0.0, 0.0], 4, 4) == MinResult(-1, 0.0)
  {
    var a := [1.0, 0.0, 0.0, 0.0];
    var b := [0.0, 1.0, 0.0, 0.0];
    var cs := ScanOrder(4, 4, 4);
    assert ScanOrder(4, 4, 2) == [Forward(0), Backward(0), Forward(1), Backward(1)] by {
      assert ScanOrder(4, 4, 1) == [Forward(0), Backward(0)];
    }
    ScanOrderPrefix(4, 4, 2, 4);
    assert cs[0] == Forward(0) && cs[1] == Backward(0) && cs[2] == Forward(1) && cs[3] == Backward(1);
    assert a[0..] == a && b[0..] == b;
    assert SumSq(a, b, 4) == 2.0 by {
      assert SumSq(a, b, 1) == 1.0;
      assert SumSq(a, b, 2) == 2.0;
      assert SumSq(a, b, 3) == 2.0;
    }
    assert SumSq(a[1..], b, 3) == 1.0 by {
      assert SumSq(a[1..], b, 1) == 0.0;
      assert SumSq(a[1..], b, 2) == 1.0;
    }
    assert SumSq(a, b[1..], 3) == 0.0 by {
      assert SumSq(a, b[1..], 1) == 0.0;
      assert SumSq(a, b[1..], 2) == 0.0;
    }
    assert Score(a, b, 4, cs[0]) == 0.5;
    assert Score(a, b, 4, cs[1]) == 0.5;
    assert Score(a, b, 4, cs[2]) == 1.0 / 3.0;
    assert Score(a, b, 4, cs[3]) == 0.0;
    ExactMatchWins(a, b, 4, cs, 3);
    assert Search(a, b, 4, 4) == Fold(a, b, 4, cs);
  }

  /** Scanning fewer passes scores a prefix of the candidates. */
  lemma {:induction false} ScanOrderPrefix(aLen: nat, bLen: nat, k: nat, k': nat)
    requires k <= k'
    ensures ScanOrder(aLen, bLen, k) <= ScanOrder(aLen, bLen, k')
  {
    if k < k' {
      ScanOrderPrefix(aLen, bLen, k, k' - 1);
    }
  }

  /** Scoring more candidates never raises the best score. */
  lemma {:induction false} FoldPrefixMinVal(a: seq<real>, b: seq<real>, la: nat, cs: seq<Candidate>, cs': seq<Candidate>)
    requires AllInScan(|a|, |b|, cs') && cs <= cs'
    ensures AllInScan(|a|, |b|, cs)
    ensures Fold(a, b, la, cs').minVal <= Fold(a, b, la, cs).minVal
  {
    assert forall k :: 0 <= k < |cs| ==> cs[k] == cs'[k];
    if |cs| < |cs'| {
      var init := cs'[..|cs'| - 1];
      assert cs <= init;
      FoldPrefixMinVal(a, b, la, cs, init);
      assert Fold(a, b, la, cs') == Step(Fold(a, b, la, init), a, b, la, cs'[|cs'| - 1]);
    } else {
      assert cs == cs';
    }
  }

  /** Every candidate of the first `k` passes has shift below `k`. */
  lemma {:induction false} ScanOrderShifts(aLen: nat, bLen: nat, k: nat)
    ensures forall j :: 0 <= j < |ScanOrder(aLen, bLen, k)| ==> ScanOrder(aLen, bLen, k)[j].i < k
  {
    if k > 0 {
      ScanOrderShifts(aLen, bLen, k - 1);
    }
  }

  /** The reported offset is `0` or the offset of a scored candidate. */
  lemma {:induction false} FoldOffsetFromCandidates(a: seq<real>, b: seq<real>, la: nat, cs: seq<Candidate>)
    requires AllInScan(|a|, |b|, cs)
    ensures Fold(a, b, la, cs).minIdx == 0
         || exists j :: 0 <= j < |cs| && Fold(a, b, la, cs).minIdx == Offset(cs[j])
    ensures Fold(a, b, la, cs).minVal <= LargeVal
  {
    if |cs| > 0 {
      var init := cs[..|cs| - 1];
      FoldOffsetFromCandidates(a, b, la, init);
      if Fold(a, b, la, cs).minIdx != 0 && Fold(a, b, la, cs) == Fold(a, b, la, init) {
        var j :| 0 <= j < |init| && Fold(a, b, la, init).minIdx == Offset(init[j]);
        assert cs[j] == init[j];
      }
    }
  }

  /** Bounds on the result of `fast_find_alignment`: a positive offset is an
      index of `a`, a negative one an index of `b`, the offset's magnitude
      stays below `maxOffset`, and the score never exceeds `LargeVal`. */
  lemma SearchBounds(a: seq<real>, b: seq<real>, maxOffset: nat, la: nat)
    ensures var r := Search(a, b, maxOffset, la);
      && (r.minIdx > 0 ==> r.minIdx < |a|)
      && (r.minIdx < 0 ==> -r.minIdx < |b|)
      && (r.minIdx == 0 || (r.minIdx < maxOffset && -r.minIdx < maxOffset))
      && 0.0 <= r.minVal <= LargeVal
  {
    var k := Bound(|a|, |b|, maxOffset);
    var cs := ScanOrder(|a|, |b|, k);
    ScoresNonnegative(a, b, la, cs);
    FoldOffsetFromCandidates(a, b, la, cs);
    ScanOrderShifts(|a|, |b|, k);
    var r := Search(a, b, maxOffset, la);
    if r.minIdx != 0 {
      var j :| 0 <= j < |cs| && r.minIdx == Offset(cs[j]);
      assert InScan(|a|, |b|, cs[j]);
    }
  }

  /** A lookahead at least as long as both signals never clips a window:
      each window is all the samples the two shifted signals have in common. */
  lemma WindowUnclipped(a: seq<real>, b: seq<real>, la: nat, c: Candidate)
    requires InScan(|a|, |b|, c) && la >= |a| && la >= |b|
    ensures c.Forward? ==> Window(a, b, la, c) == Min(|a| - c.i, |b|)
    ensures c.Backward? ==> Window(a, b, la, c) == Min(|a|, |b| - c.i)
  {
  }

  /** Any two lookaheads that cover both signals give the same scan. */
  lemma {:induction false} FoldUnclipped(a: seq<real>, b: seq<real>, la: nat, la': nat, cs: seq<Candidate>)
    requires AllInScan(|a|, |b|, cs)
    requires la >= |a| && la >= |b| && la' >= |a| && la' >= |b|
    ensures Fold(a, b, la, cs) == Fold(a, b, la', cs)
  {
    if |cs| > 0 {
      var c := cs[|cs| - 1];
      FoldUnclipped(a, b, la, la', cs[..|cs| - 1]);
      WindowUnclipped(a, b, la, c);
      WindowUnclipped(a, b, la', c);
      assert Window(a, b, la, c) == Window(a, b, la', c);
    }
  }

  /** The two candidates of pass `i`, `+i` and `-i`, both have a window and
      both score `v`. */
  predicate PassTie(a: seq<real>, b: seq<real>, la: nat, i: nat, v: real)
  {
    && i < |a| && i < |b|
    && Window(a, b, la, Forward(i)) > 0 && Window(a, b, la, Backward(i)) > 0
    && Score(a, b, la, Forward(i)) == v && Score(a, b, la, Backward(i)) == v
  }

  /** What the scan with the two signals swapped reports when the scan
      reports `r`: the same score, and the negated offset unless the winning
      pass is a tie, which both scans settle on `+i`. */
  function Mirror(a: seq<real>, b: seq<real>, la: nat, r: MinResult): MinResult
  {
    MinResult(if r.minIdx > 0 && PassTie(a, b, la, r.minIdx as nat, r.minVal) then r.minIdx else -r.minIdx, r.minVal)
  }

  /** One pass of the scan: `+i` when `i < |a|`, then `-i` when `i < |b|`. */
  function Pass(r: MinResult, a: seq<real>, b: seq<real>, la: nat, i: nat): MinResult
  {
    var r1 := if i < |a| then Step(r, a, b, la, Forward(i)) else r;
    if i < |b| then Step(r1, a, b, la, Backward(i)) else r1
  }

  /** The fold over `k` passes is one more pass over the fold of `k - 1`. */
  lemma FoldPass(a: seq<real>, b: seq<real>, la: nat, k: nat)
    requires k > 0
    ensures Fold(a, b, la, ScanOrder(|a|, |b|, k)) == Pass(Fold(a, b, la, ScanOrder(|a|, |b|, k - 1)), a, b, la, k - 1)
  {
    var i := k - 1;
    var cs := ScanOrder(|a|, |b|, i);
    var cs1 := if i < |a| then cs + [Forward(i)] else cs;
    if i < |a| {
      FoldSnoc(a, b, la, cs, Forward(i));
    }
    if i < |b| {
      FoldSnoc(a, b, la, cs1, Backward(i));
    }
    assert ScanOrder(|a|, |b|, k) == if i < |b| then cs1 + [Backward(i)] else cs1;
  }

  /** Swapping the signals swaps the roles of `+i` and `-i`: the swapped
      scan's `-i` is the window and score of `+i`, and conversely. */
  lemma SwapScores(a: seq<real>, b: seq<real>, la: nat, i: nat)
    ensures i < |a| ==> Window(b, a, la, Backward(i)) == Window(a, b, la, Forward(i))
    ensures i < |a| && Window(a, b, la, Forward(i)) > 0 ==> Score(b, a, la, Backward(i)) == Score(a, b, la, Forward(i))
    ensures i < |b| ==> Window(b, a, la, Forward(i)) == Window(a, b, la, Backward(i))
    ensures i < |b| && Window(a, b, la, Backward(i)) > 0 ==> Score(b, a, la, Forward(i)) == Score(a, b, la, Backward(i))
  {
    if i < |a| && Window(a, b, la, Forward(i)) > 0 {
      SumSqSymmetric(a[i..], b, Window(a, b, la, Forward(i)));
    }
    if i < |b| && Window(a, b, la, Backward(i)) > 0 {
      SumSqSymmetric(a, b[i..], Window(a, b, la, Backward(i)));
    }
  }

  /** One pass keeps the two scans mirrored. */
  lemma PassMirrored(a: seq<real>, b: seq<real>, la: nat, r: MinResult, i: nat)
    ensures Pass(Mirror(a, b, la, r), b, a, la, i) == Mirror(a, b, la, Pass(r, a, b, la, i))
  {
    SwapScores(a, b, la, i);
    var p := Pass(r, a, b, la, i);
    var p' := Pass(Mirror(a, b, la, r), b, a, la, i);
    var f := i < |a| && Window(a, b, la, Forward(i)) > 0;
    var g := i < |b| && Window(a, b, la, Backward(i)) > 0;
    if f && g && Score(a, b, la, Forward(i)) == Score(a, b, la, Backward(i)) && Score(a, b, la, Forward(i)) < r.minVal {
      assert p == MinResult(i, Score(a, b, la, Forward(i)));
      assert p' == p;
      assert i > 0 ==> PassTie(a, b, la, i, p.minVal);
    }
  }

  /** The first `k` passes of the scan, pass by pass. */
  function Passes(a: seq<real>, b: seq<real>, la: nat, k: nat): MinResult
  {
    if k == 0 then Initial else Pass(Passes(a, b, la, k - 1), a, b, la, k - 1)
  }

  /** Pass by pass, the scan is the fold over its candidates. */
  lemma {:induction false} PassesAreFold(a: seq<real>, b: seq<real>, la: nat, k: nat)
    ensures Passes(a, b, la, k) == Fold(a, b, la, ScanOrder(|a|, |b|, k))
  {
    if k > 0 {
      PassesAreFold(a, b, la, k - 1);
      FoldPass(a, b, la, k);
    }
  }

  /** Scanning the swapped signals for `k` passes mirrors the scan. */
  lemma {:induction false} ScanMirrored(a: seq<real>, b: seq<real>, la: nat, k: nat)
    ensures Passes(b, a, la, k) == Mirror(a, b, la, Passes(a, b, la, k))
  {
    if k == 0 {
      assert Mirror(a, b, la, Initial) == Initial;
    } else {
      ScanMirrored(a, b, la, k - 1);
      MirroredPassStep(a, b, la, k);
    }
  }

  /** If the first `k - 1` passes are mirrored, so are the first `k`. */
  lemma MirroredPassStep(a: seq<real>, b: seq<real>, la: nat, k: nat)
    requires k > 0
    requires Passes(b, a, la, k - 1) == Mirror(a, b, la, Passes(a, b, la, k - 1))
    ensures Passes(b, a, la, k) == Mirror(a, b, la, Passes(a, b, la, k))
  {
    var r := Passes(a, b, la, k - 1);
    PassMirrored(a, b, la, r, k - 1);
    var p := Pass(r, a, b, la, k - 1);
    assert Passes(a, b, la, k) == p;
    assert Passes(b, a, la, k) == Mirror(a, b, la, p);
  }

  /** Sign symmetry of `fast_find_alignment`: swapping the two signals finds
      the same score, and the negated offset, except when the two candidates
      `+i` and `-i` of the winning pass tie, where both scans keep `+i`. */
  lemma SignSymmetry(a: seq<real>, b: seq<real>, maxOffset: nat, la: nat)
    ensures var r := Search(a, b, maxOffset, la);
            var r' := Search(b, a, maxOffset, la);
      && r'.minVal == r.minVal
      && r'.minIdx == if r.minIdx > 0 && PassTie(a, b, la, r.minIdx as nat, r.minVal) then r.minIdx else -r.minIdx
  {
    var k := Bound(|a|, |b|, maxOffset);
    assert Bound(|b|, |a|, maxOffset) == k;
    ScanMirrored(a, b, la, k);
    PassesAreFold(a, b, la, k);
    PassesAreFold(b, a, la, k);
  }

  /** The tie case: `[0, 1, 0]` against `[1, 0, 1]` scores 0 at both `+1`
      and `-1`, so both orders report `+1` and swapping does not negate. */
  lemma SignSymmetryTie()
    ensures Search([0.0, 1.0, 0.0], [1.0, 0.0, 1.0], 3, 3) == MinResult(1, 0.0)
    ensures Search([1.0, 0.0, 1.0], [0.0, 1.0, 0.0], 3, 3) == MinResult(1, 0.0)
  {
    TieScan();
    TieAtShiftOne();
    SignSymmetry([0.0, 1.0, 0.0], [1.0, 0.0, 1.0], 3, 3);
  }

  /** The scan behind `SignSymmetryTie`: `+0` and `-0` score 1 and `+1`
      matches exactly. */
  lemma TieScan()
    ensures Search([0.0, 1.0, 0.0], [1.0, 0.0, 1.0], 3, 3) == MinResult(1, 0.0)
  {
    var a := [0.0, 1.0, 0.0];
    var b := [1.0, 0.0, 1.0];
    var cs := ScanOrder(3, 3, 3);
    assert ScanOrder(3, 3, 2) == [Forward(0), Backward(0), Forward(1), Backward(1)] by {
      assert ScanOrder(3, 3, 1) == [Forward(0), Backward(0)];
    }
    ScanOrderPrefix(3, 3, 2, 3);
    assert cs[0] == Forward(0) && cs[1] == Backward(0) && cs[2] == Forward(1);
    assert a[0..] == a && b[0..] == b;
    assert SumSq(a, b, 3) == 3.0 by {
      assert SumSq(a, b, 1) == 1.0;
      assert SumSq(a, b, 2) == 2.0;
    }
    assert SumSq(a[1..], b, 2) == 0.0 by {
      assert SumSq(a[1..], b, 1) == 0.0;
    }
    assert Score(a, b, 3, cs[0]) == 1.0;
    assert Score(a, b, 3, cs[1]) == 1.0;
    assert Score(a, b, 3, cs[2]) == 0.0;
    ExactMatchWins(a, b, 3, cs, 2);
    assert Search(a, b, 3, 3) == Fold(a, b, 3, cs);
  }

  /** Shift 1 of `[0, 1, 0]` against `[1, 0, 1]` matches in both directions. */
  lemma TieAtShiftOne()
    ensures PassTie([0.0, 1.0, 0.0], [1.0, 0.0, 1.0], 3, 1, 0.0)
  {
    var a := [0.0, 1.0, 0.0];
    var b := [1.0, 0.0, 1.0];
    assert SumSq(a[1..], b, 2) == 0.0 by {
      assert SumSq(a[1..], b, 1) == 0.0;
    }
    assert SumSq(a, b[1..], 2) == 0.0 by {
      assert SumSq(a, b[1..], 1) == 0.0;
    }
  }

  /** No candidate of the first `k` passes matches exactly: each one with a
      window scores above 0. */
  predicate NoExactMatchBefore(a: seq<real>, b: seq<real>, la: nat, k: nat)
  {
    forall i :: 0 <= i < k ==>
      && (i < |a| && Window(a, b, la, Forward(i)) > 0 ==> Score(a, b, la, Forward(i)) > 0.0)
      && (i < |b| && Window(a, b, la, Backward(i)) > 0 ==> Score(a, b, la, Backward(i)) > 0.0)
  }

  /** A signal delayed by `k` zeros matches the original exactly at `+k`. */
  lemma DelayedCopyMatches(s: seq<real>, k: nat, la: nat)
    requires |s| > 0 && la > 0
    ensures InScan(k + |s|, |s|, Forward(k))
    ensures Window(Zeros(k) + s, s, la, Forward(k)) > 0
    ensures Score(Zeros(k) + s, s, la, Forward(k)) == 0.0
  {
    var a := Zeros(k) + s;
    assert a[k..] == s;
    SumSqSelf(s, Window(a, s, la, Forward(k)));
  }

  /** Candidate `+k` comes right after the first `k` passes. */
  lemma ForwardAfterPasses(aLen: nat, bLen: nat, k: nat, n: nat)
    requires k < n && k < aLen
    ensures ScanOrder(aLen, bLen, k) <= ScanOrder(aLen, bLen, n)
    ensures |ScanOrder(aLen, bLen, k)| < |ScanOrder(aLen, bLen, n)|
    ensures ScanOrder(aLen, bLen, n)[|ScanOrder(aLen, bLen, k)|] == Forward(k)
  {
    ScanOrderPrefix(aLen, bLen, k + 1, n);
    assert ScanOrder(aLen, bLen, k + 1)[|ScanOrder(aLen, bLen, k)|] == Forward(k);
    ScanOrderPrefix(aLen, bLen, k, k + 1);
  }

  /** Without an exact match in the first `k` passes, every candidate the
      scan scores before `+k` has a positive error. */
  lemma {:induction false} NoExactMatchInPrefix(a: seq<real>, b: seq<real>, la: nat, k: nat, n: nat)
    requires k <= n && NoExactMatchBefore(a, b, la, k)
    ensures |ScanOrder(|a|, |b|, k)| <= |ScanOrder(|a|, |b|, n)|
    ensures forall m :: 0 <= m < |ScanOrder(|a|, |b|, k)| && Window(a, b, la, ScanOrder(|a|, |b|, n)[m]) > 0 ==>
      Score(a, b, la, ScanOrder(|a|, |b|, n)[m]) > 0.0
  {
    var prefix := ScanOrder(|a|, |b|, k);
    var cs := ScanOrder(|a|, |b|, n);
    ScanOrderShifts(|a|, |b|, k);
    ScanOrderPrefix(|a|, |b|, k, n);
    forall m | 0 <= m < |prefix| && Window(a, b, la, cs[m]) > 0
      ensures Score(a, b, la, cs[m]) > 0.0
    {
      assert cs[m] == prefix[m];
      assert prefix[m].i < k;
    }
  }

  /** Shift recovery: a signal delayed by `k` zeros, searched against the
      original with `k` below the maximum offset, is found with error 0; it is
      found at `+k` when nothing scanned before matches exactly. */
  lemma ShiftRecovered(s: seq<real>, k: nat, maxOffset: nat, la: nat)
    requires |s| > 0 && la > 0 && k < maxOffset
    ensures Search(Zeros(k) + s, s, maxOffset, la).minVal == 0.0
    ensures NoExactMatchBefore(Zeros(k) + s, s, la, k) ==> Search(Zeros(k) + s, s, maxOffset, la) == MinResult(k, 0.0)
  {
    var a := Zeros(k) + s;
    var n := Bound(|a|, |s|, maxOffset);
    var cs := ScanOrder(|a|, |s|, n);
    var j := |ScanOrder(|a|, |s|, k)|;
    ForwardAfterPasses(|a|, |s|, k, n);
    DelayedCopyMatches(s, k, la);
    assert Score(a, s, la, cs[j]) == 0.0;
    FoldIsLowerBound(a, s, la, cs);
    ScoresNonnegative(a, s, la, cs);
    if NoExactMatchBefore(a, s, la, k) {
      NoExactMatchInPrefix(a, s, la, k, n);
      ExactMatchWins(a, s, la, cs, j);
    }
  }

  /** One candidate as the C loop body scores it: the kernel gets the
      incumbent's score as abort threshold, and an aborted window never takes
      over because its exact score could not have either. */
  method ScoreCandidate(a: seq<real>, b: seq<real>, la: nat, r: MinResult, c: Candidate) returns (r': MinResult)
    requires InScan(|a|, |b|, c) && r.minVal <= LargeVal
    ensures r' == Step(r, a, b, la, c)
  {
    r' := r;
    var n := Window(a, b, la, c);
    if n > 0 {
      var d;
      match c {
        case Forward(i) =>
          d := Kernel.FastMse(r.minVal, n, a[i..], b);
        case Backward(i) =>
          d := Kernel.FastMse(r.minVal, n, a, b[i..]);
      }
      if d < r.minVal {
        r' := MinResult(Offset(c), d);
      }
    }
  }

  /** One pass of the C loop: the forward candidate `+i` when `i < |a|`,
      then the backward candidate `-i` when `i < |b|`. */
  method ScanPass(a: seq<real>, b: seq<real>, la: nat, r: MinResult, i: nat) returns (r': MinResult)
    requires r == Fold(a, b, la, ScanOrder(|a|, |b|, i))
    ensures r' == Fold(a, b, la, ScanOrder(|a|, |b|, i + 1))
  {
    ghost var cs := ScanOrder(|a|, |b|, i);
    r' := r;
    if i < |a| {
      FoldOffsetFromCandidates(a, b, la, cs);
      FoldSnoc(a, b, la, cs, Forward(i));
      r' := ScoreCandidate(a, b, la, r', Forward(i));
      cs := cs + [Forward(i)];
    }
    if i < |b| {
      FoldOffsetFromCandidates(a, b, la, cs);
      FoldSnoc(a, b, la, cs, Backward(i));
      r' := ScoreCandidate(a, b, la, r', Backward(i));
      cs := cs + [Backward(i)];
    }
    assert cs == ScanOrder(|a|, |b|, i + 1);
  }

  /** `fast_find_alignment`: the scan with the early-aborting kernel computes
      the naive fold. */
  method FindAlignment(a: seq<real>, b: seq<real>, maxOffset: nat, la: nat) returns (r: MinResult)
    ensures r == Search(a, b, maxOffset, la)
  {
    r := Initial;
    var bound := Min(Max(|a|, |b|), maxOffset);
    var i := 0;
    while i < bound
      invariant i <= bound
      invariant r == Fold(a, b, la, ScanOrder(|a|, |b|, i))
    {
      r := ScanPass(a, b, la, r, i);
      i := i + 1;
    }
  }
}
