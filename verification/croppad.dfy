/** The crop/pad helpers `_align` and `_fix` and the branch on the offset
  that `align` runs once the offset is known. The same code appears in
  fast_align_audio/fast_align_audio.py and fast_align_audio/alignment.py;
  it is modelled once here.
 */
module CropPad {
  import opened Signals
  import opened Errors

  /** `np.pad(s, (0, width))`: `width` zeros appended. */
  function PadEnd(s: seq<real>, width: nat): (r: seq<real>)
    ensures |r| == |s| + width && r[..|s|] == s
    ensures forall k :: |s| <= k < |r| ==> r[k] == 0.0
  {
    s + Zeros(width)
  }

  /** `_align(x, y, offset, align_mode)`: "crop" drops the first `offset`
      samples of `x`, "pad" puts `offset` zeros in front of `y`, and any other
      mode leaves both alone. */
  function AlignOp(x: seq<real>, y: seq<real>, offset: nat, mode: string): (r: (seq<real>, seq<real>))
    ensures mode == "crop" ==>
      && |r.0| == |x| - Min(offset, |x|) && x == x[..|x| - |r.0|] + r.0
      && r.1 == y
    ensures mode == "pad" ==>
      && r.0 == x
      && |r.1| == offset + |y| && r.1[offset..] == y
      && forall k :: 0 <= k < offset ==> r.1[k] == 0.0
    ensures mode != "crop" && mode != "pad" ==> r == (x, y)
  {
    if mode == "crop" then (x[Min(offset, |x|)..], y)
    else if mode == "pad" then (x, Zeros(offset) + y)
    else (x, y)
  }

  /** Cropping what padding added gives the signal back. */
  lemma CropUndoesPad(x: seq<real>, y: seq<real>, z: seq<real>, offset: nat)
    ensures AlignOp(AlignOp(x, y, offset, "pad").1, z, offset, "crop").0 == y
  {
  }

  /** `_fix(x, y, fix_mode)`: None keeps both; "shortest" cuts both to the
      shorter length; "longest" pads both with zeros at the end to the longer
      length; any other mode raises. */
  function Fix(x: seq<real>, y: seq<real>, mode: Option<string>): (r: Result<(seq<real>, seq<real>)>)
    ensures mode.None? ==> r == Success((x, y))
    ensures mode == Some("shortest") ==>
      && r.Success? && |r.value.0| == |r.value.1| == Min(|x|, |y|)
      && x[..|r.value.0|] == r.value.0 && y[..|r.value.1|] == r.value.1
    ensures mode == Some("longest") ==>
      && r.Success? && |r.value.0| == |r.value.1| == Max(|x|, |y|)
      && r.value.0[..|x|] == x && r.value.1[..|y|] == y
      && (forall k :: |x| <= k < |r.value.0| ==> r.value.0[k] == 0.0)
      && (forall k :: |y| <= k < |r.value.1| ==> r.value.1[k] == 0.0)
    ensures mode.Some? && mode.value != "shortest" && mode.value != "longest" ==> r == Failure(UnknownFixMode)
  {
    if mode.None? then Success((x, y))
    else if mode.value == "shortest" then
      var minLen := Min(|x|, |y|);
      Success((x[..minLen], y[..minLen]))
    else if mode.value == "longest" then
      var maxLen := Max(|x|, |y|);
      Success((PadEnd(x, maxLen - |x|), PadEnd(y, maxLen - |y|)))
    else
      Failure(UnknownFixMode)
  }

  /** Fixing lengths a second time changes nothing. */
  lemma FixIdempotent(x: seq<real>, y: seq<real>, mode: Option<string>)
    requires Fix(x, y, mode).Success?
    ensures var f := Fix(x, y, mode).value; Fix(f.0, f.1, mode) == Success(f)
  {
    var f := Fix(x, y, mode).value;
    if mode == Some("shortest") {
      assert f.0[..|f.0|] == f.0 && f.1[..|f.1|] == f.1;
    } else if mode == Some("longest") {
      assert PadEnd(f.0, 0) == f.0 && PadEnd(f.1, 0) == f.1;
    }
  }

  /** The part of `align` after the offset is known: a positive offset trims
      or pads with `a` in the first role, any other offset with `b` in the
      first role and the offset negated; then the lengths are fixed. */
  function AlignPair(a: seq<real>, b: seq<real>, offset: int, alignMode: string, fixLength: Option<string>): Result<(seq<real>, seq<real>)>
  {
    if offset > 0 then
      var xy := AlignOp(a, b, offset, alignMode);
      Fix(xy.0, xy.1, fixLength)
    else
      var yx := AlignOp(b, a, -offset, alignMode);
      Fix(yx.1, yx.0, fixLength)
  }

  /** With offset 0 neither signal is trimmed or padded; only the lengths are fixed. */
  lemma AlignPairZeroOffset(a: seq<real>, b: seq<real>, alignMode: string, fixLength: Option<string>)
    ensures AlignPair(a, b, 0, alignMode, fixLength) == Fix(a, b, fixLength)
  {
    assert b[0..] == b;
    assert Zeros(0) + a == a;
  }

  /** With a positive offset and "crop", `a` loses its first `offset` samples,
      so sample `j` of the result faces sample `j` of `b`: the pairs the
      forward candidate `+offset` compared. A negative offset does the same
      to `b`. */
  lemma CropLinesUpPairs(a: seq<real>, b: seq<real>, offset: int)
    ensures var r := AlignPair(a, b, offset, "crop", None).value;
      && (offset >= 0 ==> forall j :: 0 <= j < |r.0| ==> r.0[j] == a[offset + j])
      && (offset >= 0 ==> r.1 == b)
      && (offset < 0 ==> forall j :: 0 <= j < |r.1| ==> r.1[j] == b[j - offset])
      && (offset < 0 ==> r.0 == a)
  {
    if offset == 0 {
      AlignPairZeroOffset(a, b, "crop", None);
    }
  }
}
