/**
  `crop_jpeg_height` of crop-non-mcu-no-pillow.py: the baseline frame header's
  number-of-lines field is overwritten with the new height, and the buffer is
  cut at its last EOI marker, which is then put back. The Y field is the
  16-bit big-endian value five bytes past the start of the SOF0 marker
  (section B.2.2 of ITU-T T.81: marker, Lf, P, then Y).
*/
module HeightPatch {
  import opened Wrappers
  import opened JpegBytes
  import opened Raster
  import opened GrayScan

  /** Offset of the Y (number of lines) field from the start of the SOF0 marker. */
  const HeightFieldOffset: nat := 5
  /** Heights must fit the two bytes written with `to_bytes(1, 'big')`. */
  const HeightLimit: nat := 0x1_0000

  /** The failures `crop_jpeg_height` can raise. */
  datatype CropError =
    | SofMarkerNotFound    // the ValueError raised when there is no FF C0
    | SofTruncated         // the IndexError of reading data[sof + 5], data[sof + 6]
    | HeightOutOfRange     // the OverflowError of to_bytes for a height outside 0 .. 65535
    | EoiMarkerNotFound    // the ValueError raised when there is no FF D9

  /** Write `height` big-endian into `data[pos]`, `data[pos + 1]`. */
  function PatchHeight(data: seq<byte>, pos: nat, height: nat): (r: seq<byte>)
    requires pos + 2 <= |data| && height < HeightLimit
    ensures |r| == |data|
    ensures forall k :: 0 <= k < |data| && k != pos && k != pos + 1 ==> r[k] == data[k]
    ensures Be16At(r, pos) == height
  {
    data[..pos] + [height / 256, height % 256] + data[pos + 2..]
  }

  /**
    `new_data[:eoi] + b'\xFF\xD9'`: the buffer with its height field patched,
    cut before `eoi` and closed with an EOI marker.
  */
  function PatchAndCut(data: seq<byte>, sof: nat, height: nat, eoi: nat): (out: seq<byte>)
    requires sof + 7 <= |data| && height < HeightLimit && eoi + 2 <= |data|
    ensures |out| == eoi + 2 && out[eoi] == MarkerPrefix && out[eoi + 1] == EOI
    ensures forall k :: 0 <= k < eoi && k != sof + HeightFieldOffset && k != sof + HeightFieldOffset + 1 ==>
      out[k] == data[k]
    ensures sof + HeightFieldOffset < eoi ==> out[sof + HeightFieldOffset] == height / 256
    ensures sof + 7 <= eoi ==> Be16At(out, sof + HeightFieldOffset) == height
  {
    PatchHeight(data, sof + HeightFieldOffset, height)[..eoi] + [MarkerPrefix, EOI]
  }

  /** `crop_jpeg_height(data, crop_height)` after the file has been read. */
  function CropJpegHeight(data: seq<byte>, cropHeight: int): (r: Result<seq<byte>, CropError>)
    ensures r == Failure(SofMarkerNotFound) <==> !HasPair(data, MarkerPrefix, SOF0)
    ensures forall s :: IsFirstPair(data, s, MarkerPrefix, SOF0) ==>
      (r == Failure(SofTruncated) <==> s + 7 > |data|)
    ensures forall s :: IsFirstPair(data, s, MarkerPrefix, SOF0) && s + 7 <= |data| ==>
      (r == Failure(HeightOutOfRange) <==> !(0 <= cropHeight < HeightLimit))
    ensures r == Failure(EoiMarkerNotFound) <==>
      HasPair(data, MarkerPrefix, SOF0) && r != Failure(SofTruncated) && 0 <= cropHeight < HeightLimit
      && !HasPair(data, MarkerPrefix, EOI)
    ensures r.Success? ==> |r.value| <= |data|
    ensures r.Success? ==> forall s, e ::
      IsFirstPair(data, s, MarkerPrefix, SOF0) && IsLastPair(data, e, MarkerPrefix, EOI) ==>
        s + 7 <= |data| && 0 <= cropHeight < HeightLimit && r.value == PatchAndCut(data, s, cropHeight, e)
  {
    match FindPair(data, MarkerPrefix, SOF0)
    case None => Failure(SofMarkerNotFound)
    case Some(sof) =>
      if sof + 7 > |data| then Failure(SofTruncated)
      else if !(0 <= cropHeight < HeightLimit) then Failure(HeightOutOfRange)
      else
        match FindLastPair(data, MarkerPrefix, EOI)
        case None => Failure(EoiMarkerNotFound)
        case Some(eoi) => Success(PatchAndCut(data, sof, cropHeight, eoi))
  }

  /** Patching and cutting a second time, at the same places, changes nothing. */
  lemma {:induction false} PatchAndCutTwice(data: seq<byte>, sof: nat, height: nat, eoi: nat)
    requires sof + HeightFieldOffset <= eoi && sof + 7 <= |data| && height < HeightLimit && eoi + 2 <= |data|
    ensures PatchAndCut(PatchAndCut(data, sof, height, eoi), sof, height, eoi) == PatchAndCut(data, sof, height, eoi)
  {
    var out := PatchAndCut(data, sof, height, eoi);
    var again := PatchAndCut(out, sof, height, eoi);
    Be16Bytes(out, sof + HeightFieldOffset);
    Be16Bytes(again, sof + HeightFieldOffset);
    assert forall k :: 0 <= k < |out| ==> again[k] == out[k];
  }

  /**
    Cropping again to the same height changes nothing, as long as the frame
    header lies before the cut: the SOF0 marker is still the first one, the
    re-appended EOI is the last one, and the height field already holds the
    requested value.
  */
  lemma {:induction false} CropJpegHeightStable(data: seq<byte>, cropHeight: int, s: nat, e: nat)
    requires CropJpegHeight(data, cropHeight).Success?
    requires IsFirstPair(data, s, MarkerPrefix, SOF0) && IsLastPair(data, e, MarkerPrefix, EOI)
    requires s + 7 <= e
    ensures var out := CropJpegHeight(data, cropHeight).value;
      CropJpegHeight(out, cropHeight) == Success(out)
  {
    var out := CropJpegHeight(data, cropHeight).value;
    assert 0 <= cropHeight < HeightLimit && out == PatchAndCut(data, s, cropHeight, e);
    FirstSofKept(data, out, s);
    assert IsLastPair(out, e, MarkerPrefix, EOI);
    assert FindPair(out, MarkerPrefix, SOF0) == Some(s);
    assert FindLastPair(out, MarkerPrefix, EOI) == Some(e);
    PatchAndCutTwice(data, s, cropHeight, e);
  }

  /** A buffer that agrees with `data` on everything up to the SOF0 marker at `s` keeps it first. */
  lemma {:induction false} FirstSofKept(data: seq<byte>, out: seq<byte>, s: nat)
    requires IsFirstPair(data, s, MarkerPrefix, SOF0)
    requires s + 2 <= |out| && forall k :: 0 <= k < s + 2 ==> out[k] == data[k]
    ensures IsFirstPair(out, s, MarkerPrefix, SOF0)
  {
    forall j | 0 <= j < s
      ensures !PairAt(out, j, MarkerPrefix, SOF0)
    {
      assert !PairAt(data, j, MarkerPrefix, SOF0);
    }
  }

  /**
    `auto_correct_alignment` without its file I/O: the detected crop height is
    written into the frame header. It succeeds exactly when the file has an
    SOF0 header with room for the height field and an EOI marker (an image of
    65536 rows or more overflows the field). When the header survives the cut,
    the height it declares is the top of the trailing run of gray rows.
  */
  function AutoCorrectAlignment(img: Grid<Pixel>, data: seq<byte>): (r: Result<seq<byte>, CropError>)
    requires img.Valid()
    ensures img.height < HeightLimit ==> r != Failure(HeightOutOfRange)
    ensures img.height < HeightLimit ==> (r.Success? <==>
      (HasPair(data, MarkerPrefix, SOF0) && HasPair(data, MarkerPrefix, EOI)
       && forall s :: IsFirstPair(data, s, MarkerPrefix, SOF0) ==> s + 7 <= |data|))
    ensures r.Success? ==> CropHeight(img) < HeightLimit && forall s, e ::
      IsFirstPair(data, s, MarkerPrefix, SOF0) && IsLastPair(data, e, MarkerPrefix, EOI) ==>
        s + 7 <= |data| && r.value == PatchAndCut(data, s, CropHeight(img), e)
    ensures r.Success? ==> forall s, e ::
      IsFirstPair(data, s, MarkerPrefix, SOF0) && IsLastPair(data, e, MarkerPrefix, EOI) && s + 7 <= e ==>
        |r.value| == e + 2 &&
        var declared := Be16At(r.value, s + HeightFieldOffset);
        && declared <= img.height
        && (forall y :: declared <= y < img.height ==> IsGrayRow(img.rows[y]))
        && (declared > 0 ==> !IsGrayRow(img.rows[declared - 1]))
  {
    CropJpegHeight(data, CropHeight(img))
  }
}
