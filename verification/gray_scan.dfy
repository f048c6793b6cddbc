/**
  The gray-scanline detector `get_crop_height_from_pillow`, which both cropping
  scripts carry in identical copies: the image height minus the run of
  all-gray rows at its bottom.
*/
module GrayScan {
  import opened Raster

  /** Default channel tolerance of `is_gray_pixel`. */
  const DefaultTolerance: int := 10

  function Abs(x: int): nat { if x < 0 then -x else x }

  /** `is_gray_pixel`: red is close to green and green is close to blue. */
  predicate IsGrayPixel(p: Pixel, tolerance: int)
    ensures p.r == p.g == p.b && tolerance >= 0 ==> IsGrayPixel(p, tolerance)
  {
    Abs(p.r - p.g) <= tolerance && Abs(p.g - p.b) <= tolerance
  }

  /** Every pixel of the row is gray under the default tolerance. */
  predicate IsGrayRow(row: seq<Pixel>)
  {
    forall x :: 0 <= x < |row| ==> IsGrayPixel(row[x], DefaultTolerance)
  }

  /** The bottom-up scan over the first `n` rows. */
  function CropHeightBelow(rows: seq<seq<Pixel>>, n: nat): (h: nat)
    requires n <= |rows|
    ensures h <= n
    ensures forall y :: h <= y < n ==> IsGrayRow(rows[y])
    ensures h > 0 ==> !IsGrayRow(rows[h - 1])
    decreases n
  {
    if n == 0 then 0
    else if IsGrayRow(rows[n - 1]) then CropHeightBelow(rows, n - 1)
    else n
  }

  /**
    `get_crop_height_from_pillow` on a decoded image: the rows from the result
    down are exactly the trailing all-gray ones.
  */
  function CropHeight(img: Grid<Pixel>): (h: nat)
    requires img.Valid()
    ensures h <= img.height
    ensures forall y :: h <= y < img.height ==> IsGrayRow(img.rows[y])
    ensures h > 0 ==> !IsGrayRow(img.rows[h - 1])
    ensures img.height > 0 && !IsGrayRow(img.rows[img.height - 1]) ==> h == img.height
    ensures (forall y :: 0 <= y < img.height ==> IsGrayRow(img.rows[y])) ==> h == 0
  {
    CropHeightBelow(img.rows, img.height)
  }

  /**
    The loop form of the same routine: rows from the bottom up, pixels left
    to right, leaving a row at its first colored pixel and the scan at the
    first row that is not all gray.
  */
  method ScanCropHeight(img: Grid<Pixel>) returns (cropHeight: nat)
    requires img.Valid()
    ensures cropHeight == CropHeight(img)
    ensures forall y :: cropHeight <= y < img.height ==> IsGrayRow(img.rows[y])
  {
    cropHeight := img.height;
    var y := img.height;
    while y > 0
      invariant y <= img.height && cropHeight == y
      invariant CropHeightBelow(img.rows, y) == CropHeight(img)
      invariant forall k :: y <= k < img.height ==> IsGrayRow(img.rows[k])
      decreases y
    {
      var row := img.rows[y - 1];
      var isGrayLine := true;
      var x := 0;
      while x < img.width
        invariant x <= img.width
        invariant isGrayLine
        invariant forall j :: 0 <= j < x ==> IsGrayPixel(row[j], DefaultTolerance)
      {
        if !IsGrayPixel(row[x], DefaultTolerance) {
          isGrayLine := false;
          break;
        }
        x := x + 1;
      }
      if isGrayLine {
        cropHeight := y - 1;
        y := y - 1;
      } else {
        break;
      }
    }
  }
}
