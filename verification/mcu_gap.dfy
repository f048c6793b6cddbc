/**
  The pure part of insert-mcu-crop-top-bottom.py: on a grayscale image,
  `find_previous_mcu_block` finds the bottom-most row holding real (dark)
  image data and the first 16-pixel block of that row that turns bright; the
  block before it is where empty MCUs get inserted. After the external repair,
  the crop height handed to the external cropper is the gray-row crop height
  less one MCU, clamped at zero.
*/
module McuGap {
  import opened Wrappers
  import opened Raster
  import opened GrayScan

  /** Default `gray_threshold`: samples at or above it count as gray filler. */
  const DefaultGrayThreshold: int := 128
  /** `mcu_size`: width and height of one MCU in pixels. */
  const McuSize: nat := 16

  /** `np.any(row < threshold)`: the row has at least one dark sample. */
  predicate HasDark(row: seq<int>, threshold: int)
  {
    exists x :: 0 <= x < |row| && row[x] < threshold
  }

  /** `np.any(row >= threshold)`: the row has at least one bright sample. */
  predicate HasBright(row: seq<int>, threshold: int)
  {
    exists x :: 0 <= x < |row| && row[x] >= threshold
  }

  /** `y` is the bottom-most row with a dark sample. */
  predicate IsLastValidScanline(rows: seq<seq<int>>, threshold: int, y: int)
  {
    0 <= y < |rows| && HasDark(rows[y], threshold)
    && forall k :: y < k < |rows| ==> !HasDark(rows[k], threshold)
  }

  /** Block `b` of the row, `row[16 b : 16 b + 16]`, holds a bright sample. */
  predicate BlockHasBright(row: seq<int>, threshold: int, b: nat)
  {
    exists x :: b * McuSize <= x < b * McuSize + McuSize && x < |row| && row[x] >= threshold
  }

  /** `g` is the first block with a bright sample: every sample before it is dark. */
  predicate IsGrayStart(row: seq<int>, threshold: int, g: nat)
  {
    g * McuSize < |row| && BlockHasBright(row, threshold, g)
    && forall x :: 0 <= x < g * McuSize ==> row[x] < threshold
  }

  /** The bottom-up scan for a dark sample over the first `n` rows. */
  function LastDarkRowBelow(rows: seq<seq<int>>, threshold: int, n: nat): (r: Option<nat>)
    requires n <= |rows|
    ensures r.Some? ==> r.value < n && HasDark(rows[r.value], threshold)
    ensures r.Some? ==> forall k :: r.value < k < n ==> !HasDark(rows[k], threshold)
    ensures r.None? ==> forall k :: 0 <= k < n ==> !HasDark(rows[k], threshold)
    decreases n
  {
    if n == 0 then None
    else if HasDark(rows[n - 1], threshold) then Some(n - 1)
    else LastDarkRowBelow(rows, threshold, n - 1)
  }

  /** `last_valid_scanline`, with `None` for Python's `None`. */
  function LastValidScanline(img: Grid<int>, threshold: int): (r: Option<nat>)
    requires img.Valid()
    ensures r.Some? ==> IsLastValidScanline(img.rows, threshold, r.value)
    ensures r.None? <==> forall y :: 0 <= y < img.height ==> !HasDark(img.rows[y], threshold)
  {
    LastDarkRowBelow(img.rows, threshold, img.height)
  }

  /** `scanline[x : x + 16]` for block `b`, `x = 16 b`; the last block may be shorter. */
  function Block(row: seq<int>, b: nat): (block: seq<int>)
    requires b * McuSize < |row|
    ensures 0 < |block| <= McuSize && b * McuSize + |block| <= |row|
    ensures b * McuSize + |block| == |row| || |block| == McuSize
    ensures forall j :: 0 <= j < |block| ==> block[j] == row[b * McuSize + j]
  {
    var x := b * McuSize;
    if x + McuSize <= |row| then row[x..x + McuSize] else row[x..]
  }

  /** The block loop of `find_previous_mcu_block`, from block `b` on. */
  function FirstBrightBlockFrom(row: seq<int>, threshold: int, b: nat): (r: Option<nat>)
    ensures r.Some? ==> b <= r.value && r.value * McuSize < |row|
    ensures r.Some? ==> BlockHasBright(row, threshold, r.value)
    ensures r.Some? ==> forall x :: b * McuSize <= x < r.value * McuSize ==> row[x] < threshold
    ensures r.None? ==> forall x :: b * McuSize <= x < |row| ==> row[x] < threshold
    decreases |row| - b * McuSize
  {
    if b * McuSize >= |row| then None
    else if HasBright(Block(row, b), threshold) then Some(b)
    else FirstBrightBlockFrom(row, threshold, b + 1)
  }

  /** `gray_start`: the first 16-wide block of the row with a bright sample. */
  function FirstBrightBlock(row: seq<int>, threshold: int): (r: Option<nat>)
    ensures r.Some? ==> IsGrayStart(row, threshold, r.value)
    ensures r.None? <==> !HasBright(row, threshold)
  {
    FirstBrightBlockFrom(row, threshold, 0)
  }

  /** The pair `(previous_mcu_block_number, mcu_to_insert)` of a successful search. */
  datatype McuInsertion = McuInsertion(previousBlock: nat, mcuToInsert: nat)

  /**
    `find_previous_mcu_block` on an already-converted grayscale image; `None`
    is the script's `(None, None)`.
  */
  function FindPreviousMcuBlock(img: Grid<int>, threshold: int): (r: Option<McuInsertion>)
    requires img.Valid()
    ensures r.None? <==> forall y :: IsLastValidScanline(img.rows, threshold, y) ==>
      !HasBright(img.rows[y], threshold) || BlockHasBright(img.rows[y], threshold, 0)
    ensures r.Some? ==> forall y :: IsLastValidScanline(img.rows, threshold, y) ==>
      IsGrayStart(img.rows[y], threshold, r.value.previousBlock + 1)
    ensures r.Some? ==> 1 <= r.value.mcuToInsert <= img.width / McuSize
    ensures r.Some? ==> r.value.previousBlock + r.value.mcuToInsert == img.width / McuSize
  {
    var widthMcu := img.width / McuSize;
    match LastValidScanline(img, threshold)
    case None => None
    case Some(y) =>
      var scanline := img.rows[y];
      if !HasBright(scanline, threshold) then None
      else
        match FirstBrightBlock(scanline, threshold)
        case Some(g) =>
          if g > 0 then Some(McuInsertion(g - 1, widthMcu - (g - 1))) else None
        case None => None
  }

  /**
    The clamp of lines 110-114: one MCU less than the detected crop height,
    but never negative.
  */
  function ClampedCropHeight(detected: int): (h: nat)
    ensures detected >= McuSize ==> h + McuSize == detected
    ensures detected < McuSize ==> h == 0
  {
    if detected - McuSize < 0 then 0 else detected - McuSize
  }

  /** The `WIDTHxHEIGHT+0+0` region handed to the external cropper. */
  datatype CropRegion = CropRegion(width: nat, height: nat, left: nat, top: nat)

  /**
    The crop region computed from the repaired image: the full width, from
    the top, down to one MCU above the trailing gray rows.
  */
  function FinalCropRegion(repaired: Grid<Pixel>): (c: CropRegion)
    requires repaired.Valid()
    ensures IsFinalCrop(repaired, c)
  {
    CropRegion(repaired.width, ClampedCropHeight(CropHeight(repaired)), 0, 0)
  }

  /**
    What the crop handed to `jpegtran` must be: the full width from the top
    corner, ending one MCU above the first of the trailing gray rows, or empty
    when fewer than one MCU of rows lies above them.
  */
  predicate IsFinalCrop(repaired: Grid<Pixel>, c: CropRegion)
    requires repaired.Valid()
  {
    && c.width == repaired.width && c.left == 0 && c.top == 0
    && (c.height + McuSize <= repaired.height || c.height == 0)
    && (forall y :: c.height + McuSize <= y < repaired.height ==> IsGrayRow(repaired.rows[y]))
    && (c.height > 0 ==> !IsGrayRow(repaired.rows[c.height + McuSize - 1]))
  }

  /** `FinalCropRegion` is the one and only crop with that description. */
  lemma {:induction false} FinalCropRegionUnique(repaired: Grid<Pixel>, c: CropRegion)
    requires repaired.Valid()
    ensures IsFinalCrop(repaired, c) <==> c == FinalCropRegion(repaired)
  {
  }

  /** The arguments computed for the two external tools: the MCU count to insert and the crop. */
  datatype RepairCommands = RepairCommands(insertCount: nat, crop: CropRegion)

  /**
    The script body of lines 84-121 without I/O: `original` is the grayscale
    conversion of the input and `repaired` the decoded output of the external
    repair tool, whose behaviour is not modelled. No command runs when the
    search fails.
  */
  function McuRepairCommands(original: Grid<int>, repaired: Grid<Pixel>): (r: Option<RepairCommands>)
    requires original.Valid() && repaired.Valid()
    ensures r.None? <==> forall y :: IsLastValidScanline(original.rows, DefaultGrayThreshold, y) ==>
      !HasBright(original.rows[y], DefaultGrayThreshold) || BlockHasBright(original.rows[y], DefaultGrayThreshold, 0)
    ensures r.Some? ==> 1 <= r.value.insertCount <= original.width / McuSize
    ensures r.Some? ==> (FindPreviousMcuBlock(original, DefaultGrayThreshold).Some? &&
      r.value.insertCount == FindPreviousMcuBlock(original, DefaultGrayThreshold).value.mcuToInsert)
    ensures r.Some? ==> IsFinalCrop(repaired, r.value.crop)
  {
    match FindPreviousMcuBlock(original, DefaultGrayThreshold)
    case None => None
    case Some(found) => Some(RepairCommands(found.mcuToInsert, FinalCropRegion(repaired)))
  }
}
