# JPEG-Repair-Rework in Dafny

A model of the pure core of three JPEG repair scripts. Each script is one
linear pass over a byte buffer or a decoded pixel grid:

- **main.py** joins the head of a reference JPEG (everything before its last
  start-of-scan marker `FF DA`, the marker's two bytes and the 10 bytes after
  them) to the tail of an encrypted file (from byte
  153606). It then deletes every APP1 (`FF E1`) segment it finds by walking
  marker/length pairs (`remove_exif`), and cuts 334 bytes off the end.
- **crop-non-mcu-no-pillow.py** counts the all-gray rows at the bottom of the
  image (`get_crop_height_from_pillow`). It writes the remaining height into
  the Y field of the first baseline frame header (`FF C0`), which sits 5 bytes
  past the start of the marker. It then cuts the file at its last `FF D9` and re-appends
  that EOI marker (`crop_jpeg_height`).
- **insert-mcu-crop-top-bottom.py** works on the grayscale image. It finds the
  bottom-most row that holds a dark sample (below 128). In that row it finds
  the first 16-pixel block that holds a bright sample, and derives the number
  of MCUs (minimum coded units) to insert (`find_previous_mcu_block`). After an
  external repair tool has run, it crops the image one MCU above the trailing
  gray rows.

The marker codes are those of Table B.1 of ITU-T T.81. Segment lengths count
themselves but not the marker (section B.1.1.4). The Y field is the big-endian
16-bit value after Lf and P (section B.2.2). The constants 153606, 12, 334,
16, 128 and the tolerance 10 are tuned to one sample file pair and are kept as
named constants.

Modules:

| module | file | contents |
|---|---|---|
| `Wrappers` | wrappers.dfy | `Option` and `Result` for Python's `None` and raised errors |
| `JpegBytes` | jpeg_bytes.dfy | bytes, Python slice clamping, big-endian reads, `find`/`rfind` of a marker |
| `ExifStrip` | exif_strip.dfy | `remove_exif` as a step function and the walk it iterates |
| `ReferenceSplice` | reference_splice.dfy | `find_ffda_offset` and the byte part of `repair_jpeg` |
| `Raster` | raster.dfy | decoded images as rows of samples |
| `GrayScan` | gray_scan.dfy | `is_gray_pixel` and `get_crop_height_from_pillow` (both scripts share this code) |
| `HeightPatch` | height_patch.dfy | `crop_jpeg_height` and `auto_correct_alignment` |
| `McuGap` | mcu_gap.dfy | `find_previous_mcu_block`, the crop clamp and the arguments passed to the external tools |

Facts about the code that the model keeps:
- `get_crop_height_from_pillow` returns the index just past the bottom-most
  non-gray row, which is the top of the trailing gray run (or the full height
  when the bottom row is not gray).
- The comment on crop-non-mcu-no-pillow.py line 40 says the height follows the
  marker, but lines 41 and 44 read and write it at marker + 5 and + 6.
- An `FF C0` that starts fewer than 7 bytes before the end of the buffer raises `IndexError`
  at line 41; the model returns it as the error `SofTruncated`.

## Model

| member | source | states |
|---|---|---|
| JpegBytes.FindPair | crop-non-mcu-no-pillow.py:35-38 | `bytes.find` of a two-byte marker: the result is the lowest index where the marker starts, and `None` exactly when the marker does not occur |
| JpegBytes.FindLastPair | main.py:13-14 | `bytes.rfind` of a two-byte marker: the result is the highest index where the marker starts, and `None` exactly when the marker does not occur |
| JpegBytes.Slice | main.py:32-33 | Python's `s[lo:hi]`: both bounds are clamped to the length, and element k of the result is `s[lo + k]` |
| ExifStrip.SegmentLength | main.py:32 | the segment length is at least 2 and at most 65537; it is read big-endian from the two bytes after the marker, and a read cut short by the end of the buffer yields the smaller value Python computes |
| ExifStrip.DeleteSegment | main.py:32-33 | cutting out the segment at `i` removes `min(len, len(data) - i)` bytes: everything before `i` is kept and everything after the cut run shifts down |
| ExifStrip.ExifStep | main.py:25-42 | one loop iteration: APP1 deletes the run `data[i .. i+len)`, clamped to the end, and keeps the cursor; other markers except SOI/EOI move the cursor by their length without changing the buffer; a plain byte, SOI or EOI moves it by exactly 1; only APP1 changes the buffer, bytes before the cursor are never changed, and `len(data) - i` strictly decreases |
| ExifStrip.RemoveExifFrom | main.py:24-44 | the walk terminates (measure `len(data) - i`); it never lengthens the buffer and keeps every byte before the starting cursor |
| ExifStrip.RemoveExif | main.py:19-44 | `remove_exif` never returns a longer buffer |
| ExifStrip.NoApp1KeepsBuffer | main.py:31-42 | with no `FF E1` pair at or after the cursor, the walk returns the buffer unchanged |
| ExifStrip.RemoveExifWithoutApp1 | main.py:31-34 | a buffer containing no `FF E1` pair is returned unchanged |
| ExifStrip.PlainRunKept | main.py:27-42 | a run of non-`FF` bytes at the cursor is walked one byte at a time and survives, together with everything before it |
| ExifStrip.RemoveExifFromIdempotent | main.py:24-44 | walking the stripped buffer again from the same cursor deletes nothing more |
| ExifStrip.RemoveExifIdempotent | main.py:19-44 | `remove_exif(remove_exif(d)) == remove_exif(d)` for every buffer |
| ExifStrip.StripsOneApp1Segment | main.py:31-42 | on SOI, a 6-byte APP1 segment and EOI, exactly the APP1 segment is removed |
| ReferenceSplice.FindFfdaOffset | main.py:11-17 | fails exactly when the reference has no `FF DA`; otherwise returns the last `FF DA` position |
| ReferenceSplice.SpliceReference | main.py:59-65 | the spliced buffer has length `min(ffda+12, len(ref)) + max(0, len(enc)-153606)`; it starts with the reference head and continues with the encrypted bytes from 153606 on |
| ReferenceSplice.TrimTrailer | main.py:70-71 | Python's `[:-334]`: a prefix 334 bytes shorter, and empty when the buffer has at most 334 bytes |
| ReferenceSplice.RepairJpeg | main.py:46-71 | fails exactly when the reference has no `FF DA`; on success the output is the stripped splice at the last `FF DA` minus its last 334 bytes, and its length is bounded by the input lengths |
| ReferenceSplice.RepairWithoutExif | main.py:62-71 | when the splice holds no `FF E1`, the output is the splice itself minus the trailer |
| ReferenceSplice.RepairIgnoresEncryptedHead | main.py:64-65 | two encrypted files of any length that agree from byte 153606 on (both empty there when shorter) give the same output: the first 153606 bytes never reach it |
| GrayScan.IsGrayPixel | insert-mcu-crop-top-bottom.py:6-8 | `abs(r-g) <= tol and abs(g-b) <= tol` (the same predicate as crop-non-mcu-no-pillow.py lines 3-5); a pixel with equal channels is gray for any tolerance `>= 0` |
| GrayScan.CropHeightBelow | insert-mcu-crop-top-bottom.py:17-28 | the bottom-up scan over the first n rows: the result is at most n, every row from it up to n is all gray, and the row just above it is not |
| GrayScan.CropHeight | insert-mcu-crop-top-bottom.py:10-29 | the result is in `[0, height]`; exactly the trailing all-gray rows lie at or below it; it is `height` when the bottom row has a colored pixel, and 0 for an all-gray image |
| GrayScan.ScanCropHeight | crop-non-mcu-no-pillow.py:7-27 | the nested loops with their two `break`s compute the same height as the recursive scan, and every row from it down is all gray |
| HeightPatch.PatchHeight | crop-non-mcu-no-pillow.py:41-44 | writing the height keeps the length, changes only bytes `pos` and `pos+1`, and reading the 16-bit field back gives the height |
| HeightPatch.PatchAndCut | crop-non-mcu-no-pillow.py:44-60 | the output has length `eoi+2` and ends in `FF D9`; before `eoi` it equals the input except for the two height bytes; the high byte `height >> 8` sits at SOF+5 whenever that lies before the cut, and the whole height reads back at SOF+5 when the header lies before the cut |
| HeightPatch.CropJpegHeight | crop-non-mcu-no-pillow.py:29-62 | each error occurs exactly when the source raises it, in the source's order: no `FF C0`, frame header cut short (line 41), height outside 0..65535 (`to_bytes`), no `FF D9`. On success the output is never longer than the input, and it is the patch-and-cut at the first `FF C0` and the last `FF D9` of the input |
| HeightPatch.PatchAndCutTwice | crop-non-mcu-no-pillow.py:44-60 | patching and cutting the output again at the same places changes nothing, whenever the cut lies at or after the height field (`sof + 5 <= eoi`) |
| HeightPatch.CropJpegHeightStable | crop-non-mcu-no-pillow.py:35-60 | cropping the output again to the same height returns it unchanged when the header lies before the cut |
| HeightPatch.AutoCorrectAlignment | crop-non-mcu-no-pillow.py:70-79 | for images under 65536 rows, it succeeds exactly when the file has an `FF C0` starting at least 7 bytes before the end and an `FF D9`; on success the output is the patch-and-cut of the input at the first `FF C0` and the last `FF D9` with the detected height; when the frame header lies before the cut, the height the output declares is at most the image height, every row from it down is gray, and the row above it is not |
| McuGap.LastValidScanline | insert-mcu-crop-top-bottom.py:42-53 | the result is the largest row index holding a sample below the threshold, or `None` exactly when no row holds one |
| McuGap.Block | insert-mcu-crop-top-bottom.py:64-65 | block b is the 16 samples from `16 b`, or fewer at the end of the row |
| McuGap.FirstBrightBlock | insert-mcu-crop-top-bottom.py:62-68 | `gray_start` is the first block holding a sample at or above the threshold, and every sample before that block is below it; `None` exactly when the row has no such sample |
| McuGap.FindPreviousMcuBlock | insert-mcu-crop-top-bottom.py:31-75 | `None` exactly when there is no dark row, or the last dark row has no bright sample, or its first bright block is block 0. Otherwise `previous + 1` is the first bright block of the last dark row, `previous + to_insert == width // 16`, and `1 <= to_insert <= width // 16` |
| McuGap.ClampedCropHeight | insert-mcu-crop-top-bottom.py:109-114 | one MCU (16 rows) less than the detected height, and 0 when that would be negative |
| McuGap.FinalCropRegion | insert-mcu-crop-top-bottom.py:102-119 | the jpegtran crop spans the full width from offset `+0+0`; it ends at least one MCU above the trailing gray rows (or is empty); every row from 16 below its end down is gray; when it is non-empty, row `height + 15` is not gray |
| McuGap.FinalCropRegionUnique | insert-mcu-crop-top-bottom.py:102-119 | that description of the crop (full width, `+0+0`, only gray rows from one MCU below its end, a non-gray row right above them) holds for exactly one region, the one the script computes |
| McuGap.McuRepairCommands | insert-mcu-crop-top-bottom.py:84-121 | no external command is planned exactly when the MCU search fails; otherwise the insert count is the `mcu_to_insert` found by the search, between 1 and `width // 16`, and the crop is the unique full-width `+0+0` region ending one MCU above the trailing gray rows |

## Left out

- File reads and writes, `input()` prompts, `print`, and output-path naming with `os.path` and `os.makedirs` are left out. They are I/O; the routines take and return byte sequences.
- Pillow decoding, the RGB to grayscale `convert('L')` and the numpy array are left out. The routines take already-decoded grids (`Raster.Grid`). Only three-channel pixels are modelled, since the scripts unpack `r, g, b`.
- The `jpegrepair.exe` and `jpegtran.exe` calls are opaque external tools and are left out. Only the arguments computed for them are modelled (`McuGap.McuRepairCommands`), and the repaired image is a parameter.
- The model does not say whether any output is a valid, decodable JPEG. The scripts scan for markers byte by byte. `remove_exif` misreads `FF 00` stuffing and restart markers inside scan data, and the model keeps that behaviour.
- McuGap.FindPreviousMcuBlock: the MCU size is fixed at the script's default of 16 (`McuSize`) instead of being a parameter. The script never passes another value.
- The unused `cut_encrypted_data` (main.py line 52) is not modelled. `original_height` (crop-non-mcu-no-pillow.py line 41) is not modelled either, except for the `IndexError` its read raises.
- The Markdown prose around the code in main.py is not modelled.
