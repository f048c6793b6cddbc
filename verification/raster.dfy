/** Decoded images as the scripts see them after Pillow or numpy has loaded them. */
module Raster {

  /** One RGB sample, as `pixels[x, y]` yields it. */
  datatype Pixel = Rgb(r: int, g: int, b: int)

  /**
    A `width` x `height` image stored row by row: `rows[y][x]` is the sample
    Pillow calls `pixels[x, y]` and numpy calls `img_array[y, x]`.
  */
  datatype Grid<T> = Grid(width: nat, height: nat, rows: seq<seq<T>>) {

    /** Every one of the `height` rows holds exactly `width` samples. */
    predicate Valid()
    {
      |rows| == height && forall y :: 0 <= y < |rows| ==> |rows[y]| == width
    }
  }
}
