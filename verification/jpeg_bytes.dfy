/**
  Byte buffers, Python's slicing rules, big-endian reads and the marker
  searches (`bytes.find` / `bytes.rfind` of a two-byte pattern) shared by the
  byte-level scripts. Marker codes are those of Table B.1 of ITU-T T.81.
*/
module JpegBytes {
  import opened Wrappers

  type byte = x: int | 0 <= x < 256

  /** Every marker starts with this byte. */
  const MarkerPrefix: byte := 0xFF
  /** Start of image. */
  const SOI: byte := 0xD8
  /** End of image. */
  const EOI: byte := 0xD9
  /** Start of frame, baseline DCT. */
  const SOF0: byte := 0xC0
  /** Start of scan. */
  const SOS: byte := 0xDA
  /** Application segment 1 (EXIF). */
  const APP1: byte := 0xE1

  function Min(a: int, b: int): int { if a <= b then a else b }
  function Max(a: int, b: int): int { if a >= b then a else b }

  /** Python's `s[lo:hi]` for non-negative bounds: both ends are clamped to the length. */
  function Slice<T>(s: seq<T>, lo: nat, hi: nat): (r: seq<T>)
    ensures |r| == Max(0, Min(hi, |s|) - Min(lo, |s|))
    ensures forall k :: 0 <= k < |r| ==> r[k] == s[lo + k]
  {
    var a := Min(lo, |s|);
    var b := Min(hi, |s|);
    if a <= b then s[a..b] else []
  }

  /** Python's `s[:n]` for `n >= 0`. */
  function Prefix<T>(s: seq<T>, n: nat): (r: seq<T>)
    ensures |r| == Min(n, |s|)
    ensures r == s[..|r|]
  {
    Slice(s, 0, n)
  }

  /** Python's `s[n:]` for `n >= 0`. */
  function Suffix<T>(s: seq<T>, n: nat): (r: seq<T>)
    ensures |r| == Max(0, |s| - n)
    ensures r == s[|s| - |r|..]
  {
    Slice(s, n, |s|)
  }

  /** Unsigned big-endian value of a byte string (`int.from_bytes(s, 'big')`). */
  function BigEndian(s: seq<byte>): (v: nat)
    ensures |s| == 0 ==> v == 0
    ensures |s| == 1 ==> v == s[0]
    ensures |s| == 2 ==> v == (s[0] as int) * 256 + s[1]
  {
    if |s| == 0 then 0 else BigEndian(s[..|s| - 1]) * 256 + s[|s| - 1] as int
  }

  /** The 16-bit big-endian field stored at `data[i]`, `data[i + 1]`. */
  function Be16At(data: seq<byte>, i: nat): nat
    requires i + 2 <= |data|
  {
    (data[i] as int) * 256 + data[i + 1]
  }

  /** A 16-bit field holds one value only: its high and low bytes are determined. */
  lemma Be16Bytes(data: seq<byte>, i: nat)
    requires i + 2 <= |data|
    ensures data[i] == Be16At(data, i) / 256 && data[i + 1] == Be16At(data, i) % 256
  {
  }

  /** The two-byte pattern `a b` starts at index `i`. */
  predicate PairAt(data: seq<byte>, i: int, a: byte, b: byte)
  {
    0 <= i && i + 1 < |data| && data[i] == a && data[i + 1] == b
  }

  predicate HasPair(data: seq<byte>, a: byte, b: byte)
  {
    exists i :: 0 <= i < |data| && PairAt(data, i, a, b)
  }

  /** `i` is the lowest index at which `a b` occurs. */
  predicate IsFirstPair(data: seq<byte>, i: int, a: byte, b: byte)
  {
    PairAt(data, i, a, b) && forall j :: 0 <= j < i ==> !PairAt(data, j, a, b)
  }

  /** `i` is the highest index at which `a b` occurs. */
  predicate IsLastPair(data: seq<byte>, i: int, a: byte, b: byte)
  {
    PairAt(data, i, a, b) && forall j :: i < j < |data| ==> !PairAt(data, j, a, b)
  }

  /** Scan for `a b` from index `k` upwards. */
  function FindPairFrom(data: seq<byte>, a: byte, b: byte, k: nat): (r: Option<nat>)
    ensures r.Some? ==> k <= r.value && PairAt(data, r.value, a, b)
    ensures r.Some? ==> forall j :: k <= j < r.value ==> !PairAt(data, j, a, b)
    ensures r.None? ==> forall j :: k <= j ==> !PairAt(data, j, a, b)
    decreases |data| - k
  {
    if k + 1 >= |data| then None
    else if data[k] == a && data[k + 1] == b then Some(k)
    else FindPairFrom(data, a, b, k + 1)
  }

  /** `data.find(bytes([a, b]))`, with `None` for Python's `-1`. */
  function FindPair(data: seq<byte>, a: byte, b: byte): (r: Option<nat>)
    ensures r.Some? ==> IsFirstPair(data, r.value, a, b)
    ensures r.None? <==> !HasPair(data, a, b)
  {
    FindPairFrom(data, a, b, 0)
  }

  /** Scan for `a b` among the start indices below `n`, from the top down. */
  function FindLastPairBelow(data: seq<byte>, a: byte, b: byte, n: nat): (r: Option<nat>)
    ensures r.Some? ==> r.value < n && PairAt(data, r.value, a, b)
    ensures r.Some? ==> forall j :: r.value < j < n ==> !PairAt(data, j, a, b)
    ensures r.None? ==> forall j :: j < n ==> !PairAt(data, j, a, b)
    decreases n
  {
    if n == 0 then None
    else if n < |data| && data[n - 1] == a && data[n] == b then Some(n - 1)
    else FindLastPairBelow(data, a, b, n - 1)
  }

  /** `data.rfind(bytes([a, b]))`, with `None` for Python's `-1`. */
  function FindLastPair(data: seq<byte>, a: byte, b: byte): (r: Option<nat>)
    ensures r.Some? ==> IsLastPair(data, r.value, a, b)
    ensures r.None? <==> !HasPair(data, a, b)
  {
    FindLastPairBelow(data, a, b, |data|)
  }
}
