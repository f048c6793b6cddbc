/**
  The byte part of `repair_jpeg` in main.py: the head of a reference JPEG
  (through its last start-of-scan marker's two bytes and the 10 bytes after
  them) is joined to the tail of an
  encrypted file, APP1 segments are stripped, and a fixed trailer is cut off.
  The three offsets are tuned to one sample file pair and carry no meaning of
  their own.
*/
module ReferenceSplice {
  import opened Wrappers
  import opened JpegBytes
  import opened ExifStrip

  /** Bytes of the encrypted file dropped from its front (`encrypted_data[153606:]`). */
  const EncryptedCut: nat := 153606
  /** Bytes of the reference kept from the start of its last SOS marker: the marker's two bytes and the 10 after them (`ffda_offset + 12`). */
  const ScanHeaderKeep: nat := 12
  /** Bytes removed from the end after stripping (`[:-334]`). */
  const TrailerTrim: nat := 334

  /** The only failure `repair_jpeg` raises on its own. */
  datatype RepairError = SosMarkerNotFound

  /** `find_ffda_offset`: the index of the last `FF DA` pair, or the raised error. */
  function FindFfdaOffset(data: seq<byte>): (r: Result<nat, RepairError>)
    ensures r.Failure? <==> !HasPair(data, MarkerPrefix, SOS)
    ensures r.Success? ==> IsLastPair(data, r.value, MarkerPrefix, SOS)
  {
    match FindLastPair(data, MarkerPrefix, SOS)
    case None => Failure(SosMarkerNotFound)
    case Some(i) => Success(i)
  }

  /** `reference[:ffda + 12] + encrypted[153606:]`. */
  function SpliceReference(reference: seq<byte>, encrypted: seq<byte>, ffda: nat): (r: seq<byte>)
    ensures |r| == Min(ffda + ScanHeaderKeep, |reference|) + Max(0, |encrypted| - EncryptedCut)
    ensures forall k :: 0 <= k < Min(ffda + ScanHeaderKeep, |reference|) ==> r[k] == reference[k]
    ensures forall k :: EncryptedCut <= k < |encrypted| ==>
      r[Min(ffda + ScanHeaderKeep, |reference|) + k - EncryptedCut] == encrypted[k]
  {
    Prefix(reference, ffda + ScanHeaderKeep) + Suffix(encrypted, EncryptedCut)
  }

  /** `data[:-334]`: everything but the last 334 bytes, empty when there are no more. */
  function TrimTrailer(data: seq<byte>): (r: seq<byte>)
    ensures |r| == Max(0, |data| - TrailerTrim)
    ensures |data| <= TrailerTrim ==> r == []
    ensures r == data[..|r|]
  {
    if |data| <= TrailerTrim then [] else data[..|data| - TrailerTrim]
  }

  /** `repair_jpeg` without its file reads and write. */
  function RepairJpeg(encrypted: seq<byte>, reference: seq<byte>): (r: Result<seq<byte>, RepairError>)
    ensures r.Failure? <==> !HasPair(reference, MarkerPrefix, SOS)
    ensures r.Success? ==> forall f :: IsLastPair(reference, f, MarkerPrefix, SOS) ==>
      var stripped := RemoveExif(SpliceReference(reference, encrypted, f));
      |r.value| == Max(0, |stripped| - TrailerTrim) && r.value == stripped[..|r.value|]
    ensures r.Success? ==>
      |r.value| <= Max(0, |reference| + Max(0, |encrypted| - EncryptedCut) - TrailerTrim)
  {
    match FindFfdaOffset(reference)
    case Failure(e) => Failure(e)
    case Success(ffda) =>
      var spliced := SpliceReference(reference, encrypted, ffda);
      Success(TrimTrailer(RemoveExif(spliced)))
  }

  /**
    When the spliced buffer holds no `FF E1` pair the stripping is a no-op and
    the output is the reference head and encrypted tail, minus the trailer.
  */
  lemma RepairWithoutExif(encrypted: seq<byte>, reference: seq<byte>, f: nat)
    requires IsLastPair(reference, f, MarkerPrefix, SOS)
    requires !HasPair(SpliceReference(reference, encrypted, f), MarkerPrefix, APP1)
    ensures RepairJpeg(encrypted, reference) == Success(TrimTrailer(SpliceReference(reference, encrypted, f)))
  {
    RemoveExifWithoutApp1(SpliceReference(reference, encrypted, f));
  }

  /** Only `encrypted[153606:]` reaches the output: the bytes before the cut do not matter. */
  lemma RepairIgnoresEncryptedHead(e1: seq<byte>, e2: seq<byte>, reference: seq<byte>)
    requires Suffix(e1, EncryptedCut) == Suffix(e2, EncryptedCut)
    ensures RepairJpeg(e1, reference) == RepairJpeg(e2, reference)
  {
  }
}
