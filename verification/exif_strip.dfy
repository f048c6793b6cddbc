/**
  `remove_exif` of main.py: a left-to-right walk over marker/length pairs that
  deletes every APP1 segment it lands on. The walk is coarse byte scanning,
  not T.81 parsing: it does not know about scan data, byte stuffing or restart
  markers, and the model keeps that behaviour.
*/
module ExifStrip {
  import opened JpegBytes

  /** The loop state of `remove_exif`: the current buffer and the cursor `i`. */
  datatype ScanState = ScanState(data: seq<byte>, pos: nat)

  /** The walk has not finished: `i < len(data) - 1`. */
  predicate Running(s: ScanState)
  {
    s.pos + 1 < |s.data|
  }

  /** An APP1 marker `FF E1` starts at the cursor. */
  predicate App1At(s: ScanState)
  {
    PairAt(s.data, s.pos, MarkerPrefix, APP1)
  }

  /** SOI and EOI stand alone: no length field follows them. */
  predicate Standalone(code: byte)
  {
    code == SOI || code == EOI
  }

  /**
    The segment length of the marker at `i`: the two bytes after the marker,
    big-endian, plus 2 for the marker itself (section B.1.1.4 of ITU-T T.81).
    Near the end of the buffer Python's slice is short, so fewer bytes are read.
  */
  function SegmentLength(data: seq<byte>, i: nat): (n: nat)
    ensures 2 <= n <= 65537
    ensures i + 4 <= |data| ==> n == (data[i + 2] as int) * 256 + data[i + 3] + 2
    ensures i + 3 == |data| ==> n == data[i + 2] as int + 2
    ensures i + 2 >= |data| ==> n == 2
  {
    BigEndian(Slice(data, i + 2, i + 4)) + 2
  }

  /**
    `data[:i] + data[i + length:]`: the segment starting at `i` is cut out,
    `length` bytes of it or as many as remain before the end.
  */
  function DeleteSegment(data: seq<byte>, i: nat): (r: seq<byte>)
    requires i + 2 <= |data|
    ensures |data| - |r| == Min(SegmentLength(data, i), |data| - i)
    ensures |r| >= i && forall k :: 0 <= k < i ==> r[k] == data[k]
    ensures forall k :: i <= k < |r| ==> r[k] == data[k + |data| - |r|]
  {
    data[..i] + Suffix(data, i + SegmentLength(data, i))
  }

  /** One iteration of the `while` loop of `remove_exif`. */
  function ExifStep(s: ScanState): (t: ScanState)
    requires Running(s)
    // termination: either the cursor advances or the buffer shrinks by at least 2
    ensures t.pos >= s.pos && |t.data| <= |s.data|
    ensures t.pos > s.pos || |t.data| + 2 <= |s.data|
    // bytes before the cursor are never touched
    ensures |t.data| >= s.pos && forall k :: 0 <= k < s.pos ==> t.data[k] == s.data[k]
    // APP1: the segment is cut out and the cursor stays
    ensures App1At(s) ==> t == ScanState(DeleteSegment(s.data, s.pos), s.pos)
    // only APP1 changes the buffer
    ensures !App1At(s) ==> t.data == s.data && t.pos > s.pos
    // other markers (not SOI, not EOI) are skipped by their length field
    ensures s.data[s.pos] == MarkerPrefix && s.data[s.pos + 1] != APP1 && !Standalone(s.data[s.pos + 1]) ==>
      t.pos == s.pos + SegmentLength(s.data, s.pos)
    // a plain byte, SOI or EOI advances the cursor by exactly one
    ensures s.data[s.pos] != MarkerPrefix || Standalone(s.data[s.pos + 1]) ==>
      t == ScanState(s.data, s.pos + 1)
  {
    var i := s.pos;
    var data := s.data;
    if data[i] == MarkerPrefix && data[i + 1] == APP1 then
      ScanState(DeleteSegment(data, i), i)
    else if data[i] == MarkerPrefix && !Standalone(data[i + 1]) then
      ScanState(data, i + SegmentLength(data, i))
    else
      ScanState(data, i + 1)
  }

  /** Run the walk to completion from state `s` and return the final buffer. */
  function RemoveExifFrom(s: ScanState): (r: seq<byte>)
    ensures |r| <= |s.data|
    ensures s.pos <= |s.data| ==> |r| >= s.pos && forall k :: 0 <= k < s.pos ==> r[k] == s.data[k]
    decreases |s.data| - s.pos
  {
    if Running(s) then RemoveExifFrom(ExifStep(s)) else s.data
  }

  /** `remove_exif(data)`. */
  function RemoveExif(data: seq<byte>): (r: seq<byte>)
    ensures |r| <= |data|
  {
    RemoveExifFrom(ScanState(data, 0))
  }

  /** No `FF E1` pair at or after the cursor: the walk changes nothing. */
  lemma {:induction false} NoApp1KeepsBuffer(s: ScanState)
    requires forall j :: s.pos <= j < |s.data| ==> !PairAt(s.data, j, MarkerPrefix, APP1)
    ensures RemoveExifFrom(s) == s.data
    decreases |s.data| - s.pos
  {
    if Running(s) {
      var t := ExifStep(s);
      assert t.data == s.data;
      NoApp1KeepsBuffer(t);
    }
  }

  /** A buffer without any `FF E1` pair is returned unchanged. */
  lemma {:induction false} RemoveExifWithoutApp1(data: seq<byte>)
    requires !HasPair(data, MarkerPrefix, APP1)
    ensures RemoveExif(data) == data
  {
    NoApp1KeepsBuffer(ScanState(data, 0));
  }

  /**
    A run of non-`FF` bytes from the cursor through index `k` is walked over one
    byte at a time, so none of it (nor anything before it) is changed.
  */
  lemma {:induction false} PlainRunKept(s: ScanState, k: nat)
    requires s.pos <= k < |s.data|
    requires forall p :: s.pos <= p <= k ==> s.data[p] != MarkerPrefix
    ensures |RemoveExifFrom(s)| > k && forall p :: 0 <= p <= k ==> RemoveExifFrom(s)[p] == s.data[p]
    decreases k - s.pos
  {
    if Running(s) {
      var t := ExifStep(s);
      assert t == ScanState(s.data, s.pos + 1);
      if s.pos < k {
        PlainRunKept(t, k);
      }
    }
  }

  /**
    The four bytes from `i`, which starts before the cursor of `t`, survive
    the walk from `t` when none of those at or after the cursor is `FF`.
  */
  lemma {:induction false} WindowBeforeCursorKept(t: ScanState, i: nat)
    requires i < t.pos && i + 4 <= |t.data|
    requires forall p :: t.pos <= p < i + 4 ==> t.data[p] != MarkerPrefix
    ensures var r := RemoveExifFrom(t);
      && i + 4 <= |r| && r[i] == t.data[i] && r[i + 1] == t.data[i + 1]
      && r[i + 2] == t.data[i + 2] && r[i + 3] == t.data[i + 3]
  {
    if t.pos < i + 4 {
      PlainRunKept(t, i + 3);
    }
  }

  /**
    After skipping a segment by its length field, when the walk goes on, the
    final buffer still holds the marker and its length field.
  */
  lemma {:induction false} SkippedHeaderSurvives(s: ScanState)
    requires Running(s) && s.data[s.pos] == MarkerPrefix && s.data[s.pos + 1] != APP1 && !Standalone(s.data[s.pos + 1])
    requires Running(ExifStep(s))
    ensures var r := RemoveExifFrom(s); var i := s.pos;
      && i + 4 <= |r| && r[i] == s.data[i] && r[i + 1] == s.data[i + 1]
      && r[i + 2] == s.data[i + 2] && r[i + 3] == s.data[i + 3]
  {
    var i := s.pos;
    var t := ExifStep(s);
    assert t == ScanState(s.data, i + SegmentLength(s.data, i));
    assert RemoveExifFrom(s) == RemoveExifFrom(t);
    ShortLengthField(s.data, i);
    WindowBeforeCursorKept(t, i);
  }

  /**
    A length field that leaves the walk running puts the whole field inside
    the buffer, and a field of 0 or 1 is the bytes `00 00` or `00 01`.
  */
  lemma ShortLengthField(data: seq<byte>, i: nat)
    requires i + SegmentLength(data, i) + 1 < |data|
    ensures i + 4 <= |data|
    ensures SegmentLength(data, i) < 4 ==> data[i + 2] == 0 && data[i + 3] <= 1
    ensures forall p :: i + SegmentLength(data, i) <= p < i + 4 ==> data[p] != MarkerPrefix
  {
  }

  /** Walking the final buffer from a plain byte steps to the next byte, as the first walk did. */
  lemma {:induction false} PlainStepRepeats(s: ScanState)
    requires Running(s) && s.data[s.pos] != MarkerPrefix
    requires Running(ScanState(RemoveExifFrom(s), s.pos))
    ensures ExifStep(ScanState(RemoveExifFrom(s), s.pos)) == ScanState(RemoveExifFrom(s), ExifStep(s).pos)
  {
  }

  /** Walking the final buffer from SOI or EOI steps over it, as the first walk did. */
  lemma {:induction false} StandaloneStepRepeats(s: ScanState)
    requires Running(s) && s.data[s.pos] == MarkerPrefix && Standalone(s.data[s.pos + 1])
    requires Running(ScanState(RemoveExifFrom(s), s.pos))
    ensures ExifStep(ScanState(RemoveExifFrom(s), s.pos)) == ScanState(RemoveExifFrom(s), ExifStep(s).pos)
  {
  }

  /** Walking the final buffer from a skipped marker skips the same length, as the first walk did. */
  lemma {:induction false} SkipStepRepeats(s: ScanState)
    requires Running(s) && s.data[s.pos] == MarkerPrefix && s.data[s.pos + 1] != APP1 && !Standalone(s.data[s.pos + 1])
    requires Running(ExifStep(s))
    ensures ExifStep(ScanState(RemoveExifFrom(s), s.pos)) == ScanState(RemoveExifFrom(s), ExifStep(s).pos)
  {
    var r := RemoveExifFrom(s);
    SkippedHeaderSurvives(s);
    assert SegmentLength(r, s.pos) == SegmentLength(s.data, s.pos);
  }

  /**
    After a non-APP1 step from `s`, walking the final buffer from `s.pos`
    takes that same step.
  */
  lemma {:induction false} StepRepeatsOnResult(s: ScanState)
    requires Running(s) && !App1At(s)
    ensures var r := RemoveExifFrom(s);
      RemoveExifFrom(ScanState(r, s.pos)) == RemoveExifFrom(ScanState(r, ExifStep(s).pos))
  {
    var r := RemoveExifFrom(s);
    assert r == RemoveExifFrom(ExifStep(s));
    if !Running(ExifStep(s)) {
      assert r == s.data;
    } else if Running(ScanState(r, s.pos)) {
      if s.data[s.pos] != MarkerPrefix {
        PlainStepRepeats(s);
      } else if Standalone(s.data[s.pos + 1]) {
        StandaloneStepRepeats(s);
      } else {
        SkipStepRepeats(s);
      }
    }
  }

  /**
    Stripping is idempotent from any cursor: walking the stripped buffer again
    from the same cursor finds nothing more to delete. The walk up to each APP1
    it deletes only reads bytes before that APP1, so the second walk visits the
    same positions and sees the same markers, minus the deleted segments.
  */
  lemma {:induction false} RemoveExifFromIdempotent(s: ScanState)
    ensures RemoveExifFrom(ScanState(RemoveExifFrom(s), s.pos)) == RemoveExifFrom(s)
    decreases |s.data| - s.pos
  {
    if Running(s) {
      var t := ExifStep(s);
      RemoveExifFromIdempotent(t);
      if !App1At(s) {
        StepRepeatsOnResult(s);
      }
    }
  }

  /** `remove_exif(remove_exif(data)) == remove_exif(data)`. */
  lemma {:induction false} RemoveExifIdempotent(data: seq<byte>)
    ensures RemoveExif(RemoveExif(data)) == RemoveExif(data)
  {
    RemoveExifFromIdempotent(ScanState(data, 0));
  }

  /** A worked example: SOI, one APP1 segment with a 2-byte payload, EOI. */
  lemma {:induction false} StripsOneApp1Segment()
    ensures RemoveExif([0xFF, 0xD8, 0xFF, 0xE1, 0x00, 0x04, 0x12, 0x34, 0xFF, 0xD9]) == [0xFF, 0xD8, 0xFF, 0xD9]
  {
    var d: seq<byte> := [0xFF, 0xD8, 0xFF, 0xE1, 0x00, 0x04, 0x12, 0x34, 0xFF, 0xD9];
    var e: seq<byte> := [0xFF, 0xD8, 0xFF, 0xD9];
    // SOI moves the cursor to 1, the plain byte D8 to 2
    assert ExifStep(ScanState(d, 0)) == ScanState(d, 1);
    assert ExifStep(ScanState(d, 1)) == ScanState(d, 2);
    // the APP1 segment at 2 has length 4 + 2
    assert SegmentLength(d, 2) == 6;
    assert DeleteSegment(d, 2) == e;
    assert ExifStep(ScanState(d, 2)) == ScanState(e, 2);
    // EOI moves the cursor to 3, which ends the walk
    assert ExifStep(ScanState(e, 2)) == ScanState(e, 3);
    assert RemoveExifFrom(ScanState(e, 3)) == e;
    assert RemoveExifFrom(ScanState(e, 2)) == e;
    assert RemoveExifFrom(ScanState(d, 2)) == e;
    assert RemoveExifFrom(ScanState(d, 1)) == e;
  }
}
