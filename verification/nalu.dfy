/** Video frames as length-prefixed NAL units, their Annex B form, and looking for a
    keyframe in either. */
module Nalu {
  import opened Basics
  import opened Numbers

  datatype Codec = H264 | H265

  /** A NAL unit is never empty: a zero length ends the walk. */
  type Unit = u: Bytes | u != [] witness [0]

  /** Whether a NAL unit's first byte marks a keyframe slice: IDR, or IRAP. */
  predicate IsKeyframe(header: byte, codec: Codec) {
    match codec
    case H264 => header % 32 == 5
    case H265 => 16 <= header / 2 % 64 <= 23
  }

  /** Read field by field: after a zero bit an H.264 header has two bits of importance and five
      of type, an H.265 one six of type and one of layer. A keyframe slice is of type 5, or of
      one of the types 16 to 23. */
  lemma HeaderFields(importance: nat, kind: nat, layer: nat)
    requires importance < 4 && layer < 2
    ensures kind < 32 ==> (IsKeyframe((32 * importance + kind) as byte, H264) <==> kind == 5)
    ensures kind < 64 ==> (IsKeyframe((2 * kind + layer) as byte, H265) <==> 16 <= kind <= 23)
  {
  }

  // ------------------------------------------------------- length-prefixed form

  function BigEndian(frame: Bytes, offset: nat, size: nat): nat
    requires offset + size <= |frame|
  {
    if size == 0 then 0 else BigEndian(frame, offset, size - 1) * 256 + frame[offset + size - 1] as nat
  }

  /** The NAL units from `offset` on, up to the first malformed length. */
  function Units(frame: Bytes, lengthSize: nat, offset: nat): seq<Unit>
    requires lengthSize > 0
    decreases |frame| - offset
  {
    if offset + lengthSize > |frame| then []
    else
      var length, start := BigEndian(frame, offset, lengthSize), offset + lengthSize;
      if length == 0 || start + length > |frame| then []
      else [frame[start..start + length]] + Units(frame, lengthSize, start + length)
  }

  /** The whole frame; a length size outside 1 to 4 is refused. */
  function UnitsOf(frame: Bytes, lengthSize: nat): seq<Unit>
  {
    if 1 <= lengthSize <= 4 then Units(frame, lengthSize, 0) else []
  }

  const START_CODE: Bytes := [0, 0, 0, 1]

  function AnnexB(units: seq<Unit>): Bytes {
    if units == [] then [] else START_CODE + units[0] + AnnexB(units[1..])
  }

  method ReadLength(frame: Bytes, offset: nat, lengthSize: nat) returns (length: nat)
    requires offset + lengthSize <= |frame|
    ensures length == BigEndian(frame, offset, lengthSize)
  {
    length := 0;
    for i := 0 to lengthSize
      invariant length == BigEndian(frame, offset, i)
    {
      length := length * 256 + frame[offset + i] as nat;
    }
  }

  /** Writing one unit out takes it off the front of what is left. */
  lemma NextUnit(frame: Bytes, lengthSize: nat, offset: nat, length: nat, out: Bytes)
    requires lengthSize > 0 && offset + lengthSize <= |frame| && length == BigEndian(frame, offset, lengthSize)
    ensures var start, left := offset + lengthSize, AnnexB(Units(frame, lengthSize, offset));
            if length == 0 || start + length > |frame| then out + left == out
            else out + (START_CODE + frame[start..start + length]) + AnnexB(Units(frame, lengthSize, start + length)) == out + left
  {
    var start := offset + lengthSize;
    if length != 0 && start + length <= |frame| {
      var unit: Unit, later := frame[start..start + length], Units(frame, lengthSize, start + length);
      assert ([unit] + later)[0] == unit && ([unit] + later)[1..] == later;
      ConcatAssoc(out, START_CODE + unit, AnnexB(later));
    }
  }

  method FrameToAnnexB(frame: Bytes, lengthSize: nat) returns (out: Bytes)
    ensures out == AnnexB(UnitsOf(frame, lengthSize))
  {
    out := [];
    if lengthSize < 1 || lengthSize > 4 {
      return;
    }
    var offset := 0;
    ghost var all := AnnexB(Units(frame, lengthSize, 0));
    while offset + lengthSize <= |frame|
      invariant out + AnnexB(Units(frame, lengthSize, offset)) == all
      decreases |frame| - offset
    {
      var length := ReadLength(frame, offset, lengthSize);
      NextUnit(frame, lengthSize, offset, length, out);
      offset := offset + lengthSize;
      if length == 0 || offset + length > |frame| {
        return;
      }
      out := out + (START_CODE + frame[offset..offset + length]);
      offset := offset + length;
    }
  }

  // ------------------------------------------------------------ written and read back

  /** Units, each behind its length in so many bytes, most significant first. */
  function Prefixed(units: seq<Unit>, lengthSize: nat): Bytes {
    if units == [] then [] else Padded(|units[0]|, lengthSize) + units[0] + Prefixed(units[1..], lengthSize)
  }

  lemma {:induction false} BigEndianIs(frame: Bytes, offset: nat, size: nat)
    requires offset + size <= |frame|
    ensures BigEndian(frame, offset, size) == FromBytes(frame[offset..offset + size])
  {
    if size > 0 {
      BigEndianIs(frame, offset, size - 1);
      assert frame[offset..offset + size][..size - 1] == frame[offset..offset + size - 1];
    }
  }

  /** These units, written behind their lengths, are all that stands in the frame from some
      place on. */
  ghost predicate Stand(frame: Bytes, offset: nat, units: seq<Unit>, lengthSize: nat) {
    && offset <= |frame| && frame[offset..] == Prefixed(units, lengthSize)
    && forall i :: 0 <= i < |units| ==> |units[i]| < Pow(256, lengthSize)
  }

  /** A whole unit at some place. */
  predicate UnitAt(frame: Bytes, offset: nat, unit: Unit, lengthSize: nat) {
    && offset + lengthSize + |unit| <= |frame| && BigEndian(frame, offset, lengthSize) == |unit|
    && frame[offset + lengthSize..offset + lengthSize + |unit|] == unit
  }

  lemma Divided(left: Bytes, a: Bytes, b: Bytes, rest: Bytes)
    requires left == a + b + rest
    ensures left[..|a|] == a && left[|a|..|a| + |b|] == b && left[|a| + |b|..] == rest
  {
  }

  lemma PartsOf(frame: Bytes, offset: nat, a: Bytes, b: Bytes, rest: Bytes)
    requires offset <= |frame| && frame[offset..] == a + b + rest
    ensures offset + |a| + |b| <= |frame|
    ensures frame[offset..offset + |a|] == a && frame[offset + |a|..offset + |a| + |b|] == b && frame[offset + |a| + |b|..] == rest
  {
    var left := frame[offset..];
    Divided(left, a, b, rest);
    assert left[..|a|] == frame[offset..offset + |a|];
    assert left[|a|..|a| + |b|] == frame[offset + |a|..offset + |a| + |b|];
    assert left[|a| + |b|..] == frame[offset + |a| + |b|..];
  }

  lemma LengthReads(frame: Bytes, offset: nat, unit: Unit, lengthSize: nat)
    requires |unit| < Pow(256, lengthSize) && offset + lengthSize <= |frame|
    requires frame[offset..offset + lengthSize] == Padded(|unit|, lengthSize)
    ensures BigEndian(frame, offset, lengthSize) == |unit|
  {
    BigEndianIs(frame, offset, lengthSize);
    PaddedRoundTrip(|unit|, lengthSize);
  }

  /** The first is read off, and the others stand behind it. */
  lemma FirstUnitReads(frame: Bytes, offset: nat, units: seq<Unit>, lengthSize: nat)
    requires 0 < lengthSize && Stand(frame, offset, units, lengthSize) && units != []
    ensures UnitAt(frame, offset, units[0], lengthSize)
    ensures Stand(frame, offset + lengthSize + |units[0]|, units[1..], lengthSize)
  {
    PartsOf(frame, offset, Padded(|units[0]|, lengthSize), units[0], Prefixed(units[1..], lengthSize));
    LengthReads(frame, offset, units[0], lengthSize);
  }

  /** Reading on, unit after unit, as a property of what is read from each place. */
  ghost predicate ReadsOn(from: nat -> seq<Unit>, frame: Bytes, lengthSize: nat) {
    && from(|frame|) == []
    && forall offset: nat, unit: Unit :: UnitAt(frame, offset, unit, lengthSize) ==>
         from(offset) == [unit] + from(offset + lengthSize + |unit|)
  }

  lemma {:induction false} UnitsRead(from: nat -> seq<Unit>, frame: Bytes, offset: nat, units: seq<Unit>, lengthSize: nat)
    requires 0 < lengthSize && ReadsOn(from, frame, lengthSize) && Stand(frame, offset, units, lengthSize)
    ensures from(offset) == units
    decreases |units|
  {
    if units != [] {
      FirstUnitReads(frame, offset, units, lengthSize);
      UnitsRead(from, frame, offset + lengthSize + |units[0]|, units[1..], lengthSize);
    }
  }

  lemma UnitsReadOn(frame: Bytes, lengthSize: nat)
    requires 0 < lengthSize
    ensures ReadsOn((offset: nat) => Units(frame, lengthSize, offset), frame, lengthSize)
  {
  }

  /** Units written behind their lengths are read back, each as it was. */
  lemma WrittenUnitsRead(units: seq<Unit>, lengthSize: nat)
    requires 1 <= lengthSize <= 4 && forall i :: 0 <= i < |units| ==> |units[i]| < Pow(256, lengthSize)
    ensures UnitsOf(Prefixed(units, lengthSize), lengthSize) == units
  {
    var frame := Prefixed(units, lengthSize);
    UnitsReadOn(frame, lengthSize);
    UnitsRead((offset: nat) => Units(frame, lengthSize, offset), frame, 0, units, lengthSize);
  }

  predicate SomeKeyUnit(units: seq<Unit>, codec: Codec)
  {
    exists i :: 0 <= i < |units| && IsKeyframe(units[i][0], codec)
  }

  method FrameContainsKeyframe(frame: Bytes, codec: Codec, lengthSize: nat) returns (keyframe: bool)
    ensures keyframe <==> SomeKeyUnit(UnitsOf(frame, lengthSize), codec)
  {
    keyframe := false;
    if lengthSize < 1 || lengthSize > 4 {
      return;
    }
    var offset := 0;
    while offset + lengthSize <= |frame|
      invariant (keyframe || SomeKeyUnit(Units(frame, lengthSize, offset), codec)) <==> SomeKeyUnit(UnitsOf(frame, lengthSize), codec)
      decreases |frame| - offset
    {
      var length := ReadLength(frame, offset, lengthSize);
      ghost var units := Units(frame, lengthSize, offset);
      offset := offset + lengthSize;
      if length == 0 || offset + length > |frame| {
        return;
      }
      ghost var later := Units(frame, lengthSize, offset + length);
      assert units == [frame[offset..offset + length]] + later;
      KeyUnitStep(frame[offset..offset + length], later, codec);
      if IsKeyframe(frame[offset], codec) {
        keyframe := true;
      }
      offset := offset + length;
    }
  }

  lemma KeyUnitStep(unit: Unit, later: seq<Unit>, codec: Codec)
    ensures SomeKeyUnit([unit] + later, codec) <==> IsKeyframe(unit[0], codec) || SomeKeyUnit(later, codec)
  {
    var all := [unit] + later;
    if IsKeyframe(unit[0], codec) {
      assert IsKeyframe(all[0][0], codec);
    }
    if i :| 0 <= i < |later| && IsKeyframe(later[i][0], codec) {
      assert IsKeyframe(all[i + 1][0], codec);
    }
  }

  // ---------------------------------------------------------------- Annex B form

  /** A three-byte start code at `i` whose NAL header marks a keyframe. A four-byte
      start code ends in a three-byte one. */
  predicate KeyframeAt(stream: Bytes, codec: Codec, i: int) {
    0 <= i && i + 3 < |stream| && stream[i] == 0 && stream[i + 1] == 0 && stream[i + 2] == 1 && IsKeyframe(stream[i + 3], codec)
  }

  predicate HasKeyframe(stream: Bytes, codec: Codec) {
    exists i :: 0 <= i < |stream| && KeyframeAt(stream, codec, i)
  }

  /** The walk over start codes, jumping past each one it has looked at, misses none. */
  method AnnexBContainsKeyframe(stream: Bytes, codec: Codec) returns (r: bool)
    ensures r <==> HasKeyframe(stream, codec)
  {
    var i := 0;
    while i + 3 < |stream|
      invariant 0 <= i
      invariant forall j :: 0 <= j < i ==> !KeyframeAt(stream, codec, j)
    {
      if stream[i] == 0 && stream[i + 1] == 0 {
        if stream[i + 2] == 1 {
          if IsKeyframe(stream[i + 3], codec) {
            assert KeyframeAt(stream, codec, i);
            return true;
          }
          i := i + 2;
        } else if stream[i + 2] == 0 && i + 4 < |stream| && stream[i + 3] == 1 {
          if IsKeyframe(stream[i + 4], codec) {
            assert KeyframeAt(stream, codec, i + 1);
            return true;
          }
          i := i + 3;
        }
      }
      i := i + 1;
    }
    return false;
  }

  // ---------------------------------------------------- what conversion preserves

  /** Empty, or starting with a start code: what can follow a NAL unit. */
  ghost predicate Follows(rest: Bytes) {
    rest == [] || (|rest| > 4 && rest[..4] == START_CODE)
  }

  lemma AnnexBFollows(units: seq<Unit>)
    ensures Follows(AnnexB(units))
  {
  }

  /** In one start code, one unit and what follows, keyframe marks are the unit's own
      header, marks inside the unit, and marks in what follows: none straddles. */
  lemma MarksInUnit(unit: Unit, rest: Bytes, codec: Codec)
    requires Follows(rest)
    ensures HasKeyframe(START_CODE + unit + rest, codec)
       <==> IsKeyframe(unit[0], codec) || HasKeyframe(unit, codec) || HasKeyframe(rest, codec)
  {
    var all, n := START_CODE + unit + rest, 4 + |unit|;
    if IsKeyframe(unit[0], codec) {
      assert KeyframeAt(all, codec, 1);
    }
    if i :| 0 <= i < |unit| && KeyframeAt(unit, codec, i) {
      assert KeyframeAt(all, codec, i + 4);
    }
    if i :| 0 <= i < |rest| && KeyframeAt(rest, codec, i) {
      assert KeyframeAt(all, codec, i + n);
    }
    forall i | 0 <= i < |all| && KeyframeAt(all, codec, i)
      ensures IsKeyframe(unit[0], codec) || HasKeyframe(unit, codec) || HasKeyframe(rest, codec)
    {
      MarkPlace(unit, rest, codec, i);
    }
  }

  lemma MarkPlace(unit: Unit, rest: Bytes, codec: Codec, i: int)
    requires Follows(rest) && KeyframeAt(START_CODE + unit + rest, codec, i)
    ensures (i == 1 && IsKeyframe(unit[0], codec)) || KeyframeAt(unit, codec, i - 4) || KeyframeAt(rest, codec, i - 4 - |unit|)
  {
    var all, n := START_CODE + unit + rest, 4 + |unit|;
    assert rest != [] ==> rest[0] == 0 && rest[1] == 0 && rest[2] == 0;
    assert forall k :: 4 <= k < n ==> all[k] == unit[k - 4];
    assert forall k :: n <= k < |all| ==> all[k] == rest[k - n];
  }

  /** Exactly when the converted stream reads as a keyframe: some unit's header says
      so, or some unit holds a start code of its own with such a byte behind it. */
  lemma {:induction false} ConvertedKeyframe(units: seq<Unit>, codec: Codec)
    ensures HasKeyframe(AnnexB(units), codec)
       <==> SomeKeyUnit(units, codec) || exists i :: 0 <= i < |units| && HasKeyframe(units[i], codec)
    decreases |units|
  {
    if units != [] {
      var unit, later := units[0], units[1..];
      ConvertedKeyframe(later, codec);
      AnnexBFollows(later);
      MarksInUnit(unit, AnnexB(later), codec);
      assert units == [unit] + later;
      KeyUnitStep(unit, later, codec);
      if i :| 0 <= i < |later| && HasKeyframe(later[i], codec) {
        assert HasKeyframe(units[i + 1], codec);
      }
      if i :| 0 < i < |units| && HasKeyframe(units[i], codec) {
        assert later[i - 1] == units[i];
      }
      assert HasKeyframe(unit, codec) ==> HasKeyframe(units[0], codec);
    }
  }

  predicate StartCodeAt(unit: Bytes, k: int) {
    0 <= k && k + 3 <= |unit| && unit[k] == 0 && unit[k + 1] == 0 && unit[k + 2] == 1
  }

  /** No unit contains a start code: what section 7.4.1 of ITU-T H.264 requires. */
  ghost predicate NoStartCodeInside(units: seq<Unit>) {
    forall i, k :: 0 <= i < |units| ==> !StartCodeAt(units[i], k)
  }

  /** Detection survives conversion: a keyframe found in the frame is found in its
      Annex B form, and for streams that keep start codes out of units nothing else
      is. */
  lemma KeyframeSurvivesConversion(frame: Bytes, codec: Codec, lengthSize: nat)
    ensures var units := UnitsOf(frame, lengthSize);
            && (SomeKeyUnit(units, codec) ==> HasKeyframe(AnnexB(units), codec))
            && (NoStartCodeInside(units) ==> (HasKeyframe(AnnexB(units), codec) <==> SomeKeyUnit(units, codec)))
  {
    var units := UnitsOf(frame, lengthSize);
    ConvertedKeyframe(units, codec);
    assert forall i, k :: 0 <= i < |units| && KeyframeAt(units[i], codec, k) ==> StartCodeAt(units[i], k);
  }
}
