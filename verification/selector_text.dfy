/** Widget paths as text: segments joined by slashes, each a class with an optional index. */
module SelectorText {
  import opened Basics
  import opened Decimal

  const SLASH := '/'
  const INT_MAX := 0x7fff_ffff

  // ------------------------------------------------------------ join and split

  function Join(segments: seq<string>): string {
    if segments == [] then ""
    else if |segments| == 1 then segments[0]
    else Join(segments[..|segments| - 1]) + [SLASH] + segments[|segments| - 1]
  }

  /** The parts between slashes, empty ones skipped. */
  function SplitSkippingEmpty(s: string, part: string := ""): seq<string>
    decreases |s|
  {
    var done := if part == "" then [] else [part];
    if s == "" then done
    else if s[0] == SLASH then done + SplitSkippingEmpty(s[1..], "")
    else SplitSkippingEmpty(s[1..], part + [s[0]])
  }

  predicate Plain(segment: string) {
    segment != "" && SLASH !in segment
  }

  lemma {:induction false} SplitPart(s: string, rest: string, part: string)
    requires SLASH !in s
    ensures SplitSkippingEmpty(s + rest, part) == SplitSkippingEmpty(rest, part + s)
  {
    if s == "" {
      assert s + rest == rest && part + s == part;
    } else {
      assert (s + rest)[0] == s[0] && (s + rest)[1..] == s[1..] + rest;
      SplitPart(s[1..], rest, part + [s[0]]);
      assert part + [s[0]] + s[1..] == part + s;
    }
  }

  /** A last part closes at a slash or at the end. */
  lemma SplitLast(last: string, rest: string)
    requires Plain(last) && (rest == "" || rest[0] == SLASH)
    ensures SplitSkippingEmpty(last + rest) == [last] + SplitSkippingEmpty(rest)
  {
    SplitPart(last, rest, "");
    assert "" + last == last;
  }

  lemma {:induction false} SplitJoinThen(segments: seq<string>, rest: string)
    requires segments != [] && forall i :: 0 <= i < |segments| ==> Plain(segments[i])
    requires rest == "" || rest[0] == SLASH
    ensures SplitSkippingEmpty(Join(segments) + rest) == segments + SplitSkippingEmpty(rest)
    decreases |segments|
  {
    var front, last := segments[..|segments| - 1], segments[|segments| - 1];
    SplitLast(last, rest);
    SnocSplit(segments);
    ConcatAssoc(front, [last], SplitSkippingEmpty(rest));
    if front != [] {
      var tail := [SLASH] + (last + rest);
      SplitJoinThen(front, tail);
      assert Join(segments) + rest == Join(front) + tail;
      assert tail[1..] == last + rest;
    }
  }

  lemma SplitJoin(segments: seq<string>)
    requires segments != [] && forall i :: 0 <= i < |segments| ==> Plain(segments[i])
    ensures SplitSkippingEmpty(Join(segments)) == segments
  {
    SplitJoinThen(segments, "");
    assert Join(segments) + "" == Join(segments);
  }

  // --------------------------------------------------------------- one segment

  /** Where the run of digits that ends at `n` starts. */
  function RunStart(s: string, n: nat): (b: nat)
    requires n <= |s|
    ensures b <= n && AllDigits(s[b..n])
    ensures b > 0 ==> !IsDigit(s[b - 1])
  {
    if n > 0 && IsDigit(s[n - 1]) then
      var b := RunStart(s, n - 1);
      assert s[b..n] == s[b..n - 1] + [s[n - 1]];
      b
    else n
  }

  /** The text has the form `token[digits]`. */
  predicate Indexed(s: string) {
    && |s| >= 3 && s[|s| - 1] == ']'
    && var b := RunStart(s, |s| - 1);
       0 < b < |s| - 1 && s[b - 1] == '['
  }

  /** A signed 32-bit conversion: what does not fit reads as zero. */
  function ToInt(digits: string): nat
    requires AllDigits(digits)
  {
    if Read(digits) <= INT_MAX then Read(digits) else 0
  }

  function Token(s: string): string {
    if Indexed(s) then s[..RunStart(s, |s| - 1) - 1] else s
  }

  function WantedIndex(s: string): Option<nat> {
    if Indexed(s) then Some(ToInt(s[RunStart(s, |s| - 1)..|s| - 1])) else None
  }

  function Segment(cls: string, index: Option<nat>): string {
    if index.None? then cls else cls + "[" + Print(index.value) + "]"
  }

  lemma {:induction false} RunStartSplit(s: string, a: nat, n: nat)
    requires 0 < a <= n <= |s| && AllDigits(s[a..n]) && !IsDigit(s[a - 1])
    ensures RunStart(s, n) == a
  {
    if a < n {
      assert IsDigit(s[a..n][n - 1 - a]);
      assert s[a..n - 1] == s[a..n][..n - 1 - a];
      RunStartSplit(s, a, n - 1);
    }
  }

  lemma IndexedReads(s: string, cls: string, digits: string)
    requires s == cls + "[" + digits + "]" && digits != [] && AllDigits(digits)
    ensures Indexed(s) && RunStart(s, |s| - 1) == |cls| + 1
    ensures s[..|cls|] == cls && s[|cls| + 1..|s| - 1] == digits
  {
    var a := |cls| + 1;
    assert s[a..|s| - 1] == digits;
    assert s[a - 1] == '[';
    RunStartSplit(s, a, |s| - 1);
  }

  /** A printed segment reads back as the class and the index it was printed from. */
  lemma SegmentReads(cls: string, index: Option<nat>)
    requires !Indexed(cls) && (index.Some? ==> index.value <= INT_MAX)
    ensures Token(Segment(cls, index)) == cls && WantedIndex(Segment(cls, index)) == index
  {
    if index.Some? {
      IndexedReads(Segment(cls, index), cls, Print(index.value));
      ReadPrint(index.value);
    }
  }

  lemma SegmentPlain(cls: string, index: Option<nat>)
    requires Plain(cls)
    ensures Plain(Segment(cls, index))
  {
    if index.Some? {
      var s, digits := Segment(cls, index), Print(index.value);
      forall i | 0 <= i < |s|
        ensures s[i] != SLASH
      {
        if |cls| < i < |s| - 1 {
          assert s[i] == digits[i - |cls| - 1];
        }
      }
    }
  }
}
