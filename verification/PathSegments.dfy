/**
 The segments of a path: the maximal runs of characters other than '/' (Unix style of
 kernel/libc/stdlib/cwalk.c).  `Spans` is the reference; the methods are the cursor operations of
 the code, each proved to move from one span to its neighbour.
*/
module PathSegments {
  import opened PathStack

  const SEPARATOR: char := '/'
  const NUL: char := '\0'

  datatype Span = Span(begin: nat, end: nat)

  /** struct cwk_segment; `segments` is where the path starts after its root. */
  datatype Segment = Segment(path: string, segments: nat, begin: nat, size: nat)

  ghost predicate CString(path: string) {
    NUL !in path
  }

  /** The character at `i`; the terminator past the end. */
  function At(path: string, i: nat): char {
    if i < |path| then path[i] else NUL
  }

  predicate IsSeparator(path: string, i: nat) {
    At(path, i) == SEPARATOR
  }

  function Skip(path: string, i: nat): (r: nat)
    requires i <= |path|
    ensures i <= r <= |path| && forall j :: i <= j < r ==> path[j] == SEPARATOR
    ensures r < |path| ==> path[r] != SEPARATOR
    decreases |path| - i
  {
    if i < |path| && path[i] == SEPARATOR then Skip(path, i + 1) else i
  }

  function Stop(path: string, i: nat): (r: nat)
    requires i <= |path|
    ensures i <= r <= |path| && forall j :: i <= j < r ==> path[j] != SEPARATOR
    ensures r < |path| ==> path[r] == SEPARATOR
    decreases |path| - i
  {
    if i < |path| && path[i] != SEPARATOR then Stop(path, i + 1) else i
  }

  function SpansFrom(path: string, i: nat): seq<Span>
    requires i <= |path|
    decreases |path| - i
  {
    var b := Skip(path, i);
    if b == |path| then [] else [Span(b, Stop(path, b))] + SpansFrom(path, Stop(path, b))
  }

  function Spans(path: string): seq<Span> {
    SpansFrom(path, 0)
  }

  function Text(path: string, s: Span): string
    requires s.begin <= s.end <= |path|
  {
    path[s.begin..s.end]
  }

  /** cwk_path_get_segment_type */
  function KindOf(text: string): Kind {
    if text == "." then Current else if text == ".." then Back else Normal
  }

  function RootLength(path: string): nat {
    if IsSeparator(path, 0) then 1 else 0
  }

  // ---------------------------------------------------------------------------------------------
  // The spans of a path
  // ---------------------------------------------------------------------------------------------

  ghost predicate AllSeparators(path: string, i: nat, j: nat) {
    i <= j <= |path| && forall k :: i <= k < j ==> path[k] == SEPARATOR
  }

  ghost predicate NoSeparators(path: string, i: nat, j: nat) {
    i <= j <= |path| && forall k :: i <= k < j ==> path[k] != SEPARATOR
  }

  /** `s` are the maximal runs of other characters from `i` on. */
  ghost predicate Runs(path: string, i: nat, s: seq<Span>) {
    && i <= |path|
    && (forall k :: 0 <= k < |s| ==> s[k].begin < s[k].end && NoSeparators(path, s[k].begin, s[k].end))
    && AllSeparators(path, i, if s == [] then |path| else s[0].begin)
    && (forall k, l :: 0 <= k && l == k + 1 && l < |s| ==>
          s[k].end < s[l].begin && AllSeparators(path, s[k].end, s[l].begin))
    && (s != [] ==> AllSeparators(path, s[|s| - 1].end, |path|))
  }

  lemma {:induction false} SpansAreRuns(path: string, i: nat)
    requires i <= |path|
    ensures Runs(path, i, SpansFrom(path, i))
    decreases |path| - i
  {
    var b := Skip(path, i);
    if b < |path| {
      var e := Stop(path, b);
      var rest := SpansFrom(path, e);
      SpansAreRuns(path, e);
      ConsRuns(path, i, Span(b, e), rest);
    }
  }

  lemma ConsRuns(path: string, i: nat, x: Span, rest: seq<Span>)
    requires AllSeparators(path, i, x.begin) && x.begin < x.end && NoSeparators(path, x.begin, x.end)
    requires Runs(path, x.end, rest) && (rest != [] ==> rest[0].begin != x.end)
    ensures Runs(path, i, [x] + rest)
  {
    hide AllSeparators, NoSeparators;
    var s := [x] + rest;
    SeparatorsRange(path, i, x.begin);
    forall k, l | 0 <= k && l == k + 1 && l < |s|
      ensures s[k].end < s[l].begin && AllSeparators(path, s[k].end, s[l].begin)
    {
      assert s[l] == rest[l - 1];
      if k > 0 {
        assert s[k] == rest[k - 1];
      } else {
        SeparatorsRange(path, x.end, rest[0].begin);
      }
    }
  }

  lemma SeparatorsRange(path: string, i: nat, j: nat)
    requires AllSeparators(path, i, j)
    ensures i <= j <= |path|
  {
  }

  /** Leading separators make no difference to the spans. */
  lemma {:induction false} SpansSkip(path: string, i: nat, j: nat)
    requires i <= |path| && AllSeparators(path, i, j)
    ensures SpansFrom(path, i) == SpansFrom(path, j)
    decreases j - i
  {
    if i < j {
      SpansSkip(path, i + 1, j);
      assert Skip(path, i) == Skip(path, i + 1);
    }
  }

  lemma RunAt(path: string, s: seq<Span>, k: nat)
    requires Runs(path, 0, s) && k < |s|
    ensures s[k].begin < s[k].end <= |path| && NoSeparators(path, s[k].begin, s[k].end)
    ensures k + 1 < |s| ==> s[k].end < s[k + 1].begin < |path| && AllSeparators(path, s[k].end, s[k + 1].begin)
    ensures k + 1 == |s| ==> AllSeparators(path, s[k].end, |path|)
    ensures k == 0 ==> AllSeparators(path, 0, s[0].begin)
  {
    if k + 1 < |s| {
      assert s[k + 1].begin < s[k + 1].end && NoSeparators(path, s[k + 1].begin, s[k + 1].end);
    }
  }

  // ---------------------------------------------------------------------------------------------
  // The cursor operations
  // ---------------------------------------------------------------------------------------------

  /** The segment for the k-th span of a path, with its start marked at `start`. */
  function SegmentFor(path: string, start: nat, s: Span): Segment
    requires s.begin <= s.end
  {
    Segment(path, start, s.begin, s.end - s.begin)
  }

  /** cwk_path_find_next_stop */
  method FindNextStop(path: string, c: nat) returns (r: nat)
    requires CString(path) && c <= |path|
    ensures r == Stop(path, c)
  {
    r := c;
    while At(path, r) != NUL && !IsSeparator(path, r)
      invariant c <= r <= |path| && Stop(path, r) == Stop(path, c)
      decreases |path| - r
    {
      r := r + 1;
    }
  }

  /** cwk_path_find_previous_stop */
  method FindPreviousStop(path: string, begin: nat, c: nat) returns (r: nat)
    requires begin <= c < |path| && path[c] != SEPARATOR
    ensures begin <= r <= c && NoSeparators(path, r, c + 1)
    ensures r > begin ==> path[r - 1] == SEPARATOR
  {
    var i := c;
    while i > begin && !IsSeparator(path, i)
      invariant begin <= i <= c && NoSeparators(path, i + 1, c + 1)
    {
      i := i - 1;
    }
    if IsSeparator(path, i) {
      r := i + 1;
    } else {
      r := i;
    }
  }

  /** cwk_path_get_first_segment_without_root */
  method GetFirstSegmentWithoutRoot(path: string, segments: nat) returns (found: bool, seg: Segment)
    requires CString(path) && segments <= |path| && AllSeparators(path, 0, segments)
    ensures found <==> Spans(path) != []
    ensures found ==> SpanOk(path, 0) && seg == SegmentFor(path, segments, Spans(path)[0])
  {
    SpansSkip(path, 0, segments);
    seg := Segment(path, segments, 0, 0);
    if At(path, segments) == NUL {
      return false, seg;
    }
    var i := segments;
    while IsSeparator(path, i)
      invariant segments <= i < |path| && AllSeparators(path, 0, i)
      invariant SpansFrom(path, i) == Spans(path)
      decreases |path| - i
    {
      i := i + 1;
      SpansSkip(path, i - 1, i);
      if At(path, i) == NUL {
        return false, seg;
      }
    }
    var e := FindNextStop(path, i);
    assert SpansFrom(path, i) == [Span(i, e)] + SpansFrom(path, e);
    return true, Segment(path, segments, i, e - i);
  }

  ghost predicate SpanOk(path: string, k: nat) {
    k < |Spans(path)| && Spans(path)[k].begin < Spans(path)[k].end <= |path|
  }

  lemma SpanIsOk(path: string, k: nat)
    requires k < |Spans(path)|
    ensures SpanOk(path, k)
  {
    SpansAreRuns(path, 0);
  }

  lemma StopIs(path: string, b: nat, e: nat)
    requires NoSeparators(path, b, e) && (e == |path| || path[e] == SEPARATOR)
    ensures Stop(path, b) == e
  {
  }

  /** cwk_path_get_first_segment */
  method GetFirstSegment(path: string) returns (found: bool, seg: Segment)
    requires CString(path)
    ensures found <==> Spans(path) != []
    ensures found ==> SpanOk(path, 0) && seg == SegmentFor(path, RootLength(path), Spans(path)[0])
  {
    found, seg := GetFirstSegmentWithoutRoot(path, RootLength(path));
  }

  /** cwk_path_get_next_segment */
  method GetNextSegment(seg: Segment, ghost k: nat) returns (found: bool, next: Segment)
    requires CString(seg.path) && SpanOk(seg.path, k) && seg == SegmentFor(seg.path, seg.segments, Spans(seg.path)[k])
    ensures found <==> k + 1 < |Spans(seg.path)|
    ensures found ==> SpanOk(seg.path, k + 1) && next == SegmentFor(seg.path, seg.segments, Spans(seg.path)[k + 1])
    ensures !found ==> next == seg
  {
    ghost var s := Spans(seg.path);
    SpansAreRuns(seg.path, 0);
    RunAt(seg.path, s, k);
    if k + 1 < |s| {
      RunAt(seg.path, s, k + 1);
    }
    next := seg;
    var c := seg.begin + seg.size;
    if At(seg.path, c) == NUL {
      return false, next;
    }
    assert IsSeparator(seg.path, c);
    c := c + 1;
    while IsSeparator(seg.path, c)
      invariant s[k].end < c <= |seg.path| && AllSeparators(seg.path, s[k].end, c)
      invariant k + 1 < |s| ==> c <= s[k + 1].begin
      decreases |seg.path| - c
    {
      c := c + 1;
    }
    if At(seg.path, c) == NUL {
      return false, next;
    }
    var e := FindNextStop(seg.path, c);
    assert c == s[k + 1].begin;
    StopIs(seg.path, c, s[k + 1].end);
    return true, Segment(seg.path, seg.segments, c, e - c);
  }

  /**
   cwk_path_get_previous_segment.  Because of the `<=` in its loop, a first segment of one
   character that lies right at `segments` is not found.
  */
  method GetPreviousSegment(seg: Segment, ghost k: nat) returns (found: bool, prev: Segment)
    requires CString(seg.path) && SpanOk(seg.path, k) && seg == SegmentFor(seg.path, seg.segments, Spans(seg.path)[k])
    requires seg.segments <= Spans(seg.path)[0].begin
    ensures found <==> k > 0 && !(k == 1 && Spans(seg.path)[0] == Span(seg.segments, seg.segments + 1))
    ensures found ==> SpanOk(seg.path, k - 1) && prev == SegmentFor(seg.path, seg.segments, Spans(seg.path)[k - 1])
  {
    hide Spans, SpansFrom, Runs;
    ghost var s := Spans(seg.path);
    Before(seg.path, k);
    prev := seg;
    var c := seg.begin;
    if c <= seg.segments {
      return false, prev;
    }
    c := c - 1;
    if c <= seg.segments {
      return false, prev;
    }
    while IsSeparator(seg.path, c)
      invariant seg.segments < c < s[k].begin
      invariant AllSeparators(seg.path, c + 1, s[k].begin)
      invariant k > 0 ==> s[k - 1].end <= c + 1
      decreases c
    {
      c := c - 1;
      if c <= seg.segments {
        return false, prev;
      }
    }
    assert k > 0 && c + 1 == s[k - 1].end;
    var b := FindPreviousStop(seg.path, seg.segments, c);
    assert b == s[k - 1].begin;
    return true, Segment(seg.path, seg.segments, b, c + 1 - b);
  }

  lemma {:induction false} SpansOrdered(path: string, s: seq<Span>, j: nat, k: nat)
    requires Runs(path, 0, s) && j <= k < |s|
    ensures s[j].begin <= s[k].begin && (j < k ==> s[j].end < s[k].begin)
    decreases k - j
  {
    if j < k {
      RunAt(path, s, j);
      RunAt(path, s, j + 1);
      SpansOrdered(path, s, j + 1, k);
    }
  }

  /** What lies before the k-th span. */
  lemma Before(path: string, k: nat)
    requires k < |Spans(path)|
    ensures var s := Spans(path);
            && s[0].begin <= s[k].begin && s[k].begin < s[k].end <= |path|
            && (k == 0 ==> AllSeparators(path, 0, s[0].begin))
            && (k > 0 ==>
                  var p := s[k - 1];
                  && p.begin < p.end < s[k].begin && NoSeparators(path, p.begin, p.end)
                  && AllSeparators(path, p.end, s[k].begin) && SpanOk(path, k - 1)
                  && s[0].begin <= p.begin && (k > 1 ==> s[0].end < p.begin && s[0].begin < s[0].end)
                  && (p.begin > 0 ==> path[p.begin - 1] == SEPARATOR))
  {
    var s := Spans(path);
    SpansAreRuns(path, 0);
    RunAt(path, s, 0);
    RunAt(path, s, k);
    SpansOrdered(path, s, 0, k);
    if k > 0 {
      RunAt(path, s, k - 1);
      SpansOrdered(path, s, 0, k - 1);
    }
    if k > 1 {
      RunAt(path, s, k - 2);
    }
  }

  /** cwk_path_get_last_segment and its variant without root. */
  method GetLastSegment(path: string, segments: nat) returns (found: bool, seg: Segment)
    requires CString(path) && segments <= |path| && AllSeparators(path, 0, segments)
    ensures found <==> Spans(path) != []
    ensures found ==> SpanOk(path, |Spans(path)| - 1) &&
                      seg == SegmentFor(path, segments, Spans(path)[|Spans(path)| - 1])
  {
    found, seg := GetFirstSegmentWithoutRoot(path, segments);
    if !found {
      return;
    }
    ghost var k := 0;
    var more: bool;
    more, seg := GetNextSegment(seg, k);
    k := if more then 1 else 0;
    while more
      invariant SpanOk(path, k) && seg == SegmentFor(path, segments, Spans(path)[k])
      invariant !more ==> k + 1 == |Spans(path)|
      decreases |Spans(path)| - k, more
    {
      more, seg := GetNextSegment(seg, k);
      k := if more then k + 1 else k;
    }
  }
}
