/**
 The joined cursor of kernel/libc/stdlib/cwalk.c: it walks the segments of several paths as if they
 were one.  Position `Index` in the flattened list `Texts` is the reference.

 Walking backwards, the cursor does not see the first segment of a path when that segment is one
 character long, lies right where the path is marked to start, and is not alone in its path.
*/
module PathJoined {
  import opened PathStack
  import opened PathSegments

  /** struct cwk_segment_joined; pathIndex == |paths| is the NULL that ends the array. */
  datatype Joined = Joined(segment: Segment, pathIndex: nat)

  ghost predicate CStrings(paths: seq<string>) {
    forall i :: 0 <= i < |paths| ==> CString(paths[i])
  }

  // ---------------------------------------------------------------------------------------------
  // The flattened list of segments
  // ---------------------------------------------------------------------------------------------

  function TextAt(path: string, k: nat): string
    requires k < |Spans(path)|
  {
    SpanIsOk(path, k);
    Text(path, Spans(path)[k])
  }

  function TextsOf(path: string): (r: seq<string>)
    ensures |r| == |Spans(path)| && forall k :: 0 <= k < |r| ==> r[k] == TextAt(path, k)
  {
    seq(|Spans(path)|, k requires 0 <= k < |Spans(path)| => TextAt(path, k))
  }

  /** The segments of the first `n` paths. */
  function TextsUpTo(paths: seq<string>, n: nat): seq<string>
    requires n <= |paths|
  {
    if n == 0 then [] else TextsUpTo(paths, n - 1) + TextsOf(paths[n - 1])
  }

  function Texts(paths: seq<string>): seq<string> {
    TextsUpTo(paths, |paths|)
  }

  function Kinds(texts: seq<string>): (r: seq<Kind>)
    ensures |r| == |texts| && forall i :: 0 <= i < |r| ==> r[i] == KindOf(texts[i])
  {
    seq(|texts|, i requires 0 <= i < |texts| => KindOf(texts[i]))
  }

  /** How many segments come before path `n`. */
  function Offset(paths: seq<string>, n: nat): nat
    requires n <= |paths|
  {
    if n == 0 then 0 else Offset(paths, n - 1) + |Spans(paths[n - 1])|
  }

  lemma {:induction false} OffsetIsLength(paths: seq<string>, n: nat)
    requires n <= |paths|
    ensures |TextsUpTo(paths, n)| == Offset(paths, n)
  {
    if n > 0 {
      OffsetIsLength(paths, n - 1);
    }
  }

  lemma {:induction false} OffsetMonotone(paths: seq<string>, m: nat, n: nat)
    requires m <= n <= |paths|
    ensures Offset(paths, m) <= Offset(paths, n)
    ensures m < n ==> Offset(paths, m) + |Spans(paths[m])| <= Offset(paths, n)
  {
    if m < n {
      OffsetMonotone(paths, m, n - 1);
    }
  }

  /** The segment with index Offset(pi) + k is the k-th segment of path pi. */
  lemma {:induction false} TextIndex(paths: seq<string>, n: nat, pi: nat, k: nat)
    requires pi < n <= |paths| && k < |Spans(paths[pi])|
    ensures Offset(paths, pi) + k < |TextsUpTo(paths, n)|
    ensures TextsUpTo(paths, n)[Offset(paths, pi) + k] == TextAt(paths[pi], k)
  {
    OffsetIsLength(paths, n - 1);
    if pi < n - 1 {
      TextIndex(paths, n - 1, pi, k);
    }
  }

  // ---------------------------------------------------------------------------------------------
  // Where a cursor stands and what it cannot see
  // ---------------------------------------------------------------------------------------------

  /** The cursor stands on the k-th segment of its path. */
  ghost predicate Stands(paths: seq<string>, sj: Joined, k: nat) {
    && sj.pathIndex < |paths|
    && var path := paths[sj.pathIndex];
       && k < |Spans(path)| && SpanOk(path, k)
       && sj.segment == SegmentFor(path, sj.segment.segments, Spans(path)[k])
       && AllSeparators(path, 0, sj.segment.segments)
       && sj.segment.segments <= Spans(path)[0].begin
  }

  ghost function Index(paths: seq<string>, sj: Joined, k: nat): nat
    requires sj.pathIndex <= |paths|
  {
    Offset(paths, sj.pathIndex) + k
  }

  /** Where the backward walk marks the start of path `pj` when it enters it from a later path. */
  function DefaultStart(paths: seq<string>, pj: nat): nat
    requires pj < |paths|
  {
    if pj == 0 then RootLength(paths[0]) else 0
  }

  function StartFor(paths: seq<string>, pj: nat, pi: nat, start: nat): nat
    requires pj < |paths|
  {
    if pj == pi then start else DefaultStart(paths, pj)
  }

  ghost predicate FirstHidden(path: string, start: nat) {
    |Spans(path)| > 1 && Spans(path)[0] == Span(start, start + 1)
  }

  /** The indices that a backward walk misses from path `pi` on, whose start is marked at `start`. */
  ghost function Hidden(paths: seq<string>, pi: nat, start: nat): set<nat>
    requires pi < |paths|
  {
    set pj | 0 <= pj <= pi && FirstHidden(paths[pj], StartFor(paths, pj, pi, start)) :: Offset(paths, pj)
  }

  lemma HiddenIff(paths: seq<string>, pi: nat, start: nat, pj: nat, k: nat)
    requires pj <= pi < |paths| && k < |Spans(paths[pj])|
    ensures Offset(paths, pj) + k in Hidden(paths, pi, start) <==>
            k == 0 && FirstHidden(paths[pj], StartFor(paths, pj, pi, start))
  {
    hide Spans, Offset;
    var g := Offset(paths, pj) + k;
    if g in Hidden(paths, pi, start) {
      var p :| 0 <= p <= pi && FirstHidden(paths[p], StartFor(paths, p, pi, start)) && Offset(paths, p) == g;
      if p < pj {
        OffsetMonotone(paths, p, pj);
      } else if p > pj {
        OffsetMonotone(paths, pj, p);
      }
      assert p == pj;
    }
  }

  /** Within a path, the step back to a neighbour fails exactly on a hidden one. */
  lemma HiddenNeighbour(paths: seq<string>, pi: nat, start: nat, k: nat)
    requires pi < |paths| && 0 < k < |Spans(paths[pi])|
    ensures Offset(paths, pi) + k - 1 in Hidden(paths, pi, start) <==>
            k == 1 && Spans(paths[pi])[0] == Span(start, start + 1)
  {
    HiddenIff(paths, pi, start, pi, k - 1);
  }

  /** The last segment of an earlier path is never hidden. */
  lemma LastNotHidden(paths: seq<string>, pi: nat, start: nat, pj: nat)
    requires pj < pi < |paths| && Spans(paths[pj]) != []
    ensures Offset(paths, pj) + |Spans(paths[pj])| - 1 !in Hidden(paths, pi, start)
  {
    hide Spans, Offset, Hidden;
    HiddenIff(paths, pi, start, pj, |Spans(paths[pj])| - 1);
    assert FirstHidden(paths[pj], StartFor(paths, pj, pi, start)) ==> |Spans(paths[pj])| > 1;
  }

  // ---------------------------------------------------------------------------------------------
  // Moving the cursor
  // ---------------------------------------------------------------------------------------------

  /** No path in [m, n) has a segment. */
  ghost predicate NoSegments(paths: seq<string>, m: nat, n: nat) {
    m <= n <= |paths| && forall i :: m <= i < n ==> Spans(paths[i]) == []
  }

  lemma {:induction false} NoSegmentsOffset(paths: seq<string>, m: nat, n: nat)
    requires NoSegments(paths, m, n)
    ensures Offset(paths, m) == Offset(paths, n)
  {
    if m < n {
      NoSegmentsOffset(paths, m, n - 1);
    }
  }

  /** cwk_path_get_first_segment_joined */
  method GetFirstSegmentJoined(paths: seq<string>) returns (found: bool, sj: Joined)
    requires CStrings(paths)
    ensures found <==> Offset(paths, |paths|) > 0
    ensures found ==> Stands(paths, sj, 0) && Index(paths, sj, 0) == 0 && NoSegments(paths, 0, sj.pathIndex)
    ensures found ==> sj.segment.segments == RootLength(paths[sj.pathIndex])
  {
    var i := 0;
    found := false;
    var seg := Segment("", 0, 0, 0);
    while i < |paths|
      invariant 0 <= i <= |paths| && !found && NoSegments(paths, 0, i)
    {
      found, seg := GetFirstSegment(paths[i]);
      if found {
        NoSegmentsOffset(paths, 0, i);
        OffsetMonotone(paths, i, |paths|);
        break;
      }
      i := i + 1;
    }
    sj := Joined(seg, i);
    if !found {
      NoSegmentsOffset(paths, 0, |paths|);
    }
  }

  /** cwk_path_get_next_segment_joined, for a cursor that stands on a segment. */
  method GetNextSegmentJoined(paths: seq<string>, sj: Joined, ghost k: nat)
    returns (found: bool, next: Joined, ghost k': nat)
    requires CStrings(paths) && Stands(paths, sj, k)
    ensures found <==> Index(paths, sj, k) + 1 < Offset(paths, |paths|)
    ensures found ==> Stands(paths, next, k') && Index(paths, next, k') == Index(paths, sj, k) + 1
    ensures found ==> if next.pathIndex == sj.pathIndex then next.segment.segments == sj.segment.segments
                      else next.pathIndex > sj.pathIndex && next.segment.segments == 0
  {
    OffsetMonotone(paths, sj.pathIndex, |paths|);
    var seg: Segment;
    found, seg := GetNextSegment(sj.segment, k);
    k' := k + 1;
    next := Joined(seg, sj.pathIndex);
    if found {
      return;
    }
    var i := sj.pathIndex + 1;
    while i < |paths|
      invariant sj.pathIndex < i <= |paths| && NoSegments(paths, sj.pathIndex + 1, i) && !found
    {
      found, seg := GetFirstSegmentWithoutRoot(paths[i], 0);
      if found {
        NoSegmentsOffset(paths, sj.pathIndex + 1, i);
        OffsetMonotone(paths, i, |paths|);
        break;
      }
      i := i + 1;
    }
    if !found {
      NoSegmentsOffset(paths, sj.pathIndex + 1, |paths|);
    }
    next := Joined(seg, i);
    k' := 0;
  }

  /** cwk_path_get_previous_segment_joined: the nearest earlier segment that is not hidden. */
  method GetPreviousSegmentJoined(paths: seq<string>, sj: Joined, ghost k: nat)
    returns (found: bool, prev: Joined, ghost k': nat)
    requires CStrings(paths) && Stands(paths, sj, k)
    ensures found <==> exists i :: 0 <= i < Index(paths, sj, k) && i !in Hidden(paths, sj.pathIndex, sj.segment.segments)
    ensures var h, g := Hidden(paths, sj.pathIndex, sj.segment.segments), Index(paths, sj, k);
            if found then
              && Stands(paths, prev, k') && Index(paths, prev, k') < g && Index(paths, prev, k') !in h
              && (forall i :: Index(paths, prev, k') < i < g ==> i in h)
              && (forall i :: 0 <= i <= Index(paths, prev, k') ==>
                    (i in h <==> i in Hidden(paths, prev.pathIndex, prev.segment.segments)))
            else forall i :: 0 <= i < g ==> i in h
  {
    hide Spans, SpansFrom, Runs, Hidden, Offset;
    ghost var h, g := Hidden(paths, sj.pathIndex, sj.segment.segments), Index(paths, sj, k);
    var seg: Segment;
    found, seg := GetPreviousSegment(sj.segment, k);
    k' := if k > 0 then k - 1 else 0;
    prev := Joined(seg, sj.pathIndex);
    if k > 0 {
      HiddenNeighbour(paths, sj.pathIndex, sj.segment.segments, k);
    }
    if found {
      return;
    }
    var i := sj.pathIndex;
    while i != 0
      invariant 0 <= i <= sj.pathIndex && NoSegments(paths, i, sj.pathIndex) && !found
      decreases i
    {
      i := i - 1;
      if i == 0 {
        found, seg := GetLastSegment(paths[i], RootLength(paths[i]));
      } else {
        found, seg := GetLastSegment(paths[i], 0);
      }
      if found {
        break;
      }
    }
    prev := Joined(seg, i);
    if found {
      NoSegmentsOffset(paths, i + 1, sj.pathIndex);
      k' := |Spans(paths[i])| - 1;
      LastNotHidden(paths, sj.pathIndex, sj.segment.segments, i);
      HiddenBelow(paths, sj.pathIndex, sj.segment.segments, i, DefaultStart(paths, i), k');
      RootBefore(paths[i]);
      OffsetStep(paths, i);
    } else {
      NoSegmentsOffset(paths, 0, sj.pathIndex);
      OffsetZero(paths);
    }
  }

  lemma RootBefore(path: string)
    requires Spans(path) != []
    ensures RootLength(path) <= Spans(path)[0].begin && AllSeparators(path, 0, RootLength(path))
  {
    SpansAreRuns(path, 0);
    RunAt(path, Spans(path), 0);
  }

  lemma OffsetStep(paths: seq<string>, i: nat)
    requires i < |paths|
    ensures Offset(paths, i + 1) == Offset(paths, i) + |Spans(paths[i])|
  {
  }

  lemma OffsetZero(paths: seq<string>)
    ensures Offset(paths, 0) == 0
  {
  }

  /** Seen from an earlier path entered backwards, the same segments up to there are hidden. */
  lemma HiddenBelow(paths: seq<string>, pi: nat, start: nat, pj: nat, start': nat, k: nat)
    requires pj < pi < |paths| && k < |Spans(paths[pj])| && start' == DefaultStart(paths, pj)
    ensures forall i :: 0 <= i <= Offset(paths, pj) + k ==> (i in Hidden(paths, pi, start) <==> i in Hidden(paths, pj, start'))
  {
    forall i | 0 <= i <= Offset(paths, pj) + k
      ensures i in Hidden(paths, pi, start) <==> i in Hidden(paths, pj, start')
    {
      if i in Hidden(paths, pi, start) {
        var p :| 0 <= p <= pi && FirstHidden(paths[p], StartFor(paths, p, pi, start)) && Offset(paths, p) == i;
        if p > pj {
          OffsetMonotone(paths, pj, p);
        }
      }
    }
  }
}
