/**
 `cwk_path_join_and_normalize_multiple` of kernel/libc/stdlib/cwalk.c: the removal scans over the
 joined cursor and the output, which is truncated to the buffer but always terminated.
*/
module PathNormalize {
  import opened PathStack
  import opened PathSegments
  import opened PathJoined

  // ---------------------------------------------------------------------------------------------
  // What each backward scan misses
  // ---------------------------------------------------------------------------------------------

  /** The path that holds segment `g`, among the first `n`. */
  function PathHolding(paths: seq<string>, n: nat, g: nat): (pi: nat)
    requires n <= |paths| && g < Offset(paths, n)
    ensures pi < n && Offset(paths, pi) <= g < Offset(paths, pi) + |Spans(paths[pi])|
  {
    if g >= Offset(paths, n - 1) then n - 1 else PathHolding(paths, n - 1, g)
  }

  /** The forward walk strips the root of the first path that has a segment, and of no other. */
  ghost function StartOf(paths: seq<string>, pi: nat): nat
    requires pi < |paths|
  {
    if NoSegments(paths, 0, pi) then RootLength(paths[pi]) else 0
  }

  ghost function HiddenFrom(paths: seq<string>, g: nat): set<nat>
    requires g < Offset(paths, |paths|)
  {
    var pi := PathHolding(paths, |paths|, g);
    Hidden(paths, pi, StartOf(paths, pi))
  }

  ghost function Hides(paths: seq<string>): (r: seq<set<nat>>)
    ensures |r| == Offset(paths, |paths|)
    ensures forall g :: 0 <= g < |r| ==> r[g] == HiddenFrom(paths, g)
  {
    seq(Offset(paths, |paths|), g requires 0 <= g < Offset(paths, |paths|) => HiddenFrom(paths, g))
  }

  lemma {:induction false} HoldingUnique(paths: seq<string>, n: nat, g: nat, pi: nat)
    requires pi < n <= |paths| && Offset(paths, pi) <= g < Offset(paths, pi) + |Spans(paths[pi])|
    ensures g < Offset(paths, n) && PathHolding(paths, n, g) == pi
  {
    OffsetMonotone(paths, pi, n);
    if pi < n - 1 {
      OffsetMonotone(paths, pi, n - 1);
      HoldingUnique(paths, n - 1, g, pi);
    }
  }

  // ---------------------------------------------------------------------------------------------
  // The removal scans
  // ---------------------------------------------------------------------------------------------

  ghost function PathKinds(paths: seq<string>): seq<Kind> {
    Kinds(Texts(paths))
  }

  lemma KindsLength(paths: seq<string>)
    ensures |PathKinds(paths)| == |Texts(paths)| == Offset(paths, |paths|)
  {
    OffsetIsLength(paths, |paths|);
  }

  function TextOfSegment(seg: Segment): string
    requires seg.begin + seg.size <= |seg.path|
  {
    seg.path[seg.begin..seg.begin + seg.size]
  }

  /** The text and the kind that the code reads off the cursor. */
  lemma CursorText(paths: seq<string>, sj: Joined, k: nat)
    requires Stands(paths, sj, k)
    ensures sj.segment.begin + sj.segment.size <= |sj.segment.path|
    ensures Index(paths, sj, k) < |Texts(paths)| == |PathKinds(paths)|
    ensures Texts(paths)[Index(paths, sj, k)] == TextOfSegment(sj.segment)
    ensures PathKinds(paths)[Index(paths, sj, k)] == KindOf(TextOfSegment(sj.segment))
  {
    TextIndex(paths, |paths|, sj.pathIndex, k);
  }

  lemma {:induction false} BackScanSkips(ks: seq<Kind>, n: nat, m: nat, c: int, h: set<nat>)
    requires m <= n <= |ks| && forall i :: m <= i < n ==> i in h
    ensures BackScan(ks, n, c, h) == BackScan(ks, m, c, h)
  {
    if m < n {
      BackScanSkips(ks, n - 1, m, c, h);
    }
  }

  /** cwk_path_segment_back_will_be_removed */
  method BackWillBeRemoved(paths: seq<string>, from: Joined, ghost k0: nat) returns (r: bool)
    requires CStrings(paths) && Stands(paths, from, k0)
    ensures Index(paths, from, k0) < |PathKinds(paths)|
    ensures r == BackScan(PathKinds(paths), Index(paths, from, k0), 0,
                          Hidden(paths, from.pathIndex, from.segment.segments))
  {
    hide PathKinds, Index, Hidden, Spans, SpanOk, AllSeparators;
    ghost var ks, h, g0 := PathKinds(paths), Hidden(paths, from.pathIndex, from.segment.segments), Index(paths, from, k0);
    var sj, counter := from, 0;
    ghost var k := k0;
    CursorText(paths, from, k0);
    while true
      invariant Stands(paths, sj, k) && counter <= 0 && Index(paths, sj, k) < |ks|
      invariant BackScan(ks, Index(paths, sj, k), counter, h) == BackScan(ks, g0, 0, h)
      invariant forall i :: 0 <= i <= Index(paths, sj, k) ==>
                  (i in h <==> i in Hidden(paths, sj.pathIndex, sj.segment.segments))
      decreases Index(paths, sj, k)
    {
      var found, prev;
      ghost var k', g := 0, Index(paths, sj, k);
      found, prev, k' := GetPreviousSegmentJoined(paths, sj, k);
      if !found {
        BackScanSkips(ks, g, 0, counter, h);
        break;
      }
      CursorText(paths, prev, k');
      BackScanSkips(ks, g, Index(paths, prev, k') + 1, counter, h);
      sj, k := prev, k';
      var type_ := KindOf(TextOfSegment(sj.segment));
      if type_ == Normal {
        counter := counter + 1;
        if counter > 0 {
          return true;
        }
      } else if type_ == Back {
        counter := counter - 1;
      }
    }
    r := false;
  }

  /** cwk_path_segment_normal_will_be_removed */
  method NormalWillBeRemoved(paths: seq<string>, from: Joined, ghost k0: nat) returns (r: bool)
    requires CStrings(paths) && Stands(paths, from, k0)
    ensures r == ForwardScan(PathKinds(paths), Index(paths, from, k0) + 1, 0)
  {
    hide PathKinds, Index, Spans, SpanOk, AllSeparators;
    ghost var ks, g0 := PathKinds(paths), Index(paths, from, k0);
    var sj, counter := from, 0;
    ghost var k := k0;
    KindsLength(paths);
    CursorText(paths, from, k0);
    while true
      invariant Stands(paths, sj, k) && Index(paths, sj, k) < |ks|
      invariant ForwardScan(ks, Index(paths, sj, k) + 1, counter) == ForwardScan(ks, g0 + 1, 0)
      decreases |ks| - Index(paths, sj, k)
    {
      var found, next;
      ghost var k';
      found, next, k' := GetNextSegmentJoined(paths, sj, k);
      if !found {
        break;
      }
      CursorText(paths, next, k');
      sj, k := next, k';
      var type_ := KindOf(TextOfSegment(sj.segment));
      if type_ == Normal {
        counter := counter + 1;
      } else if type_ == Back {
        counter := counter - 1;
        if counter < 0 {
          return true;
        }
      }
    }
    r := false;
  }

  /** cwk_path_segment_will_be_removed */
  method WillBeRemoved(paths: seq<string>, sj: Joined, absolute: bool, ghost k: nat) returns (r: bool)
    requires CStrings(paths) && Stands(paths, sj, k)
    ensures Index(paths, sj, k) < |PathKinds(paths)|
    ensures r == Removed(PathKinds(paths), Index(paths, sj, k), absolute,
                         Hidden(paths, sj.pathIndex, sj.segment.segments))
  {
    hide PathKinds, Index, Hidden, Spans, SpanOk, AllSeparators;
    CursorText(paths, sj, k);
    var type_ := KindOf(TextOfSegment(sj.segment));
    if type_ == Current {
      r := true;
    } else if type_ == Back && absolute {
      r := true;
    } else if type_ == Back {
      r := BackWillBeRemoved(paths, sj, k);
    } else {
      r := NormalWillBeRemoved(paths, sj, k);
    }
  }

  // ---------------------------------------------------------------------------------------------
  // The output
  // ---------------------------------------------------------------------------------------------

  /** Each text followed by a separator. */
  function SlashAll(texts: seq<string>): string {
    if texts == [] then "" else SlashAll(texts[..|texts| - 1]) + texts[|texts| - 1] + [SEPARATOR]
  }

  function Pick(texts: seq<string>, s: seq<nat>): (r: seq<string>)
    requires forall q :: 0 <= q < |s| ==> s[q] < |texts|
    ensures |r| == |s| && forall q :: 0 <= q < |r| ==> r[q] == texts[s[q]]
  {
    seq(|s|, q requires 0 <= q < |s| => texts[s[q]])
  }

  /** The path with a given root and the given segments; "." if there is neither, unless `bare`. */
  function Render(root: string, texts: seq<string>, bare: bool): string {
    if texts != [] then var all := root + SlashAll(texts); all[..|all| - 1]
    else if root == "" && !bare then "."
    else root
  }

  function Root(path: string): string {
    if RootLength(path) == 1 then [SEPARATOR] else ""
  }

  /** The segments that the code writes out, of the first `n`. */
  ghost function KeptUpTo(paths: seq<string>, n: nat): (s: seq<nat>)
    requires paths != [] && n <= |PathKinds(paths)|
    ensures forall q :: 0 <= q < |s| ==> s[q] < |Texts(paths)|
  {
    KindsLength(paths);
    KeptShape(PathKinds(paths), n, RootLength(paths[0]) == 1, Hides(paths));
    var s := Kept(PathKinds(paths), n, RootLength(paths[0]) == 1, Hides(paths));
    assert forall q :: 0 <= q < |s| ==> s[q] in s;
    s
  }

  ghost function KeptTexts(paths: seq<string>): seq<string>
    requires paths != []
  {
    Pick(Texts(paths), KeptUpTo(paths, |PathKinds(paths)|))
  }

  /** The whole result, before it is cut to the buffer. */
  ghost function Normalized(paths: seq<string>): string
    requires paths != []
  {
    Render(Root(paths[0]), KeptTexts(paths), Texts(paths) == [])
  }

  ghost predicate Holds(buffer: array<char>, out: string)
    reads buffer
  {
    forall i :: 0 <= i < |out| && i < buffer.Length ==> buffer[i] == out[i]
  }

  /** cwk_path_output_sized */
  method OutputSized(buffer: array<char>, position: nat, str: string, ghost out: string) returns (written: nat)
    requires position == |out| && Holds(buffer, out)
    modifies buffer
    ensures written == |str| && Holds(buffer, out + str)
  {
    var amount: nat;
    if buffer.Length > position + |str| {
      amount := |str|;
    } else if buffer.Length > position {
      amount := buffer.Length - position;
    } else {
      amount := 0;
    }
    for i := 0 to amount
      invariant Holds(buffer, out + str[..i])
    {
      buffer[position + i] := str[i];
    }
    written := |str|;
  }

  /** cwk_path_terminate_output */
  method TerminateOutput(buffer: array<char>, pos: nat)
    modifies buffer
    ensures buffer.Length > 0 ==>
              buffer[..] == old(buffer[..])[if pos >= buffer.Length then buffer.Length - 1 else pos := NUL]
  {
    if buffer.Length > 0 {
      if pos >= buffer.Length {
        buffer[buffer.Length - 1] := NUL;
      } else {
        buffer[pos] := NUL;
      }
    }
  }

  lemma FirstHides(paths: seq<string>, sj: Joined, k: nat)
    requires Stands(paths, sj, k) && sj.segment.segments == StartOf(paths, sj.pathIndex)
    ensures Index(paths, sj, k) < Offset(paths, |paths|)
    ensures Hides(paths)[Index(paths, sj, k)] == Hidden(paths, sj.pathIndex, sj.segment.segments)
  {
    HoldingUnique(paths, |paths|, Index(paths, sj, k), sj.pathIndex);
  }

  /** A cursor moved forward still has the start that `StartOf` gives. */
  lemma StartMoves(paths: seq<string>, sj: Joined, next: Joined, k: nat, k': nat)
    requires Stands(paths, sj, k) && Stands(paths, next, k')
    requires sj.segment.segments == StartOf(paths, sj.pathIndex)
    requires if next.pathIndex == sj.pathIndex then next.segment.segments == sj.segment.segments
             else next.pathIndex > sj.pathIndex && next.segment.segments == 0
    ensures next.segment.segments == StartOf(paths, next.pathIndex)
  {
  }

  /** The output after one more segment. */
  lemma OutputStep(texts: seq<string>, s: seq<nat>, g: nat)
    requires forall q :: 0 <= q < |s| ==> s[q] < |texts|
    requires g < |texts|
    ensures SlashAll(Pick(texts, s + [g])) == SlashAll(Pick(texts, s)) + texts[g] + [SEPARATOR]
  {
    var p := Pick(texts, s + [g]);
    assert p[..|p| - 1] == Pick(texts, s);
  }

  /** What has been written after the first `n` segments. */
  ghost function OutputUpTo(paths: seq<string>, n: nat): string
    requires paths != [] && n <= |PathKinds(paths)|
  {
    Root(paths[0]) + SlashAll(Pick(Texts(paths), KeptUpTo(paths, n)))
  }

  lemma KeptUpToStep(paths: seq<string>, g: nat)
    requires paths != [] && g < |PathKinds(paths)| == |Hides(paths)|
    ensures KeptUpTo(paths, g + 1) ==
            KeptUpTo(paths, g) +
            if Removed(PathKinds(paths), g, RootLength(paths[0]) == 1, Hides(paths)[g]) then [] else [g]
  {
    hide PathKinds, Hides, Removed;
    var ks := PathKinds(paths);
    assert Kept(ks, g + 1, RootLength(paths[0]) == 1, Hides(paths)) ==
           Kept(ks, g, RootLength(paths[0]) == 1, Hides(paths)) +
           if Removed(ks, g, RootLength(paths[0]) == 1, Hides(paths)[g]) then [] else [g];
  }

  lemma OutputUpToStep(paths: seq<string>, g: nat)
    requires paths != [] && g < |PathKinds(paths)| == |Texts(paths)| == |Hides(paths)|
    ensures OutputUpTo(paths, g + 1) ==
            OutputUpTo(paths, g) +
            if Removed(PathKinds(paths), g, RootLength(paths[0]) == 1, Hides(paths)[g]) then ""
            else Texts(paths)[g] + [SEPARATOR]
  {
    hide PathKinds, Hides, Removed, KeptUpTo, Texts, SlashAll;
    KeptUpToStep(paths, g);
    OutputStep(Texts(paths), KeptUpTo(paths, g), g);
    var t := Texts(paths)[g];
    var before := SlashAll(Pick(Texts(paths), KeptUpTo(paths, g)));
    assert KeptUpTo(paths, g) + [] == KeptUpTo(paths, g);
    assert Root(paths[0]) + (before + t + [SEPARATOR]) == Root(paths[0]) + before + (t + [SEPARATOR]);
  }

  lemma OutputStart(paths: seq<string>)
    requires paths != []
    ensures OutputUpTo(paths, 0) == Root(paths[0])
  {
    assert KeptUpTo(paths, 0) == [];
    assert Pick(Texts(paths), []) == [];
  }

  lemma {:induction false} SlashAllEmpty(texts: seq<string>)
    ensures SlashAll(texts) == "" <==> texts == []
  {
  }

  /** The last step: the trailing separator goes, or "." stands for nothing. */
  lemma OutputEnd(paths: seq<string>)
    requires paths != [] && |Texts(paths)| == |PathKinds(paths)|
    ensures var out := OutputUpTo(paths, |PathKinds(paths)|);
            && (KeptTexts(paths) != [] <==> out != Root(paths[0]))
            && Normalized(paths) ==
               if out != Root(paths[0]) then out[..|out| - 1]
               else if out == "" && Texts(paths) != [] then "."
               else out
  {
    SlashAllEmpty(KeptTexts(paths));
  }

  /** A segment and the separator after it. */
  method OutputSegment(buffer: array<char>, position: nat, text: string, ghost out: string) returns (pos: nat)
    requires position == |out| && Holds(buffer, out)
    modifies buffer
    ensures pos == |out + (text + [SEPARATOR])| && Holds(buffer, out + (text + [SEPARATOR]))
  {
    pos := position;
    var n := OutputSized(buffer, pos, text, out);
    pos := pos + n;
    n := OutputSized(buffer, pos, [SEPARATOR], out + text);
    pos := pos + n;
    assert out + (text + [SEPARATOR]) == out + text + [SEPARATOR];
  }

  /** The loop of cwk_path_join_and_normalize_multiple, from the first segment on. */
  method OutputSegments(paths: seq<string>, buffer: array<char>, absolute: bool, first: Joined, start: nat)
    returns (pos: nat, hasSegmentOutput: bool)
    requires paths != [] && CStrings(paths) && absolute == (RootLength(paths[0]) == 1)
    requires Stands(paths, first, 0) && Index(paths, first, 0) == 0
    requires first.segment.segments == StartOf(paths, first.pathIndex)
    requires start == |Root(paths[0])| && Holds(buffer, Root(paths[0]))
    modifies buffer
    ensures pos == |OutputUpTo(paths, |PathKinds(paths)|)| && Holds(buffer, OutputUpTo(paths, |PathKinds(paths)|))
    ensures hasSegmentOutput <==> OutputUpTo(paths, |PathKinds(paths)|) != Root(paths[0])
    ensures hasSegmentOutput ==> pos > |Root(paths[0])|
  {
    hide PathKinds, Hides, OutputUpTo, Texts, Index, Spans, SpanOk, Removed, StartOf, Hidden, AllSeparators,
         SegmentFor, Root;
    ghost var root, out := Root(paths[0]), Root(paths[0]);
    KindsLength(paths);
    OutputStart(paths);
    CursorText(paths, first, 0);
    pos := start;
    var sj := first;
    hasSegmentOutput := false;
    ghost var k := 0;
    while true
      invariant Stands(paths, sj, k) && sj.segment.segments == StartOf(paths, sj.pathIndex)
      invariant Index(paths, sj, k) < |PathKinds(paths)|
      invariant out == OutputUpTo(paths, Index(paths, sj, k)) && pos == |out| && Holds(buffer, out)
      invariant |root| <= |out| && (hasSegmentOutput <==> |out| != |root|) && (|out| == |root| ==> out == root)
      decreases |PathKinds(paths)| - Index(paths, sj, k)
    {
      ghost var g := Index(paths, sj, k);
      FirstHides(paths, sj, k);
      OutputUpToStep(paths, g);
      CursorText(paths, sj, k);
      var removed := WillBeRemoved(paths, sj, absolute, k);
      if !removed {
        hasSegmentOutput := true;
        var text := TextOfSegment(sj.segment);
        pos := OutputSegment(buffer, pos, text, out);
        out := out + (text + [SEPARATOR]);
      } else {
        assert out + "" == out;
      }
      var more, next;
      ghost var k';
      more, next, k' := GetNextSegmentJoined(paths, sj, k);
      if !more {
        break;
      }
      CursorText(paths, next, k');
      StartMoves(paths, sj, next, k, k');
      sj, k := next, k';
    }
  }

  /** cwk_path_join_and_normalize_multiple */
  method JoinAndNormalizeMultiple(paths: seq<string>, buffer: array<char>) returns (pos: nat)
    requires paths != [] && CStrings(paths)
    modifies buffer
    ensures pos == |Normalized(paths)|
    ensures buffer.Length > 0 ==>
              var n := if pos < buffer.Length then pos else buffer.Length - 1;
              buffer[..n] == Normalized(paths)[..n] && buffer[n] == NUL
  {
    hide PathKinds, OutputUpTo, Normalized, KeptTexts, Texts, Index, Stands, StartOf;
    pos := RootLength(paths[0]);
    var absolute := pos == 1;
    var _ := OutputSized(buffer, 0, paths[0][..pos], "");
    ghost var out := Root(paths[0]);
    assert "" + paths[0][..pos] == out;
    KindsLength(paths);
    OutputStart(paths);
    OutputEnd(paths);
    var found, sj := GetFirstSegmentJoined(paths);
    if found {
      FirstStart(paths, sj);
      var hasSegmentOutput;
      pos, hasSegmentOutput := OutputSegments(paths, buffer, absolute, sj, pos);
      out := OutputUpTo(paths, |PathKinds(paths)|);
      if hasSegmentOutput {
        pos := pos - 1;
        out := out[..|out| - 1];
      } else if pos == 0 {
        var n := OutputSized(buffer, pos, ".", out);
        pos := pos + n;
        out := ".";
      }
    }
    assert out == Normalized(paths);
    TerminateOutput(buffer, pos);
  }

  lemma FirstStart(paths: seq<string>, sj: Joined)
    requires sj.pathIndex < |paths| && NoSegments(paths, 0, sj.pathIndex)
    requires sj.segment.segments == RootLength(paths[sj.pathIndex])
    ensures sj.segment.segments == StartOf(paths, sj.pathIndex)
  {
  }
}
