/**
 What normalisation means: the text of the normalised path against the stack machine, and the
 directory entry that it resolves to (`DEntry::get_path` of kernel/fs/vfs.cpp).
*/
module PathResolve {
  import opened Options
  import opened PathJoined
  import opened PathNormalize
  import opened PathSegments
  import opened PathStack

  // ---------------------------------------------------------------------------------------------
  // The output of the code against the stack machine
  // ---------------------------------------------------------------------------------------------

  ghost function Stack(paths: seq<string>): seq<nat>
    requires paths != []
  {
    KindsLength(paths);
    StackOf(PathKinds(paths), |PathKinds(paths)|, RootLength(paths[0]) == 1)
  }

  ghost function StackTexts(paths: seq<string>): seq<string>
    requires paths != []
  {
    KindsLength(paths);
    Pick(Texts(paths), Stack(paths))
  }

  /** Joined paths: the code writes out the stack, or for a relative path the exact condition. */
  lemma KeptAgainstStack(paths: seq<string>)
    requires paths != []
    ensures |PathKinds(paths)| == |Hides(paths)|
    ensures KeptUpTo(paths, |PathKinds(paths)|) == Stack(paths) <==>
            RootLength(paths[0]) == 1 ||
            forall p | 0 <= p < |PathKinds(paths)| && PathKinds(paths)[p] == Back ::
              Depth(PathKinds(paths), p, Hides(paths)[p]) > 0 <==> Depth(PathKinds(paths), p, {}) > 0
  {
    KindsLength(paths);
    KeptIsStack(PathKinds(paths), RootLength(paths[0]) == 1, Hides(paths));
  }

  /** An absolute path is always normalised as the stack machine does. */
  lemma AbsoluteIsStack(paths: seq<string>)
    requires paths != [] && RootLength(paths[0]) == 1
    ensures KeptTexts(paths) == StackTexts(paths)
  {
    KeptAgainstStack(paths);
  }

  /** No path starts with a one-character name or dot, right away or behind the root, with another segment behind it. */
  ghost predicate NoShortFirst(paths: seq<string>) {
    forall i :: 0 <= i < |paths| ==> !FirstHidden(paths[i], 0) && !FirstHidden(paths[i], RootLength(paths[i]))
  }

  /** Then every backward scan sees every segment, and any list of paths is normalised as the stack machine does. */
  lemma NoShortIsStack(paths: seq<string>)
    requires paths != [] && NoShortFirst(paths)
    ensures KeptTexts(paths) == StackTexts(paths)
  {
    hide Stack, StackOf, Kept, PathKinds, Hides, FirstHidden, Depth, Texts, Pick;
    KeptAgainstStack(paths);
    NothingHidden(paths);
  }

  lemma NothingHidden(paths: seq<string>)
    requires NoShortFirst(paths)
    ensures |Hides(paths)| == |PathKinds(paths)| && forall g :: 0 <= g < |Hides(paths)| ==> Hides(paths)[g] == {}
  {
    KindsLength(paths);
  }

  // ---------------------------------------------------------------------------------------------
  // A single path, as in cwk_path_normalize
  // ---------------------------------------------------------------------------------------------

  /**
   The family on which the code fails: a relative path that starts with a one-character name which
   a later ".." cancels.
  */
  ghost predicate CancelsShortFirst(path: string) {
    && RootLength(path) == 0 && FirstHidden(path, 0)
    && PathKinds([path]) != [] && PathKinds([path])[0] == Normal
    && 0 !in Stack([path])
  }

  lemma SingleHides(path: string)
    ensures |Hides([path])| == |PathKinds([path])| == |Spans(path)|
    ensures forall g :: 0 <= g < |Hides([path])| ==>
              Hides([path])[g] == if FirstHidden(path, RootLength(path)) then {0} else {}
  {
    var paths := [path];
    KindsLength(paths);
    assert Offset(paths, 1) == |Spans(path)|;
    forall g | 0 <= g < |Hides(paths)|
      ensures Hides(paths)[g] == if FirstHidden(path, RootLength(path)) then {0} else {}
    {
      assert PathHolding(paths, 1, g) == 0;
      assert NoSegments(paths, 0, 0);
      assert StartFor(paths, 0, 0, RootLength(path)) == RootLength(path);
    }
  }

  /** Passing over a first segment that is no name changes no depth. */
  lemma {:induction false} DepthHiddenOther(ks: seq<Kind>, n: nat)
    requires n <= |ks| && (ks != [] ==> ks[0] == Current)
    ensures Depth(ks, n, {0}) == Depth(ks, n, {})
  {
    if n > 0 {
      DepthHiddenOther(ks, n - 1);
    }
  }

  /** A hidden segment is one character long, so it is not "..". */
  lemma HiddenKind(path: string)
    requires FirstHidden(path, RootLength(path))
    ensures PathKinds([path]) != [] && PathKinds([path])[0] != Back
  {
    KindsLength([path]);
    TextIndex([path], 1, 0, 0);
    SpanIsOk(path, 0);
    assert |TextAt(path, 0)| == 1;
  }

  /** The case of a hidden name. */
  lemma SingleHiddenName(path: string)
    requires RootLength(path) == 0 && FirstHidden(path, 0)
    requires PathKinds([path]) != [] && PathKinds([path])[0] == Normal
    ensures KeptTexts([path]) == (if 0 !in Stack([path]) then [".."] else []) + StackTexts([path])
  {
    hide StackOf, Kept, PopsFirst, PathKinds, Hides, Texts;
    var paths := [path];
    var ks := PathKinds(paths);
    SingleHides(path);
    KindsLength(paths);
    assert Hides(paths) == HideFirst(|ks|);
    HiddenFirst(ks);
    if 0 !in Stack(paths) {
      var p: nat :| PopsFirst(ks, p) && Kept(ks, |ks|, false, Hides(paths)) == [p] + Stack(paths);
      PopperText(paths, p);
      PickCons(Texts(paths), p, Stack(paths));
    } else {
      assert [] + StackTexts(paths) == StackTexts(paths);
    }
  }

  lemma PopperText(paths: seq<string>, p: nat)
    requires PopsFirst(PathKinds(paths), p)
    ensures p < |Texts(paths)| && Texts(paths)[p] == ".."
  {
    KindsLength(paths);
  }

  lemma PickCons(texts: seq<string>, p: nat, s: seq<nat>)
    requires p < |texts| && forall q :: 0 <= q < |s| ==> s[q] < |texts|
    ensures forall q :: 0 <= q < |[p] + s| ==> ([p] + s)[q] < |texts|
    ensures Pick(texts, [p] + s) == [texts[p]] + Pick(texts, s)
  {
  }

  /** The case of a hidden ".". */
  lemma SingleHiddenDot(path: string)
    requires RootLength(path) == 0 && FirstHidden(path, 0)
    requires PathKinds([path]) != [] && PathKinds([path])[0] == Current
    ensures KeptTexts([path]) == StackTexts([path])
  {
    hide StackOf, Kept, PathKinds, Hides, Texts;
    var paths := [path];
    var ks := PathKinds(paths);
    SingleHides(path);
    KeptAgainstStack(paths);
    forall p | 0 <= p < |ks|
      ensures Depth(ks, p, Hides(paths)[p]) == Depth(ks, p, {})
    {
      DepthHiddenOther(ks, p);
    }
  }

  /** cwk_path_normalize writes the stack, with an extra ".." in front exactly on that family. */
  lemma SingleIsStack(path: string)
    ensures KeptTexts([path]) == (if CancelsShortFirst(path) then [".."] else []) + StackTexts([path])
  {
    hide KeptTexts, StackTexts, Stack, PathKinds, Hides, KeptUpTo;
    var paths := [path];
    assert [] + StackTexts(paths) == StackTexts(paths);
    if RootLength(path) == 0 && FirstHidden(path, 0) {
      HiddenKind(path);
      if PathKinds(paths)[0] == Normal {
        SingleHiddenName(path);
      } else {
        SingleHiddenDot(path);
      }
    } else {
      SingleVisible(path);
    }
  }

  lemma SingleVisible(path: string)
    requires RootLength(path) == 1 || !FirstHidden(path, 0)
    ensures KeptTexts([path]) == StackTexts([path])
  {
    hide StackOf, Kept, PathKinds, Hides, Texts;
    SingleHides(path);
    KeptAgainstStack([path]);
  }

  // ---------------------------------------------------------------------------------------------
  // Reading the normalised text back
  // ---------------------------------------------------------------------------------------------

  ghost predicate Names(texts: seq<string>) {
    forall k :: 0 <= k < |texts| ==> texts[k] != "" && SEPARATOR !in texts[k]
  }

  function TextsFrom(path: string, i: nat): seq<string>
    requires i <= |path|
    decreases |path| - i
  {
    var b := Skip(path, i);
    if b == |path| then [] else [path[b..Stop(path, b)]] + TextsFrom(path, Stop(path, b))
  }

  lemma {:induction false} TextsFromSpans(path: string, i: nat)
    requires i <= |path|
    ensures |TextsFrom(path, i)| == |SpansFrom(path, i)|
    ensures forall k :: 0 <= k < |SpansFrom(path, i)| ==>
              var s := SpansFrom(path, i)[k];
              s.begin <= s.end <= |path| && TextsFrom(path, i)[k] == path[s.begin..s.end]
    decreases |path| - i
  {
    var b := Skip(path, i);
    if b < |path| {
      TextsFromSpans(path, Stop(path, b));
    }
  }

  lemma {:induction false} SlashAllCons(texts: seq<string>)
    requires texts != []
    ensures SlashAll(texts) == texts[0] + [SEPARATOR] + SlashAll(texts[1..])
  {
    var n := |texts| - 1;
    if n > 0 {
      SlashAllCons(texts[..n]);
      assert texts[..n][1..] == texts[1..][..n - 1];
      assert texts[1..][n - 1] == texts[n];
      assert SlashAll(texts[1..]) == SlashAll(texts[1..][..n - 1]) + texts[n] + [SEPARATOR];
    } else {
      assert texts[..n] == [] && texts[1..] == [];
    }
  }

  /** A path that ends in the given names, with separators between them, has those segments. */
  lemma {:induction false} ReadBack(path: string, i: nat, texts: seq<string>)
    requires i <= |path| && Names(texts) && texts != []
    requires path[i..] + [SEPARATOR] == SlashAll(texts)
    ensures TextsFrom(path, i) == texts
    decreases |texts|
  {
    hide TextsFrom, SlashAll;
    SlashAllCons(texts);
    var t, rest := texts[0], texts[1..];
    var e := i + |t|;
    var all := path[i..] + [SEPARATOR];
    assert all == t + [SEPARATOR] + SlashAll(rest);
    assert all[..|t|] == t && all[|t|] == SEPARATOR && all[|t| + 1..] == SlashAll(rest);
    assert path[i..e] == t;
    TextsFromStep(path, i, t);
    if rest == [] {
      SlashAllEmpty(rest);
      assert |all| == |t| + 1;
      TextsFromEnd(path);
      assert texts == [t];
    } else {
      SlashAllLong(rest);
      assert path[e] == all[|t|];
      assert path[e + 1..] + [SEPARATOR] == all[|t| + 1..];
      ReadBack(path, e + 1, rest);
      TextsFromSkip(path, e);
      assert texts == [t] + rest;
    }
  }

  /** A name that stands at `i`, up to a separator or the end. */
  lemma TextsFromStep(path: string, i: nat, t: string)
    requires t != "" && SEPARATOR !in t && i + |t| <= |path| && path[i..i + |t|] == t
    requires i + |t| < |path| ==> path[i + |t|] == SEPARATOR
    ensures TextsFrom(path, i) == [t] + TextsFrom(path, i + |t|)
  {
    assert forall k :: i <= k < i + |t| ==> path[k] == path[i..i + |t|][k - i];
    assert Skip(path, i) == i;
    StopIs(path, i, i + |t|);
  }

  lemma TextsFromEnd(path: string)
    ensures TextsFrom(path, |path|) == []
  {
  }

  lemma TextsFromSkip(path: string, e: nat)
    requires e < |path| && path[e] == SEPARATOR
    ensures TextsFrom(path, e) == TextsFrom(path, e + 1)
  {
    assert Skip(path, e) == Skip(path, e + 1);
  }

  lemma SlashAllLong(texts: seq<string>)
    requires texts != [] && Names(texts)
    ensures |SlashAll(texts)| >= 2
  {
    var t := texts[|texts| - 1];
    assert t != "";
  }

  /** The names of a path are nonempty and hold no separator. */
  lemma SegmentsAreNames(paths: seq<string>, n: nat)
    requires n <= |paths|
    ensures Names(TextsUpTo(paths, n))
  {
    if n > 0 {
      SegmentsAreNames(paths, n - 1);
      var path := paths[n - 1];
      forall k | 0 <= k < |TextsOf(path)|
        ensures TextsOf(path)[k] != "" && SEPARATOR !in TextsOf(path)[k]
      {
        SpansAreRuns(path, 0);
        RunAt(path, Spans(path), k);
      }
    }
  }

  lemma PickNames(texts: seq<string>, s: seq<nat>)
    requires Names(texts) && forall q :: 0 <= q < |s| ==> s[q] < |texts|
    ensures Names(Pick(texts, s))
  {
  }

  lemma TextsOfFrom(path: string)
    ensures TextsOf(path) == TextsFrom(path, 0)
  {
    TextsFromSpans(path, 0);
  }

  /** A rendered path with names in it. */
  lemma RenderReadsBack(root: string, kept: seq<string>, bare: bool)
    requires root == "" || root == [SEPARATOR]
    requires kept != [] && Names(kept)
    ensures var path := Render(root, kept, bare);
            RootLength(path) == |root| && TextsOf(path) == kept
  {
    hide TextsFrom, TextsOf;
    var path := Render(root, kept, bare);
    SlashAllLong(kept);
    SlashAllCons(kept);
    RenderEnds(root, kept);
    TextsOfFrom(path);
    ReadBack(path, |root|, kept);
    if root != "" {
      assert path[0] == root[0];
      TextsFromSkip(path, 0);
    } else {
      assert path[0] == (path + [SEPARATOR])[0] == SlashAll(kept)[0] == kept[0][0];
      assert kept[0][0] in kept[0];
    }
  }

  /** A rendered path without names. */
  lemma RenderBare(root: string, bare: bool)
    requires root == "" || root == [SEPARATOR]
    ensures var path := Render(root, [], bare);
            RootLength(path) == |root| && TextsOf(path) == if root == "" && !bare then ["."] else []
  {
    var path := Render(root, [], bare);
    TextsOfFrom(path);
    TextsFromEnd(path);
    if root != "" {
      TextsFromSkip(path, 0);
    } else if !bare {
      TextsFromStep(path, 0, ".");
    }
  }

  /** What the normalised text says, read as a path. */
  lemma NormalizedReadsBack(paths: seq<string>)
    requires paths != []
    ensures RootLength(Normalized(paths)) == RootLength(paths[0])
    ensures TextsOf(Normalized(paths)) ==
            if KeptTexts(paths) == [] && RootLength(paths[0]) == 0 && Texts(paths) != [] then ["."] else KeptTexts(paths)
  {
    hide TextsOf, Texts, KeptUpTo, Render, PathKinds;
    var root, kept := Root(paths[0]), KeptTexts(paths);
    SegmentsAreNames(paths, |paths|);
    TextsAll(paths);
    PickNames(Texts(paths), KeptUpTo(paths, |PathKinds(paths)|));
    if kept != [] {
      RenderReadsBack(root, kept, Texts(paths) == []);
    } else {
      RenderBare(root, Texts(paths) == []);
    }
  }

  lemma TextsAll(paths: seq<string>)
    ensures Texts(paths) == TextsUpTo(paths, |paths|)
  {
  }

  lemma RenderEnds(root: string, texts: seq<string>)
    requires texts != [] && |SlashAll(texts)| >= 2
    ensures var path := Render(root, texts, false);
            && path == Render(root, texts, true)
            && |path| > |root| && path[..|root|] == root && path[|root|..] + [SEPARATOR] == SlashAll(texts)
  {
    var all := SlashAll(texts);
    assert all[|all| - 1] == SEPARATOR;
    assert (root + all)[..|root + all| - 1] == root + all[..|all| - 1];
    assert all == all[..|all| - 1] + [SEPARATOR];
  }

  // ---------------------------------------------------------------------------------------------
  // Resolving a path
  // ---------------------------------------------------------------------------------------------

  /** A directory tree: `parent` of every entry, and the entry that a directory has for a name. */
  datatype Fs = Fs(root: nat, parent: nat -> nat, child: (nat, string) -> Option<nat>)

  /** The root is its own parent, and the parent of a child is its directory. */
  ghost predicate IsTree(fs: Fs) {
    fs.parent(fs.root) == fs.root &&
    forall d, name :: fs.child(d, name).Some? ==> fs.parent(fs.child(d, name).value) == d
  }

  function Enter(fs: Fs, d: nat, name: string): Option<nat> {
    match KindOf(name)
    case Current => Some(d)
    case Back => Some(fs.parent(d))
    case Normal => fs.child(d, name)
  }

  function Resolve(fs: Fs, start: nat, names: seq<string>): Option<nat> {
    if names == [] then Some(start)
    else
      match Resolve(fs, start, names[..|names| - 1])
      case None => None
      case Some(d) => Enter(fs, d, names[|names| - 1])
  }

  function StartAt(fs: Fs, here: nat, path: string): nat {
    if RootLength(path) == 1 then fs.root else here
  }

  lemma ResolveSnoc(fs: Fs, start: nat, names: seq<string>, name: string)
    ensures Resolve(fs, start, names + [name]) ==
            match Resolve(fs, start, names) case None => None case Some(d) => Enter(fs, d, name)
  {
    assert (names + [name])[..|names|] == names;
  }

  lemma {:induction false} ResolveCons(fs: Fs, start: nat, name: string, names: seq<string>)
    ensures Resolve(fs, start, [name] + names) ==
            match Enter(fs, start, name) case None => None case Some(d) => Resolve(fs, d, names)
  {
    if names == [] {
      assert [name] + names == [] + [name];
      ResolveSnoc(fs, start, [], name);
    } else {
      var front, last := names[..|names| - 1], names[|names| - 1];
      ResolveCons(fs, start, name, front);
      assert [name] + names == ([name] + front) + [last];
      ResolveSnoc(fs, start, [name] + front, last);
    }
  }

  /** As far as the raw path resolves, the stack resolves to the same entry. */
  lemma {:induction false} StackResolves(fs: Fs, start: nat, texts: seq<string>, n: nat, absolute: bool)
    requires IsTree(fs) && n <= |texts| && (absolute ==> start == fs.root)
    requires Resolve(fs, start, texts[..n]).Some?
    ensures Resolve(fs, start, Pick(texts, StackOf(Kinds(texts), n, absolute))) == Resolve(fs, start, texts[..n])
  {
    hide Kinds, Pick, Push, Resolve;
    var ks := Kinds(texts);
    if n > 0 {
      var s := StackOf(ks, n - 1, absolute);
      StackStep(ks, n - 1, absolute);
      assert texts[..n] == texts[..n - 1] + [texts[n - 1]];
      ResolveSnoc(fs, start, texts[..n - 1], texts[n - 1]);
      StackResolves(fs, start, texts, n - 1, absolute);
      PushResolves(fs, start, texts, n - 1, s, absolute);
    } else {
      StackNone(ks, absolute);
      assert Pick(texts, []) == texts[..0];
    }
  }

  /** One push: entering the next segment from where the stack leads. */
  lemma PushResolves(fs: Fs, start: nat, texts: seq<string>, i: nat, s: seq<nat>, absolute: bool)
    requires IsTree(fs) && i < |texts| && (absolute ==> start == fs.root)
    requires s == StackOf(Kinds(texts), i, absolute)
    requires Resolve(fs, start, Pick(texts, s)).Some?
    requires Enter(fs, Resolve(fs, start, Pick(texts, s)).value, texts[i]).Some?
    ensures Resolve(fs, start, Pick(texts, Push(Kinds(texts), i, s, absolute))) ==
            Enter(fs, Resolve(fs, start, Pick(texts, s)).value, texts[i])
  {
    hide Resolve, StackOf;
    var ks := Kinds(texts);
    var p := Pick(texts, s);
    StackShape(ks, i, absolute);
    assert Pick(texts, s + [i]) == p + [texts[i]];
    ResolveSnoc(fs, start, p, texts[i]);
    if ks[i] == Back {
      if s != [] && ks[s[|s| - 1]] == Normal {
        PopResolves(fs, start, texts, s);
      } else if absolute {
        TopAndDepth(ks, s, Depth(ks, i, {}), absolute);
        assert s == [];
        assert p == [];
        ResolveNone(fs, start, []);
        assert p == [][..0];
      }
    }
  }

  /** Popping a name undoes entering it. */
  lemma PopResolves(fs: Fs, start: nat, texts: seq<string>, s: seq<nat>)
    requires IsTree(fs) && s != [] && forall q :: 0 <= q < |s| ==> s[q] < |texts|
    requires KindOf(texts[s[|s| - 1]]) == Normal && Resolve(fs, start, Pick(texts, s)).Some?
    ensures Resolve(fs, start, Pick(texts, s[..|s| - 1])) ==
            Some(fs.parent(Resolve(fs, start, Pick(texts, s)).value))
  {
    hide Resolve;
    var name := texts[s[|s| - 1]];
    assert Pick(texts, s) == Pick(texts, s[..|s| - 1]) + [name];
    ResolveSnoc(fs, start, Pick(texts, s[..|s| - 1]), name);
  }

  /** The stack machine keeps the meaning of every path that resolves. */
  lemma StackMeans(fs: Fs, here: nat, path: string)
    requires IsTree(fs)
    requires Resolve(fs, StartAt(fs, here, path), TextsOf(path)).Some?
    ensures Resolve(fs, StartAt(fs, here, path), StackTexts([path])) ==
            Resolve(fs, StartAt(fs, here, path), TextsOf(path))
  {
    hide Resolve, TextsOf, Texts, StackOf, StackTexts;
    SingleTexts(path);
    var texts := Texts([path]);
    assert texts[..|texts|] == texts;
    StackResolves(fs, StartAt(fs, here, path), texts, |texts|, RootLength(path) == 1);
    StackTextsIs([path]);
  }

  /**
   Normalisation keeps the meaning of a path that resolves, except on the one family: there the
   result resolves from the parent of the starting directory instead.
  */
  lemma NormalizedResolves(fs: Fs, here: nat, path: string)
    requires IsTree(fs)
    requires Resolve(fs, StartAt(fs, here, path), TextsOf(path)).Some?
    ensures var result := Normalized([path]);
            Resolve(fs, StartAt(fs, here, result), TextsOf(result)) ==
            if CancelsShortFirst(path) then Resolve(fs, fs.parent(here), StackTexts([path]))
            else Resolve(fs, StartAt(fs, here, path), TextsOf(path))
  {
    hide Resolve, TextsOf, Texts, KeptTexts, Normalized, CancelsShortFirst, StackTexts, IsTree, RootLength;
    var paths := [path];
    var start := StartAt(fs, here, path);
    NormalizedReadsBack(paths);
    SingleIsStack(path);
    StackMeans(fs, here, path);
    assert [] + StackTexts(paths) == StackTexts(paths);
    if CancelsShortFirst(path) {
      RelativeFamily(path);
      ResolveCons(fs, start, "..", StackTexts(paths));
    } else if KeptTexts(paths) == [] {
      ResolveDot(fs, start);
    }
  }

  lemma ResolveDot(fs: Fs, start: nat)
    ensures Resolve(fs, start, ["."]) == Some(start) == Resolve(fs, start, [])
  {
    ResolveCons(fs, start, ".", []);
    assert ["."] + [] == ["."];
  }

  lemma RelativeFamily(path: string)
    requires CancelsShortFirst(path)
    ensures RootLength(path) == 0
  {
  }

  lemma SingleTexts(path: string)
    ensures Texts([path]) == TextsOf(path)
  {
    assert TextsUpTo([path], 0) == [];
  }

  lemma StackTextsIs(paths: seq<string>)
    requires paths != []
    ensures StackTexts(paths) ==
            Pick(Texts(paths), StackOf(Kinds(Texts(paths)), |Texts(paths)|, RootLength(paths[0]) == 1))
  {
    KindsLength(paths);
  }

  // ---------------------------------------------------------------------------------------------
  // get_path
  // ---------------------------------------------------------------------------------------------

  /**
   DEntry::get_path(const char *): the path is normalised, but of the result only the first
   character is used; the segments are those of the path as given.
  */
  method GetPath(fs: Fs, here: nat, path: string) returns (r: Option<nat>)
    requires CString(path)
    ensures r == Resolve(fs, StartAt(fs, here, path), TextsOf(path))
  {
    hide Resolve, TextsOf, SpansFrom, Normalized;
    var buffer := new char[|path| + 1];
    var _ := JoinAndNormalizeMultiple([path], buffer);
    FirstCharacter(path);
    var ans := Some(if buffer[0] == SEPARATOR then fs.root else here);
    ghost var start := ans.value;
    assert start == StartAt(fs, here, path);
    var found, segment := GetFirstSegment(path);
    ghost var k := 0;
    ResolveNone(fs, start, TextsOf(path));
    while found && ans.Some?
      invariant ans.None? ==> Resolve(fs, start, TextsOf(path)) == None
      invariant ans.Some? && found ==>
                  SpanOk(path, k) && segment == SegmentFor(path, segment.segments, Spans(path)[k]) &&
                  Resolve(fs, start, TextsOf(path)[..k]) == ans
      invariant ans.Some? && !found ==> Resolve(fs, start, TextsOf(path)) == ans
      decreases if found && ans.Some? then |Spans(path)| - k + 1 else 0
    {
      var name := TextOfSegment(segment);
      ResolveNext(fs, start, path, k);
      if name == "." {
      } else if name == ".." {
        ans := Some(fs.parent(ans.value));
      } else {
        ans := fs.child(ans.value, name);
      }
      if ans.Some? {
        found, segment := GetNextSegment(segment, k);
        k := k + 1;
      }
    }
    r := ans;
  }

  /** A single name is looked up in the entry itself, and behind a separator in the root. */
  lemma LookUpOne(fs: Fs, here: nat, name: string)
    requires name != "" && name != "." && name != ".." && forall i :: 0 <= i < |name| ==> name[i] != '/' && name[i] != NUL
    ensures Resolve(fs, StartAt(fs, here, name), TextsOf(name)) == fs.child(here, name)
    ensures Resolve(fs, StartAt(fs, here, "/" + name), TextsOf("/" + name)) == fs.child(fs.root, name)
  {
    hide SpansFrom, TextsOf;
    var path := "/" + name;
    OneSpan(name, 0);
    OneSpan(path, 1);
    assert name[0..|name|] == name && path[1..|path|] == name;
    assert TextsOf(name) == [name] && TextsOf(path) == [name];
    assert Resolve(fs, here, []) == Some(here) && Resolve(fs, fs.root, []) == Some(fs.root);
    assert [name][..0] == [];
  }

  lemma OneSpan(path: string, b: nat)
    requires b < |path| && (b == 0 || (b == 1 && path[0] == '/')) && forall i :: b <= i < |path| ==> path[i] != '/'
    ensures Spans(path) == [Span(b, |path|)] && TextAt(path, 0) == path[b..|path|]
  {
    StopIs(path, b, |path|);
    assert SpansFrom(path, |path|) == [];
    assert Skip(path, b) == b;
    assert SpansFrom(path, 0) == [Span(b, |path|)];
  }

  lemma ResolveNone(fs: Fs, start: nat, names: seq<string>)
    ensures Resolve(fs, start, names[..0]) == Some(start)
    ensures names == [] ==> Resolve(fs, start, names) == Some(start)
  {
  }

  /** The k-th step of the loop, and what a missing entry means for the whole path. */
  lemma ResolveNext(fs: Fs, start: nat, path: string, k: nat)
    requires k < |Spans(path)| && Resolve(fs, start, TextsOf(path)[..k]).Some?
    ensures SpanOk(path, k)
    ensures var d := Enter(fs, Resolve(fs, start, TextsOf(path)[..k]).value, Text(path, Spans(path)[k]));
            && Resolve(fs, start, TextsOf(path)[..k + 1]) == d
            && (d.None? ==> Resolve(fs, start, TextsOf(path)).None?)
            && (k + 1 == |Spans(path)| ==> Resolve(fs, start, TextsOf(path)) == d)
  {
    SpanIsOk(path, k);
    var t := TextsOf(path);
    assert t[..k + 1] == t[..k] + [t[k]];
    ResolveSnoc(fs, start, t[..k], t[k]);
    if Resolve(fs, start, t[..k + 1]).None? {
      MissingStays(fs, start, t, k + 1);
    }
    assert t[..|t|] == t;
  }

  lemma {:induction false} MissingStays(fs: Fs, start: nat, names: seq<string>, n: nat)
    requires n <= |names| && Resolve(fs, start, names[..n]).None?
    ensures Resolve(fs, start, names).None?
    decreases |names| - n
  {
    if n < |names| {
      assert names[..n + 1] == names[..n] + [names[n]];
      ResolveSnoc(fs, start, names[..n], names[n]);
      MissingStays(fs, start, names, n + 1);
    } else {
      assert names[..n] == names;
    }
  }

  lemma FirstCharacter(path: string)
    ensures path == "" ==> Normalized([path]) == ""
    ensures path != "" ==> Normalized([path]) != "" && (Normalized([path])[0] == SEPARATOR <==> RootLength(path) == 1)
  {
    NormalizedReadsBack([path]);
    KindsLength([path]);
    assert TextsUpTo([path], 0) == [];
    assert Texts([path]) == TextsOf(path);
    if path != "" && RootLength(path) == 0 {
      assert Skip(path, 0) == 0;
      assert |Spans(path)| > 0;
      if KeptTexts([path]) != [] {
        SegmentsAreNames([path], 1);
        PickNames(Texts([path]), KeptUpTo([path], |PathKinds([path])|));
        SlashAllLong(KeptTexts([path]));
        RenderEnds("", KeptTexts([path]));
      }
    }
  }

  /**
   What is written for the first `n` segments is shorter than the path up to their end, with a separator
   behind it, or the same.
  */
  lemma {:induction false} OutputFits(path: string, n: nat)
    requires 0 < n <= |Spans(path)| && |PathKinds([path])| == |Hides([path])| == |Texts([path])| == |Spans(path)|
    ensures SpanOk(path, n - 1)
    ensures var (out, e) := (OutputUpTo([path], n), Spans(path)[n - 1].end);
            |out| <= e || out == path[..e] + [SEPARATOR]
  {
    hide PathKinds, Hides, Removed, OutputUpTo, Texts, SpansFrom;
    SpanIsOk(path, n - 1);
    SpansAreRuns(path, 0);
    OutputUpToStep([path], n - 1);
    TextIs(path, n - 1);
    var span := Spans(path)[n - 1];
    if n == 1 {
      OutputStart([path]);
      RootBefore(path);
      if |Root(path)| == span.begin {
        assert path[..span.begin] == Root(path);
      }
      OneMore(path, Root(path), span.begin, span.end);
    } else {
      OutputFits(path, n - 1);
      RunAt(path, Spans(path), n - 2);
      OneMore(path, OutputUpTo([path], n - 1), span.begin, span.end);
    }
  }

  /** Output that is no longer than the path up to a segment, or the same, with one more segment. */
  lemma OneMore(path: string, out: string, b: nat, e: nat)
    requires b < e <= |path| && (|out| < b || out == path[..b])
    ensures var more := out + (path[b..e] + [SEPARATOR]); |more| <= e || more == path[..e] + [SEPARATOR]
    ensures |out| <= e
  {
    if out == path[..b] {
      assert path[..b] + path[b..e] == path[..e];
    }
  }

  lemma TextIs(path: string, k: nat)
    requires k < |Spans(path)|
    ensures SpanOk(path, k) && k < |Texts([path])| && Texts([path])[k] == Text(path, Spans(path)[k])
  {
    SpanIsOk(path, k);
    assert TextsUpTo([path], 0) == [];
    assert Texts([path]) == TextsOf(path);
  }

  /** The root lies before the first segment. */
  lemma RootBefore(path: string)
    requires Spans(path) != []
    ensures SpanOk(path, 0) && |Root(path)| <= Spans(path)[0].begin && path[..|Root(path)|] == Root(path)
  {
    SpansAreRuns(path, 0);
    SpanIsOk(path, 0);
  }

  /** A normalised path is not longer than the path, and of the same length only if it is the same. */
  lemma NormalizedFits(path: string)
    ensures |Normalized([path])| <= |path|
    ensures |Normalized([path])| == |path| ==> Normalized([path]) == path
  {
    hide PathKinds, Hides, OutputUpTo, Texts, SpansFrom, Removed, Normalized;
    SingleHides(path);
    KindsLength([path]);
    OutputStart([path]);
    OutputEnd([path]);
    var n := |Spans(path)|;
    if n == 0 {
      NoSpans(path);
    } else {
      OutputFits(path, n);
      RootBefore(path);
      var out, e := OutputUpTo([path], n), Spans(path)[n - 1].end;
      if out == Root(path) {
        SpansAreRuns(path, 0);
        SpanIsOk(path, 0);
        if |path| == 1 {
          OneCharacter(path);
        }
      } else {
        OutputHasRoot(path, n);
        assert Normalized([path]) == out[..|out| - 1];
        assert path[..|path|] == path;
      }
    }
  }

  lemma OutputHasRoot(path: string, n: nat)
    requires n <= |PathKinds([path])|
    ensures OutputUpTo([path], n) != Root(path) ==> OutputUpTo([path], n) != ""
  {
  }

  lemma NoSpans(path: string)
    requires Spans(path) == []
    ensures |Root(path)| <= |path| && path[..|Root(path)|] == Root(path)
  {
  }

  lemma OneCharacter(path: string)
    requires |path| == 1 && Spans(path) != [] && OutputUpTo([path], |PathKinds([path])|) == Root(path)
    ensures path == "."
  {
    hide PathKinds, Hides, OutputUpTo, Texts, SpansFrom;
    SingleHides(path);
    KindsLength([path]);
    SpansAreRuns(path, 0);
    SpansOfOne(path);
    TextIndex([path], 1, 0, 0);
    OutputUpToStep([path], 0);
    OutputStart([path]);
    TextIs(path, 0);
    assert Text(path, Spans(path)[0]) == path;
    KindIs(path);
  }

  lemma KindIs(path: string)
    requires Texts([path]) == [path]
    ensures PathKinds([path]) == [KindOf(path)]
  {
  }

  lemma SpansOfOne(path: string)
    requires |path| == 1 && Spans(path) != []
    ensures Spans(path) == [Span(0, 1)] && Root(path) == ""
  {
    SpansAreRuns(path, 0);
    SpanIsOk(path, 0);
    assert SpansFrom(path, 1) == [];
  }

  /**
   get_path passes one more than the size of its local array.  The terminator lands outside exactly if the
   path is in normal form already.
  */
  lemma TerminatorOutside(path: string)
    ensures var (written, size) := (|Normalized([path])|, |path| + 1);
            var at := if written < size then written else size - 1;
            at >= |path| <==> Normalized([path]) == path
  {
    NormalizedFits(path);
  }

  /** "a/..": the stack is empty, and the code writes "..". */
  lemma NormalizeExample()
    ensures CancelsShortFirst("a/..") && Normalized(["a/.."]) == ".."
  {
    hide StackOf, Kept, SpansFrom, SlashAll, Hides, Hidden;
    var path := "a/..";
    ExampleTexts();
    assert PathKinds([path]) == [Normal, Back];
    HiddenFirstExample();
    SingleIsStack(path);
    assert StackTexts([path]) == [];
    assert KeptTexts([path]) == [".."];
    SlashAllCons([".."]);
    SlashAllEmpty([]);
    assert SlashAll([".."]) == "../";
  }

  lemma ExampleTexts()
    ensures Texts(["a/.."]) == ["a", ".."] && FirstHidden("a/..", 0)
  {
    ExampleSpans();
    SingleTexts("a/..");
    TwoTexts("a/..", Span(0, 1), Span(2, 4));
    assert Text("a/..", Span(0, 1)) == "a";
    assert Text("a/..", Span(2, 4)) == "..";
  }

  lemma TwoTexts(path: string, s: Span, t: Span)
    requires Spans(path) == [s, t]
    ensures s.begin <= s.end <= |path| && t.begin <= t.end <= |path|
    ensures TextsOf(path) == [Text(path, s), Text(path, t)]
  {
    SpanIsOk(path, 0);
    SpanIsOk(path, 1);
  }

  lemma ExampleSpans()
    ensures Spans("a/..") == [Span(0, 1), Span(2, 4)]
  {
    var path := "a/..";
    StopIs(path, 0, 1);
    StopIs(path, 2, 4);
    assert Skip(path, 0) == 0;
    assert Skip(path, 2) == 2;
    assert Skip(path, 1) == 2;
    assert SpansFrom(path, 4) == [];
    assert SpansFrom(path, 1) == [Span(2, 4)] + SpansFrom(path, 4);
    assert Spans(path) == [Span(0, 1)] + SpansFrom(path, 1);
  }
}
