/**
 The decision of kernel/libc/stdlib/cwalk.c which segments of a path survive normalisation, on the
 list of segment kinds.

 The code decides each segment on its own: a normal segment by a forward counter scan, a ".."
 by a backward one, and the backward scan may fail to see some segments (`hidden`).  The reference
 is the stack machine: push names, pop on "..", keep an unmatched ".." only in a relative path.
*/
module PathStack {
  datatype Kind = Normal | Current | Back

  // ---------------------------------------------------------------------------------------------
  // The counter scans of the code
  // ---------------------------------------------------------------------------------------------

  /** cwk_path_segment_normal_will_be_removed, from segment `i` on with counter `c`. */
  function ForwardScan(ks: seq<Kind>, i: nat, c: int): bool
    decreases |ks| - i
  {
    if i >= |ks| then false
    else match ks[i]
         case Normal => ForwardScan(ks, i + 1, c + 1)
         case Back => c - 1 < 0 || ForwardScan(ks, i + 1, c - 1)
         case Current => ForwardScan(ks, i + 1, c)
  }

  /** cwk_path_segment_back_will_be_removed over the visible segments before `n`, with counter `c`. */
  function BackScan(ks: seq<Kind>, n: nat, c: int, hidden: set<nat>): bool
    requires n <= |ks|
  {
    if n == 0 then false
    else if n - 1 in hidden then BackScan(ks, n - 1, c, hidden)
    else match ks[n - 1]
         case Normal => c + 1 > 0 || BackScan(ks, n - 1, c + 1, hidden)
         case Back => BackScan(ks, n - 1, c - 1, hidden)
         case Current => BackScan(ks, n - 1, c, hidden)
  }

  /** cwk_path_segment_will_be_removed */
  function Removed(ks: seq<Kind>, g: nat, absolute: bool, hidden: set<nat>): bool
    requires g < |ks|
  {
    match ks[g]
    case Current => true
    case Back => absolute || BackScan(ks, g, 0, hidden)
    case Normal => ForwardScan(ks, g + 1, 0)
  }

  /** The segments before `n` that the code writes out; `hide[g]` is what the scan from `g` misses. */
  function Kept(ks: seq<Kind>, n: nat, absolute: bool, hide_: seq<set<nat>>): seq<nat>
    requires n <= |ks| == |hide_|
  {
    if n == 0 then []
    else Kept(ks, n - 1, absolute, hide_) + if Removed(ks, n - 1, absolute, hide_[n - 1]) then [] else [n - 1]
  }

  // ---------------------------------------------------------------------------------------------
  // The stack machine
  // ---------------------------------------------------------------------------------------------

  function Push(ks: seq<Kind>, i: nat, stack: seq<nat>, absolute: bool): seq<nat>
    requires i < |ks| && forall q :: 0 <= q < |stack| ==> stack[q] < |ks|
  {
    match ks[i]
    case Current => stack
    case Normal => stack + [i]
    case Back =>
      if stack != [] && ks[stack[|stack| - 1]] == Normal then stack[..|stack| - 1]
      else if absolute then stack
      else stack + [i]
  }

  /** The stack after the first `n` segments: the indices of the segments that it holds. */
  function StackOf(ks: seq<Kind>, n: nat, absolute: bool): (s: seq<nat>)
    requires n <= |ks|
    ensures forall q :: 0 <= q < |s| ==> s[q] < n
  {
    if n == 0 then [] else Push(ks, n - 1, StackOf(ks, n - 1, absolute), absolute)
  }

  function StepDepth(k: Kind, d: nat): nat {
    match k
    case Current => d
    case Normal => d + 1
    case Back => if d > 0 then d - 1 else 0
  }

  /** How many names the stack holds when the segments in `hidden` are passed over. */
  function Depth(ks: seq<Kind>, n: nat, hidden: set<nat>): nat
    requires n <= |ks|
  {
    if n == 0 then 0
    else
      var d := Depth(ks, n - 1, hidden);
      if n - 1 in hidden then d else StepDepth(ks[n - 1], d)
  }

  // ---------------------------------------------------------------------------------------------
  // The shape of the stack
  // ---------------------------------------------------------------------------------------------

  ghost predicate Increasing(s: seq<nat>) {
    forall q, r :: 0 <= q < r < |s| ==> s[q] < s[r]
  }

  /** Unmatched ".." first, then the names; none of the former in an absolute path. */
  ghost predicate Shape(ks: seq<Kind>, s: seq<nat>, d: nat, absolute: bool) {
    && Increasing(s) && d <= |s| && (absolute ==> d == |s|)
    && (forall q :: 0 <= q < |s| ==> s[q] < |ks| && ks[s[q]] == if q < |s| - d then Back else Normal)
  }

  lemma PushShape(ks: seq<Kind>, i: nat, s: seq<nat>, d: nat, absolute: bool)
    requires i < |ks| && Shape(ks, s, d, absolute) && forall q :: 0 <= q < |s| ==> s[q] < i
    ensures Shape(ks, Push(ks, i, s, absolute), StepDepth(ks[i], d), absolute)
  {
    if ks[i] == Back {
      assert s != [] ==> (ks[s[|s| - 1]] == Normal <==> d > 0);
    }
  }

  lemma {:induction false} StackShape(ks: seq<Kind>, n: nat, absolute: bool)
    requires n <= |ks|
    ensures Shape(ks, StackOf(ks, n, absolute), Depth(ks, n, {}), absolute)
  {
    hide Shape, Push, StepDepth;
    if n == 0 {
      EmptyShape(ks, absolute);
    } else {
      StackShape(ks, n - 1, absolute);
      PushShape(ks, n - 1, StackOf(ks, n - 1, absolute), Depth(ks, n - 1, {}), absolute);
    }
  }

  lemma EmptyShape(ks: seq<Kind>, absolute: bool)
    ensures Shape(ks, [], 0, absolute)
  {
  }

  /** The backward scan finds exactly whether the visible stack still holds a name. */
  lemma {:induction false} BackScanIsDepth(ks: seq<Kind>, n: nat, c: int, hidden: set<nat>)
    requires n <= |ks| && c <= 0
    ensures BackScan(ks, n, c, hidden) <==> Depth(ks, n, hidden) + c > 0
  {
    if n > 0 {
      if n - 1 in hidden || ks[n - 1] == Current {
        BackScanIsDepth(ks, n - 1, c, hidden);
      } else if ks[n - 1] == Back {
        BackScanIsDepth(ks, n - 1, c - 1, hidden);
      } else if c < 0 {
        BackScanIsDepth(ks, n - 1, c + 1, hidden);
      }
    }
  }

  /** A segment that has left the stack does not return to it. */
  lemma {:induction false} GoneStaysGone(ks: seq<Kind>, n: nat, g: nat, absolute: bool)
    requires g < n <= |ks| && g !in StackOf(ks, n, absolute)
    ensures g !in StackOf(ks, |ks|, absolute)
    decreases |ks| - n
  {
    if n < |ks| {
      GoneStaysGone(ks, n + 1, g, absolute);
    }
  }

  /** An unmatched ".." is never popped. */
  lemma {:induction false} BackStays(ks: seq<Kind>, n: nat, g: nat, absolute: bool)
    requires g < n <= |ks| && g in StackOf(ks, n, absolute) && ks[g] == Back
    ensures g in StackOf(ks, |ks|, absolute)
    decreases |ks| - n
  {
    if n < |ks| {
      StackShape(ks, n, absolute);
      var s := StackOf(ks, n, absolute);
      var q :| 0 <= q < |s| && s[q] == g;
      if ks[n] == Back && s != [] && ks[s[|s| - 1]] == Normal {
        assert s[..|s| - 1][q] == g;
      } else {
        assert StackOf(ks, n + 1, absolute)[q] == g;
      }
      BackStays(ks, n + 1, g, absolute);
    }
  }

  /** The forward scan finds exactly whether a name with `|s| - 1 - q` names above it gets popped. */
  lemma {:induction false} ForwardScanIsPop(ks: seq<Kind>, n: nat, q: nat, absolute: bool)
    requires n <= |ks| && q < |StackOf(ks, n, absolute)| && ks[StackOf(ks, n, absolute)[q]] == Normal
    ensures StackOf(ks, n, absolute)[q] in StackOf(ks, |ks|, absolute) <==>
            !ForwardScan(ks, n, |StackOf(ks, n, absolute)| - 1 - q)
    decreases |ks| - n
  {
    hide Shape, Push;
    var s := StackOf(ks, n, absolute);
    var g := s[q];
    if n < |ks| {
      StackShape(ks, n, absolute);
      PushOver(ks, n, s, q, Depth(ks, n, {}), absolute);
      if ks[n] == Back && q == |s| - 1 {
        GoneStaysGone(ks, n + 1, g, absolute);
      } else {
        ForwardScanIsPop(ks, n + 1, q, absolute);
      }
    }
  }

  /** What the next segment does to a name on the stack. */
  lemma PushOver(ks: seq<Kind>, n: nat, s: seq<nat>, q: nat, d: nat, absolute: bool)
    requires n < |ks| && Shape(ks, s, d, absolute) && q < |s| && ks[s[q]] == Normal
    requires forall r :: 0 <= r < |s| ==> s[r] < n
    ensures var s' := Push(ks, n, s, absolute);
            if ks[n] == Back && q == |s| - 1 then s[q] !in s'
            else q < |s'| && s'[q] == s[q] &&
                 |s'| == |s| + (if ks[n] == Normal then 1 else if ks[n] == Back then -1 else 0)
  {
    TopIsName(ks, s, q, d, absolute);
    LastLeaves(s);
  }

  lemma TopIsName(ks: seq<Kind>, s: seq<nat>, q: nat, d: nat, absolute: bool)
    requires Shape(ks, s, d, absolute) && q < |s| && ks[s[q]] == Normal
    ensures ks[s[|s| - 1]] == Normal
  {
  }

  lemma LastLeaves(s: seq<nat>)
    requires Increasing(s) && s != []
    ensures s[|s| - 1] !in s[..|s| - 1]
  {
  }

  // ---------------------------------------------------------------------------------------------
  // Scans against the stack machine
  // ---------------------------------------------------------------------------------------------

  lemma StackNone(ks: seq<Kind>, absolute: bool)
    ensures StackOf(ks, 0, absolute) == []
  {
  }

  lemma StackStep(ks: seq<Kind>, n: nat, absolute: bool)
    requires n < |ks|
    ensures StackOf(ks, n + 1, absolute) == Push(ks, n, StackOf(ks, n, absolute), absolute)
  {
  }

  /** With nothing hidden, the local scans keep exactly the segments of the final stack. */
  lemma RemovedIsStack(ks: seq<Kind>, g: nat, absolute: bool)
    requires g < |ks|
    ensures !Removed(ks, g, absolute, {}) <==> g in StackOf(ks, |ks|, absolute)
  {
    hide Shape, StackOf, Depth, ForwardScan, BackScan;
    var s, s' := StackOf(ks, g, absolute), StackOf(ks, g + 1, absolute);
    StackStep(ks, g, absolute);
    StackShape(ks, g, absolute);
    match ks[g]
    case Current =>
      assert s' == s;
      GoneStaysGone(ks, g + 1, g, absolute);
    case Normal =>
      assert s' == s + [g];
      ForwardScanIsPop(ks, g + 1, |s|, absolute);
    case Back =>
      BackScanIsDepth(ks, g, 0, {});
      TopAndDepth(ks, s, Depth(ks, g, {}), absolute);
      if absolute || Depth(ks, g, {}) > 0 {
        assert s' <= s;
        GoneStaysGone(ks, g + 1, g, absolute);
      } else {
        assert s' == s + [g];
        BackStays(ks, g + 1, g, absolute);
      }
  }

  lemma TopAndDepth(ks: seq<Kind>, s: seq<nat>, d: nat, absolute: bool)
    requires Shape(ks, s, d, absolute)
    ensures (s != [] && s[|s| - 1] < |ks| && ks[s[|s| - 1]] == Normal) <==> d > 0
  {
  }

  lemma {:induction false} KeptShape(ks: seq<Kind>, n: nat, absolute: bool, hide_: seq<set<nat>>)
    requires n <= |ks| == |hide_|
    ensures Increasing(Kept(ks, n, absolute, hide_))
    ensures forall g :: g in Kept(ks, n, absolute, hide_) <==> 0 <= g < n && !Removed(ks, g, absolute, hide_[g])
  {
    if n > 0 {
      KeptShape(ks, n - 1, absolute, hide_);
      var k := Kept(ks, n - 1, absolute, hide_);
      assert forall q :: 0 <= q < |k| ==> k[q] in k;
    }
  }

  lemma DropLast(s: seq<nat>)
    requires Increasing(s) && s != []
    ensures Increasing(s[..|s| - 1])
    ensures forall g :: g in s[..|s| - 1] <==> g in s && g != s[|s| - 1]
    ensures forall g :: g in s ==> g <= s[|s| - 1]
    ensures s[|s| - 1] in s && s == s[..|s| - 1] + [s[|s| - 1]]
  {
  }

  lemma {:induction false} IncreasingUnique(s: seq<nat>, t: seq<nat>)
    requires Increasing(s) && Increasing(t) && forall g :: g in s <==> g in t
    ensures s == t
  {
    assert s != [] ==> s[0] in t;
    assert t != [] ==> t[0] in s;
    if s != [] {
      hide Increasing;
      DropLast(s);
      DropLast(t);
      var a, b := s[|s| - 1], t[|t| - 1];
      assert a in t && b in s;
      assert a == b;
      var s', t' := s[..|s| - 1], t[..|t| - 1];
      forall g: nat
        ensures g in s' <==> g in t'
      {
        assert g in s' <==> g in s && g != a;
        assert g in t' <==> g in t && g != a;
      }
      IncreasingUnique(s', t');
    }
  }

  /**
   The main result on kinds: the code's output is the stack, for every list of segments, if the
   path is absolute; and if it is relative, exactly when no backward scan that should find a name
   has all of them hidden or used up.
  */
  lemma KeptIsStack(ks: seq<Kind>, absolute: bool, hide_: seq<set<nat>>)
    requires |hide_| == |ks|
    ensures Kept(ks, |ks|, absolute, hide_) == StackOf(ks, |ks|, absolute) <==>
            absolute ||
            forall p | 0 <= p < |ks| && ks[p] == Back :: Depth(ks, p, hide_[p]) > 0 <==> Depth(ks, p, {}) > 0
  {
    hide Removed, StackOf, Kept, Depth, Shape;
    var k, s := Kept(ks, |ks|, absolute, hide_), StackOf(ks, |ks|, absolute);
    KeptShape(ks, |ks|, absolute, hide_);
    StackIncreasing(ks, absolute);
    forall g | 0 <= g < |ks|
      ensures g in s <==> !Removed(ks, g, absolute, {})
      ensures Removed(ks, g, absolute, hide_[g]) != Removed(ks, g, absolute, {}) <==>
              !absolute && ks[g] == Back && (Depth(ks, g, hide_[g]) > 0) != (Depth(ks, g, {}) > 0)
    {
      RemovedIsStack(ks, g, absolute);
      RemovedDiffers(ks, g, absolute, hide_[g]);
    }
    if forall g | 0 <= g < |ks| :: Removed(ks, g, absolute, hide_[g]) == Removed(ks, g, absolute, {}) {
      IncreasingUnique(k, s);
    } else {
      var g :| 0 <= g < |ks| && Removed(ks, g, absolute, hide_[g]) != Removed(ks, g, absolute, {});
      assert g in k <==> g !in s;
    }
  }

  lemma StackIncreasing(ks: seq<Kind>, absolute: bool)
    ensures Increasing(StackOf(ks, |ks|, absolute))
  {
    StackShape(ks, |ks|, absolute);
  }

  lemma RemovedDiffers(ks: seq<Kind>, g: nat, absolute: bool, hidden: set<nat>)
    requires g < |ks|
    ensures Removed(ks, g, absolute, hidden) != Removed(ks, g, absolute, {}) <==>
            !absolute && ks[g] == Back && (Depth(ks, g, hidden) > 0) != (Depth(ks, g, {}) > 0)
  {
    BackScanIsDepth(ks, g, 0, {});
    BackScanIsDepth(ks, g, 0, hidden);
  }

  // ---------------------------------------------------------------------------------------------
  // A single relative path whose first segment is hidden from every backward scan
  // ---------------------------------------------------------------------------------------------

  /** Not seeing the bottom name costs one level while that name is on the stack, and nothing after. */
  lemma {:induction false} DepthHiddenFirst(ks: seq<Kind>, n: nat)
    requires 1 <= n <= |ks| && ks[0] == Normal
    ensures Depth(ks, n, {0}) == if 0 in StackOf(ks, n, false) then Depth(ks, n, {}) - 1 else Depth(ks, n, {})
    ensures 0 in StackOf(ks, n, false) ==> StackOf(ks, n, false)[0] == 0 && Depth(ks, n, {}) == |StackOf(ks, n, false)|
  {
    if n > 1 {
      DepthHiddenFirst(ks, n - 1);
      StackShape(ks, n - 1, false);
      StackShape(ks, n, false);
      var s, s' := StackOf(ks, n - 1, false), StackOf(ks, n, false);
      if 0 in s {
        if |s| > 1 || ks[n - 1] != Back {
          assert s'[0] == 0;
        } else {
          assert s' == [];
        }
      } else {
        assert 0 !in s';
      }
    } else {
      assert StackOf(ks, 0, false) == [];
      assert StackOf(ks, 1, false) == [0];
    }
  }

  /** The ".." that pops the first segment. */
  ghost predicate PopsFirst(ks: seq<Kind>, p: nat) {
    0 < p < |ks| && ks[p] == Back && ks[0] == Normal && StackOf(ks, p, false) == [0]
  }

  lemma FirstPopped(ks: seq<Kind>, n: nat)
    requires 1 < n <= |ks| && ks[0] == Normal && 0 in StackOf(ks, n - 1, false)
    ensures 0 in StackOf(ks, n, false) || (ks[n - 1] == Back && StackOf(ks, n - 1, false) == [0])
  {
    DepthHiddenFirst(ks, n - 1);
    var s, s' := StackOf(ks, n - 1, false), StackOf(ks, n, false);
    if |s| > 1 || ks[n - 1] != Back {
      assert s'[0] == 0;
    }
  }

  lemma {:induction false} PopperExists(ks: seq<Kind>, n: nat) returns (p: nat)
    requires 1 <= n <= |ks| && ks[0] == Normal && 0 !in StackOf(ks, n, false)
    ensures p < n && PopsFirst(ks, p)
  {
    assert StackOf(ks, 0, false) == [] && StackOf(ks, 1, false) == [0];
    if 0 in StackOf(ks, n - 1, false) {
      DepthHiddenFirst(ks, n - 1);
      FirstPopped(ks, n);
      p := n - 1;
    } else {
      p := PopperExists(ks, n - 1);
    }
  }

  /** After its pop, every segment on the stack comes later than the ".." that popped the first. */
  lemma {:induction false} AfterPop(ks: seq<Kind>, p: nat, n: nat)
    requires PopsFirst(ks, p) && p < n <= |ks|
    ensures forall g :: g in StackOf(ks, n, false) ==> g > p
  {
    if n == p + 1 {
      assert StackOf(ks, n, false) == [];
    } else {
      AfterPop(ks, p, n - 1);
    }
  }

  ghost function HideFirst(n: nat): seq<set<nat>> {
    seq(n, _ => {0})
  }

  /** With the first segment hidden, the code keeps the stack and the ".." that pops that segment. */
  lemma HiddenMember(ks: seq<Kind>, g: nat)
    requires g < |ks| && ks[0] == Normal
    ensures !Removed(ks, g, false, {0}) <==> g in StackOf(ks, |ks|, false) || PopsFirst(ks, g)
  {
    RemovedIsStack(ks, g, false);
    BackScanIsDepth(ks, g, 0, {});
    BackScanIsDepth(ks, g, 0, {0});
    if g > 0 && ks[g] == Back {
      DepthHiddenFirst(ks, g);
      StackShape(ks, g, false);
      var s := StackOf(ks, g, false);
      assert 0 in s && |s| == 1 <==> s == [0];
    }
  }

  lemma FirstGoneAfter(ks: seq<Kind>, p: nat, q: nat)
    requires PopsFirst(ks, p) && p < q <= |ks|
    ensures 0 !in StackOf(ks, q, false)
  {
    AfterPop(ks, p, q);
  }

  lemma PopperHasFirst(ks: seq<Kind>, p: nat)
    requires PopsFirst(ks, p)
    ensures 0 in StackOf(ks, p, false)
  {
    assert StackOf(ks, p, false)[0] == 0;
  }

  /**
   The exact result for a single relative path whose first segment is a hidden name: the stack if
   that name is never popped, and otherwise the stack with the popping ".." left over in front.
  */
  lemma HiddenFirst(ks: seq<Kind>)
    requires ks != [] && ks[0] == Normal
    ensures var s, k := StackOf(ks, |ks|, false), Kept(ks, |ks|, false, HideFirst(|ks|));
            if 0 in s then k == s else exists p: nat :: PopsFirst(ks, p) && k == [p] + s
  {
    hide StackOf, Kept, Removed, PopsFirst;
    var s, k := StackOf(ks, |ks|, false), Kept(ks, |ks|, false, HideFirst(|ks|));
    KeptShape(ks, |ks|, false, HideFirst(|ks|));
    StackShape(ks, |ks|, false);
    forall g | 0 <= g < |ks|
      ensures g in k <==> g in s || PopsFirst(ks, g)
    {
      HiddenMember(ks, g);
    }
    if 0 in s {
      NoPopper(ks);
      IncreasingUnique(k, s);
    } else {
      var p := PopperExists(ks, |ks|);
      AfterPop(ks, p, |ks|);
      OnePopper(ks, p);
      assert forall q :: 0 <= q < |s| ==> s[q] in s;
      IncreasingUnique(k, [p] + s);
    }
  }

  lemma NoPopper(ks: seq<Kind>)
    requires ks != [] && 0 in StackOf(ks, |ks|, false)
    ensures forall p: nat :: !PopsFirst(ks, p)
  {
    forall p: nat
      ensures !PopsFirst(ks, p)
    {
      if PopsFirst(ks, p) {
        AfterPop(ks, p, |ks|);
      }
    }
  }

  lemma OnePopper(ks: seq<Kind>, p: nat)
    requires PopsFirst(ks, p)
    ensures forall q: nat :: PopsFirst(ks, q) ==> q == p
  {
    forall q: nat | PopsFirst(ks, q)
      ensures q == p
    {
      PopperHasFirst(ks, p);
      PopperHasFirst(ks, q);
      if q < p {
        FirstGoneAfter(ks, q, p);
      } else if p < q {
        FirstGoneAfter(ks, p, q);
      }
    }
  }

  /** "a/..": the stack is empty, the code keeps the "..". */
  lemma HiddenFirstExample()
    ensures StackOf([Normal, Back], 2, false) == [] && Kept([Normal, Back], 2, false, HideFirst(2)) == [1]
  {
    hide Kept, StackOf;
    var ks := [Normal, Back];
    StackNone(ks, false);
    StackStep(ks, 0, false);
    StackStep(ks, 1, false);
    assert StackOf(ks, 2, false) == [];
    HiddenFirst(ks);
    var p: nat :| PopsFirst(ks, p) && Kept(ks, 2, false, HideFirst(2)) == [p] + [];
    assert p == 1;
  }
}
