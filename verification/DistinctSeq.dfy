/** Sequences (of frames, sectors, threads, offsets, list nodes) without repetitions. */
module DistinctSeq {
  ghost predicate Distinct<T>(s: seq<T>) {
    forall p, q :: 0 <= p < q < |s| ==> s[p] != s[q]
  }

  /** There are at most `n` distinct numbers below `n`. */
  lemma {:induction false} Pigeonhole(w: seq<nat>, n: nat)
    requires Distinct(w) && forall p :: 0 <= p < |w| ==> w[p] < n
    ensures |w| <= n
  {
    if w != [] {
      assert w[0] < n;
      if k :| 0 <= k < |w| && w[k] == n - 1 {
        var v := w[..k] + w[k + 1..];
        assert forall p :: 0 <= p < |v| ==> v[p] == w[if p < k then p else p + 1] && v[p] != w[k];
        Pigeonhole(v, n - 1);
      } else {
        assert forall p :: 0 <= p < |w| ==> w[p] < n && w[p] != n - 1;
        Pigeonhole(w, n - 1);
      }
    }
  }

  /** The sequence without its `i`th element. */
  function Drop<T>(s: seq<T>, i: nat): seq<T>
    requires i < |s|
  {
    s[..i] + s[i + 1..]
  }

  /** The sequence without the number `x`. */
  function Remove(s: seq<nat>, x: nat): seq<nat> {
    if s == [] then [] else (if s[0] == x then [] else [s[0]]) + Remove(s[1..], x)
  }

  lemma ConsDistinct<T>(x: T, s: seq<T>)
    requires Distinct(s) && x !in s
    ensures Distinct([x] + s)
  {
  }

  lemma {:induction false} RemoveAbsent(s: seq<nat>, x: nat)
    requires x !in s
    ensures Remove(s, x) == s
  {
    if s != [] {
      RemoveAbsent(s[1..], x);
    }
  }

  lemma {:induction false} RemoveAt(s: seq<nat>, i: nat)
    requires Distinct(s) && i < |s|
    ensures Remove(s, s[i]) == Drop(s, i)
  {
    if i > 0 {
      RemoveAt(s[1..], i - 1);
      assert Drop(s, i) == [s[0]] + Drop(s[1..], i - 1);
    } else {
      RemoveAbsent(s[1..], s[0]);
      assert Drop(s, 0) == s[1..];
    }
  }

  lemma {:induction false} RemoveMembers(s: seq<nat>, x: nat)
    requires Distinct(s)
    ensures Distinct(Remove(s, x)) && forall y :: y in Remove(s, x) <==> y in s && y != x
  {
    if s != [] {
      RemoveMembers(s[1..], x);
      assert s[0] !in s[1..];
      ConsDistinct(s[0], Remove(s[1..], x));
    }
  }

  /** The same, for an element whose position is known. */
  lemma RemoveIs(s: seq<nat>, x: nat, i: nat)
    requires Distinct(s) && i < |s| && s[i] == x
    ensures Remove(s, x) == Drop(s, i) && |Remove(s, x)| == |s| - 1
    ensures Distinct(Remove(s, x)) && forall y :: y in Remove(s, x) <==> y in s && y != x
  {
    RemoveAt(s, i);
    RemoveMembers(s, x);
  }
}
