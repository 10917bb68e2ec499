/**
 The guards of kernel/libcxxrt/guard.cc for static initialisation, as a state machine with one step
 for each access to the guard, and the one-time construction they implement.

 `owner`, `log` and `failed` record who holds the lock, what the calls returned and whether an
 assertion failed; the code does not have them.
*/
module Guard {
  import opened Options

  /** Lock and init bit are in one word or in two; the values depend on width and byte order. */
  datatype Layout = Layout(oneWord: bool, locked: nat, initialised: nat)

  const INITIAL: nat := 0

  const ARM := Layout(true, 0x8000_0000, 1)
  const LITTLE_64 := Layout(true, 0x8000_0000_0000_0000, 1)
  const BIG_64 := Layout(true, 1, 0x100_0000_0000_0000)
  const LITTLE_32 := Layout(false, 0x8000_0000, 1)
  const BIG_32 := Layout(false, 1, 0x100_0000)

  predicate Known(l: Layout) {
    l in {ARM, LITTLE_64, BIG_64, LITTLE_32, BIG_32}
  }

  datatype Event = Acquired(i: nat, result: nat) | Released(i: nat) | Aborted(i: nat)

  /**
   Check, Swap, Recheck: the accesses of `__cxa_guard_acquire` before a result is known (lines 125,
   133 and 159).  Got, Undo: the lock is taken, the init word is still to be looked at (lines 140 and
   145).  Building: acquire returned 1.  Unlock: the last write of `__cxa_guard_release`.
  */
  datatype Pc = Idle | Check | Swap | Recheck | Got | Undo | Building | Unlock

  /** `word` is the lock half and, with one word, also the init half; `other` is the init half of two. */
  datatype State = State(l: Layout, word: nat, other: nat, pc: seq<Pc>,
                         owner: Option<nat>, log: seq<Event>, failed: bool)

  datatype Step = Acquire(i: nat) | Go(i: nat) | Release(i: nat) | Abort(i: nat)

  ghost function Init(l: Layout, n: nat): State {
    State(l, INITIAL, INITIAL, seq(n, _ => Idle), None, [], false)
  }

  ghost function InitPart(s: State): nat {
    if s.l.oneWord then s.word else s.other
  }

  ghost predicate Enabled(s: State, step: Step) {
    step.i < |s.pc| &&
    match step
    case Acquire(i) => s.pc[i] == Idle
    case Go(i) => s.pc[i] != Idle && s.pc[i] != Building
    case Release(i) => s.pc[i] == Building
    case Abort(i) => s.pc[i] == Building
  }

  /** Thread `i` goes on at `c`. */
  ghost function Goto(s: State, i: nat, c: Pc): State
    requires i < |s.pc|
  {
    s.(pc := s.pc[i := c])
  }

  /** The call of thread `i` to acquire returns. */
  ghost function Return(s: State, i: nat, result: nat): State
    requires i < |s.pc|
  {
    Goto(s, i, if result == 1 then Building else Idle).(log := s.log + [Acquired(i, result)])
  }

  ghost function Apply(s: State, step: Step): State
    requires Enabled(s, step)
  {
    match step
    case Acquire(i) => Goto(s, i, Check)
    case Go(i) => Next(s, i)
    case Release(i) => DoRelease(s, i)
    case Abort(i) =>
      Goto(s, i, Idle).(word := if s.word == s.l.locked then INITIAL else s.word,
                        failed := s.failed || s.word != s.l.locked,
                        owner := None, log := s.log + [Aborted(i)])
  }

  ghost function Next(s: State, i: nat): State
    requires Enabled(s, Go(i))
  {
    match s.pc[i]
    case Check => if InitPart(s) == s.l.initialised then Return(s, i, 0) else Goto(s, i, Swap)
    case Swap => DoSwap(s, i)
    case Recheck => if InitPart(s) == s.l.initialised then Return(s, i, 0) else Goto(s, i, Swap)
    case Got => if InitPart(s) != s.l.initialised then Return(s, i, 1) else Goto(s, i, Undo)
    case Undo => Return(s, i, 0).(word := INITIAL, owner := None)
    case Unlock => Goto(s, i, Idle).(word := INITIAL, owner := None)
  }

  ghost function DoSwap(s: State, i: nat): State
    requires i < |s.pc|
  {
    if s.word == INITIAL then
      var t := s.(word := s.l.locked, owner := Some(i));
      if s.l.oneWord then Return(t, i, 1) else Goto(t, i, Got)
    else if s.l.oneWord && s.word == s.l.initialised then Return(s, i, 0)
    else Goto(s, i, if s.l.oneWord then Swap else Recheck).(failed := s.failed || s.word != s.l.locked)
  }

  ghost function DoRelease(s: State, i: nat): State
    requires i < |s.pc|
  {
    var expected := if s.l.oneWord then s.l.locked else INITIAL;
    var t := s.(failed := s.failed || InitPart(s) != expected, log := s.log + [Released(i)]);
    var u := if InitPart(s) != expected then t
             else if s.l.oneWord then t.(word := s.l.initialised) else t.(other := s.l.initialised);
    if s.l.oneWord then Goto(u, i, Idle).(owner := None) else Goto(u, i, Unlock)
  }

  ghost predicate CanRun(s: State, steps: seq<Step>)
    decreases |steps|
  {
    steps != [] ==> Enabled(s, steps[0]) && CanRun(Apply(s, steps[0]), steps[1..])
  }

  ghost function After(s: State, steps: seq<Step>): State
    requires CanRun(s, steps)
    decreases |steps|
  {
    if steps == [] then s else After(Apply(s, steps[0]), steps[1..])
  }

  // ---------------------------------------------------------------------------------------------
  // One-time construction
  // ---------------------------------------------------------------------------------------------

  /** What callers rely on: nobody has built the object, thread `i` is building it, it is built. */
  datatype Object = Fresh | Busy(i: nat) | Done | Broken

  ghost function Observe(o: Object, e: Event): Object {
    match e
    case Acquired(i, r) => if o == Fresh && r == 1 then Busy(i) else if o == Done && r == 0 then Done else Broken
    case Released(i) => if o == Busy(i) then Done else Broken
    case Aborted(i) => if o == Busy(i) then Fresh else Broken
  }

  ghost function ObjectAfter(log: seq<Event>): Object {
    if log == [] then Fresh else Observe(ObjectAfter(log[..|log| - 1]), log[|log| - 1])
  }

  lemma Observed(log: seq<Event>, e: Event)
    ensures ObjectAfter(log + [e]) == Observe(ObjectAfter(log), e)
  {
    assert (log + [e])[..|log|] == log;
  }

  ghost predicate AtMostOneBuilder(s: State) {
    forall i, j :: 0 <= i < |s.pc| && 0 <= j < |s.pc| && s.pc[i] == Building && s.pc[j] == Building ==> i == j
  }

  // ---------------------------------------------------------------------------------------------
  // The invariant
  // ---------------------------------------------------------------------------------------------

  ghost predicate HoldsLock(c: Pc) {
    c == Got || c == Undo || c == Building || c == Unlock
  }

  /** The lock is held by exactly the thread that `owner` names. */
  ghost predicate OwnerOk(s: State) {
    forall i: nat :: i < |s.pc| && HoldsLock(s.pc[i]) <==> s.owner == Some(i)
  }

  ghost predicate WordsOk(s: State) {
    if s.l.oneWord then
      (s.word == INITIAL || s.word == s.l.locked || s.word == s.l.initialised)
      && (s.word == s.l.locked <==> s.owner.Some?)
      && forall i :: 0 <= i < |s.pc| ==> s.pc[i] !in {Recheck, Got, Undo, Unlock}
    else
      s.word == (if s.owner.Some? then s.l.locked else INITIAL)
      && (s.other == INITIAL || s.other == s.l.initialised)
  }

  /** What the object looks like to the callers, read off the guard. */
  ghost function Seen(s: State): Object {
    if InitPart(s) == s.l.initialised then Done
    else if s.owner.Some? && s.owner.value < |s.pc| && s.pc[s.owner.value] == Building then Busy(s.owner.value)
    else Fresh
  }

  ghost predicate OwnerAt(s: State) {
    s.owner.Some? && s.owner.value < |s.pc| ==>
      var c := s.pc[s.owner.value];
      (c == Building ==> InitPart(s) != s.l.initialised)
      && (c == Undo || c == Unlock ==> InitPart(s) == s.l.initialised)
  }

  ghost predicate Inv(s: State) {
    Known(s.l) && OwnerOk(s) && WordsOk(s) && OwnerAt(s) && !s.failed && ObjectAfter(s.log) == Seen(s)
  }

  lemma InitInv(l: Layout, n: nat)
    requires Known(l)
    ensures Inv(Init(l, n))
  {
  }

  /** A step that neither takes nor gives the lock nor touches the guard. */
  lemma MoveKeepsInv(s: State, i: nat, c: Pc)
    requires Inv(s) && i < |s.pc| && !HoldsLock(s.pc[i]) && !HoldsLock(c) && (s.l.oneWord ==> c != Recheck)
    ensures Inv(Goto(s, i, c))
  {
    hide ObjectAfter, Known;
  }

  lemma ReturnZeroKeepsInv(s: State, i: nat)
    requires Inv(s) && i < |s.pc| && !HoldsLock(s.pc[i]) && InitPart(s) == s.l.initialised
    ensures Inv(Return(s, i, 0))
  {
    hide ObjectAfter, Known;
    Observed(s.log, Acquired(i, 0));
  }

  lemma SwapKeepsInv(s: State, i: nat)
    requires Inv(s) && i < |s.pc| && s.pc[i] == Swap
    ensures Inv(DoSwap(s, i))
  {
    hide ObjectAfter;
    Observed(s.log, Acquired(i, 0));
    Observed(s.log, Acquired(i, 1));
  }

  /** Finding out, with the lock held, whether another thread has built the object. */
  lemma GotKeepsInv(s: State, i: nat)
    requires Inv(s) && i < |s.pc| && s.pc[i] == Got
    ensures Inv(Next(s, i))
  {
    hide ObjectAfter;
    Observed(s.log, Acquired(i, 1));
    assert s.owner == Some(i);
  }

  lemma LeaveKeepsInv(s: State, i: nat)
    requires Inv(s) && i < |s.pc| && (s.pc[i] == Undo || s.pc[i] == Unlock)
    ensures Inv(Next(s, i))
  {
    hide ObjectAfter;
    Observed(s.log, Acquired(i, 0));
    assert s.owner == Some(i);
  }

  lemma ReleaseKeepsInv(s: State, i: nat)
    requires Inv(s) && i < |s.pc| && s.pc[i] == Building
    ensures Inv(DoRelease(s, i))
  {
    hide ObjectAfter;
    Observed(s.log, Released(i));
    assert s.owner == Some(i);
  }

  lemma AbortKeepsInv(s: State, i: nat)
    requires Inv(s) && i < |s.pc| && s.pc[i] == Building
    ensures Inv(Apply(s, Abort(i)))
  {
    hide ObjectAfter;
    Observed(s.log, Aborted(i));
    assert s.owner == Some(i);
  }

  lemma StepKeepsInv(s: State, step: Step)
    requires Inv(s) && Enabled(s, step)
    ensures Inv(Apply(s, step)) && |Apply(s, step).pc| == |s.pc|
  {
    hide Inv;
    match step
    case Acquire(i) => MoveKeepsInv(s, i, Check);
    case Release(i) => ReleaseKeepsInv(s, i);
    case Abort(i) => AbortKeepsInv(s, i);
    case Go(i) =>
      match s.pc[i] {
        case Swap => SwapKeepsInv(s, i);
        case Got => GotKeepsInv(s, i);
        case Undo => LeaveKeepsInv(s, i);
        case Unlock => LeaveKeepsInv(s, i);
        case _ =>
          if InitPart(s) == s.l.initialised {
            ReturnZeroKeepsInv(s, i);
          } else {
            MoveKeepsInv(s, i, Swap);
          }
      }
  }

  lemma {:induction false} RunKeepsInv(s: State, steps: seq<Step>)
    requires Inv(s) && CanRun(s, steps)
    ensures Inv(After(s, steps))
    decreases |steps|
  {
    hide Inv, Enabled, Apply;
    if steps != [] {
      StepKeepsInv(s, steps[0]);
      RunKeepsInv(Apply(s, steps[0]), steps[1..]);
    }
  }

  lemma InvIsSafe(s: State)
    requires Inv(s)
    ensures AtMostOneBuilder(s) && !s.failed && ObjectAfter(s.log) != Broken
  {
    hide ObjectAfter;
    assert forall i: nat :: i < |s.pc| && s.pc[i] == Building ==> HoldsLock(s.pc[i]) && s.owner == Some(i);
  }

  /**
   For any number of threads and every layout, the calls return what one-time construction allows, at
   most one thread is between an acquire that returned 1 and its release or abort, and no assertion fails.
  */
  lemma GuardIsSafe(l: Layout, n: nat, steps: seq<Step>)
    requires Known(l) && CanRun(Init(l, n), steps)
    ensures var s := After(Init(l, n), steps); AtMostOneBuilder(s) && !s.failed && ObjectAfter(s.log) != Broken
  {
    InitInv(l, n);
    RunKeepsInv(Init(l, n), steps);
    InvIsSafe(After(Init(l, n), steps));
  }

  // ---------------------------------------------------------------------------------------------
  // What the observed object means for the calls
  // ---------------------------------------------------------------------------------------------

  lemma {:induction false} PrefixNotBroken(log: seq<Event>, k: nat)
    requires k <= |log| && ObjectAfter(log) != Broken
    ensures ObjectAfter(log[..k]) != Broken
    decreases |log|
  {
    if k < |log| {
      PrefixNotBroken(log[..|log| - 1], k);
      assert log[..|log| - 1][..k] == log[..k];
    } else {
      assert log[..k] == log;
    }
  }

  /** After a release every acquire returns 0, and nothing is released or aborted again. */
  lemma {:induction false} ReleasedForever(log: seq<Event>, p: nat, q: nat)
    requires p < q < |log| && log[p].Released? && ObjectAfter(log) != Broken
    ensures log[q].Acquired? && log[q].result == 0 && ObjectAfter(log[..q]) == Done
    decreases q
  {
    PrefixNotBroken(log, q + 1);
    assert log[..q + 1][..q] == log[..q];
    PrefixNotBroken(log, q);
    if p + 1 == q {
      PrefixNotBroken(log, p + 1);
      assert log[..p + 1][..p] == log[..p];
    } else {
      ReleasedForever(log, p, q - 1);
      assert log[..q][..q - 1] == log[..q - 1];
    }
  }

  /** An acquire returns 0 only after a release. */
  lemma {:induction false} DoneMeansReleased(log: seq<Event>)
    requires ObjectAfter(log) == Done
    ensures exists p :: 0 <= p < |log| && log[p].Released?
    decreases |log|
  {
    var last := |log| - 1;
    if log[last].Acquired? {
      DoneMeansReleased(log[..last]);
      var p :| 0 <= p < last && log[..last][p].Released?;
      assert log[p].Released?;
    } else {
      assert log[last].Released?;
    }
  }

  /** Whoever gets 1 is the next to be heard of: no other call returns before it releases or aborts. */
  lemma BuilderIsNext(log: seq<Event>, p: nat)
    requires p + 1 < |log| && log[p].Acquired? && log[p].result == 1 && ObjectAfter(log) != Broken
    ensures log[p + 1] == Released(log[p].i) || log[p + 1] == Aborted(log[p].i)
  {
    PrefixNotBroken(log, p + 2);
    assert log[..p + 2][..p + 1] == log[..p + 1];
    PrefixNotBroken(log, p + 1);
    assert log[..p + 1][..p] == log[..p];
  }

  /** The promise of the guard, for every run: once released, every acquire returns 0. */
  lemma BuiltOnce(l: Layout, n: nat, steps: seq<Step>, p: nat, q: nat)
    requires Known(l) && CanRun(Init(l, n), steps)
    requires p < q < |After(Init(l, n), steps).log| && After(Init(l, n), steps).log[p].Released?
    ensures After(Init(l, n), steps).log[q].Acquired? && After(Init(l, n), steps).log[q].result == 0
  {
    hide ObjectAfter, After, CanRun;
    GuardIsSafe(l, n, steps);
    ReleasedForever(After(Init(l, n), steps).log, p, q);
  }

  /** An acquire loops only while another thread holds the lock. */
  lemma WaitsForOwner(s: State, i: nat)
    requires Inv(s) && i < |s.pc| && s.pc[i] == Swap && (DoSwap(s, i).pc[i] == Swap || DoSwap(s, i).pc[i] == Recheck)
    ensures exists j :: 0 <= j < |s.pc| && j != i && HoldsLock(s.pc[j])
  {
    hide ObjectAfter;
    assert s.owner.Some?;
  }

  // ---------------------------------------------------------------------------------------------
  // Progress
  // ---------------------------------------------------------------------------------------------

  ghost predicate Built(log: seq<Event>) {
    exists p :: 0 <= p < |log| && log[p].Released?
  }

  lemma {:induction false} BuiltIsDone(log: seq<Event>)
    requires ObjectAfter(log) != Broken
    ensures Built(log) <==> ObjectAfter(log) == Done
    decreases |log|
  {
    if ObjectAfter(log) == Done {
      DoneMeansReleased(log);
    } else if Built(log) {
      var p :| 0 <= p < |log| && log[p].Released?;
      var last := |log| - 1;
      PrefixNotBroken(log, last);
      if p < last {
        assert log[..last][p].Released?;
        BuiltIsDone(log[..last]);
      }
    }
  }

  /** Thread `i` takes `k` steps alone. */
  function Alone(i: nat, k: nat): seq<Step> {
    if k == 0 then [] else [Go(i)] + Alone(i, k - 1)
  }

  /** How many steps of its own a thread in an acquire needs at most, in one word and in two. */
  function StepsLeft(c: Pc, oneWord: bool): nat {
    match c
    case Check => if oneWord then 2 else 4
    case Recheck => 4
    case Swap => if oneWord then 1 else 3
    case Got => 2
    case Undo => 1
    case _ => 0
  }

  ghost predicate InAcquire(c: Pc) {
    c == Check || c == Swap || c == Recheck || c == Got || c == Undo
  }

  /** No thread but `i` is past the swap and holds the lock. */
  ghost predicate OthersOut(s: State, i: nat) {
    forall j :: 0 <= j < |s.pc| && j != i ==> !HoldsLock(s.pc[j])
  }

  ghost predicate Returns(s: State, i: nat, k: nat) {
    && CanRun(s, Alone(i, k))
    && After(s, Alone(i, k)).log == s.log + [Acquired(i, if Built(s.log) then 0 else 1)]
  }

  lemma ReturnsNow(s: State, i: nat)
    requires Enabled(s, Go(i)) && Next(s, i).log == s.log + [Acquired(i, if Built(s.log) then 0 else 1)]
    ensures Returns(s, i, 1)
  {
    assert Alone(i, 1) == [Go(i)];
    assert Alone(i, 1)[1..] == [];
  }

  lemma ReturnsLater(s: State, i: nat, k: nat)
    requires Enabled(s, Go(i)) && Next(s, i).log == s.log && Returns(Next(s, i), i, k)
    ensures Returns(s, i, k + 1)
  {
    assert Alone(i, k + 1)[1..] == Alone(i, k);
  }

  /** What the words say when nobody else holds the lock. */
  lemma FreeWord(s: State, i: nat)
    requires Inv(s) && i < |s.pc| && OthersOut(s, i)
    ensures Built(s.log) <==> InitPart(s) == s.l.initialised
    ensures !HoldsLock(s.pc[i]) ==> s.word == INITIAL || (s.l.oneWord && s.word == s.l.initialised)
    ensures s.pc[i] == Undo ==> InitPart(s) == s.l.initialised
  {
    hide ObjectAfter;
    BuiltIsDone(s.log);
    if s.owner.Some? {
      OwnerOne(s);
    }
    assert s.pc[i] == Undo ==> s.owner == Some(i);
  }

  lemma OwnerOne(s: State)
    requires OwnerOk(s) && s.owner.Some?
    ensures s.owner.value < |s.pc| && HoldsLock(s.pc[s.owner.value])
  {
  }

  /**
   A thread in an acquire, with nobody else past the swap, returns after a bounded number of its own steps:
   0 if the object has been released, and 1 otherwise.
  */
  lemma {:induction false} ReturnsAlone(s: State, i: nat) returns (k: nat)
    requires Inv(s) && i < |s.pc| && InAcquire(s.pc[i]) && OthersOut(s, i)
    ensures 0 < k <= StepsLeft(s.pc[i], s.l.oneWord) && Returns(s, i, k)
    decreases StepsLeft(s.pc[i], s.l.oneWord)
  {
    hide Returns, Inv, Built, ObjectAfter;
    FreeWord(s, i);
    LocksDiffer(s);
    StepKeepsInv(s, Go(i));
    if Next(s, i).log == s.log {
      var more := ReturnsAlone(Next(s, i), i);
      ReturnsLater(s, i, more);
      k := more + 1;
    } else {
      ReturnsNow(s, i);
      k := 1;
    }
  }

  lemma LocksDiffer(s: State)
    requires Inv(s)
    ensures s.l.locked != INITIAL && s.l.initialised != INITIAL && s.l.locked != s.l.initialised
    ensures s.l.oneWord ==> forall i :: 0 <= i < |s.pc| ==> s.pc[i] !in {Recheck, Got, Undo, Unlock}
  {
    hide ObjectAfter;
  }

  /** The call of a thread by itself: Acquire and `k` steps. */
  ghost function Call(i: nat, k: nat): seq<Step> {
    [Acquire(i)] + Alone(i, k)
  }

  /**
   In every run: if nobody is past the swap, a thread that calls acquire and goes on alone returns after at
   most four steps, with 0 if the object has been released and with 1 otherwise.
  */
  lemma AcquireReturns(l: Layout, n: nat, steps: seq<Step>, i: nat) returns (k: nat)
    requires Known(l) && CanRun(Init(l, n), steps)
    requires var s := After(Init(l, n), steps); i < |s.pc| && s.pc[i] == Idle && OthersOut(s, i)
    ensures var s := After(Init(l, n), steps);
            && 0 < k <= (if l.oneWord then 2 else 4) && CanRun(s, Call(i, k))
            && After(s, Call(i, k)).log == s.log + [Acquired(i, if Built(s.log) then 0 else 1)]
  {
    hide Built, Inv, Known;
    InitInv(l, n);
    RunKeepsInv(Init(l, n), steps);
    LayoutStays(Init(l, n), steps);
    var s := After(Init(l, n), steps);
    var t := Apply(s, Acquire(i));
    StepKeepsInv(s, Acquire(i));
    k := ReturnsAlone(t, i);
    assert Call(i, k)[1..] == Alone(i, k);
  }

  /** Once the object has been released, an acquire returns 0 at its first step, whoever holds the lock. */
  lemma BuiltReturnsAtOnce(l: Layout, n: nat, steps: seq<Step>, i: nat)
    requires Known(l) && CanRun(Init(l, n), steps)
    requires var s := After(Init(l, n), steps); i < |s.pc| && s.pc[i] == Idle && Built(s.log)
    ensures var s := After(Init(l, n), steps);
            CanRun(s, Call(i, 1)) && After(s, Call(i, 1)).log == s.log + [Acquired(i, 0)]
  {
    hide Built, Known;
    InitInv(l, n);
    RunKeepsInv(Init(l, n), steps);
    var s := After(Init(l, n), steps);
    InvIsSafe(s);
    BuiltIsDone(s.log);
    AloneOne(i);
    RunTwo(s, Acquire(i), Go(i));
  }

  lemma AloneOne(i: nat)
    ensures Alone(i, 0) == [] && Alone(i, 1) == [Go(i)] && Call(i, 1) == [Acquire(i), Go(i)]
  {
    assert Alone(i, 1) == [Go(i)] + Alone(i, 0);
  }

  lemma RunOne(s: State, a: Step)
    requires Enabled(s, a)
    ensures CanRun(s, [a]) && After(s, [a]) == Apply(s, a)
  {
    hide Enabled, Apply;
    assert [a][1..] == [];
  }

  lemma RunTwo(s: State, a: Step, b: Step)
    requires Enabled(s, a) && Enabled(Apply(s, a), b)
    ensures CanRun(s, [a, b]) && After(s, [a, b]) == Apply(Apply(s, a), b)
  {
    hide Enabled, Apply;
    RunOne(Apply(s, a), b);
    assert [a, b][1..] == [b];
  }

  /**
   Also in the middle of an acquire: once the object has been released a thread before or at the swap, or behind
   it without the lock, returns 0 within three steps of its own, whoever holds the lock.
  */
  lemma BuiltReturnsSoon(s: State, i: nat) returns (k: nat)
    requires Inv(s) && i < |s.pc| && InAcquire(s.pc[i]) && Built(s.log)
    ensures Returns(s, i, k)
    ensures 0 < k <= if s.pc[i] == Check || s.pc[i] == Recheck || s.pc[i] == Undo || s.l.oneWord then 1
                     else if s.pc[i] == Got then 2 else 3
  {
    hide Returns, Inv, Built, ObjectAfter;
    BuiltWord(s);
    LocksDiffer(s);
    StepKeepsInv(s, Go(i));
    if Next(s, i).log == s.log {
      var t := Next(s, i);
      BuiltWord(t);
      StepKeepsInv(t, Go(i));
      if Next(t, i).log == t.log {
        ReturnsNow(Next(t, i), i);
        ReturnsLater(t, i, 1);
        ReturnsLater(s, i, 2);
        k := 3;
      } else {
        ReturnsNow(t, i);
        ReturnsLater(s, i, 1);
        k := 2;
      }
    } else {
      ReturnsNow(s, i);
      k := 1;
    }
  }

  lemma BuiltWord(s: State)
    requires Inv(s) && Built(s.log)
    ensures InitPart(s) == s.l.initialised
    ensures !s.l.oneWord ==> s.word == INITIAL || s.word == s.l.locked
  {
    hide ObjectAfter;
    BuiltIsDone(s.log);
  }

  /** A release by a thread of its own frees the lock within one more step. */
  lemma ReleaseFrees(l: Layout, n: nat, steps: seq<Step>, i: nat)
    requires Known(l) && CanRun(Init(l, n), steps)
    requires var s := After(Init(l, n), steps); i < |s.pc| && s.pc[i] == Building
    ensures var s := After(Init(l, n), steps); var run := [Release(i)] + Alone(i, if l.oneWord then 0 else 1);
            && CanRun(s, run) && After(s, run).log == s.log + [Released(i)]
            && forall j :: 0 <= j < |s.pc| ==> |After(s, run).pc| == |s.pc| && !HoldsLock(After(s, run).pc[j])
  {
    hide Known;
    InitInv(l, n);
    RunKeepsInv(Init(l, n), steps);
    LayoutStays(Init(l, n), steps);
    var s := After(Init(l, n), steps);
    AloneOne(i);
    assert s.owner == Some(i);
    if l.oneWord {
      RunOne(s, Release(i));
      assert [Release(i)] + [] == [Release(i)];
    } else {
      RunTwo(s, Release(i), Go(i));
      assert [Release(i)] + [Go(i)] == [Release(i), Go(i)];
    }
    assert forall j: nat :: j < |s.pc| && j != i ==> !HoldsLock(s.pc[j]);
  }

  lemma {:induction false} LayoutStays(s: State, steps: seq<Step>)
    requires CanRun(s, steps)
    ensures After(s, steps).l == s.l && |After(s, steps).pc| == |s.pc|
    decreases |steps|
  {
    if steps != [] {
      LayoutStays(Apply(s, steps[0]), steps[1..]);
    }
  }
}
