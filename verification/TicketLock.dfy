/**
 The ticket spinlock of kernel/spin.c as a state machine: `raw_spin_take` draws a ticket with one
 atomic step and then compares `svc` with it until they are equal; `raw_spin_give` increments
 `svc`.  The atomic increments return the old value (kernel/arch/x86_64/atomic.S) and both counters
 wrap at 2^32.

 `taken` and `entered` record the threads in the order in which they drew a ticket and got the
 lock, and `given` counts the releases; the code does not have them.
*/
module TicketLock {
  import opened DistinctSeq
  import opened Tickets

  datatype Pc = Idle | Waiting(ticket: nat) | Holding

  datatype State = State(tkt: nat, svc: nat, pc: seq<Pc>, taken: seq<nat>, entered: seq<nat>, given: nat)

  datatype Step = Take(i: nat) | Enter(i: nat) | Give(i: nat)

  ghost function Init(n: nat): State {
    State(0, 0, seq(n, _ => Idle), [], [], 0)
  }

  /** Enter is the iteration of the spin loop that finds its ticket served; the others change nothing. */
  ghost predicate Enabled(s: State, step: Step) {
    step.i < |s.pc| &&
    match step
    case Take(i) => s.pc[i] == Idle
    case Enter(i) => s.pc[i] == Waiting(s.svc)
    case Give(i) => s.pc[i] == Holding
  }

  ghost function Apply(s: State, step: Step): State
    requires Enabled(s, step)
  {
    match step
    case Take(i) => s.(tkt := (s.tkt + 1) % WRAP, pc := s.pc[i := Waiting(s.tkt)], taken := s.taken + [i])
    case Enter(i) => s.(pc := s.pc[i := Holding], entered := s.entered + [i])
    case Give(i) => s.(svc := (s.svc + 1) % WRAP, pc := s.pc[i := Idle], given := s.given + 1)
  }

  /** `steps` can be taken one after another from `s`. */
  ghost predicate CanRun(s: State, steps: seq<Step>)
    decreases |steps|
  {
    steps != [] ==> Enabled(s, steps[0]) && CanRun(Apply(s, steps[0]), steps[1..])
  }

  ghost function After(s: State, steps: seq<Step>): State
    requires CanRun(s, steps)
    decreases |steps|
  {
    if steps == [] then s else After(Apply(s, steps[0]), steps[1..])
  }

  ghost predicate MutualExclusion(s: State) {
    forall i, j :: 0 <= i < |s.pc| && 0 <= j < |s.pc| && s.pc[i] == Holding && s.pc[j] == Holding ==> i == j
  }

  /** Threads get the lock in the order in which they drew their tickets. */
  ghost predicate FirstComeFirstServed(s: State) {
    s.entered <= s.taken
  }

  // ---------------------------------------------------------------------------------------------
  // The invariant
  // ---------------------------------------------------------------------------------------------

  /**
   The threads of `line` are those that are not idle; they have the tickets from `given` on, and
   only the first may be holding the lock.
  */
  ghost predicate InLine(line: seq<nat>, given: nat, pc: seq<Pc>) {
    && Distinct(line)
    && (forall p :: 0 <= p < |line| ==>
          line[p] < |pc| && (pc[line[p]] == Waiting(Ticket(given + p)) || (p == 0 && pc[line[p]] == Holding)))
    && (forall i :: 0 <= i < |pc| && pc[i] != Idle ==> i in line)
  }

  /** The threads with outstanding tickets, oldest first. */
  ghost function Line(s: State): seq<nat>
    requires s.given <= |s.taken|
  {
    s.taken[s.given..]
  }

  /** The thread whose turn it is has the lock. */
  ghost predicate Held(s: State)
    requires s.given <= |s.taken|
  {
    Line(s) != [] && Line(s)[0] < |s.pc| && s.pc[Line(s)[0]] == Holding
  }

  ghost predicate Inv(s: State) {
    && s.given <= |s.taken|
    && s.tkt == Ticket(|s.taken|) && s.svc == Ticket(s.given)
    && InLine(Line(s), s.given, s.pc)
    && s.entered == s.taken[..if Held(s) then s.given + 1 else s.given]
  }

  /** There are no more outstanding tickets than threads. */
  lemma {:induction false} WindowFits(s: State)
    requires Inv(s)
    ensures |Line(s)| <= |s.pc|
  {
    Pigeonhole(Line(s), |s.pc|);
  }

  lemma InitInv(n: nat)
    ensures Inv(Init(n))
  {
  }

  /** With at most 2^32 threads, a ticket that is being served is the oldest outstanding one. */
  lemma ServedIsOldest(s: State, i: nat)
    requires Inv(s) && |s.pc| <= WRAP && Enabled(s, Enter(i))
    ensures Line(s) != [] && Line(s)[0] == i && !Held(s)
  {
    hide Ticket;
    WindowFits(s);
    var p :| 0 <= p < |Line(s)| && Line(s)[p] == i;
    SameTicket(s.given, s.given + p);
  }

  lemma LineTake(line: seq<nat>, given: nat, pc: seq<Pc>, i: nat)
    requires InLine(line, given, pc) && i < |pc| && pc[i] == Idle
    ensures InLine(line + [i], given, pc[i := Waiting(Ticket(given + |line|))])
  {
    hide Ticket;
    assert i !in line;
  }

  lemma LineEnter(line: seq<nat>, given: nat, pc: seq<Pc>)
    requires InLine(line, given, pc) && line != []
    ensures line[0] < |pc| && InLine(line, given, pc[line[0] := Holding])
  {
    hide Ticket;
    assert forall p :: 0 < p < |line| ==> line[0] != line[p];
  }

  lemma LineGive(line: seq<nat>, given: nat, pc: seq<Pc>, i: nat)
    requires InLine(line, given, pc) && i < |pc| && pc[i] == Holding
    ensures line != [] && line[0] == i && InLine(line[1..], given + 1, pc[i := Idle])
  {
    hide Ticket;
    var p :| 0 <= p < |line| && line[p] == i;
    assert line == [i] + line[1..];
    forall q | 0 <= q < |line[1..]|
      ensures line[1..][q] < |pc| && line[1..][q] != i && pc[line[1..][q]] == Waiting(Ticket(given + 1 + q))
    {
      assert line[1..][q] == line[q + 1] && line[0] != line[q + 1];
    }
  }

  lemma TakeKeepsInv(s: State, i: nat)
    requires Inv(s) && Enabled(s, Take(i))
    ensures Inv(Apply(s, Take(i)))
  {
    hide Ticket, InLine;
    var s' := Apply(s, Take(i));
    NextTicket(|s.taken|);
    LineTake(Line(s), s.given, s.pc, i);
    assert Line(s') == Line(s) + [i];
    assert s'.taken[..s.given] == s.taken[..s.given];
    if Held(s) {
      assert s'.taken[..s.given + 1] == s.taken[..s.given + 1];
    }
  }

  lemma EnterKeepsInv(s: State, i: nat)
    requires Inv(s) && Enabled(s, Enter(i)) && |s.pc| <= WRAP
    ensures Inv(Apply(s, Enter(i)))
  {
    hide Ticket, InLine;
    ServedIsOldest(s, i);
    LineEnter(Line(s), s.given, s.pc);
    var s' := Apply(s, Enter(i));
    assert Line(s') == Line(s);
    assert s'.entered == s.taken[..s.given + 1];
  }

  lemma GiveKeepsInv(s: State, i: nat)
    requires Inv(s) && Enabled(s, Give(i))
    ensures Inv(Apply(s, Give(i)))
  {
    var s' := Apply(s, Give(i));
    NextTicket(s.given);
    LineGive(Line(s), s.given, s.pc, i);
    assert Line(s') == Line(s)[1..];
    assert !Held(s');
  }

  lemma StepKeepsInv(s: State, step: Step)
    requires Inv(s) && Enabled(s, step) && |s.pc| <= WRAP
    ensures Inv(Apply(s, step)) && |Apply(s, step).pc| == |s.pc|
  {
    hide Inv;
    match step
    case Take(i) => TakeKeepsInv(s, i);
    case Enter(i) => EnterKeepsInv(s, i);
    case Give(i) => GiveKeepsInv(s, i);
  }

  lemma InvIsSafe(s: State)
    requires Inv(s)
    ensures MutualExclusion(s) && FirstComeFirstServed(s)
  {
    forall i | 0 <= i < |s.pc| && s.pc[i] == Holding
      ensures Line(s) != [] && i == Line(s)[0]
    {
      LineGive(Line(s), s.given, s.pc, i);
    }
  }

  lemma {:induction false} RunKeepsInv(s: State, steps: seq<Step>)
    requires Inv(s) && |s.pc| <= WRAP && CanRun(s, steps)
    ensures Inv(After(s, steps)) && |After(s, steps).pc| == |s.pc|
    decreases |steps|
  {
    if steps != [] {
      StepKeepsInv(s, steps[0]);
      RunKeepsInv(Apply(s, steps[0]), steps[1..]);
    }
  }

  /** With up to 2^32 threads every run is safe and fair, however often the counters wrap. */
  lemma LockIsSafe(n: nat, steps: seq<Step>)
    requires n <= WRAP && CanRun(Init(n), steps)
    ensures MutualExclusion(After(Init(n), steps)) && FirstComeFirstServed(After(Init(n), steps))
  {
    InitInv(n);
    RunKeepsInv(Init(n), steps);
    InvIsSafe(After(Init(n), steps));
  }

  /** A free lock with somebody waiting admits one thread, the one that has waited longest. */
  lemma FreeLockAdmitsOldest(s: State)
    requires Inv(s) && |s.pc| <= WRAP && Line(s) != [] && !Held(s)
    ensures forall i :: Enabled(s, Enter(i)) <==> i == Line(s)[0]
  {
    forall i | Enabled(s, Enter(i))
      ensures i == Line(s)[0]
    {
      ServedIsOldest(s, i);
    }
  }

  // ---------------------------------------------------------------------------------------------
  // More than 2^32 threads
  // ---------------------------------------------------------------------------------------------

  ghost function Takes(k: nat): seq<Step> {
    seq(k, i requires 0 <= i < k => Take(i))
  }

  /** The first `k` threads have each drawn a ticket. */
  ghost predicate Queued(s: State, n: nat, k: nat) {
    && |s.pc| == n && k <= n && s.tkt == k % WRAP && s.svc == 0
    && forall i :: 0 <= i < n ==> s.pc[i] == if i < k then Waiting(i % WRAP) else Idle
  }

  lemma {:induction false} RunSnoc(s: State, steps: seq<Step>, last: Step)
    requires CanRun(s, steps) && Enabled(After(s, steps), last)
    ensures CanRun(s, steps + [last]) && After(s, steps + [last]) == Apply(After(s, steps), last)
    decreases |steps|
  {
    if steps != [] {
      RunSnoc(Apply(s, steps[0]), steps[1..], last);
      assert (steps + [last])[1..] == steps[1..] + [last];
    } else {
      assert steps + [last] == [last];
    }
  }

  lemma {:induction false} TakesQueue(n: nat, k: nat)
    requires k <= n
    ensures CanRun(Init(n), Takes(k)) && Queued(After(Init(n), Takes(k)), n, k)
  {
    if k > 0 {
      TakesQueue(n, k - 1);
      assert Takes(k) == Takes(k - 1) + [Take(k - 1)];
      RunSnoc(Init(n), Takes(k - 1), Take(k - 1));
    }
  }

  /** The bound is exact: with one thread more, some run ends with two holders. */
  lemma TooManyThreads(n: nat) returns (steps: seq<Step>)
    requires n > WRAP
    ensures CanRun(Init(n), steps) && !MutualExclusion(After(Init(n), steps))
  {
    TakesQueue(n, WRAP + 1);
    var s0 := Takes(WRAP + 1);
    RunSnoc(Init(n), s0, Enter(0));
    var s1 := s0 + [Enter(0)];
    RunSnoc(Init(n), s1, Enter(WRAP));
    steps := s1 + [Enter(WRAP)];
    var s := After(Init(n), steps);
    assert s.pc[0] == Holding && s.pc[WRAP] == Holding;
  }

  /** Mutual exclusion holds in every run exactly if there are at most 2^32 threads. */
  lemma SafeIffFewThreads(n: nat)
    ensures (forall steps :: CanRun(Init(n), steps) ==> MutualExclusion(After(Init(n), steps))) <==> n <= WRAP
  {
    if n <= WRAP {
      forall steps | CanRun(Init(n), steps)
        ensures MutualExclusion(After(Init(n), steps))
      {
        LockIsSafe(n, steps);
      }
    } else {
      var steps := TooManyThreads(n);
    }
  }
}
