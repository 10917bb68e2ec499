/**
 Where the exchange of kernel/process/ipc.c stops being safe: empty messages, and the size that
 `do_read_message` reads again after it has given the slot away.
*/
module IpcLimits {
  import opened Ipc
  import opened Tickets

  // ---------------------------------------------------------------------------------------------
  // Building runs
  // ---------------------------------------------------------------------------------------------

  ghost predicate Reaches(s: State, t: State, lengths: iset<nat>) {
    exists steps :: CanRun(s, steps) && Lengths(steps, lengths) && After(s, steps) == t
  }

  lemma {:induction false} RunSnoc(s: State, steps: seq<Step>, last: Step)
    requires CanRun(s, steps) && Enabled(After(s, steps), last)
    ensures CanRun(s, steps + [last]) && After(s, steps + [last]) == Apply(After(s, steps), last)
    decreases |steps|
  {
    hide Enabled, Apply;
    if steps != [] {
      RunSnoc(Apply(s, steps[0]), steps[1..], last);
      assert (steps + [last])[1..] == steps[1..] + [last];
    } else {
      assert steps + [last] == [last];
    }
  }

  lemma ReachesSelf(s: State, lengths: iset<nat>)
    ensures Reaches(s, s, lengths)
  {
    assert CanRun(s, []) && Lengths([], lengths) && After(s, []) == s;
  }

  lemma Then(s: State, t: State, lengths: iset<nat>, step: Step)
    requires Reaches(s, t, lengths) && Enabled(t, step) && (step.Send? ==> |step.msg| in lengths)
    ensures Reaches(s, Apply(t, step), lengths)
  {
    hide Enabled, Apply;
    var steps :| CanRun(s, steps) && Lengths(steps, lengths) && After(s, steps) == t;
    RunSnoc(s, steps, step);
    assert Lengths(steps + [step], lengths);
  }

  // ---------------------------------------------------------------------------------------------
  // Empty messages
  // ---------------------------------------------------------------------------------------------

  /** One thread sends an empty message, another reads it and gives both locks; then both get in again. */
  lemma EmptyMessageBreaks(n: nat, size: nat, mem: Msg, lengths: iset<nat>) returns (s: State)
    requires n >= 2 && 0 in lengths
    ensures Reaches(Init(n, size, mem), s, lengths) && !Exclusive(s)
  {
    hide Reaches;
    var s0 := Init(n, size, mem);
    ReachesSelf(s0, lengths);
    s := s0;
    Then(s0, s, lengths, Send(0, [])); s := Apply(s, Send(0, []));
    Then(s0, s, lengths, Go(0)); s := Apply(s, Go(0));
    Then(s0, s, lengths, Go(0)); s := Apply(s, Go(0));
    Then(s0, s, lengths, Go(0)); s := Apply(s, Go(0));
    Then(s0, s, lengths, Read(1)); s := Apply(s, Read(1));
    Then(s0, s, lengths, Go(1)); s := Apply(s, Go(1));
    Then(s0, s, lengths, Go(1)); s := Apply(s, Go(1));
    Then(s0, s, lengths, Go(1)); s := Apply(s, Go(1));
    Then(s0, s, lengths, Go(1)); s := Apply(s, Go(1));
    Then(s0, s, lengths, Send(0, [])); s := Apply(s, Send(0, []));
    Then(s0, s, lengths, Go(0)); s := Apply(s, Go(0));
    Then(s0, s, lengths, Read(1)); s := Apply(s, Read(1));
    Then(s0, s, lengths, Go(1)); s := Apply(s, Go(1));
    assert UsesSlot(s.pc[0]) && UsesSlot(s.pc[1]);
  }

  /** The slot is used by one thread at a time in every run exactly if no message may be empty. */
  lemma ExclusiveIffNoEmpty(n: nat, size: nat, mem: Msg, lengths: iset<nat>)
    requires 2 <= n < WRAP
    ensures (forall s :: Reaches(Init(n, size, mem), s, lengths) ==> Exclusive(s)) <==> 0 !in lengths
  {
    hide Exclusive;
    if 0 in lengths {
      var s := EmptyMessageBreaks(n, size, mem, lengths);
    } else {
      forall s | Reaches(Init(n, size, mem), s, lengths)
        ensures Exclusive(s)
      {
        var steps :| CanRun(Init(n, size, mem), steps) && Lengths(steps, lengths) && After(Init(n, size, mem), steps) == s;
        ExchangeIsSafe(n, size, mem, steps, lengths);
      }
    }
  }

  // ---------------------------------------------------------------------------------------------
  // The value returned by do_read_message
  // ---------------------------------------------------------------------------------------------

  /** Every call so far returned the length of the body it copied out. */
  ghost predicate ReturnsLength(s: State) {
    forall r :: r in s.returned ==> r.1 == |r.0|
  }

  ghost predicate Returning(pc: seq<Pc>, started: bool, len: nat) {
    forall i :: 0 <= i < |pc| && pc[i].RReturn? ==> started && |pc[i].got| == len
  }

  lemma ReturningSet(pc: seq<Pc>, started: bool, len: nat, i: nat, c: Pc, started': bool)
    requires Returning(pc, started, len) && i < |pc| && (started ==> started')
    requires c.RReturn? ==> started' && |c.got| == len
    ensures Returning(pc[i := c], started', len)
  {
  }

  /** All lengths are `len`, and the size in the slot has not changed since the first message. */
  ghost predicate OneLength(s: State, len: nat) {
    && (forall m :: m in s.queued ==> |m| == len)
    && (s.sent != [] ==> s.size == len)
    && Returning(s.pc, s.sent != [], len)
    && ReturnsLength(s)
  }

  lemma StepKeepsOneLength(s: State, step: Step, len: nat)
    requires Inv(s) && |s.pc| < WRAP && Enabled(s, step) && (step.Send? ==> step.msg != [] && |step.msg| == len)
    requires OneLength(s, len)
    ensures OneLength(Apply(s, step), len)
  {
    hide Inv, Returning;
    var s' := Apply(s, step);
    if !step.Go? {
      ReturningSet(s.pc, s.sent != [], len, step.i, s'.pc[step.i], s.sent != []);
    } else if RoleOf(s.pc[step.i]) == Sender {
      SenderKeepsOneLength(s, step.i, len);
    } else if RoleOf(s.pc[step.i]) == Reader {
      ReaderKeepsOneLength(s, step.i, len);
    } else {
      ReturnKeepsOneLength(s, step.i, len);
    }
  }

  lemma ReturnKeepsOneLength(s: State, i: nat, len: nat)
    requires i < |s.pc| && s.pc[i].RReturn? && OneLength(s, len)
    ensures OneLength(Apply(s, Go(i)), len)
  {
    ReturningSet(s.pc, s.sent != [], len, i, Idle, s.sent != []);
  }

  lemma SenderKeepsOneLength(s: State, i: nat, len: nat)
    requires Inv(s) && |s.pc| < WRAP && Enabled(s, Go(i)) && RoleOf(s.pc[i]) == Sender && OneLength(s, len)
    ensures OneLength(Apply(s, Go(i)), len)
  {
    hide Inv, Returning;
    var s' := Apply(s, Go(i));
    SenderTurn(s, i);
    QueuedEnough(s);
    assert s.queued[|s.sent|] in s.queued;
    ReturningSet(s.pc, s.sent != [], len, i, s'.pc[i], s'.sent != []);
  }

  lemma ReaderKeepsOneLength(s: State, i: nat, len: nat)
    requires Inv(s) && |s.pc| < WRAP && Enabled(s, Go(i)) && RoleOf(s.pc[i]) == Reader && OneLength(s, len)
    ensures OneLength(Apply(s, Go(i)), len)
  {
    hide Inv, Returning;
    var s' := Apply(s, Go(i));
    ReaderTurn(s, i);
    UnreadIsQueued(s);
    ReturningSet(s.pc, s.sent != [], len, i, s'.pc[i], s'.sent != []);
  }

  lemma QueuedEnough(s: State)
    requires Inv(s)
    ensures |s.queued| == |s.senders|
  {
  }

  lemma UnreadIsQueued(s: State)
    requires Inv(s) && Full(s)
    ensures Unread(s) in s.queued
  {
    assert s.queued[|s.received|] == Unread(s);
  }

  lemma {:induction false} RunKeepsOneLength(s: State, steps: seq<Step>, lengths: iset<nat>, len: nat)
    requires Inv(s) && |s.pc| < WRAP && CanRun(s, steps) && Lengths(steps, lengths) && 0 !in lengths
    requires OneLength(s, len) && forall k :: k in lengths && k <= |s.mem| ==> k == len
    ensures ReturnsLength(After(s, steps))
    decreases |steps|
  {
    hide Inv, OneLength;
    if steps != [] {
      var step := steps[0];
      StepKeepsInv(s, step);
      StepKeepsOneLength(s, step, len);
      RunKeepsOneLength(Apply(s, step), steps[1..], lengths, len);
    } else {
      OneLengthReturns(s, len);
    }
  }

  lemma OneLengthReturns(s: State, len: nat)
    requires OneLength(s, len)
    ensures ReturnsLength(s)
  {
  }

  /** A sender in the slot can copy its message in and write the size. */
  lemma {:induction false} CopyIn(s0: State, s: State, lengths: iset<nat>, i: nat) returns (t: State)
    requires Reaches(s0, s, lengths) && i < |s.pc| && s.pc[i].SCopy? && s.pc[i].done <= |s.pc[i].msg| <= |s.mem|
    ensures Reaches(s0, t, lengths) && |t.mem| == |s.mem|
    ensures t == s.(mem := t.mem, size := |s.pc[i].msg|, pc := s.pc[i := SGive(s.pc[i].msg)])
    decreases |s.pc[i].msg| - s.pc[i].done
  {
    hide Reaches;
    Then(s0, s, lengths, Go(i));
    t := Apply(s, Go(i));
    if s.pc[i].done < |s.pc[i].msg| {
      t := CopyIn(s0, t, lengths, i);
    }
  }

  /** A reader in the slot can copy the message out and give the slot back. */
  lemma {:induction false} CopyOut(s0: State, s: State, lengths: iset<nat>, i: nat) returns (t: State)
    requires Reaches(s0, s, lengths) && i < |s.pc| && s.pc[i].RCopy? && |s.pc[i].got| <= s.pc[i].len <= |s.mem|
    ensures Reaches(s0, t, lengths) && i < |t.pc| && t.pc[i].RReturn? && |t.pc[i].got| == s.pc[i].len
    ensures t == s.(wSvc := (s.wSvc + 1) % WRAP, received := t.received, pc := s.pc[i := t.pc[i]])
    decreases s.pc[i].len - |s.pc[i].got|
  {
    hide Reaches;
    Then(s0, s, lengths, Go(i));
    t := Apply(s, Go(i));
    if |s.pc[i].got| < s.pc[i].len {
      t := CopyOut(s0, t, lengths, i);
    }
  }

  /** Thread 0 sends; the lock must be free for it. */
  lemma SendUpToGive(s0: State, s: State, lengths: iset<nat>, msg: Msg) returns (t: State)
    requires Reaches(s0, s, lengths) && |s.pc| >= 2 && s.pc[0] == Idle && s.wTkt == s.wSvc
    requires |msg| in lengths && |msg| <= |s.mem|
    ensures Reaches(s0, t, lengths) && |t.mem| == |s.mem|
    ensures t == s.(mem := t.mem, size := |msg|, wTkt := (s.wTkt + 1) % WRAP, pc := s.pc[0 := SGive(msg)],
                    senders := t.senders, queued := t.queued)
  {
    hide Reaches;
    Then(s0, s, lengths, Send(0, msg)); t := Apply(s, Send(0, msg));
    Then(s0, t, lengths, Go(0)); t := Apply(t, Go(0));
    t := CopyIn(s0, t, lengths, 0);
    assert t.pc == s.pc[0 := SGive(msg)];
  }

  /** A second message of another length, written before the reader looks at the size again. */
  lemma TwoLengthsBreak(n: nat, size: nat, mem: Msg, lengths: iset<nat>, a: nat, b: nat) returns (s: State)
    requires n >= 2 && a in lengths && b in lengths && a <= |mem| && b <= |mem| && a != b && a > 0
    ensures Reaches(Init(n, size, mem), s, lengths) && !ReturnsLength(s)
  {
    hide Reaches;
    var s0 := Init(n, size, mem);
    ReachesSelf(s0, lengths);
    s := SendUpToGive(s0, s0, lengths, seq(a, _ => 0));
    Then(s0, s, lengths, Go(0)); s := Apply(s, Go(0));
    Then(s0, s, lengths, Read(1)); s := Apply(s, Read(1));
    Then(s0, s, lengths, Go(1)); s := Apply(s, Go(1));
    Then(s0, s, lengths, Go(1)); s := Apply(s, Go(1));
    Then(s0, s, lengths, Go(1)); s := Apply(s, Go(1));
    s := CopyOut(s0, s, lengths, 1);
    s := SendUpToGive(s0, s, lengths, seq(b, _ => 0));
    var got := s.pc[1].got;
    Then(s0, s, lengths, Go(1)); s := Apply(s, Go(1));
    assert (got, b) in s.returned;
  }

  /**
   `do_read_message` returns the length of the body it copied out in every run exactly if all messages
   that fit the slot have the same length.
  */
  lemma ReturnsLengthIffOneLength(n: nat, size: nat, mem: Msg, lengths: iset<nat>)
    requires 2 <= n < WRAP && 0 !in lengths
    ensures (forall s :: Reaches(Init(n, size, mem), s, lengths) ==> ReturnsLength(s))
       <==> (forall a, b :: a in lengths && b in lengths && a <= |mem| && b <= |mem| ==> a == b)
  {
    hide ReturnsLength;
    var s0 := Init(n, size, mem);
    if a, b :| a in lengths && b in lengths && a <= |mem| && b <= |mem| && a != b {
      var s := TwoLengthsBreak(n, size, mem, lengths, a, b);
    } else {
      var len := if exists k :: k in lengths && k <= |mem| then var k :| k in lengths && k <= |mem|; k else 0;
      InitInv(n, size, mem);
      InitOneLength(n, size, mem, len);
      forall s | Reaches(s0, s, lengths)
        ensures ReturnsLength(s)
      {
        var steps :| CanRun(s0, steps) && Lengths(steps, lengths) && After(s0, steps) == s;
        RunKeepsOneLength(s0, steps, lengths, len);
      }
    }
  }

  lemma InitOneLength(n: nat, size: nat, mem: Msg, len: nat)
    ensures OneLength(Init(n, size, mem), len)
  {
  }
}
