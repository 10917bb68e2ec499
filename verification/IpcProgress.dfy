/**
 The exchange of kernel/process/ipc.c delivers: a sender and then a reader that go on alone finish, and the
 message is the one that is copied out and whose length is returned.
*/
module IpcProgress {
  import opened Ipc
  import opened IpcLimits
  import opened Tickets

  /** Nobody is in a call, the write lock is free, and the next reader's ticket is the one after those served. */
  ghost predicate Quiet(s: State) {
    && (forall k :: 0 <= k < |s.pc| ==> s.pc[k] == Idle)
    && s.wTkt == s.wSvc && s.rTkt == (s.rSvc + 1) % WRAP
  }

  lemma InitQuiet(n: nat, size: nat, mem: Msg)
    ensures Quiet(Init(n, size, mem))
  {
  }

  /** In a run without empty messages that is so whenever nobody is in a call and all that was sent has been read. */
  lemma IdleIsQuiet(s: State)
    requires Inv(s) && |s.sent| == |s.received| && forall k :: 0 <= k < |s.pc| ==> s.pc[k] == Idle
    ensures Quiet(s)
  {
    NoLine(s.senders[|s.sent|..], s.pc, Sender);
    NoLine(s.readers[|s.received|..], s.pc, Reader);
    TicketSteps(|s.sent|);
  }

  lemma NoLine(line: seq<nat>, pc: seq<Pc>, role: Role)
    requires IsLine(line, pc, role) && role != Neither
    ensures line == [] || (line[0] < |pc| && pc[line[0]] != Idle)
  {
    if line != [] {
      assert line[0] in line;
    }
  }

  lemma TicketSteps(k: nat)
    ensures Ticket(k + 1) == (Ticket(k) + 1) % WRAP
  {
  }

  /** The sender copies what is left of its message. */
  lemma {:induction false} CopyIn(s0: State, s: State, lengths: iset<nat>, i: nat, msg: Msg, done: nat) returns (t: State)
    requires Reaches(s0, s, lengths) && i < |s.pc| && done <= |msg| <= |s.mem| && s.pc[i] == SCopy(msg, done)
    ensures Reaches(s0, t, lengths)
    ensures t == s.(mem := s.mem[..done] + msg[done..] + s.mem[|msg|..], pc := s.pc[i := SCopy(msg, |msg|)])
    decreases |msg| - done
  {
    hide Reaches;
    t := s;
    if done < |msg| {
      Then(s0, s, lengths, Go(i));
      var u := Apply(s, Go(i));
      t := CopyIn(s0, u, lengths, i, msg, done + 1);
      assert u.mem[..done + 1] + msg[done + 1..] == s.mem[..done] + msg[done..];
      assert u.mem[|msg|..] == s.mem[|msg|..];
    } else {
      assert s.mem[..done] + msg[done..] + s.mem[|msg|..] == s.mem;
    }
  }

  /** The reader copies what is left of the body. */
  lemma {:induction false} CopyRest(s0: State, s: State, lengths: iset<nat>, j: nat, got: Msg) returns (t: State)
    requires Reaches(s0, s, lengths) && j < |s.pc| && |got| <= s.size <= |s.mem| && got == s.mem[..|got|]
    requires s.pc[j] == RCopy(s.size, got)
    ensures Reaches(s0, t, lengths) && t == s.(pc := s.pc[j := RCopy(s.size, s.mem[..s.size])])
    decreases s.size - |got|
  {
    hide Reaches;
    t := s;
    if |got| < s.size {
      Then(s0, s, lengths, Go(j));
      var u := Apply(s, Go(j));
      assert got + [s.mem[|got|]] == s.mem[..|got| + 1];
      t := CopyRest(s0, u, lengths, j, got + [s.mem[|got|]]);
    }
  }

  /** A call to send, from the ticket to the end. */
  lemma SendAlone(s0: State, s: State, lengths: iset<nat>, i: nat, msg: Msg) returns (t: State)
    requires Reaches(s0, s, lengths) && i < |s.pc| && s.pc[i] == Idle && s.wTkt == s.wSvc
    requires |msg| in lengths && |msg| <= |s.mem|
    ensures Reaches(s0, t, lengths)
    ensures t == s.(wTkt := (s.wTkt + 1) % WRAP, rSvc := (s.rSvc + 1) % WRAP, size := |msg|, mem := msg + s.mem[|msg|..],
                    senders := s.senders + [i], queued := s.queued + [msg], sent := s.sent + [msg])
  {
    hide Reaches;
    Then(s0, s, lengths, Send(i, msg));
    t := Apply(s, Send(i, msg));
    Then(s0, t, lengths, Go(i));
    t := Apply(t, Go(i));
    t := CopyIn(s0, t, lengths, i, msg, 0);
    assert s.mem[..0] + msg[0..] + s.mem[|msg|..] == msg + s.mem[|msg|..];
    Then(s0, t, lengths, Go(i));
    t := Apply(t, Go(i));
    Then(s0, t, lengths, Go(i));
    t := Apply(t, Go(i));
    assert t.pc == s.pc;
  }

  /** A call to read, when a message is in the slot. */
  lemma ReadAlone(s0: State, s: State, lengths: iset<nat>, j: nat) returns (t: State)
    requires Reaches(s0, s, lengths) && j < |s.pc| && s.pc[j] == Idle && s.rTkt == s.rSvc && 0 < s.size <= |s.mem|
    ensures Reaches(s0, t, lengths)
    ensures var got := s.mem[..s.size];
            t == s.(rTkt := (s.rTkt + 1) % WRAP, wSvc := (s.wSvc + 1) % WRAP, readers := s.readers + [j],
                    received := s.received + [got], returned := s.returned + [(got, s.size)])
  {
    hide Reaches;
    Then(s0, s, lengths, Read(j));
    t := Apply(s, Read(j));
    Then(s0, t, lengths, Go(j));
    t := Apply(t, Go(j));
    Then(s0, t, lengths, Go(j));
    t := Apply(t, Go(j));
    Then(s0, t, lengths, Go(j));
    t := Apply(t, Go(j));
    t := CopyRest(s0, t, lengths, j, []);
    Then(s0, t, lengths, Go(j));
    t := Apply(t, Go(j));
    Then(s0, t, lengths, Go(j));
    t := Apply(t, Go(j));
    assert t.pc == s.pc;
  }

  /**
   From a quiet state, any message that fits and is not empty: its sender and then a reader, each going on
   alone, finish; the body copied out is the message, and its length is what is returned.
  */
  lemma Delivers(s0: State, s: State, lengths: iset<nat>, i: nat, j: nat, msg: Msg) returns (t: State)
    requires Reaches(s0, s, lengths) && Quiet(s) && i < |s.pc| && j < |s.pc|
    requires |msg| in lengths && 0 < |msg| <= |s.mem|
    ensures Reaches(s0, t, lengths) && Quiet(t) && |t.pc| == |s.pc| && |t.mem| == |s.mem|
    ensures t.sent == s.sent + [msg] && t.received == s.received + [msg] && t.returned == s.returned + [(msg, |msg|)]
  {
    hide Reaches;
    t := SendAlone(s0, s, lengths, i, msg);
    assert t.mem[..|msg|] == msg;
    t := ReadAlone(s0, t, lengths, j);
  }

  /** So any list of messages, from the start, is delivered in its order. */
  lemma {:induction false} DeliversAll(n: nat, size: nat, mem: Msg, lengths: iset<nat>, msgs: seq<Msg>) returns (t: State)
    requires n > 0 && forall m :: m in msgs ==> |m| in lengths && 0 < |m| <= |mem|
    ensures var s0 := Init(n, size, mem);
            Reaches(s0, t, lengths) && Quiet(t) && |t.pc| == n && |t.mem| == |mem| && t.received == msgs
    decreases |msgs|
  {
    hide Reaches, Quiet;
    var s0 := Init(n, size, mem);
    if msgs == [] {
      ReachesSelf(s0, lengths);
      InitQuiet(n, size, mem);
      t := s0;
    } else {
      var front, last := msgs[..|msgs| - 1], msgs[|msgs| - 1];
      assert msgs == front + [last];
      t := DeliversAll(n, size, mem, lengths, front);
      t := Delivers(s0, t, lengths, 0, n - 1, last);
    }
  }
}
