/**
 The one-slot message exchange of kernel/process/ipc.c as a state machine over its memory steps.

 Two ticket locks hand the slot back and forth: a sender takes the write lock and gives the read
 lock, a reader does the opposite.  kernel/process/process.c takes the read lock once when it creates
 the process, so ticket 0 of that lock is never served.  Bodies are copied byte by byte.

 `queued`, `senders` and `readers` record messages and threads in the order of their tickets, `sent`
 and `received` the bodies copied in and out, `returned` what `do_read_message` returned for each
 body; the code does not have them.
*/
module Ipc {
  import opened Bytes
  import opened DistinctSeq
  import opened Tickets

  type Msg = seq<byte>

  datatype Pc =
    | Idle
    | SWait(ticket: nat, msg: Msg) | SCopy(msg: Msg, done: nat) | SGive(msg: Msg)
    | RWait(ticket: nat) | RTest | RLen | RCopy(len: nat, got: Msg) | RReturn(got: Msg)
    | RGiveRead | RGiveWrite

  datatype State = State(
    wTkt: nat, wSvc: nat, rTkt: nat, rSvc: nat, size: nat, mem: Msg, pc: seq<Pc>,
    senders: seq<nat>, queued: seq<Msg>, readers: seq<nat>,
    sent: seq<Msg>, received: seq<Msg>, returned: seq<(Msg, nat)>)

  /** A thread calls `do_send_message` or `do_read_message`, or does its next memory access. */
  datatype Step = Send(i: nat, msg: Msg) | Read(i: nat) | Go(i: nat)

  ghost function Init(n: nat, size: nat, mem: Msg): State {
    State(0, 0, 1, 0, size, mem, seq(n, _ => Idle), [], [], [], [], [], [])
  }

  ghost predicate Enabled(s: State, step: Step) {
    step.i < |s.pc| &&
    var c := s.pc[step.i];
    match step
    case Send(_, msg) => c == Idle && |msg| <= |s.mem|
    case Read(_) => c == Idle
    case Go(_) =>
      match c
      case Idle => false
      case SWait(t, _) => s.wSvc == t
      case RWait(t) => s.rSvc == t
      case SCopy(msg, done) => done < |msg| ==> done < |s.mem|
      case RCopy(len, got) => |got| < len ==> |got| < |s.mem|
      case _ => true
  }

  ghost function Apply(s: State, step: Step): State
    requires Enabled(s, step)
  {
    match step
    case Send(i, msg) =>
      s.(wTkt := (s.wTkt + 1) % WRAP, pc := s.pc[i := SWait(s.wTkt, msg)],
         senders := s.senders + [i], queued := s.queued + [msg])
    case Read(i) =>
      s.(rTkt := (s.rTkt + 1) % WRAP, pc := s.pc[i := RWait(s.rTkt)], readers := s.readers + [i])
    case Go(i) => Next(s, i)
  }

  ghost function Next(s: State, i: nat): State
    requires Enabled(s, Go(i))
  {
    match s.pc[i]
    case SWait(_, msg) => s.(pc := s.pc[i := SCopy(msg, 0)])
    case SCopy(msg, done) =>
      if done < |msg| then s.(mem := s.mem[done := msg[done]], pc := s.pc[i := SCopy(msg, done + 1)])
      else s.(size := |msg|, pc := s.pc[i := SGive(msg)])
    case SGive(msg) => s.(rSvc := (s.rSvc + 1) % WRAP, pc := s.pc[i := Idle], sent := s.sent + [msg])
    case RWait(_) => s.(pc := s.pc[i := RTest])
    case RTest => s.(pc := s.pc[i := if s.size == 0 then RGiveRead else RLen])
    case RLen => s.(pc := s.pc[i := RCopy(s.size, [])])
    case RCopy(len, got) =>
      if |got| < len then s.(pc := s.pc[i := RCopy(len, got + [s.mem[|got|]])])
      else s.(wSvc := (s.wSvc + 1) % WRAP, pc := s.pc[i := RReturn(got)], received := s.received + [got])
    case RReturn(got) => s.(pc := s.pc[i := Idle], returned := s.returned + [(got, s.size)])
    case RGiveRead => s.(rSvc := (s.rSvc + 1) % WRAP, pc := s.pc[i := RGiveWrite])
    case RGiveWrite => s.(wSvc := (s.wSvc + 1) % WRAP, pc := s.pc[i := Idle])
  }

  ghost predicate CanRun(s: State, steps: seq<Step>)
    decreases |steps|
  {
    steps != [] ==> Enabled(s, steps[0]) && CanRun(Apply(s, steps[0]), steps[1..])
  }

  ghost function After(s: State, steps: seq<Step>): State
    requires CanRun(s, steps)
    decreases |steps|
  {
    if steps == [] then s else After(Apply(s, steps[0]), steps[1..])
  }

  /** Every message sent in the run has a length in `lengths`. */
  ghost predicate Lengths(steps: seq<Step>, lengths: iset<nat>) {
    forall step :: step in steps && step.Send? ==> |step.msg| in lengths
  }

  ghost predicate UsesSlot(c: Pc) {
    c.SCopy? || c.SGive? || c.RTest? || c.RLen? || c.RCopy?
  }

  /** At most one thread is reading or writing the slot. */
  ghost predicate Exclusive(s: State) {
    forall i, j :: 0 <= i < |s.pc| && 0 <= j < |s.pc| && UsesSlot(s.pc[i]) && UsesSlot(s.pc[j]) ==> i == j
  }

  /**
   The k-th body copied out is the k-th body copied in is the message of the k-th sender, and no
   body is copied in before the one before it was copied out.
  */
  ghost predicate InOrder(s: State) {
    s.received <= s.sent <= s.queued && |s.sent| <= |s.received| + 1
  }

  // ---------------------------------------------------------------------------------------------
  // The invariant, as long as no message is empty
  // ---------------------------------------------------------------------------------------------

  datatype Role = Sender | Reader | Neither

  ghost function RoleOf(c: Pc): Role {
    if c.SWait? || c.SCopy? || c.SGive? then Sender
    else if c.RWait? || c.RTest? || c.RLen? || c.RCopy? || c.RGiveRead? || c.RGiveWrite? then Reader
    else Neither
  }

  /** `line` lists the threads of that role, each once. */
  ghost predicate IsLine(line: seq<nat>, pc: seq<Pc>, role: Role) {
    Distinct(line) && forall i: nat :: i in line <==> i < |pc| && RoleOf(pc[i]) == role
  }

  /** The sender whose turn it is, somewhere between entering and giving the slot to the readers. */
  ghost predicate Sending(c: Pc, msg: Msg, size: nat, mem: Msg) {
    && |msg| <= |mem|
    && ((c.SCopy? && c.msg == msg && c.done <= |msg| && mem[..c.done] == msg[..c.done])
        || (c == SGive(msg) && size == |msg| && mem[..|msg|] == msg))
  }

  ghost predicate Reading(c: Pc, msg: Msg) {
    c == RTest || c == RLen || (c.RCopy? && c.len == |msg| && c.got <= msg)
  }

  ghost predicate Bounded(msgs: seq<Msg>, cap: nat) {
    forall m :: m in msgs ==> 0 < |m| <= cap
  }

  ghost predicate Counters(s: State) {
    && s.wTkt == Ticket(|s.senders|) && s.wSvc == Ticket(|s.received|)
    && s.rTkt == Ticket(|s.readers| + 1) && s.rSvc == Ticket(|s.sent|)
    && |s.queued| == |s.senders|
  }

  /**
   The senders in `line` have the tickets from `base` on and send `msgs`; if the slot is free (`turn`)
   the first of them may be using it.
  */
  ghost predicate SendersOk(line: seq<nat>, pc: seq<Pc>, base: nat, msgs: seq<Msg>, turn: bool, size: nat, mem: Msg) {
    && IsLine(line, pc, Sender) && |msgs| == |line|
    && forall p :: 0 <= p < |line| && line[p] < |pc| ==>
         pc[line[p]] == SWait(Ticket(base + p), msgs[p])
         || (p == 0 && turn && Sending(pc[line[p]], msgs[p], size, mem))
  }

  /**
   The readers in `line` have the tickets from `base + 1` on; if `next` is in the slot to be read
   (`turn`) the first of them may be reading it.
  */
  ghost predicate ReadersOk(line: seq<nat>, pc: seq<Pc>, base: nat, turn: bool, next: Msg) {
    && IsLine(line, pc, Reader)
    && forall p :: 0 <= p < |line| && line[p] < |pc| ==>
         pc[line[p]] == RWait(Ticket(base + 1 + p)) || (p == 0 && turn && Reading(pc[line[p]], next))
  }

  ghost predicate Full(s: State) {
    |s.received| < |s.sent|
  }

  ghost function Unread(s: State): Msg {
    if Full(s) then s.sent[|s.received|] else []
  }

  /** A body that waits to be read is in the slot. */
  ghost predicate SlotOk(s: State) {
    Full(s) ==> s.size == |Unread(s)| && |Unread(s)| <= |s.mem| && s.mem[..|Unread(s)|] == Unread(s)
  }

  ghost predicate SendLine(s: State) {
    |s.sent| <= |s.senders| && |s.sent| <= |s.queued|
    && SendersOk(s.senders[|s.sent|..], s.pc, |s.sent|, s.queued[|s.sent|..], !Full(s), s.size, s.mem)
  }

  ghost predicate ReadLine(s: State) {
    |s.received| <= |s.readers|
    && ReadersOk(s.readers[|s.received|..], s.pc, |s.received|, Full(s), Unread(s))
  }

  ghost predicate Inv(s: State) {
    Counters(s) && InOrder(s) && Bounded(s.queued, |s.mem|) && SendLine(s) && ReadLine(s) && SlotOk(s)
  }

  // ---------------------------------------------------------------------------------------------
  // Lines of waiting threads
  // ---------------------------------------------------------------------------------------------

  lemma LineFits(line: seq<nat>, pc: seq<Pc>, role: Role)
    requires IsLine(line, pc, role)
    ensures |line| <= |pc|
  {
    assert forall p :: 0 <= p < |line| ==> line[p] in line;
    Pigeonhole(line, |pc|);
  }

  lemma LineKeeps(line: seq<nat>, pc: seq<Pc>, role: Role, i: nat, c: Pc)
    requires IsLine(line, pc, role) && i < |pc| && (RoleOf(pc[i]) == role <==> RoleOf(c) == role)
    ensures IsLine(line, pc[i := c], role)
  {
  }

  lemma LineGrows(line: seq<nat>, pc: seq<Pc>, role: Role, i: nat, c: Pc)
    requires IsLine(line, pc, role) && i < |pc| && RoleOf(pc[i]) != role && RoleOf(c) == role
    ensures IsLine(line + [i], pc[i := c], role)
  {
    hide RoleOf;
    assert i !in line;
  }

  lemma LineShrinks(line: seq<nat>, pc: seq<Pc>, role: Role, i: nat, c: Pc)
    requires IsLine(line, pc, role) && line != [] && line[0] == i < |pc| && RoleOf(c) != role
    ensures IsLine(line[1..], pc[i := c], role)
  {
    hide RoleOf;
    var rest, pc' := line[1..], pc[i := c];
    assert line == [i] + rest;
    assert forall p :: 0 <= p < |rest| ==> rest[p] == line[p + 1] && rest[p] != i;
    forall j: nat
      ensures j in rest <==> j < |pc'| && RoleOf(pc'[j]) == role
    {
      assert j in line <==> j == i || j in rest;
    }
  }

  // ---------------------------------------------------------------------------------------------
  // The senders
  // ---------------------------------------------------------------------------------------------

  lemma SenderIn(line: seq<nat>, pc: seq<Pc>, base: nat, msgs: seq<Msg>, turn: bool, size: nat, mem: Msg, i: nat)
      returns (p: nat)
    requires SendersOk(line, pc, base, msgs, turn, size, mem) && i < |pc| && RoleOf(pc[i]) == Sender
    ensures p < |line| && line[p] == i && |line| <= |pc|
    ensures pc[i] == SWait(Ticket(base + p), msgs[p]) || (p == 0 && turn && Sending(pc[i], msgs[0], size, mem))
  {
    hide Sending, Ticket;
    LineFits(line, pc, Sender);
    p :| 0 <= p < |line| && line[p] == i;
  }

  lemma SenderGoesOn(line: seq<nat>, pc: seq<Pc>, base: nat, msgs: seq<Msg>, size: nat, mem: Msg,
                     c: Pc, size': nat, mem': Msg)
    requires SendersOk(line, pc, base, msgs, true, size, mem) && line != [] && line[0] < |pc|
    requires Sending(c, msgs[0], size', mem')
    ensures SendersOk(line, pc[line[0] := c], base, msgs, true, size', mem')
  {
    hide Ticket, IsLine, Sending;
    var i := line[0];
    assert RoleOf(pc[i]) == Sender by { SenderRole(line, pc, i); }
    assert RoleOf(c) == Sender by { SendingRole(c, msgs[0], size', mem'); }
    LineKeeps(line, pc, Sender, i, c);
    FirstOnly(line, pc, Sender);
  }

  lemma SendingRole(c: Pc, msg: Msg, size: nat, mem: Msg)
    requires Sending(c, msg, size, mem)
    ensures RoleOf(c) == Sender && (c.SCopy? || c.SGive?)
  {
  }

  lemma SenderRole(line: seq<nat>, pc: seq<Pc>, i: nat)
    requires IsLine(line, pc, Sender) && line != [] && line[0] == i
    ensures i < |pc| && RoleOf(pc[i]) == Sender
  {
    assert i in line;
  }

  lemma FirstOnly(line: seq<nat>, pc: seq<Pc>, role: Role)
    requires IsLine(line, pc, role)
    ensures forall p :: 0 < p < |line| ==> line[p] != line[0]
  {
  }

  lemma OtherThread(line: seq<nat>, pc: seq<Pc>, role: Role, i: nat)
    requires IsLine(line, pc, role) && i < |pc| && RoleOf(pc[i]) != role
    ensures forall p :: 0 <= p < |line| ==> line[p] != i
  {
    assert i !in line;
  }

  /** A step of a thread that is not a sender; a full slot may also become free. */
  lemma SendersStay(line: seq<nat>, pc: seq<Pc>, base: nat, msgs: seq<Msg>, turn: bool, size: nat, mem: Msg,
                    i: nat, c: Pc, turn': bool)
    requires SendersOk(line, pc, base, msgs, turn, size, mem) && (turn ==> turn')
    requires i < |pc| && RoleOf(pc[i]) != Sender && RoleOf(c) != Sender
    ensures SendersOk(line, pc[i := c], base, msgs, turn', size, mem)
  {
    hide Ticket, IsLine, Sending, RoleOf;
    LineKeeps(line, pc, Sender, i, c);
    OtherThread(line, pc, Sender, i);
  }

  lemma SenderJoins(line: seq<nat>, pc: seq<Pc>, base: nat, msgs: seq<Msg>, turn: bool, size: nat, mem: Msg,
                    i: nat, msg: Msg)
    requires SendersOk(line, pc, base, msgs, turn, size, mem) && i < |pc| && RoleOf(pc[i]) != Sender
    ensures SendersOk(line + [i], pc[i := SWait(Ticket(base + |line|), msg)], base, msgs + [msg], turn, size, mem)
  {
    hide Ticket, IsLine, Sending;
    LineGrows(line, pc, Sender, i, SWait(Ticket(base + |line|), msg));
    OtherThread(line, pc, Sender, i);
  }

  lemma SenderLeaves(line: seq<nat>, pc: seq<Pc>, base: nat, msgs: seq<Msg>, turn: bool, size: nat, mem: Msg, c: Pc)
    requires SendersOk(line, pc, base, msgs, turn, size, mem) && line != [] && line[0] < |pc| && RoleOf(c) != Sender
    ensures SendersOk(line[1..], pc[line[0] := c], base + 1, msgs[1..], false, size, mem)
  {
    hide Ticket, IsLine, Sending, RoleOf;
    LineShrinks(line, pc, Sender, line[0], c);
    FirstOnly(line, pc, Sender);
    var rest, pc' := line[1..], pc[line[0] := c];
    forall p | 0 <= p < |rest| && rest[p] < |pc'|
      ensures pc'[rest[p]] == SWait(Ticket(base + 1 + p), msgs[1..][p])
    {
      assert rest[p] == line[p + 1];
      assert base + (p + 1) == base + 1 + p;
    }
  }

  // ---------------------------------------------------------------------------------------------
  // The readers
  // ---------------------------------------------------------------------------------------------

  lemma ReaderIn(line: seq<nat>, pc: seq<Pc>, base: nat, turn: bool, next: Msg, i: nat) returns (p: nat)
    requires ReadersOk(line, pc, base, turn, next) && i < |pc| && RoleOf(pc[i]) == Reader
    ensures p < |line| && line[p] == i && |line| <= |pc|
    ensures pc[i] == RWait(Ticket(base + 1 + p)) || (p == 0 && turn && Reading(pc[i], next))
  {
    hide Reading, Ticket;
    LineFits(line, pc, Reader);
    p :| 0 <= p < |line| && line[p] == i;
  }

  lemma ReaderGoesOn(line: seq<nat>, pc: seq<Pc>, base: nat, next: Msg, c: Pc)
    requires ReadersOk(line, pc, base, true, next) && line != [] && line[0] < |pc| && Reading(c, next)
    ensures ReadersOk(line, pc[line[0] := c], base, true, next)
  {
    hide Ticket, IsLine;
    assert RoleOf(pc[line[0]]) == Reader;
    LineKeeps(line, pc, Reader, line[0], c);
    FirstOnly(line, pc, Reader);
  }

  /** A step of a thread that is not a reader; it may also put a message into an empty slot. */
  lemma ReadersStay(line: seq<nat>, pc: seq<Pc>, base: nat, turn: bool, next: Msg, i: nat, c: Pc,
                    turn': bool, next': Msg)
    requires ReadersOk(line, pc, base, turn, next) && (turn ==> turn' && next' == next)
    requires i < |pc| && RoleOf(pc[i]) != Reader && RoleOf(c) != Reader
    ensures ReadersOk(line, pc[i := c], base, turn', next')
  {
    hide Ticket, IsLine, Reading, RoleOf;
    LineKeeps(line, pc, Reader, i, c);
    OtherThread(line, pc, Reader, i);
  }

  lemma ReaderJoins(line: seq<nat>, pc: seq<Pc>, base: nat, turn: bool, next: Msg, i: nat)
    requires ReadersOk(line, pc, base, turn, next) && i < |pc| && RoleOf(pc[i]) != Reader
    ensures ReadersOk(line + [i], pc[i := RWait(Ticket(base + 1 + |line|))], base, turn, next)
  {
    hide Ticket, IsLine, Reading;
    LineGrows(line, pc, Reader, i, RWait(Ticket(base + 1 + |line|)));
    OtherThread(line, pc, Reader, i);
  }

  lemma ReaderLeaves(line: seq<nat>, pc: seq<Pc>, base: nat, turn: bool, next: Msg, c: Pc)
    requires ReadersOk(line, pc, base, turn, next) && line != [] && line[0] < |pc| && RoleOf(c) != Reader
    ensures ReadersOk(line[1..], pc[line[0] := c], base + 1, false, [])
  {
    hide Ticket, IsLine, Reading, RoleOf;
    LineShrinks(line, pc, Reader, line[0], c);
    FirstOnly(line, pc, Reader);
    var rest, pc' := line[1..], pc[line[0] := c];
    forall p | 0 <= p < |rest| && rest[p] < |pc'|
      ensures pc'[rest[p]] == RWait(Ticket(base + 1 + 1 + p))
    {
      assert rest[p] == line[p + 1];
      assert base + 1 + (p + 1) == base + 1 + 1 + p;
    }
  }

  // ---------------------------------------------------------------------------------------------
  // Every step keeps the invariant
  // ---------------------------------------------------------------------------------------------

  /** Only the first sender is ever served or in the slot, and only while the slot is free. */
  lemma SenderTurn(s: State, i: nat)
    requires Inv(s) && |s.pc| < WRAP && Enabled(s, Go(i)) && RoleOf(s.pc[i]) == Sender
    ensures |s.sent| < |s.senders| && s.senders[|s.sent|] == i && !Full(s)
    ensures s.pc[i] == SWait(Ticket(|s.sent|), s.queued[|s.sent|]) || Sending(s.pc[i], s.queued[|s.sent|], s.size, s.mem)
  {
    hide Ticket, SendersOk, ReadersOk, Sending;
    var line := s.senders[|s.sent|..];
    var p := SenderIn(line, s.pc, |s.sent|, s.queued[|s.sent|..], !Full(s), s.size, s.mem, i);
    if s.pc[i] == SWait(Ticket(|s.sent| + p), s.queued[|s.sent|..][p]) {
      SameTicket(|s.received|, |s.sent| + p);
    }
  }

  /** Only the first reader is ever served or in the slot, and only while the slot is full. */
  lemma ReaderTurn(s: State, i: nat)
    requires Inv(s) && |s.pc| < WRAP && Enabled(s, Go(i)) && RoleOf(s.pc[i]) == Reader
    ensures |s.received| < |s.readers| && s.readers[|s.received|] == i && Full(s)
    ensures s.pc[i].RWait? || Reading(s.pc[i], Unread(s))
  {
    hide Ticket, SendersOk, ReadersOk, Reading;
    var line := s.readers[|s.received|..];
    var p := ReaderIn(line, s.pc, |s.received|, Full(s), Unread(s), i);
    if s.pc[i] == RWait(Ticket(|s.received| + 1 + p)) {
      SameTicket(|s.sent|, |s.received| + 1 + p);
    }
  }

  lemma SendKeepsInv(s: State, i: nat, msg: Msg)
    requires Inv(s) && Enabled(s, Send(i, msg)) && msg != []
    ensures Inv(Apply(s, Send(i, msg)))
  {
    hide Ticket, SendersOk, ReadersOk;
    var s' := Apply(s, Send(i, msg));
    NextTicket(|s.senders|);
    var line, msgs := s.senders[|s.sent|..], s.queued[|s.sent|..];
    SenderJoins(line, s.pc, |s.sent|, msgs, !Full(s), s.size, s.mem, i, msg);
    ReadersStay(s.readers[|s.received|..], s.pc, |s.received|, Full(s), Unread(s), i, s'.pc[i], Full(s), Unread(s));
    assert s'.senders[|s.sent|..] == line + [i] && s'.queued[|s.sent|..] == msgs + [msg];
    assert s.queued <= s'.queued;
  }

  lemma ReadKeepsInv(s: State, i: nat)
    requires Inv(s) && Enabled(s, Read(i))
    ensures Inv(Apply(s, Read(i)))
  {
    hide Ticket, SendersOk, ReadersOk, Bounded;
    var s' := Apply(s, Read(i));
    NextTicket(|s.readers| + 1);
    var line := s.readers[|s.received|..];
    ReaderJoins(line, s.pc, |s.received|, Full(s), Unread(s), i);
    SendersStay(s.senders[|s.sent|..], s.pc, |s.sent|, s.queued[|s.sent|..], !Full(s), s.size, s.mem, i, s'.pc[i], !Full(s));
    assert s'.readers[|s.received|..] == line + [i];
  }

  /** Entering the slot, copying in, writing the size. */
  lemma FillKeepsInv(s: State, i: nat)
    requires Inv(s) && |s.pc| < WRAP && Enabled(s, Go(i)) && (s.pc[i].SWait? || s.pc[i].SCopy?)
    ensures Inv(Apply(s, Go(i)))
  {
    hide Ticket, SendersOk, ReadersOk;
    SenderTurn(s, i);
    var s' := Apply(s, Go(i));
    var line, msgs := s.senders[|s.sent|..], s.queued[|s.sent|..];
    assert msgs[0] == s.queued[|s.sent|] && line[0] == i;
    assert msgs[0] in s.queued;
    SenderGoesOn(line, s.pc, |s.sent|, msgs, s.size, s.mem, s'.pc[i], s'.size, s'.mem);
    ReadersStay(s.readers[|s.received|..], s.pc, |s.received|, Full(s), Unread(s), i, s'.pc[i], Full(s), Unread(s));
  }

  /** Giving the slot to the readers. */
  lemma PutKeepsInv(s: State, i: nat)
    requires Inv(s) && |s.pc| < WRAP && Enabled(s, Go(i)) && s.pc[i].SGive?
    ensures Inv(Apply(s, Go(i)))
  {
    hide Ticket, SendersOk, ReadersOk, Bounded;
    SenderTurn(s, i);
    NextTicket(|s.sent|);
    var s' := Apply(s, Go(i));
    var line, msgs := s.senders[|s.sent|..], s.queued[|s.sent|..];
    SenderLeaves(line, s.pc, |s.sent|, msgs, true, s.size, s.mem, Idle);
    assert s'.senders[|s'.sent|..] == line[1..] && s'.queued[|s'.sent|..] == msgs[1..];
    assert s.sent == s.received;
    ReadersStay(s.readers[|s.received|..], s.pc, |s.received|, false, [], i, Idle, true, s.queued[|s.sent|]);
    assert Unread(s') == s.queued[|s.sent|];
  }

  /** Entering the slot, looking at the size, copying out. */
  lemma DrainKeepsInv(s: State, i: nat)
    requires Inv(s) && |s.pc| < WRAP && Enabled(s, Go(i)) && RoleOf(s.pc[i]) == Reader
    requires s.pc[i].RCopy? ==> |s.pc[i].got| < s.pc[i].len
    ensures Inv(Apply(s, Go(i)))
  {
    hide Ticket, SendersOk, ReadersOk;
    ReaderTurn(s, i);
    var s' := Apply(s, Go(i));
    var line := s.readers[|s.received|..];
    assert line[0] == i;
    assert Unread(s) in s.queued by { assert s.queued[|s.received|] == Unread(s); }
    if s.pc[i].RCopy? {
      var k := |s.pc[i].got|;
      assert s.mem[..|Unread(s)|][k] == Unread(s)[k];
    }
    assert Reading(s'.pc[i], Unread(s));
    ReaderGoesOn(line, s.pc, |s.received|, Unread(s), s'.pc[i]);
    SendersStay(s.senders[|s.sent|..], s.pc, |s.sent|, s.queued[|s.sent|..], !Full(s), s.size, s.mem, i, s'.pc[i], !Full(s));
  }

  /** Giving the slot back to the senders. */
  lemma GetKeepsInv(s: State, i: nat)
    requires Inv(s) && |s.pc| < WRAP && Enabled(s, Go(i)) && s.pc[i].RCopy? && |s.pc[i].got| >= s.pc[i].len
    ensures Inv(Apply(s, Go(i)))
  {
    hide Ticket, SendersOk, ReadersOk, Bounded;
    ReaderTurn(s, i);
    NextTicket(|s.received|);
    var s' := Apply(s, Go(i));
    var line := s.readers[|s.received|..];
    assert s.pc[i].got == Unread(s) && s'.received == s.sent;
    ReaderLeaves(line, s.pc, |s.received|, true, Unread(s), s'.pc[i]);
    assert s'.readers[|s'.received|..] == line[1..];
    SendersStay(s.senders[|s.sent|..], s.pc, |s.sent|, s.queued[|s.sent|..], false, s.size, s.mem, i, s'.pc[i], true);
  }

  /** Reading the size again to return it. */
  lemma ReturnKeepsInv(s: State, i: nat)
    requires Inv(s) && Enabled(s, Go(i)) && s.pc[i].RReturn?
    ensures Inv(Apply(s, Go(i)))
  {
    hide Ticket, SendersOk, ReadersOk, Bounded;
    SendersStay(s.senders[|s.sent|..], s.pc, |s.sent|, s.queued[|s.sent|..], !Full(s), s.size, s.mem, i, Idle, !Full(s));
    ReadersStay(s.readers[|s.received|..], s.pc, |s.received|, Full(s), Unread(s), i, Idle, Full(s), Unread(s));
  }

  lemma StepKeepsInv(s: State, step: Step)
    requires Inv(s) && |s.pc| < WRAP && Enabled(s, step) && (step.Send? ==> step.msg != [])
    ensures Inv(Apply(s, step)) && |Apply(s, step).pc| == |s.pc|
  {
    hide Inv;
    match step
    case Send(i, msg) => SendKeepsInv(s, i, msg);
    case Read(i) => ReadKeepsInv(s, i);
    case Go(i) =>
      if s.pc[i].SWait? || s.pc[i].SCopy? {
        FillKeepsInv(s, i);
      } else if s.pc[i].SGive? {
        PutKeepsInv(s, i);
      } else if s.pc[i].RReturn? {
        ReturnKeepsInv(s, i);
      } else if s.pc[i].RCopy? && |s.pc[i].got| >= s.pc[i].len {
        GetKeepsInv(s, i);
      } else {
        DrainKeepsInv(s, i);
      }
  }

  lemma InitInv(n: nat, size: nat, mem: Msg)
    ensures Inv(Init(n, size, mem))
  {
  }

  lemma {:induction false} RunKeepsInv(s: State, steps: seq<Step>, lengths: iset<nat>)
    requires Inv(s) && |s.pc| < WRAP && CanRun(s, steps) && Lengths(steps, lengths) && 0 !in lengths
    ensures Inv(After(s, steps)) && |After(s, steps).pc| == |s.pc|
    decreases |steps|
  {
    hide Inv, Enabled, Apply;
    if steps != [] {
      StepKeepsInv(s, steps[0]);
      RunKeepsInv(Apply(s, steps[0]), steps[1..], lengths);
    }
  }

  lemma InvIsExclusive(s: State)
    requires Inv(s)
    ensures Exclusive(s)
  {
    hide Ticket, SendersOk, ReadersOk, Bounded, Sending;
    forall i: nat | i < |s.pc| && UsesSlot(s.pc[i])
      ensures RoleOf(s.pc[i]) == Sender ==> !Full(s) && s.senders[|s.sent|..] != [] && i == s.senders[|s.sent|..][0]
      ensures RoleOf(s.pc[i]) == Reader ==> Full(s) && s.readers[|s.received|..] != [] && i == s.readers[|s.received|..][0]
    {
      if RoleOf(s.pc[i]) == Sender {
        var p := SenderIn(s.senders[|s.sent|..], s.pc, |s.sent|, s.queued[|s.sent|..], !Full(s), s.size, s.mem, i);
      } else {
        var p := ReaderIn(s.readers[|s.received|..], s.pc, |s.received|, Full(s), Unread(s), i);
      }
    }
  }

  /**
   Fewer than 2^32 threads, no empty message: in every run the bodies arrive complete, in ticket order
   and each once, and the slot is used by one thread at a time.
  */
  lemma ExchangeIsSafe(n: nat, size: nat, mem: Msg, steps: seq<Step>, lengths: iset<nat>)
    requires n < WRAP && CanRun(Init(n, size, mem), steps) && Lengths(steps, lengths) && 0 !in lengths
    ensures InOrder(After(Init(n, size, mem), steps)) && Exclusive(After(Init(n, size, mem), steps))
  {
    InitInv(n, size, mem);
    RunKeepsInv(Init(n, size, mem), steps, lengths);
    InvIsExclusive(After(Init(n, size, mem), steps));
  }
}
