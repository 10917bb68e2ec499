/**
 The run queue of kernel/process/scheduler.c and the counting semaphore of kernel/spin.c on top of it.

 `Threads` is the state; `Apply` is the effect of one call made by the current thread, taken as one
 step.  The class has the lists and the thread fields and is proved to have that effect.  Semaphores
 are named by their address, which is also the value their waiters wait for.
*/
module Scheduler {
  import opened DistinctSeq
  import opened ListLinks

  datatype WaitType = ThreadRunning | ThreadWaitPid | ThreadWaitDMA | ThreadWaitFile | ThreadWaitMutex

  datatype Thread = Thread(blocked: bool, waitType: WaitType, waitValue: nat)

  /** The head of a list is its first element; `sems` are the semaphore words. */
  datatype Threads = Threads(running: seq<nat>, blocked: seq<nat>, thread: seq<Thread>, current: nat, sems: map<nat, int>)

  /** Every thread is on exactly one of the two lists, the one its state says. */
  ghost predicate Ok(s: Threads) {
    && Distinct(s.running) && Distinct(s.blocked)
    && (forall t: nat :: t in s.running <==> t < |s.thread| && !s.thread[t].blocked)
    && (forall t: nat :: t in s.blocked <==> t < |s.thread| && s.thread[t].blocked)
  }

  // ---------------------------------------------------------------------------------------------
  // The calls
  // ---------------------------------------------------------------------------------------------

  /** schedule(): the head of the running list goes to its end and runs. */
  ghost function Switch(s: Threads): Threads {
    if s.running == [] then s else s.(running := s.running[1..] + [s.running[0]], current := s.running[0])
  }

  /** The current thread moves to the head of the blocked list. */
  ghost function Block(s: Threads, kind: WaitType, value: nat): Threads
    requires s.current < |s.thread|
  {
    s.(running := Remove(s.running, s.current), blocked := [s.current] + s.blocked,
       thread := s.thread[s.current := Thread(true, kind, value)])
  }

  /** thread_wait(): it does, and the next one runs. */
  ghost function Wait(s: Threads, kind: WaitType, value: nat): Threads
    requires s.current < |s.thread|
  {
    Switch(Block(s, kind, value))
  }

  /** The first thread of the list that waits for `value`, for whatever reason. */
  ghost function First(q: seq<nat>, thread: seq<Thread>, value: nat): (r: nat)
    ensures r <= |q|
    ensures r < |q| ==> q[r] < |thread| && thread[q[r]].waitValue == value
    ensures forall i :: 0 <= i < r && q[i] < |thread| ==> thread[q[i]].waitValue != value
  {
    if q == [] then 0
    else if q[0] < |thread| && thread[q[0]].waitValue == value then 0
    else 1 + First(q[1..], thread, value)
  }

  /** resume(): the thread moves to the head of the running list; its wait value stays. */
  ghost function Resume(s: Threads, t: nat): Threads
    requires t < |s.thread|
  {
    s.(running := [t] + s.running, blocked := Remove(s.blocked, t),
       thread := s.thread[t := Thread(false, ThreadRunning, s.thread[t].waitValue)])
  }

  ghost function WakeOne(s: Threads, value: nat): Threads {
    var k := First(s.blocked, s.thread, value);
    if k == |s.blocked| then s else Resume(s, s.blocked[k])
  }

  lemma {:induction false} RemoveShorter(q: seq<nat>, k: nat)
    requires k < |q|
    ensures |Remove(q, q[k])| < |q|
  {
    if k > 0 {
      RemoveShorter(q[1..], k - 1);
    } else {
      RemoveNoLonger(q[1..], q[0]);
    }
  }

  lemma {:induction false} RemoveNoLonger(q: seq<nat>, t: nat)
    ensures |Remove(q, t)| <= |q|
  {
    if q != [] {
      RemoveNoLonger(q[1..], t);
    }
  }

  ghost function WakeAll(s: Threads, value: nat): Threads
    decreases |s.blocked|
  {
    var k := First(s.blocked, s.thread, value);
    if k == |s.blocked| then s
    else RemoveShorter(s.blocked, k); WakeAll(Resume(s, s.blocked[k]), value)
  }

  /** One up, by whatever thread; the current thread does not matter to it. */
  ghost function Up(s: Threads, a: nat): Threads
    requires a in s.sems
  {
    var t := s.(sems := s.sems[a := s.sems[a] + 1]);
    if s.sems[a] < 0 then WakeOne(t, a) else t
  }

  datatype Op = P(sem: nat) | V(sem: nat) | WaitFor(kind: WaitType, value: nat) | WakeFor(value: nat) | Yield

  /** Down and up of a semaphore, waiting for a process or a transfer, its end, and a timer tick. */
  ghost predicate Legal(s: Threads, op: Op) {
    s.current in s.running
    && match op
       case P(a) => a in s.sems
       case V(a) => a in s.sems
       case WaitFor(kind, _) => kind == ThreadWaitPid || kind == ThreadWaitDMA
       case _ => true
  }

  ghost function Apply(s: Threads, op: Op): Threads
    requires Ok(s) && Legal(s, op)
  {
    match op
    case P(a) =>
      var t := s.(sems := s.sems[a := s.sems[a] - 1]);
      if s.sems[a] <= 0 then Wait(t, ThreadWaitMutex, a) else t
    case V(a) => Up(s, a)
    case WaitFor(kind, value) => Wait(s, kind, value)
    case WakeFor(value) => WakeAll(s, value)
    case Yield => Switch(s)
  }

  // ---------------------------------------------------------------------------------------------
  // Lists
  // ---------------------------------------------------------------------------------------------

  lemma RotateIs(q: seq<nat>)
    requires Distinct(q) && q != []
    ensures Distinct(q[1..] + [q[0]]) && forall u :: u in q[1..] + [q[0]] <==> u in q
  {
    assert q == [q[0]] + q[1..];
    assert forall i :: 0 <= i < |q[1..]| ==> q[1..][i] == q[i + 1];
  }

  lemma SwitchOk(s: Threads)
    requires Ok(s)
    ensures Ok(Switch(s)) && (s.running != [] ==> Switch(s).current in Switch(s).running)
  {
    if s.running != [] {
      RotateIs(s.running);
    }
  }

  /** Waiting keeps the lists in order; the caller stops running exactly if another thread can run. */
  lemma WaitOk(s: Threads, kind: WaitType, value: nat)
    requires Ok(s) && s.current in s.running
    ensures Ok(Wait(s, kind, value))
    ensures Wait(s, kind, value).current in Wait(s, kind, value).running <==> |s.running| > 1
    ensures |s.running| == 1 ==> Wait(s, kind, value).current == s.current
  {
    var k :| 0 <= k < |s.running| && s.running[k] == s.current;
    RemoveAt(s.running, k);
    BlockOk(s, kind, value);
    SwitchOk(Block(s, kind, value));
  }

  lemma BlockOk(s: Threads, kind: WaitType, value: nat)
    requires Ok(s) && s.current in s.running
    ensures Ok(Block(s, kind, value))
  {
    RemoveMembers(s.running, s.current);
    ConsDistinct(s.current, s.blocked);
  }

  lemma ResumeOk(s: Threads, t: nat)
    requires Ok(s) && t in s.blocked
    ensures Ok(Resume(s, t)) && forall u :: u in s.running ==> u in Resume(s, t).running
  {
    RemoveMembers(s.blocked, t);
    ConsDistinct(t, s.running);
  }

  lemma {:induction false} WakeAllOk(s: Threads, value: nat)
    requires Ok(s)
    ensures Ok(WakeAll(s, value)) && WakeAll(s, value).current == s.current && WakeAll(s, value).sems == s.sems
    ensures forall u :: u in s.running ==> u in WakeAll(s, value).running
    decreases |s.blocked|
  {
    hide Ok;
    var k := First(s.blocked, s.thread, value);
    if k < |s.blocked| {
      RemoveShorter(s.blocked, k);
      ResumeOk(s, s.blocked[k]);
      WakeAllOk(Resume(s, s.blocked[k]), value);
    }
  }

  lemma ApplyOk(s: Threads, op: Op)
    requires Ok(s) && Legal(s, op)
    ensures Ok(Apply(s, op))
  {
    match op
    case P(a) =>
      if s.sems[a] <= 0 {
        WaitOk(s.(sems := s.sems[a := s.sems[a] - 1]), ThreadWaitMutex, a);
      }
    case V(a) =>
      var t := s.(sems := s.sems[a := s.sems[a] + 1]);
      var k := First(t.blocked, t.thread, a);
      if s.sems[a] < 0 && k < |t.blocked| {
        ResumeOk(t, t.blocked[k]);
      }
    case WaitFor(kind, value) => WaitOk(s, kind, value);
    case WakeFor(value) => WakeAllOk(s, value);
    case Yield => SwitchOk(s);
  }

  // ---------------------------------------------------------------------------------------------
  // The semaphore
  // ---------------------------------------------------------------------------------------------

  ghost predicate WaitsOn(thread: seq<Thread>, t: nat, a: nat) {
    t < |thread| && thread[t].waitType == ThreadWaitMutex && thread[t].waitValue == a
  }

  /** How many threads of the list wait for semaphore `a`. */
  ghost function Waiting(q: seq<nat>, thread: seq<Thread>, a: nat): nat {
    if q == [] then 0 else (if WaitsOn(thread, q[0], a) then 1 else 0) + Waiting(q[1..], thread, a)
  }

  /** As many threads wait for a semaphore as its value is below zero. */
  ghost predicate SemOk(s: Threads, a: nat)
    requires a in s.sems
  {
    Waiting(s.blocked, s.thread, a) == if s.sems[a] < 0 then -s.sems[a] else 0
  }

  ghost predicate SemsOk(s: Threads) {
    forall a :: a in s.sems ==> SemOk(s, a)
  }

  /** No thread waits for anything but a semaphore with a value that is the address of one. */
  ghost predicate NoCollision(s: Threads) {
    forall t: nat :: t in s.blocked && t < |s.thread| && s.thread[t].waitType != ThreadWaitMutex ==> s.thread[t].waitValue !in s.sems
  }

  lemma {:induction false} WaitingSame(q: seq<nat>, thread: seq<Thread>, thread': seq<Thread>, a: nat)
    requires forall t :: t in q ==> WaitsOn(thread', t, a) == WaitsOn(thread, t, a)
    ensures Waiting(q, thread', a) == Waiting(q, thread, a)
  {
    if q != [] {
      WaitingSame(q[1..], thread, thread', a);
    }
  }

  lemma {:induction false} WaitingRemove(q: seq<nat>, thread: seq<Thread>, a: nat, t: nat)
    requires Distinct(q) && t in q
    ensures Waiting(q, thread, a) == Waiting(Remove(q, t), thread, a) + if WaitsOn(thread, t, a) then 1 else 0
  {
    var rest := q[1..];
    assert q == [q[0]] + rest;
    assert forall i :: 0 <= i < |rest| ==> rest[i] == q[i + 1];
    if q[0] == t {
      RemoveAbsent(rest, t);
      assert Remove(q, t) == rest;
    } else {
      WaitingRemove(rest, thread, a, t);
      assert ([q[0]] + Remove(rest, t))[1..] == Remove(rest, t);
    }
  }

  lemma {:induction false} WaitingSome(q: seq<nat>, thread: seq<Thread>, a: nat)
    ensures Waiting(q, thread, a) > 0 ==> First(q, thread, a) < |q|
    ensures Waiting(q, thread, a) == 0 ==> forall t :: t in q ==> !WaitsOn(thread, t, a)
  {
    if q != [] {
      WaitingSome(q[1..], thread, a);
    }
  }

  lemma WaitCount(s: Threads, kind: WaitType, value: nat, a: nat)
    requires Ok(s) && s.current in s.running
    ensures Waiting(Wait(s, kind, value).blocked, Wait(s, kind, value).thread, a)
         == Waiting(s.blocked, s.thread, a) + if kind == ThreadWaitMutex && value == a then 1 else 0
  {
    WaitingSame(s.blocked, s.thread, s.thread[s.current := Thread(true, kind, value)], a);
    assert ([s.current] + s.blocked)[1..] == s.blocked;
  }

  lemma ResumeCount(s: Threads, t: nat, a: nat)
    requires Ok(s) && t in s.blocked
    ensures Waiting(Resume(s, t).blocked, Resume(s, t).thread, a)
         == Waiting(s.blocked, s.thread, a) - if WaitsOn(s.thread, t, a) then 1 else 0
  {
    WaitingRemove(s.blocked, s.thread, a, t);
    RemoveMembers(s.blocked, t);
    WaitingSame(Remove(s.blocked, t), s.thread, Resume(s, t).thread, a);
  }

  /** A down keeps every semaphore in order. */
  lemma DownKeeps(s: Threads, a: nat)
    requires Ok(s) && Legal(s, P(a)) && SemsOk(s)
    ensures SemsOk(Apply(s, P(a)))
  {
    var t := s.(sems := s.sems[a := s.sems[a] - 1]);
    forall b | b in s.sems
      ensures SemOk(Apply(s, P(a)), b)
    {
      assert SemOk(s, b);
      if s.sems[a] <= 0 {
        WaitCount(t, ThreadWaitMutex, a, b);
      }
    }
  }

  /**
   An up keeps every semaphore in order exactly if the thread that it wakes, the first one blocked with
   the semaphore's address as its wait value, waits for a semaphore; the code does not look.
  */
  lemma UpKeepsIff(s: Threads, a: nat)
    requires Ok(s) && Legal(s, V(a)) && SemsOk(s)
    ensures s.sems[a] < 0 ==> First(s.blocked, s.thread, a) < |s.blocked|
    ensures SemsOk(Apply(s, V(a))) <==>
            (s.sems[a] < 0 ==> s.thread[s.blocked[First(s.blocked, s.thread, a)]].waitType == ThreadWaitMutex)
  {
    hide Waiting, WaitsOn, Ok, First;
    assert SemOk(s, a);
    WaitingSome(s.blocked, s.thread, a);
    var u, k := Apply(s, V(a)), First(s.blocked, s.thread, a);
    forall b | b in s.sems
      ensures s.sems[a] >= 0 ==> SemOk(u, b)
      ensures s.sems[a] < 0 ==> (SemOk(u, b) <==> b != a || WaitsOn(s.thread, s.blocked[k], a))
    {
      UpAt(s, a, b);
    }
    if s.sems[a] < 0 {
      WaitsForMutex(s, s.blocked[k], a);
    }
    assert a in u.sems;
  }

  /** A thread that waits for a process whose number is the address of a semaphore, before a thread that waits for that. */
  ghost function Collision(): Threads {
    Threads([0], [1, 2], [Thread(false, ThreadRunning, 0), Thread(true, ThreadWaitPid, 8), Thread(true, ThreadWaitMutex, 8)],
            0, map[8 := -1])
  }

  lemma CollisionExample()
    ensures Ok(Collision()) && SemsOk(Collision()) && Legal(Collision(), V(8))
    ensures !SemsOk(Apply(Collision(), V(8)))
  {
    var s := Collision();
    CollisionOk();
    assert Waiting([2], s.thread, 8) == 1;
    assert s.blocked[1..] == [2];
    UpKeepsIff(s, 8);
  }

  lemma CollisionOk()
    ensures Ok(Collision())
  {
    var s := Collision();
    assert s.running[0] == 0 && s.blocked[0] == 1 && s.blocked[1] == 2;
  }

  lemma WaitsForMutex(s: Threads, t: nat, a: nat)
    requires t < |s.thread| && s.thread[t].waitValue == a
    ensures WaitsOn(s.thread, t, a) <==> s.thread[t].waitType == ThreadWaitMutex
  {
  }

  /** What an up does to the count of one semaphore. */
  lemma UpAt(s: Threads, a: nat, b: nat)
    requires Ok(s) && Legal(s, V(a)) && SemsOk(s) && b in s.sems
    requires s.sems[a] < 0 ==> First(s.blocked, s.thread, a) < |s.blocked|
    ensures s.sems[a] >= 0 ==> SemOk(Apply(s, V(a)), b)
    ensures s.sems[a] < 0 ==>
              (SemOk(Apply(s, V(a)), b) <==> b != a || WaitsOn(s.thread, s.blocked[First(s.blocked, s.thread, a)], a))
  {
    hide Waiting, First;
    assert SemOk(s, b);
    if s.sems[a] < 0 {
      var t := s.(sems := s.sems[a := s.sems[a] + 1]);
      ResumeCount(t, s.blocked[First(s.blocked, s.thread, a)], b);
    }
  }

  // ---------------------------------------------------------------------------------------------
  // Runs
  // ---------------------------------------------------------------------------------------------

  /** Waits for processes and transfers use values that are not addresses of semaphores. */
  ghost predicate Apart(s: Threads, op: Op) {
    match op
    case WaitFor(_, value) => value !in s.sems
    case WakeFor(value) => value !in s.sems
    case _ => true
  }

  ghost predicate Inv(s: Threads) {
    Ok(s) && SemsOk(s) && NoCollision(s)
  }

  lemma WakeOneKeeps(s: Threads, value: nat)
    requires Inv(s) && value !in s.sems && First(s.blocked, s.thread, value) < |s.blocked|
    ensures Inv(Resume(s, s.blocked[First(s.blocked, s.thread, value)]))
  {
    var t := s.blocked[First(s.blocked, s.thread, value)];
    var u := Resume(s, t);
    ResumeOk(s, t);
    forall b | b in u.sems
      ensures SemOk(u, b)
    {
      assert SemOk(s, b);
      ResumeCount(s, t, b);
    }
  }

  lemma {:induction false} WakeAllKeeps(s: Threads, value: nat)
    requires Inv(s) && value !in s.sems
    ensures Inv(WakeAll(s, value)) && WakeAll(s, value).sems == s.sems
    decreases |s.blocked|
  {
    hide Inv;
    var k := First(s.blocked, s.thread, value);
    if k < |s.blocked| {
      RemoveShorter(s.blocked, k);
      WakeOneKeeps(s, value);
      WakeAllKeeps(Resume(s, s.blocked[k]), value);
    }
  }

  lemma WaitForKeeps(s: Threads, kind: WaitType, value: nat)
    requires Inv(s) && Legal(s, WaitFor(kind, value)) && value !in s.sems
    ensures Inv(Wait(s, kind, value))
  {
    WaitOk(s, kind, value);
    forall b | b in s.sems
      ensures SemOk(Wait(s, kind, value), b)
    {
      assert SemOk(s, b);
      WaitCount(s, kind, value, b);
    }
  }

  lemma UpIsMutex(s: Threads, a: nat)
    requires Inv(s) && Legal(s, V(a)) && s.sems[a] < 0
    ensures First(s.blocked, s.thread, a) < |s.blocked|
    ensures s.thread[s.blocked[First(s.blocked, s.thread, a)]].waitType == ThreadWaitMutex
  {
    UpKeepsIff(s, a);
    assert s.blocked[First(s.blocked, s.thread, a)] in s.blocked;
  }

  lemma ApplyKeepsInv(s: Threads, op: Op)
    requires Inv(s) && Legal(s, op) && Apart(s, op)
    ensures Inv(Apply(s, op)) && Apply(s, op).sems.Keys == s.sems.Keys
  {
    match op
    case P(a) => DownKeepsInv(s, a);
    case V(a) => UpKeepsInv(s, a);
    case WaitFor(kind, value) => WaitForKeeps(s, kind, value);
    case WakeFor(value) => WakeAllKeeps(s, value);
    case Yield => YieldKeeps(s);
  }

  lemma DownKeepsInv(s: Threads, a: nat)
    requires Inv(s) && Legal(s, P(a))
    ensures Inv(Apply(s, P(a)))
  {
    ApplyOk(s, P(a));
    DownKeeps(s, a);
  }

  lemma UpKeepsInv(s: Threads, a: nat)
    requires Inv(s) && Legal(s, V(a))
    ensures Inv(Apply(s, V(a)))
  {
    ApplyOk(s, V(a));
    UpKeepsIff(s, a);
    if s.sems[a] < 0 {
      UpIsMutex(s, a);
    }
  }

  lemma YieldKeeps(s: Threads)
    requires Inv(s)
    ensures Inv(Switch(s))
  {
    SwitchOk(s);
    assert forall b :: b in s.sems ==> SemOk(s, b) ==> SemOk(Switch(s), b);
  }

  ghost predicate CanRun(s: Threads, ops: seq<Op>)
    requires Ok(s)
    decreases |ops|
  {
    ops != [] ==>
      Legal(s, ops[0]) && Apart(s, ops[0]) && Ok(Apply(s, ops[0])) && CanRun(Apply(s, ops[0]), ops[1..])
  }

  ghost function After(s: Threads, ops: seq<Op>): Threads
    requires Ok(s) && CanRun(s, ops)
    decreases |ops|
  {
    if ops == [] then s else After(Apply(s, ops[0]), ops[1..])
  }

  ghost function Count(ops: seq<Op>, op: Op): nat {
    if ops == [] then 0 else (if ops[0] == op then 1 else 0) + Count(ops[1..], op)
  }

  /**
   After any run a semaphore is its initial value less the downs plus the ups, as many threads wait for it
   as it is below zero, and every thread is on exactly one list.
  */
  lemma {:induction false} RunConserves(s: Threads, ops: seq<Op>, a: nat)
    requires Inv(s) && CanRun(s, ops) && a in s.sems
    ensures var t := After(s, ops);
            Inv(t) && a in t.sems && SemOk(t, a) && t.sems[a] == s.sems[a] - Count(ops, P(a)) + Count(ops, V(a))
    decreases |ops|
  {
    hide Inv, Legal, Apart;
    if ops != [] {
      InvOk(s);
      ApplyKeepsInv(s, ops[0]);
      StepValue(s, ops[0], a);
      RunConserves(Apply(s, ops[0]), ops[1..], a);
    } else {
      InvSem(s, a);
    }
  }

  lemma InvOk(s: Threads)
    requires Inv(s)
    ensures Ok(s)
  {
  }

  lemma InvSem(s: Threads, a: nat)
    requires Inv(s) && a in s.sems
    ensures SemOk(s, a)
  {
  }

  lemma StepValue(s: Threads, op: Op, a: nat)
    requires Ok(s) && Legal(s, op) && a in s.sems
    ensures a in Apply(s, op).sems
    ensures Apply(s, op).sems[a] == s.sems[a] - (if op == P(a) then 1 else 0) + (if op == V(a) then 1 else 0)
  {
    if op.WakeFor? {
      WakeAllOk(s, op.value);
    }
  }

  // ---------------------------------------------------------------------------------------------
  // Order of wake-ups, and what is lost between the two steps of a down
  // ---------------------------------------------------------------------------------------------

  /** The thread that blocked last is woken first: an up right after a blocking down leaves the older waiters blocked. */
  lemma UpUndoesDown(s: Threads, a: nat)
    requires Ok(s) && Legal(s, P(a)) && s.sems[a] <= 0 && |s.running| > 1
    ensures Ok(Apply(s, P(a))) && Legal(Apply(s, P(a)), V(a))
    ensures Apply(Apply(s, P(a)), V(a)).blocked == s.blocked && Apply(Apply(s, P(a)), V(a)).sems == s.sems
  {
    hide Ok, Remove;
    ApplyOk(s, P(a));
    WaitOk(s.(sems := s.sems[a := s.sems[a] - 1]), ThreadWaitMutex, a) by { SameLists(s, a); }
    RunningNotBlocked(s, s.current);
    var d := Apply(s, P(a));
    assert d.blocked == [s.current] + s.blocked;
    WokenFirst(d.thread, s.current, s.blocked, a);
  }

  lemma SameLists(s: Threads, a: nat)
    requires Ok(s) && a in s.sems
    ensures Ok(s.(sems := s.sems[a := s.sems[a] - 1]))
  {
  }

  lemma RunningNotBlocked(s: Threads, t: nat)
    requires Ok(s) && t in s.running
    ensures t < |s.thread| && t !in s.blocked
  {
  }

  lemma WokenFirst(thread: seq<Thread>, t: nat, q: seq<nat>, a: nat)
    requires t < |thread| && thread[t].waitValue == a && t !in q
    ensures First([t] + q, thread, a) == 0 && Remove([t] + q, t) == q
  {
    assert ([t] + q)[1..] == q;
    RemoveAbsent(q, t);
  }

  ghost function Ups(s: Threads, a: nat, n: nat): (t: Threads)
    requires a in s.sems
    ensures a in t.sems && t.current == s.current && |t.thread| == |s.thread|
    decreases n
  {
    if n == 0 then s else Ups(Up(s, a), a, n - 1)
  }

  ghost predicate OnlyMutex(s: Threads, a: nat) {
    forall t: nat :: t in s.blocked && t < |s.thread| && s.thread[t].waitValue == a ==> s.thread[t].waitType == ThreadWaitMutex
  }

  /** An up with a value below zero takes one thread off the waiters, if there is one. */
  lemma UpCount(s: Threads, a: nat)
    requires Ok(s) && a in s.sems && OnlyMutex(s, a)
    ensures var t := Up(s, a);
            && Ok(t) && a in t.sems && t.sems[a] == s.sems[a] + 1 && OnlyMutex(t, a) && t.current == s.current
            && (s.current in s.running ==> t.current in t.running)
            && Waiting(t.blocked, t.thread, a)
            == Waiting(s.blocked, s.thread, a) - if s.sems[a] < 0 && Waiting(s.blocked, s.thread, a) > 0 then 1 else 0
  {
    hide Waiting, First;
    WaitingSome(s.blocked, s.thread, a);
    var u := s.(sems := s.sems[a := s.sems[a] + 1]);
    var k := First(s.blocked, s.thread, a);
    if k < |s.blocked| {
      var w := s.blocked[k];
      assert w in s.blocked;
      ResumeOk(u, w);
      ResumeCount(u, w, a);
      RemoveMembers(s.blocked, w);
      assert s.sems[a] < 0 ==> Up(s, a) == Resume(u, w);
      assert WaitsOn(s.thread, w, a);
      WaiterCounts(s.blocked, s.thread, a, w);
    }
  }

  lemma {:induction false} WaiterCounts(q: seq<nat>, thread: seq<Thread>, a: nat, t: nat)
    requires t in q && WaitsOn(thread, t, a)
    ensures Waiting(q, thread, a) > 0
  {
    if q[0] != t {
      WaiterCounts(q[1..], thread, a, t);
    }
  }

  /** `n` ups take as many threads off the waiters as find the value below zero, as long as there are any. */
  lemma {:induction false} UpsCount(s: Threads, a: nat, n: nat)
    requires Ok(s) && a in s.sems && OnlyMutex(s, a)
    ensures var t := Ups(s, a, n);
            var waking := if s.sems[a] >= 0 then 0 else if n <= -s.sems[a] then n else -s.sems[a];
            var waiting := Waiting(s.blocked, s.thread, a);
            && Ok(t) && t.sems[a] == s.sems[a] + n && t.current == s.current
            && (s.current in s.running ==> t.current in t.running)
            && Waiting(t.blocked, t.thread, a) == if waking <= waiting then waiting - waking else 0
    decreases n
  {
    hide Ok, Waiting, OnlyMutex, Up;
    if n > 0 {
      UpCount(s, a);
      UpsCount(Up(s, a), a, n - 1);
    }
  }

  /**
   The decrement and the wait of a down are not one step.  `n` ups of other threads between them leave the
   semaphore in order exactly if there are no more of them than threads were waiting: every one then wakes
   an older waiter.  One more finds nobody, and the caller waits although it should not.
  */
  lemma LostWakeUp(s: Threads, a: nat, n: nat)
    requires Ok(s) && SemsOk(s) && NoCollision(s) && Legal(s, P(a)) && s.sems[a] <= 0
    ensures var decremented := s.(sems := s.sems[a := s.sems[a] - 1]);
            SemOk(Wait(Ups(decremented, a, n), ThreadWaitMutex, a), a) <==> n <= -s.sems[a]
  {
    hide Waiting, Ok;
    assert SemOk(s, a);
    var d := s.(sems := s.sems[a := s.sems[a] - 1]);
    SameLists(s, a);
    CollisionFree(s, a);
    assert OnlyMutex(d, a);
    UpsCount(d, a, n);
    WaitCount(Ups(d, a, n), ThreadWaitMutex, a, a);
  }

  lemma CollisionFree(s: Threads, a: nat)
    requires NoCollision(s) && a in s.sems
    ensures OnlyMutex(s, a)
  {
  }

  ghost function SwitchTimes(s: Threads, n: nat): Threads
    decreases n
  {
    if n == 0 then s else SwitchTimes(Switch(s), n - 1)
  }

  /** While nobody waits or wakes, the running threads take turns in the order of their list. */
  lemma {:induction false} RoundRobin(s: Threads, n: nat)
    requires 0 < n <= |s.running|
    ensures SwitchTimes(s, n).current == s.running[n - 1]
    ensures n == |s.running| ==> SwitchTimes(s, n).running == s.running
  {
    Turns(s, n);
    if n == |s.running| {
      assert s.running[n..] + s.running[..n] == s.running;
    }
  }

  lemma {:induction false} Turns(s: Threads, n: nat)
    requires n <= |s.running|
    ensures SwitchTimes(s, n).running == s.running[n..] + s.running[..n]
    ensures n > 0 ==> SwitchTimes(s, n).current == s.running[n - 1]
  {
    SwitchLast(s, n);
    if n > 0 {
      Turns(s, n - 1);
      var q := s.running[n - 1..] + s.running[..n - 1];
      assert q[0] == s.running[n - 1];
      assert q[1..] + [q[0]] == s.running[n..] + s.running[..n];
    }
  }

  lemma {:induction false} SwitchLast(s: Threads, n: nat)
    ensures n > 0 ==> SwitchTimes(s, n) == Switch(SwitchTimes(s, n - 1))
    decreases n
  {
    if n > 1 {
      SwitchLast(Switch(s), n - 1);
    }
  }

  // ---------------------------------------------------------------------------------------------
  // Who runs next
  // ---------------------------------------------------------------------------------------------

  /** The threads of the list that wait for `value`, in the order of the list. */
  ghost function Waiters(q: seq<nat>, thread: seq<Thread>, value: nat): seq<nat> {
    if q == [] then []
    else (if q[0] < |thread| && thread[q[0]].waitValue == value then [q[0]] else []) + Waiters(q[1..], thread, value)
  }

  /** The others. */
  ghost function NotWaiting(q: seq<nat>, thread: seq<Thread>, value: nat): seq<nat> {
    if q == [] then []
    else (if q[0] < |thread| && thread[q[0]].waitValue == value then [] else [q[0]]) + NotWaiting(q[1..], thread, value)
  }

  ghost function Reversed(q: seq<nat>): seq<nat> {
    if q == [] then [] else Reversed(q[1..]) + [q[0]]
  }

  lemma {:induction false} ReversedAt(q: seq<nat>, k: nat)
    requires k < |q|
    ensures |Reversed(q)| == |q| && Reversed(q)[|q| - 1 - k] == q[k]
  {
    ReversedLength(q[1..]);
    if k > 0 {
      ReversedAt(q[1..], k - 1);
    }
  }

  lemma {:induction false} ReversedLength(q: seq<nat>)
    ensures |Reversed(q)| == |q|
  {
    if q != [] {
      ReversedLength(q[1..]);
    }
  }

  lemma {:induction false} WaitersFirst(q: seq<nat>, thread: seq<Thread>, value: nat)
    requires forall i :: 0 <= i < |q| ==> q[i] < |thread|
    ensures var k := First(q, thread, value);
            if k == |q| then Waiters(q, thread, value) == [] && NotWaiting(q, thread, value) == q
            else && Waiters(q, thread, value) == [q[k]] + Waiters(Drop(q, k), thread, value)
                 && NotWaiting(q, thread, value) == NotWaiting(Drop(q, k), thread, value)
  {
    if q != [] {
      var x, rest := q[0], q[1..];
      hide Waiters, NotWaiting, First, Drop;
      assert q == [x] + rest;
      WaitersFirst(rest, thread, value);
      WaitersCons(x, rest, thread, value);
      var k := First(rest, thread, value);
      if thread[x].waitValue == value {
        DropTail(q, 0);
      } else if k < |rest| {
        DropTail(q, k + 1);
      }
      if thread[x].waitValue != value && k < |rest| {
        WaitersCons(x, Drop(rest, k), thread, value);
      }
    }
  }

  lemma DropTail(q: seq<nat>, k: nat)
    requires k < |q|
    ensures Drop(q, k) == if k == 0 then q[1..] else [q[0]] + Drop(q[1..], k - 1)
  {
  }

  lemma WaitersCons(x: nat, rest: seq<nat>, thread: seq<Thread>, value: nat)
    requires x < |thread|
    ensures var q := [x] + rest;
            if thread[x].waitValue == value then
              && Waiters(q, thread, value) == [x] + Waiters(rest, thread, value)
              && NotWaiting(q, thread, value) == NotWaiting(rest, thread, value) && First(q, thread, value) == 0
            else
              && Waiters(q, thread, value) == Waiters(rest, thread, value)
              && NotWaiting(q, thread, value) == [x] + NotWaiting(rest, thread, value)
              && First(q, thread, value) == 1 + First(rest, thread, value)
  {
    assert ([x] + rest)[1..] == rest;
  }

  lemma {:induction false} WaitersSame(q: seq<nat>, thread: seq<Thread>, thread': seq<Thread>, value: nat)
    requires |thread'| == |thread| && forall t :: t in q && t < |thread| ==> thread'[t].waitValue == thread[t].waitValue
    ensures Waiters(q, thread', value) == Waiters(q, thread, value)
    ensures NotWaiting(q, thread', value) == NotWaiting(q, thread, value)
  {
    if q != [] {
      WaitersSame(q[1..], thread, thread', value);
    }
  }

  /**
   A wake-up of one: the thread that comes first in the blocked list among those that wait for the value goes
   to the head of the running list; nothing else moves.
  */
  lemma WakeOneMoves(s: Threads, value: nat)
    requires Ok(s)
    ensures var w := Waiters(s.blocked, s.thread, value); var t := WakeOne(s, value);
            if w == [] then t == s
            else && t.running == [w[0]] + s.running && t.blocked == Remove(s.blocked, w[0])
                 && t.current == s.current && t.sems == s.sems && |t.thread| == |s.thread|
                 && w[0] < |s.thread| && t.thread[w[0]] == Thread(false, ThreadRunning, s.thread[w[0]].waitValue)
                 && forall u :: 0 <= u < |s.thread| && u != w[0] ==> t.thread[u] == s.thread[u]
  {
    BlockedThreads(s);
    WaitersFirst(s.blocked, s.thread, value);
  }

  /** A wake-up of all: they come first in the running list, the one that was found last in front. */
  lemma {:induction false} WakeAllMoves(s: Threads, value: nat)
    requires Ok(s)
    ensures var t := WakeAll(s, value);
            && t.running == Reversed(Waiters(s.blocked, s.thread, value)) + s.running
            && t.blocked == NotWaiting(s.blocked, s.thread, value)
            && t.current == s.current && t.sems == s.sems
    decreases |s.blocked|
  {
    hide Ok, Remove, Waiters, NotWaiting, First;
    BlockedThreads(s);
    WaitersFirst(s.blocked, s.thread, value);
    var k := First(s.blocked, s.thread, value);
    if k < |s.blocked| {
      var w := s.blocked[k];
      var u := Resume(s, w);
      RemoveShorter(s.blocked, k);
      RemoveIs(s.blocked, w, k);
      ResumeOk(s, w);
      WaitersSame(u.blocked, s.thread, u.thread, value);
      WakeAllMoves(u, value);
      var rest := Waiters(u.blocked, u.thread, value);
      assert ([w] + rest)[1..] == rest;
      assert Reversed([w] + rest) == Reversed(rest) + [w];
      assert Reversed(rest) + ([w] + s.running) == Reversed(rest) + [w] + s.running;
    } else {
      assert Reversed([]) + s.running == s.running;
    }
  }

  lemma BlockedThreads(s: Threads)
    requires Ok(s)
    ensures Distinct(s.blocked) && forall i :: 0 <= i < |s.blocked| ==> s.blocked[i] < |s.thread|
  {
    assert forall i :: 0 <= i < |s.blocked| ==> s.blocked[i] in s.blocked;
  }

  /** The words of the semaphores do not matter to it. */
  lemma WokenSame(s: Threads, sem: nat)
    requires Ok(s) && sem in s.sems
    ensures var u := s.(sems := s.sems[sem := s.sems[sem] + 1]);
            Ok(u) && forall t, kind, value :: Woken(u, t, kind, value) == Woken(s, t, kind, value)
  {
  }

  /** The lists after a wake-up of the kind. */
  ghost predicate Woken(s: Threads, t: Threads, kind: WaitType, value: nat) {
    var w := Waiters(s.blocked, s.thread, value);
    if kind == ThreadWaitDMA || kind == ThreadWaitPid then
      t.running == Reversed(w) + s.running && t.blocked == NotWaiting(s.blocked, s.thread, value)
    else if w != [] && kind != ThreadRunning then
      t.running == [w[0]] + s.running && t.blocked == Remove(s.blocked, w[0])
    else
      t.running == s.running && t.blocked == s.blocked
  }

  lemma WokenIs(s: Threads, kind: WaitType, value: nat)
    requires Ok(s)
    ensures kind == ThreadWaitDMA || kind == ThreadWaitPid ==> Woken(s, WakeAll(s, value), kind, value)
    ensures kind == ThreadWaitMutex || kind == ThreadWaitFile ==> Woken(s, WakeOne(s, value), kind, value)
    ensures kind == ThreadRunning ==> Woken(s, s, kind, value)
  {
    hide Ok;
    WakeAllMoves(s, value);
    WakeOneMoves(s, value);
  }

  /** After an up that finds the value below zero, the thread that is woken runs at the next schedule. */
  lemma UpRunsNext(s: Threads, a: nat)
    requires Ok(s) && SemsOk(s) && Legal(s, V(a)) && s.sems[a] < 0
    ensures var w := Waiters(s.blocked, s.thread, a); w != [] && Switch(Apply(s, V(a))).current == w[0]
  {
    hide Waiters, NotWaiting, Waiting, First;
    var t := s.(sems := s.sems[a := s.sems[a] + 1]);
    assert Ok(t);
    assert SemOk(s, a);
    WaitingSome(s.blocked, s.thread, a);
    BlockedThreads(s);
    WaitersFirst(s.blocked, s.thread, a);
    WakeOneMoves(t, a);
  }

  /**
   After the wake-up of all, the next schedules run the woken threads, the one found last first, and then the
   old running threads in their order.
  */
  lemma WokenRunFirst(s: Threads, value: nat, n: nat)
    requires Ok(s) && Legal(s, WakeFor(value))
    requires var w := Waiters(s.blocked, s.thread, value); 0 < n <= |w| + |s.running|
    ensures var w := Waiters(s.blocked, s.thread, value);
            SwitchTimes(Apply(s, WakeFor(value)), n).current == if n <= |w| then w[|w| - n] else s.running[n - |w| - 1]
  {
    hide Ok, Waiters, Reversed, SwitchTimes, Switch, WakeAll, NotWaiting;
    var w := Waiters(s.blocked, s.thread, value);
    var t := WakeAll(s, value);
    WakeAllMoves(s, value);
    ReversedLength(w);
    assert |t.running| == |w| + |s.running|;
    RoundRobin(t, n);
    if n <= |w| {
      ReversedAt(w, |w| - n);
    }
  }

  /** A wait: the thread comes first in the blocked list with what it waits for, and the head of the others runs. */
  lemma WaitMoves(s: Threads, kind: WaitType, value: nat)
    requires Ok(s) && s.current in s.running
    ensures var t := Wait(s, kind, value); var rest := Remove(s.running, s.current);
            && t.blocked == [s.current] + s.blocked && t.sems == s.sems && |t.thread| == |s.thread|
            && t.thread[s.current] == Thread(true, kind, value)
            && (forall u :: 0 <= u < |s.thread| && u != s.current ==> t.thread[u] == s.thread[u])
            && (rest != [] ==> t.current == rest[0] && t.running == rest[1..] + [rest[0]])
            && (rest == [] ==> t.current == s.current && t.running == [])
  {
  }

  /** At the start the threads run in the reverse of the order in which they were added. */
  lemma StartOrder(n: nat, k: nat)
    requires 0 < k <= n
    ensures SwitchTimes(Start(n), k).current == n - k
  {
    RoundRobin(Start(n), k);
  }

  // ---------------------------------------------------------------------------------------------
  // The code
  // ---------------------------------------------------------------------------------------------

  /** None of the first `c` blocked threads waits for `value`. */
  ghost predicate NoneBefore(s: Threads, value: nat, c: nat) {
    c <= |s.blocked| && forall j :: 0 <= j < c && s.blocked[j] < |s.thread| ==> s.thread[s.blocked[j]].waitValue != value
  }

  lemma {:induction false} FirstIs(q: seq<nat>, thread: seq<Thread>, value: nat, k: nat)
    requires k <= |q| && forall j :: 0 <= j < k && q[j] < |thread| ==> thread[q[j]].waitValue != value
    requires k < |q| ==> q[k] < |thread| && thread[q[k]].waitValue == value
    ensures First(q, thread, value) == k
  {
    if k > 0 {
      FirstIs(q[1..], thread, value, k - 1);
    }
  }

  lemma WakeAt(s: Threads, value: nat, c: nat)
    requires Ok(s) && NoneBefore(s, value, c) && c < |s.blocked|
    ensures s.blocked[c] < |s.thread|
    ensures s.thread[s.blocked[c]].waitValue == value ==>
              WakeOne(s, value) == Resume(s, s.blocked[c]) && WakeAll(s, value) == WakeAll(Resume(s, s.blocked[c]), value)
              && Ok(Resume(s, s.blocked[c])) && NoneBefore(Resume(s, s.blocked[c]), value, c)
              && |Resume(s, s.blocked[c]).blocked| == |s.blocked| - 1
    ensures s.thread[s.blocked[c]].waitValue != value ==> NoneBefore(s, value, c + 1)
  {
    assert s.blocked[c] in s.blocked;
    if s.thread[s.blocked[c]].waitValue == value {
      FirstIs(s.blocked, s.thread, value, c);
      ResumeOk(s, s.blocked[c]);
      RemoveAt(s.blocked, c);
    }
  }

  lemma NoneAtStart(s: Threads, value: nat)
    ensures NoneBefore(s, value, 0)
  {
  }

  lemma WakeNone(s: Threads, value: nat)
    requires NoneBefore(s, value, |s.blocked|)
    ensures WakeOne(s, value) == s && WakeAll(s, value) == s
  {
    FirstIs(s.blocked, s.thread, value, |s.blocked|);
  }

  /** In the ring of a list the successor of the k-th element; behind the last one comes the head. */
  lemma NextIs(next: seq<nat>, prev: seq<nat>, head: nat, q: seq<nat>, k: nat)
    requires Linked(next, prev, [head] + q) && k <= |q|
    ensures var x := if k == 0 then head else q[k - 1];
            x < |next| && next[x] == if k < |q| then q[k] else head
  {
    LinkedAt(next, prev, [head] + q, k);
  }

  /** The lists have no entry in common, and only threads are on them. */
  ghost predicate Separate(running: seq<nat>, blocked: seq<nat>, n: nat) {
    (forall x :: x in running ==> x < n && x !in blocked) && (forall x :: x in blocked ==> x < n)
  }

  lemma ListsApart(s: Threads)
    requires Ok(s)
    ensures Separate(s.running, s.blocked, |s.thread|)
  {
  }

  /** All threads run, the last one added first; the current thread is none. */
  ghost function Start(n: nat): Threads {
    Threads(seq(n, i requires 0 <= i < n => n - 1 - i), [], seq(n, _ => Thread(false, ThreadRunning, 0)), n, map[])
  }

  lemma StartOk(n: nat)
    ensures Ok(Start(n))
  {
    var q := Start(n).running;
    forall t: nat
      ensures t in q <==> t < n
    {
      if t < n {
        assert q[n - 1 - t] == t;
      }
    }
  }

  /** list_init */
  lemma InitLinked(next: seq<nat>, prev: seq<nat>, head: nat)
    requires head < |next| == |prev| && next[head] == prev[head] == head
    ensures Linked(next, prev, [head] + [])
  {
  }

  lemma HeadApart(s: Threads)
    requires Ok(s)
    ensures s.running != [] ==> s.running == [s.running[0]] + s.running[1..] && s.running[0] !in s.running[1..]
  {
  }

  /** Links that changed for one list only leave the other as it was. */
  lemma OtherList(next: seq<nat>, prev: seq<nat>, next': seq<nat>, prev': seq<nat>, mine: seq<nat>, other: seq<nat>)
    requires Linked(next, prev, other) && |next'| == |prev'| == |next|
    requires forall x :: 0 <= x < |next| && x !in mine ==> next'[x] == next[x] && prev'[x] == prev[x]
    requires forall x :: x in other ==> x !in mine
    ensures Linked(next', prev', other)
  {
    assert forall i :: 0 <= i < |other| ==> other[i] in other;
    LinkedSame(next, prev, next', prev', other);
  }

  /** Where the current thread is on its list. */
  lemma CurrentAt(s: Threads) returns (k: nat)
    requires Ok(s) && s.current in s.running
    ensures k < |s.running| && s.running[k] == s.current && Drop(s.running, k) == Remove(s.running, s.current)
    ensures s.current !in Remove(s.running, s.current)
    ensures forall x :: x in Remove(s.running, s.current) ==> x in s.running
  {
    k :| 0 <= k < |s.running| && s.running[k] == s.current;
    RemoveAt(s.running, k);
    RemoveMembers(s.running, s.current);
  }

  class RunQueue {
    const thread: array<Thread>
    // The entries of the threads, then the heads running_threads and blocked_threads.
    const next: array<nat>
    const prev: array<nat>
    // thread.Length is NULL.
    var current: nat
    var sems: map<nat, int>
    ghost var running: seq<nat>
    ghost var blocked: seq<nat>

    function RunHead(): nat {
      thread.Length
    }

    function BlockHead(): nat {
      thread.Length + 1
    }

    /** The two lists are what their links say. */
    ghost predicate Links()
      reads this, next, prev
    {
      && next != prev && next.Length == prev.Length == thread.Length + 2
      && Linked(next[..], prev[..], [RunHead()] + running) && Linked(next[..], prev[..], [BlockHead()] + blocked)
    }

    ghost function Abs(): Threads
      reads this, thread
    {
      Threads(running, blocked, thread[..], current, sems)
    }

    ghost predicate Valid()
      reads this, thread, next, prev
    {
      Links() && Ok(Abs())
    }

    /** scheduler_init, and add_thread_to_running for `n` threads; no thread is current yet. */
    constructor (n: nat)
      ensures Valid() && fresh(thread) && fresh(next) && fresh(prev) && Abs() == Start(n)
    {
      thread := new Thread[n](_ => Thread(false, ThreadRunning, 0));
      next := new nat[n + 2](i => i);
      prev := new nat[n + 2](i => i);
      current, sems, running, blocked := n, map[], [], [];
      new;
      hide Linked, Ok;
      StartOk(n);
      InitLinked(next[..], prev[..], n);
      InitLinked(next[..], prev[..], n + 1);
      assert thread[..] == Start(n).thread;
      AddAll();
    }

    /** add_thread_to_running for all threads */
    method AddAll()
      requires Links() && running == blocked == []
      modifies this`running, next, prev
      ensures Links() && running == Start(thread.Length).running
    {
      hide Linked;
      ghost var started := Start(thread.Length).running;
      for t := 0 to thread.Length
        invariant Links() && blocked == [] && |running| == t && forall i :: 0 <= i < t ==> running[i] == t - 1 - i
      {
        AddRunning(t);
      }
      assert running == started;
    }

    /** list_add to running_threads */
    method AddRunning(t: nat)
      requires Links() && Separate(running, blocked, thread.Length)
      requires t < thread.Length && t !in running && t !in blocked
      modifies this`running, next, prev
      ensures Links() && running == [t] + old(running)
    {
      hide Linked;
      ListAdd(next, prev, t, RunHead(), running);
      OtherList(old(next[..]), old(prev[..]), next[..], prev[..], [RunHead(), t] + running, [BlockHead()] + blocked);
      assert [RunHead(), t] + running == [RunHead()] + ([t] + running);
      running := [t] + running;
    }

    /** list_add to blocked_threads */
    method AddBlocked(t: nat)
      requires Links() && Separate(running, blocked, thread.Length)
      requires t < thread.Length && t !in running && t !in blocked
      modifies this`blocked, next, prev
      ensures Links() && blocked == [t] + old(blocked)
    {
      hide Linked;
      ListAdd(next, prev, t, BlockHead(), blocked);
      OtherList(old(next[..]), old(prev[..]), next[..], prev[..], [BlockHead(), t] + blocked, [RunHead()] + running);
      assert [BlockHead(), t] + blocked == [BlockHead()] + ([t] + blocked);
      blocked := [t] + blocked;
    }

    /** list_remove of the k-th running thread */
    method DropRunning(t: nat, ghost k: nat)
      requires Links() && Separate(running, blocked, thread.Length)
      requires k < |running| && running[k] == t
      modifies this`running, next, prev
      ensures Links() && running == Drop(old(running), k)
    {
      hide Linked;
      ListRemove(next, prev, t, [RunHead()] + running, k + 1);
      OtherList(old(next[..]), old(prev[..]), next[..], prev[..], [RunHead()] + running, [BlockHead()] + blocked);
      assert Drop([RunHead()] + running, k + 1) == [RunHead()] + Drop(running, k);
      running := Drop(running, k);
    }

    /** list_remove of the k-th blocked thread */
    method DropBlocked(t: nat, ghost k: nat)
      requires Links() && Separate(running, blocked, thread.Length)
      requires k < |blocked| && blocked[k] == t
      modifies this`blocked, next, prev
      ensures Links() && blocked == Drop(old(blocked), k)
    {
      hide Linked;
      ListRemove(next, prev, t, [BlockHead()] + blocked, k + 1);
      OtherList(old(next[..]), old(prev[..]), next[..], prev[..], [BlockHead()] + blocked, [RunHead()] + running);
      assert Drop([BlockHead()] + blocked, k + 1) == [BlockHead()] + Drop(blocked, k);
      blocked := Drop(blocked, k);
    }

    method Schedule() returns (ok: bool)
      requires Valid()
      modifies this, next, prev
      ensures Valid() && Abs() == Switch(old(Abs())) && ok == (old(running) != [])
    {
      hide Linked, Ok;
      SwitchOk(Abs());
      ListsApart(Abs());
      HeadApart(Abs());
      NextIs(next[..], prev[..], RunHead(), running, 0);
      if next[RunHead()] == RunHead() {
        return false;
      }
      var toRun := ListPopHead(next, prev, RunHead(), running);
      var first := toRun.value;
      ghost var rest := running[1..];
      ListAddTail(next, prev, first, RunHead(), rest);
      OtherList(old(next[..]), old(prev[..]), next[..], prev[..], [RunHead()] + running, [BlockHead()] + blocked);
      running := rest + [first];
      current := first;
      ok := true;
    }

    method ThreadWait(kind: WaitType, value: nat)
      requires Valid() && current in running
      modifies this, thread, next, prev
      ensures Valid() && Abs() == Wait(old(Abs()), kind, value)
    {
      hide Linked, Switch, Ok;
      BlockOk(Abs(), kind, value);
      BlockThread(kind, value);
      var switched := Schedule();
    }

    method BlockThread(kind: WaitType, value: nat)
      requires Links() && Ok(Abs()) && current in running
      modifies this, thread, next, prev
      ensures current == old(current) < thread.Length && Links() && Abs() == Block(old(Abs()), kind, value)
    {
      hide Linked;
      ListsApart(Abs());
      ghost var k := CurrentAt(Abs());
      DropRunning(current, k);
      AddBlocked(current);
      thread[current] := Thread(true, kind, value);
    }

    /** resume() of the k-th blocked thread */
    method ResumeThread(t: nat, ghost k: nat)
      requires Valid() && k < |blocked| && blocked[k] == t
      modifies this, thread, next, prev
      ensures t < thread.Length && Valid() && Abs() == Resume(old(Abs()), t) && blocked == Drop(old(blocked), k)
    {
      ResumeOk(Abs(), t);
      ListsApart(Abs());
      RemoveMembers(blocked, t);
      RemoveAt(blocked, k);
      DropBlocked(t, k);
      AddRunning(t);
      thread[t] := Thread(false, ThreadRunning, thread[t].waitValue);
    }

    /** thread_resume: waiters for a process or a transfer are all woken, of the others the first one. */
    method ThreadResume(kind: WaitType, value: nat)
      requires Valid()
      modifies this, thread, next, prev
      ensures Valid() && Woken(old(Abs()), Abs(), kind, value)
      ensures Abs() == match kind
                       case ThreadWaitDMA => WakeAll(old(Abs()), value)
                       case ThreadWaitPid => WakeAll(old(Abs()), value)
                       case ThreadWaitMutex => WakeOne(old(Abs()), value)
                       case ThreadWaitFile => WakeOne(old(Abs()), value)
                       case ThreadRunning => old(Abs())
    {
      hide Ok, Woken, WakeOne, WakeAll;
      WokenIs(Abs(), kind, value);
      WalkBlocked(kind, value);
    }

    /** Its loop over the blocked list. */
    method WalkBlocked(kind: WaitType, value: nat)
      requires Valid()
      modifies this, thread, next, prev
      ensures Valid()
      ensures Abs() == match kind
                       case ThreadWaitDMA => WakeAll(old(Abs()), value)
                       case ThreadWaitPid => WakeAll(old(Abs()), value)
                       case ThreadWaitMutex => WakeOne(old(Abs()), value)
                       case ThreadWaitFile => WakeOne(old(Abs()), value)
                       case ThreadRunning => old(Abs())
    {
      hide Ok, Resume, WakeOne, WakeAll, NoneBefore, Linked;
      NextIs(next[..], prev[..], BlockHead(), blocked, 0);
      var c := next[BlockHead()];
      ghost var k := 0;
      assert NoneBefore(Abs(), value, 0) by { NoneAtStart(Abs(), value); }
      while c != BlockHead()
        invariant k <= |blocked| && Valid() && c == At(k)
        invariant kind == ThreadWaitDMA || kind == ThreadWaitPid ==> WakeAll(Abs(), value) == WakeAll(old(Abs()), value)
        invariant !(kind == ThreadWaitDMA || kind == ThreadWaitPid) ==> Abs() == old(Abs())
        invariant kind != ThreadRunning ==> NoneBefore(Abs(), value, k)
        decreases |blocked| - k
      {
        NextIs(next[..], prev[..], BlockHead(), blocked, k + 1);
        if kind != ThreadRunning {
          WakeAt(Abs(), value, k);
        }
        if kind == ThreadWaitDMA || kind == ThreadWaitPid {
          if thread[c].waitValue == value {
            var t := c;
            c := next[c];
            ResumeThread(t, k);
            continue;
          }
        } else if kind == ThreadWaitMutex || kind == ThreadWaitFile {
          if thread[c].waitValue == value {
            ResumeThread(c, k);
            return;
          }
        }
        c := next[c];
        k := k + 1;
      }
      ListsApart(Abs());
      AtEnd(k);
      if kind != ThreadRunning {
        WakeNone(Abs(), value);
      }
    }

    /** Where the loop of thread_resume is after `k` entries. */
    ghost function At(k: nat): nat
      requires k <= |blocked|
      reads this
    {
      if k < |blocked| then blocked[k] else BlockHead()
    }

    lemma AtEnd(k: nat)
      requires Separate(running, blocked, thread.Length) && k <= |blocked|
      ensures At(k) == BlockHead() <==> k == |blocked|
    {
      if k < |blocked| {
        assert blocked[k] in blocked;
      }
    }

    /** do_passeren; the old value is returned. */
    method DoPasseren(sem: nat) returns (i: int)
      requires Valid() && Legal(Abs(), P(sem))
      modifies this, thread, next, prev
      ensures Valid() && Abs() == Apply(old(Abs()), P(sem)) && i == old(sems[sem])
    {
      i := sems[sem];
      sems := sems[sem := i - 1];
      if i <= 0 {
        ThreadWait(ThreadWaitMutex, sem);
      }
    }

    /** do_verhoog */
    method DoVerhoog(sem: nat) returns (i: int)
      requires Valid() && Legal(Abs(), V(sem))
      modifies this, thread, next, prev
      ensures Valid() && Abs() == Apply(old(Abs()), V(sem)) && i == old(sems[sem])
      ensures if i < 0 then Woken(old(Abs()), Abs(), ThreadWaitMutex, sem) else (running, blocked) == old((running, blocked))
    {
      hide Ok, Woken, WakeOne;
      i := sems[sem];
      WokenSame(Abs(), sem);
      sems := sems[sem := i + 1];
      if i < 0 {
        ThreadResume(ThreadWaitMutex, sem);
      }
    }
  }
}
