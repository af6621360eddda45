/** The cross-thread task hand-off of the event loop (src/evloop.cc): a task vector under a
    mutex, a wake pipe written only when the vector becomes non-empty, and a loop thread that
    swaps the vector out before running it.

    Every atomic step of the loop thread and of any number of callers is an action; a run is any
    sequence of actions, a disabled action being a thread that has to wait. A task that queues
    another task does so as a caller, so calls from the loop thread itself are covered. */
module EventLoop {

  type Task = nat
  type Tid = nat

  /** What the holder of the mutex is doing. */
  datatype Holder =
    | Free
    | Entered(tid: Tid, task: Task)   // in queue_in_loop, before emplace_back
    | Pushed(tid: Tid, wake: bool)    // after it; wake: size was 1, so wakeup(0) is due
    | ByLoop                          // in do_functors or in the exit check of run

  datatype Pc =
    | Wait                  // about to call dispatcher->wait
    | Handle(wake: bool)    // running channel handlers; wake: wakeup_read is among them
    | SwapIn(drain: bool)   // at the lock of do_functors
    | Swapping(drain: bool)
    | Running(drain: bool)  // running the swapped-out batch
    | DrainLock             // at the lock of the exit check
    | DrainCheck
    | Exited

  /** A byte in the pipe: 0 from queue_in_loop, 1 from quit. */
  datatype Signal = TaskByte | QuitByte

  datatype State = State(
    pc: Pc,
    holder: Holder,
    functors: seq<Task>,
    batch: seq<Task>,
    pipe: seq<Signal>,
    isQuit: bool,
    queued: seq<Task>,      // history: tasks in the order their callers held the lock
    ran: seq<Task>)         // history: tasks in the order the loop ran them

  const INIT := State(Wait, Free, [], [], [], false, [], [])

  datatype Action =
    | Acquire(tid: Tid, task: Task)
    | Push
    | Wakeup
    | Release
    | Quit
    | WaitReturns(wake: bool)
    | WakeupRead
    | HandlersDone
    | LockForSwap
    | Swap
    | RunTask
    | BatchDone
    | LockForCheck
    | CheckEmpty

  predicate Enabled(s: State, a: Action) {
    match a
    case Acquire(_, _) => s.holder.Free?
    case Push => s.holder.Entered?
    case Wakeup => s.holder.Pushed? && s.holder.wake
    case Release => s.holder.Pushed? && !s.holder.wake
    case Quit => true
    case WaitReturns(wake) => s.pc.Wait? && (wake ==> s.pipe != [])
    case WakeupRead => s.pc.Handle? && s.pc.wake && s.pipe != []
    case HandlersDone => s.pc.Handle? && !s.pc.wake
    case LockForSwap => s.pc.SwapIn? && s.holder.Free?
    case Swap => s.pc.Swapping? && s.holder.ByLoop?
    case RunTask => s.pc.Running? && s.batch != []
    case BatchDone => s.pc.Running? && s.batch == []
    case LockForCheck => s.pc.DrainLock? && s.holder.Free?
    case CheckEmpty => s.pc.DrainCheck? && s.holder.ByLoop?
  }

  function Next(s: State, a: Action): State
    requires Enabled(s, a)
  {
    match a
    case Acquire(tid, task) => s.(holder := Entered(tid, task))
    case Push =>
      s.(functors := s.functors + [s.holder.task], queued := s.queued + [s.holder.task],
         holder := Pushed(s.holder.tid, |s.functors| + 1 == 1))
    case Wakeup => s.(pipe := s.pipe + [TaskByte], holder := s.holder.(wake := false))
    case Release => s.(holder := Free)
    case Quit => s.(pipe := s.pipe + [QuitByte])
    case WaitReturns(wake) => s.(pc := Handle(wake))
    case WakeupRead => s.(pc := Handle(false), pipe := s.pipe[1..], isQuit := s.isQuit || s.pipe[0].QuitByte?)
    case HandlersDone => s.(pc := SwapIn(false))
    case LockForSwap => s.(pc := Swapping(s.pc.drain), holder := ByLoop)
    case Swap => s.(pc := Running(s.pc.drain), holder := Free, batch := s.functors, functors := [])
    case RunTask => s.(batch := s.batch[1..], ran := s.ran + [s.batch[0]])
    case BatchDone => s.(pc := if s.pc.drain || s.isQuit then DrainLock else Wait)
    case LockForCheck => s.(pc := DrainCheck, holder := ByLoop)
    case CheckEmpty => s.(pc := if s.functors == [] then Exited else SwapIn(true), holder := Free)
  }

  function Step(s: State, a: Action): State { if Enabled(s, a) then Next(s, a) else s }

  function Run(s: State, acts: seq<Action>): State
    decreases |acts|
  {
    if acts == [] then s else Run(Step(s, acts[0]), acts[1..])
  }

  // ---------------------------------------------------------------- nothing lost, nothing twice

  /** A caller still owes the pipe a byte. */
  predicate Owed(s: State) { s.holder.Pushed? && s.holder.wake }

  /** Places of the loop from which it reaches the next wait without looking at the vector. */
  predicate BoundForWait(pc: Pc) { pc.Wait? || (pc.Running? && !pc.drain) }

  predicate Inv(s: State) {
    && s.queued == s.ran + s.batch + s.functors
    && (s.holder.ByLoop? <==> s.pc.Swapping? || s.pc.DrainCheck?)
    && (s.batch != [] ==> s.pc.Running?)
    && (Owed(s) ==> s.functors != [])
    && (s.pc.Handle? && s.pc.wake ==> s.pipe != [])
    && (BoundForWait(s.pc) && s.functors != [] ==> TaskByte in s.pipe || Owed(s))
  }

  lemma StepKeepsInv(s: State, a: Action)
    requires Inv(s)
    ensures Inv(Step(s, a))
  {
    if Enabled(s, a) {
      var t := Next(s, a);
      match a
      case Push => assert s.ran + s.batch + (s.functors + [s.holder.task]) == s.queued + [s.holder.task];
      case Wakeup => assert t.pipe[|s.pipe|] == TaskByte;
      case Quit => assert forall i :: 0 <= i < |s.pipe| ==> t.pipe[i] == s.pipe[i];
      case Swap => assert s.ran + s.batch + s.functors == s.ran + s.functors + [];
      case RunTask => assert s.ran + s.batch == s.ran + [s.batch[0]] + s.batch[1..];
      case _ =>
    }
  }

  lemma {:induction false} RunKeepsInv(s: State, acts: seq<Action>)
    requires Inv(s)
    ensures Inv(Run(s, acts))
    decreases |acts|
  {
    if acts != [] {
      StepKeepsInv(s, acts[0]);
      RunKeepsInv(Step(s, acts[0]), acts[1..]);
    }
  }

  /** In every interleaving tasks run at most once, in the order in which they were queued, and
      the loop never waits on queued tasks without a wake byte that is unread or being written. */
  lemma NoTaskLost(acts: seq<Action>)
    ensures var s := Run(INIT, acts);
      && s.ran <= s.queued
      && s.queued == s.ran + s.batch + s.functors
      && (s.pc.Wait? && s.functors != [] ==> s.pipe != [] || Owed(s))
  {
    RunKeepsInv(INIT, acts);
  }

  /** `run` returns only after a check that found nothing left to run. */
  lemma ExitsOnlyWhenEmpty(acts: seq<Action>, a: Action)
    requires !Run(INIT, acts).pc.Exited? && Step(Run(INIT, acts), a).pc.Exited?
    ensures var t := Step(Run(INIT, acts), a); t.ran == t.queued
  {
    RunKeepsInv(INIT, acts);
  }

  function Repeat(a: Action, n: nat): seq<Action> {
    if n == 0 then [] else [a] + Repeat(a, n - 1)
  }

  lemma RunAppend(s: State, a: seq<Action>, b: seq<Action>)
    ensures Run(s, a + b) == Run(Run(s, a), b)
    decreases |a|
  {
    if a == [] {
      assert a + b == b;
    } else {
      assert (a + b)[1..] == a[1..] + b;
      RunAppend(Step(s, a[0]), a[1..], b);
    }
  }

  lemma {:induction false} RunBatch(s: State)
    requires s.pc.Running?
    ensures Run(s, Repeat(RunTask, |s.batch|)) == s.(batch := [], ran := s.ran + s.batch)
    decreases |s.batch|
  {
    if s.batch == [] {
      assert s.ran + s.batch == s.ran;
    } else {
      var t := Step(s, RunTask);
      var n := |s.batch|;
      assert Repeat(RunTask, n)[0] == RunTask && Repeat(RunTask, n)[1..] == Repeat(RunTask, n - 1);
      RunBatch(t);
      assert s.ran + [s.batch[0]] + s.batch[1..] == s.ran + s.batch;
    }
  }

  /** The steps of one turn of the main loop, without interference. */
  function Turn(wake: bool, n: nat): seq<Action> {
    [WaitReturns(wake)] + (if wake then [WakeupRead] else []) + [HandlersDone, LockForSwap, Swap]
      + Repeat(RunTask, n) + [BatchDone]
  }

  lemma TurnUpToSwap(s: State, wake: bool)
    requires Inv(s) && s.pc.Wait? && s.holder.Free? && (wake ==> s.pipe != [])
    ensures var t := Run(s, [WaitReturns(wake)] + (if wake then [WakeupRead] else []) + [HandlersDone, LockForSwap, Swap]);
      && t.pc == Running(false) && t.batch == s.functors && t.functors == [] && t.ran == s.ran && t.queued == s.queued
      && t.holder.Free? && t.pipe == (if wake then s.pipe[1..] else s.pipe)
      && (t.isQuit <==> s.isQuit || (wake && s.pipe[0].QuitByte?))
  {
    var s1 := Step(s, WaitReturns(wake));
    var s2 := if wake then Step(s1, WakeupRead) else s1;
    var mid := if wake then [WakeupRead] else [];
    var tail := [HandlersDone, LockForSwap, Swap];
    RunAppend(s, [WaitReturns(wake)] + mid, tail);
    RunAppend(s, [WaitReturns(wake)], mid);
    assert Run(s, [WaitReturns(wake)]) == s1 by { assert [WaitReturns(wake)][1..] == []; }
    assert Run(s1, mid) == s2 by { if wake { assert mid[1..] == []; } }
    var s3 := Step(s2, HandlersDone);
    var s4 := Step(s3, LockForSwap);
    assert tail[1..] == [LockForSwap, Swap] && tail[1..][1..] == [Swap] && tail[1..][1..][1..] == [];
    assert Run(s2, tail) == Run(s3, [LockForSwap, Swap]) == Run(s4, [Swap]) == Step(s4, Swap);
  }

  /** One undisturbed turn runs everything that was queued when it began, and goes back to the wait
      unless quit has been seen. */
  lemma TurnRunsEverything(s: State, wake: bool)
    requires Inv(s) && s.pc.Wait? && s.holder.Free? && (wake ==> s.pipe != [])
    ensures var t := Run(s, Turn(wake, |s.functors|));
      && t.ran == s.queued == t.queued && t.holder.Free? && t.pipe == (if wake then s.pipe[1..] else s.pipe)
      && (t.isQuit <==> s.isQuit || (wake && s.pipe[0].QuitByte?))
      && t.pc == (if t.isQuit then DrainLock else Wait)
  {
    hide Run, Enabled;
    var head := [WaitReturns(wake)] + (if wake then [WakeupRead] else []) + [HandlersDone, LockForSwap, Swap];
    var n := |s.functors|;
    TurnUpToSwap(s, wake);
    var t := Run(s, head);
    RunAppend(s, head + Repeat(RunTask, n), [BatchDone]);
    RunAppend(s, head, Repeat(RunTask, n));
    RunBatch(t);
    var u := Run(t, Repeat(RunTask, n));
    RunOne(u, BatchDone);
    BatchDoneEffect(u);
    assert s.ran + s.batch + s.functors == s.ran + s.functors;
  }

  lemma RunOne(s: State, a: Action)
    ensures Run(s, [a]) == Step(s, a)
  {
    assert [a][1..] == [];
  }

  lemma BatchDoneEffect(s: State)
    requires s.pc.Running? && s.batch == []
    ensures Step(s, BatchDone) == s.(pc := if s.pc.drain || s.isQuit then DrainLock else Wait)
  {
  }

  // ---------------------------------------------------------------- quit, and only quit, ends it

  /** Places of the exit loop of `run` and behind it. */
  predicate InDrain(pc: Pc) {
    pc.DrainLock? || pc.DrainCheck? || pc.Exited? || ((pc.SwapIn? || pc.Swapping? || pc.Running?) && pc.drain)
  }

  function Writes(s: State, a: Action): seq<Signal> {
    if a.Quit? then [QuitByte] else if a.Wakeup? && Enabled(s, a) then [TaskByte] else []
  }

  /** The bytes written to the pipe in a run. */
  function Written(s: State, acts: seq<Action>): seq<Signal>
    decreases |acts|
  {
    if acts == [] then [] else Writes(s, acts[0]) + Written(Step(s, acts[0]), acts[1..])
  }

  function Reads(s: State, a: Action): seq<Signal> {
    if a.WakeupRead? && Enabled(s, a) then [s.pipe[0]] else []
  }

  /** The bytes taken out of the pipe in a run. */
  function BytesRead(s: State, acts: seq<Action>): seq<Signal>
    decreases |acts|
  {
    if acts == [] then [] else Reads(s, acts[0]) + BytesRead(Step(s, acts[0]), acts[1..])
  }

  function Offers(s: State, a: Action): seq<Task> {
    if a.Acquire? && Enabled(s, a) then [a.task] else []
  }

  /** The tasks whose callers got hold of the mutex in a run. */
  function Offered(s: State, acts: seq<Action>): seq<Task>
    decreases |acts|
  {
    if acts == [] then [] else Offers(s, acts[0]) + Offered(Step(s, acts[0]), acts[1..])
  }

  function InHand(s: State): seq<Task> { if s.holder.Entered? then [s.holder.task] else [] }

  lemma StepPipe(s: State, a: Action)
    ensures var t := Step(s, a);
      && s.pipe + Writes(s, a) == Reads(s, a) + t.pipe
      && (t.isQuit <==> s.isQuit || QuitByte in Reads(s, a))
  {
  }

  /** The pipe is first in, first out, and nothing but a quit byte read from it sets the flag. */
  lemma {:induction false} PipeInOrder(s: State, acts: seq<Action>)
    ensures var t := Run(s, acts);
      && s.pipe + Written(s, acts) == BytesRead(s, acts) + t.pipe
      && (t.isQuit <==> s.isQuit || QuitByte in BytesRead(s, acts))
    decreases |acts|
  {
    hide Step, Writes, Reads;
    if acts != [] {
      var t, w, r := Step(s, acts[0]), Writes(s, acts[0]), Reads(s, acts[0]);
      StepPipe(s, acts[0]);
      PipeInOrder(t, acts[1..]);
      calc {
        s.pipe + (w + Written(t, acts[1..]));
        (s.pipe + w) + Written(t, acts[1..]);
        r + (t.pipe + Written(t, acts[1..]));
        (r + BytesRead(t, acts[1..])) + Run(t, acts[1..]).pipe;
      }
    }
  }

  function QuitBytes(bytes: seq<Signal>): nat {
    if bytes == [] then 0 else (if bytes[0].QuitByte? then 1 else 0) + QuitBytes(bytes[1..])
  }

  function QuitCalls(acts: seq<Action>): nat {
    if acts == [] then 0 else (if acts[0].Quit? then 1 else 0) + QuitCalls(acts[1..])
  }

  lemma {:induction false} QuitBytesAppend(a: seq<Signal>, b: seq<Signal>)
    ensures QuitBytes(a + b) == QuitBytes(a) + QuitBytes(b)
  {
    if a == [] {
      assert a + b == b;
    } else {
      assert (a + b)[0] == a[0] && (a + b)[1..] == a[1..] + b;
      QuitBytesAppend(a[1..], b);
    }
  }

  lemma {:induction false} QuitsWritten(s: State, acts: seq<Action>)
    ensures QuitBytes(Written(s, acts)) == QuitCalls(acts)
    decreases |acts|
  {
    hide Step;
    if acts != [] {
      var first := Writes(s, acts[0]);
      QuitsWritten(Step(s, acts[0]), acts[1..]);
      QuitBytesAppend(first, Written(Step(s, acts[0]), acts[1..]));
      assert first != [] ==> first[1..] == [];
    }
  }

  lemma {:induction false} HasQuit(bytes: seq<Signal>)
    ensures QuitByte in bytes <==> QuitBytes(bytes) > 0
  {
    if bytes != [] { HasQuit(bytes[1..]); }
  }

  lemma {:induction false} NotAskedMeansNoCalls(acts: seq<Action>)
    ensures Quit in acts <==> QuitCalls(acts) > 0
  {
    if acts != [] { NotAskedMeansNoCalls(acts[1..]); }
  }

  lemma {:induction false} DrainsOnlyOnQuit(s: State, acts: seq<Action>)
    requires InDrain(s.pc) ==> s.isQuit
    ensures InDrain(Run(s, acts).pc) ==> Run(s, acts).isQuit
    decreases |acts|
  {
    if acts != [] { DrainsOnlyOnQuit(Step(s, acts[0]), acts[1..]); }
  }

  /** In every interleaving the calls of quit are the quit bytes read and those still unread, the
      flag is set exactly if one has been read, and only then does the loop leave its main phase.
      So `run` never returns unasked. */
  lemma QuitExactly(acts: seq<Action>)
    ensures var s := Run(INIT, acts);
      && QuitCalls(acts) == QuitBytes(BytesRead(INIT, acts)) + QuitBytes(s.pipe)
      && (s.isQuit <==> QuitBytes(BytesRead(INIT, acts)) > 0)
      && (InDrain(s.pc) ==> s.isQuit)
      && (Quit !in acts ==> !s.isQuit && QuitByte !in s.pipe && !InDrain(s.pc))
  {
    hide Run, Written, BytesRead, QuitCalls, QuitBytes;
    var s := Run(INIT, acts);
    PipeInOrder(INIT, acts);
    assert Written(INIT, acts) == BytesRead(INIT, acts) + s.pipe;
    QuitsWritten(INIT, acts);
    QuitBytesAppend(BytesRead(INIT, acts), s.pipe);
    HasQuit(BytesRead(INIT, acts));
    HasQuit(s.pipe);
    NotAskedMeansNoCalls(acts);
    DrainsOnlyOnQuit(INIT, acts);
  }

  lemma StepOffers(s: State, a: Action)
    requires Inv(s)
    ensures s.queued + InHand(s) + Offers(s, a) == Step(s, a).queued + InHand(Step(s, a))
  {
  }

  /** Every task whose caller got hold of the mutex is queued, in that order; at most one is still
      in the hands of its caller. */
  lemma {:induction false} OfferedIsQueued(s: State, acts: seq<Action>)
    requires Inv(s)
    ensures s.queued + InHand(s) + Offered(s, acts) == Run(s, acts).queued + InHand(Run(s, acts))
    decreases |acts|
  {
    hide Step, Inv, Offers, InHand;
    if acts != [] {
      var t, o := Step(s, acts[0]), Offers(s, acts[0]);
      StepKeepsInv(s, acts[0]);
      StepOffers(s, acts[0]);
      OfferedIsQueued(t, acts[1..]);
      assert s.queued + InHand(s) + (o + Offered(t, acts[1..])) == (s.queued + InHand(s) + o) + Offered(t, acts[1..]);
    }
  }

  /** The steps of the exit loop of `run`, without interference. */
  function ExitSteps(n: nat): seq<Action> {
    [LockForCheck, CheckEmpty]
      + (if n == 0 then [] else [LockForSwap, Swap] + Repeat(RunTask, n) + [BatchDone, LockForCheck, CheckEmpty])
  }

  lemma Run2(s: State, a: Action, b: Action)
    ensures Run(s, [a, b]) == Step(Step(s, a), b)
  {
    hide Step;
    assert [a, b][1..] == [b];
    RunOne(Step(s, a), b);
  }

  lemma CheckLeads(s: State)
    requires s.pc.DrainLock? && s.holder.Free?
    ensures Run(s, [LockForCheck, CheckEmpty]) == s.(pc := if s.functors == [] then Exited else SwapIn(true))
  {
    Run2(s, LockForCheck, CheckEmpty);
    hide Run;
    assert Step(s, LockForCheck) == s.(pc := DrainCheck, holder := ByLoop);
  }

  lemma SwapTakes(s: State)
    requires s.pc.SwapIn? && s.holder.Free?
    ensures Run(s, [LockForSwap, Swap]) == s.(pc := Running(s.pc.drain), batch := s.functors, functors := [])
  {
    Run2(s, LockForSwap, Swap);
    hide Run;
    assert Step(s, LockForSwap) == s.(pc := Swapping(s.pc.drain), holder := ByLoop);
  }

  /** Left alone, the exit loop runs what is queued and returns. */
  lemma ExitLoopEnds(s: State)
    requires Inv(s) && s.pc.DrainLock? && s.holder.Free?
    ensures var t := Run(s, ExitSteps(|s.functors|)); t.pc.Exited? && t.ran == s.queued == t.queued && t.holder.Free?
  {
    hide Run, Step;
    var check, swap, n := [LockForCheck, CheckEmpty], [LockForSwap, Swap], |s.functors|;
    CheckLeads(s);
    if n == 0 {
      assert ExitSteps(0) == check;
    } else {
      var turns := Repeat(RunTask, n);
      assert ExitSteps(n) == check + (swap + (turns + ([BatchDone] + check)));
      var s1 := s.(pc := SwapIn(true));
      var s2 := s1.(pc := Running(true), batch := s.functors, functors := []);
      var s3 := s2.(batch := [], ran := s2.ran + s2.batch);
      RunAppend(s, check, swap + (turns + ([BatchDone] + check)));
      SwapTakes(s1);
      RunAppend(s1, swap, turns + ([BatchDone] + check));
      RunBatch(s2);
      RunAppend(s2, turns, [BatchDone] + check);
      RunOne(s3, BatchDone);
      BatchDoneEffect(s3);
      RunAppend(s3, [BatchDone], check);
      CheckLeads(s3.(pc := DrainLock));
    }
    assert s.ran + s.batch + s.functors == s.ran + s.functors;
  }

  // ---------------------------------------------------------------- how full the pipe gets

  function TaskBytes(pipe: seq<Signal>): nat {
    if pipe == [] then 0 else (if pipe[0].TaskByte? then 1 else 0) + TaskBytes(pipe[1..])
  }

  lemma TaskBytesSnoc(pipe: seq<Signal>, b: Signal)
    ensures TaskBytes(pipe + [b]) == TaskBytes(pipe) + (if b.TaskByte? then 1 else 0)
  {
    if pipe == [] {
      assert pipe + [b] == [b] && [b][1..] == [];
    } else {
      assert (pipe + [b])[1..] == pipe[1..] + [b];
      TaskBytesSnoc(pipe[1..], b);
    }
  }

  /** Task bytes unread or about to be written. */
  function Unread(s: State): nat { TaskBytes(s.pipe) + (if Owed(s) then 1 else 0) }

  function NonEmpty(s: State): nat { if s.functors == [] then 0 else 1 }

  /** Until quit is seen: at most one stale byte plus one for a non-empty vector, and none stale
      between a wait and the swap that follows it. */
  predicate PipeBound(s: State) {
    s.isQuit ||
    (!InDrain(s.pc)
     && if BoundForWait(s.pc) || (s.pc.Handle? && s.pc.wake) then Unread(s) <= 1 + NonEmpty(s)
        else Unread(s) <= NonEmpty(s))
  }

  /** `wait` reports the wake channel whenever a byte is unread. */
  predicate Reports(s: State, a: Action) { a == WaitReturns(false) ==> s.pipe == [] }

  lemma StepKeepsPipeBound(s: State, a: Action)
    requires Inv(s) && PipeBound(s) && Reports(s, a)
    ensures PipeBound(Step(s, a))
  {
    if Enabled(s, a) {
      match a
      case Wakeup => TaskBytesSnoc(s.pipe, TaskByte);
      case Quit => TaskBytesSnoc(s.pipe, QuitByte);
      case _ =>
    }
  }

  predicate AlwaysReports(s: State, acts: seq<Action>)
    decreases |acts|
  {
    acts == [] || (Reports(s, acts[0]) && AlwaysReports(Step(s, acts[0]), acts[1..]))
  }

  lemma {:induction false} RunKeepsPipeBound(s: State, acts: seq<Action>)
    requires Inv(s) && PipeBound(s) && AlwaysReports(s, acts)
    ensures PipeBound(Run(s, acts))
    decreases |acts|
  {
    if acts != [] {
      StepKeepsInv(s, acts[0]);
      StepKeepsPipeBound(s, acts[0]);
      RunKeepsPipeBound(Step(s, acts[0]), acts[1..]);
    }
  }

  /** However many threads queue tasks, at most two task bytes are unread until quit is seen. */
  lemma AtMostTwoUnread(acts: seq<Action>)
    requires AlwaysReports(INIT, acts) && !Run(INIT, acts).isQuit
    ensures var s := Run(INIT, acts);
      TaskBytes(s.pipe) <= 2 && (s.pc.Wait? ==> TaskBytes(s.pipe) <= 1 + NonEmpty(s))
  {
    RunKeepsPipeBound(INIT, acts);
  }

  // ---------------------------------------------------------------- the exit phase has no bound

  const TO_DRAIN: seq<Action> := [Quit, WaitReturns(true), WakeupRead, HandlersDone, LockForSwap, Swap, BatchDone]

  /** One task queued and run while the exit loop of `run` drains the vector. */
  const DRAIN_CYCLE: seq<Action> :=
    [Acquire(1, 0), Push, Wakeup, Release, LockForCheck, CheckEmpty, LockForSwap, Swap, RunTask, BatchDone]

  predicate Draining(s: State) {
    s.pc.DrainLock? && s.holder.Free? && s.functors == [] && s.batch == [] && s.isQuit
  }

  lemma RunCons(s: State, a: Action, rest: seq<Action>)
    ensures Run(s, [a] + rest) == Run(Step(s, a), rest)
  {
    assert ([a] + rest)[1..] == rest;
  }

  lemma Run3(s: State, a: Action, b: Action, c: Action, rest: seq<Action>)
    ensures Run(s, [a] + ([b] + ([c] + rest))) == Run(Step(Step(Step(s, a), b), c), rest)
  {
    hide Run, Step;
    RunCons(s, a, [b] + ([c] + rest));
    RunCons(Step(s, a), b, [c] + rest);
    RunCons(Step(Step(s, a), b), c, rest);
  }

  lemma CycleQueues(s: State)
    requires Draining(s)
    ensures Step(Step(Step(s, Acquire(1, 0)), Push), Wakeup)
         == s.(holder := Pushed(1, false), functors := [0], queued := s.queued + [0], pipe := s.pipe + [TaskByte])
  {
    assert Step(s, Acquire(1, 0)) == s.(holder := Entered(1, 0));
    assert s.functors + [0] == [0];
  }

  lemma CycleChecks(s: State)
    requires s.pc.DrainLock? && s.holder == Pushed(1, false) && s.functors != []
    ensures Step(Step(Step(s, Release), LockForCheck), CheckEmpty) == s.(holder := Free, pc := SwapIn(true))
  {
    assert Step(s, Release) == s.(holder := Free);
  }

  lemma CycleRuns(s: State)
    requires s.pc == SwapIn(true) && s.holder.Free? && s.functors == [0]
    ensures Step(Step(Step(s, LockForSwap), Swap), RunTask)
         == s.(pc := Running(true), functors := [], batch := [], ran := s.ran + [0])
  {
    assert Step(s, LockForSwap) == s.(pc := Swapping(true), holder := ByLoop);
    assert [0][1..] == [];
  }

  lemma DrainCycle(s: State)
    requires Draining(s)
    ensures Draining(Run(s, DRAIN_CYCLE)) && Run(s, DRAIN_CYCLE).pipe == s.pipe + [TaskByte]
  {
    var r2 := [LockForSwap] + ([Swap] + ([RunTask] + [BatchDone]));
    var r1 := [Release] + ([LockForCheck] + ([CheckEmpty] + r2));
    assert DRAIN_CYCLE == [Acquire(1, 0)] + ([Push] + ([Wakeup] + r1));
    hide Run, Enabled;
    Run3(s, Acquire(1, 0), Push, Wakeup, r1);
    CycleQueues(s);
    var s3 := Step(Step(Step(s, Acquire(1, 0)), Push), Wakeup);
    Run3(s3, Release, LockForCheck, CheckEmpty, r2);
    CycleChecks(s3);
    var s6 := s3.(holder := Free, pc := SwapIn(true));
    Run3(s6, LockForSwap, Swap, RunTask, [BatchDone]);
    CycleRuns(s6);
    var s9 := s6.(pc := Running(true), functors := [], batch := [], ran := s6.ran + [0]);
    RunOne(s9, BatchDone);
    BatchDoneInDrain(s9);
  }

  lemma BatchDoneInDrain(s: State)
    requires s.pc.Running? && s.batch == [] && (s.pc.drain || s.isQuit)
    ensures Step(s, BatchDone) == s.(pc := DrainLock)
  {
  }

  lemma ToBatch(s: State)
    requires s.pc == Handle(false) && s.holder.Free? && s.functors == [] && s.batch == []
    ensures Step(Step(Step(s, HandlersDone), LockForSwap), Swap) == s.(pc := Running(false))
  {
    assert Step(s, HandlersDone) == s.(pc := SwapIn(false));
  }

  lemma ToDrain()
    ensures Draining(Run(INIT, TO_DRAIN)) && Run(INIT, TO_DRAIN).pipe == []
  {
    var r := [HandlersDone] + ([LockForSwap] + ([Swap] + [BatchDone]));
    assert TO_DRAIN == [Quit] + ([WaitReturns(true)] + ([WakeupRead] + r));
    var s3 := INIT.(pc := Handle(false), isQuit := true);
    assert Step(INIT, Quit).pipe == [QuitByte];
    assert Step(Step(Step(INIT, Quit), WaitReturns(true)), WakeupRead) == s3 by { assert [QuitByte][1..] == []; }
    ToBatch(s3);
    hide Run, Enabled, Step;
    Run3(INIT, Quit, WaitReturns(true), WakeupRead, r);
    Run3(s3, HandlersDone, LockForSwap, Swap, [BatchDone]);
    RunOne(s3.(pc := Running(false)), BatchDone);
    BatchDoneInDrain(s3.(pc := Running(false)));
  }

  function DrainRun(n: nat): seq<Action> {
    if n == 0 then TO_DRAIN else DrainRun(n - 1) + DRAIN_CYCLE
  }

  /** No wait of the run comes back without the wake channel. */
  predicate AlwaysWakes(acts: seq<Action>) { forall a :: a in acts ==> a != WaitReturns(false) }

  lemma {:induction false} WakesReport(s: State, acts: seq<Action>)
    requires AlwaysWakes(acts)
    ensures AlwaysReports(s, acts)
    decreases |acts|
  {
    hide Step;
    if acts != [] {
      assert acts[0] in acts && forall a :: a in acts[1..] ==> a in acts;
      WakesReport(Step(s, acts[0]), acts[1..]);
    }
  }

  lemma {:induction false} DrainRunWakes(n: nat)
    ensures AlwaysWakes(DrainRun(n))
  {
    if n > 0 { DrainRunWakes(n - 1); }
  }

  /** The bound is exact about quit: once it is seen, unread task bytes can pile up without
      limit, because the exit loop runs tasks but never reads the pipe. Every wait of these runs
      reports the wake channel. */
  lemma {:induction false} DrainFillsPipe(n: nat)
    ensures Draining(Run(INIT, DrainRun(n))) && TaskBytes(Run(INIT, DrainRun(n)).pipe) == n
    ensures AlwaysReports(INIT, DrainRun(n))
  {
    DrainRunWakes(n);
    WakesReport(INIT, DrainRun(n));
    if n == 0 {
      ToDrain();
    } else {
      DrainFillsPipe(n - 1);
      var s := Run(INIT, DrainRun(n - 1));
      RunAppend(INIT, DrainRun(n - 1), DRAIN_CYCLE);
      DrainCycle(s);
      TaskBytesSnoc(s.pipe, TaskByte);
    }
  }
}
