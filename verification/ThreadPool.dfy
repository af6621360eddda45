/** The thread pool (include/angel/thread_pool.h): a task queue under a mutex, workers that sleep on
    a condition variable, and shutdown.

    Every critical section is one action, and so is every notification, which is sent after the
    mutex is released; a run is any sequence of actions. `executor` tests the pool's state before
    it takes the mutex, so a task can still arrive after a shutdown has begun. */
module ThreadPool {

  type Task = nat

  datatype Phase = Running | Shutdown | Stop

  datatype Policy = Fixed | Cached

  datatype Worker =
    | AtLock            // about to look at the queue
    | Asleep            // in condvar.wait
    | Busy(task: Task)
    | AtCheck           // about to look whether to exit
    | Exited

  datatype Pool = Pool(
    policy: Policy,
    phase: Phase,
    queue: seq<Task>,
    workers: seq<Worker>,
    notices: nat,           // notify_one calls still to be made
    broadcast: bool,        // a notify_all call is still to be made
    submitted: seq<Task>,   // history
    started: seq<Task>,
    finished: seq<Task>,
    stopped: bool,          // stop was called
    late: nat)              // tasks that arrived after the pool left Running

  function Fresh(policy: Policy, n: nat): Pool {
    Pool(policy, Running, [], seq(n, i => AtLock), 0, false, [], [], [], false, 0)
  }

  datatype Action =
    | Submit(task: Task)
    | Notify(i: nat)        // worker i is the one chosen
    | Spurious(i: nat)
    | Leave(to: Phase)      // shutdown or stop, up to the notification
    | Broadcast
    | Look(i: nat)
    | RunTask(i: nat)
    | Check(i: nat)

  predicate Is(s: Pool, i: nat, w: Worker) { i < |s.workers| && s.workers[i] == w }

  predicate NoneAsleep(s: Pool) { forall i :: 0 <= i < |s.workers| ==> !s.workers[i].Asleep? }

  predicate Enabled(s: Pool, a: Action) {
    match a
    case Submit(_) => s.workers != []
    case Notify(i) => s.notices > 0 && (Is(s, i, Asleep) || NoneAsleep(s))
    case Spurious(i) => Is(s, i, Asleep)
    case Leave(to) => !to.Running?
    case Broadcast => s.broadcast
    case Look(i) => Is(s, i, AtLock)
    case RunTask(i) => i < |s.workers| && s.workers[i].Busy?
    case Check(i) => Is(s, i, AtCheck)
  }

  function Awake(w: Worker): Worker { if w.Asleep? then AtLock else w }

  function Next(s: Pool, a: Action): Pool
    requires Enabled(s, a)
  {
    match a
    case Submit(task) =>
      s.(workers := if s.policy.Cached? && |s.queue| == |s.workers| then s.workers + [AtLock] else s.workers,
         queue := s.queue + [task], submitted := s.submitted + [task], notices := s.notices + 1,
         late := if s.phase.Running? then s.late else s.late + 1)
    case Notify(i) =>
      s.(notices := s.notices - 1, workers := if Is(s, i, Asleep) then s.workers[i := AtLock] else s.workers)
    case Spurious(i) => s.(workers := s.workers[i := AtLock])
    case Leave(to) => s.(phase := to, broadcast := true, stopped := s.stopped || to.Stop?)
    case Broadcast =>
      s.(broadcast := false, workers := seq(|s.workers|, i requires 0 <= i < |s.workers| => Awake(s.workers[i])))
    case Look(i) =>
      if s.phase.Running? && s.queue == [] then s.(workers := s.workers[i := Asleep])
      else if s.phase.Stop? then s.(workers := s.workers[i := Exited])
      else if s.queue != [] then
        s.(workers := s.workers[i := Busy(s.queue[0])], queue := s.queue[1..], started := s.started + [s.queue[0]])
      else s.(workers := s.workers[i := AtCheck])
    case RunTask(i) =>
      s.(workers := s.workers[i := AtCheck], finished := s.finished + [s.workers[i].task])
    case Check(i) =>
      s.(workers := s.workers[i := if s.phase.Shutdown? && s.queue == [] then Exited else AtLock])
  }

  function Step(s: Pool, a: Action): Pool { if Enabled(s, a) then Next(s, a) else s }

  function Run(s: Pool, acts: seq<Action>): Pool
    decreases |acts|
  {
    if acts == [] then s else Run(Step(s, acts[0]), acts[1..])
  }

  // ---------------------------------------------------------------- invariant

  /** The tasks being run. */
  function InHand(ws: seq<Worker>): multiset<Task> {
    if ws == [] then multiset{} else Held(ws[0]) + InHand(ws[1..])
  }

  function Held(w: Worker): multiset<Task> { if w.Busy? then multiset{w.task} else multiset{} }

  lemma InHandUpdate(ws: seq<Worker>, i: nat, w: Worker)
    requires i < |ws|
    ensures InHand(ws[i := w]) + Held(ws[i]) == InHand(ws) + Held(w)
  {
    hide Held;
    if i == 0 {
      assert ws[0 := w][1..] == ws[1..];
    } else {
      assert ws[i := w][1..] == ws[1..][i - 1 := w];
      InHandUpdate(ws[1..], i - 1, w);
      Shift(Held(ws[0]), InHand(ws[1..][i - 1 := w]), Held(ws[i]), InHand(ws[1..]), Held(w));
    }
  }

  lemma Shift(h: multiset<Task>, a: multiset<Task>, x: multiset<Task>, b: multiset<Task>, y: multiset<Task>)
    requires a + x == b + y
    ensures h + a + x == h + b + y
  {
    assert h + a + x == h + (a + x);
  }

  lemma InHandSame(ws: seq<Worker>, vs: seq<Worker>)
    requires |ws| == |vs| && forall i :: 0 <= i < |ws| ==> Held(ws[i]) == Held(vs[i])
    ensures InHand(ws) == InHand(vs)
  {
    if ws != [] {
      assert Held(ws[0]) == Held(vs[0]);
      forall i | 0 <= i < |ws| - 1 ensures Held(ws[1..][i]) == Held(vs[1..][i]) {
        assert Held(ws[i + 1]) == Held(vs[i + 1]);
      }
      InHandSame(ws[1..], vs[1..]);
    }
  }

  lemma InHandSnoc(ws: seq<Worker>)
    ensures InHand(ws + [AtLock]) == InHand(ws)
  {
    if ws != [] {
      assert (ws + [AtLock])[1..] == ws[1..] + [AtLock];
      InHandSnoc(ws[1..]);
    }
  }

  /** Tasks leave the queue in the order they came, and each one started is running or finished. */
  predicate Conserved(s: Pool) {
    && s.submitted == s.started + s.queue
    && multiset(s.started) == multiset(s.finished) + InHand(s.workers)
  }

  /** A worker that will look at the queue again. */
  predicate Alert(w: Worker) { !w.Asleep? && !w.Exited? }

  predicate SomeAlert(s: Pool) { exists i :: 0 <= i < |s.workers| && Alert(s.workers[i]) }

  predicate SomeExited(s: Pool) { exists i :: 0 <= i < |s.workers| && s.workers[i].Exited? }

  predicate Attended(s: Pool) {
    && s.workers != []
    && (s.phase.Running? ==> !SomeExited(s) && s.late == 0 && !s.stopped)
    && (s.phase.Running? && s.queue != [] ==> s.notices > 0 || SomeAlert(s))
    && (!s.phase.Running? && !s.broadcast ==> NoneAsleep(s))
    && (s.phase.Stop? ==> s.stopped)
    && (!s.stopped && SomeExited(s) ==> |s.queue| <= s.late)
  }

  predicate Inv(s: Pool) { Conserved(s) && Attended(s) }

  /** A worker changes what it does but not what it holds. */
  lemma SameHands(s: Pool, i: nat, w: Worker)
    requires i < |s.workers| && Held(w) == Held(s.workers[i])
    ensures InHand(s.workers[i := w]) == InHand(s.workers)
  {
    hide Held;
    InHandUpdate(s.workers, i, w);
    var a, b, h := InHand(s.workers[i := w]), InHand(s.workers), Held(w);
    assert a == a + h - h == b + h - h == b;
  }

  lemma TakeConserves(s: Pool, i: nat)
    requires Conserved(s) && Is(s, i, AtLock) && s.queue != []
    ensures Conserved(s.(workers := s.workers[i := Busy(s.queue[0])], queue := s.queue[1..], started := s.started + [s.queue[0]]))
  {
    hide InHand;
    var t := s.queue[0];
    InHandUpdate(s.workers, i, Busy(t));
    var before, after := InHand(s.workers), InHand(s.workers[i := Busy(t)]);
    assert after == after + Held(AtLock) == before + multiset{t};
    assert multiset(s.started + [t]) == multiset(s.started) + multiset{t};
    assert multiset(s.finished) + before + multiset{t} == multiset(s.finished) + after;
    assert s.queue == [s.queue[0]] + s.queue[1..];
    assert s.started + s.queue == s.started + [s.queue[0]] + s.queue[1..];
  }

  lemma FinishConserves(s: Pool, i: nat)
    requires Conserved(s) && i < |s.workers| && s.workers[i].Busy?
    ensures Conserved(s.(workers := s.workers[i := AtCheck], finished := s.finished + [s.workers[i].task]))
  {
    hide InHand;
    var t := s.workers[i].task;
    InHandUpdate(s.workers, i, AtCheck);
    var before, after := InHand(s.workers), InHand(s.workers[i := AtCheck]);
    assert before == before + Held(AtCheck) == after + multiset{t};
    assert multiset(s.finished + [t]) == multiset(s.finished) + multiset{t};
    assert multiset(s.finished) + (after + multiset{t}) == multiset(s.finished) + multiset{t} + after;
  }

  lemma SubmitConserves(s: Pool, task: Task)
    requires Conserved(s) && s.workers != []
    ensures Conserved(Next(s, Submit(task)))
  {
    InHandSnoc(s.workers);
    hide InHand;
    assert s.started + s.queue + [task] == s.started + (s.queue + [task]);
  }

  /** Only workers changed, not what they hold. */
  lemma OthersConserve(s: Pool, r: Pool)
    requires Conserved(s) && InHand(r.workers) == InHand(s.workers)
    requires r.submitted == s.submitted && r.started == s.started && r.finished == s.finished && r.queue == s.queue
    ensures Conserved(r)
  {
  }

  lemma WakeConserves(s: Pool, i: nat)
    requires Conserved(s) && Enabled(s, Notify(i))
    ensures Conserved(Next(s, Notify(i)))
  {
    hide Conserved, InHand;
    if Is(s, i, Asleep) { SameHands(s, i, AtLock); }
    OthersConserve(s, Next(s, Notify(i)));
  }

  lemma BroadcastConserves(s: Pool)
    requires Conserved(s) && s.broadcast
    ensures Conserved(Next(s, Broadcast))
  {
    hide Conserved, InHand;
    InHandSame(s.workers, Next(s, Broadcast).workers);
    OthersConserve(s, Next(s, Broadcast));
  }

  lemma LookConserves(s: Pool, i: nat)
    requires Conserved(s) && Enabled(s, Look(i))
    ensures Conserved(Next(s, Look(i)))
  {
    hide Conserved, InHand;
    if !s.phase.Stop? && s.queue != [] {
      TakeConserves(s, i);
    } else {
      SameHands(s, i, Next(s, Look(i)).workers[i]);
      OthersConserve(s, Next(s, Look(i)));
    }
  }

  lemma CheckConserves(s: Pool, i: nat)
    requires Conserved(s) && Enabled(s, Check(i))
    ensures Conserved(Next(s, Check(i)))
  {
    hide Conserved, InHand;
    SameHands(s, i, Next(s, Check(i)).workers[i]);
    OthersConserve(s, Next(s, Check(i)));
  }

  lemma SpuriousConserves(s: Pool, i: nat)
    requires Conserved(s) && Enabled(s, Spurious(i))
    ensures Conserved(Next(s, Spurious(i)))
  {
    hide Conserved, InHand;
    SameHands(s, i, AtLock);
    OthersConserve(s, Next(s, Spurious(i)));
  }

  lemma StepConserves(s: Pool, a: Action)
    requires Conserved(s)
    ensures Conserved(Step(s, a))
  {
    hide InHand;
    if Enabled(s, a) {
      match a
      case Submit(task) => SubmitConserves(s, task);
      case Notify(i) => WakeConserves(s, i);
      case Spurious(i) => SpuriousConserves(s, i);
      case Leave(to) =>
      case Broadcast => BroadcastConserves(s);
      case Look(i) => LookConserves(s, i);
      case RunTask(i) => FinishConserves(s, i);
      case Check(i) => CheckConserves(s, i);
    }
  }

  lemma BroadcastAttends(s: Pool)
    requires Attended(s) && s.broadcast
    ensures Attended(Next(s, Broadcast))
  {
    var r := Next(s, Broadcast);
    assert forall i :: 0 <= i < |s.workers| ==> r.workers[i] == Awake(s.workers[i]);
    if SomeExited(r) {
      var i :| 0 <= i < |r.workers| && r.workers[i].Exited?;
      assert s.workers[i].Exited?;
    }
    if SomeAlert(s) {
      var i :| 0 <= i < |s.workers| && Alert(s.workers[i]);
      assert Alert(r.workers[i]);
    }
  }

  /** A worker ends up where it will look at the queue again. */
  lemma AlertAttends(s: Pool, r: Pool, i: nat, w: Worker)
    requires Attended(s) && i < |s.workers| && Alert(w) && r.workers == s.workers[i := w]
    requires r.phase == s.phase && r.broadcast == s.broadcast && r.stopped == s.stopped && r.late == s.late
    requires |r.queue| <= |s.queue|
    ensures Attended(r)
  {
    assert Alert(r.workers[i]);
    if SomeExited(r) {
      var j :| 0 <= j < |r.workers| && r.workers[j].Exited?;
      assert s.workers[j].Exited?;
    }
  }

  lemma SubmitAttends(s: Pool, task: Task)
    requires Attended(s)
    ensures Attended(Next(s, Submit(task)))
  {
    var r := Next(s, Submit(task));
    assert forall i :: 0 <= i < |s.workers| ==> r.workers[i] == s.workers[i];
  }

  /** A worker goes to sleep or exits; both only where nothing is left for it. */
  lemma RestAttends(s: Pool, i: nat, w: Worker)
    requires Attended(s) && i < |s.workers|
    requires w.Asleep? ==> s.phase.Running? && s.queue == []
    requires w.Exited? ==> !s.phase.Running? && (s.stopped || s.queue == [])
    ensures Attended(s.(workers := s.workers[i := w]))
  {
    var r := s.(workers := s.workers[i := w]);
    if SomeExited(r) && !SomeExited(s) {
      var j :| 0 <= j < |r.workers| && r.workers[j].Exited?;
      assert j == i;
    }
    if SomeAlert(s) && s.queue != [] && s.phase.Running? {
      var j :| 0 <= j < |s.workers| && Alert(s.workers[j]);
      assert if j == i then Alert(r.workers[i]) else Alert(r.workers[j]);
    }
  }

  lemma StepAttends(s: Pool, a: Action)
    requires Attended(s)
    ensures Attended(Step(s, a))
  {
    if Enabled(s, a) {
      var r := Next(s, a);
      match a
      case Submit(task) => SubmitAttends(s, task);
      case Notify(i) =>
        if Is(s, i, Asleep) { AlertAttends(s, r, i, AtLock); }
        else if s.phase.Running? { assert Alert(s.workers[0]); }
      case Spurious(i) => AlertAttends(s, r, i, AtLock);
      case Leave(to) =>
      case Broadcast => BroadcastAttends(s);
      case Look(i) =>
        if Alert(r.workers[i]) { AlertAttends(s, r, i, r.workers[i]); } else { RestAttends(s, i, r.workers[i]); }
      case RunTask(i) => AlertAttends(s, r, i, AtCheck);
      case Check(i) =>
        if Alert(r.workers[i]) { AlertAttends(s, r, i, AtLock); } else { RestAttends(s, i, Exited); }
    }
  }

  lemma StepKeepsInv(s: Pool, a: Action)
    requires Inv(s)
    ensures Inv(Step(s, a))
  {
    hide Step, Conserved, Attended;
    StepConserves(s, a);
    StepAttends(s, a);
  }

  lemma FreshInv(policy: Policy, n: nat)
    requires n > 0
    ensures Inv(Fresh(policy, n))
  {
    IdleHands(n);
  }

  lemma IdleHands(n: nat)
    ensures InHand(seq(n, i => AtLock)) == multiset{}
  {
    if n > 0 {
      assert seq(n, i => AtLock)[1..] == seq(n - 1, i => AtLock);
      IdleHands(n - 1);
    }
  }

  lemma {:induction false} RunKeepsInv(s: Pool, acts: seq<Action>)
    requires Inv(s)
    ensures Inv(Run(s, acts))
    decreases |acts|
  {
    hide Inv;
    if acts != [] {
      StepKeepsInv(s, acts[0]);
      RunKeepsInv(Step(s, acts[0]), acts[1..]);
    }
  }

  // ---------------------------------------------------------------- results

  predicate AllExited(s: Pool) { forall i :: 0 <= i < |s.workers| ==> s.workers[i].Exited? }

  lemma NothingInHand(ws: seq<Worker>)
    requires forall i :: 0 <= i < |ws| ==> ws[i].Exited?
    ensures InHand(ws) == multiset{}
  {
    if ws != [] {
      assert forall i :: 0 <= i < |ws| - 1 ==> ws[1..][i] == ws[i + 1];
      NothingInHand(ws[1..]);
    }
  }

  /** In every run without `stop` in which no task arrives once shutdown has begun, when all
      workers have exited every submitted task has run exactly once. */
  lemma {:induction false} ShutdownRunsEverything(policy: Policy, n: nat, acts: seq<Action>)
    requires n > 0
    requires var s := Run(Fresh(policy, n), acts); AllExited(s) && !s.stopped && s.late == 0
    ensures var s := Run(Fresh(policy, n), acts);
      s.queue == [] && s.started == s.submitted && multiset(s.finished) == multiset(s.submitted)
  {
    FreshInv(policy, n);
    RunKeepsInv(Fresh(policy, n), acts);
    hide Run;
    var s := Run(Fresh(policy, n), acts);
    assert s.workers[0].Exited?;
    NothingInHand(s.workers);
    assert s.submitted == s.started + [];
  }

  /** Whatever happens, tasks start in the order of their submission and none twice; a task left
      behind by a shutdown is one that came late. */
  lemma {:induction false} StartedInOrder(policy: Policy, n: nat, acts: seq<Action>)
    requires n > 0
    ensures var s := Run(Fresh(policy, n), acts);
      && s.started <= s.submitted
      && multiset(s.finished) <= multiset(s.started)
      && (AllExited(s) && !s.stopped ==> |s.submitted| - |s.started| <= s.late)
  {
    FreshInv(policy, n);
    RunKeepsInv(Fresh(policy, n), acts);
    hide Run;
    var s := Run(Fresh(policy, n), acts);
    if AllExited(s) { assert s.workers[0].Exited?; }
  }

  /** The tasks pushed since the last state in which some worker had not exited; a push that adds a
      worker is such a state itself. */
  function Strays(s: Pool, acts: seq<Action>, k: nat): nat
    decreases |acts|
  {
    if acts == [] then k
    else
      Strays(Step(s, acts[0]), acts[1..], Stray(s, acts[0], k))
  }

  /** The count after one action. */
  function Stray(s: Pool, a: Action, k: nat): nat {
    if !AllExited(Step(s, a)) then 0 else if a.Submit? && Enabled(s, a) then k + 1 else k
  }

  /** The last worker to exit leaves an empty queue, and then only pushes change it. */
  lemma StepStrays(s: Pool, a: Action)
    requires Attended(s) && AllExited(Step(s, a)) && !Step(s, a).stopped
    ensures !s.stopped
    ensures Step(s, a).queue ==
      if !AllExited(s) then [] else if a.Submit? then s.queue + [a.task] else s.queue
  {
    var t := Step(s, a);
    assert Attended(t) by { StepAttends(s, a); }
    assert t.workers[0].Exited?;
    if !AllExited(s) {
      var j :| 0 <= j < |s.workers| && !s.workers[j].Exited?;
      assert t.workers[j].Exited?;
    } else {
      assert s.workers[0].Exited?;
    }
  }

  /** The queue holds the strays, and nothing else, once all workers have exited. */
  predicate Counted(s: Pool, k: nat) {
    if AllExited(s) then s.stopped || |s.queue| == k else k == 0
  }

  lemma StepCounts(s: Pool, a: Action, k: nat)
    requires Attended(s) && Counted(s, k)
    ensures Counted(Step(s, a), Stray(s, a, k))
  {
    var t := Step(s, a);
    if AllExited(t) && !t.stopped {
      StepStrays(s, a);
      if a.Submit? { NoExitBySubmit(s, a); }
    }
  }

  lemma NoExitBySubmit(s: Pool, a: Action)
    requires a.Submit?
    ensures AllExited(Step(s, a)) ==> AllExited(s)
  {
    forall j | 0 <= j < |s.workers| && AllExited(Step(s, a)) ensures s.workers[j].Exited? {
      assert Step(s, a).workers[j] == s.workers[j];
    }
  }

  lemma {:induction false} StraysAreLeft(s: Pool, acts: seq<Action>, k: nat)
    requires Inv(s) && Counted(s, k)
    ensures Counted(Run(s, acts), Strays(s, acts, k))
    decreases |acts|
  {
    hide Attended, Conserved, Step, Counted, Stray;
    if acts != [] {
      StepKeepsInv(s, acts[0]);
      StepCounts(s, acts[0], k);
      StraysAreLeft(Step(s, acts[0]), acts[1..], Stray(s, acts[0], k));
    }
  }

  /** When all workers have exited without `stop`, the tasks left unrun are exactly the strays, the
      last ones pushed: everything submitted has run once if and only if no task was pushed after
      the last worker exited. */
  lemma {:induction false} LostExactly(policy: Policy, n: nat, acts: seq<Action>)
    requires n > 0
    requires AllExited(Run(Fresh(policy, n), acts)) && !Run(Fresh(policy, n), acts).stopped
    ensures var s := Run(Fresh(policy, n), acts);
      && Strays(Fresh(policy, n), acts, 0) <= |s.submitted|
      && s.started == s.submitted[..|s.submitted| - Strays(Fresh(policy, n), acts, 0)]
      && multiset(s.finished) == multiset(s.started)
      && (s.started == s.submitted <==> Strays(Fresh(policy, n), acts, 0) == 0)
  {
    var f := Fresh(policy, n);
    FreshInv(policy, n);
    RunKeepsInv(f, acts);
    StraysAreLeft(f, acts, 0);
    hide Run, Strays;
    var s := Run(f, acts);
    NothingInHand(s.workers);
    assert s.started == s.submitted[..|s.submitted| - |s.queue|];
  }

  /** The witness: a task that passes the unguarded state test and is pushed after the exit. */
  lemma LateTaskLost()
    ensures var s := Run(Fresh(Fixed, 1), [Leave(Shutdown), Broadcast, Look(0), Check(0), Submit(7)]);
      AllExited(s) && !s.stopped && s.submitted == [7] && s.started == []
  {
    var s0 := Fresh(Fixed, 1);
    assert s0.workers == [AtLock];
    var s2 := Step(Step(s0, Leave(Shutdown)), Broadcast);
    assert s2 == s0.(phase := Shutdown, workers := [AtLock]);
    LateSteps(s2);
    var s4 := Step(Step(s2, Look(0)), Check(0));
    hide Step, Run;
    Two(s0, Leave(Shutdown), Broadcast, [Look(0), Check(0), Submit(7)]);
    Two(s2, Look(0), Check(0), [Submit(7)]);
    LastSubmit(s4);
  }

  lemma LateSteps(s: Pool)
    requires s.phase.Shutdown? && s.queue == [] && s.workers == [AtLock] && s.policy.Fixed?
    ensures Step(Step(s, Look(0)), Check(0)) == s.(workers := [Exited])
  {
    assert Step(s, Look(0)) == s.(workers := [AtCheck]);
  }

  lemma LastSubmit(s: Pool)
    requires s.workers == [Exited] && s.policy.Fixed?
    ensures Run(s, [Submit(7)]).workers == s.workers && Run(s, [Submit(7)]).submitted == s.submitted + [7]
    ensures Run(s, [Submit(7)]).started == s.started && Run(s, [Submit(7)]).stopped == s.stopped
  {
    assert [Submit(7)][1..] == [];
  }

  lemma Two(s: Pool, a: Action, b: Action, rest: seq<Action>)
    ensures Run(s, [a, b] + rest) == Run(Step(Step(s, a), b), rest)
  {
    hide Step;
    var acts := [a, b] + rest;
    assert acts[1..][1..] == rest;
  }

  /** No lost wake-up: while the pool runs, a queued task always has a worker on its way or a
      notification that will find one. */
  lemma {:induction false} QueuedTaskAttended(policy: Policy, n: nat, acts: seq<Action>)
    requires n > 0
    ensures var s := Run(Fresh(policy, n), acts);
      s.phase.Running? && s.queue != [] ==> s.notices > 0 || SomeAlert(s)
  {
    FreshInv(policy, n);
    RunKeepsInv(Fresh(policy, n), acts);
  }

  // ---------------------------------------------------------------- shutdown ends

  /** How far worker w is from its exit, or from its next look at the queue. */
  function Distance(w: Worker, empty: bool): nat {
    match w
    case AtLock => if empty then 2 else 0
    case Busy(_) => 3
    case AtCheck => if empty then 1 else 2
    case Asleep => 0
    case Exited => 0
  }

  function Distances(ws: seq<Worker>, empty: bool): nat {
    if ws == [] then 0 else Distance(ws[0], empty) + Distances(ws[1..], empty)
  }

  lemma DistancesUpdate(ws: seq<Worker>, i: nat, w: Worker, empty: bool)
    requires i < |ws|
    ensures Distances(ws[i := w], empty) + Distance(ws[i], empty) == Distances(ws, empty) + Distance(w, empty)
  {
    if i == 0 {
      assert ws[0 := w][1..] == ws[1..];
    } else {
      assert ws[i := w][1..] == ws[1..][i - 1 := w];
      DistancesUpdate(ws[1..], i - 1, w, empty);
    }
  }

  predicate ByWorker(a: Action) { a.Look? || a.RunTask? || a.Check? }

  /** Once a shutdown has been announced, every step of a worker brings the pool closer to its end:
      the queue gets shorter, or it stays and some worker gets nearer to its exit. */
  lemma {:induction false} ShutdownProgress(s: Pool, a: Action)
    requires s.phase.Shutdown? && ByWorker(a) && Enabled(s, a)
    ensures var r := Next(s, a);
      |r.queue| < |s.queue|
      || (r.queue == s.queue && Distances(r.workers, s.queue == []) < Distances(s.workers, s.queue == []))
  {
    var r := Next(s, a);
    var i := a.i;
    DistancesUpdate(s.workers, i, r.workers[i], s.queue == []);
  }

  /** Until all workers have exited, one of them can take a step. */
  lemma {:induction false} ShutdownNotStuck(s: Pool)
    requires Inv(s) && s.phase.Shutdown? && !s.broadcast && !AllExited(s)
    ensures exists a :: ByWorker(a) && Enabled(s, a)
  {
    var i :| 0 <= i < |s.workers| && !s.workers[i].Exited?;
    match s.workers[i]
    case AtLock => assert Enabled(s, Look(i));
    case Busy(_) => assert Enabled(s, RunTask(i));
    case AtCheck => assert Enabled(s, Check(i));
  }

  /** From every state of an announced shutdown the workers alone can finish it. */
  lemma {:induction false} ShutdownEnds(s: Pool) returns (acts: seq<Action>)
    requires Inv(s) && s.phase.Shutdown? && !s.broadcast
    ensures (forall a :: a in acts ==> ByWorker(a)) && AllExited(Run(s, acts))
    decreases |s.queue|, Distances(s.workers, s.queue == [])
  {
    if AllExited(s) { return []; }
    ShutdownNotStuck(s);
    var a :| ByWorker(a) && Enabled(s, a);
    StepKeepsInv(s, a);
    ShutdownProgress(s, a);
    var rest := ShutdownEnds(Step(s, a));
    acts := [a] + rest;
    assert acts[1..] == rest;
  }

  // ---------------------------------------------------------------- stop

  /** While the pool is stopping no task is started, whatever else happens, unless a shutdown comes
      after the stop. */
  lemma {:induction false} StopStartsNothing(s: Pool, acts: seq<Action>)
    requires s.phase.Stop? && Leave(Shutdown) !in acts
    ensures var r := Run(s, acts); r.phase.Stop? && r.started == s.started && s.queue <= r.queue
    decreases |acts|
  {
    hide InHand;
    if acts != [] {
      assert acts[0] in acts;
      StopStartsNothing(Step(s, acts[0]), acts[1..]);
    }
  }

  /** How many steps worker w takes to its exit once stop has been announced. */
  function StepsToExit(w: Worker): nat {
    match w
    case AtLock => 1
    case AtCheck => 2
    case Busy(_) => 3
    case Asleep => 0
    case Exited => 0
  }

  function AllSteps(ws: seq<Worker>): nat { if ws == [] then 0 else StepsToExit(ws[0]) + AllSteps(ws[1..]) }

  lemma {:induction false} StepsUpdate(ws: seq<Worker>, i: nat, w: Worker)
    requires i < |ws|
    ensures AllSteps(ws[i := w]) + StepsToExit(ws[i]) == AllSteps(ws) + StepsToExit(w)
  {
    if i == 0 {
      assert ws[0 := w][1..] == ws[1..];
    } else {
      assert ws[i := w][1..] == ws[1..][i - 1 := w];
      StepsUpdate(ws[1..], i - 1, w);
    }
  }

  /** Every step of a worker of a stopped pool is one of the steps to its exit. */
  lemma {:induction false} StopProgress(s: Pool, a: Action)
    requires s.phase.Stop? && ByWorker(a) && Enabled(s, a)
    ensures AllSteps(Next(s, a).workers) == AllSteps(s.workers) - 1
  {
    StepsUpdate(s.workers, a.i, Next(s, a).workers[a.i]);
  }

  /** A worker of a running pool that finds nothing to do is on its way to sleep. */
  lemma {:induction false} IdleProgress(s: Pool, a: Action)
    requires s.phase.Running? && s.queue == [] && ByWorker(a) && Enabled(s, a)
    ensures AllSteps(Next(s, a).workers) == AllSteps(s.workers) - 1
    ensures Next(s, a).phase.Running? && Next(s, a).queue == [] && Next(s, a).started == s.started
  {
    StepsUpdate(s.workers, a.i, Next(s, a).workers[a.i]);
  }

  /** Without new tasks the workers of a running pool take at most so many steps before all of them
      sleep: nobody waits by spinning. */
  lemma {:induction false} IdleSleeps(s: Pool, acts: seq<Action>)
    requires Inv(s) && s.phase.Running? && s.queue == []
    requires forall i :: 0 <= i < |acts| ==> ByWorker(acts[i])
    requires AlwaysEnabled(s, acts)
    ensures |acts| <= AllSteps(s.workers)
    ensures |acts| == AllSteps(s.workers) ==>
      forall i :: 0 <= i < |s.workers| ==> Is(Run(s, acts), i, Asleep)
    decreases |acts|
  {
    hide Conserved, InHand;
    if acts == [] {
      NoStepsMeansRest(s.workers);
      if AllSteps(s.workers) == 0 {
        assert forall i :: 0 <= i < |s.workers| && s.workers[i].Exited? ==> SomeExited(s);
      }
    } else {
      IdleProgress(s, acts[0]);
      StepKeepsInv(s, acts[0]);
      assert |Step(s, acts[0]).workers| == |s.workers|;
      IdleSleeps(Step(s, acts[0]), acts[1..]);
    }
  }

  /** No action of the run has to wait. */
  predicate AlwaysEnabled(s: Pool, acts: seq<Action>)
    decreases |acts|
  {
    acts == [] || (Enabled(s, acts[0]) && AlwaysEnabled(Step(s, acts[0]), acts[1..]))
  }

  lemma NoStepsMeansRest(ws: seq<Worker>)
    ensures AllSteps(ws) == 0 ==> forall i :: 0 <= i < |ws| ==> ws[i].Asleep? || ws[i].Exited?
  {
    if ws != [] {
      NoStepsMeansRest(ws[1..]);
      assert forall i :: 0 < i < |ws| ==> ws[i] == ws[1..][i - 1];
    }
  }

  lemma {:induction false} StopNotStuck(s: Pool)
    requires Inv(s) && s.phase.Stop? && !s.broadcast && !AllExited(s)
    ensures exists a :: ByWorker(a) && Enabled(s, a)
  {
    var i :| 0 <= i < |s.workers| && !s.workers[i].Exited?;
    match s.workers[i]
    case AtLock => assert Enabled(s, Look(i));
    case Busy(_) => assert Enabled(s, RunTask(i));
    case AtCheck => assert Enabled(s, Check(i));
  }

  /** A stopped pool comes to its end after exactly so many steps of its workers; the tasks that are
      running are finished and those still queued are left. */
  lemma {:induction false} StopEnds(s: Pool) returns (acts: seq<Action>)
    requires Inv(s) && s.phase.Stop? && !s.broadcast
    ensures |acts| == AllSteps(s.workers) && forall a :: a in acts ==> ByWorker(a)
    ensures var r := Run(s, acts);
      && AllExited(r) && r.started == s.started && r.queue == s.queue
      && multiset(r.finished) == multiset(r.started)
    decreases AllSteps(s.workers)
  {
    hide Conserved;
    if AllExited(s) {
      acts := [];
      NoStepsLeft(s.workers);
      AllFinished(s);
    } else {
      StopNotStuck(s);
      var a :| ByWorker(a) && Enabled(s, a);
      StepKeepsInv(s, a);
      StopProgress(s, a);
      var rest := StopEnds(Step(s, a));
      acts := [a] + rest;
      assert acts[1..] == rest;
    }
  }

  lemma AllFinished(s: Pool)
    requires Conserved(s) && AllExited(s)
    ensures multiset(s.finished) == multiset(s.started)
  {
    NothingInHand(s.workers);
  }

  lemma NoStepsLeft(ws: seq<Worker>)
    requires forall i :: 0 <= i < |ws| ==> ws[i].Exited?
    ensures AllSteps(ws) == 0
  {
    if ws != [] {
      assert forall i :: 0 <= i < |ws| - 1 ==> ws[1..][i] == ws[i + 1];
      NoStepsLeft(ws[1..]);
    }
  }

  // ---------------------------------------------------------------- the number of workers

  /** A worker is added exactly when a task is pushed to a cached pool whose queue is as long as its
      list of workers, and none ever leaves the list. */
  lemma WorkersGrow(s: Pool, a: Action)
    ensures |Step(s, a).workers| ==
      |s.workers| + if a.Submit? && s.workers != [] && s.policy.Cached? && |s.queue| == |s.workers| then 1 else 0
    ensures Step(s, a).policy == s.policy
  {
  }

  /** A fixed pool keeps its size, and a cached one grows by at most one worker for each task. */
  lemma {:induction false} PoolSize(s: Pool, acts: seq<Action>)
    ensures var r := Run(s, acts);
      && (s.policy.Fixed? ==> |r.workers| == |s.workers|)
      && |s.workers| <= |r.workers| && |r.workers| + |s.submitted| <= |s.workers| + |r.submitted|
    decreases |acts|
  {
    hide Step;
    if acts != [] {
      WorkersGrow(s, acts[0]);
      SubmittedGrows(s, acts[0]);
      PoolSize(Step(s, acts[0]), acts[1..]);
    }
  }

  lemma SubmittedGrows(s: Pool, a: Action)
    ensures Step(s, a).submitted == if a.Submit? && s.workers != [] then s.submitted + [a.task] else s.submitted
  {
  }
}
