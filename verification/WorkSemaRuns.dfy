/** What holds over whole runs of `WorkSema`: nothing notified is lost, a
    successful wait for empty means what it says, and every sleeper is woken. */
module WorkSemaRuns {
  import opened WorkSemaWord
  import opened WorkSemaProtocol

  /** `run` is a run of the system from `run[0]` taking `steps`. */
  ghost predicate IsRun(run: seq<State>, steps: seq<Step>) {
    && |run| == |steps| + 1
    && forall i | 0 <= i < |steps| :: Enabled(run[i], steps[i]) && run[i + 1] == Next(run[i], steps[i])
  }

  /** A run from the initial state in which fewer than 2^29 notifications fall
      between two stores of the word by the worker. */
  ghost predicate IsExecution(run: seq<State>, steps: seq<Step>) {
    && IsRun(run, steps)
    && run[0] == Init
    && forall i | 0 <= i < |run| :: Fits(run[i])
  }

  /** Safety: every state of every execution satisfies the invariant. */
  lemma {:induction false} ExecutionSafe(run: seq<State>, steps: seq<Step>, i: nat)
    requires IsExecution(run, steps) && i < |run|
    ensures Inv(run[i])
  {
    if i > 0 {
      ExecutionSafe(run, steps, i - 1);
      ExecutionStep(run, steps, i - 1);
      InvInductive(run[i - 1], steps[i - 1]);
    }
  }

  lemma ExecutionStep(run: seq<State>, steps: seq<Step>, i: nat)
    requires IsExecution(run, steps) && i < |steps|
    ensures Fits(run[i]) && Enabled(run[i], steps[i]) && Fits(Next(run[i], steps[i])) && run[i + 1]
            == Next(run[i], steps[i])
  {
    var after := run[i + 1];
    assert Fits(after);
  }

  // ---- WaitForEmpty ----

  /** The wait called at step `from` is the one in progress, or just over, in state `to`. */
  ghost predicate SameWait(steps: seq<Step>, start: nat, stop: nat) {
    && start < stop <= |steps|
    && steps[start].CallWaitEmpty?
    && forall k | start < k < stop :: !steps[k].CallWaitEmpty?
  }

  lemma {:induction false} DueIsNotifiedAtCall(run: seq<State>, steps: seq<Step>, start: nat, stop: nat)
    requires IsRun(run, steps) && SameWait(steps, start, stop)
    ensures !run[stop].waiter.Outside? && run[stop].waiter.due == run[start].notified
    decreases stop
  {
    if stop > start + 1 {
      DueIsNotifiedAtCall(run, steps, start, stop - 1);
    }
  }

  /** When `WaitForEmpty` or `WaitForEmptyWithSpin` returns true, every item whose
      `NotifyOfWork` had returned before the call has been processed, whichever
      calls the worker uses to look for work. */
  lemma EmptyMeansProcessed(run: seq<State>, steps: seq<Step>, start: nat, stop: nat)
    requires IsExecution(run, steps) && SameWait(steps, start, stop)
    requires run[stop].waiter.Returned? && run[stop].waiter.result
    ensures run[start].notified <= run[stop].processed
  {
    DueIsNotifiedAtCall(run, steps, start, stop);
    ExecutionSafe(run, steps, stop);
  }

  /** The result a wait would give, or has given, is false. */
  predicate SeesDeath(s: State) {
    IsDead(s.word) || (s.waiter.Returned? && !s.waiter.result)
  }

  lemma OnlyKillKills(s: State, step: Step)
    requires WordInv(s) && Enabled(s, step) && Fits(Next(s, step))
    requires !SeesDeath(s) && SeesDeath(Next(s, step))
    ensures step.Kill?
  {
    if step.Add? {
      FetchAddIsNotify(s.word);
    }
  }

  /** When it returns false the worker has died: a `Kill` came before the return. */
  lemma {:induction false} FalseMeansKilled(run: seq<State>, steps: seq<Step>, stop: nat)
    requires IsExecution(run, steps) && stop < |run|
    requires SeesDeath(run[stop])
    ensures exists k :: 0 <= k < stop && steps[k].Kill?
  {
    if stop > 0 {
      ExecutionSafe(run, steps, stop - 1);
      if SeesDeath(run[stop - 1]) {
        FalseMeansKilled(run, steps, stop - 1);
      } else {
        OnlyKillKills(run[stop - 1], steps[stop - 1]);
      }
    }
  }

  // ---- nobody is left asleep ----

  /** A worker with no wake-up token and no notifier on its way to post one has
      processed every item whose notification reached the word. */
  lemma NoLostWakeup(s: State)
    requires Inv(s) && Asleep(s.worker) && s.sema == 0 && s.atPost == {}
    ensures s.word == STATE_SLEEPING && s.notified <= s.processed
  {
    NothingPending(s);
  }

  /** A blocked waiter either has its token, is owed it by the worker, or stands
      in the word, where the worker will see it; the worker is then not asleep
      without a token of its own. */
  lemma NoLostWaiter(s: State)
    requires Inv(s) && s.waiter.Blocked?
    ensures s.emptySema > 0 || OwesEmptyPost(s.worker) || FlagRaised(s)
    ensures s.emptySema <= 1
    ensures FlagRaised(s) && Asleep(s.worker) ==> s.sema + |s.atPost| == 1
  {}

  /** Everything asked of the system so far is done: every notification has been
      posted, the waiter has its answer, and unless the worker is dead it sleeps
      and every item ever enqueued has been processed. */
  predicate AtRest(s: State) {
    && s.atAdd == {} && s.atPost == {}
    && WaiterIdle(s.waiter)
    && (s.worker.Dead? || (Asleep(s.worker) && s.queue == {}))
  }

  /** A step of a call under way, or the worker going on with its loop. */
  predicate IsSystemStep(step: Step) {
    !step.Enqueue? && !step.CallWaitEmpty? && !step.Reset? && !step.Kill?
  }

  /** No deadlock: until the system is at rest some thread can go on. */
  lemma SomeoneCanMove(s: State) returns (step: Step)
    requires Inv(s) && !AtRest(s)
    ensures Enabled(s, step) && IsSystemStep(step)
  {
    if s.atAdd != {} {
      var c :| c in s.atAdd;
      return Add(c);
    }
    if s.atPost != {} {
      var c :| c in s.atPost;
      return PostWork(c);
    }
    if s.worker.Dead? || (Asleep(s.worker) && s.sema == 0) {
      if !s.worker.Dead? {
        NoLostWakeup(s);
        assert Pending(s) == s.queue;
      }
      step := if s.waiter.Polling? then ReloadEmpty else if s.waiter.Woken? then FinishEmpty else AcquireEmpty;
    } else {
      step := WorkerMove(s);
    }
  }

  /** What a worker that is neither dead nor asleep without a token can do next. */
  ghost function WorkerMove(s: State): Step {
    match s.worker
    case Working => if c :| c in s.queue then Take(c) else SeeEmpty
    case Drained => CallSleep
    case CheckCas(_) => TryCheck(false)
    case SleepCas(_) => TrySleep(false)
    case SpinCas(_) => TrySpin(false)
    case SpinPoll(_) => Reload
    case Acknowledge => AndWord
    case SleepWait => AcquireWork
    case SpinWait => AcquireWork
    case _ => PostEmpty
  }

  // ---- how soon a sleeper is woken ----

  /** Only the worker's own moves and a post of `m_sema` that is already owed. */
  predicate IsHelp(step: Step) {
    step.PostWork? || step.Take? || step.SeeEmpty? || step.CallSleep? || step.TryCheck? || step.TrySleep?
    || step.TrySpin? || step.Reload? || step.PostEmpty? || step.AcquireWork? || step.AndWord?
  }

  ghost function WakeMove(s: State): Step
    requires Inv(s) && !s.worker.Dead?
    requires Asleep(s.worker) ==> s.word >= 0
  {
    if Asleep(s.worker) && s.sema == 0 then
      assert s.atPost != {};
      var c :| c in s.atPost;
      PostWork(c)
    else WorkerMove(s)
  }

  /** Steps to the worker picking up item `c`. */
  function StepsToTake(s: State): (n: nat)
    ensures n <= 5
  {
    match s.worker
    case Working => 1
    case Drained => 1
    case Acknowledge => 2
    case CheckPost => 2
    case CheckCas(v) => if v == s.word then 2 else 3
    case SleepCas(v) => if v == s.word then 2 else 3
    case SpinCas(_) => 3
    case SpinPoll(_) => 3
    case SpinPost => 4
    case SleepPost => 5
    case _ => if s.sema > 0 then 3 else 4
  }

  /** A worker that is neither asleep nor between calls comes closer to the queue. */
  lemma WorkerMoveWakes(s: State)
    requires WordInv(s) && PendingInv(s) && Pending(s) != {}
    requires !s.worker.Dead? && !s.worker.KillPost? && !s.worker.Working? && !s.worker.Drained? && !Asleep(s.worker)
    ensures Enabled(s, WorkerMove(s)) && IsHelp(WorkerMove(s))
    ensures var t := Next(s, WorkerMove(s));
            && t.queue == s.queue && t.atAdd == s.atAdd && t.adds <= s.adds
            && !t.worker.Dead? && !t.worker.KillPost?
            && StepsToTake(t) < StepsToTake(s)
  {
    match s.worker
    case CheckCas(_) =>
    case SleepCas(_) =>
    case SpinCas(_) =>
    case SpinPoll(_) =>
    case _ =>
  }

  lemma WakeMoveHelps(s: State, c: CallId)
    requires Inv(s) && Fits(s) && c in Pending(s)
    requires !s.worker.Dead? && !s.worker.KillPost? && !s.worker.Working? && !s.worker.Drained?
    ensures Asleep(s.worker) ==> s.word >= 0
    ensures var step := WakeMove(s);
            && IsHelp(step) && Enabled(s, step) && Fits(Next(s, step))
            && c in Pending(Next(s, step))
            && StepsToTake(Next(s, step)) < StepsToTake(s)
            && !Next(s, step).worker.Dead? && !Next(s, step).worker.KillPost?
  {
    var step := WakeMove(s);
    if !Asleep(s.worker) {
      WorkerMoveWakes(s);
    } else if step.PostWork? {
      PostWakes(s, step, c);
    } else {
      TokenWakes(s, step, c);
    }
  }

  lemma PostWakes(s: State, step: Step, c: CallId)
    requires Asleep(s.worker) && s.sema == 0 && step.PostWork? && step.c in s.atPost && c in Pending(s)
    ensures var t := Next(s, step);
            && c in Pending(t) && t.adds == s.adds && t.worker == s.worker && StepsToTake(t) < StepsToTake(s)
  {}

  lemma TokenWakes(s: State, step: Step, c: CallId)
    requires Asleep(s.worker) && s.sema > 0 && step.AcquireWork? && c in Pending(s)
    ensures Enabled(s, step)
    ensures var t := Next(s, step);
            && c in Pending(t) && t.adds == s.adds && t.worker.Acknowledge? && StepsToTake(t) < StepsToTake(s)
  {}

  lemma RunPrepends(s: State, step: Step, run: seq<State>, steps: seq<Step>)
    requires Enabled(s, step) && IsRun(run, steps) && run[0] == Next(s, step)
    ensures IsRun([s] + run, [step] + steps)
    ensures ([s] + run)[|steps| + 1] == run[|steps|]
  {
    var r, p := [s] + run, [step] + steps;
    forall i | 0 <= i < |p|
      ensures Enabled(r[i], p[i]) && r[i + 1] == Next(r[i], p[i])
    {
      if i > 0 {
        assert r[i] == run[i - 1] && p[i] == steps[i - 1];
      }
    }
  }

  lemma HelpPrepends(step: Step, steps: seq<Step>)
    requires IsHelp(step) && forall other | other in steps :: IsHelp(other)
    ensures forall other | other in [step] + steps :: IsHelp(other)
  {}

  lemma OneStep(s: State, step: Step)
    requires Enabled(s, step)
    ensures IsRun([s, Next(s, step)], [step])
  {}

  lemma TakeProcesses(s: State, c: CallId)
    requires c in Pending(s) && (s.worker.Working? || s.worker.Drained?)
    ensures Enabled(s, Take(c)) && IsHelp(Take(c)) && c in Next(s, Take(c)).processed
  {}

  /** From every reachable state in which the notification of item `c` has reached the
      word, whether or not its call has returned, and `c` is not processed, and the
      worker lives, at most five steps of the worker and of a notifier that already
      owes a post take `c` off the queue: no thread blocks for good with notified work
      pending. */
  lemma {:induction false} WorkIsTakenSoon(s: State, c: CallId) returns (run: seq<State>, steps: seq<Step>)
    requires Inv(s) && Fits(s) && c in Pending(s)
    requires !s.worker.Dead? && !s.worker.KillPost?
    ensures IsRun(run, steps) && run[0] == s && |steps| <= StepsToTake(s)
    ensures forall step | step in steps :: IsHelp(step)
    ensures c in run[|steps|].processed
    decreases StepsToTake(s)
  {
    if s.worker.Working? || s.worker.Drained? {
      TakeProcesses(s, c);
      OneStep(s, Take(c));
      return [s, Next(s, Take(c))], [Take(c)];
    }
    WakeMoveHelps(s, c);
    var step := WakeMove(s);
    InvInductive(s, step);
    var t := Next(s, step);
    var restRun, rest := WorkIsTakenSoon(t, c);
    RunPrepends(s, step, restRun, rest);
    HelpPrepends(step, rest);
    run, steps := [s] + restRun, [step] + rest;
  }

  /** What brings a waiter closer to its answer: its own move when it has one,
      otherwise the worker emptying the queue and going to sleep. */
  ghost function AnswerMove(s: State): Step
    requires Inv(s) && !WaiterIdle(s.waiter)
  {
    if s.waiter.Polling? then TryEmpty(false, false)
    else if s.waiter.Woken? then FinishEmpty
    else if s.emptySema > 0 then AcquireEmpty
    else if OwesEmptyPost(s.worker) then PostEmpty
    else
      assert FlagRaised(s);
      WakeMove(s)
  }

  /** Steps to the return of a wait for empty, with `left` items in the queue. */
  function StepsToAnswer(s: State, left: nat): (n: nat)
    ensures n <= left + 12
  {
    if WaiterIdle(s.waiter) then 0
    else if s.waiter.Woken? then 1
    else if s.waiter.Polling? then left + if s.waiter.value == s.word then 11 else 12
    else if s.emptySema > 0 then 2
    else if OwesEmptyPost(s.worker) then 3
    else WorkerStepsToSleep(s, left, Low(s.word) > 0)
  }

  /** Worker steps until it has posted the waiter and the waiter has returned. */
  function WorkerStepsToSleep(s: State, left: nat, busy: bool): nat {
    match s.worker
    case Working => left + if busy then 9 else 6
    case Drained => if busy then left + 8 else 5
    case CheckCas(v) => left + if v != s.word then 8 else if busy then 7 else 4
    case SleepCas(v) => if busy then left + (if v == s.word then 7 else 8) else if v == s.word then 4 else 5
    case SpinCas(v) => left + if v != s.word then 8 else 4
    case Acknowledge => left + 7
    case SpinPoll(_) => left + 8
    case _ => left + if s.sema > 0 then 8 else 9
  }

  lemma WaiterMoveHelps(s: State)
    requires WordInv(s) && EmptyTokens(s) && !WaiterIdle(s.waiter)
    requires !s.waiter.Blocked? || s.emptySema > 0 || OwesEmptyPost(s.worker)
    ensures var step := if s.waiter.Polling? then TryEmpty(false, false) else if s.waiter.Woken? then FinishEmpty
                        else if s.emptySema > 0 then AcquireEmpty else PostEmpty;
            && Enabled(s, step) && Next(s, step).queue == s.queue
            && StepsToAnswer(Next(s, step), |s.queue|) < StepsToAnswer(s, |s.queue|)
  {}

  lemma WorkerMoveAnswers(s: State)
    requires WordInv(s) && FlagRaised(s) && s.waiter.Blocked? && s.emptySema == 0
    requires !OwesEmptyPost(s.worker) && !Asleep(s.worker)
    ensures var step := WorkerMove(s);
            && IsHelp(step) && Enabled(s, step) && Next(s, step).adds <= s.adds
            && var t := Next(s, step);
            && t.queue == (if step.Take? then s.queue - {step.c} else s.queue)
            && (step.Take? ==> StepsToAnswer(t, |s.queue| - 1) < StepsToAnswer(s, |s.queue|))
            && (!step.Take? ==> StepsToAnswer(t, |s.queue|) < StepsToAnswer(s, |s.queue|))
  {
    match s.worker
    case Working =>
    case Drained =>
    case CheckCas(_) =>
    case SleepCas(_) =>
    case SpinCas(_) =>
    case SpinPoll(_) =>
    case _ =>
  }

  lemma WorkerMoveHelps(s: State)
    requires Inv(s) && FlagRaised(s) && s.waiter.Blocked? && s.emptySema == 0
    requires !OwesEmptyPost(s.worker)
    ensures var step := WakeMove(s);
            && IsHelp(step) && Enabled(s, step) && Next(s, step).adds <= s.adds
            && StepsToAnswer(Next(s, step), |Next(s, step).queue|) < StepsToAnswer(s, |s.queue|)
  {
    if Asleep(s.worker) {
      SleeperMoveAnswers(s);
    } else {
      WorkerMoveAnswers(s);
      var step := WorkerMove(s);
      if step.Take? {
        TakenOut(s.queue, step.c);
      }
    }
  }

  lemma TakenOut(queue: set<CallId>, c: CallId)
    requires c in queue
    ensures |queue - {c}| == |queue| - 1
  {}

  lemma SleeperMoveAnswers(s: State)
    requires Inv(s) && FlagRaised(s) && s.waiter.Blocked? && s.emptySema == 0 && Asleep(s.worker)
    ensures var step := WakeMove(s);
            && IsHelp(step) && Enabled(s, step)
            && var t := Next(s, step);
            && t.adds <= s.adds && t.queue == s.queue
            && StepsToAnswer(t, |s.queue|) < StepsToAnswer(s, |s.queue|)
  {
    var step := WakeMove(s);
    if step.PostWork? {
      PostAnswers(s, step);
    } else {
      TokenAnswers(s, step);
    }
  }

  lemma PostAnswers(s: State, step: Step)
    requires FlagRaised(s) && s.waiter.Blocked? && s.emptySema == 0 && Asleep(s.worker) && s.sema == 0
    requires step.PostWork? && step.c in s.atPost
    ensures var t := Next(s, step);
            t.queue == s.queue && t.adds <= s.adds && StepsToAnswer(t, |s.queue|) < StepsToAnswer(s, |s.queue|)
  {}

  lemma TokenAnswers(s: State, step: Step)
    requires FlagRaised(s) && s.waiter.Blocked? && s.emptySema == 0 && Asleep(s.worker) && s.sema > 0
    requires step.AcquireWork?
    ensures Enabled(s, step)
    ensures var t := Next(s, step);
            t.queue == s.queue && t.adds <= s.adds && StepsToAnswer(t, |s.queue|) < StepsToAnswer(s, |s.queue|)
  {}


  predicate IsAnswerStep(step: Step) {
    IsHelp(step) || step.TryEmpty? || step.AcquireEmpty? || step.FinishEmpty?
  }

  lemma AnswerMoveHelps(s: State)
    requires Inv(s) && Fits(s) && !WaiterIdle(s.waiter)
    ensures var step := AnswerMove(s);
            && IsAnswerStep(step)
            && Enabled(s, step) && Fits(Next(s, step))
            && StepsToAnswer(Next(s, step), |Next(s, step).queue|) < StepsToAnswer(s, |s.queue|)
  {
    if !s.waiter.Blocked? || s.emptySema > 0 || OwesEmptyPost(s.worker) {
      WaiterMoveHelps(s);
    } else {
      WorkerMoveHelps(s);
    }
  }

  /** From every reachable state a thread waiting for empty can return after at
      most 12 steps and one per queued item, taken by itself, the worker and a
      notifier that already owes a post. */
  lemma {:induction false} WaiterIsAnsweredSoon(s: State) returns (run: seq<State>, steps: seq<Step>)
    requires Inv(s) && Fits(s)
    ensures IsRun(run, steps) && run[0] == s && |steps| <= StepsToAnswer(s, |s.queue|)
    ensures forall step | step in steps :: IsAnswerStep(step)
    ensures WaiterIdle(run[|steps|].waiter)
    decreases StepsToAnswer(s, |s.queue|)
  {
    if WaiterIdle(s.waiter) {
      return [s], [];
    }
    AnswerMoveHelps(s);
    var step := AnswerMove(s);
    InvInductive(s, step);
    var restRun, rest := WaiterIsAnsweredSoon(Next(s, step));
    RunPrepends(s, step, restRun, rest);
    run, steps := [s] + restRun, [step] + rest;
  }
}
