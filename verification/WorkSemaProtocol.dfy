/** `WorkSema` as a transition system. One step is one atomic operation on the
    state word or one semaphore operation of one thread, together with the local
    computation up to that thread's next one. Memory is sequentially consistent. */
module WorkSemaProtocol {
  import opened WorkSemaWord

  /** One call of `NotifyOfWork`, and the work item enqueued just before it. */
  type CallId = nat

  /** Where the worker is. `value` is its local copy of the state word. */
  datatype WorkerPc =
    | Working                   // between calls, possibly with work left in the queue
    | Drained                   // between calls, has seen the queue empty since the last wake
    | CheckCas(value: s32)      // CheckForWork: about to CAS
    | CheckPost                 // CheckForWork: owes a post of m_empty_sema
    | SleepCas(value: s32)      // WaitForWork: about to CAS
    | SleepPost                 // WaitForWork: owes a post of m_empty_sema
    | SleepWait                 // WaitForWork: in m_sema.Wait()
    | SpinCas(value: s32)       // WaitForWorkWithSpin, first loop: about to CAS
    | SpinPost                  // WaitForWorkWithSpin: owes a post of m_empty_sema
    | SpinPoll(value: s32)      // WaitForWorkWithSpin, second loop
    | SpinWait                  // WaitForWorkWithSpin: in m_sema.Wait()
    | Acknowledge               // about to fetch_and(STATE_FLAG_WAITING_EMPTY)
    | KillPost                  // Kill: owes a post of m_empty_sema
    | Dead

  /** Where the one thread that waits for empty is. `due` is a history variable:
      the calls of `NotifyOfWork` that had returned when the wait was called. */
  datatype WaiterPc =
    | Outside
    | Polling(value: s32, due: set<CallId>)   // in the loop, `value` not negative
    | Blocked(due: set<CallId>)               // in m_empty_sema.Wait()
    | Woken(due: set<CallId>)                 // about to load the word for the result
    | Returned(result: bool, due: set<CallId>)

  datatype State = State(
    word: s32,
    sema: nat,
    emptySema: nat,
    queue: set<CallId>,       // enqueued, not yet processed
    processed: set<CallId>,
    atAdd: set<CallId>,       // calls about to fetch_add
    atPost: set<CallId>,      // calls whose fetch_add returned SLEEPING, about to post m_sema
    notified: set<CallId>,    // calls that have returned
    worker: WorkerPc,
    waiter: WaiterPc,
    adds: nat                 // history: fetch_adds since the worker last stored the word
  )

  /** `spurious` lets a weak CAS fail although the word matches. `reloads` marks the
      CAS of `WaitForEmptyWithSpin`, which loads the word again after a failure. */
  datatype Step =
    | Enqueue(c: CallId) | Add(c: CallId) | PostWork(c: CallId)
    | Take(c: CallId) | SeeEmpty
    | CallCheck | TryCheck(spurious: bool)
    | CallSleep | TrySleep(spurious: bool)
    | CallSpin | TrySpin(spurious: bool) | Reload | TrySpinSleep(spurious: bool)
    | PostEmpty | AcquireWork | AndWord
    | Kill | Reset
    | CallWaitEmpty | ReloadEmpty | TryEmpty(spurious: bool, reloads: bool) | AcquireEmpty | FinishEmpty

  const Init := State(STATE_RUNNING_0, 0, 0, {}, {}, {}, {}, {}, Working, Outside, 0)

  predicate WaiterIdle(w: WaiterPc) {
    w.Outside? || w.Returned?
  }

  predicate Enabled(s: State, step: Step) {
    match step
    case Enqueue(c) => c !in s.queue && c !in s.processed
    case Add(c) => c in s.atAdd
    case PostWork(c) => c in s.atPost
    case Take(c) => (s.worker.Working? || s.worker.Drained?) && c in s.queue
    case SeeEmpty => s.worker.Working? && s.queue == {}
    case CallCheck => s.worker.Drained?
    case TryCheck(_) => s.worker.CheckCas?
    case CallSleep => s.worker.Drained?
    case TrySleep(_) => s.worker.SleepCas?
    case CallSpin => s.worker.Drained?
    case TrySpin(_) => s.worker.SpinCas?
    case Reload => s.worker.SpinPoll?
    case TrySpinSleep(_) => s.worker.SpinPoll?
    case PostEmpty => OwesEmptyPost(s.worker)
    case AcquireWork => Asleep(s.worker) && s.sema > 0
    case AndWord => s.worker.Acknowledge?
    case Kill => s.worker.Working? || s.worker.Drained?
    case Reset => s.worker.Dead? && WaiterIdle(s.waiter)
    case CallWaitEmpty => WaiterIdle(s.waiter)
    case ReloadEmpty => s.waiter.Polling?
    case TryEmpty(_, _) => s.waiter.Polling?
    case AcquireEmpty => s.waiter.Blocked? && s.emptySema > 0
    case FinishEmpty => s.waiter.Woken?
  }

  predicate OwesEmptyPost(w: WorkerPc) {
    w.CheckPost? || w.SleepPost? || w.SpinPost? || w.KillPost?
  }

  /** The worker is inside `m_sema.Wait()`. */
  predicate Asleep(w: WorkerPc) {
    w.SleepWait? || w.SpinWait?
  }

  /** Second loop of `WaitForWorkWithSpin` with a fresh `value`. */
  function PollPc(value: s32): WorkerPc {
    if value < 0 then SpinPoll(value) else Acknowledge
  }

  /** First loop of `WaitForWorkWithSpin` with a fresh `value`. */
  function SpinPc(value: s32): WorkerPc {
    if IsReadyForSleep(value) then SpinCas(value) else PollPc(value)
  }

  /** Head of the loop of `WaitForEmpty` with a fresh `value`. */
  function EmptyPc(value: s32, due: set<CallId>): WaiterPc {
    if value < 0 then Returned(!IsDead(value), due) else Polling(value, due)
  }

  function AfterEmptyPost(w: WorkerPc): WorkerPc {
    match w
    case SleepPost => SleepWait
    case SpinPost => SpinPoll(STATE_SPINNING)
    case KillPost => WorkerPc.Dead
    case _ => Drained
  }

  predicate CasSucceeds(s: State, value: s32, spurious: bool) {
    s.word == value && !spurious
  }

  function Next(s: State, step: Step): State
    requires Enabled(s, step)
  {
    match step
    case Enqueue(c) => s.(queue := s.queue + {c}, atAdd := s.atAdd + {c})
    case Add(c) =>
      var t := s.(word := Wrap(s.word + 2), atAdd := s.atAdd - {c}, adds := s.adds + 1);
      if s.word == STATE_SLEEPING then t.(atPost := s.atPost + {c})
      else t.(notified := s.notified + {c})
    case PostWork(c) => s.(sema := s.sema + 1, atPost := s.atPost - {c}, notified := s.notified + {c})
    case Take(c) => s.(queue := s.queue - {c}, processed := s.processed + {c})
    case SeeEmpty => s.(worker := Drained)
    case CallCheck => s.(worker := CheckCas(s.word))
    case TryCheck(spurious) =>
      var value := s.worker.value;
      if !CasSucceeds(s, value, spurious) then s.(worker := CheckCas(s.word))
      else if !IsReadyForSleep(value) then s.(word := AndFlag(value), adds := 0, worker := Working)
      else s.(word := STATE_RUNNING_0, adds := 0, worker := if HasFlag(value) then CheckPost else Drained)
    case CallSleep => s.(worker := SleepCas(s.word))
    case TrySleep(spurious) =>
      var value := s.worker.value;
      if !CasSucceeds(s, value, spurious) then s.(worker := SleepCas(s.word))
      else s.(word := NextStateWaitForWork(value), adds := 0,
              worker := if !IsReadyForSleep(value) then Working
                        else if HasFlag(value) then SleepPost else SleepWait)
    case CallSpin => s.(worker := SpinPc(s.word))
    case TrySpin(spurious) =>
      var value := s.worker.value;
      if !CasSucceeds(s, value, spurious) then s.(worker := SpinPc(s.word))
      else s.(word := STATE_SPINNING, adds := 0,
              worker := if HasFlag(value) then SpinPost else SpinPoll(STATE_SPINNING))
    case Reload => s.(worker := PollPc(s.word))
    case TrySpinSleep(spurious) =>
      if !CasSucceeds(s, s.worker.value, spurious) then s.(worker := PollPc(s.word))
      else s.(word := STATE_SLEEPING, adds := 0, worker := SpinWait)
    case PostEmpty => s.(emptySema := s.emptySema + 1, worker := AfterEmptyPost(s.worker))
    case AcquireWork => s.(sema := s.sema - 1, worker := Acknowledge)
    case AndWord => s.(word := AndFlag(s.word), adds := 0, worker := Working)
    case Kill => s.(word := STATE_KILLED, adds := 0, worker := if HasFlag(s.word) then KillPost else WorkerPc.Dead)
    case Reset => s.(word := STATE_RUNNING_0, adds := 0, worker := Working)
    case CallWaitEmpty => s.(waiter := EmptyPc(s.word, s.notified))
    case ReloadEmpty => s.(waiter := EmptyPc(s.word, s.waiter.due))
    case TryEmpty(spurious, reloads) =>
      var value := s.waiter.value;
      if !CasSucceeds(s, value, spurious) then s.(waiter := if reloads then s.waiter else EmptyPc(s.word, s.waiter.due))
      else s.(word := OrFlag(value), waiter := Blocked(s.waiter.due))
    case AcquireEmpty => s.(emptySema := s.emptySema - 1, waiter := Woken(s.waiter.due))
    case FinishEmpty => s.(waiter := Returned(!IsDead(s.word), s.waiter.due))
  }

  // ---- the invariant ----

  /** Premise on the environment: the count never reaches the flag bit. */
  predicate Fits(s: State) {
    s.adds < 0x2000_0000
  }

  /** Items whose notification has been added to the word but are not processed. */
  function Pending(s: State): set<CallId> {
    s.queue - s.atAdd
  }

  /** The worker has stored SLEEPING and has not consumed its wake-up token. */
  predicate Sleeping(w: WorkerPc) {
    w.SleepPost? || Asleep(w)
  }

  /** A thread has asked to be told about emptiness and the word still says so. */
  predicate FlagRaised(s: State) {
    s.word >= 0 && HasFlag(s.word)
  }

  predicate CallsInv(s: State) {
    && s.queue !! s.processed
    && s.atAdd !! s.atPost !! s.notified
    && s.atAdd + s.atPost + s.notified == s.queue + s.processed
  }

  predicate WordInv(s: State) {
    && (s.word >= 0 ==> Low(s.word) <= 2 * s.adds)
    && (s.word < 0 && !IsDead(s.word) ==> s.adds == 0)
    && (IsDead(s.word) ==> s.word == STATE_KILLED + 2 * s.adds)
    && (s.word == STATE_SLEEPING ==> Sleeping(s.worker))
    && (s.word == STATE_SPINNING ==> s.worker.SpinPost? || s.worker.SpinPoll?)
    && (IsDead(s.word) <==> s.worker.KillPost? || s.worker.Dead?)
    && (s.worker.SpinCas? ==> IsReadyForSleep(s.worker.value))
    && (s.worker.SpinPoll? ==> s.worker.value < 0)
    && (s.waiter.Polling? ==> s.waiter.value >= 0)
  }

  /** The worker never forgets a notification: unless it is about to look into the
      queue anyway, pending work shows in the word. */
  predicate PendingInv(s: State) {
    Pending(s) != {} ==>
      match s.worker
      case Working => true
      case Acknowledge => true
      case KillPost => true
      case Dead => true
      case Drained => Low(s.word) > 0
      case CheckCas(_) => Low(s.word) > 0
      case CheckPost => Low(s.word) > 0
      case SleepCas(_) => Low(s.word) > 0
      case SpinCas(_) => Low(s.word) > 0
      case _ => s.word >= 0
  }

  /** Wake-up tokens are never lost, duplicated or stale. */
  predicate WakeTokens(s: State) {
    s.sema + |s.atPost| == if Sleeping(s.worker) && s.word >= 0 then 1 else 0
  }

  predicate EmptyTokens(s: State) {
    (if FlagRaised(s) then 1 else 0) + (if OwesEmptyPost(s.worker) then 1 else 0) + s.emptySema
    == if s.waiter.Blocked? then 1 else 0
  }

  predicate WaiterInv(s: State) {
    match s.waiter
    case Outside => true
    case Polling(_, due) => due <= s.notified
    case Blocked(due) => due <= s.notified && (FlagRaised(s) || IsDead(s.word) || due <= s.processed)
    case Woken(due) => IsDead(s.word) || due <= s.processed
    case Returned(result, due) => result ==> due <= s.processed
  }

  predicate Inv(s: State) {
    CallsInv(s) && WordInv(s) && PendingInv(s) && WakeTokens(s) && EmptyTokens(s) && WaiterInv(s)
  }

  // ---- every step keeps the invariant ----

  lemma CallsKept(s: State, step: Step)
    requires CallsInv(s) && Enabled(s, step)
    ensures CallsInv(Next(s, step))
  {}

  predicate IsWorkerCas(step: Step) {
    step.TryCheck? || step.TrySleep? || step.TrySpin? || step.TrySpinSleep?
  }

  predicate IsWaiterStep(step: Step) {
    step.CallWaitEmpty? || step.ReloadEmpty? || step.TryEmpty? || step.AcquireEmpty? || step.FinishEmpty?
  }

  lemma WordKeptByCas(s: State, step: Step)
    requires WordInv(s) && Enabled(s, step) && IsWorkerCas(step)
    ensures WordInv(Next(s, step))
  {}

  lemma WordKeptByWaiter(s: State, step: Step)
    requires WordInv(s) && Enabled(s, step) && IsWaiterStep(step)
    ensures WordInv(Next(s, step))
  {}

  /** Below the bound, `fetch_add(2)` is the notification of the life cycle. */
  lemma WordKeptByAdd(s: State, c: CallId)
    requires WordInv(s) && Enabled(s, Add(c)) && Fits(Next(s, Add(c)))
    ensures WordInv(Next(s, Add(c)))
    ensures Meaning(Next(s, Add(c)).word) == Notified(Meaning(s.word))
  {
    FetchAddIsNotify(s.word);
  }

  lemma WordKept(s: State, step: Step)
    requires WordInv(s) && WakeTokens(s) && Enabled(s, step) && Fits(Next(s, step))
    ensures WordInv(Next(s, step))
  {
    if IsWorkerCas(step) {
      WordKeptByCas(s, step);
    } else if IsWaiterStep(step) {
      WordKeptByWaiter(s, step);
    } else {
      match step
      case Add(c) => WordKeptByAdd(s, c);
      case _ =>
    }
  }

  lemma PendingKept(s: State, step: Step)
    requires WordInv(s) && PendingInv(s) && Fits(s) && Enabled(s, step) && Fits(Next(s, step))
    ensures PendingInv(Next(s, step))
  {
    match step
    case Add(_) =>
    case TryCheck(_) =>
    case TrySleep(_) =>
    case TrySpin(_) =>
    case TrySpinSleep(_) =>
    case AcquireWork =>
    case AndWord =>
    case PostEmpty =>
    case Kill =>
    case Reset =>
    case TryEmpty(_, _) =>
    case _ =>
  }

  lemma WakeTokensKeptByNotifier(s: State, step: Step)
    requires CallsInv(s) && WordInv(s) && WakeTokens(s) && Fits(s) && Enabled(s, step) && Fits(Next(s, step))
    requires step.Add? || step.PostWork?
    ensures WakeTokens(Next(s, step))
  {
    assert step.c !in s.atPost || step.PostWork?;
    assert |s.atPost + {step.c}| == |s.atPost| + if step.c in s.atPost then 0 else 1;
    assert step.PostWork? ==> |s.atPost - {step.c}| == |s.atPost| - 1;
  }

  lemma WakeTokensKeptByOthers(s: State, step: Step)
    requires WordInv(s) && WakeTokens(s) && Enabled(s, step)
    requires !step.Add? && !step.PostWork?
    ensures WakeTokens(Next(s, step))
  {
    assert Next(s, step).atPost == s.atPost;
  }

  lemma WakeTokensKept(s: State, step: Step)
    requires CallsInv(s) && WordInv(s) && WakeTokens(s) && Fits(s) && Enabled(s, step) && Fits(Next(s, step))
    ensures WakeTokens(Next(s, step))
  {
    if step.Add? || step.PostWork? {
      WakeTokensKeptByNotifier(s, step);
    } else {
      WakeTokensKeptByOthers(s, step);
    }
  }

  lemma EmptyTokensKeptByCas(s: State, step: Step)
    requires WordInv(s) && EmptyTokens(s) && Enabled(s, step) && IsWorkerCas(step)
    ensures EmptyTokens(Next(s, step))
  {}

  lemma EmptyTokensKeptByWaiter(s: State, step: Step)
    requires WordInv(s) && EmptyTokens(s) && Enabled(s, step) && IsWaiterStep(step)
    ensures EmptyTokens(Next(s, step))
  {}

  lemma EmptyTokensKept(s: State, step: Step)
    requires WordInv(s) && EmptyTokens(s) && Fits(s) && Enabled(s, step) && Fits(Next(s, step))
    ensures EmptyTokens(Next(s, step))
  {
    if IsWorkerCas(step) {
      EmptyTokensKeptByCas(s, step);
    } else if IsWaiterStep(step) {
      EmptyTokensKeptByWaiter(s, step);
    } else {
      match step
      case _ =>
    }
  }

  /** With nothing pending, every completed notification has been processed. */
  lemma NothingPending(s: State)
    requires CallsInv(s) && Pending(s) == {}
    ensures s.notified <= s.processed
  {
    forall c | c in s.notified
      ensures c in s.processed
    {
      assert c !in Pending(s);
    }
  }

  lemma WaiterKeptByWaiter(s: State, step: Step)
    requires CallsInv(s) && WordInv(s) && PendingInv(s) && EmptyTokens(s) && WaiterInv(s)
    requires Enabled(s, step) && IsWaiterStep(step)
    ensures WaiterInv(Next(s, step))
  {
    if Pending(s) == {} { NothingPending(s); }
  }

  lemma WaiterKeptByCas(s: State, step: Step)
    requires CallsInv(s) && WordInv(s) && PendingInv(s) && WaiterInv(s)
    requires Enabled(s, step) && IsWorkerCas(step)
    ensures WaiterInv(Next(s, step))
  {
    if Pending(s) == {} { NothingPending(s); }
  }

  lemma WaiterKept(s: State, step: Step)
    requires CallsInv(s) && WordInv(s) && PendingInv(s) && EmptyTokens(s) && WaiterInv(s)
    requires Fits(s) && Enabled(s, step) && Fits(Next(s, step))
    ensures WaiterInv(Next(s, step))
  {
    if IsWaiterStep(step) {
      WaiterKeptByWaiter(s, step);
    } else if IsWorkerCas(step) {
      WaiterKeptByCas(s, step);
    }
  }

  /** Every atomic step of every thread keeps the invariant. */
  lemma InvInductive(s: State, step: Step)
    requires Inv(s) && Fits(s) && Enabled(s, step) && Fits(Next(s, step))
    ensures Inv(Next(s, step))
  {
    CallsKept(s, step);
    WordKept(s, step);
    PendingKept(s, step);
    WakeTokensKept(s, step);
    EmptyTokensKept(s, step);
    WaiterKept(s, step);
  }
}
