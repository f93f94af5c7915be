/** `WorkSema` as an object whose methods are written as in the source, loops and
    all. Between two of a thread's atomic operations a schedule lets the other
    threads run; every method is proved to perform a run of the transition system. */
module WorkSemaObject {
  import opened WorkSemaWord
  import opened WorkSemaProtocol
  import opened WorkSemaRuns

  /** What happens before the next atomic operation of the running thread: steps of
      the others, whether its weak CAS fails spuriously, and how long a spin took. */
  datatype Turn = Turn(others: seq<Step>, spurious: bool, elapsed: nat)

  datatype Thread = Worker | Waiter | Notifier(c: CallId)

  function ThreadOf(step: Step): Thread {
    match step
    case Enqueue(c) => Notifier(c)
    case Add(c) => Notifier(c)
    case PostWork(c) => Notifier(c)
    case _ => if IsWaiterStep(step) then Waiter else Worker
  }

  /** `steps` can be taken one after the other from the initial state, within the
      bound on notifications, and lead to `s`. */
  ghost predicate Reaches(steps: seq<Step>, s: State) {
    if steps == [] then s == Init
    else
      var front, last := steps[..|steps| - 1], steps[|steps| - 1];
      exists t :: Reaches(front, t) && Performs(t, last, s)
  }

  ghost predicate Performs(t: State, step: Step, s: State) {
    Enabled(t, step) && s == Next(t, step) && Fits(s)
  }

  lemma {:induction false} ReachedSafe(steps: seq<Step>, s: State)
    requires Reaches(steps, s)
    ensures Inv(s) && Fits(s)
  {
    if steps != [] {
      var t :| Reaches(steps[..|steps| - 1], t) && Performs(t, steps[|steps| - 1], s);
      ReachedSafe(steps[..|steps| - 1], t);
      InvInductive(t, steps[|steps| - 1]);
    }
  }

  lemma {:induction false} ReachedKilled(steps: seq<Step>, s: State)
    requires Reaches(steps, s) && SeesDeath(s)
    ensures Step.Kill in steps
  {
    if steps != [] {
      var front, last := steps[..|steps| - 1], steps[|steps| - 1];
      var t :| Reaches(front, t) && Performs(t, last, s);
      ReachedSafe(front, t);
      if SeesDeath(t) {
        ReachedKilled(front, t);
      } else {
        OnlyKillKills(t, last);
      }
    }
  }

  /** What the steps of other threads leave alone of `me`'s. */
  predicate UndisturbedBy(me: Thread, before: State, after: State) {
    && before.notified <= after.notified && before.processed <= after.processed
    && match me
       case Worker => after.worker == before.worker
       case Waiter => after.waiter == before.waiter
       case Notifier(c) => (c in after.atAdd <==> c in before.atAdd) && (c in after.atPost <==> c in before.atPost)
  }

  lemma LeavesAlone(s: State, step: Step, me: Thread)
    requires Enabled(s, step) && ThreadOf(step) != me
    ensures UndisturbedBy(me, s, Next(s, step))
  {}

  class WorkSema {
    var m_state: s32
    var m_sema: nat
    var m_empty_sema: nat

    // The threads around the object; the three fields above are left out of it.
    var threads: State
    var schedule: seq<Turn>
    ghost var trace: seq<Step>
    const SPIN_TIME_NS: nat

    function View(): State
      reads this
    {
      threads.(word := m_state, sema := m_sema, emptySema := m_empty_sema)
    }

    /** The object is in a state that the recorded run of the system reaches. */
    ghost predicate Valid()
      reads this
    {
      Reaches(trace, View()) && Fits(View())
    }

    constructor (schedule: seq<Turn>, spinTime: nat)
      ensures Valid() && View() == Init && this.schedule == schedule
    {
      m_state := STATE_RUNNING_0;
      m_sema, m_empty_sema := 0, 0;
      threads, trace := Init, [];
      this.schedule := schedule;
      SPIN_TIME_NS := spinTime;
    }

    /** Bookkeeping after an atomic operation: the fields already hold their new values. */
    method Record(before: State, ghost past: seq<Step>, step: Step)
      requires Reaches(past, before) && Enabled(before, step) && Fits(Next(before, step))
      requires var t := Next(before, step); m_state == t.word && m_sema == t.sema && m_empty_sema == t.emptySema
      modifies this`threads, this`trace
      ensures Valid() && trace == past + [step] && View() == Next(before, step)
    {
      threads := Next(before, step);
      trace := past + [step];
      assert trace[..|trace| - 1] == past;
      assert Performs(before, step, View());
    }

    /** Another thread's step, if it can be taken. */
    method Perform(step: Step, me: Thread)
      requires Valid() && ThreadOf(step) != me
      modifies this
      ensures Valid() && schedule == old(schedule)
      ensures UndisturbedBy(me, old(threads), threads)
    {
      var before := View();
      if Enabled(before, step) && Fits(Next(before, step)) {
        var t := Next(before, step);
        LeavesAlone(before, step, me);
        m_state, m_sema, m_empty_sema := t.word, t.sema, t.emptySema;
        Record(before, trace, step);
      }
    }

    /** Lets the other threads take the steps of the next turn, as far as they can. */
    method Interfere(me: Thread) returns (turn: Turn)
      requires Valid()
      modifies this
      ensures Valid()
      ensures old(schedule) == [] ==> schedule == [] && View() == old(View()) && turn == Turn([], false, 0)
      ensures old(schedule) != [] ==> |schedule| == |old(schedule)| - 1
      ensures UndisturbedBy(me, old(threads), threads)
    {
      if schedule == [] {
        return Turn([], false, 0);
      }
      turn, schedule := schedule[0], schedule[1..];
      for i := 0 to |turn.others|
        invariant Valid() && schedule == old(schedule)[1..]
        invariant UndisturbedBy(me, old(threads), threads)
      {
        if ThreadOf(turn.others[i]) != me {
          Perform(turn.others[i], me);
        }
      }
    }

    /** `m_state.load()`, as the step that reads the word into a local variable. */
    method Load(step: Step) returns (value: s32)
      requires Valid() && Enabled(View(), step)
      requires Next(View(), step).word == m_state && Next(View(), step).sema == m_sema
      requires Next(View(), step).emptySema == m_empty_sema && Next(View(), step).adds == threads.adds
      modifies this`threads, this`trace
      ensures Valid() && View() == Next(old(View()), step) && value == m_state
    {
      value := m_state;
      Record(View(), trace, step);
    }

    /** `m_state.compare_exchange_weak(expected, desired)`; on failure `seen` is the
        word found, which the source writes back to `expected`. */
    method CompareExchangeWeak(step: Step, expected: s32, desired: s32, spurious: bool) returns (ok: bool, seen: s32)
      requires Valid() && Enabled(View(), step)
      requires var t := Next(View(), step);
               && t.word == (if m_state == expected && !spurious then desired else m_state)
               && t.sema == m_sema && t.emptySema == m_empty_sema && t.adds <= threads.adds
      modifies this`m_state, this`threads, this`trace
      ensures seen == old(m_state) && ok == (old(m_state) == expected && !spurious)
      ensures Valid() && View() == Next(old(View()), step)
    {
      var before := View();
      seen := m_state;
      ok := m_state == expected && !spurious;
      if ok {
        m_state := desired;
      }
      Record(before, trace, step);
    }

    /** `m_empty_sema.Post()` by the worker. */
    method PostEmptySema()
      requires Valid() && OwesEmptyPost(threads.worker)
      modifies this
      ensures Valid() && threads.worker == AfterEmptyPost(old(threads.worker))
      ensures old(threads.processed) <= threads.processed
    {
      var turn := Interfere(Worker);
      var before := View();
      m_empty_sema := m_empty_sema + 1;
      Record(before, trace, PostEmpty);
    }

    // ---- notifying threads ----

    /** `NotifyOfWork`, called after item `c` has been enqueued. The call must not be
        the one that makes the count reach the flag bit. */
    method NotifyOfWork(c: CallId)
      requires Valid() && c in threads.atAdd && threads.adds + 1 < 0x2000_0000
      modifies this
      ensures Valid() && c in threads.notified
    {
      var before := View();
      var previous := m_state;
      m_state := Wrap(m_state + 2);
      Record(before, trace, Add(c));
      if previous == STATE_SLEEPING {
        var turn := Interfere(Notifier(c));
        before := View();
        m_sema := m_sema + 1;
        Record(before, trace, PostWork(c));
      }
    }

    // ---- the worker ----

    /** Returns whether there is work: if not, everything notified before the call is done. */
    method CheckForWork() returns (work: bool)
      requires Valid() && threads.worker.Drained?
      modifies this
      ensures Valid()
      ensures threads.worker == if work then Working else Drained
      ensures !work ==> old(threads.notified) <= threads.processed
    {
      var turn := Interfere(Worker);
      var value := Load(CallCheck);
      var ok := false;
      while !ok
        invariant Valid()
        invariant threads.worker == if !ok then CheckCas(value)
                                    else if !IsReadyForSleep(value) then Working
                                    else if HasFlag(value) then CheckPost else Drained
        invariant old(threads.notified) <= threads.notified
        invariant ok && IsReadyForSleep(value) ==> old(threads.notified) <= threads.processed
        decreases |schedule|, !ok, value != m_state
      {
        turn := Interfere(Worker);
        NoCountNoWork();
        var seen;
        ok, seen := CompareExchangeWeak(TryCheck(turn.spurious), value,
          if IsReadyForSleep(value) then STATE_RUNNING_0 else AndFlag(value), turn.spurious);
        value := if ok then value else seen;
      }
      if !IsReadyForSleep(value) {
        return true;
      }
      if HasFlag(value) {
        PostEmptySema();
      }
      return false;
    }

    /** A worker about to CAS an empty count has processed everything notified. */
    lemma NoCountNoWork()
      requires Valid() && threads.worker.CheckCas?
      ensures IsReadyForSleep(m_state) ==> threads.notified <= threads.processed
    {
      ReachedSafe(trace, View());
      if IsReadyForSleep(m_state) {
        NothingPending(View());
      }
    }

    /** `m_sema.Wait()`. Gives up only when the schedule has no more to offer. */
    method WaitSema() returns (woken: bool)
      requires Valid() && Asleep(threads.worker)
      modifies this
      ensures Valid()
      ensures woken ==> threads.worker.Acknowledge?
      ensures !woken ==> Asleep(threads.worker) && m_sema == 0 && schedule == []
    {
      var turn := Interfere(Worker);
      while m_sema == 0
        invariant Valid() && Asleep(threads.worker)
        decreases |schedule|
      {
        if schedule == [] {
          return false;
        }
        turn := Interfere(Worker);
      }
      var before := View();
      m_sema := m_sema - 1;
      Record(before, trace, AcquireWork);
      return true;
    }

    /** `m_state.fetch_and(STATE_FLAG_WAITING_EMPTY)` */
    method FetchAndFlag()
      requires Valid() && threads.worker.Acknowledge?
      modifies this
      ensures Valid() && threads.worker.Working?
    {
      var turn := Interfere(Worker);
      var before := View();
      m_state := AndFlag(m_state);
      Record(before, trace, AndWord);
    }

    /** A call that comes back leaves the worker ready to look into the queue. One
        that does not is asleep with every completed notification processed, or a
        notifier still on its way to waking it. */
    method WaitForWork() returns (back: bool)
      requires Valid() && threads.worker.Drained?
      modifies this
      ensures Valid()
      ensures back ==> threads.worker.Working?
      ensures !back ==> Asleep(threads.worker) && (threads.atPost != {} || threads.notified <= threads.processed)
    {
      var turn := Interfere(Worker);
      var value := Load(CallSleep);
      var ok := false;
      while !ok
        invariant Valid()
        invariant threads.worker == if !ok then SleepCas(value)
                                    else if !IsReadyForSleep(value) then Working
                                    else if HasFlag(value) then SleepPost else SleepWait
        decreases |schedule|, !ok, value != m_state
      {
        turn := Interfere(Worker);
        var seen;
        ok, seen := CompareExchangeWeak(TrySleep(turn.spurious), value, NextStateWaitForWork(value), turn.spurious);
        value := if ok then value else seen;
      }
      if !IsReadyForSleep(value) {
        return true;
      }
      if HasFlag(value) {
        PostEmptySema();
      }
      back := WaitSema();
      if back {
        FetchAndFlag();
      } else {
        SleepIsIdle();
      }
    }

    lemma SleepIsIdle()
      requires Valid() && Asleep(threads.worker) && m_sema == 0
      ensures threads.atPost != {} || threads.notified <= threads.processed
    {
      ReachedSafe(trace, View());
      if threads.atPost == {} {
        NoLostWakeup(View());
      }
    }

    /** One turn of the first loop of `WaitForWorkWithSpin`. */
    method TurnSpinning(value: s32) returns (ok: bool, seen: s32)
      requires Valid() && threads.worker == SpinCas(value)
      modifies this
      ensures Valid() && threads.worker == if ok then SpinPoll(STATE_SPINNING) else SpinPc(seen)
      ensures ok || |schedule| < |old(schedule)| || (schedule == [] && value != old(m_state) && seen == m_state)
    {
      var turn := Interfere(Worker);
      ok, seen := CompareExchangeWeak(TrySpin(turn.spurious), value, STATE_SPINNING, turn.spurious);
      if ok && HasFlag(value) {
        PostEmptySema();
      }
    }

    /** First loop of `WaitForWorkWithSpin`: announce SPINNING unless there is work. */
    method AnnounceSpinning() returns (value: s32)
      requires Valid() && threads.worker.Drained?
      modifies this
      ensures Valid() && threads.worker == PollPc(value)
    {
      var turn := Interfere(Worker);
      value := Load(CallSpin);
      while IsReadyForSleep(value)
        invariant Valid() && threads.worker == SpinPc(value)
        decreases |schedule|, value != m_state
      {
        var ok, seen := TurnSpinning(value);
        if ok {
          return STATE_SPINNING;
        }
        value := seen;
      }
    }

    /** As `WaitForWork`, spinning for a while first. */
    method WaitForWorkWithSpin() returns (back: bool)
      requires Valid() && threads.worker.Drained?
      modifies this
      ensures Valid()
      ensures back ==> threads.worker.Working?
      ensures !back ==> schedule == []
      ensures !back && Asleep(threads.worker) ==> threads.atPost != {} || threads.notified <= threads.processed
    {
      var value := AnnounceSpinning();
      var waited := 0;
      while value < 0
        invariant Valid() && threads.worker == PollPc(value)
        decreases |schedule|
      {
        if schedule == [] {
          return false;
        }
        var turn := Interfere(Worker);
        if waited > SPIN_TIME_NS {
          var ok, seen := CompareExchangeWeak(TrySpinSleep(turn.spurious), value, STATE_SLEEPING, turn.spurious);
          if !ok {
            value := seen;
            continue;
          }
          back := WaitSema();
          if !back {
            SleepIsIdle();
            return;
          }
          break;
        }
        waited := (waited + turn.elapsed) % 0x1_0000_0000;
        value := Load(Reload);
      }
      FetchAndFlag();
      return true;
    }

    /** `m_state.exchange(INT_MIN)` by the running worker. */
    method ExchangeKilled() returns (previous: s32)
      requires Valid() && (threads.worker.Working? || threads.worker.Drained?)
      modifies this
      ensures Valid() && threads.worker == if HasFlag(previous) then KillPost else WorkerPc.Dead
    {
      var turn := Interfere(Worker);
      var before := View();
      previous := m_state;
      m_state := STATE_KILLED;
      Record(before, trace, Step.Kill);
    }

    /** Called by the running worker when it dies. */
    method Kill()
      requires Valid() && (threads.worker.Working? || threads.worker.Drained?)
      modifies this
      ensures Valid() && threads.worker.Dead?
    {
      var value := ExchangeKilled();
      if HasFlag(value) {
        PostEmptySema();
      }
    }

    // ---- the thread waiting for empty ----

    /** `m_empty_sema.Wait()` followed by the load that decides the result. */
    method WaitEmptySema() returns (back: bool, result: bool)
      requires Valid() && threads.waiter.Blocked?
      modifies this
      ensures Valid()
      ensures back ==> threads.waiter == Returned(result, old(threads.waiter.due))
      ensures !back ==> threads.waiter.Blocked? && m_empty_sema == 0 && schedule == []
    {
      var turn := Interfere(Waiter);
      result := false;
      while m_empty_sema == 0
        invariant Valid() && threads.waiter == old(threads.waiter)
        decreases |schedule|
      {
        if schedule == [] {
          return false, false;
        }
        turn := Interfere(Waiter);
      }
      var before := View();
      m_empty_sema := m_empty_sema - 1;
      Record(before, trace, AcquireEmpty);
      turn := Interfere(Waiter);
      var value := Load(FinishEmpty);
      return true, !IsDead(value);
    }

    lemma AnswerIsHonest()
      requires Valid()
      ensures threads.waiter.Returned? && !threads.waiter.result ==> Step.Kill in trace
      ensures threads.waiter.Returned? && threads.waiter.result ==> threads.waiter.due <= threads.processed
      ensures threads.waiter.Blocked? && m_empty_sema == 0 ==> OwesEmptyPost(threads.worker) || FlagRaised(View())
    {
      ReachedSafe(trace, View());
      if SeesDeath(View()) {
        ReachedKilled(trace, View());
      }
    }

    /** One attempt of either loop below to raise the flag. */
    method TurnEmpty(value: s32, reloads: bool) returns (ok: bool, seen: s32)
      requires Valid() && threads.waiter.Polling? && threads.waiter.value == value >= 0
      modifies this
      ensures Valid()
      ensures threads.waiter == if ok then Blocked(old(threads.waiter.due))
                                else EmptyPc(if reloads then value else seen, old(threads.waiter.due))
      ensures |schedule| < |old(schedule)| || (schedule == [] && (ok || (value != old(m_state) && seen == m_state)))
    {
      var turn := Interfere(Waiter);
      ok, seen := CompareExchangeWeak(TryEmpty(turn.spurious, reloads), value, OrFlag(value), turn.spurious);
    }

    /** A spin between two looks at the word. */
    method SpinEmpty(value: s32) returns (elapsed: nat, seen: s32)
      requires Valid() && threads.waiter.Polling? && threads.waiter.value == value
      modifies this
      ensures Valid() && threads.waiter == EmptyPc(seen, old(threads.waiter.due))
      ensures |schedule| < |old(schedule)| || schedule == []
    {
      var turn := Interfere(Waiter);
      elapsed := turn.elapsed;
      seen := Load(ReloadEmpty);
    }

    /** When it comes back with true, everything notified before the call is done, and with
        false, the worker has been killed; when it cannot come back, the worker still owes
        the answer. */
    method WaitForEmpty() returns (back: bool, result: bool)
      requires Valid() && WaiterIdle(threads.waiter)
      modifies this
      ensures Valid()
      ensures back && result ==> old(threads.notified) <= threads.processed
      ensures back && !result ==> Step.Kill in trace
      ensures back ==> threads.waiter.Returned? && threads.waiter.result == result
      ensures back ==> old(threads.notified) <= threads.waiter.due
      ensures !back ==> OwesEmptyPost(threads.worker) || FlagRaised(View())
    {
      var turn := Interfere(Waiter);
      var value := Load(CallWaitEmpty);
      while true
        invariant Valid() && !threads.waiter.Outside? && old(threads.notified) <= threads.waiter.due
        invariant threads.waiter == EmptyPc(value, threads.waiter.due)
        decreases |schedule|, value != m_state
      {
        if value < 0 {
          AnswerIsHonest();
          return true, !IsDead(value);
        }
        var ok, seen := TurnEmpty(value, false);
        if ok {
          break;
        }
        value := seen;
      }
      back, result := WaitEmptySema();
      AnswerIsHonest();
    }

    /** As `WaitForEmpty`, looking at the word for a while before blocking. */
    method WaitForEmptyWithSpin() returns (back: bool, result: bool)
      requires Valid() && WaiterIdle(threads.waiter)
      modifies this
      ensures Valid()
      ensures back && result ==> old(threads.notified) <= threads.processed
      ensures back && !result ==> Step.Kill in trace
      ensures back ==> threads.waiter.Returned? && threads.waiter.result == result
      ensures back ==> old(threads.notified) <= threads.waiter.due
      ensures !back ==> schedule == []
    {
      var turn := Interfere(Waiter);
      var value := Load(CallWaitEmpty);
      var waited := 0;
      while true
        invariant Valid() && !threads.waiter.Outside? && old(threads.notified) <= threads.waiter.due
        invariant threads.waiter == EmptyPc(value, threads.waiter.due)
        decreases |schedule|
      {
        if value < 0 {
          AnswerIsHonest();
          return true, !IsDead(value);
        }
        if schedule == [] {
          return false, false;
        }
        if waited > SPIN_TIME_NS {
          var ok, _ := TurnEmpty(value, true);
          if ok {
            break;
          }
        }
        var elapsed;
        elapsed, value := SpinEmpty(value);
        waited := (waited + elapsed) % 0x1_0000_0000;
      }
      back, result := WaitEmptySema();
      AnswerIsHonest();
    }
  }
}
