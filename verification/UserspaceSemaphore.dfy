/** `UserspaceSemaphore`: a counter in user space in front of a kernel semaphore,
    with batched posts and a spinning wait, as a transition system. One step is one
    atomic operation on the counter or one kernel operation of one thread. */
module UserspaceSemaphoreProtocol {
  import opened WorkSemaWord

  type ThreadId = nat

  datatype State = State(
    counter: s32,
    sema: nat,
    owed: seq<nat>,              // per call of Post: kernel posts it still has to make
    blocked: nat,                // threads inside m_sema.Wait()
    peeked: map<ThreadId, s32>,  // threads in a peek-and-CAS loop, with their local counter
    posted: nat,                 // history: units posted
    acquired: nat                // history: completed acquisitions
  )

  datatype Step =
    | PostAdd(count: s32) | PostOne(call: nat)
    | WaitSub | Wake
    | Peek(t: ThreadId) | TryTake(t: ThreadId, spurious: bool) | GiveUp(t: ThreadId) | Expire(t: ThreadId)

  const Init := State(0, 0, [], 0, map[], 0, 0)

  function Sum(xs: seq<nat>): nat {
    if xs == [] then 0 else xs[0] + Sum(xs[1..])
  }

  function Min(a: int, b: int): int {
    if a < b then a else b
  }

  /** Threads a negative counter stands for. */
  function Deficit(counter: int): nat {
    if counter < 0 then -counter else 0
  }

  /** Kernel posts that `Post(count)` owes after finding `previous` in the counter. */
  function ToWake(previous: int, count: nat): nat {
    if previous < 0 then Min(count, -previous) else 0
  }

  /** `Post(count)` does nothing for a count that is not positive. */
  function Units(count: int): nat {
    if count <= 0 then 0 else count
  }

  predicate Enabled(s: State, step: Step) {
    match step
    case PostAdd(_) => true
    case PostOne(i) => i < |s.owed| && s.owed[i] > 0
    case WaitSub => true
    case Wake => s.blocked > 0 && s.sema > 0
    case Peek(t) => t in s.peeked ==> s.peeked[t] <= 0
    case TryTake(t, _) => t in s.peeked && s.peeked[t] > 0
    case GiveUp(t) => t in s.peeked && s.peeked[t] <= 0
    case Expire(t) => t in s.peeked && s.peeked[t] <= 0
  }

  /** `fetch_sub(1)`; a thread that finds no unit goes to the kernel. */
  function Subtract(s: State): State {
    var t := s.(counter := Wrap(s.counter - 1));
    if s.counter <= 0 then t.(blocked := s.blocked + 1) else t.(acquired := s.acquired + 1)
  }

  function Next(s: State, step: Step): State
    requires Enabled(s, step)
  {
    match step
    case PostAdd(count) =>
      if count <= 0 then s
      else s.(counter := Wrap(s.counter + count), posted := s.posted + count,
           owed := s.owed + [ToWake(s.counter, count)])
    case PostOne(i) => s.(owed := s.owed[i := s.owed[i] - 1], sema := s.sema + 1)
    case WaitSub => Subtract(s)
    case Wake => s.(sema := s.sema - 1, blocked := s.blocked - 1, acquired := s.acquired + 1)
    case Peek(t) => s.(peeked := s.peeked[t := s.counter])
    case TryTake(t, spurious) =>
      if s.counter == s.peeked[t] && !spurious
      then s.(counter := s.counter - 1, acquired := s.acquired + 1, peeked := s.peeked - {t})
      else s.(peeked := s.peeked[t := s.counter])
    case GiveUp(t) => s.(peeked := s.peeked - {t})
    case Expire(t) => Subtract(s.(peeked := s.peeked - {t}))
  }

  /** Units that are not on hand any more: acquired, or spoken for by a blocked thread. */
  function Claimed(s: State): nat {
    s.acquired + s.blocked
  }

  /** Premise: units on hand and threads waiting both fit the 32-bit counter. */
  predicate Fits(s: State) {
    -0x8000_0000 < s.posted - s.acquired - s.blocked < 0x8000_0000
  }

  ghost predicate Inv(s: State) {
    && s.counter == s.posted - s.acquired - s.blocked
    && s.blocked == s.sema + Sum(s.owed) + Deficit(s.counter)
  }

  lemma {:induction false} SumAppend(xs: seq<nat>, x: nat)
    ensures Sum(xs + [x]) == Sum(xs) + x
  {
    if xs == [] {
      assert xs + [x] == [x];
    } else {
      assert (xs + [x])[1..] == xs[1..] + [x];
      SumAppend(xs[1..], x);
    }
  }

  lemma {:induction false} SumUpdate(xs: seq<nat>, i: nat, x: nat)
    requires i < |xs|
    ensures Sum(xs[i := x]) == Sum(xs) - xs[i] + x
  {
    if i == 0 {
      assert xs[i := x][1..] == xs[1..];
    } else {
      assert xs[i := x][1..] == xs[1..][i - 1 := x];
      SumUpdate(xs[1..], i - 1, x);
    }
  }

  /** Every unit posted is on hand, on its way to a blocked thread, or acquired. */
  lemma InvInductive(s: State, step: Step)
    requires Inv(s) && Fits(s) && Enabled(s, step) && Fits(Next(s, step))
    ensures Inv(Next(s, step))
  {
    match step
    case PostAdd(count) =>
      if count > 0 {
        SumAppend(s.owed, ToWake(s.counter, count));
      }
    case PostOne(i) => SumUpdate(s.owed, i, s.owed[i] - 1);
    case _ =>
  }

  lemma InitSafe()
    ensures Inv(Init) && Fits(Init)
  {
    assert Sum(Init.owed) == 0;
  }

  ghost predicate IsExecution(run: seq<State>, steps: seq<Step>) {
    && |run| == |steps| + 1
    && run[0] == Init
    && (forall i | 0 <= i < |steps| :: Enabled(run[i], steps[i]) && run[i + 1] == Next(run[i], steps[i]))
    && forall i | 0 <= i < |run| :: Fits(run[i])
  }

  /** A counting semaphore over all runs: acquisitions never exceed posts, and
      threads are blocked only while every posted unit is acquired or already on
      its way to one of them through the kernel. */
  lemma {:induction false} CountingSemaphore(run: seq<State>, steps: seq<Step>, i: nat)
    requires IsExecution(run, steps) && i < |run|
    ensures Inv(run[i])
    ensures var s := run[i];
            && s.acquired <= s.posted
            && (s.blocked > 0 && s.counter >= 0 ==> s.sema + Sum(s.owed) == s.blocked)
            && (s.blocked > 0 && s.sema + Sum(s.owed) == 0 ==> s.acquired == s.posted)
    decreases i
  {
    if i == 0 {
      InitSafe();
    } else {
      CountingSemaphore(run, steps, i - 1);
      InvInductive(run[i - 1], steps[i - 1]);
    }
  }

  /** A thread leaves a peek-and-CAS loop with a unit exactly when the counter gave
      one up: `TryWait` and the spin of `WaitWithSpin` acquire only real units. */
  lemma TakesRealUnits(s: State, t: ThreadId, spurious: bool)
    requires Inv(s) && Enabled(s, TryTake(t, spurious))
    ensures var n := Next(s, TryTake(t, spurious));
            if t in n.peeked then n == s.(peeked := n.peeked)
            else s.counter > 0 && n.counter == s.counter - 1 && n.acquired == s.acquired + 1 <= s.posted
  {}

  // ---- batched posts ----

  /** The state once the calls of Post in progress have made their kernel posts. */
  function Settled(s: State): State {
    s.(sema := s.sema + Sum(s.owed), owed := [])
  }

  /** `n` calls of `Post()`, one after the other. */
  ghost function PostSingly(s: State, n: nat): State {
    if n == 0 then s else Next(PostSingly(s, n - 1), PostAdd(1))
  }

  lemma {:induction false} PostSinglyState(s: State, n: nat)
    requires s.counter + n < 0x8000_0000 && s.counter > -0x8000_0000
    ensures var r := PostSingly(s, n);
            && r.counter == s.counter + n && r.posted == s.posted + n
            && Sum(r.owed) == Sum(s.owed) + ToWake(s.counter, n)
            && r == s.(counter := r.counter, posted := r.posted, owed := r.owed)
  {
    if n > 0 {
      PostSinglyState(s, n - 1);
      var p := PostSingly(s, n - 1);
      SumAppend(p.owed, ToWake(p.counter, 1));
    }
  }

  lemma PostBatchState(s: State, count: s32)
    requires count > 0 && s.counter + count < 0x8000_0000
    ensures var r := Next(s, PostAdd(count));
            && r.counter == s.counter + count && r.posted == s.posted + count
            && Sum(r.owed) == Sum(s.owed) + ToWake(s.counter, count)
            && r == s.(counter := r.counter, posted := r.posted, owed := r.owed)
  {
    SumAppend(s.owed, ToWake(s.counter, count));
  }

  /** `Post(count)` has the effect of `count` calls of `Post()`: the same counter and
      the same number of kernel posts, hence the same threads to wake. */
  lemma BatchIsSingles(s: State, count: s32)
    requires s.counter + Units(count) < 0x8000_0000 && s.counter > -0x8000_0000
    ensures Settled(Next(s, PostAdd(count))) == Settled(PostSingly(s, Units(count)))
  {
    var n := Units(count);
    PostSinglyState(s, n);
    if count > 0 {
      PostBatchState(s, count);
    }
  }

  /** The upper edge of the premise is exact: a post that goes beyond it wraps the counter to a
      negative value although there are more units than threads waiting for one. */
  lemma PostKeepsUnits(s: State, count: s32)
    requires Inv(s) && Fits(s) && count > 0
    ensures var t := Next(s, PostAdd(count));
            if Fits(t) then t.counter == t.posted - t.acquired - t.blocked
            else t.counter < 0 < t.posted - t.acquired - t.blocked
  {}

  /** And the lower edge: the wait that reaches it still leaves a true counter, but the next one
      wraps it to the greatest word, as if there were units, and in between a `Post` would find
      the one value it cannot negate. */
  lemma WaitKeepsUnits(s: State)
    requires Inv(s) && Fits(s)
    ensures var t := Subtract(s);
            && Inv(t) && (Fits(t) <==> t.counter != -0x8000_0000)
            && (!Fits(t) ==> Subtract(t).counter == 0x7FFF_FFFF && Subtract(t).posted < Claimed(Subtract(t)))
  {}
}

/** `UserspaceSemaphore` as an object. Before each atomic operation of the running
    thread, the other threads take the steps of the next turn of a schedule. */
module UserspaceSemaphoreObject {
  import opened WorkSemaWord
  import opened UserspaceSemaphoreProtocol

  datatype Turn = Turn(others: seq<Step>, spurious: bool, elapsed: nat)

  class UserspaceSemaphore {
    var m_counter: s32
    var m_sema: nat
    var threads: State           // the threads around the object, without the two fields above
    var schedule: seq<Turn>
    ghost var mine: nat          // units acquired by the running thread
    const SPIN_TIME_NS: nat

    function View(): State
      reads this
    {
      threads.(counter := m_counter, sema := m_sema)
    }

    ghost predicate Valid()
      reads this
    {
      Inv(View()) && Fits(View())
    }

    constructor (schedule: seq<Turn>, spinTime: nat)
      ensures View() == Init && this.schedule == schedule && mine == 0
    {
      m_counter, m_sema, threads, mine := 0, 0, Init, 0;
      this.schedule := schedule;
      SPIN_TIME_NS := spinTime;
    }

    method Record(before: State, step: Step)
      requires Inv(before) && Fits(before) && Enabled(before, step) && Fits(Next(before, step))
      requires m_counter == Next(before, step).counter && m_sema == Next(before, step).sema
      modifies this`threads, this`mine
      ensures Valid() && View() == Next(before, step)
      ensures mine == old(mine) + Next(before, step).acquired - before.acquired
    {
      InvInductive(before, step);
      threads := Next(before, step);
      mine := mine + threads.acquired - before.acquired;
    }

    /** Another thread's step, if it can be taken. */
    method Perform(step: Step, call: nat, waiting: nat)
      requires Valid() && waiting <= threads.blocked && step != PostOne(call)
      modifies this`m_counter, this`m_sema, this`threads
      ensures Valid() && waiting <= threads.blocked
      ensures old(threads.posted) <= threads.posted && old(Claimed(threads)) <= Claimed(threads)
      ensures |old(threads.owed)| <= |threads.owed|
      ensures call < |old(threads.owed)| ==> threads.owed[call] == old(threads.owed)[call]
    {
      var before := View();
      if Enabled(before, step) {
        var t := Next(before, step);
        if Fits(t) && waiting <= t.blocked {
          InvInductive(before, step);
          m_counter, m_sema, threads := t.counter, t.sema, t;
        }
      }
    }

    /** Steps of the other threads; they neither continue call `call` of `Post` nor
        take the kernel token of the last `waiting` blocked threads. */
    method Interfere(call: nat, waiting: nat) returns (turn: Turn)
      requires Valid() && waiting <= threads.blocked
      modifies this
      ensures Valid() && waiting <= threads.blocked && mine == old(mine)
      ensures schedule == (if old(schedule) == [] then [] else old(schedule)[1..])
      ensures old(schedule) == [] ==> View() == old(View()) && !turn.spurious
      ensures old(threads.posted) <= threads.posted && old(Claimed(threads)) <= Claimed(threads)
      ensures |old(threads.owed)| <= |threads.owed|
      ensures call < |old(threads.owed)| ==> threads.owed[call] == old(threads.owed)[call]
    {
      if schedule == [] {
        return Turn([], false, 0);
      }
      turn, schedule := schedule[0], schedule[1..];
      for i := 0 to |turn.others|
        invariant Valid() && waiting <= threads.blocked && mine == old(mine)
        invariant schedule == old(schedule)[1..]
        invariant old(threads.posted) <= threads.posted && old(Claimed(threads)) <= Claimed(threads)
        invariant |old(threads.owed)| <= |threads.owed|
        invariant call < |old(threads.owed)| ==> threads.owed[call] == old(threads.owed)[call]
      {
        if turn.others[i] != PostOne(call) {
          Perform(turn.others[i], call, waiting);
        }
      }
    }

    /** `Post(count)`, and `Post()` as `Post(1)`: its units are posted and every kernel post
        it owes is made. */
    method Post(count: s32)
      requires Valid() && Fits(Next(View(), PostAdd(count)))
      modifies this
      ensures Valid() && mine == old(mine) && old(threads.posted) + Units(count) <= threads.posted
      ensures old(schedule) == [] && count > 0 ==>
                m_counter == old(m_counter) + count && m_sema == old(m_sema) + ToWake(old(m_counter), count)
      ensures count > 0 ==> |old(threads.owed)| < |threads.owed| && threads.owed[|old(threads.owed)|] == 0
    {
      if count <= 0 {
        return;
      }
      var before, call := View(), |threads.owed|;
      var previous := m_counter;
      m_counter := Wrap(m_counter + count);
      Record(before, PostAdd(count));
      if previous < 0 {
        var toWake := Min(count, -previous);
        for i := 0 to toWake
          invariant Valid() && call < |threads.owed| && threads.owed[call] == toWake - i
          invariant mine == old(mine) && old(threads.posted) + count <= threads.posted
          invariant old(schedule) == [] ==>
                      schedule == [] && m_counter == old(m_counter) + count && m_sema == old(m_sema) + i
        {
          var turn := Interfere(call, 0);
          before := View();
          m_sema := m_sema + 1;
          Record(before, PostOne(call));
        }
      }
    }

    /** The part of `Wait` after the counter has been decremented. */
    method Block() returns (acquired: bool)
      requires Valid() && threads.blocked > 0
      modifies this
      ensures Valid() && mine == old(mine) + if acquired then 1 else 0
      ensures !acquired ==> threads.blocked > 0 && (Sum(threads.owed) > 0 || threads.acquired == threads.posted)
    {
      while m_sema == 0
        invariant Valid() && threads.blocked > 0 && mine == old(mine)
        decreases |schedule|
      {
        if schedule == [] {
          return false;
        }
        var turn := Interfere(|threads.owed|, 1);
      }
      var before := View();
      m_sema := m_sema - 1;
      Record(before, Wake);
      return true;
    }

    /** Comes back with one unit. A call that does not come back leaves no unit
        unused, unless a `Post` is still on its way to the kernel. */
    method Wait() returns (acquired: bool)
      requires Valid() && Fits(Subtract(View()))
      modifies this
      ensures Valid() && mine == old(mine) + if acquired then 1 else 0
      ensures !acquired ==> threads.blocked > 0 && (Sum(threads.owed) > 0 || threads.acquired == threads.posted)
    {
      var before, previous := View(), m_counter;
      m_counter := Wrap(m_counter - 1);
      Record(before, WaitSub);
      acquired := true;
      if previous <= 0 {
        acquired := Block();
      }
    }

    /** True exactly when a unit was taken; false only if every unit posted before the call
        has been claimed. */
    method TryWait(me: ThreadId) returns (taken: bool)
      requires Valid() && me !in threads.peeked
      modifies this
      ensures Valid() && mine == old(mine) + if taken then 1 else 0
      ensures !taken ==> old(threads.posted) <= Claimed(threads)
    {
      var counter := m_counter;
      while counter > 0
        invariant Valid() && mine == old(mine) && old(threads.posted) <= threads.posted
        invariant counter <= 0 ==> old(threads.posted) <= Claimed(threads)
        decreases |schedule|, counter != m_counter
      {
        var turn := Interfere(|threads.owed|, 0);
        taken, counter := TakeOne(me, counter, turn.spurious);
        if taken {
          return;
        }
      }
      return false;
    }

    /** `m_counter.compare_exchange_weak(expected, expected - 1)` */
    method TakeOne(me: ThreadId, expected: s32, spurious: bool) returns (taken: bool, seen: s32)
      requires Valid() && expected > 0
      modifies this`m_counter, this`threads, this`mine
      ensures Valid() && mine == old(mine) + if taken then 1 else 0
      ensures seen == old(m_counter) && taken == (seen == expected && !spurious)
      ensures !taken ==> m_counter == old(m_counter) && m_sema == old(m_sema)
      ensures threads.posted == old(threads.posted) && old(Claimed(threads)) <= Claimed(threads)
      ensures seen <= 0 ==> threads.posted <= Claimed(threads)
    {
      threads := threads.(peeked := threads.peeked[me := expected]);
      var before := View();
      seen := m_counter;
      taken := m_counter == expected && !spurious;
      if taken {
        m_counter := expected - 1;
      }
      Record(before, TryTake(me, spurious));
    }

    /** As `Wait`, looking for a unit in user space for a while first. A call that
        neither takes a unit nor blocks is still spinning when the schedule ends, or
        would exceed the number of threads the counter can hold; every unit posted
        before it has then been claimed. */
    method WaitWithSpin(me: ThreadId) returns (acquired: bool, asleep: bool)
      requires Valid() && me !in threads.peeked
      modifies this
      ensures Valid() && mine == old(mine) + if acquired then 1 else 0
      ensures asleep ==> !acquired && threads.blocked > 0
                         && (Sum(threads.owed) > 0 || threads.acquired == threads.posted)
      ensures !acquired && !asleep ==> schedule == [] || !Fits(Subtract(View()))
      ensures !acquired && !asleep ==> old(threads.posted) <= Claimed(threads)
    {
      var counter := m_counter;
      var waited := 0;
      asleep := false;
      while true
        invariant Valid() && mine == old(mine) && old(threads.posted) <= threads.posted
        invariant counter <= 0 ==> old(threads.posted) <= Claimed(threads)
        decreases |schedule|
      {
        while counter > 0
          invariant Valid() && mine == old(mine) && |schedule| <= |old(schedule)|
          invariant old(threads.posted) <= threads.posted
          invariant counter <= 0 ==> old(threads.posted) <= Claimed(threads)
          decreases |schedule|, counter != m_counter
        {
          var turn := Interfere(|threads.owed|, 0);
          acquired, counter := TakeOne(me, counter, turn.spurious);
          if acquired {
            return;
          }
        }
        if waited >= SPIN_TIME_NS {
          break;
        }
        if schedule == [] {
          return false, false;
        }
        var turn := Interfere(|threads.owed|, 0);
        waited := (waited + turn.elapsed) % 0x1_0000_0000;
        counter := m_counter;
      }
      if !Fits(Subtract(View())) {
        return false, false;
      }
      acquired := Wait();
      asleep := !acquired;
    }
  }
}
