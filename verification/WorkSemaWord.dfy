/** The packed `s32` state word of `WorkSema`: its bit operations, the abstract
    life cycle it stands for, and when each atomic operation follows that cycle. */
module WorkSemaWord {

  type s32 = x: int | -0x8000_0000 <= x < 0x8000_0000

  const STATE_SPINNING: s32 := -2
  const STATE_SLEEPING: s32 := -1
  const STATE_RUNNING_0: s32 := 0
  const STATE_FLAG_WAITING_EMPTY: s32 := 0x4000_0000
  const STATE_KILLED: s32 := -0x8000_0000

  /** Two's-complement reduction of a sum of two words. */
  function Wrap(x: int): s32
    requires -0x1_0000_0000 <= x < 0x1_0000_0000
  {
    if x >= 0x8000_0000 then x - 0x1_0000_0000
    else if x < -0x8000_0000 then x + 0x1_0000_0000
    else x
  }

  /** Bit 30 of the two's-complement word, that is `(v & STATE_FLAG_WAITING_EMPTY) != 0`. */
  predicate HasFlag(v: s32) {
    v >= STATE_FLAG_WAITING_EMPTY || -STATE_FLAG_WAITING_EMPTY <= v < 0
  }

  /** Bits 0..29, that is `v & (STATE_FLAG_WAITING_EMPTY - 1)`. */
  function Low(v: s32): nat {
    v - (if v < 0 then STATE_KILLED else 0) - (if HasFlag(v) then STATE_FLAG_WAITING_EMPTY else 0)
  }

  /** `v & STATE_FLAG_WAITING_EMPTY` */
  function AndFlag(v: s32): s32 {
    if HasFlag(v) then STATE_FLAG_WAITING_EMPTY else 0
  }

  /** `v | STATE_FLAG_WAITING_EMPTY` */
  function OrFlag(v: s32): s32 {
    if HasFlag(v) then v else v + STATE_FLAG_WAITING_EMPTY
  }

  /** `HasFlag` and `Low` are the bits their comments name: with the sign bit they
      rebuild the word, no other pair does, and they are what shifting right by 30
      and reducing modulo 2^30 give. */
  lemma WordBits(v: s32, low: nat, flag: bool)
    requires low < STATE_FLAG_WAITING_EMPTY
    ensures v == (if v < 0 then STATE_KILLED else 0) + (if flag then STATE_FLAG_WAITING_EMPTY else 0) + low
            <==> low == Low(v) && flag == HasFlag(v)
    ensures Low(v) == v % STATE_FLAG_WAITING_EMPTY
    ensures HasFlag(v) <==> v / STATE_FLAG_WAITING_EMPTY % 2 == 1
  {
    assert -2 <= v / STATE_FLAG_WAITING_EMPTY <= 1;
    assert v == v / STATE_FLAG_WAITING_EMPTY * STATE_FLAG_WAITING_EMPTY + v % STATE_FLAG_WAITING_EMPTY;
  }

  predicate IsDead(state: s32) {
    state < STATE_SPINNING
  }

  predicate IsReadyForSleep(state: s32) {
    Low(state) == 0
  }

  function NextStateWaitForWork(current: s32): s32 {
    var newState := if IsReadyForSleep(current) then STATE_SLEEPING else STATE_RUNNING_0;
    if HasFlag(current) then OrFlag(newState) else newState
  }

  // ---- the life cycle the word encodes ----

  /** `pending` counts notifications since the worker last reset the count. The
      one that takes SPINNING to RUNNING_0 is not in it. */
  datatype Life = Dead | Spinning | Sleeping | Running(pending: nat, waiting: bool)

  function Meaning(v: s32): Life {
    if IsDead(v) then Dead
    else if v == STATE_SPINNING then Spinning
    else if v == STATE_SLEEPING then Sleeping
    else Running((Low(v) + 1) / 2, HasFlag(v))
  }

  function Notified(l: Life): Life {
    match l
    case Dead => Dead
    case Spinning => Running(0, false)
    case Sleeping => Running(1, false)
    case Running(n, w) => Running(n + 1, w)
  }

  /** What the comments on `NotifyOfWork` promise about `fetch_add(2)` holds for
      exactly the words two below an edge: a live count must not reach bit 30 and
      a dead word must not climb back to SPINNING. */
  lemma FetchAddIsNotify(v: s32)
    ensures Meaning(Wrap(v + 2)) == Notified(Meaning(v))
            <==> (if IsDead(v) then v + 2 < STATE_SPINNING
                  else v < 0 || Low(v) + 2 < STATE_FLAG_WAITING_EMPTY)
  {}

  /** The first notification the word cannot hold: it raises the flag although
      nobody waits for empty, and empties the count. */
  lemma NotifyOverflow()
    ensures var full: s32 := 2 * (0x2000_0000 - 1);
            Meaning(full) == Running(0x1FFF_FFFF, false) && Meaning(Wrap(full + 2)) == Running(0, true)
  {}

  /** The CAS of `WaitForWork` on a running word: an empty count goes to sleep and
      drops the flag (the caller posts the waiter), a pending count is consumed
      and the flag kept. */
  lemma WaitForWorkTransition(v: s32)
    requires v >= 0
    ensures Meaning(v).Running?
    ensures Meaning(NextStateWaitForWork(v)) ==
            if Meaning(v).pending == 0 then Sleeping else Running(0, Meaning(v).waiting)
    ensures OrFlag(STATE_SLEEPING) == STATE_SLEEPING && OrFlag(STATE_SPINNING) == STATE_SPINNING
  {}

  /** `fetch_and(STATE_FLAG_WAITING_EMPTY)` and `value | STATE_FLAG_WAITING_EMPTY`
      on a running word change the count and the flag independently. */
  lemma MaskTransitions(v: s32)
    requires v >= 0
    ensures Meaning(AndFlag(v)) == Running(0, Meaning(v).waiting)
    ensures Meaning(OrFlag(v)) == Running(Meaning(v).pending, true)
  {}

  /** `Kill` posts the empty semaphore when bit 30 of the old word is set. For a
      running word that is exactly when someone waits; on a spinning or sleeping
      word it posts although nobody can be waiting. */
  lemma KillPosts(v: s32)
    requires !IsDead(v)
    ensures HasFlag(v) == (Meaning(v).Running? && Meaning(v).waiting) <==> v >= 0
  {}
}
