/** The single-producer single-consumer ring buffer as a transition system. Each
    load, store, construction, copy and destruction is one step of one side. */
module SpscQueueProtocol {
  import opened Modular

  datatype Slot<T> = Raw | Live(value: T)

  /** `write` is the producer's copy of its own index. */
  datatype ProducerPc<T> =
    | Outside
    | Loaded(write: nat, item: T)       // about to load read_index_
    | Cleared(write: nat, item: T)      // there is room, about to construct
    | Constructed(write: nat, item: T)  // about to store write_index_

  /** `seen` is history: how many items had been published when `write` was loaded. */
  datatype ConsumerPc<T> =
    | Idle
    | HasWrite(write: nat, seen: nat)   // about to load read_index_
    | NotEmpty(read: nat)               // about to read the slot, or to call front()
    | Fronted                           // front() has stored pending_pop_read_index
    | Copied(read: nat, item: T)        // about to destroy the slot
    | Destroyed(read: nat)              // about to store read_index_

  datatype State<T> = State(
    writeIndex: nat,
    readIndex: nat,
    pending: nat,                 // pending_pop_read_index
    buffer: seq<Slot<T>>,
    producer: ProducerPc<T>,
    consumer: ConsumerPc<T>,
    published: seq<T>,            // history: items whose index store has happened
    popped: seq<T>,               // history: values handed out of slots now destroyed
    fault: bool                   // history: an item built on a live slot, or a raw slot read or destroyed
  )

  datatype Step<T> =
    | StartPush(item: T) | CheckRoom | Construct | Publish
    | LoadWrite | LoadRead | Front | Copy | CopyFront | Destroy | Advance

  function NextIndex(arg: nat, maxSize: nat): nat
    requires maxSize > 0
  {
    (arg + 1) % maxSize
  }

  predicate Enabled<T>(s: State<T>, step: Step<T>) {
    match step
    case StartPush(_) => s.producer.Outside?
    case CheckRoom => s.producer.Loaded? && |s.buffer| > 0
    case Construct => s.producer.Cleared? && s.producer.write < |s.buffer|
    case Publish => s.producer.Constructed? && |s.buffer| > 0
    case LoadWrite => s.consumer.Idle?
    case LoadRead => s.consumer.HasWrite?
    case Front => s.consumer.NotEmpty?
    case Copy => s.consumer.NotEmpty? && s.consumer.read < |s.buffer|
    case CopyFront => s.consumer.Fronted? && s.pending < |s.buffer|
    case Destroy => s.consumer.Copied? && s.consumer.read < |s.buffer|
    case Advance => s.consumer.Destroyed? && |s.buffer| > 0
  }

  /** `front()` hands out a reference and `pop()` destroys through
      `pending_pop_read_index`; `pop(ret)` and `consume_one` use their local index. */
  function Next<T>(s: State<T>, step: Step<T>): State<T>
    requires Enabled(s, step)
  {
    match step
    case StartPush(item) => s.(producer := Loaded(s.writeIndex, item))
    case CheckRoom =>
      if NextIndex(s.producer.write, |s.buffer|) == s.readIndex then s.(producer := Outside)
      else s.(producer := Cleared(s.producer.write, s.producer.item))
    case Construct =>
      s.(buffer := s.buffer[s.producer.write := Live(s.producer.item)],
         producer := Constructed(s.producer.write, s.producer.item),
         fault := s.fault || s.buffer[s.producer.write].Live?)
    case Publish =>
      s.(writeIndex := NextIndex(s.producer.write, |s.buffer|),
         published := s.published + [s.producer.item], producer := Outside)
    case LoadWrite => s.(consumer := HasWrite(s.writeIndex, |s.published|))
    case LoadRead => s.(consumer := if s.consumer.write == s.readIndex then Idle else NotEmpty(s.readIndex))
    case Front => s.(pending := s.readIndex, consumer := Fronted)
    case Copy => CopyFrom(s, s.consumer.read)
    case CopyFront => CopyFrom(s, s.pending)
    case Destroy =>
      s.(buffer := s.buffer[s.consumer.read := Raw],
         popped := s.popped + [s.consumer.item], consumer := Destroyed(s.consumer.read),
         fault := s.fault || s.buffer[s.consumer.read].Raw?)
    case Advance => s.(readIndex := NextIndex(s.consumer.read, |s.buffer|), consumer := Idle)
  }

  function CopyFrom<T>(s: State<T>, read: nat): State<T>
    requires read < |s.buffer|
  {
    match s.buffer[read]
    case Raw => s.(fault := true)
    case Live(item) => s.(consumer := Copied(read, item))
  }

  // ---- the invariant ----

  /** Items whose removal the consumer has announced through read_index_. */
  function Released<T>(s: State<T>): int {
    |s.popped| - if s.consumer.Destroyed? then 1 else 0
  }

  /** What the slot of the `j`-th item ever pushed has to hold. */
  function Expected<T>(s: State<T>, j: nat): Slot<T> {
    if j < |s.published| then Live(s.published[j])
    else if j == |s.published| && s.producer.Constructed? then Live(s.producer.item)
    else Raw
  }

  ghost predicate IndexInv<T>(s: State<T>) {
    && |s.buffer| > 0
    && 0 <= Released(s) && |s.popped| <= |s.published|
    && |s.published| - Released(s) < |s.buffer|
    && s.writeIndex == |s.published| % |s.buffer|
    && s.readIndex == Released(s) % |s.buffer|
  }

  ghost predicate SlotInv<T>(s: State<T>)
    requires |s.buffer| > 0
  {
    forall j | |s.popped| <= j < |s.popped| + |s.buffer| :: s.buffer[j % |s.buffer|] == Expected(s, j)
  }

  ghost predicate ProducerInv<T>(s: State<T>) {
    && (!s.producer.Outside? ==> s.producer.write == s.writeIndex)
    && (s.producer.Cleared? || s.producer.Constructed? ==> |s.published| + 1 - Released(s) < |s.buffer|)
  }

  ghost predicate ConsumerInv<T>(s: State<T>)
    requires |s.buffer| > 0
  {
    match s.consumer
    case Idle => true
    case HasWrite(write, seen) => |s.popped| <= seen <= |s.published| && write == seen % |s.buffer|
    case NotEmpty(read) => read == s.readIndex && |s.popped| < |s.published|
    case Fronted => s.pending == s.readIndex && |s.popped| < |s.published|
    case Copied(read, item) => read == s.readIndex && |s.popped| < |s.published| && item == s.published[|s.popped|]
    case Destroyed(read) => read == s.readIndex && |s.popped| > 0
  }

  /** FIFO: what has been popped is the start of what has been published, and the
      slots hold exactly the rest, in ring order. */
  ghost predicate Inv<T>(s: State<T>) {
    && IndexInv(s) && SlotInv(s) && ProducerInv(s) && ConsumerInv(s)
    && s.popped <= s.published
    && !s.fault
  }

  lemma NextIndexStep(i: nat, m: nat)
    requires m > 0
    ensures NextIndex(i % m, m) == (i + 1) % m
  {
    ModSucc(i, m);
  }

  /** The slots are right after a step that leaves them and what they stand for alone. */
  lemma SlotsKept<T>(s: State<T>, t: State<T>)
    requires |s.buffer| > 0 && SlotInv(s)
    requires t.buffer == s.buffer && |t.popped| == |s.popped|
    requires forall j: nat :: Expected(t, j) == Expected(s, j)
    ensures SlotInv(t)
  {
    forall j | |t.popped| <= j < |t.popped| + |t.buffer|
      ensures t.buffer[j % |t.buffer|] == Expected(t, j)
    {
      assert s.buffer[j % |s.buffer|] == Expected(s, j);
    }
  }

  /** The producer's test for a full ring, is exact at the moment it loads
      `read_index_`. */
  lemma RingFull<T>(s: State<T>)
    requires IndexInv(s)
    ensures NextIndex(s.writeIndex, |s.buffer|) == s.readIndex
            <==> |s.published| - Released(s) == |s.buffer| - 1
  {
    var m, n, r := |s.buffer|, |s.published|, Released(s);
    NextIndexStep(n, m);
    if n + 1 == r + m {
      ModAddOnce(r, m);
    } else {
      ModDistinct(r, n + 1, m);
    }
  }

  lemma CheckRoomKeeps<T>(s: State<T>)
    requires Inv(s) && Enabled(s, CheckRoom)
    ensures Inv(Next(s, CheckRoom))
  {
    RingFull(s);
    SlotsKept(s, Next(s, CheckRoom));
  }

  lemma PublishKeeps<T>(s: State<T>)
    requires Inv(s) && Enabled(s, Publish)
    ensures Inv(Next(s, Publish))
  {
    NextIndexStep(|s.published|, |s.buffer|);
    SlotsKept(s, Next(s, Publish));
  }

  lemma ConstructKeeps<T>(s: State<T>)
    requires Inv(s) && Enabled(s, Construct)
    ensures Inv(Next(s, Construct))
  {
    var m, n, t := |s.buffer|, |s.published|, Next(s, Construct);
    assert s.buffer[n % m] == Expected(s, n);
    forall j | |t.popped| <= j < |t.popped| + m
      ensures t.buffer[j % m] == Expected(t, j)
    {
      assert s.buffer[j % m] == Expected(s, j);
      if j < n {
        ModDistinct(j, n, m);
      } else if n < j {
        ModDistinct(n, j, m);
      }
    }
  }

  lemma OthersKeep<T>(s: State<T>, step: Step<T>)
    requires Inv(s) && Enabled(s, step)
    requires !step.CheckRoom? && !step.Publish? && !step.Construct? && !step.Destroy?
    ensures Inv(Next(s, step))
  {
    var m, c := |s.buffer|, |s.popped|;
    if step.LoadRead? && s.consumer.seen > Released(s) {
      ModDistinct(Released(s), s.consumer.seen, m);
    }
    if step.Advance? {
      NextIndexStep(Released(s), m);
    }
    assert s.buffer[c % m] == Expected(s, c);
    SlotsKept(s, Next(s, step));
  }

  lemma DestroyKeeps<T>(s: State<T>)
    requires Inv(s) && Enabled(s, Destroy)
    ensures Inv(Next(s, Destroy))
  {
    var m, c, t := |s.buffer|, |s.popped|, Next(s, Destroy);
    assert s.buffer[c % m] == Expected(s, c);
    ModAddOnce(c, m);
    forall j | |t.popped| <= j < |t.popped| + m
      ensures t.buffer[j % m] == Expected(t, j)
    {
      if j < c + m {
        assert s.buffer[j % m] == Expected(s, j);
        ModDistinct(c, j, m);
      }
    }
  }

  /** Every step of either side keeps the invariant, however stale its copy of the
      other side's index is. */
  lemma InvInductive<T>(s: State<T>, step: Step<T>)
    requires Inv(s) && Enabled(s, step)
    ensures Inv(Next(s, step))
  {
    match step
    case CheckRoom => CheckRoomKeeps(s);
    case Publish => PublishKeeps(s);
    case Construct => ConstructKeeps(s);
    case Destroy => DestroyKeeps(s);
    case _ => OthersKeep(s, step);
  }

  // ---- what the results of push and pop mean ----

  /** Items in the ring, counting one the consumer has not released yet. */
  function Held<T>(s: State<T>): int {
    |s.published| - Released(s)
  }

  /** `push` fails exactly when the ring holds `max_size - 1` items at its load of
      `read_index_`; `pop` and `consume_one` fail exactly when it held none at their
      load of `write_index_`, which is when `seen` was recorded. */
  lemma ResultsAreHonest<T>(s: State<T>)
    requires Inv(s)
    ensures 0 <= Held(s) <= |s.buffer| - 1
    ensures Enabled(s, CheckRoom) ==>
              (Next(s, CheckRoom).producer.Outside? <==> Held(s) == |s.buffer| - 1)
    ensures Enabled(s, LoadRead) ==>
              (Next(s, LoadRead).consumer.Idle? <==> s.consumer.seen - |s.popped| == 0)
  {
    if Enabled(s, CheckRoom) {
      RingFull(s);
    }
    if s.consumer.HasWrite? && s.consumer.seen > |s.popped| {
      ModDistinct(|s.popped|, s.consumer.seen, |s.buffer|);
    }
  }

  /** No item is built over a live one and none is read or destroyed twice: a slot
      is raw when the producer builds in it and holds the oldest item, not yet
      destroyed, when the consumer reads or destroys it. */
  lemma SlotLifetime<T>(s: State<T>, step: Step<T>)
    requires Inv(s) && Enabled(s, step)
    ensures step.Construct? ==> s.buffer[s.producer.write].Raw?
    ensures step.Copy? ==> s.buffer[s.consumer.read] == Live(s.published[|s.popped|])
    ensures step.CopyFront? ==> s.buffer[s.pending] == Live(s.published[|s.popped|])
    ensures step.Destroy? ==> s.buffer[s.consumer.read] == Live(s.published[|s.popped|])
                              && Next(s, Destroy).popped == s.popped + [s.published[|s.popped|]]
  {
    InvInductive(s, step);
    assert s.buffer[|s.popped| % |s.buffer|] == Expected(s, |s.popped|);
  }

  /** `size()` from its two loads. */
  function Size(write: nat, read: nat, maxSize: nat): int {
    if read > write then write + maxSize - read else write - read
  }

  /** Called by either side, `size()` is the number of items at its load of the other
      side's index. */
  lemma {:induction false} SizeIsHeld<T>(s: State<T>)
    requires Inv(s)
    ensures Size(s.writeIndex, s.readIndex, |s.buffer|) == Held(s)
  {
    var m, n, r := |s.buffer|, |s.published|, Released(s);
    var q, p := r / m, r % m;
    assert r == q * m + p && n == q * m + (p + n - r);
    if p + (n - r) < m {
      ModUnique(n, q, p + (n - r), m);
    } else {
      MulSub(q + 1, q, m);
      ModUnique(n, q + 1, p + (n - r) - m, m);
    }
  }

  // ---- whole runs ----

  ghost predicate IsExecution<T>(run: seq<State<T>>, steps: seq<Step<T>>, maxSize: nat) {
    && |run| == |steps| + 1 && maxSize > 0
    && run[0] == State(0, 0, 0, seq(maxSize, _ => Raw), Outside, Idle, [], [], false)
    && forall i | 0 <= i < |steps| :: Enabled(run[i], steps[i]) && run[i + 1] == Next(run[i], steps[i])
  }

  /** First in, first out in every interleaving: what has come out is what went in,
      in order, and the live slots hold exactly the rest. */
  lemma {:induction false} FifoOverRuns<T>(run: seq<State<T>>, steps: seq<Step<T>>, maxSize: nat, i: nat)
    requires IsExecution(run, steps, maxSize) && i < |run|
    ensures Inv(run[i])
    ensures |run[i].buffer| == maxSize
    ensures forall j | |run[i].popped| <= j < |run[i].published| ::
              run[i].buffer[j % maxSize] == Live(run[i].published[j])
    decreases i
  {
    if i > 0 {
      FifoOverRuns(run, steps, maxSize, i - 1);
      InvInductive(run[i - 1], steps[i - 1]);
    }
    var s := run[i];
    forall j | |s.popped| <= j < |s.published|
      ensures s.buffer[j % maxSize] == Live(s.published[j])
    {
      assert s.buffer[j % maxSize] == Expected(s, j);
    }
  }
}

/** The ring buffer as an object over a fixed array. Before each of its own loads and
    stores, a side lets the other side take the steps of the next turn of a schedule. */
module SpscQueueObject {
  import opened Modular
  import opened SpscQueueProtocol

  predicate IsProducerStep<T>(step: Step<T>) {
    step.StartPush? || step.CheckRoom? || step.Construct? || step.Publish?
  }

  class RingBuffer<T(0)> {
    var write_index_: nat
    var read_index_: nat
    var pending_pop_read_index: nat
    const buffer: array<Slot<T>>
    var sides: State<T>           // program counters and history; the fields above are left out of it
    var schedule: seq<seq<Step<T>>>

    function View(): State<T>
      reads this, buffer
    {
      sides.(writeIndex := write_index_, readIndex := read_index_, pending := pending_pop_read_index,
             buffer := buffer[..])
    }

    ghost predicate Valid()
      reads this, buffer
    {
      Inv(View())
    }

    constructor (maxSize: nat, schedule: seq<seq<Step<T>>>)
      requires maxSize > 0
      ensures Valid() && fresh(buffer) && buffer.Length == maxSize
      ensures sides.published == sides.popped == [] && sides.producer.Outside? && sides.consumer.Idle?
    {
      write_index_, read_index_, pending_pop_read_index := 0, 0, 0;
      buffer := new Slot<T>[maxSize](_ => Raw);
      sides := State(0, 0, 0, [], Outside, Idle, [], [], false);
      this.schedule := schedule;
    }

    /** Takes `step`, whose effect on the slots is `buffer[index] := slot`, if any. */
    method Take(step: Step<T>, index: nat, slot: Slot<T>)
      requires Valid() && Enabled(View(), step) && index < buffer.Length
      requires Next(View(), step).buffer == buffer[..][index := slot]
      modifies this`write_index_, this`read_index_, this`pending_pop_read_index, this`sides, buffer
      ensures Valid() && View() == Next(old(View()), step)
    {
      InvInductive(View(), step);
      var t := Next(View(), step);
      buffer[index] := slot;
      write_index_, read_index_, pending_pop_read_index, sides := t.writeIndex, t.readIndex, t.pending, t;
    }

    method Step(step: Step<T>)
      requires Valid() && Enabled(View(), step)
      modifies this`write_index_, this`read_index_, this`pending_pop_read_index, this`sides, buffer
      ensures Valid() && View() == Next(old(View()), step)
    {
      if step.Construct? {
        Take(step, sides.producer.write, Live(sides.producer.item));
      } else if step.Destroy? {
        Take(step, sides.consumer.read, Raw);
      } else {
        assert buffer[..][0 := buffer[0]] == buffer[..];
        Take(step, 0, buffer[0]);
      }
    }

    /** Lets the other side run; `producing` says which side is running now. */
    method Interfere(producing: bool)
      requires Valid()
      modifies this, buffer
      ensures Valid()
      ensures if producing then sides.producer == old(sides.producer) && sides.published == old(sides.published)
              else sides.consumer == old(sides.consumer) && sides.popped == old(sides.popped)
      ensures if producing then old(sides.popped) <= sides.popped else old(sides.published) <= sides.published
      ensures producing ==> old(Released(View())) <= Released(View())
      ensures schedule == (if old(schedule) == [] then [] else old(schedule)[1..])
      ensures old(schedule) == [] ==> View() == old(View())
    {
      if schedule == [] {
        return;
      }
      var others := schedule[0];
      schedule := schedule[1..];
      for i := 0 to |others|
        invariant Valid() && schedule == old(schedule)[1..]
        invariant if producing then sides.producer == old(sides.producer) && sides.published == old(sides.published)
                  else sides.consumer == old(sides.consumer) && sides.popped == old(sides.popped)
        invariant if producing then old(sides.popped) <= sides.popped else old(sides.published) <= sides.published
        invariant producing ==> old(Released(View())) <= Released(View())
      {
        if IsProducerStep(others[i]) != producing && Enabled(View(), others[i]) {
          Step(others[i]);
        }
      }
    }

    /** The two loads with which a push begins. */
    method LookForRoom(item: T) returns (ok: bool)
      requires Valid() && sides.producer.Outside?
      modifies this, buffer
      ensures Valid() && sides.published == old(sides.published) && old(sides.popped) <= sides.popped
      ensures if ok then sides.producer.Cleared? && sides.producer.item == item else sides.producer.Outside?
      ensures !ok ==> old(Held(View())) == buffer.Length - 1
      ensures old(schedule) == [] ==> (ok <==> old(Held(View())) < buffer.Length - 1)
    {
      Interfere(true);
      Step(StartPush(item));
      Interfere(true);
      ResultsAreHonest(View());
      Step(CheckRoom);
      ok := !sides.producer.Outside?;
    }

    /** Appends the item. Refuses only if the ring was full at the call, and undisturbed it
        refuses exactly then. */
    method Push(item: T) returns (ok: bool)
      requires Valid() && sides.producer.Outside?
      modifies this, buffer
      ensures Valid() && sides.producer.Outside?
      ensures sides.published == old(sides.published) + if ok then [item] else []
      ensures old(sides.popped) <= sides.popped
      ensures !ok ==> old(Held(View())) == buffer.Length - 1
      ensures old(schedule) == [] ==> (ok <==> old(Held(View())) < buffer.Length - 1)
    {
      ok := LookForRoom(item);
      if ok {
        Interfere(true);
        Step(Construct);
        Interfere(true);
        Step(Publish);
      }
    }

    /** The two loads with which every removal begins. Refuses only if nothing was
        published beyond what had been popped. */
    method LoadIndices() returns (ok: bool)
      requires Valid() && sides.consumer.Idle?
      modifies this, buffer
      ensures Valid() && sides.popped == old(sides.popped)
      ensures if ok then sides.consumer.NotEmpty? else sides.consumer.Idle?
      ensures !ok ==> old(|sides.published| == |sides.popped|)
      ensures ok ==> |sides.popped| < |sides.published|
      ensures old(schedule) == [] ==>
                schedule == [] && sides.published == old(sides.published) && sides.producer == old(sides.producer)
    {
      Interfere(false);
      Step(LoadWrite);
      Interfere(false);
      ResultsAreHonest(View());
      Step(LoadRead);
      ok := sides.consumer.NotEmpty?;
    }

    /** Copies out the oldest item, destroys it and frees the slot. */
    method Pop() returns (ok: bool, ret: T)
      requires Valid() && sides.consumer.Idle?
      modifies this, buffer
      ensures Valid() && sides.consumer.Idle?
      ensures sides.popped == old(sides.popped) + if ok then [ret] else []
      ensures ok ==> old(|sides.popped|) < |sides.published| && ret == sides.published[old(|sides.popped|)]
      ensures !ok ==> old(|sides.published| == |sides.popped|)
      ensures old(schedule) == [] ==>
                schedule == [] && sides.published == old(sides.published) && sides.producer == old(sides.producer)
    {
      ok := LoadIndices();
      if !ok {
        ret := *;
        return;
      }
      ret := CopyOldest();
      Release();
    }

    method CopyOldest() returns (ret: T)
      requires Valid() && sides.consumer.NotEmpty? && |sides.popped| < |sides.published|
      modifies this, buffer
      ensures Valid() && sides.consumer.Copied? && sides.consumer.item == ret && sides.popped == old(sides.popped)
      ensures old(sides.published) <= sides.published && |sides.popped| < |sides.published|
      ensures ret == sides.published[|sides.popped|]
      ensures old(schedule) == [] ==>
                schedule == [] && sides.published == old(sides.published) && sides.producer == old(sides.producer)
    {
      Interfere(false);
      SlotLifetime(View(), SpscQueueProtocol.Step.Copy);
      ret := buffer[read_index_].value;
      Step(SpscQueueProtocol.Step.Copy);
    }

    /** `front()`, called after a test that the ring is not empty: the oldest item. */
    method Front() returns (item: T)
      requires Valid() && sides.consumer.NotEmpty?
      modifies this, buffer
      ensures Valid() && sides.consumer.Fronted? && sides.popped == old(sides.popped)
      ensures |sides.popped| < |sides.published| && item == sides.published[|sides.popped|]
    {
      Interfere(false);
      Step(SpscQueueProtocol.Step.Front);
      SlotLifetime(View(), CopyFront);
      item := buffer[pending_pop_read_index].value;
    }

    /** `pop()`: destroys the item that `front()` showed and frees its slot. */
    method PopFront()
      requires Valid() && sides.consumer.Fronted?
      modifies this, buffer
      ensures Valid() && sides.consumer.Idle?
      ensures |old(sides.popped)| < |sides.published|
      ensures sides.popped == old(sides.popped) + [sides.published[|old(sides.popped)|]]
    {
      Interfere(false);
      SlotLifetime(View(), CopyFront);
      Step(CopyFront);
      Release();
    }

    /** Runs the destructor of the item read and publishes the free slot. */
    method Release()
      requires Valid() && sides.consumer.Copied?
      modifies this, buffer
      ensures Valid() && sides.consumer.Idle?
      ensures sides.popped == old(sides.popped) + [old(sides.consumer.item)]
      ensures old(sides.published) <= sides.published
      ensures old(schedule) == [] ==>
                schedule == [] && sides.published == old(sides.published) && sides.producer == old(sides.producer)
    {
      Interfere(false);
      Step(Destroy);
      Interfere(false);
      Step(Advance);
    }

    /** `~ringbuffer_base`, run when neither side is inside a call any more: every item
        ever pushed ends up destroyed, in order, and no slot stays live. */
    method Drain()
      requires Valid() && sides.producer.Outside? && sides.consumer.Idle? && schedule == []
      modifies this, buffer
      ensures Valid() && sides.popped == sides.published == old(sides.published)
      ensures forall k | 0 <= k < buffer.Length :: buffer[k].Raw?
    {
      var ok := true;
      while ok
        invariant Valid() && sides.consumer.Idle? && sides.producer.Outside? && schedule == []
        invariant sides.published == old(sides.published)
        invariant !ok ==> |sides.published| == |sides.popped|
        decreases |sides.published| - |sides.popped|, ok
      {
        var out;
        ok, out := Pop();
      }
      AllRaw();
    }

    lemma AllRaw()
      requires Valid() && sides.popped == sides.published && sides.producer.Outside?
      ensures forall k | 0 <= k < buffer.Length :: buffer[k].Raw?
    {
      var m, n := buffer.Length, |sides.popped|;
      forall k | 0 <= k < m
        ensures buffer[k].Raw?
      {
        var j := n - n % m + k + if k < n % m then m else 0;
        SlotPosition(n, k, m, j);
        assert View().buffer[j % m] == Expected(View(), j);
      }
    }

    static lemma SlotPosition(n: nat, k: nat, m: nat, j: int)
      requires k < m && j == n - n % m + k + if k < n % m then m else 0
      ensures n <= j < n + m && j % m == k
    {
      assert n == n / m * m + n % m;
      if k < n % m {
        MulSub(n / m + 1, n / m, m);
        ModUnique(j, n / m + 1, k, m);
      } else {
        ModUnique(j, n / m, k, m);
      }
    }
  }
}
