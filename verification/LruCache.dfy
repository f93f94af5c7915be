/** `LRUCache` refines a list of entries in order of their last access. */
module LruList {

  datatype Entry<K, V> = Entry(key: K, value: V)

  /** Least recently touched first. */
  type Recency<K, V> = seq<Entry<K, V>>

  ghost predicate Distinct<K, V>(l: Recency<K, V>) {
    forall i, j | 0 <= i < j < |l| :: l[i].key != l[j].key
  }

  predicate Has<K(==), V>(l: Recency<K, V>, key: K) {
    exists i :: 0 <= i < |l| && l[i].key == key
  }

  function Position<K(==), V>(l: Recency<K, V>, key: K): (i: nat)
    ensures i <= |l| && (i < |l| ==> l[i].key == key) && (i < |l| <==> Has(l, key))
    ensures forall j | 0 <= j < i :: l[j].key != key
  {
    if l == [] then 0
    else if l[0].key == key then 0
    else
      var i := Position(l[1..], key);
      assert forall j | 0 < j < |l| :: l[j] == l[1..][j - 1];
      i + 1
  }

  function Without<K(==), V>(l: Recency<K, V>, key: K): Recency<K, V> {
    var i := Position(l, key);
    if i < |l| then l[..i] + l[i + 1..] else l
  }

  /** A touched entry is the most recent one. */
  function Touch<K(==), V>(l: Recency<K, V>, key: K, value: V): Recency<K, V> {
    Without(l, key) + [Entry(key, value)]
  }

  function DropOldest<K, V>(l: Recency<K, V>, count: nat): Recency<K, V> {
    if count <= |l| then l[count..] else []
  }

  function KeepNewest<K, V>(l: Recency<K, V>, n: nat): Recency<K, V> {
    if n <= |l| then l[|l| - n..] else l
  }

  /** What `ShrinkForNewItem` leaves: room for one more. With capacity 0 the subtraction
      wraps, so that everything goes. */
  function MakeRoom<K, V>(l: Recency<K, V>, capacity: nat): Recency<K, V> {
    if |l| < capacity then l else KeepNewest(l, if capacity == 0 then 0 else capacity - 1)
  }

  datatype Operation<K, V> =
    | Lookup(key: K)
    | Insert(key: K, value: V)
    | Evict(count: nat)
    | Remove(key: K)
    | SetMaxCapacity(capacity: nat)
    | ManualEvict
    | Clear

  datatype Cache<K, V> = Cache(entries: Recency<K, V>, capacity: nat)

  function Apply<K(==), V>(c: Cache<K, V>, op: Operation<K, V>): Cache<K, V> {
    match op
    case Lookup(key) =>
      if Has(c.entries, key) then c.(entries := Touch(c.entries, key, c.entries[Position(c.entries, key)].value)) else c
    case Insert(key, value) => c.(entries := Touch(MakeRoom(c.entries, c.capacity), key, value))
    case Evict(count) => c.(entries := DropOldest(c.entries, count))
    case Remove(key) => c.(entries := Without(c.entries, key))
    case SetMaxCapacity(capacity) => Cache(KeepNewest(c.entries, capacity), capacity)
    case ManualEvict => c.(entries := KeepNewest(c.entries, c.capacity))
    case Clear => c.(entries := [])
  }

  lemma WithoutKeeps<K, V>(l: Recency<K, V>, key: K)
    requires Distinct(l)
    ensures Distinct(Without(l, key)) && !Has(Without(l, key), key)
    ensures |Without(l, key)| == if Has(l, key) then |l| - 1 else |l|
    ensures forall e :: e in Without(l, key) <==> e in l && e.key != key
  {
    var i, w := Position(l, key), Without(l, key);
    if i < |l| {
      assert forall j | 0 <= j < |w| :: w[j] == if j < i then l[j] else l[j + 1];
      forall e | e in l && e.key != key
        ensures e in w
      {
        var j :| 0 <= j < |l| && l[j] == e;
        assert w[if j < i then j else j - 1] == e;
      }
    }
  }

  lemma TouchKeeps<K, V>(l: Recency<K, V>, key: K, value: V)
    requires Distinct(l)
    ensures Distinct(Touch(l, key, value))
    ensures |Touch(l, key, value)| == if Has(l, key) then |l| else |l| + 1
  {
    WithoutKeeps(l, key);
    var w := Without(l, key);
    forall j | 0 <= j < |w|
      ensures w[j].key != key
    {
      assert w[j] in w;
    }
  }

  /** One operation keeps the capacity, except for an insertion into a cache of capacity 0:
      that one always leaves an item. */
  lemma CapacityKept<K, V>(c: Cache<K, V>, op: Operation<K, V>)
    requires Distinct(c.entries) && |c.entries| <= c.capacity
    ensures Distinct(Apply(c, op).entries)
    ensures |Apply(c, op).entries| <= Apply(c, op).capacity <==> !(op.Insert? && c.capacity == 0)
  {
    match op
    case Lookup(key) =>
      if Has(c.entries, key) {
        TouchKeeps(c.entries, key, c.entries[Position(c.entries, key)].value);
      }
    case Insert(key, value) => TouchKeeps(MakeRoom(c.entries, c.capacity), key, value);
    case Remove(key) => WithoutKeeps(c.entries, key);
    case Evict(_) =>
    case SetMaxCapacity(_) =>
    case ManualEvict =>
    case Clear =>
  }

  function Run<K(==), V>(c: Cache<K, V>, ops: seq<Operation<K, V>>): Cache<K, V> {
    if ops == [] then c else Apply(Run(c, ops[..|ops| - 1]), ops[|ops| - 1])
  }

  /** Over whole runs: with a capacity of at least 1 throughout, the cache never holds more. */
  lemma {:induction false} NeverOverCapacity<K, V>(c: Cache<K, V>, ops: seq<Operation<K, V>>)
    requires c.entries == [] && c.capacity >= 1
    requires forall op | op in ops && op.SetMaxCapacity? :: op.capacity >= 1
    ensures var r := Run(c, ops); Distinct(r.entries) && |r.entries| <= r.capacity && r.capacity >= 1
    decreases |ops|
  {
    if ops != [] {
      var before, op := ops[..|ops| - 1], ops[|ops| - 1];
      assert op in ops && forall o | o in before :: o in ops;
      NeverOverCapacity(c, before);
      CapacityKept(Run(c, before), op);
    }
  }

  /** Inserting drops no other key exactly if there is room already, or the item that makes
      room is the old one of the same key: room is made before the key is looked for. */
  lemma InsertDropsOthers<K, V>(l: Recency<K, V>, capacity: nat, key: K, value: V)
    requires Distinct(l) && 1 <= |l| <= capacity
    ensures (forall e | e in l && e.key != key :: e in Touch(MakeRoom(l, capacity), key, value))
            <==> |l| < capacity || l[0].key == key
  {
    var room := MakeRoom(l, capacity);
    WithoutKeeps(room, key);
    var after := Touch(room, key, value);
    if |l| == capacity {
      assert room == l[1..];
      assert l[0] !in room;
      if l[0].key != key {
        assert l[0] in l && l[0] !in after;
      }
      assert forall e | e in l :: e == l[0] || e in room;
    }
  }

  /** An entry just looked up, or put where there was room, is still there after fewer than
      `capacity` insertions of other keys. */
  lemma {:induction false} RecentSurvives<K, V>(l: Recency<K, V>, capacity: nat, inserts: seq<Entry<K, V>>,
          e: Entry<K, V>)
    requires Distinct(l) && |l| <= capacity && (Has(l, e.key) || |l| < capacity) && |inserts| < capacity
    requires forall i | i in inserts :: i.key != e.key
    ensures Distinct(Inserted(Touch(l, e.key, e.value), capacity, inserts))
    ensures |Inserted(Touch(l, e.key, e.value), capacity, inserts)| <= capacity
    ensures e in Inserted(Touch(l, e.key, e.value), capacity, inserts)
  {
    TouchKeeps(l, e.key, e.value);
    var start := Touch(l, e.key, e.value);
    assert start[|start| - 1] == e;
    var at := SurvivesAt(start, capacity, inserts, e);
  }

  function Inserted<K(==), V>(l: Recency<K, V>, capacity: nat, inserts: seq<Entry<K, V>>): Recency<K, V> {
    if inserts == [] then l
    else
      var last := inserts[|inserts| - 1];
      Touch(MakeRoom(Inserted(l, capacity, inserts[..|inserts| - 1]), capacity), last.key, last.value)
  }

  /** The survivor has at most as many newer entries behind it as there were insertions. */
  lemma {:induction false} SurvivesAt<K, V>(l: Recency<K, V>, capacity: nat, inserts: seq<Entry<K, V>>, e: Entry<K, V>)
    returns (at: nat)
    requires Distinct(l) && |l| <= capacity && |inserts| < capacity
    requires l != [] && l[|l| - 1] == e && forall i | i in inserts :: i.key != e.key
    ensures var r := Inserted(l, capacity, inserts);
            Distinct(r) && |r| <= capacity && at < |r| && r[at] == e && |r| - 1 - at <= |inserts|
    decreases |inserts|
  {
    if inserts == [] {
      return |l| - 1;
    }
    var before, last := inserts[..|inserts| - 1], inserts[|inserts| - 1];
    assert last in inserts && forall i | i in before :: i in inserts;
    at := SurvivesAt(l, capacity, before, e);
    at := SurvivesOne(Inserted(l, capacity, before), capacity, last, at, |before|);
  }

  lemma SurvivesOne<K, V>(r: Recency<K, V>, capacity: nat, last: Entry<K, V>, i: nat, n: nat) returns (at: nat)
    requires Distinct(r) && |r| <= capacity && i < |r| && |r| - 1 - i <= n && n + 1 < capacity
    requires r[i].key != last.key
    ensures var r' := Touch(MakeRoom(r, capacity), last.key, last.value);
            Distinct(r') && |r'| <= capacity && at < |r'| && r'[at] == r[i] && |r'| - 1 - at <= n + 1
  {
    var here := RoomKeeps(r, capacity, i, n);
    TouchKeeps(MakeRoom(r, capacity), last.key, last.value);
    at := TouchMoves(MakeRoom(r, capacity), last.key, last.value, here);
  }

  lemma RoomKeeps<K, V>(r: Recency<K, V>, capacity: nat, i: nat, n: nat) returns (at: nat)
    requires Distinct(r) && |r| <= capacity && i < |r| && |r| - 1 - i <= n && n + 1 < capacity
    ensures var room := MakeRoom(r, capacity);
            Distinct(room) && |room| < capacity && at < |room| && room[at] == r[i] && |room| - at == |r| - i
  {
    at := i - (|r| - |MakeRoom(r, capacity)|);
  }

  lemma TouchMoves<K, V>(l: Recency<K, V>, key: K, value: V, i: nat) returns (at: nat)
    requires Distinct(l) && i < |l| && l[i].key != key
    ensures var r := Touch(l, key, value); at < |r| && r[at] == l[i] && |r| - at <= |l| - i + 1
  {
    var p, w := Position(l, key), Without(l, key);
    at := if p < i then i - 1 else i;
    assert p < |l| ==> w == l[..p] + l[p + 1..];
    assert w[at] == l[i];
  }
}

module LruCache {
  import opened LruList
  import opened Wrappers

  datatype Item<V> = Item(value: V, lastAccess: nat)

  const COUNTER_MAX := 0xFFFF_FFFF_FFFF_FFFF

  /** The map holds exactly the entries of the list. */
  ghost predicate Holds<K, V>(items: map<K, Item<V>>, l: Recency<K, V>) {
    && Distinct(l)
    && (forall i | 0 <= i < |l| :: l[i].key in items && items[l[i].key].value == l[i].value)
    && (forall k {:trigger Has(l, k)} | k in items :: Has(l, k))
  }

  /** Access stamps grow along the list, so no two are the same. */
  ghost predicate Ascending<K, V>(items: map<K, Item<V>>, l: Recency<K, V>) {
    forall i, j | 0 <= i < j < |l| ::
      l[i].key in items && l[j].key in items && items[l[i].key].lastAccess < items[l[j].key].lastAccess
  }

  ghost predicate Bounded<K, V>(items: map<K, Item<V>>, counter: nat) {
    forall k | k in items :: items[k].lastAccess <= counter
  }

  lemma HasWithout<K, V>(l: Recency<K, V>, key: K, k: K)
    requires Distinct(l)
    ensures Has(Without(l, key), k) <==> Has(l, k) && k != key
  {
    WithoutKeeps(l, key);
    var w := Without(l, key);
    if Has(l, k) && k != key {
      var i :| 0 <= i < |l| && l[i].key == k;
      assert l[i] in w;
      var j :| 0 <= j < |w| && w[j] == l[i];
      assert w[j].key == k;
    }
    if Has(w, k) {
      var j :| 0 <= j < |w| && w[j].key == k;
      assert w[j] in l;
      var i :| 0 <= i < |l| && l[i] == w[j];
      assert l[i].key == k;
    }
  }

  lemma WithoutHolds<K, V>(items: map<K, Item<V>>, l: Recency<K, V>, key: K)
    requires Holds(items, l)
    ensures Holds(items - {key}, Without(l, key))
  {
    WithoutKeeps(l, key);
    var w := Without(l, key);
    forall i | 0 <= i < |w|
      ensures w[i].key in items - {key} && items[w[i].key].value == w[i].value
    {
      assert w[i] in l;
    }
    forall k | k in items - {key}
      ensures Has(w, k)
    {
      HasWithout(l, key, k);
    }
  }

  lemma WithoutAscends<K, V>(items: map<K, Item<V>>, l: Recency<K, V>, key: K)
    requires Holds(items, l) && Ascending(items, l)
    ensures Ascending(items - {key}, Without(l, key))
  {
    WithoutHolds(items, l, key);
    var p, w := Position(l, key), Without(l, key);
    forall i, j | 0 <= i < j < |w|
      ensures items[w[i].key].lastAccess < items[w[j].key].lastAccess
    {
      var i', j' := if i < p then i else i + 1, if j < p then j else j + 1;
      assert p < |l| ==> w[i] == l[i'] && w[j] == l[j'];
    }
  }

  lemma TouchHolds<K, V>(items: map<K, Item<V>>, l: Recency<K, V>, key: K, value: V, stamp: nat)
    requires Holds(items, l)
    ensures Holds(items[key := Item(value, stamp)], Touch(l, key, value))
  {
    WithoutHolds(items, l, key);
    TouchKeeps(l, key, value);
    var w, r, m := Without(l, key), Touch(l, key, value), items[key := Item(value, stamp)];
    forall k | k in m
      ensures Has(r, k)
    {
      if k == key {
        assert r[|w|].key == k;
      } else {
        assert Has(w, k);
        var i :| 0 <= i < |w| && w[i].key == k;
        assert r[i].key == k;
      }
    }
  }

  lemma TouchAscends<K, V>(items: map<K, Item<V>>, l: Recency<K, V>, key: K, value: V, counter: nat)
    requires Holds(items, l) && Ascending(items, l) && Bounded(items, counter)
    ensures Ascending(items[key := Item(value, counter + 1)], Touch(l, key, value))
  {
    WithoutAscends(items, l, key);
    WithoutHolds(items, l, key);
    var w, r := Without(l, key), Touch(l, key, value);
    assert forall i | 0 <= i < |w| :: r[i] == w[i] && w[i].key != key && w[i].key in items - {key};
  }

  lemma {:induction false} SizeOfList<K, V>(keys: set<K>, l: Recency<K, V>)
    requires Distinct(l)
    requires (forall e | e in l :: e.key in keys) && forall k | k in keys :: Has(l, k)
    ensures |keys| == |l|
    decreases |l|
  {
    if l == [] {
      assert keys == {};
    } else {
      var last, rest := l[|l| - 1], l[..|l| - 1];
      assert last in l;
      forall k | k in keys - {last.key}
        ensures Has(rest, k)
      {
        var i :| 0 <= i < |l| && l[i].key == k;
        assert rest[i].key == k;
      }
      forall e | e in rest
        ensures e.key in keys - {last.key}
      {
        var i :| 0 <= i < |rest| && rest[i] == e;
        assert l[i] == e && l[i] in l;
      }
      SizeOfList(keys - {last.key}, rest);
    }
  }

  lemma SizeAgrees<K, V>(items: map<K, Item<V>>, l: Recency<K, V>)
    requires Holds(items, l)
    ensures |items| == |l|
  {
    assert forall e | e in l :: e.key in items.Keys;
    assert forall k | k in items.Keys :: Has(l, k);
    SizeOfList(items.Keys, l);
    assert |items| == |items.Keys|;
  }

  /** The map and the counter stand for the list. */
  ghost predicate Represents<K, V>(items: map<K, Item<V>>, counter: nat, l: Recency<K, V>) {
    Holds(items, l) && Ascending(items, l) && Bounded(items, counter) && |items| == |l| && counter <= COUNTER_MAX
  }

  lemma StampKeeps<K, V>(items: map<K, Item<V>>, l: Recency<K, V>, key: K, value: V, counter: nat)
    requires Represents(items, counter, l) && counter < COUNTER_MAX
    ensures Represents(items[key := Item(value, counter + 1)], counter + 1, Touch(l, key, value))
  {
    TouchHolds(items, l, key, value, counter + 1);
    TouchAscends(items, l, key, value, counter);
    SizeAgrees(items[key := Item(value, counter + 1)], Touch(l, key, value));
  }

  /** `++m_last_counter` on 64 bits. */
  function Increment(counter: nat): nat
    requires counter <= COUNTER_MAX
  {
    if counter == COUNTER_MAX then 0 else counter + 1
  }

  /** The stamps keep the order of access exactly until the counter wraps; from then on the
      item just touched counts as the oldest, unless it is the only one. */
  lemma OrderedUntilWrap<K, V>(items: map<K, Item<V>>, l: Recency<K, V>, key: K, value: V, counter: nat)
    requires Holds(items, l) && Ascending(items, l) && Bounded(items, counter) && counter <= COUNTER_MAX
    ensures Ascending(items[key := Item(value, Increment(counter))], Touch(l, key, value))
            <==> counter < COUNTER_MAX || Without(l, key) == []
  {
    var w, r, m := Without(l, key), Touch(l, key, value), items[key := Item(value, Increment(counter))];
    if counter < COUNTER_MAX {
      TouchAscends(items, l, key, value, counter);
    } else if w != [] {
      assert r[0] == w[0] && r[|w|].key == key && m[key].lastAccess == 0;
      assert !(m[r[0].key].lastAccess < m[r[|w|].key].lastAccess);
    }
  }

  class LRUCache<K(==), V> {
    var items: map<K, Item<V>>
    var lastCounter: nat
    var maxCapacity: nat
    var manualEvict: bool
    ghost var entries: Recency<K, V>

    ghost predicate Valid()
      reads this
    {
      Represents(items, lastCounter, entries)
    }

    ghost function Abstract(): Cache<K, V>
      reads this
    {
      Cache(entries, maxCapacity)
    }

    constructor (capacity: nat, manual: bool)
      ensures Valid() && Abstract() == Cache([], capacity) && manualEvict == manual
    {
      items, lastCounter, maxCapacity, manualEvict := map[], 0, capacity, manual;
      entries := [];
    }

    method Clear()
      requires Valid()
      modifies `items, `entries
      ensures Valid() && Abstract() == Apply(old(Abstract()), Operation.Clear)
    {
      items, entries := map[], [];
    }

    method Lookup(key: K) returns (value: Option<V>)
      requires Valid() && lastCounter < COUNTER_MAX
      modifies `items, `lastCounter, `entries
      ensures Valid() && Abstract() == Apply(old(Abstract()), Operation.Lookup(key))
      ensures value.Some? <==> Has(old(entries), key)
      ensures value.Some? ==> Entry(key, value.value) in old(entries)
    {
      FoundIffListed(key);
      if key !in items {
        return None;
      }
      value := Some(items[key].value);
      Stamp(key, items[key].value);
    }

    lemma FoundIffListed(key: K)
      requires Holds(items, entries)
      ensures key in items <==> Has(entries, key)
      ensures key in items ==> entries[Position(entries, key)] == Entry(key, items[key].value)
    {
      var p := Position(entries, key);
      assert key in items ==> Has(entries, key);
      if p < |entries| {
        assert entries[p].key in items;
      }
    }

    /** The access: new value, next stamp. */
    method Stamp(key: K, value: V)
      requires Valid() && lastCounter < COUNTER_MAX
      modifies `items, `lastCounter, `entries
      ensures Valid() && entries == Touch(old(entries), key, value)
    {
      StampKeeps(items, entries, key, value, lastCounter);
      lastCounter := Increment(lastCounter);
      items, entries := items[key := Item(value, lastCounter)], Touch(entries, key, value);
    }

    method Insert(key: K, value: V)
      requires Valid() && lastCounter < COUNTER_MAX
      modifies `items, `lastCounter, `entries
      ensures Valid() && Abstract() == Apply(old(Abstract()), Operation.Insert(key, value))
    {
      ShrinkForNewItem();
      Stamp(key, value);
    }

    /** `std::min_element` over the map, in whatever order it is walked. */
    method Oldest() returns (lowest: K)
      requires Valid() && items != map[]
      ensures entries != [] && lowest == entries[0].key
    {
      var rest := items.Keys;
      lowest :| lowest in rest;
      while rest != {}
        invariant rest <= items.Keys && lowest in items
        invariant forall k | k in items.Keys - rest :: items[lowest].lastAccess <= items[k].lastAccess
        decreases |rest|
      {
        var k :| k in rest;
        rest := rest - {k};
        if items[k].lastAccess < items[lowest].lastAccess {
          lowest := k;
        }
      }
      OldestIsFirst(lowest);
    }

    lemma OldestIsFirst(lowest: K)
      requires Holds(items, entries) && Ascending(items, entries) && lowest in items
      requires forall k | k in items.Keys :: items[lowest].lastAccess <= items[k].lastAccess
      ensures entries != [] && lowest == entries[0].key
    {
      var p := Position(entries, lowest);
      assert Has(entries, lowest);
      assert entries[0].key in items.Keys;
    }

    method Evict(count: nat)
      requires Valid()
      modifies `items, `entries
      ensures Valid() && entries == DropOldest(old(entries), count)
    {
      ghost var before := entries;
      var left := count;
      while items != map[] && left > 0
        invariant Valid() && 0 <= left <= count && entries == DropOldest(before, count - left)
        decreases left
      {
        EvictOne();
        left := left - 1;
      }
      if left > 0 {
        assert |items| == 0;
        assert DropOldest(before, count) == [];
      }
    }

    method EvictOne()
      requires Valid() && items != map[]
      modifies `items, `entries
      ensures Valid() && old(entries) != [] && entries == old(entries)[1..]
    {
      var lowest := Oldest();
      WithoutHolds(items, entries, lowest);
      WithoutAscends(items, entries, lowest);
      items := items - {lowest};
      entries := Without(entries, lowest);
      SizeAgrees(items, entries);
    }

    method Remove(key: K) returns (removed: bool)
      requires Valid()
      modifies `items, `entries
      ensures Valid() && Abstract() == Apply(old(Abstract()), Operation.Remove(key))
      ensures removed <==> Has(old(entries), key)
    {
      FoundIffListed(key);
      if key !in items {
        return false;
      }
      WithoutHolds(items, entries, key);
      WithoutAscends(items, entries, key);
      items := items - {key};
      entries := Without(entries, key);
      SizeAgrees(items, entries);
      return true;
    }

    method SetMaxCapacity(capacity: nat)
      requires Valid()
      modifies `items, `entries, `maxCapacity
      ensures Valid() && Abstract() == Apply(old(Abstract()), Operation.SetMaxCapacity(capacity))
    {
      maxCapacity := capacity;
      if |items| > maxCapacity {
        Evict(|items| - maxCapacity);
      }
    }

    method SetManualEvict(block: bool)
      requires Valid()
      modifies `items, `entries, `manualEvict
      ensures Valid() && manualEvict == block
      ensures Abstract() == if block then old(Abstract()) else Apply(old(Abstract()), Operation.ManualEvict)
    {
      manualEvict := block;
      if !manualEvict {
        ManualEvict();
      }
    }

    method ManualEvict()
      requires Valid()
      modifies `items, `entries
      ensures Valid() && Abstract() == Apply(old(Abstract()), Operation.ManualEvict)
    {
      while |items| > maxCapacity
        invariant Valid() && KeepNewest(entries, maxCapacity) == KeepNewest(old(entries), maxCapacity)
        decreases |items|
      {
        Evict(|items| - maxCapacity);
      }
    }

    /** Subtracting on `size_t`: `m_max_capacity - 1` wraps for capacity 0, and then wraps back. */
    method ShrinkForNewItem()
      requires Valid()
      modifies `items, `entries
      ensures Valid() && entries == MakeRoom(old(entries), maxCapacity)
    {
      if |items| < maxCapacity {
        return;
      }
      Evict(if maxCapacity == 0 then |items| + 1 else |items| - (maxCapacity - 1));
    }
  }
}
