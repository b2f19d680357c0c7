/** The hash map of shared/map.h, on its storage array. */
module RobinHood {
  import opened RobinHoodTable

  datatype Lookup = Lookup(index: nat, found: bool)
  datatype SetResult = Stored | Duplicate | Exhausted
  datatype RemoveResult = Removed | Absent | OutOfBounds
  datatype FetchResult<+V> = Fetched(value: V) | NoSuchEntry

  class Map<V(!new)> {
    var storage: array<Slot<V>>
    var capacity: nat
    var occupiedBuckets: nat
    const zero: V
    ghost var entries: map<Key, V>

    ghost predicate Valid()
      reads this, storage
    {
      && capacity == storage.Length
      && Spaced(storage[..]) && HasStop(storage[..])
      && Represents(storage[..], entries)
      && occupiedBuckets == Occupied(storage[..]) == |entries|
    }

    function Unused(): Slot<V>
      reads this
    {
      Slot(true, 0, 0, zero)
    }

    /** What locate_bucket() takes for a hit: an entry, or an unused home slot asked for key 0. */
    ghost predicate Hit(key: Key)
      requires storage.Length > 0
      reads this, storage
    {
      key in entries || (key == 0 && storage[Home(storage.Length, 0)].empty)
    }

    /** Nothing can be stored: the table is full and may not or cannot grow. */
    predicate Full(autoOptimise: bool)
      reads this
    {
      occupiedBuckets >= capacity && !(autoOptimise && capacity > 1)
    }

    constructor (zero: V, initialCapacity: nat)
      requires initialCapacity > 0
      ensures Valid() && entries == map[] && capacity == initialCapacity && fresh(storage)
    {
      this.zero := zero;
      capacity := initialCapacity;
      storage := new Slot<V>[initialCapacity](_ => Slot(true, 0, 0, zero));
      occupiedBuckets := 0;
      entries := map[];
      new;
      EmptyTable(storage[..]);
    }

    static lemma EmptyTable(t: seq<Slot<V>>)
      requires |t| > 0 && forall i :: 0 <= i < |t| ==> t[i].empty && t[i].probes == 0 && t[i].key == 0
      ensures Spaced(t) && HasStop(t) && Represents(t, map[]) && Occupied(t) == 0
    {
      OccupiedNone(t, |t|);
      assert t[0].probes == 0;
    }

    /** locate_bucket(): ends on every valid table, even a full one, and finds exactly the hits. */
    method LocateBucket(key: Key) returns (r: Lookup)
      requires Valid()
      ensures r.found <==> Hit(key)
      ensures r.found ==> r.index < storage.Length && storage[r.index].key == key
      ensures r.found ==> (storage[r.index].empty <==> key !in entries)
      ensures r.found && key !in entries ==> r.index == Home(storage.Length, 0)
    {
      ghost var t := storage[..];
      var home := Home(capacity, key);
      var index := home;
      if storage[index].key == key {
        HomeHit(t, entries, key);
        return Lookup(index, true);
      }
      assert key == 0 ==> !t[home].empty by {
        assert Placed(t, home);
      }
      ghost var z: nat :| z < |t| && t[z].probes == 0;
      while true
        invariant index < capacity && Seen(t, home, index, key) && Ahead(|t|, home, index, z)
        decreases capacity - Distance(capacity, home, index)
      {
        ghost var last := index;
        ProbeOn(t, home, index, z, key);
        index := Succ(capacity, index);
        var bucket := storage[index];
        if bucket.probes == 0 {
          GiveUp(t, entries, key, last);
          return Lookup(0, false);
        } else if bucket.key == key {
          assert Placed(t, index);
          return Lookup(index, true);
        }
      }
    }

    static lemma HomeHit(t: seq<Slot<V>>, m: map<Key, V>, key: Key)
      requires Spaced(t) && Represents(t, m) && t[Home(|t|, key)].key == key
      ensures t[Home(|t|, key)].empty ==> key == 0
      ensures !t[Home(|t|, key)].empty ==> key in m
      ensures t[Home(|t|, key)].empty ==> key !in m
    {
      var h := Home(|t|, key);
      assert Placed(t, h);
      if t[h].empty && key in m {
        assert Stores(t, |t|, key);
        var s: nat :| s < |t| && !t[s].empty && t[s].key == key;
        assert Placed(t, s);
        Chain(t, s, h);
      }
    }

    method Exists(key: Key) returns (r: bool)
      requires Valid()
      ensures r <==> Hit(key)
      ensures key != 0 ==> (r <==> key in entries)
    {
      var result := LocateBucket(key);
      r := result.found;
    }

    /** fetch() */
    method Fetch(key: Key) returns (r: FetchResult<V>)
      requires Valid()
      ensures key in entries ==> r == Fetched(entries[key])
      ensures r == NoSuchEntry <==> !Hit(key)
    {
      var result := LocateBucket(key);
      if !result.found {
        return NoSuchEntry;
      }
      r := Fetched(storage[result.index].value);
    }

    /** The probing loop of set(), from a taken home slot on. */
    static method Probe(storage: array<Slot<V>>, first: Slot<V>, ghost m: map<Key, V>, ghost e: nat)
      requires storage.Length > 0 && Inserting(storage[..], first, Home(storage.Length, first.key), m, e)
      modifies storage
      ensures Spaced(storage[..]) && HasStop(storage[..]) && Represents(storage[..], m)
      ensures Occupied(storage[..]) == old(Occupied(storage[..])) + 1
    {
      var index, target := Home(storage.Length, first.key), first;
      while true
        invariant Inserting(storage[..], target, index, m, e)
        invariant Occupied(storage[..]) == old(Occupied(storage[..]))
        decreases Distance(storage.Length, index, e)
      {
        ghost var t, last, before := storage[..], index, target;
        index := Succ(storage.Length, index);
        target := target.(probes := target.probes + 1);
        var bucket := storage[index];
        if bucket.empty {
          storage[index] := target;
          assert storage[..] == t[index := Raised(before)];
          InsertionEnds(t, before, last, m, e);
          return;
        } else if bucket.probes < target.probes {
          storage[index] := target;
          target := bucket;
          assert storage[..] == t[index := Raised(before)];
          InsertionSwaps(t, before, last, m, e);
        } else {
          InsertionPasses(t, before, last, m, e);
        }
      }
    }

    /** The part of set() that finds a place, with room in the table. */
    method Insert(key: Key, value: V)
      requires Valid() && occupiedBuckets < capacity && key !in entries
      modifies storage, `occupiedBuckets, `entries
      ensures Valid() && entries == old(entries)[key := value]
    {
      var index := Home(capacity, key);
      var target := Slot(false, 0, key, value);
      ghost var t, m := storage[..], entries[key := value];
      if storage[index].empty {
        InsertionAtHome(t, target, entries);
        storage[index] := target;
        assert storage[..] == t[index := target];
      } else {
        ghost var e := InsertionStarts(t, target, entries);
        Probe(storage, target, m, e);
      }
      occupiedBuckets := occupiedBuckets + 1;
      entries := m;
    }

    /** Enough of the load factor 0.92 is used up for set() to ask for more storage. */
    predicate Crowded()
      reads this
    {
      100 * occupiedBuckets >= 92 * capacity
    }

    /** set(): the growth it may trigger keeps every entry. */
    method Set(key: Key, value: V, autoOptimise: bool, ghost bound: nat) returns (r: SetResult)
      requires Valid() && occupiedBuckets < bound
      modifies this, storage
      ensures storage == old(storage) || fresh(storage)
      ensures old(Hit(key)) ==> r == Duplicate
      ensures !old(Hit(key)) && 0 !in old(entries) ==> r == if old(Full(autoOptimise)) then Exhausted else Stored
      ensures r == Stored ==> Valid() && key !in old(entries) && entries == old(entries)[key := value]
      ensures r == Stored ==> capacity == if autoOptimise && old(Crowded() && capacity > 1) then old(19 * capacity / 10) else old(capacity)
      ensures r == Exhausted ==> old(Full(autoOptimise))
      decreases Rounds(bound, capacity), 0
    {
      var result := LocateBucket(key);
      if result.found {
        return Duplicate;
      }
      if autoOptimise && 100 * occupiedBuckets >= 92 * capacity {
        Room(storage[..]);
        r := Resize(19 * capacity / 10, bound);
        if r != Stored {
          return;
        }
      }
      if occupiedBuckets >= capacity {
        return Exhausted;
      }
      Insert(key, value);
      r := Stored;
    }

    static lemma Room(t: seq<Slot<V>>)
      ensures Occupied(t) <= |t|
    {
      OccupiedMonotone(t, 0, |t|);
    }

    /** New storage with nothing in it. */
    method Restart(newCapacity: nat)
      requires newCapacity > 0
      modifies this
      ensures Valid() && entries == map[] && capacity == newCapacity && fresh(storage)
    {
      storage := new Slot<V>[newCapacity](_ => Slot(true, 0, 0, zero));
      capacity := newCapacity;
      occupiedBuckets := 0;
      entries := map[];
      EmptyTable(storage[..]);
    }

    /** One round of the loop in resize(): the entry of slot i, if there is one, is set again. */
    method SetAgain(slot: Slot<V>, ghost t: seq<Slot<V>>, ghost i: nat, ghost all: map<Key, V>, ghost bound: nat) returns (r: SetResult)
      requires Valid() && capacity > 1 && i < |t| && slot == t[i] && Represents(t, all) && Rehashed(t, i, entries) && Occupied(t) <= bound
      modifies this, storage
      ensures storage == old(storage) || fresh(storage)
      ensures r == Stored ==> Valid() && Rehashed(t, i + 1, entries) && capacity >= old(capacity)
      ensures r == Stored || (r == Duplicate && 0 in all)
      ensures r == Stored && (slot.empty || !old(Crowded())) ==> capacity == old(capacity)
      ensures r == Stored ==> slot.empty || old(occupiedBuckets) < Occupied(t)
      decreases Rounds(bound, capacity), 1
    {
      if slot.empty {
        RehashNext(t, i, entries);
        return Stored;
      }
      RehashFresh(t, i, entries, all);
      ghost var m := entries[slot.key := slot.value];
      RehashNext(t, i, entries);
      NoZero(t, i, entries, all);
      Room(storage[..]);
      r := Set(slot.key, slot.value, true, bound);
      assert r == Stored ==> entries == m;
    }

    static lemma NoZero(t: seq<Slot<V>>, i: nat, m: map<Key, V>, all: map<Key, V>)
      requires Rehashed(t, i, m) && Represents(t, all)
      ensures 0 in m ==> 0 in all
    {
      assert 0 in m ==> Stores(t, i, 0);
    }

    /** resize(): every entry is set again in a larger table, which may itself grow on the way. */
    method Resize(newCapacity: nat, ghost bound: nat) returns (r: SetResult)
      requires Valid() && occupiedBuckets <= bound
      modifies this
      ensures newCapacity <= old(capacity) ==>
                r == Stored && storage == old(storage) && capacity == old(capacity) && occupiedBuckets == old(occupiedBuckets)
      ensures newCapacity > old(capacity) ==> fresh(storage)
      ensures r == Stored ==> Valid() && entries == old(entries) && capacity >= newCapacity && capacity >= old(capacity)
      ensures r == Stored || (r == Duplicate && 0 in old(entries))
      ensures r == Stored && newCapacity > old(capacity) && 100 * old(occupiedBuckets) < 92 * newCapacity + 100 ==> capacity == newCapacity
      decreases if newCapacity <= capacity then 0 else Rounds(bound, newCapacity), 2
    {
      if newCapacity <= capacity {
        return Stored;
      }
      var oldCapacity, oldStorage := capacity, storage;
      ghost var t, all := storage[..], entries;
      Restart(newCapacity);
      var i := 0;
      while i < oldCapacity
        invariant i <= oldCapacity == |t| && oldStorage[..] == t && fresh(storage) && storage != oldStorage
        invariant Valid() && capacity >= newCapacity && Rehashed(t, i, entries)
        invariant 100 * old(occupiedBuckets) < 92 * newCapacity + 100 ==> capacity == newCapacity
      {
        r := SetAgain(oldStorage[i], t, i, all, bound);
        if r != Stored {
          return;
        }
        i := i + 1;
      }
      RehashEnds(t, entries, all);
      r := Stored;
    }

    /**
     The loop of remove(): everything behind the cleared slot q moves back by one, up to a
     slot without probes; it fails when the entry in slot 0 would have to move.
     */
    static method ShiftCluster(storage: array<Slot<V>>, q: nat, unused: Slot<V>, ghost g: nat, ghost m: map<Key, V>) returns (ok: bool)
      requires Holed(storage[..], q, g) && Represents(storage[..], m)
      requires unused.empty && unused.probes == 0 && unused.key == 0
      modifies storage
      ensures ok ==> Spaced(storage[..]) && HasStop(storage[..]) && Represents(storage[..], m)
      ensures ok ==> Occupied(storage[..]) == old(Occupied(storage[..]))
      ensures ok <==> !Crosses(old(storage[..]), q)
      ensures old(storage[Succ(storage.Length, q)].probes) == 0 ==> storage[..] == old(storage[..])
    {
      var hole, shiftIndex := q, q;
      ghost var t0, h := storage[..], g;
      while true
        invariant Shifting(t0, storage[..], q, hole, h, m) && shiftIndex == hole
        invariant old(storage[Succ(storage.Length, q)].probes) == 0 ==> hole == q && storage[..] == t0
        decreases storage.Length - hole
      {
        ghost var t := storage[..];
        shiftIndex := Succ(storage.Length, shiftIndex);
        if storage[shiftIndex].probes == 0 {
          ShiftingStops(t0, t, q, hole, h, m);
          HoleCloses(t, hole, h);
          return true;
        }
        if shiftIndex == 0 {
          ShiftingStops(t0, t, q, hole, h, m);
          return false;
        }
        storage[hole] := storage[shiftIndex].(probes := storage[shiftIndex].probes - 1);
        storage[shiftIndex] := unused;
        assert storage[..] == Shifted(t, hole, unused);
        ShiftingOn(t0, t, q, hole, h, m, unused);
        h := t[shiftIndex].probes;
        hole := shiftIndex;
      }
    }

    /**
     remove(): unless the hit's cluster wraps around the end of the table, an entry's key is
     gone and nothing else; a wrapping cluster makes the loop write in front of the storage.
     */
    method Remove(key: Key) returns (r: RemoveResult)
      requires Valid()
      modifies storage, `occupiedBuckets, `entries
      ensures r == Absent <==> !old(Hit(key))
      ensures r == Absent ==> Valid() && entries == old(entries)
      ensures r == OutOfBounds <==> exists i: nat :: i < capacity && old(!storage[i].empty && storage[i].key == key) && old(Wraps(storage[..], i))
      ensures r == Removed && key in old(entries) ==> Valid() && entries == old(entries) - {key}
      ensures r == Removed && key !in old(entries) ==>
                storage[..] == old(storage[..][0 := Unused()]) && occupiedBuckets == Decremented(old(occupiedBuckets))
    {
      var result := LocateBucket(key);
      if !result.found {
        return Absent;
      }
      var ok := RemoveAt(result.index);
      r := if ok then Removed else OutOfBounds;
    }

    /** Clears the hit in slot q and moves its cluster up. */
    static method Clear(storage: array<Slot<V>>, q: nat, unused: Slot<V>, ghost m: map<Key, V>) returns (ok: bool)
      requires Spaced(storage[..]) && HasStop(storage[..]) && Represents(storage[..], m)
      requires q < storage.Length && (storage[q].empty <==> storage[q].key !in m)
      requires unused.empty && unused.probes == 0 && unused.key == 0
      modifies storage
      ensures ok <==> !old(Wraps(storage[..], q))
      ensures ok ==> Spaced(storage[..]) && HasStop(storage[..]) && Represents(storage[..], m - {old(storage[q].key)})
      ensures ok ==> Occupied(storage[..]) == old(Occupied(storage[..]) - if storage[q].empty then 0 else 1)
      ensures ok && old(storage[q].empty) ==> storage[..] == old(storage[..][q := unused])
    {
      ghost var t := storage[..];
      storage[q] := unused;
      assert storage[..] == t[q := unused];
      ClearHit(t, q, unused, m);
      CrossesIffWraps(t, q, unused);
      assert t[q].empty ==> t[Succ(|t|, q)].probes == 0 by {
        assert Smooth(t, q);
      }
      ok := ShiftCluster(storage, q, unused, t[q].probes, m - {t[q].key});
    }

    /** The part of remove() behind the lookup, for a hit in slot q. */
    method RemoveAt(q: nat) returns (ok: bool)
      requires Valid() && q < capacity && (storage[q].empty <==> storage[q].key !in entries) && (storage[q].empty ==> q == 0)
      modifies storage, `occupiedBuckets, `entries
      ensures ok <==> !old(Wraps(storage[..], q))
      ensures occupiedBuckets == Decremented(old(occupiedBuckets)) && entries == old(entries - {storage[q].key})
      ensures ok && !old(storage[q].empty) ==> Valid()
      ensures ok && old(storage[q].empty) ==> storage[..] == old(storage[..][0 := Unused()])
    {
      occupiedBuckets := Decremented(occupiedBuckets);
      ghost var rest := entries - {storage[q].key};
      assert storage[q].key in entries ==> |rest| == |entries| - 1;
      ok := Clear(storage, q, Unused(), entries);
      entries := rest;
    }
  }

  /** struct iterator, over a map that does not change meanwhile */
  class Cursor<V(!new)> {
    var currentEntry: nat
    const table: Map<V>

    constructor (table: Map<V>)
      ensures this.table == table && currentEntry == 0
    {
      this.table := table;
      currentEntry := 0;
    }

    ghost predicate Valid()
      reads this, table, table.storage
    {
      table.Valid() && currentEntry <= table.capacity
    }

    ghost function Rest(): seq<Slot<V>>
      requires Valid()
      reads this, table, table.storage
    {
      Live(table.storage[..], currentEntry)
    }

    method HasNext() returns (r: bool)
      requires Valid()
      modifies this
      ensures Valid() && Rest() == old(Rest()) && (r <==> Rest() != [])
      ensures r ==> currentEntry < table.capacity && !table.storage[currentEntry].empty
    {
      while currentEntry != table.capacity
        invariant Valid() && Rest() == old(Rest())
        decreases table.capacity - currentEntry
      {
        if !table.storage[currentEntry].empty {
          return true;
        }
        currentEntry := currentEntry + 1;
      }
      r := false;
    }

    method Next() returns (value: V)
      requires Valid() && currentEntry < table.capacity && !table.storage[currentEntry].empty
      modifies this
      ensures Valid() && old(Rest()) == [old(table.storage[currentEntry])] + Rest() && value == old(Rest())[0].value
    {
      value := table.storage[currentEntry].value;
      currentEntry := currentEntry + 1;
    }
  }

  /** How often a table on its way to holding `bound` entries can still get crowded. */
  function Rounds(bound: nat, capacity: nat): nat {
    if capacity <= 2 * bound then 2 * bound - capacity + 1 else 0
  }

  /** occupiedBuckets-- on a uint32_t */
  function Decremented(n: nat): nat {
    if n == 0 then 0xFFFF_FFFF else n - 1
  }
}
