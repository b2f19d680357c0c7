/** The flexible array of shared/flex_array.h: slots that may be empty, and compaction. */
module FlexArray {

  datatype Entry<+T> = Entry(empty: bool, value: T)

  /** What becomes of a call: it is carried out, it panics, or it leaves the bounds of the storage area. */
  datatype Status = Done | Panic | OutOfBounds

  /** The values of the first n slots, without the empty ones. */
  function PackedTo<T>(s: seq<Entry<T>>, n: nat): seq<T>
    requires n <= |s|
  {
    if n == 0 then [] else PackedTo(s, n - 1) + (if s[n - 1].empty then [] else [s[n - 1].value])
  }

  function Packed<T>(s: seq<Entry<T>>): seq<T> {
    PackedTo(s, |s|)
  }

  /** The values stand in the first n slots, and nowhere else. */
  predicate Compact<T>(s: seq<Entry<T>>, n: nat) {
    n <= |s| && forall k {:trigger s[k]} :: 0 <= k < |s| ==> s[k].empty == (k >= n)
  }

  lemma {:induction false} PackedSame<T>(s: seq<Entry<T>>, t: seq<Entry<T>>, n: nat)
    requires n <= |s| && n <= |t| && forall k :: 0 <= k < n ==> s[k] == t[k]
    ensures PackedTo(s, n) == PackedTo(t, n)
  {
    if n > 0 {
      PackedSame(s, t, n - 1);
    }
  }

  lemma {:induction false} PackedEmpty<T>(s: seq<Entry<T>>, m: nat, n: nat)
    requires m <= n <= |s| && forall k :: m <= k < n ==> s[k].empty
    ensures PackedTo(s, n) == PackedTo(s, m)
  {
    if m < n {
      PackedEmpty(s, m, n - 1);
    }
  }

  /** Slots from n on that agree contribute the same. */
  lemma {:induction false} PackedOn<T>(s: seq<Entry<T>>, t: seq<Entry<T>>, m: nat, n: nat)
    requires m <= n <= |s| == |t| && PackedTo(s, m) == PackedTo(t, m) && forall k :: m <= k < n ==> s[k] == t[k]
    ensures PackedTo(s, n) == PackedTo(t, n)
  {
    if m < n {
      PackedOn(s, t, m, n - 1);
    }
  }

  lemma {:induction false} CompactValues<T>(s: seq<Entry<T>>, n: nat, m: nat)
    requires Compact(s, n) && m <= |s|
    ensures |PackedTo(s, m)| == (if m < n then m else n)
    ensures forall k :: 0 <= k < |PackedTo(s, m)| ==> PackedTo(s, m)[k] == s[k].value
  {
    if m > 0 {
      CompactValues(s, n, m - 1);
    }
  }

  /** Moving a value down over empty slots changes neither the values nor their order. */
  lemma MoveKeeps<T>(s: seq<Entry<T>>, e: nat, i: nat, blank: Entry<T>)
    requires e < i < |s| && !s[i].empty && blank.empty && forall k :: e <= k < i ==> s[k].empty
    ensures Packed(s[e := s[i]][i := blank]) == Packed(s)
  {
    var t := s[e := s[i]][i := blank];
    PackedSame(s, t, e);
    PackedEmpty(s, e, i);
    PackedEmpty(t, e + 1, i + 1);
    assert PackedTo(t, i + 1) == PackedTo(s, i + 1);
    PackedOn(s, t, i + 1, |s|);
  }

  /** Writing one slot. */
  lemma PackedUpdate<T>(s: seq<Entry<T>>, i: nat, x: Entry<T>)
    requires i < |s|
    ensures |Packed(s[i := x])| == |Packed(s)| + (if s[i].empty then 0 else -1) + (if x.empty then 0 else 1)
  {
    PackedUpdateTo(s, i, x, |s|);
  }

  lemma {:induction false} PackedUpdateTo<T>(s: seq<Entry<T>>, i: nat, x: Entry<T>, n: nat)
    requires i < n <= |s|
    ensures |PackedTo(s[i := x], n)| == |PackedTo(s, n)| + (if s[i].empty then 0 else -1) + (if x.empty then 0 else 1)
  {
    if i == n - 1 {
      PackedSame(s, s[i := x], i);
    } else {
      PackedUpdateTo(s, i, x, n - 1);
    }
  }

  /** New slots are empty, the old ones what they were. */
  lemma GrownPacked<T>(s: seq<Entry<T>>, t: seq<Entry<T>>)
    requires |s| <= |t| && (forall k :: 0 <= k < |s| ==> t[k] == s[k]) && forall k :: |s| <= k < |t| ==> t[k].empty
    ensures Packed(t) == Packed(s)
  {
    PackedSame(s, t, |s|);
    PackedEmpty(t, |s|, |t|);
  }

  lemma AppendValue<T>(s: seq<Entry<T>>, n: nat, value: T)
    requires Compact(s, n) && n < |s|
    ensures Packed(s[n := Entry(false, value)]) == Packed(s) + [value] && Compact(s[n := Entry(false, value)], n + 1)
  {
    var t := s[n := Entry(false, value)];
    PackedSame(s, t, n);
    PackedEmpty(s, n, |s|);
    PackedEmpty(t, n + 1, |t|);
  }

  lemma RemoveLast<T>(s: seq<Entry<T>>, n: nat, value: T)
    requires Compact(s, n) && n > 0
    ensures var t := s[n - 1 := Entry(true, value)];
            Compact(t, n - 1) && |Packed(s)| == n && Packed(t) == Packed(s)[..n - 1]
  {
    var t := s[n - 1 := Entry(true, value)];
    PackedSame(s, t, n - 1);
    PackedEmpty(s, n, |s|);
    PackedEmpty(t, n - 1, |t|);
    CompactValues(s, n, n - 1);
  }

  lemma {:induction false} RemoveFirst<T>(s: seq<Entry<T>>, n: nat)
    requires 0 < n <= |s| && !s[0].empty
    ensures |PackedTo(s, n)| > 0 && PackedTo(s[0 := Entry(true, s[0].value)], n) == PackedTo(s, n)[1..]
  {
    if n > 1 {
      RemoveFirst(s, n - 1);
    }
  }

  /** A storage area that has been made larger. */
  ghost predicate Grown<T>(s: seq<Entry<T>>, t: seq<Entry<T>>) {
    && |s| <= |t| && (forall k {:trigger t[k]} :: 0 <= k < |s| ==> t[k] == s[k])
    && forall k {:trigger t[k]} :: |s| <= k < |t| ==> t[k].empty
  }

  /** Slot i has become x; of the others only new ones have come, and they are empty. */
  ghost predicate SlotSet<T>(s: seq<Entry<T>>, t: seq<Entry<T>>, i: nat, x: Entry<T>) {
    && |s| <= |t| && i < |t| && t[i] == x
    && (forall k {:trigger t[k]} :: 0 <= k < |s| && k != i ==> t[k] == s[k])
    && forall k {:trigger t[k]} :: |s| <= k < |t| && k != i ==> t[k].empty
  }

  class Flex<T> {
    var storage: array<Entry<T>>
    var occupied: nat
    var nextIndex: nat
    var fragmented: bool
    const blank: T

    function Slots(): seq<Entry<T>>
      reads this, storage
    {
      storage[..]
    }

    /** The counters count the values, and unless the fragmented flag is up the values are the first slots. */
    ghost predicate Valid()
      reads this, storage
    {
      && occupied == nextIndex == |Packed(Slots())|
      && (!fragmented ==> Compact(Slots(), occupied))
    }

    constructor (capacity: nat, blank: T)
      ensures Valid() && !fragmented && Packed(Slots()) == [] && storage.Length == capacity && fresh(storage)
    {
      this.blank := blank;
      storage := new Entry<T>[capacity](_ => Entry(true, blank));
      occupied, nextIndex, fragmented := 0, 0, false;
      new;
      PackedEmpty(Slots(), 0, |Slots()|);
    }

    /**
     defragment(): the loop goes back to the slot it has filled. It ends because the run of
     full slots at the front grows each time.
     */
    method Defragment()
      modifies this, storage
      ensures Compact(Slots(), |Packed(Slots())|) && !fragmented && storage == old(storage) && nextIndex == occupied == old(occupied)
      ensures Packed(Slots()) == old(Packed(Slots()))
    {
      var emptyIndex := -1;
      var i := 0;
      while i < storage.Length
        invariant 0 <= i <= storage.Length && -1 <= emptyIndex < i
        invariant storage == old(storage) && occupied == old(occupied) && Packed(Slots()) == old(Packed(Slots()))
        invariant forall k :: 0 <= k < (if emptyIndex == -1 then i else emptyIndex) ==> !Slots()[k].empty
        invariant emptyIndex != -1 ==> forall k :: emptyIndex <= k < i ==> Slots()[k].empty
        decreases storage.Length - (if emptyIndex == -1 then i else emptyIndex), storage.Length - i, emptyIndex == -1
      {
        if storage[i].empty {
          if emptyIndex == -1 {
            emptyIndex := i;
          }
          i := i + 1;
        } else if emptyIndex == -1 {
          i := i + 1;
        } else {
          ghost var s := Slots();
          MoveKeeps(s, emptyIndex, i, Entry(true, blank));
          storage[emptyIndex] := storage[i];
          storage[i] := Entry(true, blank);
          assert Slots() == s[emptyIndex := s[i]][i := Entry(true, blank)];
          i := emptyIndex + 1;
          emptyIndex := -1;
        }
      }
      ghost var n := if emptyIndex == -1 then i else emptyIndex;
      assert Compact(Slots(), n);
      CompactValues(Slots(), n, |Slots()|);
      nextIndex := occupied;
      fragmented := false;
    }

    /** resize(): the copy runs over the old capacity, so a smaller area overflows unless a panic comes first. */
    method Resize(newCapacity: nat, unsafe: bool) returns (status: Status)
      requires Valid()
      modifies this
      ensures Valid() && Packed(Slots()) == old(Packed(Slots())) && fragmented == old(fragmented)
      ensures status == if newCapacity >= old(storage.Length) then Done
                        else if !unsafe && (fragmented || newCapacity < occupied) then Panic else OutOfBounds
      ensures status != Done ==> storage == old(storage)
      ensures status == Done ==> fresh(storage) && storage.Length == newCapacity && Grown(old(Slots()), Slots())
    {
      if fragmented && !unsafe && newCapacity < storage.Length {
        return Panic;
      }
      if !fragmented && !unsafe && newCapacity < occupied {
        CompactValues(Slots(), occupied, |Slots()|);
        return Panic;
      }
      if newCapacity < storage.Length {
        return OutOfBounds;
      }
      var area := new Entry<T>[newCapacity](_ => Entry(true, blank));
      var i := 0;
      while i < storage.Length
        invariant 0 <= i <= storage.Length && fresh(area) && storage == old(storage) && Slots() == old(Slots())
        invariant forall k :: 0 <= k < area.Length ==> area[k] == if k < i then storage[k] else Entry(true, blank)
        modifies area
      {
        area[i] := storage[i];
        i := i + 1;
      }
      GrownPacked(Slots(), area[..]);
      storage := area;
      status := Done;
    }

    /** The capacity that set_at() and push() grow to: room for the index, and 1.9 times the old capacity. */
    function Enough(index: nat): nat
      reads this
    {
      index + 1 + storage.Length * 19 / 10
    }

    method SetAt(index: nat, value: T)
      requires Valid()
      modifies this, storage
      ensures Valid() && index < storage.Length
      ensures SlotSet(old(Slots()), Slots(), index, Entry(false, value))
      ensures fragmented <==> old(fragmented) || (old(storage.Length <= index || storage[index].empty) && index != old(nextIndex))
    {
      if index + 1 > storage.Length {
        var _ := Resize(Enough(index), false);
      }
      ghost var s := Slots();
      PackedUpdate(s, index, Entry(false, value));
      if storage[index].empty {
        if index != nextIndex {
          fragmented := true;
        }
        occupied := occupied + 1;
        nextIndex := nextIndex + 1;
      }
      storage[index] := Entry(false, value);
      assert Slots() == s[index := Entry(false, value)];
    }

    method RemoveAt(index: nat)
      requires Valid()
      modifies this, storage
      ensures Valid() && storage == old(storage)
      ensures index >= storage.Length || old(storage[index].empty) ==> Slots() == old(Slots()) && fragmented == old(fragmented)
      ensures index < storage.Length && !old(storage[index].empty) ==> Slots() == old(Slots()[index := Entry(true, storage[index].value)])
      ensures fragmented <==> old(fragmented) || (index < storage.Length && !old(storage[index].empty) && index != old(nextIndex) - 1)
    {
      if index + 1 > storage.Length || storage[index].empty {
        return;
      }
      ghost var s := Slots();
      PackedUpdate(s, index, Entry(true, s[index].value));
      if index != nextIndex - 1 {
        fragmented := true;
      }
      nextIndex := nextIndex - 1;
      occupied := occupied - 1;
      storage[index] := Entry(true, storage[index].value);
      assert Slots() == s[index := Entry(true, s[index].value)];
    }

    /** push(): refused while the array is fragmented, and otherwise always onto an empty slot. */
    method Push(value: T) returns (status: Status)
      requires Valid()
      modifies this, storage
      ensures Valid() && fragmented == old(fragmented)
      ensures status == if fragmented then Panic else Done
      ensures Packed(Slots()) == if fragmented then old(Packed(Slots())) else old(Packed(Slots())) + [value]
    {
      if fragmented {
        return Panic;
      }
      ghost var values := Packed(Slots());
      if nextIndex + 1 > storage.Length {
        var _ := Resize(Enough(nextIndex), false);
      }
      ghost var s := Slots();
      storage[nextIndex] := Entry(false, value);
      assert Slots() == s[nextIndex := Entry(false, value)];
      AppendValue(s, nextIndex, value);
      occupied := occupied + 1;
      nextIndex := nextIndex + 1;
      status := Done;
    }

    /** pop(): the last values, of which the first in the list is returned; more than there are reach below the first slot. */
    method Pop(amount: nat) returns (status: Status, value: T)
      requires Valid()
      modifies this, storage
      ensures Valid() && fragmented == old(fragmented)
      ensures status == if fragmented then Panic else if amount > old(occupied) then OutOfBounds else Done
      ensures status == Panic ==> Packed(Slots()) == old(Packed(Slots()))
      ensures status == Done ==> Packed(Slots()) == old(Packed(Slots())[..occupied - amount])
      ensures status == Done && amount > 0 ==> value == old(Packed(Slots())[occupied - amount])
    {
      value := blank;
      if fragmented {
        return Panic, value;
      }
      ghost var values := Packed(Slots());
      var i := 0;
      while i < amount
        invariant 0 <= i <= amount && i <= |values| && Valid() && !fragmented && storage == old(storage)
        invariant Packed(Slots()) == values[..|values| - i]
        invariant i > 0 ==> value == values[|values| - i]
      {
        if nextIndex == 0 {
          return OutOfBounds, value;
        }
        ghost var s := Slots();
        CompactValues(s, occupied, |s|);
        value := storage[nextIndex - 1].value;
        storage[nextIndex - 1] := Entry(true, value);
        assert Slots() == s[nextIndex - 1 := Entry(true, value)];
        RemoveLast(s, occupied, value);
        occupied := occupied - 1;
        nextIndex := nextIndex - 1;
        i := i + 1;
      }
      status := Done;
    }

    /**
     shift(): slot i is looked at, slot 0 is emptied. One value goes; as many are struck off the
     count as were looked at. The books stay in order exactly if that is at most one.
     */
    method Shift(amount: nat) returns (status: Status, value: T)
      requires Valid()
      modifies this, storage
      ensures status == if fragmented then Panic else if amount > storage.Length then OutOfBounds else Done
      ensures status == Panic ==> Valid() && Packed(Slots()) == old(Packed(Slots()))
      ensures status == Done ==> Packed(Slots()) == if amount > 0 && old(occupied) > 0 then old(Packed(Slots()))[1..] else old(Packed(Slots()))
      ensures status == Done ==> (Valid() <==> amount <= 1 || old(occupied) <= 1)
      ensures status == Done && 0 < amount <= old(occupied) ==> value == old(Packed(Slots()))[amount - 1]
    {
      value := blank;
      if fragmented {
        return Panic, value;
      }
      ghost var s := Slots();
      CompactValues(s, occupied, |s|);
      var i := 0;
      while i < amount
        invariant 0 <= i <= amount && i <= storage.Length && storage == old(storage) && !fragmented
        invariant occupied == old(occupied) - (if i < old(occupied) then i else old(occupied))
        invariant Slots() == if i > 0 && old(occupied) > 0 then s[0 := Entry(true, s[0].value)] else s
        invariant 0 < i <= old(occupied) ==> value == s[i - 1].value
      {
        if i >= storage.Length {
          return OutOfBounds, value;
        }
        var element := storage[i];
        value := element.value;
        if !element.empty {
          storage[0] := Entry(true, storage[0].value);
          occupied := occupied - 1;
          assert Slots() == s[0 := Entry(true, s[0].value)];
        }
        i := i + 1;
      }
      if amount > 0 && old(occupied) > 0 {
        RemoveFirst(s, |s|);
      }
      Defragment();
      status := Done;
    }

    method Reset()
      modifies this, storage
      ensures Valid() && !fragmented && Packed(Slots()) == [] && storage == old(storage)
    {
      var i := 0;
      while i < storage.Length
        invariant 0 <= i <= storage.Length && storage == old(storage)
        invariant forall k :: 0 <= k < i ==> storage[k].empty
      {
        storage[i] := Entry(true, storage[i].value);
        i := i + 1;
      }
      PackedEmpty(Slots(), 0, |Slots()|);
      occupied, nextIndex, fragmented := 0, 0, false;
    }

    /** operator[]: panics outside the capacity and on an empty slot. */
    method GetAt(index: nat) returns (status: Status, value: T)
      ensures status == if index < storage.Length && !storage[index].empty then Done else Panic
      ensures status == Done ==> value == storage[index].value
    {
      if storage.Length < index + 1 {
        return Panic, blank;
      }
      if storage[index].empty {
        return Panic, blank;
      }
      return Done, storage[index].value;
    }
  }
}
