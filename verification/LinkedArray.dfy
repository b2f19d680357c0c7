/** The doubly linked deque of shared/linked_array.h in its storage area, with the two cached free slots. */
module LinkedArray {
  import opened LinkedSlots

  datatype Option<+T> = None | Some(value: T)
  datatype Status = Done | Panic

  class Deque<T(!new)> {
    var storage: array<Entry<T>>
    var capacity: nat
    var occupied: nat
    var headNext: Link
    var tailPrev: Link
    var nextIndex: Link
    var nextIndex2: Link
    const unset: T
    ghost var order: seq<nat>

    function State(): List<T>
      reads this, storage
    {
      List(storage[..], headNext, tailPrev)
    }

    /** A cached slot is free. */
    predicate Cached(c: Link)
      reads this, storage
    {
      Vacant(State(), c)
    }

    ghost predicate Valid()
      reads this, storage
    {
      && storage.Length == capacity >= 2 && occupied == |order|
      && Linked(State(), order) && Flagged(State(), order)
      && Cached(nextIndex) && Cached(nextIndex2) && (nextIndex == nextIndex2 ==> nextIndex == Null)
    }

    /** The sequence the deque stands for. */
    ghost function Contents(): seq<T>
      requires Valid()
      reads this, storage
    {
      Values(State(), order)
    }

    constructor (unset: T, initialSize: nat)
      requires initialSize >= 2
      ensures Valid() && Contents() == [] && capacity == initialSize && fresh(storage)
    {
      this.unset := unset;
      storage := new Entry<T>[initialSize](_ => Entry(false, unset, Null, Null));
      capacity := initialSize;
      occupied := 0;
      headNext, tailPrev := Tail, Head;
      nextIndex, nextIndex2 := Null, Null;
      order := [];
    }

    /** at->next = to */
    method WriteNext(at: Link, to: Link)
      requires at.Slot? ==> at.i < storage.Length
      modifies storage, `headNext
      ensures State() == SetNext(old(State()), at, to)
    {
      match at
      case Head => headNext := to;
      case Slot(i) => storage[i] := storage[i].(next := to);
      case _ =>
    }

    /** at->prev = to */
    method WritePrev(at: Link, to: Link)
      requires at.Slot? ==> at.i < storage.Length
      modifies storage, `tailPrev
      ensures State() == SetPrev(old(State()), at, to)
    {
      match at
      case Tail => tailPrev := to;
      case Slot(i) => storage[i] := storage[i].(prev := to);
      case _ =>
    }

    /** cache_index() */
    method CacheIndex(i: nat)
      requires Cached(nextIndex) && Cached(nextIndex2) && (nextIndex == nextIndex2 ==> nextIndex == Null)
      requires i < storage.Length && !storage[i].occupied && nextIndex != Slot(i) && nextIndex2 != Slot(i)
      modifies `nextIndex, `nextIndex2
      ensures Cached(nextIndex) && Cached(nextIndex2) && (nextIndex == nextIndex2 ==> nextIndex == Null)
    {
      if nextIndex == Null {
        nextIndex := Slot(i);
      } else if nextIndex2 == Null {
        nextIndex2 := Slot(i);
      }
    }

    /** probe_index(): a free slot that is no longer cached; the search never runs off the storage area. */
    method ProbeIndex() returns (i: nat)
      requires Valid() && occupied < capacity
      modifies `nextIndex, `nextIndex2
      ensures Valid() && i < capacity && !storage[i].occupied && nextIndex != Slot(i) && nextIndex2 != Slot(i)
    {
      if nextIndex != Null {
        i := nextIndex.i;
        nextIndex := Null;
        return;
      }
      if nextIndex2 != Null {
        i := nextIndex2.i;
        nextIndex2 := Null;
        return;
      }
      SetOfSeq(order, capacity);
      ghost var free := FreeSlot(State(), order, capacity);
      i := 0;
      while storage[i].occupied
        invariant i <= free
        decreases capacity - i
      {
        i := i + 1;
      }
    }

    /** A slot is filled and its neighbours linked to it. */
    method LinkSlot(i: nat, value: T, before: Link, after: Link)
      requires i < storage.Length && (before.Slot? ==> before.i < storage.Length) && (after.Slot? ==> after.i < storage.Length)
      modifies storage, `headNext, `tailPrev
      ensures State() == LinkIn(old(State()), i, value, before, after)
    {
      ghost var l := State();
      storage[i] := Entry(true, value, after, before);
      assert State() == l.(slots := l.slots[i := Entry(true, value, after, before)]);
      WriteNext(before, Slot(i));
      WritePrev(after, Slot(i));
    }

    /** Slot i is filled and linked in at position k of the list. */
    method PutIn(i: nat, value: T, before: Link, after: Link, ghost k: nat)
      requires Valid() && i < capacity && !storage[i].occupied && nextIndex != Slot(i) && nextIndex2 != Slot(i)
      requires k <= |order| && before == At(order, k as int - 1) && after == At(order, k)
      modifies this, storage
      ensures Valid() && storage == old(storage) && capacity == old(capacity)
      ensures Contents() == old(Contents()[..k] + [value] + Contents()[k..])
    {
      ghost var l, was := State(), order;
      LinkInEffect(l, was, k, i, value, before, after, nextIndex, nextIndex2);
      LinkSlot(i, value, before, after);
      occupied := occupied + 1;
      order := was[..k] + [i] + was[k..];
    }

    /** The neighbours of a slot are linked to each other, and its flag is cleared. */
    method UnlinkSlot(i: nat)
      requires i < storage.Length
      requires storage[i].prev.Slot? ==> storage[i].prev.i < storage.Length
      requires storage[i].next.Slot? ==> storage[i].next.i < storage.Length
      modifies storage, `headNext, `tailPrev
      ensures State() == Unlink(old(State()), i)
    {
      var before, after := storage[i].prev, storage[i].next;
      WriteNext(before, after);
      WritePrev(after, before);
      ghost var l := State();
      storage[i] := storage[i].(occupied := false);
      assert State() == l.(slots := l.slots[i := l.slots[i].(occupied := false)]);
    }

    /** Position k of the list is unlinked, and its slot freed and cached. */
    method TakeOut(i: nat, ghost k: nat)
      requires Valid() && k < |order| && order[k] == i
      modifies this, storage
      ensures Valid() && storage == old(storage) && capacity == old(capacity)
      ensures order == old(order[..k] + order[k + 1..]) && Contents() == old(Contents()[..k] + Contents()[k + 1..])
    {
      ghost var l, was := State(), order;
      UnlinkEffect(l, was, k, nextIndex, nextIndex2);
      UnlinkSlot(i);
      CacheIndex(i);
      occupied := occupied - 1;
      order := was[..k] + was[k + 1..];
    }

    /** The same, with the link in front of the position as the result. */
    method TakeBack(i: nat, ghost k: nat) returns (before: Link)
      requires Valid() && k < |order| && order[k] == i
      modifies this, storage
      ensures Valid() && storage == old(storage) && k <= |order| && before == At(order, k - 1)
      ensures Contents() == old(Contents()[..k] + Contents()[k + 1..])
    {
      assert LinkedAt(State(), order, k);
      before := storage[i].prev;
      StillBefore(order, order[..k] + order[k + 1..], k);
      TakeOut(i, k);
    }

    /** How a list that is nearly full resizes itself. */
    method Enlarge(newCapacity: nat)
      requires Valid() && occupied + 2 > capacity && newCapacity > capacity
      modifies this
      ensures Valid() && Contents() == old(Contents()) && occupied == old(occupied) < capacity && fresh(storage)
    {
      DistinctBound(order, capacity);
      var status := Resize(newCapacity);
    }

    /** push() */
    method Push(value: T)
      requires Valid()
      modifies this, storage
      ensures Valid() && Contents() == old(Contents()) + [value]
      ensures storage == old(storage) || fresh(storage)
    {
      if occupied + 2 > capacity {
        Enlarge(2 * capacity);
      }
      var i := ProbeIndex();
      ghost var was := Contents();
      PutIn(i, value, tailPrev, Tail, |order|);
      assert was[..|was|] + [value] + was[|was|..] == was + [value];
    }

    /** unshift() */
    method Unshift(value: T)
      requires Valid()
      modifies this, storage
      ensures Valid() && Contents() == [value] + old(Contents())
      ensures storage == old(storage) || fresh(storage)
    {
      if occupied + 2 > capacity {
        Enlarge(19 * capacity / 10);
      }
      var i := ProbeIndex();
      PutIn(i, value, Head, headNext, 0);
    }

    /** pop(); on an empty list it would follow the head's null pointer. */
    method Pop() returns (r: Option<T>)
      requires Valid()
      modifies this, storage
      ensures Valid() && storage == old(storage) && (r == None <==> old(Contents()) == [])
      ensures r.Some? ==> old(Contents()) == Contents() + [r.value]
    {
      if tailPrev == Head {
        return None;
      }
      var i := tailPrev.i;
      r := Some(storage[i].value);
      TakeOut(i, |order| - 1);
    }

    /** shift(); on an empty list it would follow the tail's null pointer. */
    method Shift() returns (r: Option<T>)
      requires Valid()
      modifies this, storage
      ensures Valid() && storage == old(storage) && (r == None <==> old(Contents()) == [])
      ensures r.Some? ==> old(Contents()) == [r.value] + Contents()
    {
      if headNext == Tail {
        return None;
      }
      var i := headNext.i;
      r := Some(storage[i].value);
      TakeOut(i, 0);
    }

    /** The walk of get_at() and remove_at(). */
    method Find(index: nat) returns (i: nat)
      requires Valid() && index < occupied
      ensures i == order[index]
    {
      var current := headNext;
      var k := 0;
      while k < index
        invariant k <= index && current == At(order, k)
      {
        assert LinkedAt(State(), order, k);
        current := storage[current.i].next;
        k := k + 1;
      }
      i := current.i;
    }

    /** get_at() */
    method GetAt(index: nat) returns (r: Option<T>)
      requires Valid()
      ensures r == if index < |Contents()| then Some(Contents()[index]) else None
    {
      if index >= occupied {
        return None;
      }
      var i := Find(index);
      r := Some(storage[i].value);
    }

    /** remove_at() */
    method RemoveAt(index: nat) returns (status: Status)
      requires Valid()
      modifies this, storage
      ensures Valid() && (status == Panic <==> index >= |old(Contents())|)
      ensures Contents() == if index < |old(Contents())| then old(Contents())[..index] + old(Contents())[index + 1..] else old(Contents())
    {
      if index >= occupied {
        return Panic;
      }
      var i := Find(index);
      TakeOut(i, index);
      status := Done;
    }

    /**
     resize(): the entries move to the front of a new area. An empty list does not survive
     it: head and tail are linked to slots that were never filled.
     */
    method Resize(newCapacity: nat) returns (status: Status)
      requires Valid()
      modifies this
      ensures status == Panic <==> newCapacity < |old(Contents())|
      ensures status == Panic ==> Valid() && Contents() == old(Contents()) && storage == old(storage)
      ensures status == Done ==> fresh(storage) && capacity == newCapacity && occupied == old(occupied)
      ensures status == Done && newCapacity >= 2 && old(Contents()) != [] ==> Valid() && Contents() == old(Contents())
      ensures status == Done && old(Contents()) == [] ==> !Valid()
    {
      if newCapacity < occupied {
        return Panic;
      }
      DistinctBound(order, capacity);
      var area := new Entry<T>[newCapacity](_ => Entry(false, unset, Null, Null));
      var index := MoveEntries(area);
      if index > 0 {
        MoveEnds(State(), order, area[..]);
      }
      TakeOver(area, index);
      status := Done;
    }

    /** The new area takes the place of the old one. */
    method TakeOver(area: array<Entry<T>>, index: nat)
      modifies this
      ensures storage == area && capacity == area.Length && occupied == old(occupied) && nextIndex == nextIndex2 == Null
      ensures index > 0 ==> State() == List(area[..], Slot(0), Slot(index - 1))
      ensures headNext == Slot(0) && (index == 0 ==> headNext != At(order, 0))
      ensures order == seq(index, j => j)
    {
      headNext := Slot(0);
      tailPrev := if index == 0 then Slot(0xFFFF_FFFF) else Slot(index - 1);
      nextIndex, nextIndex2 := Null, Null;
      capacity := area.Length;
      storage := area;
      order := seq(index, j => j);
    }

    /** The loop of resize(): the entries are written to the front of the new area in list order. */
    method MoveEntries(area: array<Entry<T>>) returns (index: nat)
      requires Valid() && area != storage && occupied <= area.Length
      requires forall j :: 0 <= j < area.Length ==> !area[j].occupied
      modifies area
      ensures index == |order| && MovedTo(State(), order, area[..], index)
    {
      var current := headNext;
      index := 0;
      while current != Tail
        invariant index <= |order| && current == At(order, index)
        invariant MovedTo(State(), order, area[..], index)
        decreases |order| - index
      {
        assert LinkedAt(State(), order, index);
        ghost var slots := area[..];
        var e := storage[current.i];
        area[index] := Entry(true, e.value,
                             if e.next == Tail then Tail else Slot(index + 1),
                             if e.prev == Head then Head else Slot(index - 1));
        assert area[..] == slots[index := area[index]];
        current := e.next;
        index := index + 1;
      }
    }
  }

  /** struct iterator */
  class Cursor<T(!new)> {
    var current: Link
    const list: Deque<T>
    /** The position of the current entry; -1 is the head. */
    ghost var pos: int

    constructor (list: Deque<T>)
      requires list.Valid()
      ensures this.list == list && Valid() && pos == -1
    {
      this.list := list;
      current := Head;
      pos := -1;
    }

    ghost predicate Valid()
      reads this, list, list.storage
    {
      list.Valid() && -1 <= pos < |list.order| && current == At(list.order, pos)
    }

    method HasNext() returns (r: bool)
      requires Valid()
      ensures r <==> pos + 1 < |list.Contents()|
    {
      if current.Slot? {
        assert LinkedAt(list.State(), list.order, pos);
        r := list.storage[current.i].next != Tail;
      } else {
        r := list.headNext != Tail;
      }
    }

    method Next() returns (value: T)
      requires Valid() && pos + 1 < |list.Contents()|
      modifies this
      ensures Valid() && pos == old(pos) + 1 && value == list.Contents()[pos]
    {
      if current.Slot? {
        assert LinkedAt(list.State(), list.order, pos);
        current := list.storage[current.i].next;
      } else {
        current := list.headNext;
      }
      pos := pos + 1;
      value := list.storage[current.i].value;
    }

    /** remove(): the current entry goes, and the iterator steps back to the one before it. */
    method Remove()
      requires Valid() && pos >= 0
      modifies this, list, list.storage
      ensures Valid() && list.storage == old(list.storage) && pos == old(pos) - 1
      ensures list.Contents() == old(list.Contents()[..pos] + list.Contents()[pos + 1..])
    {
      current := list.TakeBack(current.i, pos);
      pos := pos - 1;
    }
  }
}
