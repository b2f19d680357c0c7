/**
 The doubly linked list inside the slots of shared/linked_array.h, as a value: what links
 and flags have to say about the order of the list, and what linking and unlinking one
 slot does to it.
 */
module LinkedSlots {

  /** A pointer to an entry: the head, the tail or a slot of the storage area. */
  datatype Link = Head | Tail | Slot(i: nat) | Null

  datatype Entry<T> = Entry(occupied: bool, value: T, next: Link, prev: Link)

  datatype List<T> = List(slots: seq<Entry<T>>, headNext: Link, tailPrev: Link)

  /** The link of position k of the order; in front of it lies the head, behind it the tail. */
  function At(order: seq<nat>, k: int): Link
    requires -1 <= k <= |order|
  {
    if k == -1 then Head else if k == |order| then Tail else Slot(order[k])
  }

  ghost predicate InOrder<T>(l: List<T>, order: seq<nat>) {
    && (forall k :: 0 <= k < |order| ==> order[k] < |l.slots|)
    && (forall j, k :: 0 <= j < k < |order| ==> order[j] != order[k])
  }

  /** The slot at position k points to its neighbours in the order. */
  predicate LinkedAt<T>(l: List<T>, order: seq<nat>, k: nat)
    requires k < |order| && order[k] < |l.slots|
  {
    l.slots[order[k]].next == At(order, k + 1) && l.slots[order[k]].prev == At(order, k - 1)
  }

  /** Following next from the head visits the slots of the order, following prev from the tail visits them backwards. */
  ghost predicate Linked<T>(l: List<T>, order: seq<nat>) {
    && InOrder(l, order)
    && l.headNext == At(order, 0) && l.tailPrev == At(order, |order| - 1)
    && (forall k {:trigger LinkedAt(l, order, k)} :: 0 <= k < |order| ==> LinkedAt(l, order, k))
  }

  /** The flags mark exactly the slots of the list. */
  ghost predicate Flagged<T>(l: List<T>, order: seq<nat>) {
    forall i: nat :: i < |l.slots| ==> (l.slots[i].occupied <==> i in order)
  }

  function Values<T>(l: List<T>, order: seq<nat>): seq<T>
    requires forall k :: 0 <= k < |order| ==> order[k] < |l.slots|
  {
    seq(|order|, k requires 0 <= k < |order| => l.slots[order[k]].value)
  }

  /** at->next = to */
  function SetNext<T>(l: List<T>, at: Link, to: Link): List<T>
    requires at.Slot? ==> at.i < |l.slots|
  {
    match at
    case Head => l.(headNext := to)
    case Slot(i) => l.(slots := l.slots[i := l.slots[i].(next := to)])
    case _ => l
  }

  /** at->prev = to */
  function SetPrev<T>(l: List<T>, at: Link, to: Link): List<T>
    requires at.Slot? ==> at.i < |l.slots|
  {
    match at
    case Tail => l.(tailPrev := to)
    case Slot(i) => l.(slots := l.slots[i := l.slots[i].(prev := to)])
    case _ => l
  }

  /** A slot is taken out: its neighbours are linked to each other, and its flag is cleared. */
  function Unlink<T>(l: List<T>, i: nat): List<T>
    requires i < |l.slots|
    requires l.slots[i].prev.Slot? ==> l.slots[i].prev.i < |l.slots|
    requires l.slots[i].next.Slot? ==> l.slots[i].next.i < |l.slots|
  {
    var l1 := SetNext(l, l.slots[i].prev, l.slots[i].next);
    var l2 := SetPrev(l1, l.slots[i].next, l.slots[i].prev);
    l2.(slots := l2.slots[i := l2.slots[i].(occupied := false)])
  }

  /** rest is the order without position k. */
  ghost predicate Removed(order: seq<nat>, rest: seq<nat>, k: nat) {
    && k < |order| == |rest| + 1
    && (forall j {:trigger rest[j]} :: 0 <= j < |rest| ==> rest[j] == order[if j < k then j else j + 1])
  }

  /** more is the order with slot i put in at position k. */
  ghost predicate Inserted(order: seq<nat>, more: seq<nat>, k: nat, i: nat) {
    && k <= |order| == |more| - 1 && more[k] == i
    && (forall j {:trigger more[j]} :: 0 <= j < |more| && j != k ==> more[j] == order[if j < k then j else j - 1])
  }

  /** l' is l with position k taken out: only the neighbours' links and the slot's own flag differ. */
  ghost predicate TakenOut<T>(l: List<T>, l': List<T>, order: seq<nat>, k: nat) {
    && k < |order| && |l'.slots| == |l.slots|
    && (forall x: nat {:trigger l'.slots[x]} :: x < |l.slots| ==>
          l'.slots[x] == Entry(l.slots[x].occupied && x != order[k], l.slots[x].value,
                               if k > 0 && x == order[k - 1] then At(order, k + 1) else l.slots[x].next,
                               if k + 1 < |order| && x == order[k + 1] then At(order, k - 1) else l.slots[x].prev))
    && l'.headNext == (if k == 0 then At(order, 1) else l.headNext)
    && l'.tailPrev == (if k == |order| - 1 then At(order, k - 1) else l.tailPrev)
  }

  lemma UnlinkTakesOut<T>(l: List<T>, order: seq<nat>, k: nat)
    requires Linked(l, order) && k < |order|
    ensures l.slots[order[k]].prev == At(order, k - 1) && l.slots[order[k]].next == At(order, k + 1)
    ensures TakenOut(l, Unlink(l, order[k]), order, k)
  {
    assert LinkedAt(l, order, k);
    assert k > 0 ==> LinkedAt(l, order, k - 1);
    assert k + 1 < |order| ==> LinkedAt(l, order, k + 1);
  }

  lemma RemovedAt(order: seq<nat>, rest: seq<nat>, k: nat, j: int)
    requires Removed(order, rest, k) && -1 <= j <= |rest|
    ensures At(rest, j) == At(order, if j < k then j else j + 1)
  {
  }

  /** In front of position k nothing changes when it is taken out. */
  lemma StillBefore(order: seq<nat>, rest: seq<nat>, k: nat)
    requires k < |order| && rest == order[..k] + order[k + 1..]
    ensures |rest| == |order| - 1 && At(rest, k - 1) == At(order, k - 1)
  {
  }

  lemma UnlinkLinks<T>(l: List<T>, l': List<T>, order: seq<nat>, rest: seq<nat>, k: nat, j: nat)
    requires Linked(l, order) && TakenOut(l, l', order, k) && Removed(order, rest, k) && j < |rest|
    ensures rest[j] < |l'.slots| && LinkedAt(l', rest, j)
  {
    var m := if j < k then j else j + 1;
    assert rest[j] == order[m];
    RemovedAt(order, rest, k, j + 1);
    RemovedAt(order, rest, k, j - 1);
    assert LinkedAt(l, order, m);
  }

  lemma RemovedMembers(order: seq<nat>, rest: seq<nat>, k: nat, x: nat)
    requires Removed(order, rest, k) && forall a, b :: 0 <= a < b < |order| ==> order[a] != order[b]
    ensures x in rest <==> x in order && x != order[k]
  {
    if x in order && x != order[k] {
      var m :| 0 <= m < |order| && order[m] == x;
      assert rest[if m < k then m else m - 1] == x;
    }
  }

  lemma UnlinkKeeps<T>(l: List<T>, l': List<T>, order: seq<nat>, rest: seq<nat>, k: nat)
    requires Linked(l, order) && TakenOut(l, l', order, k) && Removed(order, rest, k)
    ensures Linked(l', rest)
  {
    forall j | 0 <= j < |rest|
      ensures rest[j] < |l'.slots| && LinkedAt(l', rest, j)
    {
      UnlinkLinks(l, l', order, rest, k, j);
    }
    UnlinkEnds(l, l', order, rest, k);
  }

  lemma UnlinkEnds<T>(l: List<T>, l': List<T>, order: seq<nat>, rest: seq<nat>, k: nat)
    requires Linked(l, order) && TakenOut(l, l', order, k) && Removed(order, rest, k)
    ensures l'.headNext == At(rest, 0) && l'.tailPrev == At(rest, |rest| - 1)
  {
    RemovedAt(order, rest, k, 0);
    RemovedAt(order, rest, k, |rest| - 1);
  }

  lemma UnlinkFlags<T>(l: List<T>, l': List<T>, order: seq<nat>, rest: seq<nat>, k: nat)
    requires Linked(l, order) && Flagged(l, order) && TakenOut(l, l', order, k) && Removed(order, rest, k)
    ensures Flagged(l', rest)
  {
    forall x: nat | x < |l.slots| ensures l'.slots[x].occupied <==> x in rest {
      RemovedMembers(order, rest, k, x);
      assert l.slots[x].occupied <==> x in order;
    }
  }

  lemma UnlinkValues<T>(l: List<T>, l': List<T>, order: seq<nat>, rest: seq<nat>, k: nat)
    requires InOrder(l, order) && TakenOut(l, l', order, k) && Removed(order, rest, k) && InOrder(l', rest)
    ensures |Values(l', rest)| == |order| - 1
    ensures forall j :: 0 <= j < |rest| ==> Values(l', rest)[j] == Values(l, order)[if j < k then j else j + 1]
  {
  }

  /** A free slot is filled and linked in between two neighbours. */
  function LinkIn<T>(l: List<T>, i: nat, value: T, before: Link, after: Link): List<T>
    requires i < |l.slots| && (before.Slot? ==> before.i < |l.slots|) && (after.Slot? ==> after.i < |l.slots|)
  {
    var l1 := l.(slots := l.slots[i := Entry(true, value, after, before)]);
    SetPrev(SetNext(l1, before, Slot(i)), after, Slot(i))
  }

  /** l' is l with slot i filled and put in at position k. */
  ghost predicate PutIn<T>(l: List<T>, l': List<T>, order: seq<nat>, k: nat, i: nat, value: T) {
    && k <= |order| && i < |l.slots| == |l'.slots|
    && (forall x: nat {:trigger l'.slots[x]} :: x < |l.slots| ==>
          l'.slots[x] == if x == i then Entry(true, value, At(order, k), At(order, k - 1))
                         else Entry(l.slots[x].occupied, l.slots[x].value,
                                    if k > 0 && x == order[k - 1] then Slot(i) else l.slots[x].next,
                                    if k < |order| && x == order[k] then Slot(i) else l.slots[x].prev))
    && l'.headNext == (if k == 0 then Slot(i) else l.headNext)
    && l'.tailPrev == (if k == |order| then Slot(i) else l.tailPrev)
  }

  lemma LinkInPutsIn<T>(l: List<T>, order: seq<nat>, k: nat, i: nat, value: T)
    requires Linked(l, order) && k <= |order| && i < |l.slots| && i !in order
    ensures PutIn(l, LinkIn(l, i, value, At(order, k - 1), At(order, k)), order, k, i, value)
  {
  }

  lemma InsertedAt(order: seq<nat>, more: seq<nat>, k: nat, i: nat, j: int)
    requires Inserted(order, more, k, i) && -1 <= j <= |more|
    ensures At(more, j) == if j == k then Slot(i) else At(order, if j < k then j else j - 1)
  {
  }

  lemma LinkInLinks<T>(l: List<T>, l': List<T>, order: seq<nat>, more: seq<nat>, k: nat, i: nat, value: T, j: nat)
    requires Linked(l, order) && PutIn(l, l', order, k, i, value) && Inserted(order, more, k, i) && i !in order && j < |more|
    ensures more[j] < |l'.slots| && LinkedAt(l', more, j)
  {
    InsertedAt(order, more, k, i, j + 1);
    InsertedAt(order, more, k, i, j - 1);
    if j != k {
      var m := if j < k then j else j - 1;
      assert more[j] == order[m];
      assert LinkedAt(l, order, m);
    }
  }

  lemma InsertedMembers(order: seq<nat>, more: seq<nat>, k: nat, i: nat, x: nat)
    requires Inserted(order, more, k, i)
    ensures x in more <==> x in order || x == i
  {
    if x in order {
      var m :| 0 <= m < |order| && order[m] == x;
      assert more[if m < k then m else m + 1] == x;
    }
    assert more[k] == i;
  }

  lemma LinkInKeeps<T>(l: List<T>, l': List<T>, order: seq<nat>, more: seq<nat>, k: nat, i: nat, value: T)
    requires Linked(l, order) && PutIn(l, l', order, k, i, value) && Inserted(order, more, k, i) && i !in order
    ensures Linked(l', more)
  {
    forall j | 0 <= j < |more|
      ensures more[j] < |l'.slots| && LinkedAt(l', more, j)
    {
      LinkInLinks(l, l', order, more, k, i, value, j);
    }
    InsertedAt(order, more, k, i, 0);
    InsertedAt(order, more, k, i, |more| - 1);
  }

  lemma LinkInFlags<T>(l: List<T>, l': List<T>, order: seq<nat>, more: seq<nat>, k: nat, i: nat, value: T)
    requires Flagged(l, order) && PutIn(l, l', order, k, i, value) && Inserted(order, more, k, i)
    ensures Flagged(l', more)
  {
    forall x: nat | x < |l.slots| ensures l'.slots[x].occupied <==> x in more {
      InsertedMembers(order, more, k, i, x);
      assert l.slots[x].occupied <==> x in order;
    }
  }

  lemma LinkInValues<T>(l: List<T>, l': List<T>, order: seq<nat>, more: seq<nat>, k: nat, i: nat, value: T)
    requires InOrder(l, order) && PutIn(l, l', order, k, i, value) && Inserted(order, more, k, i) && i !in order && InOrder(l', more)
    ensures forall j :: 0 <= j < |more| ==> Values(l', more)[j] == if j == k then value else Values(l, order)[if j < k then j else j - 1]
  {
  }

  /** All of it for slot i put in at position k. */
  lemma PutInKeeps<T>(l: List<T>, l': List<T>, order: seq<nat>, more: seq<nat>, k: nat, i: nat, value: T)
    requires Linked(l, order) && Flagged(l, order) && PutIn(l, l', order, k, i, value) && !l.slots[i].occupied
    requires more == order[..k] + [i] + order[k..]
    ensures Linked(l', more) && Flagged(l', more) && |more| == |order| + 1
    ensures Values(l', more) == Values(l, order)[..k] + [value] + Values(l, order)[k..]
  {
    assert Inserted(order, more, k, i);
    assert i !in order by {
      assert l.slots[i].occupied <==> i in order;
    }
    LinkInKeeps(l, l', order, more, k, i, value);
    LinkInFlags(l, l', order, more, k, i, value);
    PutInValues(l, l', order, more, k, i, value);
  }

  lemma PutInValues<T>(l: List<T>, l': List<T>, order: seq<nat>, more: seq<nat>, k: nat, i: nat, value: T)
    requires InOrder(l, order) && PutIn(l, l', order, k, i, value) && Inserted(order, more, k, i) && i !in order && InOrder(l', more)
    ensures Values(l', more) == Values(l, order)[..k] + [value] + Values(l, order)[k..]
  {
    LinkInValues(l, l', order, more, k, i, value);
  }

  /** All of it for position k taken out. */
  lemma TakeOutKeeps<T>(l: List<T>, l': List<T>, order: seq<nat>, rest: seq<nat>, k: nat)
    requires Linked(l, order) && Flagged(l, order) && TakenOut(l, l', order, k) && rest == order[..k] + order[k + 1..]
    ensures Linked(l', rest) && Flagged(l', rest) && |rest| == |order| - 1
    ensures Values(l', rest) == Values(l, order)[..k] + Values(l, order)[k + 1..]
  {
    assert Removed(order, rest, k);
    UnlinkKeeps(l, l', order, rest, k);
    UnlinkFlags(l, l', order, rest, k);
    UnlinkValues(l, l', order, rest, k);
  }

  /** A cache is empty or leads to a free slot. */
  predicate Vacant<T>(l: List<T>, c: Link) {
    c == Null || (c.Slot? && c.i < |l.slots| && !l.slots[c.i].occupied)
  }

  lemma StaysVacant<T>(l: List<T>, l': List<T>, order: seq<nat>, k: nat, c: Link)
    requires TakenOut(l, l', order, k) && Vacant(l, c)
    ensures Vacant(l', c)
  {
  }

  /** Unlinking a slot of a list. */
  lemma UnlinkEffect<T>(l: List<T>, order: seq<nat>, k: nat, c1: Link, c2: Link)
    requires Linked(l, order) && Flagged(l, order) && k < |order| && Vacant(l, c1) && Vacant(l, c2)
    ensures l.slots[order[k]].prev == At(order, k - 1) && l.slots[order[k]].next == At(order, k + 1)
    ensures var l', rest := Unlink(l, order[k]), order[..k] + order[k + 1..];
            && |l'.slots| == |l.slots| && |rest| == |order| - 1 && Linked(l', rest) && Flagged(l', rest)
            && Values(l', rest) == Values(l, order)[..k] + Values(l, order)[k + 1..]
            && Vacant(l', c1) && Vacant(l', c2) && Vacant(l', Slot(order[k])) && c1 != Slot(order[k]) && c2 != Slot(order[k])
  {
    UnlinkTakesOut(l, order, k);
    var l' := Unlink(l, order[k]);
    TakeOutKeeps(l, l', order, order[..k] + order[k + 1..], k);
    assert l.slots[order[k]].occupied <==> order[k] in order;
    assert l'.slots[order[k]].occupied == false;
    StaysVacant(l, l', order, k, c1);
    StaysVacant(l, l', order, k, c2);
  }

  /** Filling a free slot and linking it in. */
  lemma LinkInEffect<T>(l: List<T>, order: seq<nat>, k: nat, i: nat, value: T, before: Link, after: Link, c1: Link, c2: Link)
    requires Linked(l, order) && Flagged(l, order) && k <= |order| && i < |l.slots| && !l.slots[i].occupied
    requires before == At(order, k - 1) && after == At(order, k)
    requires Vacant(l, c1) && Vacant(l, c2) && c1 != Slot(i) && c2 != Slot(i)
    ensures (before.Slot? ==> before.i < |l.slots|) && (after.Slot? ==> after.i < |l.slots|)
    ensures var l', more := LinkIn(l, i, value, before, after), order[..k] + [i] + order[k..];
            && |l'.slots| == |l.slots| && |more| == |order| + 1 && Linked(l', more) && Flagged(l', more)
            && Values(l', more) == Values(l, order)[..k] + [value] + Values(l, order)[k..]
            && Vacant(l', c1) && Vacant(l', c2)
  {
    assert i !in order by {
      assert l.slots[i].occupied <==> i in order;
    }
    LinkInPutsIn(l, order, k, i, value);
    PutInKeeps(l, LinkIn(l, i, value, before, after), order, order[..k] + [i] + order[k..], k, i, value);
  }

  lemma {:induction false} DistinctBound(order: seq<nat>, n: nat)
    requires (forall k :: 0 <= k < |order| ==> order[k] < n) && forall j, k :: 0 <= j < k < |order| ==> order[j] != order[k]
    ensures |order| <= n
    decreases n
  {
    var first := if order == [] then 0 else order[0];
    if n > 0 {
      if k :| 0 <= k < |order| && order[k] == n - 1 {
        var rest := order[..k] + order[k + 1..];
        assert forall j :: 0 <= j < |rest| ==> rest[j] == order[if j < k then j else j + 1];
        DistinctBound(rest, n - 1);
      } else {
        DistinctBound(order, n - 1);
      }
    }
  }

  /** While the list is shorter than the storage area, some slot is free. */
  lemma {:induction false} FreeSlot<T>(l: List<T>, order: seq<nat>, n: nat) returns (i: nat)
    requires InOrder(l, order) && Flagged(l, order) && n <= |l.slots| && |set x | x in order && x < n| < n
    ensures i < n && !l.slots[i].occupied
  {
    if !l.slots[n - 1].occupied {
      i := n - 1;
    } else {
      var fewer := set x | x in order && x < n - 1;
      assert (set x | x in order && x < n) == fewer + {n - 1};
      i := FreeSlot(l, order, n - 1);
    }
  }

  lemma {:induction false} SetOfSeq(s: seq<nat>, n: nat)
    ensures |set x | x in s && x < n| <= |s|
    decreases s
  {
    if s == [] {
      assert (set x | x in s && x < n) == {};
    } else {
      SetOfSeq(s[1..], n);
      assert (set x | x in s && x < n) <= (set x | x in s[1..] && x < n) + {s[0]};
      Smaller(set x | x in s && x < n, (set x | x in s[1..] && x < n) + {s[0]});
    }
  }

  lemma {:induction false} Smaller(a: set<nat>, b: set<nat>)
    requires a <= b
    ensures |a| <= |b|
    decreases a
  {
    if a != {} {
      var x :| x in a;
      Smaller(a - {x}, b - {x});
    }
  }

  // ------------------------------------------------------------------------- moving

  /** The first n entries of a list in slots 0, 1, ... of a new area, as resize() writes them. */
  ghost predicate MovedTo<T>(l: List<T>, order: seq<nat>, slots: seq<Entry<T>>, n: nat) {
    && InOrder(l, order) && n <= |order| <= |slots|
    && (forall j: nat {:trigger slots[j]} :: j < |slots| ==>
          if j < n then
            slots[j] == Entry(true, l.slots[order[j]].value, if j + 1 < |order| then Slot(j + 1) else Tail, if j > 0 then Slot(j - 1) else Head)
          else !slots[j].occupied)
  }

  lemma MoveEnds<T>(l: List<T>, order: seq<nat>, slots: seq<Entry<T>>)
    requires MovedTo(l, order, slots, |order|) && |order| > 0
    ensures var l', order' := List(slots, Slot(0), Slot(|order| - 1)), seq(|order|, j => j);
            Linked(l', order') && Flagged(l', order') && Values(l', order') == Values(l, order)
  {
    var l', order' := List(slots, Slot(0), Slot(|order| - 1)), seq(|order|, j => j);
    forall k | 0 <= k < |order'| ensures LinkedAt(l', order', k) {
      assert slots[order'[k]] == slots[k];
    }
    forall x: nat | x < |slots| ensures slots[x].occupied <==> x in order' {
      if x < |order| {
        assert order'[x] == x;
      }
    }
  }
}
