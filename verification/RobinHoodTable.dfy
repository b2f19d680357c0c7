/**
 The probing discipline of shared/map.h on the table as a sequence of slots: where entries
 may sit, why a lookup may stop at the first slot with no probes, and what the insertion
 and removal loops keep while an entry is in the air or a slot has just been cleared.
 */
module RobinHoodTable {

  /** uint32_t */
  type Key = x: int | 0 <= x < 0x1_0000_0000

  /** struct entry; an unused entry has no probes and key 0. */
  datatype Slot<V> = Slot(empty: bool, probes: nat, key: Key, value: V)

  function Home(capacity: nat, key: Key): (h: nat)
    requires capacity > 0
    ensures h < capacity
  {
    key % capacity
  }

  function Succ(capacity: nat, i: nat): nat
    requires i < capacity
  {
    if i + 1 > capacity - 1 then 0 else i + 1
  }

  /** Steps of Succ from one slot to another. */
  function Distance(capacity: nat, from: nat, to: nat): nat
    requires from < capacity && to < capacity
  {
    if from <= to then to - from else to + capacity - from
  }

  /** The slot is empty or its probes are its distance from home. */
  predicate Placed<V>(t: seq<Slot<V>>, i: nat)
    requires i < |t|
  {
    if t[i].empty then t[i].probes == 0 && t[i].key == 0
    else t[i].probes == Distance(|t|, Home(|t|, t[i].key), i)
  }

  /** Probes grow by at most one from slot to slot, and start at 0 behind an empty slot. */
  predicate Smooth<V>(t: seq<Slot<V>>, i: nat)
    requires i < |t|
  {
    var next := t[Succ(|t|, i)];
    next.probes > 0 ==> !t[i].empty && next.probes <= t[i].probes + 1
  }

  ghost predicate Spaced<V>(t: seq<Slot<V>>) {
    && |t| > 0
    && (forall i: nat :: i < |t| ==> Placed(t, i))
    && (forall i: nat :: i < |t| ==> Smooth(t, i))
  }

  /** A slot at which every probing loop stops. */
  ghost predicate HasStop<V>(t: seq<Slot<V>>) {
    exists z: nat :: z < |t| && t[z].probes == 0
  }

  /** One of the first n slots holds an entry with the key. */
  ghost predicate Stores<V>(t: seq<Slot<V>>, n: nat, key: Key)
    requires n <= |t|
  {
    exists i: nat :: i < n && !t[i].empty && t[i].key == key
  }

  /** The occupied slots hold exactly the entries of m, each key once. */
  ghost predicate Represents<V(!new)>(t: seq<Slot<V>>, m: map<Key, V>) {
    && (forall i: nat :: i < |t| && !t[i].empty ==> t[i].key in m && m[t[i].key] == t[i].value)
    && (forall k {:trigger Stores(t, |t|, k)} :: k in m ==> Stores(t, |t|, k))
    && (forall i: nat, j: nat :: i < |t| && j < |t| && !t[i].empty && !t[j].empty && t[i].key == t[j].key ==> i == j)
  }

  /** Entries in the first n slots. */
  function OccupiedTo<V>(t: seq<Slot<V>>, n: nat): nat
    requires n <= |t|
  {
    if n == 0 then 0 else OccupiedTo(t, n - 1) + (if t[n - 1].empty then 0 else 1)
  }

  function Occupied<V>(t: seq<Slot<V>>): nat {
    OccupiedTo(t, |t|)
  }

  // ----------------------------------------------------------------------- counting

  lemma {:induction false} OccupiedToUpdate<V>(t: seq<Slot<V>>, n: nat, i: nat, x: Slot<V>)
    requires i < |t| && n <= |t|
    ensures OccupiedTo(t[i := x], n) ==
            OccupiedTo(t, n) + (if i >= n then 0 else (if x.empty then 0 else 1) - (if t[i].empty then 0 else 1))
  {
    if n > 0 {
      OccupiedToUpdate(t, n - 1, i, x);
    }
  }

  lemma OccupiedUpdate<V>(t: seq<Slot<V>>, i: nat, x: Slot<V>)
    requires i < |t|
    ensures Occupied(t[i := x]) == Occupied(t) - (if t[i].empty then 0 else 1) + (if x.empty then 0 else 1)
  {
    OccupiedToUpdate(t, |t|, i, x);
  }

  lemma {:induction false} FreeSlot<V>(t: seq<Slot<V>>, n: nat) returns (e: nat)
    requires n <= |t| && OccupiedTo(t, n) < n
    ensures e < |t| && t[e].empty
  {
    if t[n - 1].empty {
      e := n - 1;
    } else {
      e := FreeSlot(t, n - 1);
    }
  }

  lemma {:induction false} OccupiedMonotone<V>(t: seq<Slot<V>>, a: nat, b: nat)
    requires a <= b <= |t|
    ensures OccupiedTo(t, a) <= OccupiedTo(t, b) <= OccupiedTo(t, a) + (b - a)
  {
    if a < b {
      OccupiedMonotone(t, a, b - 1);
    }
  }

  lemma {:induction false} OccupiedNone<V>(t: seq<Slot<V>>, n: nat)
    requires n <= |t| && forall i :: 0 <= i < |t| ==> t[i].empty
    ensures OccupiedTo(t, n) == 0
  {
    if n > 0 {
      OccupiedNone(t, n - 1);
    }
  }

  // ------------------------------------------------------------------------- lookup

  /** From its home up to an entry, every slot is taken and at least as far from home. */
  lemma {:induction false} Chain<V>(t: seq<Slot<V>>, s: nat, j: nat)
    requires Spaced(t) && s < |t| && j < |t| && !t[s].empty
    requires Distance(|t|, Home(|t|, t[s].key), j) <= t[s].probes
    ensures !t[j].empty && t[j].probes >= Distance(|t|, Home(|t|, t[s].key), j)
    decreases t[s].probes - Distance(|t|, Home(|t|, t[s].key), j)
  {
    assert Placed(t, s);
    if j != s {
      Chain(t, s, Succ(|t|, j));
      assert Smooth(t, j);
    }
  }

  /** An entry's own stretch never reaches an empty slot. */
  lemma NoGap<V>(t: seq<Slot<V>>, s: nat, e: nat)
    requires Spaced(t) && s < |t| && e < |t| && !t[s].empty && t[e].empty
    ensures Distance(|t|, Home(|t|, t[s].key), e) > t[s].probes
  {
    if Distance(|t|, Home(|t|, t[s].key), e) <= t[s].probes {
      Chain(t, s, e);
    }
  }

  /** No slot from home up to index has the key. */
  ghost predicate Seen<V>(t: seq<Slot<V>>, home: nat, index: nat, key: Key)
    requires home < |t| && index < |t|
  {
    forall j: nat :: j < |t| && Distance(|t|, home, j) <= Distance(|t|, home, index) ==> t[j].key != key
  }

  /** The slot z, where probing has to stop, still lies ahead. */
  predicate Ahead(capacity: nat, home: nat, index: nat, z: nat)
    requires home < capacity && index < capacity && z < capacity
  {
    z != home ==> Distance(capacity, home, index) < Distance(capacity, home, z)
  }

  lemma ProbeOn<V>(t: seq<Slot<V>>, home: nat, index: nat, z: nat, key: Key)
    requires home < |t| && index < |t| && z < |t| && t[z].probes == 0
    requires Ahead(|t|, home, index, z) && Seen(t, home, index, key)
    ensures var next := Succ(|t|, index);
            t[next].probes > 0 ==>
              && Distance(|t|, home, next) == Distance(|t|, home, index) + 1 && Ahead(|t|, home, next, z)
              && (t[next].key != key ==> Seen(t, home, next, key))
  {
  }

  /** A lookup that has seen the slots from home to index may give up at a slot without probes. */
  lemma GiveUp<V(!new)>(t: seq<Slot<V>>, m: map<Key, V>, key: Key, index: nat)
    requires Spaced(t) && Represents(t, m) && index < |t|
    requires Seen(t, Home(|t|, key), index, key) && t[Succ(|t|, index)].probes == 0
    ensures key !in m
  {
    if key in m {
      assert Stores(t, |t|, key);
      var s: nat :| s < |t| && !t[s].empty && t[s].key == key;
      assert Placed(t, s);
      Chain(t, s, Succ(|t|, index));
    }
  }

  // ---------------------------------------------------------------------- insertion

  /** An entry in the air belongs behind index, whose slot is at least as far from home. */
  ghost predicate InAir<V>(t: seq<Slot<V>>, target: Slot<V>, index: nat) {
    && Spaced(t) && index < |t| && !t[index].empty && !target.empty
    && target.probes == Distance(|t|, Home(|t|, target.key), index)
    && target.probes <= t[index].probes
  }

  /** The table and the entry in the air together hold m. */
  ghost predicate RepresentsWith<V(!new)>(t: seq<Slot<V>>, target: Slot<V>, m: map<Key, V>) {
    && target.key in m && m[target.key] == target.value
    && Represents(t, m - {target.key})
  }

  /** While there is a gap, the entry in the air has not gone all the way round. */
  lemma NotRound<V>(t: seq<Slot<V>>, target: Slot<V>, index: nat, e: nat)
    requires InAir(t, target, index) && e < |t| && t[e].empty
    ensures Succ(|t|, index) != Home(|t|, target.key)
    ensures target.probes + 1 == Distance(|t|, Home(|t|, target.key), Succ(|t|, index))
  {
    NoGap(t, index, e);
  }

  /** Putting an entry down keeps the spacing if it is further from home than what was there. */
  lemma PutDown<V>(t: seq<Slot<V>>, target: Slot<V>, index: nat, i: nat)
    requires InAir(t, target, index) && i == Succ(|t|, index)
    requires target.probes + 1 == Distance(|t|, Home(|t|, target.key), i)
    requires t[i].empty || t[i].probes < target.probes + 1
    ensures Spaced(t[i := target.(probes := target.probes + 1)])
  {
    var u := t[i := target.(probes := target.probes + 1)];
    assert Placed(t, i) && Smooth(t, i);
    forall j: nat | j < |u| ensures Placed(u, j) && Smooth(u, j) {
      assert Placed(t, j) && Smooth(t, j);
    }
  }

  lemma PutDownEntries<V(!new)>(t: seq<Slot<V>>, target: Slot<V>, i: nat, m: map<Key, V>)
    requires i < |t| && t[i].empty && !target.empty && RepresentsWith(t, target, m)
    ensures Represents(t[i := target.(probes := target.probes + 1)], m)
  {
    var u := t[i := target.(probes := target.probes + 1)];
    var rest := m - {target.key};
    forall k | k in m ensures Stores(u, |u|, k) {
      if k == target.key {
        assert u[i].key == k;
      } else {
        assert k in rest;
        assert Stores(t, |t|, k);
        var j: nat :| j < |t| && !t[j].empty && t[j].key == k;
        assert u[j] == t[j];
      }
    }
    forall j: nat | j < |u| && !u[j].empty ensures u[j].key in m && m[u[j].key] == u[j].value {
      if j != i {
        assert t[j].key in rest;
      }
    }
  }

  lemma SwapEntries<V(!new)>(t: seq<Slot<V>>, target: Slot<V>, i: nat, m: map<Key, V>)
    requires i < |t| && !t[i].empty && !target.empty && RepresentsWith(t, target, m)
    ensures RepresentsWith(t[i := target.(probes := target.probes + 1)], t[i], m)
  {
    var u := t[i := target.(probes := target.probes + 1)];
    var rest := m - {target.key};
    var rest' := m - {t[i].key};
    assert t[i].key in rest;
    forall k | k in rest' ensures Stores(u, |u|, k) {
      if k == target.key {
        assert u[i].key == k;
      } else {
        assert k in rest;
        assert Stores(t, |t|, k);
        var j: nat :| j < |t| && !t[j].empty && t[j].key == k;
        assert u[j] == t[j];
      }
    }
    forall j: nat | j < |u| && !u[j].empty ensures u[j].key in rest' && rest'[u[j].key] == u[j].value {
      if j != i {
        assert t[j].key in rest;
      }
    }
  }

  /**
   The state of the insertion loop: the entry in the air belongs behind index, the table and
   it hold m, and there is a free slot e, behind which some probing loop has to stop.
   */
  ghost predicate Inserting<V(!new)>(t: seq<Slot<V>>, target: Slot<V>, index: nat, m: map<Key, V>, e: nat) {
    && InAir(t, target, index) && RepresentsWith(t, target, m)
    && e < |t| && t[e].empty && t[Succ(|t|, e)].probes == 0
  }

  function Raised<V>(target: Slot<V>): Slot<V> {
    target.(probes := target.probes + 1)
  }

  lemma InsertionStarts<V(!new)>(t: seq<Slot<V>>, target: Slot<V>, m: map<Key, V>) returns (e: nat)
    requires Spaced(t) && Represents(t, m) && Occupied(t) < |t|
    requires !target.empty && target.probes == 0 && target.key !in m && !t[Home(|t|, target.key)].empty
    ensures Inserting(t, target, Home(|t|, target.key), m[target.key := target.value], e)
  {
    e := FreeSlot(t, |t|);
    assert Smooth(t, e);
    assert m[target.key := target.value] - {target.key} == m;
  }

  lemma InsertionPasses<V(!new)>(t: seq<Slot<V>>, target: Slot<V>, index: nat, m: map<Key, V>, e: nat)
    requires Inserting(t, target, index, m, e)
    requires var i := Succ(|t|, index); !t[i].empty && t[i].probes >= target.probes + 1
    ensures Inserting(t, Raised(target), Succ(|t|, index), m, e)
    ensures Distance(|t|, Succ(|t|, index), e) < Distance(|t|, index, e)
  {
    NotRound(t, target, index, e);
  }

  lemma InsertionSwaps<V(!new)>(t: seq<Slot<V>>, target: Slot<V>, index: nat, m: map<Key, V>, e: nat)
    requires Inserting(t, target, index, m, e)
    requires var i := Succ(|t|, index); !t[i].empty && t[i].probes < target.probes + 1
    ensures var i := Succ(|t|, index);
            && Inserting(t[i := Raised(target)], t[i], i, m, e)
            && Occupied(t[i := Raised(target)]) == Occupied(t)
            && Distance(|t|, i, e) < Distance(|t|, index, e)
  {
    var i := Succ(|t|, index);
    NotRound(t, target, index, e);
    PutDown(t, target, index, i);
    SwapEntries(t, target, i, m);
    OccupiedUpdate(t, i, Raised(target));
    assert Placed(t, i);
  }

  lemma InsertionEnds<V(!new)>(t: seq<Slot<V>>, target: Slot<V>, index: nat, m: map<Key, V>, e: nat)
    requires Inserting(t, target, index, m, e) && t[Succ(|t|, index)].empty
    ensures var u := t[Succ(|t|, index) := Raised(target)];
            Spaced(u) && HasStop(u) && Represents(u, m) && Occupied(u) == Occupied(t) + 1
  {
    var i := Succ(|t|, index);
    var u := t[i := Raised(target)];
    assert Spaced(u) by {
      NotRound(t, target, index, e);
      PutDown(t, target, index, i);
    }
    PutDownEntries(t, target, i, m);
    OccupiedUpdate(t, i, Raised(target));
    if i == e {
      assert u[Succ(|t|, e)].probes == 0;
    } else {
      assert Placed(t, e);
      assert u[e].probes == 0;
    }
  }

  /** An entry whose home is free goes there. */
  lemma InsertionAtHome<V(!new)>(t: seq<Slot<V>>, target: Slot<V>, m: map<Key, V>)
    requires Spaced(t) && Represents(t, m) && !target.empty && target.probes == 0 && target.key !in m
    requires t[Home(|t|, target.key)].empty
    ensures var u := t[Home(|t|, target.key) := target];
            Spaced(u) && HasStop(u) && Represents(u, m[target.key := target.value]) && Occupied(u) == Occupied(t) + 1
  {
    var i := Home(|t|, target.key);
    var u := t[i := target];
    var m' := m[target.key := target.value];
    assert Smooth(t, i);
    forall j: nat | j < |u| ensures Placed(u, j) && Smooth(u, j) {
      assert Placed(t, j) && Smooth(t, j);
    }
    forall k | k in m' ensures Stores(u, |u|, k) {
      if k == target.key {
        assert u[i].key == k;
      } else {
        assert Stores(t, |t|, k);
        var j: nat :| j < |t| && !t[j].empty && t[j].key == k;
        assert u[j] == t[j];
      }
    }
    OccupiedUpdate(t, i, target);
    assert u[i].probes == 0;
  }

  // ------------------------------------------------------------------------ removal

  /**
   Slot q has just been cleared, and held an entry with g probes: the spacing holds but for
   the step from q to the next slot, which is still measured against g.
   */
  ghost predicate Holed<V>(t: seq<Slot<V>>, q: nat, g: nat) {
    && |t| > 0 && q < |t| && t[q].empty
    && (forall i: nat :: i < |t| ==> Placed(t, i))
    && (forall i: nat :: i < |t| && i != q ==> Smooth(t, i))
    && t[Succ(|t|, q)].probes <= g + 1
    && (g > 0 ==> forall i: nat :: i < |t| && Succ(|t|, i) == q ==> !t[i].empty && g <= t[i].probes + 1)
  }

  lemma ClearSlot<V>(t: seq<Slot<V>>, q: nat, zero: Slot<V>)
    requires Spaced(t) && q < |t|
    requires zero.empty && zero.probes == 0 && zero.key == 0
    ensures Holed(t[q := zero], q, t[q].probes)
  {
    var u := t[q := zero];
    assert Smooth(t, q);
    forall i: nat | i < |u| ensures Placed(u, i) && (i != q ==> Smooth(u, i)) {
      assert Placed(t, i) && Smooth(t, i);
    }
    forall i: nat | i < |u| && Succ(|u|, i) == q && t[q].probes > 0
      ensures !u[i].empty && t[q].probes <= u[i].probes + 1
    {
      assert Smooth(t, i) && Placed(t, q);
    }
  }

  /** The entry behind the hole moves into it, one step nearer to its home. */
  lemma ShiftBack<V>(t: seq<Slot<V>>, q: nat, g: nat, zero: Slot<V>)
    requires Holed(t, q, g) && q + 1 < |t| && t[q + 1].probes > 0
    requires zero.empty && zero.probes == 0 && zero.key == 0
    ensures Holed(t[q := t[q + 1].(probes := t[q + 1].probes - 1)][q + 1 := zero], q + 1, t[q + 1].probes)
  {
    var moved := t[q + 1].(probes := t[q + 1].probes - 1);
    var u := t[q := moved][q + 1 := zero];
    assert Placed(t, q + 1) && Smooth(t, q + 1);
    forall i: nat | i < |u| ensures Placed(u, i) && (i != q + 1 ==> Smooth(u, i)) {
      assert Placed(t, i) && (i != q ==> Smooth(t, i));
    }
  }

  lemma ShiftCount<V>(t: seq<Slot<V>>, q: nat, zero: Slot<V>)
    requires q + 1 < |t| && t[q].empty && !t[q + 1].empty && zero.empty
    ensures Occupied(t[q := t[q + 1].(probes := t[q + 1].probes - 1)][q + 1 := zero]) == Occupied(t)
    requires t[q + 1].probes > 0
  {
    var moved := t[q + 1].(probes := t[q + 1].probes - 1);
    OccupiedUpdate(t, q, moved);
    OccupiedUpdate(t[q := moved], q + 1, zero);
  }

  /** Where the next slot has no probes the table is spaced again. */
  lemma HoleCloses<V>(t: seq<Slot<V>>, q: nat, g: nat)
    requires Holed(t, q, g) && t[Succ(|t|, q)].probes == 0
    ensures Spaced(t) && HasStop(t)
  {
    assert Smooth(t, q);
  }

  /** An entry that moves into a hole leaves the represented map alone. */
  lemma MoveEntry<V(!new)>(t: seq<Slot<V>>, q: nat, zero: Slot<V>, m: map<Key, V>)
    requires Represents(t, m) && q + 1 < |t| && t[q].empty && !t[q + 1].empty && zero.empty && t[q + 1].probes > 0
    ensures Represents(t[q := t[q + 1].(probes := t[q + 1].probes - 1)][q + 1 := zero], m)
  {
    var u := t[q := t[q + 1].(probes := t[q + 1].probes - 1)][q + 1 := zero];
    forall k | k in m ensures Stores(u, |u|, k) {
      assert Stores(t, |t|, k);
      var j: nat :| j < |t| && !t[j].empty && t[j].key == k;
      if j == q + 1 {
        assert u[q].key == k;
      } else {
        assert u[j] == t[j];
      }
    }
  }

  lemma ClearEntry<V(!new)>(t: seq<Slot<V>>, q: nat, zero: Slot<V>, m: map<Key, V>)
    requires Represents(t, m) && q < |t| && !t[q].empty && zero.empty
    ensures Represents(t[q := zero], m - {t[q].key})
  {
    var u := t[q := zero];
    forall k | k in m - {t[q].key} ensures Stores(u, |u|, k) {
      assert Stores(t, |t|, k);
      var j: nat :| j < |t| && !t[j].empty && t[j].key == k;
      assert u[j] == t[j];
    }
  }

  /** The entry behind slot q is one step nearer to its home, and q + 1 is cleared. */
  function Shifted<V>(t: seq<Slot<V>>, q: nat, unused: Slot<V>): seq<Slot<V>>
    requires q + 1 < |t| && t[q + 1].probes > 0
  {
    t[q := t[q + 1].(probes := t[q + 1].probes - 1)][q + 1 := unused]
  }

  /** The state of the removal loop, started on t0 with slot q cleared, when the hole is at `hole`. */
  ghost predicate Shifting<V(!new)>(t0: seq<Slot<V>>, t: seq<Slot<V>>, q: nat, hole: nat, g: nat, m: map<Key, V>) {
    && |t| == |t0| && q <= hole < |t| && Holed(t, hole, g) && Represents(t, m) && Occupied(t) == Occupied(t0)
    && (forall j: nat :: hole < j < |t| ==> t[j] == t0[j])
    && (forall j: nat :: q < j <= hole ==> t0[j].probes > 0)
    && (q > 0 || hole == q ==> t[0] == t0[0])
    && (q == 0 && hole > 0 ==> t[0].probes == t0[1].probes - 1)
  }

  lemma ShiftingOn<V(!new)>(t0: seq<Slot<V>>, t: seq<Slot<V>>, q: nat, hole: nat, g: nat, m: map<Key, V>, unused: Slot<V>)
    requires Shifting(t0, t, q, hole, g, m) && hole + 1 < |t| && t[hole + 1].probes > 0
    requires unused.empty && unused.probes == 0 && unused.key == 0
    ensures Shifting(t0, Shifted(t, hole, unused), q, hole + 1, t[hole + 1].probes, m)
  {
    assert Placed(t, hole + 1);
    ShiftCount(t, hole, unused);
    MoveEntry(t, hole, unused, m);
    assert Holed(Shifted(t, hole, unused), hole + 1, t[hole + 1].probes) by {
      ShiftBack(t, hole, g, unused);
    }
  }

  /** The loop would have to move the entry of slot 0 back across the end of the table. */
  predicate Crosses<V>(t0: seq<Slot<V>>, q: nat)
    requires q < |t0|
  {
    && (forall j :: q < j < |t0| ==> t0[j].probes > 0)
    && (if q > 0 then t0[0].probes > 0 else |t0| > 1 && t0[1].probes > 1)
  }

  lemma ShiftingStops<V(!new)>(t0: seq<Slot<V>>, t: seq<Slot<V>>, q: nat, hole: nat, g: nat, m: map<Key, V>)
    requires Shifting(t0, t, q, hole, g, m) && (Succ(|t|, hole) == 0 || t[Succ(|t|, hole)].probes == 0)
    ensures Crosses(t0, q) <==> t[Succ(|t|, hole)].probes > 0
  {
    assert Placed(t, hole);
  }

  /**
   The loop of remove() would have to move the entry of slot 0 back across the end of the
   table: every slot behind index and slot 0 itself hold entries away from home.
   */
  predicate Wraps<V>(t: seq<Slot<V>>, index: nat)
    requires index < |t|
  {
    index > 0 && t[0].probes > 0 && forall j :: index < j < |t| ==> t[j].probes > 0
  }

  /** Clearing a hit opens a hole, and drops its key from the represented map. */
  lemma ClearHit<V(!new)>(t: seq<Slot<V>>, q: nat, unused: Slot<V>, m: map<Key, V>)
    requires Spaced(t) && HasStop(t) && Represents(t, m) && q < |t| && (t[q].empty <==> t[q].key !in m)
    requires unused.empty && unused.probes == 0 && unused.key == 0
    ensures var u := t[q := unused];
            && Holed(u, q, t[q].probes) && Represents(u, m - {t[q].key})
            && Occupied(u) == Occupied(t) - (if t[q].empty then 0 else 1)
  {
    assert Holed(t[q := unused], q, t[q].probes) by {
      ClearSlot(t, q, unused);
    }
    OccupiedUpdate(t, q, unused);
    if t[q].empty {
      assert m - {t[q].key} == m;
      assert forall i: nat :: i < |t| && !t[i].empty ==> t[q := unused][i] == t[i];
      var u := t[q := unused];
      forall k | k in m ensures Stores(u, |u|, k) {
        assert Stores(t, |t|, k);
        var i: nat :| i < |t| && !t[i].empty && t[i].key == k;
        assert u[i] == t[i];
      }
    } else {
      ClearEntry(t, q, unused, m);
    }
  }

  lemma CrossesIffWraps<V>(t: seq<Slot<V>>, q: nat, unused: Slot<V>)
    requires Spaced(t) && HasStop(t) && q < |t|
    ensures Crosses(t[q := unused], q) <==> Wraps(t, q)
  {
    assert Smooth(t, 0);
    assert forall j :: 0 <= j < |t| && j != q ==> t[q := unused][j] == t[j];
  }

  /**
   Two entries with home 1 in a table of two: the second has wrapped to slot 0, and removing
   the first makes the loop write one slot in front of the storage.
   */
  lemma RemovalCanCross(a: int, b: int)
    ensures var t := [Slot(false, 1, 3, b), Slot(false, 0, 1, a)];
            && Spaced(t) && HasStop(t) && Represents(t, map[1 := a, 3 := b])
            && t[1].key == 1 && Wraps(t, 1)
  {
    var t := [Slot(false, 1, 3, b), Slot(false, 0, 1, a)];
    assert Home(2, 3) == 1 && Home(2, 1) == 1;
    assert t[1].probes == 0;
    assert t[0].key == 3;
    forall k | k in map[1 := a, 3 := b] ensures Stores(t, |t|, k) {
      assert t[if k == 3 then 0 else 1].key == k;
    }
  }

  // --------------------------------------------------------------------- rehashing

  /** m holds the entries of the first n slots. */
  ghost predicate Rehashed<V(!new)>(t: seq<Slot<V>>, n: nat, m: map<Key, V>) {
    && n <= |t| && |m| == OccupiedTo(t, n)
    && (forall i: nat :: i < n && !t[i].empty ==> t[i].key in m && m[t[i].key] == t[i].value)
    && (forall k {:trigger Stores(t, n, k)} :: k in m ==> Stores(t, n, k))
  }

  lemma RehashFresh<V(!new)>(t: seq<Slot<V>>, n: nat, m: map<Key, V>, all: map<Key, V>)
    requires Rehashed(t, n, m) && Represents(t, all) && n < |t| && !t[n].empty
    ensures t[n].key !in m && |m| < Occupied(t)
  {
    OccupiedMonotone(t, n + 1, |t|);
    assert !Stores(t, n, t[n].key);
  }

  lemma RehashNext<V(!new)>(t: seq<Slot<V>>, n: nat, m: map<Key, V>)
    requires Rehashed(t, n, m) && n < |t| && (!t[n].empty ==> t[n].key !in m)
    ensures Rehashed(t, n + 1, if t[n].empty then m else m[t[n].key := t[n].value])
  {
    var m' := if t[n].empty then m else m[t[n].key := t[n].value];
    forall k | k in m' ensures Stores(t, n + 1, k) {
      if !t[n].empty && k == t[n].key {
        assert t[n].key == k;
      } else {
        assert Stores(t, n, k);
        var i: nat :| i < n && !t[i].empty && t[i].key == k;
        assert t[i].key == k;
      }
    }
  }

  /** A complete rehash holds the same map. */
  lemma RehashEnds<V(!new)>(t: seq<Slot<V>>, m: map<Key, V>, all: map<Key, V>)
    requires Rehashed(t, |t|, m) && Represents(t, all)
    ensures m == all
  {
    forall k | k in all ensures k in m && m[k] == all[k] {
      assert Stores(t, |t|, k);
      var i: nat :| i < |t| && !t[i].empty && t[i].key == k;
    }
    forall k | k in m ensures k in all {
      assert Stores(t, |t|, k);
      var i: nat :| i < |t| && !t[i].empty && t[i].key == k;
    }
  }

  // --------------------------------------------------------------------- iteration

  /** The entries an iterator has still to come to from slot c on. */
  function Live<V>(t: seq<Slot<V>>, c: nat): seq<Slot<V>>
    requires c <= |t|
    decreases |t| - c
  {
    if c == |t| then [] else if t[c].empty then Live(t, c + 1) else [t[c]] + Live(t, c + 1)
  }

  lemma {:induction false} LiveIsSlot<V>(t: seq<Slot<V>>, c: nat, x: Slot<V>)
    requires c <= |t|
    ensures x in Live(t, c) <==> exists i: nat :: c <= i < |t| && !t[i].empty && t[i] == x
    decreases |t| - c
  {
    if c < |t| {
      LiveIsSlot(t, c + 1, x);
    }
  }

  lemma {:induction false} LiveKeysDiffer<V(!new)>(t: seq<Slot<V>>, m: map<Key, V>, c: nat)
    requires Represents(t, m) && c <= |t|
    ensures forall a: nat, b: nat :: a < b < |Live(t, c)| ==> Live(t, c)[a].key != Live(t, c)[b].key
    decreases |t| - c
  {
    if c < |t| {
      LiveKeysDiffer(t, m, c + 1);
      var rest := Live(t, c + 1);
      forall b: nat | b < |rest| && !t[c].empty ensures rest[b].key != t[c].key {
        LiveIsSlot(t, c + 1, rest[b]);
      }
    }
  }

  /** An iterator that starts at slot 0 comes to every entry of the map exactly once. */
  lemma LiveIsMap<V(!new)>(t: seq<Slot<V>>, m: map<Key, V>)
    requires Represents(t, m)
    ensures forall a: nat, b: nat :: a < b < |Live(t, 0)| ==> Live(t, 0)[a].key != Live(t, 0)[b].key
    ensures forall x :: x in Live(t, 0) ==> x.key in m && m[x.key] == x.value
    ensures forall k :: k in m ==> exists x :: x in Live(t, 0) && x.key == k
  {
    LiveKeysDiffer(t, m, 0);
    forall x | x in Live(t, 0) ensures x.key in m && m[x.key] == x.value {
      LiveIsSlot(t, 0, x);
    }
    forall k | k in m ensures exists x :: x in Live(t, 0) && x.key == k {
      assert Stores(t, |t|, k);
      var i: nat :| i < |t| && !t[i].empty && t[i].key == k;
      LiveIsSlot(t, 0, t[i]);
      assert t[i] in Live(t, 0);
    }
  }
}
