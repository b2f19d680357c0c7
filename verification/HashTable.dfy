/**
 The hash table behind the children of namespace nodes (util-hash.h): elements in numbered
 slots, a bucket table of slot numbers, and chains that walk all buckets from a hash on.
 */
module HashTable {
  import opened Bits

  datatype Slot<+E> = Vacant | Live(hash: int, elem: E)

  /** (h + i) & (m - 1) for m a power of two and i < m, one wrap at most behind h & (m - 1): BucketIsMasked. */
  function Bucket(h: int, i: nat, m: nat): (b: nat)
    requires i < m
    ensures b < m
  {
    var first := h % m;
    if first + i < m then first + i else first + i - m
  }

  lemma {:induction false} MulAtLeast(a: int, m: nat)
    requires a >= 1
    ensures a * m >= m
  {
    if a > 1 {
      MulAtLeast(a - 1, m);
      assert a * m == (a - 1) * m + m;
    }
  }

  lemma ModUnique(x: int, q: int, r: nat, m: nat)
    requires r < m && x == q * m + r
    ensures x % m == r
  {
    var q1, r1 := x / m, x % m;
    assert x == q1 * m + r1;
    assert (q1 - q) * m == r - r1;
    if q1 > q {
      MulAtLeast(q1 - q, m);
    } else if q1 < q {
      MulAtLeast(q - q1, m);
    }
  }

  lemma BucketIsRemainder(h: int, i: nat, m: nat)
    requires i < m
    ensures Bucket(h, i, m) == (h + i) % m
  {
    var q, first := h / m, h % m;
    assert h == q * m + first;
    if first + i < m {
      ModUnique(h + i, q, first + i, m);
    } else {
      assert (q + 1) * m == q * m + m;
      ModUnique(h + i, q + 1, first + i - m, m);
    }
  }

  ghost predicate PowerOfTwo(m: nat) {
    exists k: nat :: m == Pow2(k)
  }

  lemma Four()
    ensures PowerOfTwo(4)
  {
    assert 4 == Pow2(2);
  }

  lemma Doubled(m: nat)
    requires PowerOfTwo(m)
    ensures PowerOfTwo(2 * m)
  {
    var k: nat :| m == Pow2(k);
    assert 2 * m == Pow2(k + 1);
  }

  lemma RemainderTwice(x: int, a: nat, m: nat)
    requires a >= 1 && m >= 1 && a * m >= 1
    ensures x % (a * m) % m == x % m
  {
    var q, r := x / (a * m), x % (a * m);
    var q1, r1 := r / m, r % m;
    assert q * (a * m) == q * a * m;
    assert (q * a + q1) * m == q * a * m + q1 * m;
    ModUnique(x, q * a + q1, r1, m);
  }

  /** In a table of 2^k buckets, step i from any hash masks the 32 bits of h + i with m - 1, negative or wrapped ones as well. */
  lemma BucketIsMasked(h: int, i: nat, k: nat)
    requires k <= 32 && i < Pow2(k)
    ensures Bucket(h, i, Pow2(k)) == And((h + i) % Pow2(32), Pow2(k) - 1)
  {
    BucketIsRemainder(h, i, Pow2(k));
    Pow2Sum(32 - k, k);
    RemainderTwice(h + i, Pow2(32 - k), Pow2(k));
    OnesIsMax(k);
    AndOnes((h + i) % Pow2(32), k);
  }

  /** The walk of a chain visits every bucket once. */
  lemma WalkCovers(h: int, m: nat, b: nat) returns (i: nat)
    requires b < m
    ensures i < m && Bucket(h, i, m) == b
  {
    var first := h % m;
    i := if first <= b then b - first else b + m - first;
  }

  lemma WalkDiffers(h: int, i: nat, j: nat, m: nat)
    requires i < j < m
    ensures Bucket(h, i, m) != Bucket(h, j, m)
  {
  }

  // ------------------------------------------------------------------------- tables

  /** Buckets hold numbers of live slots, every live slot is in one bucket and no slot in two. */
  ghost predicate Indexed<E>(slots: seq<Slot<E>>, buckets: seq<int>) {
    && (forall b: nat {:trigger buckets[b]} :: b < |buckets| && buckets[b] >= 0 ==> buckets[b] < |slots| && slots[buckets[b]].Live?)
    && (forall b: nat, c: nat :: b < |buckets| && c < |buckets| && buckets[b] == buckets[c] >= 0 ==> b == c)
    && (forall k: nat {:trigger slots[k]} :: k < |slots| && slots[k].Live? ==> InBucket(buckets, k))
  }

  ghost predicate InBucket(buckets: seq<int>, k: nat) {
    exists b: nat :: b < |buckets| && buckets[b] == k
  }

  /** No element is in two slots. */
  ghost predicate Once<E(!new)>(slots: seq<Slot<E>>) {
    forall j: nat, k: nat :: j < |slots| && k < |slots| && slots[j].Live? && slots[k].Live? && slots[j].elem == slots[k].elem ==> j == k
  }

  function LiveCount<E>(slots: seq<Slot<E>>, n: nat): nat
    requires n <= |slots|
  {
    if n == 0 then 0 else LiveCount(slots, n - 1) + (if slots[n - 1].Live? then 1 else 0)
  }

  lemma {:induction false} LiveCountUpdate<E>(slots: seq<Slot<E>>, n: nat, k: nat, x: Slot<E>)
    requires n <= |slots| && k < |slots|
    ensures LiveCount(slots[k := x], n) ==
            LiveCount(slots, n) + (if k >= n then 0 else (if x.Live? then 1 else 0) - (if slots[k].Live? then 1 else 0))
  {
    if n > 0 {
      LiveCountUpdate(slots, n - 1, k, x);
    }
  }

  lemma {:induction false} VacantSlot<E>(slots: seq<Slot<E>>, n: nat) returns (k: nat)
    requires n <= |slots| && LiveCount(slots, n) < n
    ensures k < n && slots[k].Vacant?
  {
    if slots[n - 1].Vacant? {
      k := n - 1;
    } else {
      k := VacantSlot(slots, n - 1);
    }
  }

  /** The buckets that hold one of the first n slots. */
  ghost predicate InUse(buckets: seq<int>, n: nat, used: set<nat>) {
    forall b: nat :: b in used <==> b < |buckets| && 0 <= buckets[b] < n
  }

  /** Slots in use are in different buckets, so there are as many buckets in use. */
  lemma {:induction false} BucketsInUse<E>(slots: seq<Slot<E>>, buckets: seq<int>, n: nat) returns (used: set<nat>)
    requires Indexed(slots, buckets) && n <= |slots|
    ensures |used| == LiveCount(slots, n) && InUse(buckets, n, used)
  {
    if n == 0 {
      used := {};
    } else {
      var fewer := BucketsInUse(slots, buckets, n - 1);
      if slots[n - 1].Live? {
        used := UseOneMore(slots, buckets, n, fewer);
      } else {
        used := fewer;
      }
    }
  }

  lemma UseOneMore<E>(slots: seq<Slot<E>>, buckets: seq<int>, n: nat, fewer: set<nat>) returns (used: set<nat>)
    requires Indexed(slots, buckets) && 0 < n <= |slots| && slots[n - 1].Live? && InUse(buckets, n - 1, fewer)
    ensures |used| == |fewer| + 1 && InUse(buckets, n, used)
  {
    assert InBucket(buckets, n - 1);
    var b: nat :| b < |buckets| && buckets[b] == n - 1;
    assert b !in fewer;
    used := fewer + {b};
  }

  lemma {:induction false} SomeOutside(used: set<nat>, m: nat) returns (b: nat)
    requires |used| < m
    ensures b < m && b !in used
    decreases m
  {
    if m - 1 !in used {
      b := m - 1;
    } else {
      b := SomeOutside(used - {m - 1}, m - 1);
    }
  }

  /** With fewer live slots than buckets, some bucket is free. */
  lemma FreeBucket<E>(slots: seq<Slot<E>>, buckets: seq<int>) returns (b: nat)
    requires Indexed(slots, buckets) && LiveCount(slots, |slots|) < |buckets|
    ensures b < |buckets| && buckets[b] < 0
  {
    var used := BucketsInUse(slots, buckets, |slots|);
    b := SomeOutside(used, |buckets|);
  }

  /** A new element in a vacant slot, indexed by a free bucket. */
  lemma InsertKeeps<E>(slots: seq<Slot<E>>, buckets: seq<int>, k: nat, x: Slot<E>, b: nat)
    requires Indexed(slots, buckets) && k < |slots| && slots[k].Vacant? && x.Live? && b < |buckets| && buckets[b] < 0
    ensures Indexed(slots[k := x], buckets[b := k])
  {
    var slots', buckets' := slots[k := x], buckets[b := k];
    forall j: nat | j < |slots'| && slots'[j].Live? ensures InBucket(buckets', j) {
      if j == k {
        assert buckets'[b] == k;
      } else {
        assert slots[j].Live? && InBucket(buckets, j);
        var c: nat :| c < |buckets| && buckets[c] == j;
        assert buckets'[c] == j;
      }
    }
  }

  /** An element leaves its slot and its bucket. */
  lemma RemoveKeeps<E>(slots: seq<Slot<E>>, buckets: seq<int>, b: nat)
    requires Indexed(slots, buckets) && b < |buckets| && buckets[b] >= 0
    ensures buckets[b] < |slots| && slots[buckets[b]].Live?
    ensures Indexed(slots[buckets[b] := Vacant], buckets[b := -1])
  {
    var k := buckets[b];
    var slots', buckets' := slots[k := Vacant], buckets[b := -1];
    forall j: nat | j < |slots'| && slots'[j].Live? ensures InBucket(buckets', j) {
      assert slots[j].Live? && InBucket(buckets, j);
      var c: nat :| c < |buckets| && buckets[c] == j;
      assert buckets'[c] == j;
    }
  }

  // --------------------------------------------------------------------------- walks

  predicate HitAt<E>(slots: seq<Slot<E>>, buckets: seq<int>, h: int, i: nat)
    requires i < |buckets|
  {
    var k := buckets[Bucket(h, i, |buckets|)];
    0 <= k < |slots| && slots[k].Live? && slots[k].hash == h
  }

  /** The slots that a chain for hash h still comes to from step i on. */
  function Walk<E>(slots: seq<Slot<E>>, buckets: seq<int>, h: int, i: nat): seq<nat>
    requires i <= |buckets|
    decreases |buckets| - i
  {
    if i == |buckets| then []
    else if HitAt(slots, buckets, h, i) then [buckets[Bucket(h, i, |buckets|)]] + Walk(slots, buckets, h, i + 1)
    else Walk(slots, buckets, h, i + 1)
  }

  lemma {:induction false} WalkMembers<E>(slots: seq<Slot<E>>, buckets: seq<int>, h: int, i: nat, k: nat)
    requires i <= |buckets|
    ensures k in Walk(slots, buckets, h, i) <==> exists j: nat :: i <= j < |buckets| && HitAt(slots, buckets, h, j) && buckets[Bucket(h, j, |buckets|)] == k
    decreases |buckets| - i
  {
    if i < |buckets| {
      WalkMembers(slots, buckets, h, i + 1, k);
    }
  }

  lemma {:induction false} WalkOnce<E>(slots: seq<Slot<E>>, buckets: seq<int>, h: int, i: nat)
    requires Indexed(slots, buckets) && i <= |buckets|
    ensures forall a, b :: 0 <= a < b < |Walk(slots, buckets, h, i)| ==> Walk(slots, buckets, h, i)[a] != Walk(slots, buckets, h, i)[b]
    decreases |buckets| - i
  {
    if i < |buckets| {
      WalkOnce(slots, buckets, h, i + 1);
      var k := buckets[Bucket(h, i, |buckets|)];
      if HitAt(slots, buckets, h, i) && k in Walk(slots, buckets, h, i + 1) {
        WalkMembers(slots, buckets, h, i + 1, k);
        var j: nat :| i + 1 <= j < |buckets| && HitAt(slots, buckets, h, j) && buckets[Bucket(h, j, |buckets|)] == k;
        WalkDiffers(h, i, j, |buckets|);
      }
    }
  }

  /** A whole walk comes to every live element with the hash exactly once, and to no other. */
  lemma WalkIsExact<E>(slots: seq<Slot<E>>, buckets: seq<int>, h: int, k: nat)
    requires Indexed(slots, buckets)
    ensures k in Walk(slots, buckets, h, 0) <==> k < |slots| && slots[k].Live? && slots[k].hash == h
    ensures forall a, b :: 0 <= a < b < |Walk(slots, buckets, h, 0)| ==> Walk(slots, buckets, h, 0)[a] != Walk(slots, buckets, h, 0)[b]
  {
    WalkMembers(slots, buckets, h, 0, k);
    WalkOnce(slots, buckets, h, 0);
    if k < |slots| && slots[k].Live? && slots[k].hash == h {
      assert InBucket(buckets, k);
      var b: nat :| b < |buckets| && buckets[b] == k;
      var i := WalkCovers(h, |buckets|, b);
      assert HitAt(slots, buckets, h, i);
    }
  }

  /** struct lai_hashtable; a vacant slot is a null element pointer. */
  class Table<E(==, !new)> {
    var slots: array<Slot<E>>
    var buckets: array<int>
    var numElems: nat

    ghost predicate Valid()
      reads this, slots, buckets
    {
      && Indexed(slots[..], buckets[..]) && numElems == LiveCount(slots[..], slots.Length)
      && (slots.Length == buckets.Length == 0 || (numElems < slots.Length && 2 * slots.Length == buckets.Length && slots.Length >= 2 && PowerOfTwo(buckets.Length)))
    }

    /** The element with its hash is in the table. */
    ghost predicate Holds(hash: int, elem: E)
      reads this, slots
    {
      Live(hash, elem) in slots[..]
    }

    constructor ()
      ensures Valid() && slots[..] == [] && fresh(slots) && fresh(buckets)
    {
      slots := new Slot<E>[0];
      buckets := new int[0];
      numElems := 0;
    }

    /** The probing loop that puts slot number k into the first free bucket from its hash on. */
    static method Index(buckets: array<int>, h: int, k: nat, ghost slots: seq<Slot<E>>, ghost x: Slot<E>)
      requires Indexed(slots, buckets[..]) && LiveCount(slots, |slots|) < buckets.Length
      requires k < |slots| && slots[k].Vacant? && x.Live?
      modifies buckets
      ensures Indexed(slots[k := x], buckets[..])
    {
      ghost var free := FreeBucket(slots, buckets[..]);
      ghost var stop := WalkCovers(h, buckets.Length, free);
      var i := 0;
      while buckets[Bucket(h, i, buckets.Length)] >= 0
        invariant i <= stop
        decreases buckets.Length - i
      {
        i := i + 1;
      }
      var b := Bucket(h, i, buckets.Length);
      InsertKeeps(slots, buckets[..], k, x, b);
      ghost var before := buckets[..];
      buckets[b] := k;
      assert buckets[..] == before[b := k];
    }

    /** lai_hashtable_grow(): slots keep their numbers, buckets are filled anew. */
    method Grow(n: nat, m: nat)
      requires Valid() && n >= slots.Length && m >= buckets.Length && m == 2 * n && n >= 2 && numElems < n && PowerOfTwo(m)
      modifies this
      ensures Valid() && fresh(slots) && fresh(buckets) && slots.Length == n && numElems == old(numElems)
      ensures Copied(old(slots[..]), slots[..], old(slots.Length))
    {
      var newSlots := new Slot<E>[n](_ => Vacant);
      var newBuckets := new int[m](_ => -1);
      VacantCount(newSlots[..], n);
      Refill(newSlots, newBuckets);
      slots := newSlots;
      buckets := newBuckets;
    }

    /** The loop of lai_hashtable_grow(). */
    method Refill(newSlots: array<Slot<E>>, newBuckets: array<int>)
      requires newSlots != slots && newBuckets != buckets && LiveCount(slots[..], slots.Length) < newSlots.Length <= newBuckets.Length
      requires Indexed(newSlots[..], newBuckets[..]) && Copied(slots[..], newSlots[..], 0) && LiveCount(newSlots[..], newSlots.Length) == 0
      modifies newSlots, newBuckets
      ensures Indexed(newSlots[..], newBuckets[..]) && Copied(slots[..], newSlots[..], slots.Length)
      ensures LiveCount(newSlots[..], newSlots.Length) == LiveCount(slots[..], slots.Length)
    {
      var k := 0;
      while k < slots.Length
        invariant k <= slots.Length && Copied(slots[..], newSlots[..], k)
        invariant Indexed(newSlots[..], newBuckets[..]) && LiveCount(newSlots[..], newSlots.Length) == LiveCount(slots[..], k)
      {
        Reindex(slots[..], newSlots, newBuckets, k);
        k := k + 1;
      }
    }

    /** One round of the loop in lai_hashtable_grow(). */
    static method Reindex(was: seq<Slot<E>>, newSlots: array<Slot<E>>, newBuckets: array<int>, k: nat)
      requires k < |was| && LiveCount(was, |was|) < newSlots.Length <= newBuckets.Length && Copied(was, newSlots[..], k)
      requires Indexed(newSlots[..], newBuckets[..]) && LiveCount(newSlots[..], newSlots.Length) == LiveCount(was, k)
      modifies newSlots, newBuckets
      ensures Copied(was, newSlots[..], k + 1)
      ensures Indexed(newSlots[..], newBuckets[..]) && LiveCount(newSlots[..], newSlots.Length) == LiveCount(was, k + 1)
    {
      ghost var before := newSlots[..];
      LiveCountGrows(was, k, |was|);
      if was[k].Live? {
        Index(newBuckets, was[k].hash, k, before, was[k]);
        newSlots[k] := was[k];
        assert newSlots[..] == before[k := was[k]];
        LiveCountUpdate(before, newSlots.Length, k, was[k]);
      }
    }

    /** lai_hashtable_insert(): a vacant slot and a free bucket are always found. */
    method Insert(h: int, elem: E)
      requires Valid()
      modifies this, slots, buckets
      ensures Valid() && (slots == old(slots) || fresh(slots)) && (buckets == old(buckets) || fresh(buckets))
      ensures forall h1, e1 {:trigger Holds(h1, e1)} :: Holds(h1, e1) <==> old(Holds(h1, e1)) || (h1 == h && e1 == elem)
      ensures numElems == old(numElems) + 1
      ensures old(Once(slots[..])) && (forall h1 :: Live(h1, elem) !in old(slots[..])) ==> Once(slots[..])
    {
      ghost var was := slots[..];
      if slots.Length == 0 || buckets.Length == 0 {
        Four();
        Grow(2, 4);
        CopiedHolds(was, slots[..]);
      } else if numElems + 1 >= slots.Length {
        Doubled(buckets.Length);
        Grow(2 * slots.Length, 2 * buckets.Length);
        CopiedHolds(was, slots[..]);
      }
      assert forall h1, e1 :: Live(h1, e1) in slots[..] <==> Live(h1, e1) in was;
      assert Once(was) ==> Once(slots[..]);
      Place(h, elem);
    }

    /** The part of lai_hashtable_insert() behind the growth. */
    method Place(h: int, elem: E)
      requires Valid() && numElems + 1 < slots.Length
      modifies `numElems, slots, buckets
      ensures Valid() && numElems == old(numElems) + 1
      ensures forall h1, e1 {:trigger Live(h1, e1) in slots[..]} ::
                Live(h1, e1) in slots[..] <==> Live(h1, e1) in old(slots[..]) || (h1 == h && e1 == elem)
      ensures old(Once(slots[..])) && (forall h1 :: Live(h1, elem) !in old(slots[..])) ==> Once(slots[..])
    {
      ghost var before := slots[..];
      ghost var vacant := VacantSlot(before, |before|);
      var k := 0;
      while slots[k].Live?
        invariant k <= vacant
        decreases slots.Length - k
      {
        k := k + 1;
      }
      Index(buckets, h, k, before, Live(h, elem));
      slots[k] := Live(h, elem);
      assert slots[..] == before[k := Live(h, elem)];
      LiveCountUpdate(before, |before|, k, Live(h, elem));
      numElems := numElems + 1;
      PlacedHolds(before, k, h, elem);
    }

    /** lai_hashtable_chain_advance(): the next step of the chain that hits, None at the end. */
    method Advance(h: int, i: int) returns (next: nat)
      requires Valid() && -1 <= i < buckets.Length
      ensures i < next <= buckets.Length
      ensures next < buckets.Length ==> HitAt(slots[..], buckets[..], h, next)
      ensures Walk(slots[..], buckets[..], h, i + 1) == Walk(slots[..], buckets[..], h, next)
    {
      next := i + 1;
      while next < buckets.Length && !(buckets[Bucket(h, next, buckets.Length)] >= 0 && slots[buckets[Bucket(h, next, buckets.Length)]].hash == h)
        invariant i < next <= buckets.Length
        invariant Walk(slots[..], buckets[..], h, i + 1) == Walk(slots[..], buckets[..], h, next)
        decreases buckets.Length - next
      {
        next := next + 1;
      }
    }

    /** lai_hashtable_chain_get() */
    method Get(h: int, i: nat) returns (elem: E)
      requires Valid() && i < buckets.Length && HitAt(slots[..], buckets[..], h, i)
      ensures Holds(h, elem) && Live(h, elem) == slots[buckets[Bucket(h, i, buckets.Length)]]
    {
      var k := buckets[Bucket(h, i, buckets.Length)];
      elem := slots[k].elem;
      assert slots[..][k] == Live(h, elem);
    }

    /** lai_hashtable_chain_remove() */
    method Remove(h: int, i: nat)
      requires Valid() && i < buckets.Length && HitAt(slots[..], buckets[..], h, i)
      modifies `numElems, slots, buckets
      ensures Valid() && numElems == old(numElems) - 1
      ensures slots[..] == old(slots[..][buckets[Bucket(h, i, buckets.Length)] := Vacant])
    {
      var b := Bucket(h, i, buckets.Length);
      var k := buckets[b];
      ghost var before, index := slots[..], buckets[..];
      RemoveKeeps(before, index, b);
      LiveCountUpdate(before, |before|, k, Vacant);
      slots[k] := Vacant;
      buckets[b] := -1;
      assert slots[..] == before[k := Vacant] && buckets[..] == index[b := -1];
      numElems := numElems - 1;
    }
  }

  /** The first k slots are as they were, the others vacant. */
  ghost predicate Copied<E>(was: seq<Slot<E>>, slots: seq<Slot<E>>, k: nat) {
    k <= |was| <= |slots| && forall j: nat {:trigger slots[j]} :: j < |slots| ==> slots[j] == if j < k then was[j] else Vacant
  }

  lemma CopiedHolds<E(!new)>(was: seq<Slot<E>>, slots: seq<Slot<E>>)
    requires Copied(was, slots, |was|)
    ensures Once(was) ==> Once(slots)
    ensures forall h1, e1 :: Live(h1, e1) in slots <==> Live(h1, e1) in was
  {
    forall h1, e1 ensures Live(h1, e1) in slots <==> Live(h1, e1) in was {
      if Live(h1, e1) in was {
        var j :| 0 <= j < |was| && was[j] == Live(h1, e1);
        assert slots[j] == was[j];
      }
    }
  }

  lemma PlacedHolds<E(!new)>(before: seq<Slot<E>>, k: nat, h: int, elem: E)
    requires k < |before| && before[k].Vacant?
    ensures Once(before) && (forall h1 :: Live(h1, elem) !in before) ==> Once(before[k := Live(h, elem)])
    ensures forall h1, e1 :: Live(h1, e1) in before[k := Live(h, elem)] <==> Live(h1, e1) in before || (h1 == h && e1 == elem)
  {
    var after := before[k := Live(h, elem)];
    assert after[k] == Live(h, elem);
    forall j: nat | j < |before| && before[j].Live? && before[j].elem == elem ensures exists h1 :: Live(h1, elem) in before {
      assert before[j] == Live(before[j].hash, elem);
    }
    forall h1, e1 ensures Live(h1, e1) in after <==> Live(h1, e1) in before || (h1 == h && e1 == elem) {
      if Live(h1, e1) in before {
        var j :| 0 <= j < |before| && before[j] == Live(h1, e1);
        assert after[j] == before[j];
      }
    }
  }

  lemma {:induction false} VacantCount<E>(slots: seq<Slot<E>>, n: nat)
    requires n <= |slots| && forall k :: 0 <= k < |slots| ==> slots[k].Vacant?
    ensures LiveCount(slots, n) == 0
  {
    if n > 0 {
      VacantCount(slots, n - 1);
    }
  }

  lemma {:induction false} LiveCountGrows<E>(slots: seq<Slot<E>>, k: nat, n: nat)
    requires k <= n <= |slots|
    ensures LiveCount(slots, k) <= LiveCount(slots, n)
    ensures k < n && slots[k].Live? ==> LiveCount(slots, k) < LiveCount(slots, n)
  {
    if k < n {
      LiveCountGrows(slots, k, n - 1);
    }
  }
}
