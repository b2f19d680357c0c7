/**
 The heap behind AML variables: heads with reference counts, package elements that refer to
 further heads, and what it means for every count to be exact. Lemmas say how the smallest
 writes of variable.c and object.c shift the balance between counts and references.
 */
module ObjectHeap {

  type Id = nat

  /** lai_variable_t: Direct is LAI_STRING, LAI_BUFFER or LAI_PACKAGE, Index the matching index type. */
  datatype Var = Zero | Number(n: int) | Direct(id: Id) | Index(id: Id, i: int)

  /** The heads of strings, buffers and packages; Free is memory that has been given back. */
  datatype Head =
    | StringHead(rc: nat, text: seq<char>)
    | BufferHead(rc: nat, bytes: seq<int>)
    | PkgHead(rc: nat, elems: seq<Var>)
    | Free

  type Heap = seq<Head>

  function Target(v: Var): multiset<Id> {
    if v.Direct? || v.Index? then multiset{v.id} else multiset{}
  }

  function Hits(v: Var, id: Id): nat {
    if (v.Direct? || v.Index?) && v.id == id then 1 else 0
  }

  lemma TargetHits(held: multiset<Id>, v: Var, x: Id)
    ensures (held + Target(v))[x] == held[x] + Hits(v, x)
  {
  }

  function Elems(h: Head): seq<Var> {
    if h.PkgHead? then h.elems else []
  }

  function Count(h: Head): nat {
    if h.Free? then 0 else h.rc
  }

  /** The reference count found at an identity. */
  function Rc(hs: Heap, id: Id): nat {
    if id < |hs| then Count(hs[id]) else 0
  }

  /** References to id from the first n variables. */
  function RefsTo(vs: seq<Var>, n: nat, id: Id): nat
    requires n <= |vs|
  {
    if n == 0 then 0 else RefsTo(vs, n - 1, id) + Hits(vs[n - 1], id)
  }

  /** References to id from the elements of the first n heads. */
  function HeapRefsTo(hs: Heap, n: nat, id: Id): nat
    requires n <= |hs|
  {
    if n == 0 then 0 else HeapRefsTo(hs, n - 1, id) + RefsTo(Elems(hs[n - 1]), |Elems(hs[n - 1])|, id)
  }

  function HeapRefs(hs: Heap, id: Id): nat {
    HeapRefsTo(hs, |hs|, id)
  }

  /**
   Every count is the number of cells that refer to the head: `held` are the references from
   outside the heap. Freed heads count as 0, so nothing refers to them.
   */
  ghost predicate Exact(hs: Heap, held: multiset<Id>) {
    forall id: Id {:trigger Rc(hs, id)} {:trigger HeapRefs(hs, id)} :: Rc(hs, id) == held[id] + HeapRefs(hs, id)
  }

  /** No head lingers without a reference. */
  ghost predicate NoneLost(hs: Heap) {
    forall k: Id :: k < |hs| && !hs[k].Free? ==> hs[k].rc > 0
  }

  function TotalRc(hs: Heap, n: nat): nat
    requires n <= |hs|
  {
    if n == 0 then 0 else TotalRc(hs, n - 1) + Count(hs[n - 1])
  }

  // --------------------------------------------------------------- sums under updates

  lemma {:induction false} RefsUpdate(vs: seq<Var>, n: nat, i: nat, v: Var, id: Id)
    requires n <= |vs| && i < |vs|
    ensures RefsTo(vs[i := v], n, id) == RefsTo(vs, n, id) + (if i < n then (Hits(v, id) as int) - Hits(vs[i], id) as int else 0)
  {
    if n > 0 {
      RefsUpdate(vs, n - 1, i, v, id);
    }
  }

  lemma {:induction false} RefsZero(vs: seq<Var>, n: nat, id: Id)
    requires n <= |vs| && forall i :: 0 <= i < n ==> vs[i] == Zero
    ensures RefsTo(vs, n, id) == 0
  {
    if n > 0 {
      RefsZero(vs, n - 1, id);
    }
  }

  lemma {:induction false} HeapRefsUpdate(hs: Heap, n: nat, k: Id, h: Head, id: Id)
    requires n <= |hs| && k < |hs|
    ensures HeapRefsTo(hs[k := h], n, id) ==
            HeapRefsTo(hs, n, id) + (if k < n then RefsTo(Elems(h), |Elems(h)|, id) - RefsTo(Elems(hs[k]), |Elems(hs[k])|, id) else 0)
  {
    if n > 0 {
      HeapRefsUpdate(hs, n - 1, k, h, id);
    }
  }

  lemma {:induction false} HeapRefsPrefix(hs: Heap, more: Heap, n: nat, id: Id)
    requires n <= |hs|
    ensures HeapRefsTo(hs + more, n, id) == HeapRefsTo(hs, n, id)
  {
    if n > 0 {
      HeapRefsPrefix(hs, more, n - 1, id);
    }
  }

  lemma {:induction false} TotalRcUpdate(hs: Heap, n: nat, k: Id, h: Head)
    requires n <= |hs| && k < |hs|
    ensures TotalRc(hs[k := h], n) == TotalRc(hs, n) + (if k < n then Count(h) - Count(hs[k]) else 0)
  {
    if n > 0 {
      TotalRcUpdate(hs, n - 1, k, h);
    }
  }

  // -------------------------------------------------------------- the smallest writes

  function WithRc(h: Head, rc: nat): Head
    requires !h.Free?
  {
    h.(rc := rc)
  }

  /** lai_rc_unref() balances a reference that is given up. */
  lemma Unref(hs: Heap, held: multiset<Id>, id: Id)
    requires Exact(hs, held) && id in held
    ensures id < |hs| && !hs[id].Free? && hs[id].rc > 0
    ensures Exact(hs[id := WithRc(hs[id], hs[id].rc - 1)], held - multiset{id})
  {
    assert Rc(hs, id) > 0;
    var hs' := hs[id := WithRc(hs[id], hs[id].rc - 1)];
    forall x: Id ensures Rc(hs', x) == (held - multiset{id})[x] + HeapRefs(hs', x) {
      HeapRefsUpdate(hs, |hs|, id, hs'[id], x);
      assert Rc(hs, x) == held[x] + HeapRefs(hs, x);
    }
  }

  /** lai_rc_ref() balances a new reference to a head that is in use. */
  lemma Ref(hs: Heap, held: multiset<Id>, id: Id)
    requires Exact(hs, held) && Rc(hs, id) > 0
    ensures Exact(hs[id := WithRc(hs[id], hs[id].rc + 1)], held + multiset{id})
  {
    var hs' := hs[id := WithRc(hs[id], hs[id].rc + 1)];
    forall x: Id ensures Rc(hs', x) == (held + multiset{id})[x] + HeapRefs(hs', x) {
      HeapRefsUpdate(hs, |hs|, id, hs'[id], x);
      assert Rc(hs, x) == held[x] + HeapRefs(hs, x);
    }
  }

  function WithElem(hs: Heap, k: Id, i: nat, v: Var): Heap
    requires k < |hs| && hs[k].PkgHead? && i < |hs[k].elems|
  {
    hs[k := hs[k].(elems := hs[k].elems[i := v])]
  }

  lemma WriteElem(hs: Heap, k: Id, i: nat, v: Var, x: Id)
    requires k < |hs| && hs[k].PkgHead? && i < |hs[k].elems|
    ensures HeapRefs(WithElem(hs, k, i, v), x) + Hits(hs[k].elems[i], x) == HeapRefs(hs, x) + Hits(v, x)
    ensures Rc(WithElem(hs, k, i, v), x) == Rc(hs, x)
  {
    var es := hs[k].elems;
    var h := hs[k].(elems := es[i := v]);
    assert HeapRefs(hs[k := h], x) == HeapRefs(hs, x) + RefsTo(es[i := v], |es|, x) - RefsTo(es, |es|, x) by {
      HeapRefsUpdate(hs, |hs|, k, h, x);
    }
    RefsUpdate(es, |es|, i, v, x);
  }

  /** The value of an element moves out of the heap, or into an element that is zero. */
  lemma TakeElem(hs: Heap, held: multiset<Id>, k: Id, i: nat)
    requires Exact(hs, held) && k < |hs| && hs[k].PkgHead? && i < |hs[k].elems|
    ensures Exact(WithElem(hs, k, i, Zero), held + Target(hs[k].elems[i]))
  {
    forall x: Id ensures Rc(WithElem(hs, k, i, Zero), x) == (held + Target(hs[k].elems[i]))[x] + HeapRefs(WithElem(hs, k, i, Zero), x) {
      WriteElem(hs, k, i, Zero, x);
      TargetHits(held, hs[k].elems[i], x);
      assert Rc(hs, x) == held[x] + HeapRefs(hs, x);
    }
  }

  lemma PutElem(hs: Heap, held: multiset<Id>, k: Id, i: nat, v: Var)
    requires Exact(hs, held + Target(v)) && k < |hs| && hs[k].PkgHead? && i < |hs[k].elems| && hs[k].elems[i] == Zero
    ensures Exact(WithElem(hs, k, i, v), held)
  {
    forall x: Id ensures Rc(WithElem(hs, k, i, v), x) == held[x] + HeapRefs(WithElem(hs, k, i, v), x) {
      WriteElem(hs, k, i, v, x);
      TargetHits(held, v, x);
      assert Rc(hs, x) == (held + Target(v))[x] + HeapRefs(hs, x);
    }
  }

  /** A head without references and without references of its own can be given back. */
  lemma Release(hs: Heap, held: multiset<Id>, k: Id)
    requires Exact(hs, held) && k < |hs| && Count(hs[k]) == 0
    requires forall i :: 0 <= i < |Elems(hs[k])| ==> Elems(hs[k])[i] == Zero
    ensures Exact(hs[k := Free], held)
  {
    var hs' := hs[k := Free];
    forall x: Id ensures Rc(hs', x) == held[x] + HeapRefs(hs', x) {
      HeapRefsUpdate(hs, |hs|, k, Free, x);
      RefsZero(Elems(hs[k]), |Elems(hs[k])|, x);
      assert Rc(hs, x) == held[x] + HeapRefs(hs, x);
    }
  }

  /** lai_create_*(): a new head with one reference and nothing in it. */
  lemma Alloc(hs: Heap, held: multiset<Id>, h: Head)
    requires Exact(hs, held) && !h.Free? && h.rc == 1
    requires forall i :: 0 <= i < |Elems(h)| ==> Elems(h)[i] == Zero
    ensures Exact(hs + [h], held + multiset{|hs|})
  {
    var hs' := hs + [h];
    forall x: Id ensures Rc(hs', x) == (held + multiset{|hs|})[x] + HeapRefs(hs', x) {
      HeapRefsPrefix(hs, [h], |hs|, x);
      RefsZero(Elems(h), |Elems(h)|, x);
      assert Rc(hs, x) == held[x] + HeapRefs(hs, x);
    }
  }

  lemma {:induction false} ElemCounts(vs: seq<Var>, n: nat, i: nat)
    requires i < n <= |vs| && (vs[i].Direct? || vs[i].Index?)
    ensures RefsTo(vs, n, vs[i].id) > 0
  {
    if i < n - 1 {
      ElemCounts(vs, n - 1, i);
    }
  }

  lemma {:induction false} HeapCounts(hs: Heap, n: nat, k: Id, id: Id)
    requires k < n <= |hs|
    ensures RefsTo(Elems(hs[k]), |Elems(hs[k])|, id) <= HeapRefsTo(hs, n, id)
  {
    if k < n - 1 {
      HeapCounts(hs, n - 1, k, id);
    }
  }

  /** Nothing dangles: what an element refers to is in use. */
  lemma ElemLives(hs: Heap, held: multiset<Id>, k: Id, i: nat)
    requires Exact(hs, held) && k < |hs| && i < |Elems(hs[k])|
    requires var v := Elems(hs[k])[i]; v.Direct? || v.Index?
    ensures Rc(hs, Elems(hs[k])[i].id) > 0
  {
    var id := Elems(hs[k])[i].id;
    ElemCounts(Elems(hs[k]), |Elems(hs[k])|, i);
    HeapCounts(hs, |hs|, k, id);
    assert Rc(hs, id) == held[id] + HeapRefs(hs, id);
  }

  // ------------------------------------------------------------------- what survives

  /** From before to after, heads have lost references, and some have been freed; nothing else. */
  ghost predicate Survives(before: Heap, after: Heap) {
    && |after| == |before|
    && forall k: Id {:trigger after[k]} :: k < |before| ==>
         after[k].Free? || (!before[k].Free? && after[k] == before[k].(rc := after[k].rc) && after[k].rc <= before[k].rc)
  }

  lemma SurvivesTrans(a: Heap, b: Heap, c: Heap)
    requires Survives(a, b) && Survives(b, c)
    ensures Survives(a, c)
  {
    forall k: Id | k < |a|
      ensures c[k].Free? || (!a[k].Free? && c[k] == a[k].(rc := c[k].rc) && c[k].rc <= a[k].rc)
    {
      assert b[k] == b[k];
    }
  }

  /** Heads with count 0 stay as they are: they are free, or being freed further up. */
  ghost predicate DyingStay(before: Heap, after: Heap) {
    |after| == |before| && forall k: Id {:trigger after[k]} :: k < |before| && Count(before[k]) == 0 ==> after[k] == before[k]
  }

  lemma DyingStayTrans(a: Heap, b: Heap, c: Heap)
    requires DyingStay(a, b) && DyingStay(b, c)
    ensures DyingStay(a, c)
  {
    forall k: Id | k < |a| && Count(a[k]) == 0 ensures c[k] == a[k] {
      assert b[k] == a[k];
    }
  }

  /** Heads in use before are in use or free after. */
  ghost predicate NoneStranded(before: Heap, after: Heap) {
    |after| == |before| && forall k: Id {:trigger after[k]} :: k < |before| && Count(before[k]) > 0 ==> after[k].Free? || Count(after[k]) > 0
  }

  // -------------------------------------------------------------- variables as cells

  /** Where a variable lives: a local, argument or node, or an element of a package. */
  datatype Cell = Root(r: nat) | Elem(k: Id, i: nat)

  datatype Memory = Memory(heads: Heap, roots: seq<Var>)

  predicate Has(m: Memory, c: Cell) {
    match c
    case Root(r) => r < |m.roots|
    case Elem(k, i) => k < |m.heads| && m.heads[k].PkgHead? && i < |m.heads[k].elems|
  }

  function Get(m: Memory, c: Cell): Var
    requires Has(m, c)
  {
    match c
    case Root(r) => m.roots[r]
    case Elem(k, i) => m.heads[k].elems[i]
  }

  function Set(m: Memory, c: Cell, v: Var): Memory
    requires Has(m, c)
  {
    match c
    case Root(r) => m.(roots := m.roots[r := v])
    case Elem(k, i) => m.(heads := WithElem(m.heads, k, i, v))
  }

  /** References from the first n variables of the table. */
  function Held(vs: seq<Var>, n: nat): multiset<Id>
    requires n <= |vs|
  {
    if n == 0 then multiset{} else Held(vs, n - 1) + Target(vs[n - 1])
  }

  function RootRefs(m: Memory): multiset<Id> {
    Held(m.roots, |m.roots|)
  }

  lemma {:induction false} HeldRefs(vs: seq<Var>, n: nat, x: Id)
    requires n <= |vs|
    ensures Held(vs, n)[x] == RefsTo(vs, n, x)
  {
    if n > 0 {
      HeldRefs(vs, n - 1, x);
      TargetHits(Held(vs, n - 1), vs[n - 1], x);
    }
  }

  /** lai_swap_object() between a cell and a temporary: references change sides with the values. */
  lemma SwapBalances(m: Memory, c: Cell, v: Var)
    requires Has(m, c) && Exact(m.heads, RootRefs(m) + Target(v))
    ensures Exact(Set(m, c, v).heads, RootRefs(Set(m, c, v)) + Target(Get(m, c)))
  {
    match c
    case Root(r) =>
      forall x: Id ensures (RootRefs(Set(m, c, v)) + Target(Get(m, c)))[x] == (RootRefs(m) + Target(v))[x] {
        HeldRefs(m.roots, |m.roots|, x);
        HeldRefs(m.roots[r := v], |m.roots|, x);
        RefsUpdate(m.roots, |m.roots|, r, v, x);
        TargetHits(RootRefs(Set(m, c, v)), Get(m, c), x);
        TargetHits(RootRefs(m), v, x);
      }
    case Elem(k, i) => SwapElem(m.heads, k, i, v, RootRefs(m));
  }

  lemma SwapElem(hs: Heap, k: Id, i: nat, v: Var, held: multiset<Id>)
    requires k < |hs| && hs[k].PkgHead? && i < |hs[k].elems| && Exact(hs, held + Target(v))
    ensures Exact(WithElem(hs, k, i, v), held + Target(hs[k].elems[i]))
  {
    var was := hs[k].elems[i];
    var hs1 := WithElem(hs, k, i, Zero);
    TakeElem(hs, held + Target(v), k, i);
    assert (held + Target(v)) + Target(was) == (held + Target(was)) + Target(v);
    PutElem(hs1, held + Target(was), k, i, v);
    assert hs[k].elems[i := Zero][i := v] == hs[k].elems[i := v];
    assert WithElem(hs1, k, i, v) == WithElem(hs, k, i, v);
  }

  lemma {:induction false} HeldCounts(vs: seq<Var>, n: nat, i: nat)
    requires i < n <= |vs| && (vs[i].Direct? || vs[i].Index?)
    ensures vs[i].id in Held(vs, n)
  {
    if i < n - 1 {
      HeldCounts(vs, n - 1, i);
    }
  }

  /** What any cell refers to is in use. */
  lemma CellLives(m: Memory, c: Cell)
    requires Has(m, c) && Exact(m.heads, RootRefs(m)) && (Get(m, c).Direct? || Get(m, c).Index?)
    ensures Rc(m.heads, Get(m, c).id) > 0
  {
    match c
    case Root(r) =>
      HeldCounts(m.roots, |m.roots|, r);
      assert Rc(m.heads, Get(m, c).id) > 0;
    case Elem(k, i) => ElemLives(m.heads, RootRefs(m), k, i);
  }

  /** lai_var_move() before the finalization of what the destination held. */
  function Moved(m: Memory, dest: Cell, src: Cell): Memory
    requires Has(m, dest) && Has(m, src)
  {
    Set(Set(m, src, Zero), dest, Get(m, src))
  }

  /** A move carries the value over, leaves zero behind, and touches no other cell; to itself it does nothing. */
  lemma MovedCells(m: Memory, dest: Cell, src: Cell, c: Cell)
    requires Has(m, dest) && Has(m, src)
    ensures Has(Moved(m, dest, src), c) <==> Has(m, c)
    ensures Has(m, c) ==>
              Get(Moved(m, dest, src), c) ==
              if c == dest then Get(m, src) else if c == src then Zero else Get(m, c)
    ensures dest == src ==> Moved(m, dest, src) == m
  {
    if dest == src && dest.Elem? {
      var h := m.heads[dest.k];
      assert h.elems[dest.i := Zero][dest.i := h.elems[dest.i]] == h.elems;
    } else if dest == src {
      assert m.roots[dest.r := Zero][dest.r := m.roots[dest.r]] == m.roots;
    }
  }

  // ------------------------------------------------------------------ values as trees

  datatype Tree = Nothing | Num(n: int) | Text(text: seq<char>) | Bytes(bytes: seq<int>) | Pack(parts: seq<Tree>) | Shared(id: Id, i: int)

  /** The value is acyclic: its packages are nested at most d deep. */
  predicate Deep(hs: Heap, d: nat, v: Var)
    decreases d
  {
    v.Direct? ==>
      && v.id < |hs| && !hs[v.id].Free?
      && (hs[v.id].PkgHead? ==> d > 0 && forall i :: 0 <= i < |hs[v.id].elems| ==> Deep(hs, d - 1, hs[v.id].elems[i]))
  }

  function TreeOf(hs: Heap, d: nat, v: Var): Tree
    requires Deep(hs, d, v)
    decreases d
  {
    match v
    case Zero => Nothing
    case Number(n) => Num(n)
    case Index(id, i) => Shared(id, i)
    case Direct(id) =>
      match hs[id]
      case StringHead(_, text) => Text(text)
      case BufferHead(_, bytes) => Bytes(bytes)
      case PkgHead(_, elems) => Pack(seq(|elems|, i requires 0 <= i < |elems| => TreeOf(hs, d - 1, elems[i])))
      case Free => Nothing
  }

  /** Two heads that differ in their counts at most. */
  predicate SameValue(a: Head, b: Head) {
    match a
    case StringHead(_, text) => b.StringHead? && b.text == text
    case BufferHead(_, bytes) => b.BufferHead? && b.bytes == bytes
    case PkgHead(_, elems) => b.PkgHead? && b.elems == elems
    case Free => b.Free?
  }

  /** Direct references out of the heads from lo to hi stay between lo and hi. */
  ghost predicate Closed(hs: Heap, lo: Id, hi: Id) {
    && lo <= hi <= |hs|
    && forall k: Id, i: nat {:trigger Elems(hs[k])[i]} :: lo <= k < hi && i < |Elems(hs[k])| && Elems(hs[k])[i].Direct? ==> lo <= Elems(hs[k])[i].id < hi
  }

  ghost predicate Agree(hs: Heap, hs': Heap, lo: Id, hi: Id) {
    hi <= |hs| && hi <= |hs'| && forall k: Id {:trigger hs'[k]} {:trigger hs[k]} :: lo <= k < hi ==> SameValue(hs[k], hs'[k])
  }

  /** A tree depends on the heads it can reach. */
  lemma {:induction false} TreeAgrees(hs: Heap, hs': Heap, lo: Id, hi: Id, d: nat, v: Var)
    requires Closed(hs, lo, hi) && Agree(hs, hs', lo, hi) && Deep(hs, d, v) && (v.Direct? ==> lo <= v.id < hi)
    ensures Deep(hs', d, v) && TreeOf(hs', d, v) == TreeOf(hs, d, v)
    decreases d
  {
    if v.Direct? && hs[v.id].PkgHead? {
      var elems := hs[v.id].elems;
      assert SameValue(hs[v.id], hs'[v.id]);
      forall i | 0 <= i < |elems| ensures Deep(hs', d - 1, elems[i]) && TreeOf(hs', d - 1, elems[i]) == TreeOf(hs, d - 1, elems[i]) {
        assert Elems(hs[v.id])[i] == elems[i];
        TreeAgrees(hs, hs', lo, hi, d - 1, elems[i]);
      }
    } else if v.Direct? {
      assert SameValue(hs[v.id], hs'[v.id]);
    }
  }

  /** Exact counts keep the whole heap closed. */
  lemma ExactCloses(hs: Heap, held: multiset<Id>)
    requires Exact(hs, held)
    ensures Closed(hs, 0, |hs|)
  {
    forall k: Id, i: nat | k < |hs| && i < |Elems(hs[k])| && Elems(hs[k])[i].Direct? ensures Elems(hs[k])[i].id < |hs| {
      ElemLives(hs, held, k, i);
    }
  }

  /** A value that is still referred to keeps its tree while other references go away. */
  lemma {:induction false} TreeSurvives(hs: Heap, hs': Heap, held: multiset<Id>, d: nat, v: Var)
    requires Survives(hs, hs') && Exact(hs', held) && Deep(hs, d, v) && (v.Direct? ==> Rc(hs', v.id) > 0)
    ensures Deep(hs', d, v) && TreeOf(hs', d, v) == TreeOf(hs, d, v)
    decreases d
  {
    if v.Direct? {
      assert hs'[v.id] == hs[v.id].(rc := hs'[v.id].rc);
      if hs[v.id].PkgHead? {
        var elems := hs[v.id].elems;
        forall i | 0 <= i < |elems| ensures Deep(hs', d - 1, elems[i]) && TreeOf(hs', d - 1, elems[i]) == TreeOf(hs, d - 1, elems[i]) {
          assert Elems(hs'[v.id])[i] == elems[i];
          if elems[i].Direct? {
            ElemLives(hs', held, v.id, i);
          }
          TreeSurvives(hs, hs', held, d - 1, elems[i]);
        }
      }
    }
  }

  // ------------------------------------------------------------------------- copies

  /** From before to after, heads have been added and references to old ones gained; nothing else. */
  ghost predicate Grown(before: Heap, after: Heap) {
    |before| <= |after| && Agree(before, after, 0, |before|)
  }

  /** The first i elements of package n, the newest in h0, are copies of those of package src. */
  ghost predicate Copying(h0: Heap, hs: Heap, src: Id, n: Id, i: nat, d: nat) {
    && n + 1 == |h0| <= |hs| && Agree(h0, hs, 0, n) && Closed(h0, 0, n) && Closed(hs, n + 1, |hs|)
    && src < n && h0[src].PkgHead? && d > 0 && i <= |h0[src].elems|
    && hs[n].PkgHead? && |hs[n].elems| == |h0[src].elems|
    && (forall j :: i <= j < |hs[n].elems| ==> hs[n].elems[j] == Zero)
    && (forall j :: 0 <= j < |h0[src].elems| ==> Deep(h0, d - 1, h0[src].elems[j]))
    && (forall j :: 0 <= j < i ==> Copied(h0, hs, n, d - 1, h0[src].elems[j], hs[n].elems[j]))
  }

  /** w is a copy of v that shares none of the heads up to n with it. */
  ghost predicate Copied(h0: Heap, hs: Heap, n: Id, d: nat, v: Var, w: Var)
    requires Deep(h0, d, v)
  {
    (w.Direct? ==> n < w.id < |hs|) && Deep(hs, d, w) && TreeOf(hs, d, w) == TreeOf(h0, d, v)
  }

  lemma CopyKeeps(h0: Heap, hs: Heap, hs': Heap, n: Id, d: nat, v: Var, w: Var)
    requires Deep(h0, d, v) && Copied(h0, hs, n, d, v, w) && n < |hs| && Closed(hs, n + 1, |hs|) && Agree(hs, hs', n + 1, |hs|)
    ensures Copied(h0, hs', n, d, v, w)
  {
    TreeAgrees(hs, hs', n + 1, |hs|, d, w);
  }

  lemma NextSource(h0: Heap, hs: Heap, src: Id, n: Id, i: nat, d: nat)
    requires Copying(h0, hs, src, n, i, d) && i < |h0[src].elems|
    ensures var v := h0[src].elems[i];
            && hs[src].PkgHead? && hs[src].elems == h0[src].elems && (v.Direct? ==> v.id < n)
            && Deep(hs, d - 1, v) && TreeOf(hs, d - 1, v) == TreeOf(h0, d - 1, v)
  {
    var v := h0[src].elems[i];
    assert SameValue(h0[src], hs[src]);
    assert Elems(h0[src])[i] == v;
    TreeAgrees(h0, hs, 0, n, d - 1, v);
  }

  lemma CopyStarts(before: Heap, h0: Heap, src: Id, d: nat)
    requires Closed(before, 0, |before|) && Deep(before, d, Direct(src)) && before[src].PkgHead?
    requires h0 == before + [PkgHead(1, seq(|before[src].elems|, _ => Zero))] && Deep(h0, d, Direct(src))
    ensures Copying(h0, h0, src, |before|, 0, d)
  {
    var n := |before|;
    forall k: Id, i: nat | k < n && i < |Elems(h0[k])| && Elems(h0[k])[i].Direct? ensures Elems(h0[k])[i].id < n {
      assert Elems(before[k])[i] == Elems(h0[k])[i];
    }
  }

  lemma CopyOn(h0: Heap, hs: Heap, hs1: Heap, src: Id, n: Id, i: nat, d: nat, w: Var)
    requires Copying(h0, hs, src, n, i, d) && i < |h0[src].elems|
    requires Grown(hs, hs1) && Closed(hs1, |hs|, |hs1|) && Copied(h0, hs1, n, d - 1, h0[src].elems[i], w)
    ensures hs1[n].PkgHead? && hs1[n].elems == hs[n].elems
    ensures Copying(h0, WithElem(hs1, n, i, w), src, n, i + 1, d)
  {
    assert SameValue(hs[n], hs1[n]);
    var hs2 := WithElem(hs1, n, i, w);
    forall k: Id | k < n ensures SameValue(h0[k], hs2[k]) {
      assert SameValue(h0[k], hs[k]) && SameValue(hs[k], hs1[k]);
    }
    StillClosed(hs, hs1, n);
    forall j | 0 <= j < i + 1 ensures Copied(h0, hs2, n, d - 1, h0[src].elems[j], hs2[n].elems[j]) {
      if j < i {
        assert hs2[n].elems[j] == hs[n].elems[j];
        CopyKeeps(h0, hs, hs2, n, d - 1, h0[src].elems[j], hs[n].elems[j]);
      } else {
        CopyKeeps(h0, hs1, hs2, n, d - 1, h0[src].elems[j], w);
      }
    }
  }

  lemma StillClosed(hs: Heap, hs1: Heap, n: Id)
    requires Grown(hs, hs1) && n < |hs| && Closed(hs, n + 1, |hs|) && Closed(hs1, |hs|, |hs1|)
    ensures Closed(hs1, n + 1, |hs1|)
  {
    forall k: Id, i: nat | n + 1 <= k < |hs1| && i < |Elems(hs1[k])| && Elems(hs1[k])[i].Direct?
      ensures n + 1 <= Elems(hs1[k])[i].id < |hs1|
    {
      if k < |hs| {
        assert SameValue(hs[k], hs1[k]);
        assert Elems(hs[k])[i] == Elems(hs1[k])[i];
      }
    }
  }

  /** When all elements are copied, the package is. */
  lemma CopyEnds(h0: Heap, hs: Heap, src: Id, n: Id, d: nat)
    requires src < |h0| && h0[src].PkgHead? && Copying(h0, hs, src, n, |h0[src].elems|, d)
    ensures Deep(h0, d, Direct(src)) && Deep(hs, d, Direct(n)) && TreeOf(hs, d, Direct(n)) == TreeOf(h0, d, Direct(src))
    ensures Closed(hs, n, |hs|)
  {
    forall j | 0 <= j < |hs[n].elems|
      ensures Deep(hs, d - 1, hs[n].elems[j]) && TreeOf(hs, d - 1, hs[n].elems[j]) == TreeOf(h0, d - 1, h0[src].elems[j])
    {
      assert Copied(h0, hs, n, d - 1, h0[src].elems[j], hs[n].elems[j]);
    }
  }

  /** A fresh copy put into a cell is still the same tree after other references have gone. */
  lemma CopySettles(mid: Memory, after: Memory, dest: Cell, w: Var, d: nat, base: Id)
    requires Has(mid, dest) && Deep(mid.heads, d, w) && Closed(mid.heads, base, |mid.heads|) && (w.Direct? ==> base <= w.id < |mid.heads|)
    requires dest.Elem? ==> dest.k < base
    requires Survives(Set(mid, dest, w).heads, after.heads) && after.roots == Set(mid, dest, w).roots
    requires Exact(after.heads, RootRefs(after)) && Has(after, dest)
    ensures Get(after, dest) == w && Deep(after.heads, d, w) && TreeOf(after.heads, d, w) == TreeOf(mid.heads, d, w)
  {
    var put := Set(mid, dest, w);
    TreeAgrees(mid.heads, put.heads, base, |mid.heads|, d, w);
    assert Get(after, dest) == w;
    if w.Direct? {
      CellLives(after, dest);
    }
    TreeSurvives(put.heads, after.heads, RootRefs(after), d, w);
  }

  lemma StillHas(m: Memory, mid: Memory, c: Cell)
    requires Has(m, c) && Grown(m.heads, mid.heads) && mid.roots == m.roots
    ensures Has(mid, c) && Get(mid, c) == Get(m, c)
  {
    if c.Elem? {
      assert SameValue(m.heads[c.k], mid.heads[c.k]);
    }
  }

  /** A copy put into one cell changes no other cell that is still there. */
  lemma OtherCells(m: Memory, mid: Memory, after: Memory, dest: Cell, w: Var, c: Cell)
    requires Has(m, dest) && Has(m, c) && c != dest && Grown(m.heads, mid.heads) && mid.roots == m.roots && Has(mid, dest)
    requires Survives(Set(mid, dest, w).heads, after.heads) && after.roots == Set(mid, dest, w).roots
    requires Has(after, c)
    ensures Get(after, c) == Get(m, c)
  {
    StillHas(m, mid, c);
  }

  lemma StaysClosed(mid: Memory, after: Memory, dest: Cell, w: Var, base: Id)
    requires Has(mid, dest) && Closed(mid.heads, base, |mid.heads|) && (dest.Elem? ==> dest.k < base)
    requires Survives(Set(mid, dest, w).heads, after.heads)
    ensures Closed(after.heads, base, |after.heads|)
  {
    forall k: Id, i: nat | base <= k < |after.heads| && i < |Elems(after.heads[k])| && Elems(after.heads[k])[i].Direct?
      ensures base <= Elems(after.heads[k])[i].id < |after.heads|
    {
      assert Elems(mid.heads[k])[i] == Elems(after.heads[k])[i];
    }
  }

  // ---------------------------------------------------------------------- resizing

  lemma {:induction false} RefsPrefix(vs: seq<Var>, ws: seq<Var>, n: nat, id: Id)
    requires n <= |vs| && n <= |ws| && forall i :: 0 <= i < n ==> vs[i] == ws[i]
    ensures RefsTo(vs, n, id) == RefsTo(ws, n, id)
  {
    if n > 0 {
      RefsPrefix(vs, ws, n - 1, id);
    }
  }

  lemma {:induction false} RefsTail(vs: seq<Var>, n: nat, m: nat, id: Id)
    requires n <= m <= |vs| && forall i :: n <= i < m ==> vs[i] == Zero
    ensures RefsTo(vs, m, id) == RefsTo(vs, n, id)
  {
    if n < m {
      RefsTail(vs, n, m - 1, id);
    }
  }

  /** Zero elements may be cut off or added. */
  lemma Refit(hs: Heap, held: multiset<Id>, k: Id, elems: seq<Var>)
    requires Exact(hs, held) && k < |hs| && hs[k].PkgHead?
    requires forall i :: 0 <= i < |elems| && i < |hs[k].elems| ==> elems[i] == hs[k].elems[i]
    requires forall i :: |elems| <= i < |hs[k].elems| ==> hs[k].elems[i] == Zero
    requires forall i :: |hs[k].elems| <= i < |elems| ==> elems[i] == Zero
    ensures Exact(hs[k := hs[k].(elems := elems)], held)
  {
    var hs' := hs[k := hs[k].(elems := elems)];
    var was := hs[k].elems;
    var n := if |elems| < |was| then |elems| else |was|;
    forall x: Id ensures Rc(hs', x) == held[x] + HeapRefs(hs', x) {
      HeapRefsUpdate(hs, |hs|, k, hs'[k], x);
      RefsPrefix(was, elems, n, x);
      RefsTail(was, n, |was|, x);
      RefsTail(elems, n, |elems|, x);
      assert Rc(hs, x) == held[x] + HeapRefs(hs, x);
    }
  }

  // --------------------------------------------------------------------------- leaks

  /** A chain of n references leads from outside the heap to id. */
  ghost predicate Reached(hs: Heap, held: multiset<Id>, id: Id, n: nat)
    decreases n
  {
    if n == 0 then id in held
    else exists k: Id :: k < |hs| && RefsTo(Elems(hs[k]), |Elems(hs[k])|, id) > 0 && Reached(hs, held, k, n - 1)
  }

  /** References go from higher to lower ranks, so there is no cycle. */
  ghost predicate Ranked(hs: Heap, rank: Id -> nat, top: nat) {
    && (forall k: Id :: k < |hs| ==> rank(k) <= top)
    && forall k: Id, id: Id {:trigger RefsTo(Elems(hs[k]), |Elems(hs[k])|, id)} ::
         k < |hs| && RefsTo(Elems(hs[k]), |Elems(hs[k])|, id) > 0 ==> rank(id) < rank(k)
  }

  lemma {:induction false} SomeReferrer(hs: Heap, n: nat, id: Id) returns (k: Id)
    requires n <= |hs| && HeapRefsTo(hs, n, id) > 0
    ensures k < n && RefsTo(Elems(hs[k]), |Elems(hs[k])|, id) > 0
  {
    if RefsTo(Elems(hs[n - 1]), |Elems(hs[n - 1])|, id) > 0 {
      k := n - 1;
    } else {
      k := SomeReferrer(hs, n - 1, id);
    }
  }

  lemma {:induction false} FreeRefersNot(hs: Heap, k: Id, id: Id)
    requires k < |hs| && RefsTo(Elems(hs[k]), |Elems(hs[k])|, id) > 0
    ensures !hs[k].Free?
  {
  }

  /** Without cycles nothing leaks: every head in use can be reached from outside the heap. */
  lemma {:induction false} NothingLeaks(hs: Heap, held: multiset<Id>, rank: Id -> nat, top: nat, id: Id) returns (n: nat)
    requires Exact(hs, held) && NoneLost(hs) && Ranked(hs, rank, top) && id < |hs| && !hs[id].Free?
    ensures Reached(hs, held, id, n)
    decreases top - rank(id)
  {
    assert Rc(hs, id) == held[id] + HeapRefs(hs, id);
    if id in held {
      n := 0;
    } else {
      var k := SomeReferrer(hs, |hs|, id);
      FreeRefersNot(hs, k, id);
      assert rank(id) < rank(k) <= top;
      var steps := NothingLeaks(hs, held, rank, top, k);
      n := steps + 1;
      assert Reached(hs, held, k, n - 1);
    }
  }

  lemma {:induction false} NothingHeld(hs: Heap, id: Id, n: nat)
    ensures !Reached(hs, multiset{}, id, n)
    decreases n
  {
    if n > 0 && Reached(hs, multiset{}, id, n) {
      var k: Id :| k < |hs| && RefsTo(Elems(hs[k]), |Elems(hs[k])|, id) > 0 && Reached(hs, multiset{}, k, n - 1);
      NothingHeld(hs, k, n - 1);
    }
  }

  /** When the last outside reference to acyclic objects goes, all their memory has been given back. */
  lemma AllGivenBack(hs: Heap, rank: Id -> nat, top: nat)
    requires Exact(hs, multiset{}) && NoneLost(hs) && Ranked(hs, rank, top)
    ensures forall id :: 0 <= id < |hs| ==> hs[id].Free?
  {
    forall id: Id | id < |hs| ensures hs[id].Free? {
      if !hs[id].Free? {
        var n := NothingLeaks(hs, multiset{}, rank, top, id);
        NothingHeld(hs, id, n);
      }
    }
  }

  /** Some head of the set refers to id. */
  ghost predicate Referred(hs: Heap, ids: set<Id>, id: Id) {
    exists k: Id :: k in ids && k < |hs| && RefsTo(Elems(hs[k]), |Elems(hs[k])|, id) > 0
  }

  /**
   Packages that refer to each other in a circle, or one that contains itself, keep each other's
   counts up: they stay in use whatever is given up outside, and in the end out of reach.
   */
  lemma CyclesLeak(hs: Heap, held: multiset<Id>, cycle: set<Id>, id: Id, n: nat)
    requires Exact(hs, held) && id in cycle && forall k {:trigger Referred(hs, cycle, k)} :: k in cycle ==> Referred(hs, cycle, k)
    ensures id < |hs| && !hs[id].Free? && hs[id].rc > held[id]
    ensures held == multiset{} ==> !Reached(hs, held, id, n)
  {
    assert Referred(hs, cycle, id);
    var k: Id :| k in cycle && k < |hs| && RefsTo(Elems(hs[k]), |Elems(hs[k])|, id) > 0;
    HeapCounts(hs, |hs|, k, id);
    assert Rc(hs, id) == held[id] + HeapRefs(hs, id);
    NothingHeld(hs, id, n);
  }

  /** Such a heap: a package whose only element is itself. */
  lemma CycleExists()
    ensures var hs := [PkgHead(1, [Direct(0)])];
            Exact(hs, multiset{}) && NoneLost(hs) && Referred(hs, {0}, 0)
  {
    var hs := [PkgHead(1, [Direct(0)])];
    forall x: Id ensures Rc(hs, x) == multiset{}[x] + HeapRefs(hs, x) {
      assert RefsTo([Direct(0)], 1, x) == Hits(Direct(0), x) + RefsTo([Direct(0)], 0, x);
      assert HeapRefsTo(hs, 1, x) == HeapRefsTo(hs, 0, x) + RefsTo(Elems(hs[0]), 1, x);
    }
    assert RefsTo(Elems(hs[0]), |Elems(hs[0])|, 0) > 0;
  }

  // ------------------------------------------------------------------ acyclic heaps

  ghost predicate Acyclic(hs: Heap) {
    exists rank: Id -> nat, top: nat :: Ranked(hs, rank, top)
  }

  /** Giving up a value frees nothing that ranks higher than what the value refers to. */
  lemma {:induction false} HigherStay(hs: Heap, hs': Heap, held: multiset<Id>, v: Var, rank: Id -> nat, top: nat, z: Id)
    requires Exact(hs, held + Target(v)) && Exact(hs', held) && NoneLost(hs) && Survives(hs, hs') && Ranked(hs, rank, top)
    requires z < |hs| && !hs[z].Free? && (v.Direct? || v.Index? ==> rank(v.id) < rank(z))
    ensures !hs'[z].Free?
    decreases top - rank(z)
  {
    assert hs[z].rc > 0;
    TargetHits(held, v, z);
    assert Rc(hs, z) == (held + Target(v))[z] + HeapRefs(hs, z);
    assert Rc(hs', z) == held[z] + HeapRefs(hs', z);
    if held[z] == 0 {
      var k := SomeReferrer(hs, |hs|, z);
      FreeRefersNot(hs, k, z);
      HigherStay(hs, hs', held, v, rank, top, k);
      assert Elems(hs'[k]) == Elems(hs[k]);
      HeapCounts(hs', |hs'|, k, z);
    }
  }

  lemma {:induction false} HeldNone(vs: seq<Var>, n: nat)
    requires n <= |vs| && forall i :: 0 <= i < |vs| ==> vs[i] == Zero
    ensures Held(vs, n) == multiset{}
  {
    if n > 0 {
      HeldNone(vs, n - 1);
    }
  }
}
