/** AML objects as variable.c and object.c handle them, on one heap and a table of variables. */
module Objects {
  import opened ObjectHeap
  import opened HeapLife

  class Store {
    var heads: Heap
    var roots: seq<Var>

    function State(): Memory
      reads this
    {
      Memory(heads, roots)
    }

    /** Every count is exact and no head lingers without a reference. */
    ghost predicate Valid()
      reads this
    {
      Exact(heads, RootRefs(State())) && NoneLost(heads)
    }

    /** A table of zero variables and nothing allocated. */
    constructor (n: nat)
      ensures Valid() && heads == [] && |roots| == n && forall r :: 0 <= r < n ==> roots[r] == Zero
    {
      heads := [];
      roots := seq(n, _ => Zero);
      new;
      HeldNone(roots, n);
    }

    /** lai_var_finalize() behind the switch on the type: a reference that is held is given up. */
    method Finalize(v: Var, ghost held: multiset<Id>)
      requires Exact(heads, held + Target(v))
      modifies `heads
      ensures Exact(heads, held) && Survives(old(heads), heads) && DyingStay(old(heads), heads) && NoneStranded(old(heads), heads)
      ensures SustainedStay(old(heads), heads, held)
      ensures NoneLost(old(heads)) ==> OnlySustainedStay(old(heads), heads, held)
      ensures TotalRc(heads, |heads|) <= old(TotalRc(heads, |heads|))
      decreases TotalRc(heads, |heads|), 1
    {
      if v.Direct? || v.Index? {
        FinalizeHead(v.id, held);
      } else {
        assert held + Target(v) == held;
        Settled(heads, heads, held);
      }
    }

    /** What a finalization that started with nothing lost leaves behind. */
    static lemma Settled(before: Heap, after: Heap, held: multiset<Id>)
      requires Exact(after, held) && Survives(before, after) && NoneStranded(before, after) && SustainedStay(before, after, held)
      ensures NoneLost(before) ==> OnlySustainedStay(before, after, held)
    {
      if NoneLost(before) {
        StillNoneLost(before, after);
        WhatStays(before, after, held);
      }
    }

    method FinalizeHead(id: Id, ghost held: multiset<Id>)
      requires Exact(heads, held + multiset{id})
      modifies `heads
      ensures Exact(heads, held) && Survives(old(heads), heads) && DyingStay(old(heads), heads) && NoneStranded(old(heads), heads)
      ensures SustainedStay(old(heads), heads, held)
      ensures NoneLost(old(heads)) ==> OnlySustainedStay(old(heads), heads, held)
      ensures TotalRc(heads, |heads|) <= old(TotalRc(heads, |heads|))
      ensures id < |old(heads)| && Count(old(heads)[id]) > 0
      ensures Count(old(heads)[id]) > 1 ==> heads == old(heads)[id := WithRc(old(heads)[id], Count(old(heads)[id]) - 1)]
      ensures Count(old(heads)[id]) == 1 ==> heads[id].Free?
      ensures Count(old(heads)[id]) == 1 && !old(heads)[id].PkgHead? ==> heads == old(heads)[id := Free]
      decreases TotalRc(heads, |heads|), 0
    {
      Unref(heads, held + multiset{id}, id);
      assert held + multiset{id} - multiset{id} == held;
      assert heads[id].rc > 0;
      var rc := heads[id].rc - 1;
      TotalRcUpdate(heads, |heads|, id, WithRc(heads[id], rc));
      ghost var h0 := heads;
      heads := heads[id := WithRc(heads[id], rc)];
      ghost var h1 := heads;
      StepSustains(h0, h1, held);
      if rc == 0 {
        FreeHead(id, held);
      }
      SustainedStayTrans(h0, h1, heads, held);
      Settled(h0, heads, held);
    }

    /** A head whose count has fallen to 0 goes with its elements. */
    method FreeHead(id: Id, ghost held: multiset<Id>)
      requires Exact(heads, held) && id < |heads| && !heads[id].Free? && heads[id].rc == 0
      modifies `heads
      ensures Exact(heads, held) && |heads| == |old(heads)| && heads[id].Free?
      ensures Survives(old(heads), heads) && DyingStay(old(heads[id := Free]), heads) && NoneStranded(old(heads), heads) && SustainedStay(old(heads), heads, held)
      ensures !old(heads)[id].PkgHead? ==> heads == old(heads)[id := Free]
      ensures TotalRc(heads, |heads|) <= old(TotalRc(heads, |heads|))
      decreases TotalRc(heads, |heads|), 3
    {
      ghost var h0 := heads;
      if heads[id].PkgHead? {
        FreeElements(id, held);
      }
      ghost var h1 := heads;
      Release(heads, held, id);
      TotalRcUpdate(heads, |heads|, id, Free);
      heads := heads[id := Free];
      StepSustains(h1, heads, held);
      SustainedStayTrans(h0, h1, heads, held);
    }

    /** The loop of laihost_free_package(). */
    method FreeElements(id: Id, ghost held: multiset<Id>)
      requires Exact(heads, held) && id < |heads| && heads[id].PkgHead? && heads[id].rc == 0
      modifies `heads
      ensures Exact(heads, held) && id < |heads| == old(|heads|) && heads[id].PkgHead? && heads[id].rc == 0
      ensures forall i :: 0 <= i < |heads[id].elems| ==> heads[id].elems[i] == Zero
      ensures Survives(old(heads[id := Free]), heads[id := Free]) && DyingStay(old(heads[id := Free]), heads[id := Free])
      ensures NoneStranded(old(heads), heads) && SustainedStay(old(heads), heads, held)
      ensures TotalRc(heads, |heads|) <= old(TotalRc(heads, |heads|))
      decreases TotalRc(heads, |heads|), 2
    {
      var n, i := |heads[id].elems|, 0;
      while i < n
        invariant Exact(heads, held) && id < |heads| == |old(heads)| && heads[id].PkgHead? && heads[id].rc == 0 && |heads[id].elems| == n && i <= n
        invariant forall j :: 0 <= j < i ==> heads[id].elems[j] == Zero
        invariant Survives(old(heads[id := Free]), heads[id := Free]) && DyingStay(old(heads[id := Free]), heads[id := Free])
        invariant NoneStranded(old(heads), heads) && SustainedStay(old(heads), heads, held)
        invariant TotalRc(heads, |heads|) <= old(TotalRc(heads, |heads|))
      {
        var v := heads[id].elems[i];
        ghost var h0 := heads;
        TakeElem(heads, held, id, i);
        TotalRcUpdate(heads, |heads|, id, heads[id].(elems := heads[id].elems[i := Zero]));
        heads := WithElem(heads, id, i, Zero);
        ghost var h1 := heads;
        Finalize(v, held);
        assert heads[id] == h1[id];
        assert h1[id := Free] == h0[id := Free];
        SurvivesTrans(old(heads[id := Free]), h0[id := Free], heads[id := Free]);
        DyingStayTrans(old(heads[id := Free]), h0[id := Free], heads[id := Free]);
        ElementLeaves(h0, id, i, held);
        SustainedStayTrans(h0, h1, heads, held);
        SustainedStayTrans(old(heads), h0, heads, held);
        i := i + 1;
      }
    }

    /** lai_swap_object() with a temporary: the new value goes in, the old one comes out. */
    method Swap(c: Cell, v: Var) returns (was: Var)
      requires Has(State(), c) && Exact(heads, RootRefs(State()) + Target(v))
      modifies this
      ensures was == old(Get(State(), c)) && State() == old(Set(State(), c, v))
      ensures Exact(heads, RootRefs(State()) + Target(was))
    {
      SwapBalances(State(), c, v);
      match c
      case Root(r) =>
        was := roots[r];
        roots := roots[r := v];
      case Elem(k, i) =>
        was := heads[k].elems[i];
        heads := WithElem(heads, k, i, v);
    }

    /** A temporary changes places with a cell, and what comes out is finalized. */
    method Replace(c: Cell, v: Var)
      requires Has(State(), c) && Exact(heads, RootRefs(State()) + Target(v)) && NoneLost(heads)
      modifies this
      ensures Valid() && roots == old(Set(State(), c, v)).roots
      ensures Survives(old(Set(State(), c, v)).heads, heads)
      ensures OnlySustainedStay(old(Set(State(), c, v)).heads, heads, RootRefs(State()))
    {
      var temp := Swap(c, v);
      ghost var before := heads;
      SwapLosesNone(old(State()), c, v);
      Finalize(temp, RootRefs(State()));
      StillNoneLost(before, heads);
    }

    static lemma SwapLosesNone(m: Memory, c: Cell, v: Var)
      requires Has(m, c) && NoneLost(m.heads)
      ensures NoneLost(Set(m, c, v).heads)
    {
    }

    /**
     lai_var_finalize() on a cell: its reference is given up and it is zero. The source clears
     the cell last, which is the same unless the package around the cell goes too: then
     freeing it meets the cell again, whose count has fallen to 0 already, and the assertion
     on counts fails.
     */
    method FinalizeCell(c: Cell) returns (ok: bool)
      requires Valid() && Has(State(), c)
      modifies this
      ensures Valid() && roots == old(Set(State(), c, Zero)).roots
      ensures Survives(old(Set(State(), c, Zero)).heads, heads)
      ensures OnlySustainedStay(old(Set(State(), c, Zero)).heads, heads, RootRefs(State()))
      ensures ok <==> !old(MeetsItself(State(), c))
      ensures ok ==> Has(State(), c) && Get(State(), c) == Zero
      ensures c.Root? || old(Acyclic(heads)) ==> ok
    {
      ghost var m := State();
      assert RootRefs(m) + Target(Zero) == RootRefs(m);
      Replace(c, Zero);
      ok := !(c.Elem? && heads[c.k].Free?);
      if c.Elem? {
        assert Set(m, c, Zero).heads == WithElem(m.heads, c.k, c.i, Zero);
        assert RootRefs(State()) == RootRefs(m);
        assert heads[c.k].Free? <==> !Lasts(WithElem(m.heads, c.k, c.i, Zero), RootRefs(m), c.k);
      }
      if MeetsItself(m, c) {
        MeetsItselfOnlyInCycles(m, c);
      }
    }

    static lemma StillNoneLost(before: Heap, after: Heap)
      requires NoneLost(before) && NoneStranded(before, after) && Survives(before, after)
      ensures NoneLost(after)
    {
      forall k: Id | k < |after| && !after[k].Free? ensures after[k].rc > 0 {
        assert before[k].rc > 0;
      }
    }

    /** lai_var_move() */
    method Move(dest: Cell, src: Cell)
      requires Valid() && Has(State(), dest) && Has(State(), src)
      modifies this
      ensures Valid() && roots == old(Moved(State(), dest, src)).roots
      ensures Survives(old(Moved(State(), dest, src)).heads, heads)
      ensures OnlySustainedStay(old(Moved(State(), dest, src)).heads, heads, RootRefs(State()))
    {
      assert RootRefs(State()) + Target(Zero) == RootRefs(State());
      var temp := Swap(src, Zero);
      Replace(dest, temp);
    }

    /** A shallow copy of a variable; the switch in lai_var_assign() counts the new reference. */
    method Share(v: Var, ghost held: multiset<Id>)
      requires Exact(heads, held) && (v.Direct? || v.Index? ==> Rc(heads, v.id) > 0)
      modifies `heads
      ensures heads == Counted(old(heads), v) && Exact(heads, held + Target(v))
    {
      if v.Direct? || v.Index? {
        Ref(heads, held, v.id);
        heads := heads[v.id := WithRc(heads[v.id], heads[v.id].rc + 1)];
      } else {
        assert held + Target(v) == held;
      }
    }

    /** lai_var_assign(); with an element as one of the cells also a load from or store to a package. */
    method Assign(dest: Cell, src: Cell)
      requires Valid() && Has(State(), dest) && Has(State(), src)
      modifies this
      ensures Valid() && roots == old(Assigned(State(), dest, src)).roots
      ensures Survives(old(Assigned(State(), dest, src)).heads, heads)
      ensures OnlySustainedStay(old(Assigned(State(), dest, src)).heads, heads, RootRefs(State()))
    {
      var temp := Get(State(), src);
      if temp.Direct? || temp.Index? {
        CellLives(State(), src);
      }
      Share(temp, RootRefs(State()));
      Replace(dest, temp);
    }

    /** lai_create_string(), lai_create_buffer(), lai_create_pkg(): a new head, held by a temporary. */
    method Create(h: Head, ghost held: multiset<Id>) returns (id: Id)
      requires Exact(heads, held) && NoneLost(heads) && !h.Free? && h.rc == 1
      requires forall i :: 0 <= i < |Elems(h)| ==> Elems(h)[i] == Zero
      modifies `heads
      ensures id == |old(heads)| && heads == old(heads) + [h] && Exact(heads, held + multiset{id}) && NoneLost(heads)
    {
      Alloc(heads, held, h);
      id := |heads|;
      heads := heads + [h];
    }

    /** The copy that lai_obj_clone() makes before it looks at the destination. */
    method CloneValue(v: Var, ghost d: nat, ghost held: multiset<Id>) returns (w: Var)
      requires Exact(heads, held) && NoneLost(heads) && Deep(heads, d, v) && (v.Direct? || v.Index? ==> Rc(heads, v.id) > 0)
      modifies `heads
      ensures Exact(heads, held + Target(w)) && NoneLost(heads) && Grown(old(heads), heads)
      ensures Closed(heads, |old(heads)|, |heads|) && (w.Direct? ==> |old(heads)| <= w.id < |heads|)
      ensures Deep(heads, d, w) && TreeOf(heads, d, w) == old(TreeOf(heads, d, v))
      decreases d, 2
    {
      if v.Direct? {
        match heads[v.id]
        case StringHead(_, text) =>
          var id := Create(StringHead(1, text), held);
          w := Direct(id);
        case BufferHead(_, bytes) =>
          var id := Create(BufferHead(1, bytes), held);
          w := Direct(id);
        case PkgHead(_, _) => w := ClonePackage(v.id, d, held);
      } else {
        Share(v, held);
        w := v;
      }
    }

    /** lai_clone_package() */
    method ClonePackage(src: Id, ghost d: nat, ghost held: multiset<Id>) returns (w: Var)
      requires Exact(heads, held) && NoneLost(heads) && Deep(heads, d, Direct(src)) && heads[src].PkgHead?
      modifies `heads
      ensures Exact(heads, held + Target(w)) && NoneLost(heads) && Grown(old(heads), heads)
      ensures Closed(heads, |old(heads)|, |heads|) && w == Direct(|old(heads)|) && w.id < |heads|
      ensures Deep(heads, d, w) && TreeOf(heads, d, w) == old(TreeOf(heads, d, Direct(src)))
      decreases d, 1
    {
      ExactCloses(heads, held);
      ghost var before := heads;
      var id := Create(PkgHead(1, seq(|heads[src].elems|, _ => Zero)), held);
      ghost var h0 := heads;
      TreeAgrees(before, h0, 0, |before|, d, Direct(src));
      CopyStarts(before, h0, src, d);
      CopyElements(src, id, d, held + multiset{id});
      CopyEnds(h0, heads, src, id, d);
      w := Direct(id);
    }

    /** The loop of lai_clone_package(); the elements of the new package are zero until then. */
    method CopyElements(src: Id, n: Id, ghost d: nat, ghost held: multiset<Id>)
      requires Exact(heads, held) && NoneLost(heads) && Copying(heads, heads, src, n, 0, d)
      modifies `heads
      ensures Exact(heads, held) && NoneLost(heads) && Agree(old(heads), heads, 0, n) && |old(heads)| <= |heads|
      ensures Copying(old(heads), heads, src, n, |old(heads[src].elems)|, d)
      decreases d, 0
    {
      var size := |heads[src].elems|;
      var i := 0;
      while i < size
        invariant i <= size == |old(heads[src].elems)| && Exact(heads, held) && NoneLost(heads)
        invariant Copying(old(heads), heads, src, n, i, d)
      {
        ghost var h0, hs := old(heads), heads;
        NextSource(h0, hs, src, n, i, d);
        var v := heads[src].elems[i];
        if v.Direct? || v.Index? {
          ElemLives(heads, held, src, i);
        }
        var temp := CloneValue(v, d - 1, held);
        CopyOn(h0, hs, heads, src, n, i, d, temp);
        PutElem(heads, held, n, i, temp);
        heads := WithElem(heads, n, i, temp);
        i := i + 1;
      }
    }

    /**
     lai_obj_clone(): the destination gets a value w of its own with the same structure. The heap
     has grown by the copy before that, and has lost what only the old value kept.
     */
    method Clone(dest: Cell, src: Cell, ghost d: nat) returns (ghost grown: Heap, ghost w: Var)
      requires Valid() && Has(State(), dest) && Has(State(), src) && Deep(heads, d, Get(State(), src))
      modifies this
      ensures Valid()
      ensures Grown(old(heads), grown) && Has(Memory(grown, old(roots)), dest)
      ensures roots == Set(Memory(grown, old(roots)), dest, w).roots && Survives(Set(Memory(grown, old(roots)), dest, w).heads, heads)
      ensures OnlySustainedStay(Set(Memory(grown, old(roots)), dest, w).heads, heads, RootRefs(State()))
      ensures dest.Root? ==> Has(State(), dest)
      ensures forall c {:trigger Has(State(), c)} :: Has(State(), c) && old(Has(State(), c)) && c != dest ==> Get(State(), c) == old(Get(State(), c))
      ensures Has(State(), dest) ==>
                && Get(State(), dest) == w && Deep(heads, d, w) && TreeOf(heads, d, w) == old(TreeOf(heads, d, Get(State(), src)))
      ensures w.Direct? ==> |old(heads)| <= w.id < |grown|
      ensures Closed(heads, |old(heads)|, |heads|)
    {
      var v := Get(State(), src);
      if v.Direct? || v.Index? {
        CellLives(State(), src);
      }
      ghost var base := |heads|;
      var temp := CloneValue(v, d, RootRefs(State()));
      ghost var mid := State();
      StillHas(old(State()), mid, dest);
      grown, w := heads, temp;
      Replace(dest, temp);
      StaysClosed(mid, State(), dest, temp, base);
      forall c | Has(State(), c) && old(Has(State(), c)) && c != dest ensures Get(State(), c) == old(Get(State(), c)) {
        OtherCells(old(State()), mid, State(), dest, temp, c);
      }
      if Has(State(), dest) {
        CopySettles(mid, State(), dest, temp, d, base);
      }
    }

    /** Cell c still holds the package k: what the source relies on while it works through the pointer to c. */
    predicate Keeps(c: Cell, k: Id)
      reads this
    {
      Has(State(), c) && Get(State(), c) == Direct(k)
    }

    /**
     lai_obj_resize_pkg(). Giving up elements can free the cell that the call was made with, or the
     call can move or clear that very cell, if the package contains itself in some way; the source
     then goes on through a pointer to nothing, or fails its assertion on counts. LosesCell says
     exactly when, from the heap before the call: never for a variable outside the heap, nor in a
     heap without cycles.
     */
    method ResizePkg(c: Cell, n: nat) returns (r: ResizeResult)
      requires Valid() && Has(State(), c)
      modifies `heads
      ensures Valid() && |heads| == |old(heads)|
      ensures r == TypeMismatch <==> !old(IsPackage(heads, Get(State(), c)))
      ensures r == TypeMismatch ==> heads == old(heads)
      ensures r == CellLost <==> old(LosesCell(State(), c, n))
      ensures r == CellLost ==> c.Elem? && !old(Acyclic(heads))
      ensures r == Resized ==>
                var k := old(Get(State(), c)).id;
                && Keeps(c, k) && k < |heads| && SurvivesBeside(old(heads), heads, k)
                && HasSize(old(heads)[k], heads[k], n)
    {
      var v := Get(State(), c);
      if v.Direct? {
        CellLives(State(), c);
      }
      if !IsPackage(heads, v) {
        return TypeMismatch;
      }
      if LosesCell(State(), c, n) {
        LosesOnlyInCycles(State(), c, n);
      }
      var k := v.id;
      if n <= |heads[k].elems| {
        var lost := Truncate(c, k, n);
        return if lost then CellLost else Resized;
      }
      if c.Elem? && c.k == k {
        return CellLost;
      }
      Extend(c, k, n);
      r := Resized;
    }

    /** The elements behind the first n are given up. */
    method Truncate(c: Cell, k: Id, n: nat) returns (lost: bool)
      requires Valid() && Keeps(c, k) && k < |heads| && heads[k].PkgHead? && n <= |heads[k].elems|
      modifies `heads
      ensures Valid() && |heads| == |old(heads)|
      ensures lost <==> old(LosesCell(State(), c, n))
      ensures !lost ==> Keeps(c, k) && SurvivesBeside(old(heads), heads, k) && HasSize(old(heads)[k], heads[k], n)
    {
      lost := ClearElements(c, k, n);
      if !lost {
        ghost var h1 := heads;
        CutOff(c, k, n);
        assert heads[k := Free] == h1[k := Free];
      }
    }

    /** The elements behind the first n, zero by now, are cut off. */
    method CutOff(c: Cell, k: Id, n: nat)
      requires Valid() && Keeps(c, k) && k < |heads| && heads[k].PkgHead? && n <= |heads[k].elems| && (c.Elem? && c.k == k ==> c.i < n)
      requires forall j :: n <= j < |heads[k].elems| ==> heads[k].elems[j] == Zero
      modifies `heads
      ensures Valid() && Keeps(c, k) && heads == old(heads)[k := old(heads)[k].(elems := old(heads)[k].elems[..n])]
    {
      Refit(heads, RootRefs(State()), k, heads[k].elems[..n]);
      heads := heads[k := heads[k].(elems := heads[k].elems[..n])];
    }

    /** Zero elements are put behind those that are there. */
    method Extend(c: Cell, k: Id, n: nat)
      requires Valid() && Keeps(c, k) && k < |heads| && heads[k].PkgHead? && n > |heads[k].elems| && !(c.Elem? && c.k == k)
      modifies `heads
      ensures Valid() && Keeps(c, k)
      ensures heads == old(heads)[k := old(heads)[k].(elems := old(heads)[k].elems + seq(n - |old(heads)[k].elems|, _ => Zero))]
    {
      var elems := heads[k].elems + seq(n - |heads[k].elems|, _ => Zero);
      Refit(heads, RootRefs(State()), k, elems);
      heads := heads[k := heads[k].(elems := elems)];
    }

    /** The elements from n on are finalized. */
    method ClearElements(c: Cell, k: Id, n: nat) returns (lost: bool)
      requires Valid() && Keeps(c, k) && k < |heads| && heads[k].PkgHead? && n <= |heads[k].elems|
      modifies `heads
      ensures Valid() && |heads| == |old(heads)|
      ensures lost <==> old(LosesCell(State(), c, n))
      ensures !lost ==> Keeps(c, k) && SurvivesBeside(old(heads), heads, k) && Cleared(old(heads)[k], heads[k], n, |old(heads)[k].elems|)
      ensures !lost && c.Elem? && c.k == k ==> c.i < n
    {
      ghost var h, held, cut := heads[k], RootRefs(State()), Cut(heads, k, n);
      var i := n;
      while i < |heads[k].elems|
        invariant Valid() && Keeps(c, k) && |heads| == |old(heads)| && n <= i <= |h.elems| && Cleared(h, heads[k], n, i)
        invariant SurvivesBeside(old(heads), heads, k) && SustainedStay(cut, Cut(heads, k, n), held)
        invariant c.Elem? && c.k == k ==> !(n <= c.i < i)
        decreases |h.elems| - i
      {
        ghost var h0 := heads;
        lost := ClearOne(c, k, n, i, h);
        if lost {
          if c.Elem? && Lasts(cut, held, c.k) {
            LastsThrough(cut, Cut(h0, k, n), held, c.k);
          }
          return;
        }
        SurvivesTrans(old(heads)[k := Free], h0[k := Free], heads[k := Free]);
        SustainedStayTrans(cut, Cut(h0, k, n), Cut(heads, k, n), held);
        i := i + 1;
      }
      if c.Elem? {
        CutEnds(old(heads), heads, k, n, held, c.k);
      }
      lost := false;
    }

    static lemma LastsThrough(before: Heap, after: Heap, held: multiset<Id>, z: Id)
      requires Lasts(before, held, z) && SustainedStay(before, after, held)
      ensures Lasts(after, held, z)
    {
      var ids: set<Id> :| z in ids && Sustained(before, held, ids);
      assert Sustained(after, held, ids);
    }

    /** One round of the loop: element i goes, and the cell may go with it. */
    method ClearOne(c: Cell, k: Id, n: nat, i: nat, ghost h: Head) returns (lost: bool)
      requires Valid() && Keeps(c, k) && k < |heads| && h.PkgHead? && n <= i < |h.elems| && Cleared(h, heads[k], n, i)
      modifies `heads
      ensures Valid() && |heads| == |old(heads)|
      ensures lost ==> c.Elem? && ((c.k == k && c.i == i) || !Lasts(old(Cut(heads, k, n)), RootRefs(State()), c.k))
      ensures !lost ==> Keeps(c, k) && SurvivesBeside(old(heads), heads, k) && Cleared(h, heads[k], n, i + 1)
      ensures !lost ==> SustainedStay(old(Cut(heads, k, n)), Cut(heads, k, n), RootRefs(State()))
      ensures !lost ==> !(c.Elem? && c.k == k && c.i == i)
    {
      ghost var h0, held := heads, RootRefs(State());
      ClearElement(k, i);
      lost := !Keeps(c, k);
      if !lost {
        CellLives(State(), c);
        CutStays(h0, heads, k, n, i, held);
      } else {
        CellGone(Memory(h0, roots), State(), c, k, n, i);
      }
    }

    /** A cell that does not hold the package any more was the element itself, or lay in a package that the cut heap does not sustain. */
    static lemma CellGone(m: Memory, m': Memory, c: Cell, k: Id, n: nat, i: nat)
      requires Has(m, c) && Get(m, c) == Direct(k) && k < |m.heads| && m.heads[k].PkgHead? && n <= i < |m.heads[k].elems| && m'.roots == m.roots
      requires Survives(WithElem(m.heads, k, i, Zero), m'.heads) && SustainedStay(WithElem(m.heads, k, i, Zero), m'.heads, RootRefs(m))
      requires !(Has(m', c) && Get(m', c) == Direct(k))
      ensures c.Elem? && ((c.k == k && c.i == i) || !Lasts(Cut(m.heads, k, n), RootRefs(m), c.k))
    {
      if c.Elem? && !(c.k == k && c.i == i) {
        assert WithElem(m.heads, k, i, Zero)[c.k].elems[c.i] == Direct(k);
        assert m'.heads[c.k].Free?;
        CutLasts(m.heads, m'.heads, k, n, i, RootRefs(m), c.k);
      }
    }

    /** A head that the cut heap sustains is still there. */
    static lemma CutLasts(h0: Heap, h1: Heap, k: Id, n: nat, i: nat, held: multiset<Id>, z: Id)
      requires k < |h0| && h0[k].PkgHead? && n <= i < |h0[k].elems| && SustainedStay(WithElem(h0, k, i, Zero), h1, held)
      ensures Lasts(Cut(h0, k, n), held, z) ==> z < |h1| && !h1[z].Free?
    {
      if Lasts(Cut(h0, k, n), held, z) {
        var ids: set<Id> :| z in ids && Sustained(Cut(h0, k, n), held, ids);
        var mid := WithElem(h0, k, i, Zero);
        assert mid[k].elems[..n] == h0[k].elems[..n];
        assert Cut(mid, k, n) == Cut(h0, k, n);
        CutSustains(mid, k, n, held, ids);
        assert Sustained(h1, held, ids);
      }
    }

    /** One element is finalized. */
    method ClearElement(k: Id, i: nat)
      requires Valid() && k < |heads| && heads[k].PkgHead? && i < |heads[k].elems|
      modifies `heads
      ensures Valid() && Survives(WithElem(old(heads), k, i, Zero), heads)
      ensures Exact(WithElem(old(heads), k, i, Zero), RootRefs(State()) + Target(old(heads)[k].elems[i]))
      ensures SustainedStay(WithElem(old(heads), k, i, Zero), heads, RootRefs(State()))
    {
      var v := heads[k].elems[i];
      TakeElem(heads, RootRefs(State()), k, i);
      heads := WithElem(heads, k, i, Zero);
      ghost var h1 := heads;
      Finalize(v, RootRefs(State()));
      StillNoneLost(h1, heads);
    }
  }

  /** LAI_ERROR_NONE, LAI_ERROR_TYPE_MISMATCH, or the cell has gone under the call. */
  datatype ResizeResult = Resized | TypeMismatch | CellLost

  predicate IsPackage(hs: Heap, v: Var) {
    v.Direct? && v.id < |hs| && hs[v.id].PkgHead?
  }

  /** Heads other than k have lost references or have been freed; nothing else. */
  ghost predicate SurvivesBeside(before: Heap, after: Heap, k: Id)
    requires k < |before| && |after| == |before|
  {
    Survives(before[k := Free], after[k := Free])
  }

  /** The package has n elements: those it had, then zeros. */
  predicate HasSize(was: Head, h: Head, n: nat)
    requires was.PkgHead?
  {
    && h.PkgHead? && |h.elems| == n
    && forall i :: 0 <= i < n ==> h.elems[i] == if i < |was.elems| then was.elems[i] else Zero
  }

  /** The elements from n to i have become zero, the others have stayed. */
  predicate Cleared(was: Head, h: Head, n: nat, i: nat)
    requires was.PkgHead?
  {
    h.PkgHead? && |h.elems| == |was.elems| && forall j :: 0 <= j < |was.elems| ==> h.elems[j] == if n <= j < i then Zero else was.elems[j]
  }

  /** The heap with one more reference to what v refers to. */
  function Counted(hs: Heap, v: Var): Heap {
    if (v.Direct? || v.Index?) && v.id < |hs| && !hs[v.id].Free? then hs[v.id := WithRc(hs[v.id], hs[v.id].rc + 1)] else hs
  }

  /** lai_var_assign() before the finalization of what the destination held. */
  function Assigned(m: Memory, dest: Cell, src: Cell): Memory
    requires Has(m, dest) && Has(m, src)
  {
    Set(Memory(Counted(m.heads, Get(m, src)), m.roots), dest, Get(m, src))
  }

  /** An assignment makes two cells equal and touches no other cell. */
  lemma AssignedCells(m: Memory, dest: Cell, src: Cell, c: Cell)
    requires Has(m, dest) && Has(m, src)
    ensures Has(Assigned(m, dest, src), c) <==> Has(m, c)
    ensures Has(m, c) ==> Get(Assigned(m, dest, src), c) == if c == dest then Get(m, src) else Get(m, c)
  {
  }

  /** What cells hold after finalization: the cells of heads that are not freed stay as they were. */
  lemma CellsSurvive(m: Memory, m': Memory, c: Cell)
    requires Survives(m.heads, m'.heads) && m.roots == m'.roots && Has(m, c)
    ensures c.Root? ==> Has(m', c) && Get(m', c) == Get(m, c)
    ensures c.Elem? && !m'.heads[c.k].Free? ==> Has(m', c) && Get(m', c) == Get(m, c)
  {
  }
}
