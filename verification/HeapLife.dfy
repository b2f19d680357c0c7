/** Which heads stay when a reference is given up, cycles included, and when a resize loses the very cell it works through. */
module HeapLife {
  import opened ObjectHeap

  /** Every head of the set is in use, and held from outside the heap or referred to from within the set. */
  ghost predicate Sustained(hs: Heap, held: multiset<Id>, ids: set<Id>) {
    forall x: Id {:trigger x in ids} :: x in ids ==> x < |hs| && Count(hs[x]) > 0 && (x in held || Referred(hs, ids, x))
  }

  /** The head lies in such a set. */
  ghost predicate Lasts(hs: Heap, held: multiset<Id>, z: Id) {
    exists ids: set<Id> :: z in ids && Sustained(hs, held, ids)
  }

  ghost predicate SustainedStay(before: Heap, after: Heap, held: multiset<Id>) {
    forall ids: set<Id> {:trigger Sustained(before, held, ids)} :: Sustained(before, held, ids) ==> Sustained(after, held, ids)
  }

  /** The heads that are still in use are exactly those that the outside references sustain. */
  ghost predicate OnlySustainedStay(before: Heap, after: Heap, held: multiset<Id>) {
    |after| == |before| && forall z: Id {:trigger after[z]} {:trigger Lasts(before, held, z)} :: z < |before| ==> (!after[z].Free? <==> Lasts(before, held, z))
  }

  lemma SustainedStayTrans(a: Heap, b: Heap, c: Heap, held: multiset<Id>)
    requires SustainedStay(a, b, held) && SustainedStay(b, c, held)
    ensures SustainedStay(a, c, held)
  {
    forall ids: set<Id> | Sustained(a, held, ids) ensures Sustained(c, held, ids) {
      assert Sustained(b, held, ids);
    }
  }

  lemma StillReferred(hs: Heap, hs': Heap, ids: set<Id>, x: Id)
    requires Referred(hs, ids, x) && forall y: Id {:trigger y in ids} :: y in ids && y < |hs| ==> y < |hs'| && Elems(hs'[y]) == Elems(hs[y])
    ensures Referred(hs', ids, x)
  {
    var k: Id :| k in ids && k < |hs| && RefsTo(Elems(hs[k]), |Elems(hs[k])|, x) > 0;
    assert RefsTo(Elems(hs'[k]), |Elems(hs'[k])|, x) > 0;
  }

  lemma ReferredCounts(hs: Heap, held: multiset<Id>, ids: set<Id>, x: Id)
    requires Exact(hs, held) && (x in held || Referred(hs, ids, x))
    ensures Rc(hs, x) > 0
  {
    assert Rc(hs, x) == held[x] + HeapRefs(hs, x);
    if x !in held {
      var k: Id :| k in ids && k < |hs| && RefsTo(Elems(hs[k]), |Elems(hs[k])|, x) > 0;
      HeapCounts(hs, |hs|, k, x);
    }
  }

  /** A set stays sustained while the elements of its heads stay and the counts are exact. */
  lemma SustainedOn(hs: Heap, hs': Heap, held: multiset<Id>, ids: set<Id>)
    requires Sustained(hs, held, ids) && Exact(hs', held)
    requires forall y: Id {:trigger y in ids} :: y in ids ==> y < |hs'| && Elems(hs'[y]) == Elems(hs[y])
    ensures Sustained(hs', held, ids)
  {
    forall x: Id | x in ids ensures x < |hs'| && Count(hs'[x]) > 0 && (x in held || Referred(hs', ids, x)) {
      if x !in held {
        StillReferred(hs, hs', ids, x);
      }
      ReferredCounts(hs', held, ids, x);
    }
  }

  /** A step that touches counts alone, or heads with count 0, keeps what is sustained. */
  lemma StepSustains(hs: Heap, hs': Heap, held: multiset<Id>)
    requires Exact(hs', held) && |hs'| == |hs|
    requires forall y: Id {:trigger hs'[y]} :: y < |hs| && Count(hs[y]) > 0 ==> Elems(hs'[y]) == Elems(hs[y])
    ensures SustainedStay(hs, hs', held)
  {
    forall ids: set<Id> | Sustained(hs, held, ids) ensures Sustained(hs', held, ids) {
      SustainedOn(hs, hs', held, ids);
    }
  }

  /** An element of a head with count 0 sustains nothing. */
  lemma ElementLeaves(hs: Heap, k: Id, i: nat, held: multiset<Id>)
    requires k < |hs| && hs[k].PkgHead? && i < |hs[k].elems| && Count(hs[k]) == 0
    ensures SustainedStay(hs, WithElem(hs, k, i, Zero), held)
  {
    var hs' := WithElem(hs, k, i, Zero);
    forall ids: set<Id> | Sustained(hs, held, ids) ensures Sustained(hs', held, ids) {
      assert k !in ids;
      forall x: Id | x in ids ensures x < |hs'| && Count(hs'[x]) > 0 && (x in held || Referred(hs', ids, x)) {
        if x !in held {
          StillReferred(hs, hs', ids, x);
        }
      }
    }
  }

  function Alive(hs: Heap): set<Id> {
    set x: Id | x < |hs| && !hs[x].Free?
  }

  /** With exact counts and nothing lost, all heads in use sustain each other. */
  lemma AliveSustained(hs: Heap, held: multiset<Id>)
    requires Exact(hs, held) && NoneLost(hs)
    ensures Sustained(hs, held, Alive(hs))
  {
    forall x: Id | x in Alive(hs) ensures Count(hs[x]) > 0 && (x in held || Referred(hs, Alive(hs), x)) {
      assert Rc(hs, x) == held[x] + HeapRefs(hs, x);
      if x !in held {
        var k := SomeReferrer(hs, |hs|, x);
        FreeRefersNot(hs, k, x);
        assert k in Alive(hs);
      }
    }
  }

  /** Once counts are exact again, what is left is exactly what was sustained. */
  lemma WhatStays(before: Heap, after: Heap, held: multiset<Id>)
    requires Exact(after, held) && NoneLost(after) && Survives(before, after) && SustainedStay(before, after, held)
    ensures OnlySustainedStay(before, after, held)
  {
    AliveSustained(after, held);
    var alive := Alive(after);
    assert Sustained(before, held, alive) by {
      forall x: Id | x in alive ensures x < |before| && Count(before[x]) > 0 && (x in held || Referred(before, alive, x)) {
        assert after[x] == before[x].(rc := after[x].rc);
        if x !in held {
          assert forall y: Id {:trigger y in alive} :: y in alive ==> Elems(before[y]) == Elems(after[y]);
          StillReferred(after, before, alive, x);
        }
      }
    }
    forall z: Id | z < |before| ensures !after[z].Free? <==> Lasts(before, held, z) {
      if !after[z].Free? {
        assert z in alive;
      }
      if Lasts(before, held, z) {
        var ids: set<Id> :| z in ids && Sustained(before, held, ids);
        assert Sustained(after, held, ids);
      }
    }
  }

  // ------------------------------------------------------------------- cutting a package

  /** The heap with the elements of package k from n on cut off. */
  function Cut(hs: Heap, k: Id, n: nat): Heap
    requires k < |hs| && hs[k].PkgHead? && n <= |hs[k].elems|
  {
    hs[k := hs[k].(elems := hs[k].elems[..n])]
  }

  lemma {:induction false} RefsGrow(vs: seq<Var>, n: nat, m: nat, id: Id)
    requires n <= m <= |vs|
    ensures RefsTo(vs[..n], n, id) <= RefsTo(vs, m, id)
    decreases m
  {
    if n < m {
      RefsGrow(vs, n, m - 1, id);
    } else {
      RefsPrefix(vs[..n], vs, n, id);
    }
  }

  /** What the cut heap sustains, the whole one does. */
  lemma CutSustains(hs: Heap, k: Id, n: nat, held: multiset<Id>, ids: set<Id>)
    requires k < |hs| && hs[k].PkgHead? && n <= |hs[k].elems| && Sustained(Cut(hs, k, n), held, ids)
    ensures Sustained(hs, held, ids)
  {
    var cut := Cut(hs, k, n);
    forall x: Id | x in ids ensures x < |hs| && Count(hs[x]) > 0 && (x in held || Referred(hs, ids, x)) {
      if x !in held {
        var y: Id :| y in ids && y < |cut| && RefsTo(Elems(cut[y]), |Elems(cut[y])|, x) > 0;
        if y == k {
          RefsGrow(hs[k].elems, n, |hs[k].elems|, x);
        }
        assert RefsTo(Elems(hs[y]), |Elems(hs[y])|, x) > 0;
      }
    }
  }

  /** Giving up one of the elements that are cut off takes nothing from what the cut heap sustains. */
  lemma CutStays(h0: Heap, h1: Heap, k: Id, n: nat, i: nat, held: multiset<Id>)
    requires k < |h0| && h0[k].PkgHead? && n <= i < |h0[k].elems| && Exact(WithElem(h0, k, i, Zero), held + Target(h0[k].elems[i]))
    requires Survives(WithElem(h0, k, i, Zero), h1) && SustainedStay(WithElem(h0, k, i, Zero), h1, held) && h1[k].PkgHead?
    ensures SustainedStay(Cut(h0, k, n), Cut(h1, k, n), held)
  {
    var mid := WithElem(h0, k, i, Zero);
    assert Cut(mid, k, n) == Cut(h0, k, n) by {
      assert mid[k].elems[..n] == h0[k].elems[..n];
    }
    forall ids: set<Id> | Sustained(Cut(h0, k, n), held, ids) ensures Sustained(Cut(h1, k, n), held, ids) {
      CutSustains(mid, k, n, held, ids);
      assert Sustained(h1, held, ids);
      CutOn(mid, h1, k, n, held, ids);
    }
  }

  lemma CutOn(mid: Heap, h1: Heap, k: Id, n: nat, held: multiset<Id>, ids: set<Id>)
    requires k < |mid| && mid[k].PkgHead? && n <= |mid[k].elems| && Survives(mid, h1) && h1[k].PkgHead?
    requires Sustained(Cut(mid, k, n), held, ids) && Sustained(h1, held, ids)
    ensures Sustained(Cut(h1, k, n), held, ids)
  {
    var a, b := Cut(mid, k, n), Cut(h1, k, n);
    forall y: Id | y in ids ensures y < |b| && Elems(b[y]) == Elems(a[y]) {
      assert h1[y] == mid[y].(rc := h1[y].rc);
    }
    forall x: Id | x in ids ensures x < |b| && Count(b[x]) > 0 && (x in held || Referred(b, ids, x)) {
      if x !in held {
        StillReferred(a, b, ids, x);
      }
    }
  }

  /** When all the elements that are cut off are zero, the heads still in use are what the cut heap of old sustains. */
  lemma CutEnds(h0: Heap, h1: Heap, k: Id, n: nat, held: multiset<Id>, z: Id)
    requires k < |h0| && h0[k].PkgHead? && n <= |h0[k].elems| && |h1| == |h0| && Exact(h1, held) && NoneLost(h1)
    requires Survives(h0[k := Free], h1[k := Free]) && h1[k].PkgHead? && |h1[k].elems| == |h0[k].elems| && NoneLost(h0)
    requires forall j :: 0 <= j < |h0[k].elems| ==> h1[k].elems[j] == if j < n then h0[k].elems[j] else Zero
    requires z < |h1| && !h1[z].Free?
    ensures Lasts(Cut(h0, k, n), held, z)
  {
    var cut, alive := Cut(h0, k, n), Alive(h1);
    AliveSustained(h1, held);
    assert Sustained(cut, held, alive) by {
      forall x: Id | x in alive ensures x < |cut| && Count(cut[x]) > 0 && (x in held || Referred(cut, alive, x)) {
        OtherHead(h0, h1, k, x);
        if x !in held {
          var y: Id :| y in alive && y < |h1| && RefsTo(Elems(h1[y]), |Elems(h1[y])|, x) > 0;
          OtherHead(h0, h1, k, y);
          if y == k {
            RefsTail(h1[k].elems, n, |h1[k].elems|, x);
            RefsPrefix(h1[k].elems, cut[k].elems, n, x);
          }
          assert RefsTo(Elems(cut[y]), |Elems(cut[y])|, x) > 0;
        }
      }
    }
    assert z in alive;
  }

  lemma OtherHead(h0: Heap, h1: Heap, k: Id, y: Id)
    requires k < |h0| && |h1| == |h0| && Survives(h0[k := Free], h1[k := Free]) && y < |h1| && !h1[y].Free? && h0[k].PkgHead?
    ensures y != k ==> !h0[y].Free? && Elems(h1[y]) == Elems(h0[y])
  {
    assert y != k ==> h1[k := Free][y] == h1[y] && h0[k := Free][y] == h0[y];
  }

  /** What lai_obj_resize_pkg() does to the cell it is called with: whether the cell goes with the elements given up, or is moved. */
  ghost predicate LosesCell(m: Memory, c: Cell, n: nat)
    requires Has(m, c)
  {
    var v := Get(m, c);
    && c.Elem? && v.Direct? && v.id < |m.heads| && m.heads[v.id].PkgHead?
    && if n > |m.heads[v.id].elems| then c.k == v.id
       else (c.k == v.id && c.i >= n) || !Lasts(Cut(m.heads, v.id, n), RootRefs(m), c.k)
  }

  /** In a heap without cycles that does not happen. */
  lemma LosesOnlyInCycles(m: Memory, c: Cell, n: nat)
    requires Has(m, c) && Exact(m.heads, RootRefs(m)) && NoneLost(m.heads) && LosesCell(m, c, n)
    ensures !Acyclic(m.heads)
  {
    var hs, k := m.heads, Get(m, c).id;
    if Acyclic(hs) {
      var rank: Id -> nat, top :| Ranked(hs, rank, top);
      ElemCounts(Elems(hs[c.k]), |Elems(hs[c.k])|, c.i);
      assert rank(k) < rank(c.k);
      HigherLast(hs, k, n, RootRefs(m), rank, top, c.k);
    }
  }

  lemma HigherLast(hs: Heap, k: Id, n: nat, held: multiset<Id>, rank: Id -> nat, top: nat, z: Id)
    requires Exact(hs, held) && NoneLost(hs) && Ranked(hs, rank, top) && k < |hs| && hs[k].PkgHead? && n <= |hs[k].elems|
    requires z < |hs| && !hs[z].Free? && rank(k) < rank(z)
    ensures Lasts(Cut(hs, k, n), held, z)
  {
    var cut := Cut(hs, k, n);
    var ids := set x: Id | x < |hs| && !hs[x].Free? && rank(x) > rank(k);
    assert Sustained(cut, held, ids) by {
      forall x: Id | x in ids ensures x < |cut| && Count(cut[x]) > 0 && (x in held || Referred(cut, ids, x)) {
        assert Rc(hs, x) == held[x] + HeapRefs(hs, x);
        if x !in held {
          var y := SomeReferrer(hs, |hs|, x);
          FreeRefersNot(hs, y, x);
          assert rank(x) < rank(y);
          assert y in ids && RefsTo(Elems(cut[y]), |Elems(cut[y])|, x) > 0;
        }
      }
    }
    assert z in ids;
  }

  // --------------------------------------------------------------- finalizing a cell

  /** lai_var_finalize() on a cell meets the cell again, its reference already given up, if the cell's own package goes with it. */
  ghost predicate MeetsItself(m: Memory, c: Cell)
    requires Has(m, c)
  {
    c.Elem? && !Lasts(WithElem(m.heads, c.k, c.i, Zero), RootRefs(m), c.k)
  }

  lemma MeetsItselfOnlyInCycles(m: Memory, c: Cell)
    requires Has(m, c) && Exact(m.heads, RootRefs(m)) && NoneLost(m.heads) && MeetsItself(m, c)
    ensures !Acyclic(m.heads)
  {
    if Acyclic(m.heads) {
      var rank: Id -> nat, top :| Ranked(m.heads, rank, top);
      HolderLasts(m.heads, c.k, c.i, RootRefs(m), rank, top);
    }
  }

  lemma HolderLasts(hs: Heap, k: Id, i: nat, held: multiset<Id>, rank: Id -> nat, top: nat)
    requires Exact(hs, held) && NoneLost(hs) && Ranked(hs, rank, top) && k < |hs| && hs[k].PkgHead? && i < |hs[k].elems|
    ensures Lasts(WithElem(hs, k, i, Zero), held, k)
  {
    var cut := WithElem(hs, k, i, Zero);
    var ids := set x: Id | x < |hs| && !hs[x].Free? && rank(x) >= rank(k);
    assert Sustained(cut, held, ids) by {
      forall x: Id | x in ids ensures x < |cut| && Count(cut[x]) > 0 && (x in held || Referred(cut, ids, x)) {
        assert Rc(hs, x) == held[x] + HeapRefs(hs, x);
        if x !in held {
          var y := SomeReferrer(hs, |hs|, x);
          FreeRefersNot(hs, y, x);
          assert rank(x) < rank(y);
          assert y in ids && y != k && RefsTo(Elems(cut[y]), |Elems(cut[y])|, x) > 0;
        }
      }
    }
    assert k in ids;
  }

  /** A package whose only element is itself: finalizing that element meets it again, and a resize through it loses it. */
  lemma SelfContained(hs: Heap)
    requires hs == [PkgHead(1, [Direct(0)])]
    ensures Exact(hs, RootRefs(Memory(hs, []))) && NoneLost(hs)
    ensures MeetsItself(Memory(hs, []), Elem(0, 0)) && LosesCell(Memory(hs, []), Elem(0, 0), 0) && LosesCell(Memory(hs, []), Elem(0, 0), 2)
  {
    CycleExists();
    var cut := WithElem(hs, 0, 0, Zero);
    forall ids: set<Id> ensures !(0 in ids && Sustained(cut, multiset{}, ids)) {
      if 0 in ids && Sustained(cut, multiset{}, ids) {
        assert Referred(cut, ids, 0);
        var k: Id :| k in ids && k < |cut| && RefsTo(Elems(cut[k]), |Elems(cut[k])|, 0) > 0;
        assert cut[k].elems == [Zero];
        RefsZero(cut[k].elems, 1, 0);
      }
    }
  }
}
