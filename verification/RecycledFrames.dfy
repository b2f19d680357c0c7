/** A run in which a new process comes to hold frames that are not its own: its last low table is a recycled page table. */
module RecycledFrames {
  import opened PageOwnership
  import opened Paging

  /** Process p has the frames from f0 on, in the order in which it took them at its start. */
  ghost predicate HasBlock(m: Machine, p: nat, f0: nat) {
    && p in m.processes && m.processes[p] == Process(f0 + 1, f0)
    && forall d: nat {:trigger DirAt(m, p, d)} :: d < WORDS ==>
         DirAt(m, p, d).present == (d <= LOW_TABLES) && (d <= LOW_TABLES ==> DirAt(m, p, d).address == f0 + 2 + d)
  }

  /** Behind a block of frames in use nothing has been in use yet. */
  ghost predicate Untouched(m: Machine, f0: nat) {
    && (forall g: nat {:trigger g in m.used} :: g in m.used <==> BASE <= g < f0)
    && forall g: nat {:trigger FrameAt(m, g)} :: g >= f0 ==> FrameAt(m, g) == Blank()
  }

  /** Where frames have never been in use a process is created soundly, on the next 28 of them. */
  lemma FirstCreation(m: Machine, m': Machine, p: nat, f0: nat)
    requires Exact(m) && LazyOwned(m) && f0 >= BASE && Untouched(m, f0) && Created(m, m', p, false)
    ensures Exact(m') && LazyOwned(m') && HasBlock(m', p, f0) && Untouched(m', f0 + NEW_FRAMES)
    ensures EntryAt(m', p, USER_START) == ZERO
    ensures forall q, g {:trigger HasBlock(m, q, g)} :: HasBlock(m, q, g) && q != p ==> HasBlock(m', q, g)
    ensures m'.processes.Keys == m.processes.Keys + {p}
    ensures forall q {:trigger EntryAt(m', q, USER_START)} :: q in m.processes ==> EntryAt(m', q, USER_START) == EntryAt(m, q, USER_START)
  {
    var fs := FirstFree(m.used, NEW_FRAMES);
    FreeBlockComesFirst(m.used, f0, NEW_FRAMES, NEW_FRAMES);
    CreationIsExactIff(m, m', p, false);
    CreationKeepsLazy(m, m', p, false);
    OthersKept(m, m', p);
    forall g: nat ensures g in m'.used <==> BASE <= g < f0 + NEW_FRAMES {
      if f0 <= g < f0 + NEW_FRAMES {
        assert fs[g - f0] == g;
      }
    }
    assert DirAt(m', p, 0).present;
  }

  /** A page reserved for its first access takes no frame where all tables are there. */
  lemma ReservationTakesNothing(m: Machine, m': Machine, p: nat, start: nat)
    requires Exact(m) && Exact(m') && RunReserved(m, m', p, start, 1, ON_ACCESS) && DirsGrown(m, m', p, start + 1)
    requires forall d: nat {:trigger DirAt(m, p, d)} :: d < WORDS && d * WORDS < start + 1 ==> DirAt(m, p, d).present
    ensures m'.used == m.used && SameDirs(m, m')
    ensures forall q, g {:trigger HasBlock(m, q, g)} :: HasBlock(m, q, g) ==> HasBlock(m', q, g)
  {
    forall q, d: nat | q in m.processes && d < WORDS ensures DirAt(m', q, d) == DirAt(m, q, d) {
    }
    forall f | f in m'.used ensures f in m.used {
      if f !in m'.kernel {
        assert Held(m', f);
        var s: Slot :| FrameOf(m', s) == f;
        SameSlot(m, m', p, start, s);
        assert Sound(m, s);
      }
    }
  }

  lemma SameSlot(m: Machine, m': Machine, p: nat, start: nat, s: Slot)
    requires RunReserved(m, m', p, start, 1, ON_ACCESS) && SameDirs(m, m') && FrameOf(m', s) != -1
    ensures FrameOf(m, s) == FrameOf(m', s)
  {
    match s
    case Table(q, d) => assert DirAt(m', q, d) == DirAt(m, q, d);
    case Page(q, j) =>
      assert q != p || j != start by {
        assert q == p && j == start ==> NewlyReserved(m, m', p, j, ON_ACCESS);
      }
      assert EntryAt(m', q, j) == EntryAt(m, q, j);
    case _ =>
  }

  /** The end of a process with a block frees that block, and leaves other blocks alone. */
  lemma KillFreesBlock(m: Machine, m': Machine, p: nat, f0: nat, q: nat, g0: nat)
    requires Exact(m) && HasBlock(m, p, f0) && HasBlock(m, q, g0) && p != q && Killed(m, m', p)
    ensures forall f: nat :: f0 <= f < f0 + NEW_FRAMES ==> f !in m'.used
    ensures Exact(m') && HasBlock(m', q, g0)
  {
    KillKeepsExact(m, m', p);
    forall f: nat | f0 <= f < f0 + NEW_FRAMES ensures f !in m'.used {
      var s := if f == f0 then Shared(p) else if f == f0 + 1 then Root(p) else Table(p, f - f0 - 2);
      assert s.Table? ==> DirAt(m, p, s.d).present;
      assert FrameOf(m, s) == f;
      assert HeldBy(m, p, f);
    }
    forall d: nat | d < WORDS ensures DirAt(m', q, d) == DirAt(m, q, d) {
    }
  }

  /** The page table of process 0, in which its reserved page stands, is the next low table but none of a process that starts now. */
  lemma TableIsNext(m4: Machine, m5: Machine, m6: Machine)
    requires m5.memory == m4.memory && HasBlock(m5, 1, BASE + NEW_FRAMES) && m6 == Backed(m5, 1, USER_START)
    requires forall f: nat :: BASE <= f < BASE + NEW_FRAMES ==> f !in m5.used
    ensures var t := BASE + 2 + LOW_TABLES;
            FrameAt(m6, t) == FrameAt(m4, t) && FirstFree(m6.used, NEW_FRAMES)[2 + (LOW_TABLES - 1)] == t
  {
    var f := NextFree(m5.used, BASE);
    assert f == BASE;
    assert DirAt(m5, 1, LOW_TABLES).present;
    FreeBlockComesFirst(m6.used, BASE + 1, NEW_FRAMES, NEW_FRAMES - 1);
  }

  /** Processes 0 and 1 have started on the first frames, and stand in the given state with their first page. */
  ghost predicate TwoProcesses(m: Machine, first0: Word, first1: Word) {
    && Exact(m) && LazyOwned(m) && HasBlock(m, 0, BASE) && HasBlock(m, 1, BASE + NEW_FRAMES)
    && EntryAt(m, 0, USER_START) == first0 && EntryAt(m, 1, USER_START) == first1 && 2 !in m.processes && m.processes.Keys == {0, 1}
  }

  method StartNext(k: Kernel, p: nat, ghost f0: nat)
    requires Exact(k.State()) && LazyOwned(k.State()) && f0 >= BASE && Untouched(k.State(), f0) && p !in k.processes
    modifies k`used, k`memory, k`processes
    ensures Exact(k.State()) && LazyOwned(k.State()) && Untouched(k.State(), f0 + NEW_FRAMES) && HasBlock(k.State(), p, f0)
    ensures k.processes.Keys == old(k.processes.Keys) + {p} && EntryAt(k.State(), p, USER_START) == ZERO
    ensures forall q, g {:trigger HasBlock(old(k.State()), q, g)} :: HasBlock(old(k.State()), q, g) ==> HasBlock(k.State(), q, g)
    ensures forall q {:trigger EntryAt(k.State(), q, USER_START)} :: q in old(k.processes) ==>
              EntryAt(k.State(), q, USER_START) == EntryAt(old(k.State()), q, USER_START)
  {
    ghost var m := k.State();
    k.CreateProcess(p, false);
    FirstCreation(m, k.State(), p, f0);
  }

  method StartTwo() returns (k: Kernel)
    ensures fresh(k) && TwoProcesses(k.State(), ZERO, ZERO)
  {
    k := new Kernel();
    FirstMachine(k.State());
    StartNext(k, 0, BASE);
    assert HasBlock(k.State(), 0, BASE);
    StartNext(k, 1, BASE + NEW_FRAMES);
  }

  method ReserveBoth(k: Kernel)
    requires TwoProcesses(k.State(), ZERO, ZERO)
    modifies k`used, k`memory
    ensures TwoProcesses(k.State(), Reserved(ON_ACCESS, 0), Reserved(ON_ACCESS, 0))
  {
    ghost var m := k.State();
    ReserveFirst(k, 0);
    ghost var m1 := k.State();
    assert EntryAt(m1, 1, USER_START) == EntryAt(m, 1, USER_START);
    ReserveFirst(k, 1);
    assert EntryAt(k.State(), 0, USER_START) == EntryAt(m1, 0, USER_START);
  }

  /** Process 0 ends, and process 1 touches its page. */
  method KillAndTouch(k: Kernel)
    requires TwoProcesses(k.State(), Reserved(ON_ACCESS, 0), Reserved(ON_ACCESS, 0))
    modifies k`used, k`memory, k`processes
    ensures Exact(k.State()) && 2 !in k.processes
    ensures var t := BASE + 2 + LOW_TABLES;
            && FrameAt(k.State(), t) == FrameAt(old(k.State()), t)
            && FirstFree(k.used, NEW_FRAMES)[2 + (LOW_TABLES - 1)] == t
  {
    ghost var m4 := k.State();
    k.KillProcess(0);
    ghost var m5 := k.State();
    KillFreesBlock(m4, m5, 0, BASE, 1, BASE + NEW_FRAMES);
    KillKeepsExact(m4, m5, 0);
    KillKeepsLazy(m4, m5, 0);
    assert EntryAt(m5, 1, USER_START) == Reserved(ON_ACCESS, 0);
    var killed := k.HandlePageFault(1, USER_START);
    TableIsNext(m4, m5, k.State());
  }

  /**
   Processes 0 and 1 start and reserve a page each; process 0 ends; process 1 touches its page,
   which takes the first frame; process 2 starts. Its low table 24 is the frame of the page
   table of process 0, and ownership is exact no longer.
   */
  method Recycle() returns (k: Kernel)
    ensures fresh(k) && !Exact(k.State())
  {
    k := StartTwo();
    ReserveBoth(k);
    ghost var m4 := k.State();
    assert DirAt(m4, 0, USER_START / WORDS).address == BASE + 2 + LOW_TABLES;
    KillAndTouch(k);
    ghost var m6 := k.State();
    k.CreateProcess(2, false);
    RecycledTableBreaksExact(m4, m6, k.State(), 0, USER_START, 2, false, LOW_TABLES - 1);
  }

  lemma FirstMachine(m: Machine)
    requires m == Machine({}, map[], {}, map[])
    ensures Untouched(m, BASE)
  {
  }

  /** Process p reserves the first page behind the 100 MB for its first access. */
  method ReserveFirst(k: Kernel, p: nat)
    requires Exact(k.State()) && LazyOwned(k.State()) && p in k.processes && EntryAt(k.State(), p, USER_START) == ZERO
    requires forall d: nat {:trigger DirAt(k.State(), p, d)} :: d <= LOW_TABLES ==> DirAt(k.State(), p, d).present
    modifies k`used, k`memory
    ensures Exact(k.State()) && LazyOwned(k.State()) && k.used == old(k.used)
    ensures EntryAt(k.State(), p, USER_START) == Reserved(ON_ACCESS, 0) && EntriesBut(old(k.State()), k.State(), p, USER_START)
    ensures forall q, g {:trigger HasBlock(old(k.State()), q, g)} :: HasBlock(old(k.State()), q, g) ==> HasBlock(k.State(), q, g)
  {
    ghost var m := k.State();
    var start := k.AllocatePages(p, USER_START * 4096, 1, ON_ACCESS);
    ReservationKeepsLazy(m, k.State(), p, USER_START, 1, ON_ACCESS);
    ReservationTakesNothing(m, k.State(), p, USER_START);
    assert NewlyReserved(m, k.State(), p, USER_START, ON_ACCESS);
  }
}
