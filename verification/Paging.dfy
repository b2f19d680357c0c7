/** The page allocator, the page tables and the calls that change them. */
module Paging {
  import opened PageOwnership

  /** What a process asks of the page-allocating call. */
  const ON_ACCESS: nat := 1
  const IMMEDIATELY: nat := 2

  predicate FreeRun(used: set<nat>, f: nat, count: nat) {
    forall g {:trigger g in used} :: f <= g < f + count ==> g !in used
  }

  function Run(f: nat, count: nat): (run: set<nat>)
    ensures forall g: nat {:trigger g in run} :: g in run <==> f <= g < f + count
  {
    if count == 0 then {} else Run(f, count - 1) + {f + count - 1}
  }

  /** The first frame from which `count` frames in a row are free. */
  ghost predicate FirstRun(used: set<nat>, f: nat, count: nat) {
    BASE <= f && FreeRun(used, f, count) && forall g: nat {:trigger FreeRun(used, g, count)} :: BASE <= g < f ==> !FreeRun(used, g, count)
  }

  /** A run of one frame is the next free frame. */
  lemma FirstRunIsNextFree(used: set<nat>, was: set<nat>, f: nat)
    requires FirstRun(was, f, 1) && used == was + Run(f, 1)
    ensures f == NextFree(was, BASE) && used == was + {f}
  {
    assert f in Run(f, 1);
    var r := NextFree(was, BASE);
    assert r < f ==> !FreeRun(was, r, 1);
    assert f < r ==> f in was;
  }

  lemma {:induction false} Bounded(used: set<nat>) returns (b: nat)
    ensures forall f :: f in used ==> f < b
  {
    if used == {} {
      b := 0;
    } else {
      var x :| x in used;
      var c := Bounded(used - {x});
      assert forall f :: f in used ==> f == x || f in used - {x};
      b := if c > x then c else x + 1;
    }
  }

  function Wiped(memory: map<nat, Words>, f: nat, count: nat): map<nat, Words> {
    if count == 0 then memory else Wiped(memory, f, count - 1)[f + count - 1 := Blank()]
  }

  /** A run of pages of process p that map to nothing. */
  predicate EmptyRun(m: Machine, p: nat, start: nat, count: nat)
    requires p in m.processes
  {
    start + count <= PAGES && forall j: nat {:trigger EntryAt(m, p, j)} :: start <= j < start + count ==> EntryAt(m, p, j) == ZERO
  }

  ghost predicate FirstEmptyRun(m: Machine, p: nat, start: nat, count: nat)
    requires p in m.processes
  {
    && USER_START <= start && EmptyRun(m, p, start, count)
    && forall o: nat {:trigger EmptyRun(m, p, o, count)} :: USER_START <= o < start ==> !EmptyRun(m, p, o, count)
  }

  /** The entry of a directory has stayed, or has been given a table, to be had at the user's level. */
  predicate DirGrown(was: Word, cur: Word) {
    cur == was || (!was.present && cur == was.(present := true, user := true, address := cur.address))
  }

  /** Tables of process p may have been added, none of them for pages from `limit` on; those that were there have stayed. */
  ghost predicate DirsGrown(m: Machine, m': Machine, p: nat, limit: nat) {
    && m'.processes == m.processes
    && forall q, d: nat {:trigger DirAt(m', q, d)} :: q in m.processes && d < WORDS ==>
         DirGrown(DirAt(m, q, d), DirAt(m', q, d)) && (q != p || d * WORDS >= limit ==> DirAt(m', q, d) == DirAt(m, q, d))
  }

  lemma DirsChain(m: Machine, m1: Machine, m2: Machine, p: nat, l1: nat, l2: nat, limit: nat)
    requires p in m.processes && DirsGrown(m, m1, p, l1) && DirsGrown(m1, m2, p, l2) && l1 <= limit && l2 <= limit
    ensures DirsGrown(m, m2, p, limit)
  {
    forall q, d: nat | q in m.processes && d < WORDS
      ensures DirGrown(DirAt(m, q, d), DirAt(m2, q, d)) && (q != p || d * WORDS >= limit ==> DirAt(m2, q, d) == DirAt(m, q, d))
    {
      assert DirGrown(DirAt(m, q, d), DirAt(m1, q, d));
    }
  }

  /** No entry of the process's directory stands in the way of what its pages allow. */
  ghost predicate DirsOpen(m: Machine, p: nat)
    requires p in m.processes
  {
    forall d: nat {:trigger DirAt(m, p, d)} :: d < WORDS ==> DirAt(m, p, d).user && DirAt(m, p, d).writable
  }

  ghost predicate AllOpen(m: Machine) {
    forall p {:trigger p in m.processes} :: p in m.processes ==> DirsOpen(m, p)
  }

  lemma GrowingKeepsOpen(m: Machine, m': Machine, p: nat, limit: nat)
    requires AllOpen(m) && DirsGrown(m, m', p, limit)
    ensures AllOpen(m')
  {
    forall q | q in m'.processes ensures DirsOpen(m', q) {
      assert DirsOpen(m, q);
      forall d: nat | d < WORDS ensures DirAt(m', q, d).user && DirAt(m', q, d).writable {
        assert DirGrown(DirAt(m, q, d), DirAt(m', q, d)) && DirAt(m, q, d).user;
      }
    }
  }

  /** Nothing but such tables has been added: every mapping is what it was. */
  ghost predicate TablesGrown(m: Machine, m': Machine, p: nat, limit: nat) {
    SameEntries(m, m') && DirsGrown(m, m', p, limit) && m'.kernel == m.kernel && m.used <= m'.used
  }

  /** An empty table has been put into the directory of process p. */
  ghost function TableAdded(m: Machine, p: nat, d: nat, f: nat): Machine
    requires p in m.processes && d < WORDS
  {
    Write(TakeBlank(m, f), m.processes[p].root, d, DirAt(m, p, d).(address := f, present := true, user := true))
  }

  /** Page i of p has been given the next free frame, wiped. */
  ghost function Backed(m: Machine, p: nat, i: nat): Machine
    requires p in m.processes && i < PAGES
  {
    var f := NextFree(m.used, BASE);
    Write(TakeBlank(m, f), DirAt(m, p, i / WORDS).address, i % WORDS, EntryAt(m, p, i).(present := true, address := f))
  }

  /** What the page-allocating call makes of a page; f is its frame if it gets one at once. */
  function Reserved(flags: nat, f: nat): Word {
    ZERO.(present := flags / IMMEDIATELY % 2 == 1, address := if flags / IMMEDIATELY % 2 == 1 then f else 0,
          user := true, writable := true, owned := true, dynamic := flags % 2 == 1)
  }

  /** Page j of p has been reserved: with a frame that was free before if it is to be there at once. */
  ghost predicate NewlyReserved(m: Machine, m': Machine, p: nat, j: nat, flags: nat)
    requires p in m'.processes && j < PAGES
  {
    EntryAt(m', p, j) == Reserved(flags, EntryAt(m', p, j).address) && (EntryAt(m', p, j).present ==> EntryAt(m', p, j).address !in m.used)
  }

  /** n pages of p from `start` on have been reserved, and no other page of any process has changed. */
  ghost predicate RunReserved(m: Machine, m': Machine, p: nat, start: nat, n: nat, flags: nat) {
    && p in m.processes && start + n <= PAGES && m'.processes == m.processes && m'.kernel == m.kernel && m.used <= m'.used
    && (forall j: nat {:trigger EntryAt(m', p, j)} :: start <= j < start + n ==> NewlyReserved(m, m', p, j, flags))
    && forall q, j: nat {:trigger EntryAt(m', q, j)} ::
         q in m.processes && j < PAGES && !(q == p && start <= j < start + n) ==> EntryAt(m', q, j) == EntryAt(m, q, j)
  }

  /** Reserved pages belong to their process, which may read and write them; bit 1 of the flags asks for a frame at once, bit 0 for one on the first access. */
  lemma RightsOfRun(m: Machine, m': Machine, p: nat, start: nat, n: nat, flags: nat)
    requires RunReserved(m, m', p, start, n, flags)
    ensures forall j: nat {:trigger EntryAt(m', p, j)} :: start <= j < start + n ==>
              var e := EntryAt(m', p, j);
              && e.user && e.writable && e.owned && !e.global && !e.release
              && (e.present <==> flags / 2 % 2 == 1) && (e.dynamic <==> flags % 2 == 1)
  {
    forall j: nat | start <= j < start + n
      ensures var e := EntryAt(m', p, j);
              && e.user && e.writable && e.owned && !e.global && !e.release
              && (e.present <==> flags / 2 % 2 == 1) && (e.dynamic <==> flags % 2 == 1)
    {
      assert NewlyReserved(m, m', p, j, flags);
    }
  }

  /** n pages of p from `start` on hold zeros, if they are there. */
  ghost predicate AllBlank(m: Machine, p: nat, start: nat, n: nat)
    requires p in m.processes && start + n <= PAGES
  {
    forall j: nat {:trigger EntryAt(m, p, j)} :: start <= j < start + n && EntryAt(m, p, j).present ==> FrameAt(m, EntryAt(m, p, j).address) == Blank()
  }

  /** One more page reserved leaves the others blank, and what was owned before as it was. */
  lemma OneMoreBlank(m: Machine, m1: Machine, m2: Machine, p: nat, first: nat, i: nat, count: nat, flags: nat)
    requires p in m.processes && i < count && first + count <= PAGES && EmptyRun(m, p, first, count)
    requires RunReserved(m, m1, p, first, i, flags) && RunReserved(m, m2, p, first, i + 1, flags) && ContentsKept(m, m1) && ContentsKept(m1, m2)
    requires forall j: nat {:trigger EntryAt(m2, p, j)} :: first <= j < first + i ==> EntryAt(m2, p, j) == EntryAt(m1, p, j)
    requires AllBlank(m1, p, first, i) && (EntryAt(m2, p, first + i).present ==> FrameAt(m2, EntryAt(m2, p, first + i).address) == Blank())
    ensures AllBlank(m2, p, first, i + 1) && ContentsKept(m, m2)
  {
    forall j: nat | first <= j < first + i && EntryAt(m2, p, j).present ensures FrameAt(m2, EntryAt(m2, p, j).address) == Blank() {
      assert NewlyReserved(m, m2, p, j, flags);
      assert EntryAt(m2, p, j) == EntryAt(m1, p, j) && Owned(EntryAt(m1, p, j));
    }
    forall q, j: nat | q in m.processes && j < PAGES && Owned(EntryAt(m, q, j)) ensures EntryAt(m1, q, j) == EntryAt(m, q, j) {
      assert !(q == p && first <= j < first + i);
    }
    ContentsChain(m, m1, m2);
  }

  /** Of all frames only f0 may hold something else. */
  ghost predicate MemoryBut(m: Machine, m': Machine, f0: nat) {
    forall f: nat {:trigger FrameAt(m', f)} :: f != f0 ==> FrameAt(m', f) == FrameAt(m, f)
  }

  lemma MemoryChain(m: Machine, m1: Machine, m2: Machine, f0: nat)
    requires MemoryBut(m, m1, f0) && MemoryBut(m1, m2, f0)
    ensures MemoryBut(m, m2, f0)
  {
    forall f: nat | f != f0 ensures FrameAt(m2, f) == FrameAt(m, f) {
      assert FrameAt(m1, f) == FrameAt(m, f);
    }
  }

  /** A process under construction: its first n low tables are there. */
  ghost predicate Building(m: Machine, m': Machine, p: nat, fs: seq<nat>, n: nat, user: bool) {
    && n <= LOW_TABLES && |fs| == 2 + n && fs == FirstFree(m.used, |fs|) && (forall a, b :: 0 <= a < b < |fs| ==> fs[a] != fs[b]) && (forall a :: 0 <= a < |fs| ==> fs[a] !in m.used)
    && m'.processes == m.processes[p := Process(fs[1], fs[0])] && m'.kernel == m.kernel && m'.used == m.used + (set f | f in fs)
    && (forall f: nat {:trigger FrameAt(m', f)} :: f !in fs ==> FrameAt(m', f) == FrameAt(m, f))
    && (forall d {:trigger FrameAt(m', fs[1])[d]} :: 0 <= d < WORDS ==>
          FrameAt(m', fs[1])[d].user && FrameAt(m', fs[1])[d].writable && FrameAt(m', fs[1])[d].present == (d < n) && (d < n ==> FrameAt(m', fs[1])[d].address == fs[2 + d]))
    && forall d, k {:trigger LowWord(m, m', fs, d, k, user)} :: 0 <= d < n && 0 <= k < WORDS ==> LowWord(m, m', fs, d, k, user)
  }

  predicate LowWord(m: Machine, m': Machine, fs: seq<nat>, d: nat, k: nat, user: bool)
    requires 2 + d < |fs| && k < WORDS
  {
    FrameAt(m', fs[2 + d])[k] == Low(FrameAt(m, fs[2 + d])[k], d * WORDS + k, user)
  }

  lemma LowWordsGrow(m: Machine, m0: Machine, m1: Machine, fs: seq<nat>, n: nat, user: bool, table: nat)
    requires |fs| == 2 + n && table !in fs && FrameAt(m0, table) == FrameAt(m, table) && (forall c :: 2 <= c < |fs| ==> fs[c] != fs[1])
    requires forall d, k {:trigger LowWord(m, m0, fs, d, k, user)} :: 0 <= d < n && 0 <= k < WORDS ==> LowWord(m, m0, fs, d, k, user)
    requires forall f: nat {:trigger FrameAt(m1, f)} :: f != table && f != fs[1] ==> FrameAt(m1, f) == FrameAt(m0, f)
    requires forall k {:trigger FrameAt(m1, table)[k]} :: 0 <= k < WORDS ==> FrameAt(m1, table)[k] == Low(FrameAt(m0, table)[k], n * WORDS + k, user)
    ensures forall d, k {:trigger LowWord(m, m1, fs + [table], d, k, user)} :: 0 <= d < n + 1 && 0 <= k < WORDS ==> LowWord(m, m1, fs + [table], d, k, user)
  {
    forall d, k | 0 <= d < n + 1 && 0 <= k < WORDS ensures LowWord(m, m1, fs + [table], d, k, user) {
      if d < n {
        assert LowWord(m, m0, fs, d, k, user) && fs[2 + d] in fs;
      } else {
        assert FrameAt(m1, table)[k] == Low(FrameAt(m0, table)[k], n * WORDS + k, user);
      }
    }
  }

  lemma OneMoreTable(m: Machine, m0: Machine, m1: Machine, p: nat, fs: seq<nat>, n: nat, user: bool, table: nat)
    requires Building(m, m0, p, fs, n, user) && n < LOW_TABLES && table == NextFree(m0.used, BASE)
    requires m1.processes == m0.processes && m1.kernel == m0.kernel && m1.used == m0.used + {table}
    requires forall f: nat {:trigger FrameAt(m1, f)} :: f != table && f != fs[1] ==> FrameAt(m1, f) == FrameAt(m0, f)
    requires forall k {:trigger FrameAt(m1, table)[k]} :: 0 <= k < WORDS ==> FrameAt(m1, table)[k] == Low(FrameAt(m0, table)[k], n * WORDS + k, user)
    requires FrameAt(m1, fs[1]) == FrameAt(m0, fs[1])[n := FrameAt(m0, fs[1])[n].(present := true, address := table)]
    ensures Building(m, m1, p, fs + [table], n + 1, user)
  {
    var gs := fs + [table];
    OneMoreFrame(m.used, fs, table, m0.used);
    forall d | 0 <= d < WORDS
      ensures FrameAt(m1, gs[1])[d].user && FrameAt(m1, gs[1])[d].writable && FrameAt(m1, gs[1])[d].present == (d < n + 1) && (d < n + 1 ==> FrameAt(m1, gs[1])[d].address == gs[2 + d])
    {
      assert FrameAt(m0, fs[1])[d].present == (d < n);
    }
    LowWordsGrow(m, m0, m1, fs, n, user, table);
  }

  lemma ElementsAppend(fs: seq<nat>, f: nat)
    ensures (set g | g in fs + [f]) == (set g | g in fs) + {f}
  {
    forall g: nat ensures g in fs + [f] <==> g in fs || g == f {
    }
  }

  lemma FirstFreeAppend(used: set<nat>, n: nat)
    ensures FirstFree(used, n + 1) == FirstFree(used, n) + [NextFree(used + (set g | g in FirstFree(used, n)), BASE)]
  {
  }

  /** The frame behind the first free ones. */
  lemma OneMoreFrame(used: set<nat>, fs: seq<nat>, f: nat, now: set<nat>)
    requires fs == FirstFree(used, |fs|) && now == used + (set g | g in fs) && f == NextFree(now, BASE)
    ensures fs + [f] == FirstFree(used, |fs| + 1) && (set g | g in fs + [f]) == (set g | g in fs) + {f}
    ensures f !in used && f !in fs && forall a :: 0 <= a < |fs| ==> fs[a] in now
  {
    ElementsAppend(fs, f);
    FirstFreeAppend(used, |fs|);
    assert f !in now;
    forall a | 0 <= a < |fs| ensures fs[a] in now {
      assert fs[a] in fs;
    }
  }

  /** The last table, and the page of it that maps the shared frame. */
  lemma Finish(m: Machine, m0: Machine, m1: Machine, m2: Machine, p: nat, fs: seq<nat>, user: bool, last: nat)
    requires Building(m, m0, p, fs, LOW_TABLES, user) && p !in m.processes && last == NextFree(m0.used, BASE)
    requires m1 == TableAdded(m0, p, LOW_TABLES, last)
    requires m2 == Write(m1, last, 1, FrameAt(m1, last)[1].(address := fs[0], present := true, writable := true))
    ensures Created(m, m2, p, user)
  {
    var gs := fs + [last];
    OneMoreFrame(m.used, fs, last, m0.used);
    FinishedFrames(m, m0, m1, m2, p, fs, user, last);
    forall d: nat | d < WORDS
      ensures DirAt(m2, p, d).user && DirAt(m2, p, d).writable && DirAt(m2, p, d).present == (d <= LOW_TABLES) && (d <= LOW_TABLES ==> DirAt(m2, p, d).address == gs[2 + d])
    {
      FinishedDir(m, m0, m1, m2, p, fs, user, last, d);
    }
    forall j: nat | j < PAGES ensures EntryAt(m2, p, j) == NewEntry(m, gs, j, user) {
      FinishedEntry(m, m0, m1, m2, p, fs, user, last, j);
    }
  }

  lemma FinishedFrames(m: Machine, m0: Machine, m1: Machine, m2: Machine, p: nat, fs: seq<nat>, user: bool, last: nat)
    requires Building(m, m0, p, fs, LOW_TABLES, user) && last == NextFree(m0.used, BASE) && last !in m0.used
    requires m1 == TableAdded(m0, p, LOW_TABLES, last)
    requires m2 == Write(m1, last, 1, FrameAt(m1, last)[1].(address := fs[0], present := true, writable := true))
    ensures FrameAt(m1, last) == Blank()
    ensures forall f: nat :: f !in fs + [last] ==> FrameAt(m2, f) == FrameAt(m, f)
    ensures forall f :: f in m.used ==> FrameAt(m2, f) == FrameAt(m, f)
  {
    forall f: nat | f !in fs + [last] ensures FrameAt(m2, f) == FrameAt(m, f) {
      assert FrameAt(m0, f) == FrameAt(m, f);
      assert fs[1] in fs;
    }
    forall f | f in m.used ensures FrameAt(m2, f) == FrameAt(m, f) {
      assert f !in fs + [last];
    }
  }

  lemma FinishedDir(m: Machine, m0: Machine, m1: Machine, m2: Machine, p: nat, fs: seq<nat>, user: bool, last: nat, d: nat)
    requires Building(m, m0, p, fs, LOW_TABLES, user) && last == NextFree(m0.used, BASE) && d < WORDS
    requires m1 == TableAdded(m0, p, LOW_TABLES, last)
    requires m2 == Write(m1, last, 1, FrameAt(m1, last)[1].(address := fs[0], present := true, writable := true))
    ensures p in m2.processes && DirAt(m2, p, d).user && DirAt(m2, p, d).writable
    ensures DirAt(m2, p, d).present == (d <= LOW_TABLES) && (d <= LOW_TABLES ==> DirAt(m2, p, d).address == (fs + [last])[2 + d])
  {
    assert DirAt(m0, p, d) == FrameAt(m0, fs[1])[d];
    assert DirAt(m2, p, d) == DirAt(m1, p, d);
  }

  function NewEntry(m: Machine, gs: seq<nat>, j: nat, user: bool): Word
    requires |gs| == NEW_FRAMES
  {
    if j < USER_START then Low(FrameAt(m, gs[2 + j / WORDS])[j % WORDS], j, user)
    else if j == USER_START + 1 then SharedEntry(gs[0]) else ZERO
  }

  lemma FinishedEntry(m: Machine, m0: Machine, m1: Machine, m2: Machine, p: nat, fs: seq<nat>, user: bool, last: nat, j: nat)
    requires Building(m, m0, p, fs, LOW_TABLES, user) && p !in m.processes && last !in m0.used && j < PAGES
    requires m1 == TableAdded(m0, p, LOW_TABLES, last)
    requires m2 == Write(m1, last, 1, FrameAt(m1, last)[1].(address := fs[0], present := true, writable := true))
    ensures EntryAt(m2, p, j) == NewEntry(m, fs + [last], j, user)
  {
    var d := j / WORDS;
    assert fs[1] in fs && last !in fs;
    assert DirAt(m0, p, d) == FrameAt(m0, fs[1])[d];
    assert DirAt(m2, p, d) == DirAt(m1, p, d);
    if d < LOW_TABLES {
      assert fs[2 + d] in fs && fs[2 + d] != fs[1];
      assert LowWord(m, m0, fs, d, j % WORDS, user);
      assert FrameAt(m2, fs[2 + d]) == FrameAt(m0, fs[2 + d]);
    } else if d == LOW_TABLES {
      assert FrameAt(m1, last) == Blank();
    }
  }

  /**
   What a new process may access: of the first 100 MB, each page mapped to itself, whatever the
   flag of the process says, and nothing at the user's level behind them. The guard page is
   empty, the one after it maps the frame shared with the kernel, and no other page is mapped.
   */
  ghost predicate RightsAtStart(m: Machine, p: nat, user: bool)
    requires p in m.processes
  {
    forall j: nat {:trigger EntryAt(m, p, j)} :: j < PAGES ==>
      var e := EntryAt(m, p, j);
      && (e.present <==> j < 25600 || j == 25601)
      && (j < 25600 ==> e.address == j && e.writable && e.user == user && !e.global)
      && (j >= 25600 ==> !e.user && !e.owned && !e.release && !e.dynamic)
      && (j == 25601 ==> e.address == m.processes[p].shared && e.writable)
  }

  lemma RightsOfCreation(m: Machine, m': Machine, p: nat, user: bool)
    requires Created(m, m', p, user)
    ensures p in m'.processes && RightsAtStart(m', p, user)
  {
    var fs := FirstFree(m.used, NEW_FRAMES);
    assert CreatedOn(m, m', p, fs, user);
  }

  /** Pages that wait for their first access belong to their process. */
  ghost predicate LazyOwned(m: Machine) {
    forall q, j: nat {:trigger EntryAt(m, q, j)} :: q in m.processes && j < PAGES ==> LazyEntryOwned(EntryAt(m, q, j))
  }

  predicate LazyEntryOwned(e: Word) {
    e.dynamic && !e.present ==> e.owned || e.release
  }

  /** What can happen to the memory of the processes. */
  datatype Call =
    | Start(p: nat, user: bool)
    | Allocate(p: nat, address: nat, count: nat, flags: nat)
    | Fault(p: nat, i: nat)
    | Save(p: nat, i: nat, data: Words)
    | Kill(p: nat)

  lemma SameKeepsLazy(m: Machine, m': Machine)
    requires LazyOwned(m) && SameEntries(m, m')
    ensures LazyOwned(m')
  {
    forall q, j: nat | q in m'.processes && j < PAGES ensures LazyEntryOwned(EntryAt(m', q, j)) {
      assert EntryAt(m', q, j) == EntryAt(m, q, j);
    }
  }

  lemma ReservationKeepsLazy(m: Machine, m': Machine, p: nat, start: nat, n: nat, flags: nat)
    requires LazyOwned(m) && (RunReserved(m, m', p, start, n, flags) || m' == m)
    ensures LazyOwned(m')
  {
    forall q, j: nat | q in m'.processes && j < PAGES ensures LazyEntryOwned(EntryAt(m', q, j)) {
      if m' != m && q == p && start <= j < start + n {
        assert NewlyReserved(m, m', p, j, flags);
      } else {
        assert EntryAt(m', q, j) == EntryAt(m, q, j);
      }
    }
  }

  lemma CreationKeepsLazy(m: Machine, m': Machine, p: nat, user: bool)
    requires Exact(m) && LazyOwned(m) && Created(m, m', p, user)
    ensures LazyOwned(m')
  {
    OthersKept(m, m', p);
    forall q, j: nat | q in m'.processes && j < PAGES ensures LazyEntryOwned(EntryAt(m', q, j)) {
      assert q == p || (q in m.processes && EntryAt(m', q, j) == EntryAt(m, q, j));
    }
  }

  lemma KillKeepsLazy(m: Machine, m': Machine, p: nat)
    requires Exact(m) && LazyOwned(m) && Killed(m, m', p)
    ensures LazyOwned(m')
  {
    KillKeepsExact(m, m', p);
    forall q, j: nat | q in m'.processes && j < PAGES ensures LazyEntryOwned(EntryAt(m', q, j)) {
      assert EntryAt(m', q, j) == EntryAt(m, q, j);
    }
  }

  lemma FaultKeepsLazy(m: Machine, m': Machine, p: nat, i: nat, killed: bool)
    requires Exact(m) && LazyOwned(m) && p in m.processes && i < PAGES
    requires if killed then Killed(m, m', p) else EntriesBut(m, m', p, i) && EntryAt(m', p, i).present
    ensures LazyOwned(m')
  {
    if killed {
      KillKeepsLazy(m, m', p);
    } else {
      forall q, j: nat | q in m'.processes && j < PAGES ensures LazyEntryOwned(EntryAt(m', q, j)) {
        assert (q == p && j == i) || EntryAt(m', q, j) == EntryAt(m, q, j);
      }
    }
  }

  /** The call is none by which process q changes page j itself, faults, or ends. */
  predicate Spares(call: Call, q: nat, j: nat) {
    match call
    case Start(_, _) => true
    case Allocate(_, _, _, _) => true
    case Fault(p, _) => p != q
    case Save(p, i, _) => p != q || i != j
    case Kill(p) => p != q
  }

  /** All pages that their processes own, but for those that the call is about, are mapped as before and hold what they held. */
  ghost predicate PagesKept(m: Machine, m': Machine, call: Call) {
    forall q, j: nat {:trigger EntryAt(m, q, j)} :: q in m.processes && j < PAGES && Owned(EntryAt(m, q, j)) && Spares(call, q, j) ==> PageKept(m, m', q, j)
  }

  /** The first n calls have left alone what they are not about. */
  ghost predicate KeptSoFar(m: Machine, m': Machine, calls: seq<Call>, n: nat)
    requires n <= |calls|
  {
    forall q, j: nat {:trigger EntryAt(m, q, j)} ::
      q in m.processes && j < PAGES && Owned(EntryAt(m, q, j)) && (forall k {:trigger calls[k]} :: 0 <= k < n ==> Spares(calls[k], q, j)) ==> PageKept(m, m', q, j)
  }

  lemma KeptOn(m: Machine, m1: Machine, m2: Machine, calls: seq<Call>, n: nat)
    requires n < |calls| && KeptSoFar(m, m1, calls, n) && PagesKept(m1, m2, calls[n])
    ensures KeptSoFar(m, m2, calls, n + 1)
  {
    forall q, j: nat | q in m.processes && j < PAGES && Owned(EntryAt(m, q, j)) && (forall k {:trigger calls[k]} :: 0 <= k < n + 1 ==> Spares(calls[k], q, j))
      ensures PageKept(m, m2, q, j)
    {
      assert PageKept(m, m1, q, j);
      assert Spares(calls[n], q, j);
    }
  }

  lemma ReservationKeepsPages(m: Machine, m': Machine, call: Call, p: nat, start: nat, n: nat, flags: nat)
    requires ContentsKept(m, m') && (m' == m || (RunReserved(m, m', p, start, n, flags) && EmptyRun(m, p, start, n)))
    ensures PagesKept(m, m', call)
  {
    forall q, j: nat | q in m.processes && j < PAGES && Owned(EntryAt(m, q, j)) ensures PageKept(m, m', q, j) {
      assert m' != m ==> !(q == p && start <= j < start + n);
    }
  }

  lemma CreationKeepsPages(m: Machine, m': Machine, call: Call, p: nat, user: bool)
    requires Exact(m) && Created(m, m', p, user)
    ensures PagesKept(m, m', call)
  {
    OthersKept(m, m', p);
    forall q, j: nat | q in m.processes && j < PAGES && Owned(EntryAt(m, q, j)) ensures PageKept(m, m', q, j) {
      assert FrameOf(m, Page(q, j)) == EntryAt(m, q, j).address && Sound(m, Page(q, j));
      assert EntryAt(m', q, j) == EntryAt(m, q, j);
    }
  }

  lemma KillKeepsPages(m: Machine, m': Machine, call: Call, p: nat)
    requires Exact(m) && Killed(m, m', p) && (call == Kill(p) || (call.Fault? && call.p == p))
    ensures PagesKept(m, m', call)
  {
    KillKeepsExact(m, m', p);
    forall q, j: nat | q in m.processes && j < PAGES && Owned(EntryAt(m, q, j)) && Spares(call, q, j) ensures PageKept(m, m', q, j) {
      assert q in m'.processes && EntryAt(m', q, j) == EntryAt(m, q, j);
    }
  }

  lemma FaultKeepsPages(m: Machine, m': Machine, p: nat, i: nat, killed: bool)
    requires Exact(m) && ContentsKept(m, m') && p in m.processes && i < PAGES
    requires if killed then Killed(m, m', p) else EntriesBut(m, m', p, i)
    ensures PagesKept(m, m', Fault(p, i))
  {
    if killed {
      KillKeepsPages(m, m', Fault(p, i), p);
    } else {
      forall q, j: nat | q in m.processes && j < PAGES && Owned(EntryAt(m, q, j)) && q != p ensures PageKept(m, m', q, j) {
        assert EntryAt(m', q, j) == EntryAt(m, q, j);
      }
    }
  }

  lemma StoreKeepsPages(m: Machine, m': Machine, p: nat, i: nat, data: Words)
    requires Exact(m) && p in m.processes && i < PAGES && Owned(EntryAt(m, p, i)) && SameEntries(m, m') && MemoryBut(m, m', EntryAt(m, p, i).address)
    ensures PagesKept(m, m', Save(p, i, data))
  {
    forall q, j: nat | q in m.processes && j < PAGES && Owned(EntryAt(m, q, j)) && (q != p || j != i) ensures PageKept(m, m', q, j) {
      NoFrameShared(m, p, i, q, j);
      assert EntryAt(m', q, j) == EntryAt(m, q, j);
    }
  }

  lemma SameDirsStayOpen(m: Machine, m': Machine)
    requires AllOpen(m) && SameDirs(m, m')
    ensures AllOpen(m')
  {
    forall q | q in m'.processes ensures DirsOpen(m', q) {
      assert DirsOpen(m, q);
      forall d: nat | d < WORDS ensures DirAt(m', q, d).user && DirAt(m', q, d).writable {
        assert DirAt(m', q, d) == DirAt(m, q, d);
      }
    }
  }

  lemma KillKeepsOpen(m: Machine, m': Machine, p: nat)
    requires Exact(m) && AllOpen(m) && Killed(m, m', p)
    ensures AllOpen(m')
  {
    KillKeepsExact(m, m', p);
    forall q | q in m'.processes ensures DirsOpen(m', q) {
      assert DirsOpen(m, q);
      forall d: nat | d < WORDS ensures DirAt(m', q, d).user && DirAt(m', q, d).writable {
        assert DirAt(m', q, d) == DirAt(m, q, d);
      }
    }
  }

  lemma CreationKeepsOpen(m: Machine, m': Machine, p: nat, user: bool)
    requires Exact(m) && AllOpen(m) && Created(m, m', p, user)
    ensures AllOpen(m')
  {
    OthersKept(m, m', p);
    assert CreatedOn(m, m', p, FirstFree(m.used, NEW_FRAMES), user);
    forall q | q in m'.processes ensures DirsOpen(m', q) {
      if q != p {
        assert DirsOpen(m, q);
        forall d: nat | d < WORDS ensures DirAt(m', q, d).user && DirAt(m', q, d).writable {
          assert DirAt(m', q, d) == DirAt(m, q, d);
        }
      }
    }
  }

  class Kernel {
    var used: set<nat>
    var memory: map<nat, Words>
    var kernel: set<nat>
    var processes: map<nat, Process>

    function State(): Machine
      reads this
    {
      Machine(used, memory, kernel, processes)
    }

    /** A machine without processes. */
    constructor ()
      ensures State() == Machine({}, map[], {}, map[]) && Exact(State()) && LazyOwned(State()) && AllOpen(State())
    {
      used, memory, kernel, processes := {}, map[], {}, map[];
      new;
      forall s ensures Sound(State(), s) {
      }
    }

    /** alloc_physical_page(): a run of free frames; a frame found in use moves the search right behind it. */
    method AllocPhysicalPage(count: nat, reset: bool) returns (f: nat)
      modifies this`used, this`memory
      ensures FirstRun(old(used), f, count)
      ensures used == old(used) + Run(f, count)
      ensures memory == if reset then Wiped(old(memory), f, count) else old(memory)
    {
      ghost var u := used;
      ghost var b := Bounded(u);
      f := BASE;
      var i := 0;
      while i < count
        invariant BASE <= f && i <= count && used == u && memory == old(memory)
        invariant forall g {:trigger g in u} :: f <= g < f + i ==> g !in u
        invariant forall g: nat {:trigger FreeRun(u, g, count)} :: BASE <= g < f ==> !FreeRun(u, g, count)
        decreases if f <= b then b - f else 0, count - i
      {
        if f + i !in used {
          i := i + 1;
        } else {
          forall g: nat | f <= g <= f + i ensures !FreeRun(u, g, count) {
            assert f + i in u;
          }
          f, i := f + i + 1, 0;
        }
      }
      i := 0;
      while i < count
        invariant 0 <= i <= count && used == u + Run(f, i) && memory == old(memory)
      {
        used := used + {f + i};
        i := i + 1;
      }
      if reset {
        i := 0;
        while i < count
          invariant 0 <= i <= count && memory == Wiped(old(memory), f, i) && used == u + Run(f, count)
        {
          memory := memory[f + i := Blank()];
          i := i + 1;
        }
      }
    }

    /** The allocator asked for a single wiped frame, as the page tables and pages of processes are. */
    method AllocBlank() returns (f: nat)
      modifies this`used, this`memory
      ensures f == NextFree(old(used), BASE) && State() == TakeBlank(old(State()), f)
    {
      f := AllocPhysicalPage(1, true);
      FirstRunIsNextFree(used, old(used), f);
      assert Wiped(old(memory), f, 1) == old(memory)[f := Blank()];
    }

    /** free_physical_page() */
    method FreePhysicalPage(f: nat) returns (was: bool)
      modifies this`used
      ensures used == old(used) - {f} && was == (f in old(used))
    {
      was := f in used;
      used := used - {f};
    }

    method ReadFrame(f: nat) returns (words: Words)
      ensures words == FrameAt(State(), f)
    {
      words := if f in memory then memory[f] else Blank();
    }

    method WriteWord(f: nat, k: nat, w: Word)
      requires k < WORDS
      modifies this`memory
      ensures State() == Write(old(State()), f, k, w)
      ensures FrameAt(State(), f) == FrameAt(old(State()), f)[k := w] && MemoryBut(old(State()), State(), f)
    {
      var words := ReadFrame(f);
      memory := memory[f := words[k := w]];
    }

    /** fetch_page_index(): the table that holds the entry of page i; none if there is none and none is wanted. */
    method FetchPageIndex(p: nat, i: nat, allocate: bool) returns (found: bool, table: nat)
      requires p in processes && i < PAGES
      modifies this`used, this`memory
      ensures found <==> allocate || DirAt(old(State()), p, i / WORDS).present
      ensures !found || DirAt(old(State()), p, i / WORDS).present ==> State() == old(State())
      ensures DirAt(old(State()), p, i / WORDS).present ==> table == DirAt(old(State()), p, i / WORDS).address
      ensures found && !DirAt(old(State()), p, i / WORDS).present ==>
                table == NextFree(old(used), BASE) && State() == TableAdded(old(State()), p, i / WORDS, table)
      ensures Exact(old(State())) ==> Exact(State()) && TablesGrown(old(State()), State(), p, i + 1)
      ensures Exact(old(State())) && found ==> DirAt(State(), p, i / WORDS).present && DirAt(State(), p, i / WORDS).address == table
      ensures Exact(old(State())) ==> ContentsKept(old(State()), State())
    {
      var root := processes[p].root;
      var directory := ReadFrame(root);
      var dir := directory[i / WORDS];
      assert dir == DirAt(State(), p, i / WORDS);
      if dir.present {
        return true, dir.address;
      }
      if !allocate {
        return false, 0;
      }
      ghost var m := State();
      table := AllocBlank();
      var w := dir.(address := table, present := true, user := true);
      if Exact(m) {
        NewTableKeeps(m, p, i / WORDS, table, w);
      }
      WriteWord(root, i / WORDS, w);
      found := true;
      if Exact(m) {
        TableWritesKeepContents(m, State(), p, i / WORDS, table, root);
      }
    }

    /** The entry that fetch_page_index() points to. */
    method ReadEntry(p: nat, i: nat, table: nat) returns (e: Word)
      requires p in processes && i < PAGES && DirAt(State(), p, i / WORDS).present && DirAt(State(), p, i / WORDS).address == table
      ensures e == EntryAt(State(), p, i)
    {
      var words := ReadFrame(table);
      e := words[i % WORDS];
    }

    /** find_free_virtual_pages(): adds the tables it looks into, and changes no mapping. */
    method FindFreeVirtualPages(p: nat, count: nat) returns (start: nat)
      requires Exact(State()) && p in processes
      requires exists o: nat {:trigger EmptyRun(State(), p, o, count)} :: USER_START <= o && EmptyRun(State(), p, o, count)
      modifies this`used, this`memory
      ensures Exact(State()) && TablesGrown(old(State()), State(), p, start + count) && ContentsKept(old(State()), State())
      ensures FirstEmptyRun(old(State()), p, start, count)
    {
      ghost var m := State();
      ghost var w: nat :| USER_START <= w && EmptyRun(m, p, w, count);
      start := USER_START;
      var i := 0;
      while i < count
        invariant Exact(State()) && TablesGrown(m, State(), p, start + i) && ContentsKept(m, State())
        invariant USER_START <= start <= w && i <= count
        invariant forall j: nat {:trigger EntryAt(m, p, j)} :: start <= j < start + i ==> EntryAt(m, p, j) == ZERO
        invariant forall o: nat {:trigger EmptyRun(m, p, o, count)} :: USER_START <= o < start ==> !EmptyRun(m, p, o, count)
        decreases w - start, count - i
      {
        var e := LookAtPage(m, p, start + i);
        if e == ZERO {
          i := i + 1;
        } else {
          forall o: nat | start <= o <= start + i ensures !EmptyRun(m, p, o, count) {
          }
          assert !(start <= w <= start + i);
          start, i := start + i + 1, 0;
        }
      }
    }

    /** The entry of page i, in a table that is added if there is none. */
    method LookAtPage(ghost m: Machine, p: nat, i: nat) returns (e: Word)
      requires Exact(State()) && p in m.processes && i < PAGES && TablesGrown(m, State(), p, i) && ContentsKept(m, State())
      modifies this`used, this`memory
      ensures Exact(State()) && TablesGrown(m, State(), p, i + 1) && ContentsKept(m, State())
      ensures e == EntryAt(m, p, i)
    {
      ghost var m1 := State();
      var _, table := FetchPageIndex(p, i, true);
      Regrown(m, m1, State(), p, i);
      ContentsChain(m, m1, State());
      e := ReadEntry(p, i, table);
    }

    static lemma Regrown(m: Machine, m1: Machine, m2: Machine, p: nat, i: nat)
      requires p in m.processes && TablesGrown(m, m1, p, i) && TablesGrown(m1, m2, p, i + 1)
      ensures TablesGrown(m, m2, p, i + 1)
    {
      DirsChain(m, m1, m2, p, i, i + 1, i + 1);
      forall q, j: nat | q in m.processes && j < PAGES ensures EntryAt(m2, q, j) == EntryAt(m, q, j) {
        assert EntryAt(m1, q, j) == EntryAt(m, q, j);
      }
    }

    /** preferred_virtual_pages_free() */
    method PreferredVirtualPagesFree(p: nat, start: nat, count: nat) returns (free: bool)
      requires Exact(State()) && p in processes && start + count <= PAGES
      modifies this`used, this`memory
      ensures State() == old(State())
      ensures free <==> EmptyRun(State(), p, start, count)
    {
      var i := 0;
      while i < count
        invariant 0 <= i <= count && State() == old(State())
        invariant forall j: nat {:trigger EntryAt(State(), p, j)} :: start <= j < start + i ==> EntryAt(State(), p, j) == ZERO
      {
        var found, table := FetchPageIndex(p, start + i, false);
        if found {
          var e := ReadEntry(p, start + i, table);
          if e != ZERO {
            return false;
          }
        }
        i := i + 1;
      }
      return true;
    }

    /** The page-allocating call; 0 for a request that is refused. */
    method AllocatePages(p: nat, address: nat, count: nat, flags: nat) returns (start: nat)
      requires Exact(State()) && p in processes
      requires count != 0 && address != 0 && address % 4096 == 0 ==> address / 4096 + count <= PAGES
      requires count != 0 && address == 0 ==>
                 exists o: nat {:trigger EmptyRun(State(), p, o, count)} :: USER_START <= o && EmptyRun(State(), p, o, count)
      modifies this`used, this`memory
      ensures Exact(State())
      ensures count == 0 || (address != 0 && (address % 4096 != 0 || !EmptyRun(old(State()), p, address / 4096, count))) ==>
                start == 0 && State() == old(State())
      ensures count != 0 && address != 0 && address % 4096 == 0 && EmptyRun(old(State()), p, address / 4096, count) ==> start == address
      ensures count != 0 && address == 0 ==> start % 4096 == 0 && FirstEmptyRun(old(State()), p, start / 4096, count)
      ensures start != 0 ==> RunReserved(old(State()), State(), p, start / 4096, count, flags)
      ensures start != 0 ==> DirsGrown(old(State()), State(), p, start / 4096 + count)
      ensures ContentsKept(old(State()), State())
      ensures start != 0 ==> forall j: nat {:trigger EntryAt(State(), p, j)} :: start / 4096 <= j < start / 4096 + count && EntryAt(State(), p, j).present ==>
                FrameAt(State(), EntryAt(State(), p, j).address) == Blank()
      ensures start != 0 ==> forall j: nat {:trigger EntryAt(State(), p, j)} :: start / 4096 <= j < start / 4096 + count ==>
                var e := EntryAt(State(), p, j);
                && e.user && e.writable && e.owned && !e.global && !e.release
                && (e.present <==> flags / 2 % 2 == 1) && (e.dynamic <==> flags % 2 == 1)
    {
      if count == 0 {
        return 0;
      }
      ghost var m := State();
      var first;
      if address != 0 {
        if address % 4096 != 0 {
          return 0;
        }
        var free := PreferredVirtualPagesFree(p, address / 4096, count);
        if !free {
          return 0;
        }
        first := address / 4096;
      } else {
        first := FindFreeVirtualPages(p, count);
      }
      var i := 0;
      while i < count
        invariant Exact(State()) && i <= count && RunReserved(m, State(), p, first, i, flags)
        invariant DirsGrown(m, State(), p, first + count) && ContentsKept(m, State())
        invariant AllBlank(State(), p, first, i)
      {
        ghost var m1 := State();
        ReservePage(m, p, first, i, flags);
        OneMoreBlank(m, m1, State(), p, first, i, count, flags);
        DirsChain(m, m1, State(), p, first + count, first + i + 1, first + count);
        i := i + 1;
      }
      start := first * 4096;
      RightsOfRun(m, State(), p, first, count, flags);
    }

    /** One turn of its loop. */
    method ReservePage(ghost m: Machine, p: nat, first: nat, i: nat, flags: nat)
      requires Exact(State()) && RunReserved(m, State(), p, first, i, flags) && first + i < PAGES
      requires EntryAt(m, p, first + i) == ZERO
      modifies this`used, this`memory
      ensures Exact(State()) && RunReserved(m, State(), p, first, i + 1, flags)
      ensures DirsGrown(old(State()), State(), p, first + i + 1)
      ensures EntriesBut(old(State()), State(), p, first + i) && ContentsKept(old(State()), State())
      ensures EntryAt(State(), p, first + i).present ==> FrameAt(State(), EntryAt(State(), p, first + i).address) == Blank()
    {
      ghost var m0 := State();
      var _, table := FetchPageIndex(p, first + i, true);
      ghost var m1 := State();
      ReserveEntry(p, first + i, table, flags);
      ContentsChain(m0, m1, State());
      OneMoreReserved(m, m0, m1, State(), p, first, i, flags);
      DirsChain(m0, m1, State(), p, first + i + 1, 0, first + i + 1);
    }

    /** The entry of a page is set up, with a frame if it is to be there at once. */
    method ReserveEntry(p: nat, j: nat, table: nat, flags: nat)
      requires Exact(State()) && p in processes && j < PAGES && !Owned(EntryAt(State(), p, j))
      requires DirAt(State(), p, j / WORDS).present && DirAt(State(), p, j / WORDS).address == table
      modifies this`used, this`memory
      ensures Exact(State()) && SameDirs(old(State()), State()) && EntriesBut(old(State()), State(), p, j) && old(used) <= used
      ensures EntryAt(State(), p, j) == Reserved(flags, EntryAt(State(), p, j).address)
      ensures EntryAt(State(), p, j).present ==> EntryAt(State(), p, j).address !in old(used) && FrameAt(State(), EntryAt(State(), p, j).address) == Blank()
      ensures ContentsKept(old(State()), State())
    {
      ghost var m := State();
      var w := Reserved(flags, 0);
      if flags / IMMEDIATELY % 2 == 1 {
        var f := AllocBlank();
        w := Reserved(flags, f);
        MapOwnedKeeps(m, p, j, w);
      } else {
        MapUnownedKeeps(m, p, j, w);
      }
      ghost var a := if w.present then w.address else NextFree(used, BASE);
      assert a !in m.used && FrameOf(m, Table(p, j / WORDS)) == table && Sound(m, Table(p, j / WORDS));
      WriteWord(table, j % WORDS, w);
      TableWritesKeepContents(m, State(), p, j / WORDS, a, table);
    }

    static lemma OneMoreReserved(m: Machine, m0: Machine, m1: Machine, m2: Machine, p: nat, first: nat, i: nat, flags: nat)
      requires RunReserved(m, m0, p, first, i, flags) && TablesGrown(m0, m1, p, first + i + 1) && EntriesBut(m1, m2, p, first + i)
      requires first + i < PAGES && m2.kernel == m1.kernel && m1.used <= m2.used
      requires EntryAt(m2, p, first + i) == Reserved(flags, EntryAt(m2, p, first + i).address)
      requires EntryAt(m2, p, first + i).present ==> EntryAt(m2, p, first + i).address !in m1.used
      ensures RunReserved(m, m2, p, first, i + 1, flags)
    {
      forall j: nat | first <= j < first + i + 1 ensures NewlyReserved(m, m2, p, j, flags) {
        if j < first + i {
          assert NewlyReserved(m, m0, p, j, flags);
          assert EntryAt(m2, p, j) == EntryAt(m1, p, j) == EntryAt(m0, p, j);
        }
      }
      forall q, j: nat | q in m.processes && j < PAGES && !(q == p && first <= j < first + i + 1) ensures EntryAt(m2, q, j) == EntryAt(m, q, j) {
        assert EntryAt(m2, q, j) == EntryAt(m1, q, j) == EntryAt(m0, q, j);
      }
    }

    /** Stores of a process into one of its own pages: no mapping of any process changes. */
    method Store(p: nat, i: nat, data: Words)
      requires Exact(State()) && p in processes && i < PAGES && Owned(EntryAt(State(), p, i))
      modifies this`memory
      ensures Exact(State()) && SameDirs(old(State()), State()) && SameEntries(old(State()), State())
      ensures FrameAt(State(), EntryAt(State(), p, i).address) == data && MemoryBut(old(State()), State(), EntryAt(old(State()), p, i).address)
    {
      StoresAreIsolated(State(), p, i, data);
      var directory := ReadFrame(processes[p].root);
      var e := ReadEntry(p, i, directory[i / WORDS].address);
      memory := memory[e.address := data];
    }

    /** HandlePageFault_hl(): false if the process lives on, with the page it asked for. */
    method HandlePageFault(p: nat, i: nat) returns (killed: bool)
      requires Exact(State()) && LazyOwned(State()) && p in processes && i < PAGES
      modifies this`used, this`memory, this`processes
      ensures Exact(State())
      ensures killed <==> EntryAt(old(State()), p, i).present || !EntryAt(old(State()), p, i).dynamic
      ensures killed ==> Killed(old(State()), State(), p)
      ensures !killed ==> EntriesBut(old(State()), State(), p, i)
      ensures !killed ==> EntryAt(State(), p, i).present && EntryAt(State(), p, i).address !in old(used)
      ensures !killed ==> EntryAt(State(), p, i) == EntryAt(old(State()), p, i).(present := true, address := EntryAt(State(), p, i).address)
      ensures !killed ==> DirAt(old(State()), p, i / WORDS).present && State() == Backed(old(State()), p, i)
      ensures !killed ==> SameDirs(old(State()), State())
      ensures ContentsKept(old(State()), State()) && (!killed ==> FrameAt(State(), EntryAt(State(), p, i).address) == Blank())
    {
      var directory := ReadFrame(processes[p].root);
      if !directory[i / WORDS].present {
        KillProcess(p);
        return true;
      }
      var table := directory[i / WORDS].address;
      var e := ReadEntry(p, i, table);
      if !e.present {
        if e.dynamic {
          ghost var m := State();
          var f := AllocBlank();
          MapOwnedKeeps(m, p, i, e.(present := true, address := f));
          assert FrameOf(m, Table(p, i / WORDS)) == table && Sound(m, Table(p, i / WORDS));
          WriteWord(table, i % WORDS, e.(present := true, address := f));
          TableWritesKeepContents(m, State(), p, i / WORDS, f, table);
          return false;
        }
      }
      KillProcess(p);
      return true;
    }

    /** The memory side of kill_process(). */
    method KillProcess(p: nat)
      requires Exact(State()) && p in processes
      modifies this`used, this`processes
      ensures Killed(old(State()), State(), p) && Exact(State())
    {
      ghost var m := State();
      var root := processes[p].root;
      var shared := processes[p].shared;
      var directory := ReadFrame(root);
      var i := 0;
      while i < WORDS
        invariant 0 <= i <= WORDS && memory == m.memory && processes == m.processes
        invariant used == m.used - Freed(m, p, i * (WORDS + 1))
      {
        var dir := directory[i];
        assert dir == DirAt(m, p, i);
        assert FreedIn(m, p, i, WORDS + 1) == Freed(m, p, (i + 1) * (WORDS + 1));
        if dir.present {
          FreeTable(m, p, i, dir.address);
        } else {
          NothingInAbsentTable(m, p, i, WORDS + 1);
        }
        i := i + 1;
      }
      var _ := FreePhysicalPage(root);
      assert SlotAt(p, SLOTS - 2) == Root(p);
      var _ := FreePhysicalPage(shared);
      assert SlotAt(p, SLOTS - 1) == Shared(p);
      processes := processes - {p};
      KillFreesItsSlots(m, State(), p);
      KillKeepsExact(m, State(), p);
    }

    static lemma SlotsOfTable(p: nat, d: nat, k: nat)
      requires d < WORDS && k <= WORDS
      ensures SlotAt(p, d * (WORDS + 1) + k) == if k == WORDS then Table(p, d) else Page(p, d * WORDS + k)
    {
      var n := d * (WORDS + 1) + k;
      assert n / (WORDS + 1) == d && n % (WORDS + 1) == k;
    }

    static lemma PageOfTable(m: Machine, p: nat, d: nat, k: nat)
      requires p in m.processes && d < WORDS && k < WORDS
      ensures d * WORDS + k < PAGES
      ensures EntryAt(m, p, d * WORDS + k) == if DirAt(m, p, d).present then FrameAt(m, DirAt(m, p, d).address)[k] else ZERO
    {
      assert (d * WORDS + k) / WORDS == d && (d * WORDS + k) % WORDS == k;
    }

    /** The frames freed in table d before its word k. */
    static ghost function FreedIn(m: Machine, p: nat, d: nat, k: nat): set<nat> {
      Freed(m, p, d * (WORDS + 1) + k)
    }

    static lemma NextFreed(m: Machine, p: nat, d: nat, k: nat)
      requires p in m.processes && d < WORDS && k <= WORDS
      ensures var f := FrameOf(m, if k == WORDS then Table(p, d) else Page(p, d * WORDS + k));
              FreedIn(m, p, d, k + 1) == FreedIn(m, p, d, k) + (if f < 0 then {} else {f})
    {
      SlotsOfTable(p, d, k);
    }

    static lemma {:induction false} NothingInAbsentTable(m: Machine, p: nat, d: nat, k: nat)
      requires p in m.processes && d < WORDS && !DirAt(m, p, d).present && k <= WORDS + 1
      ensures FreedIn(m, p, d, k) == FreedIn(m, p, d, 0)
    {
      if k > 0 {
        NothingInAbsentTable(m, p, d, k - 1);
        NextFreed(m, p, d, k - 1);
        if k <= WORDS {
          PageOfTable(m, p, d, k - 1);
        }
      }
    }

    /** The pages of one table, and the table itself. */
    method FreeTable(ghost m: Machine, p: nat, d: nat, table: nat)
      requires p in m.processes && d < WORDS && DirAt(m, p, d).present && DirAt(m, p, d).address == table
      requires memory == m.memory && used == m.used - FreedIn(m, p, d, 0)
      modifies this`used
      ensures used == m.used - FreedIn(m, p, d, WORDS + 1)
    {
      var entries := ReadFrame(table);
      assert entries == FrameAt(m, table);
      var j := 0;
      while j < WORDS
        invariant 0 <= j <= WORDS && used == m.used - FreedIn(m, p, d, j)
      {
        NextFreed(m, p, d, j);
        PageOfTable(m, p, d, j);
        if entries[j].present && (entries[j].owned || entries[j].release) {
          var _ := FreePhysicalPage(entries[j].address);
        }
        j := j + 1;
      }
      NextFreed(m, p, d, WORDS);
      var _ := FreePhysicalPage(table);
    }

    /** A directory in which no table is present. */
    method ClearDirectory(root: nat)
      modifies this`memory
      ensures forall d {:trigger FrameAt(State(), root)[d]} :: 0 <= d < WORDS ==>
                !FrameAt(State(), root)[d].present && FrameAt(State(), root)[d].user && FrameAt(State(), root)[d].writable
      ensures MemoryBut(old(State()), State(), root)
    {
      var i := 0;
      while i < WORDS
        invariant 0 <= i <= WORDS && used == old(used) && processes == old(processes) && kernel == old(kernel)
        invariant forall d {:trigger FrameAt(State(), root)[d]} :: 0 <= d < i ==>
                    !FrameAt(State(), root)[d].present && FrameAt(State(), root)[d].user && FrameAt(State(), root)[d].writable
        invariant MemoryBut(old(State()), State(), root)
      {
        ghost var m := State();
        var words := ReadFrame(root);
        WriteWord(root, i, words[i].(user := true, present := false, writable := true));
        MemoryChain(old(State()), m, State(), root);
        i := i + 1;
      }
    }

    /** The words of low table d, one by one; the flags of the kernel stay what they were. */
    method FillLowTable(table: nat, d: nat, user: bool)
      modifies this`memory
      ensures forall k {:trigger FrameAt(State(), table)[k]} :: 0 <= k < WORDS ==>
                FrameAt(State(), table)[k] == Low(FrameAt(old(State()), table)[k], d * WORDS + k, user)
      ensures MemoryBut(old(State()), State(), table)
    {
      var j := 0;
      while j < WORDS
        invariant 0 <= j <= WORDS && used == old(used) && processes == old(processes) && kernel == old(kernel)
        invariant forall k {:trigger FrameAt(State(), table)[k]} :: 0 <= k < WORDS ==>
                    FrameAt(State(), table)[k] ==
                    if k < j then Low(FrameAt(old(State()), table)[k], d * WORDS + k, user) else FrameAt(old(State()), table)[k]
        invariant MemoryBut(old(State()), State(), table)
      {
        ghost var m := State();
        var words := ReadFrame(table);
        WriteWord(table, j, words[j].(address := d * WORDS + j, present := true, writable := true, global := false, user := user));
        MemoryChain(old(State()), m, State(), table);
        j := j + 1;
      }
    }

    /** The memory side of create_process(), its thread's stack apart. */
    method CreateProcess(p: nat, user: bool)
      requires Exact(State()) && p !in processes
      modifies this`used, this`memory, this`processes
      ensures Created(old(State()), State(), p, user)
      ensures p in processes && RightsAtStart(State(), p, user)
    {
      ghost var m := State();
      var shared, root := NewRoot(p);
      ghost var fs := [shared, root];
      var i := 0;
      while i < LOW_TABLES
        invariant 0 <= i <= LOW_TABLES && Building(m, State(), p, fs, i, user) && fs[0] == shared && fs[1] == root
      {
        var table := AddLowTable(m, p, root, fs, i, user);
        fs := fs + [table];
        i := i + 1;
      }
      LastTable(m, p, fs, user, shared);
      RightsOfCreation(m, State(), p, user);
    }

    /** Its end: a wiped table behind the low ones, whose second page is the shared one. */
    method LastTable(ghost m: Machine, p: nat, ghost fs: seq<nat>, user: bool, shared: nat)
      requires Building(m, State(), p, fs, LOW_TABLES, user) && fs[0] == shared && p !in m.processes
      modifies this`used, this`memory
      ensures Created(m, State(), p, user)
    {
      ghost var m0 := State();
      assert DirAt(m0, p, LOW_TABLES) == FrameAt(m0, fs[1])[LOW_TABLES];
      var _, last := FetchPageIndex(p, USER_START + 1, true);
      ghost var m1 := State();
      var words := ReadFrame(last);
      WriteWord(last, 1, words[1].(present := true, address := shared, writable := true));
      Finish(m, m0, m1, State(), p, fs, user, last);
    }

    /** One turn of its loop: the frame is taken as it is, not wiped. */
    method AddLowTable(ghost m: Machine, p: nat, root: nat, ghost fs: seq<nat>, i: nat, user: bool) returns (table: nat)
      requires i < LOW_TABLES && Building(m, State(), p, fs, i, user) && root == fs[1]
      modifies this`used, this`memory
      ensures Building(m, State(), p, fs + [table], i + 1, user)
    {
      ghost var m0 := State();
      table := AllocPhysicalPage(1, false);
      FirstRunIsNextFree(used, m0.used, table);
      assert fs[1] in fs;
      ghost var m1 := State();
      var directory := ReadFrame(root);
      WriteWord(root, i, directory[i].(present := true, address := table));
      ghost var m2 := State();
      FillLowTable(table, i, user);
      ghost var m3 := State();
      forall f: nat | f != table && f != root ensures FrameAt(m3, f) == FrameAt(m0, f) {
        assert FrameAt(m3, f) == FrameAt(m2, f) == FrameAt(m1, f) == FrameAt(m0, f);
      }
      assert FrameAt(m3, root) == FrameAt(m2, root);
      assert FrameAt(m2, table) == FrameAt(m1, table) == FrameAt(m0, table);
      OneMoreTable(m, m0, m3, p, fs, i, user, table);
    }

    /** Its first two frames: the page shared with the kernel and the directory, with no table yet. */
    method NewRoot(p: nat) returns (shared: nat, root: nat)
      requires p !in processes
      modifies this`used, this`memory, this`processes
      ensures forall user :: Building(old(State()), State(), p, [shared, root], 0, user)
    {
      ghost var m := State();
      shared := AllocBlank();
      root := AllocBlank();
      ghost var m1 := State();
      ClearDirectory(root);
      ghost var m2 := State();
      processes := processes[p := Process(root, shared)];
      ghost var fs := [shared, root];
      assert FirstFree(m.used, 1) == [shared] by {
        assert m.used + (set f | f in FirstFree(m.used, 0)) == m.used;
      }
      assert m.used + (set f | f in FirstFree(m.used, 1)) == m.used + {shared};
      forall f: nat | f !in fs ensures FrameAt(State(), f) == FrameAt(m, f) {
        assert FrameAt(State(), f) == FrameAt(m2, f) == FrameAt(m1, f) == FrameAt(m, f);
      }
      forall d | 0 <= d < WORDS ensures !FrameAt(State(), fs[1])[d].present && FrameAt(State(), fs[1])[d].user && FrameAt(State(), fs[1])[d].writable {
        assert FrameAt(State(), root) == FrameAt(m2, root);
      }
      assert (set f | f in fs) == {shared, root};
    }

    /** Starts on clean frames, page-allocating calls, page faults, stores and ends of processes in any order; what the kernel would not accept is left out. */
    method Serve(calls: seq<Call>)
      requires Exact(State()) && LazyOwned(State()) && AllOpen(State())
      modifies this`used, this`memory, this`processes
      ensures Exact(State()) && LazyOwned(State()) && AllOpen(State()) && kernel == old(kernel)
      ensures KeptSoFar(old(State()), State(), calls, |calls|)
    {
      ghost var m := State();
      for n := 0 to |calls|
        invariant Exact(State()) && LazyOwned(State()) && AllOpen(State()) && kernel == old(kernel)
        invariant KeptSoFar(m, State(), calls, n)
      {
        ghost var m1 := State();
        ServeCall(calls[n]);
        KeptOn(m, m1, State(), calls, n);
      }
    }

    method ServeCall(call: Call)
      requires Exact(State()) && LazyOwned(State()) && AllOpen(State())
      modifies this`used, this`memory, this`processes
      ensures Exact(State()) && LazyOwned(State()) && AllOpen(State()) && kernel == old(kernel)
      ensures PagesKept(old(State()), State(), call)
    {
      ghost var m := State();
      match call
      case Start(p, user) =>
        if p !in processes && CleanStart(State()) {
          CreateProcess(p, user);
          CreationIsExactIff(m, State(), p, user);
          CreationKeepsLazy(m, State(), p, user);
          CreationKeepsPages(m, State(), call, p, user);
          CreationKeepsOpen(m, State(), p, user);
        }
      case Allocate(p, address, count, flags) =>
        if p in processes &&
           (if address != 0 then address / 4096 + count <= PAGES
            else exists o: nat {:trigger EmptyRun(State(), p, o, count)} | o <= PAGES :: USER_START <= o && EmptyRun(State(), p, o, count)) {
          var start := AllocatePages(p, address, count, flags);
          ReservationKeepsLazy(m, State(), p, start / 4096, if start == 0 then 0 else count, flags);
          ReservationKeepsPages(m, State(), call, p, start / 4096, if start == 0 then 0 else count, flags);
          GrowingKeepsOpen(m, State(), p, if start == 0 then 0 else start / 4096 + count);
        }
      case Fault(p, i) =>
        if p in processes && i < PAGES {
          var killed := HandlePageFault(p, i);
          FaultKeepsLazy(m, State(), p, i, killed);
          FaultKeepsPages(m, State(), p, i, killed);
          if killed {
            KillKeepsOpen(m, State(), p);
          } else {
            SameDirsStayOpen(m, State());
          }
        }
      case Save(p, i, data) =>
        if p in processes && i < PAGES && Owned(EntryAt(State(), p, i)) {
          Store(p, i, data);
          SameKeepsLazy(m, State());
          StoreKeepsPages(m, State(), p, i, data);
          SameDirsStayOpen(m, State());
        }
      case Kill(p) =>
        if p in processes {
          KillProcess(p);
          KillKeepsLazy(m, State(), p);
          KillKeepsPages(m, State(), call, p);
          KillKeepsOpen(m, State(), p);
        }
    }
  }

  /** From the empty machine on, any such calls keep the ownership of frames exact. */
  method ServeFromBoot(calls: seq<Call>) returns (k: Kernel)
    ensures fresh(k) && Exact(k.State()) && LazyOwned(k.State()) && AllOpen(k.State())
  {
    k := new Kernel();
    k.Serve(calls);
  }

  /**
   A process reserves pages to be had on first access and touches one of them: the page is
   there, with a frame that was free and holds zeros, and both the page and its table may be
   read and written at the user's level.
   */
  method ReserveThenTouch(k: Kernel, p: nat, count: nat, i: nat) returns (start: nat, killed: bool)
    requires Exact(k.State()) && LazyOwned(k.State()) && p in k.processes && i < count
    requires exists o: nat {:trigger EmptyRun(k.State(), p, o, count)} :: USER_START <= o && EmptyRun(k.State(), p, o, count)
    modifies k
    ensures Exact(k.State()) && !killed && start % 4096 == 0 && start / 4096 + i < PAGES && p in k.processes
    ensures var e := EntryAt(k.State(), p, start / 4096 + i);
            && e.present && e.user && e.writable && e.owned && e.address !in old(k.used)
            && forall w :: 0 <= w < 1024 ==> FrameAt(k.State(), e.address)[w] == ZERO
    ensures var d := DirAt(k.State(), p, (start / 4096 + i) / 1024);
            d.present && (old(AllOpen(k.State())) ==> d.user && d.writable)
  {
    ghost var m := k.State();
    start := k.AllocatePages(p, 0, count, 1);
    ghost var m1 := k.State();
    ReservationKeepsLazy(m, m1, p, start / 4096, count, 1);
    var j := start / 4096 + i;
    ghost var e := EntryAt(m1, p, j);
    assert e.user && e.writable && e.owned && !e.present && e.dynamic;
    if AllOpen(m) {
      GrowingKeepsOpen(m, m1, p, start / 4096 + count);
    }
    killed := k.HandlePageFault(p, j);
    if AllOpen(m1) {
      SameDirsStayOpen(m1, k.State());
      assert DirsOpen(k.State(), p);
    }
  }
}
