/**
 Who owns which physical frame. Physical memory is a set of frames in use and the 1024 words
 each frame holds; page directories and page tables are themselves such frames, so two
 processes are kept apart only as long as their frames are. Frames are named by page index.
 */
module PageOwnership {

  /** The first frame that the allocator may hand out, 0x1200000 / 4096. */
  const BASE: nat := 0x1200
  const WORDS: nat := 1024
  const PAGES: nat := 1024 * 1024
  /** Page directories that map the first 100 MB, and the first page behind them. */
  const LOW_TABLES: nat := 25
  const USER_START: nat := 25600

  /** A 32-bit entry of a page directory or a page table; `rest` is every bit without a name here. */
  datatype Word = Word(present: bool, writable: bool, user: bool, global: bool, owned: bool, dynamic: bool, release: bool, rest: nat, address: nat)

  const ZERO: Word := Word(false, false, false, false, false, false, false, 0, 0)

  type Words = w: seq<Word> | |w| == WORDS witness seq(WORDS, _ => ZERO)

  /** A frame that has been wiped. */
  function Blank(): Words {
    seq(WORDS, _ => ZERO)
  }

  datatype Process = Process(root: nat, shared: nat)

  /** `kernel` holds the frames in use that no process will give back: the kernel's heap, thread stacks. */
  datatype Machine = Machine(used: set<nat>, memory: map<nat, Words>, kernel: set<nat>, processes: map<nat, Process>)

  function FrameAt(m: Machine, f: nat): Words {
    if f in m.memory then m.memory[f] else Blank()
  }

  function DirAt(m: Machine, p: nat, d: nat): Word
    requires p in m.processes && d < WORDS
  {
    FrameAt(m, m.processes[p].root)[d]
  }

  /** What page i of process p maps to: an absent table holds nothing. */
  function EntryAt(m: Machine, p: nat, i: nat): Word
    requires p in m.processes && i < PAGES
  {
    if DirAt(m, p, i / WORDS).present then FrameAt(m, DirAt(m, p, i / WORDS).address)[i % WORDS] else ZERO
  }

  /** Present, and to be released when the process ends. */
  predicate Owned(e: Word) {
    e.present && (e.owned || e.release)
  }

  /** Each place that refers to a frame which the end of its process gives back. */
  datatype Slot = Root(p: nat) | Shared(p: nat) | Table(p: nat, d: nat) | Page(p: nat, i: nat)

  /** The frame of a slot, or -1 for a slot that has none. */
  function FrameOf(m: Machine, s: Slot): int {
    if s.p !in m.processes then -1 else
    match s
    case Root(_) => m.processes[s.p].root
    case Shared(_) => m.processes[s.p].shared
    case Table(_, _) => if s.d < WORDS && DirAt(m, s.p, s.d).present then DirAt(m, s.p, s.d).address else -1
    case Page(_, _) => if s.i < PAGES && Owned(EntryAt(m, s.p, s.i)) then EntryAt(m, s.p, s.i).address else -1
  }

  ghost predicate Held(m: Machine, f: nat) {
    exists s {:trigger FrameOf(m, s)} :: FrameOf(m, s) == f
  }

  ghost predicate Sound(m: Machine, s: Slot) {
    FrameOf(m, s) != -1 ==> FrameOf(m, s) in m.used && FrameOf(m, s) !in m.kernel
  }

  /**
   The frames in use are the kernel's frames and the frames of the slots, each of exactly
   one slot: nothing is shared, nothing dangles, nothing has leaked.
   */
  ghost predicate Exact(m: Machine) {
    && m.kernel <= m.used
    && (forall s {:trigger FrameOf(m, s)} :: Sound(m, s))
    && (forall s, t {:trigger FrameOf(m, s), FrameOf(m, t)} :: s != t && FrameOf(m, s) != -1 ==> FrameOf(m, s) != FrameOf(m, t))
    && (forall f {:trigger Held(m, f)} :: f in m.used && f !in m.kernel ==> Held(m, f))
  }

  /** The page tables of every process say the same before and after, except for one page. */
  ghost predicate EntriesBut(m: Machine, m': Machine, p: nat, i: nat) {
    && m'.processes == m.processes
    && forall q, j: nat {:trigger EntryAt(m', q, j)} ::
         q in m.processes && j < PAGES && !(q == p && j == i) ==> EntryAt(m', q, j) == EntryAt(m, q, j)
  }

  ghost predicate SameEntries(m: Machine, m': Machine) {
    && m'.processes == m.processes
    && forall q, j: nat {:trigger EntryAt(m', q, j)} :: q in m.processes && j < PAGES ==> EntryAt(m', q, j) == EntryAt(m, q, j)
  }

  ghost predicate DirsBut(m: Machine, m': Machine, p: nat, d: nat) {
    && m'.processes == m.processes
    && forall q, e: nat {:trigger DirAt(m', q, e)} ::
         q in m.processes && e < WORDS && !(q == p && e == d) ==> DirAt(m', q, e) == DirAt(m, q, e)
  }

  ghost predicate SameDirs(m: Machine, m': Machine) {
    && m'.processes == m.processes
    && forall q, e: nat {:trigger DirAt(m', q, e)} :: q in m.processes && e < WORDS ==> DirAt(m', q, e) == DirAt(m, q, e)
  }

  /** A frame taken from the allocator, wiped. */
  function TakeBlank(m: Machine, f: nat): Machine {
    Machine(m.used + {f}, m.memory[f := Blank()], m.kernel, m.processes)
  }

  function Write(m: Machine, f: nat, k: nat, w: Word): Machine
    requires k < WORDS
  {
    Machine(m.used, m.memory[f := FrameAt(m, f)[k := w]], m.kernel, m.processes)
  }

  ghost predicate FramesBut(m: Machine, m': Machine, s0: Slot) {
    forall s {:trigger FrameOf(m', s)} {:trigger FrameOf(m, s)} :: s != s0 ==> FrameOf(m', s) == FrameOf(m, s)
  }

  /** One more slot takes one more frame. */
  lemma TakenKeepsExact(m: Machine, m': Machine, s0: Slot, f: nat)
    requires Exact(m) && f !in m.used && FrameOf(m, s0) == -1 && FrameOf(m', s0) == f
    requires FramesBut(m, m', s0) && m'.used == m.used + {f} && m'.kernel == m.kernel
    ensures Exact(m')
  {
    forall s ensures Sound(m', s) {
      assert Sound(m, s);
    }
    forall s, t | s != t && FrameOf(m', s) != -1 ensures FrameOf(m', s) != FrameOf(m', t) {
      assert Sound(m, s) && Sound(m, t);
    }
    forall g | g in m'.used && g !in m'.kernel ensures Held(m', g) {
      if g == f {
        assert FrameOf(m', s0) == g;
      } else {
        assert Held(m, g);
        var s :| FrameOf(m, s) == g;
        assert FrameOf(m', s) == g;
      }
    }
  }

  lemma SameFramesKeepExact(m: Machine, m': Machine)
    requires Exact(m) && m'.used == m.used && m'.kernel == m.kernel
    requires forall s {:trigger FrameOf(m', s)} {:trigger FrameOf(m, s)} :: FrameOf(m', s) == FrameOf(m, s)
    ensures Exact(m')
  {
    forall s ensures Sound(m', s) {
      assert Sound(m, s);
    }
    forall g | g in m'.used && g !in m'.kernel ensures Held(m', g) {
      assert Held(m, g);
      var s :| FrameOf(m, s) == g;
      assert FrameOf(m', s) == g;
    }
  }

  /** Frames that no directory and no table of m lives in. */
  ghost predicate Plain(m: Machine, f: nat) {
    && (forall q :: q in m.processes ==> m.processes[q].root != f)
    && (forall q, d: nat {:trigger DirAt(m, q, d)} :: q in m.processes && d < WORDS && DirAt(m, q, d).present ==> DirAt(m, q, d).address != f)
  }

  /** Whatever is put into such a frame, no mapping of any process changes. */
  lemma PlainFrameIsInert(m: Machine, m': Machine, f: nat)
    requires Plain(m, f) && m'.processes == m.processes
    requires forall g {:trigger FrameAt(m', g)} :: g != f ==> FrameAt(m', g) == FrameAt(m, g)
    ensures SameDirs(m, m') && SameEntries(m, m')
    ensures forall s :: FrameOf(m', s) == FrameOf(m, s)
  {
    forall q, d: nat | q in m.processes && d < WORDS ensures DirAt(m', q, d) == DirAt(m, q, d) {
    }
    forall q, j: nat | q in m.processes && j < PAGES ensures EntryAt(m', q, j) == EntryAt(m, q, j) {
      assert DirAt(m', q, j / WORDS) == DirAt(m, q, j / WORDS);
    }
    forall s ensures FrameOf(m', s) == FrameOf(m, s) {
      if s.p in m.processes {
        match s
        case Table(p, d) => if d < WORDS { assert DirAt(m', p, d) == DirAt(m, p, d); }
        case Page(p, i) => if i < PAGES { assert EntryAt(m', p, i) == EntryAt(m, p, i); }
        case _ =>
      }
    }
  }

  lemma FreeFrameIsPlain(m: Machine, f: nat)
    requires Exact(m) && (f !in m.used || f in m.kernel)
    ensures Plain(m, f)
  {
    forall q | q in m.processes ensures m.processes[q].root != f {
      assert FrameOf(m, Root(q)) == m.processes[q].root;
      assert Sound(m, Root(q));
    }
    forall q, d: nat | q in m.processes && d < WORDS && DirAt(m, q, d).present ensures DirAt(m, q, d).address != f {
      assert FrameOf(m, Table(q, d)) == DirAt(m, q, d).address;
      assert Sound(m, Table(q, d));
    }
  }

  /** A page of a process's own is never a directory or a table. */
  lemma OwnPageIsPlain(m: Machine, p: nat, i: nat)
    requires Exact(m) && p in m.processes && i < PAGES && Owned(EntryAt(m, p, i))
    ensures Plain(m, EntryAt(m, p, i).address)
  {
    var f := FrameOf(m, Page(p, i));
    forall q | q in m.processes ensures m.processes[q].root != f {
      assert FrameOf(m, Root(q)) == m.processes[q].root;
    }
    forall q, d: nat | q in m.processes && d < WORDS && DirAt(m, q, d).present ensures DirAt(m, q, d).address != f {
      assert FrameOf(m, Table(q, d)) == DirAt(m, q, d).address;
    }
  }

  /** Whatever a process writes into its own pages, no page table of any process changes. */
  lemma StoresAreIsolated(m: Machine, p: nat, i: nat, data: Words)
    requires Exact(m) && p in m.processes && i < PAGES && Owned(EntryAt(m, p, i))
    ensures var m' := m.(memory := m.memory[EntryAt(m, p, i).address := data]);
            SameDirs(m, m') && SameEntries(m, m') && Exact(m')
  {
    var f := EntryAt(m, p, i).address;
    var m' := m.(memory := m.memory[f := data]);
    OwnPageIsPlain(m, p, i);
    PlainFrameIsInert(m, m', f);
    SameFramesKeepExact(m, m');
  }

  /** A table added to a directory: the mappings stay what they were. */
  lemma {:induction false} NewTableKeeps(m: Machine, p: nat, d: nat, f: nat, w: Word)
    requires Exact(m) && p in m.processes && d < WORDS && !DirAt(m, p, d).present && f !in m.used && w.present && w.address == f
    ensures var m' := Write(TakeBlank(m, f), m.processes[p].root, d, w);
            Exact(m') && SameEntries(m, m') && DirsBut(m, m', p, d) && DirAt(m', p, d) == w && FrameAt(m', f) == Blank()
  {
    var m1 := TakeBlank(m, f);
    FreeFrameIsPlain(m, f);
    PlainFrameIsInert(m, m1, f);
    var root := m.processes[p].root;
    var m' := Write(m1, root, d, w);
    assert FrameAt(m', f) == Blank() && f != root;
    forall q, e: nat | q in m.processes && e < WORDS && !(q == p && e == d) ensures DirAt(m', q, e) == DirAt(m, q, e) {
      assert DirAt(m1, q, e) == DirAt(m, q, e);
      assert FrameOf(m, Root(q)) == m.processes[q].root && FrameOf(m, Root(p)) == root;
    }
    forall q, j: nat | q in m.processes && j < PAGES ensures EntryAt(m', q, j) == EntryAt(m, q, j) {
      var e := j / WORDS;
      if q == p && e == d {
      } else if DirAt(m, q, e).present {
        assert DirAt(m', q, e) == DirAt(m, q, e);
        assert EntryAt(m1, q, j) == EntryAt(m, q, j);
        assert FrameOf(m, Table(q, e)) == DirAt(m, q, e).address && FrameOf(m, Root(p)) == root;
      } else {
        assert DirAt(m', q, e) == DirAt(m, q, e);
      }
    }
    FramesFromEntries(m, m', Table(p, d));
    TakenKeepsExact(m, m', Table(p, d), f);
  }

  lemma FramesFromEntries(m: Machine, m': Machine, s0: Slot)
    requires m'.processes == m.processes
    requires if s0.Table? then DirsBut(m, m', s0.p, s0.d) else SameDirs(m, m')
    requires if s0.Page? then EntriesBut(m, m', s0.p, s0.i) else SameEntries(m, m')
    ensures FramesBut(m, m', s0)
  {
    forall s | s != s0 ensures FrameOf(m', s) == FrameOf(m, s) {
      if s.p in m.processes {
        match s
        case Table(p, d) => if d < WORDS { assert DirAt(m', p, d) == DirAt(m, p, d); }
        case Page(p, i) => if i < PAGES { assert EntryAt(m', p, i) == EntryAt(m, p, i); }
        case _ =>
      }
    }
  }

  /** Writing one entry of one table changes that one mapping and no other. */
  lemma EntryWriteIsLocal(m: Machine, p: nat, i: nat, w: Word)
    requires Exact(m) && p in m.processes && i < PAGES && DirAt(m, p, i / WORDS).present
    ensures var m' := Write(m, DirAt(m, p, i / WORDS).address, i % WORDS, w);
            SameDirs(m, m') && EntriesBut(m, m', p, i) && EntryAt(m', p, i) == w
  {
    var d := i / WORDS;
    var t := DirAt(m, p, d).address;
    var m' := Write(m, t, i % WORDS, w);
    assert FrameOf(m, Table(p, d)) == t;
    forall q, e: nat | q in m.processes && e < WORDS ensures DirAt(m', q, e) == DirAt(m, q, e) {
      assert FrameOf(m, Root(q)) == m.processes[q].root;
    }
    forall q, j: nat | q in m.processes && j < PAGES && !(q == p && j == i) ensures EntryAt(m', q, j) == EntryAt(m, q, j) {
      var e := j / WORDS;
      assert DirAt(m', q, e) == DirAt(m, q, e);
      if DirAt(m, q, e).present {
        assert FrameOf(m, Table(q, e)) == DirAt(m, q, e).address;
        if q == p && e == d {
          assert j % WORDS != i % WORDS;
        }
      }
    }
  }

  /** A page that had no frame gets a frame of its own. */
  lemma MapOwnedKeeps(m: Machine, p: nat, i: nat, w: Word)
    requires Exact(m) && p in m.processes && i < PAGES && DirAt(m, p, i / WORDS).present
    requires !Owned(EntryAt(m, p, i)) && Owned(w) && w.address !in m.used
    ensures var m' := Write(TakeBlank(m, w.address), DirAt(m, p, i / WORDS).address, i % WORDS, w);
            Exact(m') && SameDirs(m, m') && EntriesBut(m, m', p, i) && EntryAt(m', p, i) == w
  {
    var f := w.address;
    var t := DirAt(m, p, i / WORDS).address;
    var m1 := m.(memory := m.memory[f := Blank()]);
    FreeFrameIsPlain(m, f);
    PlainFrameIsInert(m, m1, f);
    SameFramesKeepExact(m, m1);
    assert DirAt(m1, p, i / WORDS) == DirAt(m, p, i / WORDS);
    EntryWriteIsLocal(m1, p, i, w);
    var m2 := Write(m1, t, i % WORDS, w);
    var m' := Write(TakeBlank(m, f), t, i % WORDS, w);
    assert m' == m2.(used := m.used + {f});
    SameUnderUsed(m2, m');
    Chain(m, m1, m2, m', p, i);
    FramesFromEntries(m, m', Page(p, i));
    TakenKeepsExact(m, m', Page(p, i), f);
  }

  /** Which frames are in use does not matter to what the tables say. */
  lemma SameUnderUsed(m: Machine, m': Machine)
    requires m'.memory == m.memory && m'.processes == m.processes
    ensures SameDirs(m, m') && SameEntries(m, m')
  {
    forall q, d: nat | q in m.processes && d < WORDS ensures DirAt(m', q, d) == DirAt(m, q, d) {
    }
    forall q, j: nat | q in m.processes && j < PAGES ensures EntryAt(m', q, j) == EntryAt(m, q, j) {
    }
  }

  lemma Chain(m: Machine, m1: Machine, m2: Machine, m3: Machine, p: nat, i: nat)
    requires SameDirs(m, m1) && SameEntries(m, m1) && SameDirs(m1, m2) && EntriesBut(m1, m2, p, i) && SameDirs(m2, m3) && SameEntries(m2, m3)
    requires p in m.processes && i < PAGES
    ensures SameDirs(m, m3) && EntriesBut(m, m3, p, i) && EntryAt(m3, p, i) == EntryAt(m2, p, i)
  {
    forall q, d: nat | q in m.processes && d < WORDS ensures DirAt(m3, q, d) == DirAt(m, q, d) {
      assert DirAt(m2, q, d) == DirAt(m1, q, d) == DirAt(m, q, d);
    }
    forall q, j: nat | q in m.processes && j < PAGES && !(q == p && j == i) ensures EntryAt(m3, q, j) == EntryAt(m, q, j) {
      assert EntryAt(m2, q, j) == EntryAt(m1, q, j) == EntryAt(m, q, j);
    }
  }

  /** A page reserved without a frame. */
  lemma MapUnownedKeeps(m: Machine, p: nat, i: nat, w: Word)
    requires Exact(m) && p in m.processes && i < PAGES && DirAt(m, p, i / WORDS).present
    requires !Owned(EntryAt(m, p, i)) && !Owned(w)
    ensures var m' := Write(m, DirAt(m, p, i / WORDS).address, i % WORDS, w);
            Exact(m') && SameDirs(m, m') && EntriesBut(m, m', p, i) && EntryAt(m', p, i) == w
  {
    var m' := Write(m, DirAt(m, p, i / WORDS).address, i % WORDS, w);
    EntryWriteIsLocal(m, p, i, w);
    FramesFromEntries(m, m', Page(p, i));
    forall s ensures FrameOf(m', s) == FrameOf(m, s) {
    }
    SameFramesKeepExact(m, m');
  }

  // ---------------------------------------------------------------------------- contents

  /** The page of process q that is to be given back is mapped as before, and holds what it held. */
  predicate PageKept(m: Machine, m': Machine, q: nat, j: nat)
    requires q in m.processes && j < PAGES
  {
    q in m'.processes && EntryAt(m', q, j) == EntryAt(m, q, j) && FrameAt(m', EntryAt(m, q, j).address) == FrameAt(m, EntryAt(m, q, j).address)
  }

  /** No such page of any process holds anything else, whatever has become of its mapping. */
  ghost predicate ContentsKept(m: Machine, m': Machine) {
    forall q, j: nat {:trigger EntryAt(m, q, j)} :: q in m.processes && j < PAGES && Owned(EntryAt(m, q, j)) ==>
      FrameAt(m', EntryAt(m, q, j).address) == FrameAt(m, EntryAt(m, q, j).address)
  }

  lemma ContentsChain(m: Machine, m1: Machine, m2: Machine)
    requires ContentsKept(m, m1) && ContentsKept(m1, m2)
    requires forall q, j: nat {:trigger EntryAt(m, q, j)} :: q in m.processes && j < PAGES && Owned(EntryAt(m, q, j)) ==>
               q in m1.processes && EntryAt(m1, q, j) == EntryAt(m, q, j)
    ensures ContentsKept(m, m2)
  {
    forall q, j: nat | q in m.processes && j < PAGES && Owned(EntryAt(m, q, j))
      ensures FrameAt(m2, EntryAt(m, q, j).address) == FrameAt(m, EntryAt(m, q, j).address)
    {
      assert EntryAt(m1, q, j) == EntryAt(m, q, j);
    }
  }

  /** The frame b holds the directory or a table of process p. */
  predicate IsTableFrame(m: Machine, p: nat, d: nat, b: nat)
    requires p in m.processes && d < WORDS
  {
    b == m.processes[p].root || (DirAt(m, p, d).present && b == DirAt(m, p, d).address)
  }

  /** Writes to a frame that was free and to the tables of a process touch no page. */
  lemma TableWritesKeepContents(m: Machine, m': Machine, p: nat, d: nat, a: nat, b: nat)
    requires Exact(m) && p in m.processes && d < WORDS && IsTableFrame(m, p, d, b) && a !in m.used
    requires forall g: nat {:trigger FrameAt(m', g)} :: g != a && g != b ==> FrameAt(m', g) == FrameAt(m, g)
    ensures ContentsKept(m, m')
  {
    forall q, j: nat | q in m.processes && j < PAGES && Owned(EntryAt(m, q, j))
      ensures FrameAt(m', EntryAt(m, q, j).address) == FrameAt(m, EntryAt(m, q, j).address)
    {
      assert FrameOf(m, Page(q, j)) == EntryAt(m, q, j).address && Sound(m, Page(q, j));
      assert FrameOf(m, Root(p)) == m.processes[p].root;
      assert DirAt(m, p, d).present ==> FrameOf(m, Table(p, d)) == DirAt(m, p, d).address;
    }
  }

  // ---------------------------------------------------------------------------- the end of a process

  /** The order in which kill_process() comes to the slots of its victim. */
  const SLOTS: nat := WORDS * (WORDS + 1) + 2

  function SlotAt(p: nat, k: nat): Slot {
    if k >= SLOTS - 1 then Shared(p)
    else if k == SLOTS - 2 then Root(p)
    else if k % (WORDS + 1) == WORDS then Table(p, k / (WORDS + 1))
    else Page(p, k / (WORDS + 1) * WORDS + k % (WORDS + 1))
  }

  /** The frames of the first k slots of process p. */
  function Freed(m: Machine, p: nat, k: nat): set<nat> {
    if k == 0 then {}
    else if FrameOf(m, SlotAt(p, k - 1)) < 0 then Freed(m, p, k - 1)
    else Freed(m, p, k - 1) + {FrameOf(m, SlotAt(p, k - 1))}
  }

  lemma {:induction false} FreedHasSlot(m: Machine, p: nat, k: nat, f: nat) returns (s: Slot)
    requires f in Freed(m, p, k)
    ensures s.p == p && FrameOf(m, s) == f
  {
    if FrameOf(m, SlotAt(p, k - 1)) == f {
      s := SlotAt(p, k - 1);
    } else {
      s := FreedHasSlot(m, p, k - 1, f);
    }
  }

  lemma {:induction false} SlotIsFreed(m: Machine, p: nat, k: nat, j: nat)
    requires j < k && FrameOf(m, SlotAt(p, j)) >= 0
    ensures FrameOf(m, SlotAt(p, j)) in Freed(m, p, k)
  {
    if j < k - 1 {
      SlotIsFreed(m, p, k - 1, j);
    }
  }

  function Position(s: Slot): nat {
    match s
    case Root(_) => SLOTS - 2
    case Shared(_) => SLOTS - 1
    case Table(_, _) => s.d * (WORDS + 1) + WORDS
    case Page(_, _) => s.i / WORDS * (WORDS + 1) + s.i % WORDS
  }

  lemma PositionIsRight(m: Machine, s: Slot)
    requires FrameOf(m, s) >= 0
    ensures Position(s) < SLOTS && SlotAt(s.p, Position(s)) == s
  {
  }

  /** The victim is gone, and of the frames in use exactly those its slots referred to are free again. */
  ghost predicate Killed(m: Machine, m': Machine, p: nat) {
    && m'.processes == m.processes - {p} && m'.memory == m.memory && m'.kernel == m.kernel
    && forall f {:trigger f in m'.used} :: f in m'.used <==> f in m.used && !HeldBy(m, p, f)
  }

  ghost predicate HeldBy(m: Machine, p: nat, f: nat) {
    exists s: Slot {:trigger FrameOf(m, s)} :: s.p == p && FrameOf(m, s) == f
  }

  lemma KillFreesItsSlots(m: Machine, m': Machine, p: nat)
    requires m' == Machine(m.used - Freed(m, p, SLOTS), m.memory, m.kernel, m.processes - {p})
    ensures Killed(m, m', p)
  {
    forall f: nat ensures f in m'.used <==> f in m.used && !HeldBy(m, p, f) {
      if f in Freed(m, p, SLOTS) {
        var s := FreedHasSlot(m, p, SLOTS, f);
      } else if HeldBy(m, p, f) {
        var s: Slot :| s.p == p && FrameOf(m, s) == f;
        PositionIsRight(m, s);
        SlotIsFreed(m, p, SLOTS, Position(s));
      }
    }
  }

  /** What is left keeps its frames and its mappings, and nothing of the victim stays in use. */
  lemma KillKeepsExact(m: Machine, m': Machine, p: nat)
    requires Exact(m) && Killed(m, m', p)
    ensures Exact(m')
    ensures forall q, j: nat {:trigger EntryAt(m', q, j)} :: q in m'.processes && j < PAGES ==> EntryAt(m', q, j) == EntryAt(m, q, j)
    ensures forall q, d: nat {:trigger DirAt(m', q, d)} :: q in m'.processes && d < WORDS ==> DirAt(m', q, d) == DirAt(m, q, d)
  {
    forall q, d: nat | q in m'.processes && d < WORDS ensures DirAt(m', q, d) == DirAt(m, q, d) {
    }
    forall q, j: nat | q in m'.processes && j < PAGES ensures EntryAt(m', q, j) == EntryAt(m, q, j) {
    }
    forall s ensures FrameOf(m', s) == (if s.p == p then -1 else FrameOf(m, s)) {
      if s.p in m'.processes {
        match s
        case Table(q, d) => if d < WORDS { assert DirAt(m', q, d) == DirAt(m, q, d); }
        case Page(q, i) => if i < PAGES { assert EntryAt(m', q, i) == EntryAt(m, q, i); }
        case _ =>
      }
    }
    SurvivorsKeepExact(m, m', p);
  }

  /** Which frames the end of a process gives back, seen from its tables: present pages are, if one of two kernel flags says so. */
  lemma KillGivesBack(m: Machine, m': Machine, p: nat, f: nat)
    requires Exact(m) && Killed(m, m', p) && p in m.processes
    ensures f in m.used && f !in m'.used <==>
            || f == m.processes[p].root || f == m.processes[p].shared
            || (exists d: nat {:trigger DirAt(m, p, d)} :: d < 1024 && DirAt(m, p, d).present && DirAt(m, p, d).address == f)
            || (exists i: nat {:trigger EntryAt(m, p, i)} :: i < 1024 * 1024 && EntryAt(m, p, i).present
                                                             && (EntryAt(m, p, i).owned || EntryAt(m, p, i).release) && EntryAt(m, p, i).address == f)
  {
    assert f in m.used ==> (f in m'.used <==> !HeldBy(m, p, f));
    if HeldBy(m, p, f) {
      var s: Slot :| s.p == p && FrameOf(m, s) == f;
      assert Sound(m, s);
    }
    assert FrameOf(m, Root(p)) == m.processes[p].root && FrameOf(m, Shared(p)) == m.processes[p].shared;
    forall d: nat | d < 1024 && DirAt(m, p, d).present && DirAt(m, p, d).address == f ensures HeldBy(m, p, f) {
      assert FrameOf(m, Table(p, d)) == f;
    }
    forall i: nat | i < 1024 * 1024 && EntryAt(m, p, i).present && (EntryAt(m, p, i).owned || EntryAt(m, p, i).release) && EntryAt(m, p, i).address == f
      ensures HeldBy(m, p, f)
    {
      assert FrameOf(m, Page(p, i)) == f;
    }
  }

  /** No two pages to be given back share a frame, whosever they are, and none lies in a directory, a table or the kernel's memory. */
  lemma NoFrameShared(m: Machine, p: nat, i: nat, q: nat, j: nat)
    requires Exact(m) && p in m.processes && q in m.processes && i < PAGES && j < PAGES
    requires EntryAt(m, p, i).present && (EntryAt(m, p, i).owned || EntryAt(m, p, i).release)
    ensures EntryAt(m, p, i).address in m.used && EntryAt(m, p, i).address !in m.kernel && EntryAt(m, p, i).address != m.processes[q].root
    ensures DirAt(m, q, j / WORDS).present ==> EntryAt(m, p, i).address != DirAt(m, q, j / WORDS).address
    ensures EntryAt(m, q, j).present && (EntryAt(m, q, j).owned || EntryAt(m, q, j).release) && EntryAt(m, q, j).address == EntryAt(m, p, i).address ==> p == q && i == j
  {
    assert FrameOf(m, Page(p, i)) == EntryAt(m, p, i).address && Sound(m, Page(p, i));
    assert FrameOf(m, Root(q)) == m.processes[q].root;
    assert DirAt(m, q, j / WORDS).present ==> FrameOf(m, Table(q, j / WORDS)) == DirAt(m, q, j / WORDS).address;
    assert Owned(EntryAt(m, q, j)) ==> FrameOf(m, Page(q, j)) == EntryAt(m, q, j).address;
  }

  lemma SurvivorsKeepExact(m: Machine, m': Machine, p: nat)
    requires Exact(m) && Killed(m, m', p)
    requires forall s {:trigger FrameOf(m', s)} {:trigger FrameOf(m, s)} :: FrameOf(m', s) == (if s.p == p then -1 else FrameOf(m, s))
    ensures Exact(m')
  {
    forall s ensures Sound(m', s) {
      assert Sound(m, s);
      if FrameOf(m', s) != -1 {
        var f: nat := FrameOf(m, s);
        assert f in m.used;
        assert f in m'.used;
      }
    }
    forall f: nat | f in m'.kernel ensures !HeldBy(m, p, f) {
    }
    forall f | f in m'.used && f !in m'.kernel ensures Held(m', f) {
      assert Held(m, f);
      var s :| FrameOf(m, s) == f;
      assert FrameOf(m', s) == f;
    }
  }

  // ---------------------------------------------------------------------------- the start of a process

  /** How many frames a new process takes: shared page, directory, 25 tables for the first 100 MB, one more table. */
  const NEW_FRAMES: nat := 28

  /** What create_process() stores over a word of a table of the first 100 MB: not every bit is written. */
  function Low(w: Word, i: nat, user: bool): Word {
    w.(address := i, present := true, writable := true, global := false, user := user)
  }

  function SharedEntry(f: nat): Word {
    ZERO.(present := true, address := f, writable := true)
  }

  ghost predicate UsedFramesKept(m: Machine, m': Machine) {
    forall f {:trigger FrameAt(m', f)} :: f in m.used ==> FrameAt(m', f) == FrameAt(m, f)
  }

  /** The first free frame from f on. */
  function NextFree(used: set<nat>, f: nat): (r: nat)
    ensures r >= f && r !in used && forall g: nat {:trigger g in used} :: f <= g < r ==> g in used
    decreases |used|
  {
    if f !in used then f
    else
      var r := NextFree(used - {f}, f + 1);
      assert forall g: nat {:trigger g in used} :: f < g < r ==> g in used - {f};
      r
  }

  /** The first n free frames, in the order in which the allocator hands them out one by one. */
  function FirstFree(used: set<nat>, n: nat): (fs: seq<nat>)
    ensures |fs| == n
  {
    if n == 0 then []
    else
      var fs := FirstFree(used, n - 1);
      fs + [NextFree(used + (set f | f in fs), BASE)]
  }

  lemma {:induction false} FirstFreeAreNew(used: set<nat>, n: nat)
    ensures forall a :: 0 <= a < n ==> FirstFree(used, n)[a] !in used && FirstFree(used, n)[a] >= BASE
    ensures forall a, b :: 0 <= a < b < n ==> FirstFree(used, n)[a] != FirstFree(used, n)[b]
  {
    if n > 0 {
      FirstFreeAreNew(used, n - 1);
      var fs := FirstFree(used, n - 1);
      forall a | 0 <= a < n - 1 ensures FirstFree(used, n)[a] == fs[a] && fs[a] in (set f | f in fs) {
      }
    }
  }

  /** Where a block of frames behind frames in use is free, it is handed out first. */
  lemma {:induction false} FreeBlockComesFirst(used: set<nat>, f0: nat, n: nat, k: nat)
    requires BASE <= f0 && (forall g :: BASE <= g < f0 ==> g in used) && (forall g :: f0 <= g < f0 + k ==> g !in used)
    requires k <= n
    ensures forall i :: 0 <= i < k ==> FirstFree(used, n)[i] == f0 + i
  {
    if n > 0 {
      FreeBlockComesFirst(used, f0, n - 1, if k < n then k else n - 1);
      if k == n {
        var fs := FirstFree(used, n - 1);
        var taken := used + (set f | f in fs);
        forall g | BASE <= g < f0 + n - 1 ensures g in taken {
          if g >= f0 {
            assert fs[g - f0] == g;
          }
        }
        assert f0 + n - 1 !in taken;
      }
    }
  }

  /** Process p has been added, on the first frames that were free. */
  ghost predicate Created(m: Machine, m': Machine, p: nat, user: bool) {
    CreatedOn(m, m', p, FirstFree(m.used, NEW_FRAMES), user)
  }

  /** Process p has been added; fs are the frames it took, in order. */
  ghost predicate CreatedOn(m: Machine, m': Machine, p: nat, fs: seq<nat>, user: bool) {
    && |fs| == NEW_FRAMES && (forall a, b :: 0 <= a < b < |fs| ==> fs[a] != fs[b]) && (forall a :: 0 <= a < |fs| ==> fs[a] !in m.used)
    && p !in m.processes && m'.processes == m.processes[p := Process(fs[1], fs[0])]
    && m'.kernel == m.kernel && m'.used == m.used + (set f | f in fs) && UsedFramesKept(m, m')
    && (forall f: nat {:trigger FrameAt(m', f)} :: f !in fs ==> FrameAt(m', f) == FrameAt(m, f))
    && (forall d: nat {:trigger DirAt(m', p, d)} :: d < WORDS ==>
          DirAt(m', p, d).user && DirAt(m', p, d).writable && DirAt(m', p, d).present == (d <= LOW_TABLES) && (d <= LOW_TABLES ==> DirAt(m', p, d).address == fs[2 + d]))
    && forall j: nat {:trigger EntryAt(m', p, j)} :: j < PAGES ==>
         EntryAt(m', p, j) == (if j < USER_START then Low(FrameAt(m, fs[2 + j / WORDS])[j % WORDS], j, user)
                               else if j == USER_START + 1 then SharedEntry(fs[0]) else ZERO)
  }

  /** The frames that become the low tables carry no flag of ownership from their former life. */
  predicate Clean(m: Machine, fs: seq<nat>) {
    && |fs| == NEW_FRAMES
    && forall j: nat {:trigger FrameAt(m, fs[2 + j / WORDS])[j % WORDS]} :: j < USER_START ==>
         !FrameAt(m, fs[2 + j / WORDS])[j % WORDS].owned && !FrameAt(m, fs[2 + j / WORDS])[j % WORDS].release
  }

  lemma OthersKept(m: Machine, m': Machine, p: nat)
    requires Exact(m) && UsedFramesKept(m, m') && p !in m.processes
    requires p in m'.processes && m'.processes - {p} == m.processes
    ensures forall q, d: nat {:trigger DirAt(m', q, d)} :: q in m.processes && d < WORDS ==> DirAt(m', q, d) == DirAt(m, q, d)
    ensures forall q, j: nat {:trigger EntryAt(m', q, j)} :: q in m.processes && j < PAGES ==> EntryAt(m', q, j) == EntryAt(m, q, j)
    ensures forall s: Slot {:trigger FrameOf(m', s)} {:trigger FrameOf(m, s)} :: s.p != p ==> FrameOf(m', s) == FrameOf(m, s)
  {
    forall q | q in m.processes ensures q in m'.processes && m'.processes[q] == m.processes[q] {
      assert q in m'.processes - {p};
    }
    forall q, d: nat | q in m.processes && d < WORDS ensures DirAt(m', q, d) == DirAt(m, q, d) {
      assert FrameOf(m, Root(q)) == m.processes[q].root;
      assert Sound(m, Root(q));
    }
    forall q, j: nat | q in m.processes && j < PAGES ensures EntryAt(m', q, j) == EntryAt(m, q, j) {
      var d := j / WORDS;
      assert DirAt(m', q, d) == DirAt(m, q, d);
      if DirAt(m, q, d).present {
        assert FrameOf(m, Table(q, d)) == DirAt(m, q, d).address;
        assert Sound(m, Table(q, d));
      }
    }
    forall s: Slot | s.p != p ensures FrameOf(m', s) == FrameOf(m, s) {
      if s.p in m.processes {
        match s
        case Table(q, d) => if d < WORDS { assert DirAt(m', q, d) == DirAt(m, q, d); }
        case Page(q, i) => if i < PAGES { assert EntryAt(m', q, i) == EntryAt(m, q, i); }
        case _ =>
      } else {
        assert s.p in m'.processes ==> s.p in m'.processes - {p};
      }
    }
  }

  /** The number, among the frames taken, of the frame of a slot of the new process. */
  function NewIndex(s: Slot): int {
    match s
    case Shared(_) => 0
    case Root(_) => 1
    case Table(_, _) => if s.d <= LOW_TABLES then 2 + s.d else -1
    case Page(_, _) => -1
  }

  lemma NewSlots(m: Machine, m': Machine, p: nat, fs: seq<nat>, user: bool, s: Slot)
    requires CreatedOn(m, m', p, fs, user) && s.p == p && (s.Page? ==> Clean(m, fs))
    ensures NewIndex(s) < |fs| && FrameOf(m', s) == if NewIndex(s) == -1 then -1 else fs[NewIndex(s)]
  {
    match s
    case Table(_, d) => if d < WORDS { assert DirAt(m', p, d).present == (d <= LOW_TABLES); }
    case Page(_, j) => if j < PAGES {
      assert EntryAt(m', p, j).present ==> !Owned(EntryAt(m', p, j)) by {
        if j < USER_START {
          assert EntryAt(m', p, j) == Low(FrameAt(m, fs[2 + j / WORDS])[j % WORDS], j, user);
        }
      }
    }
    case _ =>
  }

  lemma CleanCreationIsExact(m: Machine, m': Machine, p: nat, fs: seq<nat>, user: bool)
    requires Exact(m) && CreatedOn(m, m', p, fs, user) && Clean(m, fs)
    ensures Exact(m')
  {
    OthersKept(m, m', p);
    forall s: Slot | s.p == p ensures NewIndex(s) < |fs| && FrameOf(m', s) == if NewIndex(s) == -1 then -1 else fs[NewIndex(s)] {
      NewSlots(m, m', p, fs, user, s);
    }
    forall s: Slot ensures Sound(m', s) {
      assert Sound(m, s);
      if s.p == p && NewIndex(s) != -1 {
        assert fs[NewIndex(s)] in fs && fs[NewIndex(s)] !in m.used;
      }
    }
    forall s: Slot, t: Slot | s != t && FrameOf(m', s) != -1 ensures FrameOf(m', s) != FrameOf(m', t) {
      assert Sound(m, s) && Sound(m, t);
      if s.p == p && t.p == p {
        assert NewIndex(s) != -1 && NewIndex(t) != NewIndex(s);
      } else if s.p == p {
        assert fs[NewIndex(s)] !in m.used;
      } else if t.p == p && NewIndex(t) != -1 {
        assert fs[NewIndex(t)] !in m.used;
      }
    }
    forall f | f in m'.used && f !in m'.kernel ensures Held(m', f) {
      var s := OtherHolder(m, m', p, fs, user, f);
    }
  }

  lemma NewFrameIsHeld(m: Machine, m': Machine, p: nat, fs: seq<nat>, user: bool, f: nat)
    requires CreatedOn(m, m', p, fs, user) && f in fs
    ensures exists s: Slot {:trigger FrameOf(m', s)} :: s.p == p && !s.Page? && FrameOf(m', s) == f
  {
    var a :| 0 <= a < |fs| && fs[a] == f;
    var s := if a == 0 then Shared(p) else if a == 1 then Root(p) else Table(p, a - 2);
    NewSlots(m, m', p, fs, user, s);
    assert FrameOf(m', s) == f;
  }

  /** A stale flag makes a page of the 1:1 map pass for the process's own: the books no longer balance. */
  lemma StaleFlagBreaksExact(m: Machine, m': Machine, p: nat, fs: seq<nat>, user: bool, j: nat)
    requires Exact(m) && CreatedOn(m, m', p, fs, user) && j < USER_START
    requires FrameAt(m, fs[2 + j / WORDS])[j % WORDS].owned || FrameAt(m, fs[2 + j / WORDS])[j % WORDS].release
    ensures FrameOf(m', Page(p, j)) == j && !Exact(m')
  {
    assert EntryAt(m', p, j) == Low(FrameAt(m, fs[2 + j / WORDS])[j % WORDS], j, user);
    if Exact(m') {
      assert Sound(m', Page(p, j));
      var s := OtherHolder(m, m', p, fs, user, j);
      assert false;
    }
  }

  /** Every frame in use after a creation, the kernel's apart, has a holder that is no page of the new process. */
  lemma OtherHolder(m: Machine, m': Machine, p: nat, fs: seq<nat>, user: bool, f: nat) returns (s: Slot)
    requires Exact(m) && CreatedOn(m, m', p, fs, user) && f in m'.used && f !in m'.kernel
    ensures FrameOf(m', s) == f && !(s.Page? && s.p == p)
  {
    OthersKept(m, m', p);
    if f in m.used {
      assert Held(m, f);
      s :| FrameOf(m, s) == f;
      assert s.p in m.processes;
    } else {
      NewFrameIsHeld(m, m', p, fs, user, f);
      s :| s.p == p && !s.Page? && FrameOf(m', s) == f;
    }
  }

  /** The free frames that the allocator will come to for the low tables, to be seen in the bitmap before the call, carry no flag. */
  predicate CleanStart(m: Machine) {
    Clean(m, FirstFree(m.used, NEW_FRAMES))
  }

  /**
   A new process keeps the ownership of frames exact if and only if the free frames that the
   allocator comes to for its low tables carry no ownership flag. They are not wiped, so a
   recycled frame may.
   */
  lemma CreationIsExactIff(m: Machine, m': Machine, p: nat, user: bool)
    requires Exact(m) && Created(m, m', p, user)
    ensures Exact(m') <==> CleanStart(m)
  {
    var fs := FirstFree(m.used, NEW_FRAMES);
    if Clean(m, fs) {
      CleanCreationIsExact(m, m', p, fs, user);
    } else {
      var j: nat :| j < USER_START && (FrameAt(m, fs[2 + j / WORDS])[j % WORDS].owned || FrameAt(m, fs[2 + j / WORDS])[j % WORDS].release);
      StaleFlagBreaksExact(m, m', p, fs, user, j);
    }
  }

  /**
   The flags do come: where the frame of a page table in which a page was reserved is still
   as it was when it becomes a low table of a new process, the new process holds frames it
   does not own. RecycledFrames shows a run to such a state.
   */
  lemma RecycledTableBreaksExact(m: Machine, m1: Machine, m2: Machine, p: nat, i: nat, q: nat, user: bool, d: nat)
    requires p in m.processes && i < PAGES && EntryAt(m, p, i).owned && Exact(m1) && Created(m1, m2, q, user)
    requires var t := DirAt(m, p, i / WORDS).address;
             FrameAt(m1, t) == FrameAt(m, t) && d < LOW_TABLES && FirstFree(m1.used, NEW_FRAMES)[2 + d] == t
    ensures !Exact(m2)
  {
    var j := d * WORDS + i % WORDS;
    assert j / WORDS == d && j % WORDS == i % WORDS;
    StaleFlagBreaksExact(m1, m2, q, FirstFree(m1.used, NEW_FRAMES), user, j);
  }
}
