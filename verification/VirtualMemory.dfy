/** Copies between the kernel and the address space of a process, page by page. */
module VirtualMemory {

  const PAGE: nat := 4096

  /** What the kernel looks at in a page table entry before it copies. */
  datatype Page = Page(frame: nat, user: bool, owned: bool, writable: bool)

  /** The entries of a process, by page index; where there is no table there is no entry. */
  type Table = map<nat, Page>

  function ByteAt(memory: map<nat, nat>, a: nat): nat {
    if a in memory then memory[a] else 0
  }

  /** The address that the byte at a virtual address is stored at. */
  function Physical(t: Table, v: nat): nat
    requires v / PAGE in t
  {
    t[v / PAGE].frame * PAGE + v % PAGE
  }

  /** The bytes copied from the first page. */
  function Head(start: nat, size: nat): nat {
    if size > PAGE - start % PAGE then PAGE - start % PAGE else size
  }

  /** The bytes left for the last page, after the first one and whole pages. */
  function Rest(start: nat, size: nat): nat {
    (size - Head(start, size)) % PAGE
  }

  /** Where the copy goes for byte k: in the last page the offset of the first one is added again. */
  function Reached(t: Table, start: nat, size: nat, k: nat): nat
    requires k < size && (start + k) / PAGE in t
  {
    Physical(t, start + k) + if k < size - Rest(start, size) then 0 else start % PAGE
  }

  /** How many pages hold bytes of the range; a copy looks at one even if the range is empty. */
  function Touched(start: nat, size: nat): nat {
    if size == 0 then 1 else (start % PAGE + size - 1) / PAGE + 1
  }

  /** How many pages write_virtual_memory() checks. */
  function Checked(start: nat, size: nat): nat {
    size / PAGE + (if start % PAGE != 0 then 1 else 0) + (if (start + size) % PAGE != 0 then 1 else 0)
  }

  /** All pages that hold bytes of the range are there. */
  predicate Mapped(t: Table, start: nat, size: nat) {
    forall p {:trigger p in t} :: start / PAGE <= p < start / PAGE + Touched(start, size) ==> p in t
  }

  lemma PageOfByte(start: nat, size: nat, k: nat)
    requires k < size
    ensures start / PAGE <= (start + k) / PAGE < start / PAGE + Touched(start, size)
  {
    var p := start / PAGE;
    assert start == p * PAGE + start % PAGE;
    assert (start + k) / PAGE == p + (start % PAGE + k) / PAGE;
  }

  lemma MappedByte(t: Table, start: nat, size: nat, k: nat)
    requires Mapped(t, start, size) && k < size
    ensures (start + k) / PAGE in t
  {
    PageOfByte(start, size, k);
  }

  /** The copy goes to the right place for every byte exactly if it starts on a page, stays in one, or ends with one. */
  ghost predicate Faithful(t: Table, start: nat, size: nat)
    requires Mapped(t, start, size)
  {
    forall k {:trigger Reached(t, start, size, k)} :: 0 <= k < size ==>
      (start + k) / PAGE in t && Reached(t, start, size, k) == Physical(t, start + k)
  }

  predicate WellPlaced(start: nat, size: nat) {
    start % PAGE == 0 || start % PAGE + size <= PAGE || (start + size) % PAGE == 0
  }

  lemma RestIsZero(start: nat, size: nat)
    ensures Rest(start, size) == 0 <==> start % PAGE + size <= PAGE || (start + size) % PAGE == 0
  {
    var o := start % PAGE;
    assert start == start / PAGE * PAGE + o;
    if size > PAGE - o {
      assert (start + size) % PAGE == (o + size) % PAGE;
      assert (o + size) % PAGE == (size - (PAGE - o)) % PAGE;
    }
  }

  lemma FaithfulIff(t: Table, start: nat, size: nat)
    requires Mapped(t, start, size)
    ensures Faithful(t, start, size) <==> WellPlaced(start, size)
  {
    RestIsZero(start, size);
    if WellPlaced(start, size) {
      forall k | 0 <= k < size ensures (start + k) / PAGE in t && Reached(t, start, size, k) == Physical(t, start + k) {
        MappedByte(t, start, size, k);
      }
    } else {
      var k := size - Rest(start, size);
      MappedByte(t, start, size, k);
      assert Reached(t, start, size, k) == Physical(t, start + k) + start % PAGE;
    }
  }

  /** Byte k of the range is copied to or from outside the frame of its page. */
  ghost predicate Overruns(t: Table, start: nat, size: nat, k: nat)
    requires Mapped(t, start, size) && k < size
  {
    (start + k) / PAGE in t && Reached(t, start, size, k) >= (t[(start + k) / PAGE].frame + 1) * PAGE
  }

  /** The copy leaves the frames of the range exactly if the last page holds more bytes than the first offset leaves room for. */
  lemma OverrunsIff(t: Table, start: nat, size: nat)
    requires Mapped(t, start, size)
    ensures (exists k {:trigger Overruns(t, start, size, k)} :: 0 <= k < size && Overruns(t, start, size, k)) <==>
            start % PAGE + Rest(start, size) > PAGE
  {
    if start % PAGE + Rest(start, size) > PAGE {
      var k := size - 1;
      MappedByte(t, start, size, k);
      LastByte(start, size);
      assert Overruns(t, start, size, k);
    } else {
      forall k | 0 <= k < size ensures !Overruns(t, start, size, k) {
        MappedByte(t, start, size, k);
        if k >= size - Rest(start, size) {
          RestByte(start, size, k);
        }
      }
    }
  }

  lemma RestByte(start: nat, size: nat, k: nat)
    requires k < size && k >= size - Rest(start, size)
    ensures (start + k) % PAGE == k - (size - Rest(start, size))
  {
    var j := k - (size - Rest(start, size));
    var m := (size - Head(start, size)) / PAGE;
    assert start + Head(start, size) == (start / PAGE + 1) * PAGE;
    assert start + k == (start / PAGE + 1 + m) * PAGE + j;
  }

  lemma LastByte(start: nat, size: nat)
    requires Rest(start, size) > 0
    ensures size > 0 && (start + (size - 1)) % PAGE == Rest(start, size) - 1
  {
    RestByte(start, size, size - 1);
  }

  /** The check of a write covers every page that bytes go to; it asks for one more if the range leaves off before the offset it began with. */
  lemma CheckCovers(start: nat, size: nat)
    requires size > 0
    ensures Touched(start, size) <= Checked(start, size) <= Touched(start, size) + 1
    ensures Checked(start, size) == Touched(start, size) <==> start % PAGE == 0 || start % PAGE + size % PAGE >= PAGE
  {
    var o := start % PAGE;
    var q := size / PAGE;
    var r := size % PAGE;
    assert start == start / PAGE * PAGE + o && size == q * PAGE + r;
    assert (start + size) % PAGE == (o + r) % PAGE;
    assert (o + size - 1) / PAGE == q + (o + r + PAGE - 1) / PAGE - 1;
  }

  /** The check is missing for nothing but an empty range that starts on a page. */
  lemma EmptyCheck(start: nat)
    ensures Checked(start, 0) == 0 <==> start % PAGE == 0
  {
  }

  /** Memory after n bytes of a buffer have been copied in. */
  function Stored(memory: map<nat, nat>, t: Table, start: nat, size: nat, buffer: seq<nat>, n: nat): map<nat, nat>
    requires Mapped(t, start, size) && n <= size == |buffer|
  {
    if n == 0 then memory
    else
      MappedByte(t, start, size, n - 1);
      Stored(memory, t, start, size, buffer, n - 1)[Reached(t, start, size, n - 1) := buffer[n - 1]]
  }

  /** No two pages of the range lie in the same frame. */
  ghost predicate Separate(t: Table, start: nat, size: nat)
    requires Mapped(t, start, size)
  {
    forall p, q {:trigger t[p], t[q]} ::
      start / PAGE <= p < q < start / PAGE + Touched(start, size) ==> t[p].frame != t[q].frame
  }

  lemma SeparateBytes(t: Table, start: nat, size: nat, k: nat, m: nat)
    requires Mapped(t, start, size) && Separate(t, start, size) && k < m < size
    ensures (start + k) / PAGE in t && (start + m) / PAGE in t && Physical(t, start + k) != Physical(t, start + m)
  {
    MappedByte(t, start, size, k);
    MappedByte(t, start, size, m);
    PageOfByte(start, size, k);
    PageOfByte(start, size, m);
    var p, q := (start + k) / PAGE, (start + m) / PAGE;
    if p != q {
      assert t[p].frame != t[q].frame;
    }
  }

  lemma StoredLast(memory: map<nat, nat>, t: Table, start: nat, size: nat, buffer: seq<nat>, n: nat)
    requires Mapped(t, start, size) && WellPlaced(start, size) && 0 < n <= size == |buffer|
    ensures (start + (n - 1)) / PAGE in t
    ensures Stored(memory, t, start, size, buffer, n) == Stored(memory, t, start, size, buffer, n - 1)[Physical(t, start + (n - 1)) := buffer[n - 1]]
  {
    MappedByte(t, start, size, n - 1);
    FaithfulIff(t, start, size);
    assert Reached(t, start, size, n - 1) == Physical(t, start + (n - 1));
  }

  /** Where a copy is faithful, what is written is what a later read of the same range finds. */
  lemma {:induction false} StoredBytes(memory: map<nat, nat>, t: Table, start: nat, size: nat, buffer: seq<nat>, n: nat, k: nat)
    requires Mapped(t, start, size) && Separate(t, start, size) && WellPlaced(start, size) && k < n <= size == |buffer|
    ensures (start + k) / PAGE in t && ByteAt(Stored(memory, t, start, size, buffer, n), Physical(t, start + k)) == buffer[k]
  {
    MappedByte(t, start, size, k);
    StoredLast(memory, t, start, size, buffer, n);
    if k < n - 1 {
      StoredBytes(memory, t, start, size, buffer, n - 1, k);
      SeparateBytes(t, start, size, k, n - 1);
    }
  }

  /** Nothing else changes. */
  lemma {:induction false} StoredElsewhere(memory: map<nat, nat>, t: Table, start: nat, size: nat, buffer: seq<nat>, n: nat, a: nat)
    requires Mapped(t, start, size) && n <= size == |buffer|
    requires forall k {:trigger Reached(t, start, size, k)} :: 0 <= k < n ==> (start + k) / PAGE in t && Reached(t, start, size, k) != a
    ensures ByteAt(Stored(memory, t, start, size, buffer, n), a) == ByteAt(memory, a)
  {
    if n > 0 {
      MappedByte(t, start, size, n - 1);
      StoredElsewhere(memory, t, start, size, buffer, n - 1, a);
    }
  }

  /** Bytes done .. done + n of the range are copied from one page, from an offset on. */
  ghost predicate Chunk(t: Table, start: nat, size: nat, done: nat, n: nat, page: nat, offset: nat) {
    && page in t && done + n <= size
    && forall k {:trigger ChunkByte(t, start, size, done, k, page, offset)} :: done <= k < done + n ==> ChunkByte(t, start, size, done, k, page, offset)
  }

  ghost predicate ChunkByte(t: Table, start: nat, size: nat, done: nat, k: nat, page: nat, offset: nat)
    requires page in t && done <= k < size
  {
    (start + k) / PAGE == page && Reached(t, start, size, k) == t[page].frame * PAGE + offset + (k - done)
  }

  lemma FirstChunk(t: Table, start: nat, size: nat)
    requires start / PAGE in t
    ensures Chunk(t, start, size, 0, Head(start, size), start / PAGE, start % PAGE)
  {
    forall k | 0 <= k < Head(start, size) ensures ChunkByte(t, start, size, 0, k, start / PAGE, start % PAGE) {
      assert start + k == start / PAGE * PAGE + (start % PAGE + k);
    }
  }

  /** After the first page the copy goes on at the start of page i, counted from the first. */
  predicate OnPage(start: nat, size: nat, done: nat, i: nat) {
    && Head(start, size) <= done <= size
    && if done == size then i == Touched(start, size)
       else start + done == (start / PAGE + i) * PAGE && (size - done) % PAGE == Rest(start, size)
  }

  lemma AfterHead(start: nat, size: nat)
    ensures OnPage(start, size, Head(start, size), 1)
  {
    assert start == start / PAGE * PAGE + start % PAGE;
  }

  lemma NextPage(start: nat, size: nat, done: nat, i: nat, n: nat)
    requires OnPage(start, size, done, i) && done < size && n == (if size - done >= PAGE then PAGE else size - done)
    ensures OnPage(start, size, done + n, i + 1) && i < Touched(start, size)
  {
    var p, o := start / PAGE, start % PAGE;
    assert start == p * PAGE + o;
    assert o + done == i * PAGE;
    if done + n == size {
      assert (o + size - 1) / PAGE == (i * PAGE + (n - 1)) / PAGE == i;
    } else {
      assert (o + size - 1) / PAGE >= i;
    }
  }

  lemma PageChunk(t: Table, start: nat, size: nat, done: nat, i: nat, n: nat)
    requires OnPage(start, size, done, i) && done < size && n == (if size - done >= PAGE then PAGE else size - done) && start / PAGE + i in t
    ensures Chunk(t, start, size, done, n, start / PAGE + i, if size - done >= PAGE then 0 else start % PAGE)
  {
    var page := start / PAGE + i;
    var offset := if size - done >= PAGE then 0 else start % PAGE;
    forall k | done <= k < done + n ensures ChunkByte(t, start, size, done, k, page, offset) {
      assert start + k == page * PAGE + (k - done);
    }
  }

  /** The first `done` bytes of a range have been read as the code reaches them. */
  ghost predicate ReadSoFar(t: Table, memory: map<nat, nat>, start: nat, size: nat, done: nat, out: seq<nat>) {
    && |out| == done <= size
    && forall k {:trigger ReadByte(t, memory, start, size, k, out[k])} :: 0 <= k < done ==> ReadByte(t, memory, start, size, k, out[k])
  }

  predicate ReadByte(t: Table, memory: map<nat, nat>, start: nat, size: nat, k: nat, b: nat)
    requires k < size
  {
    (start + k) / PAGE in t && b == ByteAt(memory, Reached(t, start, size, k))
  }

  lemma ReadOn(t: Table, memory: map<nat, nat>, start: nat, size: nat, done: nat, n: nat, out: seq<nat>, bytes: seq<nat>, r: seq<nat>, page: nat, offset: nat)
    requires Chunk(t, start, size, done, n, page, offset) && ReadSoFar(t, memory, start, size, done, out)
    requires |bytes| == n && forall k {:trigger bytes[k]} :: 0 <= k < n ==> bytes[k] == ByteAt(memory, t[page].frame * PAGE + offset + k)
    requires r == out + bytes
    ensures ReadSoFar(t, memory, start, size, done + n, r)
  {
    forall k | 0 <= k < done + n ensures ReadByte(t, memory, start, size, k, r[k]) {
      if k >= done {
        assert ChunkByte(t, start, size, done, k, page, offset);
        assert r[k] == bytes[k - done];
      } else {
        assert ReadByte(t, memory, start, size, k, out[k]);
      }
    }
  }

  /** Byte k of the range is stored at address a, pages being 4096 bytes long. */
  predicate Lies(t: Table, start: nat, k: nat, a: nat) {
    var page := (start + k) / 4096;
    page in t && a == t[page].frame * 4096 + (start + k) % 4096
  }

  lemma ReachedLies(t: Table, start: nat, size: nat, k: nat)
    requires WellPlaced(start, size) && k < size && (start + k) / PAGE in t
    ensures Lies(t, start, k, Reached(t, start, size, k))
  {
    if start % PAGE != 0 {
      RestIsZero(start, size);
    }
  }

  /** The page of byte k may be read: for a process the first page of a range has to be at the user's level, any other its own. */
  predicate Readable(t: Table, start: nat, k: nat, kernelPages: bool) {
    var page := (start + k) / 4096;
    page in t && (kernelPages || if page == start / 4096 then t[page].user else t[page].owned)
  }

  /** And may be written: by nobody if it is not writable, by a process if it is its own. */
  predicate Changeable(t: Table, start: nat, k: nat, kernelPages: bool) {
    var page := (start + k) / 4096;
    page in t && t[page].writable && (kernelPages || t[page].owned)
  }

  /** Memory holds b at the address of byte k. */
  predicate Holds(t: Table, memory: map<nat, nat>, start: nat, k: nat, b: nat) {
    var page := (start + k) / 4096;
    page in t && ByteAt(memory, t[page].frame * 4096 + (start + k) % 4096) == b
  }

  /** What the bytes of a well-placed range hold after a write, and that no other byte has changed. */
  lemma WellWritten(before: map<nat, nat>, memory: map<nat, nat>, t: Table, start: nat, size: nat, buffer: seq<nat>)
    requires Mapped(t, start, size) && |buffer| == size && WellPlaced(start, size) && memory == Stored(before, t, start, size, buffer, size)
    ensures Separate(t, start, size) ==> forall k {:trigger buffer[k]} :: 0 <= k < size ==> Holds(t, memory, start, k, buffer[k])
    ensures forall a {:trigger ByteAt(memory, a)} :: ByteAt(memory, a) != ByteAt(before, a) ==> exists k {:trigger Lies(t, start, k, a)} :: 0 <= k < size && Lies(t, start, k, a)
  {
    if Separate(t, start, size) {
      forall k {:trigger buffer[k]} | 0 <= k < size ensures Holds(t, memory, start, k, buffer[k]) {
        StoredBytes(before, t, start, size, buffer, size, k);
      }
    }
    forall a {:trigger ByteAt(memory, a)} | ByteAt(memory, a) != ByteAt(before, a) ensures exists k {:trigger Lies(t, start, k, a)} :: 0 <= k < size && Lies(t, start, k, a) {
      if forall k {:trigger Lies(t, start, k, a)} :: 0 <= k < size ==> !Lies(t, start, k, a) {
        ElsewhereKept(before, t, start, size, buffer, a);
      }
    }
  }

  lemma ElsewhereKept(before: map<nat, nat>, t: Table, start: nat, size: nat, buffer: seq<nat>, a: nat)
    requires Mapped(t, start, size) && |buffer| == size && WellPlaced(start, size)
    requires forall k {:trigger Lies(t, start, k, a)} :: 0 <= k < size ==> !Lies(t, start, k, a)
    ensures ByteAt(Stored(before, t, start, size, buffer, size), a) == ByteAt(before, a)
  {
    forall k {:trigger Reached(t, start, size, k)} | 0 <= k < size ensures (start + k) / PAGE in t && Reached(t, start, size, k) != a {
      MappedByte(t, start, size, k);
      ReachedLies(t, start, size, k);
    }
    StoredElsewhere(before, t, start, size, buffer, size, a);
  }

  /** How a write ends: true, false, or through a null pointer. */
  datatype WriteResult = Written | Refused | NullEntry

  class Space {
    const table: Table
    var memory: map<nat, nat>

    constructor (table: Table, memory: map<nat, nat>)
      ensures this.table == table && this.memory == memory
    {
      this.table, this.memory := table, memory;
    }

    /** The kernel's check of a page that it is to read from; the first page of a range is checked by another flag. */
    predicate MayRead(page: nat, head: nat, kernelPages: bool) {
      page in table && (kernelPages || (if page == head then table[page].user else table[page].owned))
    }

    predicate MayWrite(page: nat, kernelPages: bool) {
      page in table && (kernelPages || table[page].owned) && table[page].writable
    }

    /** memcpy() out of physical memory */
    method CopyOut(a: nat, n: nat) returns (bytes: seq<nat>)
      ensures |bytes| == n && forall k :: 0 <= k < n ==> bytes[k] == ByteAt(memory, a + k)
    {
      bytes := [];
      var k := 0;
      while k < n
        invariant 0 <= k <= n && |bytes| == k && forall j :: 0 <= j < k ==> bytes[j] == ByteAt(memory, a + j)
      {
        bytes := bytes + [if a + k in memory then memory[a + k] else 0];
        k := k + 1;
      }
    }

    /** One chunk of a read. */
    method ReadChunk(start: nat, size: nat, done: nat, n: nat, out: seq<nat>, page: nat, offset: nat) returns (r: seq<nat>)
      requires Chunk(table, start, size, done, n, page, offset) && ReadSoFar(table, memory, start, size, done, out)
      ensures ReadSoFar(table, memory, start, size, done + n, r)
    {
      var bytes := CopyOut(table[page].frame * PAGE + offset, n);
      r := out + bytes;
      ReadOn(table, memory, start, size, done, n, out, bytes, r, page, offset);
    }

    /** read_virtual_memory() */
    method ReadVirtualMemory(start: nat, size: nat, kernelPages: bool) returns (ok: bool, out: seq<nat>)
      ensures ok <==> forall p {:trigger MayRead(p, start / PAGE, kernelPages)} ::
                start / PAGE <= p < start / PAGE + Touched(start, size) ==> MayRead(p, start / PAGE, kernelPages)
      ensures ok ==> ReadSoFar(table, memory, start, size, size, out)
      ensures ok ==> |out| == size && forall k {:trigger out[k]} :: 0 <= k < size ==>
                Readable(table, start, k, kernelPages) && (WellPlaced(start, size) ==> Holds(table, memory, start, k, out[k]))
    {
      ok, out := ReadPages(start, size, kernelPages);
      if ok {
        forall k | 0 <= k < size ensures Readable(table, start, k, kernelPages) && (WellPlaced(start, size) ==> Holds(table, memory, start, k, out[k])) {
          ByteWasRead(start, size, kernelPages, out, k);
        }
      }
    }

    /** A byte that was read: its page allows it, and in a well-placed range it is the one at its address. */
    lemma ByteWasRead(start: nat, size: nat, kernelPages: bool, out: seq<nat>, k: nat)
      requires k < size && ReadSoFar(table, memory, start, size, size, out)
      requires forall p {:trigger MayRead(p, start / PAGE, kernelPages)} ::
                 start / PAGE <= p < start / PAGE + Touched(start, size) ==> MayRead(p, start / PAGE, kernelPages)
      ensures Readable(table, start, k, kernelPages) && (WellPlaced(start, size) ==> Holds(table, memory, start, k, out[k]))
    {
      PageOfByte(start, size, k);
      assert MayRead((start + k) / PAGE, start / PAGE, kernelPages);
      assert ReadByte(table, memory, start, size, k, out[k]);
      if WellPlaced(start, size) {
        ReachedLies(table, start, size, k);
      }
    }

    /** Its loop over pages. */
    method ReadPages(start: nat, size: nat, kernelPages: bool) returns (ok: bool, out: seq<nat>)
      ensures ok <==> forall p {:trigger MayRead(p, start / PAGE, kernelPages)} ::
                start / PAGE <= p < start / PAGE + Touched(start, size) ==> MayRead(p, start / PAGE, kernelPages)
      ensures ok ==> ReadSoFar(table, memory, start, size, size, out)
    {
      out := [];
      var page := start / PAGE;
      if page !in table || (!kernelPages && !table[page].user) {
        assert !MayRead(page, start / PAGE, kernelPages);
        return false, out;
      }
      var done := if size > PAGE - start % PAGE then PAGE - start % PAGE else size;
      FirstChunk(table, start, size);
      AfterHead(start, size);
      out := ReadChunk(start, size, 0, done, out, page, start % PAGE);
      var i := 1;
      while size - done >= PAGE
        invariant OnPage(start, size, done, i) && ReadSoFar(table, memory, start, size, done, out)
        invariant forall p {:trigger MayRead(p, start / PAGE, kernelPages)} ::
                    start / PAGE <= p < start / PAGE + i ==> MayRead(p, start / PAGE, kernelPages)
      {
        page := start / PAGE + i;
        NextPage(start, size, done, i, PAGE);
        if page !in table || (!kernelPages && !table[page].owned) {
          assert !MayRead(page, start / PAGE, kernelPages);
          return false, out;
        }
        PageChunk(table, start, size, done, i, PAGE);
        out := ReadChunk(start, size, done, PAGE, out, page, 0);
        done := done + PAGE;
        i := i + 1;
      }
      if done < size {
        page := start / PAGE + i;
        NextPage(start, size, done, i, size - done);
        if page !in table || (!kernelPages && !table[page].owned) {
          assert !MayRead(page, start / PAGE, kernelPages);
          return false, out;
        }
        PageChunk(table, start, size, done, i, size - done);
        out := ReadChunk(start, size, done, size - done, out, page, start % PAGE);
        i := i + 1;
      }
      ok := true;
    }

    /** memcpy() into physical memory: one chunk of a write. */
    method WriteChunk(ghost before: map<nat, nat>, start: nat, size: nat, done: nat, n: nat, buffer: seq<nat>, page: nat, offset: nat)
      requires Mapped(table, start, size) && |buffer| == size && Chunk(table, start, size, done, n, page, offset)
      requires memory == Stored(before, table, start, size, buffer, done)
      modifies this
      ensures memory == Stored(before, table, start, size, buffer, done + n)
    {
      var a := table[page].frame * PAGE + offset;
      var k := 0;
      while k < n
        invariant 0 <= k <= n && memory == Stored(before, table, start, size, buffer, done + k)
      {
        assert ChunkByte(table, start, size, done, done + k, page, offset);
        memory := memory[a + k := buffer[done + k]];
        k := k + 1;
      }
    }

    /** The chunk of one page behind the first. */
    method WritePage(ghost before: map<nat, nat>, start: nat, size: nat, done: nat, n: nat, buffer: seq<nat>, i: nat, offset: nat)
      requires Mapped(table, start, size) && |buffer| == size && OnPage(start, size, done, i) && done < size
      requires n == (if size - done >= PAGE then PAGE else size - done) && offset == if size - done >= PAGE then 0 else start % PAGE
      requires memory == Stored(before, table, start, size, buffer, done)
      modifies this
      ensures memory == Stored(before, table, start, size, buffer, done + n) && OnPage(start, size, done + n, i + 1)
    {
      NextPage(start, size, done, i, n);
      PageChunk(table, start, size, done, i, n);
      WriteChunk(before, start, size, done, n, buffer, start / PAGE + i, offset);
    }

    /** Its first loop. */
    method CheckPages(start: nat, size: nat, kernelPages: bool) returns (ok: bool)
      ensures ok <==> forall p {:trigger MayWrite(p, kernelPages)} ::
                start / PAGE <= p < start / PAGE + Checked(start, size) ==> MayWrite(p, kernelPages)
    {
      var n := size / PAGE + (if start % PAGE != 0 then 1 else 0) + (if (start + size) % PAGE != 0 then 1 else 0);
      var page := start / PAGE;
      var i := 0;
      while i < n
        invariant 0 <= i <= n && forall p {:trigger MayWrite(p, kernelPages)} :: page <= p < page + i ==> MayWrite(p, kernelPages)
      {
        if !MayWrite(page + i, kernelPages) {
          return false;
        }
        i := i + 1;
      }
      return true;
    }

    /**
     write_virtual_memory(): everything is written, or nothing. The null entry is followed for
     nothing but an empty range that starts on a page without an entry.
     */
    method WriteVirtualMemory(start: nat, size: nat, buffer: seq<nat>, kernelPages: bool) returns (r: WriteResult)
      requires |buffer| == size
      modifies this
      ensures r != Refused <==> forall p {:trigger MayWrite(p, kernelPages)} ::
                start / PAGE <= p < start / PAGE + Checked(start, size) ==> MayWrite(p, kernelPages)
      ensures r == NullEntry <==> size == 0 && start % PAGE == 0 && start / PAGE !in table
      ensures r != Written ==> memory == old(memory)
      ensures r == Written ==> Mapped(table, start, size) && memory == Stored(old(memory), table, start, size, buffer, size)
      ensures r == Written ==> forall k {:trigger Changeable(table, start, k, kernelPages)} :: 0 <= k < size ==> Changeable(table, start, k, kernelPages)
      ensures r == Written && WellPlaced(start, size) && Separate(table, start, size) ==>
                forall k {:trigger buffer[k]} :: 0 <= k < size ==> Holds(table, memory, start, k, buffer[k])
      ensures r == Written && WellPlaced(start, size) ==>
                forall a {:trigger ByteAt(memory, a)} :: ByteAt(memory, a) != ByteAt(old(memory), a) ==> exists k {:trigger Lies(table, start, k, a)} :: 0 <= k < size && Lies(table, start, k, a)
    {
      var ok := CheckPages(start, size, kernelPages);
      if !ok {
        if size == 0 {
          EmptyCheck(start);
        }
        return Refused;
      }
      if start / PAGE !in table {
        FirstPageChecked(start, size, kernelPages);
        return NullEntry;
      }
      AllPagesThere(start, size, kernelPages);
      CopyPages(start, size, buffer);
      r := Written;
      PagesAllow(start, size, kernelPages);
      if WellPlaced(start, size) {
        WellWritten(old(memory), memory, table, start, size, buffer);
      }
    }

    /** Every byte of a range that was checked lies in a page that may be written. */
    lemma PagesAllow(start: nat, size: nat, kernelPages: bool)
      requires forall p {:trigger MayWrite(p, kernelPages)} :: start / PAGE <= p < start / PAGE + Checked(start, size) ==> MayWrite(p, kernelPages)
      ensures forall k {:trigger Changeable(table, start, k, kernelPages)} :: 0 <= k < size ==> Changeable(table, start, k, kernelPages)
    {
      forall k {:trigger Changeable(table, start, k, kernelPages)} | 0 <= k < size ensures Changeable(table, start, k, kernelPages) {
        PageOfByte(start, size, k);
        CheckCovers(start, size);
        assert MayWrite((start + k) / PAGE, kernelPages);
      }
    }

    /** The first page escapes the check only if nothing is checked. */
    lemma FirstPageChecked(start: nat, size: nat, kernelPages: bool)
      requires forall p {:trigger MayWrite(p, kernelPages)} :: start / PAGE <= p < start / PAGE + Checked(start, size) ==> MayWrite(p, kernelPages)
      requires start / PAGE !in table
      ensures size == 0 && start % PAGE == 0
    {
      assert !MayWrite(start / PAGE, kernelPages);
      if size > 0 {
        CheckCovers(start, size);
      } else {
        EmptyCheck(start);
      }
    }

    lemma AllPagesThere(start: nat, size: nat, kernelPages: bool)
      requires forall p {:trigger MayWrite(p, kernelPages)} :: start / PAGE <= p < start / PAGE + Checked(start, size) ==> MayWrite(p, kernelPages)
      requires start / PAGE in table
      ensures Mapped(table, start, size)
    {
      if size > 0 {
        CheckCovers(start, size);
        forall p | start / PAGE <= p < start / PAGE + Touched(start, size) ensures p in table {
          assert MayWrite(p, kernelPages);
        }
      }
    }

    /** The copy that follows the check. */
    method CopyPages(start: nat, size: nat, buffer: seq<nat>)
      requires |buffer| == size && Mapped(table, start, size)
      modifies this
      ensures memory == Stored(old(memory), table, start, size, buffer, size)
    {
      var page := start / PAGE;
      var done := if size > PAGE - start % PAGE then PAGE - start % PAGE else size;
      FirstChunk(table, start, size);
      AfterHead(start, size);
      WriteChunk(memory, start, size, 0, done, buffer, page, start % PAGE);
      var i := 1;
      while size - done >= PAGE
        invariant OnPage(start, size, done, i) && memory == Stored(old(memory), table, start, size, buffer, done)
      {
        WritePage(old(memory), start, size, done, PAGE, buffer, i, 0);
        done := done + PAGE;
        i := i + 1;
      }
      if done < size {
        WritePage(old(memory), start, size, done, size - done, buffer, i, start % PAGE);
      }
    }
  }
}
