/** Steady data sinks: fragments are appended as blocks and read as a stream of bytes. */
module DataSink {
  import opened StreamLog

  /** A buffer in the kernel's heap that is handed in or copied, how much of it has been read, and whether the sink gives it back. */
  datatype Fragment = Fragment(data: nat, position: nat, size: nat, unique: bool)

  /** The most that one call may ask for. */
  const MAX_READ: nat := 2048

  datatype AppendType = CopyBuffer | TransferOwnership | ExistingBuffer

  /** The bytes of a buffer; what has been given back holds nothing. */
  function Bytes(heap: map<nat, seq<nat>>, data: nat): seq<nat> {
    if data in heap then heap[data] else []
  }

  predicate Sized(heap: map<nat, seq<nat>>, f: Fragment) {
    f.data in heap && |heap[f.data]| == f.size && f.position < f.size
  }

  /** What is still to be read of a fragment. */
  function Remaining(heap: map<nat, seq<nat>>, f: Fragment): seq<nat>
    requires Sized(heap, f)
  {
    heap[f.data][f.position..]
  }

  predicate AllSized(heap: map<nat, seq<nat>>, fs: seq<Fragment>) {
    forall i {:trigger fs[i]} :: 0 <= i < |fs| ==> Sized(heap, fs[i])
  }

  /** A buffer that the sink gives back belongs to one fragment only. */
  predicate OwnedOnce(fs: seq<Fragment>) {
    forall i, j {:trigger fs[i], fs[j]} :: 0 <= i < |fs| && 0 <= j < |fs| && i != j && fs[i].unique ==> fs[i].data != fs[j].data
  }

  /** The stream that is left in a list of fragments. */
  function Stream(heap: map<nat, seq<nat>>, fs: seq<Fragment>): seq<nat>
    requires AllSized(heap, fs)
  {
    if fs == [] then [] else Remaining(heap, fs[0]) + Stream(heap, Tail(heap, fs))
  }

  function Tail(heap: map<nat, seq<nat>>, fs: seq<Fragment>): (r: seq<Fragment>)
    requires fs != [] && AllSized(heap, fs)
    ensures AllSized(heap, r) && r == fs[1..]
  {
    assert forall i {:trigger fs[1..][i]} :: 0 <= i < |fs[1..]| ==> fs[1..][i] == fs[i + 1];
    fs[1..]
  }

  /** The stream depends only on the buffers of its fragments. */
  lemma {:induction false} StreamFrame(heap: map<nat, seq<nat>>, other: map<nat, seq<nat>>, fs: seq<Fragment>)
    requires AllSized(heap, fs) && forall i {:trigger fs[i]} :: 0 <= i < |fs| ==> fs[i].data in other && other[fs[i].data] == heap[fs[i].data]
    ensures AllSized(other, fs) && Stream(other, fs) == Stream(heap, fs)
  {
    if fs != [] {
      assert forall i {:trigger fs[1..][i]} :: 0 <= i < |fs[1..]| ==> fs[1..][i] == fs[i + 1];
      StreamFrame(heap, other, fs[1..]);
    }
  }

  lemma {:induction false} StreamAppend(heap: map<nat, seq<nat>>, fs: seq<Fragment>, f: Fragment)
    requires AllSized(heap, fs) && Sized(heap, f)
    ensures AllSized(heap, fs + [f]) && Stream(heap, fs + [f]) == Stream(heap, fs) + Remaining(heap, f)
  {
    if fs == [] {
      assert Tail(heap, [f]) == [];
    } else {
      StreamAppend(heap, Tail(heap, fs), f);
      assert (fs + [f])[1..] == fs[1..] + [f];
    }
  }

  /** A fragment behind the others. */
  lemma NewFragment(heap0: map<nat, seq<nat>>, heap: map<nat, seq<nat>>, fs: seq<Fragment>, f: Fragment)
    requires AllSized(heap0, fs) && Sized(heap, f) && f.position == 0
    requires heap == heap0 || (f.data !in heap0 && heap == heap0[f.data := heap[f.data]])
    ensures AllSized(heap, fs + [f]) && Stream(heap, fs + [f]) == Stream(heap0, fs) + heap[f.data]
  {
    forall i {:trigger fs[i]} | 0 <= i < |fs| ensures fs[i].data in heap && heap[fs[i].data] == heap0[fs[i].data] {
      assert Sized(heap0, fs[i]);
    }
    StreamFrame(heap0, heap, fs);
    StreamAppend(heap, fs, f);
  }

  /** None of the fragments shares the buffer of f, if either of the two is to be given back. */
  predicate Sole(fs: seq<Fragment>, f: Fragment) {
    forall i {:trigger fs[i]} :: 0 <= i < |fs| && (fs[i].unique || f.unique) ==> fs[i].data != f.data
  }

  /** What a caller has to see to: a buffer handed over is in no other fragment, and a shared one in none that gives it back. */
  predicate Kept(fs: seq<Fragment>, buffer: nat, appendType: AppendType) {
    match appendType
    case CopyBuffer => true
    case TransferOwnership => forall i {:trigger fs[i]} :: 0 <= i < |fs| ==> fs[i].data != buffer
    case ExistingBuffer => forall i {:trigger fs[i]} :: 0 <= i < |fs| && fs[i].unique ==> fs[i].data != buffer
  }

  lemma SoleIffKept(heap: map<nat, seq<nat>>, fs: seq<Fragment>, buffer: nat, appendType: AppendType, copy: nat, f: Fragment)
    requires AllSized(heap, fs) && copy !in heap && f.unique == (appendType != ExistingBuffer)
    requires f.data == if appendType == CopyBuffer then copy else buffer
    ensures Sole(fs, f) <==> Kept(fs, buffer, appendType)
  {
    forall i {:trigger fs[i]} | 0 <= i < |fs| ensures fs[i].data != copy {
      assert Sized(heap, fs[i]);
    }
  }

  lemma NewOwner(fs: seq<Fragment>, f: Fragment)
    requires OwnedOnce(fs)
    ensures OwnedOnce(fs + [f]) <==> Sole(fs, f)
  {
    var gs := fs + [f];
    if OwnedOnce(gs) {
      forall i {:trigger fs[i]} | 0 <= i < |fs| && (fs[i].unique || f.unique) ensures fs[i].data != f.data {
        assert gs[i] == fs[i] && gs[|fs|] == f;
      }
    }
  }

  /** Only the front has been read in part, and what was read of it is what was taken last. */
  predicate Begun(heap: map<nat, seq<nat>>, fs: seq<Fragment>, taken: seq<nat>) {
    && (forall i {:trigger fs[i]} :: 1 <= i < |fs| ==> fs[i].position == 0)
    && (fs != [] && fs[0].data in heap ==>
          fs[0].position <= |taken| && fs[0].position <= |heap[fs[0].data]|
          && taken[|taken| - fs[0].position..] == heap[fs[0].data][..fs[0].position])
  }

  lemma StillBegun(heap0: map<nat, seq<nat>>, heap: map<nat, seq<nat>>, fs: seq<Fragment>, f: Fragment, taken: seq<nat>)
    requires AllSized(heap0, fs) && Begun(heap0, fs, taken) && f.position == 0
    requires forall d {:trigger d in heap0} :: d in heap0 ==> d in heap && heap[d] == heap0[d]
    ensures Begun(heap, fs + [f], taken)
  {
    assert fs != [] ==> Sized(heap0, fs[0]);
    forall i {:trigger (fs + [f])[i]} | 1 <= i < |fs| + 1 ensures (fs + [f])[i].position == 0 {
      assert i < |fs| ==> (fs + [f])[i] == fs[i];
    }
  }

  /** The front has gone, or has been read on. */
  lemma BegunOn(heap: map<nat, seq<nat>>, fs: seq<Fragment>, taken: seq<nat>, heap': map<nat, seq<nat>>, gs: seq<Fragment>, bytes: seq<nat>)
    requires fs != [] && Sized(heap, fs[0]) && Begun(heap, fs, taken)
    requires gs == fs[1..] ||
             (heap' == heap && fs[0].position + |bytes| <= fs[0].size && bytes == heap[fs[0].data][fs[0].position..fs[0].position + |bytes|]
              && gs == [fs[0].(position := fs[0].position + |bytes|)] + fs[1..])
    ensures Begun(heap', gs, taken + bytes)
  {
    if gs == fs[1..] {
      forall i {:trigger gs[i]} | 0 <= i < |gs| ensures gs[i].position == 0 {
        assert gs[i] == fs[i + 1];
      }
    } else {
      forall i {:trigger gs[i]} | 1 <= i < |gs| ensures gs[i].position == 0 {
        assert gs[i] == fs[i];
      }
      var b, p := heap[fs[0].data], fs[0].position;
      assert b[..p + |bytes|] == b[..p] + bytes;
      assert (taken + bytes)[|taken| - p..] == taken[|taken| - p..] + bytes;
    }
  }

  /** gs is what is left of fs when some fragments have been read to their end, and perhaps a part of the next. */
  predicate LeftOf(fs: seq<Fragment>, gs: seq<Fragment>) {
    && |gs| <= |fs|
    && (gs != [] ==> var n := |fs| - |gs|; gs[1..] == fs[n + 1..] && gs[0] == fs[n].(position := gs[0].position))
  }

  /** After some reading heap0 and fs have become heap and gs; while more is asked for, only whole fragments have gone. */
  ghost predicate Eaten(heap0: map<nat, seq<nat>>, fs: seq<Fragment>, heap: map<nat, seq<nat>>, gs: seq<Fragment>, more: bool) {
    && LeftOf(fs, gs) && heap == heap0 - Released(fs, |fs| - |gs|)
    && (more ==> gs == fs[|fs| - |gs|..])
  }

  lemma EatOne(heap0: map<nat, seq<nat>>, fs: seq<Fragment>, heap: map<nat, seq<nat>>, gs: seq<Fragment>, heap': map<nat, seq<nat>>, gs': seq<Fragment>, left: nat)
    requires Eaten(heap0, fs, heap, gs, true) && gs != []
    requires var f := gs[0];
             if left >= f.size - f.position then gs' == gs[1..] && heap' == (if f.unique then heap - {f.data} else heap)
             else heap' == heap && gs' != [] && gs'[1..] == gs[1..] && gs'[0] == f.(position := gs'[0].position)
    ensures Eaten(heap0, fs, heap', gs', left > gs[0].size - gs[0].position)
  {
    var n := |fs| - |gs|;
    assert gs[0] == fs[n] && gs[1..] == fs[n + 1..];
    if left >= gs[0].size - gs[0].position {
      assert Released(fs, n + 1) == Released(fs, n) + if fs[n].unique then {fs[n].data} else {};
    }
  }

  /** Everything written is what has been taken, followed by what is still there; the log tells what has been handed out. */
  ghost predicate Orderly(heap: map<nat, seq<nat>>, fs: seq<Fragment>, written: seq<nat>, taken: seq<nat>, given: seq<nat>, log: seq<Read>) {
    && AllSized(heap, fs) && written == taken + Stream(heap, fs) && Begun(heap, fs, taken)
    && Chained(log, |taken|) && given == Handed(written, log)
  }

  lemma TakenFits(written: seq<nat>, taken: seq<nat>, rest: seq<nat>)
    requires written == taken + rest
    ensures |taken| <= |written| && |written| == |taken| + |rest|
  {
  }

  /** A fragment behind the others adds its bytes to what has been written. */
  lemma OrderlyAppend(heap0: map<nat, seq<nat>>, fs: seq<Fragment>, heap: map<nat, seq<nat>>, f: Fragment, written: seq<nat>, taken: seq<nat>, given: seq<nat>, log: seq<Read>,
                      bytes: seq<nat>)
    requires Orderly(heap0, fs, written, taken, given, log) && Sized(heap, f) && f.position == 0 && bytes == heap[f.data]
    requires heap == heap0 || (f.data !in heap0 && heap == heap0[f.data := bytes])
    ensures Orderly(heap, fs + [f], written + bytes, taken, given, log)
  {
    var stream := Stream(heap0, fs);
    TakenFits(written, taken, stream);
    NewFragment(heap0, heap, fs, f);
    StillBegun(heap0, heap, fs, f, taken);
    HandedFrame(written, bytes, log, |taken|);
    Regroup(taken, stream, bytes);
  }

  /** A read that takes `out` off the stream; what is handed over starts with the last bytes that were taken before. */
  lemma OrderlyRead(heap0: map<nat, seq<nat>>, fs: seq<Fragment>, heap: map<nat, seq<nat>>, gs: seq<Fragment>, written: seq<nat>, taken: seq<nat>, given: seq<nat>, log: seq<Read>,
                    out: seq<nat>, front: seq<nat>, e: Read, handed: seq<nat>)
    requires Orderly(heap0, fs, written, taken, given, log) && AllSized(heap, gs) && Stream(heap0, fs) == out + Stream(heap, gs) && Begun(heap, gs, taken + out)
    requires front <= taken && e == Read(|front|, |taken|, |taken| + |out|, e.handed) && handed == if e.handed then taken[|front|..] + out else []
    ensures Orderly(heap, gs, written, taken + out, given + handed, log + [e])
  {
    var rest := Stream(heap, gs);
    Regroup(taken, out, rest);
    TakenFits(written, taken + out, rest);
    Slices(written, taken, front, out, rest);
    StreamLog.ReadOn(written, log, |taken|, e);
  }

  /** What a read that starts with the last bytes of what was taken finds in the stream. */
  lemma Slices(w: seq<nat>, t: seq<nat>, front: seq<nat>, out: seq<nat>, s: seq<nat>)
    requires w == (t + out) + s && front <= t
    ensures |t| + |out| <= |w| && w[|front|..|t| + |out|] == t[|front|..] + out
  {
  }

  /** The bytes of the front are those that have been taken of it, and the rest. */
  lemma BlockBytes(heap: map<nat, seq<nat>>, fs: seq<Fragment>, taken: seq<nat>, f: Fragment, rest: seq<nat>)
    requires AllSized(heap, fs) && Begun(heap, fs, taken) && fs != [] && f == fs[0] && Sized(heap, f) && rest == Remaining(heap, f)
    ensures f.position <= |taken| && heap[f.data] == taken[|taken| - f.position..] + rest
  {
    assert heap[f.data] == heap[f.data][..f.position] + rest;
  }

  class Sink {
    var fragments: seq<Fragment>
    var heap: map<nat, seq<nat>>
    ghost var written: seq<nat>
    ghost var taken: seq<nat>
    /** What the process has been handed, and by which reads. */
    ghost var given: seq<nat>
    ghost var log: seq<Read>

    ghost predicate InOrder()
      reads this
    {
      Orderly(heap, fragments, written, taken, given, log)
    }

    /** No buffer is referred to after its release either. */
    ghost predicate Valid()
      reads this
    {
      InOrder() && OwnedOnce(fragments)
    }

    constructor (heap: map<nat, seq<nat>>)
      ensures Valid() && this.heap == heap && fragments == [] && written == [] && taken == [] && given == [] && log == []
    {
      fragments, this.heap := [], heap;
      written, taken, given, log := [], [], [], [];
    }

    /**
     append_data(); `copy` is the buffer that the allocator would yield for a copy. The bytes
     go to the end of the stream, and each buffer to be given back keeps to one fragment
     exactly if the caller has seen to it.
     */
    method AppendData(buffer: nat, appendType: AppendType, copy: nat) returns (ok: bool)
      requires Valid() && buffer in heap && copy !in heap
      modifies this
      ensures InOrder() && ok == (old(heap[buffer]) != [])
      ensures !ok ==> Valid() && fragments == old(fragments) && heap == old(heap) && written == old(written)
      ensures ok ==> (Valid() <==> Kept(old(fragments), buffer, appendType))
      ensures ok ==>
                && written == old(written) + old(heap[buffer])
                && fragments == old(fragments) + [Fragment(if appendType == CopyBuffer then copy else buffer, 0, |old(heap[buffer])|, appendType != ExistingBuffer)]
      ensures heap == if ok && appendType == CopyBuffer then old(heap)[copy := old(heap[buffer])] else old(heap)
      ensures taken == old(taken) && given == old(given) && log == old(log)
    {
      var size := |heap[buffer]|;
      if size == 0 {
        return false;
      }
      var f := Fragment(buffer, 0, size, appendType != ExistingBuffer);
      ghost var bytes := heap[buffer];
      ghost var heap0, fs := heap, fragments;
      if appendType == CopyBuffer {
        heap := heap[copy := heap[buffer]];
        f := f.(data := copy);
      }
      OrderlyAppend(heap0, fs, heap, f, written, taken, given, log, bytes);
      NewOwner(fs, f);
      SoleIffKept(heap0, fs, buffer, appendType, copy, f);
      fragments := fragments + [f];
      written := written + bytes;
      ok := true;
    }

    /** The first fragment leaves the sink. */
    method ShiftFront()
      requires AllSized(heap, fragments) && OwnedOnce(fragments) && fragments != []
      modifies this`fragments, this`heap
      ensures fragments == old(fragments)[1..] && AllSized(heap, fragments) && OwnedOnce(fragments)
      ensures heap == if old(fragments)[0].unique then old(heap) - {old(fragments)[0].data} else old(heap)
      ensures old(Stream(heap, fragments)) == Remaining(old(heap), old(fragments)[0]) + Stream(heap, fragments)
    {
      var f := fragments[0];
      ghost var fs := fragments;
      ghost var heap0 := heap;
      if f.unique {
        heap := heap - {f.data};
      }
      fragments := fragments[1..];
      assert forall i {:trigger fragments[i]} :: 0 <= i < |fragments| ==> fragments[i] == fs[i + 1] && fs[i + 1].data == fs[i + 1].data;
      ghost var rest := Tail(heap0, fs);
      forall i {:trigger rest[i]} | 0 <= i < |rest| ensures rest[i].data in heap && heap[rest[i].data] == heap0[rest[i].data] {
        assert rest[i] == fs[i + 1];
        assert Sized(heap0, fs[i + 1]);
        assert f == fs[0];
      }
      StreamFrame(heap0, heap, rest);
    }

    /** Part of the first fragment is read. */
    method ReadPart(n: nat) returns (bytes: seq<nat>)
      requires AllSized(heap, fragments) && OwnedOnce(fragments) && fragments != [] && n < fragments[0].size - fragments[0].position
      modifies this`fragments
      ensures AllSized(heap, fragments) && OwnedOnce(fragments) && |bytes| == n
      ensures old(Stream(heap, fragments)) == bytes + Stream(heap, fragments)
      ensures var f := old(fragments)[0];
              fragments == [f.(position := f.position + n)] + old(fragments)[1..] && f.data in heap && f.position + n <= |heap[f.data]|
              && bytes == heap[f.data][f.position..f.position + n]
    {
      var f := fragments[0];
      bytes := heap[f.data][f.position..f.position + n];
      ghost var fs := fragments;
      fragments := [f.(position := f.position + n)] + fragments[1..];
      AdvancedStream(heap, fs, n, fragments);
      assert forall i {:trigger fragments[i]} :: 0 <= i < |fragments| ==> fragments[i].data == fs[i].data && fragments[i].unique == fs[i].unique;
    }

    /** The loop of consume_data_stream(). */
    method TakeStream(size: nat) returns (out: seq<nat>)
      requires Valid()
      modifies this`fragments, this`heap
      ensures AllSized(heap, fragments) && OwnedOnce(fragments) && Begun(heap, fragments, taken + out)
      ensures old(Stream(heap, fragments)) == out + Stream(heap, fragments)
      ensures |out| == if size < |old(Stream(heap, fragments))| then size else |old(Stream(heap, fragments))|
      ensures LeftOf(old(fragments), fragments)
      ensures heap == old(heap) - Released(old(fragments), |old(fragments)| - |fragments|)
    {
      out := [];
      var left: nat := size;
      ghost var fs := fragments;
      ghost var all := Stream(heap, fragments);
      while left != 0 && fragments != []
        invariant Reading(old(heap), fs, all, out, left, size) && Begun(heap, fragments, taken + out)
        decreases left
      {
        out, left := ReadOn(old(heap), fs, all, out, left, size);
      }
      Ends(all, out, Stream(heap, fragments), size, left);
    }

    static lemma Ends(all: seq<nat>, out: seq<nat>, s: seq<nat>, size: nat, left: nat)
      requires all == out + s && |out| + left == size && (left == 0 || s == [])
      ensures |out| == if size < |all| then size else |all|
    {
    }

    /**
     consume_data_stream(): as many bytes as are asked for or as there are, and the buffers
     read to their end go back; `accepted` says whether the process will get them.
     */
    method ConsumeDataStream(size: nat, ghost accepted: bool) returns (out: seq<nat>)
      requires Valid()
      modifies this
      ensures Valid() && written == old(written) && taken == old(taken) + out && out <= old(Stream(heap, fragments))
      ensures given == old(given) + (if accepted then out else [])
      ensures log == old(log) + [Read(|old(taken)|, |old(taken)|, |taken|, accepted)]
      ensures |out| == if size < |old(Stream(heap, fragments))| then size else |old(Stream(heap, fragments))|
      ensures LeftOf(old(fragments), fragments)
      ensures heap == old(heap) - Released(old(fragments), |old(fragments)| - |fragments|)
    {
      ghost var heap0, fs := heap, fragments;
      out := TakeStream(size);
      ghost var e := Read(|taken|, |taken|, |taken| + |out|, accepted);
      assert taken[|taken|..] + out == out;
      OrderlyRead(heap0, fs, heap, fragments, written, taken, given, log, out, taken, e, if accepted then out else []);
      taken, given, log := taken + out, given + (if accepted then out else []), log + [e];
    }

    /**
     The system call that reads from the stream: the result is the number of bytes, 0 if there
     are none, or -1 for a size that is not allowed, and also where the process does not accept
     the bytes at the address it names; by then they are gone.
     */
    method ReadStream(size: nat, accepted: bool) returns (eax: int, bytes: seq<nat>)
      requires Valid()
      modifies this
      ensures Valid() && written == old(written)
      ensures size == 0 || size > 2048 ==>
                && eax == -1 && bytes == [] && fragments == old(fragments) && heap == old(heap)
                && taken == old(taken) && given == old(given) && log == old(log)
      ensures 0 < size <= 2048 ==>
                var left := |old(Stream(heap, fragments))|;
                var n := if size < left then size else left;
                && eax == (if n > 0 && !accepted then -1 else n)
                && taken == old(taken) + old(Stream(heap, fragments))[..n] && |taken| == |old(taken)| + n
                && bytes == (if accepted then old(Stream(heap, fragments))[..n] else []) && given == old(given) + bytes
                && log == old(log) + [Read(|old(taken)|, |old(taken)|, |taken|, accepted)]
                && LeftOf(old(fragments), fragments) && heap == old(heap) - Released(old(fragments), |old(fragments)| - |fragments|)
    {
      if size == 0 || size > MAX_READ {
        return -1, [];
      }
      var out := ConsumeDataStream(size, accepted);
      assert out == old(Stream(heap, fragments))[..|out|];
      bytes := if accepted then out else [];
      if |out| == 0 {
        return 0, bytes;
      }
      eax := if !accepted then -1 else |out|;
    }

    /** Where a read of `size` bytes stands: `left` are still asked for. */
    ghost predicate Reading(heap0: map<nat, seq<nat>>, fs: seq<Fragment>, all: seq<nat>, out: seq<nat>, left: nat, size: nat)
      reads this
    {
      && AllSized(heap, fragments) && OwnedOnce(fragments)
      && all == out + Stream(heap, fragments) && |out| + left == size
      && Eaten(heap0, fs, heap, fragments, left != 0)
    }

    /** One turn of the loop. */
    method ReadOn(ghost heap0: map<nat, seq<nat>>, ghost fs: seq<Fragment>, ghost all: seq<nat>, out: seq<nat>, left: nat, ghost size: nat)
      returns (r: seq<nat>, rest: nat)
      requires Reading(heap0, fs, all, out, left, size) && Begun(heap, fragments, taken + out) && left != 0 && fragments != []
      modifies this`fragments, this`heap
      ensures Reading(heap0, fs, all, r, rest, size) && Begun(heap, fragments, taken + r) && rest < left
    {
      ghost var heap1 := heap;
      ghost var gs := fragments;
      assert Sized(heap, gs[0]);
      var bytes := ReadFront(left);
      EatOne(heap0, fs, heap1, gs, heap, fragments, left);
      BegunOn(heap1, gs, taken + out, heap, fragments, bytes);
      Regroup(taken, out, bytes);
      Regroup(out, bytes, Stream(heap, fragments));
      r := out + bytes;
      rest := left - |bytes|;
    }

    /** The first fragment to its end, or the rest of what is asked for. */
    method ReadFront(left: nat) returns (bytes: seq<nat>)
      requires AllSized(heap, fragments) && OwnedOnce(fragments) && fragments != [] && left != 0
      modifies this`fragments, this`heap
      ensures AllSized(heap, fragments) && OwnedOnce(fragments) && old(Stream(heap, fragments)) == bytes + Stream(heap, fragments)
      ensures var f := old(fragments)[0];
              if left >= f.size - f.position then
                |bytes| == f.size - f.position && fragments == old(fragments)[1..] && heap == (if f.unique then old(heap) - {f.data} else old(heap))
              else
                && |bytes| == left && heap == old(heap) && f.data in heap && f.position + left <= |heap[f.data]|
                && bytes == heap[f.data][f.position..f.position + left]
                && fragments == [f.(position := f.position + left)] + old(fragments)[1..]
    {
      var f := fragments[0];
      if left >= f.size - f.position {
        bytes := heap[f.data][f.position..];
        ShiftFront();
      } else {
        bytes := ReadPart(left);
      }
    }

    /** consume_block() */
    method ConsumeBlock() returns (ok: bool)
      requires Valid()
      modifies this`fragments, this`heap
      ensures AllSized(heap, fragments) && OwnedOnce(fragments) && ok == (old(fragments) != [])
      ensures !ok ==> fragments == old(fragments) && heap == old(heap)
      ensures ok ==> fragments == old(fragments)[1..] && old(Stream(heap, fragments)) == Remaining(old(heap), old(fragments)[0]) + Stream(heap, fragments)
      ensures ok ==> heap == if old(fragments)[0].unique then old(heap) - {old(fragments)[0].data} else old(heap)
    {
      if |fragments| == 0 {
        return false;
      }
      ShiftFront();
      ok := true;
    }

    /**
     The system call that reads a block: the whole buffer of the front fragment, if the
     process accepts it at the address it names. The bytes taken last come again, as many
     as had been read of the fragment.
     */
    method ReadBlock(accepted: bool) returns (r: BlockRead)
      requires Valid()
      modifies this
      ensures Valid() && written == old(written)
      ensures r == NoFragment <==> old(fragments) == []
      ensures r == NotWritten <==> old(fragments) != [] && !accepted
      ensures !r.Block? ==> fragments == old(fragments) && heap == old(heap) && taken == old(taken) && given == old(given) && log == old(log)
      ensures r.Block? ==>
                var f := old(fragments)[0];
                && f.position <= |old(taken)|
                && r.bytes == old(taken)[|old(taken)| - f.position..] + Remaining(old(heap), f) == old(heap)[f.data]
                && taken == old(taken) + Remaining(old(heap), f) && given == old(given) + r.bytes
                && log == old(log) + [Read(|old(taken)| - f.position, |old(taken)|, |taken|, true)]
                && fragments == old(fragments)[1..] && r.next == (if fragments == [] then 0 else fragments[0].size)
                && heap == if f.unique then old(heap) - {f.data} else old(heap)
    {
      if |fragments| == 0 {
        return NoFragment;
      }
      var f := fragments[0];
      var bytes := heap[f.data];
      if !accepted {
        return NotWritten;
      }
      ghost var heap0, fs, rest := heap, fragments, Remaining(heap, f);
      BlockBytes(heap, fragments, taken, f, rest);
      var ok := ConsumeBlock();
      BegunOn(heap0, fs, taken, heap, fragments, rest);
      ghost var e := Read(|taken| - f.position, |taken|, |taken| + |rest|, true);
      OrderlyRead(heap0, fs, heap, fragments, written, taken, given, log, rest, taken[..|taken| - f.position], e, bytes);
      taken, given, log := taken + rest, given + bytes, log + [e];
      r := Block(bytes, if |fragments| != 0 then fragments[0].size else 0);
    }
  }

  /** What the system call yields: no fragment, no way to write it, or a block and the size of the next. */
  datatype BlockRead = NoFragment | NotWritten | Block(bytes: seq<nat>, next: nat)

  /** The buffers given back when the first n fragments have been read to their end. */
  function Released(fs: seq<Fragment>, n: nat): set<nat>
    requires n <= |fs|
  {
    if n == 0 then {} else Released(fs, n - 1) + (if fs[n - 1].unique then {fs[n - 1].data} else {})
  }

  lemma Split(b: seq<nat>, p: nat, n: nat)
    requires p + n <= |b|
    ensures b[p..] == b[p..p + n] + b[p + n..]
  {
  }

  lemma AdvancedStream(heap: map<nat, seq<nat>>, fs: seq<Fragment>, n: nat, gs: seq<Fragment>)
    requires AllSized(heap, fs) && fs != [] && fs[0].position + n < fs[0].size
    requires gs == [fs[0].(position := fs[0].position + n)] + fs[1..]
    ensures AllSized(heap, gs) && Stream(heap, fs) == heap[fs[0].data][fs[0].position..fs[0].position + n] + Stream(heap, gs)
  {
    assert Sized(heap, fs[0]);
    forall i {:trigger gs[i]} | 0 <= i < |gs| ensures Sized(heap, gs[i]) {
      assert i > 0 ==> gs[i] == fs[i];
    }
    var rest := Tail(heap, fs);
    assert Tail(heap, gs) == rest;
    var part := heap[fs[0].data][fs[0].position..fs[0].position + n];
    Split(heap[fs[0].data], fs[0].position, n);
    assert Remaining(heap, fs[0]) == part + Remaining(heap, gs[0]);
    Regroup(part, Remaining(heap, gs[0]), Stream(heap, rest));
  }

  lemma Regroup(a: seq<nat>, b: seq<nat>, c: seq<nat>)
    ensures (a + b) + c == a + (b + c)
  {
  }

  /** However appends and reads interleave, what has been taken is the beginning of what has been written. */
  lemma TakenIsPrefix(heap: map<nat, seq<nat>>, fs: seq<Fragment>, written: seq<nat>, taken: seq<nat>)
    requires AllSized(heap, fs) && written == taken + Stream(heap, fs)
    ensures taken <= written && (taken == written <==> fs == [])
  {
    if fs != [] {
      assert Sized(heap, fs[0]);
      assert |Stream(heap, fs)| >= |Remaining(heap, fs[0])| > 0;
    }
  }

  /**
   What a process has been handed, over any history of a sink: every byte that was taken, once
   and in order, if and only if no block repeats what it had already and whatever it refused
   comes again in a block.
   */
  lemma HandedOnceIff(sink: Sink)
    requires sink.Valid()
    ensures Positions(sink.log) == Upto(|sink.taken|) <==> NoneTwice(sink.log) && NoneLost(sink.log)
    ensures NoneTwice(sink.log) && NoneLost(sink.log) ==> sink.given == sink.taken
    ensures |sink.given| == |Positions(sink.log)|
    ensures forall i {:trigger sink.given[i]} :: 0 <= i < |sink.given| ==> Positions(sink.log)[i] < |sink.taken| && sink.given[i] == sink.written[Positions(sink.log)[i]]
  {
    OnceInOrderIff(sink.log, |sink.taken|);
    HandedAt(sink.written, sink.log, |sink.taken|);
    if NoneTwice(sink.log) && NoneLost(sink.log) {
      OnceIsAsWritten(sink.written, sink.log, |sink.taken|);
    }
  }

  // ------------------------------------------------------------------------ three runs

  /** A sink with one fragment of three bytes. */
  method OneFragment() returns (s: Sink)
    ensures fresh(s) && s.Valid() && s.heap == map[0 := [1, 2, 3]] && s.fragments == [Fragment(0, 0, 3, true)]
    ensures s.written == [1, 2, 3] && s.taken == [] && s.given == [] && s.log == []
  {
    s := new Sink(map[0 := [1, 2, 3]]);
    var ok := s.AppendData(0, TransferOwnership, 1);
  }

  lemma ThreeBytes(heap: map<nat, seq<nat>>, fs: seq<Fragment>)
    requires heap == map[0 := [1, 2, 3]] && fs == [Fragment(0, 0, 3, true)]
    ensures AllSized(heap, fs) && Stream(heap, fs) == [1, 2, 3]
  {
    assert Sized(heap, fs[0]) && AllSized(heap, fs);
    assert Tail(heap, fs) == [];
  }

  /** That sink after one stream read of fewer bytes than there are. */
  method OneRead(n: nat, accepted: bool) returns (s: Sink)
    requires 1 <= n <= 2
    ensures fresh(s) && s.Valid() && s.written == [1, 2, 3] && s.taken == [1, 2, 3][..n] && s.given == (if accepted then [1, 2, 3][..n] else [])
    ensures s.log == [Read(0, 0, n, accepted)] && s.heap == map[0 := [1, 2, 3]] && s.fragments == [Fragment(0, n, 3, true)]
  {
    s := OneFragment();
    ThreeBytes(s.heap, s.fragments);
    ghost var fs := s.fragments;
    var eax, bytes := s.ReadStream(n, accepted);
    assert |s.taken| == n;
    PartLeft(s.heap, fs, s.fragments, s.written, s.taken, n);
  }

  lemma PartLeft(heap: map<nat, seq<nat>>, fs: seq<Fragment>, gs: seq<Fragment>, w: seq<nat>, t: seq<nat>, n: nat)
    requires fs == [Fragment(0, 0, 3, true)] && LeftOf(fs, gs) && AllSized(heap, gs) && w == t + Stream(heap, gs) && |w| == 3 && |t| == n < 3
    ensures gs == [Fragment(0, n, 3, true)]
  {
    if gs != [] {
      assert Sized(heap, gs[0]) && gs[1..] == [];
      assert Tail(heap, gs) == [] && Stream(heap, Tail(heap, gs)) == [];
    }
  }

  /** Two bytes are read to an address that does not accept them, then the rest: the process has the third byte alone. */
  method RefusedRead() returns (s: Sink)
    ensures fresh(s) && s.Valid() && s.taken == [1, 2, 3] == s.written && s.given == [3] && NoneTwice(s.log) && !NoneLost(s.log)
  {
    s := OneRead(2, false);
    var eax, bytes := s.ReadStream(2, true);
    LostAtOnce(s.log, Read(0, 0, 2, false), Read(2, 2, 3, true));
  }

  lemma LostAtOnce(log: seq<Read>, a: Read, b: Read)
    requires log == [a] + [b] && !a.handed && a.from < a.to && b.first > a.from
    ensures NoneTwice(log) && !NoneLost(log)
  {
    assert log[0] == a && log[1] == b;
    assert !MadeGood(log, 0);
  }

  /** A block read behind a stream read of its fragment: the bytes of the fragment, from the first on. */
  method BlockAfter(n: nat, accepted: bool) returns (s: Sink)
    requires 1 <= n <= 2
    ensures fresh(s) && s.Valid() && s.taken == [1, 2, 3] == s.written && s.given == (if accepted then [1, 2, 3][..n] else []) + [1, 2, 3]
    ensures s.log == [Read(0, 0, n, accepted)] + [Read(0, n, 3, true)]
  {
    s := OneRead(n, accepted);
    ghost var heap, f, taken, given := s.heap, s.fragments[0], s.taken, s.given;
    var r := s.ReadBlock(true);
    WholeBlock(heap, f, taken, n, s.taken);
  }

  lemma WholeBlock(heap: map<nat, seq<nat>>, f: Fragment, taken: seq<nat>, n: nat, taken': seq<nat>)
    requires heap == map[0 := [1, 2, 3]] && f == Fragment(0, n, 3, true) && n <= 2 && taken == [1, 2, 3][..n] && Sized(heap, f) && taken' == taken + Remaining(heap, f)
    ensures taken' == [1, 2, 3]
  {
    assert [1, 2, 3][..n] + [1, 2, 3][n..] == [1, 2, 3];
  }

  /** One byte is read, then the block: the process has the first byte twice. */
  method RepeatedByte() returns (s: Sink)
    ensures fresh(s) && s.Valid() && s.taken == [1, 2, 3] == s.written && s.given == [1, 1, 2, 3] && !NoneTwice(s.log) && NoneLost(s.log)
  {
    s := BlockAfter(1, true);
    assert s.log[0] == Read(0, 0, 1, true) && s.log[1] == Read(0, 1, 3, true);
  }

  /** Two bytes are refused, then the block is read: nothing is lost after all. */
  method RefusedThenBlock() returns (s: Sink)
    ensures fresh(s) && s.Valid() && s.taken == [1, 2, 3] == s.written == s.given && NoneTwice(s.log) && NoneLost(s.log)
  {
    s := BlockAfter(2, false);
    assert s.log[0] == Read(0, 0, 2, false) && s.log[1] == Read(0, 2, 3, true);
  }
}
