/** The reads of a byte stream, by the positions they take and hand out, and when each byte is handed out once and in order. */
module StreamLog {

  /**
   A read takes the bytes from `from` to `to` off the stream. If it is handed over, the
   process gets those from `first` on: a stream read starts with what it takes, a block
   read with the first byte of its fragment.
   */
  datatype Read = Read(first: nat, from: nat, to: nat, handed: bool)

  /** Each read takes up where the one before it ended; all together they have taken `taken` bytes. */
  predicate Chained(log: seq<Read>, taken: nat) {
    if log == [] then taken == 0
    else
      var e := log[|log| - 1];
      e.first <= e.from <= e.to == taken && Chained(log[..|log| - 1], e.from)
  }

  function Range(a: nat, b: nat): (s: seq<nat>)
    requires a <= b
    ensures |s| == b - a && forall i :: 0 <= i < |s| ==> s[i] == a + i
  {
    seq(b - a, i requires 0 <= i => a + i)
  }

  /** The positions handed out, one after the other. */
  function Positions(log: seq<Read>): seq<nat> {
    if log == [] then []
    else
      var e := log[|log| - 1];
      Positions(log[..|log| - 1]) + if e.handed && e.first <= e.to then Range(e.first, e.to) else []
  }

  /** The bytes handed out. */
  function Handed(written: seq<nat>, log: seq<Read>): seq<nat> {
    if log == [] then []
    else
      var e := log[|log| - 1];
      Handed(written, log[..|log| - 1]) + if e.handed && e.first <= e.to <= |written| then written[e.first..e.to] else []
  }

  lemma {:induction false} HandedAt(written: seq<nat>, log: seq<Read>, taken: nat)
    requires Chained(log, taken) && taken <= |written|
    ensures |Handed(written, log)| == |Positions(log)|
    ensures forall i {:trigger Positions(log)[i]} :: 0 <= i < |Positions(log)| ==> Positions(log)[i] < taken && Handed(written, log)[i] == written[Positions(log)[i]]
    decreases |log|
  {
    if log != [] {
      HandedAt(written, log[..|log| - 1], log[|log| - 1].from);
    }
  }

  /** One more read. */
  lemma ReadOn(written: seq<nat>, log: seq<Read>, taken: nat, e: Read)
    requires Chained(log, taken) && e.first <= e.from == taken <= e.to <= |written|
    ensures Chained(log + [e], e.to)
    ensures Handed(written, log + [e]) == Handed(written, log) + if e.handed then written[e.first..e.to] else []
  {
    assert (log + [e])[..|log|] == log;
  }

  /** More bytes at the end of the stream change nothing of what has been handed out. */
  lemma {:induction false} HandedFrame(written: seq<nat>, more: seq<nat>, log: seq<Read>, taken: nat)
    requires Chained(log, taken) && taken <= |written|
    ensures Handed(written + more, log) == Handed(written, log)
    decreases |log|
  {
    if log != [] {
      var e := log[|log| - 1];
      HandedFrame(written, more, log[..|log| - 1], e.from);
      assert (written + more)[e.first..e.to] == written[e.first..e.to];
    }
  }

  lemma {:induction false} ChainedAt(log: seq<Read>, taken: nat, k: nat)
    requires Chained(log, taken) && k < |log|
    ensures log[k].first <= log[k].from <= log[k].to <= taken
    ensures k + 1 < |log| ==> log[k].to == log[k + 1].from
    decreases |log|
  {
    if k < |log| - 1 {
      ChainedAt(log[..|log| - 1], log[|log| - 1].from, k);
      if k + 1 == |log| - 1 {
        assert Chained(log[..|log| - 1], log[|log| - 1].from);
      }
    }
  }

  lemma {:induction false} ChainedOrder(log: seq<Read>, taken: nat, k: nat, j: nat)
    requires Chained(log, taken) && k < j < |log|
    ensures log[k].to <= log[j].from
    decreases j
  {
    ChainedAt(log, taken, k);
    if k + 1 < j {
      ChainedOrder(log, taken, k, j - 1);
      ChainedAt(log, taken, j - 1);
    }
  }

  predicate HandsOut(e: Read, b: nat) {
    e.handed && e.first <= b < e.to
  }

  /** Some read has handed out the byte at position b. */
  predicate Covers(log: seq<Read>, b: nat) {
    exists k :: 0 <= k < |log| && HandsOut(log[k], b)
  }

  lemma {:induction false} PositionsCover(log: seq<Read>, taken: nat, b: nat)
    requires Chained(log, taken)
    ensures b in Positions(log) <==> Covers(log, b)
    decreases |log|
  {
    if log != [] {
      var n, e := |log| - 1, log[|log| - 1];
      PositionsCover(log[..n], e.from, b);
      if HandsOut(e, b) {
        assert Range(e.first, e.to)[b - e.first] == b;
      }
      if k :| 0 <= k < |log| && HandsOut(log[k], b) {
        assert k < n ==> log[..n][k] == log[k];
      }
    }
  }

  /** Some read took the byte at position b off the stream. */
  lemma {:induction false} TakenBy(log: seq<Read>, taken: nat, b: nat) returns (k: nat)
    requires Chained(log, taken) && b < taken
    ensures k < |log| && log[k].from <= b < log[k].to
    decreases |log|
  {
    var n := |log| - 1;
    if log[n].from <= b {
      k := n;
    } else {
      k := TakenBy(log[..n], log[n].from, b);
    }
  }

  predicate Increasing(s: seq<nat>) {
    forall i, j :: 0 <= i < j < |s| ==> s[i] < s[j]
  }

  function Upto(n: nat): seq<nat> {
    Range(0, n)
  }

  lemma LastIsGreatest(s: seq<nat>, k: nat)
    requires Increasing(s) && k < |s|
    ensures s[k] <= s[|s| - 1]
  {
    if k < |s| - 1 {
      assert s[k] < s[|s| - 1];
    }
  }

  /** Growing numbers below n that leave none out are all of them. */
  lemma {:induction false} AllInOrder(s: seq<nat>, n: nat)
    requires Increasing(s) && (forall i :: 0 <= i < |s| ==> s[i] < n) && forall b: nat :: b < n ==> b in s
    ensures s == Upto(n)
    decreases n
  {
    if n == 0 {
      assert s == [];
    } else {
      var m := |s| - 1;
      assert n - 1 in s;
      var k :| 0 <= k < |s| && s[k] == n - 1;
      LastIsGreatest(s, k);
      forall b: nat | b < n - 1 ensures b in s[..m] {
        assert b in s;
        var i :| 0 <= i < |s| && s[i] == b;
        assert s[..m][i] == b;
      }
      AllInOrder(s[..m], n - 1);
      assert s == s[..m] + [n - 1];
    }
  }

  // -------------------------------------------------------------- once and in order

  /** No read hands out what an earlier one has handed out. */
  predicate NoneTwice(log: seq<Read>) {
    forall k, j {:trigger log[k], log[j]} :: 0 <= k < j < |log| && log[k].handed && log[j].handed && log[k].first < log[k].to ==> log[k].to <= log[j].first
  }

  /** Some later read goes back to what read k took and did not hand over. */
  predicate MadeGood(log: seq<Read>, k: nat)
    requires k < |log|
  {
    exists j {:trigger log[j]} :: k < j < |log| && log[j].handed && log[j].first <= log[k].from
  }

  /** Everything that was taken and refused comes again in a later block. */
  predicate NoneLost(log: seq<Read>) {
    forall k {:trigger log[k]} :: 0 <= k < |log| && !log[k].handed && log[k].from < log[k].to ==> MadeGood(log, k)
  }

  lemma {:induction false} GrowingPositions(log: seq<Read>, taken: nat)
    requires Chained(log, taken) && NoneTwice(log)
    ensures Increasing(Positions(log))
    decreases |log|
  {
    if log != [] {
      var n, e := |log| - 1, log[|log| - 1];
      var before := Positions(log[..n]);
      assert NoneTwice(log[..n]);
      GrowingPositions(log[..n], e.from);
      if e.handed {
        forall i | 0 <= i < |before| ensures before[i] < e.first {
          PositionsCover(log[..n], e.from, before[i]);
          var k :| 0 <= k < n && HandsOut(log[..n][k], before[i]);
          assert log[k].to <= log[n].first;
        }
      }
    }
  }

  lemma Complete(log: seq<Read>, taken: nat, b: nat)
    requires Chained(log, taken) && NoneLost(log) && b < taken
    ensures Covers(log, b)
  {
    var k := TakenBy(log, taken, b);
    ChainedAt(log, taken, k);
    if log[k].handed {
      assert HandsOut(log[k], b);
    } else {
      assert MadeGood(log, k);
      var j :| k < j < |log| && log[j].handed && log[j].first <= log[k].from;
      ChainedOrder(log, taken, k, j);
      ChainedAt(log, taken, j);
      assert HandsOut(log[j], b);
    }
  }

  /** A byte handed out twice has two places among the positions. */
  lemma {:induction false} PlaceOf(log: seq<Read>, taken: nat, k: nat, b: nat) returns (i: nat)
    requires Chained(log, taken) && k < |log| && HandsOut(log[k], b)
    ensures |Positions(log[..k])| <= i < |Positions(log[..k + 1])| && |Positions(log[..k + 1])| <= |Positions(log)| && Positions(log)[i] == b
    decreases |log|
  {
    var n := |log| - 1;
    if k == n {
      i := |Positions(log[..n])| + (b - log[n].first);
      assert log[..k + 1] == log;
    } else {
      i := PlaceOf(log[..n], log[n].from, k, b);
      assert log[..n][..k] == log[..k] && log[..n][..k + 1] == log[..k + 1];
    }
  }

  lemma {:induction false} PlacesGrow(log: seq<Read>, k: nat, j: nat)
    requires k <= j <= |log|
    ensures |Positions(log[..k])| <= |Positions(log[..j])|
    decreases j
  {
    if k < j {
      PlacesGrow(log, k, j - 1);
      assert log[..j][..j - 1] == log[..j - 1];
    }
  }

  lemma OnceMeansNoneTwice(log: seq<Read>, taken: nat, k: nat, j: nat)
    requires Chained(log, taken) && Positions(log) == Upto(taken)
    requires k < j < |log| && log[k].handed && log[j].handed && log[k].first < log[k].to
    ensures log[k].to <= log[j].first
  {
    ChainedAt(log, taken, k);
    ChainedAt(log, taken, j);
    ChainedOrder(log, taken, k, j);
    if log[j].first < log[k].to {
      var b := log[k].to - 1;
      var i1 := PlaceOf(log, taken, k, b);
      var i2 := PlaceOf(log, taken, j, b);
      PlacesGrow(log, k + 1, j);
    }
  }

  lemma OnceMeansNoneLost(log: seq<Read>, taken: nat, k: nat)
    requires Chained(log, taken) && Positions(log) == Upto(taken)
    requires k < |log| && !log[k].handed && log[k].from < log[k].to
    ensures MadeGood(log, k)
  {
    var b := log[k].from;
    ChainedAt(log, taken, k);
    assert Upto(taken)[b] == b;
    PositionsCover(log, taken, b);
    var j :| 0 <= j < |log| && HandsOut(log[j], b);
    if j < k {
      ChainedOrder(log, taken, j, k);
    }
  }

  /**
   The process is handed every byte that was taken, once and in order, if and only if no
   block repeats what it had already, and whatever was refused comes again in a block.
   */
  lemma OnceInOrderIff(log: seq<Read>, taken: nat)
    requires Chained(log, taken)
    ensures Positions(log) == Upto(taken) <==> NoneTwice(log) && NoneLost(log)
  {
    if NoneTwice(log) && NoneLost(log) {
      GrowingPositions(log, taken);
      forall b: nat ensures b in Positions(log) <==> Covers(log, b) {
        PositionsCover(log, taken, b);
      }
      forall b: nat | b < taken ensures b in Positions(log) {
        Complete(log, taken, b);
      }
      HandedAt(seq(taken, _ => 0), log, taken);
      AllInOrder(Positions(log), taken);
    }
    if Positions(log) == Upto(taken) {
      forall k, j | 0 <= k < j < |log| && log[k].handed && log[j].handed && log[k].first < log[k].to ensures log[k].to <= log[j].first {
        OnceMeansNoneTwice(log, taken, k, j);
      }
      forall k | 0 <= k < |log| && !log[k].handed && log[k].from < log[k].to ensures MadeGood(log, k) {
        OnceMeansNoneLost(log, taken, k);
      }
    }
  }

  /** And then it has the stream as it was written. */
  lemma OnceIsAsWritten(written: seq<nat>, log: seq<Read>, taken: nat)
    requires Chained(log, taken) && taken <= |written| && NoneTwice(log) && NoneLost(log)
    ensures Handed(written, log) == written[..taken]
  {
    OnceInOrderIff(log, taken);
    HandedAt(written, log, taken);
    forall i | 0 <= i < taken ensures Handed(written, log)[i] == written[i] {
      assert Positions(log)[i] == i;
    }
  }
}
