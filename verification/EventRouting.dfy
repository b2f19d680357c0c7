/** Who is told of an event: each listener that has one of its bits in the mask, once, in the order of hooking. */
module EventRouting {
  import opened SchedulerState
  import opened Bits

  /** The mask and the id have a bit in common. */
  ghost predicate ShareBit(mask: nat, id: nat) {
    exists b: nat {:trigger BitAt(mask, b)} :: BitAt(mask, b) && BitAt(id, b)
  }

  lemma MaskedIffShared(mask: nat, id: nat)
    ensures And(mask, id) != 0 <==> ShareBit(mask, id)
  {
    if b: nat :| BitAt(mask, b) && BitAt(id, b) {
      AndAt(mask, id, b);
      ZeroAt(b);
    }
    if !ShareBit(mask, id) {
      forall b: nat ensures BitAt(And(mask, id), b) == BitAt(0, b) {
        AndAt(mask, id, b);
        ZeroAt(b);
        assert !(BitAt(mask, b) && BitAt(id, b));
      }
      SameBits(And(mask, id), 0);
    }
  }

  /** Listener k is told: it shares a bit with the id, and its thread lives and accepts events. */
  ghost predicate Told(hooked: seq<Listener>, threads: map<nat, Thread>, id: nat, k: nat)
    requires k < |hooked|
  {
    ShareBit(hooked[k].mask, id) && hooked[k].thread in threads && threads[hooked[k].thread].policy != Busy
  }

  ghost predicate Increasing(ks: seq<nat>) {
    forall i, j {:trigger ks[i], ks[j]} :: 0 <= i < j < |ks| ==> ks[i] < ks[j]
  }

  /** The events es are those for the listeners ks, which are exactly those to be told from number k on, in their order. */
  ghost predicate RoutedFrom(hooked: seq<Listener>, threads: map<nat, Thread>, id: nat, data: nat, es: seq<Event>, ks: seq<nat>, k: nat) {
    && Increasing(ks) && |es| == |ks|
    && (forall i {:trigger es[i]} {:trigger ks[i]} :: 0 <= i < |ks| ==>
          k <= ks[i] < |hooked| && es[i] == Event(hooked[ks[i]].thread, id, data, hooked[ks[i]].handler))
    && forall j: nat {:trigger j in ks} {:trigger hooked[j]} :: k <= j < |hooked| ==> (j in ks <==> Told(hooked, threads, id, j))
  }

  ghost predicate Routed(hooked: seq<Listener>, threads: map<nat, Thread>, id: nat, data: nat, es: seq<Event>, ks: seq<nat>) {
    RoutedFrom(hooked, threads, id, data, es, ks, 0)
  }

  lemma OneMoreTold(hooked: seq<Listener>, threads: map<nat, Thread>, id: nat, data: nat, es: seq<Event>, ks: seq<nat>, k: nat)
    requires k < |hooked| && RoutedFrom(hooked, threads, id, data, es, ks, k + 1) && Told(hooked, threads, id, k)
    ensures RoutedFrom(hooked, threads, id, data, [Event(hooked[k].thread, id, data, hooked[k].handler)] + es, [k] + ks, k)
  {
    var ks', es' := [k] + ks, [Event(hooked[k].thread, id, data, hooked[k].handler)] + es;
    InFront(k, ks);
    forall i | 0 <= i < |ks'| ensures k <= ks'[i] < |hooked| && es'[i] == Event(hooked[ks'[i]].thread, id, data, hooked[ks'[i]].handler) {
      assert i > 0 ==> ks'[i] == ks[i - 1] && es'[i] == es[i - 1];
    }
    forall j: nat | k <= j < |hooked| ensures j in ks' <==> Told(hooked, threads, id, j) {
      assert j > k ==> (j in ks <==> Told(hooked, threads, id, j));
    }
  }

  lemma InFront(k: nat, ks: seq<nat>)
    requires Increasing(ks) && forall i {:trigger ks[i]} :: 0 <= i < |ks| ==> k < ks[i]
    ensures Increasing([k] + ks) && forall j: nat {:trigger j in [k] + ks} :: j in [k] + ks <==> j == k || j in ks
  {
    var ks' := [k] + ks;
    forall i, j | 0 <= i < j < |ks'| ensures ks'[i] < ks'[j] {
      assert ks'[j] == ks[j - 1];
      assert i > 0 ==> ks'[i] == ks[i - 1];
    }
  }

  lemma NotTold(hooked: seq<Listener>, threads: map<nat, Thread>, id: nat, data: nat, es: seq<Event>, ks: seq<nat>, k: nat)
    requires k < |hooked| && RoutedFrom(hooked, threads, id, data, es, ks, k + 1) && !Told(hooked, threads, id, k)
    ensures RoutedFrom(hooked, threads, id, data, es, ks, k)
  {
    forall j: nat | k <= j < |hooked| ensures j in ks <==> Told(hooked, threads, id, j) {
      assert j > k ==> (j in ks <==> Told(hooked, threads, id, j));
    }
  }

  lemma {:induction false} EmittedFrom(s: Sched, p: nat, id: nat, data: nat, k: nat) returns (ks: seq<nat>)
    requires p in s.processes && k <= |s.processes[p].hooked|
    ensures RoutedFrom(s.processes[p].hooked, s.threads, id, data, Emitted(s, p, id, data, k), ks, k)
    decreases |s.processes[p].hooked| - k
  {
    var hooked := s.processes[p].hooked;
    ks := [];
    if k < |hooked| {
      ks := EmittedFrom(s, p, id, data, k + 1);
      MaskedIffShared(hooked[k].mask, id);
      var rest := Emitted(s, p, id, data, k + 1);
      if Told(hooked, s.threads, id, k) {
        OneMoreTold(hooked, s.threads, id, data, rest, ks, k);
        ks := [k] + ks;
      } else {
        NotTold(hooked, s.threads, id, data, rest, ks, k);
        assert [] + rest == rest;
      }
    }
  }

  /** An emission tells exactly the listeners to be told, each once, in the order of hooking. */
  lemma EmittedIsRouted(s: Sched, p: nat, id: nat, data: nat) returns (ks: seq<nat>)
    requires p in s.processes
    ensures Routed(s.processes[p].hooked, s.threads, id, data, Emitted(s, p, id, data, 0), ks)
  {
    ks := EmittedFrom(s, p, id, data, 0);
  }

  lemma LastIsGreatest(a: seq<nat>)
    requires Increasing(a) && a != []
    ensures forall x {:trigger x in a} :: x in a ==> x <= a[|a| - 1]
    ensures forall x {:trigger x in a[..|a| - 1]} :: x in a[..|a| - 1] <==> x in a && x != a[|a| - 1]
    ensures Increasing(a[..|a| - 1])
  {
    assert a == a[..|a| - 1] + [a[|a| - 1]];
  }

  lemma HasElement(a: seq<nat>)
    ensures a != [] ==> exists x: nat :: x in a
  {
    if a != [] {
      assert a[0] in a;
    }
  }

  lemma {:induction false} SameIncreasing(a: seq<nat>, b: seq<nat>)
    requires Increasing(a) && Increasing(b) && forall x: nat {:trigger x in a} {:trigger x in b} :: x in a <==> x in b
    ensures a == b
    decreases |a|
  {
    HasElement(a);
    HasElement(b);
    if a != [] && b != [] {
      var n, m := |a| - 1, |b| - 1;
      LastIsGreatest(a);
      LastIsGreatest(b);
      assert a[n] in b && b[m] in a;
      SameIncreasing(a[..n], b[..m]);
      assert a == a[..n] + [a[n]] && b == b[..m] + [b[m]];
    }
  }

  /** That leaves no choice: the events queued are determined by the listeners, the threads, the id and the data. */
  lemma RoutedIsUnique(hooked: seq<Listener>, threads: map<nat, Thread>, id: nat, data: nat, es: seq<Event>, ks: seq<nat>, es': seq<Event>, ks': seq<nat>)
    requires Routed(hooked, threads, id, data, es, ks) && Routed(hooked, threads, id, data, es', ks')
    ensures es == es'
  {
    forall k: nat ensures k in ks <==> k in ks' {
      assert k in ks ==> k < |hooked|;
      assert k in ks' ==> k < |hooked|;
      assert k < |hooked| ==> (k in ks <==> Told(hooked, threads, id, k)) && (k in ks' <==> Told(hooked, threads, id, k));
    }
    SameIncreasing(ks, ks');
  }
}
