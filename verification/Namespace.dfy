/** The namespace of ns.c on its table of nodes and the hash tables of their children. */
module Namespace {
  import opened NamespaceTree
  import opened HashTable

  datatype InstallResult = Done | DuplicateName

  /** lai_hash_string(): djb2 on 32 bits. */
  function Hash(s: string, n: nat): int
    requires n <= |s|
  {
    if n == 0 then 5381 else (33 * Hash(s, n - 1) + s[n - 1] as int) % 0x1_0000_0000
  }

  function NameHash(name: string): int {
    Hash(name, |name|)
  }

  /** The live slots are the children under the hashes of their names, each once. */
  ghost predicate Serves(slots: seq<Slot<Id>>, nodes: seq<Node>, children: set<Id>) {
    && Once(slots)
    && (forall k: nat {:trigger slots[k]} :: k < |slots| && slots[k].Live? ==> slots[k].elem in children && Hashed(nodes, slots[k].hash, slots[k].elem))
    && (forall c {:trigger c in children} :: c in children ==> c < |nodes| && Live(NameHash(nodes[c].name), c) in slots)
  }

  predicate Hashed(nodes: seq<Node>, h: int, c: Id) {
    c < |nodes| && h == NameHash(nodes[c].name)
  }

  /** The live slots that hold a child with the name and hash all lie ahead of the walk. */
  ghost predicate Pending(slots: seq<Slot<Id>>, buckets: seq<int>, nodes: seq<Node>, name: string, h: int, i: nat)
    requires i <= |buckets|
  {
    forall k: nat {:trigger slots[k]} :: k < |slots| && slots[k].Live? && slots[k].hash == h && Named(nodes, slots[k].elem, name) ==> k in Walk(slots, buckets, h, i)
  }

  lemma WalkStarts(slots: seq<Slot<Id>>, buckets: seq<int>, nodes: seq<Node>, name: string, h: int)
    requires Indexed(slots, buckets)
    ensures Pending(slots, buckets, nodes, name, h, 0)
  {
    forall k: nat | k < |slots| && slots[k].Live? && slots[k].hash == h ensures k in Walk(slots, buckets, h, 0) {
      WalkIsExact(slots, buckets, h, k);
    }
  }

  lemma WalkPasses(slots: seq<Slot<Id>>, buckets: seq<int>, nodes: seq<Node>, name: string, h: int, i: nat)
    requires i < |buckets| && HitAt(slots, buckets, h, i) && Pending(slots, buckets, nodes, name, h, i)
    requires !Named(nodes, slots[buckets[Bucket(h, i, |buckets|)]].elem, name)
    ensures Pending(slots, buckets, nodes, name, h, i + 1)
  {
  }

  /** A walk that has ended without the name shows that no child has it. */
  lemma WalkMisses(slots: seq<Slot<Id>>, buckets: seq<int>, nodes: seq<Node>, children: set<Id>, name: string)
    requires Serves(slots, nodes, children) && Pending(slots, buckets, nodes, name, NameHash(name), |buckets|)
    ensures forall c :: c in children ==> !Named(nodes, c, name)
  {
    forall c | c in children ensures !Named(nodes, c, name) {
      var k :| 0 <= k < |slots| && slots[k] == Live(NameHash(nodes[c].name), c);
    }
  }

  class AcpiNamespace {
    var nodes: seq<Node>
    var tables: seq<Table<Id>>
    ghost var kids: seq<set<Id>>

    /** No two nodes share a table or its arrays. */
    ghost predicate Apart()
      reads this, tables
    {
      forall i, j :: 0 <= i < j < |tables| ==>
        tables[i] != tables[j] && tables[i].slots != tables[j].slots && tables[i].buckets != tables[j].buckets
    }

    ghost predicate Valid()
      reads this, tables, set t: Table<Id> | t in tables :: t.slots, set t: Table<Id> | t in tables :: t.buckets
    {
      && TreeOk(nodes, kids) && |tables| == |nodes| && Apart()
      && forall p :: 0 <= p < |tables| ==> tables[p].Valid() && Serves(tables[p].slots[..], nodes, kids[p])
    }

    /** A namespace with the root alone. */
    constructor ()
      ensures Valid() && nodes == [Node("", 0, None)] && kids == [{}]
    {
      var t := new Table<Id>();
      nodes := [Node("", 0, None)];
      tables := [t];
      kids := [{}];
    }

    /** The loop over a chain in lai_ns_get_child(). */
    static method Search(t: Table<Id>, nodes: seq<Node>, name: string, ghost children: set<Id>) returns (r: Option<Id>)
      requires t.Valid() && Serves(t.slots[..], nodes, children)
      ensures r.Some? ==> r.value in children && Named(nodes, r.value, name)
      ensures r.None? ==> forall c :: c in children ==> !Named(nodes, c, name)
    {
      var h := NameHash(name);
      WalkStarts(t.slots[..], t.buckets[..], nodes, name, h);
      var i := t.Advance(h, -1);
      while i < t.buckets.Length
        invariant i <= t.buckets.Length && (i < t.buckets.Length ==> HitAt(t.slots[..], t.buckets[..], h, i))
        invariant Pending(t.slots[..], t.buckets[..], nodes, name, h, i)
        decreases t.buckets.Length - i
      {
        var child := t.Get(h, i);
        if nodes[child].name == name {
          return Some(child);
        }
        WalkPasses(t.slots[..], t.buckets[..], nodes, name, h, i);
        i := t.Advance(h, i);
      }
      WalkMisses(t.slots[..], t.buckets[..], nodes, children, name);
      r := None;
    }

    /** lai_ns_get_child() */
    method GetChild(p: Id, name: string) returns (r: Option<Id>)
      requires Valid() && p < |nodes|
      ensures r == Lookup(nodes, kids, p, name)
    {
      r := Search(tables[p], nodes, name, kids[p]);
      if r.Some? {
        LookupFinds(nodes, kids, p, r.value);
      }
    }

    /** The part of lai_resolve_path() that reads the prefix of a path. */
    method StartOfPath(ctx: Id, path: string) returns (current: Id, i: nat)
      requires Valid() && ctx < |nodes|
      ensures current < |nodes| && i <= |path|
      ensures if path != "" && path[0] == '\\' then current == 0 && i == 1
              else i == Carets(path) && current == Climb(nodes, ctx, i)
    {
      current, i := ctx, 0;
      if path != "" && path[0] == '\\' {
        while current > 0
          invariant current < |nodes|
        {
          assert NodeOk(nodes, current);
          current := nodes[current].parent;
        }
        i := 1;
      } else {
        var height: nat := 0;
        while i < |path| && path[i] == '^'
          invariant height == i <= |path| && Carets(path) == i + Carets(path[i..])
        {
          height := height + 1;
          i := i + 1;
        }
        while height > 0 && current > 0
          invariant current < |nodes| && Climb(nodes, current, height) == Climb(nodes, ctx, i)
        {
          assert NodeOk(nodes, current);
          current := nodes[current].parent;
          height := height - 1;
        }
      }
    }

    /** One segment of a path. */
    method StepDown(current: Id, segment: string) returns (r: Option<Id>)
      requires Valid() && current < |nodes|
      ensures r == Step(nodes, kids, current, segment)
    {
      var child := GetChild(current, segment);
      if child.None? {
        return None;
      }
      assert IsChild(nodes, current, child.value);
      r := Some(Dealias(nodes, child.value));
    }

    /** lai_resolve_path() */
    method ResolvePath(ctx: Id, path: string) returns (r: Resolution)
      requires Valid() && ctx < |nodes|
      ensures r == Resolve(nodes, kids, ctx, path)
    {
      var current: Id, i: nat := StartOfPath(ctx, path);
      if i == |path| {
        return Found(current);
      }
      r := DescendPath(current, path, i);
    }

    /** The loop over segments in lai_resolve_path(). */
    method DescendPath(start: Id, path: string, from: nat) returns (r: Resolution)
      requires Valid() && start < |nodes| && from <= |path|
      ensures r == Descend(nodes, kids, start, path, from)
    {
      var current: Id, i: nat := start, from;
      while true
        invariant current < |nodes| && i <= |path| && Descend(nodes, kids, current, path, i) == Descend(nodes, kids, start, path, from)
        decreases |path| - i
      {
        var child := StepDown(current, Segment(path, i));
        if child.None? {
          return NotFound;
        }
        current := child.value;
        i := i + NameRun(path, i, 4);
        if i == |path| {
          return Found(current);
        }
        if path[i] != '.' {
          return Panic;
        }
        i := i + 1;
      }
    }

    /** lai_stringify_node_path(): written from right to left. */
    method StringifyPath(n: Id) returns (path: string)
      requires Valid() && n < |nodes|
      ensures path == Printed(nodes, n)
    {
      if n == 0 {
        RootDotted(nodes);
        return "\\";
      }
      var str: string := "";
      var current: Id := n;
      while current > 0
        invariant current < |nodes| && Dotted(nodes, n) == Dotted(nodes, current) + str
        invariant current == n || |str| > 0
      {
        assert NodeOk(nodes, current);
        str := ("." + nodes[current].name) + str;
        current := nodes[current].parent;
      }
      RootDotted(nodes);
      assert "" + str == str;
      path := str[0 := '\\'];
    }

    /** lai_resolve_search() */
    method ResolveSearch(ctx: Id, segment: string) returns (r: Option<Id>)
      requires Valid() && ctx < |nodes|
      ensures r == SearchUp(nodes, kids, ctx, segment)
    {
      var current: Id := ctx;
      while true
        invariant current < |nodes| && SearchUp(nodes, kids, current, segment) == SearchUp(nodes, kids, ctx, segment)
        decreases current
      {
        var node := GetChild(current, segment);
        if node.Some? {
          assert IsChild(nodes, current, node.value);
          return Some(Dealias(nodes, node.value));
        }
        if current == 0 {
          return None;
        }
        assert NodeOk(nodes, current);
        current := nodes[current].parent;
      }
    }

    /** A node enters the table of nodes, with an empty table of children. */
    method Append(node: Node)
      requires Valid() && node.parent < |nodes| && nodes[node.parent].target.None? && |node.name| == 4
      requires node.target.Some? ==> node.target.value < |nodes| && nodes[node.target.value].target.None?
      modifies this
      ensures Valid() && nodes == old(nodes) + [node] && kids == old(kids) + [{}]
      ensures tables[..|old(tables)|] == old(tables) && fresh(tables[|old(tables)|])
      ensures fresh(tables[|old(tables)|].slots) && fresh(tables[|old(tables)|].buckets)
    {
      ghost var was, wasKids := nodes, kids;
      var own := new Table<Id>();
      MoreNodes(was, wasKids, node);
      forall p | 0 <= p < |tables| ensures Serves(tables[p].slots[..], was + [node], wasKids[p]) {
        ServesMore(tables[p].slots[..], was, wasKids[p], node);
      }
      nodes := nodes + [node];
      tables := tables + [own];
      kids := kids + [{}];
    }

    /** A child enters a table. */
    static method Enroll(t: Table<Id>, nodes: seq<Node>, ghost children: set<Id>, n: Id)
      requires t.Valid() && Serves(t.slots[..], nodes, children) && n < |nodes| && n !in children
      modifies t, t.slots, t.buckets
      ensures t.Valid() && Serves(t.slots[..], nodes, children + {n})
      ensures (t.slots == old(t.slots) || fresh(t.slots)) && (t.buckets == old(t.buckets) || fresh(t.buckets))
    {
      ghost var before := t.slots[..];
      t.Insert(NameHash(nodes[n].name), n);
      assert forall h: int, c: Id :: t.Holds(h, c) <==> Live(h, c) in t.slots[..];
      ServesAdded(before, t.slots[..], nodes, children, n);
    }

    /** Work on the table of one node leaves those of the others valid. */
    twostate lemma OneTableChanged(p: Id)
      requires old(Valid()) && tables == old(tables) && nodes == old(nodes) && p < |tables|
      requires TreeOk(nodes, kids) && |kids| == |nodes| && forall q :: 0 <= q < |nodes| && q != p ==> kids[q] == old(kids[q])
      requires tables[p].Valid() && Serves(tables[p].slots[..], nodes, kids[p])
      requires (tables[p].slots == old(tables[p].slots) || fresh(tables[p].slots)) && (tables[p].buckets == old(tables[p].buckets) || fresh(tables[p].buckets))
      requires forall q :: 0 <= q < |tables| && q != p ==> unchanged(tables[q]) && unchanged(old(tables[q].slots)) && unchanged(old(tables[q].buckets))
      ensures Valid()
    {
      forall q | 0 <= q < |tables| && q != p ensures tables[q].Valid() && Serves(tables[q].slots[..], nodes, kids[q]) {
        assert old(tables[q].Valid() && Serves(tables[q].slots[..], nodes, kids[q]));
        assert tables[q].slots[..] == old(tables[q].slots[..]) && tables[q].buckets[..] == old(tables[q].buckets[..]);
      }
    }

    /** A node enters the table of its parent. */
    method Adopt(p: Id, n: Id)
      requires Valid() && p < |nodes| && IsChild(nodes, p, n) && n !in kids[p] && Lookup(nodes, kids, p, nodes[n].name).None?
      modifies this, tables[p], tables[p].slots, tables[p].buckets
      ensures Valid() && nodes == old(nodes) && kids == old(kids)[p := old(kids[p]) + {n}]
    {
      AddedKid(nodes, kids, p, n);
      Enroll(tables[p], nodes, kids[p], n);
      kids := kids[p := kids[p] + {n}];
      OneTableChanged(p);
    }

    /**
     lai_create_nsnode(), lai_do_resolve_new_node() and lai_install_nsnode() for a name in a
     parent that is no alias: a duplicate name stays out of the parent's table.
     */
    method Install(name: string, p: Id, target: Option<Id>) returns (r: InstallResult)
      requires Valid() && p < |nodes| && nodes[p].target.None? && |name| == 4
      requires target.Some? ==> target.value < |nodes| && nodes[target.value].target.None?
      modifies this, tables[p], tables[p].slots, tables[p].buckets
      ensures Valid() && nodes == old(nodes) + [Node(name, p, target)]
      ensures r == DuplicateName <==> old(Lookup(nodes, kids, p, name)).Some?
      ensures kids == (if r == DuplicateName then old(kids) else old(kids)[p := old(kids[p]) + {|old(nodes)|}]) + [{}]
    {
      ghost var was, wasKids := nodes, kids;
      var n := |nodes|;
      Append(Node(name, p, target));
      assert tables[p] == old(tables[p]);
      var existing := GetChild(p, name);
      SameLookup(was, wasKids, Node(name, p, target), p, name);
      if existing.Some? {
        return DuplicateName;
      }
      assert (wasKids + [{}])[p := wasKids[p] + {n}] == wasKids[p := wasKids[p] + {n}] + [{}];
      Adopt(p, n);
      r := Done;
    }

    /** A child leaves a table; false if it is not there. */
    static method Withdraw(t: Table<Id>, nodes: seq<Node>, ghost children: set<Id>, n: Id) returns (ok: bool)
      requires t.Valid() && Serves(t.slots[..], nodes, children) && n < |nodes|
      modifies t`numElems, t.slots, t.buckets
      ensures t.Valid() && Serves(t.slots[..], nodes, children - {n})
      ensures ok <==> n in children
    {
      var h := NameHash(nodes[n].name);
      ghost var slots := t.slots[..];
      var i := FindElement(t, h, n);
      if i == t.buckets.Length {
        MissingKid(slots, nodes, children, n);
        return false;
      }
      ghost var k := t.buckets[Bucket(h, i, t.buckets.Length)];
      t.Remove(h, i);
      ServesRemoved(slots, k, nodes, children, n);
      ok := true;
    }

    /**
     lai_uninstall_nsnode(): the node leaves its parent's table; false is the panic over a
     node that is not there, as one whose name was a duplicate never is.
     */
    method Uninstall(n: Id, p: Id) returns (ok: bool)
      requires Valid() && 0 < n < |nodes| && p == nodes[n].parent < |nodes|
      modifies this, tables[p], tables[p].slots, tables[p].buckets
      ensures ok <==> n in old(kids[p])
      ensures Valid() && nodes == old(nodes) && kids == old(kids)[p := old(kids[p]) - {n}]
    {
      RemovedKid(nodes, kids, p, n);
      ok := Withdraw(tables[p], nodes, kids[p], n);
      kids := kids[p := kids[p] - {n}];
      OneTableChanged(p);
    }

    /** The first loop of lai_uninstall_nsnode(): where the chain for h comes to the element, or the end. */
    static method FindElement(t: Table<Id>, h: int, n: Id) returns (i: nat)
      requires t.Valid()
      ensures i <= t.buckets.Length
      ensures i < t.buckets.Length ==>
                HitAt(t.slots[..], t.buckets[..], h, i) && t.slots[t.buckets[Bucket(h, i, t.buckets.Length)]] == Live(h, n)
      ensures i == t.buckets.Length ==> Live(h, n) !in t.slots[..]
    {
      i := t.Advance(h, -1);
      ghost var all := Walk(t.slots[..], t.buckets[..], h, 0);
      while i < t.buckets.Length
        invariant i <= t.buckets.Length && (i < t.buckets.Length ==> HitAt(t.slots[..], t.buckets[..], h, i))
        invariant forall k: nat :: k in all && k < t.slots.Length && t.slots[k] == Live(h, n) ==> k in Walk(t.slots[..], t.buckets[..], h, i)
        decreases t.buckets.Length - i
      {
        var child := t.Get(h, i);
        if child == n {
          return;
        }
        i := t.Advance(h, i);
      }
      forall k: nat | k < t.slots.Length ensures t.slots[k] != Live(h, n) {
        WalkIsExact(t.slots[..], t.buckets[..], h, k);
      }
    }
  }

  lemma MissingKid(slots: seq<Slot<Id>>, nodes: seq<Node>, children: set<Id>, n: Id)
    requires Serves(slots, nodes, children) && n < |nodes| && Live(NameHash(nodes[n].name), n) !in slots
    ensures n !in children && children - {n} == children
  {
  }

  lemma ServesRemoved(slots: seq<Slot<Id>>, k: nat, nodes: seq<Node>, children: set<Id>, n: Id)
    requires Serves(slots, nodes, children) && k < |slots| && slots[k].Live? && slots[k].elem == n
    ensures n in children && Serves(slots[k := Vacant], nodes, children - {n})
  {
    var after := slots[k := Vacant];
    forall c | c in children - {n} ensures c < |nodes| && Live(NameHash(nodes[c].name), c) in after {
      assert Live(NameHash(nodes[c].name), c) in slots;
      var j :| 0 <= j < |slots| && slots[j] == Live(NameHash(nodes[c].name), c);
      assert after[j] == slots[j];
    }
  }

  lemma RemovedKid(nodes: seq<Node>, kids: seq<set<Id>>, p: Id, n: Id)
    requires TreeOk(nodes, kids) && p < |nodes|
    ensures TreeOk(nodes, kids[p := kids[p] - {n}])
  {
    var kids' := kids[p := kids[p] - {n}];
    forall q: Id, c: Id | q < |kids'| && c in kids'[q] ensures IsChild(nodes, q, c) {
      assert c in kids[q];
    }
  }

  /** A node that is added to the table of nodes alone changes nothing for the others. */
  lemma MoreNodes(nodes: seq<Node>, kids: seq<set<Id>>, node: Node)
    requires TreeOk(nodes, kids) && node.parent < |nodes| && nodes[node.parent].target.None? && |node.name| == 4
    requires node.target.Some? ==> node.target.value < |nodes| && nodes[node.target.value].target.None?
    ensures TreeOk(nodes + [node], kids + [{}])
  {
    var nodes', kids' := nodes + [node], kids + [{}];
    forall n: Id | 0 < n < |nodes'| ensures NodeOk(nodes', n) {
      if n < |nodes| {
        assert NodeOk(nodes, n);
      }
    }
    forall p: Id, c: Id | p < |kids'| && c in kids'[p] ensures IsChild(nodes', p, c) {
      assert IsChild(nodes, p, c);
    }
    forall p: Id, c: Id, d: Id | p < |kids'| && c in kids'[p] && d in kids'[p] && SameName(nodes', c, d) ensures c == d {
      assert IsChild(nodes, p, c) && IsChild(nodes, p, d) && SameName(nodes, c, d);
    }
  }

  lemma SameLookup(nodes: seq<Node>, kids: seq<set<Id>>, node: Node, p: Id, name: string)
    requires TreeOk(nodes, kids) && p < |nodes| && TreeOk(nodes + [node], kids + [{}])
    ensures Lookup(nodes, kids, p, name).Some? <==> Lookup(nodes + [node], kids + [{}], p, name).Some?
  {
    var a, b := Lookup(nodes, kids, p, name), Lookup(nodes + [node], kids + [{}], p, name);
    if a.Some? {
      assert Named(nodes + [node], a.value, name);
    }
    if b.Some? {
      assert IsChild(nodes, p, b.value) && Named(nodes, b.value, name);
    }
  }

  lemma ServesMore(slots: seq<Slot<Id>>, nodes: seq<Node>, children: set<Id>, node: Node)
    requires Serves(slots, nodes, children)
    ensures Serves(slots, nodes + [node], children)
  {
  }

  lemma ServesAdded(before: seq<Slot<Id>>, after: seq<Slot<Id>>, nodes: seq<Node>, children: set<Id>, n: Id)
    requires Serves(before, nodes, children) && n < |nodes| && n !in children
    requires forall h, c {:trigger Live(h, c) in after} :: Live(h, c) in after <==> Live(h, c) in before || (h == NameHash(nodes[n].name) && c == n)
    requires (forall h :: Live(h, n) !in before) ==> Once(after)
    ensures Serves(after, nodes, children + {n})
  {
    assert forall k: nat :: k < |before| && before[k].Live? ==> before[k].elem != n;
    forall k: nat | k < |after| && after[k].Live? ensures after[k].elem in children + {n} && Hashed(nodes, after[k].hash, after[k].elem) {
      assert Live(after[k].hash, after[k].elem) in after;
      if Live(after[k].hash, after[k].elem) in before {
        var j :| 0 <= j < |before| && before[j] == after[k];
      }
    }
  }

  lemma AddedKid(nodes: seq<Node>, kids: seq<set<Id>>, p: Id, n: Id)
    requires TreeOk(nodes, kids) && p < |nodes| && IsChild(nodes, p, n) && Lookup(nodes, kids, p, nodes[n].name).None?
    ensures TreeOk(nodes, kids[p := kids[p] + {n}])
  {
    var kids' := kids[p := kids[p] + {n}];
    forall q: Id, c: Id, d: Id | q < |kids'| && c in kids'[q] && d in kids'[q] && SameName(nodes, c, d) ensures c == d {
      assert SameName(nodes, c, n) ==> Named(nodes, c, nodes[n].name);
      assert SameName(nodes, n, d) ==> Named(nodes, d, nodes[n].name);
    }
  }
}
