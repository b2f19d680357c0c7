/**
 The ACPI namespace as a tree of named nodes (ACPI specification, section 5.3), the paths
 ns.c prints for its nodes and what parsing a path leads to.
 */
module NamespaceTree {

  type Id = nat

  datatype Option<+T> = None | Some(value: T)

  /** lai_nsnode_t; node 0 is the root, the one without a parent. An alias has a target. */
  datatype Node = Node(name: string, parent: Id, target: Option<Id>)

  datatype Resolution = Found(id: Id) | NotFound | Panic

  predicate NodeOk(nodes: seq<Node>, n: Id)
    requires n < |nodes|
  {
    && nodes[n].parent < n && nodes[nodes[n].parent].target.None? && |nodes[n].name| == 4
    && (nodes[n].target.Some? ==> nodes[n].target.value < |nodes| && nodes[nodes[n].target.value].target.None?)
  }

  predicate IsChild(nodes: seq<Node>, p: Id, c: Id) {
    0 < c < |nodes| && nodes[c].parent == p
  }

  predicate SameName(nodes: seq<Node>, c: Id, d: Id) {
    c < |nodes| && d < |nodes| && nodes[c].name == nodes[d].name
  }

  /** Nodes in order of creation, the root first; kids are the nodes in each node's table of children. */
  ghost predicate TreeOk(nodes: seq<Node>, kids: seq<set<Id>>) {
    && |nodes| == |kids| > 0 && nodes[0].target.None?
    && (forall n: Id :: 0 < n < |nodes| ==> NodeOk(nodes, n))
    && (forall p: Id, c: Id :: p < |kids| && c in kids[p] ==> IsChild(nodes, p, c))
    && (forall p: Id, c: Id, d: Id :: p < |kids| && c in kids[p] && d in kids[p] && SameName(nodes, c, d) ==> c == d)
  }

  /** The node hangs in the tree below the root. */
  ghost predicate Installed(nodes: seq<Node>, kids: seq<set<Id>>, n: Id)
    requires TreeOk(nodes, kids)
    decreases n
  {
    n < |nodes| && (n > 0 ==> NodeOk(nodes, n) && n in kids[nodes[n].parent] && Installed(nodes, kids, nodes[n].parent))
  }

  predicate Named(nodes: seq<Node>, c: Id, name: string) {
    c < |nodes| && nodes[c].name == name
  }

  /** lai_ns_get_child(): the child with the name, if there is one. */
  ghost function Lookup(nodes: seq<Node>, kids: seq<set<Id>>, p: Id, name: string): (r: Option<Id>)
    requires TreeOk(nodes, kids) && p < |nodes|
    ensures r.Some? ==> r.value in kids[p] && Named(nodes, r.value, name)
    ensures r.None? ==> forall c :: c in kids[p] ==> !Named(nodes, c, name)
  {
    if c :| c in kids[p] && Named(nodes, c, name) then Some(c) else None
  }

  lemma LookupFinds(nodes: seq<Node>, kids: seq<set<Id>>, p: Id, c: Id)
    requires TreeOk(nodes, kids) && p < |nodes| && c in kids[p]
    ensures c < |nodes| && Lookup(nodes, kids, p, nodes[c].name) == Some(c)
  {
    assert IsChild(nodes, p, c);
    var r := Lookup(nodes, kids, p, nodes[c].name);
    assert Named(nodes, c, nodes[c].name);
    assert SameName(nodes, r.value, c);
  }

  // -------------------------------------------------------------------------- printing

  /** A dot and the name for every node from below the root to n. */
  function Dotted(nodes: seq<Node>, n: Id): string
    decreases n
  {
    if n >= |nodes| || nodes[n].parent >= n then "" else Dotted(nodes, nodes[n].parent) + ("." + nodes[n].name)
  }

  /** lai_stringify_node_path(): the first dot is overwritten. */
  function Printed(nodes: seq<Node>, n: Id): string {
    var dotted := Dotted(nodes, n);
    if dotted == "" then "\\" else dotted[0 := '\\']
  }

  // --------------------------------------------------------------------------- parsing

  /** lai_is_name() */
  predicate IsName(c: char) {
    '0' <= c <= '9' || 'A' <= c <= 'Z' || c in {'_', '\\', '^', '/', '.'}
  }

  /** How many of up to k characters from i on are name characters. */
  function NameRun(path: string, i: nat, k: nat): (r: nat)
    requires i <= |path|
    ensures r <= k && i + r <= |path|
    ensures forall j :: i <= j < i + r ==> IsName(path[j])
    ensures r < k ==> i + r == |path| || !IsName(path[i + r])
    decreases k
  {
    if k == 0 || i == |path| || !IsName(path[i]) then 0 else 1 + NameRun(path, i + 1, k - 1)
  }

  /** Names are padded with trailing underscores. */
  function Pad(s: string): (r: string)
    requires |s| <= 4
    ensures |r| == 4
  {
    s + seq(4 - |s|, _ => '_')
  }

  function Segment(path: string, i: nat): string
    requires i <= |path|
  {
    Pad(path[i..i + NameRun(path, i, 4)])
  }

  function Dealias(nodes: seq<Node>, n: Id): Id
    requires n < |nodes|
  {
    if nodes[n].target.Some? then nodes[n].target.value else n
  }

  /** What one segment leads to: the child or what it is an alias of. */
  ghost function Step(nodes: seq<Node>, kids: seq<set<Id>>, current: Id, name: string): (r: Option<Id>)
    requires TreeOk(nodes, kids) && current < |nodes|
    ensures r.Some? ==> r.value < |nodes|
  {
    match Lookup(nodes, kids, current, name)
    case None => None
    case Some(c) => assert IsChild(nodes, current, c) && NodeOk(nodes, c); Some(Dealias(nodes, c))
  }

  /** The loop over segments in lai_resolve_path(). */
  ghost function Descend(nodes: seq<Node>, kids: seq<set<Id>>, current: Id, path: string, i: nat): Resolution
    requires TreeOk(nodes, kids) && current < |nodes| && i <= |path|
    decreases |path| - i
  {
    match Step(nodes, kids, current, Segment(path, i))
    case None => NotFound
    case Some(child) =>
      var next := i + NameRun(path, i, 4);
      if next == |path| then Found(child)
      else if path[next] != '.' then Panic
      else Descend(nodes, kids, child, path, next + 1)
  }

  /** Parents of a node, at most `height` of them, stopping at the root. */
  function Climb(nodes: seq<Node>, n: Id, height: nat): (r: Id)
    requires n < |nodes| && forall k: Id :: 0 < k < |nodes| ==> NodeOk(nodes, k)
    ensures r <= n
    decreases height
  {
    if height == 0 || n == 0 then n else assert NodeOk(nodes, n); Climb(nodes, nodes[n].parent, height - 1)
  }

  function Carets(path: string): (n: nat)
    ensures n <= |path|
  {
    if path == "" || path[0] != '^' then 0 else 1 + Carets(path[1..])
  }

  /** lai_resolve_path() */
  ghost function Resolve(nodes: seq<Node>, kids: seq<set<Id>>, ctx: Id, path: string): Resolution
    requires TreeOk(nodes, kids) && ctx < |nodes|
  {
    var absolute := path != "" && path[0] == '\\';
    var start := if absolute then 0 else Climb(nodes, ctx, Carets(path));
    var i := if absolute then 1 else Carets(path);
    if i == |path| then Found(start) else Descend(nodes, kids, start, path, i)
  }

  // -------------------------------------------------------------------- print and parse

  /** All four characters can be read back. */
  predicate Readable(name: string) {
    forall k :: 0 <= k < |name| ==> IsName(name[k])
  }

  /** Every name from below the root to n can be read back. */
  predicate PathReadable(nodes: seq<Node>, n: Id)
    decreases n
  {
    n < |nodes| && (nodes[n].parent < n ==> Readable(nodes[n].name) && PathReadable(nodes, nodes[n].parent))
  }

  lemma {:induction false} FullRun(path: string, i: nat, k: nat)
    requires i + k <= |path| && forall j :: i <= j < i + k ==> IsName(path[j])
    ensures NameRun(path, i, k) == k
    decreases k
  {
    if k > 0 {
      FullRun(path, i + 1, k - 1);
    }
  }

  /** The name stands in the path at position i. */
  predicate StandsAt(path: string, i: nat, name: string) {
    i + |name| <= |path| && forall j {:trigger name[j]} :: 0 <= j < |name| ==> path[i + j] == name[j]
  }

  /** A readable name at position i is the segment that is read there. */
  lemma ReadsName(path: string, i: nat, name: string)
    requires |name| == 4 && Readable(name) && StandsAt(path, i, name)
    ensures NameRun(path, i, 4) == 4 && Segment(path, i) == name
  {
    forall j | i <= j < i + 4 ensures IsName(path[j]) {
      assert path[i + (j - i)] == name[j - i];
    }
    FullRun(path, i, 4);
    assert path[i..i + 4] == name;
  }

  /** The path is the printed form of n with something behind it. */
  predicate Leads(nodes: seq<Node>, n: Id, path: string, suffix: string) {
    var whole := Dotted(nodes, n) + suffix;
    |path| == |whole| && forall j {:trigger path[j]} :: 1 <= j < |path| ==> path[j] == whole[j]
  }

  /** The last name of the path, and the path as one that leads to the parent. */
  lemma LeadsOn(nodes: seq<Node>, n: Id, path: string, suffix: string)
    requires 0 < n < |nodes| && NodeOk(nodes, n) && Leads(nodes, n, path, suffix)
    ensures var p, name := nodes[n].parent, nodes[n].name;
            && Leads(nodes, p, path, ("." + name) + suffix)
            && |Dotted(nodes, n)| == |Dotted(nodes, p)| + 5
            && StandsAt(path, |Dotted(nodes, p)| + 1, name)
            && |path| == |Dotted(nodes, p)| + 5 + |suffix|
            && (suffix != "" ==> path[|Dotted(nodes, p)| + 5] == suffix[0])
  {
    var p, name := nodes[n].parent, nodes[n].name;
    assert Dotted(nodes, n) == Dotted(nodes, p) + ("." + name);
    NameInside(Dotted(nodes, p), name, suffix);
  }

  /** What stands where in a path with a name in front of its suffix. */
  lemma NameInside(front: string, name: string, suffix: string)
    requires |name| == 4
    ensures var whole := front + ("." + name) + suffix;
            && whole == front + (("." + name) + suffix)
            && |whole| == |front| + 5 + |suffix|
            && (forall j {:trigger name[j]} :: 0 <= j < 4 ==> whole[|front| + 1 + j] == name[j])
            && (suffix != "" ==> whole[|front| + 5] == suffix[0])
  {
    var whole := front + ("." + name) + suffix;
    forall j | 0 <= j < 4 ensures whole[|front| + 1 + j] == name[j] {
      assert whole[|front| + 1 + j] == (("." + name) + suffix)[1 + j];
    }
  }

  /** One readable name is descended. */
  lemma StepsDown(nodes: seq<Node>, kids: seq<set<Id>>, n: Id, path: string, suffix: string)
    requires TreeOk(nodes, kids) && 0 < n < |nodes| && NodeOk(nodes, n) && n in kids[nodes[n].parent] && nodes[n].target.None?
    requires Readable(nodes[n].name) && Leads(nodes, n, path, suffix) && (suffix != "" ==> suffix[0] == '.')
    ensures |Dotted(nodes, n)| == |Dotted(nodes, nodes[n].parent)| + 5 && |path| == |Dotted(nodes, n)| + |suffix|
    ensures Descend(nodes, kids, nodes[n].parent, path, |Dotted(nodes, nodes[n].parent)| + 1) ==
            if suffix == "" then Found(n) else Descend(nodes, kids, n, path, |Dotted(nodes, n)| + 1)
  {
    var p := nodes[n].parent;
    LeadsOn(nodes, n, path, suffix);
    ReadsName(path, |Dotted(nodes, p)| + 1, nodes[n].name);
    LookupFinds(nodes, kids, p, n);
  }

  /** Descending along the printed names from the root arrives at the node, with the suffix still to parse. */
  lemma {:induction false} Arrives(nodes: seq<Node>, kids: seq<set<Id>>, n: Id, path: string, suffix: string)
    requires TreeOk(nodes, kids) && Installed(nodes, kids, n) && nodes[n].target.None? && PathReadable(nodes, n)
    requires Leads(nodes, n, path, suffix) && |path| > 0 && (suffix != "" ==> suffix[0] == '.') && (n == 0 ==> suffix != "")
    ensures |Dotted(nodes, n)| + |suffix| == |path|
    ensures Descend(nodes, kids, 0, path, 1) == if suffix == "" then Found(n) else Descend(nodes, kids, n, path, |Dotted(nodes, n)| + 1)
    decreases n
  {
    if n == 0 {
      RootDotted(nodes);
    } else {
      var p := nodes[n].parent;
      var more := Ahead(nodes, n, path, suffix);
      StepsDown(nodes, kids, n, path, suffix);
      Arrives(nodes, kids, p, path, more);
    }
  }

  /** What lies behind the parent of n on a path that leads to n. */
  lemma Ahead(nodes: seq<Node>, n: Id, path: string, suffix: string) returns (more: string)
    requires 0 < n < |nodes| && NodeOk(nodes, n) && Leads(nodes, n, path, suffix)
    ensures Leads(nodes, nodes[n].parent, path, more) && |more| == 5 + |suffix| && more[0] == '.'
  {
    more := ("." + nodes[n].name) + suffix;
    LeadsOn(nodes, n, path, suffix);
  }

  lemma RootDotted(nodes: seq<Node>)
    ensures Dotted(nodes, 0) == ""
  {
  }

  /** A name that cannot be read back stops the parser short of the node. */
  lemma Stumbles(nodes: seq<Node>, kids: seq<set<Id>>, n: Id, path: string, suffix: string)
    requires TreeOk(nodes, kids) && 0 < n < |nodes| && NodeOk(nodes, n) && !Readable(nodes[n].name)
    requires Leads(nodes, n, path, suffix)
    ensures |Dotted(nodes, nodes[n].parent)| + 1 <= |path|
    ensures !Descend(nodes, kids, nodes[n].parent, path, |Dotted(nodes, nodes[n].parent)| + 1).Found?
  {
    var p, name := nodes[n].parent, nodes[n].name;
    var i := |Dotted(nodes, p)| + 1;
    LeadsOn(nodes, n, path, suffix);
    StopsInName(path, i, name);
    DescendStops(nodes, kids, p, path, i);
  }

  /** The run of name characters ends inside a name that cannot be read back. */
  lemma StopsInName(path: string, i: nat, name: string)
    requires |name| == 4 && !Readable(name) && StandsAt(path, i, name)
    ensures i + NameRun(path, i, 4) < |path| && !IsName(path[i + NameRun(path, i, 4)])
  {
    var k :| 0 <= k < 4 && !IsName(name[k]);
    assert path[i + k] == name[k];
    assert NameRun(path, i, 4) <= k;
  }

  /** A segment that is followed by anything but a dot is the end of the search. */
  lemma DescendStops(nodes: seq<Node>, kids: seq<set<Id>>, current: Id, path: string, i: nat)
    requires TreeOk(nodes, kids) && current < |nodes| && i <= |path|
    requires var next := i + NameRun(path, i, 4); next < |path| && path[next] != '.'
    ensures !Descend(nodes, kids, current, path, i).Found?
  {
  }

  /** Where some name up to n cannot be read back, no path through n is found. */
  lemma {:induction false} Loses(nodes: seq<Node>, kids: seq<set<Id>>, n: Id, path: string, suffix: string)
    requires TreeOk(nodes, kids) && Installed(nodes, kids, n) && n > 0 && !PathReadable(nodes, n)
    requires Leads(nodes, n, path, suffix) && |path| > 0 && (suffix != "" ==> suffix[0] == '.')
    ensures !Descend(nodes, kids, 0, path, 1).Found?
    decreases n
  {
    var p := nodes[n].parent;
    var more := Ahead(nodes, n, path, suffix);
    if PathReadable(nodes, p) {
      Arrives(nodes, kids, p, path, more);
      Stumbles(nodes, kids, n, path, suffix);
    } else {
      Loses(nodes, kids, p, path, more);
    }
  }

  /**
   The printed path of an installed node that is no alias leads back to that node, from
   whatever context it is parsed, exactly when every name on the way consists of name characters.
   */
  lemma PrintedPathResolves(nodes: seq<Node>, kids: seq<set<Id>>, ctx: Id, n: Id)
    requires TreeOk(nodes, kids) && ctx < |nodes| && Installed(nodes, kids, n) && nodes[n].target.None?
    ensures Resolve(nodes, kids, ctx, Printed(nodes, n)) == Found(n) <==> PathReadable(nodes, n)
  {
    var path := Printed(nodes, n);
    if n == 0 {
      RootDotted(nodes);
    } else {
      var dotted := Dotted(nodes, n);
      assert |dotted| >= 5 by {
        assert dotted == Dotted(nodes, nodes[n].parent) + ("." + nodes[n].name);
      }
      assert dotted + "" == dotted;
      assert Leads(nodes, n, path, "");
      if PathReadable(nodes, n) {
        Arrives(nodes, kids, n, path, "");
      } else {
        Loses(nodes, kids, n, path, "");
      }
    }
  }

  /**
   The dot between segments counts as a name character, so a segment of fewer than four
   characters is padded with underscores only at the end of the path.
   */
  lemma ShortSegment(s: string, rest: string)
    requires |s| < 4 && Readable(s)
    ensures Segment(s, 0) == Pad(s)
    ensures Segment(s + ("." + rest), 0) != Pad(s)
  {
    FullRun(s, 0, |s|);
    RunStops(s, 0, 4);
    assert s[0..|s|] == s;
    var path := s + ("." + rest);
    forall j | 0 <= j < |s| + 1 ensures IsName(path[j]) {
      assert j < |s| ==> path[j] == s[j];
    }
    RunAtLeast(path, 0, |s| + 1, 4);
    var r := NameRun(path, 0, 4);
    assert Segment(path, 0)[|s|] == path[|s|] == '.';
    assert Pad(s)[|s|] == '_';
  }

  lemma {:induction false} RunAtLeast(path: string, i: nat, n: nat, k: nat)
    requires i + n <= |path| && n <= k && forall j :: i <= j < i + n ==> IsName(path[j])
    ensures NameRun(path, i, k) >= n
    decreases n
  {
    if n > 0 {
      RunAtLeast(path, i + 1, n - 1, k - 1);
    }
  }

  lemma RunStops(path: string, i: nat, k: nat)
    requires i <= |path| && |path| - i <= k && forall j :: i <= j < |path| ==> IsName(path[j])
    ensures NameRun(path, i, k) == |path| - i
  {
    RunAtLeast(path, i, |path| - i, k);
  }

  // ------------------------------------------------------------------------ scope search

  /** The search through enclosing scopes, from n up to the root. */
  ghost function SearchUp(nodes: seq<Node>, kids: seq<set<Id>>, n: Id, name: string): (r: Option<Id>)
    requires TreeOk(nodes, kids) && n < |nodes|
    decreases n
  {
    match Lookup(nodes, kids, n, name)
    case Some(c) => assert IsChild(nodes, n, c); Some(Dealias(nodes, c))
    case None => if n == 0 then None else assert NodeOk(nodes, n); SearchUp(nodes, kids, nodes[n].parent, name)
  }

  lemma {:induction false} ClimbAdds(nodes: seq<Node>, n: Id, k: nat)
    requires n < |nodes| && forall x: Id :: 0 < x < |nodes| ==> NodeOk(nodes, x)
    ensures n > 0 ==> NodeOk(nodes, n) && Climb(nodes, n, k + 1) == Climb(nodes, nodes[n].parent, k)
    ensures n == 0 ==> Climb(nodes, n, k) == 0
  {
    assert n > 0 ==> NodeOk(nodes, n);
  }

  /** The scope `k` levels up has the name, and no nearer one does. */
  ghost predicate Nearest(nodes: seq<Node>, kids: seq<set<Id>>, n: Id, name: string, k: nat)
    requires TreeOk(nodes, kids) && n < |nodes|
  {
    && Lookup(nodes, kids, Climb(nodes, n, k), name).Some?
    && forall j: nat :: j < k ==> Lookup(nodes, kids, Climb(nodes, n, j), name).None?
  }

  /** The search finds the innermost scope with the name; it fails only if no enclosing scope has it. */
  lemma {:induction false} SearchIsInnermost(nodes: seq<Node>, kids: seq<set<Id>>, n: Id, name: string) returns (k: nat)
    requires TreeOk(nodes, kids) && n < |nodes|
    ensures var r := SearchUp(nodes, kids, n, name);
            if r.None? then forall j: nat :: Lookup(nodes, kids, Climb(nodes, n, j), name).None?
            else
              && Nearest(nodes, kids, n, name, k)
              && var c := Lookup(nodes, kids, Climb(nodes, n, k), name).value;
              c < |nodes| && r == if nodes[c].target.Some? then nodes[c].target else Some(c)
    decreases n
  {
    k := 0;
    var here := Lookup(nodes, kids, n, name);
    if here.Some? {
      assert IsChild(nodes, n, here.value);
    } else if n == 0 {
      forall j: nat ensures Lookup(nodes, kids, Climb(nodes, 0, j), name).None? {
        ClimbAdds(nodes, 0, j);
      }
    } else {
      assert NodeOk(nodes, n);
      var p := nodes[n].parent;
      var m := SearchIsInnermost(nodes, kids, p, name);
      k := m + 1;
      forall j: nat ensures j > 0 ==> Climb(nodes, n, j) == Climb(nodes, p, j - 1) {
        if j > 0 {
          ClimbAdds(nodes, n, j - 1);
        }
      }
    }
  }
}
