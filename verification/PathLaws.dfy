/** What the parts of a path mean: names, aliases, carets, the root, and one path put behind another. */
module PathLaws {
  import opened NamespaceTree

  /** A caret or the root, which only the front of a path may hold. */
  predicate IsPrefix(c: char) {
    c == '\\' || c == '^'
  }

  predicate Relative(path: string) {
    path != "" && !IsPrefix(path[0])
  }

  lemma {:induction false} RunShifts(path: string, front: string, whole: string, i: nat, j: nat, k: nat)
    requires i <= |path| && whole == front + path && j == |front| + i
    ensures j <= |whole| && NameRun(whole, j, k) == NameRun(path, i, k)
    decreases k
  {
    if k > 0 && i < |path| && IsName(path[i]) {
      RunShifts(path, front, whole, i + 1, j + 1, k - 1);
    }
  }

  lemma SliceShifts(path: string, front: string, whole: string, i: nat, j: nat, r: nat)
    requires i + r <= |path| && whole == front + path && j == |front| + i
    ensures j + r <= |whole| && whole[j..j + r] == path[i..i + r]
  {
  }

  /** The segment at a place, and what is behind it, stay what they are when something is put in front. */
  lemma SegmentShifts(path: string, front: string, whole: string, i: nat, j: nat, r: nat)
    requires i <= |path| && whole == front + path && r == NameRun(path, i, 4) && j == |front| + i
    ensures j <= |whole| && NameRun(whole, j, 4) == r && Segment(whole, j) == Segment(path, i)
    ensures j + r == |whole| <==> i + r == |path|
    ensures i + r < |path| ==> j + r < |whole| && whole[j + r] == path[i + r]
  {
    RunShifts(path, front, whole, i, j, 4);
    SliceShifts(path, front, whole, i, j, r);
  }

  /** One turn of the loop over segments, and where it goes on. */
  lemma OneSegment(nodes: seq<Node>, kids: seq<set<Id>>, current: Id, path: string, i: nat, name: string, next: nat, step: Option<Id>)
    requires TreeOk(nodes, kids) && current < |nodes| && i <= |path| && name == Segment(path, i) && step == Step(nodes, kids, current, name)
    requires next == i + NameRun(path, i, 4)
    ensures Descend(nodes, kids, current, path, i) ==
            if step.None? then NotFound else if next == |path| then Found(step.value)
            else if path[next] != '.' then Panic else Descend(nodes, kids, step.value, path, next + 1)
  {
  }

  /** From any node two places of two paths lead to the same. */
  ghost predicate SameFrom(nodes: seq<Node>, kids: seq<set<Id>>, path: string, i: nat, whole: string, j: nat)
    requires TreeOk(nodes, kids) && i <= |path| && j <= |whole|
  {
    forall n: Id :: n < |nodes| ==> Descend(nodes, kids, n, whole, j) == Descend(nodes, kids, n, path, i)
  }

  /** Two places with the same segment, and the same behind it, are such. */
  lemma SameTurn(nodes: seq<Node>, kids: seq<set<Id>>, path: string, i: nat, whole: string, j: nat, next: nat, next': nat, m: nat, m': nat)
    requires TreeOk(nodes, kids) && i <= |path| && j <= |whole| && Segment(path, i) == Segment(whole, j)
    requires next == i + NameRun(path, i, 4) && next' == j + NameRun(whole, j, 4) && m == next + 1 && m' == next' + 1
    requires next' == |whole| <==> next == |path|
    requires next < |path| ==> next' < |whole| && whole[next'] == path[next]
    requires m <= |path| && m' <= |whole| ==> SameFrom(nodes, kids, path, m, whole, m')
    ensures SameFrom(nodes, kids, path, i, whole, j)
  {
    var name := Segment(path, i);
    forall n: Id | n < |nodes| ensures Descend(nodes, kids, n, whole, j) == Descend(nodes, kids, n, path, i) {
      var step := Step(nodes, kids, n, name);
      OneSegment(nodes, kids, n, path, i, name, next, step);
      OneSegment(nodes, kids, n, whole, j, name, next', step);
    }
  }

  lemma {:induction false} Shifts(nodes: seq<Node>, kids: seq<set<Id>>, path: string, front: string, whole: string, i: nat, j: nat)
    requires TreeOk(nodes, kids) && i <= |path| && whole == front + path && j == |front| + i
    ensures j <= |whole| && SameFrom(nodes, kids, path, i, whole, j)
    decreases |path| - i
  {
    var next := i + NameRun(path, i, 4);
    if next == |path| {
      LastShifts(nodes, kids, path, front, whole, i, j);
    } else {
      var m, m' := next + 1, j + (next - i) + 1;
      Shifts(nodes, kids, path, front, whole, m, m');
      TurnShifts(nodes, kids, path, front, whole, i, j, m, m');
    }
  }

  lemma LastShifts(nodes: seq<Node>, kids: seq<set<Id>>, path: string, front: string, whole: string, i: nat, j: nat)
    requires TreeOk(nodes, kids) && i <= |path| && whole == front + path && j == |front| + i && i + NameRun(path, i, 4) == |path|
    ensures j <= |whole| && SameFrom(nodes, kids, path, i, whole, j)
  {
    SegmentShifts(path, front, whole, i, j, |path| - i);
    SameTurn(nodes, kids, path, i, whole, j, |path|, |whole|, |path| + 1, |whole| + 1);
  }

  lemma TurnShifts(nodes: seq<Node>, kids: seq<set<Id>>, path: string, front: string, whole: string, i: nat, j: nat, m: nat, m': nat)
    requires TreeOk(nodes, kids) && i <= |path| && whole == front + path && j == |front| + i
    requires m == i + NameRun(path, i, 4) + 1 <= |path| && m' == j + (m - i) <= |whole| && SameFrom(nodes, kids, path, m, whole, m')
    ensures SameFrom(nodes, kids, path, i, whole, j)
  {
    var next, next' := m - 1, m' - 1;
    SegmentShifts(path, front, whole, i, j, next - i);
    SameTurn(nodes, kids, path, i, whole, j, next, next', m, m');
  }

  /** What stands in front of the place that has been reached does not matter. */
  lemma DescendShifts(nodes: seq<Node>, kids: seq<set<Id>>, current: Id, path: string, front: string, whole: string, i: nat, j: nat)
    requires TreeOk(nodes, kids) && current < |nodes| && i <= |path| && whole == front + path && j == |front| + i
    ensures j <= |whole| && Descend(nodes, kids, current, whole, j) == Descend(nodes, kids, current, path, i)
  {
    Shifts(nodes, kids, path, front, whole, i, j);
  }

  lemma RelativeDescends(nodes: seq<Node>, kids: seq<set<Id>>, ctx: Id, path: string)
    requires TreeOk(nodes, kids) && ctx < |nodes| && Relative(path)
    ensures Resolve(nodes, kids, ctx, path) == Descend(nodes, kids, ctx, path, 0)
  {
  }

  /** What a child stands for: an alias for its target, any other node for itself. */
  predicate StandsFor(nodes: seq<Node>, c: Id, to: Id)
    requires c < |nodes|
  {
    match nodes[c].target
    case Some(t) => to == t
    case None => to == c
  }

  /** The name of four characters that a segment of at most four is short for. */
  predicate Abbreviates(s: string, name: string) {
    |s| <= 4 == |name| && forall k :: 0 <= k < 4 ==> name[k] == if k < |s| then s[k] else '_'
  }

  lemma AbbreviatesOne(s: string, name: string)
    requires |s| <= 4
    ensures Abbreviates(s, name) <==> name == Pad(s)
  {
  }

  /** A path of one name leads to the child that has the name, or to what that is an alias of; without such a child it leads nowhere. */
  lemma NameResolves(nodes: seq<Node>, kids: seq<set<Id>>, ctx: Id, s: string)
    requires TreeOk(nodes, kids) && ctx < |nodes| && Relative(s) && |s| <= 4 && Readable(s)
    ensures forall c: Id, to: Id {:trigger StandsFor(nodes, c, to)} :: c in kids[ctx] && c < |nodes| && Abbreviates(s, nodes[c].name) && StandsFor(nodes, c, to) ==>
              Resolve(nodes, kids, ctx, s) == Found(to)
    ensures (forall c: Id :: c in kids[ctx] && c < |nodes| ==> !Abbreviates(s, nodes[c].name)) ==> Resolve(nodes, kids, ctx, s) == NotFound
  {
    RelativeDescends(nodes, kids, ctx, s);
    RunStops(s, 0, 4);
    assert s[0..|s|] == s;
    forall c: Id | c in kids[ctx] && c < |nodes| ensures Abbreviates(s, nodes[c].name) <==> nodes[c].name == Pad(s) {
      AbbreviatesOne(s, nodes[c].name);
    }
    forall c: Id, to: Id | c in kids[ctx] && c < |nodes| && Abbreviates(s, nodes[c].name) && StandsFor(nodes, c, to)
      ensures Resolve(nodes, kids, ctx, s) == Found(to)
    {
      LookupFinds(nodes, kids, ctx, c);
    }
  }

  /** A name with a dot and a path behind it leads where that path leads from what the name stands for: from the target, if the name is an alias. */
  lemma ThroughName(nodes: seq<Node>, kids: seq<set<Id>>, ctx: Id, name: string, rest: string, c: Id, to: Id)
    requires TreeOk(nodes, kids) && ctx < |nodes| && Relative(name) && |name| == 4 && Readable(name) && Relative(rest)
    requires c in kids[ctx] && c < |nodes| && nodes[c].name == name && StandsFor(nodes, c, to)
    ensures to < |nodes| && Resolve(nodes, kids, ctx, name + "." + rest) == Resolve(nodes, kids, to, rest)
  {
    assert IsChild(nodes, ctx, c) && NodeOk(nodes, c);
    var path := name + "." + rest;
    RelativeDescends(nodes, kids, ctx, path);
    RelativeDescends(nodes, kids, to, rest);
    ReadsName(path, 0, name);
    LookupFinds(nodes, kids, ctx, c);
    assert path[4] == '.';
    DescendShifts(nodes, kids, to, rest, name + ".", path, 0, 5);
  }

  /** A backslash starts from the root, whatever the context. */
  lemma FromRoot(nodes: seq<Node>, kids: seq<set<Id>>, ctx: Id, rest: string)
    requires TreeOk(nodes, kids) && ctx < |nodes| && Relative(rest)
    ensures Resolve(nodes, kids, ctx, "\\" + rest) == Resolve(nodes, kids, 0, rest)
    ensures Resolve(nodes, kids, ctx, "\\") == Found(0)
  {
    RelativeDescends(nodes, kids, 0, rest);
    DescendShifts(nodes, kids, 0, rest, "\\", "\\" + rest, 0, 1);
  }

  /** A caret starts from the parent; the root has none and stays. */
  lemma FromParent(nodes: seq<Node>, kids: seq<set<Id>>, ctx: Id, path: string)
    requires TreeOk(nodes, kids) && ctx < |nodes| && (path != "" ==> path[0] != '\\')
    ensures nodes[ctx].parent < |nodes| || ctx == 0
    ensures Resolve(nodes, kids, ctx, "^" + path) == Resolve(nodes, kids, if ctx == 0 then 0 else nodes[ctx].parent, path)
    ensures Resolve(nodes, kids, ctx, "") == Found(ctx)
  {
    assert ctx > 0 ==> NodeOk(nodes, ctx);
    if path != "" {
      assert ("^" + path)[1..] == path;
    }
    var whole, p, n := "^" + path, if ctx == 0 then 0 else nodes[ctx].parent, Carets(path);
    OneCaret(path, whole);
    ClimbOne(nodes, ctx, p, n);
    Starts(nodes, kids, p, path, n);
    Starts(nodes, kids, ctx, whole, n + 1);
    var start := Climb(nodes, p, n);
    DescendShifts(nodes, kids, start, path, "^", whole, n, n + 1);
  }

  lemma OneCaret(path: string, whole: string)
    requires whole == "^" + path
    ensures Carets(whole) == Carets(path) + 1 && |whole| == |path| + 1 && whole[0] == '^'
  {
    assert whole[1..] == path;
  }

  lemma ClimbOne(nodes: seq<Node>, ctx: Id, p: Id, n: nat)
    requires ctx < |nodes| && (forall k: Id :: 0 < k < |nodes| ==> NodeOk(nodes, k)) && p == if ctx == 0 then 0 else nodes[ctx].parent
    ensures p < |nodes| && Climb(nodes, ctx, n + 1) == Climb(nodes, p, n)
  {
    ClimbAdds(nodes, ctx, n);
    ClimbAdds(nodes, 0, n);
    ClimbAdds(nodes, 0, n + 1);
  }

  /** Where a path that does not start from the root starts. */
  lemma Starts(nodes: seq<Node>, kids: seq<set<Id>>, ctx: Id, path: string, n: nat)
    requires TreeOk(nodes, kids) && ctx < |nodes| && (path != "" ==> path[0] != '\\') && n == Carets(path)
    ensures Resolve(nodes, kids, ctx, path) == if n == |path| then Found(Climb(nodes, ctx, n)) else Descend(nodes, kids, Climb(nodes, ctx, n), path, n)
  {
  }

  /** The printed path of an alias leads to its target exactly if its names consist of name characters. */
  lemma PrintedAlias(nodes: seq<Node>, kids: seq<set<Id>>, ctx: Id, n: Id)
    requires TreeOk(nodes, kids) && ctx < |nodes| && Installed(nodes, kids, n) && nodes[n].target.Some?
    ensures Resolve(nodes, kids, ctx, Printed(nodes, n)) == Found(nodes[n].target.value) <==> PathReadable(nodes, n)
  {
    var path, dotted := Printed(nodes, n), Dotted(nodes, n);
    assert dotted == Dotted(nodes, nodes[n].parent) + ("." + nodes[n].name);
    assert dotted + "" == dotted;
    assert Leads(nodes, n, path, "");
    if PathReadable(nodes, n) {
      LastIsAlias(nodes, kids, n, path);
    } else {
      Loses(nodes, kids, n, path, "");
    }
  }

  lemma LastIsAlias(nodes: seq<Node>, kids: seq<set<Id>>, n: Id, path: string)
    requires TreeOk(nodes, kids) && Installed(nodes, kids, n) && nodes[n].target.Some? && PathReadable(nodes, n) && Leads(nodes, n, path, "") && |path| > 0
    ensures Descend(nodes, kids, 0, path, 1) == Found(nodes[n].target.value)
  {
    var p := nodes[n].parent;
    assert NodeOk(nodes, n);
    var more := Ahead(nodes, n, path, "");
    Arrives(nodes, kids, p, path, more);
    EndsInAlias(nodes, kids, n, p, path, |Dotted(nodes, p)| + 1);
  }

  lemma EndsInAlias(nodes: seq<Node>, kids: seq<set<Id>>, n: Id, p: Id, path: string, i: nat)
    requires TreeOk(nodes, kids) && 0 < n < |nodes| && NodeOk(nodes, n) && p == nodes[n].parent && n in kids[p] && nodes[n].target.Some? && Readable(nodes[n].name)
    requires Leads(nodes, n, path, "") && i == |Dotted(nodes, p)| + 1
    ensures i <= |path| && Descend(nodes, kids, p, path, i) == Found(nodes[n].target.value)
  {
    LeadsOn(nodes, n, path, "");
    ReadsName(path, i, nodes[n].name);
    LookupFinds(nodes, kids, p, n);
    OneSegment(nodes, kids, p, path, i, nodes[n].name, i + 4, Some(nodes[n].target.value));
  }
}
