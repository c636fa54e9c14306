/** Removal from a manager's graph of nodes, whose children lists change while it is walked. */
module NodeModel {

  type Ctx = string

  datatype Node = Node(parent: Ctx, children: seq<Ctx>)

  type Nodes = map<Ctx, Node>

  /** `list.remove`: without the first occurrence, if there is one. */
  function Without(cs: seq<Ctx>, c: Ctx): seq<Ctx> {
    if cs == [] then [] else if cs[0] == c then cs[1..] else [cs[0]] + Without(cs[1..], c)
  }

  function Detach(m: Nodes, parent: Ctx, ctx: Ctx): (r: Nodes)
    ensures r.Keys == m.Keys
  {
    if parent in m then m[parent := m[parent].(children := Without(m[parent].children, ctx))] else m
  }

  /** The graph without `ctx`, before its children are removed. */
  function TakeOut(m: Nodes, ctx: Ctx): (r: Nodes)
    requires ctx in m
    ensures r.Keys == m.Keys - {ctx} && |r| < |m|
  {
    var rest := m - {ctx};
    assert |rest.Keys| == |m.Keys| - 1;
    var r := Detach(rest, m[ctx].parent, ctx);
    assert |r| == |r.Keys|;
    r
  }

  lemma TakeOutIs(m: Nodes, ctx: Ctx)
    requires ctx in m
    ensures TakeOut(m, ctx) == Detach(m - {ctx}, m[ctx].parent, ctx)
  {
  }

  /** Terminates on any graph, even a cyclic one, because the map shrinks. */
  function RemoveNode(m: Nodes, ctx: Ctx): (r: Nodes)
    ensures r.Keys <= m.Keys && |r| <= |m|
    decreases |m|, 0
  {
    if ctx !in m then m else RemoveAll(TakeOut(m, ctx), m[ctx].children)
  }

  function RemoveAll(m: Nodes, cs: seq<Ctx>): (r: Nodes)
    ensures r.Keys <= m.Keys && |r| <= |m|
    decreases |m|, 1 + |cs|
  {
    if cs == [] then m else RemoveAll(RemoveNode(m, cs[0]), cs[1..])
  }

  lemma RemoveNodeIs(m: Nodes, ctx: Ctx)
    ensures RemoveNode(m, ctx) == if ctx !in m then m else RemoveAll(TakeOut(m, ctx), m[ctx].children)
  {
  }

  lemma RemoveAllIs(m: Nodes, cs: seq<Ctx>)
    ensures RemoveAll(m, cs) == if cs == [] then m else RemoveAll(RemoveNode(m, cs[0]), cs[1..])
  {
  }

  // ---------- what is left is a part of what was there

  /** Nodes keep their parents, and the children that are still there; no child is new. */
  ghost predicate PartOf(r: Nodes, m: Nodes) {
    && r.Keys <= m.Keys
    && forall k | k in r ::
         && r[k].parent == m[k].parent
         && (forall c | c in r[k].children :: c in m[k].children)
         && (forall c | c in m[k].children && c in r :: c in r[k].children)
  }

  lemma {:induction false} WithoutMembers(cs: seq<Ctx>, c: Ctx)
    ensures forall x | x in Without(cs, c) :: x in cs
    ensures forall x | x in cs && x != c :: x in Without(cs, c)
  {
    if cs != [] && cs[0] != c {
      WithoutMembers(cs[1..], c);
    }
  }

  /** Only the first occurrence goes. */
  lemma {:induction false} WithoutFirst(before: seq<Ctx>, c: Ctx, after: seq<Ctx>)
    requires c !in before
    ensures Without(before + [c] + after, c) == before + after
    ensures Without(before, c) == before
  {
    if before == [] {
      assert (before + [c] + after)[1..] == after;
    } else {
      WithoutFirst(before[1..], c, after);
      assert (before + [c] + after)[1..] == before[1..] + [c] + after;
    }
  }

  lemma TakeOutPart(m: Nodes, ctx: Ctx)
    requires ctx in m
    ensures PartOf(TakeOut(m, ctx), m)
  {
    var p := m[ctx].parent;
    if p in m {
      WithoutMembers(m[p].children, ctx);
    }
  }

  lemma {:induction false} RemoveNodePart(m: Nodes, ctx: Ctx)
    ensures PartOf(RemoveNode(m, ctx), m)
    decreases |m|, 0
  {
    if ctx in m {
      TakeOutPart(m, ctx);
      RemoveAllPart(TakeOut(m, ctx), m[ctx].children);
    }
  }

  lemma {:induction false} RemoveAllPart(m: Nodes, cs: seq<Ctx>)
    ensures PartOf(RemoveAll(m, cs), m)
    decreases |m|, 1 + |cs|
  {
    if cs != [] {
      RemoveNodePart(m, cs[0]);
      RemoveAllPart(RemoveNode(m, cs[0]), cs[1..]);
    }
  }

  // ---------- exactly the reachable nodes go

  ghost predicate IsPath(m: Nodes, p: seq<Ctx>) {
    && p != [] && (forall i | 0 <= i < |p| :: p[i] in m)
    && forall i | 0 <= i < |p| - 1 :: p[i + 1] in m[p[i]].children
  }

  /** `x` can be reached from `ctx` through children lists. */
  ghost predicate Reachable(m: Nodes, ctx: Ctx, x: Ctx) {
    exists p :: IsPath(m, p) && p[0] == ctx && p[|p| - 1] == x
  }

  lemma PathInPart(r: Nodes, m: Nodes, p: seq<Ctx>)
    requires PartOf(r, m) && IsPath(r, p)
    ensures IsPath(m, p)
  {
  }

  lemma ReachableViaChild(m: Nodes, r: Nodes, ctx: Ctx, c: Ctx, x: Ctx)
    requires ctx in m && c in m[ctx].children && PartOf(r, m) && Reachable(r, c, x)
    ensures Reachable(m, ctx, x)
  {
    var p :| IsPath(r, p) && p[0] == c && p[|p| - 1] == x;
    PathInPart(r, m, p);
    assert IsPath(m, [ctx] + p);
    assert ([ctx] + p)[0] == ctx && ([ctx] + p)[|p|] == x;
  }

  lemma ReachableInPart(r: Nodes, m: Nodes, c: Ctx, x: Ctx)
    requires PartOf(r, m) && Reachable(r, c, x)
    ensures Reachable(m, c, x)
  {
    var p :| IsPath(r, p) && p[0] == c && p[|p| - 1] == x;
    PathInPart(r, m, p);
  }

  /** Only reachable nodes are removed. */
  lemma {:induction false} RemovedIsReachable(m: Nodes, ctx: Ctx, x: Ctx)
    requires x in m && x !in RemoveNode(m, ctx)
    ensures Reachable(m, ctx, x)
    decreases |m|, 0
  {
    if x == ctx {
      assert IsPath(m, [ctx]) && [ctx][0] == ctx;
    } else {
      TakeOutPart(m, ctx);
      var c := RemovedByAll(TakeOut(m, ctx), m[ctx].children, x);
      ReachableViaChild(m, TakeOut(m, ctx), ctx, c, x);
    }
  }

  lemma {:induction false} RemovedByAll(m: Nodes, cs: seq<Ctx>, x: Ctx) returns (c: Ctx)
    requires x in m && x !in RemoveAll(m, cs)
    ensures c in cs && Reachable(m, c, x)
    decreases |m|, 1 + |cs|
  {
    if x !in RemoveNode(m, cs[0]) {
      c := cs[0];
      RemovedIsReachable(m, c, x);
    } else {
      c := RemovedByAll(RemoveNode(m, cs[0]), cs[1..], x);
      RemoveNodePart(m, cs[0]);
      ReachableInPart(RemoveNode(m, cs[0]), m, c, x);
    }
  }

  /** The children of a removed node are removed, too. */
  ghost predicate ChildrenGone(m: Nodes, r: Nodes) {
    forall k, c | k in m && k !in r && c in m[k].children :: c !in r
  }

  lemma {:induction false} RemoveNodeTakesChildren(m: Nodes, ctx: Ctx)
    ensures ctx !in RemoveNode(m, ctx) && ChildrenGone(m, RemoveNode(m, ctx))
    decreases |m|, 0
  {
    if ctx in m {
      var m1 := TakeOut(m, ctx);
      TakeOutPart(m, ctx);
      RemoveAllTakesChildren(m1, m[ctx].children);
    }
  }

  lemma {:induction false} RemoveAllTakesChildren(m: Nodes, cs: seq<Ctx>)
    ensures (forall c | c in cs :: c !in RemoveAll(m, cs)) && ChildrenGone(m, RemoveAll(m, cs))
    decreases |m|, 1 + |cs|
  {
    if cs != [] {
      var m1 := RemoveNode(m, cs[0]);
      RemoveNodePart(m, cs[0]);
      RemoveNodeTakesChildren(m, cs[0]);
      RemoveAllTakesChildren(m1, cs[1..]);
    }
  }

  lemma {:induction false} PathIsRemoved(m: Nodes, r: Nodes, p: seq<Ctx>, i: nat)
    requires IsPath(m, p) && i < |p| && ChildrenGone(m, r) && p[0] !in r
    ensures p[i] !in r
  {
    if i > 0 {
      PathIsRemoved(m, r, p, i - 1);
      assert p[i - 1 + 1] in m[p[i - 1]].children;
    }
  }

  /** Removal removes exactly the nodes that can be reached, on any graph. */
  lemma RemovesExactlyReachable(m: Nodes, ctx: Ctx, x: Ctx)
    requires x in m
    ensures x !in RemoveNode(m, ctx) <==> Reachable(m, ctx, x)
  {
    if Reachable(m, ctx, x) {
      var p :| IsPath(m, p) && p[0] == ctx && p[|p| - 1] == x;
      RemoveNodeTakesChildren(m, ctx);
      PathIsRemoved(m, RemoveNode(m, ctx), p, |p| - 1);
    } else if x !in RemoveNode(m, ctx) {
      RemovedIsReachable(m, ctx, x);
    }
  }

  lemma {:induction false} PathSurvives(m: Nodes, r: Nodes, p: seq<Ctx>, i: nat)
    requires IsPath(m, p) && i < |p| && ChildrenGone(m, r) && p[|p| - 1] in r
    ensures p[i] in r
    decreases |p| - i
  {
    if i < |p| - 1 {
      PathSurvives(m, r, p, i + 1);
      assert p[i + 1] in m[p[i]].children;
    }
  }

  /** A surviving node can be reached from wherever it could be reached. */
  lemma RemoveKeepsPaths(m: Nodes, ctx: Ctx, a: Ctx, x: Ctx)
    requires x in RemoveNode(m, ctx) && Reachable(m, a, x)
    ensures Reachable(RemoveNode(m, ctx), a, x)
  {
    var r := RemoveNode(m, ctx);
    var p :| IsPath(m, p) && p[0] == a && p[|p| - 1] == x;
    RemoveNodePart(m, ctx);
    RemoveNodeTakesChildren(m, ctx);
    forall i | 0 <= i < |p| ensures p[i] in r {
      PathSurvives(m, r, p, i);
    }
    assert IsPath(r, p);
  }
}
