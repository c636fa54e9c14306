/** Adding and removing nodes where children lists and parents agree. */
module NodeForest {
  import opened NodeModel

  /** The manager's own context, the parent of top-level nodes. */
  const ROOT: Ctx := ""

  ghost predicate NoDuplicates(cs: seq<Ctx>) {
    forall i, j | 0 <= i < j < |cs| :: cs[i] != cs[j]
  }

  /** Every listed child exists and names the lister as its parent. */
  ghost predicate LinkedDown(m: Nodes) {
    forall k, c | k in m && c in m[k].children && c in m :: m[c].parent == k
  }

  ghost predicate ChildrenExist(m: Nodes) {
    forall k | k in m :: NoDuplicates(m[k].children) && forall c | c in m[k].children :: c in m && c != ROOT
  }

  /** Every node but the root is listed by its parent. */
  ghost predicate LinkedUp(m: Nodes) {
    forall c | c in m && c != ROOT ::
      m[c].parent != c && m[c].parent in m && c in m[m[c].parent].children
  }

  ghost predicate WellLinked(m: Nodes) {
    LinkedDown(m) && ChildrenExist(m) && LinkedUp(m)
  }

  /** The parents of `cs` are gone. */
  ghost predicate Orphans(m: Nodes, cs: seq<Ctx>) {
    forall c | c in cs && c in m :: m[c].parent !in m
  }

  /** A part of the map with its nodes unchanged. */
  ghost predicate Untouched(r: Nodes, m: Nodes) {
    r.Keys <= m.Keys && forall k | k in r :: r[k] == m[k]
  }

  lemma {:induction false} RemoveOrphan(m: Nodes, ctx: Ctx)
    requires LinkedDown(m) && Orphans(m, [ctx])
    ensures Untouched(RemoveNode(m, ctx), m)
    decreases |m|, 0
  {
    if ctx in m {
      assert ctx in [ctx];
      assert TakeOut(m, ctx) == m - {ctx};
      RemoveOrphans(TakeOut(m, ctx), m[ctx].children);
    }
  }

  /** Removing subtrees whose parents are gone touches nothing else. */
  lemma {:induction false} RemoveOrphans(m: Nodes, cs: seq<Ctx>)
    requires LinkedDown(m) && Orphans(m, cs)
    ensures Untouched(RemoveAll(m, cs), m)
    decreases |m|, 1 + |cs|
  {
    if cs != [] {
      RemoveOrphan(m, cs[0]);
      RemoveOrphans(RemoveNode(m, cs[0]), cs[1..]);
    }
  }

  lemma {:induction false} WithoutDistinct(cs: seq<Ctx>, c: Ctx)
    requires NoDuplicates(cs)
    ensures NoDuplicates(Without(cs, c)) && c !in Without(cs, c)
  {
    if cs != [] {
      var rest := cs[1..];
      assert forall i | 0 <= i < |rest| :: rest[i] == cs[i + 1];
      assert cs[0] !in rest;
      WithoutMembers(rest, c);
      WithoutDistinct(rest, c);
    }
  }

  lemma TakeOutForest(m: Nodes, ctx: Ctx)
    requires WellLinked(m) && ctx in m
    ensures LinkedDown(TakeOut(m, ctx)) && Orphans(TakeOut(m, ctx), m[ctx].children)
  {
    TakeOutPart(m, ctx);
  }

  lemma DetachedAt(m: Nodes, parent: Ctx, ctx: Ctx, k: Ctx)
    requires k in m
    ensures Detach(m, parent, ctx)[k] ==
            if k == parent then Node(m[k].parent, Without(m[k].children, ctx)) else m[k]
  {
    hide Without;
  }

  lemma TakenOutAt(m: Nodes, ctx: Ctx, k: Ctx)
    requires ctx in m && k in TakeOut(m, ctx)
    ensures TakeOut(m, ctx)[k] ==
            if k == m[ctx].parent then Node(m[k].parent, Without(m[k].children, ctx)) else m[k]
  {
    hide TakeOut, Without, Detach;
    TakeOutIs(m, ctx);
    DetachedAt(m - {ctx}, m[ctx].parent, ctx, k);
  }

  /** What removal leaves: the removed node's parent, if still there, no longer lists it; all
      other nodes are as they were. */
  lemma RemoveTouchesParentOnly(m: Nodes, ctx: Ctx, k: Ctx)
    requires WellLinked(m)
    ensures ctx in m && k in RemoveNode(m, ctx) ==>
              RemoveNode(m, ctx)[k] ==
                if k == m[ctx].parent then Node(m[k].parent, Without(m[k].children, ctx)) else m[k]
  {
    hide LinkedDown, ChildrenExist, LinkedUp, Orphans, RemoveAll, RemoveNode, TakeOut, Without;
    RemoveNodeIs(m, ctx);
    if ctx in m {
      TakeOutForest(m, ctx);
      RemoveOrphans(TakeOut(m, ctx), m[ctx].children);
      if k in RemoveNode(m, ctx) {
        TakenOutAt(m, ctx, k);
      }
    }
  }

  /** A removed node other than the first one has a removed parent. */
  lemma RemovedParent(m: Nodes, ctx: Ctx, x: Ctx)
    requires LinkedDown(m) && x in m && x != ctx && x !in RemoveNode(m, ctx)
    ensures m[x].parent in m && m[x].parent !in RemoveNode(m, ctx)
  {
    RemovesExactlyReachable(m, ctx, x);
    var p :| IsPath(m, p) && p[0] == ctx && p[|p| - 1] == x;
    var q := p[|p| - 2];
    assert p[|p| - 2 + 1] in m[q].children;
    var front := p[..|p| - 1];
    assert IsPath(m, front) && front[0] == ctx && front[|front| - 1] == q;
    RemovesExactlyReachable(m, ctx, q);
  }

  /** Removing a node from a well-linked forest leaves a well-linked forest. */
  lemma RemoveKeepsForest(m: Nodes, ctx: Ctx)
    requires WellLinked(m)
    ensures WellLinked(RemoveNode(m, ctx))
  {
    var r := RemoveNode(m, ctx);
    if ctx in m {
      RemoveNodePart(m, ctx);
      RemoveNodeTakesChildren(m, ctx);
      forall k | k in r
        ensures NoDuplicates(r[k].children) && forall c | c in r[k].children :: c in r && c != ROOT
      {
        RemoveTouchesParentOnly(m, ctx, k);
        WithoutDistinct(m[k].children, ctx);
        forall c | c in r[k].children ensures c in r {
          if c !in r && c != ctx {
            RemovedParent(m, ctx, c);
          }
        }
      }
    }
  }

  /** A tree: every node can be reached from the root. */
  ghost predicate Rooted(m: Nodes) {
    ROOT in m && forall x | x in m :: Reachable(m, ROOT, x)
  }

  lemma ReachedIsListed(m: Nodes, ctx: Ctx, x: Ctx) returns (k: Ctx)
    requires Reachable(m, ctx, x) && x != ctx
    ensures k in m && x in m[k].children
  {
    var p :| IsPath(m, p) && p[0] == ctx && p[|p| - 1] == x;
    k := p[|p| - 2];
    assert p[|p| - 2 + 1] in m[k].children;
  }

  lemma RemoveKeepsRoot(m: Nodes, ctx: Ctx)
    requires ChildrenExist(m) && ctx != ROOT && ROOT in m
    ensures ROOT in RemoveNode(m, ctx)
  {
    RemovesExactlyReachable(m, ctx, ROOT);
    if Reachable(m, ctx, ROOT) {
      var k := ReachedIsListed(m, ctx, ROOT);
    }
  }

  /** Removing a node other than the root from a tree leaves a tree. */
  lemma RemoveKeepsTree(m: Nodes, ctx: Ctx)
    requires WellLinked(m) && Rooted(m) && ctx != ROOT
    ensures WellLinked(RemoveNode(m, ctx)) && Rooted(RemoveNode(m, ctx))
  {
    RemoveKeepsForest(m, ctx);
    RemoveKeepsRoot(m, ctx);
    RemoveNodePart(m, ctx);
    forall x | x in RemoveNode(m, ctx) ensures Reachable(RemoveNode(m, ctx), ROOT, x) {
      RemoveKeepsPaths(m, ctx, ROOT, x);
    }
  }

  lemma FirstStep(m: Nodes, p: seq<Ctx>)
    requires IsPath(m, p)
    ensures |p| == 1 || m[p[0]].children != []
  {
    if |p| > 1 {
      assert p[0 + 1] in m[p[0]].children;
    }
  }

  lemma {:induction false} RemoveListKeepsForest(m: Nodes, cs: seq<Ctx>)
    requires WellLinked(m)
    ensures WellLinked(RemoveAll(m, cs))
  {
    if cs != [] {
      RemoveKeepsForest(m, cs[0]);
      RemoveListKeepsForest(RemoveNode(m, cs[0]), cs[1..]);
    }
  }

  lemma {:induction false} PathIsRemovedBack(m: Nodes, r: Nodes, p: seq<Ctx>, i: nat)
    requires WellLinked(m) && IsPath(m, p) && i < |p| && p[|p| - 1] !in r
    requires forall x | x in m && x !in r :: m[x].parent !in r
    ensures p[i] !in r
    decreases |p| - i
  {
    if i < |p| - 1 {
      PathIsRemovedBack(m, r, p, i + 1);
      assert p[i + 1] in m[p[i]].children;
    }
  }

  lemma InTree(m: Nodes, c: Ctx)
    requires WellLinked(m) && c in m && c != ROOT
    ensures m[c].parent in m && m[c].parent != c
  {
  }

  /** In a tree, no node goes with one of its children. */
  lemma ParentStays(m: Nodes, c: Ctx)
    requires WellLinked(m) && Rooted(m) && c in m && c != ROOT
    ensures m[c].parent in RemoveNode(m, c)
  {
    hide RemoveNode, LinkedDown, LinkedUp, ChildrenExist;
    InTree(m, c);
    var r := RemoveNode(m, c);
    var q := m[c].parent;
    if q !in r {
      forall x | x in m && x !in r ensures m[x].parent !in r {
        if x != c {
          RemovedParent(m, c, x);
        }
      }
      var p :| IsPath(m, p) && p[0] == ROOT && p[|p| - 1] == q;
      PathIsRemovedBack(m, r, p, 0);
      RemoveKeepsRoot(m, c);
    }
  }

  /** In a tree, a node stays when any of its children are removed. */
  lemma {:induction false} ParentStaysAfterAll(m: Nodes, q: Ctx, cs: seq<Ctx>)
    requires WellLinked(m) && Rooted(m) && q in m && ROOT !in cs
    requires forall c | c in cs && c in m :: m[c].parent == q
    ensures q in RemoveAll(m, cs)
  {
    hide RemoveNode, LinkedDown, LinkedUp, ChildrenExist, Rooted;
    if cs != [] {
      var r := RemoveNode(m, cs[0]);
      RemoveNodeIs(m, cs[0]);
      if cs[0] in m {
        ParentStays(m, cs[0]);
      }
      RemoveNodePart(m, cs[0]);
      RemoveKeepsTree(m, cs[0]);
      ParentStaysAfterAll(r, q, cs[1..]);
    }
  }

  // ---------- replacing children

  function Dropped(cs: seq<Ctx>, kept: seq<Ctx>): seq<Ctx> {
    if cs == [] then [] else (if cs[0] in kept then [] else [cs[0]]) + Dropped(cs[1..], kept)
  }

  lemma {:induction false} DroppedMembers(cs: seq<Ctx>, kept: seq<Ctx>, c: Ctx)
    ensures c in Dropped(cs, kept) <==> c in cs && c !in kept
  {
    if cs != [] {
      DroppedMembers(cs[1..], kept, c);
    }
  }

  function Relist(m: Nodes, k: Ctx, cs: seq<Ctx>): (r: Nodes)
    requires k in m
    ensures r.Keys == m.Keys
  {
    m[k := m[k].(children := cs)]
  }

  /** `set_children`: the list is set on the parent even when that went with its children. */
  function SetChildren(m: Nodes, parent: Ctx, cs: seq<Ctx>): Nodes
    requires parent in m
  {
    var r := RemoveAll(m, Dropped(m[parent].children, cs));
    if parent in r then Relist(r, parent, cs) else r
  }

  /** The new list names each child once, and only nodes of that parent. */
  ghost predicate ListsItsOwn(m: Nodes, parent: Ctx, cs: seq<Ctx>) {
    NoDuplicates(cs) && forall c | c in cs :: c in m && c != ROOT && m[c].parent == parent
  }

  /** In a tree, a child outside the list stays when children of the same node are removed. */
  lemma {:induction false} KeptChildStays(m: Nodes, q: Ctx, drop: seq<Ctx>, c: Ctx)
    requires WellLinked(m) && Rooted(m) && c in m && c != ROOT && m[c].parent == q
    requires c !in drop && ROOT !in drop && forall d | d in drop && d in m :: m[d].parent == q
    ensures c in RemoveAll(m, drop)
  {
    hide RemoveNode, LinkedUp, ChildrenExist, Rooted;
    if drop != [] {
      var d := drop[0];
      RemoveNodeIs(m, d);
      if c !in RemoveNode(m, d) {
        RemovedParent(m, d, c);
        ParentStays(m, d);
      }
      RemoveNodePart(m, d);
      RemoveKeepsTree(m, d);
      KeptChildStays(RemoveNode(m, d), q, drop[1..], c);
    }
  }

  lemma OwnSurvive(m: Nodes, parent: Ctx, cs: seq<Ctx>)
    requires WellLinked(m) && Rooted(m) && parent in m
    ensures ListsItsOwn(RemoveAll(m, Dropped(m[parent].children, cs)), parent, cs) <==> ListsItsOwn(m, parent, cs)
  {
    var drop := Dropped(m[parent].children, cs);
    RemoveAllPart(m, drop);
    forall c ensures c in drop <==> c in m[parent].children && c !in cs {
      DroppedMembers(m[parent].children, cs, c);
    }
    if ListsItsOwn(m, parent, cs) {
      forall c | c in cs ensures c in RemoveAll(m, drop) {
        KeptChildStays(m, parent, drop, c);
      }
    }
  }

  /** Replacing children in a tree leaves well-linked nodes exactly when the new list names only
      children that the parent already has, once each. */
  lemma SetChildrenKeepsExactly(m: Nodes, parent: Ctx, cs: seq<Ctx>)
    requires WellLinked(m) && Rooted(m) && parent in m
    ensures WellLinked(SetChildren(m, parent, cs)) <==> ListsItsOwn(m, parent, cs)
  {
    var drop := Dropped(m[parent].children, cs);
    var r := RemoveAll(m, drop);
    forall c ensures c in drop <==> c in m[parent].children && c !in cs {
      DroppedMembers(m[parent].children, cs, c);
    }
    OwnSurvive(m, parent, cs);
    ParentStaysAfterAll(m, parent, drop);
    RemoveListKeepsForest(m, drop);
    RemoveAllPart(m, drop);
    RemoveAllTakesChildren(m, drop);
    assert forall c | c in r[parent].children :: c in r && c in m[parent].children;
    if ListsItsOwn(r, parent, cs) {
      RelistKeepsForest(r, parent, cs);
    } else if WellLinked(SetChildren(m, parent, cs)) {
      RelistedIsItsOwn(r, parent, cs);
    }
  }

  lemma RelistKeepsForest(r: Nodes, parent: Ctx, cs: seq<Ctx>)
    requires WellLinked(r) && parent in r && forall c | c in r[parent].children :: c in cs
    requires ListsItsOwn(r, parent, cs)
    ensures WellLinked(Relist(r, parent, cs))
  {
    var s := Relist(r, parent, cs);
    assert LinkedDown(s);
    assert ChildrenExist(s);
    assert LinkedUp(s);
  }

  lemma RelistedIsItsOwn(r: Nodes, parent: Ctx, cs: seq<Ctx>)
    requires parent in r && WellLinked(Relist(r, parent, cs))
    ensures ListsItsOwn(r, parent, cs)
  {
    assert Relist(r, parent, cs)[parent].children == cs;
  }

  // ---------- adding

  /** `add_node`, with the node at `ctx` replaced when it has another parent. */
  function AddNode(m: Nodes, ctx: Ctx, parent: Ctx): Nodes {
    if ctx in m && m[ctx].parent == parent then m
    else
      var m1 := m[ctx := Node(parent, [])];
      if parent in m1 && ctx !in m1[parent].children
      then m1[parent := m1[parent].(children := m1[parent].children + [ctx])]
      else m1
  }

  /** A node that is added or moved becomes a leaf, the last child of the parent if that is there and
      does not list it yet; all else stays. */
  lemma AddChanges(m: Nodes, ctx: Ctx, parent: Ctx, k: Ctx)
    requires k in AddNode(m, ctx, parent) && (ctx in m ==> m[ctx].parent != parent)
    ensures var r := AddNode(m, ctx, parent);
            && (k != ctx ==> k in m && r[k].parent == m[k].parent)
            && (k != ctx && k != parent ==> r[k] == m[k])
            && (k == ctx ==> r[k].parent == parent && (k != parent ==> r[k].children == []))
            && (k == parent && k != ctx ==>
                  r[k].children == m[k].children + if ctx in m[k].children then [] else [ctx])
  {
  }

  /** What adding a new node under an existing parent changes. */
  ghost predicate Grown(m: Nodes, r: Nodes, ctx: Ctx, parent: Ctx) {
    && ctx !in m && parent in m && parent in r && r.Keys == m.Keys + {ctx}
    && r[ctx] == Node(parent, [])
    && r[parent] == Node(m[parent].parent, m[parent].children + [ctx])
    && forall k | k in m && k != parent :: r[k] == m[k]
  }

  lemma GrownDown(m: Nodes, r: Nodes, ctx: Ctx, parent: Ctx)
    requires LinkedDown(m) && ChildrenExist(m) && Grown(m, r, ctx, parent)
    ensures LinkedDown(r)
  {
    forall k, c | k in r && c in r[k].children && c in r ensures r[c].parent == k {
      if k != ctx {
        assert c in m[k].children || (k == parent && c == ctx);
      }
    }
  }

  lemma GrownChildren(m: Nodes, r: Nodes, ctx: Ctx, parent: Ctx)
    requires ChildrenExist(m) && Grown(m, r, ctx, parent) && ctx != ROOT
    ensures ChildrenExist(r)
  {
    forall k | k in r
      ensures NoDuplicates(r[k].children) && forall c | c in r[k].children :: c in r && c != ROOT
    {
      if k != ctx {
        assert ctx !in m[k].children;
      }
    }
  }

  lemma GrownUp(m: Nodes, r: Nodes, ctx: Ctx, parent: Ctx)
    requires LinkedUp(m) && Grown(m, r, ctx, parent)
    ensures LinkedUp(r)
  {
    forall c | c in r && c != ROOT
      ensures r[c].parent != c && r[c].parent in r && c in r[r[c].parent].children
    {
      if c == ctx {
        assert r[parent].children[|m[parent].children|] == ctx;
      } else {
        assert m[m[c].parent].children <= r[m[c].parent].children;
      }
    }
  }

  lemma AddNewKeepsForest(m: Nodes, ctx: Ctx, parent: Ctx)
    requires WellLinked(m) && ctx != ROOT && ctx !in m && parent in m
    ensures WellLinked(AddNode(m, ctx, parent))
  {
    var r := AddNode(m, ctx, parent);
    assert ctx !in m[parent].children;
    assert Grown(m, r, ctx, parent);
    GrownDown(m, r, ctx, parent);
    GrownChildren(m, r, ctx, parent);
    GrownUp(m, r, ctx, parent);
  }

  lemma MovedIsStale(m: Nodes, ctx: Ctx, parent: Ctx)
    requires WellLinked(m) && ctx != ROOT && ctx in m && m[ctx].parent != parent
    ensures !LinkedDown(AddNode(m, ctx, parent))
  {
    var r := AddNode(m, ctx, parent);
    var q := m[ctx].parent;
    assert ctx in r[q].children && r[ctx].parent == parent;
  }

  lemma NewWithoutParent(m: Nodes, ctx: Ctx, parent: Ctx)
    requires WellLinked(m) && ctx != ROOT && ctx !in m && parent !in m
    ensures !LinkedUp(AddNode(m, ctx, parent))
  {
    var r := AddNode(m, ctx, parent);
    assert ctx in r && r[ctx].parent == parent;
  }

  /** Adding keeps a well-linked forest exactly when the node exists under that parent, or is
      new and the parent exists; a node that moves leaves its old parent's list stale. */
  lemma AddKeepsForestExactly(m: Nodes, ctx: Ctx, parent: Ctx)
    requires WellLinked(m) && ctx != ROOT
    ensures WellLinked(AddNode(m, ctx, parent)) <==>
            if ctx in m then m[ctx].parent == parent else parent in m
  {
    hide LinkedDown, LinkedUp, ChildrenExist;
    if ctx in m && m[ctx].parent != parent {
      MovedIsStale(m, ctx, parent);
    } else if ctx !in m && parent in m {
      AddNewKeepsForest(m, ctx, parent);
    } else if ctx !in m {
      NewWithoutParent(m, ctx, parent);
    }
  }

  lemma {:induction false} WithoutLast(cs: seq<Ctx>, c: Ctx)
    requires c !in cs
    ensures Without(cs + [c], c) == cs
  {
    if cs != [] {
      WithoutLast(cs[1..], c);
      assert (cs + [c])[1..] == cs[1..] + [c];
    }
  }

  /** Removing a node that was just added under an existing parent gives back the graph. */
  lemma RemoveUndoesAdd(m: Nodes, ctx: Ctx, parent: Ctx)
    requires ctx !in m && parent in m && ctx !in m[parent].children
    ensures RemoveNode(AddNode(m, ctx, parent), ctx) == m
  {
    var r := AddNode(m, ctx, parent);
    WithoutLast(m[parent].children, ctx);
    assert TakeOut(r, ctx) == m;
  }

  lemma NoneDistinct()
    ensures NoDuplicates([])
  {
  }
}
