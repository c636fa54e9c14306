/** The manager of nodes: adding, removing, and replacing children, on shared node objects. */
module NodeTree {
  import M = NodeModel
  import F = NodeForest
  import E = NodeEmptying

  type Ctx = M.Ctx

  class Node {
    const ctx: Ctx
    const parentCtx: Ctx
    var children: seq<Ctx>
    var invalid: bool

    constructor (ctx: Ctx, parentCtx: Ctx)
      ensures this.ctx == ctx && this.parentCtx == parentCtx && children == [] && !invalid
    {
      this.ctx, this.parentCtx, children, invalid := ctx, parentCtx, [], false;
    }
  }

  class CsManager {
    /** Whether a listener is registered. */
    const listening: bool
    /** The manager as a node, whose children are its own list. */
    const root: Node
    var nodes: map<Ctx, Node>
    /** Removed nodes that the listeners have not been told of yet. */
    var removedNodes: seq<Node>
    /** The callbacks that are posted to tell them. */
    var posted: nat

    /** Every node is stored under its own context; those reported and no longer stored are marked;
        one callback is posted while there is something to tell. */
    ghost predicate Valid()
      reads this, removedNodes
    {
      && (forall c | c in nodes :: nodes[c].ctx == c)
      && root.ctx == F.ROOT && (F.ROOT in nodes ==> nodes[F.ROOT] == root)
      && posted == (if removedNodes == [] then 0 else 1)
      && forall n | n in removedNodes :: n.invalid || (n.ctx in nodes && nodes[n.ctx] == n)
    }

    /** The nodes that are stored, and the manager's own list. */
    ghost function Whole(): (t: E.Tree)
      reads this`nodes, nodes.Values`children, root`children
    {
      E.Tree(View(), root.children)
    }

    ghost function View(): (v: M.Nodes)
      reads this`nodes, nodes.Values`children
      ensures v.Keys == nodes.Keys
    {
      map c | c in nodes :: M.Node(nodes[c].parentCtx, nodes[c].children)
    }

    ghost function Marks(): (v: map<Ctx, bool>)
      reads this`nodes, nodes.Values`invalid
      ensures v.Keys == nodes.Keys
    {
      map c | c in nodes :: nodes[c].invalid
    }

    constructor (listening: bool)
      ensures Valid() && fresh(root) && this.listening == listening
      ensures Whole() == E.Tree(E.BARE, []) && removedNodes == []
    {
      this.listening := listening;
      var manager := new Node(F.ROOT, F.ROOT);
      root := manager;
      nodes, removedNodes, posted := map[F.ROOT := manager], [], 0;
    }

    /** `notify_node_removed`. */
    method NotifyNodeRemoved(node: Node)
      requires Valid() && node.invalid
      modifies this`removedNodes, this`posted
      ensures Valid() && View() == old(View()) && Marks() == old(Marks())
      ensures removedNodes == Noted(listening, old(removedNodes), node)
      ensures posted == old(posted) + if listening && old(removedNodes) == [] then 1 else 0
    {
      if listening && node !in removedNodes {
        if |removedNodes| == 0 {
          posted := posted + 1;
        }
        removedNodes := removedNodes + [node];
      }
    }

    /** `_node_removed`: a posted callback hands all that was reported to the listeners. */
    method NodeRemoved() returns (report: seq<Node>)
      requires Valid() && posted > 0
      modifies this`removedNodes, this`posted
      ensures Valid() && View() == old(View()) && Marks() == old(Marks())
      ensures report == old(removedNodes) && report != [] && removedNodes == [] && posted == 0
    {
      report, removedNodes, posted := removedNodes, [], posted - 1;
    }

    /** `parent.children.remove(ctx)`, if the parent exists and lists the node. */
    method Detach(parentCtx: Ctx, ctx: Ctx)
      requires Valid()
      modifies nodes.Values`children
      ensures Valid() && View() == M.Detach(old(View()), parentCtx, ctx) && Marks() == old(Marks())
      ensures root.children == if parentCtx == F.ROOT && F.ROOT in nodes
                               then M.Without(old(root.children), ctx) else old(root.children)
    {
      if parentCtx in nodes {
        var parent := nodes[parentCtx];
        parent.children := M.Without(parent.children, ctx);
      }
    }

    /** `_nodes.pop`, and the mark on the node. */
    method Pop(ctx: Ctx) returns (node: Node)
      requires Valid() && ctx in nodes
      modifies this`nodes, nodes.Values`invalid
      ensures Valid() && node == old(nodes[ctx]) && node.ctx == ctx && node.invalid && nodes == old(nodes) - {ctx}
      ensures Marks() == old(Marks()) - {ctx}
      ensures View() == old(View()) - {ctx} && node !in nodes.Values
      ensures old(View())[ctx] == M.Node(node.parentCtx, node.children)
      ensures node.children == old(node.children) && root.children == old(root.children)
    {
      node := nodes[ctx];
      nodes := nodes - {ctx};
      node.invalid := true;
    }

    /** The node out of the map and out of its parent's list. */
    method Unlink(ctx: Ctx) returns (node: Node)
      requires Valid() && ctx in nodes
      modifies this`nodes, nodes.Values
      ensures Valid() && node == old(nodes[ctx]) && node.ctx == ctx && node.invalid && node !in nodes.Values
      ensures nodes == old(nodes) - {ctx} && Marks() == old(Marks()) - {ctx}
      ensures old(View())[ctx] == M.Node(node.parentCtx, node.children)
      ensures View() == M.TakeOut(old(View()), ctx)
      ensures root.children == E.ListWithout(old(View()), old(root.children), ctx)
    {
      hide M.Detach, M.TakeOut, M.Without, E.ListWithout, View, Marks, Valid;
      ghost var before, list := View(), root.children;
      node := Pop(ctx);
      M.TakeOutIs(before, ctx);
      ListWithoutIs(before, list, ctx, nodes.Keys);
      Detach(node.parentCtx, ctx);
    }

    /** The first half of `remove_node`: everything but the recursion. */
    method TakeOut(ctx: Ctx) returns (node: Node)
      requires Valid() && ctx in nodes
      modifies this, nodes.Values
      ensures Valid() && node == old(nodes[ctx]) && node.ctx == ctx && node !in nodes.Values
      ensures nodes == old(nodes) - {ctx} && Marks() == old(Marks()) - {ctx}
      ensures old(Whole()).nodes[ctx] == M.Node(node.parentCtx, node.children)
      ensures Whole() == E.WithoutOne(old(Whole()), ctx)
      ensures removedNodes == Noted(listening, old(removedNodes), node)
    {
      hide M.Detach, M.TakeOut, E.ListWithout, View, Marks, Valid;
      node := Unlink(ctx);
      NotifyNodeRemoved(node);
    }

    method RemoveNode(ctx: Ctx)
      requires Valid()
      modifies this, nodes.Values
      ensures Valid() && nodes.Values <= old(nodes.Values) && |nodes| <= old(|nodes|)
      ensures Whole() == E.RemoveOne(old(Whole()), ctx) && Within(Marks(), old(Marks()))
      ensures Removed(listening, old(nodes), nodes, old(removedNodes), removedNodes)
      decreases |nodes|, 0
    {
      hide E.RemoveOne, E.RemoveList, E.WithoutOne, Whole, View, Marks, Within, Removed, Valid;
      ghost var before, marks, log := nodes, Marks(), removedNodes;
      E.RemoveOneIs(Whole(), ctx);
      StoredIs(ctx);
      if ctx in nodes {
        var node := TakeOut(ctx);
        WithinLess(before, ctx);
        WithinLess(marks, ctx);
        OneRemoved(listening, before, ctx, log);
        ghost var mid, midMarks, midLog := nodes, Marks(), removedNodes;
        RemoveEach(node.children);
        WithinTrans(Marks(), midMarks, marks);
        RemovedTrans(listening, nodes, mid, before, log, midLog, removedNodes);
      } else {
        NothingRemoved(listening, before, log);
        WithinSelf(marks);
      }
    }

    /** The loop over the children of a removed node, whose list no longer changes. */
    method RemoveEach(cs: seq<Ctx>)
      requires Valid()
      modifies this, nodes.Values
      ensures Valid() && nodes.Values <= old(nodes.Values) && |nodes| <= old(|nodes|)
      ensures Whole() == E.RemoveList(old(Whole()), cs) && Within(Marks(), old(Marks()))
      ensures Removed(listening, old(nodes), nodes, old(removedNodes), removedNodes)
      decreases |nodes|, 1
    {
      hide *;
      ghost var before, marks, log, whole := nodes, Marks(), removedNodes, Whole();
      NothingRemoved(listening, before, log);
      WithinSelf(marks);
      var i := 0;
      while i < |cs|
        invariant i <= |cs| && Valid() && nodes.Values <= before.Values && |nodes| <= |before|
        invariant E.RemoveList(Whole(), cs[i..]) == E.RemoveList(whole, cs)
        invariant Within(Marks(), marks)
        invariant Removed(listening, before, nodes, log, removedNodes)
      {
        ghost var mid, midMarks, midLog := nodes, Marks(), removedNodes;
        E.RemoveListIs(Whole(), cs[i..]);
        assert cs[i..][1..] == cs[i + 1..];
        RemoveNode(cs[i]);
        WithinTrans(Marks(), midMarks, marks);
        RemovedTrans(listening, nodes, mid, before, log, midLog, removedNodes);
        i := i + 1;
      }
      assert cs[i..] == [];
      E.RemoveListIs(Whole(), []);
    }

    method SetList(parent: Node, children: seq<Ctx>)
      requires Valid() && forall c | c in nodes && nodes[c] == parent :: c == parent.ctx
      modifies parent`children
      ensures Valid() && parent.children == children && Marks() == old(Marks())
      ensures View() == if parent.ctx in nodes && nodes[parent.ctx] == parent
                        then F.Relist(old(View()), parent.ctx, children) else old(View())
    {
      parent.children := children;
    }

    /** `set_children`: the children that are not kept go; the list is set on the parent object. */
    method SetChildren(parentCtx: Ctx, children: seq<Ctx>)
      requires Valid() && parentCtx in nodes
      modifies this, nodes.Values
      ensures Valid() && View() == F.SetChildren(old(View()), parentCtx, children)
      ensures old(nodes[parentCtx]).children == children && Within(Marks(), old(Marks()))
      ensures Removed(listening, old(nodes), nodes, old(removedNodes), removedNodes)
    {
      hide M.RemoveNode, M.RemoveAll, View, Marks, F.Dropped, F.Relist, Removed, Within;
      ghost var before, log, view := nodes, removedNodes, View();
      var parent := nodes[parentCtx];
      ListOf(parentCtx);
      RemoveEach(F.Dropped(parent.children, children));
      RemovedWithin(listening, nodes, before, log, removedNodes);
      SetList(parent, children);
    }

    lemma StoredIs(ctx: Ctx)
      ensures ctx in Whole().nodes <==> ctx in nodes
    {
    }

    lemma ListOf(ctx: Ctx)
      requires Valid() && ctx in nodes
      ensures View()[ctx].children == nodes[ctx].children
    {
    }

    /** `remove_all`, where it ends. */
    method RemoveAll()
      requires Valid() && E.CanEmpty(Whole())
      modifies this, nodes.Values
      ensures Valid() && E.IsWhole(old(Whole())) && Whole() == E.Emptied(old(Whole()))
      ensures root.children == [] && Within(Marks(), old(Marks()))
      ensures Removed(listening, old(nodes), nodes, old(removedNodes), removedNodes)
    {
      hide E.RemoveOne, E.CanEmpty, E.IsWhole, E.Emptied, View, Within, Removed, Marks, Valid;
      ghost var before, marks, log, whole := nodes, Marks(), removedNodes, Whole();
      NothingRemoved(listening, before, log);
      WithinSelf(marks);
      WholeIs();
      while |root.children| > 0
        invariant Valid() && E.IsWhole(Whole()) && E.CanEmpty(Whole())
        invariant E.Emptied(Whole()) == E.Emptied(whole)
        invariant nodes.Values <= before.Values && Within(Marks(), marks)
        invariant Removed(listening, before, nodes, log, removedNodes)
        decreases |Whole().nodes|
      {
        E.EmptiedIs(Whole());
        ghost var mid, midMarks, midLog := nodes, Marks(), removedNodes;
        RemoveNode(root.children[0]);
        WithinTrans(Marks(), midMarks, marks);
        RemovedTrans(listening, nodes, mid, before, log, midLog, removedNodes);
      }
      E.NothingToEmpty(Whole());
    }

    lemma WholeIs()
      requires Valid()
      ensures E.IsWhole(Whole())
    {
    }
  }

  lemma ListWithoutIs(m: M.Nodes, list: seq<Ctx>, ctx: Ctx, keys: set<Ctx>)
    requires ctx in m && keys == m.Keys - {ctx}
    ensures E.ListWithout(m, list, ctx) == if m[ctx].parent == F.ROOT && F.ROOT in keys then M.Without(list, ctx) else list
  {
  }

  // ---------- what removal does to the objects

  ghost predicate Within<T>(after: map<Ctx, T>, before: map<Ctx, T>) {
    after.Keys <= before.Keys && forall c | c in after :: after[c] == before[c]
  }

  /** The report of one more removed node, if someone listens. */
  function Noted(listening: bool, log: seq<Node>, node: Node): seq<Node> {
    if !listening || node in log then log else log + [node]
  }

  /** With a listener, the nodes that went are reported, once each; nothing else is. */
  ghost predicate Reported(listening: bool, before: map<Ctx, Node>, after: map<Ctx, Node>, log: seq<Node>,
                           newLog: seq<Node>) {
    && log <= newLog
    && (!listening ==> newLog == log)
    && (listening ==> forall c | c in before && c !in after :: before[c] in newLog)
    && (forall n | n in newLog[|log|..] :: n !in log && n.ctx in before && before[n.ctx] == n && n.ctx !in after)
    && forall i, j | |log| <= i < j < |newLog| :: newLog[i] != newLog[j]
  }

  /** The nodes that stay are the same objects; the others are reported. */
  ghost predicate Removed(listening: bool, before: map<Ctx, Node>, after: map<Ctx, Node>, log: seq<Node>,
                          newLog: seq<Node>) {
    Within(after, before) && Reported(listening, before, after, log, newLog)
  }

  lemma WithinLess<T>(m: map<Ctx, T>, ctx: Ctx)
    requires ctx in m
    ensures Within(m - {ctx}, m) && |m - {ctx}| < |m| && (m - {ctx}).Values <= m.Values
  {
    assert |m.Keys - {ctx}| == |m.Keys| - 1;
    assert (m - {ctx}).Keys == m.Keys - {ctx};
  }

  lemma WithinSelf<T>(m: map<Ctx, T>)
    ensures Within(m, m)
  {
  }

  lemma WithinTrans<T>(after: map<Ctx, T>, mid: map<Ctx, T>, before: map<Ctx, T>)
    requires Within(after, mid) && Within(mid, before)
    ensures Within(after, before)
  {
  }

  lemma RemovedWithin(listening: bool, after: map<Ctx, Node>, before: map<Ctx, Node>, log: seq<Node>, newLog: seq<Node>)
    requires Removed(listening, before, after, log, newLog)
    ensures forall c | c in after :: c in before && after[c] == before[c]
  {
  }

  lemma NothingRemoved(listening: bool, nodes: map<Ctx, Node>, log: seq<Node>)
    ensures Removed(listening, nodes, nodes, log, log)
  {
  }

  lemma OneRemoved(listening: bool, before: map<Ctx, Node>, ctx: Ctx, log: seq<Node>)
    requires ctx in before && before[ctx].ctx == ctx
    ensures Removed(listening, before, before - {ctx}, log, Noted(listening, log, before[ctx]))
  {
    assert (log + [before[ctx]])[|log|..] == [before[ctx]];
  }

  lemma RemovedTrans(listening: bool, after: map<Ctx, Node>, mid: map<Ctx, Node>, before: map<Ctx, Node>,
                     log: seq<Node>, midLog: seq<Node>, newLog: seq<Node>)
    requires Removed(listening, before, mid, log, midLog) && Removed(listening, mid, after, midLog, newLog)
    ensures Removed(listening, before, after, log, newLog)
  {
    assert newLog[|log|..] == midLog[|log|..] + newLog[|midLog|..];
    forall i, j | |log| <= i < j < |newLog| ensures newLog[i] != newLog[j] {
      if i < |midLog| <= j {
        assert midLog[i] in midLog[|log|..] && newLog[j] in newLog[|midLog|..];
      }
    }
  }
}
