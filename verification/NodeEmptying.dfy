/** Removing all nodes: the first child that the manager lists goes, again and again. */
module NodeEmptying {
  import opened NodeModel
  import opened NodeForest

  // ---------- the manager's own list

  /** The manager's own list after `remove_node`.  The list outlives the manager's place in the
      map: once that is gone, no removed node finds it. */
  function ListAfter(m: Nodes, list: seq<Ctx>, ctx: Ctx): seq<Ctx>
    decreases |m|, 0
  {
    if ctx !in m then list
    else ListAfterAll(TakeOut(m, ctx), ListWithout(m, list, ctx), m[ctx].children)
  }

  function ListAfterAll(m: Nodes, list: seq<Ctx>, cs: seq<Ctx>): seq<Ctx>
    decreases |m|, 1 + |cs|
  {
    if cs == [] then list
    else ListAfterAll(RemoveNode(m, cs[0]), ListAfter(m, list, cs[0]), cs[1..])
  }

  /** The manager's own list once the node is out of the map. */
  function ListWithout(m: Nodes, list: seq<Ctx>, ctx: Ctx): seq<Ctx>
    requires ctx in m
  {
    if ctx != ROOT && ROOT in m && m[ctx].parent == ROOT then Without(list, ctx) else list
  }

  /** The nodes that go before the root does when `ctx` is removed. */
  function Before(m: Nodes, ctx: Ctx): (r: set<Ctx>)
    decreases |m|, 0
  {
    if ctx !in m || ctx == ROOT || ROOT !in m then {}
    else {ctx} + BeforeAll(TakeOut(m, ctx), m[ctx].children)
  }

  function BeforeAll(m: Nodes, cs: seq<Ctx>): (r: set<Ctx>)
    decreases |m|, 1 + |cs|
  {
    if cs == [] then {} else Before(m, cs[0]) + BeforeAll(RemoveNode(m, cs[0]), cs[1..])
  }

  lemma ListAfterIs(m: Nodes, list: seq<Ctx>, ctx: Ctx)
    ensures ListAfter(m, list, ctx) ==
            if ctx !in m then list
            else ListAfterAll(TakeOut(m, ctx), ListWithout(m, list, ctx), m[ctx].children)
  {
  }

  lemma ListAfterAllIs(m: Nodes, list: seq<Ctx>, cs: seq<Ctx>)
    ensures ListAfterAll(m, list, cs) ==
            if cs == [] then list else ListAfterAll(RemoveNode(m, cs[0]), ListAfter(m, list, cs[0]), cs[1..])
  {
  }

  lemma BeforeIs(m: Nodes, ctx: Ctx)
    ensures Before(m, ctx) ==
            if ctx !in m || ctx == ROOT || ROOT !in m then {}
            else {ctx} + BeforeAll(TakeOut(m, ctx), m[ctx].children)
  {
  }

  lemma BeforeAllIs(m: Nodes, cs: seq<Ctx>)
    ensures BeforeAll(m, cs) ==
            if cs == [] then {} else Before(m, cs[0]) + BeforeAll(RemoveNode(m, cs[0]), cs[1..])
  {
  }

  /** Once the root is gone, its list stays, and nothing goes before it any more. */
  lemma {:induction false} RootGone(m: Nodes, list: seq<Ctx>, ctx: Ctx)
    requires ROOT !in m
    ensures ListAfter(m, list, ctx) == list && Before(m, ctx) == {}
    decreases |m|, 0
  {
    if ctx in m {
      RootGoneAll(TakeOut(m, ctx), list, m[ctx].children);
    }
  }

  lemma {:induction false} RootGoneAll(m: Nodes, list: seq<Ctx>, cs: seq<Ctx>)
    requires ROOT !in m
    ensures ListAfterAll(m, list, cs) == list && BeforeAll(m, cs) == {}
    decreases |m|, 1 + |cs|
  {
    if cs != [] {
      RootGone(m, list, cs[0]);
      RootGoneAll(RemoveNode(m, cs[0]), list, cs[1..]);
    }
  }

  /** As long as the root is in the map, `list` is what it lists there. */
  ghost predicate Whole(m: Nodes, list: seq<Ctx>) {
    ROOT in m ==> m[ROOT].children == list
  }

  lemma TakeOutKeepsWhole(m: Nodes, list: seq<Ctx>, ctx: Ctx)
    requires Whole(m, list) && ctx in m
    ensures Whole(TakeOut(m, ctx), ListWithout(m, list, ctx))
  {
    hide TakeOut, Without;
    if ROOT in TakeOut(m, ctx) {
      TakenOutAt(m, ctx, ROOT);
    }
  }

  lemma {:induction false} RemoveKeepsWhole(m: Nodes, list: seq<Ctx>, ctx: Ctx)
    requires Whole(m, list)
    ensures Whole(RemoveNode(m, ctx), ListAfter(m, list, ctx))
    decreases |m|, 0
  {
    hide Whole;
    if ctx in m {
      TakeOutKeepsWhole(m, list, ctx);
      RemoveAllKeepsWhole(TakeOut(m, ctx), ListWithout(m, list, ctx), m[ctx].children);
    }
  }

  lemma {:induction false} RemoveAllKeepsWhole(m: Nodes, list: seq<Ctx>, cs: seq<Ctx>)
    requires Whole(m, list)
    ensures Whole(RemoveAll(m, cs), ListAfterAll(m, list, cs))
    decreases |m|, 1 + |cs|
  {
    hide Whole;
    if cs != [] {
      RemoveKeepsWhole(m, list, cs[0]);
      RemoveAllKeepsWhole(RemoveNode(m, cs[0]), ListAfter(m, list, cs[0]), cs[1..]);
    }
  }

  /** The root lists each of its children once, and only nodes that name it as their parent. */
  ghost predicate RootListsItsOwn(m: Nodes) {
    ROOT in m && ListsItsOwn(m, ROOT, m[ROOT].children)
  }

  lemma TakeOutKeepsOwn(m: Nodes, x: Ctx)
    requires ROOT in m && x in m && x != ROOT
    ensures RootListsItsOwn(TakeOut(m, x)) <==> RootListsItsOwn(m)
  {
    hide TakeOut, Detach, Without;
    var r, cs := TakeOut(m, x), m[ROOT].children;
    TakeOutPart(m, x);
    TakenOutAt(m, x, ROOT);
    if m[x].parent == ROOT {
      if RootListsItsOwn(m) {
        WithoutDistinct(cs, x);
      } else if RootListsItsOwn(r) {
        WithoutDistinctBack(cs, x);
        WithoutMembers(cs, x);
      }
    }
  }

  lemma DistinctCons(c: Ctx, rest: seq<Ctx>)
    ensures NoDuplicates([c] + rest) <==> c !in rest && NoDuplicates(rest)
  {
    var cs := [c] + rest;
    assert forall i | 0 <= i < |rest| :: rest[i] == cs[i + 1];
    if c in rest {
      var i :| 0 <= i < |rest| && rest[i] == c;
      assert cs[0] == cs[i + 1];
    }
  }

  lemma {:induction false} WithoutDistinctBack(cs: seq<Ctx>, c: Ctx)
    requires NoDuplicates(Without(cs, c)) && c !in Without(cs, c)
    ensures NoDuplicates(cs)
  {
    hide NoDuplicates;
    if cs == [] {
      NoneDistinct();
    } else {
      assert cs == [cs[0]] + cs[1..];
      DistinctCons(cs[0], cs[1..]);
      if cs[0] != c {
        DistinctCons(cs[0], Without(cs[1..], c));
        WithoutMembers(cs[1..], c);
        WithoutDistinctBack(cs[1..], c);
      }
    }
  }

  /** As long as the root stays, removal neither mends nor breaks its list. */
  lemma {:induction false} RemoveKeepsOwn(m: Nodes, x: Ctx)
    requires ROOT in RemoveNode(m, x)
    ensures RootListsItsOwn(RemoveNode(m, x)) <==> RootListsItsOwn(m)
    decreases |m|, 0
  {
    hide RootListsItsOwn;
    if x in m {
      RemoveNodeTakesChildren(m, x);
      RemoveNodePart(m, x);
      TakeOutKeepsOwn(m, x);
      RemoveAllKeepsOwn(TakeOut(m, x), m[x].children);
    }
  }

  lemma {:induction false} RemoveAllKeepsOwn(m: Nodes, cs: seq<Ctx>)
    requires ROOT in RemoveAll(m, cs)
    ensures RootListsItsOwn(RemoveAll(m, cs)) <==> RootListsItsOwn(m)
    decreases |m|, 1 + |cs|
  {
    hide RootListsItsOwn;
    if cs != [] {
      RemoveKeepsOwn(m, cs[0]);
      RemoveAllKeepsOwn(RemoveNode(m, cs[0]), cs[1..]);
    }
  }

  lemma EmptyListIsOwn(m: Nodes)
    requires ROOT in m && m[ROOT].children == []
    ensures RootListsItsOwn(m)
  {
  }

  /** A list that names other nodes than the root's own is never emptied. */
  lemma {:induction false} OtherListStays(m: Nodes, ctx: Ctx)
    requires ROOT in m && !RootListsItsOwn(m)
    ensures ListAfter(m, m[ROOT].children, ctx) != []
    decreases |m|, 0
  {
    hide RootListsItsOwn, TakeOut, Without, ListAfterAll;
    var list := m[ROOT].children;
    if list == [] {
      EmptyListIsOwn(m);
    }
    if ctx == ROOT {
      RootGoneAll(TakeOut(m, ctx), list, list);
    } else if ctx in m {
      TakenOutAt(m, ctx, ROOT);
      TakeOutKeepsOwn(m, ctx);
      OtherListStaysAll(TakeOut(m, ctx), m[ctx].children);
    }
  }

  lemma {:induction false} OtherListStaysAll(m: Nodes, cs: seq<Ctx>)
    requires ROOT in m && !RootListsItsOwn(m)
    ensures ListAfterAll(m, m[ROOT].children, cs) != []
    decreases |m|, 1 + |cs|
  {
    hide RootListsItsOwn, RemoveNode, ListAfter;
    if cs == [] {
      if m[ROOT].children == [] {
        EmptyListIsOwn(m);
      }
    } else {
      var r, list := RemoveNode(m, cs[0]), ListAfter(m, m[ROOT].children, cs[0]);
      OtherListStays(m, cs[0]);
      RemoveKeepsWhole(m, m[ROOT].children, cs[0]);
      if ROOT in r {
        RemoveKeepsOwn(m, cs[0]);
        OtherListStaysAll(r, cs[1..]);
      } else {
        RootGoneAll(r, list, cs[1..]);
      }
    }
  }

  /** The listed nodes name the root as their parent, as far as they exist, and are listed once. */
  ghost predicate OwnList(m: Nodes, list: seq<Ctx>) {
    NoDuplicates(list) && forall c | c in list :: c != ROOT && (c in m ==> m[c].parent == ROOT)
  }

  lemma OwnListAfterOne(m: Nodes, list: seq<Ctx>, ctx: Ctx)
    requires OwnList(m, list) && ctx in m
    ensures var list1 := ListWithout(m, list, ctx);
            && OwnList(TakeOut(m, ctx), list1)
            && (if ROOT in m && ctx != ROOT then forall c :: c in list1 <==> c in list && c != ctx else list1 == list)
  {
    hide TakeOut, Without, NoDuplicates;
    TakeOutPart(m, ctx);
    WithoutDistinct(list, ctx);
    WithoutMembers(list, ctx);
  }

  /** Exactly the nodes that go before the root leave its own list. */
  lemma {:induction false} LeavesList(m: Nodes, list: seq<Ctx>, ctx: Ctx)
    requires OwnList(m, list)
    ensures OwnList(RemoveNode(m, ctx), ListAfter(m, list, ctx))
    ensures forall c :: c in ListAfter(m, list, ctx) <==> c in list && c !in Before(m, ctx)
    decreases |m|, 0
  {
    hide OwnList, TakeOut, ListWithout, ListAfter, ListAfterAll, Before, BeforeAll, RemoveNode;
    RemoveNodeIs(m, ctx);
    ListAfterIs(m, list, ctx);
    BeforeIs(m, ctx);
    if ctx in m {
      var list1 := ListWithout(m, list, ctx);
      OwnListAfterOne(m, list, ctx);
      LeavesListAll(TakeOut(m, ctx), list1, m[ctx].children);
      if ctx == ROOT || ROOT !in m {
        RootGoneAll(TakeOut(m, ctx), list1, m[ctx].children);
      }
    }
  }

  lemma {:induction false} LeavesListAll(m: Nodes, list: seq<Ctx>, cs: seq<Ctx>)
    requires OwnList(m, list)
    ensures OwnList(RemoveAll(m, cs), ListAfterAll(m, list, cs))
    ensures forall c :: c in ListAfterAll(m, list, cs) <==> c in list && c !in BeforeAll(m, cs)
    decreases |m|, 1 + |cs|
  {
    hide OwnList, ListAfter, ListAfterAll, Before, BeforeAll, RemoveNode;
    ListAfterAllIs(m, list, cs);
    BeforeAllIs(m, cs);
    if cs != [] {
      LeavesList(m, list, cs[0]);
      LeavesListAll(RemoveNode(m, cs[0]), ListAfter(m, list, cs[0]), cs[1..]);
    }
  }

  /** What goes before the root is removed; when the root stays, that is all that is removed. */
  lemma {:induction false} BeforeIsRemoved(m: Nodes, ctx: Ctx)
    ensures Before(m, ctx) <= m.Keys - RemoveNode(m, ctx).Keys
    ensures ROOT in RemoveNode(m, ctx) ==> Before(m, ctx) == m.Keys - RemoveNode(m, ctx).Keys
    decreases |m|, 0
  {
    hide TakeOut, BeforeAll, RemoveAll;
    if ctx in m {
      BeforeAllIsRemoved(TakeOut(m, ctx), m[ctx].children);
    }
  }

  lemma {:induction false} BeforeAllIsRemoved(m: Nodes, cs: seq<Ctx>)
    ensures BeforeAll(m, cs) <= m.Keys - RemoveAll(m, cs).Keys
    ensures ROOT in RemoveAll(m, cs) ==> BeforeAll(m, cs) == m.Keys - RemoveAll(m, cs).Keys
    decreases |m|, 1 + |cs|
  {
    hide RemoveNode, Before;
    if cs != [] {
      BeforeIsRemoved(m, cs[0]);
      BeforeAllIsRemoved(RemoveNode(m, cs[0]), cs[1..]);
    }
  }

  // ---------- the list as the nodes that are left

  /** The listed nodes that are among `keys`. */
  function Kept(list: seq<Ctx>, keys: set<Ctx>): (r: seq<Ctx>)
    ensures |r| <= |list|
    ensures forall c :: c in r <==> c in list && c in keys
  {
    if list == [] then []
    else if list[0] in keys then [list[0]] + Kept(list[1..], keys)
    else Kept(list[1..], keys)
  }

  lemma {:induction false} KeptAll(list: seq<Ctx>, keys: set<Ctx>)
    requires forall c | c in list :: c in keys
    ensures Kept(list, keys) == list
  {
    if list != [] {
      KeptAll(list[1..], keys);
    }
  }

  lemma {:induction false} KeptTwice(list: seq<Ctx>, keys: set<Ctx>, fewer: set<Ctx>)
    requires fewer <= keys
    ensures Kept(Kept(list, keys), fewer) == Kept(list, fewer)
  {
    if list != [] {
      KeptTwice(list[1..], keys, fewer);
      var rest := Kept(list[1..], keys);
      assert ([list[0]] + rest)[1..] == rest;
    }
  }

  lemma {:induction false} WithoutIsKept(list: seq<Ctx>, c: Ctx, keys: set<Ctx>)
    requires NoDuplicates(list) && forall x | x in list :: x in keys
    ensures Without(list, c) == Kept(list, keys - {c})
  {
    hide NoDuplicates;
    if list != [] {
      assert list == [list[0]] + list[1..];
      DistinctCons(list[0], list[1..]);
      if list[0] == c {
        KeptAll(list[1..], keys - {c});
      } else {
        WithoutIsKept(list[1..], c, keys);
      }
    }
  }

  lemma TakenOutIsKept(m: Nodes, list: seq<Ctx>, ctx: Ctx)
    requires OwnList(m, list) && (forall c | c in list :: c in m) && ctx in m && ctx != ROOT && ROOT in m
    ensures ListWithout(m, list, ctx) == Kept(list, TakeOut(m, ctx).Keys)
  {
    if m[ctx].parent == ROOT {
      WithoutIsKept(list, ctx, m.Keys);
    } else {
      KeptAll(list, m.Keys - {ctx});
    }
  }

  /** When the root stays, its own list becomes the list of those that stay. */
  lemma {:induction false} ListIsKept(m: Nodes, list: seq<Ctx>, ctx: Ctx)
    requires OwnList(m, list) && (forall c | c in list :: c in m) && ROOT in RemoveNode(m, ctx)
    ensures ListAfter(m, list, ctx) == Kept(list, RemoveNode(m, ctx).Keys)
    decreases |m|, 0
  {
    hide OwnList, TakeOut, ListWithout, ListAfter, ListAfterAll, RemoveNode, Kept;
    RemoveNodeIs(m, ctx);
    ListAfterIs(m, list, ctx);
    if ctx in m {
      RemoveNodeTakesChildren(m, ctx);
      TakenOutIsKept(m, list, ctx);
      OwnListAfterOne(m, list, ctx);
      var list1 := Kept(list, TakeOut(m, ctx).Keys);
      ListIsKeptAll(TakeOut(m, ctx), list1, m[ctx].children);
      KeptTwice(list, TakeOut(m, ctx).Keys, RemoveNode(m, ctx).Keys);
    } else {
      KeptAll(list, m.Keys);
    }
  }

  lemma {:induction false} ListIsKeptAll(m: Nodes, list: seq<Ctx>, cs: seq<Ctx>)
    requires OwnList(m, list) && (forall c | c in list :: c in m) && ROOT in RemoveAll(m, cs)
    ensures ListAfterAll(m, list, cs) == Kept(list, RemoveAll(m, cs).Keys)
    decreases |m|, 1 + |cs|
  {
    hide OwnList, ListAfter, ListAfterAll, RemoveNode, RemoveAll, Kept;
    RemoveAllIs(m, cs);
    ListAfterAllIs(m, list, cs);
    if cs == [] {
      KeptAll(list, m.Keys);
    } else {
      var r := RemoveNode(m, cs[0]);
      ListIsKept(m, list, cs[0]);
      LeavesList(m, list, cs[0]);
      ListIsKeptAll(r, Kept(list, r.Keys), cs[1..]);
      KeptTwice(list, r.Keys, RemoveAll(m, cs).Keys);
    }
  }

  /** Nodes that are gone make no difference. */
  lemma {:induction false} BeforeAllKept(m: Nodes, cs: seq<Ctx>)
    ensures BeforeAll(m, cs) == BeforeAll(m, Kept(cs, m.Keys))
    decreases |cs|
  {
    hide BeforeAll, Before, RemoveNode;
    if cs != [] {
      var r, rest := RemoveNode(m, cs[0]), Kept(cs[1..], m.Keys);
      BeforeAllIs(m, cs);
      RemoveNodeIs(m, cs[0]);
      BeforeIs(m, cs[0]);
      if cs[0] in m {
        BeforeAllKept(r, cs[1..]);
        BeforeAllKept(r, rest);
        KeptTwice(cs[1..], m.Keys, r.Keys);
        BeforeAllIs(m, [cs[0]] + rest);
        assert ([cs[0]] + rest)[1..] == rest;
      } else {
        BeforeAllKept(m, cs[1..]);
        assert {} + BeforeAll(m, cs[1..]) == BeforeAll(m, cs[1..]);
      }
    }
  }

  // ---------- the loop

  /** The nodes in the map, and the manager's own list. */
  datatype Tree = Tree(nodes: Nodes, list: seq<Ctx>)

  function RemoveOne(t: Tree, ctx: Ctx): Tree {
    Tree(RemoveNode(t.nodes, ctx), ListAfter(t.nodes, t.list, ctx))
  }

  function RemoveList(t: Tree, cs: seq<Ctx>): Tree {
    Tree(RemoveAll(t.nodes, cs), ListAfterAll(t.nodes, t.list, cs))
  }

  /** The tree once a node is out of the map, before its children are removed. */
  function WithoutOne(t: Tree, ctx: Ctx): Tree
    requires ctx in t.nodes
  {
    Tree(TakeOut(t.nodes, ctx), ListWithout(t.nodes, t.list, ctx))
  }

  lemma RemoveOneIs(t: Tree, ctx: Ctx)
    ensures RemoveOne(t, ctx) == if ctx !in t.nodes then t else RemoveList(WithoutOne(t, ctx), t.nodes[ctx].children)
  {
    hide ListAfterAll, RemoveAll, TakeOut, ListWithout;
  }

  lemma RemoveListIs(t: Tree, cs: seq<Ctx>)
    ensures RemoveList(t, cs) == if cs == [] then t else RemoveList(RemoveOne(t, cs[0]), cs[1..])
  {
    hide ListAfter, RemoveNode;
  }

  /** One turn of the loop of `remove_all`. */
  function Turn(t: Tree): Tree
    requires t.list != []
  {
    RemoveOne(t, t.list[0])
  }

  /** After n turns, or fewer when the list is empty before. */
  function AfterTurns(t: Tree, n: nat): Tree
    decreases n
  {
    if n == 0 || t.list == [] then t else AfterTurns(Turn(t), n - 1)
  }

  /** The loop's condition fails after n turns. */
  ghost predicate Stopped(t: Tree, n: nat) {
    AfterTurns(t, n).list == []
  }

  ghost predicate IsWhole(t: Tree) {
    Whole(t.nodes, t.list)
  }

  /** The list names, once each, only the manager's own nodes, and all of them go before the
      manager itself, if that goes. */
  ghost predicate CanEmpty(t: Tree) {
    && ListsItsOwn(t.nodes, ROOT, t.list)
    && forall c | c in t.list :: c in BeforeAll(t.nodes, t.list)
  }

  lemma EmptyCanEmpty(t: Tree)
    requires t.list == []
    ensures CanEmpty(t)
  {
  }

  lemma NoRootCannotEmpty(t: Tree)
    requires ROOT !in t.nodes && t.list != []
    ensures !CanEmpty(t)
  {
    RootGoneAll(t.nodes, t.list, t.list);
    assert t.list[0] in t.list;
  }

  lemma OwnIsOwnList(t: Tree)
    requires ListsItsOwn(t.nodes, ROOT, t.list)
    ensures OwnList(t.nodes, t.list) && forall c | c in t.list :: c in t.nodes
  {
  }

  /** When the root stays in a turn. */
  lemma TurnWithRoot(t: Tree)
    requires IsWhole(t) && t.list != [] && ListsItsOwn(t.nodes, ROOT, t.list) && ROOT in Turn(t).nodes
    ensures ListsItsOwn(Turn(t).nodes, ROOT, Turn(t).list)
    ensures (forall c | c in Turn(t).list :: c in BeforeAll(Turn(t).nodes, Turn(t).list)) <==>
            (forall c | c in t.list :: c in BeforeAll(t.nodes, t.list))
  {
    hide RemoveNode, ListAfter, BeforeAll, Before, OwnList, NoDuplicates, Kept;
    var m, list, c0 := t.nodes, t.list, t.list[0];
    var r := RemoveNode(m, c0);
    OwnIsOwnList(t);
    RemoveNodePart(m, c0);
    RemoveKeepsWhole(m, list, c0);
    RemoveKeepsOwn(m, c0);
    ListIsKept(m, list, c0);
    RemoveNodeTakesChildren(m, c0);
    KeptOfRest(list, r.Keys);
    BeforeAllKept(r, list[1..]);
    BeforeAllIs(m, list);
    BeforeIsRemoved(m, c0);
  }

  lemma KeptOfRest(list: seq<Ctx>, keys: set<Ctx>)
    requires list != [] && list[0] !in keys
    ensures Kept(list, keys) == Kept(list[1..], keys)
  {
  }

  /** When the root goes in a turn. */
  lemma TurnWithoutRoot(t: Tree)
    requires t.list != [] && ListsItsOwn(t.nodes, ROOT, t.list) && ROOT !in Turn(t).nodes
    ensures Turn(t).list == [] <==> forall c | c in t.list :: c in BeforeAll(t.nodes, t.list)
  {
    hide RemoveNode, ListAfter, BeforeAll, Before, OwnList, NoDuplicates;
    OwnIsOwnList(t);
    LeavesList(t.nodes, t.list, t.list[0]);
    BeforeAllIs(t.nodes, t.list);
    RootGoneAll(Turn(t).nodes, [], t.list[1..]);
    assert Turn(t).list != [] ==> Turn(t).list[0] in Turn(t).list;
  }

  lemma OtherTurn(t: Tree)
    requires IsWhole(t) && t.list != [] && !ListsItsOwn(t.nodes, ROOT, t.list)
    ensures !CanEmpty(Turn(t))
  {
    hide RemoveNode, ListAfter, ListsItsOwn, BeforeAll;
    var m, c0 := t.nodes, t.list[0];
    if ROOT in m {
      OtherListStays(m, c0);
      RemoveKeepsWhole(m, t.list, c0);
      if ROOT in RemoveNode(m, c0) {
        RemoveKeepsOwn(m, c0);
      } else {
        NoRootCannotEmpty(Turn(t));
      }
    } else {
      RootGone(m, t.list, c0);
      NoRootCannotEmpty(Turn(t));
    }
  }

  /** A turn neither makes nor breaks the condition; where it holds, a node goes. */
  lemma TurnKeeps(t: Tree)
    requires IsWhole(t) && t.list != []
    ensures IsWhole(Turn(t)) && (CanEmpty(Turn(t)) <==> CanEmpty(t))
    ensures CanEmpty(t) ==> |Turn(t).nodes| < |t.nodes|
  {
    hide ListAfter, ListsItsOwn, BeforeAll, RemoveNode;
    RemoveKeepsWhole(t.nodes, t.list, t.list[0]);
    if !ListsItsOwn(t.nodes, ROOT, t.list) {
      OtherTurn(t);
    } else {
      FirstGoes(t);
      if ROOT in Turn(t).nodes {
        TurnWithRoot(t);
      } else {
        TurnWithoutRoot(t);
        if Turn(t).list == [] {
          EmptyCanEmpty(Turn(t));
        } else {
          NoRootCannotEmpty(Turn(t));
        }
      }
    }
  }

  lemma FirstGoes(t: Tree)
    requires t.list != [] && ListsItsOwn(t.nodes, ROOT, t.list)
    ensures |Turn(t).nodes| < |t.nodes|
  {
    assert t.list[0] in t.list;
    RemoveNodeIs(t.nodes, t.list[0]);
  }

  lemma {:induction false} CanEmptyStops(t: Tree) returns (n: nat)
    requires IsWhole(t) && CanEmpty(t)
    ensures n <= |t.nodes| && Stopped(t, n)
    decreases |t.nodes|
  {
    hide IsWhole, CanEmpty, Turn;
    if t.list == [] {
      n := 0;
    } else {
      TurnKeeps(t);
      n := CanEmptyStops(Turn(t));
      n := n + 1;
    }
  }

  lemma {:induction false} OtherGoesOn(t: Tree, n: nat)
    requires IsWhole(t) && !CanEmpty(t)
    ensures !Stopped(t, n)
    decreases n
  {
    hide IsWhole, CanEmpty, Turn;
    if t.list == [] {
      EmptyCanEmpty(t);
    } else if n > 0 {
      TurnKeeps(t);
      OtherGoesOn(Turn(t), n - 1);
    }
  }

  /** On every graph, the loop of `remove_all` ends if and only if the manager lists, once each,
      only nodes that name it as their parent, and each of them goes before the manager's own
      place in the map does when they are removed in turn. */
  lemma RemoveAllEndsExactly(t: Tree)
    requires IsWhole(t)
    ensures (exists n: nat :: Stopped(t, n)) <==>
            ListsItsOwn(t.nodes, ROOT, t.list) && forall c | c in t.list :: c in BeforeAll(t.nodes, t.list)
  {
    hide IsWhole, ListsItsOwn, BeforeAll, AfterTurns;
    if CanEmpty(t) {
      var n := CanEmptyStops(t);
    } else {
      forall n: nat ensures !Stopped(t, n) {
        OtherGoesOn(t, n);
      }
    }
  }

  /** No listed node takes the root with it. */
  ghost predicate RootApart(m: Nodes) {
    ROOT in m && forall c | c in m[ROOT].children :: !Reachable(m, c, ROOT)
  }

  lemma {:induction false} ApartGoBefore(m: Nodes, cs: seq<Ctx>, c: Ctx)
    requires ROOT in m && c in cs && c in m && forall d | d in cs :: !Reachable(m, d, ROOT)
    ensures c in BeforeAll(m, cs)
    decreases |cs|
  {
    hide Reachable, RemoveNode, Before, BeforeAll;
    var r := RemoveNode(m, cs[0]);
    BeforeAllIs(m, cs);
    RemovesExactlyReachable(m, cs[0], ROOT);
    RemoveNodePart(m, cs[0]);
    RemoveNodeTakesChildren(m, cs[0]);
    BeforeIsRemoved(m, cs[0]);
    if c in r {
      forall d | d in cs[1..] ensures !Reachable(r, d, ROOT) {
        if Reachable(r, d, ROOT) {
          ReachableInPart(r, m, d, ROOT);
        }
      }
      ApartGoBefore(r, cs[1..], c);
    }
  }

  /** Where no listed node takes the root with it, the list alone decides. */
  lemma ApartEndsExactly(t: Tree)
    requires IsWhole(t) && RootApart(t.nodes)
    ensures (exists n: nat :: Stopped(t, n)) <==> ListsItsOwn(t.nodes, ROOT, t.list)
  {
    hide BeforeAll, Reachable, AfterTurns;
    RemoveAllEndsExactly(t);
    if ListsItsOwn(t.nodes, ROOT, t.list) {
      forall c | c in t.list ensures c in BeforeAll(t.nodes, t.list) {
        ApartGoBefore(t.nodes, t.list, c);
      }
    }
  }

  // ---------- what the loop leaves where it ends

  function Emptied(t: Tree): (r: Tree)
    requires IsWhole(t) && CanEmpty(t)
    ensures r.list == []
    decreases |t.nodes|
  {
    if t.list == [] then t
    else
      TurnKeeps(t);
      Emptied(Turn(t))
  }

  lemma EmptiedIs(t: Tree)
    requires IsWhole(t) && CanEmpty(t) && t.list != []
    ensures IsWhole(Turn(t)) && CanEmpty(Turn(t)) && |Turn(t).nodes| < |t.nodes| && Emptied(t) == Emptied(Turn(t))
  {
    TurnKeeps(t);
  }

  lemma NothingToEmpty(t: Tree)
    requires IsWhole(t) && CanEmpty(t) && t.list == []
    ensures Emptied(t) == t
  {
  }

  lemma {:induction false} EmptiedPart(t: Tree)
    requires IsWhole(t) && CanEmpty(t)
    ensures PartOf(Emptied(t).nodes, t.nodes) && ChildrenGone(t.nodes, Emptied(t).nodes)
    decreases |t.nodes|
  {
    hide IsWhole, CanEmpty, RemoveNode, ListAfter, Emptied;
    if t.list == [] {
      NothingToEmpty(t);
    } else {
      EmptiedIs(t);
      RemoveNodePart(t.nodes, t.list[0]);
      RemoveNodeTakesChildren(t.nodes, t.list[0]);
      EmptiedPart(Turn(t));
    }
  }

  lemma NothingListed(m: Nodes, x: Ctx)
    requires ROOT in m && m[ROOT].children == [] && x != ROOT
    ensures !Reachable(m, ROOT, x)
  {
    if Reachable(m, ROOT, x) {
      var p :| IsPath(m, p) && p[0] == ROOT && p[|p| - 1] == x;
      FirstStep(m, p);
    }
  }

  lemma NotReachedWithout(m: Nodes, r: Nodes, a: Ctx, x: Ctx)
    requires ChildrenGone(m, r) && a in m && a !in r && x in r
    ensures !Reachable(m, a, x)
  {
    if Reachable(m, a, x) {
      var p :| IsPath(m, p) && p[0] == a && p[|p| - 1] == x;
      PathIsRemoved(m, r, p, |p| - 1);
    }
  }

  /** Exactly the nodes that can be reached from the root go, apart from the root. */
  lemma {:induction false} EmptiesExactlyReachable(t: Tree, x: Ctx)
    requires IsWhole(t) && CanEmpty(t) && ROOT in t.nodes && x in t.nodes && x != ROOT
    ensures x !in Emptied(t).nodes <==> Reachable(t.nodes, ROOT, x)
    decreases |t.nodes|
  {
    hide CanEmpty, Reachable, Emptied, RemoveNode, ListAfter, ChildrenGone;
    var m := t.nodes;
    if t.list == [] {
      NothingToEmpty(t);
      NothingListed(m, x);
    } else {
      var c, u := t.list[0], Turn(t);
      EmptiedIs(t);
      EmptiedPart(u);
      RemovesExactlyReachable(m, c, x);
      RemoveNodePart(m, c);
      if x !in u.nodes {
        ReachableViaChild(m, m, ROOT, c, x);
      } else if ROOT in u.nodes {
        EmptiesExactlyReachable(u, x);
        if Reachable(m, ROOT, x) {
          RemoveKeepsPaths(m, c, ROOT, x);
        } else if Reachable(u.nodes, ROOT, x) {
          ReachableInPart(u.nodes, m, ROOT, x);
        }
      } else {
        RemoveNodeTakesChildren(m, c);
        NotReachedWithout(m, u.nodes, ROOT, x);
        EndedWithRoot(u);
      }
    }
  }

  lemma EndedWithRoot(t: Tree)
    requires IsWhole(t) && CanEmpty(t) && ROOT !in t.nodes
    ensures Emptied(t) == t
  {
    if t.list != [] {
      NoRootCannotEmpty(t);
    }
  }

  /** The root stays exactly when no node that it lists takes it along. */
  lemma {:induction false} RootStaysExactly(t: Tree)
    requires IsWhole(t) && CanEmpty(t) && ROOT in t.nodes
    ensures ROOT in Emptied(t).nodes <==> RootApart(t.nodes)
    decreases |t.nodes|
  {
    hide CanEmpty, Reachable, Emptied, RemoveNode, ListAfter, ChildrenGone;
    var m := t.nodes;
    if t.list == [] {
      NothingToEmpty(t);
    } else {
      var c, u := t.list[0], Turn(t);
      EmptiedIs(t);
      EmptiedPart(u);
      RemovesExactlyReachable(m, c, ROOT);
      assert c in m[ROOT].children;
      if ROOT in u.nodes {
        RootStaysExactly(u);
        ApartAfterTurn(m, c);
      }
    }
  }

  lemma ApartAfterTurn(m: Nodes, c: Ctx)
    requires ROOT in RemoveNode(m, c) && ROOT in m
    ensures RootApart(RemoveNode(m, c)) <==> RootApart(m)
  {
    hide Reachable, RemoveNode, ChildrenGone;
    var r := RemoveNode(m, c);
    RemoveNodePart(m, c);
    RemoveNodeTakesChildren(m, c);
    forall d | d in m[ROOT].children && d in m ensures d in r && Reachable(r, d, ROOT) <==> Reachable(m, d, ROOT) {
      if d !in r {
        NotReachedWithout(m, r, d, ROOT);
      } else if Reachable(m, d, ROOT) {
        RemoveKeepsPaths(m, c, d, ROOT);
      } else if Reachable(r, d, ROOT) {
        ReachableInPart(r, m, d, ROOT);
      }
    }
    StartsInside(m);
    StartsInside(r);
  }

  lemma StartsInside(m: Nodes)
    ensures forall a, x | Reachable(m, a, x) :: a in m
  {
  }

  lemma TreeCanEmpty(m: Nodes)
    requires LinkedDown(m) && ChildrenExist(m) && ROOT in m
    ensures RootApart(m) && CanEmpty(Tree(m, m[ROOT].children))
  {
    var cs := m[ROOT].children;
    forall c | c in cs ensures !Reachable(m, c, ROOT) {
      if Reachable(m, c, ROOT) {
        var k := ReachedIsListed(m, c, ROOT);
      }
    }
    forall c | c in cs ensures c in BeforeAll(m, cs) {
      ApartGoBefore(m, cs, c);
    }
  }

  /** On a tree the loop ends, and only the root is left. */
  lemma TreeEmpties(m: Nodes)
    requires WellLinked(m) && Rooted(m)
    ensures var t := Tree(m, m[ROOT].children);
            IsWhole(t) && CanEmpty(t) && Emptied(t).nodes.Keys == {ROOT}
  {
    hide LinkedUp, Reachable, Emptied, RemoveNode, CanEmpty;
    var t := Tree(m, m[ROOT].children);
    TreeCanEmpty(m);
    EmptiedPart(t);
    RootStaysExactly(t);
    forall x | x in m && x != ROOT ensures x !in Emptied(t).nodes {
      assert Reachable(m, ROOT, x);
      EmptiesExactlyReachable(t, x);
    }
  }

  // ---------- three calls of `add_node` after which it does not end

  const BARE: Nodes := map[ROOT := Node(ROOT, [])]

  /** Two top-level nodes, the first of which is then added again under the second. */
  function Moved(): Nodes {
    AddNode(AddNode(AddNode(BARE, "a", ROOT), "b", ROOT), "a", "b")
  }

  lemma MovedIs()
    ensures Moved() == map[ROOT := Node(ROOT, ["a", "b"]), "b" := Node(ROOT, ["a"]), "a" := Node("b", [])]
  {
    assert |"a"| == |"b"| == 1 && "a"[0] != "b"[0];
    assert [] + ["a"] == ["a"] && ["a"] + ["b"] == ["a", "b"];
    var m1 := AddNode(BARE, "a", ROOT);
    assert m1 == map[ROOT := Node(ROOT, ["a"]), "a" := Node(ROOT, [])];
    var m2 := AddNode(m1, "b", ROOT);
    assert m2 == map[ROOT := Node(ROOT, ["a", "b"]), "b" := Node(ROOT, []), "a" := Node(ROOT, [])];
  }

  function MovedTree(): Tree {
    Tree(Moved(), ["a", "b"])
  }

  lemma MovedCannotEmpty()
    ensures IsWhole(MovedTree()) && !CanEmpty(MovedTree())
  {
    MovedIs();
    hide AddNode, Moved, BeforeAll;
    assert |"a"| == |"b"| == 1 && "a"[0] != "b"[0];
    var list := ["a", "b"];
    assert list[0] in list && Moved()["a"].parent == "b";
  }

  /** From its second turn on it removes a node that is gone. */
  lemma RemoveAllCanGoOn()
    ensures IsWhole(MovedTree()) && !exists n: nat :: Stopped(MovedTree(), n)
    ensures
      var t := AfterTurns(MovedTree(), 1);
      t.list == ["a", "b"] && "a" !in t.nodes && Turn(t) == t
  {
    hide CanEmpty, IsWhole, MovedTree, AfterTurns, Turn;
    MovedCannotEmpty();
    forall n: nat ensures !Stopped(MovedTree(), n) {
      OtherGoesOn(MovedTree(), n);
    }
    MovedTurn();
  }

  lemma MovedTurn()
    ensures
      var t := AfterTurns(MovedTree(), 1);
      t.list == ["a", "b"] && "a" !in t.nodes && Turn(t) == t
  {
    var m, list := Moved(), ["a", "b"];
    MovedIs();
    hide AddNode, Moved, ListAfter, RemoveNode;
    assert |"a"| == |"b"| == 1 && "a"[0] != "b"[0];
    ListAfterIs(m, list, "a");
    assert m["a"] == Node("b", []);
    assert ListAfterAll(TakeOut(m, "a"), list, []) == list;
    RemoveNodeTakesChildren(m, "a");
    var t := Turn(MovedTree());
    assert t.list == list && "a" !in t.nodes;
    RemoveNodeIs(t.nodes, "a");
    ListAfterIs(t.nodes, list, "a");
    assert AfterTurns(MovedTree(), 1) == AfterTurns(t, 0);
  }
}
