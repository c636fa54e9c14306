/** What the managers do with the children that a service lists: they set them, and then add
    each of them. */
module NodeUpdate {
  import opened NodeModel
  import opened NodeForest

  /** Adds the listed children, `again` also those that are there. */
  function AddEach(m: Nodes, parent: Ctx, cs: seq<Ctx>, again: bool): (r: Nodes)
    ensures m.Keys <= r.Keys
    decreases |cs|
  {
    if cs == [] then m
    else AddEach(if again || cs[0] !in m then AddNode(m, cs[0], parent) else m, parent, cs[1..], again)
  }

  function UpdateChildren(m: Nodes, parent: Ctx, cs: seq<Ctx>, again: bool): Nodes
    requires parent in m
  {
    AddEach(SetChildren(m, parent, cs), parent, cs, again)
  }

  /** A listed child is new, or the parent's own, or goes with an own child that is not listed. */
  ghost predicate MayList(m: Nodes, parent: Ctx, cs: seq<Ctx>, c: Ctx)
    requires parent in m
  {
    c in m && m[c].parent != parent ==> exists d :: d in m[parent].children && d !in cs && Reachable(m, d, c)
  }

  /** The same, said of the graph that is left when the children that are not listed are gone. */
  ghost predicate NewOrOwn(r: Nodes, parent: Ctx, cs: seq<Ctx>) {
    forall c | c in cs && c in r :: r[c].parent == parent
  }

  lemma RemoveAllReached(m: Nodes, cs: seq<Ctx>, x: Ctx)
    requires x in m
    ensures x !in RemoveAll(m, cs) <==> exists d :: d in cs && Reachable(m, d, x)
  {
    if x !in RemoveAll(m, cs) {
      var d := RemovedByAll(m, cs, x);
    } else if d :| d in cs && Reachable(m, d, x) {
      var p :| IsPath(m, p) && p[0] == d && p[|p| - 1] == x;
      RemoveAllTakesChildren(m, cs);
      PathIsRemoved(m, RemoveAll(m, cs), p, |p| - 1);
    }
  }

  lemma MayListIs(m: Nodes, parent: Ctx, cs: seq<Ctx>)
    requires parent in m
    ensures (forall c | c in cs :: MayList(m, parent, cs, c)) <==>
            NewOrOwn(RemoveAll(m, Dropped(m[parent].children, cs)), parent, cs)
  {
    hide Reachable;
    var drop := Dropped(m[parent].children, cs);
    RemoveAllPart(m, drop);
    forall c | c in cs && c in m
      ensures MayList(m, parent, cs, c) <==> (c in RemoveAll(m, drop) ==> m[c].parent == parent)
    {
      RemoveAllReached(m, drop, c);
      forall d ensures d in drop <==> d in m[parent].children && d !in cs {
        DroppedMembers(m[parent].children, cs, d);
      }
    }
  }

  // ---------- where each listed child is new or the parent's own

  lemma AddOne(s: Nodes, parent: Ctx, c: Ctx)
    requires parent in s && c in s[parent].children && (c in s ==> s[c].parent == parent)
    ensures AddNode(s, c, parent) == if c in s then s else s[c := Node(parent, [])]
  {
  }

  /** The nodes that are there stay as they are; the others are leaves below the parent. */
  ghost predicate Extended(s: Nodes, u: Nodes, parent: Ctx, cs: seq<Ctx>) {
    && (forall k :: k in u <==> k in s || k in cs)
    && (forall k | k in s :: u[k] == s[k])
    && (forall c | c in cs && c !in s :: u[c] == Node(parent, []))
  }

  lemma {:induction false} AddEachExtends(s: Nodes, parent: Ctx, cs: seq<Ctx>, again: bool)
    requires parent in s && (forall c | c in cs :: c in s[parent].children) && NewOrOwn(s, parent, cs)
    ensures Extended(s, AddEach(s, parent, cs, again), parent, cs)
    decreases |cs|
  {
    if cs != [] {
      AddOne(s, parent, cs[0]);
      var s1 := if cs[0] in s then s else s[cs[0] := Node(parent, [])];
      AddEachExtends(s1, parent, cs[1..], again);
      assert forall c :: c in cs <==> c == cs[0] || c in cs[1..];
    }
  }

  lemma ExtendedDown(r: Nodes, s: Nodes, u: Nodes, parent: Ctx, cs: seq<Ctx>)
    requires LinkedDown(r) && ChildrenExist(r) && parent in r && NewOrOwn(r, parent, cs)
    requires s == Relist(r, parent, cs) && Extended(s, u, parent, cs)
    ensures LinkedDown(u)
  {
    hide NoDuplicates;
    forall k, c | k in u && c in u[k].children && c in u ensures u[c].parent == k {
      if k in s && k != parent {
        assert u[k] == r[k] && c in r;
        assert u[c] == s[c];
      }
    }
  }

  lemma ExtendedChildren(r: Nodes, s: Nodes, u: Nodes, parent: Ctx, cs: seq<Ctx>)
    requires ChildrenExist(r) && parent in r && NoDuplicates(cs) && ROOT !in cs
    requires s == Relist(r, parent, cs) && Extended(s, u, parent, cs)
    ensures ChildrenExist(u)
  {
    hide NoDuplicates;
    NoneDistinct();
    forall k | k in u
      ensures NoDuplicates(u[k].children) && forall c | c in u[k].children :: c in u && c != ROOT
    {
      if k in s && k != parent {
        assert u[k] == r[k];
      }
    }
  }

  lemma ExtendedUp(r: Nodes, s: Nodes, u: Nodes, parent: Ctx, cs: seq<Ctx>)
    requires LinkedUp(r) && parent in r && forall c | c in r[parent].children :: c in cs
    requires s == Relist(r, parent, cs) && Extended(s, u, parent, cs)
    ensures LinkedUp(u)
  {
    assert u[parent].children == cs;
    forall c | c in u && c != ROOT
      ensures u[c].parent != c && u[c].parent in u && c in u[u[c].parent].children
    {
      if c in s {
        assert u[c].parent == r[c].parent;
        assert u[r[c].parent] == s[r[c].parent];
      }
    }
  }

  lemma PathGrows(r: Nodes, u: Nodes, p: seq<Ctx>)
    requires IsPath(r, p) && r.Keys <= u.Keys
    requires forall k, c | k in r && c in r[k].children :: c in u[k].children
    ensures IsPath(u, p)
  {
  }

  lemma PathToChild(u: Nodes, p: seq<Ctx>, c: Ctx)
    requires IsPath(u, p) && c in u && c in u[p[|p| - 1]].children
    ensures Reachable(u, p[0], c)
  {
    assert IsPath(u, p + [c]);
    assert (p + [c])[0] == p[0] && (p + [c])[|p|] == c;
  }

  lemma ExtendedRooted(r: Nodes, s: Nodes, u: Nodes, parent: Ctx, cs: seq<Ctx>)
    requires Rooted(r) && parent in r && forall c | c in r[parent].children :: c in cs
    requires s == Relist(r, parent, cs) && Extended(s, u, parent, cs)
    ensures Rooted(u)
  {
    forall x | x in u ensures Reachable(u, ROOT, x) {
      var y := if x in r then x else parent;
      assert Reachable(r, ROOT, y);
      var p :| IsPath(r, p) && p[0] == ROOT && p[|p| - 1] == y;
      PathGrows(r, u, p);
      if x !in r {
        PathToChild(u, p, x);
      }
    }
  }

  // ---------- where some listed child is neither

  lemma {:induction false} UnmovedStays(s: Nodes, parent: Ctx, cs: seq<Ctx>, again: bool, k: Ctx)
    requires k in s && k != parent && (again && k in cs ==> s[k].parent == parent)
    ensures AddEach(s, parent, cs, again)[k] == s[k]
    decreases |cs|
  {
    if cs != [] {
      UnmovedStays(if again || cs[0] !in s then AddNode(s, cs[0], parent) else s, parent, cs[1..], again, k);
    }
  }

  lemma {:induction false} ParentKeepsList(s: Nodes, parent: Ctx, cs: seq<Ctx>, again: bool)
    requires parent in s && parent !in cs && forall c | c in cs :: c in s[parent].children
    ensures AddEach(s, parent, cs, again)[parent] == s[parent]
    decreases |cs|
  {
    if cs != [] {
      ParentKeepsList(if again || cs[0] !in s then AddNode(s, cs[0], parent) else s, parent, cs[1..], again);
    }
  }

  lemma {:induction false} SelfStaysListed(s: Nodes, parent: Ctx, cs: seq<Ctx>, again: bool)
    requires parent in s && parent in s[parent].children
    ensures parent in AddEach(s, parent, cs, again)[parent].children
    decreases |cs|
  {
    if cs != [] {
      SelfStaysListed(if again || cs[0] !in s then AddNode(s, cs[0], parent) else s, parent, cs[1..], again);
    }
  }

  lemma {:induction false} OwnStays(s: Nodes, parent: Ctx, cs: seq<Ctx>, c: Ctx)
    requires c in s && s[c].parent == parent
    ensures AddEach(s, parent, cs, true)[c].parent == parent
    decreases |cs|
  {
    if cs != [] {
      OwnStays(AddNode(s, cs[0], parent), parent, cs[1..], c);
    }
  }

  lemma {:induction false} AddedIsOwn(s: Nodes, parent: Ctx, cs: seq<Ctx>, c: Ctx)
    requires c in cs
    ensures c in AddEach(s, parent, cs, true) && AddEach(s, parent, cs, true)[c].parent == parent
    decreases |cs|
  {
    var s1 := AddNode(s, cs[0], parent);
    if c == cs[0] {
      OwnStays(s1, parent, cs[1..], c);
    } else {
      AddedIsOwn(s1, parent, cs[1..], c);
    }
  }

  /** On the way from the root to a node that moves there is a first such node: its old parent
      is not the new one, and does not move. */
  lemma {:induction false} FirstMoved(r: Nodes, parent: Ctx, cs: seq<Ctx>, p: seq<Ctx>, i: nat) returns (q: Ctx, c: Ctx)
    requires LinkedDown(r) && IsPath(r, p) && p[0] == ROOT && ROOT !in cs
    requires i < |p| && p[i] in cs && r[p[i]].parent != parent
    ensures q in r && q != parent && (q in cs ==> r[q].parent == parent) && c in cs && c in r[q].children
    decreases i
  {
    assert i > 0;
    q, c := p[i - 1], p[i];
    assert p[i - 1 + 1] in r[q].children;
    if q in cs && r[q].parent != parent {
      q, c := FirstMoved(r, parent, cs, p, i - 1);
    }
  }

  lemma MovedBreaks(r: Nodes, parent: Ctx, cs: seq<Ctx>, again: bool)
    requires WellLinked(r) && Rooted(r) && parent in r && parent !in cs && ROOT !in cs
    requires !NewOrOwn(r, parent, cs)
    ensures !LinkedDown(AddEach(Relist(r, parent, cs), parent, cs, again))
  {
    hide ChildrenExist, LinkedUp;
    var s, u := Relist(r, parent, cs), AddEach(Relist(r, parent, cs), parent, cs, again);
    var c :| c in cs && c in r && r[c].parent != parent;
    ParentKeepsList(s, parent, cs, again);
    if again {
      assert Reachable(r, ROOT, c);
      var p :| IsPath(r, p) && p[0] == ROOT && p[|p| - 1] == c;
      var q, first := FirstMoved(r, parent, cs, p, |p| - 1);
      UnmovedStays(s, parent, cs, again, q);
      AddedIsOwn(s, parent, cs, first);
      assert first in u[q].children && u[first].parent == parent;
    } else {
      UnmovedStays(s, parent, cs, again, c);
      assert c in u[parent].children && u[c].parent == r[c].parent;
    }
  }

  lemma SelfBreaks(s: Nodes, parent: Ctx, cs: seq<Ctx>, again: bool)
    requires parent in s && parent in cs && s[parent].children == cs
    ensures !WellLinked(AddEach(s, parent, cs, again))
  {
    var u := AddEach(s, parent, cs, again);
    SelfStaysListed(s, parent, cs, again);
    assert parent in u[parent].children;
  }

  // ---------- the exact condition

  lemma AddedForestExactly(r: Nodes, parent: Ctx, cs: seq<Ctx>, again: bool)
    requires WellLinked(r) && Rooted(r) && parent in r && forall c | c in r[parent].children :: c in cs
    ensures var u := AddEach(Relist(r, parent, cs), parent, cs, again);
            && (WellLinked(u) <==> NoDuplicates(cs) && ROOT !in cs && NewOrOwn(r, parent, cs))
            && (WellLinked(u) ==> Rooted(u))
  {
    hide NoDuplicates, LinkedDown, LinkedUp, Rooted, Extended, AddEach;
    var s, u := Relist(r, parent, cs), AddEach(Relist(r, parent, cs), parent, cs, again);
    if NoDuplicates(cs) && ROOT !in cs && NewOrOwn(r, parent, cs) {
      AddEachExtends(s, parent, cs, again);
      ExtendedDown(r, s, u, parent, cs);
      ExtendedChildren(r, s, u, parent, cs);
      ExtendedUp(r, s, u, parent, cs);
      ExtendedRooted(r, s, u, parent, cs);
    } else if parent in cs {
      SelfBreaks(s, parent, cs, again);
    } else {
      ParentKeepsList(s, parent, cs, again);
      assert u[parent].children == cs;
      if NoDuplicates(cs) && ROOT !in cs {
        MovedBreaks(r, parent, cs, again);
      }
    }
  }

  lemma WhatIsLeft(m: Nodes, parent: Ctx, cs: seq<Ctx>)
    requires WellLinked(m) && Rooted(m) && parent in m
    ensures var r := RemoveAll(m, Dropped(m[parent].children, cs));
            && WellLinked(r) && Rooted(r) && parent in r && forall c | c in r[parent].children :: c in cs
  {
    var drop := Dropped(m[parent].children, cs);
    forall c ensures c in drop <==> c in m[parent].children && c !in cs {
      DroppedMembers(m[parent].children, cs, c);
    }
    ParentStaysAfterAll(m, parent, drop);
    RemoveListKeepsTree(m, drop);
    RemoveAllPart(m, drop);
    RemoveAllTakesChildren(m, drop);
    var r := RemoveAll(m, drop);
    assert forall c | c in r[parent].children :: c in r && c in m[parent].children;
  }

  lemma {:induction false} RemoveListKeepsTree(m: Nodes, cs: seq<Ctx>)
    requires WellLinked(m) && Rooted(m) && ROOT !in cs
    ensures WellLinked(RemoveAll(m, cs)) && Rooted(RemoveAll(m, cs))
  {
    hide LinkedDown, LinkedUp, ChildrenExist, Rooted;
    if cs != [] {
      RemoveKeepsTree(m, cs[0]);
      RemoveListKeepsTree(RemoveNode(m, cs[0]), cs[1..]);
    }
  }

  /** Setting and adding the listed children of a node of a tree leaves parents and lists in
      agreement if and only if the list names, once each and without the root, nodes that are
      new, or the parent's own, or go with an own child that is not listed; and then it leaves
      a tree.  It makes no difference whether those that are there are added again. */
  lemma UpdateKeepsTreeExactly(m: Nodes, parent: Ctx, cs: seq<Ctx>, again: bool)
    requires WellLinked(m) && Rooted(m) && parent in m
    ensures WellLinked(UpdateChildren(m, parent, cs, again)) <==>
            NoDuplicates(cs) && ROOT !in cs && forall c | c in cs :: MayList(m, parent, cs, c)
    ensures WellLinked(UpdateChildren(m, parent, cs, again)) ==> Rooted(UpdateChildren(m, parent, cs, again))
  {
    hide WellLinked, Rooted, NoDuplicates, MayList, NewOrOwn, AddEach, Dropped, RemoveAll;
    WhatIsLeft(m, parent, cs);
    MayListIs(m, parent, cs);
    AddedForestExactly(RemoveAll(m, Dropped(m[parent].children, cs)), parent, cs, again);
  }
}
