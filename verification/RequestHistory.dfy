/** What the steps of a run say: who joined which queue, who left it, whose operation is under way,
    and who is still to be invoked.  The state of every run is what its steps say. */
module RequestHistory {
  import opened RequestModel
  import opened Wrappers

  function Init(es: seq<Step>): seq<Step>
    requires es != []
  {
    es[..|es| - 1]
  }

  function Last(es: seq<Step>): Step
    requires es != []
  {
    es[|es| - 1]
  }

  /** The group of the node that the request's first successful look-up found. */
  function GroupOf(es: seq<Step>, r: Req): Option<Group>
    decreases |es|
  {
    if es == [] then None
    else
      match GroupOf(Init(es), r)
      case Some(g) => Some(g)
      case None =>
        match Last(es)
        case Fire(x, Node(g, _)) => if x == r then Some(g) else None
        case _ => None
  }

  /** Who joined the group's queue, in that order. */
  function JoinedOf(es: seq<Step>, g: Group): seq<Req>
    decreases |es|
  {
    if es == [] then []
    else
      var before := JoinedOf(Init(es), g);
      match Last(es)
      case Fire(x, Node(h, _)) => if h == g && GroupOf(Init(es), x).None? then before + [x] else before
      case _ => before
  }

  /** After the last step's join, the request is the first of its group that has not left. */
  predicate ComesFirst(es: seq<Step>, r: Req)
    requires es != []
    decreases |es|, 0
  {
    match GroupOf(es, r)
    case None => false
    case Some(g) =>
      var left := |LeftOf(Init(es), g)|;
      left < |JoinedOf(es, g)| && JoinedOf(es, g)[left] == r
  }

  /** Who leaves a queue with the last step: a request whose operation calls back, whose node is
      gone, or whose operation, when it is its turn, ends at once. */
  function Leaves(es: seq<Step>): Option<Req>
    requires es != []
    decreases |es|, 1
  {
    match Last(es)
    case Complete(r) => Some(r)
    case Fire(r, NoNode) => if GroupOf(es, r).Some? then Some(r) else None
    case Fire(r, Node(_, Ends)) => if ComesFirst(es, r) then Some(r) else None
    case _ => None
  }

  /** Who left the group's queue, in that order. */
  function LeftOf(es: seq<Step>, g: Group): seq<Req>
    decreases |es|, 2
  {
    if es == [] then []
    else
      var before := LeftOf(Init(es), g);
      match Leaves(es)
      case None => before
      case Some(r) => if GroupOf(es, r) == Some(g) then before + [r] else before
  }

  /** Whose operation was started, when it was its turn, and has not called back yet. */
  function UnderWay(es: seq<Step>): set<Req>
    decreases |es|
  {
    if es == [] then {}
    else
      var before := UnderWay(Init(es));
      match Last(es)
      case Complete(r) => before - {r}
      case Fire(r, Node(_, Starts)) => if ComesFirst(es, r) then before + {r} else before
      case _ => before
  }

  function Issued(es: seq<Step>): set<Req>
    decreases |es|
  {
    if es == [] then {}
    else
      match Last(es)
      case Call(r) => Issued(Init(es)) + {r}
      case _ => Issued(Init(es))
  }

  /** Whose node was not found. */
  function GaveUp(es: seq<Step>): set<Req>
    decreases |es|
  {
    if es == [] then {}
    else
      match Last(es)
      case Fire(r, NoNode) => GaveUp(Init(es)) + {r}
      case _ => GaveUp(Init(es))
  }

  /** The first of the group that has not left. */
  function Head(es: seq<Step>, g: Group): Option<Req> {
    var left := |LeftOf(es, g)|;
    if left < |JoinedOf(es, g)| then Some(JoinedOf(es, g)[left]) else None
  }

  /** Whether the request is still to be invoked: before it joined a queue, unless its node was not
      found; and afterwards when it is its turn and its operation is not under way. */
  predicate Waits(es: seq<Step>, r: Req) {
    match GroupOf(es, r)
    case None => r in Issued(es) && r !in GaveUp(es)
    case Some(g) => Head(es, g) == Some(r) && r !in UnderWay(es)
  }

  // ---------- the state is what the steps say

  ghost predicate TellsQueues(es: seq<Step>, s: State) {
    && (forall r: Req :: GroupOf(es, r) == if r in s.owner then Some(s.owner[r]) else None)
    && (forall g: Group :: At(s.joined, g) == JoinedOf(es, g))
    && (forall g: Group :: At(s.completed, g) == LeftOf(es, g))
  }

  ghost predicate TellsRequests(es: seq<Step>, s: State) {
    s.running == UnderWay(es) && s.called == Issued(es) && GaveUp(es) <= Issued(es)
  }

  /** Who did not join a queue is scheduled once, until the node is not found. */
  ghost predicate TellsUnjoined(es: seq<Step>, s: State) {
    forall r: Req | r !in s.owner :: s.scheduled[r] == if r in s.called && r !in GaveUp(es) then 1 else 0
  }

  ghost predicate Tells(es: seq<Step>, s: State) {
    TellsQueues(es, s) && TellsRequests(es, s) && TellsUnjoined(es, s)
  }

  lemma QueueIs(es: seq<Step>, s: State, g: Group)
    requires Inv(s) && TellsQueues(es, s)
    ensures |LeftOf(es, g)| <= |JoinedOf(es, g)| && JoinedOf(es, g)[|LeftOf(es, g)|..] == At(s.queues, g)
  {
    assert GroupInv(s, g);
  }

  lemma JoinTells(es: seq<Step>, s: State, r: Req, h: Group, outcome: Outcome)
    requires es != [] && Last(es) == Fire(r, Node(h, outcome)) && TellsQueues(Init(es), s)
    ensures var s' := Join(s, r, h);
            && r in s'.owner
            && (forall x: Req :: GroupOf(es, x) == if x in s'.owner then Some(s'.owner[x]) else None)
            && (forall g: Group :: At(s'.joined, g) == JoinedOf(es, g))
            && s'.completed == s.completed
  {
  }

  /** Whether it is a request's turn. */
  lemma ComesFirstIs(es: seq<Step>, s: State, r: Req, h: Group, outcome: Outcome)
    requires es != [] && Last(es) == Fire(r, Node(h, outcome)) && TellsQueues(Init(es), s) && Inv(s)
    ensures r in Join(s, r, h).owner && (ComesFirst(es, r) <==> IsFirst(Join(s, r, h), r))
  {
    hide Inv, JoinedOf, LeftOf, GroupOf, TellsQueues;
    JoinTells(es, s, r, h, outcome);
    var s' := Join(s, r, h);
    var g := s'.owner[r];
    QueueIs(Init(es), s, g);
    JoinedQueueIs(es, s, r, h, outcome, g);
    assert At(s'.queues, g) == JoinedOf(es, g)[|LeftOf(Init(es), g)|..];
  }

  lemma JoinedQueueIs(es: seq<Step>, s: State, r: Req, h: Group, outcome: Outcome, g: Group)
    requires es != [] && Last(es) == Fire(r, Node(h, outcome))
    requires TellsQueues(Init(es), s)
    ensures r in s.owner || g != h ==> JoinedOf(es, g) == JoinedOf(Init(es), g) && At(Join(s, r, h).queues, g) == At(s.queues, g)
    ensures r !in s.owner && g == h ==>
              JoinedOf(es, g) == JoinedOf(Init(es), g) + [r] && At(Join(s, r, h).queues, g) == At(s.queues, g) + [r]
  {
  }

  /** A request that leaves. */
  lemma LeavingTells(es: seq<Step>, s: State, r: Req)
    requires es != [] && Leaves(es) == Some(r) && r in s.owner && IsFirst(s, r)
    requires forall x: Req :: GroupOf(es, x) == if x in s.owner then Some(s.owner[x]) else None
    requires forall g: Group :: At(s.joined, g) == JoinedOf(es, g)
    requires forall g: Group :: At(s.completed, g) == LeftOf(Init(es), g)
    ensures TellsQueues(es, DoneRun(s, r))
  {
    hide GroupOf, JoinedOf, Leaves, DoneRun, IsFirst;
    DoneRunOfFirst(s, r);
    forall g: Group ensures At(DoneRun(s, r).completed, g) == LeftOf(es, g) {
      LeftNext(es, g);
    }
  }

  lemma LeftNext(es: seq<Step>, g: Group)
    requires es != []
    ensures LeftOf(es, g) ==
            match Leaves(es)
            case None => LeftOf(Init(es), g)
            case Some(r) => if GroupOf(es, r) == Some(g) then LeftOf(Init(es), g) + [r] else LeftOf(Init(es), g)
  {
  }

  lemma NobodyLeavesTells(es: seq<Step>, s: State)
    requires es != [] && Leaves(es) == None
    requires forall x: Req :: GroupOf(es, x) == if x in s.owner then Some(s.owner[x]) else None
    requires forall g: Group :: At(s.joined, g) == JoinedOf(es, g)
    requires forall g: Group :: At(s.completed, g) == LeftOf(Init(es), g)
    ensures TellsQueues(es, s)
  {
    hide GroupOf, JoinedOf, Leaves;
  }

  /** Where no queue is joined, that part of the history stays. */
  lemma NobodyJoinsTells(es: seq<Step>, s: State)
    requires es != [] && !(Last(es).Fire? && Last(es).found.Node?) && TellsQueues(Init(es), s)
    ensures forall x: Req :: GroupOf(es, x) == if x in s.owner then Some(s.owner[x]) else None
    ensures forall g: Group :: At(s.joined, g) == JoinedOf(es, g) && At(s.completed, g) == LeftOf(Init(es), g)
  {
    hide LeftOf;
    forall x: Req ensures GroupOf(es, x) == GroupOf(Init(es), x) {
    }
    forall g: Group ensures JoinedOf(es, g) == JoinedOf(Init(es), g) {
    }
  }

  lemma ScheduledState(s: State, r: Req)
    requires Inv(s) && r in s.scheduled
    ensures r in s.called && r !in s.running && s.scheduled[r] == 1 && (r in s.owner ==> IsFirst(s, r))
  {
    assert RequestInv(s, r);
  }

  lemma RunningState(s: State, r: Req)
    requires Inv(s) && r in s.running
    ensures r in s.owner && IsFirst(s, r)
  {
    assert RequestInv(s, r);
  }

  ghost predicate QueuedOwned(s: State) {
    forall g: Group, i | 0 <= i < |At(s.queues, g)| :: At(s.queues, g)[i] in s.owner
  }

  lemma InvQueued(s: State)
    requires Inv(s)
    ensures QueuedOwned(s)
  {
    hide GroupInv;
    forall g: Group, i | 0 <= i < |At(s.queues, g)| ensures At(s.queues, g)[i] in s.owner {
      assert GroupInv(s, g);
      QueueOwned(s, g);
    }
  }

  /** The next of the queue, which is then scheduled, has joined it. */
  lemma DoneKeepsOthers(s: State, r: Req)
    requires QueuedOwned(s) && r in s.owner && IsFirst(s, r)
    ensures DoneRun(s, r).owner == s.owner && DoneRun(s, r).called == s.called
    ensures DoneRun(s, r).running == s.running - {r}
    ensures forall x | x !in s.owner :: DoneRun(s, r).scheduled[x] == s.scheduled[x]
  {
    hide DoneRun;
    DoneRunOfFirst(s, r);
  }

  lemma CallTells(es: seq<Step>, s: State, r: Req)
    requires es != [] && Last(es) == Call(r) && Inv(s) && Tells(Init(es), s) && Possible(s, Last(es))
    ensures Tells(es, Next(s, Last(es)))
  {
    hide LeftOf;
    NobodyJoinsTells(es, s);
    NobodyLeavesTells(es, Next(s, Last(es)));
    assert RequestInv(s, r);
    hide GroupOf, JoinedOf;
  }

  lemma DeferredTells(es: seq<Step>, s: State, r: Req)
    requires es != [] && Last(es) == Fire(r, ManagerNotReady) && Inv(s) && Tells(Init(es), s) && Possible(s, Last(es))
    ensures Tells(es, Next(s, Last(es)))
  {
    hide LeftOf;
    NobodyJoinsTells(es, s);
    assert s.scheduled - multiset{r} + multiset{r} == s.scheduled;
    NobodyLeavesTells(es, s);
    hide GroupOf, JoinedOf;
  }

  lemma CompleteTells(es: seq<Step>, s: State, r: Req)
    requires es != [] && Last(es) == Complete(r) && Inv(s) && Tells(Init(es), s) && Possible(s, Last(es))
    ensures Tells(es, Next(s, Last(es)))
  {
    hide LeftOf;
    RunningState(s, r);
    InvQueued(s);
    NobodyJoinsTells(es, s);
    hide GroupOf, JoinedOf, DoneRun, Inv;
    LeavingTells(es, s, r);
    DoneKeepsOthers(s, r);
  }

  lemma NoNodeTells(es: seq<Step>, s: State, r: Req)
    requires es != [] && Last(es) == Fire(r, NoNode) && Inv(s) && Tells(Init(es), s) && Possible(s, Last(es))
    ensures Tells(es, Next(s, Last(es)))
  {
    hide LeftOf;
    ScheduledState(s, r);
    InvQueued(s);
    NobodyJoinsTells(es, s);
    hide GroupOf, JoinedOf, Inv;
    var s1 := s.(scheduled := s.scheduled - multiset{r});
    if r in s.owner {
      hide DoneRun;
      LeavingTells(es, s1, r);
      DoneKeepsOthers(s1, r);
    } else {
      NobodyLeavesTells(es, s1);
    }
  }

  lemma JoinedState(s: State, r: Req, h: Group)
    requires QueuedOwned(s)
    ensures var j := Join(s, r, h);
            && QueuedOwned(j) && r in j.owner && (forall x | x in s.owner :: x in j.owner)
            && j.running == s.running && j.called == s.called && j.scheduled == s.scheduled
  {
    var j := Join(s, r, h);
    forall g: Group, i | 0 <= i < |At(j.queues, g)| ensures At(j.queues, g)[i] in j.owner {
      if r !in s.owner && g == h {
        assert At(j.queues, g) == At(s.queues, g) + [r];
      } else {
        assert At(j.queues, g) == At(s.queues, g);
      }
    }
  }

  /** What the invocation of a request that is in a queue does to the rest of the state. */
  lemma InvokedState(j: State, r: Req, outcome: Outcome)
    requires QueuedOwned(j) && r in j.owner && r !in j.running
    ensures var s := InvokeQueued(j, r, outcome);
            && s.owner == j.owner && s.called == j.called
            && s.running == (if IsFirst(j, r) && outcome.Starts? then j.running + {r} else j.running)
            && forall x | x !in j.owner :: s.scheduled[x] == j.scheduled[x]
  {
    if IsFirst(j, r) && outcome.Ends? {
      DoneKeepsOthers(j, r);
    }
    hide DoneRun, IsFirst, QueuedOwned;
  }

  lemma InvokedQueues(es: seq<Step>, j: State, r: Req, h: Group, outcome: Outcome)
    requires es != [] && Last(es) == Fire(r, Node(h, outcome)) && r in j.owner
    requires ComesFirst(es, r) <==> IsFirst(j, r)
    requires forall x: Req :: GroupOf(es, x) == if x in j.owner then Some(j.owner[x]) else None
    requires forall g: Group :: At(j.joined, g) == JoinedOf(es, g)
    requires forall g: Group :: At(j.completed, g) == LeftOf(Init(es), g)
    ensures TellsQueues(es, InvokeQueued(j, r, outcome))
  {
    hide GroupOf, JoinedOf, LeftOf, ComesFirst, DoneRun, IsFirst;
    if !IsFirst(j, r) || !outcome.Ends? {
      NobodyLeavesTells(es, j);
    } else {
      LeavingTells(es, j, r);
    }
  }

  lemma NodeTells(es: seq<Step>, s: State, r: Req, h: Group, outcome: Outcome)
    requires es != [] && Last(es) == Fire(r, Node(h, outcome)) && Inv(s) && Tells(Init(es), s) && Possible(s, Last(es))
    ensures Tells(es, Next(s, Last(es)))
  {
    hide LeftOf, GroupOf, JoinedOf, Inv, Join, InvokeQueued, IsFirst, QueuedOwned, ComesFirst;
    ScheduledState(s, r);
    InvQueued(s);
    var s1 := s.(scheduled := s.scheduled - multiset{r});
    var j := Join(s1, r, h);
    SameTurn(s, s1, r, h);
    SameQueued(s, s1);
    JoinTells(es, s1, r, h, outcome);
    JoinedState(s1, r, h);
    ComesFirstIs(es, s, r, h, outcome);
    InvokedQueues(es, j, r, h, outcome);
    InvokedState(j, r, outcome);
  }

  lemma SameTurn(s: State, s1: State, r: Req, h: Group)
    requires s1 == s.(scheduled := s1.scheduled)
    ensures r in Join(s, r, h).owner && r in Join(s1, r, h).owner
    ensures IsFirst(Join(s, r, h), r) <==> IsFirst(Join(s1, r, h), r)
  {
  }

  lemma SameQueued(s: State, s1: State)
    requires s1 == s.(scheduled := s1.scheduled) && QueuedOwned(s)
    ensures QueuedOwned(s1)
  {
  }

  lemma NextTells(es: seq<Step>, s: State)
    requires es != [] && Inv(s) && Tells(Init(es), s) && Possible(s, Last(es))
    ensures Tells(es, Next(s, Last(es)))
  {
    hide Inv, Tells, Possible, Next;
    match Last(es)
    case Call(r) => CallTells(es, s, r);
    case Complete(r) => CompleteTells(es, s, r);
    case Fire(r, ManagerNotReady) => DeferredTells(es, s, r);
    case Fire(r, NoNode) => NoNodeTells(es, s, r);
    case Fire(r, Node(h, outcome)) => NodeTells(es, s, r, h, outcome);
  }

  lemma {:induction false} RunTells(es: seq<Step>)
    requires Run(es).Some?
    ensures Tells(es, Run(es).value)
  {
    if es != [] {
      hide Inv, Tells, Possible, Next;
      RunTells(Init(es));
      RunKeepsInv(Init(es));
      NextTells(es, Run(Init(es)).value);
    }
  }

  /** In every run: the operations that run are those that were started and have not called back;
      queues are who joined and did not leave, in that order; and exactly those are scheduled, once
      each, that wait to be invoked. */
  lemma StateIsHistory(es: seq<Step>, g: Group, r: Req)
    requires Run(es).Some?
    ensures var s := Run(es).value;
            && s.running == UnderWay(es) && s.called == Issued(es)
            && At(s.joined, g) == JoinedOf(es, g) && At(s.completed, g) == LeftOf(es, g)
            && JoinedOf(es, g) == LeftOf(es, g) + At(s.queues, g)
            && s.scheduled[r] == if Waits(es, r) then 1 else 0
  {
    RunTells(es);
    RunKeepsInv(es);
    var s := Run(es).value;
    hide UnderWay, Issued, JoinedOf, LeftOf, GroupOf, GaveUp, Run;
    QueueTold(es, s, g);
    if r in s.owner {
      QueueTold(es, s, s.owner[r]);
      OwnerAttended(s, r);
    }
  }

  lemma QueueTold(es: seq<Step>, s: State, g: Group)
    requires Inv(s) && TellsQueues(es, s)
    ensures JoinedOf(es, g) == LeftOf(es, g) + At(s.queues, g)
    ensures Head(es, g) == if At(s.queues, g) == [] then None else Some(At(s.queues, g)[0])
  {
    assert GroupInv(s, g);
    hide JoinedOf, LeftOf, GroupOf;
  }

  lemma OwnerAttended(s: State, r: Req)
    requires Inv(s) && r in s.owner
    ensures s.scheduled[r] == if IsFirst(s, r) && r !in s.running then 1 else 0
  {
    assert GroupInv(s, s.owner[r]) && RequestInv(s, r);
  }

  /** So no two operations of a group are under way at once, and one that is under way is the first
      of its group that has not left. */
  lemma OneUnderWay(es: seq<Step>, r: Req, x: Req)
    requires Run(es).Some? && r in UnderWay(es)
    ensures GroupOf(es, r).Some? && Head(es, GroupOf(es, r).value) == Some(r)
    ensures x in UnderWay(es) && GroupOf(es, x) == GroupOf(es, r) ==> x == r
  {
    RunTells(es);
    RunKeepsInv(es);
    MutualExclusion(es, r, x);
    var s := Run(es).value;
    hide UnderWay, JoinedOf, LeftOf, GroupOf, Run, Inv;
    QueueTold(es, s, s.owner[r]);
  }
}
