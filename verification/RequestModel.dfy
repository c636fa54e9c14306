/** Requests on nodes: requests of one queue group run one at a time, in the order in which they
    joined the group's queue.  Callbacks may fire in any order and at any time. */
module RequestModel {
  import opened Wrappers

  type Req = nat
  type Group = nat

  /** What `_invoke` finds: first up to joining a queue, then, for the first of its queue. */
  datatype Found =
    | ManagerNotReady
    | NoNode
    | Node(group: Group, outcome: Outcome)

  /** The operation is not ready, cannot start or ends at once, or is started and will call
      back later. */
  datatype Outcome = NotReady | Ends | Starts

  datatype Step =
    | Call(r: Req)                 // the request is issued
    | Fire(r: Req, found: Found)   // a scheduled `_invoke` runs
    | Complete(r: Req)             // a running operation calls back

  /** `owner` is a request's queue group once it has joined a queue; `scheduled` are the
      `_invoke` callbacks in the event queue or in the timer queue.  `joined` and `completed`
      record, per group, who joined and who left the queue. */
  datatype State = State(
    queues: map<Group, seq<Req>>,
    owner: map<Req, Group>,
    scheduled: multiset<Req>,
    running: set<Req>,
    called: set<Req>,
    joined: map<Group, seq<Req>>,
    completed: map<Group, seq<Req>>)

  const INITIAL := State(map[], map[], multiset{}, {}, {}, map[], map[])

  function At(m: map<Group, seq<Req>>, g: Group): seq<Req> {
    if g in m then m[g] else []
  }

  /** `deque.remove`: without the first occurrence. */
  function Remove(q: seq<Req>, r: Req): seq<Req> {
    if q == [] then [] else if q[0] == r then q[1..] else [q[0]] + Remove(q[1..], r)
  }

  function Join(s: State, r: Req, g: Group): State {
    if r in s.owner then s
    else s.(queues := s.queues[g := At(s.queues, g) + [r]],
            owner := s.owner[r := g],
            joined := s.joined[g := At(s.joined, g) + [r]])
  }

  function Schedule(s: State, r: Req): State {
    s.(scheduled := s.scheduled + multiset{r})
  }

  /** The end of a request: it leaves its queue, and the next in the queue is scheduled.  Nothing
      happens when it joined none, or left it before: then removing it raises an error. */
  function DoneRun(s: State, r: Req): State {
    if r !in s.owner || r !in At(s.queues, s.owner[r]) then s
    else
      var g := s.owner[r];
      var q := Remove(At(s.queues, g), r);
      var s1 := s.(queues := s.queues[g := q],
                   completed := s.completed[g := At(s.completed, g) + [r]],
                   running := s.running - {r});
      if q == [] then s1 else Schedule(s1, q[0])
  }

  predicate IsFirst(s: State, r: Req)
    requires r in s.owner
  {
    At(s.queues, s.owner[r]) != [] && At(s.queues, s.owner[r])[0] == r
  }

  /** The first of its queue goes on; the others wait to be scheduled by their predecessor. */
  function InvokeQueued(s: State, r: Req, outcome: Outcome): State
    requires r in s.owner
  {
    if !IsFirst(s, r) then s
    else
      match outcome
      case NotReady => Schedule(s, r)
      case Ends => DoneRun(s, r)
      case Starts => s.(running := s.running + {r})
  }

  function Invoke(s: State, r: Req, found: Found): State {
    match found
    case ManagerNotReady => Schedule(s, r)
    case NoNode => DoneRun(s, r)
    case Node(g, outcome) => InvokeQueued(Join(s, r, g), r, outcome)
  }

  predicate Possible(s: State, e: Step) {
    match e
    case Call(r) => r !in s.called
    case Fire(r, _) => r in s.scheduled
    case Complete(r) => r in s.running
  }

  function Next(s: State, e: Step): State {
    match e
    case Call(r) => Schedule(s.(called := s.called + {r}), r)
    case Fire(r, found) => Invoke(s.(scheduled := s.scheduled - multiset{r}), r, found)
    case Complete(r) => DoneRun(s, r)
  }

  lemma FireIs(s: State, r: Req, found: Found)
    ensures
      var s1 := s.(scheduled := s.scheduled - multiset{r});
      Next(s, Fire(r, found)) ==
        match found
        case ManagerNotReady => Schedule(s1, r)
        case NoNode => DoneRun(s1, r)
        case Node(g, outcome) => InvokeQueued(Join(s1, r, g), r, outcome)
  {
  }

  /** The state after a run in which every step was possible. */
  function Run(es: seq<Step>): Option<State> {
    if es == [] then Some(INITIAL)
    else
      match Run(es[..|es| - 1])
      case None => None
      case Some(s) => if Possible(s, es[|es| - 1]) then Some(Next(s, es[|es| - 1])) else None
  }

  // ---------- what holds in every run

  ghost predicate NoDuplicates(q: seq<Req>) {
    forall i, j | 0 <= i < j < |q| :: q[i] != q[j]
  }

  /** Either the request's operation is running, or exactly one `_invoke` of it is scheduled. */
  ghost predicate Attended(s: State, r: Req) {
    if r in s.running then s.scheduled[r] == 0 else s.scheduled[r] == 1
  }

  /** A queue whose head is attended and whose other requests wait. */
  ghost predicate QueueInv(s: State, q: seq<Req>) {
    && (q != [] ==> Attended(s, q[0]))
    && (forall i | 1 <= i < |q| :: s.scheduled[q[i]] == 0 && q[i] !in s.running)
  }

  /** Those who joined are those who left and then those in the queue; nobody joined twice. */
  ghost predicate HistoryInv(s: State, g: Group, q: seq<Req>, joined: seq<Req>, completed: seq<Req>) {
    && joined == completed + q && NoDuplicates(joined)
    && (forall i | 0 <= i < |joined| :: joined[i] in s.owner && s.owner[joined[i]] == g)
  }

  ghost predicate GroupInv(s: State, g: Group) {
    && QueueInv(s, At(s.queues, g))
    && HistoryInv(s, g, At(s.queues, g), At(s.joined, g), At(s.completed, g))
  }

  ghost predicate RequestInv(s: State, r: Req) {
    && (r in s.owner ==> r in s.called)
    && s.scheduled[r] <= 1
    && (r in s.scheduled ==> r in s.called && r !in s.running && (r in s.owner ==> IsFirst(s, r)))
    && (r in s.running ==> r in s.owner && IsFirst(s, r))
  }

  ghost predicate Inv(s: State) {
    (forall g :: GroupInv(s, g)) && (forall r :: RequestInv(s, r))
  }

  /** Between taking a callback off the schedule and having run it. */
  ghost predicate Firing(s: State, r: Req) {
    && r in s.called && r !in s.scheduled && r !in s.running
    && Inv(Schedule(s, r))
  }

  lemma QueueOwned(s: State, g: Group)
    requires GroupInv(s, g)
    ensures NoDuplicates(At(s.queues, g))
    ensures forall i | 0 <= i < |At(s.queues, g)| ::
              At(s.queues, g)[i] in s.owner && s.owner[At(s.queues, g)[i]] == g
  {
    var q, n := At(s.queues, g), |At(s.completed, g)|;
    assert forall i | 0 <= i < |q| :: q[i] == At(s.joined, g)[n + i];
  }

  /** A step that only touches the queue of group `g`, and the callbacks and running operations
      of requests that are `own` or in that queue, keeps the invariant of every other group. */
  lemma OtherGroups(s: State, s': State, g: Group, own: Req, h: Group)
    requires GroupInv(s, h) && GroupInv(s, g) && h != g
    requires own in s.owner ==> s.owner[own] == g
    requires At(s'.queues, h) == At(s.queues, h) && At(s'.joined, h) == At(s.joined, h)
    requires At(s'.completed, h) == At(s.completed, h)
    requires forall x | x in s.owner :: x in s'.owner && s'.owner[x] == s.owner[x]
    requires forall x | x != own && (x in s.owner ==> s.owner[x] != g) ::
               s'.scheduled[x] == s.scheduled[x] && (x in s'.running <==> x in s.running)
    ensures GroupInv(s', h)
  {
    QueueOwned(s, h);
  }

  lemma DoneRunKeepsOwnQueue(s: State, start: State, r: Req)
    requires r in s.owner && IsFirst(s, r) && QueueInv(start, At(s.queues, s.owner[r]))
    requires NoDuplicates(At(s.queues, s.owner[r]))
    requires start == s || (start == Schedule(s, r) && r !in s.scheduled)
    requires r in s.running <==> start == s
    ensures At(DoneRun(s, r).queues, s.owner[r]) == At(s.queues, s.owner[r])[1..]
    ensures QueueInv(DoneRun(s, r), At(s.queues, s.owner[r])[1..])
  {
    var q := At(s.queues, s.owner[r]);
    assert Remove(q, r) == q[1..];
  }

  /** The first of the queue leaves it. */
  lemma LeftHistory(s: State, s': State, g: Group, q: seq<Req>, joined: seq<Req>, completed: seq<Req>)
    requires HistoryInv(s, g, q, joined, completed) && q != [] && s'.owner == s.owner
    ensures HistoryInv(s', g, q[1..], joined, completed + [q[0]])
  {
    hide NoDuplicates;
    assert q == [q[0]] + q[1..];
  }

  lemma DoneRunKeepsOwnGroup(s: State, start: State, r: Req)
    requires r in s.owner && IsFirst(s, r) && GroupInv(start, s.owner[r])
    requires start == s || (start == Schedule(s, r) && r !in s.scheduled)
    requires r in s.running <==> start == s
    ensures GroupInv(DoneRun(s, r), s.owner[r])
  {
    hide NoDuplicates, HistoryInv, QueueInv;
    var g := s.owner[r];
    QueueOwned(start, g);
    DoneRunKeepsOwnQueue(s, start, r);
    LeftHistory(start, DoneRun(s, r), g, At(s.queues, g), At(s.joined, g), At(s.completed, g));
  }

  lemma UnqueuedKeepsGroup(s: State, r: Req, h: Group)
    requires GroupInv(Schedule(s, r), h) && r !in s.owner
    ensures GroupInv(s, h)
  {
    QueueOwned(Schedule(s, r), h);
  }

  lemma DoneRunKeepsGroups(s: State, start: State, r: Req, h: Group)
    requires forall g :: GroupInv(start, g)
    requires start == s || (start == Schedule(s, r) && r !in s.scheduled)
    requires r in s.running <==> start == s
    requires r in s.owner ==> IsFirst(s, r)
    ensures GroupInv(DoneRun(s, r), h)
  {
    if r !in s.owner {
      if start != s {
        UnqueuedKeepsGroup(s, r, h);
      }
    } else if h == s.owner[r] {
      DoneRunKeepsOwnGroup(s, start, r);
    } else {
      DoneRunKeepsOtherGroup(s, start, r, h);
    }
  }

  lemma DoneRunOfFirst(s: State, r: Req)
    requires r in s.owner && IsFirst(s, r)
    ensures
      var q := At(s.queues, s.owner[r]);
      var left := s.(queues := s.queues[s.owner[r] := q[1..]],
                     completed := s.completed[s.owner[r] := At(s.completed, s.owner[r]) + [r]],
                     running := s.running - {r});
      DoneRun(s, r) == if |q| == 1 then left else Schedule(left, q[1])
  {
    var q := At(s.queues, s.owner[r]);
    assert Remove(q, r) == q[1..];
  }

  lemma DoneRunKeepsOtherGroup(s: State, start: State, r: Req, h: Group)
    requires GroupInv(start, h)
    requires start == s || start == Schedule(s, r)
    requires r in s.owner && h != s.owner[r] && IsFirst(s, r) && GroupInv(start, s.owner[r])
    ensures GroupInv(DoneRun(s, r), h)
  {
    hide GroupInv, DoneRun, NoDuplicates;
    QueueOwned(start, s.owner[r]);
    DoneRunOfFirst(s, r);
    OtherGroups(start, DoneRun(s, r), s.owner[r], r, h);
  }

  /** A request of the group of the one that ends. */
  lemma DoneRunKeepsGroupMember(s: State, start: State, r: Req, x: Req)
    requires start == s || (start == Schedule(s, r) && r !in s.scheduled)
    requires r in s.running <==> start == s
    requires r in s.owner && x in s.owner && s.owner[x] == s.owner[r] && IsFirst(s, r)
    requires RequestInv(start, x) && QueueInv(start, At(s.queues, s.owner[r]))
    requires NoDuplicates(At(s.queues, s.owner[r]))
    ensures RequestInv(DoneRun(s, r), x)
  {
    var q := At(s.queues, s.owner[r]);
    assert Remove(q, r) == q[1..];
  }

  /** A request of another group, or of none. */
  lemma DoneRunKeepsStranger(s: State, start: State, r: Req, x: Req)
    requires start == s || start == Schedule(s, r)
    requires r in s.owner && (x in s.owner ==> s.owner[x] != s.owner[r]) && IsFirst(s, r)
    requires RequestInv(start, x)
    requires forall i | 0 <= i < |At(s.queues, s.owner[r])| :: At(s.queues, s.owner[r])[i] != x
    ensures RequestInv(DoneRun(s, r), x)
  {
    var q := At(s.queues, s.owner[r]);
    assert Remove(q, r) == q[1..];
  }

  lemma DoneRunKeepsRequests(s: State, start: State, r: Req, x: Req)
    requires Inv(start)
    requires start == s || (start == Schedule(s, r) && r !in s.scheduled)
    requires r in s.running <==> start == s
    requires r in s.owner ==> IsFirst(s, r)
    ensures RequestInv(DoneRun(s, r), x)
  {
    hide QueueInv, HistoryInv, NoDuplicates, Remove;
    assert RequestInv(start, x);
    if r in s.owner {
      QueueOwned(start, s.owner[r]);
      if x in s.owner && s.owner[x] == s.owner[r] {
        DoneRunKeepsGroupMember(s, start, r, x);
      } else {
        DoneRunKeepsStranger(s, start, r, x);
      }
    }
  }

  lemma DoneRunKeepsInv(s: State, r: Req)
    requires Firing(s, r) || (Inv(s) && r in s.running)
    requires r in s.owner ==> IsFirst(s, r)
    ensures Inv(DoneRun(s, r))
  {
    var start := if r in s.running then s else Schedule(s, r);
    forall g ensures GroupInv(DoneRun(s, r), g) {
      DoneRunKeepsGroups(s, start, r, g);
    }
    forall x ensures RequestInv(DoneRun(s, r), x) {
      DoneRunKeepsRequests(s, start, r, x);
    }
  }

  lemma JoinKeepsOwnGroup(s: State, r: Req, g: Group)
    requires GroupInv(Schedule(s, r), g) && r !in s.owner && r !in s.scheduled && r !in s.running
    ensures var s1 := Join(s, r, g);
            GroupInv(if IsFirst(s1, r) then Schedule(s1, r) else s1, g)
  {
    var s1, q := Join(s, r, g), At(s.queues, g);
    QueueOwned(Schedule(s, r), g);
    assert r !in q;
    hide QueueInv, HistoryInv, NoDuplicates;
    assert At(s1.queues, g) == q + [r] && At(s1.joined, g) == At(s.joined, g) + [r];
    assert At(s1.completed, g) == At(s.completed, g);
    var goal := if q == [] then Schedule(s1, r) else s1;
    assert IsFirst(s1, r) <==> q == [];
    JoinedQueue(Schedule(s, r), goal, r, q);
    JoinedHistory(Schedule(s, r), goal, r, g);
  }

  lemma JoinedQueue(start: State, goal: State, r: Req, q: seq<Req>)
    requires QueueInv(start, q) && r !in q && r !in start.running
    requires start.scheduled[r] == 1
    requires goal.scheduled == (if q == [] then start.scheduled else start.scheduled - multiset{r})
    requires goal.running == start.running
    ensures QueueInv(goal, q + [r])
  {
    assert forall i | 0 <= i < |q| :: goal.scheduled[q[i]] == start.scheduled[q[i]];
  }

  lemma JoinedHistory(start: State, goal: State, r: Req, g: Group)
    requires HistoryInv(start, g, At(start.queues, g), At(start.joined, g), At(start.completed, g))
    requires r !in start.owner && goal.owner == start.owner[r := g]
    ensures HistoryInv(goal, g, At(start.queues, g) + [r], At(start.joined, g) + [r], At(start.completed, g))
  {
    AppendKeepsDistinct(At(start.joined, g), r);
    hide NoDuplicates;
  }

  lemma AppendKeepsDistinct(q: seq<Req>, r: Req)
    requires NoDuplicates(q) && r !in q
    ensures NoDuplicates(q + [r])
  {
  }

  lemma JoinKeepsRequests(s: State, r: Req, g: Group, x: Req)
    requires Firing(s, r) && r !in s.owner
    ensures var s1 := Join(s, r, g);
            RequestInv(if IsFirst(s1, r) then Schedule(s1, r) else s1, x)
  {
    var start := Schedule(s, r);
    assert RequestInv(start, x) && RequestInv(start, r);
    QueueOwned(start, g);
    if x in s.owner {
      QueueOwned(start, s.owner[x]);
    }
  }

  lemma JoinKeepsFiring(s: State, r: Req, g: Group)
    requires Firing(s, r)
    ensures var s1 := Join(s, r, g);
            && r in s1.owner && (IsFirst(s1, r) ==> Firing(s1, r)) && (!IsFirst(s1, r) ==> Inv(s1))
  {
    var start, s1 := Schedule(s, r), Join(s, r, g);
    assert RequestInv(start, r);
    if r !in s.owner {
      var goal := if IsFirst(s1, r) then Schedule(s1, r) else s1;
      forall h ensures GroupInv(goal, h) {
        if h == g {
          JoinKeepsOwnGroup(s, r, g);
        } else {
          OtherGroups(start, goal, g, r, h);
        }
      }
      forall x ensures RequestInv(goal, x) {
        JoinKeepsRequests(s, r, g, x);
      }
    }
  }

  lemma StartKeepsInv(s: State, r: Req)
    requires Firing(s, r) && r in s.owner && IsFirst(s, r)
    ensures Inv(s.(running := s.running + {r}))
  {
    var start, s' := Schedule(s, r), s.(running := s.running + {r});
    forall g ensures GroupInv(s', g) {
      QueueOwned(start, g);
    }
    forall x ensures RequestInv(s', x) {
      assert RequestInv(start, x);
    }
  }

  lemma CallKeepsInv(s: State, r: Req)
    requires Inv(s) && r !in s.called
    ensures Inv(Next(s, Call(r)))
  {
    var s' := Next(s, Call(r));
    assert RequestInv(s, r);
    forall g ensures GroupInv(s', g) {
      QueueOwned(s, g);
      assert forall x | x in s.owner :: x != r;
    }
    forall x ensures RequestInv(s', x) {
      assert RequestInv(s, x);
    }
  }

  lemma FireIsFiring(s: State, r: Req)
    requires Inv(s) && r in s.scheduled
    ensures Firing(s.(scheduled := s.scheduled - multiset{r}), r)
    ensures r in s.owner ==> IsFirst(s, r)
  {
    assert RequestInv(s, r);
    assert Schedule(s.(scheduled := s.scheduled - multiset{r}), r) == s;
  }

  lemma NextKeepsInv(s: State, e: Step)
    requires Inv(s) && Possible(s, e)
    ensures Inv(Next(s, e))
  {
    hide Inv, Firing, Join, DoneRun;
    match e
    case Call(r) => CallKeepsInv(s, r);
    case Complete(r) =>
      RunningIsFirst(s, r);
      DoneRunKeepsInv(s, r);
    case Fire(r, found) =>
      FireIsFiring(s, r);
      var s0 := s.(scheduled := s.scheduled - multiset{r});
      match found
      case ManagerNotReady => FiringCanWait(s0, r);
      case NoNode => DoneRunKeepsInv(s0, r);
      case Node(g, outcome) =>
        JoinKeepsFiring(s0, r, g);
        var s1 := Join(s0, r, g);
        if IsFirst(s1, r) {
          match outcome
          case NotReady => FiringCanWait(s1, r);
          case Ends => DoneRunKeepsInv(s1, r);
          case Starts => StartKeepsInv(s1, r);
        }
  }

  lemma RunningIsFirst(s: State, r: Req)
    requires Inv(s) && r in s.running
    ensures r in s.owner && IsFirst(s, r)
  {
    assert RequestInv(s, r);
  }

  lemma FiringCanWait(s: State, r: Req)
    requires Firing(s, r)
    ensures Inv(Schedule(s, r))
  {
  }

  /** The invariant holds in every state of every run. */
  lemma {:induction false} RunKeepsInv(es: seq<Step>)
    requires Run(es).Some?
    ensures Inv(Run(es).value)
  {
    if es != [] {
      RunKeepsInv(es[..|es| - 1]);
      NextKeepsInv(Run(es[..|es| - 1]).value, es[|es| - 1]);
    }
  }

  /** At most one operation of a group runs at any time, and it is that of the queue's head. */
  lemma MutualExclusion(es: seq<Step>, r: Req, x: Req)
    requires Run(es).Some?
    ensures var s := Run(es).value;
            && (r in s.running ==> r in s.owner && IsFirst(s, r))
            && (r in s.running && x in s.running ==>
                  r in s.owner && x in s.owner && (s.owner[r] == s.owner[x] ==> r == x))
  {
    RunKeepsInv(es);
    var s := Run(es).value;
    assert RequestInv(s, r) && RequestInv(s, x);
  }

  /** No lost wake-up: the head of a queue is running, or has exactly one `_invoke` scheduled;
      the others have none, so nothing runs out of turn. */
  lemma NoLostWakeUp(es: seq<Step>, g: Group)
    requires Run(es).Some?
    ensures var s, q := Run(es).value, At(Run(es).value.queues, g);
            && (q != [] ==> (q[0] in s.running && s.scheduled[q[0]] == 0) || (q[0] !in s.running && s.scheduled[q[0]] == 1))
            && (q != [] ==> Possible(s, Complete(q[0])) || forall found :: Possible(s, Fire(q[0], found)))
            && (forall i | 1 <= i < |q| :: q[i] !in s.running && q[i] !in s.scheduled)
  {
    RunKeepsInv(es);
    assert GroupInv(Run(es).value, g);
  }

  /** Requests leave a queue once each, in the order in which they joined it. */
  lemma FirstComeFirstServed(es: seq<Step>, g: Group)
    requires Run(es).Some?
    ensures var s := Run(es).value;
            && At(s.completed, g) <= At(s.joined, g) && NoDuplicates(At(s.joined, g))
            && At(s.joined, g)[|At(s.completed, g)|..] == At(s.queues, g)
  {
    RunKeepsInv(es);
    assert GroupInv(Run(es).value, g);
  }

  /** When nothing is scheduled and nothing runs, every request that joined a queue has left it. */
  lemma QuiescentMeansServed(es: seq<Step>, g: Group)
    requires Run(es).Some? && Run(es).value.scheduled == multiset{} && Run(es).value.running == {}
    ensures At(Run(es).value.completed, g) == At(Run(es).value.joined, g)
  {
    RunKeepsInv(es);
    assert GroupInv(Run(es).value, g);
  }
}
