/** The request queues and the methods of requests, on objects. */
module RequestDispatch {
  import opened RequestModel
  import opened Wrappers

  class RequestQueue {
    var deq: seq<Req>

    constructor ()
      ensures deq == []
    {
      deq := [];
    }

    method Add(r: Req)
      modifies this
      ensures deq == old(deq) + [r]
    {
      deq := deq + [r];
    }

    /** Takes the request out; the new head, if any, is to be invoked.  Fails when the request is
        not in the queue. */
    method DoneRequest(r: Req) returns (removed: bool, next: Option<Req>)
      modifies this
      ensures removed <==> r in old(deq)
      ensures deq == if removed then Remove(old(deq), r) else old(deq)
      ensures next == if removed && deq != [] then Some(deq[0]) else None
    {
      removed, next := r in deq, None;
      if removed {
        deq := Remove(deq, r);
        next := if |deq| > 0 then Some(deq[0]) else None;
      }
    }
  }

  lemma JoinIs(s: State, r: Req, g: Group)
    requires r !in s.owner
    ensures
      var q := s.queues[g := At(s.queues, g)];
      Join(s, r, g) == s.(queues := q[g := At(q, g) + [r]],
                          owner := s.owner[r := g],
                          joined := s.joined[g := At(s.joined, g) + [r]])
  {
    var q := s.queues[g := At(s.queues, g)];
    assert q[g := At(q, g) + [r]] == s.queues[g := At(s.queues, g) + [r]];
  }

  lemma JoinedAlready(s: State, r: Req, g: Group)
    ensures r in s.owner ==> Join(s, r, g) == s
  {
  }

  /** A manager with its queues, and its requests' fields and callbacks. */
  class Manager {
    var requestQueue: map<Group, RequestQueue>
    var owner: map<Req, Group>
    var scheduled: multiset<Req>
    var running: set<Req>
    var called: set<Req>
    ghost var joined: map<Group, seq<Req>>
    ghost var completed: map<Group, seq<Req>>

    ghost predicate Valid()
      reads this
    {
      && (forall g, h | g in requestQueue && h in requestQueue && g != h :: requestQueue[g] != requestQueue[h])
      && (forall r | r in owner :: owner[r] in requestQueue)
    }

    ghost function Queues(): map<Group, seq<Req>>
      reads this`requestQueue, requestQueue.Values
    {
      map g | g in requestQueue :: requestQueue[g].deq
    }

    ghost function S(): State
      reads this, requestQueue.Values
    {
      State(Queues(), owner, scheduled, running, called, joined, completed)
    }

    constructor ()
      ensures Valid() && S() == INITIAL
    {
      requestQueue, owner, scheduled, running, called := map[], map[], multiset{}, {}, {};
      joined, completed := map[], map[];
    }

    /** The group's queue, created empty when it is not there. */
    method EnsureQueue(g: Group)
      requires Valid()
      modifies this`requestQueue
      ensures Valid() && g in requestQueue && fresh(requestQueue.Values - old(requestQueue.Values))
      ensures Queues() == old(Queues())[g := At(old(Queues()), g)]
    {
      if g !in requestQueue {
        var q := new RequestQueue();
        requestQueue := requestQueue[g := q];
      }
    }

    method AddTo(g: Group, r: Req)
      requires Valid() && g in requestQueue
      modifies requestQueue[g]
      ensures Valid() && Queues() == old(Queues())[g := At(old(Queues()), g) + [r]]
    {
      requestQueue[g].Add(r);
    }

    method AddToGroup(g: Group, r: Req)
      requires Valid()
      modifies this`requestQueue, requestQueue.Values
      ensures Valid() && g in requestQueue && fresh(requestQueue.Values - old(requestQueue.Values))
      ensures var q := old(Queues())[g := At(old(Queues()), g)];
              Queues() == q[g := At(q, g) + [r]]
    {
      hide At;
      EnsureQueue(g);
      AddTo(g, r);
    }

    /** `get_request_queue`: joins the queue of the node's group, unless it has joined one. */
    method JoinQueue(r: Req, g: Group)
      requires Valid()
      modifies this, requestQueue.Values
      ensures Valid() && r in owner && S() == Join(old(S()), r, g) && fresh(requestQueue.Values - old(requestQueue.Values))
    {
      hide Queues, At, Join;
      JoinedAlready(S(), r, g);
      if r in owner {
        return;
      }
      JoinIs(S(), r, g);
      AddToGroup(g, r);
      owner := owner[r := g];
      joined := joined[g := At(joined, g) + [r]];
    }

    method IsFirstOfQueue(r: Req) returns (first: bool)
      requires Valid() && r in owner
      ensures first == IsFirst(S(), r)
    {
      var q := requestQueue[owner[r]];
      first := q.deq != [] && q.deq[0] == r;
    }

    method Leave(g: Group, r: Req) returns (removed: bool, next: Option<Req>)
      requires Valid() && g in requestQueue
      modifies requestQueue[g]
      ensures Valid()
      ensures var q := At(old(Queues()), g);
              && (removed <==> r in q)
              && Queues() == (if removed then old(Queues())[g := Remove(q, r)] else old(Queues()))
              && (removed ==> next == if Remove(q, r) == [] then None else Some(Remove(q, r)[0]))
    {
      hide Remove;
      removed, next := requestQueue[g].DoneRequest(r);
    }

    method DoneRun(r: Req)
      requires Valid()
      modifies this, requestQueue.Values
      ensures Valid() && S() == RequestModel.DoneRun(old(S()), r) && requestQueue == old(requestQueue)
    {
      hide Remove, Queues;
      if r in owner {
        var g := owner[r];
        var removed, next := Leave(g, r);
        if !removed {
          return;
        }
        completed := completed[g := At(completed, g) + [r]];
        running := running - {r};
        if next.Some? {
          scheduled := scheduled + multiset{next.value};
        }
      }
    }

    method InvokeQueuedRequest(r: Req, outcome: Outcome)
      requires Valid() && r in owner
      modifies this, requestQueue.Values
      ensures Valid() && S() == InvokeQueued(old(S()), r, outcome) && requestQueue == old(requestQueue)
    {
      hide Remove, RequestModel.DoneRun, Queues;
      var first := IsFirstOfQueue(r);
      if first {
        match outcome {
          case NotReady => scheduled := scheduled + multiset{r};
          case Ends => DoneRun(r);
          case Starts => running := running + {r};
        }
      }
    }

    /** The part of an invocation after the node was found. */
    method InvokeOnNode(r: Req, g: Group, outcome: Outcome)
      requires Valid()
      modifies this, requestQueue.Values
      ensures Valid() && S() == InvokeQueued(Join(old(S()), r, g), r, outcome)
      ensures fresh(requestQueue.Values - old(requestQueue.Values))
    {
      hide Remove, Join, RequestModel.DoneRun, InvokeQueued, Queues, At;
      JoinQueue(r, g);
      InvokeQueuedRequest(r, outcome);
    }

    method Defer(r: Req)
      requires Valid()
      modifies this`scheduled
      ensures Valid() && S() == Schedule(old(S()), r)
    {
      scheduled := scheduled + multiset{r};
    }

    method Take(r: Req)
      requires Valid()
      modifies this`scheduled
      ensures Valid() && S() == old(S()).(scheduled := old(S()).scheduled - multiset{r})
    {
      scheduled := scheduled - multiset{r};
    }

    /** A scheduled `_invoke` of a request runs. */
    method Invoke(r: Req, found: Found)
      requires Valid() && r in scheduled
      modifies this, requestQueue.Values
      ensures Valid() && S() == Next(old(S()), Fire(r, found))
      ensures fresh(requestQueue.Values - old(requestQueue.Values))
    {
      hide Remove, Join, RequestModel.DoneRun, InvokeQueued, Queues, S, Next, RequestModel.Invoke;
      FireIs(S(), r, found);
      Take(r);
      match found {
        case ManagerNotReady =>
          Defer(r);
        case NoNode =>
          DoneRun(r);
        case Node(g, outcome) =>
          InvokeOnNode(r, g, outcome);
      }
    }

    /** Notes the call, and schedules the first `_invoke`. */
    method Call(r: Req)
      requires Valid()
      modifies this`called, this`scheduled
      ensures Valid() && r in scheduled && S() == Next(old(S()), Step.Call(r))
    {
      called := called + {r};
      scheduled := scheduled + multiset{r};
    }

    /** The request is issued: it is scheduled, or, on the dispatch thread, invoked at once, which
        is the same as if it had been scheduled and came next. */
    method Issue(r: Req, dispatchThread: bool, found: Found)
      requires Valid()
      modifies this, requestQueue.Values
      ensures Valid() && fresh(requestQueue.Values - old(requestQueue.Values))
      ensures var issued := Next(old(S()), Step.Call(r));
              S() == if dispatchThread then Next(issued, Fire(r, found)) else issued
    {
      hide Next, Queues, S;
      Call(r);
      if dispatchThread {
        Invoke(r, found);
      }
    }

    /** A running operation calls back. */
    method OperationDone(r: Req)
      requires Valid() && r in running
      modifies this, requestQueue.Values
      ensures Valid() && S() == Next(old(S()), Complete(r)) && requestQueue == old(requestQueue)
    {
      DoneRun(r);
    }
  }
}
