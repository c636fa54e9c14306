/** The event queue as a monitor: each step is what one thread does while it holds the lock. */
module EventQueue {
  import opened Wrappers

  type Event = nat

  /** Where the dispatch thread is. A waiting thread that was woken up is `Woken` until it has the
      lock again. */
  datatype Thread = Ready | Waiting | Woken | Dispatching(e: Event) | Exited

  datatype State = State(
    queue: seq<Event>,
    isWaiting: bool,
    isShutdown: bool,
    thread: Thread,
    accepted: seq<Event>,
    dispatched: seq<Event>)

  const INITIAL := State([], false, false, Ready, [], [])

  datatype Step =
    | Take                  // the dispatch thread looks for an event
    | Finish                // it has called the event
    | Wake                  // it is woken up for no reason
    | InvokeLater(e: Event) // any thread posts an event
    | Shutdown

  function Notify(s: State): State {
    if s.isWaiting
    then s.(isWaiting := false, thread := if s.thread.Waiting? then Woken else s.thread)
    else s
  }

  function TakeNext(s: State): State {
    if s.queue != [] then s.(queue := s.queue[1..], thread := Dispatching(s.queue[0]))
    else if s.isShutdown then s.(thread := Exited)
    else s.(isWaiting := true, thread := Waiting)
  }

  predicate Possible(s: State, step: Step) {
    match step
    case Take => s.thread.Ready? || s.thread.Woken?
    case Finish => s.thread.Dispatching?
    case Wake => s.thread.Waiting?
    case InvokeLater(_) => true
    case Shutdown => true
  }

  function Next(s: State, step: Step): State {
    match step
    case Take => TakeNext(s)
    case Finish =>
      if s.thread.Dispatching? then s.(thread := Ready, dispatched := s.dispatched + [s.thread.e]) else s
    case Wake => s.(thread := Woken)
    case InvokeLater(e) =>
      if s.isShutdown then s else Notify(s.(queue := s.queue + [e], accepted := s.accepted + [e]))
    case Shutdown => Notify(s.(isShutdown := true))
  }

  function Run(steps: seq<Step>): Option<State> {
    if steps == [] then Some(INITIAL)
    else
      match Run(steps[..|steps| - 1])
      case None => None
      case Some(s) =>
        if Possible(s, steps[|steps| - 1]) then Some(Next(s, steps[|steps| - 1])) else None
  }

  function InHand(s: State): seq<Event> {
    if s.thread.Dispatching? then [s.thread.e] else []
  }

  ghost predicate Inv(s: State) {
    && (s.thread.Waiting? ==> s.isWaiting && s.queue == [] && !s.isShutdown)
    && (s.thread.Exited? ==> s.isShutdown && s.queue == [])
    && s.accepted == s.dispatched + InHand(s) + s.queue
  }

  lemma NextKeepsInv(s: State, step: Step)
    requires Inv(s) && Possible(s, step)
    ensures Inv(Next(s, step))
  {
    match step
    case Take =>
      if s.queue != [] {
        assert s.queue == [s.queue[0]] + s.queue[1..];
      }
    case Finish =>
    case Wake =>
    case InvokeLater(e) =>
      if !s.isShutdown {
        assert s.accepted + [e] == s.dispatched + InHand(s) + (s.queue + [e]);
      }
    case Shutdown =>
  }

  lemma {:induction false} RunKeepsInv(steps: seq<Step>)
    requires Run(steps).Some?
    ensures Inv(Run(steps).value)
  {
    if steps != [] {
      RunKeepsInv(steps[..|steps| - 1]);
      NextKeepsInv(Run(steps[..|steps| - 1]).value, steps[|steps| - 1]);
    }
  }

  /** No lost wake-up: a dispatch thread that waits without having been woken up has nothing to
      do, and whoever gives it something to do will see that it waits. */
  lemma WaitingMeansIdle(steps: seq<Step>)
    requires Run(steps).Some? && Run(steps).value.thread.Waiting?
    ensures Run(steps).value.queue == [] && !Run(steps).value.isShutdown && Run(steps).value.isWaiting
    ensures forall e :: Next(Run(steps).value, InvokeLater(e)).thread.Woken?
    ensures Next(Run(steps).value, Shutdown).thread.Woken?
  {
    RunKeepsInv(steps);
  }

  /** The events that were posted before the first shutdown, in that order. */
  function Posted(steps: seq<Step>): seq<Event> {
    if steps == [] then []
    else
      var before := steps[..|steps| - 1];
      match steps[|steps| - 1]
      case InvokeLater(e) => if Shutdown in before then Posted(before) else Posted(before) + [e]
      case _ => Posted(before)
  }

  /** How many calls of events the dispatch thread has finished. */
  function Finished(steps: seq<Step>): nat {
    if steps == [] then 0
    else Finished(steps[..|steps| - 1]) + if steps[|steps| - 1].Finish? then 1 else 0
  }

  lemma {:induction false} RunIsHistory(steps: seq<Step>)
    requires Run(steps).Some?
    ensures var s := Run(steps).value;
            && s.accepted == Posted(steps) && |s.dispatched| == Finished(steps)
            && (s.isShutdown <==> Shutdown in steps)
  {
    if steps != [] {
      var before := steps[..|steps| - 1];
      RunIsHistory(before);
      assert steps == before + [steps[|steps| - 1]];
    }
  }

  /** In every run, whatever threads do, the events that were called are the first ones of those
      posted before shutdown, as many as calls were finished; the one in hand is the next; and
      when the thread exits, all have been called. */
  lemma ExactlyOnceInOrder(steps: seq<Step>)
    requires Run(steps).Some?
    ensures var s, n := Run(steps).value, Finished(steps);
            && n <= |Posted(steps)| && s.dispatched == Posted(steps)[..n]
            && (s.thread.Dispatching? ==> n < |Posted(steps)| && s.thread.e == Posted(steps)[n])
            && (s.thread.Exited? ==> Shutdown in steps && n == |Posted(steps)|)
  {
    RunKeepsInv(steps);
    RunIsHistory(steps);
  }

  /** How many steps the dispatch thread still takes once the queue is shut down. */
  function StepsLeft(s: State): nat {
    if s.thread.Exited? then 0 else 2 * |s.queue| + if s.thread.Dispatching? then 2 else 1
  }

  /** After shutdown the thread can always go on until it exits; each of its own steps brings it
      nearer to that, and no step of another thread takes it away. */
  lemma ShutdownDrains(s: State, step: Step)
    requires Inv(s) && s.isShutdown && Possible(s, step)
    ensures Next(s, step).isShutdown && Next(s, step).accepted == s.accepted
    ensures step.Take? || step.Finish? ==> StepsLeft(Next(s, step)) == StepsLeft(s) - 1
    ensures !step.Take? && !step.Finish? ==> StepsLeft(Next(s, step)) == StepsLeft(s)
    ensures s.thread.Exited? || Possible(s, Take) || Possible(s, Finish)
  {
  }

  /** The steps of the dispatch thread in a run. */
  function OwnSteps(steps: seq<Step>): nat {
    if steps == [] then 0
    else OwnSteps(steps[..|steps| - 1]) + if steps[|steps| - 1].Take? || steps[|steps| - 1].Finish? then 1 else 0
  }

  /** So after a shutdown the thread exits, with nothing left behind, once it has taken the
      steps that were left then. */
  lemma {:induction false} ExitsAfterShutdown(before: seq<Step>, after: seq<Step>)
    requires Run(before + after).Some? && Run(before).Some? && Run(before).value.isShutdown
    ensures Run(before + after).value.isShutdown
    ensures StepsLeft(Run(before + after).value) + OwnSteps(after) == StepsLeft(Run(before).value)
    ensures OwnSteps(after) == StepsLeft(Run(before).value) <==> Run(before + after).value.thread.Exited?
  {
    if after == [] {
      assert before + after == before;
    } else {
      var init := after[..|after| - 1];
      assert (before + after)[..|before + after| - 1] == before + init;
      ExitsAfterShutdown(before, init);
      RunKeepsInv(before + init);
      ShutdownDrains(Run(before + init).value, after[|after| - 1]);
    }
  }

  // ---------- the queue's methods, each under the lock

  class EventDispatcher {
    var queue: seq<Event>
    var isWaiting: bool
    var isShutdown: bool
    var thread: Thread
    ghost var accepted: seq<Event>
    ghost var dispatched: seq<Event>

    ghost function S(): State
      reads this
    {
      State(queue, isWaiting, isShutdown, thread, accepted, dispatched)
    }

    constructor ()
      ensures S() == INITIAL
    {
      queue, isWaiting, isShutdown, thread := [], false, false, Ready;
      accepted, dispatched := [], [];
    }

    /** `notify_all`, for whoever found the thread waiting. */
    method NotifyAll()
      modifies this
      ensures S() == Notify(old(S()))
    {
      if isWaiting {
        isWaiting := false;
        if thread.Waiting? {
          thread := Woken;
        }
      }
    }

    method ShutDown()
      modifies this
      ensures S() == Next(old(S()), Shutdown)
    {
      isShutdown := true;
      NotifyAll();
    }

    /** False stands for the raised RuntimeError. */
    method Post(e: Event) returns (ok: bool)
      modifies this
      ensures ok == !old(isShutdown) && S() == Next(old(S()), InvokeLater(e))
      ensures queue == old(queue) + if ok then [e] else []
      ensures accepted == old(accepted) + if ok then [e] else []
    {
      if isShutdown {
        return false;
      }
      queue := queue + [e];
      accepted := accepted + [e];
      NotifyAll();
      ok := true;
    }

    /** From taking the lock to releasing it: by leaving the block, returning or waiting. */
    method TakeEvent()
      requires Possible(S(), Take)
      modifies this
      ensures S() == Next(old(S()), Take)
    {
      if |queue| == 0 {
        if isShutdown {
          thread := Exited;
          return;
        }
        isWaiting := true;
        thread := Waiting;
        return;
      }
      thread := Dispatching(queue[0]);
      queue := queue[1..];
    }

    method CallEvent()
      requires Possible(S(), Finish)
      modifies this
      ensures S() == Next(old(S()), Finish)
    {
      dispatched := dispatched + [thread.e];
      thread := Ready;
    }
  }
}
