/** Delayed events: a queue sorted by deadline, and the thread that moves due events on. */
module Timers {
  import opened Wrappers

  /** `id` counts the timers; `time` is the deadline in seconds. */
  datatype Timer = Timer(id: nat, time: real)

  predicate Less(a: Timer, b: Timer) {
    a.time < b.time || (a.time == b.time && a.id < b.id)
  }

  function Insert(ts: seq<Timer>, t: Timer): seq<Timer> {
    if ts == [] || Less(t, ts[0]) then [t] + ts else [ts[0]] + Insert(ts[1..], t)
  }

  function Sort(ts: seq<Timer>): seq<Timer> {
    if ts == [] then [] else Insert(Sort(ts[..|ts| - 1]), ts[|ts| - 1])
  }

  ghost predicate Sorted(ts: seq<Timer>) {
    forall i, j | 0 <= i < j < |ts| :: Less(ts[i], ts[j])
  }

  lemma {:induction false} InsertMembers(ts: seq<Timer>, t: Timer)
    ensures forall x :: x in Insert(ts, t) <==> x == t || x in ts
  {
    if ts != [] && !Less(t, ts[0]) {
      InsertMembers(ts[1..], t);
      assert ts == [ts[0]] + ts[1..];
    }
  }

  lemma {:induction false} InsertKeepsSorted(ts: seq<Timer>, t: Timer)
    requires Sorted(ts) && forall x | x in ts :: x.id != t.id
    ensures Sorted(Insert(ts, t))
  {
    if ts != [] && !Less(t, ts[0]) {
      InsertKeepsSorted(ts[1..], t);
      InsertMembers(ts[1..], t);
      assert forall x | x in Insert(ts[1..], t) :: Less(ts[0], x);
    }
  }

  lemma {:induction false} InsertLast(ts: seq<Timer>, t: Timer)
    requires forall x | x in ts :: !Less(t, x)
    ensures Insert(ts, t) == ts + [t]
  {
    if ts != [] {
      InsertLast(ts[1..], t);
    }
  }

  lemma {:induction false} SortOfSorted(ts: seq<Timer>)
    requires Sorted(ts)
    ensures Sort(ts) == ts
  {
    if ts != [] {
      var init, last := ts[..|ts| - 1], ts[|ts| - 1];
      SortOfSorted(init);
      InsertLast(init, last);
      assert ts == init + [last];
    }
  }

  /** Appending to a sorted queue and sorting again is insertion. */
  lemma SortOfAppended(ts: seq<Timer>, t: Timer)
    requires Sorted(ts)
    ensures Sort(ts + [t]) == Insert(ts, t)
  {
    SortOfSorted(ts);
    assert (ts + [t])[..|ts|] == ts;
  }

  // ---------- the timer queue as a monitor

  /** The thread waits without limit, or until a time, or has been woken up, or has left its loop. */
  datatype Thread = Ready | Waiting | WaitingUntil(time: real) | Exited

  /** `alive` is cleared to end the thread, and `open` says whether the event queue takes events.
      `posted` are the timers handed to the event queue, `postedAt` the times at which that
      happened, and `refused` those that the event queue did not take. */
  datatype State = State(
    now: real,
    count: nat,
    timers: seq<Timer>,
    thread: Thread,
    alive: bool,
    open: bool,
    accepted: seq<Timer>,
    posted: seq<Timer>,
    postedAt: seq<real>,
    refused: seq<Timer>)

  /** The clock is read as any time, also an earlier one; the thread looks at the queue; its wait
      is over, perhaps too soon; a caller adds a timer; the event queue is shut down; the thread
      is told to end. */
  datatype Step = Tick(now: real) | Look | TimeOut | Add(delay: int) | Shut | End

  predicate Possible(s: State, step: Step) {
    match step
    case Tick(now) => true
    case Look => s.thread.Ready?
    case TimeOut => s.thread.WaitingUntil?
    case Add(_) => true
    case Shut => true
    case End => true
  }

  /** What a notification does to the thread. */
  function Woken(thread: Thread): Thread {
    if thread.Exited? then Exited else Ready
  }

  function Millis(delay: int): real {
    delay as real / 1000.0
  }

  function LookNext(s: State): State {
    if !s.alive then s.(thread := Exited)
    else if s.timers == [] then s.(thread := Waiting)
    else if s.timers[0].time > s.now then s.(thread := WaitingUntil(s.timers[0].time))
    else if !s.open then s.(timers := s.timers[1..], refused := s.refused + [s.timers[0]], thread := Exited)
    else s.(timers := s.timers[1..], posted := s.posted + [s.timers[0]], postedAt := s.postedAt + [s.now])
  }

  /** A delay that is not positive bypasses the timer queue. */
  function AddNext(s: State, delay: int): State {
    if delay <= 0 then s
    else
      var t := Timer(s.count, s.now + Millis(delay));
      s.(count := s.count + 1, timers := Insert(s.timers, t), thread := Woken(s.thread),
          accepted := s.accepted + [t])
  }

  function Next(s: State, step: Step): State {
    match step
    case Tick(now) => s.(now := now)
    case Look => LookNext(s)
    case TimeOut => s.(thread := Ready)
    case Add(delay) => AddNext(s, delay)
    case Shut => s.(open := false)
    case End => s.(alive := false, thread := Woken(s.thread))
  }

  function Run(start: real, steps: seq<Step>): Option<State> {
    if steps == [] then Some(State(start, 0, [], Ready, true, true, [], [], [], []))
    else
      match Run(start, steps[..|steps| - 1])
      case None => None
      case Some(s) =>
        if Possible(s, steps[|steps| - 1]) then Some(Next(s, steps[|steps| - 1])) else None
  }

  /** Timers are numbered in the order in which they were added. */
  ghost predicate Numbered(s: State) {
    |s.accepted| == s.count && forall i | 0 <= i < s.count :: s.accepted[i].id == i
  }

  /** Each added timer is pending or posted or was refused, and just one of these. */
  ghost predicate Conserved(s: State) {
    multiset(s.accepted) == multiset(s.timers) + multiset(s.posted) + multiset(s.refused)
  }

  /** The thread ends with the first timer that is refused, and waits no more once it is told to end. */
  ghost predicate Ends(s: State) {
    && (s.refused != [] ==> s.thread.Exited? && |s.refused| == 1)
    && (!s.alive ==> s.thread.Ready? || s.thread.Exited?)
  }

  /** The thread never asks to sleep past a deadline. */
  ghost predicate SleepsNoLonger(s: State) {
    && (s.thread.Waiting? ==> s.timers == [])
    && (s.thread.WaitingUntil? ==> s.timers != [] && s.thread.time == s.timers[0].time)
  }

  /** Nothing is posted before its deadline. */
  ghost predicate NotEarly(s: State) {
    |s.postedAt| == |s.posted| && forall i | 0 <= i < |s.posted| :: s.posted[i].time <= s.postedAt[i]
  }

  ghost predicate Inv(s: State) {
    Sorted(s.timers) && Numbered(s) && Conserved(s) && SleepsNoLonger(s) && NotEarly(s) && Ends(s)
  }

  lemma KnownIds(s: State, t: Timer)
    requires Numbered(s) && Conserved(s) && (t in s.timers || t in s.posted)
    ensures t in s.accepted && t.id < s.count
  {
    assert t in multiset(s.accepted);
    var i :| 0 <= i < |s.accepted| && s.accepted[i] == t;
  }

  lemma {:induction false} InsertPermutes(ts: seq<Timer>, t: Timer)
    ensures multiset(Insert(ts, t)) == multiset(ts) + multiset{t}
  {
    if ts != [] && !Less(t, ts[0]) {
      InsertPermutes(ts[1..], t);
      assert ts == [ts[0]] + ts[1..];
    }
  }

  lemma LookKeepsSorted(s: State)
    requires Sorted(s.timers)
    ensures Sorted(LookNext(s).timers)
  {
    hide Less;
  }

  lemma LookKeepsConserved(s: State)
    requires Conserved(s)
    ensures Conserved(LookNext(s))
  {
    if s.timers != [] {
      assert s.timers == [s.timers[0]] + s.timers[1..];
    }
  }

  lemma LookKeepsNotEarly(s: State)
    requires NotEarly(s)
    ensures NotEarly(LookNext(s))
  {
  }

  lemma LookKeepsInv(s: State)
    requires Inv(s) && s.thread.Ready?
    ensures Inv(LookNext(s))
  {
    hide Sorted, Conserved, NotEarly;
    LookKeepsSorted(s);
    LookKeepsConserved(s);
    LookKeepsNotEarly(s);
  }

  lemma AddKeepsSorted(s: State, t: Timer)
    requires Sorted(s.timers) && Numbered(s) && Conserved(s) && t.id == s.count
    ensures Sorted(Insert(s.timers, t))
  {
    hide Sorted, Numbered, Conserved;
    forall x | x in s.timers ensures x.id != t.id {
      KnownIds(s, x);
    }
    InsertKeepsSorted(s.timers, t);
  }

  lemma AddKeepsConserved(s: State, delay: int)
    requires Conserved(s)
    ensures Conserved(AddNext(s, delay))
  {
    if delay > 0 {
      InsertPermutes(s.timers, Timer(s.count, s.now + Millis(delay)));
    }
  }

  lemma AddKeepsInv(s: State, delay: int)
    requires Inv(s)
    ensures Inv(AddNext(s, delay))
  {
    if delay > 0 {
      var s' := AddNext(s, delay);
      assert Numbered(s');
      AddKeepsSorted(s, Timer(s.count, s.now + Millis(delay)));
      AddKeepsConserved(s, delay);
      SameNotEarly(s, s');
      hide Insert, Sorted, Conserved, NotEarly, Numbered;
    }
  }

  lemma SameNotEarly(s: State, s': State)
    requires s'.posted == s.posted && s'.postedAt == s.postedAt
    ensures NotEarly(s') == NotEarly(s)
  {
  }

  lemma NextKeepsInv(s: State, step: Step)
    requires Inv(s) && Possible(s, step)
    ensures Inv(Next(s, step))
  {
    match step
    case Tick(now) =>
    case TimeOut =>
    case Look => LookKeepsInv(s);
    case Add(delay) => AddKeepsInv(s, delay);
    case Shut =>
    case End =>
  }

  lemma {:induction false} RunKeepsInv(start: real, steps: seq<Step>)
    requires Run(start, steps).Some?
    ensures Inv(Run(start, steps).value)
  {
    if steps != [] {
      RunKeepsInv(start, steps[..|steps| - 1]);
      NextKeepsInv(Run(start, steps[..|steps| - 1]).value, steps[|steps| - 1]);
    }
  }

  /** A timer that was added before the `j`-th posted one, and is less, was posted before it. */
  ghost predicate InOrder(s: State, j: nat, a: Timer)
    requires j < |s.posted|
  {
    a in s.accepted && a.id < s.posted[j].id && Less(a, s.posted[j]) ==> a in s.posted[..j]
  }

  ghost predicate PostedInOrder(s: State) {
    forall j, a | 0 <= j < |s.posted| :: InOrder(s, j, a)
  }

  /** The timer that is posted is the least one pending. */
  lemma LookPostsLeast(s: State, a: Timer)
    requires Inv(s) && s.thread.Ready? && s.timers != [] && a in s.accepted && Less(a, s.timers[0])
    ensures a in s.posted && a !in s.timers
  {
    assert a in multiset(s.accepted);
    assert a !in s.timers;
    assert a in multiset(s.posted);
  }

  lemma NextKeepsOrder(s: State, step: Step)
    requires Inv(s) && Possible(s, step) && PostedInOrder(s)
    ensures PostedInOrder(Next(s, step))
  {
    var s' := Next(s, step);
    forall j, a | 0 <= j < |s'.posted| ensures InOrder(s', j, a) {
      if j < |s.posted| {
        assert InOrder(s, j, a) && s'.posted[..j] == s.posted[..j] && s'.posted[j] == s.posted[j];
        KnownIds(s, s.posted[j]);
      } else if a in s'.accepted && Less(a, s'.posted[j]) {
        LookPostsLeast(s, a);
        assert s'.posted[..j] == s.posted;
      }
    }
  }

  lemma {:induction false} RunKeepsOrder(start: real, steps: seq<Step>)
    requires Run(start, steps).Some?
    ensures PostedInOrder(Run(start, steps).value)
  {
    if steps != [] {
      RunKeepsOrder(start, steps[..|steps| - 1]);
      RunKeepsInv(start, steps[..|steps| - 1]);
      NextKeepsOrder(Run(start, steps[..|steps| - 1]).value, steps[|steps| - 1]);
    }
  }

  /** In every run, whatever the clock does, a delayed event is posted once at most, no earlier
      than its deadline by the clock at that moment, and after everything that was added before it
      with an earlier or equal deadline. */
  lemma PostedOnTimeAndInOrder(start: real, steps: seq<Step>, j: nat, a: Timer)
    requires Run(start, steps).Some? && j < |Run(start, steps).value.posted|
    ensures var s := Run(start, steps).value;
            && |s.postedAt| == |s.posted| && s.posted[j].time <= s.postedAt[j]
            && multiset(s.posted)[s.posted[j]] == 1 && s.posted[j] !in s.timers
            && (a in s.accepted && a.id < s.posted[j].id && a.time <= s.posted[j].time ==> a in s.posted[..j])
  {
    RunKeepsInv(start, steps);
    RunKeepsOrder(start, steps);
    var s := Run(start, steps).value;
    assert InOrder(s, j, a);
    KnownIds(s, s.posted[j]);
    NumberedOnce(s.accepted, s.posted[j]);
    assert multiset(s.accepted)[s.posted[j]] == 1;
    assert s.posted[j] in multiset(s.posted);
  }

  lemma {:induction false} NumberedOnce(ts: seq<Timer>, t: Timer)
    requires forall i | 0 <= i < |ts| :: ts[i].id == i
    ensures multiset(ts)[t] <= 1
  {
    if ts != [] {
      var init, last := ts[..|ts| - 1], ts[|ts| - 1];
      NumberedOnce(init, t);
      assert ts == init + [last];
      if last == t {
        assert t !in init;
      }
    }
  }

  // ---------- what the steps say

  /** What the clock was last read as. */
  function Clock(start: real, steps: seq<Step>): real {
    if steps == [] then start
    else if steps[|steps| - 1].Tick? then steps[|steps| - 1].now
    else Clock(start, steps[..|steps| - 1])
  }

  /** The delays, in milliseconds, of the events that were to wait, and the clock when they were added. */
  function Added(start: real, steps: seq<Step>): seq<(int, real)> {
    if steps == [] then []
    else
      var before := steps[..|steps| - 1];
      match steps[|steps| - 1]
      case Add(delay) => if delay > 0 then Added(start, before) + [(delay, Clock(start, before))] else Added(start, before)
      case _ => Added(start, before)
  }

  /** The deadlines are those delays after those times. */
  ghost predicate DeadlinesOf(accepted: seq<Timer>, added: seq<(int, real)>) {
    && |accepted| == |added|
    && forall i | 0 <= i < |added| ::
         accepted[i].id == i && 1000.0 * (accepted[i].time - added[i].1) == added[i].0 as real
  }

  lemma {:induction false} RunIsHistory(start: real, steps: seq<Step>)
    requires Run(start, steps).Some?
    ensures var s := Run(start, steps).value;
            && s.now == Clock(start, steps) && s.count == |s.accepted|
            && DeadlinesOf(s.accepted, Added(start, steps))
            && (s.open <==> Shut !in steps) && (s.alive <==> End !in steps)
  {
    if steps != [] {
      var before := steps[..|steps| - 1];
      assert steps == before + [steps[|steps| - 1]];
      RunIsHistory(start, before);
      NextIsHistory(start, steps, Run(start, before).value);
    }
  }

  lemma NextIsHistory(start: real, steps: seq<Step>, s: State)
    requires steps != []
    requires s.now == Clock(start, steps[..|steps| - 1]) && s.count == |s.accepted|
    requires DeadlinesOf(s.accepted, Added(start, steps[..|steps| - 1]))
    ensures var s' := Next(s, steps[|steps| - 1]);
            && s'.now == Clock(start, steps) && s'.count == |s'.accepted|
            && DeadlinesOf(s'.accepted, Added(start, steps))
  {
    hide Insert;
    match steps[|steps| - 1]
    case Add(delay) => MillisIs(delay);
    case _ =>
  }

  lemma MillisIs(delay: int)
    ensures 1000.0 * Millis(delay) == delay as real
  {
  }

  /** When an event is posted, its delay has passed by the clock since it was added. */
  lemma PostedAfterDelay(start: real, steps: seq<Step>, j: nat)
    requires Run(start, steps).Some? && j < |Run(start, steps).value.posted|
    ensures var s, t := Run(start, steps).value, Run(start, steps).value.posted[j];
            && t.id < |Added(start, steps)| && j < |s.postedAt|
            && 1000.0 * (s.postedAt[j] - Added(start, steps)[t.id].1) >= Added(start, steps)[t.id].0 as real
  {
    RunKeepsInv(start, steps);
    RunIsHistory(start, steps);
    var s := Run(start, steps).value;
    KnownIds(s, s.posted[j]);
    hide Sorted, Conserved, Run, Added;
  }

  /** One step posts one event at most, the dispatch thread's, and notes the clock of that moment. */
  lemma PostedByLook(start: real, steps: seq<Step>, step: Step)
    requires Run(start, steps).Some? && Possible(Run(start, steps).value, step)
    ensures var s := Run(start, steps).value;
            var s' := Next(s, step);
            (s'.posted == s.posted && s'.postedAt == s.postedAt) ||
            (step.Look? && exists t :: s'.posted == s.posted + [t] && s'.postedAt == s.postedAt + [Clock(start, steps)])
  {
    RunIsHistory(start, steps);
    hide Insert, Added, Clock;
  }

  /** When the thread looks after a deadline, it posts an event, one with the earliest deadline of
      all pending ones, as long as it is not told to end and the event queue takes events. */
  lemma DueIsPosted(start: real, steps: seq<Step>, t: Timer)
    requires Run(start, steps).Some? && t in Run(start, steps).value.timers
    requires t.time <= Clock(start, steps)
    ensures var s := Run(start, steps).value;
            s.thread.Ready? && End !in steps && Shut !in steps ==>
              var s' := Next(s, Look);
              exists first :: s'.posted == s.posted + [first] && first in s.timers && (first == t || Less(first, t))
  {
    RunKeepsInv(start, steps);
    RunIsHistory(start, steps);
    var s := Run(start, steps).value;
    var i :| 0 <= i < |s.timers| && s.timers[i] == t;
    assert s.timers[0] in s.timers && (i > 0 ==> Less(s.timers[0], t));
    hide Run, Conserved, Added, Clock;
  }

  /** A thread that sleeps has asked to be woken up by the earliest deadline of all pending timers. */
  lemma SleepsUntilEarliest(start: real, steps: seq<Step>, t: Timer)
    requires Run(start, steps).Some? && t in Run(start, steps).value.timers
    ensures var s := Run(start, steps).value;
            !s.thread.Waiting? && (s.thread.WaitingUntil? ==> s.thread.time <= t.time)
  {
    RunKeepsInv(start, steps);
    var s := Run(start, steps).value;
    var i :| 0 <= i < |s.timers| && s.timers[i] == t;
  }

  /** Once it is told to end, the thread does not wait any more: it has left its loop, or does so
      when it looks next, and nothing is posted from then on. */
  lemma {:induction false} ExitsWhenStopped(start: real, steps: seq<Step>, more: Step)
    requires Run(start, steps).Some? && End in steps
    requires Possible(Run(start, steps).value, more)
    ensures var s := Run(start, steps).value;
            && (s.thread.Exited? || (s.thread.Ready? && LookNext(s).thread.Exited?))
            && Next(s, more).posted == s.posted
  {
    RunKeepsInv(start, steps);
    RunIsHistory(start, steps);
  }

  /** At most one timer is refused, and only once the event queue is shut down; with it the thread ends. */
  lemma {:induction false} RefusedWhenShut(start: real, steps: seq<Step>)
    requires Run(start, steps).Some?
    ensures var s := Run(start, steps).value;
            s.refused != [] ==> |s.refused| == 1 && Shut in steps && s.thread.Exited?
  {
    RunKeepsInv(start, steps);
    if steps != [] {
      var before := steps[..|steps| - 1];
      assert steps == before + [steps[|steps| - 1]];
      RunIsHistory(start, before);
      RefusedWhenShut(start, before);
    }
  }

  // ---------- the methods, each under the lock

  class TimerQueue {
    var now: real
    var count: nat
    var timers: seq<Timer>
    var thread: Thread
    var alive: bool
    var open: bool
    ghost var accepted: seq<Timer>
    var posted: seq<Timer>
    var postedAt: seq<real>
    var refused: seq<Timer>

    ghost function S(): State
      reads this
    {
      State(now, count, timers, thread, alive, open, accepted, posted, postedAt, refused)
    }

    constructor (start: real)
      ensures Run(start, []) == Some(S())
    {
      now, count, timers, thread, alive, open := start, 0, [], Ready, true, true;
      accepted, posted, postedAt, refused := [], [], [], [];
    }

    /** True when the event goes to the event queue at once. */
    method InvokeLaterWithDelay(delay: int) returns (direct: bool)
      requires Inv(S())
      modifies this
      ensures direct == (delay <= 0) && S() == Next(old(S()), Add(delay))
    {
      hide Sort, Insert, Sorted, Conserved, Numbered, SleepsNoLonger, NotEarly, Ends;
      direct := delay <= 0;
      if !direct {
        var t := Timer(count, now + Millis(delay));
        SortOfAppended(timers, t);
        count := count + 1;
        timers := timers + [t];
        accepted := accepted + [t];
        timers := Sort(timers);
        thread := Woken(thread);
      }
    }

    /** The second half of `stopEventQueue`. */
    method Stop()
      modifies this
      ensures S() == Next(old(S()), End)
    {
      alive := false;
      thread := Woken(thread);
    }

    /** One turn of the dispatch loop, up to the next wait, or out of the loop. */
    method DispatchTimers()
      requires Possible(S(), Look)
      modifies this
      ensures S() == Next(old(S()), Look)
    {
      if !alive {
        thread := Exited;
      } else if |timers| == 0 {
        thread := Waiting;
      } else {
        var tm, t := now, timers[0];
        if t.time > tm {
          thread := WaitingUntil(tm + (t.time - tm));
        } else {
          timers := timers[1..];
          if open {
            posted, postedAt := posted + [t], postedAt + [tm];
          } else {
            refused, thread := refused + [t], Exited;
          }
        }
      }
    }
  }
}
