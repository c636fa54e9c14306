/** The sliding window that both transfers of the debug core client keep: chunks are requested
    in order, at most eight are outstanding, replies come in any order, and the callback is
    called when the last reply is in or the first error comes. */
module TransferWindow {
  import opened Wrappers

  const CHUNK: nat := 0x8000
  const WINDOW: nat := 8

  type Error = string

  /** Token `i` belongs to the `i`-th request. `done` lists the calls of the callback. */
  datatype Window = Window(next: nat, pending: set<nat>, allSent: bool, err: Option<Error>, done: seq<Option<Error>>)

  const START := Window(0, {}, false, None, [])

  /** Sends requests until the window is full or the `n` chunks are used up. */
  function Refill(x: Window, n: nat): Window
    decreases if x.next < n then n - x.next else 0
  {
    if |x.pending| >= WINDOW then x
    else if x.next < n then Refill(x.(next := x.next + 1, pending := x.pending + {x.next}), n)
    else x.(allSent := true)
  }

  lemma RefillStep(x: Window, n: nat)
    ensures Refill(x, n) ==
              if |x.pending| >= WINDOW then x
              else if x.next < n then Refill(x.(next := x.next + 1, pending := x.pending + {x.next}), n)
              else x.(allSent := true)
  {
  }

  function CallDone(x: Window): Window {
    x.(done := x.done + [x.err])
  }

  function RequestMore(x: Window, n: nat): Window {
    if x.err.Some? then CallDone(x) else Refill(x, n)
  }

  /** One reply. */
  function Reply(x: Window, n: nat, token: nat, error: Option<Error>): Window {
    var x1 := x.(pending := x.pending - {token});
    if x1.err.Some? then x1
    else
      var x2 := x1.(err := error);
      if x2.allSent && x2.pending == {} then CallDone(x2) else RequestMore(x2, n)
  }

  datatype Event = Event(token: nat, error: Option<Error>)

  /** The state after a run: every reply answers an outstanding request. */
  function Run(n: nat, events: seq<Event>): Option<Window> {
    if events == [] then Some(Refill(START, n))
    else
      var e := events[|events| - 1];
      match Run(n, events[..|events| - 1])
      case None => None
      case Some(x) => if e.token in x.pending then Some(Reply(x, n, e.token, e.error)) else None
  }

  function FirstError(events: seq<Event>): Option<Error> {
    if events == [] then None
    else if events[0].error.Some? then events[0].error
    else FirstError(events[1..])
  }

  // ---------- what every state of every run satisfies

  ghost predicate Range(x: Window, n: nat) {
    && x.next <= n && |x.pending| <= WINDOW
    && (forall t | t in x.pending :: t < x.next)
    && (x.allSent ==> x.next == n)
  }

  ghost predicate Inv(x: Window, n: nat) {
    && Range(x, n)
    // after each refill, everything is sent or the window is full
    && (x.done == [] ==> x.err.None? && (x.allSent || |x.pending| == WINDOW))
    // the callback is called at most once, with the first error or at the very end
    && (x.done != [] ==> x.done == [x.err])
    && (x.done == [None] ==> x.pending == {} && x.next == n)
    // a transfer that is not finished waits for a reply
    && (x.done == [] && n > 0 ==> x.pending != {})
  }

  lemma {:induction false} RefillKeeps(x: Window, n: nat)
    requires Range(x, n)
    ensures var y := Refill(x, n);
            && Range(y, n) && (y.allSent || |y.pending| == WINDOW)
            && y.err == x.err && y.done == x.done
            && x.pending <= y.pending && y.next - x.next == |y.pending| - |x.pending|
            && (y.pending == {} ==> y.next == x.next == n)
    decreases n - x.next
  {
    if |x.pending| < WINDOW && x.next < n {
      RefillKeeps(x.(next := x.next + 1, pending := x.pending + {x.next}), n);
    }
  }

  lemma ReplyKeepsInv(x: Window, n: nat, token: nat, error: Option<Error>)
    requires Inv(x, n) && token in x.pending
    ensures Inv(Reply(x, n, token, error), n)
  {
    var x1 := x.(pending := x.pending - {token});
    assert |x1.pending| == |x.pending| - 1;
    if x.err.None? && error.None? && !(x1.allSent && x1.pending == {}) {
      RefillKeeps(x1, n);
    }
  }

  /** What a callback has to do with a reply to an outstanding request. */
  lemma ReplySteps(x: Window, n: nat, token: nat, error: Option<Error>)
    requires Inv(x, n) && token in x.pending
    ensures
      var x1 := x.(pending := x.pending - {token});
      var x2 := x1.(err := error);
      && Range(x2, n) && Inv(Reply(x, n, token, error), n)
      && (x.err.None? ==> x.done == [])
      && Reply(x, n, token, error) ==
           if x.err.Some? then x1
           else if x2.allSent && x2.pending == {} then CallDone(x2)
           else RequestMore(x2, n)
  {
    ReplyKeepsInv(x, n, token, error);
    assert |x.pending - {token}| == |x.pending| - 1;
  }

  lemma {:induction false} RunKeepsInv(n: nat, events: seq<Event>)
    requires Run(n, events).Some?
    ensures Inv(Run(n, events).value, n)
  {
    if events == [] {
      RefillKeeps(START, n);
    } else {
      var before := events[..|events| - 1];
      RunKeepsInv(n, before);
      ReplyKeepsInv(Run(n, before).value, n, events[|events| - 1].token, events[|events| - 1].error);
    }
  }

  /** In every run at most eight requests are outstanding; exactly eight, as long as there are
      chunks left to ask for and the transfer is not over. */
  lemma AtMostEight(n: nat, events: seq<Event>)
    requires Run(n, events).Some?
    ensures var x := Run(n, events).value;
            |x.pending| <= 8 && (x.done == [] && x.next < n ==> |x.pending| == 8)
  {
    RunKeepsInv(n, events);
  }

  /** A reply that carries an error, or comes after one, sends no request; and once the callback was
      called, nothing is sent and it is not called again. */
  lemma NothingAfterError(n: nat, events: seq<Event>, e: Event)
    requires Run(n, events + [e]).Some?
    ensures Run(n, events).Some? && e.token in Run(n, events).value.pending
    ensures var x, y := Run(n, events).value, Run(n, events + [e]).value;
            && (x.err.Some? || e.error.Some? || x.done != [] ==> y.next == x.next && y.pending == x.pending - {e.token})
            && (x.done != [] ==> y.done == x.done)
            && (x.done == [] && e.error.Some? ==> y.done == [e.error])
  {
    assert (events + [e])[..|events|] == events;
    RunKeepsInv(n, events);
    hide Refill, Run;
  }

  /** Replies so far and replies to come add up to the requests sent; so a run ends. */
  lemma {:induction false} RunCounts(n: nat, events: seq<Event>)
    requires Run(n, events).Some?
    ensures var x := Run(n, events).value;
            |events| + |x.pending| == x.next && |events| <= n
  {
    if events == [] {
      RefillKeeps(START, n);
    } else {
      var before, e := events[..|events| - 1], events[|events| - 1];
      RunCounts(n, before);
      RunKeepsInv(n, before);
      var x := Run(n, before).value;
      RunKeepsInv(n, events);
      var x1 := x.(pending := x.pending - {e.token});
      assert |x1.pending| == |x.pending| - 1;
      if x.err.None? && e.error.None? && !(x1.allSent && x1.pending == {}) {
        RefillKeeps(x1, n);
      }
    }
  }

  lemma {:induction false} FirstErrorOfLast(events: seq<Event>)
    requires events != []
    ensures FirstError(events) == var before := FirstError(events[..|events| - 1]);
                                  if before.Some? then before else events[|events| - 1].error
  {
    if |events| > 1 {
      FirstErrorOfLast(events[1..]);
      assert events[1..][..|events| - 2] == events[..|events| - 1][1..];
    }
  }

  /** The recorded error is the first one that any reply carried. */
  lemma {:induction false} RunErrorIsFirst(n: nat, events: seq<Event>)
    requires Run(n, events).Some?
    ensures Run(n, events).value.err == FirstError(events)
  {
    if events == [] {
      RefillKeeps(START, n);
    } else {
      var before, e := events[..|events| - 1], events[|events| - 1];
      RunErrorIsFirst(n, before);
      FirstErrorOfLast(events);
      RunKeepsInv(n, before);
      var x1 := Run(n, before).value.(pending := Run(n, before).value.pending - {e.token});
      if x1.err.None? && e.error.None? && !(x1.allSent && x1.pending == {}) {
        RefillKeeps(x1, n);
      }
    }
  }

  /** A run can be extended until every reply is in; then the callback has been called exactly
      once, with the first error if there was one, provided there was anything to transfer. */
  lemma CompletedExactly(n: nat, events: seq<Event>)
    requires Run(n, events).Some?
    requires Run(n, events).value.pending == {}
    ensures Run(n, events).value.done == if n > 0 then [FirstError(events)] else []
  {
    RunKeepsInv(n, events);
    RunErrorIsFirst(n, events);
    RunCounts(n, events);
    if n == 0 {
      assert events == [];
      RefillKeeps(START, 0);
    }
  }

  /** A transfer of nothing never calls back: the callback is called in the end if and only if
      there is a chunk to transfer. */
  lemma CallsBackExactly(n: nat, events: seq<Event>)
    requires Run(n, events).Some?
    ensures n == 0 ==> Run(n, events).value.done == [] && Run(n, events).value.pending == {}
    ensures n > 0 ==> Run(n, events).value.pending != {} || |Run(n, events).value.done| == 1
  {
    RunKeepsInv(n, events);
    RunCounts(n, events);
    if n == 0 {
      CompletedExactly(n, events);
    }
  }

  /** Which chunks are asked for and not yet answered, after a reply. */
  lemma PendingIsSent(x: Window, n: nat, token: nat)
    requires Inv(x, n) && token in x.pending
    ensures token < x.next <= n
  {
  }

  lemma ReplyPending(x: Window, n: nat, token: nat, error: Option<Error>, t: nat)
    requires Inv(x, n) && token in x.pending
    ensures var y := Reply(x, n, token, error);
            && (y.err.None? ==> x.err.None? && error.None?)
            && (t < y.next && t !in y.pending <==> t == token || (t < x.next && t !in x.pending))
  {
    RefillSends(x.(pending := x.pending - {token}), n);
  }

  /** Refilling only adds requests for new chunks. */
  lemma {:induction false} RefillSends(x: Window, n: nat)
    ensures x.next <= Refill(x, n).next
    ensures forall t :: t in Refill(x, n).pending <==> t in x.pending || x.next <= t < Refill(x, n).next
    decreases if x.next < n then n - x.next else 0
  {
    if |x.pending| < WINDOW && x.next < n {
      RefillSends(x.(next := x.next + 1, pending := x.pending + {x.next}), n);
    }
  }

  // ---------- chunks

  /** The number of steps of `range(a, a + total, CHUNK)`. */
  function Chunks(total: nat): nat {
    (total + CHUNK - 1) / CHUNK
  }

  /** The size of chunk `i`, as the generators compute it. */
  function ChunkSize(total: nat, i: nat): int {
    if i * CHUNK + CHUNK < total then CHUNK else total - i * CHUNK
  }

  /** Every byte of the range lies in exactly one chunk. */
  lemma ChunksTile(total: nat, d: nat, i: nat)
    requires i < Chunks(total)
    ensures 0 < ChunkSize(total, i) <= CHUNK && i * CHUNK + ChunkSize(total, i) <= total
    ensures d < total && i * CHUNK <= d < i * CHUNK + ChunkSize(total, i) <==> d < total && i == d / CHUNK
    ensures d < total ==> d / CHUNK < Chunks(total)
    ensures i + 1 < Chunks(total) ==> ChunkSize(total, i) == CHUNK
  {
  }
}
