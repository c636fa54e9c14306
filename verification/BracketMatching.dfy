/** Pairing of brackets in the trace of a PCIe link, as `PCIe.find_brace` finds it. */
module BracketMatching {

  datatype Result = Matched(pairs: map<nat, nat>) | NoOpening(at: nat) | NoClosing(at: nat)

  datatype State = Going(stack: seq<nat>, pairs: map<nat, nat>) | Stuck(at: nat)

  predicate IsOpen(s: string, o: char, c: char, i: nat) {
    i < |s| && s[i] == o
  }

  /** The opening character is looked for first, so equal characters only open. */
  predicate IsClose(s: string, o: char, c: char, i: nat) {
    i < |s| && s[i] == c && c != o
  }

  /** The opening brackets are paired one-to-one with later closing ones, and pairs do not cross. */
  ghost predicate IsMatching(s: string, o: char, c: char, m: map<nat, nat>) {
    && (forall i: nat :: i in m <==> IsOpen(s, o, c, i))
    && (forall j: nat :: IsClose(s, o, c, j) <==> j in m.Values)
    && (forall i | i in m :: i < m[i])
    && (forall i, j | i in m && j in m && m[i] == m[j] :: i == j)
    && (forall i, j | i in m && j in m && i < j :: m[i] < j || m[j] < m[i])
  }

  // ---------- the scan

  function Step(st: State, s: string, o: char, c: char, i: nat): State
    requires i < |s|
  {
    match st
    case Stuck(_) => st
    case Going(stack, pairs) =>
      if s[i] == o then Going(stack + [i], pairs)
      else if s[i] != c then st
      else if stack == [] then Stuck(i)
      else Going(stack[..|stack| - 1], pairs[stack[|stack| - 1] := i])
  }

  function Run(s: string, o: char, c: char, k: nat): State
    requires k <= |s|
  {
    if k == 0 then Going([], map[]) else Step(Run(s, o, c, k - 1), s, o, c, k - 1)
  }

  function Outcome(st: State): Result {
    match st
    case Stuck(i) => NoOpening(i)
    case Going(stack, pairs) => if stack == [] then Matched(pairs) else NoClosing(stack[|stack| - 1])
  }

  method FindBrace(s: string, braces: string) returns (r: Result)
    requires |braces| == 2
    ensures r == Outcome(Run(s, braces[0], braces[1], |s|))
    ensures forall n :: IsMatching(s, braces[0], braces[1], n) <==> r == Matched(n)
  {
    hide IsMatching;
    forall n ensures IsMatching(s, braces[0], braces[1], n) <==> Outcome(Run(s, braces[0], braces[1], |s|)) == Matched(n) {
      FindsTheMatching(s, braces[0], braces[1], n);
    }
    var pairs: map<nat, nat> := map[];
    var stack: seq<nat> := [];
    var i := 0;
    while i < |s|
      invariant i <= |s| && Run(s, braces[0], braces[1], i) == Going(stack, pairs)
    {
      if s[i] == braces[0] {
        stack := stack + [i];
      } else if s[i] == braces[1] {
        if |stack| == 0 {
          StaysStuck(s, braces[0], braces[1], i + 1, |s|);
          return NoOpening(i);
        }
        pairs := pairs[stack[|stack| - 1] := i];
        stack := stack[..|stack| - 1];
      }
      i := i + 1;
    }
    r := if |stack| > 0 then NoClosing(stack[|stack| - 1]) else Matched(pairs);
  }

  lemma {:induction false} StaysStuck(s: string, o: char, c: char, k: nat, n: nat)
    requires k <= n <= |s| && Run(s, o, c, k).Stuck?
    ensures Run(s, o, c, n) == Run(s, o, c, k)
  {
    if k < n {
      StaysStuck(s, o, c, k, n - 1);
    }
  }

  // ---------- what the scan has paired is a matching of the part it read

  ghost predicate Open(s: string, o: char, c: char, k: nat, stack: seq<nat>, m: map<nat, nat>) {
    && (forall x | x in stack :: IsOpen(s, o, c, x) && x < k && x !in m)
    && (forall a, b | 0 <= a < b < |stack| :: stack[a] < stack[b])
    && (forall i: nat | i < k && IsOpen(s, o, c, i) :: i in stack || i in m)
  }

  ghost predicate PairsRead(s: string, o: char, c: char, k: nat, m: map<nat, nat>) {
    forall i | i in m :: IsOpen(s, o, c, i) && i < m[i] < k && IsClose(s, o, c, m[i])
  }

  ghost predicate ClosesPaired(s: string, o: char, c: char, k: nat, m: map<nat, nat>) {
    forall j: nat | j < k && IsClose(s, o, c, j) :: j in m.Values
  }

  ghost predicate OneToOne(m: map<nat, nat>) {
    forall i, j | i in m && j in m && m[i] == m[j] :: i == j
  }

  ghost predicate NotCrossing(m: map<nat, nat>) {
    forall i, j | i in m && j in m && i < j :: m[i] < j || m[j] < m[i]
  }

  ghost predicate Paired(s: string, o: char, c: char, k: nat, m: map<nat, nat>) {
    PairsRead(s, o, c, k, m) && ClosesPaired(s, o, c, k, m) && OneToOne(m) && NotCrossing(m)
  }

  ghost predicate NotAround(stack: seq<nat>, m: map<nat, nat>) {
    forall x, i | x in stack && i in m && i < x :: m[i] < x
  }

  ghost predicate Inv(s: string, o: char, c: char, k: nat, st: State) {
    st.Going? ==>
      Open(s, o, c, k, st.stack, st.pairs) && Paired(s, o, c, k, st.pairs) && NotAround(st.stack, st.pairs)
  }

  lemma PopOpen(s: string, o: char, c: char, k: nat, stack: seq<nat>, m: map<nat, nat>)
    requires k < |s| && Open(s, o, c, k, stack, m) && stack != [] && IsClose(s, o, c, k)
    ensures Open(s, o, c, k + 1, stack[..|stack| - 1], m[stack[|stack| - 1] := k])
  {
  }

  lemma PopCloses(s: string, o: char, c: char, k: nat, m: map<nat, nat>, x: nat)
    requires ClosesPaired(s, o, c, k, m) && x !in m
    ensures ClosesPaired(s, o, c, k + 1, m[x := k])
  {
    hide IsClose;
    var r := m[x := k];
    forall j: nat | j < k + 1 && IsClose(s, o, c, j) ensures j in r.Values {
      if j == k {
        assert r[x] == k;
      } else {
        var i :| i in m && m[i] == j;
        assert r[i] == j;
      }
    }
  }

  lemma PopNested(m: map<nat, nat>, k: nat, x: nat)
    requires OneToOne(m) && NotCrossing(m) && x !in m && x < k
    requires forall i | i in m :: m[i] < k && (i < x ==> m[i] < x)
    ensures OneToOne(m[x := k]) && NotCrossing(m[x := k])
  {
  }

  lemma PopPaired(s: string, o: char, c: char, k: nat, m: map<nat, nat>, x: nat)
    requires Paired(s, o, c, k, m) && x !in m && forall i | i in m && i < x :: m[i] < x
    requires x < k && IsOpen(s, o, c, x) && IsClose(s, o, c, k)
    ensures Paired(s, o, c, k + 1, m[x := k])
  {
    hide OneToOne, NotCrossing, ClosesPaired, IsOpen, IsClose;
    PopCloses(s, o, c, k, m, x);
    PopNested(m, k, x);
  }

  lemma PushKeeps(s: string, o: char, c: char, k: nat, stack: seq<nat>, m: map<nat, nat>)
    requires Open(s, o, c, k, stack, m) && Paired(s, o, c, k, m) && NotAround(stack, m) && IsOpen(s, o, c, k)
    ensures Open(s, o, c, k + 1, stack + [k], m) && Paired(s, o, c, k + 1, m) && NotAround(stack + [k], m)
  {
    assert k !in m;
    assert forall x | x in stack + [k] :: x in stack || x == k;
    assert forall x | x in stack :: x in stack + [k];
    assert forall a | 0 <= a < |stack| :: stack[a] in stack;
    assert (stack + [k])[|stack|] == k;
  }

  lemma SkipKeeps(s: string, o: char, c: char, k: nat, stack: seq<nat>, m: map<nat, nat>)
    requires Open(s, o, c, k, stack, m) && Paired(s, o, c, k, m)
    requires !IsOpen(s, o, c, k) && !IsClose(s, o, c, k)
    ensures Open(s, o, c, k + 1, stack, m) && Paired(s, o, c, k + 1, m)
  {
  }

  lemma PopNotAround(stack: seq<nat>, m: map<nat, nat>, k: nat)
    requires NotAround(stack, m) && stack != []
    requires forall a, b | 0 <= a < b < |stack| :: stack[a] < stack[b]
    ensures NotAround(stack[..|stack| - 1], m[stack[|stack| - 1] := k])
    ensures forall i | i in m && i < stack[|stack| - 1] :: m[i] < stack[|stack| - 1]
  {
    var x := stack[|stack| - 1];
    assert x in stack;
    var r, front := m[x := k], stack[..|stack| - 1];
    forall y | y in front ensures forall i | i in r && i < y :: r[i] < y {
      assert y in stack && y < x;
    }
  }

  lemma NothingRead(s: string, o: char, c: char)
    ensures Open(s, o, c, 0, [], map[]) && Paired(s, o, c, 0, map[]) && NotAround([], map[])
  {
  }

  /** What the scan has paired so far is a matching of the part it has read. */
  lemma {:induction false} RunKeepsInv(s: string, o: char, c: char, k: nat)
    requires k <= |s|
    ensures Inv(s, o, c, k, Run(s, o, c, k))
  {
    hide Open, Paired, NotAround, Run;
    if k > 0 {
      RunKeepsInv(s, o, c, k - 1);
      var st := Run(s, o, c, k - 1);
      RunIs(s, o, c, k);
      if st.Going? {
        StepKeepsInv(s, o, c, k - 1, st.stack, st.pairs);
      }
    } else {
      RunIs(s, o, c, 0);
      NothingRead(s, o, c);
    }
  }

  lemma RunIs(s: string, o: char, c: char, k: nat)
    requires k <= |s|
    ensures Run(s, o, c, k) == if k == 0 then Going([], map[]) else Step(Run(s, o, c, k - 1), s, o, c, k - 1)
  {
  }

  lemma StepKeepsInv(s: string, o: char, c: char, k: nat, stack: seq<nat>, m: map<nat, nat>)
    requires k < |s| && Open(s, o, c, k, stack, m) && Paired(s, o, c, k, m) && NotAround(stack, m)
    ensures Inv(s, o, c, k + 1, Step(Going(stack, m), s, o, c, k))
  {
    hide Open, Paired, NotAround;
    if IsOpen(s, o, c, k) {
      PushKeeps(s, o, c, k, stack, m);
    } else if !IsClose(s, o, c, k) {
      SkipKeeps(s, o, c, k, stack, m);
    } else if stack != [] {
      TopIs(s, o, c, k, stack, m);
      PopOpen(s, o, c, k, stack, m);
      PopNotAround(stack, m, k);
      PopPaired(s, o, c, k, m, stack[|stack| - 1]);
    }
  }

  lemma TopIs(s: string, o: char, c: char, k: nat, stack: seq<nat>, m: map<nat, nat>)
    requires Open(s, o, c, k, stack, m) && stack != []
    ensures
      var x := stack[|stack| - 1];
      x in stack && x < k && x !in m && IsOpen(s, o, c, x)
    ensures forall a, b | 0 <= a < b < |stack| :: stack[a] < stack[b]
  {
    assert stack[|stack| - 1] in stack;
  }

  // ---------- every matching is the one that the scan finds

  ghost predicate Agrees(m: map<nat, nat>, n: map<nat, nat>) {
    forall i | i in m :: i in n && n[i] == m[i]
  }

  /** In any matching, the next closing bracket belongs to the top of the stack. */
  lemma ClosesTop(s: string, o: char, c: char, k: nat, stack: seq<nat>, m: map<nat, nat>, n: map<nat, nat>)
    requires k < |s| && IsClose(s, o, c, k) && IsMatching(s, o, c, n) && Agrees(m, n)
    requires Open(s, o, c, k, stack, m) && Paired(s, o, c, k, m)
    ensures stack != [] && n[stack[|stack| - 1]] == k
  {
    var a :| a in n && n[a] == k;
    assert a in stack;
    var t := stack[|stack| - 1];
    assert t in stack;
    if t != a && n[t] < k {
      ReadIsPaired(s, o, c, k, m, n, t);
    }
  }

  /** A pair of any matching that has been read is paired. */
  lemma ReadIsPaired(s: string, o: char, c: char, k: nat, m: map<nat, nat>, n: map<nat, nat>, t: nat)
    requires IsMatching(s, o, c, n) && Agrees(m, n) && Paired(s, o, c, k, m)
    requires t in n && n[t] < k
    ensures t in m
  {
    assert n[t] in n.Values;
    var b :| b in m && m[b] == n[t];
  }

  /** The scan fails on no string that has a matching, and pairs as every matching does. */
  lemma {:induction false} RunAgrees(s: string, o: char, c: char, k: nat, n: map<nat, nat>)
    requires k <= |s| && IsMatching(s, o, c, n)
    ensures Run(s, o, c, k).Going? && Agrees(Run(s, o, c, k).pairs, n)
  {
    if k > 0 {
      RunAgrees(s, o, c, k - 1, n);
      RunKeepsInv(s, o, c, k - 1);
      var st := Run(s, o, c, k - 1);
      if IsClose(s, o, c, k - 1) {
        hide IsMatching, Open, Paired, NotAround;
        ClosesTop(s, o, c, k - 1, st.stack, st.pairs, n);
        InMatching(s, o, c, k - 1, st.stack, st.pairs, n);
      }
    }
  }

  lemma InMatching(s: string, o: char, c: char, k: nat, stack: seq<nat>, m: map<nat, nat>, n: map<nat, nat>)
    requires stack != [] && IsMatching(s, o, c, n) && Open(s, o, c, k, stack, m)
    ensures stack[|stack| - 1] in n
  {
    assert stack[|stack| - 1] in stack;
  }

  lemma AllPaired(s: string, o: char, c: char, m: map<nat, nat>)
    requires Open(s, o, c, |s|, [], m) && Paired(s, o, c, |s|, m)
    ensures IsMatching(s, o, c, m)
  {
    forall j: nat | j in m.Values ensures IsClose(s, o, c, j) {
      var i :| i in m && m[i] == j;
    }
  }

  lemma AllRead(s: string, o: char, c: char, m: map<nat, nat>, n: map<nat, nat>)
    requires Paired(s, o, c, |s|, m) && IsMatching(s, o, c, n) && Agrees(m, n)
    ensures m == n
  {
    hide Paired;
    forall t | t in n ensures t in m {
      assert n[t] in n.Values;
      ReadIsPaired(s, o, c, |s|, m, n, t);
    }
  }

  lemma NoneOpen(s: string, o: char, c: char, stack: seq<nat>, n: map<nat, nat>)
    requires Open(s, o, c, |s|, stack, n) && IsMatching(s, o, c, n)
    ensures stack == []
  {
    var last := if stack == [] then 0 else stack[|stack| - 1];
    assert stack == [] || last in stack;
  }

  /** Finding succeeds exactly on strings that have a matching; that is then the only one. */
  lemma FindsTheMatching(s: string, o: char, c: char, n: map<nat, nat>)
    ensures IsMatching(s, o, c, n) <==> Outcome(Run(s, o, c, |s|)) == Matched(n)
  {
    hide IsMatching, Open, Paired, NotAround, Agrees, Run;
    var st := Run(s, o, c, |s|);
    RunKeepsInv(s, o, c, |s|);
    if IsMatching(s, o, c, n) {
      RunAgrees(s, o, c, |s|, n);
      AllRead(s, o, c, st.pairs, n);
      NoneOpen(s, o, c, st.stack, n);
    } else if st.Going? && st.stack == [] {
      AllPaired(s, o, c, st.pairs);
    }
  }

  // ---------- which strings fail, and where

  /** Opening minus closing brackets among the first `k` characters. */
  function Depth(s: string, o: char, c: char, k: nat): int
    requires k <= |s|
  {
    if k == 0 then 0
    else
      var step := if IsOpen(s, o, c, k - 1) then 1 else if IsClose(s, o, c, k - 1) then -1 else 0;
      Depth(s, o, c, k - 1) + step
  }

  ghost predicate NeverBelow(s: string, o: char, c: char, k: nat)
    requires k <= |s|
  {
    forall j: nat | j <= k :: Depth(s, o, c, j) >= 0
  }

  lemma {:induction false} RunCountsDepth(s: string, o: char, c: char, k: nat)
    requires k <= |s|
    ensures match Run(s, o, c, k)
            case Going(stack, _) => NeverBelow(s, o, c, k) && |stack| == Depth(s, o, c, k)
            case Stuck(i) => i < k && NeverBelow(s, o, c, i) && Depth(s, o, c, i + 1) < 0
  {
    if k > 0 {
      RunCountsDepth(s, o, c, k - 1);
    }
  }

  /** An opening bracket below which the depth does not fall again. */
  ghost predicate Unclosed(s: string, o: char, c: char, k: nat, i: nat)
    requires k <= |s|
  {
    IsOpen(s, o, c, i) && i < k && forall j: nat | i < j <= k :: Depth(s, o, c, j) > Depth(s, o, c, i)
  }

  /** The stack holds the unclosed brackets, each at its depth. */
  ghost predicate StackIs(s: string, o: char, c: char, k: nat, stack: seq<nat>)
    requires k <= |s|
  {
    && (forall i: nat :: i in stack <==> Unclosed(s, o, c, k, i))
    && forall a | 0 <= a < |stack| :: stack[a] < k && Depth(s, o, c, stack[a]) == a
  }

  lemma UnclosedNext(s: string, o: char, c: char, k: nat, i: nat)
    requires k < |s| && i < k
    ensures Unclosed(s, o, c, k + 1, i) <==> Unclosed(s, o, c, k, i) && Depth(s, o, c, k + 1) > Depth(s, o, c, i)
  {
    hide Depth, IsOpen;
  }

  lemma NewestUnclosed(s: string, o: char, c: char, k: nat)
    requires k < |s|
    ensures Unclosed(s, o, c, k + 1, k) <==> IsOpen(s, o, c, k)
  {
  }

  lemma PushStackIs(s: string, o: char, c: char, k: nat, stack: seq<nat>)
    requires k < |s| && StackIs(s, o, c, k, stack) && |stack| == Depth(s, o, c, k) && IsOpen(s, o, c, k)
    ensures StackIs(s, o, c, k + 1, stack + [k])
  {
    hide IsOpen, Unclosed;
    NewestUnclosed(s, o, c, k);
    assert Depth(s, o, c, k + 1) == Depth(s, o, c, k) + 1;
    forall i: nat ensures i in stack + [k] <==> Unclosed(s, o, c, k + 1, i) {
      NextInStack(s, o, c, k, stack, i);
    }
  }

  lemma NextInStack(s: string, o: char, c: char, k: nat, stack: seq<nat>, i: nat)
    requires k < |s| && StackIs(s, o, c, k, stack)
    ensures i in stack ==> i < k && Depth(s, o, c, i) < |stack|
    ensures i < k ==> (Unclosed(s, o, c, k + 1, i) <==> i in stack && Depth(s, o, c, k + 1) > Depth(s, o, c, i))
    ensures Unclosed(s, o, c, k + 1, i) ==> i <= k
  {
    hide Depth;
    if i < k {
      UnclosedNext(s, o, c, k, i);
    }
  }

  lemma PopStackIs(s: string, o: char, c: char, k: nat, stack: seq<nat>)
    requires k < |s| && StackIs(s, o, c, k, stack) && |stack| == Depth(s, o, c, k) > 0
    requires IsClose(s, o, c, k)
    ensures StackIs(s, o, c, k + 1, stack[..|stack| - 1])
  {
    hide Unclosed;
    NewestUnclosed(s, o, c, k);
    assert Depth(s, o, c, k + 1) == |stack| - 1;
    hide Depth;
    var front, top := stack[..|stack| - 1], stack[|stack| - 1];
    assert stack == front + [top];
    forall i: nat ensures i in front <==> Unclosed(s, o, c, k + 1, i) {
      NextInStack(s, o, c, k, stack, i);
    }
  }

  lemma SkipStackIs(s: string, o: char, c: char, k: nat, stack: seq<nat>)
    requires k < |s| && StackIs(s, o, c, k, stack) && |stack| == Depth(s, o, c, k)
    requires !IsOpen(s, o, c, k) && !IsClose(s, o, c, k)
    ensures StackIs(s, o, c, k + 1, stack)
  {
    hide Unclosed;
    NewestUnclosed(s, o, c, k);
    assert Depth(s, o, c, k + 1) == |stack|;
    hide Depth;
    forall i: nat ensures i in stack <==> Unclosed(s, o, c, k + 1, i) {
      NextInStack(s, o, c, k, stack, i);
    }
  }

  lemma {:induction false} RunStackIs(s: string, o: char, c: char, k: nat)
    requires k <= |s| && Run(s, o, c, k).Going?
    ensures StackIs(s, o, c, k, Run(s, o, c, k).stack)
  {
    hide StackIs, Run, Depth;
    RunIs(s, o, c, k);
    if k == 0 {
      NothingUnclosed(s, o, c);
    } else {
      RunStackIs(s, o, c, k - 1);
      RunCountsDepth(s, o, c, k - 1);
      var stack := Run(s, o, c, k - 1).stack;
      if IsOpen(s, o, c, k - 1) {
        PushStackIs(s, o, c, k - 1, stack);
      } else if IsClose(s, o, c, k - 1) {
        PopStackIs(s, o, c, k - 1, stack);
      } else {
        SkipStackIs(s, o, c, k - 1, stack);
      }
    }
  }

  lemma NothingUnclosed(s: string, o: char, c: char)
    ensures StackIs(s, o, c, 0, [])
  {
  }

  /** The bracket that `NoClosing` reports: the last one that is not closed. */
  ghost predicate LastUnclosed(s: string, o: char, c: char, at: nat) {
    Unclosed(s, o, c, |s|, at) && forall i: nat | Unclosed(s, o, c, |s|, i) :: i <= at
  }

  lemma TopIsLast(s: string, o: char, c: char, stack: seq<nat>, m: map<nat, nat>, at: nat)
    requires StackIs(s, o, c, |s|, stack) && Open(s, o, c, |s|, stack, m)
    ensures LastUnclosed(s, o, c, at) <==> stack != [] && stack[|stack| - 1] == at
  {
    hide Unclosed, Depth;
    if stack != [] {
      var top := stack[|stack| - 1];
      TopIs(s, o, c, |s|, stack, m);
      forall i | i in stack ensures i <= top {
        var a :| 0 <= a < |stack| && stack[a] == i;
      }
    }
  }

  /** The bracket that `NoOpening` reports: the first at which more were closed than opened. */
  ghost predicate FirstUnopened(s: string, o: char, c: char, at: nat) {
    at < |s| && NeverBelow(s, o, c, at) && Depth(s, o, c, at + 1) < 0
  }

  lemma StuckExactly(s: string, o: char, c: char, at: nat)
    ensures Run(s, o, c, |s|) == Stuck(at) <==> FirstUnopened(s, o, c, at)
  {
    hide Run, Depth;
    RunCountsDepth(s, o, c, |s|);
    if FirstUnopened(s, o, c, at) {
      RunCountsDepth(s, o, c, at + 1);
      StaysStuck(s, o, c, at + 1, |s|);
    }
  }

  /** Finding succeeds exactly on balanced strings; it reports a closing bracket exactly at the
      first place where more were closed than opened, and an opening one exactly when there is no
      such place: the last bracket that is not closed. */
  lemma FailsExactly(s: string, o: char, c: char, at: nat)
    ensures
      var r := Outcome(Run(s, o, c, |s|));
      && (r.Matched? <==> NeverBelow(s, o, c, |s|) && Depth(s, o, c, |s|) == 0)
      && (r == NoClosing(at) <==> NeverBelow(s, o, c, |s|) && LastUnclosed(s, o, c, at))
      && (r == NoOpening(at) <==> FirstUnopened(s, o, c, at))
  {
    hide Run, NeverBelow, FirstUnopened, LastUnclosed, Open, StackIs, Depth;
    RunCountsDepth(s, o, c, |s|);
    StuckExactly(s, o, c, at);
    var st := Run(s, o, c, |s|);
    if st.Going? {
      RunKeepsInv(s, o, c, |s|);
      RunStackIs(s, o, c, |s|);
      TopIsLast(s, o, c, st.stack, st.pairs, at);
    } else {
      BelowSomewhere(s, o, c, st.at);
    }
  }

  lemma BelowSomewhere(s: string, o: char, c: char, i: nat)
    requires i < |s| && Depth(s, o, c, i + 1) < 0
    ensures !NeverBelow(s, o, c, |s|)
  {
  }
}
