/** The mapper's objects.  Every method is tied to the functions of TriggerCompiler and
    TriggerRegisters, whose lemmas say what the result means. */
module TriggerMapper {
  import opened TriggerSemantics
  import opened TriggerCompiler
  import opened TriggerRegisters
  import opened TriggerAllocation
  import opened Wrappers

  class Port {
    const muCount: nat
    const width: nat
    var muValues: seq<string>

    constructor (muCount: nat, width: nat)
      ensures this.muCount == muCount && this.width == width && muValues == []
    {
      this.muCount, this.width, muValues := muCount, width, [];
    }
  }

  class Match {
    const portIndex: nat
    const bitIndex: nat
    var op: string
    var value: string
    var muIndex: int

    constructor (portIndex: nat, bitIndex: nat, op: string, value: string)
      ensures V() == Compare(portIndex, bitIndex, op, value) && muIndex == -1
    {
      this.portIndex, this.bitIndex, this.op, this.value, muIndex := portIndex, bitIndex, op, value, -1;
    }

    function V(): Compare
      reads this
    {
      Compare(portIndex, bitIndex, op, value)
    }

    method EnsureProperTypes()
      modifies this`value
      ensures V() == UpperCase(old(V()))
    {
      value := Upper(value);
    }

    method FlipOneBitNeqToEq()
      modifies this`op, this`value
      ensures V() == Flip(old(V()))
    {
      if op != "!=" || |value| != 1 {
        return;
      }
      op := "==";
      value := [NegateBit(UpperChar(value[0]))];
    }

    /** A new match for both compares, or null when they cannot be merged. */
    method MergeSharedPorts(other: Match) returns (merged: Match?)
      ensures merged == null <==> Merge(V(), other.V()).None?
      ensures merged != null ==> fresh(merged) && merged.V() == Merge(V(), other.V()).value
    {
      merged := null;
      if portIndex != other.portIndex || op != "==" || other.op != "==" {
        return;
      }
      var mergedValue := MergedValue(V(), other.V());
      if mergedValue == "" {
        return;
      }
      merged := new Match(portIndex, Min(bitIndex, other.bitIndex), op, mergedValue);
    }
  }

  /** The compares of a list of matches. */
  function Vals(ms: seq<Match>): (r: seq<Compare>)
    reads ms
    ensures |r| == |ms|
  {
    seq(|ms|, i requires 0 <= i < |ms| reads ms => ms[i].V())
  }

  function MappedOf(ms: seq<Match>): (r: seq<Mapped>)
    reads ms
    ensures |r| == |ms| && Compares(r) == Vals(ms)
  {
    seq(|ms|, i requires 0 <= i < |ms| reads ms => Mapped(ms[i].V(), ms[i].muIndex))
  }

  function InsertMatch(m: Match, sorted: seq<Match>): (r: seq<Match>)
    reads m, sorted
    ensures forall i | 0 <= i < |r| :: r[i] == m || r[i] in sorted
    ensures Vals(r) == Insert(m.V(), Vals(sorted))
  {
    if sorted == [] || SortKey(m.V()) <= SortKey(sorted[0].V()) then [m] + sorted
    else
      assert Vals(sorted)[1..] == Vals(sorted[1..]);
      [sorted[0]] + InsertMatch(m, sorted[1..])
  }

  function SortedMatches(ms: seq<Match>): (r: seq<Match>)
    reads ms
    ensures forall i | 0 <= i < |r| :: r[i] in ms
    ensures Vals(r) == SortByKey(Vals(ms))
  {
    if ms == [] then []
    else
      assert Vals(ms)[1..] == Vals(ms[1..]);
      var sorted := SortedMatches(ms[1..]);
      assert forall i | 0 <= i < |sorted| :: sorted[i] in ms;
      InsertMatch(ms[0], sorted)
  }

  function WithoutDontCare(ms: seq<Match>): (r: seq<Match>)
    reads ms
    ensures forall i | 0 <= i < |r| :: r[i] in ms
    ensures Vals(r) == RemoveDontCare(Vals(ms))
  {
    if ms == [] then []
    else
      assert Vals(ms)[1..] == Vals(ms[1..]);
      if DontCare(ms[0].value) then WithoutDontCare(ms[1..])
      else [ms[0]] + WithoutDontCare(ms[1..])
  }

  class Condition {
    const op: ConditionOp
    const name: string
    var matches: seq<Match>

    constructor (op: ConditionOp, name: string)
      ensures this.op == op && this.name == name && matches == []
    {
      this.op, this.name, matches := op, name, [];
    }

    method SortMatches()
      modifies this
      ensures Vals(matches) == SortByKey(old(Vals(matches)))
      ensures forall m | m in matches :: m in old(matches)
    {
      matches := SortedMatches(matches);
    }

    method RemoveDontCareMatches()
      modifies this
      ensures Vals(matches) == RemoveDontCare(old(Vals(matches)))
      ensures forall m | m in matches :: m in old(matches)
    {
      matches := WithoutDontCare(matches);
    }

    method MergeSharedPorts()
      modifies this
      ensures Vals(matches) == MergeFor(op, old(Vals(matches)))
      ensures forall m | m in matches :: m in old(matches) || fresh(m)
    {
      if op == And || op == Nand {
        matches := MergeWorkList(matches);
      }
    }
  }

  lemma ValsFirst(ms: seq<Match>)
    requires ms != []
    ensures Vals(ms)[0] == ms[0].V() && Vals(ms)[1..] == Vals(ms[1..])
  {
  }

  lemma ValsLast(ms: seq<Match>, m: Match)
    ensures Vals(ms + [m]) == Vals(ms) + [m.V()]
  {
  }

  lemma ValsConcat(a: seq<Match>, b: seq<Match>)
    ensures Vals(a + b) == Vals(a) + Vals(b)
  {
  }

  lemma GreedyShort(cs: seq<Compare>)
    requires |cs| <= 1
    ensures GreedyMerge(cs) == cs
  {
  }

  lemma GreedyStep(done: seq<Compare>, work: seq<Compare>, m: Compare, left: seq<Compare>)
    requires |work| > 1 && Absorb(work[0], work[1..]) == (m, left)
    ensures done + GreedyMerge(work) == (done + [m]) + GreedyMerge(left)
  {
  }

  ghost function AbsorbAfter(done: seq<Compare>, m: Compare, rest: seq<Compare>): (Compare, seq<Compare>) {
    (Absorb(m, rest).0, done + Absorb(m, rest).1)
  }

  lemma AbsorbStep(done: seq<Compare>, m: Compare, rest: seq<Compare>, k: nat)
    requires k < |rest|
    ensures AbsorbAfter(done, m, rest[k..]) ==
            match Merge(m, rest[k])
            case Some(merged) => AbsorbAfter(done, merged, rest[k + 1..])
            case None => AbsorbAfter(done + [rest[k]], m, rest[k + 1..])
  {
    assert rest[k..][1..] == rest[k + 1..];
    var left := Absorb(m, rest[k + 1..]).1;
    assert done + ([rest[k]] + left) == (done + [rest[k]]) + left;
  }

  /** The inner loop of merging: tries every match of `rest` on the first one, in order. */
  method AbsorbMatches(first: Match, rest: seq<Match>) returns (match0: Match, remaining: seq<Match>)
    ensures Absorb(first.V(), Vals(rest)) == (match0.V(), Vals(remaining))
    ensures |remaining| <= |rest|
    ensures match0 == first || match0 in rest || fresh(match0)
    ensures forall m | m in remaining :: m in rest
  {
    match0, remaining := first, [];
    ghost var vals, left: seq<Compare> := Vals(rest), [];
    assert vals[0..] == vals;
    for k := 0 to |rest|
      invariant |remaining| <= k
      invariant match0 == first || match0 in rest || fresh(match0)
      invariant forall m | m in remaining :: m in rest
      invariant Vals(remaining) == left
      invariant AbsorbAfter(left, match0.V(), vals[k..]) == AbsorbAfter([], first.V(), vals)
    {
      AbsorbStep(left, match0.V(), vals, k);
      var merged := match0.MergeSharedPorts(rest[k]);
      if merged != null {
        match0 := merged;
      } else {
        assert Vals(remaining + [rest[k]]) == left + [vals[k]];
        remaining := remaining + [rest[k]];
        left := left + [vals[k]];
      }
    }
    assert AbsorbAfter(left, match0.V(), vals[|rest|..]).1 == left;
    assert AbsorbAfter([], first.V(), vals).1 == Absorb(first.V(), vals).1;
  }

  /** Merges the first compare of the work list with all that it can absorb, then the first of
      those that remain, and so on. */
  method MergeWorkList(matches: seq<Match>) returns (res: seq<Match>)
    ensures Vals(res) == GreedyMerge(Vals(matches))
    ensures forall m | m in res :: m in matches || fresh(m)
  {
    hide GreedyMerge, Absorb, Vals;
    res := [];
    var workList := matches;
    ghost var resVals: seq<Compare>, workVals := [], Vals(workList);
    while |workList| > 1
      invariant Vals(res) == resVals && Vals(workList) == workVals
      invariant resVals + GreedyMerge(workVals) == GreedyMerge(Vals(matches))
      invariant forall m | m in res :: m in matches || fresh(m)
      invariant forall m | m in workList :: m in matches || fresh(m)
      decreases |workList|
    {
      ValsFirst(workList);
      var match0, remaining := AbsorbMatches(workList[0], workList[1..]);
      assert match0 in workList || fresh(match0);
      ValsLast(res, match0);
      GreedyStep(resVals, workVals, match0.V(), Vals(remaining));
      res, workList := res + [match0], remaining;
      resVals, workVals := Vals(res), Vals(workList);
    }
    ValsConcat(res, workList);
    GreedyShort(workVals);
    res := res + workList;
  }

  /** What the matches said before. */
  ghost function BeforeOf(before: map<Match, Compare>, ms: seq<Match>): seq<Compare>
    requires forall m | m in ms :: m in before
  {
    seq(|ms|, i requires 0 <= i < |ms| => before[ms[i]])
  }

  lemma ValsBefore(before: map<Match, Compare>, ms: seq<Match>)
    requires forall m | m in ms :: m in before && before[m] == m.V()
    ensures Vals(ms) == BeforeOf(before, ms)
  {
  }

  /** The compares that are done are in upper case; the others are as they were before. */
  ghost predicate Uppered(before: map<Match, Compare>, done: set<Match>)
    reads before.Keys
  {
    forall m | m in before :: m.V() == if m in done then UpperCase(before[m]) else before[m]
  }

  lemma UpperedNone(before: map<Match, Compare>)
    requires forall m | m in before :: before[m] == m.V()
    ensures Uppered(before, {})
  {
  }

  lemma UpperedMeans(before: map<Match, Compare>, done: set<Match>, ms: seq<Match>)
    requires Uppered(before, done) && forall m | m in ms :: m in before && m in done
    ensures Vals(ms) == UpperAll(BeforeOf(before, ms))
  {
  }

  /** One condition's part of the loop over all compares, some of which may be done already. */
  method EnsureEach(ms: seq<Match>, ghost before: map<Match, Compare>, ghost done: set<Match>) returns (ghost now: set<Match>)
    requires (forall m | m in ms :: m in before) && Uppered(before, done)
    modifies ms
    ensures Uppered(before, now) && done <= now && forall m | m in ms :: m in now
  {
    hide UpperCase;
    now := done;
    for j := 0 to |ms|
      invariant Uppered(before, now) && done <= now && forall m | m in ms[..j] :: m in now
    {
      UpperIdempotent(before[ms[j]]);
      ms[j].EnsureProperTypes();
      now := now + {ms[j]};
    }
  }

  /** The compares that are done are flipped; the others are as they were before. */
  ghost predicate Flipped(before: map<Match, Compare>, done: set<Match>)
    reads before.Keys
  {
    forall m | m in before :: m.V() == if m in done then Flip(before[m]) else before[m]
  }

  lemma FlippedNone(before: map<Match, Compare>)
    requires forall m | m in before :: before[m] == m.V()
    ensures Flipped(before, {})
  {
  }

  lemma FlippedMeans(before: map<Match, Compare>, done: set<Match>, ms: seq<Match>)
    requires Flipped(before, done) && forall m | m in ms :: m in before && m in done
    ensures Vals(ms) == FlipAll(BeforeOf(before, ms))
  {
  }

  /** One condition's part of the loop over all compares, some of which may be done already. */
  method FlipEach(ms: seq<Match>, ghost before: map<Match, Compare>, ghost done: set<Match>) returns (ghost now: set<Match>)
    requires (forall m | m in ms :: m in before) && Flipped(before, done)
    modifies ms
    ensures Flipped(before, now) && done <= now && forall m | m in ms :: m in now
  {
    hide Flip;
    now := done;
    for j := 0 to |ms|
      invariant Flipped(before, now) && done <= now && forall m | m in ms[..j] :: m in now
    {
      FlipIdempotent(before[ms[j]]);
      ms[j].FlipOneBitNeqToEq();
      now := now + {ms[j]};
    }
  }

  datatype MapStatus = AllMapped | Overflow | InternalError

  class IlaMapper {
    var ports: seq<Port>
    var conditions: seq<Condition>
    const isBasicCapture: bool

    constructor (isBasicCapture: bool)
      ensures Valid() && ports == [] && conditions == [] && this.isBasicCapture == isBasicCapture
    {
      this.isBasicCapture, ports, conditions := isBasicCapture, [], [];
    }

    /** No port and no condition is listed twice. */
    ghost predicate Valid()
      reads this
    {
      Distinct(ports) && Distinct(conditions)
    }

    function Matches(): set<Match>
      reads this, conditions
    {
      set c, m | c in conditions && m in c.matches :: m
    }

    lemma MatchesMembers()
      ensures forall c, m | c in conditions && m in c.matches :: m in Matches()
    {
    }

    function Widths(): seq<nat>
      reads this
    {
      seq(|ports|, p requires 0 <= p < |ports| reads this => ports[p].width)
    }

    function Counts(): seq<nat>
      reads this
    {
      seq(|ports|, p requires 0 <= p < |ports| reads this => ports[p].muCount)
    }

    function PortValues(): seq<seq<string>>
      reads this, ports
    {
      seq(|ports|, p requires 0 <= p < |ports| reads this, ports => ports[p].muValues)
    }

    /** Replaces the ports; `specs` lists width and number of match units of each. */
    method AddPorts(specs: seq<(nat, nat)>)
      requires Valid()
      modifies this`ports
      ensures Valid() && fresh(ports) && |ports| == |specs|
      ensures forall p | 0 <= p < |specs| :: Widths()[p] == specs[p].0 && Counts()[p] == specs[p].1
      ensures PortValues() == EmptyPorts(|specs|)
    {
      var added: seq<Port> := [];
      for p := 0 to |specs|
        invariant |added| == p && fresh(added) && Distinct(added)
        invariant forall q | 0 <= q < p ::
                    added[q].width == specs[q].0 && added[q].muCount == specs[q].1 && added[q].muValues == []
      {
        var port := new Port(specs[p].1, specs[p].0);
        added := added + [port];
      }
      ports := added;
    }

    /** Returns the index of the new condition. */
    method AddCondition(op: ConditionOp, name: string) returns (index: nat)
      requires Valid()
      modifies this`conditions
      ensures Valid() && index == |old(conditions)|
      ensures exists c :: fresh(c) && conditions == old(conditions) + [c] && c.op == op && c.name == name && c.matches == []
    {
      index := |conditions|;
      var c := new Condition(op, name);
      conditions := conditions + [c];
    }

    method AddProbeValue(condition: nat, port: nat, bit: nat, op: string, value: string)
      requires Valid() && condition < |conditions|
      modifies conditions[condition]
      ensures Valid()
      ensures exists m :: fresh(m) && conditions[condition].matches == old(conditions[condition].matches) + [m]
                       && m.V() == Compare(port, bit, op, WithoutUnderscores(Upper(value)))
    {
      var m := new Match(port, bit, op, WithoutUnderscores(Upper(value)));
      conditions[condition].matches := conditions[condition].matches + [m];
    }

    method EnsureProperTypes()
      requires Valid()
      modifies Matches()
      ensures forall c | c in conditions :: Vals(c.matches) == UpperAll(old(Vals(c.matches)))
    {
      hide UpperCase, Uppered, Vals, UpperAll, BeforeOf, Matches;
      MatchesMembers();
      ghost var all, done: set<Match> := Matches(), {};
      ghost var before := map m | m in all :: m.V();
      UpperedNone(before);
      forall c | c in conditions ensures Vals(c.matches) == BeforeOf(before, c.matches) {
        assert forall m | m in c.matches :: m in all;
        ValsBefore(before, c.matches);
      }
      for i := 0 to |conditions|
        invariant Uppered(before, done) && forall k, m | 0 <= k < i && m in conditions[k].matches :: m in done
      {
        assert conditions[i] in conditions;
        assert forall m | m in conditions[i].matches :: m in all;
        done := EnsureEach(conditions[i].matches, before, done);
      }
      forall c | c in conditions ensures Vals(c.matches) == UpperAll(old(Vals(c.matches))) {
        assert forall m | m in c.matches :: m in all && m in done;
        UpperedMeans(before, done, c.matches);
      }
    }

    method FlipOneBitNeqToEq()
      requires Valid()
      modifies Matches()
      ensures forall c | c in conditions :: Vals(c.matches) == FlipAll(old(Vals(c.matches)))
    {
      hide Flip, Flipped, Vals, FlipAll, BeforeOf, Matches;
      MatchesMembers();
      ghost var all, done: set<Match> := Matches(), {};
      ghost var before := map m | m in all :: m.V();
      FlippedNone(before);
      forall c | c in conditions ensures Vals(c.matches) == BeforeOf(before, c.matches) {
        assert forall m | m in c.matches :: m in all;
        ValsBefore(before, c.matches);
      }
      for i := 0 to |conditions|
        invariant Flipped(before, done) && forall k, m | 0 <= k < i && m in conditions[k].matches :: m in done
      {
        assert conditions[i] in conditions;
        assert forall m | m in conditions[i].matches :: m in all;
        done := FlipEach(conditions[i].matches, before, done);
      }
      forall c | c in conditions ensures Vals(c.matches) == FlipAll(old(Vals(c.matches))) {
        assert forall m | m in c.matches :: m in all && m in done;
        FlippedMeans(before, done, c.matches);
      }
    }

    method SortMatches()
      requires Valid()
      modifies conditions
      ensures Matches() <= old(Matches())
      ensures forall c | c in conditions :: Vals(c.matches) == SortByKey(old(Vals(c.matches)))
    {
      hide SortByKey, Vals;
      for i := 0 to |conditions|
        invariant forall k | 0 <= k < i :: Vals(conditions[k].matches) == SortByKey(old(Vals(conditions[k].matches)))
        invariant forall k, m | 0 <= k < i && m in conditions[k].matches :: m in old(conditions[k].matches)
        invariant forall k | i <= k < |conditions| :: conditions[k].matches == old(conditions[k].matches)
      {
        conditions[i].SortMatches();
      }
    }

    method RemoveDontCareMatches()
      requires Valid()
      modifies conditions
      ensures Matches() <= old(Matches())
      ensures forall c | c in conditions :: Vals(c.matches) == RemoveDontCare(old(Vals(c.matches)))
    {
      hide RemoveDontCare, Vals;
      for i := 0 to |conditions|
        invariant forall k | 0 <= k < i :: Vals(conditions[k].matches) == RemoveDontCare(old(Vals(conditions[k].matches)))
        invariant forall k, m | 0 <= k < i && m in conditions[k].matches :: m in old(conditions[k].matches)
        invariant forall k | i <= k < |conditions| :: conditions[k].matches == old(conditions[k].matches)
      {
        conditions[i].RemoveDontCareMatches();
      }
    }

    method MergeSharedPorts()
      requires Valid()
      modifies conditions
      ensures fresh(Matches() - old(Matches()))
      ensures forall c | c in conditions :: Vals(c.matches) == MergeFor(c.op, old(Vals(c.matches)))
    {
      hide MergeFor, Vals;
      for i := 0 to |conditions|
        invariant forall k | 0 <= k < i ::
                    Vals(conditions[k].matches) == MergeFor(conditions[k].op, old(Vals(conditions[k].matches)))
        invariant forall k, m | 0 <= k < i && m in conditions[k].matches :: m in old(conditions[k].matches) || fresh(m)
        invariant forall k | i <= k < |conditions| :: conditions[k].matches == old(conditions[k].matches)
      {
        conditions[i].MergeSharedPorts();
      }
    }

    method MapMatchUnit(m: Match) returns (status: MapStatus)
      requires Valid()
      modifies ports, m`muIndex
      ensures status == InternalError <==> !Fits(m.V(), Widths())
      ensures status != InternalError ==>
                && PortValues() == AllocateOne(old(PortValues()), Widths(), m.V())
                && m.muIndex == UnitOf(PortValues(), Widths(), m.V())
                && (status == AllMapped <==> m.muIndex < Counts()[m.portIndex])
    {
      if m.portIndex >= |ports| {
        return InternalError;
      }
      var port := ports[m.portIndex];
      var value := PortValue(m.V(), port.width);
      if value.None? {
        return InternalError;
      }
      m.muIndex := FirstIndex(port.muValues, value.value);
      if value.value !in port.muValues {
        FirstIndexOfNew(port.muValues, value.value);
        port.muValues := port.muValues + [value.value];
      }
      status := if m.muIndex < port.muCount then AllMapped else Overflow;
    }

    method MapEach(ms: seq<Match>) returns (status: MapStatus)
      requires Valid()
      modifies ports, ms`muIndex
      ensures Vals(ms) == old(Vals(ms))
      ensures status == InternalError <==> !AllFit(Vals(ms), Widths())
      ensures status != InternalError ==>
                && PortValues() == AllocateAll(old(PortValues()), Widths(), Vals(ms))
                && (forall i | 0 <= i < |ms| :: ms[i].muIndex == UnitOf(PortValues(), Widths(), Vals(ms)[i]))
                && (status == AllMapped <==> AllInRange(Vals(ms), Board(Widths(), Counts(), PortValues())))
    {
      hide Allocation, AllocateAll, AllocateOne, UnitOf, FirstIndex, PortValue;
      var result: seq<bool> := [];
      ghost var cs, widths, counts := Vals(ms), Widths(), Counts();
      ghost var start, values, units: seq<nat> := PortValues(), PortValues(), [];
      AllocationStart(start, widths, cs[..0]);
      for j := 0 to |ms|
        invariant Vals(ms) == cs && PortValues() == values && |units| == |result| == j
        invariant Allocation(start, widths, cs[..j], values, units)
        invariant forall i | 0 <= i < j :: ms[i].muIndex == units[i]
        invariant forall i | 0 <= i < j :: result[i] == (units[i] < CountAt(counts, cs[i].port))
      {
        var one := MapMatchUnit(ms[j]);
        assert Vals(ms) == cs;
        if one == InternalError {
          assert cs[j] in cs;
          return InternalError;
        }
        units := AllocateNext(start, widths, cs, j, values, units);
        values := PortValues();
        forall i | 0 <= i <= j ensures ms[i].muIndex == units[i] {
          assert ms[i] == ms[j] ==> cs[i] == cs[j];
        }
        result := result + [one == AllMapped];
      }
      assert cs[..|ms|] == cs;
      AllocationInRange(start, widths, counts, cs, values, units, result);
      status := if false in result then Overflow else AllMapped;
    }

    method MapMatchUnits() returns (status: MapStatus)
      requires Valid()
      modifies ports, AllMatches(conditions)`muIndex
      ensures AllMatches(conditions) == old(AllMatches(conditions))
      ensures Vals(AllMatches(conditions)) == old(Vals(AllMatches(conditions)))
      ensures forall c | c in conditions :: Vals(c.matches) == old(Vals(c.matches))
      ensures var cs := Vals(AllMatches(conditions));
              && (status == InternalError <==> !AllFit(cs, Widths()))
              && (status != InternalError ==>
                    && PortValues() == AllocateAll(old(PortValues()), Widths(), cs)
                    && (forall i | 0 <= i < |cs| ::
                          AllMatches(conditions)[i].muIndex == UnitOf(PortValues(), Widths(), cs[i]))
                    && (status == AllMapped <==> AllInRange(cs, Board(Widths(), Counts(), PortValues()))))
    {
      hide AllMatches, AllFit, AllInRange, AllocateAll, UnitOf;
      ghost var ms := AllMatches(conditions);
      forall c, m | c in conditions && m in c.matches ensures m in ms {
        AllMatchesMember(conditions, m);
      }
      status := MapEach(AllMatches(conditions));
    }

    /** All passes.  An internal error means that a participating compare does not fit on its
        port; otherwise every condition is compiled and every match has its match unit. */
    method Map() returns (status: MapStatus)
      requires Valid()
      modifies ports, conditions, Matches()
      ensures ports == old(ports) && conditions == old(conditions)
      ensures status == InternalError <==>
              !forall c | c in conditions :: ParticipatingFit(old(Vals(c.matches)), Widths())
      ensures forall c | c in conditions :: Vals(c.matches) == Compile(c.op, old(Vals(c.matches)))
      ensures status != InternalError ==>
                var cs := Vals(AllMatches(conditions));
                && AllFit(cs, Widths())
                && PortValues() == AllocateAll(old(PortValues()), Widths(), cs)
                && (forall i | 0 <= i < |cs| ::
                      AllMatches(conditions)[i].muIndex == UnitOf(PortValues(), Widths(), cs[i]))
                && (status == AllMapped <==> AllInRange(cs, Board(Widths(), Counts(), PortValues())))
    {
      hide Compile, ParticipatingFit, AllFit, AllInRange, AllocateAll, UnitOf, Vals;
      RunPasses();
      ghost var widths := Widths();
      forall c | c in conditions
        ensures AllFit(Vals(c.matches), widths) <==> ParticipatingFit(old(Vals(c.matches)), widths)
      {
        CompileFits(c.op, old(Vals(c.matches)), widths);
      }
      AllMatchesFit(conditions, widths);
      forall m | m in AllMatches(conditions) ensures m in Matches() {
        AllMatchesMember(conditions, m);
      }
      status := MapMatchUnits();
    }

    method RunPasses()
      requires Valid()
      modifies conditions, Matches()
      ensures ports == old(ports) && conditions == old(conditions)
      ensures fresh(Matches() - old(Matches()))
      ensures forall c | c in conditions :: Vals(c.matches) == Compile(c.op, old(Vals(c.matches)))
    {
      hide UpperAll, SortByKey, RemoveDontCare, FlipAll, MergeFor, Vals;
      EnsureProperTypes();
      SortMatches();
      RemoveDontCareMatches();
      FlipOneBitNeqToEq();
      MergeSharedPorts();
    }

    ghost function ConditionCompares(): (r: seq<seq<Compare>>)
      reads this, conditions, Matches()
      ensures |r| == |conditions| && forall i | 0 <= i < |r| :: r[i] == Vals(conditions[i].matches)
    {
      seq(|conditions|, i requires 0 <= i < |conditions| reads this, conditions, Matches() =>
        assert forall m | m in conditions[i].matches :: m in Matches() by { assert conditions[i] in conditions; }
        Vals(conditions[i].matches))
    }

    function MappedConditions(): (r: seq<MappedCondition>)
      reads this, conditions, Matches()
      ensures |r| == |conditions|
    {
      seq(|conditions|, i requires 0 <= i < |conditions| reads this, conditions, Matches() =>
        assert forall m | m in conditions[i].matches :: m in Matches() by { assert conditions[i] in conditions; }
        MappedCondition(conditions[i].op, conditions[i].name, MappedOf(conditions[i].matches)))
    }

    /** The registers of all conditions. */
    method AddConditions(unitCount: nat, unit: UnitIndex) returns (res: Option<Registers>)
      ensures res == ConditionRegisters(MappedConditions(), |conditions|, unitCount, unit, isBasicCapture)
    {
      hide ConditionValue, ConditionName, UsedUnits, MappedOf;
      var regs: Registers := map[];
      ghost var conds := MappedConditions();
      for i := 0 to |conditions|
        invariant MappedConditions() == conds
        invariant ConditionRegisters(conds, i, unitCount, unit, isBasicCapture) == Some(regs)
      {
        var used := UsedMatchUnits(conditions[i].matches, unitCount, unit);
        assert MappedConditions() == conds;
        if used.None? {
          ConditionRegistersNone(conds, i + 1, unitCount, unit, isBasicCapture);
          return None;
        }
        regs := regs[ConditionName(conditions[i].name, i, isBasicCapture) := ConditionValue(conditions[i].op, used.value)];
      }
      res := Some(regs);
    }

    /** The register dictionary, or None where the source runs out of its list of match units. */
    method GetRegMuMapping(unitCount: nat, unit: UnitIndex) returns (res: Option<Registers>)
      ensures res == AllRegisters(MappedConditions(), PortValues(), unitCount, unit, isBasicCapture)
    {
      hide ConditionRegisters, UnitRegisters, MappedOf;
      ghost var conds, values := MappedConditions(), PortValues();
      ghost var expected := AllRegisters(conds, values, unitCount, unit, isBasicCapture);
      var regs := AddConditions(unitCount, unit);
      assert MappedConditions() == conds && PortValues() == values;
      if regs.None? {
        res := None;
      } else {
        var all := AddMatchUnits(regs.value, unit);
        assert MappedConditions() == conds && PortValues() == values;
        res := Some(all);
      }
      assert expected == res;
    }

    method AddMatchUnits(start: Registers, unit: UnitIndex) returns (regs: Registers)
      ensures regs == UnitRegisters(start, PortValues(), |ports|, unit)
    {
      hide PortRegisters;
      regs := start;
      ghost var values := PortValues();
      for p := 0 to |ports|
        invariant regs == UnitRegisters(start, values, p, unit)
      {
        regs := AddPortUnits(regs, p, ports[p].muValues, unit);
      }
    }
  }

  method AddPortUnits(start: Registers, port: nat, values: seq<string>, unit: UnitIndex) returns (regs: Registers)
    ensures regs == PortRegisters(start, port, values, |values|, unit)
  {
    regs := start;
    for k := 0 to |values|
      invariant regs == PortRegisters(start, port, values, k, unit)
    {
      regs := regs[UnitName(unit(port, k)) := values[k]];
    }
  }

  method UsedMatchUnits(matches: seq<Match>, unitCount: nat, unit: UnitIndex) returns (res: Option<seq<bool>>)
    ensures res == UsedUnits(MappedOf(matches), unitCount, unit)
  {
    var used := seq(unitCount, _ => false);
    ghost var ms := MappedOf(matches);
    for j := 0 to |matches|
      invariant |used| == unitCount && UsedUnits(ms[..j], unitCount, unit) == Some(used)
    {
      var m := matches[j];
      assert ms[..j + 1][..j] == ms[..j];
      if m.muIndex >= 0 {
        var marked := Mark(used, unit(m.portIndex, m.muIndex));
        if marked.None? {
          UsedUnitsNone(ms, j + 1, unitCount, unit);
          return None;
        }
        used := marked.value;
      }
    }
    assert ms[..|ms|] == ms;
    res := Some(used);
  }

  function AllMatches(conds: seq<Condition>): seq<Match>
    reads conds
  {
    if conds == [] then [] else AllMatches(conds[..|conds| - 1]) + conds[|conds| - 1].matches
  }

  lemma {:induction false} AllMatchesMember(conds: seq<Condition>, m: Match)
    ensures m in AllMatches(conds) <==> exists c | c in conds :: m in c.matches
  {
    if conds != [] {
      AllMatchesMember(conds[..|conds| - 1], m);
      assert conds == conds[..|conds| - 1] + [conds[|conds| - 1]];
    }
  }

  lemma AllMatchesFit(conds: seq<Condition>, widths: seq<nat>)
    ensures AllFit(Vals(AllMatches(conds)), widths) <==> forall c | c in conds :: AllFit(Vals(c.matches), widths)
  {
    var ms := AllMatches(conds);
    forall c, x | c in conds && x in Vals(c.matches) ensures x in Vals(ms) {
      var j :| 0 <= j < |c.matches| && c.matches[j].V() == x;
      AllMatchesMember(conds, c.matches[j]);
      var k :| 0 <= k < |ms| && ms[k] == c.matches[j];
      assert Vals(ms)[k] == x;
    }
    forall x | x in Vals(ms) ensures exists c | c in conds :: x in Vals(c.matches) {
      var k :| 0 <= k < |ms| && ms[k].V() == x;
      AllMatchesMember(conds, ms[k]);
      var c :| c in conds && ms[k] in c.matches;
      var j :| 0 <= j < |c.matches| && c.matches[j] == ms[k];
      assert Vals(c.matches)[j] == x;
    }
  }

  lemma {:induction false} UsedUnitsNone(ms: seq<Mapped>, n: nat, unitCount: nat, unit: UnitIndex)
    requires n <= |ms| && UsedUnits(ms[..n], unitCount, unit).None?
    ensures UsedUnits(ms, unitCount, unit).None?
  {
    if n < |ms| {
      assert ms[..|ms| - 1][..n] == ms[..n];
      UsedUnitsNone(ms[..|ms| - 1], n, unitCount, unit);
    } else {
      assert ms[..n] == ms;
    }
  }

  lemma {:induction false} ConditionRegistersNone(conds: seq<MappedCondition>, n: nat, unitCount: nat, unit: UnitIndex,
                                                  basicCapture: bool)
    requires n <= |conds| && ConditionRegisters(conds, n, unitCount, unit, basicCapture).None?
    ensures ConditionRegisters(conds, |conds|, unitCount, unit, basicCapture).None?
    decreases |conds| - n
  {
    if n < |conds| {
      ConditionRegistersNone(conds, n + 1, unitCount, unit, basicCapture);
    }
  }

  function WithoutUnderscores(value: string): string {
    if value == "" then ""
    else if value[0] == '_' then WithoutUnderscores(value[1..])
    else [value[0]] + WithoutUnderscores(value[1..])
  }

  /** Exactly the underscores go. */
  lemma {:induction false} UnderscoresGo(value: string, c: char)
    ensures '_' !in WithoutUnderscores(value)
    ensures WithoutUnderscores(value + [c]) == WithoutUnderscores(value) + if c == '_' then "" else [c]
  {
    if value == "" {
      assert value + [c] == [c] && [c][1..] == "";
    } else {
      UnderscoresGo(value[1..], c);
      assert (value + [c])[1..] == value[1..] + [c];
    }
  }

  lemma UpperIdempotent(c: Compare)
    ensures UpperCase(UpperCase(c)) == UpperCase(c)
  {
  }

  lemma FlipIdempotent(c: Compare)
    ensures Flip(Flip(c)) == Flip(c)
  {
  }

  lemma MatchesCompiled(mapper: IlaMapper, j: nat, b: Board, cs: seq<Compare>)
    requires j < |mapper.conditions| && cs == Vals(AllMatches(mapper.conditions))
    requires BoardShape(b) && AllFit(cs, b.widths)
    requires forall i | 0 <= i < |cs| :: AllMatches(mapper.conditions)[i].muIndex == UnitOf(b.values, b.widths, cs[i])
    ensures forall m | m in mapper.MappedConditions()[j].ms :: m.c in cs && m.mu == UnitOf(b.values, b.widths, m.c)
  {
    var ms := mapper.conditions[j].matches;
    forall k | 0 <= k < |ms|
      ensures ms[k].V() in cs && ms[k].muIndex == UnitOf(b.values, b.widths, ms[k].V())
    {
      AllMatchesMember(mapper.conditions, ms[k]);
      var i :| 0 <= i < |cs| && AllMatches(mapper.conditions)[i] == ms[k];
      assert cs[i] == ms[k].V();
    }
  }

  lemma MappedIsCompiled(mapper: IlaMapper, source: seq<seq<Compare>>, b: Board, cs: seq<Compare>)
    requires |source| == |mapper.conditions| && cs == Vals(AllMatches(mapper.conditions))
    requires BoardShape(b) && AllFit(cs, b.widths)
    requires forall i | 0 <= i < |cs| :: AllMatches(mapper.conditions)[i].muIndex == UnitOf(b.values, b.widths, cs[i])
    requires forall j | 0 <= j < |source| ::
               Vals(mapper.conditions[j].matches) == Compile(mapper.conditions[j].op, source[j])
    ensures |mapper.MappedConditions()| == |source|
    ensures forall j | 0 <= j < |source| :: CompiledFrom(mapper.MappedConditions()[j], source[j], b, cs)
  {
    hide AllFit, UnitOf, Compile, BoardShape;
    forall j | 0 <= j < |source| ensures CompiledFrom(mapper.MappedConditions()[j], source[j], b, cs) {
      MatchesCompiled(mapper, j, b, cs);
    }
  }

  /** Map, then emit registers only when everything was mapped.  On any sample and for any
      meaning of the relational operators, the emitted registers fire exactly when the
      conditions as the mapper was given them hold. */
  method CompileTrigger(mapper: IlaMapper, unitCount: nat, unit: UnitIndex, ghost wiring: int -> nat)
    returns (status: MapStatus, regs: Registers)
    requires mapper.Valid() && mapper.PortValues() == EmptyPorts(|mapper.ports|)
    requires UnitsNumbered(mapper.Counts(), unitCount, unit, wiring)
    requires forall c | c in mapper.conditions :: WellFormedSource(Vals(c.matches))
    requires NamesDistinct(Names(mapper.MappedConditions()), unitCount, mapper.isBasicCapture)
    modifies mapper.ports, mapper.conditions, mapper.Matches()
    ensures mapper.conditions == old(mapper.conditions)
    ensures status == InternalError <==>
            !forall i | 0 <= i < |mapper.conditions| ::
               ParticipatingFit(old(mapper.ConditionCompares())[i], mapper.Widths())
    ensures forall i | 0 <= i < |mapper.conditions| ::
              Vals(mapper.conditions[i].matches) ==
              Compile(mapper.conditions[i].op, old(mapper.ConditionCompares())[i])
    ensures status != InternalError ==>
              var cs := Vals(AllMatches(mapper.conditions));
              && AllFit(cs, mapper.Widths())
              && (status == Overflow <==>
                    exists p | 0 <= p < |mapper.ports| :: |Wanted(cs, mapper.Widths(), p)| > mapper.Counts()[p])
    ensures status == AllMapped ==>
              RegistersMean(regs, mapper.MappedConditions(), old(mapper.ConditionCompares()), wiring,
                            mapper.isBasicCapture)
    ensures status == AllMapped ==>
              forall name | Unclaimed(Names(old(mapper.MappedConditions())), mapper.Counts(), unit,
                                      mapper.isBasicCapture, name) :: name !in regs
    ensures status == AllMapped ==>
              FullWidth(regs, Names(old(mapper.MappedConditions())), unitCount, mapper.isBasicCapture)
    ensures status != AllMapped ==> regs == map[]
  {
    hide UnitsNumbered, NamesDistinct, AllRegisters, RegistersMean, WellFormedSource, Compile, ParticipatingFit,
         AllocateAll, AllInRange, UnitOf, Wanted, AllFit, AllMatches, Unclaimed, FullWidth;
    regs := map[];
    ghost var source := mapper.ConditionCompares();
    ghost var names := Names(mapper.MappedConditions());
    status := mapper.Map();
    ghost var widths, counts, cs := mapper.Widths(), mapper.Counts(), Vals(AllMatches(mapper.conditions));
    forall i | 0 <= i < |mapper.conditions|
      ensures source[i] == old(Vals(mapper.conditions[i].matches)) && mapper.conditions[i] in mapper.conditions
    {
    }
    if status != InternalError {
      AllocationSucceedsExactly(widths, counts, cs);
    }
    if status == AllMapped {
      var res := mapper.GetRegMuMapping(unitCount, unit);
      ghost var b := Board(widths, counts, mapper.PortValues());
      assert Names(mapper.MappedConditions()) == names;
      MappedMeans(mapper, source, b, cs, unitCount, unit, wiring);
      regs := res.value;
      RegistersAreFullWidth(mapper.MappedConditions(), b, unitCount, unit, wiring, mapper.isBasicCapture);
      forall name | Unclaimed(names, counts, unit, mapper.isBasicCapture, name) ensures name !in regs {
        NoOtherRegister(mapper.MappedConditions(), b, unitCount, unit, mapper.isBasicCapture, name);
      }
    }
  }

  /** Once all is mapped, the registers mean the conditions. */
  lemma MappedMeans(mapper: IlaMapper, source: seq<seq<Compare>>, b: Board, cs: seq<Compare>, unitCount: nat,
                    unit: UnitIndex, wiring: int -> nat)
    requires |source| == |mapper.conditions| && cs == Vals(AllMatches(mapper.conditions))
    requires BoardShape(b) && AllFit(cs, b.widths) && AllInRange(cs, b)
    requires b.values == AllocateAll(EmptyPorts(|b.widths|), b.widths, cs)
    requires UnitsNumbered(b.counts, unitCount, unit, wiring)
    requires NamesDistinct(Names(mapper.MappedConditions()), unitCount, mapper.isBasicCapture)
    requires forall i | 0 <= i < |cs| :: AllMatches(mapper.conditions)[i].muIndex == UnitOf(b.values, b.widths, cs[i])
    requires forall j | 0 <= j < |source| ::
               && WellFormedSource(source[j])
               && Vals(mapper.conditions[j].matches) == Compile(mapper.conditions[j].op, source[j])
    ensures AllRegisters(mapper.MappedConditions(), b.values, unitCount, unit, mapper.isBasicCapture).Some?
    ensures RegistersMean(AllRegisters(mapper.MappedConditions(), b.values, unitCount, unit, mapper.isBasicCapture).value,
                          mapper.MappedConditions(), source, wiring, mapper.isBasicCapture)
  {
    hide UnitsNumbered, NamesDistinct, AllRegisters, RegistersMean, WellFormedSource, Compile, AllocateAll, AllInRange,
         UnitOf, AllFit, CompiledFrom;
    MappedIsCompiled(mapper, source, b, cs);
    CompilerIsCorrectAlways(source, mapper.MappedConditions(), b, cs, unitCount, unit, wiring, mapper.isBasicCapture);
  }
}
