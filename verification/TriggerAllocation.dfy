/** Sharing of match units: compares of one port with the same port-wide string share one. */
module TriggerAllocation {
  import opened TriggerSemantics
  import opened TriggerCompiler
  import opened TriggerRegisters
  import opened Wrappers

  ghost predicate Distinct<T>(xs: seq<T>) {
    forall i, j | 0 <= i < j < |xs| :: xs[i] != xs[j]
  }

  /** The first position of `x`, or the length. */
  function FirstIndex(xs: seq<string>, x: string): (i: nat)
    ensures i <= |xs| && x !in xs[..i]
    ensures i < |xs| <==> x in xs
    ensures i < |xs| ==> xs[i] == x
  {
    if xs == [] || xs[0] == x then 0
    else
      var i := FirstIndex(xs[1..], x);
      assert xs[..i + 1] == [xs[0]] + xs[1..][..i];
      i + 1
  }

  function AllocateOne(values: seq<seq<string>>, widths: seq<nat>, c: Compare): (r: seq<seq<string>>)
    requires |values| == |widths| && Fits(c, widths)
    ensures |r| == |values|
  {
    var v := PortValue(c, widths[c.port]).value;
    if v in values[c.port] then values else values[c.port := values[c.port] + [v]]
  }

  ghost function AllocateAll(values: seq<seq<string>>, widths: seq<nat>, cs: seq<Compare>): (r: seq<seq<string>>)
    requires |values| == |widths| && AllFit(cs, widths)
    ensures |r| == |values|
  {
    if cs == [] then values
    else AllocateOne(AllocateAll(values, widths, cs[..|cs| - 1]), widths, cs[|cs| - 1])
  }

  ghost predicate Wants(c: Compare, widths: seq<nat>, p: nat, v: string)
    requires Fits(c, widths)
  {
    c.port == p && PortValue(c, widths[c.port]).value == v
  }

  ghost predicate SomeWants(cs: seq<Compare>, widths: seq<nat>, p: nat, v: string)
    requires AllFit(cs, widths)
  {
    exists c | c in cs :: Wants(c, widths, p, v)
  }

  lemma SomeWantsLast(cs: seq<Compare>, widths: seq<nat>, p: nat, v: string)
    requires AllFit(cs, widths) && cs != []
    ensures SomeWants(cs, widths, p, v) <==>
            SomeWants(cs[..|cs| - 1], widths, p, v) || Wants(cs[|cs| - 1], widths, p, v)
  {
    assert cs == cs[..|cs| - 1] + [cs[|cs| - 1]];
  }

  /** A port's strings only grow at the end, stay distinct, and become exactly those wanted. */
  lemma {:induction false} AllocateAllExact(values: seq<seq<string>>, widths: seq<nat>, cs: seq<Compare>, p: nat)
    requires |values| == |widths| && AllFit(cs, widths) && p < |values|
    ensures var r := AllocateAll(values, widths, cs);
            && values[p] <= r[p]
            && (Distinct(values[p]) ==> Distinct(r[p]))
            && (forall v :: v in r[p] <==> v in values[p] || SomeWants(cs, widths, p, v))
  {
    if cs != [] {
      AllocateAllExact(values, widths, cs[..|cs| - 1], p);
      forall v
        ensures v in AllocateAll(values, widths, cs)[p] <==> v in values[p] || SomeWants(cs, widths, p, v)
      {
        SomeWantsLast(cs, widths, p, v);
      }
    }
  }

  /** The unit that a compare gets is not affected by later compares. */
  lemma {:induction false} FirstIndexStable(xs: seq<string>, ys: seq<string>, x: string)
    requires xs <= ys && x in xs
    ensures FirstIndex(ys, x) == FirstIndex(xs, x)
  {
    if xs[0] != x {
      FirstIndexStable(xs[1..], ys[1..], x);
    }
  }

  lemma {:induction false} FirstIndexOfNew(xs: seq<string>, x: string)
    requires x !in xs
    ensures FirstIndex(xs + [x], x) == FirstIndex(xs, x) == |xs|
  {
    if xs != [] {
      FirstIndexOfNew(xs[1..], x);
      assert (xs + [x])[1..] == xs[1..] + [x];
    }
  }

  lemma FirstIndexOfDistinct(xs: seq<string>, i: nat)
    requires Distinct(xs) && i < |xs|
    ensures FirstIndex(xs, xs[i]) == i
  {
  }

  lemma {:induction false} DistinctCount(xs: seq<string>)
    requires Distinct(xs)
    ensures |set x | x in xs| == |xs|
  {
    if xs != [] {
      DistinctCount(xs[1..]);
      assert (set x | x in xs) == {xs[0]} + set x | x in xs[1..];
      assert xs[0] !in xs[1..];
    }
  }

  /** The match unit, within its port, that holds the compare's string. */
  function UnitOf(values: seq<seq<string>>, widths: seq<nat>, c: Compare): nat
    requires |values| == |widths| && Fits(c, widths)
  {
    FirstIndex(values[c.port], PortValue(c, widths[c.port]).value)
  }

  ghost predicate AllInRange(cs: seq<Compare>, b: Board)
    requires BoardShape(b) && AllFit(cs, b.widths)
  {
    forall c | c in cs :: UnitOf(b.values, b.widths, c) < b.counts[c.port]
  }

  /** The port strings and the units of the compares once they are all allocated. */
  ghost predicate Allocation(start: seq<seq<string>>, widths: seq<nat>, cs: seq<Compare>,
                             values: seq<seq<string>>, units: seq<nat>) {
    && |start| == |widths| && |units| == |cs|
    && AllFit(cs, widths) && values == AllocateAll(start, widths, cs)
    && forall i | 0 <= i < |cs| :: units[i] == UnitOf(values, widths, cs[i])
  }

  lemma AllocationStart(start: seq<seq<string>>, widths: seq<nat>, cs: seq<Compare>)
    requires |start| == |widths| && cs == []
    ensures Allocation(start, widths, cs, start, [])
  {
  }

  lemma UnitStays(start: seq<seq<string>>, widths: seq<nat>, cs: seq<Compare>, values: seq<seq<string>>,
                  next: Compare, c: Compare)
    requires |start| == |widths| && AllFit(cs, widths) && values == AllocateAll(start, widths, cs)
    requires Fits(next, widths) && c in cs
    ensures UnitOf(AllocateOne(values, widths, next), widths, c) == UnitOf(values, widths, c)
  {
    hide AllocateAll, FirstIndex;
    var v := PortValue(c, widths[c.port]).value;
    AllocateAllExact(start, widths, cs, c.port);
    assert Wants(c, widths, c.port, v) && SomeWants(cs, widths, c.port, v);
    hide SomeWants, PortValue;
    FirstIndexStable(values[c.port], AllocateOne(values, widths, next)[c.port], v);
  }

  /** One more compare: earlier compares keep their units. */
  lemma AllocateNext(start: seq<seq<string>>, widths: seq<nat>, cs: seq<Compare>, j: nat,
                     values: seq<seq<string>>, units: seq<nat>) returns (units': seq<nat>)
    requires j < |cs| && Allocation(start, widths, cs[..j], values, units) && Fits(cs[j], widths)
    ensures |values| == |widths|
    ensures var values' := AllocateOne(values, widths, cs[j]);
            && Allocation(start, widths, cs[..j + 1], values', units')
            && units' == units + [UnitOf(values', widths, cs[j])]
            && forall i | 0 <= i < j && cs[i] == cs[j] :: units'[i] == units'[j]
  {
    assert cs[..j + 1] == cs[..j] + [cs[j]] && cs[..j + 1][..j] == cs[..j];
    var values' := AllocateOne(values, widths, cs[j]);
    AllocateAllLast(start, widths, cs[..j], cs[j]);
    hide UnitOf, AllocateOne, AllocateAll, Fits, PortValue;
    units' := units + [UnitOf(values', widths, cs[j])];
    forall i | 0 <= i < j ensures units[i] == UnitOf(values', widths, cs[i]) {
      assert cs[..j][i] == cs[i] && cs[i] in cs[..j];
      UnitStays(start, widths, cs[..j], values, cs[j], cs[i]);
    }
  }

  lemma AllocateAllLast(start: seq<seq<string>>, widths: seq<nat>, cs: seq<Compare>, c: Compare)
    requires |start| == |widths| && AllFit(cs, widths) && Fits(c, widths)
    ensures AllFit(cs + [c], widths)
    ensures AllocateAll(start, widths, cs + [c]) == AllocateOne(AllocateAll(start, widths, cs), widths, c)
  {
    assert (cs + [c])[..|cs|] == cs;
  }

  function CountAt(counts: seq<nat>, p: nat): nat {
    if p < |counts| then counts[p] else 0
  }

  lemma AllocationInRange(start: seq<seq<string>>, widths: seq<nat>, counts: seq<nat>, cs: seq<Compare>,
                          values: seq<seq<string>>, units: seq<nat>, result: seq<bool>)
    requires Allocation(start, widths, cs, values, units) && |counts| == |widths| && |result| == |cs|
    requires forall i | 0 <= i < |cs| :: result[i] == (units[i] < CountAt(counts, cs[i].port))
    ensures AllFit(cs, widths) && values == AllocateAll(start, widths, cs)
    ensures forall i | 0 <= i < |cs| :: units[i] == UnitOf(values, widths, cs[i])
    ensures false !in result <==> AllInRange(cs, Board(widths, counts, values))
  {
    if false !in result {
      forall c | c in cs ensures UnitOf(values, widths, c) < counts[c.port] {
        var i :| 0 <= i < |cs| && cs[i] == c;
        assert result[i] in result;
      }
    } else {
      var i :| 0 <= i < |cs| && !result[i];
      assert cs[i] in cs;
    }
  }

  /** The different port-wide strings that the compares want on port `p`. */
  ghost function Wanted(cs: seq<Compare>, widths: seq<nat>, p: nat): set<string>
    requires AllFit(cs, widths)
  {
    set c | c in cs && c.port == p :: PortValue(c, widths[c.port]).value
  }

  /** From empty ports, every compare gets a unit that exists exactly when no port is asked
      for more different strings than it has units. */
  lemma AllocationSucceedsExactly(widths: seq<nat>, counts: seq<nat>, cs: seq<Compare>)
    requires |widths| == |counts| && AllFit(cs, widths)
    ensures var b := Board(widths, counts, AllocateAll(EmptyPorts(|widths|), widths, cs));
            && (AllInRange(cs, b) <==> forall p | 0 <= p < |widths| :: |Wanted(cs, widths, p)| <= counts[p])
            && (AllInRange(cs, b) <==> NoOverflow(b))
  {
    var empty := EmptyPorts(|widths|);
    var b := Board(widths, counts, AllocateAll(empty, widths, cs));
    forall p | 0 <= p < |widths|
      ensures |Wanted(cs, widths, p)| == |b.values[p]|
      ensures |b.values[p]| > counts[p] ==> !AllInRange(cs, b)
    {
      AllocateAllExact(empty, widths, cs, p);
      DistinctCount(b.values[p]);
      forall v ensures v in Wanted(cs, widths, p) <==> v in b.values[p] {
        assert v in Wanted(cs, widths, p) <==> SomeWants(cs, widths, p, v);
      }
      assert Wanted(cs, widths, p) == set v | v in b.values[p];
      if |b.values[p]| > counts[p] {
        var last := b.values[p][counts[p]];
        FirstIndexOfDistinct(b.values[p], counts[p]);
        assert last in b.values[p] && SomeWants(cs, widths, p, last);
        var c :| c in cs && Wants(c, widths, p, last);
      }
    }
    forall c | c in cs && NoOverflow(b)
      ensures UnitOf(b.values, widths, c) < counts[c.port]
    {
      AllocateAllExact(empty, widths, cs, c.port);
      var v := PortValue(c, widths[c.port]).value;
      assert Wants(c, widths, c.port, v) && SomeWants(cs, widths, c.port, v);
    }
  }

  ghost function EmptyPorts(n: nat): seq<seq<string>> {
    seq(n, _ => [])
  }

  /** Allocation from empty ports gives every compare a unit that holds its own string. */
  lemma AllocationIsSound(widths: seq<nat>, counts: seq<nat>, cs: seq<Compare>, c: Compare)
    requires |widths| == |counts| && AllFit(cs, widths) && c in cs
    ensures var b := Board(widths, counts, AllocateAll(EmptyPorts(|widths|), widths, cs));
            Allocated(Mapped(c, UnitOf(b.values, widths, c)), b)
  {
    var v := PortValue(c, widths[c.port]).value;
    AllocateAllExact(EmptyPorts(|widths|), widths, cs, c.port);
    assert Wants(c, widths, c.port, v) && SomeWants(cs, widths, c.port, v);
  }

  /** The condition's compares are compiled, and mapped to the units allocated for `cs`. */
  ghost predicate CompiledFrom(cond: MappedCondition, source: seq<Compare>, b: Board, cs: seq<Compare>)
    requires BoardShape(b) && AllFit(cs, b.widths)
  {
    && Compares(cond.ms) == Compile(cond.op, source)
    && forall m | m in cond.ms :: m.c in cs && m.mu == UnitOf(b.values, b.widths, m.c)
  }

  /** The compiler is correct: when all compares `cs` of all conditions were mapped, the
      registers fire exactly on the samples that the source conditions mean. */
  lemma CompilerIsCorrect(source: seq<seq<Compare>>, conds: seq<MappedCondition>, b: Board, cs: seq<Compare>,
                          unitCount: nat, unit: UnitIndex, wiring: int -> nat, basicCapture: bool,
                          i: nat, s: Sample, rel: Relation)
    requires BoardShape(b) && AllFit(cs, b.widths) && AllInRange(cs, b)
    requires b.values == AllocateAll(EmptyPorts(|b.widths|), b.widths, cs)
    requires UnitsNumbered(b.counts, unitCount, unit, wiring) && NamesDistinct(Names(conds), unitCount, basicCapture)
    requires |source| == |conds| && forall j | 0 <= j < |conds| ::
               WellFormedSource(source[j]) && CompiledFrom(conds[j], source[j], b, cs)
    requires i < |conds|
    ensures AllRegisters(conds, b.values, unitCount, unit, basicCapture).Some?
    ensures ConditionFires(AllRegisters(conds, b.values, unitCount, unit, basicCapture).value,
                           ConditionName(conds[i].name, i, basicCapture), wiring, s, rel)
            <==> WrittenMeaning(conds[i].op, source[i], s, rel)
  {
    AllocationSucceedsExactly(b.widths, b.counts, cs);
    forall j, m | 0 <= j < |conds| && m in conds[j].ms ensures Allocated(m, b) {
      AllocationIsSound(b.widths, b.counts, cs, m.c);
    }
    RegistersMeanSource(source, conds, b, unitCount, unit, wiring, basicCapture, i, s, rel);
  }

  /** On every sample, and whatever the relational operators mean, each condition's register
      fires exactly when the source condition holds. */
  ghost predicate RegistersMean(regs: Registers, conds: seq<MappedCondition>, source: seq<seq<Compare>>,
                                wiring: int -> nat, basicCapture: bool) {
    |source| == |conds| && forall i, s: Sample, rel: Relation | 0 <= i < |conds| ::
      ConditionFires(regs, ConditionName(conds[i].name, i, basicCapture), wiring, s, rel)
      <==> WrittenMeaning(conds[i].op, source[i], s, rel)
  }

  lemma CompilerIsCorrectAlways(source: seq<seq<Compare>>, conds: seq<MappedCondition>, b: Board, cs: seq<Compare>,
                                unitCount: nat, unit: UnitIndex, wiring: int -> nat, basicCapture: bool)
    requires BoardShape(b) && AllFit(cs, b.widths) && AllInRange(cs, b)
    requires b.values == AllocateAll(EmptyPorts(|b.widths|), b.widths, cs)
    requires UnitsNumbered(b.counts, unitCount, unit, wiring) && NamesDistinct(Names(conds), unitCount, basicCapture)
    requires |source| == |conds| && forall j | 0 <= j < |conds| ::
               WellFormedSource(source[j]) && CompiledFrom(conds[j], source[j], b, cs)
    ensures AllRegisters(conds, b.values, unitCount, unit, basicCapture).Some?
    ensures RegistersMean(AllRegisters(conds, b.values, unitCount, unit, basicCapture).value, conds, source,
                          wiring, basicCapture)
  {
    var regs := AllRegisters(conds, b.values, unitCount, unit, basicCapture);
    if conds == [] {
      assert regs.Some?;
    } else {
      CompilerIsCorrect(source, conds, b, cs, unitCount, unit, wiring, basicCapture, 0,
                        (p, k) => Edge(false, false), (o, p, a, s) => false);
    }
    hide AllRegisters, UnitsNumbered, NamesDistinct, CompiledFrom, WellFormedSource, ConditionFires, WrittenMeaning,
         AllInRange, AllocateAll, AllFit;
    forall i, s: Sample, rel: Relation | 0 <= i < |conds|
      ensures ConditionFires(regs.value, ConditionName(conds[i].name, i, basicCapture), wiring, s, rel)
              <==> WrittenMeaning(conds[i].op, source[i], s, rel)
    {
      CompilerIsCorrect(source, conds, b, cs, unitCount, unit, wiring, basicCapture, i, s, rel);
    }
  }
}
