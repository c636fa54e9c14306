/** The trigger state machine's use of the mapper: the compares of every branch are split over
    ports, mapped, and turned into the core's registers. */
module TriggerTsm {
  import opened Decimal
  import opened PortMap
  import opened TriggerSemantics
  import opened TriggerCompiler
  import opened TriggerRegisters
  import opened TriggerAllocation
  import opened TriggerMapper
  import opened TriggerProbes

  /** What the mapper makes of a compare that it is given. */
  function Prepared(c: Compare): Compare {
    c.(value := WithoutUnderscores(Upper(c.value)))
  }

  function PreparedAll(cs: seq<Compare>): seq<Compare> {
    seq(|cs|, i requires 0 <= i < |cs| => Prepared(cs[i]))
  }

  lemma {:induction false} NoUnderscores(value: string)
    requires '_' !in value
    ensures WithoutUnderscores(value) == value
  {
    if value != "" {
      assert value == [value[0]] + value[1..] && value[0] in value;
      NoUnderscores(value[1..]);
    }
  }

  lemma UpperHasNoUnderscore(value: string)
    requires '_' !in value
    ensures '_' !in Upper(value)
  {
    forall i | 0 <= i < |value| ensures Upper(value)[i] != '_' {
      assert value[i] in value;
    }
  }

  lemma {:induction false} PartsHaveNoUnderscore(op: string, value: string, segs: seq<MapPortSeq>)
    requires Ranges(segs) && |value| == Width(segs) && '_' !in value
    ensures forall c | c in SplitOver(op, value, segs) :: '_' !in c.value
    decreases |segs|
  {
    hide SplitOver, Width, FirstPart, OtherBits;
    if segs == [] {
      NoParts(op);
      assert value == [];
    } else {
      SplitFirst(op, value, segs);
      FirstPartIs(value, segs);
      PartsHaveNoUnderscore(op, OtherBits(value, segs), segs[1..]);
    }
  }

  lemma PreparedIsUpper(c: Compare)
    requires '_' !in c.value
    ensures Prepared(c) == UpperCase(c)
  {
    hide Upper;
    UpperHasNoUnderscore(c.value);
    NoUnderscores(Upper(c.value));
  }

  /** What the mapper makes of the parts of a probe compare is the parts in upper case. */
  lemma PreparedParts(p: ProbeCompare)
    requires Fills(p) && '_' !in p.value
    ensures PreparedAll(Parts(p)) == UpperAll(Parts(p))
  {
    hide Prepared, UpperCase, SplitOver, Width;
    PartsHaveNoUnderscore(p.op, p.value, p.segs);
    forall i | 0 <= i < |Parts(p)| ensures Prepared(Parts(p)[i]) == UpperCase(Parts(p)[i]) {
      assert Parts(p)[i] in Parts(p);
      PreparedIsUpper(Parts(p)[i]);
    }
  }

  /** The parts made of the first segments. */
  ghost function Zipped(op: string, segs: seq<MapPortSeq>, vals: seq<string>): seq<Compare>
    requires |vals| <= |segs|
  {
    seq(|vals|, i requires 0 <= i < |vals| => Compare(segs[i].port, segs[i].low, op, vals[i]))
  }

  lemma ZippedLast(op: string, segs: seq<MapPortSeq>, vals: seq<string>, v: string)
    requires |vals| < |segs|
    ensures Zipped(op, segs, vals + [v]) == Zipped(op, segs, vals) + [Compare(segs[|vals|].port, segs[|vals|].low, op, v)]
  {
  }

  lemma ZippedNext(op: string, segs: seq<MapPortSeq>, vals: seq<string>, value: string, idx: nat)
    requires Ranges(segs) && |vals| < |segs| && idx <= |value| && idx == Width(segs[|vals|..])
    ensures
      var k, w := |vals|, segs[|vals|].high - segs[|vals|].low + 1;
      && w <= idx && idx - w == Width(segs[k + 1..])
      && Zipped(op, segs, vals) + SplitOver(op, value[..idx], segs[k..]) ==
         Zipped(op, segs, vals + [value[idx - w..idx]]) + SplitOver(op, value[..idx - w], segs[k + 1..])
  {
    hide SplitOver, Width, FirstPart, OtherBits, Zipped;
    var k, w := |vals|, segs[|vals|].high - segs[|vals|].low + 1;
    assert segs[k..][1..] == segs[k + 1..];
    FirstWidth(segs[k..]);
    SplitFirst(op, value[..idx], segs[k..]);
    FirstPartIs(value[..idx], segs[k..]);
    assert value[..idx][idx - w..] == value[idx - w..idx] && value[..idx][..idx - w] == value[..idx - w];
    ZippedLast(op, segs, vals, value[idx - w..idx]);
  }

  /** One segment. */
  method AddPart(mapper: IlaMapper, index: nat, part: Compare)
    requires mapper.Valid() && index < |mapper.conditions|
    modifies mapper.conditions[index]
    ensures mapper.Valid()
    ensures var c := mapper.conditions[index];
            && |c.matches| == |old(c.matches)| + 1 && c.matches[..|old(c.matches)|] == old(c.matches)
            && fresh(c.matches[|old(c.matches)|])
            && Vals(c.matches) == old(Vals(c.matches)) + [Prepared(part)]
  {
    hide Vals;
    ghost var before := mapper.conditions[index].matches;
    mapper.AddProbeValue(index, part.port, part.bit, part.op, part.value);
    ghost var c := mapper.conditions[index];
    assert c.matches == before + [c.matches[|before|]];
    ValsLast(before, c.matches[|before|]);
  }

  /** `add_probe_value_to_ports`: one compare for every segment. */
  method AddProbeValueToPorts(mapper: IlaMapper, index: nat, p: ProbeCompare)
    requires mapper.Valid() && index < |mapper.conditions| && Fills(p) && '_' !in p.value
    modifies mapper.conditions[index]
    ensures mapper.Valid()
    ensures var c := mapper.conditions[index];
            && old(c.matches) <= c.matches && fresh(c.matches[|old(c.matches)|..])
            && Vals(c.matches) == old(Vals(c.matches)) + UpperAll(Parts(p))
  {
    hide SplitOver, Width, Vals, PreparedAll, Prepared, Fills;
    var vals := SplitValue(p);
    PreparedParts(p);
    ghost var parts := Parts(p);
    var c := mapper.conditions[index];
    ghost var before, beforeVals := c.matches, Vals(c.matches);
    NonePrepared();
    for k := 0 to |p.segs|
      invariant mapper.Valid() && before <= c.matches && |c.matches| == |before| + k
      invariant forall i | |before| <= i < |c.matches| :: fresh(c.matches[i])
      invariant Vals(c.matches) == beforeVals + PreparedAll(parts[..k])
    {
      AddPart(mapper, index, Compare(p.segs[k].port, p.segs[k].low, p.op, vals[k]));
      PreparedLast(parts, k);
    }
    assert parts[..|parts|] == parts;
  }

  lemma PreparedLast(cs: seq<Compare>, k: nat)
    requires k < |cs|
    ensures PreparedAll(cs[..k + 1]) == PreparedAll(cs[..k]) + [Prepared(cs[k])]
  {
  }

  lemma NonePrepared()
    ensures PreparedAll([]) == []
  {
  }

  /** The first loop: the slice of the value for each segment, from the low end. */
  method SplitValue(p: ProbeCompare) returns (vals: seq<string>)
    requires Fills(p)
    ensures |vals| == |p.segs| == |Parts(p)|
    ensures forall i | 0 <= i < |vals| :: Parts(p)[i] == Compare(p.segs[i].port, p.segs[i].low, p.op, vals[i])
  {
    hide SplitOver, Width;
    vals := [];
    var idx := |p.value|;
    assert p.segs[0..] == p.segs && p.value[..idx] == p.value;
    for k := 0 to |p.segs|
      invariant |vals| == k && 0 <= idx <= |p.value| && idx == Width(p.segs[k..])
      invariant Zipped(p.op, p.segs, vals) + SplitOver(p.op, p.value[..idx], p.segs[k..]) == Parts(p)
    {
      var w := p.segs[k].high - p.segs[k].low + 1;
      ZippedNext(p.op, p.segs, vals, p.value, idx);
      vals := vals + [p.value[idx - w..idx]];
      idx := idx - w;
    }
    NoParts(p.op);
    assert p.segs[|p.segs|..] == [] && p.value[..idx] == [];
    assert Parts(p) == Zipped(p.op, p.segs, vals);
  }

  // ---------- the whole state machine

  const MAX_STATE_COUNT: nat := 16

  datatype TsmPort = TsmPort(width: nat, matchUnits: seq<nat>)

  /** A branch that compares probes, with the number of its state and its place there. */
  datatype Branch = Branch(state: nat, index: nat, op: ConditionOp, probes: seq<ProbeCompare>)

  /** `make_tc_name`. */
  function TcName(b: Branch): string {
    "tc" + PrintInt(b.state + b.index * MAX_STATE_COUNT)
  }

  /** With basic capture control, the first match unit of every port is reserved. */
  function Usable(port: TsmPort, reserve: bool): nat {
    if reserve && |port.matchUnits| > 0 then |port.matchUnits| - 1 else |port.matchUnits|
  }

  function MuIndex(ports: seq<TsmPort>, reserve: bool): UnitIndex {
    (p: nat, k: nat) => MuIndexOf(ports, reserve, p, k)
  }

  /** `get_mu_index`. */
  function MuIndexOf(ports: seq<TsmPort>, reserve: bool, p: nat, k: nat): int {
    var j := if reserve then k + 1 else k;
    var unit: int := if p < |ports| && j < |ports[p].matchUnits| then ports[p].matchUnits[j] else -1;
    unit
  }

  function UnitCount(ports: seq<TsmPort>): nat {
    if ports == [] then 0 else |ports[0].matchUnits| + UnitCount(ports[1..])
  }

  /** The match units of all ports. */
  lemma UnitCountIs(ports: seq<TsmPort>, p: TsmPort)
    ensures UnitCount([]) == 0 && UnitCount([p] + ports) == |p.matchUnits| + UnitCount(ports)
  {
    assert ([p] + ports)[1..] == ports;
  }

  /** A unit that the port does not have has the number -1. */
  lemma NoUnit(ports: seq<TsmPort>, reserve: bool, p: nat, k: nat)
    ensures p >= |ports| || (if reserve then k + 1 else k) >= |ports[p].matchUnits| ==> MuIndexOf(ports, reserve, p, k) == -1
  {
  }

  /** The core numbers its match units. */
  ghost predicate UnitsUnique(ports: seq<TsmPort>) {
    && (forall p, j | 0 <= p < |ports| && 0 <= j < |ports[p].matchUnits| :: ports[p].matchUnits[j] < UnitCount(ports))
    && (forall p, j, q, k | 0 <= p < |ports| && 0 <= j < |ports[p].matchUnits|
                         && 0 <= q < |ports| && 0 <= k < |ports[q].matchUnits| ::
          ports[p].matchUnits[j] == ports[q].matchUnits[k] ==> p == q && j == k)
  }

  /** The port that a match unit looks at. */
  ghost function PortOf(ports: seq<TsmPort>, k: int): nat {
    if p: nat, j: nat :| p < |ports| && j < |ports[p].matchUnits| && ports[p].matchUnits[j] == k then p else 0
  }

  ghost function Wiring(ports: seq<TsmPort>): int -> nat {
    (k: int) => PortOf(ports, k)
  }

  function Counts(ports: seq<TsmPort>, reserve: bool): seq<nat> {
    seq(|ports|, p requires 0 <= p < |ports| => Usable(ports[p], reserve))
  }

  function PortWidths(ports: seq<TsmPort>): seq<nat> {
    seq(|ports|, p requires 0 <= p < |ports| => ports[p].width)
  }

  lemma PortOfUnit(ports: seq<TsmPort>, p: nat, j: nat)
    requires UnitsUnique(ports) && p < |ports| && j < |ports[p].matchUnits|
    ensures Wiring(ports)(ports[p].matchUnits[j]) == p && ports[p].matchUnits[j] < UnitCount(ports)
  {
    hide UnitCount;
  }

  /** Where a usable unit of a port is in the port's list. */
  function Place(reserve: bool, k: nat): nat {
    if reserve then k + 1 else k
  }

  lemma UnitAt(ports: seq<TsmPort>, reserve: bool, p: nat, k: nat)
    requires p < |ports| && k < Usable(ports[p], reserve)
    ensures Place(reserve, k) < |ports[p].matchUnits|
    ensures MuIndexOf(ports, reserve, p, k) == ports[p].matchUnits[Place(reserve, k)]
  {
  }

  lemma UnitsDiffer(ports: seq<TsmPort>, p: nat, j: nat, q: nat, k: nat)
    requires UnitsUnique(ports) && p < |ports| && j < |ports[p].matchUnits| && q < |ports| && k < |ports[q].matchUnits|
    requires ports[p].matchUnits[j] == ports[q].matchUnits[k]
    ensures p == q && j == k
  {
    hide UnitCount;
  }

  lemma TsmUnitsNumbered(ports: seq<TsmPort>, reserve: bool)
    requires UnitsUnique(ports)
    ensures UnitsNumbered(Counts(ports, reserve), UnitCount(ports), MuIndex(ports, reserve), Wiring(ports))
  {
    hide UnitCount, UnitsUnique, MuIndexOf, Usable, Wiring;
    var counts, unit := Counts(ports, reserve), MuIndex(ports, reserve);
    forall p, j | 0 <= p < |counts| && 0 <= j < counts[p]
      ensures 0 <= unit(p, j) < UnitCount(ports) && Wiring(ports)(unit(p, j)) == p
    {
      UnitAt(ports, reserve, p, j);
      PortOfUnit(ports, p, Place(reserve, j));
    }
    forall p, j, q, k | 0 <= p < |counts| && 0 <= j < counts[p] && 0 <= q < |counts| && 0 <= k < counts[q]
      ensures unit(p, j) == unit(q, k) ==> p == q && j == k
    {
      UnitAt(ports, reserve, p, j);
      UnitAt(ports, reserve, q, k);
      if unit(p, j) == unit(q, k) {
        UnitsDiffer(ports, p, Place(reserve, j), q, Place(reserve, k));
      }
    }
  }

  /** Numbers of states are small, and no two branches are in one place. */
  ghost predicate PlacesDistinct(branches: seq<Branch>) {
    && (forall b | b in branches :: b.state < MAX_STATE_COUNT)
    && forall i, j | 0 <= i < j < |branches| ::
         branches[i].state != branches[j].state || branches[i].index != branches[j].index
  }

  ghost function TcNames(branches: seq<Branch>): seq<string> {
    seq(|branches|, i requires 0 <= i < |branches| => TcName(branches[i]))
  }

  lemma TcNameInjective(a: Branch, b: Branch)
    requires a.state < MAX_STATE_COUNT && b.state < MAX_STATE_COUNT && TcName(a) == TcName(b)
    ensures a.state == b.state && a.index == b.index
  {
    assert TcName(a)[2..] == PrintInt(a.state + a.index * MAX_STATE_COUNT);
    assert TcName(b)[2..] == PrintInt(b.state + b.index * MAX_STATE_COUNT);
    PrintIntInjective(a.state + a.index * MAX_STATE_COUNT, b.state + b.index * MAX_STATE_COUNT);
  }

  lemma TcNamesDistinct(branches: seq<Branch>, unitCount: nat)
    requires PlacesDistinct(branches)
    ensures NamesDistinct(TcNames(branches), unitCount, false)
  {
    hide PrintInt;
    var names := TcNames(branches);
    forall i | 0 <= i < |names| ensures names[i] != "" && names[i][0] == 't' {
    }
    forall i, j | 0 <= i < j < |names| ensures names[i] != names[j] {
      if names[i] == names[j] {
        TcNameInjective(branches[i], branches[j]);
      }
    }
    forall k: nat ensures UnitName(k)[0] == 'm' {
    }
  }

  /** What the checker of trigger state machines lets through: a documented operator, and one
      documented character for every bit. */
  ghost predicate Checked(ps: seq<ProbeCompare>) {
    forall p | p in ps :: Fills(p) && KnownOperator(p.op) && Documented(p.value)
  }

  ghost predicate AllChecked(branches: seq<Branch>) {
    forall i | 0 <= i < |branches| :: Checked(branches[i].probes)
  }

  /** The compares of a branch, split over ports, as they are written. */
  function BranchParts(b: Branch): seq<Compare>
    requires Checked(b.probes)
  {
    AllParts(b.probes)
  }

  /** `name` is a "tc" and the number of the branch's place: the state below, its place in the
      state above. */
  ghost predicate IsNameOf(b: Branch, name: string) {
    exists n: nat :: name == "tc" + PrintInt(n) && n % 16 == b.state && n / 16 == b.index
  }

  lemma TcNameIs(b: Branch, name: string)
    requires b.state < MAX_STATE_COUNT
    ensures IsNameOf(b, name) <==> name == TcName(b)
  {
    hide PrintInt;
    var n := b.state + b.index * MAX_STATE_COUNT;
    assert n % 16 == b.state && n / 16 == b.index;
  }

  /** When each compare of a branch can be split, the register of its name fires exactly when the
      branch's condition over whole probes holds, as it is written. */
  ghost predicate FiresAsWritten(regs: Registers, branches: seq<Branch>, wiring: int -> nat)
    requires AllChecked(branches)
  {
    forall i, name, s: Sample, rel: Relation | 0 <= i < |branches| && IsNameOf(branches[i], name) ::
      (forall p | p in branches[i].probes :: Splittable(branches[i].op, p)) ==>
        forall wide: WideRelation ::
          ConditionFires(regs, name, wiring, s, rel) <==>
          ProbesMean(branches[i].op, branches[i].probes, s, rel, wide)
  }

  /** The register of every branch fires exactly when its split compares mean so. */
  ghost predicate FiresAsSplit(regs: Registers, branches: seq<Branch>, wiring: int -> nat)
    requires AllChecked(branches)
  {
    forall i, name, s: Sample, rel: Relation | 0 <= i < |branches| && IsNameOf(branches[i], name) ::
      ConditionFires(regs, name, wiring, s, rel) <==>
      WrittenMeaning(branches[i].op, BranchParts(branches[i]), s, rel)
  }

  lemma SplitFiresAsWritten(regs: Registers, branches: seq<Branch>, wiring: int -> nat)
    requires AllChecked(branches) && FiresAsSplit(regs, branches, wiring)
    ensures FiresAsWritten(regs, branches, wiring)
  {
    hide ConditionFires, ProbesMean, WrittenMeaning, Splittable, AllParts, IsNameOf;
    forall i, name, s: Sample, rel: Relation, wide: WideRelation | 0 <= i < |branches| && IsNameOf(branches[i], name)
      && forall p | p in branches[i].probes :: Splittable(branches[i].op, p)
      ensures ConditionFires(regs, name, wiring, s, rel) <==>
              ProbesMean(branches[i].op, branches[i].probes, s, rel, wide)
    {
      assert branches[i] in branches;
      SplitKeepsMeaning(branches[i].op, branches[i].probes, s, rel, wide);
    }
  }

  lemma {:induction false} PartChars(op: string, value: string, segs: seq<MapPortSeq>)
    requires Ranges(segs) && |value| == Width(segs) && Documented(value)
    ensures forall c | c in SplitOver(op, value, segs) :: c.op == op && Documented(c.value)
    decreases |segs|
  {
    hide SplitOver, Width, FirstPart, OtherBits;
    if segs == [] {
      NoParts(op);
      assert value == [];
    } else {
      SplitFirst(op, value, segs);
      FirstPartIs(value, segs);
      PartChars(op, OtherBits(value, segs), segs[1..]);
    }
  }

  lemma BranchPartsWellFormed(b: Branch)
    requires Checked(b.probes)
    ensures WellFormedSource(BranchParts(b))
  {
    hide SplitOver, Width, Documented, KnownOperator, AllParts;
    forall c | c in BranchParts(b) ensures KnownOperator(c.op) && Documented(c.value) {
      AllPartsMember(b.probes, c);
      var p :| p in b.probes && c in Parts(p);
      PartChars(p.op, p.value, p.segs);
    }
  }

  lemma DocumentedHasNoUnderscore(value: string)
    requires Documented(value)
    ensures '_' !in value
  {
    assert '_' !in WRITTEN_CHARS;
  }

  /** The body of the loop over branches. */
  method AddBranch(mapper: IlaMapper, b: Branch)
    requires mapper.Valid() && Checked(b.probes)
    modifies mapper`conditions
    ensures mapper.Valid()
    ensures |mapper.conditions| == |old(mapper.conditions)| + 1
    ensures mapper.conditions[..|old(mapper.conditions)|] == old(mapper.conditions)
    ensures var c := mapper.conditions[|old(mapper.conditions)|];
            && fresh(c) && fresh(c.matches) && c.op == b.op && c.name == TcName(b)
            && Vals(c.matches) == UpperAll(BranchParts(b))
  {
    hide Fills, Parts, TcName, UpperAll, Documented;
    NoneUpper();
    var index := mapper.AddCondition(b.op, TcName(b));
    var c := mapper.conditions[index];
    ghost var ps := b.probes;
    assert ps[..0] == [];
    for j := 0 to |b.probes|
      invariant mapper.Valid() && index < |mapper.conditions| && mapper.conditions[index] == c
      invariant mapper.conditions == old(mapper.conditions) + [c]
      invariant fresh(c.matches) && Vals(c.matches) == UpperAll(AllParts(ps[..j]))
    {
      ghost var before := c.matches;
      assert b.probes[j] in b.probes;
      DocumentedHasNoUnderscore(b.probes[j].value);
      UpperConcat(AllParts(ps[..j]), Parts(ps[j]));
      AddProbeValueToPorts(mapper, index, b.probes[j]);
      assert c.matches == before + c.matches[|before|..];
      assert ps[..j + 1][..j] == ps[..j];
    }
    assert ps[..|ps|] == ps;
  }

  lemma NoneUpper()
    ensures UpperAll([]) == []
  {
  }

  lemma UpperConcat(a: seq<Compare>, b: seq<Compare>)
    ensures UpperAll(a + b) == UpperAll(a) + UpperAll(b)
  {
    hide UpperCase;
  }

  ghost predicate Built(mapper: IlaMapper, branches: seq<Branch>)
    reads mapper, mapper.conditions, mapper.Matches()
    requires AllChecked(branches)
  {
    && |mapper.conditions| == |branches|
    && forall k | 0 <= k < |branches| ::
         && mapper.conditions[k].op == branches[k].op && mapper.conditions[k].name == TcName(branches[k])
         && mapper.ConditionCompares()[k] == UpperAll(BranchParts(branches[k]))
  }

  method AddBranches(mapper: IlaMapper, branches: seq<Branch>)
    requires mapper.Valid() && mapper.conditions == [] && AllChecked(branches)
    modifies mapper`conditions
    ensures mapper.Valid() && fresh(mapper.conditions) && fresh(mapper.Matches())
    ensures Built(mapper, branches)
    ensures mapper.ports == old(mapper.ports)
    ensures forall ports, reserve :: old(HasPorts(mapper, ports, reserve)) ==> HasPorts(mapper, ports, reserve)
  {
    hide BranchParts, TcName;
    for i := 0 to |branches|
      invariant mapper.Valid() && |mapper.conditions| == i && fresh(mapper.conditions)
      invariant forall k | 0 <= k < i ::
                  && fresh(mapper.conditions[k].matches)
                  && mapper.conditions[k].op == branches[k].op && mapper.conditions[k].name == TcName(branches[k])
                  && Vals(mapper.conditions[k].matches) == UpperAll(BranchParts(branches[k]))
    {
      ghost var before := mapper.conditions;
      assert branches[i] in branches;
      AddBranch(mapper, branches[i]);
      assert mapper.conditions == before + [mapper.conditions[i]];
    }
  }

  /** The mapper has these ports, with nothing allocated. */
  ghost predicate HasPorts(mapper: IlaMapper, ports: seq<TsmPort>, reserve: bool)
    reads mapper, mapper.ports
  {
    && mapper.Widths() == PortWidths(ports) && mapper.Counts() == Counts(ports, reserve)
    && mapper.PortValues() == EmptyPorts(|ports|)
  }

  method AddTsmPorts(mapper: IlaMapper, ports: seq<TsmPort>, reserve: bool)
    requires mapper.Valid()
    modifies mapper`ports
    ensures mapper.Valid() && fresh(mapper.ports) && HasPorts(mapper, ports, reserve)
  {
    mapper.AddPorts(seq(|ports|, p requires 0 <= p < |ports| => (ports[p].width, Usable(ports[p], reserve))));
  }

  lemma UpperAllTwice(cs: seq<Compare>)
    ensures UpperAll(UpperAll(cs)) == UpperAll(cs)
  {
    hide UpperCase;
    forall i | 0 <= i < |cs| ensures UpperCase(UpperCase(cs[i])) == UpperCase(cs[i]) {
      UpperIdempotent(cs[i]);
    }
  }

  /** It makes no difference whether a source is in upper case before it is compiled. */
  lemma UpperSource(op: ConditionOp, cs: seq<Compare>)
    requires WellFormedSource(cs)
    ensures WellFormedSource(UpperAll(cs)) && Compile(op, UpperAll(cs)) == Compile(op, cs)
    ensures forall s: Sample, rel: Relation ::
              WrittenMeaning(op, UpperAll(cs), s, rel) <==> WrittenMeaning(op, cs, s, rel)
  {
    UpperAllTwice(cs);
    UpperWellFormed(cs);
    UpperIsSource(UpperAll(cs));
    hide UpperAll, WellFormedSource, Meaning, WrittenMeaning, MergeFor;
    forall s: Sample, rel: Relation
      ensures WrittenMeaning(op, UpperAll(cs), s, rel) <==> WrittenMeaning(op, cs, s, rel)
    {
      UpperMeaning(op, cs, s, rel);
      UpperMeaning(op, UpperAll(cs), s, rel);
    }
  }

  lemma UpperIsSource(cs: seq<Compare>)
    requires forall c | c in cs :: WellFormed(c)
    ensures WellFormedSource(cs)
  {
    assert forall ch :: ch in MATCH_CHARS ==> ch in WRITTEN_CHARS;
  }

  lemma UpperParticipating(cs: seq<Compare>, widths: seq<nat>)
    ensures ParticipatingFit(UpperAll(cs), widths) <==> ParticipatingFit(cs, widths)
  {
    UpperAllTwice(cs);
    hide ParticipatingFit, Fits, DontCare, UpperAll;
    UpperFits(cs, widths);
    UpperFits(UpperAll(cs), widths);
  }

  lemma BuiltIsReady(mapper: IlaMapper, branches: seq<Branch>)
    requires AllChecked(branches) && Built(mapper, branches)
    ensures Names(mapper.MappedConditions()) == TcNames(branches)
    ensures forall c | c in mapper.conditions :: WellFormedSource(Vals(c.matches))
  {
    hide BranchParts, WellFormedSource, Checked, UpperAll, Compile, WrittenMeaning;
    forall k | 0 <= k < |branches| ensures WellFormedSource(Vals(mapper.conditions[k].matches)) {
      assert branches[k] in branches;
      assert mapper.ConditionCompares()[k] == Vals(mapper.conditions[k].matches);
      BranchPartsWellFormed(branches[k]);
      UpperSource(branches[k].op, BranchParts(branches[k]));
    }
  }

  lemma MeanIsSplit(regs: Registers, conds: seq<MappedCondition>, source: seq<seq<Compare>>, branches: seq<Branch>,
                    wiring: int -> nat)
    requires AllChecked(branches) && RegistersMean(regs, conds, source, wiring, false) && |conds| == |branches|
    requires forall b | b in branches :: b.state < MAX_STATE_COUNT
    requires forall k | 0 <= k < |branches| :: conds[k].op == branches[k].op && conds[k].name == TcName(branches[k])
                                            && source[k] == UpperAll(BranchParts(branches[k]))
    ensures FiresAsSplit(regs, branches, wiring)
  {
    hide ConditionFires, WrittenMeaning, BranchParts, Checked, UpperAll, IsNameOf, WellFormedSource, Compile;
    forall i, name, s: Sample, rel: Relation | 0 <= i < |branches| && IsNameOf(branches[i], name)
      ensures ConditionFires(regs, name, wiring, s, rel) <==>
              WrittenMeaning(branches[i].op, BranchParts(branches[i]), s, rel)
    {
      assert branches[i] in branches;
      TcNameIs(branches[i], name);
      BranchPartsWellFormed(branches[i]);
      UpperSource(branches[i].op, BranchParts(branches[i]));
      assert ConditionName(conds[i].name, i, false) == TcName(branches[i]);
    }
  }

  /** The compares that need a match unit. */
  ghost function Compiled(branches: seq<Branch>): seq<Compare>
    requires AllChecked(branches)
  {
    if branches == [] then []
    else
      var b := branches[|branches| - 1];
      Compiled(branches[..|branches| - 1]) + Compile(b.op, BranchParts(b))
  }

  lemma {:induction false} MatchesAreCompiled(conds: seq<Condition>, branches: seq<Branch>)
    requires AllChecked(branches) && |conds| == |branches|
    requires forall k | 0 <= k < |conds| ::
               Vals(conds[k].matches) == Compile(branches[k].op, UpperAll(BranchParts(branches[k])))
    ensures Vals(AllMatches(conds)) == Compiled(branches)
  {
    hide Compile, BranchParts, Checked, UpperAll, WrittenMeaning, WellFormedSource;
    if conds != [] {
      var n := |conds| - 1;
      assert branches[n] in branches;
      BranchPartsWellFormed(branches[n]);
      UpperSource(branches[n].op, BranchParts(branches[n]));
      MatchesAreCompiled(conds[..n], branches[..n]);
      assert AllMatches(conds) == AllMatches(conds[..n]) + conds[n].matches;
    }
  }

  /** With basic capture control, the first match unit of every port gets no register. */
  ghost predicate ReservedFree(regs: Registers, ports: seq<TsmPort>, reserve: bool) {
    reserve ==> forall p | 0 <= p < |ports| && ports[p].matchUnits != [] ::
      "mu" + PrintInt(ports[p].matchUnits[0]) !in regs
  }

  lemma ReservedUnclaimed(ports: seq<TsmPort>, branches: seq<Branch>, p: nat)
    requires UnitsUnique(ports) && PlacesDistinct(branches) && p < |ports| && ports[p].matchUnits != []
    ensures Unclaimed(TcNames(branches), Counts(ports, true), MuIndex(ports, true), false,
                      "mu" + PrintInt(ports[p].matchUnits[0]))
  {
    hide PrintInt, UnitCount, UnitsUnique, MuIndexOf, Usable;
    var first, name := ports[p].matchUnits[0], "mu" + PrintInt(ports[p].matchUnits[0]);
    var names := TcNames(branches);
    forall i | 0 <= i < |names| ensures ConditionName(names[i], i, false) != name {
      assert names[i][0] == 't' && name[0] == 'm';
    }
    forall q, j | 0 <= q < |ports| && 0 <= j < Counts(ports, true)[q]
      ensures UnitName(MuIndex(ports, true)(q, j)) != name
    {
      UnitAt(ports, true, q, j);
      var k := ports[q].matchUnits[j + 1];
      if UnitName(k) == name {
        assert UnitName(k)[2..] == PrintInt(k) && name[2..] == PrintInt(first);
        PrintIntInjective(k, first);
        UnitsDiffer(ports, q, j + 1, p, 0);
      }
    }
  }

  lemma ReservedAreFree(regs: Registers, ports: seq<TsmPort>, reserve: bool, branches: seq<Branch>)
    requires UnitsUnique(ports) && PlacesDistinct(branches)
    requires forall name | Unclaimed(TcNames(branches), Counts(ports, reserve), MuIndex(ports, reserve), false, name) ::
               name !in regs
    ensures ReservedFree(regs, ports, reserve)
  {
    hide Unclaimed, PrintInt, UnitsUnique, PlacesDistinct, TcNames, Counts, MuIndex;
    if reserve {
      forall p | 0 <= p < |ports| && ports[p].matchUnits != []
        ensures "mu" + PrintInt(ports[p].matchUnits[0]) !in regs
      {
        ReservedUnclaimed(ports, branches, p);
      }
    }
  }

  /** `map_tsm_mu_tc_to_props`. */
  method MapTsmMuTcToProps(ports: seq<TsmPort>, reserve: bool, branches: seq<Branch>)
    returns (status: MapStatus, regs: Registers)
    requires UnitsUnique(ports) && PlacesDistinct(branches) && AllChecked(branches)
    ensures status == InternalError <==>
            !forall b | b in branches :: ParticipatingFit(BranchParts(b), PortWidths(ports))
    ensures status != InternalError ==>
              && AllFit(Compiled(branches), PortWidths(ports))
              && (status == Overflow <==> exists p | 0 <= p < |ports| ::
                    var wanted := |Wanted(Compiled(branches), PortWidths(ports), p)|;
                    wanted > 0 && wanted + (if reserve then 1 else 0) > |ports[p].matchUnits|)
    ensures status == AllMapped ==>
              && FiresAsSplit(regs, branches, Wiring(ports)) && FiresAsWritten(regs, branches, Wiring(ports))
              && ReservedFree(regs, ports, reserve) && FullWidths(regs, branches, UnitCount(ports))
    ensures status != AllMapped ==> regs == map[]
  {
    hide ParticipatingFit, Wanted, AllFit, FiresAsSplit, FiresAsWritten, ReservedFree, FullWidths, UnitsUnique, PlacesDistinct, BranchParts, Checked,
         Compiled, Built, HasPorts;
    var mapper := BuildMapper(ports, reserve, branches);
    status, regs := MapBranches(mapper, ports, reserve, branches);
    if status == AllMapped {
      SplitFiresAsWritten(regs, branches, Wiring(ports));
    }
  }

  method MapBranches(mapper: IlaMapper, ports: seq<TsmPort>, reserve: bool, branches: seq<Branch>)
    returns (status: MapStatus, regs: Registers)
    requires UnitsUnique(ports) && PlacesDistinct(branches) && AllChecked(branches)
    requires mapper.Valid() && !mapper.isBasicCapture && HasPorts(mapper, ports, reserve) && Built(mapper, branches)
    modifies mapper.ports, mapper.conditions, mapper.Matches()
    ensures status == InternalError <==>
            !forall b | b in branches :: ParticipatingFit(BranchParts(b), PortWidths(ports))
    ensures status != InternalError ==>
              && AllFit(Compiled(branches), PortWidths(ports))
              && (status == Overflow <==> exists p | 0 <= p < |ports| ::
                    |Wanted(Compiled(branches), PortWidths(ports), p)| > Usable(ports[p], reserve))
    ensures status == AllMapped ==>
              && FiresAsSplit(regs, branches, Wiring(ports)) && ReservedFree(regs, ports, reserve)
              && FullWidths(regs, branches, UnitCount(ports))
    ensures status != AllMapped ==> regs == map[]
  {
    hide ParticipatingFit, UnitsNumbered, NamesDistinct, RegistersMean, Compile, Wanted, WellFormedSource, AllFit,
         FiresAsSplit, UnitsUnique, BranchParts, Checked, TcName, Compiled, UpperAll, Usable, MuIndex, Wiring,
         ReservedFree, Unclaimed, FullWidth, FullWidths;
    TsmUnitsNumbered(ports, reserve);
    TcNamesDistinct(branches, UnitCount(ports));
    BuiltIsReady(mapper, branches);
    ghost var source := mapper.ConditionCompares();
    status, regs := CompileTrigger(mapper, UnitCount(ports), MuIndex(ports, reserve), Wiring(ports));
    MatchesAreCompiled(mapper.conditions, branches);
    PartsParticipate(source, branches, PortWidths(ports));
    if status == AllMapped {
      NamedAndMeant(mapper, branches);
      MeanIsSplit(regs, mapper.MappedConditions(), source, branches, Wiring(ports));
      ReservedAreFree(regs, ports, reserve, branches);
      WidthsAreFull(regs, branches, UnitCount(ports));
    }
  }

  /** The register of every branch has a character for each match unit of the core. */
  ghost predicate FullWidths(regs: Registers, branches: seq<Branch>, unitCount: nat) {
    forall i, name | 0 <= i < |branches| && IsNameOf(branches[i], name) :: name in regs && |regs[name]| == 2 + unitCount
  }

  lemma WidthsAreFull(regs: Registers, branches: seq<Branch>, unitCount: nat)
    requires FullWidth(regs, TcNames(branches), unitCount, false) && PlacesDistinct(branches)
    ensures FullWidths(regs, branches, unitCount)
  {
    hide IsNameOf, PrintInt;
    var names := TcNames(branches);
    forall i, name | 0 <= i < |branches| && IsNameOf(branches[i], name) ensures name in regs && |regs[name]| == 2 + unitCount {
      assert branches[i] in branches;
      TcNameIs(branches[i], name);
      assert names[i] == name && names[i] != "";
      assert ConditionName(names[i], i, false) == name;
    }
  }

  lemma NamedAndMeant(mapper: IlaMapper, branches: seq<Branch>)
    requires |mapper.conditions| == |branches|
    requires forall k | 0 <= k < |branches| ::
               mapper.conditions[k].op == branches[k].op && mapper.conditions[k].name == TcName(branches[k])
    ensures forall k | 0 <= k < |branches| ::
              && mapper.MappedConditions()[k].op == branches[k].op
              && mapper.MappedConditions()[k].name == TcName(branches[k])
  {
    hide TcName, MappedOf;
  }

  lemma PartsParticipate(source: seq<seq<Compare>>, branches: seq<Branch>, widths: seq<nat>)
    requires AllChecked(branches) && |source| == |branches|
    requires forall k | 0 <= k < |source| :: source[k] == UpperAll(BranchParts(branches[k]))
    ensures (forall k | 0 <= k < |source| :: ParticipatingFit(source[k], widths)) <==>
            (forall b | b in branches :: ParticipatingFit(BranchParts(b), widths))
  {
    hide ParticipatingFit, UpperAll, BranchParts, Checked;
    forall k | 0 <= k < |source| ensures ParticipatingFit(source[k], widths) <==> ParticipatingFit(BranchParts(branches[k]), widths) {
      UpperParticipating(BranchParts(branches[k]), widths);
    }
    assert forall k | 0 <= k < |branches| :: branches[k] in branches;
  }

  /** The mapper, with its ports and the conditions of all branches. */
  method BuildMapper(ports: seq<TsmPort>, reserve: bool, branches: seq<Branch>) returns (mapper: IlaMapper)
    requires AllChecked(branches)
    ensures fresh(mapper) && fresh(mapper.ports) && fresh(mapper.conditions) && fresh(mapper.Matches())
    ensures mapper.Valid() && !mapper.isBasicCapture && HasPorts(mapper, ports, reserve) && Built(mapper, branches)
  {
    mapper := new IlaMapper(false);
    AddTsmPorts(mapper, ports, reserve);
    AddBranches(mapper, branches);
  }
}
