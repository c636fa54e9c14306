/** The registers that the mapper emits, and what the ILA core computes from them. */
module TriggerRegisters {
  import opened Decimal
  import opened TriggerSemantics
  import opened TriggerCompiler
  import opened Wrappers

  /** A compiled compare and the index of its match unit within its port. */
  datatype Mapped = Mapped(c: Compare, mu: int)

  datatype MappedCondition = MappedCondition(op: ConditionOp, name: string, ms: seq<Mapped>)

  /** (port index, match unit index within the port) to match unit index within the core. */
  type UnitIndex = (nat, nat) -> int

  type Registers = map<string, string>

  // ---------- what is emitted

  /** Python list assignment: a negative index counts from the end. */
  function Mark(used: seq<bool>, i: int): (r: Option<seq<bool>>)
    ensures r.Some? ==> |r.value| == |used|
  {
    if 0 <= i < |used| then Some(used[i := true])
    else if -|used| <= i < 0 then Some(used[|used| + i := true])
    else None
  }

  function UsedUnits(ms: seq<Mapped>, unitCount: nat, unit: UnitIndex): (r: Option<seq<bool>>)
    ensures r.Some? ==> |r.value| == unitCount
  {
    if ms == [] then Some(seq(unitCount, _ => false))
    else
      var m := ms[|ms| - 1];
      match UsedUnits(ms[..|ms| - 1], unitCount, unit)
      case None => None
      case Some(used) => if m.mu < 0 then Some(used) else Mark(used, unit(m.c.port, m.mu))
  }

  function ConditionOperator(op: ConditionOp): string {
    match op
    case And => "=="
    case Nand => "!="
    case Or => "||"
    case Nor => "=="
  }

  /** Unit 0 is the last character. `nor` is an `and` of inverted inputs. */
  function ConditionValue(op: ConditionOp, used: seq<bool>): string {
    ConditionOperator(op)
    + seq(|used|, i requires 0 <= i < |used| =>
        if !used[|used| - 1 - i] then 'X' else if op == Nor then '0' else '1')
  }

  function ConditionName(name: string, index: nat, basicCapture: bool): string {
    if name != "" then name else if basicCapture then "sqc" else "tc" + PrintInt(index)
  }

  /** A condition without a name is "sqc", or "tc" and its number. */
  lemma ConditionNameIs(name: string, index: nat, basicCapture: bool)
    ensures name != "" ==> ConditionName(name, index, basicCapture) == name
    ensures ConditionName("", index, true) == "sqc"
    ensures ConditionName("", index, false)[..2] == "tc" && AllDigits(ConditionName("", index, false)[2..])
    ensures Parse(ConditionName("", index, false)[2..]) == index
  {
    assert ("tc" + PrintInt(index))[2..] == Print(index);
    ParsePrint(index);
  }

  function UnitName(unit: int): string {
    "mu" + PrintInt(unit)
  }

  /** The registers of the first `n` conditions. */
  function ConditionRegisters(conds: seq<MappedCondition>, n: nat, unitCount: nat, unit: UnitIndex,
                              basicCapture: bool): Option<Registers>
    requires n <= |conds|
  {
    if n == 0 then Some(map[])
    else
      var cond := conds[n - 1];
      match ConditionRegisters(conds, n - 1, unitCount, unit, basicCapture)
      case None => None
      case Some(regs) =>
        match UsedUnits(cond.ms, unitCount, unit)
        case None => None
        case Some(used) =>
          Some(regs[ConditionName(cond.name, n - 1, basicCapture) := ConditionValue(cond.op, used)])
  }

  /** Adds the first `n` match units of a port. */
  function PortRegisters(regs: Registers, port: nat, values: seq<string>, n: nat, unit: UnitIndex): Registers
    requires n <= |values|
  {
    if n == 0 then regs
    else PortRegisters(regs, port, values, n - 1, unit)[UnitName(unit(port, n - 1)) := values[n - 1]]
  }

  /** Adds the match units of the first `n` ports. */
  function UnitRegisters(regs: Registers, values: seq<seq<string>>, n: nat, unit: UnitIndex): Registers
    requires n <= |values|
  {
    if n == 0 then regs
    else PortRegisters(UnitRegisters(regs, values, n - 1, unit), n - 1, values[n - 1], |values[n - 1]|, unit)
  }

  function AllRegisters(conds: seq<MappedCondition>, values: seq<seq<string>>, unitCount: nat, unit: UnitIndex,
                        basicCapture: bool): Option<Registers> {
    match ConditionRegisters(conds, |conds|, unitCount, unit, basicCapture)
    case None => None
    case Some(regs) => Some(UnitRegisters(regs, values, |values|, unit))
  }

  // ---------- what the core makes of it

  /** Splits a register value into its operator and its characters. */
  function ParseRegister(value: string): (string, string) {
    if |value| >= 2 && value[..2] in {"==", "!=", "<=", ">=", "||"} then (value[..2], value[2..])
    else if |value| >= 1 then (value[..1], value[1..])
    else ("", "")
  }

  ghost predicate UnitOutput(regs: Registers, k: nat, wiring: int -> nat, s: Sample, rel: Relation) {
    "mu" + PrintInt(k) in regs &&
    var (op, value) := ParseRegister(regs["mu" + PrintInt(k)]);
    EvalOperator(op, wiring(k), Active(value, 0), s, rel)
  }

  predicate InputHolds(ch: char, output: bool) {
    match ch
    case '1' => output
    case '0' => !output
    case _ => true
  }

  ghost predicate InputsHold(active: map<nat, char>, regs: Registers, wiring: int -> nat, s: Sample, rel: Relation) {
    forall k | k in active :: InputHolds(active[k], UnitOutput(regs, k, wiring, s, rel))
  }

  /** The trigger condition register `name`, evaluated over the outputs of the match units. */
  ghost predicate ConditionFires(regs: Registers, name: string, wiring: int -> nat, s: Sample, rel: Relation) {
    name in regs &&
    var (op, value) := ParseRegister(regs[name]);
    var active := Active(value, 0);
    if op == "==" then InputsHold(active, regs, wiring, s, rel)
    else if op == "!=" then !InputsHold(active, regs, wiring, s, rel)
    else exists k | k in active :: InputHolds(active[k], UnitOutput(regs, k, wiring, s, rel))
  }

  lemma ParseRegisterInverse(op: string, value: string)
    requires KnownOperator(op)
    requires value != "" ==> value[0] != '='
    ensures ParseRegister(op + value) == (op, value)
  {
    assert (op + value)[..|op|] == op && (op + value)[|op|..] == value;
    if |op| == 1 && value != "" {
      assert (op + value)[..2] == op + [value[0]];
      assert forall two | two in {"==", "!=", "<=", ">="} :: two[1] == '=';
      assert "||"[0] == '|';
    }
  }

  // ---------- allocation

  datatype Board = Board(widths: seq<nat>, counts: seq<nat>, values: seq<seq<string>>)

  ghost predicate BoardShape(b: Board) {
    |b.widths| == |b.counts| == |b.values|
  }

  /** The compare's match unit exists and holds the compare's own port-wide string. */
  ghost predicate Allocated(m: Mapped, b: Board)
    requires BoardShape(b)
  {
    && m.c.port < |b.widths|
    && 0 <= m.mu < |b.values[m.c.port]|
    && PortValue(m.c, b.widths[m.c.port]) == Some(b.values[m.c.port][m.mu])
  }

  /** No port needs more match units than it has. */
  ghost predicate NoOverflow(b: Board)
    requires BoardShape(b)
  {
    forall p | 0 <= p < |b.values| :: |b.values[p]| <= b.counts[p]
  }

  /** `unit` numbers the match units of all ports without clash, below `unitCount`, and the
      core wires unit `unit(p, j)` to port `p`. */
  ghost predicate UnitsNumbered(counts: seq<nat>, unitCount: nat, unit: UnitIndex, wiring: int -> nat) {
    && (forall p, j | 0 <= p < |counts| && 0 <= j < counts[p] ::
          0 <= unit(p, j) < unitCount && wiring(unit(p, j)) == p)
    && (forall p, j, q, k | 0 <= p < |counts| && 0 <= j < counts[p] && 0 <= q < |counts| && 0 <= k < counts[q] ::
          unit(p, j) == unit(q, k) ==> p == q && j == k)
  }

  ghost function Names(conds: seq<MappedCondition>): (r: seq<string>)
    ensures |r| == |conds|
  {
    seq(|conds|, i requires 0 <= i < |conds| => conds[i].name)
  }

  /** Every condition has a register of its own. */
  ghost predicate NamesDistinct(names: seq<string>, unitCount: nat, basicCapture: bool) {
    && (forall i, j | 0 <= i < j < |names| ::
          ConditionName(names[i], i, basicCapture) != ConditionName(names[j], j, basicCapture))
    && (forall i, k | 0 <= i < |names| && 0 <= k < unitCount ::
          ConditionName(names[i], i, basicCapture) != UnitName(k))
  }

  // ---------- the registers mean what the conditions mean

  lemma UnitNameInjective(i: int, j: int)
    requires UnitName(i) == UnitName(j)
    ensures i == j
  {
    assert UnitName(i)[2..] == PrintInt(i) && UnitName(j)[2..] == PrintInt(j);
    PrintIntInjective(i, j);
  }

  /** The used units are exactly those of the condition's compares. */
  lemma {:induction false} UsedUnitsExact(ms: seq<Mapped>, unitCount: nat, unit: UnitIndex)
    requires forall m | m in ms :: m.mu >= 0 && 0 <= unit(m.c.port, m.mu) < unitCount
    ensures UsedUnits(ms, unitCount, unit).Some?
    ensures var used := UsedUnits(ms, unitCount, unit).value;
            forall k | 0 <= k < unitCount :: used[k] <==> exists m | m in ms :: unit(m.c.port, m.mu) == k
  {
    if ms != [] {
      UsedUnitsExact(ms[..|ms| - 1], unitCount, unit);
      assert ms == ms[..|ms| - 1] + [ms[|ms| - 1]];
    }
  }

  lemma {:induction false} ConditionRegistersExist(conds: seq<MappedCondition>, n: nat, unitCount: nat, unit: UnitIndex,
                                                   basicCapture: bool)
    requires n <= |conds|
    requires forall i | 0 <= i < |conds| :: UsedUnits(conds[i].ms, unitCount, unit).Some?
    ensures ConditionRegisters(conds, n, unitCount, unit, basicCapture).Some?
  {
    if n != 0 {
      ConditionRegistersExist(conds, n - 1, unitCount, unit, basicCapture);
    }
  }

  /** A condition keeps its register when no later condition has the same name. */
  lemma {:induction false} ConditionRegistersHold(conds: seq<MappedCondition>, n: nat, unitCount: nat, unit: UnitIndex,
                                                  basicCapture: bool, i: nat)
    requires i < n <= |conds|
    requires ConditionRegisters(conds, n, unitCount, unit, basicCapture).Some?
    requires forall j | i < j < n ::
               ConditionName(conds[j].name, j, basicCapture) != ConditionName(conds[i].name, i, basicCapture)
    ensures UsedUnits(conds[i].ms, unitCount, unit).Some?
    ensures var regs := ConditionRegisters(conds, n, unitCount, unit, basicCapture).value;
            var name := ConditionName(conds[i].name, i, basicCapture);
            name in regs && regs[name] == ConditionValue(conds[i].op, UsedUnits(conds[i].ms, unitCount, unit).value)
  {
    hide ConditionName, ConditionValue, UsedUnits;
    if i < n - 1 {
      ConditionRegistersHold(conds, n - 1, unitCount, unit, basicCapture, i);
    }
  }

  lemma {:induction false} PortRegistersFrame(regs: Registers, port: nat, values: seq<string>, n: nat, unit: UnitIndex,
                                              name: string)
    requires n <= |values|
    requires forall j | 0 <= j < n :: UnitName(unit(port, j)) != name
    ensures var r := PortRegisters(regs, port, values, n, unit);
            (name in r <==> name in regs) && (name in r ==> r[name] == regs[name])
  {
    hide UnitName;
    if n != 0 {
      PortRegistersFrame(regs, port, values, n - 1, unit, name);
    }
  }

  lemma {:induction false} PortRegistersHold(regs: Registers, port: nat, values: seq<string>, n: nat, unit: UnitIndex,
                                             j: nat)
    requires j < n <= |values|
    requires forall i | j < i < n :: UnitName(unit(port, i)) != UnitName(unit(port, j))
    ensures var r := PortRegisters(regs, port, values, n, unit);
            UnitName(unit(port, j)) in r && r[UnitName(unit(port, j))] == values[j]
  {
    hide UnitName;
    if j < n - 1 {
      PortRegistersHold(regs, port, values, n - 1, unit, j);
    }
  }

  lemma {:induction false} UnitRegistersFrame(regs: Registers, values: seq<seq<string>>, n: nat, unit: UnitIndex,
                                              name: string)
    requires n <= |values|
    requires forall p, j | 0 <= p < n && 0 <= j < |values[p]| :: UnitName(unit(p, j)) != name
    ensures var r := UnitRegisters(regs, values, n, unit);
            (name in r <==> name in regs) && (name in r ==> r[name] == regs[name])
  {
    hide UnitName, PortRegisters;
    if n != 0 {
      UnitRegistersFrame(regs, values, n - 1, unit, name);
      PortRegistersFrame(UnitRegisters(regs, values, n - 1, unit), n - 1, values[n - 1], |values[n - 1]|, unit, name);
    }
  }

  lemma {:induction false} ConditionRegistersOnly(conds: seq<MappedCondition>, n: nat, unitCount: nat, unit: UnitIndex,
                                                  basicCapture: bool, name: string)
    requires n <= |conds| && ConditionRegisters(conds, n, unitCount, unit, basicCapture).Some?
    requires forall i | 0 <= i < n :: ConditionName(conds[i].name, i, basicCapture) != name
    ensures name !in ConditionRegisters(conds, n, unitCount, unit, basicCapture).value
  {
    hide ConditionName, ConditionValue, UsedUnits;
    if n != 0 {
      ConditionRegistersOnly(conds, n - 1, unitCount, unit, basicCapture, name);
    }
  }

  /** No condition has the name, and no match unit of any port. */
  ghost predicate Unclaimed(names: seq<string>, counts: seq<nat>, unit: UnitIndex, basicCapture: bool, name: string) {
    && (forall i | 0 <= i < |names| :: ConditionName(names[i], i, basicCapture) != name)
    && (forall p, j | 0 <= p < |counts| && 0 <= j < counts[p] :: UnitName(unit(p, j)) != name)
  }

  /** There are no other registers than those of conditions and of match units that ports have. */
  lemma NoOtherRegister(conds: seq<MappedCondition>, b: Board, unitCount: nat, unit: UnitIndex, basicCapture: bool,
                        name: string)
    requires BoardShape(b) && NoOverflow(b) && AllRegisters(conds, b.values, unitCount, unit, basicCapture).Some?
    requires Unclaimed(Names(conds), b.counts, unit, basicCapture, name)
    ensures name !in AllRegisters(conds, b.values, unitCount, unit, basicCapture).value
  {
    hide ConditionRegisters, UnitRegisters, UnitName, ConditionName;
    var names := Names(conds);
    assert forall i | 0 <= i < |conds| :: names[i] == conds[i].name;
    ConditionRegistersOnly(conds, |conds|, unitCount, unit, basicCapture, name);
    UnitRegistersFrame(ConditionRegisters(conds, |conds|, unitCount, unit, basicCapture).value, b.values, |b.values|,
                       unit, name);
  }

  ghost predicate SameUnit(unit: UnitIndex, p: nat, j: nat, q: nat, k: nat) {
    UnitName(unit(p, j)) == UnitName(unit(q, k))
  }

  /** No other match unit has the register of unit `j` of port `p`. */
  ghost predicate OnlyUnit(values: seq<seq<string>>, n: nat, unit: UnitIndex, p: nat, j: nat)
    requires n <= |values|
  {
    forall q, k | 0 <= q < n && 0 <= k < |values[q]| && SameUnit(unit, p, j, q, k) :: q == p && k == j
  }

  lemma OtherUnit(values: seq<seq<string>>, n: nat, unit: UnitIndex, p: nat, j: nat, q: nat, k: nat)
    requires n <= |values| && OnlyUnit(values, n, unit, p, j) && q < n && k < |values[q]| && (q != p || k != j)
    ensures UnitName(unit(q, k)) != UnitName(unit(p, j))
  {
    assert !SameUnit(unit, p, j, q, k);
  }

  lemma UnitRegistersLast(regs: Registers, values: seq<seq<string>>, n: nat, unit: UnitIndex)
    requires 0 < n <= |values|
    ensures UnitRegisters(regs, values, n, unit) ==
            PortRegisters(UnitRegisters(regs, values, n - 1, unit), n - 1, values[n - 1], |values[n - 1]|, unit)
  {
  }

  /** The register of match unit `j` of port `p` holds that unit's string. */
  lemma {:induction false} UnitRegistersHold(regs: Registers, values: seq<seq<string>>, n: nat, unit: UnitIndex,
                                             p: nat, j: nat)
    requires p < n <= |values| && j < |values[p]| && OnlyUnit(values, n, unit, p, j)
    ensures var r := UnitRegisters(regs, values, n, unit);
            UnitName(unit(p, j)) in r && r[UnitName(unit(p, j))] == values[p][j]
  {
    hide UnitRegisters, PortRegisters, UnitName, OnlyUnit;
    var last := n - 1;
    var before := UnitRegisters(regs, values, last, unit);
    UnitRegistersLast(regs, values, n, unit);
    if p < last {
      FewerUnits(values, n, unit, p, j);
      UnitRegistersHold(regs, values, last, unit, p, j);
      forall k: nat | k < |values[last]| ensures UnitName(unit(last, k)) != UnitName(unit(p, j)) {
        OtherUnit(values, n, unit, p, j, last, k);
      }
      PortRegistersFrame(before, last, values[last], |values[last]|, unit, UnitName(unit(p, j)));
    } else {
      forall k: nat | j < k < |values[p]| ensures UnitName(unit(p, k)) != UnitName(unit(p, j)) {
        OtherUnit(values, n, unit, p, j, p, k);
      }
      PortRegistersHold(before, p, values[p], |values[p]|, unit, j);
    }
  }

  lemma FewerUnits(values: seq<seq<string>>, n: nat, unit: UnitIndex, p: nat, j: nat)
    requires 0 < n <= |values| && OnlyUnit(values, n, unit, p, j)
    ensures OnlyUnit(values, n - 1, unit, p, j)
  {
    hide SameUnit;
  }

  /** A programmed match unit outputs whether its compare holds. */
  lemma UnitOutputIsCompare(m: Mapped, b: Board, regs: Registers, unit: UnitIndex, wiring: int -> nat,
                            s: Sample, rel: Relation)
    requires BoardShape(b) && Allocated(m, b) && WellFormed(m.c)
    requires var k := unit(m.c.port, m.mu);
             && 0 <= k && wiring(k) == m.c.port
             && UnitName(k) in regs && regs[UnitName(k)] == b.values[m.c.port][m.mu]
    ensures UnitOutput(regs, unit(m.c.port, m.mu), wiring, s, rel) <==> Holds(m.c, s, rel)
  {
    var width := b.widths[m.c.port];
    var v := ResizeValue(m.c.value, m.c.bit, 0, width).value;
    ResizeKeepsActive(m.c.value, m.c.bit, 0, width);
    assert v != "" ==> v[0] == 'X' || v[0] in m.c.value;
    ParseRegisterInverse(m.c.op, v);
  }

  ghost function Compares(ms: seq<Mapped>): seq<Compare> {
    seq(|ms|, i requires 0 <= i < |ms| => ms[i].c)
  }

  /** The characters of a condition register select exactly the used units. */
  lemma ConditionValueActive(op: ConditionOp, used: seq<bool>)
    ensures var (regOp, value) := ParseRegister(ConditionValue(op, used));
            && regOp == ConditionOperator(op)
            && Active(value, 0) == map k: nat | 0 <= k < |used| && used[k] :: if op == Nor then '0' else '1'
  {
    var ch := if op == Nor then '0' else '1';
    var value := seq(|used|, i requires 0 <= i < |used| =>
                       if !used[|used| - 1 - i] then 'X' else if op == Nor then '0' else '1');
    ParseRegisterInverse(ConditionOperator(op), value);
    hide ParseRegister;
    UsedActive(used, ch, value);
  }

  lemma UsedActive(used: seq<bool>, ch: char, value: string)
    requires |value| == |used| && ch != 'X'
    requires forall i | 0 <= i < |used| :: value[i] == if used[|used| - 1 - i] then ch else 'X'
    ensures Active(value, 0) == map k: nat | 0 <= k < |used| && used[k] :: ch
  {
    assert forall k: nat | k < |used| :: CharAt(value, 0, k) == if used[k] then ch else 'X';
  }

  ghost predicate AllInputs(ms: seq<Mapped>, ch: char, s: Sample, rel: Relation) {
    forall m | m in ms :: InputHolds(ch, Holds(m.c, s, rel))
  }

  ghost predicate SomeInput(ms: seq<Mapped>, ch: char, s: Sample, rel: Relation) {
    exists m | m in ms :: InputHolds(ch, Holds(m.c, s, rel))
  }

  /** The active inputs are exactly the units of the compares. */
  ghost predicate ActiveUnits(ms: seq<Mapped>, ch: char, active: map<nat, char>, unit: UnitIndex) {
    && (forall m | m in ms :: 0 <= m.mu && 0 <= unit(m.c.port, m.mu) && unit(m.c.port, m.mu) in active)
    && forall k | k in active :: active[k] == ch && exists m | m in ms && 0 <= m.mu :: unit(m.c.port, m.mu) == k
  }

  lemma ActiveAreUnits(ms: seq<Mapped>, ch: char, active: map<nat, char>, unitCount: nat, unit: UnitIndex)
    requires forall m | m in ms :: m.mu >= 0 && 0 <= unit(m.c.port, m.mu) < unitCount
    requires UsedUnits(ms, unitCount, unit).Some?
    requires active == map k: nat | 0 <= k < unitCount && UsedUnits(ms, unitCount, unit).value[k] :: ch
    ensures ActiveUnits(ms, ch, active, unit)
  {
    hide UsedUnits;
    UsedUnitsExact(ms, unitCount, unit);
  }

  lemma InputsAreCompares(ms: seq<Mapped>, ch: char, active: map<nat, char>, regs: Registers, unitCount: nat,
                          unit: UnitIndex, wiring: int -> nat, s: Sample, rel: Relation)
    requires forall m | m in ms :: m.mu >= 0 && 0 <= unit(m.c.port, m.mu) < unitCount
    requires forall m | m in ms ::
               UnitOutput(regs, unit(m.c.port, m.mu), wiring, s, rel) <==> Holds(m.c, s, rel)
    requires UsedUnits(ms, unitCount, unit).Some?
    requires active == map k: nat | 0 <= k < unitCount && UsedUnits(ms, unitCount, unit).value[k] :: ch
    ensures InputsHold(active, regs, wiring, s, rel) <==> AllInputs(ms, ch, s, rel)
    ensures (exists k | k in active :: InputHolds(active[k], UnitOutput(regs, k, wiring, s, rel)))
            <==> SomeInput(ms, ch, s, rel)
  {
    hide UnitOutput, InputHolds, UsedUnits, Holds;
    ActiveAreUnits(ms, ch, active, unitCount, unit);
  }

  lemma ComparesMembers(ms: seq<Mapped>, s: Sample, rel: Relation)
    ensures AllHold(Compares(ms), s, rel) <==> AllInputs(ms, '1', s, rel)
    ensures SomeHolds(Compares(ms), s, rel) <==> SomeInput(ms, '1', s, rel)
    ensures SomeHolds(Compares(ms), s, rel) <==> !AllInputs(ms, '0', s, rel)
  {
    var cs := Compares(ms);
    forall m | m in ms ensures m.c in cs {
      var i :| 0 <= i < |ms| && ms[i] == m;
      assert cs[i] == m.c;
    }
    assert forall c | c in cs :: exists m | m in ms :: m.c == c;
  }

  lemma FiresIsCombine(cond: MappedCondition, regs: Registers, name: string, unitCount: nat,
                       unit: UnitIndex, wiring: int -> nat, s: Sample, rel: Relation)
    requires forall m | m in cond.ms :: m.mu >= 0 && 0 <= unit(m.c.port, m.mu) < unitCount
    requires forall m | m in cond.ms ::
               UnitOutput(regs, unit(m.c.port, m.mu), wiring, s, rel) <==> Holds(m.c, s, rel)
    requires UsedUnits(cond.ms, unitCount, unit).Some?
    requires name in regs
    requires regs[name] == ConditionValue(cond.op, UsedUnits(cond.ms, unitCount, unit).value)
    ensures ConditionFires(regs, name, wiring, s, rel) <==> Combine(cond.op, Compares(cond.ms), s, rel)
  {
    var used := UsedUnits(cond.ms, unitCount, unit).value;
    var ch := if cond.op == Nor then '0' else '1';
    var (regOp, value) := ParseRegister(regs[name]);
    ConditionValueActive(cond.op, used);
    InputsAreCompares(cond.ms, ch, Active(value, 0), regs, unitCount, unit, wiring, s, rel);
    ComparesMembers(cond.ms, s, rel);
  }

  lemma UnitIsProgrammed(m: Mapped, before: Registers, b: Board, unitCount: nat, unit: UnitIndex, wiring: int -> nat)
    requires BoardShape(b) && NoOverflow(b) && UnitsNumbered(b.counts, unitCount, unit, wiring)
    requires Allocated(m, b)
    ensures var k := unit(m.c.port, m.mu);
            var regs := UnitRegisters(before, b.values, |b.values|, unit);
            && 0 <= k < unitCount && wiring(k) == m.c.port
            && UnitName(k) in regs && regs[UnitName(k)] == b.values[m.c.port][m.mu]
  {
    var p, j := m.c.port, m.mu;
    forall q, k | 0 <= q < |b.values| && 0 <= k < |b.values[q]| && SameUnit(unit, p, j, q, k)
      ensures q == p && k == j
    {
      UnitNameInjective(unit(p, j), unit(q, k));
    }
    UnitRegistersHold(before, b.values, |b.values|, unit, p, j);
  }

  /** Whenever every compare has a match unit of its own and no port overflows, the emitted
      registers fire on exactly the samples on which the conditions hold. */
  lemma RegistersMeanConditions(conds: seq<MappedCondition>, b: Board, unitCount: nat, unit: UnitIndex,
                                wiring: int -> nat, basicCapture: bool, i: nat, s: Sample, rel: Relation)
    requires BoardShape(b) && NoOverflow(b) && UnitsNumbered(b.counts, unitCount, unit, wiring)
    requires NamesDistinct(Names(conds), unitCount, basicCapture)
    requires forall cond, m | cond in conds && m in cond.ms :: Allocated(m, b) && WellFormed(m.c)
    requires i < |conds|
    ensures AllRegisters(conds, b.values, unitCount, unit, basicCapture).Some?
    ensures var regs := AllRegisters(conds, b.values, unitCount, unit, basicCapture).value;
            ConditionFires(regs, ConditionName(conds[i].name, i, basicCapture), wiring, s, rel)
            <==> Combine(conds[i].op, Compares(conds[i].ms), s, rel)
  {
    forall j | 0 <= j < |conds| ensures UsedUnits(conds[j].ms, unitCount, unit).Some? {
      UsedUnitsExact(conds[j].ms, unitCount, unit);
    }
    ConditionRegistersExist(conds, |conds|, unitCount, unit, basicCapture);
    var name := ConditionName(conds[i].name, i, basicCapture);
    var names := Names(conds);
    assert forall j | i < j < |conds| :: ConditionName(conds[j].name, j, basicCapture) != name by {
      assert forall j | 0 <= j < |conds| :: names[j] == conds[j].name;
    }
    ConditionRegistersHold(conds, |conds|, unitCount, unit, basicCapture, i);
    var before := ConditionRegisters(conds, |conds|, unitCount, unit, basicCapture).value;
    var regs := UnitRegisters(before, b.values, |b.values|, unit);
    assert names[i] == conds[i].name;
    UnitRegistersFrame(before, b.values, |b.values|, unit, name);
    assert conds[i] in conds;
    forall m | m in conds[i].ms
      ensures 0 <= unit(m.c.port, m.mu) < unitCount
      ensures UnitOutput(regs, unit(m.c.port, m.mu), wiring, s, rel) <==> Holds(m.c, s, rel)
    {
      UnitIsProgrammed(m, before, b, unitCount, unit, wiring);
      UnitOutputIsCompare(m, b, regs, unit, wiring, s, rel);
    }
    FiresIsCombine(conds[i], regs, name, unitCount, unit, wiring, s, rel);
  }

  /** The whole compiler: the registers emitted for the compiled compares fire on exactly the
      samples that the source condition means. */
  lemma RegistersMeanSource(source: seq<seq<Compare>>, conds: seq<MappedCondition>, b: Board, unitCount: nat,
                            unit: UnitIndex, wiring: int -> nat, basicCapture: bool, i: nat, s: Sample, rel: Relation)
    requires BoardShape(b) && NoOverflow(b) && UnitsNumbered(b.counts, unitCount, unit, wiring)
    requires NamesDistinct(Names(conds), unitCount, basicCapture)
    requires |source| == |conds| && forall j | 0 <= j < |conds| ::
               && WellFormedSource(source[j])
               && Compares(conds[j].ms) == Compile(conds[j].op, source[j])
               && forall m | m in conds[j].ms :: Allocated(m, b)
    requires i < |conds|
    ensures AllRegisters(conds, b.values, unitCount, unit, basicCapture).Some?
    ensures var regs := AllRegisters(conds, b.values, unitCount, unit, basicCapture).value;
            ConditionFires(regs, ConditionName(conds[i].name, i, basicCapture), wiring, s, rel)
            <==> WrittenMeaning(conds[i].op, source[i], s, rel)
  {
    forall cond, m | cond in conds && m in cond.ms ensures Allocated(m, b) && WellFormed(m.c) {
      var j :| 0 <= j < |conds| && conds[j] == cond;
      var k :| 0 <= k < |cond.ms| && cond.ms[k] == m;
      CompileKeepsWellFormed(cond.op, source[j]);
      assert Compares(cond.ms)[k] == m.c;
    }
    RegistersMeanConditions(conds, b, unitCount, unit, wiring, basicCapture, i, s, rel);
    CompileKeepsMeaning(conds[i].op, source[i], s, rel);
  }

  /** Every condition has a register with a character for each match unit of the core. */
  ghost predicate FullWidth(regs: Registers, names: seq<string>, unitCount: nat, basicCapture: bool) {
    forall i | 0 <= i < |names| ::
      var name := ConditionName(names[i], i, basicCapture);
      name in regs && |regs[name]| == 2 + unitCount
  }

  lemma ConditionRegisterWidth(conds: seq<MappedCondition>, b: Board, unitCount: nat, unit: UnitIndex,
                               wiring: int -> nat, basicCapture: bool, i: nat)
    requires BoardShape(b) && NoOverflow(b) && UnitsNumbered(b.counts, unitCount, unit, wiring)
    requires NamesDistinct(Names(conds), unitCount, basicCapture) && i < |conds|
    requires AllRegisters(conds, b.values, unitCount, unit, basicCapture).Some?
    ensures var regs := AllRegisters(conds, b.values, unitCount, unit, basicCapture).value;
            var name := ConditionName(conds[i].name, i, basicCapture);
            name in regs && |regs[name]| == 2 + unitCount
  {
    hide ConditionRegisters, UnitRegisters, UnitName, ConditionName, UsedUnits;
    var names := Names(conds);
    assert forall j | 0 <= j < |conds| :: names[j] == conds[j].name;
    var before := ConditionRegisters(conds, |conds|, unitCount, unit, basicCapture).value;
    ConditionRegistersHold(conds, |conds|, unitCount, unit, basicCapture, i);
    UnitRegistersFrame(before, b.values, |b.values|, unit, ConditionName(conds[i].name, i, basicCapture));
  }

  lemma RegistersAreFullWidth(conds: seq<MappedCondition>, b: Board, unitCount: nat, unit: UnitIndex,
                              wiring: int -> nat, basicCapture: bool)
    requires BoardShape(b) && NoOverflow(b) && UnitsNumbered(b.counts, unitCount, unit, wiring)
    requires NamesDistinct(Names(conds), unitCount, basicCapture)
    requires AllRegisters(conds, b.values, unitCount, unit, basicCapture).Some?
    ensures FullWidth(AllRegisters(conds, b.values, unitCount, unit, basicCapture).value, Names(conds), unitCount,
                      basicCapture)
  {
    hide AllRegisters, ConditionName, UnitsNumbered, NamesDistinct, NoOverflow;
    forall i | 0 <= i < |conds|
      ensures var regs := AllRegisters(conds, b.values, unitCount, unit, basicCapture).value;
              var name := ConditionName(conds[i].name, i, basicCapture);
              name in regs && |regs[name]| == 2 + unitCount
    {
      ConditionRegisterWidth(conds, b, unitCount, unit, wiring, basicCapture, i);
    }
  }

  /** Marking is assignment to a Python list: from the end for a negative index. */
  lemma MarkIs(used: seq<bool>, i: int, k: nat)
    ensures Mark(used, i).Some? <==> -|used| <= i < |used|
    ensures Mark(used, i).Some? && k < |used| ==> (Mark(used, i).value[k] <==> used[k] || k == i || k == i + |used|)
  {
  }
}
