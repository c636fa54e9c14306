/** What the ILA core computes from a compare value: a predicate over the previous and the
    current sample of a port.  Everything a compare says is a map from port bit to character;
    don't-care bits are not in that map. */
module TriggerSemantics {

  /** One port bit in two successive clock cycles. */
  datatype Edge = Edge(prev: bool, cur: bool)

  /** All port bits: (port index, bit index) to edge. */
  type Sample = (nat, nat) -> Edge

  /** The meaning of `<`, `<=`, `>`, `>=`, which only the hardware knows: any predicate of
      the operator, the port and the bits that are not don't-care. */
  type Relation = (string, nat, map<nat, char>, Sample) -> bool

  /** A probe compare: the value's last character is port bit `bit`. */
  datatype Compare = Compare(port: nat, bit: nat, op: string, value: string)

  datatype ConditionOp = And | Or | Nand | Nor

  const MATCH_CHARS := "01XRFTBNLS"

  /** The same, and the letters in lower case: what a compare may be written with. */
  const WRITTEN_CHARS := "01XRFTBNLSxrftbnls"

  predicate WellFormedValue(value: string) {
    forall ch | ch in value :: ch in MATCH_CHARS
  }

  predicate Documented(value: string) {
    forall ch | ch in value :: ch in WRITTEN_CHARS
  }

  predicate KnownOperator(op: string) {
    op in {"==", "!=", "<", "<=", ">", ">=", "||"}
  }

  predicate WellFormed(c: Compare) {
    KnownOperator(c.op) && WellFormedValue(c.value)
  }

  /** What a character says of its bit, in either case. */
  predicate BitHolds(ch: char, e: Edge) {
    match ch
    case '0' => !e.cur
    case '1' => e.cur
    case 'R' | 'r' => !e.prev && e.cur
    case 'F' | 'f' => e.prev && !e.cur
    case 'L' | 'l' => !(!e.prev && e.cur)
    case 'S' | 's' => !(e.prev && !e.cur)
    case 'B' | 'b' => e.prev != e.cur
    case 'T' | 't' => e.prev != e.cur
    case 'N' | 'n' => e.prev == e.cur
    case _ => true
  }

  /** The character that value, placed with its last character at `bit`, has for port bit `b`. */
  function CharAt(value: string, bit: nat, b: nat): char
    requires bit <= b < bit + |value|
  {
    value[|value| - 1 - (b - bit)]
  }

  /** The bits a compare constrains. */
  function Active(value: string, bit: nat): map<nat, char> {
    map b: nat | bit <= b < bit + |value| && CharAt(value, bit, b) != 'X' :: CharAt(value, bit, b)
  }

  predicate DontCare(value: string) {
    forall ch | ch in value :: ch == 'X'
  }

  ghost predicate AllBitsHold(active: map<nat, char>, port: nat, s: Sample) {
    forall b | b in active :: BitHolds(active[b], s(port, b))
  }

  ghost predicate EvalOperator(op: string, port: nat, active: map<nat, char>, s: Sample, rel: Relation) {
    if op == "==" then AllBitsHold(active, port, s)
    else if op == "!=" then !AllBitsHold(active, port, s)
    else if op == "||" then exists b | b in active :: BitHolds(active[b], s(port, b))
    else rel(op, port, active, s)
  }

  ghost predicate Holds(c: Compare, s: Sample, rel: Relation) {
    EvalOperator(c.op, c.port, Active(c.value, c.bit), s, rel)
  }

  ghost predicate AllHold(cs: seq<Compare>, s: Sample, rel: Relation) {
    forall c | c in cs :: Holds(c, s, rel)
  }

  ghost predicate SomeHolds(cs: seq<Compare>, s: Sample, rel: Relation) {
    exists c :: c in cs && Holds(c, s, rel)
  }

  /** A condition over exactly the listed compares. */
  ghost predicate Combine(op: ConditionOp, cs: seq<Compare>, s: Sample, rel: Relation) {
    match op
    case And => AllHold(cs, s, rel)
    case Nand => !AllHold(cs, s, rel)
    case Or => SomeHolds(cs, s, rel)
    case Nor => !SomeHolds(cs, s, rel)
  }

  /** What the user of a condition means by it: don't-care compares do not participate. */
  ghost predicate Meaning(op: ConditionOp, cs: seq<Compare>, s: Sample, rel: Relation) {
    match op
    case And => forall c | c in cs && !DontCare(c.value) :: Holds(c, s, rel)
    case Nand => exists c | c in cs && !DontCare(c.value) :: !Holds(c, s, rel)
    case Or => exists c | c in cs && !DontCare(c.value) :: Holds(c, s, rel)
    case Nor => forall c | c in cs && !DontCare(c.value) :: !Holds(c, s, rel)
  }

  lemma DontCareIsInactive(value: string, bit: nat)
    ensures DontCare(value) <==> Active(value, bit) == map[]
  {
    assert forall b: nat | bit <= b < bit + |value| :: CharAt(value, bit, b) in value;
    if Active(value, bit) == map[] {
      forall i | 0 <= i < |value| ensures value[i] == 'X' {
        var b := bit + |value| - 1 - i;
        assert CharAt(value, bit, b) == value[i];
        assert b !in Active(value, bit);
      }
    }
  }

  // ---------- compares as they are written, in either case

  /** Don't-care, as it is written. */
  predicate Blank(ch: char) {
    ch == 'X' || ch == 'x'
  }

  /** The letter that is meant. */
  function Letter(ch: char): char {
    match ch
    case 'x' => 'X'
    case 'r' => 'R'
    case 'f' => 'F'
    case 't' => 'T'
    case 'b' => 'B'
    case 'n' => 'N'
    case 'l' => 'L'
    case 's' => 'S'
    case _ => ch
  }

  lemma LetterHolds(ch: char, e: Edge)
    ensures BitHolds(Letter(ch), e) <==> BitHolds(ch, e)
  {
  }

  predicate SaysNothing(value: string) {
    forall ch | ch in value :: Blank(ch)
  }

  /** The bits a compare constrains, as it is written. */
  function Written(value: string, bit: nat): map<nat, char> {
    map b: nat | bit <= b < bit + |value| && !Blank(CharAt(value, bit, b)) :: Letter(CharAt(value, bit, b))
  }

  ghost predicate WrittenHolds(c: Compare, s: Sample, rel: Relation) {
    EvalOperator(c.op, c.port, Written(c.value, c.bit), s, rel)
  }

  /** What the user of a condition means by it, as it is written: compares that say nothing do
      not participate. */
  ghost predicate WrittenMeaning(op: ConditionOp, cs: seq<Compare>, s: Sample, rel: Relation) {
    match op
    case And => forall c | c in cs && !SaysNothing(c.value) :: WrittenHolds(c, s, rel)
    case Nand => exists c | c in cs && !SaysNothing(c.value) :: !WrittenHolds(c, s, rel)
    case Or => exists c | c in cs && !SaysNothing(c.value) :: WrittenHolds(c, s, rel)
    case Nor => forall c | c in cs && !SaysNothing(c.value) :: !WrittenHolds(c, s, rel)
  }

  lemma NothingWritten(value: string, bit: nat)
    requires SaysNothing(value)
    ensures Written(value, bit) == map[]
  {
    assert forall b: nat | bit <= b < bit + |value| :: CharAt(value, bit, b) in value;
  }
}
