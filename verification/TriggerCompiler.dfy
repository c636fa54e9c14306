/** The passes of the trigger compiler as functions on lists of compares. */
module TriggerCompiler {
  import opened TriggerSemantics
  import opened Wrappers

  // ---------- value strings

  function Xs(n: nat): string {
    seq(n, _ => 'X')
  }

  /** Grows `value`, placed at `bit`, to `width` characters placed at `newBit`. */
  function ResizeValue(value: string, bit: nat, newBit: nat, width: nat): Option<string> {
    if newBit > bit || newBit + width < bit + |value| then None
    else
      var padded := value + Xs(bit - newBit);
      Some(Xs(width - |padded|) + padded)
  }

  /** Padding does not change which bits are constrained, nor how. */
  lemma ResizeKeepsActive(value: string, bit: nat, newBit: nat, width: nat)
    requires ResizeValue(value, bit, newBit, width).Some?
    ensures var r := ResizeValue(value, bit, newBit, width).value;
            |r| == width && Active(r, newBit) == Active(value, bit)
  {
    var r := ResizeValue(value, bit, newBit, width).value;
    forall b: nat
      ensures b in Active(r, newBit) <==> b in Active(value, bit)
      ensures b in Active(r, newBit) ==> Active(r, newBit)[b] == Active(value, bit)[b]
    {
      if newBit <= b < newBit + width {
        assert CharAt(r, newBit, b) == if bit <= b < bit + |value| then CharAt(value, bit, b) else 'X';
      }
    }
  }

  function NegateBit(ch: char): char {
    match ch
    case '0' => '1'
    case '1' => '0'
    case 'R' => 'L'
    case 'F' => 'S'
    case 'T' => 'N'
    case 'B' => 'N'
    case 'N' => 'T'
    case 'L' => 'R'
    case 'S' => 'F'
    case _ => 'X'
  }

  function MergeChar(c0: char, c1: char): Option<char> {
    if c0 == c1 || c1 == 'X' then Some(c0) else if c0 == 'X' then Some(c1) else None
  }

  /** Character by character; None as soon as two characters clash. */
  function MergeChars(v0: string, v1: string): (r: Option<string>)
    requires |v0| == |v1|
    ensures r.Some? <==> forall i | 0 <= i < |v0| :: MergeChar(v0[i], v1[i]).Some?
    ensures r.Some? ==> |r.value| == |v0| &&
                        forall i | 0 <= i < |v0| :: MergeChar(v0[i], v1[i]) == Some(r.value[i])
  {
    if v0 == [] then Some([])
    else
      var rest := MergeChars(v0[1..], v1[1..]);
      assert forall i | 0 < i < |v0| :: v0[i] == v0[1..][i - 1] && v1[i] == v1[1..][i - 1];
      match MergeChar(v0[0], v1[0])
      case None => None
      case Some(c) => if rest.None? then None else Some([c] + rest.value)
  }

  function Min(a: nat, b: nat): nat { if a < b then a else b }
  function Max(a: nat, b: nat): nat { if a < b then b else a }

  /** Port bits that two compares span together. */
  function Span(a: Compare, b: Compare): nat {
    Max(a.bit + |a.value|, b.bit + |b.value|) - Min(a.bit, b.bit)
  }

  /** `a`'s value, grown to span `b`'s bits as well. */
  function AlignTo(a: Compare, b: Compare): (r: string)
    ensures |r| == Span(a, b)
  {
    ResizeValue(a.value, a.bit, Min(a.bit, b.bit), Span(a, b)).value
  }

  /** The source's empty string, for "cannot be merged", is also what two empty values give. */
  function MergedValue(m0: Compare, m1: Compare): string {
    match MergeChars(AlignTo(m0, m1), AlignTo(m1, m0))
    case None => ""
    case Some(v) => v
  }

  function Merge(m0: Compare, m1: Compare): Option<Compare> {
    if m0.port != m1.port || m0.op != "==" || m1.op != "==" then None
    else
      var v := MergedValue(m0, m1);
      if v == "" then None else Some(Compare(m0.port, Min(m0.bit, m1.bit), m0.op, v))
  }

  ghost predicate Agree(m0: map<nat, char>, m1: map<nat, char>) {
    forall k | k in m0 && k in m1 :: m0[k] == m1[k]
  }

  ghost function ActiveBits(c: Compare): map<nat, char> {
    Active(c.value, c.bit)
  }

  /** Two `==` compares of one port that agree wherever both constrain a bit. */
  ghost predicate Mergeable(a: Compare, b: Compare) {
    && a.port == b.port && a.op == "==" && b.op == "=="
    && (a.value != "" || b.value != "" || a.bit != b.bit)
    && Agree(ActiveBits(a), ActiveBits(b))
  }

  lemma MergedIsUnion(v0: string, v1: string, v: string, bit: nat)
    requires |v| == |v0| == |v1|
    requires forall i | 0 <= i < |v| :: MergeChar(v0[i], v1[i]) == Some(v[i])
    ensures Agree(Active(v0, bit), Active(v1, bit))
    ensures Active(v, bit) == Active(v0, bit) + Active(v1, bit)
  {
    forall k: nat | bit <= k < bit + |v|
      ensures MergeChar(CharAt(v0, bit, k), CharAt(v1, bit, k)) == Some(CharAt(v, bit, k))
    {
    }
  }

  lemma UnmergedDisagree(v0: string, v1: string, i: nat, bit: nat)
    requires i < |v0| == |v1| && MergeChar(v0[i], v1[i]).None?
    ensures !Agree(Active(v0, bit), Active(v1, bit))
  {
    var k := bit + |v0| - 1 - i;
    assert CharAt(v0, bit, k) == v0[i] && CharAt(v1, bit, k) == v1[i];
    assert k in Active(v0, bit) && k in Active(v1, bit);
  }

  lemma MergeCharsIsUnion(v0: string, v1: string, bit: nat)
    requires |v0| == |v1|
    ensures MergeChars(v0, v1).Some? <==> Agree(Active(v0, bit), Active(v1, bit))
    ensures MergeChars(v0, v1).Some? ==>
              Active(MergeChars(v0, v1).value, bit) == Active(v0, bit) + Active(v1, bit)
  {
    hide Active, Agree, MergeChar;
    match MergeChars(v0, v1)
    case Some(v) =>
      MergedIsUnion(v0, v1, v, bit);
    case None =>
      var i :| 0 <= i < |v0| && MergeChar(v0[i], v1[i]).None?;
      UnmergedDisagree(v0, v1, i, bit);
  }

  /** Merging succeeds exactly on mergeable compares, and the merged compare constrains
      exactly the bits that the two constrain. */
  lemma MergeIsUnion(a: Compare, b: Compare)
    ensures Merge(a, b).Some? <==> Mergeable(a, b)
    ensures Merge(a, b).Some? ==>
              var m := Merge(a, b).value;
              && m.port == a.port && m.op == "==" && m.value != ""
              && m.bit == Min(a.bit, b.bit)
              && m.bit + |m.value| == Max(a.bit + |a.value|, b.bit + |b.value|)
              && ActiveBits(m) == ActiveBits(a) + ActiveBits(b)
  {
    ResizeKeepsActive(a.value, a.bit, Min(a.bit, b.bit), Span(a, b));
    ResizeKeepsActive(b.value, b.bit, Min(a.bit, b.bit), Span(a, b));
    MergeCharsIsUnion(AlignTo(a, b), AlignTo(b, a), Min(a.bit, b.bit));
    hide ActiveBits, AlignTo, Agree, MergeChars;
  }

  // ---------- greedy merging of one condition's compares

  /** Merges `m` with whatever it can of `rest`, in order; also returns what is left. */
  function Absorb(m: Compare, rest: seq<Compare>): (r: (Compare, seq<Compare>))
    ensures |r.1| <= |rest|
    decreases |rest|
  {
    if rest == [] then (m, [])
    else match Merge(m, rest[0])
      case Some(merged) => Absorb(merged, rest[1..])
      case None =>
        var (m', left) := Absorb(m, rest[1..]);
        (m', [rest[0]] + left)
  }

  function GreedyMerge(cs: seq<Compare>): (r: seq<Compare>)
    ensures |r| <= |cs|
    decreases |cs|
  {
    if |cs| <= 1 then cs
    else
      var (m, left) := Absorb(cs[0], cs[1..]);
      [m] + GreedyMerge(left)
  }

  /** A merged compare holds exactly when both its parts do. */
  lemma MergeIsConjunction(a: Compare, b: Compare, s: Sample, rel: Relation)
    requires Merge(a, b).Some?
    ensures Holds(Merge(a, b).value, s, rel) <==> Holds(a, s, rel) && Holds(b, s, rel)
  {
    MergeIsUnion(a, b);
    UnionHolds(ActiveBits(a), ActiveBits(b), a.port, s);
  }

  lemma UnionHolds(m0: map<nat, char>, m1: map<nat, char>, port: nat, s: Sample)
    requires Agree(m0, m1)
    ensures AllBitsHold(m0 + m1, port, s) <==> AllBitsHold(m0, port, s) && AllBitsHold(m1, port, s)
  {
    if AllBitsHold(m0 + m1, port, s) {
      assert forall b | b in m0 :: b in m0 + m1 && (m0 + m1)[b] == m0[b];
      assert forall b | b in m1 :: b in m0 + m1 && (m0 + m1)[b] == m1[b];
    }
  }

  lemma {:induction false} AbsorbIsConjunction(m: Compare, rest: seq<Compare>, s: Sample, rel: Relation)
    ensures var (m', left) := Absorb(m, rest);
            Holds(m', s, rel) && AllHold(left, s, rel) <==> Holds(m, s, rel) && AllHold(rest, s, rel)
    decreases |rest|
  {
    if rest != [] {
      assert AllHold(rest, s, rel) <==> Holds(rest[0], s, rel) && AllHold(rest[1..], s, rel) by {
        assert rest == [rest[0]] + rest[1..];
      }
      match Merge(m, rest[0])
      case Some(merged) =>
        MergeIsConjunction(m, rest[0], s, rel);
        AbsorbIsConjunction(merged, rest[1..], s, rel);
      case None =>
        AbsorbIsConjunction(m, rest[1..], s, rel);
    }
  }

  /** Greedy merging keeps the conjunction, on every sample. */
  lemma {:induction false} GreedyMergeIsConjunction(cs: seq<Compare>, s: Sample, rel: Relation)
    ensures AllHold(GreedyMerge(cs), s, rel) <==> AllHold(cs, s, rel)
    decreases |cs|
  {
    if |cs| > 1 {
      var (m, left) := Absorb(cs[0], cs[1..]);
      AbsorbIsConjunction(cs[0], cs[1..], s, rel);
      GreedyMergeIsConjunction(left, s, rel);
      assert cs == [cs[0]] + cs[1..];
    }
  }

  ghost predicate MergeableWithNone(z: Compare, cs: seq<Compare>) {
    forall c | c in cs :: !Mergeable(z, c)
  }

  /** What cannot be merged with one of two compares cannot be merged with their merger:
      merging only adds constrained bits. */
  lemma MergerIsNoEasier(z: Compare, a: Compare, b: Compare)
    requires Merge(a, b).Some?
    requires !Mergeable(z, a) || !Mergeable(z, b)
    requires z.value != "" && a.value != "" && b.value != ""
    ensures !Mergeable(z, Merge(a, b).value)
  {
    MergeIsUnion(a, b);
  }

  ghost predicate NoEmptyValue(cs: seq<Compare>) {
    forall c | c in cs :: c.value != ""
  }

  lemma {:induction false} AbsorbIsMaximal(m: Compare, rest: seq<Compare>, z: Compare)
    requires m.value != "" && z.value != "" && NoEmptyValue(rest)
    ensures var (m', left) := Absorb(m, rest);
            && m'.value != "" && NoEmptyValue(left)
            && MergeableWithNone(m', left)
            && (forall x: Compare | x.value != "" && !Mergeable(x, m) :: !Mergeable(x, m'))
            && (!Mergeable(z, m) && MergeableWithNone(z, rest) ==> !Mergeable(z, m') && MergeableWithNone(z, left))
    decreases |rest|
  {
    if rest != [] {
      var (m', left) := Absorb(m, rest);
      assert NoEmptyValue(rest[1..]);
      match Merge(m, rest[0])
      case Some(merged) =>
        MergeIsUnion(m, rest[0]);
        AbsorbIsMaximal(merged, rest[1..], z);
        forall x: Compare | x.value != "" && !Mergeable(x, m) ensures !Mergeable(x, m') {
          MergerIsNoEasier(x, m, rest[0]);
        }
      case None =>
        MergeIsUnion(m, rest[0]);
        AbsorbIsMaximal(m, rest[1..], z);
        assert !Mergeable(rest[0], m) && !Mergeable(rest[0], m');
        assert !Mergeable(m', rest[0]);
    }
  }

  ghost predicate NoTwoMergeable(cs: seq<Compare>) {
    forall i, j | 0 <= i < j < |cs| :: !Mergeable(cs[i], cs[j])
  }

  lemma {:induction false} GreedyMergeKeepsApart(cs: seq<Compare>, z: Compare)
    requires z.value != "" && NoEmptyValue(cs) && MergeableWithNone(z, cs)
    ensures MergeableWithNone(z, GreedyMerge(cs))
    decreases |cs|
  {
    if |cs| > 1 {
      AbsorbIsMaximal(cs[0], cs[1..], z);
      GreedyMergeKeepsApart(Absorb(cs[0], cs[1..]).1, z);
    }
  }

  /** No two surviving compares could still be merged. */
  lemma {:induction false} GreedyMergeIsMaximal(cs: seq<Compare>)
    requires NoEmptyValue(cs)
    ensures NoTwoMergeable(GreedyMerge(cs))
    decreases |cs|
  {
    if |cs| > 1 {
      var (m, left) := Absorb(cs[0], cs[1..]);
      AbsorbIsMaximal(cs[0], cs[1..], cs[0]);
      GreedyMergeIsMaximal(left);
      GreedyMergeKeepsApart(left, m);
    }
  }

  // ---------- the other passes

  function UpperChar(ch: char): char {
    if 'a' <= ch <= 'z' then (ch as int - 'a' as int + 'A' as int) as char else ch
  }

  function Upper(value: string): (r: string)
    ensures |r| == |value|
  {
    seq(|value|, i requires 0 <= i < |value| => UpperChar(value[i]))
  }

  function UpperCase(c: Compare): Compare {
    c.(value := Upper(c.value))
  }

  function UpperAll(cs: seq<Compare>): seq<Compare> {
    seq(|cs|, i requires 0 <= i < |cs| => UpperCase(cs[i]))
  }

  function SortKey(c: Compare): nat {
    0x10000 * c.port + c.bit
  }

  /** For bit positions below 2^16 the order of keys is that of ports, and of bits within a port. */
  lemma SortKeyOrders(a: Compare, b: Compare)
    requires a.bit < 0x10000 && b.bit < 0x10000
    ensures SortKey(a) <= SortKey(b) <==> a.port < b.port || (a.port == b.port && a.bit <= b.bit)
  {
  }

  /** Before the first compare whose key is not smaller, so that equal keys keep their order. */
  function Insert(c: Compare, sorted: seq<Compare>): seq<Compare> {
    if sorted == [] || SortKey(c) <= SortKey(sorted[0]) then [c] + sorted
    else [sorted[0]] + Insert(c, sorted[1..])
  }

  function SortByKey(cs: seq<Compare>): seq<Compare> {
    if cs == [] then [] else Insert(cs[0], SortByKey(cs[1..]))
  }

  function RemoveDontCare(cs: seq<Compare>): seq<Compare> {
    if cs == [] then []
    else if DontCare(cs[0].value) then RemoveDontCare(cs[1..])
    else [cs[0]] + RemoveDontCare(cs[1..])
  }

  /** A one-bit `!=` becomes `==` with the opposite character. */
  function Flip(c: Compare): Compare {
    if c.op == "!=" && |c.value| == 1
    then c.(op := "==", value := [NegateBit(UpperChar(c.value[0]))])
    else c
  }

  function FlipAll(cs: seq<Compare>): seq<Compare> {
    seq(|cs|, i requires 0 <= i < |cs| => Flip(cs[i]))
  }

  function Simplify(cs: seq<Compare>): seq<Compare> {
    FlipAll(RemoveDontCare(SortByKey(UpperAll(cs))))
  }

  function MergeFor(op: ConditionOp, cs: seq<Compare>): seq<Compare> {
    if op == And || op == Nand then GreedyMerge(cs) else cs
  }

  /** All passes in the order in which the mapper runs them. */
  function Compile(op: ConditionOp, cs: seq<Compare>): seq<Compare> {
    MergeFor(op, Simplify(cs))
  }

  lemma {:induction false} InsertPermutes(c: Compare, sorted: seq<Compare>)
    ensures multiset(Insert(c, sorted)) == multiset{c} + multiset(sorted)
  {
    if sorted != [] && SortKey(c) > SortKey(sorted[0]) {
      InsertPermutes(c, sorted[1..]);
      assert sorted == [sorted[0]] + sorted[1..];
    }
  }

  lemma {:induction false} SortPermutes(cs: seq<Compare>)
    ensures multiset(SortByKey(cs)) == multiset(cs)
  {
    if cs != [] {
      SortPermutes(cs[1..]);
      InsertPermutes(cs[0], SortByKey(cs[1..]));
      assert cs == [cs[0]] + cs[1..];
    }
  }

  lemma SortKeepsMembers(cs: seq<Compare>)
    ensures forall c :: c in SortByKey(cs) <==> c in cs
  {
    SortPermutes(cs);
    assert forall c :: c in SortByKey(cs) <==> c in multiset(SortByKey(cs));
  }

  ghost predicate SortedByKey(cs: seq<Compare>) {
    forall i, j | 0 <= i < j < |cs| :: SortKey(cs[i]) <= SortKey(cs[j])
  }

  ghost function WithKey(cs: seq<Compare>, key: nat): seq<Compare> {
    if cs == [] then []
    else if SortKey(cs[0]) == key then [cs[0]] + WithKey(cs[1..], key)
    else WithKey(cs[1..], key)
  }

  lemma {:induction false} InsertIsSorted(c: Compare, sorted: seq<Compare>)
    requires SortedByKey(sorted)
    ensures SortedByKey(Insert(c, sorted))
  {
    hide SortKey;
    if sorted == [] || SortKey(c) <= SortKey(sorted[0]) {
      ConsIsSorted(c, sorted);
    } else {
      var rest := Insert(c, sorted[1..]);
      InsertIsSorted(c, sorted[1..]);
      InsertPermutes(c, sorted[1..]);
      forall x | x in rest ensures SortKey(sorted[0]) <= SortKey(x) {
        assert x in multiset(rest);
        assert x == c || x in sorted[1..];
      }
      ConsIsSorted(sorted[0], rest);
    }
  }

  lemma ConsIsSorted(c: Compare, rest: seq<Compare>)
    requires SortedByKey(rest) && (rest == [] || SortKey(c) <= SortKey(rest[0]))
    ensures SortedByKey([c] + rest)
  {
    hide SortKey;
  }

  lemma {:induction false} InsertIsStable(c: Compare, sorted: seq<Compare>, key: nat)
    ensures WithKey(Insert(c, sorted), key) == WithKey([c], key) + WithKey(sorted, key)
  {
    if sorted != [] && SortKey(c) > SortKey(sorted[0]) {
      InsertIsStable(c, sorted[1..], key);
    }
  }

  /** Sorting is Python's: ordered, and stable (compares with one key keep their order). */
  lemma {:induction false} SortIsStable(cs: seq<Compare>, key: nat)
    ensures SortedByKey(SortByKey(cs))
    ensures WithKey(SortByKey(cs), key) == WithKey(cs, key)
  {
    hide SortKey, Insert;
    if cs != [] {
      SortIsStable(cs[1..], key);
      InsertIsSorted(cs[0], SortByKey(cs[1..]));
      InsertIsStable(cs[0], SortByKey(cs[1..]), key);
    }
  }

  lemma {:induction false} RemoveDontCareMembers(cs: seq<Compare>)
    ensures forall c :: c in RemoveDontCare(cs) <==> c in cs && !DontCare(c.value)
  {
    if cs != [] {
      RemoveDontCareMembers(cs[1..]);
      assert cs == [cs[0]] + cs[1..];
    }
  }

  lemma SimplifyMembers(cs: seq<Compare>)
    ensures forall c | c in UpperAll(cs) && !DontCare(c.value) :: Flip(c) in Simplify(cs)
    ensures forall x | x in Simplify(cs) ::
              exists c :: c in UpperAll(cs) && !DontCare(c.value) && x == Flip(c)
  {
    var sorted := SortByKey(UpperAll(cs));
    SortKeepsMembers(UpperAll(cs));
    RemoveDontCareMembers(sorted);
    var kept := RemoveDontCare(sorted);
    forall c | c in UpperAll(cs) && !DontCare(c.value) ensures Flip(c) in FlipAll(kept) {
      assert c in kept;
      var i :| 0 <= i < |kept| && kept[i] == c;
      assert FlipAll(kept)[i] == Flip(c);
    }
    forall x | x in FlipAll(kept)
      ensures exists c :: c in UpperAll(cs) && !DontCare(c.value) && x == Flip(c)
    {
      var i :| 0 <= i < |kept| && FlipAll(kept)[i] == x;
      assert kept[i] in kept;
    }
  }

  /** The negated character holds on exactly the edges on which the character does not. */
  lemma NegateBitIsComplement(ch: char, e: Edge)
    requires ch in MATCH_CHARS && ch != 'X'
    ensures NegateBit(ch) in MATCH_CHARS && NegateBit(ch) != 'X'
    ensures BitHolds(NegateBit(ch), e) <==> !BitHolds(ch, e)
  {
  }

  lemma ActiveOfOne(ch: char, bit: nat)
    requires ch != 'X'
    ensures Active([ch], bit) == map[bit := ch]
  {
  }

  /** Flipping keeps the meaning of every compare that says something. */
  lemma FlipKeepsMeaning(c: Compare, s: Sample, rel: Relation)
    requires WellFormedValue(c.value) && !DontCare(c.value)
    ensures Holds(Flip(c), s, rel) <==> Holds(c, s, rel)
    ensures WellFormedValue(Flip(c).value) && Flip(c).value != ""
  {
    hide Active, NegateBit, BitHolds;
    if c.op == "!=" && |c.value| == 1 {
      var ch := c.value[0];
      assert c.value == [ch] && ch in c.value && UpperChar(ch) == ch;
      NegateBitIsComplement(ch, s(c.port, c.bit));
      ActiveOfOne(ch, c.bit);
      ActiveOfOne(NegateBit(ch), c.bit);
    }
  }

  /** Turning to upper case gives each letter of the alphabet its capital, and leaves the rest. */
  lemma UpperCharIs(ch: char, i: nat)
    ensures i < 26 ==> UpperChar("abcdefghijklmnopqrstuvwxyz"[i]) == "ABCDEFGHIJKLMNOPQRSTUVWXYZ"[i]
    ensures !('a' <= ch <= 'z') ==> UpperChar(ch) == ch
  {
  }

  /** It does not change what a character says of its bit. */
  lemma UpperCharMeans(ch: char, e: Edge)
    ensures BitHolds(UpperChar(ch), e) <==> BitHolds(ch, e)
  {
    if 'a' <= ch <= 'z' {
      LowerMeans(ch, e);
    }
  }

  lemma LowerMeans(ch: char, e: Edge)
    requires 'a' <= ch <= 'z'
    ensures BitHolds(UpperChar(ch), e) <==> BitHolds(ch, e)
  {
    assert UpperChar(ch) as int == ch as int - 32;
  }

  /** Nor whether it says anything, or which documented character it is. */
  lemma UpperCharIsLetter(ch: char)
    ensures UpperChar(ch) == 'X' <==> ch in "xX"
    ensures ch in WRITTEN_CHARS ==> UpperChar(ch) == Letter(ch) && UpperChar(ch) in MATCH_CHARS
  {
  }

  /** What the compare's users may write: a documented operator, documented characters, in
      either case. */
  ghost predicate WellFormedSource(cs: seq<Compare>) {
    forall c | c in cs :: KnownOperator(c.op) && Documented(c.value)
  }

  lemma UpperSaysNothing(value: string)
    ensures DontCare(Upper(value)) <==> SaysNothing(value)
  {
    forall i | 0 <= i < |value| ensures Upper(value)[i] == 'X' <==> Blank(value[i]) {
      UpperCharIsLetter(value[i]);
    }
    if DontCare(Upper(value)) {
      forall i | 0 <= i < |value| ensures Blank(value[i]) {
        assert Upper(value)[i] in Upper(value);
      }
    }
    if SaysNothing(value) {
      forall i | 0 <= i < |value| ensures Upper(value)[i] == 'X' {
        assert value[i] in value;
      }
    }
  }

  lemma UpperIsWritten(value: string, bit: nat)
    requires Documented(value)
    ensures WellFormedValue(Upper(value)) && Active(Upper(value), bit) == Written(value, bit)
  {
    hide UpperChar, Letter, Blank;
    forall i | 0 <= i < |value|
      ensures Upper(value)[i] in MATCH_CHARS && Upper(value)[i] == Letter(value[i])
      ensures Upper(value)[i] == 'X' <==> Blank(value[i])
    {
      assert value[i] in value;
      UpperCharIsLetter(value[i]);
      BlankIs(value[i]);
    }
  }

  lemma BlankIs(ch: char)
    ensures Blank(ch) <==> ch in "xX"
  {
  }

  /** The compare in upper case says what is written. */
  lemma UpperHolds(c: Compare, s: Sample, rel: Relation)
    requires Documented(c.value)
    ensures Holds(UpperCase(c), s, rel) <==> WrittenHolds(c, s, rel)
    ensures DontCare(UpperCase(c).value) <==> SaysNothing(c.value)
  {
    hide Active, Written, Upper, EvalOperator, DontCare, SaysNothing;
    UpperIsWritten(c.value, c.bit);
    UpperSaysNothing(c.value);
  }

  lemma UpperMeaning(op: ConditionOp, cs: seq<Compare>, s: Sample, rel: Relation)
    requires WellFormedSource(cs)
    ensures Meaning(op, UpperAll(cs), s, rel) <==> WrittenMeaning(op, cs, s, rel)
  {
    hide UpperCase, Holds, WrittenHolds, DontCare, SaysNothing, Documented;
    var us := UpperAll(cs);
    forall c | c in cs
      ensures UpperCase(c) in us
      ensures Holds(UpperCase(c), s, rel) <==> WrittenHolds(c, s, rel)
      ensures DontCare(UpperCase(c).value) <==> SaysNothing(c.value)
    {
      var i :| 0 <= i < |cs| && cs[i] == c;
      assert us[i] == UpperCase(c);
      UpperHolds(c, s, rel);
    }
    forall u | u in us ensures exists c :: c in cs && u == UpperCase(c) {
      var i :| 0 <= i < |us| && us[i] == u;
      assert cs[i] in cs;
    }
  }

  lemma UpperWellFormed(cs: seq<Compare>)
    requires WellFormedSource(cs)
    ensures forall c | c in UpperAll(cs) :: WellFormed(c)
  {
    forall c | c in UpperAll(cs) ensures WellFormed(c) {
      var i :| 0 <= i < |cs| && UpperAll(cs)[i] == c;
      assert cs[i] in cs;
      UpperIsWritten(cs[i].value, 0);
    }
  }

  lemma SimplifyKeepsMeaning(op: ConditionOp, cs: seq<Compare>, s: Sample, rel: Relation)
    requires WellFormedSource(cs)
    ensures Combine(op, Simplify(cs), s, rel) <==> WrittenMeaning(op, cs, s, rel)
  {
    hide UpperAll, Simplify, Flip, Holds, WrittenMeaning, DontCare;
    SimplifyMembers(cs);
    UpperWellFormed(cs);
    UpperMeaning(op, cs, s, rel);
    forall c | c in UpperAll(cs) && !DontCare(c.value)
      ensures Holds(Flip(c), s, rel) <==> Holds(c, s, rel)
    {
      FlipKeepsMeaning(c, s, rel);
    }
  }

  /** No pass changes what the condition means. */
  lemma CompileKeepsMeaning(op: ConditionOp, cs: seq<Compare>, s: Sample, rel: Relation)
    requires WellFormedSource(cs)
    ensures Combine(op, Compile(op, cs), s, rel) <==> WrittenMeaning(op, cs, s, rel)
  {
    SimplifyKeepsMeaning(op, cs, s, rel);
    GreedyMergeIsConjunction(Simplify(cs), s, rel);
  }

  /** The merged compares of an `and` or `nand` condition cannot be merged any further. */
  lemma CompileIsMaximal(op: ConditionOp, cs: seq<Compare>)
    requires op == And || op == Nand
    ensures NoTwoMergeable(Compile(op, cs))
    ensures |Compile(op, cs)| <= |Simplify(cs)|
  {
    SimplifyMembers(cs);
    GreedyMergeIsMaximal(Simplify(cs));
  }

  // ---------- fitting on ports

  predicate Fits(c: Compare, widths: seq<nat>) {
    c.port < |widths| && c.bit + |c.value| <= widths[c.port]
  }

  /** The port exists, and the highest bit that the compare spans is one of its bits. */
  lemma FitsIs(c: Compare, widths: seq<nat>, highest: int)
    requires c.value != "" && highest == c.bit + |c.value| - 1
    ensures Fits(c, widths) <==> c.port < |widths| && highest < widths[c.port]
    ensures highest in Active(c.value, c.bit) || c.value[0] == 'X'
  {
  }

  ghost predicate AllFit(cs: seq<Compare>, widths: seq<nat>) {
    forall c | c in cs :: Fits(c, widths)
  }

  /** Every compare that takes part in the condition lies on an existing port. */
  ghost predicate ParticipatingFit(cs: seq<Compare>, widths: seq<nat>) {
    forall c | c in cs && !SaysNothing(c.value) :: Fits(c, widths)
  }

  lemma {:induction false} AbsorbFits(m: Compare, rest: seq<Compare>, widths: seq<nat>)
    ensures var (m', left) := Absorb(m, rest);
            Fits(m', widths) && AllFit(left, widths) <==> Fits(m, widths) && AllFit(rest, widths)
    decreases |rest|
  {
    if rest != [] {
      assert rest == [rest[0]] + rest[1..];
      match Merge(m, rest[0])
      case Some(merged) =>
        MergeIsUnion(m, rest[0]);
        assert Fits(merged, widths) <==> Fits(m, widths) && Fits(rest[0], widths);
        AbsorbFits(merged, rest[1..], widths);
      case None =>
        AbsorbFits(m, rest[1..], widths);
    }
  }

  lemma {:induction false} GreedyMergeFits(cs: seq<Compare>, widths: seq<nat>)
    ensures AllFit(GreedyMerge(cs), widths) <==> AllFit(cs, widths)
    decreases |cs|
  {
    if |cs| > 1 {
      AbsorbFits(cs[0], cs[1..], widths);
      GreedyMergeFits(Absorb(cs[0], cs[1..]).1, widths);
      assert cs == [cs[0]] + cs[1..];
    }
  }

  /** The compiled compares fit on the ports exactly when all participating compares do. */
  lemma CompileFits(op: ConditionOp, cs: seq<Compare>, widths: seq<nat>)
    ensures AllFit(Compile(op, cs), widths) <==> ParticipatingFit(cs, widths)
  {
    hide UpperAll, Simplify, Flip, Fits, DontCare, SaysNothing, GreedyMerge;
    SimplifyMembers(cs);
    UpperFits(cs, widths);
    GreedyMergeFits(Simplify(cs), widths);
    forall c: Compare ensures Fits(Flip(c), widths) <==> Fits(c, widths) {
      FlipFits(c, widths);
    }
  }

  lemma FlipFits(c: Compare, widths: seq<nat>)
    ensures Fits(Flip(c), widths) <==> Fits(c, widths)
  {
  }

  lemma UpperFits(cs: seq<Compare>, widths: seq<nat>)
    ensures (forall c | c in UpperAll(cs) && !DontCare(c.value) :: Fits(c, widths)) <==> ParticipatingFit(cs, widths)
  {
    hide Upper, DontCare, SaysNothing;
    var us := UpperAll(cs);
    forall c | c in cs
      ensures UpperCase(c) in us && (Fits(UpperCase(c), widths) <==> Fits(c, widths))
      ensures DontCare(UpperCase(c).value) <==> SaysNothing(c.value)
    {
      var i :| 0 <= i < |cs| && cs[i] == c;
      assert us[i] == UpperCase(c);
      UpperSaysNothing(c.value);
    }
    forall u | u in us ensures exists c :: c in cs && u == UpperCase(c) {
      var i :| 0 <= i < |us| && us[i] == u;
      assert cs[i] in cs;
    }
  }

  /** The port-wide string that a match unit is programmed with. */
  function PortValue(c: Compare, width: nat): Option<string> {
    match ResizeValue(c.value, c.bit, 0, width)
    case None => None
    case Some(v) => Some(c.op + v)
  }

  ghost predicate AllWellFormed(cs: seq<Compare>) {
    forall c | c in cs :: WellFormed(c)
  }

  lemma ResizeKeepsWellFormed(value: string, bit: nat, newBit: nat, width: nat)
    requires WellFormedValue(value) && ResizeValue(value, bit, newBit, width).Some?
    ensures WellFormedValue(ResizeValue(value, bit, newBit, width).value)
  {
    var r := ResizeValue(value, bit, newBit, width).value;
    assert forall i | 0 <= i < |r| :: r[i] == 'X' || r[i] in value;
  }

  lemma MergeCharsWellFormed(v0: string, v1: string)
    requires |v0| == |v1| && WellFormedValue(v0) && WellFormedValue(v1)
    requires MergeChars(v0, v1).Some?
    ensures WellFormedValue(MergeChars(v0, v1).value)
  {
    var v := MergeChars(v0, v1).value;
    forall i | 0 <= i < |v| ensures v[i] in MATCH_CHARS {
      assert MergeChar(v0[i], v1[i]) == Some(v[i]);
      assert v0[i] in v0 && v1[i] in v1;
    }
  }

  lemma MergeKeepsWellFormed(a: Compare, b: Compare)
    requires WellFormed(a) && WellFormed(b) && Merge(a, b).Some?
    ensures WellFormed(Merge(a, b).value)
  {
    ResizeKeepsWellFormed(a.value, a.bit, Min(a.bit, b.bit), Span(a, b));
    ResizeKeepsWellFormed(b.value, b.bit, Min(a.bit, b.bit), Span(a, b));
    MergeCharsWellFormed(AlignTo(a, b), AlignTo(b, a));
  }

  lemma {:induction false} AbsorbKeepsWellFormed(m: Compare, rest: seq<Compare>)
    requires WellFormed(m) && AllWellFormed(rest)
    ensures WellFormed(Absorb(m, rest).0) && AllWellFormed(Absorb(m, rest).1)
    decreases |rest|
  {
    if rest != [] {
      match Merge(m, rest[0])
      case Some(merged) =>
        MergeKeepsWellFormed(m, rest[0]);
        AbsorbKeepsWellFormed(merged, rest[1..]);
      case None =>
        AbsorbKeepsWellFormed(m, rest[1..]);
    }
  }

  lemma {:induction false} GreedyMergeKeepsWellFormed(cs: seq<Compare>)
    requires AllWellFormed(cs)
    ensures AllWellFormed(GreedyMerge(cs))
    decreases |cs|
  {
    if |cs| > 1 {
      AbsorbKeepsWellFormed(cs[0], cs[1..]);
      GreedyMergeKeepsWellFormed(Absorb(cs[0], cs[1..]).1);
    }
  }

  lemma CompileKeepsWellFormed(op: ConditionOp, cs: seq<Compare>)
    requires WellFormedSource(cs)
    ensures AllWellFormed(Compile(op, cs))
  {
    hide UpperAll, Simplify, Flip, DontCare, WellFormed, GreedyMerge;
    SimplifyMembers(cs);
    UpperWellFormed(cs);
    forall x | x in Simplify(cs) ensures WellFormed(x) {
      var c :| c in UpperAll(cs) && !DontCare(c.value) && x == Flip(c);
      FlipWellFormed(c);
    }
    GreedyMergeKeepsWellFormed(Simplify(cs));
  }

  lemma FlipWellFormed(c: Compare)
    requires WellFormed(c) && !DontCare(c.value)
    ensures WellFormed(Flip(c))
  {
    hide WellFormedValue;
    FlipKeepsMeaning(c, (p, b) => Edge(false, false), (o, p, a, s) => false);
  }
}
