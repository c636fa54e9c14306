/** Compares of probes that lie on several ports.  Each is handed to the mapper as one compare for
    every port segment, which says the same only for some operators. */
module TriggerProbes {
  import opened TriggerSemantics
  import opened PortMap

  /** The first segment holds the lowest bits of the value. */
  datatype ProbeCompare = ProbeCompare(op: string, value: string, segs: seq<MapPortSeq>)

  /** The meaning of `<`, `<=`, `>`, `>=` on a probe with several segments. */
  type WideRelation = (ProbeCompare, Sample) -> bool

  predicate Ranges(segs: seq<MapPortSeq>) {
    forall i | 0 <= i < |segs| :: segs[i].low <= segs[i].high
  }

  function Width(segs: seq<MapPortSeq>): nat
    requires Ranges(segs)
  {
    if segs == [] then 0 else segs[0].high - segs[0].low + 1 + Width(segs[1..])
  }

  /** The port bit of probe bit `d`. */
  function BitAt(segs: seq<MapPortSeq>, d: nat): (nat, nat)
    requires Ranges(segs) && d < Width(segs)
  {
    var w := segs[0].high - segs[0].low + 1;
    if d < w then (segs[0].port, segs[0].low + d) else BitAt(segs[1..], d - w)
  }

  /** The value has a character for every bit of the probe. */
  predicate Fills(p: ProbeCompare) {
    Ranges(p.segs) && |p.value| == Width(p.segs)
  }

  function SplitOver(op: string, value: string, segs: seq<MapPortSeq>): seq<Compare>
    requires Ranges(segs) && |value| == Width(segs)
  {
    if segs == [] then []
    else
      var cut := |value| - (segs[0].high - segs[0].low + 1);
      [Compare(segs[0].port, segs[0].low, op, value[cut..])] + SplitOver(op, value[..cut], segs[1..])
  }

  /** The compares that the mapper is given for a probe compare. */
  function Parts(p: ProbeCompare): seq<Compare>
    requires Fills(p)
  {
    SplitOver(p.op, p.value, p.segs)
  }

  // ---------- what the user of a probe means

  function CharOf(value: string, d: nat): char
    requires d < |value|
  {
    value[|value| - 1 - d]
  }

  ghost predicate ProbeBitHolds(value: string, segs: seq<MapPortSeq>, d: nat, s: Sample)
    requires Ranges(segs) && d < |value| == Width(segs)
  {
    BitHolds(CharOf(value, d), s(BitAt(segs, d).0, BitAt(segs, d).1))
  }

  ghost predicate AllProbeBits(value: string, segs: seq<MapPortSeq>, s: Sample)
    requires Ranges(segs) && |value| == Width(segs)
  {
    forall d | 0 <= d < |value| :: ProbeBitHolds(value, segs, d, s)
  }

  ghost predicate SomeProbeBit(value: string, segs: seq<MapPortSeq>, s: Sample)
    requires Ranges(segs) && |value| == Width(segs)
  {
    exists d | 0 <= d < |value| :: !Blank(CharOf(value, d)) && ProbeBitHolds(value, segs, d, s)
  }

  ghost predicate ProbeHolds(p: ProbeCompare, s: Sample, rel: Relation, wide: WideRelation)
    requires Fills(p)
  {
    if p.op == "==" then AllProbeBits(p.value, p.segs, s)
    else if p.op == "!=" then !AllProbeBits(p.value, p.segs, s)
    else if p.op == "||" then SomeProbeBit(p.value, p.segs, s)
    else if |p.segs| == 1 then rel(p.op, p.segs[0].port, Written(p.value, p.segs[0].low), s)
    else wide(p, s)
  }

  /** What the user of a condition means by it: compares that say nothing do not participate. */
  ghost predicate ProbesMean(op: ConditionOp, ps: seq<ProbeCompare>, s: Sample, rel: Relation, wide: WideRelation)
    requires forall p | p in ps :: Fills(p)
  {
    match op
    case And => forall p | p in ps && !SaysNothing(p.value) :: ProbeHolds(p, s, rel, wide)
    case Nand => exists p | p in ps && !SaysNothing(p.value) :: !ProbeHolds(p, s, rel, wide)
    case Or => exists p | p in ps && !SaysNothing(p.value) :: ProbeHolds(p, s, rel, wide)
    case Nor => forall p | p in ps && !SaysNothing(p.value) :: !ProbeHolds(p, s, rel, wide)
  }

  // ---------- the bits of a probe are those of its parts

  ghost predicate SomeActive(c: Compare, s: Sample) {
    exists b | b in Written(c.value, c.bit) :: BitHolds(Written(c.value, c.bit)[b], s(c.port, b))
  }

  ghost predicate AllActive(c: Compare, s: Sample) {
    AllBitsHold(Written(c.value, c.bit), c.port, s)
  }

  ghost predicate CompareBitHolds(c: Compare, d: nat, s: Sample)
    requires d < |c.value|
  {
    BitHolds(CharOf(c.value, d), s(c.port, c.bit + d))
  }

  lemma WrittenAt(value: string, bit: nat, d: int)
    ensures 0 <= bit + d && bit + d in Written(value, bit) <==> 0 <= d < |value| && !Blank(CharOf(value, d))
    ensures 0 <= d < |value| && !Blank(CharOf(value, d)) ==> Written(value, bit)[bit + d] == Letter(CharOf(value, d))
  {
  }

  /** A compare on a segment, by the characters of its value. */
  lemma SegmentAll(c: Compare, s: Sample)
    ensures AllActive(c, s) <==> forall d | 0 <= d < |c.value| :: CompareBitHolds(c, d, s)
  {
    hide Written, CharOf, Letter;
    if AllActive(c, s) {
      forall d | 0 <= d < |c.value| ensures CompareBitHolds(c, d, s) {
        WrittenAt(c.value, c.bit, d);
        LetterHolds(CharOf(c.value, d), s(c.port, c.bit + d));
      }
    }
    if forall d | 0 <= d < |c.value| :: CompareBitHolds(c, d, s) {
      forall b | b in Written(c.value, c.bit) ensures BitHolds(Written(c.value, c.bit)[b], s(c.port, b)) {
        WrittenAt(c.value, c.bit, b - c.bit);
        LetterHolds(CharOf(c.value, b - c.bit), s(c.port, b));
        assert CompareBitHolds(c, b - c.bit, s);
      }
    }
  }

  lemma SegmentSome(c: Compare, s: Sample)
    ensures SomeActive(c, s) <==> exists d | 0 <= d < |c.value| :: !Blank(CharOf(c.value, d)) && CompareBitHolds(c, d, s)
  {
    hide Written, CharOf, Letter, BitHolds;
    if SomeActive(c, s) {
      var b :| b in Written(c.value, c.bit) && BitHolds(Written(c.value, c.bit)[b], s(c.port, b));
      WrittenAt(c.value, c.bit, b - c.bit);
      LetterHolds(CharOf(c.value, b - c.bit), s(c.port, b));
      assert CompareBitHolds(c, b - c.bit, s);
    }
    if d :| 0 <= d < |c.value| && !Blank(CharOf(c.value, d)) && CompareBitHolds(c, d, s) {
      WrittenAt(c.value, c.bit, d);
      LetterHolds(CharOf(c.value, d), s(c.port, c.bit + d));
    }
  }

  /** The bits of the first segment and those of the others. */
  lemma FirstSegment(value: string, segs: seq<MapPortSeq>, d: nat)
    requires Ranges(segs) && segs != [] && d < |value| == Width(segs)
    ensures var w := segs[0].high - segs[0].low + 1;
            var cut := |value| - w;
            && 0 <= cut && |value[..cut]| == Width(segs[1..])
            && (d < w ==> CharOf(value, d) == CharOf(value[cut..], d) && BitAt(segs, d) == (segs[0].port, segs[0].low + d))
            && (d >= w ==> CharOf(value, d) == CharOf(value[..cut], d - w) && BitAt(segs, d) == BitAt(segs[1..], d - w))
  {
  }

  function FirstPart(value: string, segs: seq<MapPortSeq>): Compare
    requires Ranges(segs) && segs != [] && |value| == Width(segs)
  {
    Compare(segs[0].port, segs[0].low, "", value[|value| - (segs[0].high - segs[0].low + 1)..])
  }

  function OtherBits(value: string, segs: seq<MapPortSeq>): (r: string)
    requires Ranges(segs) && segs != [] && |value| == Width(segs)
    ensures |r| == Width(segs[1..])
  {
    value[..|value| - (segs[0].high - segs[0].low + 1)]
  }

  lemma BitBelow(value: string, segs: seq<MapPortSeq>, d: nat, s: Sample)
    requires Ranges(segs) && segs != [] && |value| == Width(segs) && d < |FirstPart(value, segs).value|
    ensures
      var c := FirstPart(value, segs);
      && d < |value| && CharOf(value, d) == CharOf(c.value, d)
      && (ProbeBitHolds(value, segs, d, s) <==> CompareBitHolds(c, d, s))
  {
    FirstSegment(value, segs, d);
  }

  lemma BitAbove(value: string, segs: seq<MapPortSeq>, d: nat, s: Sample)
    requires Ranges(segs) && segs != [] && |value| == Width(segs) && d < |OtherBits(value, segs)|
    ensures
      var w := segs[0].high - segs[0].low + 1;
      && d + w < |value| && CharOf(value, d + w) == CharOf(OtherBits(value, segs), d)
      && (ProbeBitHolds(value, segs, d + w, s) <==> ProbeBitHolds(OtherBits(value, segs), segs[1..], d, s))
  {
    FirstSegment(value, segs, d + segs[0].high - segs[0].low + 1);
  }

  lemma AllBitsSplit(value: string, segs: seq<MapPortSeq>, s: Sample)
    requires Ranges(segs) && segs != [] && |value| == Width(segs)
    ensures AllProbeBits(value, segs, s) <==>
            AllActive(FirstPart(value, segs), s) && AllProbeBits(OtherBits(value, segs), segs[1..], s)
  {
    hide BitAt, AllActive, SomeActive, CharOf, ProbeBitHolds, CompareBitHolds, FirstPart, OtherBits, Width;
    var c, w, rest := FirstPart(value, segs), segs[0].high - segs[0].low + 1, OtherBits(value, segs);
    SegmentAll(c, s);
    FirstWidth(segs);
    FirstPartLength(value, segs);
    if AllProbeBits(value, segs, s) {
      forall d | 0 <= d < |c.value| ensures CompareBitHolds(c, d, s) {
        BitBelow(value, segs, d, s);
      }
      forall d | 0 <= d < |rest| ensures ProbeBitHolds(rest, segs[1..], d, s) {
        BitAbove(value, segs, d, s);
      }
    } else {
      var d :| 0 <= d < |value| && !ProbeBitHolds(value, segs, d, s);
      if d < w {
        BitBelow(value, segs, d, s);
      } else {
        BitAbove(value, segs, d - w, s);
      }
    }
  }

  lemma SomeBitSplit(value: string, segs: seq<MapPortSeq>, s: Sample)
    requires Ranges(segs) && segs != [] && |value| == Width(segs)
    ensures SomeProbeBit(value, segs, s) <==>
            SomeActive(FirstPart(value, segs), s) || SomeProbeBit(OtherBits(value, segs), segs[1..], s)
  {
    hide BitAt, SomeActive, CharOf, ProbeBitHolds, CompareBitHolds, FirstPart, OtherBits, Width;
    var c, w := FirstPart(value, segs), segs[0].high - segs[0].low + 1;
    SegmentSome(c, s);
    FirstWidth(segs);
    FirstPartLength(value, segs);
    if SomeProbeBit(value, segs, s) {
      var d :| 0 <= d < |value| && !Blank(CharOf(value, d)) && ProbeBitHolds(value, segs, d, s);
      if d < w {
        BitBelow(value, segs, d, s);
      } else {
        BitAbove(value, segs, d - w, s);
      }
    }
    if SomeActive(c, s) {
      var d :| 0 <= d < |c.value| && !Blank(CharOf(c.value, d)) && CompareBitHolds(c, d, s);
      BitBelow(value, segs, d, s);
    }
    if SomeProbeBit(OtherBits(value, segs), segs[1..], s) {
      var d :| 0 <= d < |OtherBits(value, segs)| && !Blank(CharOf(OtherBits(value, segs), d))
               && ProbeBitHolds(OtherBits(value, segs), segs[1..], d, s);
      BitAbove(value, segs, d, s);
    }
  }

  lemma FirstPartLength(value: string, segs: seq<MapPortSeq>)
    requires Ranges(segs) && segs != [] && |value| == Width(segs)
    ensures |FirstPart(value, segs).value| == segs[0].high - segs[0].low + 1
    ensures value == OtherBits(value, segs) + FirstPart(value, segs).value
  {
  }

  lemma FirstWidth(segs: seq<MapPortSeq>)
    requires Ranges(segs) && segs != []
    ensures Width(segs) == segs[0].high - segs[0].low + 1 + Width(segs[1..])
  {
  }

  lemma SplitFirst(op: string, value: string, segs: seq<MapPortSeq>)
    requires Ranges(segs) && segs != [] && |value| == Width(segs)
    ensures SplitOver(op, value, segs) ==
            [FirstPart(value, segs).(op := op)] + SplitOver(op, OtherBits(value, segs), segs[1..])
  {
  }

  lemma {:induction false} AllBitsOfParts(op: string, value: string, segs: seq<MapPortSeq>, s: Sample)
    requires Ranges(segs) && |value| == Width(segs)
    ensures AllProbeBits(value, segs, s) <==> forall c | c in SplitOver(op, value, segs) :: AllActive(c, s)
    decreases |segs|
  {
    hide FirstPart, OtherBits, AllActive;
    if segs == [] {
      assert value == "";
    } else {
      var first, rest := FirstPart(value, segs), OtherBits(value, segs);
      AllBitsSplit(value, segs, s);
      SplitFirst(op, value, segs);
      AllBitsOfParts(op, rest, segs[1..], s);
      ActiveAnyOp(first, op, s);
      hide AllProbeBits, SplitOver, Width;
      InFirst(first.(op := op), SplitOver(op, rest, segs[1..]), SplitOver(op, value, segs));
    }
  }

  lemma {:induction false} SomeBitOfParts(op: string, value: string, segs: seq<MapPortSeq>, s: Sample)
    requires Ranges(segs) && |value| == Width(segs)
    ensures SomeProbeBit(value, segs, s) <==> exists c | c in SplitOver(op, value, segs) :: SomeActive(c, s)
    decreases |segs|
  {
    hide FirstPart, OtherBits, SomeActive;
    if segs == [] {
      assert value == "";
    } else {
      var first, rest := FirstPart(value, segs), OtherBits(value, segs);
      SomeBitSplit(value, segs, s);
      SplitFirst(op, value, segs);
      SomeBitOfParts(op, rest, segs[1..], s);
      ActiveAnyOp(first, op, s);
      hide SomeProbeBit, SplitOver, Width;
      InFirst(first.(op := op), SplitOver(op, rest, segs[1..]), SplitOver(op, value, segs));
    }
  }

  lemma InFirst<T>(first: T, rest: seq<T>, all: seq<T>)
    requires all == [first] + rest
    ensures forall x :: x in all <==> x == first || x in rest
  {
  }

  lemma ActiveAnyOp(c: Compare, op: string, s: Sample)
    ensures SomeActive(c.(op := op), s) <==> SomeActive(c, s)
    ensures AllActive(c.(op := op), s) <==> AllActive(c, s)
  {
  }

  lemma SaysNothingConcat(a: string, b: string)
    ensures SaysNothing(a + b) <==> SaysNothing(a) && SaysNothing(b)
  {
    assert forall ch :: ch in a + b <==> ch in a || ch in b;
  }

  lemma NothingSaid()
    ensures SaysNothing([])
  {
  }

  lemma {:induction false} SaysNothingOfParts(op: string, value: string, segs: seq<MapPortSeq>)
    requires Ranges(segs) && |value| == Width(segs)
    ensures SaysNothing(value) <==> forall c | c in SplitOver(op, value, segs) :: SaysNothing(c.value)
    ensures forall c | c in SplitOver(op, value, segs) :: c.op == op
    decreases |segs|
  {
    hide FirstPart, OtherBits, SplitOver, Width, SaysNothing;
    if segs == [] {
      NoParts(op);
      assert value == [];
      NothingSaid();
    } else {
      var first, rest := FirstPart(value, segs), OtherBits(value, segs);
      SplitFirst(op, value, segs);
      FirstPartLength(value, segs);
      SaysNothingOfParts(op, rest, segs[1..]);
      InFirst(first.(op := op), SplitOver(op, rest, segs[1..]), SplitOver(op, value, segs));
      SaysNothingConcat(rest, first.value);
    }
  }

  // ---------- what splitting keeps

  predicate OneParticipates(cs: seq<Compare>) {
    forall i, j | 0 <= i < j < |cs| :: SaysNothing(cs[i].value) || SaysNothing(cs[j].value)
  }

  /** Operators that can be asked of each segment: under `and` when all bits have to hold, under
      `or` when one is enough. */
  predicate Distributes(op: ConditionOp, compareOp: string) {
    if op == And || op == Nand then compareOp == "==" else compareOp in {"!=", "||"}
  }

  /** Bits of one segment only, or an operator that distributes over the segments. */
  predicate Splittable(op: ConditionOp, p: ProbeCompare)
    requires Fills(p)
  {
    if p.op in {"==", "!=", "||"} then OneParticipates(Parts(p)) || Distributes(op, p.op)
    else |p.segs| == 1
  }

  lemma OnePart(p: ProbeCompare)
    requires Fills(p) && |p.segs| == 1
    ensures Parts(p) == [Compare(p.segs[0].port, p.segs[0].low, p.op, p.value)]
  {
    assert p.segs[1..] == [] && p.value[0..] == p.value && p.value[..0] == "";
    assert SplitOver(p.op, "", []) == [];
  }

  lemma OtherSaysNothing(cs: seq<Compare>, c: Compare, d: Compare)
    requires OneParticipates(cs) && c in cs && d in cs && c != d
    ensures SaysNothing(c.value) || SaysNothing(d.value)
  {
  }

  lemma NothingSaidHolds(c: Compare, s: Sample)
    requires SaysNothing(c.value)
    ensures AllActive(c, s) && !SomeActive(c, s)
  {
    NothingWritten(c.value, c.bit);
  }

  lemma HoldsByOp(c: Compare, s: Sample, rel: Relation)
    ensures c.op == "==" ==> (WrittenHolds(c, s, rel) <==> AllActive(c, s))
    ensures c.op == "!=" ==> (WrittenHolds(c, s, rel) <==> !AllActive(c, s))
    ensures c.op == "||" ==> (WrittenHolds(c, s, rel) <==> SomeActive(c, s))
  {
  }

  /** All participating parts hold. */
  ghost predicate EachHolds(cs: seq<Compare>, s: Sample, rel: Relation) {
    forall c | c in cs && !SaysNothing(c.value) :: WrittenHolds(c, s, rel)
  }

  /** Some participating part holds. */
  ghost predicate AnyHolds(cs: seq<Compare>, s: Sample, rel: Relation) {
    exists c | c in cs && !SaysNothing(c.value) :: WrittenHolds(c, s, rel)
  }

  lemma PartsHold(p: ProbeCompare, s: Sample, rel: Relation, wide: WideRelation)
    requires Fills(p) && p.op in {"==", "!=", "||"}
    ensures forall c | c in Parts(p) :: c.op == p.op
    ensures SaysNothing(p.value) <==> forall c | c in Parts(p) :: SaysNothing(c.value)
    ensures p.op == "==" ==> (ProbeHolds(p, s, rel, wide) <==> forall c | c in Parts(p) :: AllActive(c, s))
    ensures p.op == "!=" ==> (ProbeHolds(p, s, rel, wide) <==> exists c | c in Parts(p) :: !AllActive(c, s))
    ensures p.op == "||" ==> (ProbeHolds(p, s, rel, wide) <==> exists c | c in Parts(p) :: SomeActive(c, s))
  {
    SaysNothingOfParts(p.op, p.value, p.segs);
    AllBitsOfParts(p.op, p.value, p.segs, s);
    SomeBitOfParts(p.op, p.value, p.segs, s);
    hide AllProbeBits, SomeProbeBit, SaysNothing, AllActive, SomeActive, Width;
  }

  /** A part that participates stands for the probe when no other does. */
  lemma OnePartHolds(p: ProbeCompare, c: Compare, s: Sample, rel: Relation, wide: WideRelation)
    requires Fills(p) && p.op in {"==", "!=", "||"} && OneParticipates(Parts(p))
    requires c in Parts(p) && !SaysNothing(c.value)
    ensures WrittenHolds(c, s, rel) <==> ProbeHolds(p, s, rel, wide)
  {
    hide Width, SaysNothing, AllActive, SomeActive, WrittenHolds, ProbeHolds;
    var cs := Parts(p);
    PartsHold(p, s, rel, wide);
    HoldsByOp(c, s, rel);
    forall d | d in cs && d != c ensures AllActive(d, s) && !SomeActive(d, s) {
      OtherSaysNothing(cs, c, d);
      NothingSaidHolds(d, s);
    }
  }

  lemma DistributedHolds(op: ConditionOp, p: ProbeCompare, s: Sample, rel: Relation, wide: WideRelation)
    requires Fills(p) && p.op in {"==", "!=", "||"} && Distributes(op, p.op) && !SaysNothing(p.value)
    ensures if op == And || op == Nand then EachHolds(Parts(p), s, rel) <==> ProbeHolds(p, s, rel, wide)
            else AnyHolds(Parts(p), s, rel) <==> ProbeHolds(p, s, rel, wide)
  {
    hide Width, SaysNothing, AllActive, SomeActive, WrittenHolds, ProbeHolds;
    PartsHold(p, s, rel, wide);
    forall c | c in Parts(p)
      ensures c.op == "==" ==> (WrittenHolds(c, s, rel) <==> AllActive(c, s))
      ensures c.op == "!=" ==> (WrittenHolds(c, s, rel) <==> !AllActive(c, s))
      ensures c.op == "||" ==> (WrittenHolds(c, s, rel) <==> SomeActive(c, s))
      ensures SaysNothing(c.value) ==> AllActive(c, s) && !SomeActive(c, s)
    {
      HoldsByOp(c, s, rel);
      if SaysNothing(c.value) {
        NothingSaidHolds(c, s);
      }
    }
  }

  /** The parts of a compare that can be split say what it says. */
  lemma PartsMean(op: ConditionOp, p: ProbeCompare, s: Sample, rel: Relation, wide: WideRelation)
    requires Fills(p) && Splittable(op, p)
    ensures if op == And || op == Nand then EachHolds(Parts(p), s, rel) <==> SaysNothing(p.value) || ProbeHolds(p, s, rel, wide)
            else AnyHolds(Parts(p), s, rel) <==> !SaysNothing(p.value) && ProbeHolds(p, s, rel, wide)
  {
    if p.op !in {"==", "!=", "||"} {
      OnePart(p);
    } else {
      SaysNothingOfParts(p.op, p.value, p.segs);
      hide Width, SaysNothing, WrittenHolds, ProbeHolds;
      if !SaysNothing(p.value) {
        if Distributes(op, p.op) {
          DistributedHolds(op, p, s, rel, wide);
        } else {
          forall c | c in Parts(p) && !SaysNothing(c.value) ensures WrittenHolds(c, s, rel) <==> ProbeHolds(p, s, rel, wide) {
            OnePartHolds(p, c, s, rel, wide);
          }
        }
      }
    }
  }

  ghost predicate AllFill(ps: seq<ProbeCompare>) {
    forall p | p in ps :: Fills(p)
  }

  /** The compares of a condition. */
  function AllParts(ps: seq<ProbeCompare>): seq<Compare>
    requires forall p | p in ps :: Fills(p)
  {
    if ps == [] then [] else AllParts(ps[..|ps| - 1]) + Parts(ps[|ps| - 1])
  }

  lemma {:induction false} AllPartsMember(ps: seq<ProbeCompare>, c: Compare)
    requires AllFill(ps)
    ensures c in AllParts(ps) <==> exists p | p in ps :: c in Parts(p)
  {
    if ps != [] {
      AllPartsMember(ps[..|ps| - 1], c);
      assert ps == ps[..|ps| - 1] + [ps[|ps| - 1]];
    }
  }

  lemma MeaningOfParts(op: ConditionOp, ps: seq<ProbeCompare>, s: Sample, rel: Relation)
    requires AllFill(ps)
    ensures WrittenMeaning(op, AllParts(ps), s, rel) <==>
            match op
            case And => forall p | p in ps :: EachHolds(Parts(p), s, rel)
            case Nand => !forall p | p in ps :: EachHolds(Parts(p), s, rel)
            case Or => exists p | p in ps :: AnyHolds(Parts(p), s, rel)
            case Nor => !exists p | p in ps :: AnyHolds(Parts(p), s, rel)
  {
    hide AllParts, Parts, WrittenHolds, SaysNothing, Fills;
    var cs := AllParts(ps);
    forall c ensures c in cs <==> exists p | p in ps :: c in Parts(p) {
      AllPartsMember(ps, c);
    }
    assert EachHolds(cs, s, rel) <==> forall p | p in ps :: EachHolds(Parts(p), s, rel);
    assert AnyHolds(cs, s, rel) <==> exists p | p in ps :: AnyHolds(Parts(p), s, rel);
  }

  /** Splitting keeps what a condition means, on every sample, when each of its compares can be split. */
  lemma SplitKeepsMeaning(op: ConditionOp, ps: seq<ProbeCompare>, s: Sample, rel: Relation, wide: WideRelation)
    requires AllFill(ps) && forall p | p in ps :: Splittable(op, p)
    ensures WrittenMeaning(op, AllParts(ps), s, rel) <==> ProbesMean(op, ps, s, rel, wide)
  {
    hide AllParts, Parts, EachHolds, AnyHolds, SaysNothing, Splittable, ProbeHolds, WrittenMeaning, Fills;
    MeaningOfParts(op, ps, s, rel);
    forall p | p in ps
      ensures op == And || op == Nand ==>
                (EachHolds(Parts(p), s, rel) <==> SaysNothing(p.value) || ProbeHolds(p, s, rel, wide))
      ensures op == Or || op == Nor ==>
                (AnyHolds(Parts(p), s, rel) <==> !SaysNothing(p.value) && ProbeHolds(p, s, rel, wide))
    {
      PartsMean(op, p, s, rel, wide);
    }
  }

  // ---------- and nothing else is kept

  /** No port bit belongs to two probe bits. */
  ghost predicate DistinctBits(segs: seq<MapPortSeq>)
    requires Ranges(segs)
  {
    forall d, e | 0 <= d < e < Width(segs) :: BitAt(segs, d) != BitAt(segs, e)
  }

  /** An edge on which a character holds, or one on which it does not. */
  function EdgeOf(ch: char, holds: bool): Edge {
    match ch
    case '0' => Edge(false, !holds)
    case '1' => Edge(false, holds)
    case 'R' | 'r' => Edge(false, holds)
    case 'F' | 'f' => Edge(true, !holds)
    case 'L' | 'l' => Edge(false, !holds)
    case 'S' | 's' => Edge(true, holds)
    case 'N' | 'n' => Edge(false, !holds)
    case _ => Edge(false, holds)
  }

  lemma EdgeOfHolds(ch: char, holds: bool)
    requires ch in WRITTEN_CHARS && !Blank(ch)
    ensures BitHolds(ch, EdgeOf(ch, holds)) <==> holds
  {
  }

  /** The edge of a port bit when exactly the wanted probe bits hold. */
  ghost function EdgeAt(p: ProbeCompare, want: nat -> bool, port: nat, bit: nat): Edge
    requires Fills(p)
  {
    if d: nat :| d < |p.value| && BitAt(p.segs, d) == (port, bit) then EdgeOf(CharOf(p.value, d), want(d))
    else Edge(false, false)
  }

  ghost function SampleOf(p: ProbeCompare, want: nat -> bool): Sample
    requires Fills(p)
  {
    (port: nat, bit: nat) => EdgeAt(p, want, port, bit)
  }

  lemma SampleBit(p: ProbeCompare, want: nat -> bool, d: nat)
    requires Fills(p) && DistinctBits(p.segs) && Documented(p.value) && d < |p.value|
    ensures !Blank(CharOf(p.value, d)) ==> (ProbeBitHolds(p.value, p.segs, d, SampleOf(p, want)) <==> want(d))
    ensures Blank(CharOf(p.value, d)) ==> ProbeBitHolds(p.value, p.segs, d, SampleOf(p, want))
  {
    hide BitAt, Width;
    var b := BitAt(p.segs, d);
    assert EdgeAt(p, want, b.0, b.1) == EdgeOf(CharOf(p.value, d), want(d));
    if !Blank(CharOf(p.value, d)) {
      EdgeOfHolds(CharOf(p.value, d), want(d));
    }
  }

  /** Where the bits of segment `i` begin. */
  function Start(segs: seq<MapPortSeq>, i: nat): nat
    requires Ranges(segs) && i <= |segs|
  {
    if i == 0 then 0 else segs[0].high - segs[0].low + 1 + Start(segs[1..], i - 1)
  }

  lemma {:induction false} StartsApart(segs: seq<MapPortSeq>, i: nat, j: nat)
    requires Ranges(segs) && i < j <= |segs|
    ensures Start(segs, i) + segs[i].high - segs[i].low + 1 <= Start(segs, j)
  {
    if i > 0 {
      StartsApart(segs[1..], i - 1, j - 1);
    } else {
      assert Start(segs[1..], j - 1) >= 0;
    }
  }

  lemma StartIs(segs: seq<MapPortSeq>, i: nat)
    requires Ranges(segs) && i <= |segs|
    ensures Start(segs, i) == if i == 0 then 0 else segs[0].high - segs[0].low + 1 + Start(segs[1..], i - 1)
  {
  }

  lemma FirstPartIs(value: string, segs: seq<MapPortSeq>)
    requires Ranges(segs) && segs != [] && |value| == Width(segs)
    ensures
      var c := FirstPart(value, segs);
      var cut := |value| - (segs[0].high - segs[0].low + 1);
      && c.port == segs[0].port && c.bit == segs[0].low
      && 0 <= cut && c.value == value[cut..] && OtherBits(value, segs) == value[..cut]
  {
  }

  /** Probe bit `d` is bit `k` of the compare `c`. */
  ghost predicate IsBit(value: string, segs: seq<MapPortSeq>, d: nat, c: Compare, k: nat)
    requires Ranges(segs) && |value| == Width(segs)
  {
    && d < |value| && k < |c.value|
    && CharOf(value, d) == CharOf(c.value, k) && BitAt(segs, d) == (c.port, c.bit + k)
  }

  lemma BitOfFirst(op: string, value: string, segs: seq<MapPortSeq>, k: nat)
    requires Ranges(segs) && segs != [] && |value| == Width(segs) && k <= segs[0].high - segs[0].low
    ensures IsBit(value, segs, k, FirstPart(value, segs).(op := op), k)
  {
    hide BitAt, Width;
    FirstWidth(segs);
    FirstSegment(value, segs, k);
  }

  lemma BitOfOther(value: string, segs: seq<MapPortSeq>, d: nat, c: Compare, k: nat)
    requires Ranges(segs) && segs != [] && |value| == Width(segs) && IsBit(OtherBits(value, segs), segs[1..], d, c, k)
    ensures IsBit(value, segs, segs[0].high - segs[0].low + 1 + d, c, k)
  {
    hide BitAt, Width;
    FirstWidth(segs);
    FirstSegment(value, segs, segs[0].high - segs[0].low + 1 + d);
  }

  /** Bit `k` of part `i` as a bit of the probe. */
  lemma {:induction false} PartAt(op: string, value: string, segs: seq<MapPortSeq>, i: nat, k: nat)
    requires Ranges(segs) && |value| == Width(segs) && i < |segs| && k <= segs[i].high - segs[i].low
    ensures
      var cs := SplitOver(op, value, segs);
      && |cs| == |segs| && |cs[i].value| == segs[i].high - segs[i].low + 1
      && IsBit(value, segs, Start(segs, i) + k, cs[i], k)
    decreases |segs|
  {
    hide SplitOver, Start, OtherBits, FirstPart, Width, IsBit;
    SplitFirst(op, value, segs);
    FirstPartLength(value, segs);
    PartsLength(op, value, segs);
    StartIs(segs, i);
    if i == 0 {
      BitOfFirst(op, value, segs, k);
    } else {
      PartAt(op, OtherBits(value, segs), segs[1..], i - 1, k);
      BitOfOther(value, segs, Start(segs[1..], i - 1) + k, SplitOver(op, value, segs)[i], k);
    }
  }

  lemma {:induction false} PartsLength(op: string, value: string, segs: seq<MapPortSeq>)
    requires Ranges(segs) && |value| == Width(segs)
    ensures |SplitOver(op, value, segs)| == |segs|
    decreases |segs|
  {
    if segs != [] {
      SplitFirst(op, value, segs);
      PartsLength(op, OtherBits(value, segs), segs[1..]);
    }
  }

  lemma CompareBitIs(c: Compare, k: nat, s: Sample)
    requires k < |c.value|
    ensures CompareBitHolds(c, k, s) <==> BitHolds(CharOf(c.value, k), s(c.port, c.bit + k))
  {
  }

  lemma ProbeBitIs(value: string, segs: seq<MapPortSeq>, d: nat, s: Sample)
    requires Ranges(segs) && d < |value| == Width(segs)
    ensures ProbeBitHolds(value, segs, d, s) <==> BitHolds(CharOf(value, d), s(BitAt(segs, d).0, BitAt(segs, d).1))
  {
  }

  lemma PartBit(p: ProbeCompare, i: nat, k: nat, s: Sample)
    requires Fills(p) && i < |p.segs| && k <= p.segs[i].high - p.segs[i].low
    ensures
      var d, cs := Start(p.segs, i) + k, Parts(p);
      && |cs| == |p.segs| && |cs[i].value| == p.segs[i].high - p.segs[i].low + 1
      && d < |p.value| && CharOf(p.value, d) == CharOf(cs[i].value, k)
      && (CompareBitHolds(cs[i], k, s) <==> ProbeBitHolds(p.value, p.segs, d, s))
  {
    hide Start, SplitOver, BitAt, Width, CharOf, BitHolds, CompareBitHolds, ProbeBitHolds;
    PartAt(p.op, p.value, p.segs, i, k);
    CompareBitIs(Parts(p)[i], k, s);
    ProbeBitIs(p.value, p.segs, Start(p.segs, i) + k, s);
  }

  lemma PartBitOnSample(p: ProbeCompare, want: nat -> bool, i: nat, k: nat)
    requires Fills(p) && DistinctBits(p.segs) && Documented(p.value)
    requires i < |p.segs| && k <= p.segs[i].high - p.segs[i].low
    ensures
      var d, cs := Start(p.segs, i) + k, Parts(p);
      && |cs| == |p.segs| && |cs[i].value| == p.segs[i].high - p.segs[i].low + 1
      && d < |p.value| && CharOf(p.value, d) == CharOf(cs[i].value, k)
      && (CompareBitHolds(cs[i], k, SampleOf(p, want)) <==> Blank(CharOf(p.value, d)) || want(d))
      && (ProbeBitHolds(p.value, p.segs, d, SampleOf(p, want)) <==> Blank(CharOf(p.value, d)) || want(d))
  {
    hide Start, Parts, Width, CharOf, SampleOf, DistinctBits, Documented, CompareBitHolds, ProbeBitHolds;
    PartBit(p, i, k, SampleOf(p, want));
    SampleBit(p, want, Start(p.segs, i) + k);
  }

  /** A bit that a participating part constrains. */
  lemma ActiveBit(p: ProbeCompare, i: nat) returns (k: nat)
    requires Fills(p) && i < |Parts(p)| && !SaysNothing(Parts(p)[i].value)
    ensures |Parts(p)| == |p.segs|
    ensures k <= p.segs[i].high - p.segs[i].low && k < |Parts(p)[i].value| && !Blank(CharOf(Parts(p)[i].value, k))
  {
    PartsLength(p.op, p.value, p.segs);
    PartAt(p.op, p.value, p.segs, i, 0);
    hide Start, SplitOver, BitAt, Width;
    var value := Parts(p)[i].value;
    var x :| 0 <= x < |value| && !Blank(value[x]);
    k := |value| - 1 - x;
  }

  /** A sample on which part `j` says something else than the probe does. */
  lemma PartDiffers(p: ProbeCompare, i: nat, j: nat) returns (s: Sample)
    requires Fills(p) && DistinctBits(p.segs) && Documented(p.value)
    requires i < j < |Parts(p)| && !SaysNothing(Parts(p)[i].value)
    ensures p.op != "||" ==> AllActive(Parts(p)[j], s) && !AllProbeBits(p.value, p.segs, s)
    ensures p.op == "||" ==> !SomeActive(Parts(p)[j], s) && SomeProbeBit(p.value, p.segs, s)
  {
    hide Start, Width, BitAt, SampleOf, DistinctBits, Parts, ProbeBitHolds, CompareBitHolds, AllActive, SomeActive;
    var k := ActiveBit(p, i);
    var d0 := Start(p.segs, i) + k;
    var or := p.op == "||";
    var want: nat -> bool := (d: nat) => (d == d0) == or;
    s := SampleOf(p, want);
    PartBitOnSample(p, want, i, k);
    StartsApart(p.segs, i, j);
    var c := Parts(p)[j];
    PartBitOnSample(p, want, j, 0);
    forall m | 0 <= m < |c.value|
      ensures !or ==> CompareBitHolds(c, m, s)
      ensures or && !Blank(CharOf(c.value, m)) ==> !CompareBitHolds(c, m, s)
    {
      PartBitOnSample(p, want, j, m);
    }
    SegmentAll(c, s);
    SegmentSome(c, s);
  }

  /** Splitting keeps the meaning of one compare on a sample. */
  ghost predicate KeptOn(op: ConditionOp, p: ProbeCompare, s: Sample, rel: Relation, wide: WideRelation)
    requires Fills(p)
  {
    WrittenMeaning(op, Parts(p), s, rel) <==> ProbesMean(op, [p], s, rel, wide)
  }

  lemma MeaningOfOne(op: ConditionOp, p: ProbeCompare, s: Sample, rel: Relation, wide: WideRelation)
    requires Fills(p) && !SaysNothing(p.value)
    ensures ProbesMean(op, [p], s, rel, wide) <==>
            if op == And || op == Or then ProbeHolds(p, s, rel, wide) else !ProbeHolds(p, s, rel, wide)
    ensures WrittenMeaning(op, Parts(p), s, rel) <==>
            match op
            case And => EachHolds(Parts(p), s, rel)
            case Nand => !EachHolds(Parts(p), s, rel)
            case Or => AnyHolds(Parts(p), s, rel)
            case Nor => !AnyHolds(Parts(p), s, rel)
  {
    hide Parts, WrittenHolds, SaysNothing, ProbeHolds, Fills;
    assert forall q :: q in [p] <==> q == p;
  }

  lemma NotSplittableLoses(op: ConditionOp, p: ProbeCompare, rel: Relation, wide: WideRelation) returns (s: Sample)
    requires Fills(p) && DistinctBits(p.segs) && Documented(p.value)
    requires p.op in {"==", "!=", "||"} && !Splittable(op, p)
    ensures !KeptOn(op, p, s, rel, wide)
  {
    hide Parts, DistinctBits, SaysNothing, AllActive, SomeActive, WrittenMeaning, ProbesMean, Fills, AllProbeBits, SomeProbeBit, WrittenHolds;
    var cs := Parts(p);
    var i, j :| 0 <= i < j < |cs| && !SaysNothing(cs[i].value) && !SaysNothing(cs[j].value);
    s := PartDiffers(p, i, j);
    PartsHold(p, s, rel, wide);
    MeaningOfOne(op, p, s, rel, wide);
    HoldsByOp(cs[j], s, rel);
    assert cs[j] in cs;
  }

  /** Splitting keeps what an `==`, `!=` or `||` compare means, on every sample, if and only if only
      one segment has bits that matter, or the operator distributes over segments: `==` under
      `and`, `!=` and `||` under `or`. */
  lemma SplitKeepsExactly(op: ConditionOp, p: ProbeCompare, rel: Relation, wide: WideRelation)
    requires Fills(p) && DistinctBits(p.segs) && Documented(p.value) && p.op in {"==", "!=", "||"}
    ensures (forall s: Sample :: KeptOn(op, p, s, rel, wide)) <==>
            OneParticipates(Parts(p)) || Distributes(op, p.op)
  {
    if Splittable(op, p) {
      forall s: Sample ensures KeptOn(op, p, s, rel, wide) {
        SplitKeepsMeaning(op, [p], s, rel, wide);
        assert [p][..0] == [] && AllParts([]) == [];
        assert AllParts([p]) == AllParts([p][..0]) + Parts(p) == Parts(p);
      }
    } else {
      var s := NotSplittableLoses(op, p, rel, wide);
    }
  }

  /** A value of two ones, for two one-bit ports. */
  function TwoBits(p: nat, q: nat): ProbeCompare {
    ProbeCompare("!=", ['1', '1'], [MapPortSeq(p, 0, 0), MapPortSeq(q, 0, 0)])
  }

  lemma SplitOneBit(op: string, value: string, segs: seq<MapPortSeq>)
    requires Ranges(segs) && segs != [] && segs[0].high == segs[0].low && value != []
    requires |value| - 1 == Width(segs[1..])
    ensures |value| == Width(segs)
    ensures
      var cs, rest := SplitOver(op, value, segs), SplitOver(op, value[..|value| - 1], segs[1..]);
      && |cs| == 1 + |rest| && cs[0] == Compare(segs[0].port, segs[0].low, op, [value[|value| - 1]])
      && forall i | 0 <= i < |rest| :: cs[i + 1] == rest[i]
  {
    hide Width;
    OneWide(segs);
    assert value[|value| - 1..] == [value[|value| - 1]];
  }

  lemma OneWide(segs: seq<MapPortSeq>)
    requires Ranges(segs) && segs != [] && segs[0].high == segs[0].low
    ensures Width(segs) == 1 + Width(segs[1..])
  {
  }

  lemma NoParts(op: string)
    ensures Width([]) == 0 && SplitOver(op, [], []) == []
  {
  }

  lemma PartsOfTwoBits(p: nat, q: nat)
    ensures Fills(TwoBits(p, q)) && |Parts(TwoBits(p, q))| == 2
    ensures Parts(TwoBits(p, q))[0] == Compare(p, 0, "!=", ['1']) && Parts(TwoBits(p, q))[1] == Compare(q, 0, "!=", ['1'])
  {
    hide SplitOver, Width;
    var segs, value := TwoBits(p, q).segs, TwoBits(p, q).value;
    NoParts("!=");
    assert segs[1..] == [MapPortSeq(q, 0, 0)] && segs[1..][1..] == [] && value[..1] == ['1'] && value[..1][..0] == [];
    SplitOneBit("!=", value[..1], segs[1..]);
    SplitOneBit("!=", value, segs);
  }

  lemma OneIsCurrent(port: nat, s: Sample)
    ensures AllActive(Compare(port, 0, "!=", ['1']), s) <==> s(port, 0).cur
  {
    var c := Compare(port, 0, "!=", ['1']);
    SegmentAll(c, s);
    assert |c.value| == 1 && CharOf(c.value, 0) == '1';
    CompareBitIs(c, 0, s);
  }

  /** Two bits that are both to be 1: when only the first is, the probe is not equal to the value,
      but the split `!=` under `and` does not hold. */
  lemma SplitLosesExample(p: nat, q: nat, s: Sample, rel: Relation, wide: WideRelation)
    requires s(p, 0).cur && !s(q, 0).cur
    ensures Fills(TwoBits(p, q))
    ensures ProbesMean(And, [TwoBits(p, q)], s, rel, wide) && !WrittenMeaning(And, Parts(TwoBits(p, q)), s, rel)
  {
    hide Parts, AllActive, WrittenHolds, ProbeHolds, SomeActive, Fills;
    var two := TwoBits(p, q);
    PartsOfTwoBits(p, q);
    var cs := Parts(two);
    OneIsCurrent(p, s);
    OneIsCurrent(q, s);
    PartsHold(two, s, rel, wide);
    assert cs[0] in cs && cs[1] in cs;
    HoldsByOp(cs[0], s, rel);
    assert !SaysNothing(cs[0].value) by {
      assert cs[0].value[0] in cs[0].value;
    }
    MeaningOfOne(And, two, s, rel, wide);
  }

  // ---------- swapped operands

  /** What a compare written with the number first becomes. */
  function ReverseOperator(op: string): string {
    if op == ">" then "<=" else if op == "<" then ">=" else if op == ">=" then "<" else if op == "<=" then ">" else op
  }

  predicate Compared(op: string, a: int, b: int) {
    if op == "==" then a == b else if op == "!=" then a != b
    else if op == "<" then a < b else if op == "<=" then a <= b
    else if op == ">" then a > b else a >= b
  }

  /** Swapping the operands keeps a comparison if and only if it is `==` or `!=`, or the two numbers
      differ: the operator is negated, not mirrored. */
  lemma ReverseKeepsExactly(op: string, value: int, probe: int)
    requires op in {"==", "!=", "<", "<=", ">", ">="}
    ensures (Compared(ReverseOperator(op), probe, value) <==> Compared(op, value, probe)) <==>
            op in {"==", "!="} || value != probe
  {
    assert |"<="| == |">="| == |"=="| == |"!="| == 2 && |"<"| == |">"| == 1;
    assert "<"[0] != ">"[0] && "<="[0] != ">="[0] && "=="[0] != "!="[0];
  }

  /** So of the operators only `==` and `!=` may be swapped, with a number that the probe, which
      takes the values below `bound`, can have. */
  lemma OperatorReversible(op: string, value: nat, bound: nat)
    requires op in {"==", "!=", "<", "<=", ">", ">="}
    ensures (forall probe: nat | probe < bound ::
               Compared(ReverseOperator(op), probe, value) <==> Compared(op, value, probe)) <==>
            op in {"==", "!="} || value >= bound
  {
    hide Compared, ReverseOperator;
    if op in {"==", "!="} || value >= bound {
      forall probe: nat | probe < bound
        ensures Compared(ReverseOperator(op), probe, value) <==> Compared(op, value, probe)
      {
        ReverseKeepsExactly(op, value, probe);
      }
    } else {
      ReverseKeepsExactly(op, value, value);
    }
  }
}
