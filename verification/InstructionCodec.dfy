/** The 411-bit instruction of the traffic generator: its fields, its word, and its 32-bit words. */
module InstructionCodec {
  import opened BitArithmetic
  import opened Hexadecimal
  import opened Wrappers

  datatype Field = Field(name: string, width: nat, shift: nat)

  const LAYOUT: seq<Field> := [
    Field("axi_user", 4, 0), Field("axi_region", 4, 4), Field("axi_qos", 4, 8), Field("axi_prot", 3, 12),
    Field("axi_cache", 4, 15), Field("axi_lock", 2, 19), Field("axi_burst", 2, 21), Field("axi_size", 3, 23),
    Field("axi_len", 8, 26), Field("axi_id_type", 1, 34), Field("txn_count", 16, 35),
    Field("transaction_type", 2, 51), Field("number_of_bytes_per_transaction", 48, 53),
    Field("axi_addr_offset", 48, 101), Field("high_addr", 48, 149), Field("base_addr", 48, 197),
    Field("seed", 48, 245), Field("address_pattern", 2, 293), Field("loop_address", 9, 295),
    Field("loop", 1, 304), Field("last_instruction", 1, 305), Field("infinite_transaction", 1, 306),
    Field("start_delay", 16, 307), Field("loop_count", 16, 323), Field("infinite_loop", 1, 339),
    Field("loop_start", 1, 340), Field("dest_id", 12, 341), Field("data_integrity", 1, 353),
    Field("wdata_pat_value", 9, 354), Field("loop_addr_incr_by", 16, 363), Field("inst_id_value", 16, 379),
    Field("exp_resp", 3, 395), Field("user_10_bit", 10, 398), Field("last_write_read", 2, 408),
    Field("user_11th_bit", 1, 410)]

  const BITS: nat := 411

  ghost predicate Tiles(layout: seq<Field>, bits: nat) {
    && (layout == [] ==> bits == 0)
    && (layout != [] ==> layout[0].shift == 0 && layout[|layout| - 1].shift + layout[|layout| - 1].width == bits)
    && forall i | 0 <= i < |layout| - 1 :: layout[i + 1].shift == layout[i].shift + layout[i].width
  }

  /** The fields cover the bits below 411 with no gap and no overlap. */
  lemma LayoutTiles()
    ensures Tiles(LAYOUT, BITS) && |LAYOUT| == 35
  {
  }

  /** Where the field after the first `k` begins. */
  function End(layout: seq<Field>, k: nat): nat
    requires k <= |layout|
  {
    if k == 0 then 0 else layout[k - 1].shift + layout[k - 1].width
  }

  /** Every value fits its field. */
  predicate Validates(layout: seq<Field>, values: seq<int>)
    requires |values| == |layout|
  {
    forall i | 0 <= i < |layout| :: 0 <= values[i] < Pow2(layout[i].width)
  }

  /** The sum of the first `k` fields, each cut to its width. */
  function Packed(layout: seq<Field>, values: seq<int>, k: nat): nat
    requires |values| == |layout| && k <= |layout|
  {
    if k == 0 then 0
    else Packed(layout, values, k - 1) + Shl(Low(values[k - 1], layout[k - 1].width), layout[k - 1].shift)
  }

  function Unpacked(layout: seq<Field>, word: int): (values: seq<int>)
    ensures |values| == |layout|
  {
    seq(|layout|, i requires 0 <= i < |layout| => Low(Shr(word, layout[i].shift), layout[i].width))
  }

  lemma EndIsShift(layout: seq<Field>, k: nat)
    requires k < |layout| && Tiles(layout, End(layout, |layout|))
    ensures End(layout, k) == layout[k].shift
  {
    if k > 0 {
      assert layout[k - 1 + 1].shift == layout[k - 1].shift + layout[k - 1].width;
    }
  }

  lemma {:induction false} PackedBounds(layout: seq<Field>, values: seq<int>, k: nat)
    requires |values| == |layout| && k <= |layout| && Tiles(layout, End(layout, |layout|))
    ensures Packed(layout, values, k) < Pow2(End(layout, k))
  {
    if k > 0 {
      PackedBounds(layout, values, k - 1);
      var f := layout[k - 1];
      EndIsShift(layout, k - 1);
      LowBounds(values[k - 1], f.width);
      SumBounds(Packed(layout, values, k - 1), Low(values[k - 1], f.width), f.shift, f.width);
    }
  }

  lemma {:induction false} ShiftsGrow(layout: seq<Field>, i: nat, j: nat)
    requires Tiles(layout, End(layout, |layout|)) && i < j < |layout|
    ensures layout[i].shift + layout[i].width <= layout[j].shift
    decreases j
  {
    assert layout[j - 1 + 1].shift == layout[j - 1].shift + layout[j - 1].width;
    if i < j - 1 {
      ShiftsGrow(layout, i, j - 1);
    }
  }

  /** Every field read back from the packed word is the value packed there, cut to its width. */
  lemma {:induction false} FieldOfPacked(layout: seq<Field>, values: seq<int>, k: nat, i: nat)
    requires |values| == |layout| && i < k <= |layout| && Tiles(layout, End(layout, |layout|))
    ensures Low(Shr(Packed(layout, values, k), layout[i].shift), layout[i].width) == Low(values[i], layout[i].width)
    decreases k
  {
    hide Shl, Low, Shr, Pow2;
    var f := layout[k - 1];
    var x := Packed(layout, values, k - 1);
    var y := Low(values[k - 1], f.width);
    if i == k - 1 {
      PackedBounds(layout, values, k - 1);
      EndIsShift(layout, k - 1);
      ShrOfSum(x, y, f.shift);
      LowBounds(values[i], f.width);
      LowOfSmall(y, f.width);
    } else {
      FieldOfPacked(layout, values, k - 1, i);
      ShiftsGrow(layout, i, k - 1);
      ShrOfSumBelow(x, y, f.shift, layout[i].shift);
      LowOfSum(Shr(x, layout[i].shift), y, f.shift - layout[i].shift, layout[i].width);
    }
  }

  /** Unpacking a packed instruction gives back its validated fields. */
  lemma UnpackAfterPack(values: seq<int>)
    requires |values| == |LAYOUT| && Validates(LAYOUT, values)
    ensures Packed(LAYOUT, values, |LAYOUT|) < Pow2(BITS)
    ensures Unpacked(LAYOUT, Packed(LAYOUT, values, |LAYOUT|)) == values
  {
    LayoutTiles();
    hide LAYOUT;
    PackedBounds(LAYOUT, values, |LAYOUT|);
    forall i | 0 <= i < |LAYOUT|
      ensures Unpacked(LAYOUT, Packed(LAYOUT, values, |LAYOUT|))[i] == values[i]
    {
      FieldOfPacked(LAYOUT, values, |LAYOUT|, i);
      LowOfSmall(values[i], LAYOUT[i].width);
    }
  }

  lemma {:induction false} PackedOfUnpacked(layout: seq<Field>, word: int, k: nat)
    requires k <= |layout| && Tiles(layout, End(layout, |layout|))
    ensures Packed(layout, Unpacked(layout, word), k) == Low(word, End(layout, k))
  {
    hide Shl, Shr, Pow2;
    if k > 0 {
      PackedOfUnpacked(layout, word, k - 1);
      var f := layout[k - 1];
      EndIsShift(layout, k - 1);
      var v := Low(Shr(word, f.shift), f.width);
      LowBounds(Shr(word, f.shift), f.width);
      LowOfSmall(v, f.width);
      LowOfLonger(word, f.shift, f.width);
    }
  }

  lemma UnpackedValidates(layout: seq<Field>, word: int)
    ensures Validates(layout, Unpacked(layout, word))
  {
    forall i | 0 <= i < |layout| ensures 0 <= Unpacked(layout, word)[i] < Pow2(layout[i].width) {
      LowBounds(Shr(word, layout[i].shift), layout[i].width);
    }
  }

  /** Packing what was unpacked gives back the low 411 bits. */
  lemma PackAfterUnpack(word: int)
    ensures Validates(LAYOUT, Unpacked(LAYOUT, word))
    ensures Packed(LAYOUT, Unpacked(LAYOUT, word), |LAYOUT|) == Low(word, BITS)
  {
    LayoutTiles();
    PackedOfUnpacked(LAYOUT, word, |LAYOUT|);
    UnpackedValidates(LAYOUT, word);
  }

  /** It gives back the number itself if and only if that has 411 bits at most. */
  lemma PackAfterUnpackExactly(word: int)
    ensures Packed(LAYOUT, Unpacked(LAYOUT, word), |LAYOUT|) == word <==> 0 <= word < Pow2(BITS)
  {
    hide LAYOUT, Low, Pow2;
    PackAfterUnpack(word);
    LowBounds(word, BITS);
    if 0 <= word < Pow2(BITS) {
      LowOfSmall(word, BITS);
    }
  }

  const DIGITS: nat := 103

  /** Of a string of digits, accepted because it is 103 digits long: the number packed again is
      the one written if and only if the first digit is below eight. */
  lemma StringKeptExactly(memStr: string)
    requires |memStr| == DIGITS && ParseHex(memStr).Some?
    ensures ParseInt(memStr) == Some(ParseHex(memStr).value) && HexDigit(memStr[0]).Some?
    ensures Packed(LAYOUT, Unpacked(LAYOUT, ParseHex(memStr).value), |LAYOUT|) == ParseHex(memStr).value <==>
            HexDigit(memStr[0]).value < 8
  {
    hide LAYOUT, ParseHex, HexDigit, Packed, Unpacked, ParseInt;
    ParseIntOfDigits(memStr);
    PackAfterUnpackExactly(ParseHex(memStr).value);
    LeadingDigit(memStr, 3);
    assert Pow2(3) == 8;
  }

  function Zeros(n: nat): (s: string)
    ensures |s| == n
  {
    if n == 0 then "" else Zeros(n - 1) + "0"
  }

  lemma {:induction false} ParseZeros(n: nat)
    ensures ParseHex(Zeros(n)) == Some(0)
  {
    if n > 0 {
      ParseZeros(n - 1);
      assert Zeros(n)[..n - 1] == Zeros(n - 1);
    }
  }

  /** An eight and 102 zeros: accepted, with 2^411 for its number, and packed to zero. */
  lemma TopBitIsLost()
    ensures var memStr := "8" + Zeros(DIGITS - 1);
            && |memStr| == DIGITS && ParseInt(memStr) == Some(Pow2(BITS))
            && Packed(LAYOUT, Unpacked(LAYOUT, Pow2(BITS)), |LAYOUT|) == 0
  {
    hide LAYOUT, Packed, Unpacked, ParseInt, Pow2, Low;
    ParseZeros(DIGITS - 1);
    ParseEight();
    ParseHexConcat("8", Zeros(DIGITS - 1));
    EightShifted();
    ParseIntOfDigits("8" + Zeros(DIGITS - 1));
    PackAfterUnpack(Pow2(BITS));
    LowOfPower(BITS);
  }

  lemma ParseEight()
    ensures ParseHex("8") == Some(8)
  {
    assert ParseHex("8"[..0]) == Some(0);
  }

  lemma EightShifted()
    ensures Shl(8, 4 * (DIGITS - 1)) == Pow2(BITS)
  {
    Pow2Sum(3, 4 * (DIGITS - 1));
    assert Pow2(3) == 8;
  }

  lemma LowOfPower(n: nat)
    ensures Low(Pow2(n), n) == 0
  {
    LowOfSum(0, 1, n, n);
    LowOfSmall(0, n);
  }

  // ---------- the fields by name

  /** Bits `lsb` to `msb` of the word are the field of that name. */
  ghost predicate At(name: string, lsb: nat, msb: nat) {
    lsb <= msb && Field(name, msb - lsb + 1, lsb) in LAYOUT
  }

  /** The addresses and what they are counted on by. */
  lemma Addresses()
    ensures At("base_addr", 197, 244) && At("high_addr", 149, 196)
    ensures At("axi_addr_offset", 101, 148) && At("number_of_bytes_per_transaction", 53, 100)
    ensures At("address_pattern", 293, 294) && At("seed", 245, 292)
  {
    assert LAYOUT[15] == Field("base_addr", 48, 197);
    assert LAYOUT[14] == Field("high_addr", 48, 149);
    assert LAYOUT[13] == Field("axi_addr_offset", 48, 101);
    assert LAYOUT[12] == Field("number_of_bytes_per_transaction", 48, 53);
    assert LAYOUT[17] == Field("address_pattern", 2, 293);
    assert LAYOUT[16] == Field("seed", 48, 245);
  }

  /** Loops, repetition and delay. */
  lemma Loops()
    ensures At("loop", 304, 304) && At("loop_address", 295, 303)
    ensures At("loop_addr_incr_by", 363, 378) && At("loop_count", 323, 338)
    ensures At("loop_start", 340, 340) && At("infinite_loop", 339, 339)
    ensures At("infinite_transaction", 306, 306) && At("last_instruction", 305, 305)
    ensures At("start_delay", 307, 322) && At("txn_count", 35, 50)
  {
    assert LAYOUT[19] == Field("loop", 1, 304);
    assert LAYOUT[18] == Field("loop_address", 9, 295);
    assert LAYOUT[29] == Field("loop_addr_incr_by", 16, 363);
    assert LAYOUT[23] == Field("loop_count", 16, 323);
    assert LAYOUT[25] == Field("loop_start", 1, 340);
    assert LAYOUT[24] == Field("infinite_loop", 1, 339);
    assert LAYOUT[21] == Field("infinite_transaction", 1, 306);
    assert LAYOUT[20] == Field("last_instruction", 1, 305);
    assert LAYOUT[22] == Field("start_delay", 16, 307);
    assert LAYOUT[10] == Field("txn_count", 16, 35);
  }

  /** The signals of the AXI port. */
  lemma AxiSignals()
    ensures At("axi_user", 0, 3) && At("axi_region", 4, 7)
    ensures At("axi_qos", 8, 11) && At("axi_prot", 12, 14)
    ensures At("axi_cache", 15, 18) && At("axi_lock", 19, 20)
    ensures At("axi_burst", 21, 22) && At("axi_size", 23, 25)
    ensures At("axi_len", 26, 33) && At("axi_id_type", 34, 34)
  {
    assert LAYOUT[0] == Field("axi_user", 4, 0);
    assert LAYOUT[1] == Field("axi_region", 4, 4);
    assert LAYOUT[2] == Field("axi_qos", 4, 8);
    assert LAYOUT[3] == Field("axi_prot", 3, 12);
    assert LAYOUT[4] == Field("axi_cache", 4, 15);
    assert LAYOUT[5] == Field("axi_lock", 2, 19);
    assert LAYOUT[6] == Field("axi_burst", 2, 21);
    assert LAYOUT[7] == Field("axi_size", 3, 23);
    assert LAYOUT[8] == Field("axi_len", 8, 26);
    assert LAYOUT[9] == Field("axi_id_type", 1, 34);
  }

  /** The other fields. */
  lemma Others()
    ensures At("transaction_type", 51, 52) && At("dest_id", 341, 352)
    ensures At("data_integrity", 353, 353) && At("wdata_pat_value", 354, 362)
    ensures At("inst_id_value", 379, 394) && At("exp_resp", 395, 397)
    ensures At("user_10_bit", 398, 407) && At("last_write_read", 408, 409)
    ensures At("user_11th_bit", 410, 410)
  {
    assert LAYOUT[11] == Field("transaction_type", 2, 51);
    assert LAYOUT[26] == Field("dest_id", 12, 341);
    assert LAYOUT[27] == Field("data_integrity", 1, 353);
    assert LAYOUT[28] == Field("wdata_pat_value", 9, 354);
    assert LAYOUT[30] == Field("inst_id_value", 16, 379);
    assert LAYOUT[31] == Field("exp_resp", 3, 395);
    assert LAYOUT[32] == Field("user_10_bit", 10, 398);
    assert LAYOUT[33] == Field("last_write_read", 2, 408);
    assert LAYOUT[34] == Field("user_11th_bit", 1, 410);
  }

  /** In a packed word, the bits of a named field are the value of the field of that name. */
  lemma FieldNamed(values: seq<int>, name: string, lsb: nat, msb: nat) returns (i: nat)
    requires |values| == |LAYOUT| && Validates(LAYOUT, values) && At(name, lsb, msb)
    ensures i < |LAYOUT| && LAYOUT[i].name == name
    ensures Packed(LAYOUT, values, |LAYOUT|) / Pow2(lsb) % Pow2(msb - lsb + 1) == values[i]
  {
    LayoutTiles();
    hide LAYOUT, Packed, Pow2, Low;
    i :| 0 <= i < |LAYOUT| && LAYOUT[i] == Field(name, msb - lsb + 1, lsb);
    FieldOfPacked(LAYOUT, values, |LAYOUT|, i);
    LowOfSmall(values[i], LAYOUT[i].width);
    var word := Packed(LAYOUT, values, |LAYOUT|);
    ShrDivides(word, lsb);
    ShrDivides(Shr(word, lsb), msb - lsb + 1);
  }

  // ---------- 32-bit words

  const MASK32: nat := 0xFFFF_FFFF

  lemma Mask32()
    ensures Pow2(32) - 1 == MASK32
  {
    assert Pow2(8) == 256;
    Pow2Sum(8, 8);
    ShlScales(256, 8);
    Pow2Sum(16, 8);
    ShlScales(65536, 8);
    Pow2Sum(24, 8);
    ShlScales(65536 * 256, 8);
  }

  /** The number whose base-2^32 digits these are, the least significant first. */
  function Value(words: seq<nat>): nat {
    if words == [] then 0 else words[0] + Shl(Value(words[1..]), 32)
  }

  ghost predicate AreDigits(words: seq<nat>) {
    forall w | w in words :: w < Pow2(32)
  }

  ghost predicate Minimal(words: seq<nat>) {
    words == [] || words[|words| - 1] > 0
  }

  lemma {:induction false} ValueOfAppended(words: seq<nat>, w: nat)
    ensures Value(words + [w]) == Value(words) + Shl(w, 32 * |words|)
  {
    hide Shl;
    if words == [] {
      ShlZero(32);
      ShlNone(w);
    } else {
      ValueOfAppended(words[1..], w);
      assert (words + [w])[1..] == words[1..] + [w];
      ShlAdds(Value(words[1..]), Shl(w, 32 * (|words| - 1)), 32);
      ShlTwice(w, 32 * (|words| - 1), 32);
    }
  }

  /** The digits of a number are unique, once the last one is not zero. */
  lemma {:induction false} DigitsUnique(ws: seq<nat>, vs: seq<nat>)
    requires AreDigits(ws) && AreDigits(vs) && Value(ws) == Value(vs) && Minimal(ws)
    ensures |ws| <= |vs| && forall i | 0 <= i < |vs| :: vs[i] == if i < |ws| then ws[i] else 0
  {
    hide Shl, Low, Shr, Pow2;
    if ws == [] && vs == [] {
    } else {
      var (w, ws') := if ws == [] then (0, []) else (ws[0], ws[1..]);
      var (v, vs') := if vs == [] then (0, []) else (vs[0], vs[1..]);
      ShlZero(32);
      assert (ws != [] ==> ws[0] in ws) && (vs != [] ==> vs[0] in vs);
      ShrOfSum(w, Value(ws'), 32);
      ShrOfSum(v, Value(vs'), 32);
      LowOfSum(w, Value(ws'), 32, 32);
      LowOfSum(v, Value(vs'), 32, 32);
      LowOfSmall(w, 32);
      LowOfSmall(v, 32);
      assert (forall d | d in ws' :: d in ws) && (forall d | d in vs' :: d in vs);
      DigitsUnique(ws', vs');
    }
  }

  lemma {:induction false} WordCount(words: seq<nat>, n: nat)
    requires AreDigits(words) && Minimal(words) && Value(words) < Pow2(32 * n)
    ensures |words| <= n
  {
    if |words| > n {
      var last := words[|words| - 1];
      var front := words[..|words| - 1];
      assert words == front + [last];
      ValueOfAppended(front, last);
      ShlMonotone(1, last, 32 * |front|);
      Pow2Monotone(32 * n, 32 * |front|);
    }
  }

  // ---------- the instruction object

  class PATGInstruction {
    /** In the order of `LAYOUT`. */
    var fields: seq<int>
    var veryWideInstructionWord: nat
    var instructionWords: seq<nat>

    ghost predicate Valid()
      reads this
    {
      |fields| == |LAYOUT|
    }

    method Validate() returns (ok: bool)
      requires Valid()
      ensures ok <==> Validates(LAYOUT, fields)
    {
      hide LAYOUT;
      ok := true;
      var i := 0;
      while ok && i < |LAYOUT|
        invariant i <= |LAYOUT|
        invariant ok <==> forall j | 0 <= j < i :: 0 <= fields[j] < Pow2(LAYOUT[j].width)
        decreases |LAYOUT| - i, ok
      {
        ok := 0 <= fields[i] < Pow2(LAYOUT[i].width);
        i := i + 1;
      }
    }

    method PackStruct()
      requires Valid()
      modifies this`veryWideInstructionWord
      ensures veryWideInstructionWord == Packed(LAYOUT, fields, |LAYOUT|)
      ensures veryWideInstructionWord < Pow2(BITS)
    {
      LayoutTiles();
      hide LAYOUT;
      var word := 0;
      var i := 0;
      while i < |LAYOUT|
        invariant i <= |LAYOUT| && word == Packed(LAYOUT, fields, i)
      {
        var f := LAYOUT[i];
        PackedBounds(LAYOUT, fields, i);
        EndIsShift(LAYOUT, i);
        MaskIsLow(fields[i], f.width);
        OrIsSum(word, Low(fields[i], f.width), f.shift);
        word := Or(word, Shl(And(fields[i], Pow2(f.width) - 1), f.shift));
        i := i + 1;
      }
      PackedBounds(LAYOUT, fields, i);
      veryWideInstructionWord := word;
    }

    /** Fails, changing nothing, unless the string is 103 characters that write a number. */
    method UnpackFromString(memStr: string) returns (ok: bool)
      requires Valid()
      modifies this`fields
      ensures Valid() && ok == (|memStr| == DIGITS && ParseInt(memStr).Some?)
      ensures fields == if ok then Unpacked(LAYOUT, ParseInt(memStr).value) else old(fields)
    {
      hide LAYOUT;
      if |memStr| != DIGITS || ParseInt(memStr).None? {
        return false;
      }
      var word := ParseInt(memStr).value;
      var i := 0;
      while i < |LAYOUT|
        invariant Valid() && i <= |LAYOUT|
        invariant forall j | 0 <= j < i :: fields[j] == Unpacked(LAYOUT, word)[j]
      {
        MaskIsLow(Shr(word, LAYOUT[i].shift), LAYOUT[i].width);
        fields := fields[i := And(Shr(word, LAYOUT[i].shift), Pow2(LAYOUT[i].width) - 1)];
        i := i + 1;
      }
      assert fields == Unpacked(LAYOUT, word);
      ok := Validate();
      UnpackedValidates(LAYOUT, word);
    }

    /** The least number of 32-bit words that hold the instruction word, the lowest first. */
    method ChopInstruction()
      modifies this`instructionWords
      ensures Value(instructionWords) == veryWideInstructionWord
      ensures AreDigits(instructionWords) && Minimal(instructionWords)
    {
      hide Shl, Low, Shr, Pow2, And;
      Mask32();
      ShlNone(veryWideInstructionWord);
      ShlZero(32);
      instructionWords := [];
      var word: nat := veryWideInstructionWord;
      while word > 0
        invariant veryWideInstructionWord == Value(instructionWords) + Shl(word, 32 * |instructionWords|)
        invariant AreDigits(instructionWords)
        invariant word == 0 ==> Minimal(instructionWords)
      {
        var low := And(word, MASK32);
        MaskIsLow(word, 32);
        LowBounds(word, 32);
        Split(word, 32);
        ShrLess(word, 32);
        ValueOfAppended(instructionWords, low);
        ShlAdds(low, Shl(Shr(word, 32), 32), 32 * |instructionWords|);
        ShlTwice(Shr(word, 32), 32, 32 * |instructionWords|);
        instructionWords := instructionWords + [low];
        word := Shr(word, 32);
      }
      ShlZero(32 * |instructionWords|);
    }
  }

  /** A packed instruction is chopped into at most 13 words. */
  lemma InstructionFits(words: seq<nat>)
    requires AreDigits(words) && Minimal(words) && Value(words) < Pow2(BITS)
    ensures |words| <= 13
  {
    Pow2Monotone(BITS, 32 * 13);
    WordCount(words, 13);
  }
}
