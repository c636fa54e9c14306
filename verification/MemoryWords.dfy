/** Typed values in word-addressed memory: where they go, what else is overwritten, and that they
    come back. */
module MemoryWords {
  import opened BitArithmetic
  import opened LittleEndian
  import opened Wrappers

  const WORD_SIZE: nat := 4

  // ---------- word addresses

  /** The nearest number of at most 53 significant bits, the even one of two: a double. */
  function Round53(x: nat): nat {
    if BitLength(x) <= 53 then x
    else
      var e := BitLength(x) - 53;
      Shl(Nearest(Shr(x, e), Low(x, e), Pow2(e - 1)), e)
  }

  /** `q`, or the next number when the rest is more than half, or half and `q` is odd. */
  function Nearest(q: nat, rest: nat, half: nat): nat {
    if rest > half || (rest == half && q % 2 == 1) then q + 1 else q
  }

  /** `int(address / 4) * 4`: the division is one of doubles. */
  function WordAddress(address: nat): nat {
    WholeWords(Round53(address))
  }

  function WholeWords(x: nat): nat {
    x / 4 * 4
  }

  lemma WordAddressBelow53Bits(address: nat)
    requires address < Pow2(53)
    ensures WordAddress(address) == address - address % 4
  {
    hide Pow2;
    BitLengthFits(address, 53);
  }

  /** How many low bits a double drops. */
  function DroppedBits(x: nat): nat {
    if BitLength(x) <= 53 then 0 else BitLength(x) - 53
  }

  /** The dropped bits, as a number. */
  function Dropped(x: nat): nat {
    Low(x, DroppedBits(x))
  }

  /** More than half of the last bit that stays is dropped, or half and that bit is set. */
  predicate RoundsUp(x: nat) {
    var e := DroppedBits(x);
    e > 0 && (Dropped(x) > Pow2(e - 1) || (Dropped(x) == Pow2(e - 1) && Shr(x, e) % 2 == 1))
  }

  lemma RoundedIs(x: nat)
    ensures Round53(x) == x - Dropped(x) + if RoundsUp(x) then Pow2(DroppedBits(x)) else 0
    ensures x - Dropped(x) == Shl(Shr(x, DroppedBits(x)), DroppedBits(x)) && Dropped(x) < Pow2(DroppedBits(x))
  {
    hide Shl, Shr, Low, Pow2, BitLength;
    var e := DroppedBits(x);
    Split(x, e);
    LowBounds(x, e);
    if e > 0 {
      ShlAdds(Shr(x, e), 1, e);
      Pow2Half(e);
    } else {
      ShlNone(x);
      ShrNone(x);
      LowNone(x);
    }
  }

  lemma Pow2Half(e: nat)
    requires e > 0
    ensures Pow2(e) == Shl(1, e) == 2 * Pow2(e - 1)
  {
  }

  lemma Quadruple(x: int)
    ensures Shl(x, 2) == 4 * x && 4 * x % 4 == 0
  {
  }

  lemma ShlIsAligned(k: nat, e: nat)
    requires e >= 2
    ensures Shl(k, e) % 4 == 0
  {
    hide Shl;
    ShlTwice(k, e - 2, 2);
    var x := Shl(k, e - 2);
    Quadruple(x);
  }

  lemma OneBitDropped(x: nat)
    ensures Low(x, 1) == x % 2 && Shr(x, 1) == x / 2 && Pow2(0) == 1 && Pow2(1) == 2 && Pow2(2) == 4
  {
  }

  lemma ExactMod(a: nat, d: nat, p: nat, up: bool)
    requires d <= a && d < p && (a - d) % 4 == 0 && p % 4 == 0
    ensures WholeWords(a - d + if up then p else 0) == a - a % 4 <==> d < 4 && !up
  {
  }

  lemma WholeWordsIs(a: nat)
    ensures WholeWords(a) == a - a % 4
  {
  }

  lemma OneMod(a: nat)
    ensures WholeWords(if a % 4 == 3 then a + 1 else a - a % 2) == if a % 4 == 3 then a + 1 else a - a % 4
  {
  }

  lemma ManyDropped(x: nat)
    requires DroppedBits(x) >= 2
    ensures Dropped(x) <= x && (x - Dropped(x)) % 4 == 0 && Pow2(DroppedBits(x)) % 4 == 0
  {
    var e := DroppedBits(x);
    RoundedIs(x);
    ShlIsAligned(Shr(x, e), e);
    ShlIsAligned(1, e);
    hide Low, Shr, Shl, BitLength;
  }

  lemma OneDropped(x: nat)
    requires DroppedBits(x) == 1
    ensures Dropped(x) == x % 2 && (RoundsUp(x) <==> x % 4 == 3)
    ensures Round53(x) == if x % 4 == 3 then x + 1 else x - x % 2
  {
    RoundedIs(x);
    OneBitDropped(x);
    hide Round53, DroppedBits, BitLength, Low, Shr, Pow2;
  }

  /** An access goes to the word that the byte address lies in, exactly when the bits that a
      double drops are those of the byte within the word, and rounding is not upwards. */
  lemma WordAddressExactly(address: nat)
    ensures WordAddress(address) == address - address % 4 <==> Dropped(address) < 4 && !RoundsUp(address)
  {
    hide Round53, DroppedBits, Dropped, RoundsUp, Pow2, WholeWords;
    var e := DroppedBits(address);
    if e >= 2 {
      RoundedIs(address);
      ManyDropped(address);
      ExactMod(address, Dropped(address), Pow2(e), RoundsUp(address));
    } else if e == 1 {
      OneDropped(address);
      OneMod(address);
    } else {
      NoBitDropped(address);
      WholeWordsIs(address);
    }
  }

  lemma NoBitDropped(x: nat)
    requires DroppedBits(x) == 0
    ensures Dropped(x) == 0 && !RoundsUp(x) && Round53(x) == x
  {
    LowNone(x);
    hide Low, BitLength;
  }

  lemma LengthAt(x: nat, n: nat)
    requires Pow2(n) <= x < Pow2(n + 1)
    ensures BitLength(x) == n + 1
  {
    hide Pow2, BitLength;
    BitLengthFits(x, n);
    BitLengthFits(x, n + 1);
  }

  lemma LongByOne(address: nat)
    requires BitLength(address) == 54
    ensures WordAddress(address) == if address % 4 == 3 then address + 1 else address - address % 4
  {
    hide Round53, BitLength, WholeWords, Low, Shr;
    OneDropped(address);
    OneMod(address);
  }

  lemma PowerIsAligned(n: nat)
    requires n >= 2
    ensures Pow2(n) % 4 == 0 && Pow2(n + 1) == 2 * Pow2(n) && Pow2(n) >= 4
  {
    ShlIsAligned(1, n);
    Pow2Half(n + 1);
    Pow2Monotone(2, n);
    EightIs();
    hide Pow2;
  }

  /** The first address that is missed: the last byte of the word at 2^53 is taken to be in the next word. */
  lemma FirstAddressMissed(address: nat)
    requires address <= Pow2(53) + 3
    ensures WordAddress(address) == if address < Pow2(53) + 3 then address - address % 4 else address + 1
  {
    hide Pow2, WordAddress, BitLength;
    PowerIsAligned(53);
    if address < Pow2(53) {
      WordAddressBelow53Bits(address);
    } else {
      LengthAt(address, 53);
      LongByOne(address);
    }
  }

  lemma LowTwo(x: int)
    ensures Low(x, 2) == x % 4
  {
    assert Low(x / 2, 1) == x / 2 % 2;
  }

  lemma FewDropped(x: nat)
    requires x % 4 == 0 && DroppedBits(x) <= 2
    ensures Dropped(x) == 0
  {
    hide Low, BitLength, DroppedBits, Shr, Pow2, Shl;
    LowNone(x);
    LowTwo(x);
    OneBitDropped(x);
    assert x % 2 == 0;
  }

  lemma NoneDropped(x: nat)
    requires Dropped(x) == 0
    ensures !RoundsUp(x)
  {
    hide Low;
  }

  lemma PowerDropsNone()
    ensures Dropped(Pow2(55)) == 0
  {
    hide Pow2, BitLength;
    PowerIsAligned(55);
    LengthAt(Pow2(55), 55);
    LowOfPower();
  }

  lemma LowOfPower()
    ensures Low(Pow2(55), 3) == 0
  {
    LowOfSum(0, 1, 55, 3);
  }

  lemma AlignedBetween(address: nat, p: nat)
    requires address % 4 == 0 == p % 4 && p <= address < 4 + p
    ensures address == p
  {
  }

  /** Below 2^55 + 4, an address of a whole word is used as it is. */
  lemma AlignedBelowMiss(address: nat)
    requires address % 4 == 0 && address < 4 + Pow2(55)
    ensures WordAddress(address) == address
  {
    hide Pow2, BitLength, WordAddress, Dropped, RoundsUp;
    if address < Pow2(55) {
      BitLengthFits(address, 55);
      FewDropped(address);
    } else {
      PowerIsAligned(55);
      AlignedBetween(address, Pow2(55));
      PowerDropsNone();
    }
    NoneDropped(address);
    WordAddressExactly(address);
  }

  lemma LengthOfTie()
    ensures BitLength(4 + Pow2(55)) == 56
  {
    hide Shl, Pow2;
    Pow2Half(56);
    Pow2Monotone(3, 55);
    assert Pow2(3) == 8 by {
      EightIs();
    }
    BitLengthFits(4 + Pow2(55), 55);
    BitLengthFits(4 + Pow2(55), 56);
  }

  lemma EightIs()
    ensures Pow2(3) == 8 && Pow2(2) == 4
  {
  }

  lemma ShiftedTie()
    ensures Shr(4 + Pow2(55), 3) == Pow2(52) && Low(4 + Pow2(55), 3) == 4
    ensures Shl(Pow2(52), 3) == Pow2(55)
  {
    EightIs();
    Pow2Sum(52, 3);
    hide Shl, Shr, Low, Pow2;
    ShrOfSum(4, Pow2(52), 3);
    LowOfSum(4, Pow2(52), 3, 3);
    LowOfSmall(4, 3);
  }

  /** The first address of a whole word that is missed: 2^55 + 4 addresses the word at 2^55. */
  lemma WordAddressMisses()
    ensures WordAddress(4 + Pow2(55)) == Pow2(55) && Pow2(55) % 4 == 0
  {
    hide Shl, Shr, Low, Pow2, BitLength;
    EightIs();
    LengthOfTie();
    ShiftedTie();
    Pow2Half(52);
    Pow2Half(55);
    Pow2Half(54);
  }

  // ---------- words and bytes

  /** Four bytes a word; None is the error for an incomplete last word. */
  function WordsOf(buf: seq<byte>): Option<seq<nat>> {
    if buf == [] then Some([])
    else if |buf| < WORD_SIZE then None
    else
      var rest := WordsOf(buf[WORD_SIZE..]);
      if rest.None? then None else Some([Num(buf[..WORD_SIZE])] + rest.value)
  }

  predicate IsWord(w: int) {
    0 <= w < Pow2(32)
  }

  predicate AreWords(words: seq<int>) {
    forall w | w in words :: IsWord(w)
  }

  function AllBytes(values: seq<int>, width: nat): seq<byte> {
    if values == [] then [] else Bytes(values[0], width) + AllBytes(values[1..], width)
  }

  /** The words that are stored: the last one is repeated to make up the count. */
  function Stretched(words: seq<int>, count: nat): seq<int>
    requires words == [] ==> count == 0
  {
    seq(count, i requires 0 <= i < count => if i < |words| then words[i] else words[|words| - 1])
  }

  /** None is the error for a number that is no word, or for no words at all. */
  function BytesOf(words: seq<int>, count: nat): Option<seq<byte>> {
    var n := if count == 0 then |words| else count;
    if words == [] && n > 0 then None
    else if AreWords(Stretched(words, n)) then Some(AllBytes(Stretched(words, n), WORD_SIZE))
    else None
  }

  lemma {:induction false} AllBytesLength(values: seq<int>, width: nat)
    ensures |AllBytes(values, width)| == width * |values|
  {
    hide Bytes;
    if values != [] {
      AllBytesLength(values[1..], width);
      assert width * |values| == width * |values[1..]| + width;
    }
  }

  lemma {:induction false} AllBytesAppend(values: seq<int>, v: int, width: nat)
    ensures AllBytes(values + [v], width) == AllBytes(values, width) + Bytes(v, width)
  {
    hide Bytes;
    if values == [] {
      assert [v][1..] == [] && [] + [v] == [v];
    } else {
      AllBytesAppend(values[1..], v, width);
      assert (values + [v])[1..] == values[1..] + [v];
    }
  }

  /** Words come back from their bytes. */
  lemma {:induction false} WordsOfBytes(words: seq<int>)
    requires AreWords(words)
    ensures WordsOf(AllBytes(words, WORD_SIZE)) == Some(words)
  {
    hide Bytes, Num, Low, Pow2;
    if words != [] {
      var buf := AllBytes(words, WORD_SIZE);
      assert buf[..WORD_SIZE] == Bytes(words[0], WORD_SIZE) && buf[WORD_SIZE..] == AllBytes(words[1..], WORD_SIZE);
      assert forall w | w in words[1..] :: w in words;
      WordsOfBytes(words[1..]);
      assert words[0] in words && words == [words[0]] + words[1..];
      NumOfBytes(words[0], WORD_SIZE);
      LowOfSmall(words[0], 32);
    }
  }

  /** Bytes come back from their words. */
  lemma {:induction false} BytesOfWords(buf: seq<byte>)
    requires |buf| % WORD_SIZE == 0
    ensures WordsOf(buf).Some? && AreWords(WordsOf(buf).value) && |buf| == WORD_SIZE * |WordsOf(buf).value|
    ensures AllBytes(WordsOf(buf).value, WORD_SIZE) == buf
  {
    hide Bytes, Num, Low, Pow2;
    if buf != [] {
      var first, rest := buf[..WORD_SIZE], buf[WORD_SIZE..];
      BytesOfWords(rest);
      BytesOfNum(first);
      var words := WordsOf(rest).value;
      assert ([Num(first)] + words)[1..] == words;
      assert buf == first + rest;
    }
  }

  method WordsFromBytes(buf: seq<byte>) returns (r: Option<seq<nat>>)
    ensures r == WordsOf(buf)
  {
    hide Num;
    var words: seq<nat> := [];
    var i := 0;
    assert buf[0..] == buf;
    JoinedNext([], 0, WordsOf(buf));
    while i < |buf|
      invariant i <= |buf| && Joined(words, WordsOf(buf[i..])) == WordsOf(buf)
      decreases |buf| - i
    {
      if |buf| - i < WORD_SIZE {
        return None;
      }
      assert buf[i..][WORD_SIZE..] == buf[i + WORD_SIZE..] && buf[i..][..WORD_SIZE] == buf[i..i + WORD_SIZE];
      JoinedNext(words, Num(buf[i..i + WORD_SIZE]), WordsOf(buf[i + WORD_SIZE..]));
      words := words + [Num(buf[i..i + WORD_SIZE])];
      i := i + WORD_SIZE;
    }
    JoinedNext(words, 0, None);
    r := Some(words);
  }

  function Joined(a: seq<nat>, b: Option<seq<nat>>): Option<seq<nat>> {
    if b.None? then None else Some(a + b.value)
  }

  lemma JoinedNext(a: seq<nat>, w: nat, b: Option<seq<nat>>)
    ensures Joined([], b) == b && Joined(a, Some([])) == Some(a)
    ensures Joined(a, if b.None? then None else Some([w] + b.value)) == Joined(a + [w], b)
  {
    assert a + [] == a;
    if b.Some? {
      assert [] + b.value == b.value && a + ([w] + b.value) == a + [w] + b.value;
    }
  }

  method BytesFromWords(words: seq<int>, wordCount: nat) returns (r: Option<seq<byte>>)
    ensures r == BytesOf(words, wordCount)
  {
    hide Bytes;
    var n := if wordCount == 0 then |words| else wordCount;
    if words == [] && n > 0 {
      return None;
    }
    ghost var stored := Stretched(words, n);
    var buf: seq<byte> := [];
    assert stored[..0] == [];
    for i := 0 to n
      invariant buf == AllBytes(stored[..i], WORD_SIZE) && AreWords(stored[..i])
    {
      var w := if i < |words| then words[i] else words[|words| - 1];
      assert stored[i] == w && stored[i] in stored && stored[..i + 1] == stored[..i] + [w];
      if !(0 <= w < Pow2(32)) {
        return None;
      }
      AllBytesAppend(stored[..i], w, WORD_SIZE);
      buf := buf + Bytes(w, WORD_SIZE);
    }
    assert stored[..n] == stored;
    r := Some(buf);
  }

  // ---------- typed values

  function Fetch(mem: Memory, at: nat, n: nat): (bs: seq<byte>)
    ensures |bs| == n
  {
    seq(n, i requires 0 <= i < n => mem(at + i))
  }

  function Store(mem: Memory, at: nat, bs: seq<byte>): Memory {
    (a: nat) => if at <= a < at + |bs| then bs[a - at] else mem(a)
  }

  /** The bytes with zeros behind them up to a whole word. */
  function Padded(bs: seq<byte>): (r: seq<byte>)
    ensures |r| % WORD_SIZE == 0 && |bs| <= |r| < |bs| + WORD_SIZE && r[..|bs|] == bs
    ensures forall i | |bs| <= i < |r| :: r[i] == 0
  {
    bs + seq((WORD_SIZE - |bs| % WORD_SIZE) % WORD_SIZE, i => 0)
  }

  /** The numbers in the bytes, `width` bytes each. */
  function Numbers(bs: seq<byte>, width: nat, num: nat): (r: seq<nat>)
    requires |bs| == width * num
    ensures |r| == num
  {
    if num == 0 then []
    else
      assert width * num == width + width * (num - 1);
      [Num(bs[..width])] + Numbers(bs[width..], width, num - 1)
  }

  function NumbersIn(mem: Memory, at: nat, width: nat, num: nat): seq<nat> {
    Numbers(Fetch(mem, at, width * num), width, num)
  }

  function Cut(values: seq<int>, bits: nat): seq<nat> {
    seq(|values|, i requires 0 <= i < |values| => Low(values[i], bits))
  }

  lemma {:induction false} NumbersOfValues(values: seq<int>, width: nat)
    ensures |AllBytes(values, width)| == width * |values|
    ensures Numbers(AllBytes(values, width), width, |values|) == Cut(values, 8 * width)
  {
    hide Bytes, Num, Low;
    AllBytesLength(values, width);
    if values != [] {
      var first, rest := Bytes(values[0], width), AllBytes(values[1..], width);
      assert (first + rest)[..width] == first && (first + rest)[width..] == rest;
      NumbersOfValues(values[1..], width);
      NumOfBytes(values[0], width);
    }
  }

  /** Byte `k` of value `j` lies `k` bytes after the `j` values before it. */
  lemma {:induction false} AllBytesAre(values: seq<int>, width: nat, j: nat, k: nat, at: nat)
    requires j < |values| && k < width && at == width * j + k
    ensures at < |AllBytes(values, width)| && AllBytes(values, width)[at] == values[j] / Pow2(8 * k) % 256
  {
    hide Bytes, Pow2;
    var first, rest := Bytes(values[0], width), AllBytes(values[1..], width);
    assert AllBytes(values, width) == first + rest;
    if j == 0 {
      assert at == k;
      ByteIs(values[0], width, k);
    } else {
      assert at == width + (width * (j - 1) + k);
      AllBytesAre(values[1..], width, j - 1, k, at - width);
    }
  }

  /** The words that are stored: as many as are asked for, or all of them for none; those beyond
      the list are the last of it. */
  ghost predicate StoredAs(words: seq<int>, count: nat, stored: seq<int>) {
    && |stored| == (if count == 0 then |words| else count)
    && (words == [] ==> stored == [])
    && forall j | 0 <= j < |stored| :: stored[j] == words[if j < |words| then j else |words| - 1]
  }

  /** Storing words fails exactly when there is none to repeat or one does not fit 32 bits, and
      stores four bytes for each, the lowest first. */
  lemma StoredWords(words: seq<int>, count: nat, stored: seq<int>, j: nat, k: nat)
    requires StoredAs(words, count, stored)
    ensures BytesOf(words, count).Some? <==> forall w | w in stored :: 0 <= w < Pow2(32)
    ensures BytesOf(words, count).Some? ==> |BytesOf(words, count).value| == 4 * |stored|
    ensures BytesOf(words, count).Some? && j < |stored| && k < 4 ==>
              BytesOf(words, count).value[4 * j + k] == stored[j] / Pow2(8 * k) % 256
  {
    hide Pow2, AllBytes;
    assert stored == Stretched(words, |stored|);
    AllBytesLength(stored, WORD_SIZE);
    if j < |stored| && k < 4 {
      AllBytesAre(stored, WORD_SIZE, j, k, 4 * j + k);
    }
  }

  lemma NothingToRepeat(count: nat)
    ensures BytesOf([], count).None? <==> count > 0
  {
    assert AreWords(Stretched([], 0));
  }

  /** The accesses that the documentation names, and their numbers of bytes. */
  ghost predicate Documented(size: char, width: nat) {
    (size == 'b' && width == 1) || (size == 'h' && width == 2) || (size == 'w' && width == 4) || (size == 'd' && width == 8)
  }

  function WidthOf(size: char): (w: Option<nat>)
    ensures forall width: nat :: w == Some(width) <==> Documented(size, width)
  {
    match size
    case 'b' => Some(1)
    case 'h' => Some(2)
    case 'w' => Some(4)
    case 'd' => Some(8)
    case _ => None
  }

  /** What a write of values leaves in memory: byte `k` of value `j`, for the number of bytes of the
      access, after the values before it. */
  lemma WrittenByte(mem: Memory, at: nat, values: seq<int>, size: char, width: nat, j: nat, k: nat)
    requires Documented(size, width) && j < |values| && k < width
    ensures 0 <= width * j && Store(mem, at, Padded(AllBytes(values, width)))(at + width * j + k)
                              == values[j] / Pow2(8 * k) % 256
  {
    hide Pow2, AllBytes, Padded;
    assert 0 <= width * j;
    PaddedLength(AllBytes(values, width));
    AllBytesAre(values, width, j, k, width * j + k);
  }

  /** And behind them zeros up to a whole word, and nothing else. */
  lemma WrittenExtent(mem: Memory, at: nat, values: seq<int>, size: char, width: nat, a: nat)
    requires Documented(size, width)
    ensures var r := Store(mem, at, Padded(AllBytes(values, width)));
            var length := width * |values|;
            && (at + length <= a < at + (length + 3) / 4 * 4 ==> r(a) == 0)
            && (a < at || at + (length + 3) / 4 * 4 <= a ==> r(a) == mem(a))
  {
    hide AllBytes, Padded;
    PaddedLength(AllBytes(values, width));
    AllBytesLength(values, width);
  }

  lemma PaddedLength(bs: seq<byte>)
    ensures |Padded(bs)| == (|bs| + 3) / 4 * 4
    ensures forall i | 0 <= i < |Padded(bs)| :: Padded(bs)[i] == if i < |bs| then bs[i] else 0
  {
  }

  lemma FetchStored(mem: Memory, at: nat, bs: seq<byte>)
    ensures Fetch(Store(mem, at, Padded(bs)), at, |bs|) == bs
  {
    assert forall i | 0 <= i < |bs| :: Padded(bs)[i] == Padded(bs)[..|bs|][i];
  }

  /** Reading what was written gives the values cut to their width: for values of any size, at any
      address, since both use the same word; only the padded extent is overwritten. */
  lemma ReadAfterWrite(mem: Memory, address: nat, values: seq<int>, width: nat)
    ensures
      var at, bs := WordAddress(address), Padded(AllBytes(values, width));
      && NumbersIn(Store(mem, at, bs), at, width, |values|) == Cut(values, 8 * width)
      && forall a: nat | a < at || a >= at + |bs| :: Store(mem, at, bs)(a) == mem(a)
  {
    hide Bytes, Num, Low, WordAddress, Padded, Fetch, AllBytes, Numbers, Cut;
    NumbersOfValues(values, width);
    FetchStored(mem, WordAddress(address), AllBytes(values, width));
  }

  lemma {:induction false} ShrOfAnd(x: int, m: nat, k: nat)
    ensures Shr(And(x, Shl(m, k)), k) == And(Shr(x, k), m)
    decreases k
  {
    if k > 0 {
      assert And(x, Shl(m, k)) / 2 == And(x / 2, Shl(m, k - 1));
      ShrOfAnd(x / 2, m, k - 1);
    }
  }

  /** `(val & (0xFF << k)) >> k`. */
  lemma MaskedByte(x: int, k: nat)
    ensures 0 <= Shr(And(x, Shl(0xFF, k)), k) < 256 && Shr(And(x, Shl(0xFF, k)), k) == LowByte(Shr(x, k))
  {
    assert Pow2(8) - 1 == 0xFF;
    hide Shl, Shr, And, Low;
    ShrOfAnd(x, 0xFF, k);
    MaskIsLow(Shr(x, k), 8);
  }

  lemma StretchedWords(words: seq<int>, count: nat)
    requires |words| <= count && words != []
    ensures AreWords(Stretched(words, count)) <==> AreWords(words)
  {
    var r := Stretched(words, count);
    forall w | w in words ensures w in r {
      var i :| 0 <= i < |words| && words[i] == w;
      assert r[i] == w;
    }
  }

  lemma StretchedSame(words: seq<int>)
    ensures Stretched(words, |words|) == words
  {
  }

  lemma FetchPrefix(mem: Memory, at: nat, n: nat, k: nat)
    requires k <= n
    ensures Fetch(mem, at, n)[..k] == Fetch(mem, at, k)
  {
  }

  method ByteValueList(values: seq<int>, width: nat) returns (bytes: seq<byte>)
    ensures bytes == AllBytes(values, width)
  {
    hide Bytes, Shl, Shr, And, LowByte, AllBytes;
    bytes := [];
    assert values[..0] == [];
    NoBytes(width);
    for v := 0 to |values|
      invariant bytes == AllBytes(values[..v], width)
    {
      var val := values[v];
      for i := 0 to width
        invariant bytes == AllBytes(values[..v], width) + Bytes(val, width)[..i]
      {
        MaskedByte(val, 8 * i);
        BytesAt(val, width, i);
        bytes := bytes + [Shr(And(val, Shl(0xFF, i * 8)), i * 8)];
      }
      assert values[..v + 1] == values[..v] + [val] && Bytes(val, width)[..width] == Bytes(val, width);
      AllBytesAppend(values[..v], val, width);
    }
    assert values[..|values|] == values;
  }

  lemma NoBytes(width: nat)
    ensures AllBytes([], width) == []
  {
  }

  lemma NumbersFirst(bs: seq<byte>, width: nat, num: nat)
    requires |bs| == width * num && num > 0
    ensures width <= |bs| && |bs[width..]| == width * (num - 1)
    ensures Numbers(bs, width, num) == [Num(bs[..width])] + Numbers(bs[width..], width, num - 1)
  {
    hide Num;
    assert width * num == width + width * (num - 1);
    assert width * (num - 1) >= 0;
  }

  lemma {:induction false} NumbersAt(bs: seq<byte>, width: nat, num: nat, k: nat, at: nat)
    requires |bs| == width * num && k < num && at == width * k
    ensures at + width <= |bs| && Numbers(bs, width, num)[k] == Num(bs[at..at + width])
  {
    hide Num, Numbers;
    NumbersFirst(bs, width, num);
    if k > 0 {
      assert at == width + width * (k - 1);
      NumbersAt(bs[width..], width, num - 1, k - 1, at - width);
      assert bs[width..][at - width..at] == bs[at..at + width];
    } else {
      assert at == 0;
    }
  }

  lemma NumNext(bs: seq<byte>, from: nat, to: nat)
    requires from <= to < |bs|
    ensures Or(Num(bs[from..to]), Shl(bs[to], 8 * (to - from))) == Num(bs[from..to + 1])
    ensures Num(bs[from..from]) == 0
  {
    hide Shl, Or, Pow2;
    var front := bs[from..to];
    assert bs[from..to + 1] == front + [bs[to]];
    NumOfConcat(front, [bs[to]]);
    BytesOfNum(front);
    OrIsSum(Num(front), bs[to], 8 * |front|);
    assert Num([bs[to]]) == bs[to] by {
      ShlZero(8);
    }
  }

  lemma ModOf(k: nat, width: nat, j: nat)
    requires width in {1, 2, 4, 8} && j < width
    ensures (width * k + j) % width == j
    ensures (width * k + j + 1) % width == 0 <==> j + 1 == width
  {
    if width == 2 {
      ModOf2(k, j);
    } else if width == 4 {
      ModOf4(k, j);
    } else if width == 8 {
      ModOf8(k, j);
    }
  }

  lemma ModOf2(k: nat, j: nat)
    requires j < 2
    ensures (2 * k + j) % 2 == j && ((2 * k + j + 1) % 2 == 0 <==> j == 1)
  {
  }

  lemma ModOf4(k: nat, j: nat)
    requires j < 4
    ensures (4 * k + j) % 4 == j && ((4 * k + j + 1) % 4 == 0 <==> j == 3)
  {
  }

  lemma ModOf8(k: nat, j: nat)
    requires j < 8
    ensures (8 * k + j) % 8 == j && ((8 * k + j + 1) % 8 == 0 <==> j == 7)
  {
  }

  /** Where value `k` starts. */
  ghost function StartOf(width: nat, k: nat): nat {
    width * k
  }

  lemma {:induction false} StartMonotone(width: nat, a: nat, b: nat)
    requires a <= b
    ensures StartOf(width, a) <= StartOf(width, b)
    decreases b
  {
    if a < b {
      StartMonotone(width, a, b - 1);
      StartNext(width, b - 1);
    }
  }

  lemma StartNext(width: nat, k: nat)
    ensures StartOf(width, k + 1) == StartOf(width, k) + width && StartOf(width, 0) == 0
  {
  }

  /** A byte after the start of value `k` belongs to one of the values. */
  lemma WordIndexInRange(width: nat, k: nat, num: nat)
    requires width > 0
    ensures StartOf(width, k) < StartOf(width, num) <==> k < num
    ensures StartOf(width, k + 1) == StartOf(width, k) + width
    ensures k < num ==> StartOf(width, k) + width <= StartOf(width, num)
  {
    hide StartOf;
    StartNext(width, k);
    if k < num {
      StartMonotone(width, k + 1, num);
    } else {
      StartMonotone(width, num, k);
    }
  }

  lemma ByteInWord(width: nat, k: nat, byteIndex: nat)
    requires width in {1, 2, 4, 8} && StartOf(width, k) <= byteIndex < StartOf(width, k) + width
    ensures byteIndex % width == byteIndex - StartOf(width, k)
    ensures (byteIndex + 1) % width == 0 <==> byteIndex + 1 == StartOf(width, k) + width
  {
    ModOf(k, width, byteIndex - StartOf(width, k));
  }

  lemma NumberOfBytes(bs: seq<byte>, width: nat, num: nat, k: nat)
    requires |bs| == width * num && k < num
    ensures StartOf(width, k) + width <= |bs|
    ensures Numbers(bs, width, num)[k] == Num(bs[StartOf(width, k)..StartOf(width, k) + width])
  {
    hide Numbers, Num;
    StartNext(width, k);
    StartMonotone(width, k + 1, num);
    NumbersAt(bs, width, num, k, StartOf(width, k));
  }

  /** Or-s each byte into the value it belongs to. */
  method Assemble(bytes: seq<byte>, width: nat, num: nat) returns (result: seq<nat>)
    requires width in {1, 2, 4, 8} && |bytes| == width * num
    ensures result == Numbers(bytes, width, num)
  {
    hide Numbers, Num, Shl, Or, StartOf;
    BytesEnd(bytes, width, num);
    result := seq(num, i => 0);
    var wordIndex := 0;
    ghost var from := 0;
    StartNext(width, 0);
    for byteIndex := 0 to |bytes|
      invariant from == StartOf(width, wordIndex) && from <= byteIndex <= |bytes| && wordIndex <= |result| == num
      invariant byteIndex < from + width
      invariant forall k | 0 <= k < wordIndex :: result[k] == Numbers(bytes, width, num)[k]
      invariant forall k | wordIndex < k < num :: result[k] == 0
      invariant wordIndex < num ==> result[wordIndex] == if byteIndex == from then 0 else Num(bytes[from..byteIndex])
    {
      WordIndexInRange(width, wordIndex, num);
      ByteInWord(width, wordIndex, byteIndex);
      NumNext(bytes, from, byteIndex);
      result := result[wordIndex := Or(result[wordIndex], Shl(bytes[byteIndex], byteIndex % width * 8))];
      if (byteIndex + 1) % width == 0 {
        NumberOfBytes(bytes, width, num, wordIndex);
        from := from + width;
        wordIndex := wordIndex + 1;
      }
    }
    WordIndexInRange(width, wordIndex, num);
  }

  lemma BytesEnd(bytes: seq<byte>, width: nat, num: nat)
    requires |bytes| == width * num
    ensures |bytes| == StartOf(width, num)
  {
  }

  /** What `mwr` takes: a list of words, or one word. */
  datatype Words = Word(word: int) | Words(list: seq<int>)

  function ListOf(arg: Words): seq<int> {
    match arg
    case Word(word) => [word]
    case Words(list) => list
  }

  class MemoryNode {
    var mem: Memory

    /** Writes whole words; fails, writing nothing, for a number that is no word, or for no word to repeat. */
    method Mwr(address: nat, arg: Words, size: nat) returns (ok: bool)
      modifies this
      ensures var words := ListOf(arg);
              && (ok <==> (words == [] ==> size == 0) && AreWords(words))
              && (ok ==> mem == Store(old(mem), WordAddress(address),
                                      AllBytes(Stretched(words, if size < |words| then |words| else size), WORD_SIZE)))
      ensures !ok ==> mem == old(mem)
    {
      hide WordAddress, AllBytes, Store;
      var words := ListOf(arg);
      var count := if size < |words| then |words| else size;
      var buf := BytesFromWords(words, count);
      if words != [] {
        StretchedWords(words, count);
      }
      ok := buf.Some?;
      if ok {
        mem := Store(mem, WordAddress(address), buf.value);
      }
    }

    method Mrd(address: nat, size: nat) returns (words: seq<nat>)
      ensures AreWords(words)
      ensures AllBytes(words, WORD_SIZE) == Fetch(mem, WordAddress(address), size * WORD_SIZE)
    {
      hide WordAddress;
      var buf := Fetch(mem, WordAddress(address), size * WORD_SIZE);
      BytesOfWords(buf);
      var r := WordsFromBytes(buf);
      words := r.value;
    }

    /** Fails, writing nothing, for an unknown size and for no values. */
    method MemoryWrite(address: nat, values: seq<int>, size: char) returns (ok: bool)
      modifies this
      ensures ok <==> values != [] && exists width: nat :: Documented(size, width)
      ensures ok ==> forall width: nat | Documented(size, width) ::
                mem == Store(old(mem), WordAddress(address), Padded(AllBytes(values, width)))
      ensures !ok ==> mem == old(mem)
    {
      if WidthOf(size).None? {
        return false;
      }
      var width := WidthOf(size).value;
      var bytes := ByteValueList(values, width);
      AllBytesLength(values, width);
      BytesOfWords(Padded(bytes));
      var words := WordsFromBytes(Padded(bytes));
      StretchedSame(words.value);
      ok := Mwr(address, Words(words.value), 1);
    }

    /** None stands for the errors: an unknown size, and no value to read. */
    method MemoryRead(address: nat, num: nat, size: char) returns (r: Option<seq<nat>>)
      ensures r.Some? <==> num > 0 && exists width: nat :: Documented(size, width)
      ensures r.Some? ==> forall width: nat | Documented(size, width) ::
                r.value == NumbersIn(mem, WordAddress(address), width, num)
    {
      if WidthOf(size).None? || num == 0 {
        return None;
      }
      var width := WidthOf(size).value;
      var words := Mrd(address, (width * num + 3) / 4);
      var bytes := BytesFromWords(words, 0);
      StretchedSame(words);
      FetchPrefix(mem, WordAddress(address), (width * num + 3) / 4 * WORD_SIZE, width * num);
      var numbers := Assemble(bytes.value[..width * num], width, num);
      r := Some(numbers);
    }
  }
}
