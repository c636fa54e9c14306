/** Reversed bit order in hexadecimal: of integers, of whole buffers, and of every 32-bit word. */
module BitReversal {
  import opened BitArithmetic
  import opened Hexadecimal
  import opened LittleEndian
  import opened Wrappers

  /** The low `n` bits in reverse order. */
  function Rev(x: int, n: nat): nat
    decreases n
  {
    if n == 0 then 0 else Shl(x % 2, n - 1) + Rev(x / 2, n - 1)
  }

  lemma {:induction false} RevBounds(x: int, n: nat)
    ensures Rev(x, n) < Pow2(n)
    decreases n
  {
    if n > 0 {
      RevBounds(x / 2, n - 1);
      ShlMonotone(x % 2, 1, n - 1);
    }
  }

  function Bit(x: int, i: nat): nat {
    Low(Shr(x, i), 1)
  }

  /** Bit `i` of the reversed number is bit `n - 1 - i` of the number. */
  lemma {:induction false} BitOfRev(x: int, n: nat, i: nat)
    requires i < n
    ensures Bit(Rev(x, n), i) == Bit(x, n - 1 - i)
    decreases n
  {
    hide Shl, Low;
    var rest := Rev(x / 2, n - 1);
    RevBounds(x / 2, n - 1);
    if i == n - 1 {
      ShrOfSum(rest, x % 2, n - 1);
      ShrNone(x);
      ParityIsLow(x);
      ParityIsLow(x % 2);
    } else {
      BitOfRev(x / 2, n - 1, i);
      ShrOfSumBelow(rest, x % 2, n - 1, i);
      LowOfSum(Shr(rest, i), x % 2, n - 1 - i, 1);
      ShrHalf(x, n - 2 - i);
    }
  }

  lemma ParityIsLow(x: int)
    ensures Low(x, 1) == x % 2
  {
  }

  lemma ShrHalf(x: int, n: nat)
    ensures Shr(x / 2, n) == Shr(x, n + 1)
  {
  }

  lemma {:induction false} RevOfConcat(x: nat, y: nat, n: nat, m: nat)
    requires x < Pow2(n)
    ensures Rev(x + Shl(y, n), n + m) == Shl(Rev(x, n), m) + Rev(y, m)
    decreases n
  {
    if n == 0 {
      ShlZero(m);
    } else {
      assert (x + Shl(y, n)) / 2 == x / 2 + Shl(y, n - 1) && (x + Shl(y, n)) % 2 == x % 2;
      RevOfConcat(x / 2, y, n - 1, m);
      ShlAdds(Shl(x % 2, n - 1), Rev(x / 2, n - 1), m);
      ShlTwice(x % 2, n - 1, m);
    }
  }

  // ---------- integers

  predicate IsBinary(s: string) {
    forall c | c in s :: c == '0' || c == '1'
  }

  /** The number whose bits are in the text, the lowest first. */
  function FromBits(s: string): nat {
    if s == "" then 0 else (if s[0] == '1' then 1 else 0) + 2 * FromBits(s[1..])
  }

  /** Four characters a digit, from the left; the digits in reverse order. None is a KeyError. */
  function BinReversedToHex(s: string): Option<string> {
    if s == "" then Some("")
    else
      var k := if |s| < 4 then |s| else 4;
      var rest := BinReversedToHex(s[k..]);
      if rest.None? || !IsBinary(s[..k]) then None else Some(rest.value + [BitsDigit(s[..k])])
  }

  function BitsDigit(s: string): char
    requires |s| <= 4
  {
    BitsBound(s);
    UpperDigit(FromBits(s))
  }

  lemma {:induction false} FromBitsBound(s: string)
    ensures FromBits(s) < Pow2(|s|)
  {
    if s != "" {
      FromBitsBound(s[1..]);
    }
  }

  lemma BitsBound(s: string)
    requires |s| <= 4
    ensures FromBits(s) < 16
  {
    FromBitsBound(s);
    Pow2Monotone(|s|, 4);
    assert Pow2(4) == 16;
  }

  lemma IsBinaryConcat(a: string, b: string)
    ensures IsBinary(a + b) <==> IsBinary(a) && IsBinary(b)
  {
    assert forall c | c in a + b :: c in a || c in b;
    assert forall c | c in a :: c in a + b;
    assert forall c | c in b :: c in a + b;
  }

  lemma {:induction false} FromBitsConcat(a: string, b: string)
    ensures FromBits(a + b) == FromBits(a) + Shl(FromBits(b), |a|)
  {
    if a == "" {
      assert a + b == b;
    } else {
      FromBitsConcat(a[1..], b);
      assert (a + b)[1..] == a[1..] + b;
    }
  }

  lemma ParseDigit(c: char)
    ensures ParseHex([c]) == HexDigit(c)
  {
    assert [c][..0] == "";
  }

  lemma BinReversedNone()
    ensures BinReversedToHex("") == Some("") && IsBinary("") && ParseHex("") == Some(0) && FromBits("") == 0
  {
  }

  lemma BinReversedStep(s: string, k: nat)
    requires s != "" && k == if |s| < 4 then |s| else 4
    ensures
      var rest := BinReversedToHex(s[k..]);
      BinReversedToHex(s) ==
        if rest.None? || !IsBinary(s[..k]) then None else Some(rest.value + [BitsDigit(s[..k])])
    ensures IsBinary(s) <==> IsBinary(s[..k]) && IsBinary(s[k..])
    ensures FromBits(s) == FromBits(s[..k]) + Shl(FromBits(s[k..]), 4)
    ensures ParseHex([BitsDigit(s[..k])]) == Some(FromBits(s[..k]))
  {
    hide HexDigit, ParseHex, Shl, UpperDigit;
    assert s == s[..k] + s[k..];
    IsBinaryConcat(s[..k], s[k..]);
    FromBitsConcat(s[..k], s[k..]);
    BitsBound(s[..k]);
    ParseDigit(BitsDigit(s[..k]));
    if |s| < 4 {
      assert s[k..] == "";
      ShlZero(4);
      ShlZero(k);
    }
  }

  /** Binary text is accepted, and only that; the digits are those of the reversed text's number. */
  lemma {:induction false} BinReversedValue(s: string)
    ensures BinReversedToHex(s).Some? <==> IsBinary(s)
    ensures IsBinary(s) ==> ParseHex(BinReversedToHex(s).value) == Some(FromBits(s))
  {
    hide HexDigit, ParseHex, Shl, BitsDigit, IsBinary, FromBits, BinReversedToHex;
    if s == "" {
      BinReversedNone();
    } else {
      var k := if |s| < 4 then |s| else 4;
      BinReversedValue(s[k..]);
      BinReversedStep(s, k);
      if IsBinary(s) {
        ParseHexConcat(BinReversedToHex(s[k..]).value, [BitsDigit(s[..k])]);
      }
    }
  }

  function BinDigits(v: int, n: nat): (s: string)
    ensures |s| == n && IsBinary(s)
    decreases n
  {
    if n == 0 then "" else BinDigits(v / 2, n - 1) + [if v % 2 == 1 then '1' else '0']
  }

  function Max(a: nat, b: nat): nat {
    if a < b then b else a
  }

  /** How many bits are printed: at least one, and all that there are. */
  function PrintedBits(v: nat, width: nat): nat {
    Max(width, Max(1, BitLength(v)))
  }

  /** `f"{v:0{width}b}"`: the sign takes one place. */
  function FormatBin(v: int, width: nat): string {
    if v >= 0 then BinDigits(v, PrintedBits(v, width))
    else "-" + BinDigits(-v, PrintedBits(-v, if width == 0 then 0 else width - 1))
  }

  /** None is the error for a sign. */
  function IntReversedToHex(v: int, width: nat): Option<string> {
    BinReversedToHex(FormatBin(v, width))
  }

  lemma {:induction false} FromBitsOfDigits(v: int, n: nat)
    ensures FromBits(BinDigits(v, n)) == Rev(v, n)
    decreases n
  {
    if n > 0 {
      FromBitsOfDigits(v / 2, n - 1);
      FromBitsConcat(BinDigits(v / 2, n - 1), [if v % 2 == 1 then '1' else '0']);
    }
  }

  lemma {:induction false} BinReversedLength(s: string)
    requires IsBinary(s)
    ensures BinReversedToHex(s).Some? && |BinReversedToHex(s).value| == (|s| + 3) / 4
  {
    hide HexDigit, ParseHex, Shl, BitsDigit, IsBinary, FromBits, BinReversedToHex;
    if s == "" {
      BinReversedNone();
    } else {
      var k := if |s| < 4 then |s| else 4;
      BinReversedStep(s, k);
      BinReversedLength(s[k..]);
    }
  }

  /** A number is reversed in the given number of bits, or in all its bits when they are more, and
      printed with a digit for every four of them; a negative number is an error. */
  lemma IntReversedValue(v: int, width: nat)
    ensures IntReversedToHex(v, width).Some? <==> v >= 0
    ensures v >= 0 ==>
              var n, digits := PrintedBits(v, width), IntReversedToHex(v, width).value;
              && ParseHex(digits) == Some(Rev(v, n)) && |digits| == (n + 3) / 4
              && (n == width <==> width > 0 && v < Pow2(width))
  {
    hide ParseHex, BinReversedToHex, Rev, FromBits;
    BinReversedValue(FormatBin(v, width));
    if v >= 0 {
      var n := PrintedBits(v, width);
      BitLengthFits(v, width);
      FromBitsOfDigits(v, n);
      BinReversedLength(BinDigits(v, n));
    } else {
      assert FormatBin(v, width)[0] == '-' && FormatBin(v, width)[0] in FormatBin(v, width);
    }
  }

  // ---------- buffers

  /** The values of the digits that the table gives for the digits 0 to F. */
  const REVERSED: seq<nat> := [0, 8, 4, 0xC, 2, 0xA, 6, 0xE, 1, 9, 5, 0xD, 3, 0xB, 7, 0xF]

  function HexReversed(c: char): char {
    var d := HexDigit(c);
    if d.Some? then UpperDigit(REVERSED[d.value]) else c
  }

  lemma RevStep(x: int, n: nat)
    requires n > 0
    ensures Rev(x, n) == Shl(x % 2, n - 1) + Rev(x / 2, n - 1)
  {
  }

  lemma SmallShifts(x: int)
    ensures Shl(x, 0) == x && Shl(x, 1) == 2 * x && Shl(x, 2) == 4 * x && Shl(x, 3) == 8 * x
  {
    assert Shl(x, 2) == 2 * Shl(x, 1);
  }

  lemma Rev4(d: nat)
    requires d < 16
    ensures Rev(d, 4) == 8 * (d % 2) + 4 * (d / 2 % 2) + 2 * (d / 4 % 2) + d / 8
  {
    hide Rev, Shl;
    RevStep(d, 4);
    RevStep(d / 2, 3);
    RevStep(d / 2 / 2, 2);
    RevStep(d / 2 / 2 / 2, 1);
    SmallShifts(d % 2);
    SmallShifts(d / 2 % 2);
    SmallShifts(d / 2 / 2 % 2);
    SmallShifts(d / 2 / 2 / 2 % 2);
    RevNone(d / 2 / 2 / 2 / 2);
  }

  lemma RevNone(x: int)
    ensures Rev(x, 0) == 0
  {
  }

  lemma TableEntry(d: nat)
    requires d < 16
    ensures REVERSED[d] == 8 * (d % 2) + 4 * (d / 2 % 2) + 2 * (d / 4 % 2) + d / 8
  {
    match d {
      case 0 => case 1 => case 2 => case 3 => case 4 => case 5 => case 6 => case 7 =>
      case 8 => case 9 => case 10 => case 11 => case 12 => case 13 => case 14 => case _ =>
    }
  }

  lemma TableReversesBits(d: nat)
    requires d < 16
    ensures Rev(d, 4) < 16 && HexReversed(UpperDigit(d)) == UpperDigit(Rev(d, 4))
  {
    hide Rev, HexDigit, UpperDigit;
    Rev4(d);
    TableEntry(d);
  }

  function HexByte(b: byte): (s: string)
    ensures |s| == 2
  {
    [UpperDigit(b / 16), UpperDigit(b % 16)]
  }

  /** `buffer.hex().upper()`. */
  function HexOf(bs: seq<byte>): (s: string)
    ensures |s| == 2 * |bs|
  {
    if bs == [] then "" else HexByte(bs[0]) + HexOf(bs[1..])
  }

  function RevHex(bs: seq<byte>): (s: string)
    ensures |s| == 2 * |bs|
  {
    if bs == [] then "" else [HexReversed(HexByte(bs[0])[1]), HexReversed(HexByte(bs[0])[0])] + RevHex(bs[1..])
  }

  lemma HexByteValue(b: byte)
    ensures ParseHex(HexByte(b)) == Some(b)
  {
    ParseDigit(UpperDigit(b / 16));
    assert HexByte(b)[..1] == [UpperDigit(b / 16)];
  }

  lemma Pow2Of4()
    ensures Pow2(4) == 16
  {
  }

  lemma RevHexOne(b: byte)
    ensures RevHex([b]) == [HexReversed(UpperDigit(b % 16)), HexReversed(UpperDigit(b / 16))]
  {
    assert RevHex([b][1..]) == "";
  }

  lemma HexByteOf(q: nat, r: nat)
    requires q < 16 && r < 16
    ensures HexByte(16 * q + r) == [UpperDigit(q), UpperDigit(r)]
  {
    assert (16 * q + r) / 16 == q && (16 * q + r) % 16 == r;
  }

  /** Reversing a byte swaps and reverses its two digits. */
  lemma RevHexByte(b: byte)
    ensures Rev(b, 8) < 256 && RevHex([b]) == HexByte(Rev(b, 8))
  {
    hide Rev, RevHex, Shl, HexReversed, HexByte, UpperDigit;
    var low, high := b % 16, b / 16;
    TableReversesBits(low);
    TableReversesBits(high);
    ShlBy4(high);
    Pow2Of4();
    RevOfConcat(low, high, 4, 4);
    ShlBy4(Rev(low, 4));
    RevHexOne(b);
    HexByteOf(Rev(low, 4), Rev(high, 4));
  }

  lemma RevHexFirst(bs: seq<byte>)
    requires bs != []
    ensures RevHex(bs) == RevHex([bs[0]]) + RevHex(bs[1..])
  {
    assert RevHex([bs[0]][1..]) == "";
  }

  lemma RevHexNone()
    ensures ParseHex(RevHex([])) == Some(Rev(Num([]), 0))
  {
  }

  lemma RevOfBytes(bs: seq<byte>)
    requires bs != []
    ensures Rev(Num(bs), 8 * |bs|) == Shl(Rev(bs[0], 8), 8 * |bs[1..]|) + Rev(Num(bs[1..]), 8 * |bs[1..]|)
  {
    hide Rev, Shl, Pow2, Num;
    NumFirst(bs);
    ByteBound(bs[0]);
    RevOfConcat(bs[0], Num(bs[1..]), 8, 8 * |bs[1..]|);
  }

  /** The digits are those of the whole buffer, as one little-endian number, reversed. */
  lemma {:induction false} RevHexValue(bs: seq<byte>)
    ensures ParseHex(RevHex(bs)) == Some(Rev(Num(bs), 8 * |bs|))
  {
    hide Shl, Pow2, Rev, RevHex, ParseHex, HexByte, Num;
    if bs == [] {
      RevHexNone();
    } else {
      var one, rest := RevHex([bs[0]]), RevHex(bs[1..]);
      RevHexValue(bs[1..]);
      RevHexByte(bs[0]);
      HexByteValue(Rev(bs[0], 8));
      RevOfBytes(bs);
      RevHexFirst(bs);
      ParseHexConcat(one, rest);
      assert 4 * |rest| == 8 * |bs[1..]|;
    }
  }

  /** The other digit of the same byte. */
  function Partner(k: nat): nat {
    if k % 2 == 0 then k + 1 else k - 1
  }

  lemma PartnerOf(k: nat)
    requires k % 2 == 0
    ensures Partner(k) == k + 1 && Partner(k + 1) == k
  {
  }

  lemma {:induction false} RevHexAt(bs: seq<byte>, k: nat)
    requires k < 2 * |bs|
    ensures Partner(k) < 2 * |bs| && RevHex(bs)[k] == HexReversed(HexOf(bs)[Partner(k)])
  {
    hide RevHex, HexOf, HexReversed, HexByte;
    HexFirst(bs);
    if k >= 2 {
      RevHexAt(bs[1..], k - 2);
      assert Partner(k) == 2 + Partner(k - 2);
    } else {
      assert Partner(k) == 1 - k;
    }
  }

  lemma HexFirst(bs: seq<byte>)
    requires bs != []
    ensures HexOf(bs) == HexByte(bs[0]) + HexOf(bs[1..])
    ensures RevHex(bs) == [HexReversed(HexByte(bs[0])[1]), HexReversed(HexByte(bs[0])[0])] + RevHex(bs[1..])
  {
  }

  method BytearrayBitReversedToHex(buffer: seq<byte>) returns (s: string)
    ensures s == RevHex(buffer)
  {
    hide HexOf, RevHex, HexReversed, Partner;
    var hex := HexOf(buffer);
    var hexList := new char[|hex|](i requires 0 <= i < |hex| => hex[i]);
    var idx := 0;
    while idx < hexList.Length
      invariant idx % 2 == 0 && idx <= hexList.Length
      invariant forall k | 0 <= k < idx :: Partner(k) < |hex| && hexList[k] == hex[Partner(k)]
      invariant hexList[idx..] == hex[idx..]
    {
      PartnerOf(idx);
      assert hexList[idx..][0] == hexList[idx] && hexList[idx..][1] == hexList[idx + 1];
      hexList[idx], hexList[idx + 1] := hexList[idx + 1], hexList[idx];
      idx := idx + 2;
    }
    var swapped := hexList[..];
    s := seq(|swapped|, k requires 0 <= k < |swapped| => HexReversed(swapped[k]));
    forall k | 0 <= k < |hex| ensures s[k] == RevHex(buffer)[k] {
      RevHexAt(buffer, k);
    }
  }

  // ---------- 32-bit words

  /** Each word with its bits reversed. */
  function RevWords(bs: seq<byte>): (r: seq<byte>)
    requires |bs| % 4 == 0
    ensures |r| == |bs|
  {
    if bs == [] then []
    else [RevByte(bs[3]), RevByte(bs[2]), RevByte(bs[1]), RevByte(bs[0])] + RevWords(bs[4..])
  }

  function RevByte(b: byte): byte {
    RevHexByte(b);
    Rev(b, 8)
  }

  /** The digits of the bytes from the last to the first. */
  function HexBackwards(bs: seq<byte>): string {
    if bs == [] then "" else HexBackwards(bs[1..]) + HexByte(bs[0])
  }

  lemma {:induction false} HexBackwardsValue(bs: seq<byte>)
    ensures ParseHex(HexBackwards(bs)) == Some(Num(bs))
  {
    hide Shl, ParseHex, HexByte;
    if bs == [] {
      BinReversedNone();
    } else {
      HexBackwardsValue(bs[1..]);
      HexByteValue(bs[0]);
      ParseHexConcat(HexBackwards(bs[1..]), HexByte(bs[0]));
    }
  }

  function ConcatWords(bs: seq<byte>): string
    requires |bs| % 4 == 0
  {
    if bs == [] then "" else ConcatWords(bs[4..]) + RevHex(bs[..4])
  }

  /** The sum of the reversed words, each in its place. */
  function SumOfWords(bs: seq<byte>): nat
    requires |bs| % 4 == 0
  {
    if bs == [] then 0 else Rev(Num(bs[..4]), 32) + Shl(SumOfWords(bs[4..]), 32)
  }

  method ReverseEachWord(buffer: seq<byte>) returns (buf2: array<byte>)
    requires |buffer| % 4 == 0
    ensures fresh(buf2) && buf2[..] == RevWords(buffer)
  {
    hide RevByte, RevWords;
    buf2 := new byte[|buffer|](_ => 0);
    var idx := 0;
    while idx < |buffer|
      invariant idx <= |buffer| && idx % 4 == 0
      invariant forall k | 0 <= k < idx :: buf2[k] == RevWords(buffer)[k]
    {
      RevWordsAt(buffer, idx);
      buf2[idx] := RevByte(buffer[idx + 3]);
      buf2[idx + 1] := RevByte(buffer[idx + 2]);
      buf2[idx + 2] := RevByte(buffer[idx + 1]);
      buf2[idx + 3] := RevByte(buffer[idx]);
      idx := idx + 4;
    }
  }

  lemma {:induction false} RevWordsAt(bs: seq<byte>, idx: nat)
    requires |bs| % 4 == 0 && idx % 4 == 0 && idx < |bs|
    ensures idx + 4 <= |bs|
    ensures RevWords(bs)[idx] == RevByte(bs[idx + 3]) && RevWords(bs)[idx + 1] == RevByte(bs[idx + 2])
    ensures RevWords(bs)[idx + 2] == RevByte(bs[idx + 1]) && RevWords(bs)[idx + 3] == RevByte(bs[idx])
  {
    hide RevByte;
    if idx > 0 {
      RevWordsAt(bs[4..], idx - 4);
    }
  }

  lemma NoBytesBackwards()
    ensures HexBackwards([]) == ""
  {
  }

  lemma BackwardsStep(bs: seq<byte>, i: nat)
    requires i < |bs|
    ensures HexBackwards(bs[i..]) == HexBackwards(bs[i + 1..]) + HexByte(bs[i])
  {
    assert bs[i..][1..] == bs[i + 1..];
  }

  /** None is the IndexError for an incomplete word. */
  method BytearrayEach32BitWordReversedToHex(buffer: seq<byte>) returns (r: Option<string>)
    ensures r == if |buffer| % 4 == 0 then Some(HexBackwards(RevWords(buffer))) else None
  {
    if |buffer| % 4 != 0 {
      return None;
    }
    hide RevByte, RevWords, HexByte, HexBackwards;
    NoBytesBackwards();
    var reversed := ReverseEachWord(buffer);
    var buf2, s := reversed[..], "";
    for i := |buf2| downto 0
      invariant s == HexBackwards(buf2[i..])
    {
      BackwardsStep(buf2, i);
      s := s + HexByte(buf2[i]);
    }
    assert buf2[0..] == buf2;
    r := Some(s);
  }

  // ---------- the words separately

  lemma RevHexFour(bs: seq<byte>)
    requires |bs| == 4
    ensures RevHex(bs) == HexByte(RevByte(bs[0])) + HexByte(RevByte(bs[1])) + HexByte(RevByte(bs[2])) + HexByte(RevByte(bs[3]))
  {
    hide RevHex, HexByte, Rev;
    RevHexByte(bs[0]);
    RevHexByte(bs[1]);
    RevHexByte(bs[2]);
    RevHexByte(bs[3]);
    RevHexFirst(bs);
    RevHexFirst(bs[1..]);
    RevHexFirst(bs[1..][1..]);
    assert bs[1..][1..][1..] == [bs[3]];
  }

  lemma HexBackwardsFour(w: seq<byte>, rest: seq<byte>)
    requires |w| == 4
    ensures HexBackwards(w + rest) ==
            HexBackwards(rest) + (HexByte(w[3]) + HexByte(w[2]) + HexByte(w[1]) + HexByte(w[0]))
  {
    hide HexByte;
    var s := w + rest;
    assert s[1..][1..][1..][1..] == rest;
    assert s[1..][1..][1..][0] == w[3] && s[1..][1..][0] == w[2] && s[1..][0] == w[1] && s[0] == w[0];
    assert HexBackwards(s[1..][1..]) == HexBackwards(rest) + HexByte(w[3]) + HexByte(w[2]);
  }

  /** The digits are those of the words, reversed one by one, the last word first. */
  lemma {:induction false} WordsReversedSeparately(bs: seq<byte>)
    requires |bs| % 4 == 0
    ensures HexBackwards(RevWords(bs)) == ConcatWords(bs)
  {
    hide HexBackwards, RevHex, RevByte, HexByte;
    if bs == [] {
      NoBytesBackwards();
    } else {
      WordsReversedSeparately(bs[4..]);
      RevHexFour(bs[..4]);
      HexBackwardsFour([RevByte(bs[3]), RevByte(bs[2]), RevByte(bs[1]), RevByte(bs[0])], RevWords(bs[4..]));
    }
  }

  lemma {:induction false} ConcatWordsValue(bs: seq<byte>)
    requires |bs| % 4 == 0
    ensures ParseHex(ConcatWords(bs)) == Some(SumOfWords(bs))
  {
    hide RevHex, ParseHex, Rev, Shl, Num;
    if bs == [] {
      BinReversedNone();
    } else {
      ConcatWordsValue(bs[4..]);
      RevHexValue(bs[..4]);
      ParseHexConcat(ConcatWords(bs[4..]), RevHex(bs[..4]));
    }
  }

  /** The number written is the sum of the reversed words at their places. */
  lemma WordsReversedValue(bs: seq<byte>)
    requires |bs| % 4 == 0
    ensures ParseHex(HexBackwards(RevWords(bs))) == Some(SumOfWords(bs))
    ensures Num(RevWords(bs)) == SumOfWords(bs)
  {
    WordsReversedSeparately(bs);
    ConcatWordsValue(bs);
    HexBackwardsValue(RevWords(bs));
  }
}
