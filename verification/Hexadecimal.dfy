/** Hexadecimal numerals. */
module Hexadecimal {
  import opened BitArithmetic
  import opened Wrappers

  function HexDigit(c: char): (d: Option<nat>)
    ensures d.Some? ==> d.value < 16
  {
    if '0' <= c <= '9' then Some(c as nat - '0' as nat)
    else if 'a' <= c <= 'f' then Some(10 + c as nat - 'a' as nat)
    else if 'A' <= c <= 'F' then Some(10 + c as nat - 'A' as nat)
    else None
  }

  function ParseHex(s: string): Option<nat> {
    if s == [] then Some(0)
    else
      var front, digit := ParseHex(s[..|s| - 1]), HexDigit(s[|s| - 1]);
      if front.Some? && digit.Some? then Some(16 * front.value + digit.value) else None
  }

  // ---------- numerals as Python's `int` of base 16 takes them

  predicate IsBlank(c: char) {
    c == ' ' || '\t' <= c <= '\r'
  }

  function Strip(s: string): string {
    if s == "" then s
    else if IsBlank(s[0]) then Strip(s[1..])
    else if IsBlank(s[|s| - 1]) then Strip(s[..|s| - 1])
    else s
  }

  /** Digits, at least one, with single underscores between them. */
  function ParseDigits(s: string): Option<nat> {
    if s == "" then None
    else
      match HexDigit(s[|s| - 1])
      case None => None
      case Some(digit) =>
        if |s| == 1 then Some(digit)
        else
          match ParseDigits(if s[|s| - 2] == '_' then s[..|s| - 2] else s[..|s| - 1])
          case None => None
          case Some(front) => Some(16 * front + digit)
  }

  function WithoutPrefix(s: string): string {
    if |s| < 2 || s[0] != '0' || (s[1] != 'x' && s[1] != 'X') then s
    else if |s| > 2 && s[2] == '_' then s[3..]
    else s[2..]
  }

  /** `int(s, 16)`; None is its error. */
  function ParseInt(s: string): Option<int> {
    var t := Strip(s);
    var signed := t != "" && (t[0] == '+' || t[0] == '-');
    match ParseDigits(WithoutPrefix(if signed then t[1..] else t))
    case None => None
    case Some(n) => Some((if signed && t[0] == '-' then -1 else 1) * n)
  }

  lemma {:induction false} HexDigitsOnly(s: string)
    requires ParseHex(s).Some?
    ensures forall c | c in s :: HexDigit(c).Some?
  {
    if s != "" {
      HexDigitsOnly(s[..|s| - 1]);
      assert s == s[..|s| - 1] + [s[|s| - 1]];
    }
  }

  lemma {:induction false} ParsePlainDigits(s: string)
    requires s != "" && ParseHex(s).Some?
    ensures ParseDigits(s) == ParseHex(s)
  {
    if |s| > 1 {
      HexDigitsOnly(s[..|s| - 1]);
      assert s[|s| - 2] in s[..|s| - 1];
      ParsePlainDigits(s[..|s| - 1]);
    } else {
      assert ParseHex(s[..0]) == Some(0);
    }
  }

  /** What the text says once blanks are off, by its sign. */
  lemma ParseSigned(text: string, rest: string, n: nat)
    requires ParseDigits(WithoutPrefix(rest)) == Some(n)
    ensures rest != "" && rest[0] != '+' && rest[0] != '-' && Strip(text) == rest ==> ParseInt(text) == Some(n)
    ensures Strip(text) == "+" + rest ==> ParseInt(text) == Some(n)
    ensures Strip(text) == "-" + rest ==> ParseInt(text) == Some(0 - n)
  {
    hide ParseDigits, WithoutPrefix, Strip;
    assert ("+" + rest)[1..] == rest && ("-" + rest)[1..] == rest;
  }

  lemma DigitsParsed(s: string, n: nat)
    requires s != "" && ParseHex(s) == Some(n)
    ensures HexDigit(s[0]).Some? && HexDigit(s[|s| - 1]).Some? && s[0] != '+' && s[0] != '-'
    ensures ParseDigits(WithoutPrefix(s)) == ParseDigits(WithoutPrefix("0x" + s)) == Some(n)
    ensures ParseDigits(WithoutPrefix("0X" + s)) == ParseDigits(WithoutPrefix("0x_" + s)) == Some(n)
  {
    hide WithoutPrefix, ParseHex, ParseDigits, HexDigit;
    HexDigitsOnly(s);
    assert s[0] in s && s[|s| - 1] in s && (|s| > 1 ==> s[1] in s);
    DigitIsNoMark(s[0]);
    if |s| > 1 {
      DigitIsNoMark(s[1]);
    }
    ParsePlainDigits(s);
    Unprefixed(s);
  }

  /** A sign before digits, or before a prefix. */
  lemma ParseIntSigns(s: string, n: nat)
    requires s != "" && ParseHex(s) == Some(n)
    ensures ParseInt("+" + s) == Some(n) && ParseInt("-" + s) == Some(0 - n) && ParseInt("-0x" + s) == Some(0 - n)
  {
    hide ParseDigits, ParseHex, WithoutPrefix, Strip, HexDigit, ParseInt;
    DigitsParsed(s, n);
    StripNothing("+", s);
    StripNothing("-", s);
    StripNothing("-0x", s);
    ParseSigned("+" + s, s, n);
    ParseSigned("-" + s, s, n);
    ParseSigned("-0x" + s, "0x" + s, n);
    assert "-0x" + s == "-" + ("0x" + s);
  }

  /** A prefix before digits. */
  lemma ParseIntPrefixes(s: string, n: nat)
    requires s != "" && ParseHex(s) == Some(n)
    ensures ParseInt("0x" + s) == ParseInt("0X" + s) == ParseInt("0x_" + s) == Some(n)
  {
    hide ParseDigits, ParseHex, WithoutPrefix, Strip, HexDigit, ParseInt;
    DigitsParsed(s, n);
    StripNothing("0x", s);
    StripNothing("0X", s);
    StripNothing("0x_", s);
    ParseSigned("0x" + s, "0x" + s, n);
    ParseSigned("0X" + s, "0X" + s, n);
    ParseSigned("0x_" + s, "0x_" + s, n);
  }

  /** Blanks around digits. */
  lemma ParseIntBlanks(s: string, n: nat)
    requires s != "" && ParseHex(s) == Some(n)
    ensures ParseInt(" " + s) == ParseInt(s + " ") == ParseInt("\t" + s + "\n") == Some(n)
  {
    hide ParseDigits, ParseHex, WithoutPrefix, Strip, HexDigit, ParseInt;
    DigitsParsed(s, n);
    DigitIsNoMark(s[0]);
    DigitIsNoMark(s[|s| - 1]);
    BlanksGo(s);
    ParseSigned(" " + s, s, n);
    ParseSigned(s + " ", s, n);
    ParseSigned("\t" + s + "\n", s, n);
  }

  lemma StripNothing(front: string, s: string)
    requires front != "" && !IsBlank(front[0]) && s != "" && HexDigit(s[|s| - 1]).Some?
    ensures Strip(front + s) == front + s
  {
    assert (front + s)[0] == front[0] && (front + s)[|front + s| - 1] == s[|s| - 1];
  }

  lemma DigitIsNoMark(c: char)
    requires HexDigit(c).Some?
    ensures c !in "xX_+-" && !IsBlank(c)
  {
  }

  lemma Unprefixed(s: string)
    requires s != "" && s[0] != '_' && (|s| > 1 ==> s[1] != 'x' && s[1] != 'X')
    ensures WithoutPrefix(s) == s
    ensures WithoutPrefix("0x" + s) == WithoutPrefix("0X" + s) == WithoutPrefix("0x_" + s) == s
  {
    assert ("0x" + s)[2..] == s && ("0X" + s)[2..] == s && ("0x_" + s)[3..] == s;
    assert ("0x" + s)[2] == s[0] && ("0X" + s)[2] == s[0];
  }

  lemma BlanksGo(s: string)
    requires s != "" && !IsBlank(s[0]) && !IsBlank(s[|s| - 1])
    ensures Strip(s) == Strip(" " + s) == Strip(s + " ") == Strip("\t" + s + "\n") == s
  {
    assert (" " + s)[1..] == s;
    StripEnd(s, ' ');
    StripEnd(s, '\n');
    var t := "\t" + s + "\n";
    assert t[0] == '\t' && t[1..] == s + "\n";
  }

  lemma StripEnd(s: string, c: char)
    requires s != "" && !IsBlank(s[0]) && !IsBlank(s[|s| - 1]) && IsBlank(c)
    ensures Strip(s) == Strip(s + [c]) == s
  {
    var t := s + [c];
    assert t[..|s|] == s && t[0] == s[0] && t[|s|] == c;
  }

  /** Between digits a single underscore changes nothing. */
  lemma {:induction false} UnderscoreBetween(a: string, b: string)
    requires a != "" && b != "" && ParseHex(a).Some? && ParseHex(b).Some?
    ensures ParseDigits(a + "_" + b) == ParseHex(a + b)
  {
    HexDigitsOnly(b);
    var c := b[|b| - 1];
    assert c in b;
    var s, t := a + "_" + b, a + b;
    assert s[|s| - 1] == c && t[|t| - 1] == c;
    if |b| == 1 {
      assert s[|s| - 2] == '_' && s[..|s| - 2] == a && t[..|t| - 1] == a;
      ParsePlainDigits(a);
    } else {
      var front := b[..|b| - 1];
      assert s[|s| - 2] == b[|b| - 2] && b[|b| - 2] in b;
      assert s[..|s| - 1] == a + "_" + front && t[..|t| - 1] == a + front;
      UnderscoreBetween(a, front);
      DigitsParseTogether(a, front);
    }
  }

  lemma DigitsParseTogether(a: string, b: string)
    requires ParseHex(a).Some? && ParseHex(b).Some?
    ensures ParseHex(a + b).Some?
  {
    ParseHexConcat(a, b);
  }

  /** On digits alone, it is the number that they write. */
  lemma ParseIntOfDigits(s: string)
    requires s != "" && ParseHex(s).Some?
    ensures ParseInt(s) == Some(ParseHex(s).value)
  {
    hide ParseDigits, ParseHex;
    HexDigitsOnly(s);
    assert s[0] in s && s[|s| - 1] in s;
    assert |s| > 1 ==> s[1] in s;
    ParsePlainDigits(s);
  }

  function UpperDigit(d: nat): (c: char)
    requires d < 16
    ensures HexDigit(c) == Some(d)
  {
    if d < 10 then (d + '0' as nat) as char else (d - 10 + 'A' as nat) as char
  }

  function LowerDigit(d: nat): (c: char)
    requires d < 16
    ensures HexDigit(c) == Some(d)
  {
    if d < 10 then (d + '0' as nat) as char else (d - 10 + 'a' as nat) as char
  }

  /** `f"{n:x}"`. */
  function PrintLower(n: nat): (s: string)
    ensures s != ""
  {
    if n < 16 then [LowerDigit(n)] else PrintLower(n / 16) + [LowerDigit(n % 16)]
  }

  lemma {:induction false} ParsePrintLower(n: nat)
    ensures ParseHex(PrintLower(n)) == Some(n)
  {
    if n >= 16 {
      ParsePrintLower(n / 16);
      assert PrintLower(n)[..|PrintLower(n)| - 1] == PrintLower(n / 16);
    }
  }

  lemma {:induction false} ParseHexConcat(a: string, b: string)
    requires ParseHex(a).Some? && ParseHex(b).Some?
    ensures ParseHex(a + b) == Some(Shl(ParseHex(a).value, 4 * |b|) + ParseHex(b).value)
  {
    hide Shl, HexDigit;
    if b == "" {
      assert a + b == a;
      ShlNone(ParseHex(a).value);
    } else {
      var front := b[..|b| - 1];
      ParseHexConcat(a, front);
      assert (a + b)[..|a + b| - 1] == a + front;
      ShlTwice(ParseHex(a).value, 4 * |front|, 4);
      ShlBy4(Shl(ParseHex(a).value, 4 * |front|));
    }
  }

  lemma ShlBy4(x: int)
    ensures Shl(x, 4) == 16 * x
  {
    ShlScales(x, 4);
    assert Pow2(4) == 16;
  }

  /** The first digit decides how large a number of that many digits is. */
  lemma LeadingDigit(s: string, b: nat)
    requires s != "" && ParseHex(s).Some? && b <= 4
    ensures HexDigit(s[0]).Some?
    ensures ParseHex(s).value < Pow2(4 * (|s| - 1) + b) <==> HexDigit(s[0]).value < Pow2(b)
  {
    hide Shl, HexDigit, ParseHex;
    var d, rest := SplitFirst(s);
    ParseHexBound(rest);
    if d < Pow2(b) {
      SumBounds(ParseHex(rest).value, d, 4 * |rest|, b);
    } else {
      ShlMonotone(Pow2(b), d, 4 * |rest|);
      Pow2Sum(b, 4 * |rest|);
    }
  }

  lemma SplitFirst(s: string) returns (d: nat, rest: string)
    requires s != "" && ParseHex(s).Some?
    ensures rest == s[1..] && ParseHex(rest).Some? && HexDigit(s[0]) == Some(d)
    ensures ParseHex(s).value == Shl(d, 4 * |rest|) + ParseHex(rest).value
  {
    rest := s[1..];
    HexDigitsOnly(s);
    assert s[0] in s;
    d := HexDigit(s[0]).value;
    DigitsParse(rest);
    DigitsParse([s[0]]);
    assert ParseHex([s[0]][..0]) == Some(0);
    assert s == [s[0]] + rest;
    ParseHexConcat([s[0]], rest);
  }

  lemma {:induction false} DigitsParse(s: string)
    requires forall c | c in s :: HexDigit(c).Some?
    ensures ParseHex(s).Some?
  {
    if s != "" {
      DigitsParse(s[..|s| - 1]);
    }
  }

  lemma {:induction false} ParseHexBound(s: string)
    requires ParseHex(s).Some?
    ensures ParseHex(s).value < Pow2(4 * |s|)
  {
    if s != "" {
      ParseHexBound(s[..|s| - 1]);
      assert Pow2(4) == 16;
      ShlTwice(1, 4 * (|s| - 1), 4);
      ShlBy4(Pow2(4 * (|s| - 1)));
    }
  }

  /** The digits, in either case, are those of their numbers. */
  lemma HexDigitIs(c: char, d: nat)
    requires d < 16
    ensures HexDigit(c) == Some(d) <==> c == "0123456789abcdef"[d] || c == "0123456789ABCDEF"[d]
  {
  }

  /** The last digit of a numeral is that of the ones, and those before it are the sixteens. */
  lemma NumeralIs(n: nat)
    ensures PrintLower(n) == (if n < 16 then "" else PrintLower(n / 16)) + ["0123456789abcdef"[n % 16]]
  {
    LowerDigitIs(n % 16);
    assert n < 16 ==> n % 16 == n;
  }

  lemma LowerDigitIs(d: nat)
    requires d < 16
    ensures LowerDigit(d) == "0123456789abcdef"[d]
  {
  }
}
