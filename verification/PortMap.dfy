/** The text form of a probe's port segments: printing, parsing, and what parsing accepts. */
module PortMap {
  import opened Decimal
  import opened Wrappers

  /** A bit range of a port. */
  datatype MapPortSeq = MapPortSeq(port: nat, high: nat, low: nat)

  datatype Result<T> = Ok(value: T) | ValueError | TypeError

  // ---------- printing

  /** The text after the port number. */
  function RangeToStr(s: MapPortSeq): string {
    "[" + Print(s.high) + (if s.high == s.low then "]" else ":" + Print(s.low) + "]")
  }

  function ItemToStr(s: MapPortSeq): string {
    "port" + Print(s.port) + RangeToStr(s)
  }

  function ToStr(segs: seq<MapPortSeq>): string {
    if segs == [] then ""
    else if |segs| == 1 then ItemToStr(segs[0])
    else ItemToStr(segs[0]) + " " + ToStr(segs[1..])
  }

  // ---------- parsing

  predicate IsSpace(c: char) {
    c == ' ' || '\t' <= c <= '\r' || 28 as char <= c <= 31 as char
  }

  function Lower(s: string): (r: string)
    ensures |r| == |s|
  {
    seq(|s|, i requires 0 <= i < |s| => if 'A' <= s[i] <= 'Z' then s[i] + 32 as char else s[i])
  }

  /** The length of the leading part without white space. */
  function WordLength(s: string): (n: nat)
    ensures n <= |s| && (forall i | 0 <= i < n :: !IsSpace(s[i])) && (n < |s| ==> IsSpace(s[n]))
  {
    if s == "" || IsSpace(s[0]) then 0 else 1 + WordLength(s[1..])
  }

  /** `str.split()`. */
  function Split(s: string): (words: seq<string>)
    decreases |s|
  {
    if s == "" then []
    else if IsSpace(s[0]) then Split(s[1..])
    else [s[..WordLength(s)]] + Split(s[WordLength(s)..])
  }

  function DigitsLength(s: string): (n: nat)
    ensures n <= |s| && AllDigits(s[..n]) && (n < |s| ==> !IsDigit(s[n]))
  {
    if s == "" || !IsDigit(s[0]) then 0
    else
      var n := DigitsLength(s[1..]);
      assert s[..n + 1] == [s[0]] + s[1..][..n];
      1 + n
  }

  /** What the regular expression captures; the rest of the text is ignored. */
  datatype Captured = Captured(port: nat, left: Option<nat>, right: Option<nat>)

  /** The optional `[left]` or `[left:right]`. */
  function MatchRange(s: string): (Option<nat>, Option<nat>) {
    if s == "" || s[0] != '[' then (None, None)
    else
      var s1 := s[1..];
      var n := DigitsLength(s1);
      var s2 := s1[n..];
      if n == 0 || s2 == "" then (None, None)
      else if s2[0] == ']' then (Some(Parse(s1[..n])), None)
      else if s2[0] != ':' then (None, None)
      else
        var s3 := s2[1..];
        var k := DigitsLength(s3);
        if k == 0 || k == |s3| || s3[k] != ']' then (None, None)
        else (Some(Parse(s1[..n])), Some(Parse(s3[..k])))
  }

  function MatchMap(s: string): Option<Captured> {
    var n := DigitsLength(s);
    if n == 0 then None
    else
      var (left, right) := MatchRange(s[n..]);
      Some(Captured(Parse(s[..n]), left, right))
  }

  function StripPrefix(item: string): Option<string> {
    if "port" <= item then Some(item[4..])
    else if "probe" <= item then Some(item[5..])
    else None
  }

  /** The checks on one captured item; `widths` is empty when the ports are not known. */
  function CheckItem(c: Captured, widths: seq<nat>): Result<MapPortSeq> {
    if widths != [] && c.port >= |widths| then ValueError
    else
      var high := c.left;
      var low := if c.right.None? then c.left else c.right;
      if high.None? then
        if widths == [] then TypeError
        else if widths[c.port] == 1 then Ok(MapPortSeq(c.port, 0, 0))
        else ValueError
      else if high.value < low.value then ValueError
      else if widths != [] && widths[c.port] <= high.value then ValueError
      else Ok(MapPortSeq(c.port, high.value, low.value))
  }

  function ParseItem(item: string, widths: seq<nat>): Result<MapPortSeq> {
    match StripPrefix(item)
    case None => ValueError
    case Some(s) =>
      match MatchMap(s)
      case None => ValueError
      case Some(c) => CheckItem(c, widths)
  }

  function ParseItems(items: seq<string>, widths: seq<nat>): Result<seq<MapPortSeq>> {
    if items == [] then Ok([])
    else
      match ParseItem(items[0], widths)
      case ValueError => ValueError
      case TypeError => TypeError
      case Ok(s) =>
        match ParseItems(items[1..], widths)
        case ValueError => ValueError
        case TypeError => TypeError
        case Ok(rest) => Ok([s] + rest)
  }

  /** `port_map_str_to_port_seqs`. */
  function ParseMap(text: string, widths: seq<nat>): Result<seq<MapPortSeq>> {
    ParseItems(Split(Lower(text)), widths)
  }

  // ---------- parsing what was printed

  /** A segment that the ports have; any proper range when the ports are not known. */
  predicate InPorts(s: MapPortSeq, widths: seq<nat>) {
    s.low <= s.high && (widths != [] ==> s.port < |widths| && s.high < widths[s.port])
  }

  lemma {:induction false} DigitsOf(digits: string, rest: string)
    requires AllDigits(digits) && (rest == "" || !IsDigit(rest[0]))
    ensures DigitsLength(digits + rest) == |digits|
    ensures (digits + rest)[..|digits|] == digits && (digits + rest)[|digits|..] == rest
  {
    if digits != "" {
      assert digits[0] in digits;
      DigitsOf(digits[1..], rest);
      assert (digits + rest)[1..] == digits[1..] + rest;
    } else {
      assert digits + rest == rest;
    }
  }

  /** Digits, at least one. */
  predicate IsNumeral(s: string) {
    s != "" && AllDigits(s)
  }

  lemma MatchBit(b: string)
    requires IsNumeral(b)
    ensures MatchRange("[" + b + "]") == (Some(Parse(b)), None)
  {
    hide Parse, DigitsLength;
    var s := "[" + b + "]";
    assert s[1..] == b + "]";
    DigitsOf(b, "]");
  }

  lemma MatchBits(b: string, c: string)
    requires IsNumeral(b) && IsNumeral(c)
    ensures MatchRange("[" + b + ":" + c + "]") == (Some(Parse(b)), Some(Parse(c)))
  {
    hide Parse, DigitsLength;
    var s, tail := "[" + b + ":" + c + "]", ":" + c + "]";
    assert s[1..] == b + tail;
    DigitsOf(b, tail);
    assert tail[1..] == c + "]";
    DigitsOf(c, "]");
  }

  lemma MatchItem(a: string, range: string)
    requires IsNumeral(a) && (range == "" || range[0] == '[')
    ensures StripPrefix("port" + a + range) == StripPrefix("probe" + a + range) == Some(a + range)
    ensures MatchMap(a + range) == Some(Captured(Parse(a), MatchRange(range).0, MatchRange(range).1))
  {
    hide Parse, DigitsLength, MatchRange;
    DigitsOf(a, range);
    assert "port" + a + range == "port" + (a + range) && "probe" + a + range == "probe" + (a + range);
    assert "port"[1] == 'o' && "probe"[1] == 'r';
  }

  lemma ParseCaptured(a: string, range: string, widths: seq<nat>)
    requires IsNumeral(a) && (range == "" || range[0] == '[')
    ensures ParseItem("port" + a + range, widths) ==
            CheckItem(Captured(Parse(a), MatchRange(range).0, MatchRange(range).1), widths)
  {
    hide Parse, StripPrefix, MatchMap, MatchRange, CheckItem, IsNumeral;
    MatchItem(a, range);
  }

  /** The documented forms, for any numerals.  With both ends of a range the high one comes first;
      errors are a port or a bit that is not there, and a range the wrong way round. */
  lemma ParseBits(a: string, b: string, c: string, widths: seq<nat>)
    requires IsNumeral(a) && IsNumeral(b) && IsNumeral(c)
    ensures
      var (port, high, low) := (Parse(a), Parse(b), Parse(c));
      ParseItem("port" + a + ("[" + b + ":" + c + "]"), widths) ==
        if low <= high && (widths == [] || (port < |widths| && high < widths[port]))
        then Ok(MapPortSeq(port, high, low)) else ValueError
  {
    hide Parse, MatchRange, ParseItem, IsNumeral;
    MatchBits(b, c);
    ParseCaptured(a, "[" + b + ":" + c + "]", widths);
  }

  /** One bit. */
  lemma ParseBit(a: string, b: string, widths: seq<nat>)
    requires IsNumeral(a) && IsNumeral(b)
    ensures
      var (port, bit) := (Parse(a), Parse(b));
      ParseItem("port" + a + ("[" + b + "]"), widths) ==
        if widths == [] || (port < |widths| && bit < widths[port])
        then Ok(MapPortSeq(port, bit, bit)) else ValueError
  {
    hide Parse, MatchRange, ParseItem, IsNumeral;
    MatchBit(b);
    ParseCaptured(a, "[" + b + "]", widths);
  }

  /** Without a range, for a port of one bit only. */
  lemma ParsePort(a: string, widths: seq<nat>)
    requires IsNumeral(a)
    ensures
      ParseItem("port" + a, widths) ==
        if widths == [] then TypeError
        else if Parse(a) < |widths| && widths[Parse(a)] == 1 then Ok(MapPortSeq(Parse(a), 0, 0)) else ValueError
  {
    hide Parse, ParseItem, IsNumeral;
    ParseCaptured(a, "", widths);
    assert "port" + a + "" == "port" + a;
  }

  /** The older prefix means the same. */
  lemma ParseProbe(a: string, range: string, widths: seq<nat>)
    requires IsNumeral(a) && (range == "" || range[0] == '[')
    ensures ParseItem("probe" + a + range, widths) == ParseItem("port" + a + range, widths)
  {
    hide Parse, StripPrefix, MatchMap, MatchRange, CheckItem, IsNumeral;
    MatchItem(a, range);
  }

  /** Capitals are read as small letters, and white space before a text is skipped. */
  lemma CaseAndBlanks(s: string, i: nat, blank: char)
    ensures i < 26 ==> Lower(["ABCDEFGHIJKLMNOPQRSTUVWXYZ"[i]] + s) == ["abcdefghijklmnopqrstuvwxyz"[i]] + Lower(s)
    ensures blank as int in {9, 10, 11, 12, 13, 28, 29, 30, 31, 32} <==> IsSpace(blank)
    ensures IsSpace(blank) ==> Split([blank] + s) == Split(s)
  {
    assert ([blank] + s)[1..] == s;
    if i < 26 {
      var upper, lower := "ABCDEFGHIJKLMNOPQRSTUVWXYZ"[i], "abcdefghijklmnopqrstuvwxyz"[i];
      CapitalIs(i);
      assert Lower([upper] + s)[0] == lower;
    }
  }

  lemma CapitalIs(i: nat)
    requires i < 26
    ensures "ABCDEFGHIJKLMNOPQRSTUVWXYZ"[i] as int == 'A' as int + i
    ensures "abcdefghijklmnopqrstuvwxyz"[i] as int == 'a' as int + i
  {
  }

  lemma MatchOfPrinted(s: MapPortSeq)
    ensures StripPrefix(ItemToStr(s)) == Some(Print(s.port) + RangeToStr(s))
    ensures MatchMap(Print(s.port) + RangeToStr(s)) ==
            Some(Captured(s.port, Some(s.high), if s.high == s.low then None else Some(s.low)))
  {
    hide Print, Parse, StripPrefix, MatchMap, MatchRange;
    ParsePrint(s.port);
    ParsePrint(s.high);
    ParsePrint(s.low);
    MatchItem(Print(s.port), RangeToStr(s));
    if s.high == s.low {
      MatchBit(Print(s.high));
    } else {
      MatchBits(Print(s.high), Print(s.low));
      assert RangeToStr(s) == "[" + Print(s.high) + ":" + Print(s.low) + "]";
    }
  }

  /** Parsing a printed segment gives it back exactly when the ports have it. */
  lemma ParseItemOfPrinted(s: MapPortSeq, widths: seq<nat>)
    ensures ParseItem(ItemToStr(s), widths) == Ok(s) <==> InPorts(s, widths)
  {
    hide ItemToStr, RangeToStr, Print, StripPrefix, MatchMap;
    MatchOfPrinted(s);
  }

  /** Printed text is lower case, and its items hold no white space. */
  predicate Plain(s: string) {
    forall c | c in s :: !IsSpace(c) && !('A' <= c <= 'Z')
  }

  lemma ItemIsPlain(s: MapPortSeq)
    ensures Plain(ItemToStr(s)) && ItemToStr(s) != ""
  {
    assert forall c | IsDigit(c) :: !IsSpace(c);
  }

  lemma {:induction false} WordLengthIs(word: string, rest: string)
    requires Plain(word) && (rest == "" || IsSpace(rest[0]))
    ensures WordLength(word + rest) == |word|
    ensures (word + rest)[..|word|] == word && (word + rest)[|word|..] == rest
  {
    if word != "" {
      assert word[0] in word;
      WordLengthIs(word[1..], rest);
      assert (word + rest)[1..] == word[1..] + rest;
    } else {
      assert word + rest == rest;
    }
  }

  lemma SplitWord(word: string, rest: string)
    requires Plain(word) && word != "" && (rest == "" || IsSpace(rest[0]))
    ensures Split(word + rest) == [word] + Split(rest)
  {
    hide WordLength;
    assert (word + rest)[0] in word;
    WordLengthIs(word, rest);
  }

  /** What parsing `ToStr` amounts to: parsing the items. */
  function ItemStrs(segs: seq<MapPortSeq>): seq<string> {
    if segs == [] then [] else [ItemToStr(segs[0])] + ItemStrs(segs[1..])
  }

  lemma {:induction false} SplitOfPrinted(segs: seq<MapPortSeq>)
    ensures Split(ToStr(segs)) == ItemStrs(segs)
  {
    if segs != [] {
      var item := ItemToStr(segs[0]);
      ItemIsPlain(segs[0]);
      SplitOfPrinted(segs[1..]);
      if |segs| == 1 {
        SplitWord(item, "");
        assert item + "" == item;
      } else {
        var rest := " " + ToStr(segs[1..]);
        SplitWord(item, rest);
        assert item + rest == ToStr(segs);
        assert rest[1..] == ToStr(segs[1..]);
      }
    }
  }

  lemma LowerIs(s: string)
    requires forall c | c in s :: !('A' <= c <= 'Z')
    ensures Lower(s) == s
  {
    assert forall i | 0 <= i < |s| :: s[i] in s;
  }

  lemma {:induction false} PrintedIsLower(segs: seq<MapPortSeq>)
    ensures forall c | c in ToStr(segs) :: !('A' <= c <= 'Z')
  {
    if segs != [] {
      ItemIsPlain(segs[0]);
      PrintedIsLower(segs[1..]);
    }
  }

  predicate AllInPorts(segs: seq<MapPortSeq>, widths: seq<nat>) {
    forall s | s in segs :: InPorts(s, widths)
  }

  lemma AllInPortsFirst(segs: seq<MapPortSeq>, widths: seq<nat>)
    requires segs != []
    ensures AllInPorts(segs, widths) <==> InPorts(segs[0], widths) && AllInPorts(segs[1..], widths)
  {
    assert forall s | s in segs :: s == segs[0] || s in segs[1..];
  }

  lemma ParseItemsFirst(items: seq<string>, widths: seq<nat>, segs: seq<MapPortSeq>)
    requires items != [] && segs != []
    ensures ParseItems(items, widths) == Ok(segs) <==>
            ParseItem(items[0], widths) == Ok(segs[0]) && ParseItems(items[1..], widths) == Ok(segs[1..])
  {
    hide ParseItem;
    var first, others := ParseItem(items[0], widths), ParseItems(items[1..], widths);
    assert segs == [segs[0]] + segs[1..];
    if first.Ok? && others.Ok? {
      var all := [first.value] + others.value;
      assert all[0] == first.value && all[1..] == others.value;
    }
  }

  lemma {:induction false} ParseItemsOfPrinted(segs: seq<MapPortSeq>, widths: seq<nat>)
    ensures ParseItems(ItemStrs(segs), widths) == Ok(segs) <==> AllInPorts(segs, widths)
  {
    hide ParseItem, ItemToStr, InPorts;
    if segs != [] {
      hide AllInPorts, ParseItems;
      ParseItemOfPrinted(segs[0], widths);
      ParseItemsOfPrinted(segs[1..], widths);
      ParseItemsFirst(ItemStrs(segs), widths, segs);
      AllInPortsFirst(segs, widths);
    }
  }

  /** Parsing what was printed gives back the segments, exactly when the ports have them all. */
  lemma ParseAfterPrint(segs: seq<MapPortSeq>, widths: seq<nat>)
    ensures ParseMap(ToStr(segs), widths) == Ok(segs) <==> AllInPorts(segs, widths)
  {
    PrintedIsLower(segs);
    LowerIs(ToStr(segs));
    SplitOfPrinted(segs);
    ParseItemsOfPrinted(segs, widths);
  }

  lemma {:induction false} ParsedItemsInPorts(items: seq<string>, widths: seq<nat>)
    requires ParseItems(items, widths).Ok?
    ensures AllInPorts(ParseItems(items, widths).value, widths)
  {
    if items != [] {
      ParsedItemsInPorts(items[1..], widths);
    }
  }

  /** Whatever text is accepted, the segments are in the ports, and printing them gives a text
      that means the same. */
  lemma PrintAfterParse(text: string, widths: seq<nat>)
    requires ParseMap(text, widths).Ok?
    ensures
      var segs := ParseMap(text, widths).value;
      && AllInPorts(segs, widths)
      && ParseMap(ToStr(segs), widths) == ParseMap(text, widths)
  {
    ParsedItemsInPorts(Split(Lower(text)), widths);
    ParseAfterPrint(ParseMap(text, widths).value, widths);
  }
}
