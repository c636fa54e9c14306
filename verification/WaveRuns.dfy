/** Probe values cut out of captured samples, and the run-length text that draws them. */
module WaveRuns {
  import opened BitArithmetic
  import opened Hexadecimal
  import opened LittleEndian
  import PortMap
  import opened Wrappers

  // ---------- one probe's values

  function Width(msb: int, lsb: nat): nat {
    if msb < lsb then 0 else msb - lsb + 1
  }

  /** Bits `msb..lsb` of the sample at the head of the data; None when the data ends before a bit. */
  function SliceValue(data: seq<byte>, msb: int, lsb: nat): Option<nat> {
    if msb >= lsb && msb / 8 >= |data| then None else Some(Low(Shr(Num(data), lsb), Width(msb, lsb)))
  }

  lemma {:induction false} ShrOfNumBytes(data: seq<byte>, k: nat)
    requires k <= |data|
    ensures Shr(Num(data), 8 * k) == Num(data[k..])
  {
    hide Shl, Shr, Low, Pow2;
    if k == 0 {
      ShrNone(Num(data));
      assert data[0..] == data;
    } else {
      ShrOfNum(data);
      ShrOfNumBytes(data[1..], k - 1);
      ShrTwice(Num(data), 8, 8 * (k - 1));
      assert data[1..][k - 1..] == data[k..];
    }
  }

  lemma BitOfByteAt(data: seq<byte>, k: nat, j: nat)
    requires k < |data| && j < 8
    ensures Low(Shr(Num(data), 8 * k + j), 1) == Low(Shr(data[k], j), 1)
  {
    hide Shl, Shr, Low, Pow2, Num;
    ShrOfNumBytes(data, k);
    ShrTwice(Num(data), 8 * k, j);
    NumFirst(data[k..]);
    ShrOfSumBelow(data[k], Num(data[k..][1..]), 8, j);
    LowOfSum(Shr(data[k], j), Num(data[k..][1..]), 8 - j, 1);
  }

  /** Bit `i` of the number is bit `i % 8` of byte `i / 8`. */
  lemma BitOfByte(data: seq<byte>, i: nat)
    requires i / 8 < |data|
    ensures Low(Shr(Num(data), i), 1) == Low(Shr(data[i / 8], i % 8), 1)
  {
    hide Shl, Shr, Low, Pow2, Num;
    BitOfByteAt(data, i / 8, i % 8);
    assert 8 * (i / 8) + i % 8 == i;
  }

  lemma BitTest(x: nat, j: nat)
    ensures Low(Shr(x, j), 1) == if And(x, Pow2(j)) != 0 then 1 else 0
  {
    AndOneBit(x, j);
    ShlZero(j);
    assert Low(Shr(x, j), 1) == Shr(x, j) % 2;
  }

  lemma LowNext(x: nat, k: nat, n: nat)
    ensures Low(Shr(x, k), n + 1) == Low(Shr(x, k), 1) + 2 * Low(Shr(x, k + 1), n)
  {
    ShrTwice(x, k, 1);
  }

  method SampleSlice(data: seq<byte>, base: nat, msb: nat, lsb: nat) returns (r: Option<nat>)
    requires base <= |data|
    ensures r == SliceValue(data[base..], msb, lsb)
  {
    hide Shl, Shr, Low, Pow2, And, Num;
    ghost var x := Num(data[base..]);
    LowNone(Shr(x, msb + 1));
    LowNone(Shr(x, lsb));
    var val := 0;
    var bit: int := msb;
    while bit >= lsb
      invariant bit == msb || (lsb - 1 <= bit < msb && msb / 8 < |data| - base)
      invariant val == Low(Shr(x, bit + 1), msb - bit)
      decreases bit - lsb
    {
      if base + bit / 8 >= |data| {
        return None;
      }
      BitOfByte(data[base..], bit);
      BitTest(data[base + bit / 8], bit % 8);
      LowNext(x, bit, msb - bit);
      val := 2 * val + (if And(data[base + bit / 8], Pow2(bit % 8)) != 0 then 1 else 0);
      bit := bit - 1;
    }
    r := Some(val);
  }

  function Prepend(a: seq<nat>, b: Option<seq<nat>>): Option<seq<nat>> {
    if b.None? then None else Some(a + b.value)
  }

  lemma PrependNone(a: seq<nat>)
    ensures Prepend(a, Some([])) == Some(a) && Prepend(a, None) == None
  {
    assert a + [] == a;
  }

  lemma PrependTwice(a: seq<nat>, v: nat, b: Option<seq<nat>>)
    ensures Prepend(a, Prepend([v], b)) == Prepend(a + [v], b)
  {
    if b.Some? {
      assert a + ([v] + b.value) == a + [v] + b.value;
    }
  }

  lemma PrependNothing(b: Option<seq<nat>>)
    ensures Prepend([], b) == b
  {
    if b.Some? {
      assert [] + b.value == b.value;
    }
  }

  /** One value for each sample; None is the IndexError when a bit lies past the data. */
  function ProbeValues(data: seq<byte>, size: nat, msb: nat, lsb: nat): Option<seq<nat>>
    requires size > 0
  {
    if data == [] then Some([])
    else
      var first := SliceValue(data, msb, lsb);
      var rest := if |data| <= size then Some([]) else ProbeValues(data[size..], size, msb, lsb);
      if first.None? then None else Prepend([first.value], rest)
  }

  method WaveOneProbeToInt(data: seq<byte>, sampleWidth: nat, msb: nat, lsb: nat) returns (values: Option<seq<nat>>)
    requires sampleWidth > 0
    ensures values == ProbeValues(data, (sampleWidth + 7) / 8, msb, lsb)
  {
    hide SliceValue, Prepend;
    var out: seq<nat> := [];
    var size := (sampleWidth + 7) / 8;
    var base := 0;
    ghost var all := ProbeValues(data, size, msb, lsb);
    assert data[0..] == data;
    PrependNothing(all);
    while base < |data|
      invariant all == Prepend(out, if base < |data| then ProbeValues(data[base..], size, msb, lsb) else Some([]))
      decreases |data| - base
    {
      var val := SampleSlice(data, base, msb, lsb);
      if val.None? {
        PrependNone(out);
        return None;
      }
      if base + size < |data| {
        assert data[base..][size..] == data[base + size..];
        PrependTwice(out, val.value, ProbeValues(data[base + size..], size, msb, lsb));
      } else {
        PrependTwice(out, val.value, Some([]));
      }
      out := out + [val.value];
      base := base + size;
    }
    PrependNone(out);
    values := Some(out);
  }

  /** A value is the little-endian sample shifted down by `lsb` and cut to the probe's width, as
      long as the probe lies in the sample. */
  lemma SliceOfSample(data: seq<byte>, size: nat, msb: nat, lsb: nat)
    requires size <= |data| && lsb <= msb < 8 * size
    ensures SliceValue(data, msb, lsb) == Some(Num(data[..size]) / Pow2(lsb) % Pow2(msb - lsb + 1))
  {
    hide Shl, Shr, Low, Num, Pow2;
    ShrDivides(Num(data[..size]), lsb);
    ShrDivides(Shr(Num(data[..size]), lsb), msb - lsb + 1);
    var sample, rest := data[..size], data[size..];
    assert data == sample + rest;
    NumOfConcat(sample, rest);
    ShrOfSumBelow(Num(sample), Num(rest), 8 * size, lsb);
    LowOfSum(Shr(Num(sample), lsb), Num(rest), 8 * size - lsb, Width(msb, lsb));
  }

  /** It fails exactly when a bit of the probe lies past the data; a probe without bits is zero. */
  lemma SliceFails(data: seq<byte>, msb: int, lsb: nat)
    ensures SliceValue(data, msb, lsb).None? <==> exists bit | lsb <= bit <= msb :: bit / 8 >= |data|
    ensures msb < lsb ==> SliceValue(data, msb, lsb) == Some(0)
  {
    hide Num;
    LowNone(Shr(Num(data), lsb));
    if msb >= lsb && msb / 8 >= |data| {
      assert lsb <= msb <= msb;
    }
  }

  /** The `k`-th value is that of the `k`-th sample. */
  lemma {:induction false} ProbeValueAt(data: seq<byte>, size: nat, msb: nat, lsb: nat, k: nat, at: nat)
    requires size > 0 && at == k * size < |data| && ProbeValues(data, size, msb, lsb).Some?
    ensures k < |ProbeValues(data, size, msb, lsb).value|
    ensures SliceValue(data[at..], msb, lsb) == Some(ProbeValues(data, size, msb, lsb).value[k])
  {
    hide SliceValue;
    if k == 0 {
      assert at == 0 && data[0..] == data;
    } else {
      assert at == (k - 1) * size + size;
      assert (k - 1) * size >= 0;
      ProbeValueAt(data[size..], size, msb, lsb, k - 1, at - size);
      assert data[size..][at - size..] == data[at..];
    }
  }

  // ---------- run-length text

  /** The symbols drawn for `vals[start..end]`, and the values named beside them. */
  datatype Drawn = Drawn(wave: string, data: seq<string>)

  /** One sample: a repeated value is a dot; others are a level of one bit, or a named box. */
  function Draw(vals: seq<nat>, start: nat, end: nat, oneBit: bool, box: char): Drawn
    requires start < end ==> end <= |vals|
    decreases end
  {
    if end <= start then Drawn("", [])
    else
      var d, i := Draw(vals, start, end - 1, oneBit, box), end - 1;
      if i > start && vals[i] == vals[i - 1] then Drawn(d.wave + ".", d.data)
      else if oneBit then Drawn(d.wave + (if vals[i] == 0 then "0" else "1"), d.data)
      else Drawn(d.wave + [box], d.data + [PrintLower(vals[i])])
  }

  /** `" ".join(names)`. */
  function Join(names: seq<string>): string {
    if names == [] then "" else if |names| == 1 then names[0] else names[0] + " " + Join(names[1..])
  }

  /** The strings that are added to a signal; there is none for no names. */
  datatype Text = Text(wave: string, names: Option<string>)

  function TextOf(d: Drawn): Text {
    Text(d.wave, if d.data == [] then None else Some(Join(d.data)))
  }

  /** None stands for the IndexError when the values end before the section. */
  method ToWavedromWaveData(vals: seq<nat>, start: nat, end: nat, oneBit: bool, box: char) returns (r: Option<Text>)
    ensures r == if start < end && end > |vals| then None else Some(TextOf(Draw(vals, start, end, oneBit, box)))
  {
    var wave: string, data: seq<string> := "", [];
    var idx := start;
    while idx < end
      invariant idx <= start || (idx <= end && idx <= |vals|)
      invariant Drawn(wave, data) == Draw(vals, start, idx, oneBit, box)
    {
      if idx >= |vals| {
        return None;
      }
      if idx > start && vals[idx] == vals[idx - 1] {
        wave := wave + ".";
      } else if oneBit {
        wave := wave + (if vals[idx] == 0 then "0" else "1");
      } else {
        wave := wave + [box];
        data := data + [PrintLower(vals[idx])];
      }
      idx := idx + 1;
    }
    r := Some(Text(wave, if |data| > 0 then Some(Join(data)) else None));
  }

  /** A symbol that needs no name. */
  predicate IsLevel(c: char) {
    c == '.' || c == '0' || c == '1'
  }

  /** Reads the text: the values that were drawn. None when it is not such a text. */
  function Read(d: Drawn): Option<seq<nat>>
    decreases |d.wave|
  {
    if d.wave == "" then (if d.data == [] then Some([]) else None)
    else
      var front, c := d.wave[..|d.wave| - 1], d.wave[|d.wave| - 1];
      if IsLevel(c) then
        match Read(Drawn(front, d.data))
        case None => None
        case Some(vs) =>
          if c != '.' then Some(vs + [if c == '0' then 0 else 1])
          else if vs == [] then None
          else Some(vs + [vs[|vs| - 1]])
      else if d.data == [] then None
      else
        match (Read(Drawn(front, d.data[..|d.data| - 1])), ParseHex(d.data[|d.data| - 1]))
        case (Some(vs), Some(v)) => Some(vs + [v])
        case _ => None
  }

  lemma ReadLevel(d: Drawn, vs: seq<nat>, c: char)
    requires Read(d) == Some(vs) && IsLevel(c) && (c == '.' ==> vs != [])
    ensures Read(Drawn(d.wave + [c], d.data)) ==
            Some(vs + [if c == '.' then vs[|vs| - 1] else if c == '0' then 0 else 1])
  {
    hide ParseHex;
    var r := Drawn(d.wave + [c], d.data);
    assert r.wave[..|r.wave| - 1] == d.wave && Drawn(d.wave, r.data) == d;
  }

  lemma ReadBox(d: Drawn, vs: seq<nat>, c: char, name: string, v: nat)
    requires Read(d) == Some(vs) && !IsLevel(c) && ParseHex(name) == Some(v)
    ensures Read(Drawn(d.wave + [c], d.data + [name])) == Some(vs + [v])
  {
    hide ParseHex, IsLevel;
    var r := Drawn(d.wave + [c], d.data + [name]);
    assert r.wave[..|r.wave| - 1] == d.wave && r.data[..|r.data| - 1] == d.data;
    assert Drawn(d.wave, d.data) == d;
  }

  lemma {:induction false} ReadDrawn(vals: seq<nat>, start: nat, end: nat, oneBit: bool, box: char)
    requires start <= end <= |vals| && !IsLevel(box)
    requires oneBit ==> forall i | start <= i < end :: vals[i] < 2
    ensures Read(Draw(vals, start, end, oneBit, box)) == Some(vals[start..end])
    decreases end - start
  {
    hide Read, ParseHex, PrintLower;
    if start == end {
      ReadNothing();
    } else {
      ReadDrawn(vals, start, end - 1, oneBit, box);
      var d, i := Draw(vals, start, end - 1, oneBit, box), end - 1;
      ParsePrintLower(vals[i]);
      assert vals[start..end] == vals[start..i] + [vals[i]];
      if i > start && vals[i] == vals[i - 1] {
        ReadLevel(d, vals[start..i], '.');
      } else if oneBit {
        ReadLevel(d, vals[start..i], if vals[i] == 0 then '0' else '1');
      } else {
        ReadBox(d, vals[start..i], box, PrintLower(vals[i]), vals[i]);
      }
    }
  }

  /** Reads the text of a section. */
  function ReadText(t: Text): Option<seq<nat>> {
    Read(Drawn(t.wave, if t.names.None? then [] else PortMap.Split(t.names.value)))
  }

  lemma {:induction false} SplitOfJoined(names: seq<string>)
    requires forall n | n in names :: n != "" && PortMap.Plain(n)
    ensures PortMap.Split(Join(names)) == names
  {
    hide PortMap.Plain;
    if names != [] {
      var first := names[0];
      if |names| == 1 {
        PortMap.SplitWord(first, "");
        assert first + "" == first && names == [first];
      } else {
        assert forall n | n in names[1..] :: n in names;
        SplitOfJoined(names[1..]);
        var rest := " " + Join(names[1..]);
        PortMap.SplitWord(first, rest);
        assert first + rest == Join(names);
        assert rest[1..] == Join(names[1..]);
      }
    }
  }

  lemma {:induction false} NamesArePlain(vals: seq<nat>, start: nat, end: nat, oneBit: bool, box: char)
    requires start <= end <= |vals|
    ensures forall n | n in Draw(vals, start, end, oneBit, box).data :: n != "" && PortMap.Plain(n)
    decreases end - start
  {
    hide PortMap.Plain;
    if start < end {
      NamesArePlain(vals, start, end - 1, oneBit, box);
      PrintedIsPlain(vals[end - 1]);
    }
  }

  lemma {:induction false} PrintedIsPlain(n: nat)
    ensures PortMap.Plain(PrintLower(n))
  {
    if n >= 16 {
      PrintedIsPlain(n / 16);
    }
  }

  /** Reading the text that was drawn gives back exactly the samples of the section. */
  lemma ReadAfterDraw(vals: seq<nat>, start: nat, end: nat, oneBit: bool, box: char)
    requires start <= end <= |vals| && !IsLevel(box)
    requires oneBit ==> forall i | start <= i < end :: vals[i] < 2
    ensures ReadText(TextOf(Draw(vals, start, end, oneBit, box))) == Some(vals[start..end])
  {
    hide Read, Draw, Join, PortMap.Split;
    var d := Draw(vals, start, end, oneBit, box);
    ReadDrawn(vals, start, end, oneBit, box);
    NamesArePlain(vals, start, end, oneBit, box);
    SplitOfJoined(d.data);
    assert d == Drawn(d.wave, d.data);
  }

  lemma ReadNothing()
    ensures Read(Drawn("", [])) == Some([])
  {
  }

  /** Each sample has its symbol: a dot when the one before it in the section has the same value,
      else its level, or the box. */
  lemma {:induction false} SymbolAt(vals: seq<nat>, start: nat, end: nat, oneBit: bool, box: char, i: nat)
    requires start <= i < end <= |vals|
    ensures var wave := Draw(vals, start, end, oneBit, box).wave;
            && |wave| == end - start
            && wave[i - start] == if i > start && vals[i] == vals[i - 1] then '.'
                                  else if oneBit then (if vals[i] == 0 then '0' else '1') else box
    decreases end
  {
    if end - start > 1 {
      SymbolAt(vals, start, end - 1, oneBit, box, if i < end - 1 then i else start);
    }
  }

  /** A value of a one-bit probe is 0 or 1. */
  lemma OneBitValue(data: seq<byte>, bit: nat)
    ensures SliceValue(data, bit, bit).Some? ==> SliceValue(data, bit, bit).value < 2
  {
    LowBounds(Shr(Num(data), bit), 1);
  }

  // ---------- the section that is shown

  /** The first sample and the number of samples of the section around `center`, which counts
      from the trigger. */
  function Section(total: nat, trigger: int, center: int, count: nat): (int, nat) {
    var n := if total < count then total else count;
    var start := trigger + center - n / 2;
    if start < 0 then (0, n) else if start + n >= total then (total - n, n) else (start, n)
  }

  /** The section lies inside the capture, with as many samples as there are and are wanted; the
      wanted sample is in its middle, or else the section is at an end of the capture, and shows
      the wanted sample when there is one. */
  lemma SectionInside(total: nat, trigger: int, center: int, count: nat)
    ensures
      var (start, n) := Section(total, trigger, center, count);
      && 0 <= start <= start + n <= total && n <= count
      && (n == total || n == count)
      && (2 * (trigger + center - start) == n - n % 2 || start == 0 || start + n == total)
      && (n > 0 && 0 <= trigger + center < total ==> start <= trigger + center < start + n)
  {
  }
}
