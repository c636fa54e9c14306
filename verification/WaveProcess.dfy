/** Processing of an uploaded waveform, from raw bytes to output bytes. */
module WaveProcess {
  import opened BitArithmetic
  import opened WaveSamples
  import opened WaveUnroll
  import opened WaveData
  import opened Wrappers

  datatype Status = Done | EmptyData | MissingMark

  function Min(a: nat, b: nat): nat {
    if a < b then a else b
  }

  /** The bytes that hold whole samples. */
  function ValidBytes(length: nat, sampleBits: nat, sampleCount: nat, alignBits: nat): nat
    requires alignBits > 0
  {
    Min(length, AlignedBytes(alignBits, sampleBits) * sampleCount)
  }

  method CopyPrefix(data: array<byte>, n: nat) returns (out: array<byte>)
    requires n <= data.Length
    ensures fresh(out) && out[..] == data[..n]
  {
    out := new byte[n](i requires 0 <= i < n reads data => data[i]);
    assert forall i | 0 <= i < n :: out[i] == data[i];
  }

  /** Drops the alignment bytes of every sample, and everything after the last sample. */
  method AlignSamplesTo1Byte(data: array<byte>, sampleBits: nat, sampleCount: nat, alignBits: nat, ghost n: nat)
    returns (out: array<byte>)
    requires sampleBits > 0 && alignBits > 0 && alignBits % 8 == 0
    requires ValidBytes(data.Length, sampleBits, sampleCount, alignBits) == n * AlignedBytes(alignBits, sampleBits)
    modifies data
    ensures fresh(out)
    ensures PackedBytes(sampleBits) <= AlignedBytes(alignBits, sampleBits)
    ensures out[..] == Flat(TakeEach(Chop(old(data[..ValidBytes(data.Length, sampleBits, sampleCount, alignBits)]),
                                          AlignedBytes(alignBits, sampleBits), n),
                                     PackedBytes(sampleBits)))
  {
    PackedFits(alignBits, sampleBits);
    var inBytes, outBytes := AlignedBytes(alignBits, sampleBits), PackedBytes(sampleBits);
    var valid := Min(data.Length, inBytes * sampleCount);
    ghost var rs := Chop(data[..valid], inBytes, n);
    if inBytes == outBytes {
      out := CopyPrefix(data, valid);
      FlatChop(data[..valid], inBytes, n);
      TakeAll(rs, outBytes);
      return;
    }
    var to := KeepLowBytes(data, valid, inBytes, outBytes, n);
    out := CopyPrefix(data, to);
  }

  lemma {:induction false} TakeAll(ss: seq<Sample>, size: nat)
    requires AllOfSize(ss, size)
    ensures TakeEach(ss, size) == ss
  {
    var r := TakeEach(ss, size);
    assert forall i | 0 <= i < |ss| :: r[i] == ss[i][..size] == ss[i];
  }

  /** Unrolls all windows and drops the byte that holds only the trigger bit, if there is one. */
  method UnrollData(data: array<byte>, info: TraceInfo, ghost ss: seq<Sample>) returns (found: bool, out: array<byte>)
    requires data[..] == Flat(ss) && AllOfSize(ss, PackedBytes(info.dataWidth + 1))
    requires info.windowSize > 0 && WindowsHoldTrigger(|ss|, info)
    modifies data
    ensures out == data || fresh(out)
    ensures found <==> Wave(ss, info).Some?
    ensures found ==> out[..] == Flat(Wave(ss, info).value)
  {
    out := data;
    found := UnrollEveryWindow(data, info, ss);
    if !found {
      return;
    }
    ghost var r := UnrollWindows(ss, info).value;
    UnrolledOfSize(ss, info);
    var withTrigger, noTrigger := PackedBytes(info.dataWidth + 1), PackedBytes(info.dataWidth);
    if noTrigger == withTrigger {
      TakeAll(r, noTrigger);
      return;
    }
    FlatLength(r, withTrigger);
    ChopFlat(r, withTrigger);
    assert data[..data.Length] == data[..];
    var to := KeepLowBytes(data, data.Length, withTrigger, noTrigger, |r|);
    out := CopyPrefix(data, to);
  }

  lemma UnrolledOfSize(ss: seq<Sample>, info: TraceInfo)
    requires AllOfSize(ss, PackedBytes(info.dataWidth + 1)) && WindowsHoldTrigger(|ss|, info)
    ensures Wide(ss, info.dataWidth)
    ensures var r := UnrollWindows(ss, info);
            r.Some? ==> |r.value| == |ss| && AllOfSize(r.value, PackedBytes(info.dataWidth + 1))
  {
    SizedIsWide(ss, info.dataWidth);
    UnrollKeepsSize(ss, info);
  }

  lemma {:induction false} ChopFlat(ss: seq<Sample>, size: nat)
    requires AllOfSize(ss, size)
    ensures |Flat(ss)| == |ss| * size && Chop(Flat(ss), size, |ss|) == ss
  {
    FlatLength(ss, size);
    if ss != [] {
      ChopFlat(ss[1..], size);
      assert Flat(ss)[..size] == ss[0] && Flat(ss)[size..] == Flat(ss[1..]);
    }
  }

  /** The samples that the raw bytes hold. */
  ghost function RawSamples(raw: seq<byte>, info: TraceInfo, alignBits: nat, n: nat): seq<Sample>
    requires alignBits > 0
    requires ValidBytes(|raw|, info.dataWidth + 1, info.windowCount * info.windowSize, alignBits)
             == n * AlignedBytes(alignBits, info.dataWidth + 1)
  {
    Chop(raw[..ValidBytes(|raw|, info.dataWidth + 1, info.windowCount * info.windowSize, alignBits)],
         AlignedBytes(alignBits, info.dataWidth + 1), n)
  }

  /** Raw sample `i` is the `i`-th piece of the raw bytes, of which those beyond the windows are not used. */
  lemma RawSampleIs(raw: seq<byte>, info: TraceInfo, alignBits: nat, n: nat, i: nat, lo: nat)
    requires alignBits > 0 && i < n
    requires ValidBytes(|raw|, info.dataWidth + 1, info.windowCount * info.windowSize, alignBits)
             == n * AlignedBytes(alignBits, info.dataWidth + 1)
    requires lo == i * AlignedBytes(alignBits, info.dataWidth + 1)
    ensures var size := AlignedBytes(alignBits, info.dataWidth + 1);
            && lo + size <= |raw| && RawSamples(raw, info, alignBits, n)[i] == raw[lo..lo + size]
            && (n * size == |raw| || n * size == size * (info.windowCount * info.windowSize))
  {
    hide AlignedBytes;
    var size := AlignedBytes(alignBits, info.dataWidth + 1);
    ChopAt(raw[..n * size], size, n, i, lo);
  }

  /** The whole of it: `n` is the number of whole samples in the raw bytes. */
  method ProcessRawData(info: TraceInfo, raw: array<byte>, alignBits: nat, ghost n: nat)
    returns (status: Status, wave: array<byte>)
    requires alignBits > 0 && alignBits % 8 == 0 && info.windowSize > 0
    requires ValidBytes(raw.Length, info.dataWidth + 1, info.windowCount * info.windowSize, alignBits)
             == n * AlignedBytes(alignBits, info.dataWidth + 1)
    requires WindowsHoldTrigger(n, info)
    modifies raw
    ensures PackedBytes(info.dataWidth + 1) <= AlignedBytes(alignBits, info.dataWidth + 1)
    ensures status == EmptyData <==> raw.Length == 0
    ensures status != EmptyData ==>
              var ss := TakeEach(RawSamples(old(raw[..]), info, alignBits, n), PackedBytes(info.dataWidth + 1));
              var rs := RawSamples(old(raw[..]), info, alignBits, n);
              && (status == Done <==> Wave(ss, info).Some?)
              && (status == Done ==> wave[..] == Flat(Wave(ss, info).value))
              && Wide(rs, info.dataWidth) && (status == Done <==> EveryWindowHasMark(rs, info))
  {
    PackedFits(alignBits, info.dataWidth + 1);
    wave := raw;
    if raw.Length == 0 {
      return EmptyData, raw;
    }
    ghost var rs := RawSamples(raw[..], info, alignBits, n);
    var valid := ValidBytes(raw.Length, info.dataWidth + 1, info.windowCount * info.windowSize, alignBits);
    assert raw[..][..valid] == raw[..valid];
    ghost var ss := TakeEach(rs, PackedBytes(info.dataWidth + 1));
    var repacked := AlignSamplesTo1Byte(raw, info.dataWidth + 1, info.windowCount * info.windowSize, alignBits, n);
    var found;
    found, wave := UnrollData(repacked, info, ss);
    status := if found then Done else MissingMark;
    SucceedsExactly(rs, info);
  }

  /** There is an output exactly when every window of the raw samples has a trigger mark. */
  lemma SucceedsExactly(rs: seq<Sample>, info: TraceInfo)
    requires (forall s | s in rs :: PackedBytes(info.dataWidth + 1) <= |s|) && WindowsHoldTrigger(|rs|, info)
    ensures Wide(rs, info.dataWidth)
    ensures Wave(TakeEach(rs, PackedBytes(info.dataWidth + 1)), info).Some? <==> EveryWindowHasMark(rs, info)
  {
    hide TakeEach, FirstMark, Marked, WindowsHoldTrigger, EveryWindowHasMark, UnrollWindows;
    var ss := TakeEach(rs, PackedBytes(info.dataWidth + 1));
    SameMarks(rs, info, 0, 0);
    UnrollSucceedsExactly(ss, info);
    SameEveryWindow(rs, ss, info);
  }

  lemma SameEveryWindow(rs: seq<Sample>, ss: seq<Sample>, info: TraceInfo)
    requires |rs| == |ss| && Wide(rs, info.dataWidth) && Wide(ss, info.dataWidth)
    requires forall i | 0 <= i < |rs| :: Marked(rs[i], info.dataWidth) == Marked(ss[i], info.dataWidth)
    ensures EveryWindowHasMark(rs, info) <==> EveryWindowHasMark(ss, info)
  {
    hide Marked, Wide, Base, Limit;
    assert forall w: nat | Base(info, w) < |rs| :: HasMark(rs, info, w) <==> HasMark(ss, info, w);
  }

  // ---------- what the output bytes are

  /** The input sample for output sample `k` of the window lo..hi. */
  ghost function Source(ss: seq<Sample>, info: TraceInfo, lo: nat, hi: nat, k: nat): int
    requires Wide(ss, info.dataWidth) && lo <= hi <= |ss|
  {
    lo + Wrap(k + FirstMark(ss[lo..hi], info.dataWidth) - info.triggerPosition, hi - lo)
  }

  /** The window has a mark, and a trigger position. */
  ghost predicate HasTrigger(ss: seq<Sample>, info: TraceInfo, lo: nat, hi: nat)
    requires Wide(ss, info.dataWidth) && lo <= hi <= |ss|
  {
    info.triggerPosition < hi - lo && FirstMark(ss[lo..hi], info.dataWidth) < hi - lo
  }

  /** Output sample `k` of the window lo..hi of `r` comes from where it should in `ss`. */
  ghost predicate SampleFrom(ss: seq<Sample>, r: seq<Sample>, info: TraceInfo, lo: nat, hi: nat, k: nat)
    requires Wide(ss, info.dataWidth) && lo <= hi <= |ss|
  {
    var source := Source(ss, info, lo, hi, k);
    && |r| == |ss| && lo + k < hi && lo <= source < hi && HasTrigger(ss, info, lo, hi)
    && source == lo + (k + FirstMark(ss[lo..hi], info.dataWidth) - info.triggerPosition) % (hi - lo)
    && r[lo + k] == ss[source]
    && (k == info.triggerPosition ==> Marked(ss[source], info.dataWidth))
  }

  lemma UnrollsToIs(ws: seq<Sample>, out: seq<Sample>, info: TraceInfo)
    requires UnrollsTo(ws, out, info)
    ensures Wide(ws, info.dataWidth) && info.triggerPosition < |ws| && UnrollWindow(ws, info) == Some(out)
    ensures FirstMark(ws, info.dataWidth) < |ws|
  {
  }

  lemma WindowSample(ss: seq<Sample>, r: seq<Sample>, info: TraceInfo, lo: nat, hi: nat, k: nat)
    requires Wide(ss, info.dataWidth) && lo <= hi <= |ss| == |r| && k < hi - lo
    requires UnrollsTo(ss[lo..hi], r[lo..hi], info)
    ensures SampleFrom(ss, r, info, lo, hi, k)
  {
    hide FirstMark, Marked, Wide, UnrollWindow, UnrollsTo, Wrap;
    var ws := ss[lo..hi];
    UnrollsToIs(ws, r[lo..hi], info);
    UnrollWindowIsRotation(ws, info, k);
    var d := k + FirstMark(ws, info.dataWidth) - info.triggerPosition;
    WrapIsModulo(d, hi - lo);
    assert r[lo..hi][k] == r[lo + k];
    assert ws[Wrap(d, hi - lo)] == ss[lo + Wrap(d, hi - lo)];
  }

  lemma UnrolledSample(ss: seq<Sample>, info: TraceInfo, w: nat, k: nat)
    requires Wide(ss, info.dataWidth) && WindowsHoldTrigger(|ss|, info) && UnrollWindows(ss, info).Some?
    requires Base(info, w) < |ss| && k < Limit(|ss|, info, w) - Base(info, w)
    ensures SampleFrom(ss, UnrollWindows(ss, info).value, info, Base(info, w), Limit(|ss|, info, w), k)
  {
    hide Wide, UnrollWindows, SampleFrom, UnrollsTo, WindowsHoldTrigger;
    UnrollWindowsAt(ss, info, w);
    WindowSample(ss, UnrollWindows(ss, info).value, info, Base(info, w), Limit(|ss|, info, w), k);
  }

  lemma MarksKept(rs: seq<Sample>, ss: seq<Sample>, dataWidth: nat)
    requires |ss| == |rs| && forall i | 0 <= i < |rs| :: PackedBytes(dataWidth + 1) <= |rs[i]|
    requires forall i | 0 <= i < |rs| :: ss[i] == rs[i][..PackedBytes(dataWidth + 1)]
    ensures Wide(rs, dataWidth) && Wide(ss, dataWidth)
    ensures forall i | 0 <= i < |rs| :: Marked(rs[i], dataWidth) == Marked(ss[i], dataWidth)
  {
    hide Marked, PackedBytes;
    forall i | 0 <= i < |rs|
      ensures dataWidth / 8 < |ss[i]| && dataWidth / 8 < |rs[i]| && Marked(rs[i], dataWidth) == Marked(ss[i], dataWidth)
    {
      MarkKept(rs[i], dataWidth);
    }
  }

  lemma SameFirstMarkIn(rs: seq<Sample>, ss: seq<Sample>, dataWidth: nat, lo: nat, hi: nat)
    requires |ss| == |rs| && Wide(rs, dataWidth) && Wide(ss, dataWidth) && lo <= hi <= |rs|
    requires forall i | 0 <= i < |rs| :: Marked(rs[i], dataWidth) == Marked(ss[i], dataWidth)
    ensures FirstMark(rs[lo..hi], dataWidth) == FirstMark(ss[lo..hi], dataWidth)
  {
    hide FirstMark, Marked;
    SameFirstMark(rs[lo..hi], ss[lo..hi], dataWidth);
  }

  /** Dropping alignment bytes keeps the trigger column. */
  lemma SameMarks(rs: seq<Sample>, info: TraceInfo, lo: nat, hi: nat)
    requires lo <= hi <= |rs| && (forall s | s in rs :: PackedBytes(info.dataWidth + 1) <= |s|)
    ensures var ss := TakeEach(rs, PackedBytes(info.dataWidth + 1));
            && Wide(rs, info.dataWidth) && Wide(ss, info.dataWidth)
            && FirstMark(rs[lo..hi], info.dataWidth) == FirstMark(ss[lo..hi], info.dataWidth)
            && forall i | 0 <= i < |rs| :: Marked(rs[i], info.dataWidth) == Marked(ss[i], info.dataWidth)
  {
    hide TakeEach, FirstMark, Marked, PackedBytes, Wide;
    var ss := TakeEach(rs, PackedBytes(info.dataWidth + 1));
    MarksKept(rs, ss, info.dataWidth);
    SameFirstMarkIn(rs, ss, info.dataWidth, lo, hi);
  }

  lemma MarkKept(s: Sample, dataWidth: nat)
    requires PackedBytes(dataWidth + 1) <= |s|
    ensures dataWidth / 8 < PackedBytes(dataWidth + 1)
    ensures Marked(s, dataWidth) == Marked(s[..PackedBytes(dataWidth + 1)], dataWidth)
  {
  }

  lemma {:induction false} SameFirstMark(ws: seq<Sample>, vs: seq<Sample>, dataWidth: nat)
    requires |ws| == |vs| && Wide(ws, dataWidth) && Wide(vs, dataWidth)
    requires forall i | 0 <= i < |ws| :: Marked(ws[i], dataWidth) == Marked(vs[i], dataWidth)
    ensures FirstMark(ws, dataWidth) == FirstMark(vs, dataWidth)
  {
    hide Marked;
    if ws != [] {
      SameFirstMark(ws[1..], vs[1..], dataWidth);
    }
  }

  /** Output sample `k` of the window lo..hi is the source sample cut to its data bytes, so it
      has the source sample's data bits; the marked sample comes to the trigger position. */
  ghost predicate DataFrom(rs: seq<Sample>, out: seq<Sample>, info: TraceInfo, lo: nat, hi: nat, k: nat)
    requires Wide(rs, info.dataWidth) && lo <= hi <= |rs|
  {
    var source := Source(rs, info, lo, hi, k);
    && |out| == |rs| && lo + k < hi && lo <= source < hi && HasTrigger(rs, info, lo, hi)
    && source == lo + (k + FirstMark(rs[lo..hi], info.dataWidth) - info.triggerPosition) % (hi - lo)
    && PackedBytes(info.dataWidth) <= |rs[source]|
    && out[lo + k] == rs[source][..PackedBytes(info.dataWidth)]
    && (forall b | 0 <= b < info.dataWidth :: SampleBit(out[lo + k], b) == SampleBit(rs[source], b))
    && (k == info.triggerPosition ==> Marked(rs[source], info.dataWidth))
  }

  lemma SampleIsData(rs: seq<Sample>, ss: seq<Sample>, r: seq<Sample>, out: seq<Sample>, info: TraceInfo,
                     lo: nat, hi: nat, k: nat)
    requires Wide(rs, info.dataWidth) && Wide(ss, info.dataWidth) && lo <= hi <= |ss| == |rs|
    requires FirstMark(rs[lo..hi], info.dataWidth) == FirstMark(ss[lo..hi], info.dataWidth)
    requires forall i | 0 <= i < |rs| :: Marked(rs[i], info.dataWidth) == Marked(ss[i], info.dataWidth)
    requires forall i | 0 <= i < |rs| ::
               PackedBytes(info.dataWidth + 1) <= |rs[i]| && ss[i] == rs[i][..PackedBytes(info.dataWidth + 1)]
    requires |out| == |r| && forall i | 0 <= i < |r| ::
               PackedBytes(info.dataWidth) <= |r[i]| && out[i] == r[i][..PackedBytes(info.dataWidth)]
    requires SampleFrom(ss, r, info, lo, hi, k)
    ensures DataFrom(rs, out, info, lo, hi, k)
  {
    hide FirstMark, Marked, Wide;
    var source := Source(ss, info, lo, hi, k);
    assert source == Source(rs, info, lo, hi, k);
    assert out[lo + k] == ss[source][..PackedBytes(info.dataWidth)] == rs[source][..PackedBytes(info.dataWidth)];
  }

  /** Whether unrolling succeeds and gives `out`, for raw samples of `size` bytes. */
  ghost predicate Unrolled(rs: seq<Sample>, info: TraceInfo, size: nat, out: seq<Sample>) {
    && AllOfSize(rs, size) && PackedBytes(info.dataWidth + 1) <= size && WindowsHoldTrigger(|rs|, info)
    && Wave(TakeEach(rs, PackedBytes(info.dataWidth + 1)), info) == Some(out)
  }

  /** Sample `mark` is the first one from `lo` on with the trigger bit. */
  ghost predicate IsMark(rs: seq<Sample>, info: TraceInfo, lo: nat, mark: nat) {
    var (byteIndex, power) := (info.dataWidth / 8, Pow2(info.dataWidth % 8));
    && lo <= mark < |rs| && byteIndex < |rs[mark]| && rs[mark][byteIndex] / power % 2 == 1
    && forall i | lo <= i < mark :: byteIndex < |rs[i]| && rs[i][byteIndex] / power % 2 == 0
  }

  /** Output sample `k` of the window lo..hi is a raw sample of that window, cut to the bytes that
      hold data bits: the one that lies as far from the mark as `k` lies from the trigger
      position, around the window. */
  ghost predicate DataAt(rs: seq<Sample>, out: seq<Sample>, info: TraceInfo, lo: nat, hi: nat, k: nat, mark: nat) {
    && |out| == |rs| && lo + k < hi <= |rs|
    && var source := lo + (k + mark - lo - info.triggerPosition) % (hi - lo);
       && lo <= source < hi && (info.dataWidth + 7) / 8 <= |rs[source]|
       && out[lo + k] == rs[source][..(info.dataWidth + 7) / 8]
       && (k == info.triggerPosition ==> source == mark)
  }

  /** Every output sample of every window comes from the raw sample that it should: window `w`
      begins at `w` times the window size, and ends a window size later or with the data. */
  lemma OutputIsData(rs: seq<Sample>, info: TraceInfo, size: nat, out: seq<Sample>, w: nat, lo: nat, hi: nat, k: nat)
    returns (mark: nat)
    requires Unrolled(rs, info, size, out)
    requires lo == w * info.windowSize && hi == Min(lo + info.windowSize, |rs|) && lo + k < hi
    ensures mark < hi && IsMark(rs, info, lo, mark) && DataAt(rs, out, info, lo, hi, k, mark)
  {
    hide Unrolled, Wide, DataFrom, Limit, Base, IsMark, DataAt;
    BaseIsProduct(info, w);
    LimitIs(|rs|, info, w);
    OutputFrom(rs, info, size, out, w, k);
    mark := DataFromIs(rs, out, info, lo, hi, k);
  }

  lemma LimitIs(count: nat, info: TraceInfo, w: nat)
    requires Base(info, w) < count
    ensures Limit(count, info, w) ==
            if Base(info, w) + info.windowSize <= count then Base(info, w) + info.windowSize else count
  {
    hide Base;
  }

  lemma DataFromIs(rs: seq<Sample>, out: seq<Sample>, info: TraceInfo, lo: nat, hi: nat, k: nat) returns (mark: nat)
    requires Wide(rs, info.dataWidth) && lo <= hi <= |rs| && DataFrom(rs, out, info, lo, hi, k)
    ensures mark < hi && IsMark(rs, info, lo, mark) && DataAt(rs, out, info, lo, hi, k, mark)
  {
    hide SampleBit, Wrap, FirstMark, Marked, IsMark;
    var first := FirstMark(rs[lo..hi], info.dataWidth);
    mark := lo + first;
    FirstMarkIn(rs, info, lo, hi);
    assert k + mark - lo - info.triggerPosition == k + first - info.triggerPosition;
    if k == info.triggerPosition {
      DivModUnique(first, hi - lo, 0, first);
    }
  }

  lemma FirstMarkIn(rs: seq<Sample>, info: TraceInfo, lo: nat, hi: nat)
    requires Wide(rs, info.dataWidth) && lo <= hi <= |rs| && HasTrigger(rs, info, lo, hi)
    ensures IsMark(rs, info, lo, lo + FirstMark(rs[lo..hi], info.dataWidth))
  {
    var ws, mark := rs[lo..hi], FirstMark(rs[lo..hi], info.dataWidth);
    assert forall i | 0 <= i < |ws| :: ws[i] == rs[lo + i];
    assert Marked(ws[mark], info.dataWidth);
    forall i | lo <= i < lo + mark ensures !SampleBit(rs[i], info.dataWidth) && info.dataWidth / 8 < |rs[i]| {
      assert !Marked(ws[i - lo], info.dataWidth);
    }
  }

  lemma OutputFrom(rs: seq<Sample>, info: TraceInfo, size: nat, out: seq<Sample>, w: nat, k: nat)
    requires Unrolled(rs, info, size, out)
    ensures Wide(rs, info.dataWidth)
    ensures Base(info, w) < |rs| && k < Limit(|rs|, info, w) - Base(info, w) ==>
              DataFrom(rs, out, info, Base(info, w), Limit(|rs|, info, w), k)
  {
    hide Wave, Wide, UnrollWindows, SampleFrom, DataFrom, FirstMark, Marked, WindowsHoldTrigger, TakeEach;
    var ss, r, out' := OutputStages(rs, info, size);
    SameMarks(rs, info, 0, 0);
    if Base(info, w) < |rs| && k < Limit(|rs|, info, w) - Base(info, w) {
      SameMarks(rs, info, Base(info, w), Limit(|rs|, info, w));
      UnrolledSample(ss, info, w, k);
      hide Base, Limit;
      SampleIsData(rs, ss, r, out, info, Base(info, w), Limit(|rs|, info, w), k);
    }
  }

  lemma OutputStages(rs: seq<Sample>, info: TraceInfo, size: nat)
    returns (ss: seq<Sample>, r: seq<Sample>, out: seq<Sample>)
    requires AllOfSize(rs, size) && PackedBytes(info.dataWidth + 1) <= size
    requires WindowsHoldTrigger(|rs|, info) && Wave(TakeEach(rs, PackedBytes(info.dataWidth + 1)), info).Some?
    ensures ss == TakeEach(rs, PackedBytes(info.dataWidth + 1)) && Wide(ss, info.dataWidth) && |ss| == |rs|
    ensures UnrollWindows(ss, info) == Some(r) && Wave(ss, info) == Some(out) && |out| == |r|
    ensures forall i | 0 <= i < |rs| ::
              PackedBytes(info.dataWidth + 1) <= |rs[i]| && ss[i] == rs[i][..PackedBytes(info.dataWidth + 1)]
    ensures forall i | 0 <= i < |r| ::
              PackedBytes(info.dataWidth) <= |r[i]| && out[i] == r[i][..PackedBytes(info.dataWidth)]
  {
    ss := TakeEach(rs, PackedBytes(info.dataWidth + 1));
    UnrolledOfSize(ss, info);
    r := UnrollWindows(ss, info).value;
    out := Wave(ss, info).value;
    hide UnrollWindows, WindowsHoldTrigger;
    assert forall i | 0 <= i < |rs| :: rs[i] in rs;
    assert forall i | 0 <= i < |r| :: r[i] in r;
  }

  /** Although the trigger bit is said to be removed, it stays set in the trigger sample of the
      output exactly when it shares a byte with data bits. */
  lemma TriggerBitStays(rs: seq<Sample>, info: TraceInfo, size: nat, out: seq<Sample>, w: nat)
    requires Unrolled(rs, info, size, out)
    ensures Base(info, w) < |rs| && info.triggerPosition < Limit(|rs|, info, w) - Base(info, w) ==>
              var k := Base(info, w) + info.triggerPosition;
              && k < |out|
              && (info.dataWidth / 8 < |out[k]| <==> info.dataWidth % 8 != 0)
              && (info.dataWidth % 8 != 0 ==> SampleBit(out[k], info.dataWidth))
  {
    hide Wave, UnrollWindows, WindowsHoldTrigger, TakeEach, Base, Limit, FirstMark, Unrolled;
    OutputFrom(rs, info, size, out, w, info.triggerPosition);
  }

  const ONE_SAMPLE := TraceInfo(1, 0, 1, 1, 0)

  lemma OneSampleMarked()
    ensures Marked([3], 1) && SampleBit([3], 1)
  {
    assert BitArithmetic.Pow2(1) == 2;
  }

  /** One sample of one data bit: in the output, its second bit is still the trigger bit. */
  lemma TriggerBitInOutput()
    ensures Unrolled([[3]], ONE_SAMPLE, 1, [[3]]) && SampleBit([3], ONE_SAMPLE.dataWidth)
  {
    OneSampleMarked();
    hide Marked, SampleBit;
    var rs: seq<Sample> := [[3]];
    TakeAll(rs, 1);
    assert PackedBytes(1) == PackedBytes(2) == 1;
    assert rs[..1] == rs && rs[1..] == [];
    assert FirstMark(rs, 1) == 0;
    assert UnrollWindow(rs, ONE_SAMPLE) == Some(rs[0..] + rs[..0]) == Some(rs);
    assert UnrollWindows([], ONE_SAMPLE) == Some([]);
    assert rs + [] == rs;
    assert UnrollWindows(rs, ONE_SAMPLE) == Some(rs);
  }

  /** `calculate_raw_data_upload_byte_count`: the bytes of one sample, and of all windows. */
  function UploadByteCount(info: TraceInfo, alignBits: nat): (nat, nat)
    requires alignBits > 0
  {
    var sample := alignBits / 8 * ((info.dataWidth + 1 + alignBits - 1) / alignBits);
    (sample, sample * info.windowSize * info.windowCount)
  }

  lemma {:induction false} WholeWindowsHoldTrigger(info: TraceInfo, windows: nat)
    requires info.triggerPosition < info.windowSize
    ensures WindowsHoldTrigger(windows * info.windowSize, info)
  {
    if windows > 0 {
      WholeWindowsHoldTrigger(info, windows - 1);
      assert windows * info.windowSize == info.windowSize + (windows - 1) * info.windowSize;
    }
  }

  /** An upload of the size that the client asks for is what processing needs: whole samples, in
      whole windows, which hold the trigger position. */
  lemma UploadHoldsTrigger(info: TraceInfo, alignBits: nat)
    requires info.triggerPosition < info.windowSize && alignBits > 0 && alignBits % 8 == 0
    ensures
      var (sample, total) := UploadByteCount(info, alignBits);
      var n := info.windowCount * info.windowSize;
      && sample == AlignedBytes(alignBits, info.dataWidth + 1)
      && ValidBytes(total, info.dataWidth + 1, n, alignBits) == total == n * sample
      && WindowsHoldTrigger(n, info)
  {
    WholeWindowsHoldTrigger(info, info.windowCount);
    hide WindowsHoldTrigger;
    var sample := UploadByteCount(info, alignBits).0;
    MulSwap(alignBits / 8, (info.dataWidth + 1 + alignBits - 1) / alignBits);
    MulThree(sample, info.windowSize, info.windowCount);
  }

  // ---------- partial windows

  /** `calculate_trace_info_captured`: keeps a partial window when it holds its trigger. */
  function Captured(info: TraceInfo, isFull: bool, windowsCaptured: nat, samplesCaptured: nat): TraceInfo
    requires info.windowSize > 0
  {
    if isFull then info
    else
      var last := samplesCaptured % info.windowSize;
      if last > info.triggerPosition then info.(windowCount := windowsCaptured + 1, partialCount := last)
      else info.(windowCount := windowsCaptured, partialCount := 0)
  }

  /** The number of samples that a waveform is said to have. */
  function SampleCount(info: TraceInfo): int {
    info.windowSize * (if info.partialCount != 0 then info.windowCount - 1 else info.windowCount) + info.partialCount
  }

  /** A partial window lacks a sample, and has its trigger. */
  ghost predicate PartialIsPart(info: TraceInfo) {
    info.partialCount > 0 ==> info.windowCount > 0 && info.triggerPosition < info.partialCount < info.windowSize
  }

  lemma CapturedKeepsTrigger(info: TraceInfo, isFull: bool, windowsCaptured: nat, samplesCaptured: nat)
    requires info.windowSize > 0 && info.partialCount == 0
    ensures isFull ==> Captured(info, isFull, windowsCaptured, samplesCaptured) == info
    ensures var r := Captured(info, isFull, windowsCaptured, samplesCaptured);
            && PartialIsPart(r) && r.dataWidth == info.dataWidth
            && r.triggerPosition == info.triggerPosition && r.windowSize == info.windowSize
    ensures !isFull ==>
              SampleCount(Captured(info, isFull, windowsCaptured, samplesCaptured)) ==
              windowsCaptured * info.windowSize +
              (if samplesCaptured % info.windowSize > info.triggerPosition then samplesCaptured % info.windowSize else 0)
  {
  }

  /** Processing an upload of the size that the client asks for gives all samples of all windows,
      so just the captured ones if and only if no window is partial; the rest of a partial window
      stays in the output. */
  lemma PartialWindowStays(rs: seq<Sample>, info: TraceInfo, size: nat, out: seq<Sample>)
    requires Unrolled(rs, info, size, out) && PartialIsPart(info)
    requires |rs| == info.windowCount * info.windowSize
    ensures |out| == |rs|
    ensures |out| == SampleCount(info) <==> info.partialCount == 0
    ensures info.partialCount > 0 ==> |out| == SampleCount(info) + (info.windowSize - info.partialCount)
  {
    hide Wave, UnrollWindows, WindowsHoldTrigger, TakeEach, Wide;
    var ss, r, out' := OutputStages(rs, info, size);
    UnrolledLength(ss, info);
    AllButOne(info.windowSize, info.windowCount);
  }

  lemma UnrolledLength(ss: seq<Sample>, info: TraceInfo)
    requires Wide(ss, info.dataWidth) && WindowsHoldTrigger(|ss|, info) && UnrollWindows(ss, info).Some?
    ensures |UnrollWindows(ss, info).value| == |ss|
  {
    UnrollKeepsSize(ss, info);
  }

  lemma AllButOne(size: nat, count: nat)
    ensures count * size == size * count == size * (count - 1) + size
  {
  }

  const ONE_OF_TWO := TraceInfo(1, 0, 1, 2, 1)

  /** One window of two samples, one of which was captured: the output has both. */
  lemma PartialWindowInOutput()
    ensures Captured(ONE_OF_TWO.(partialCount := 0), false, 0, 1) == ONE_OF_TWO && SampleCount(ONE_OF_TWO) == 1
    ensures Unrolled([[3], [0]], ONE_OF_TWO, 1, [[3], [0]])
  {
    OneSampleMarked();
    hide Marked, SampleBit;
    var rs: seq<Sample> := [[3], [0]];
    TakeAll(rs, 1);
    assert PackedBytes(1) == PackedBytes(2) == 1;
    assert rs[..2] == rs && rs[2..] == [];
    assert FirstMark(rs, 1) == 0;
    assert rs[0..] + rs[..0] == rs;
    assert UnrollWindow(rs, ONE_OF_TWO) == Some(rs);
    assert UnrollWindows([], ONE_OF_TWO) == Some([]);
    assert rs + [] == rs;
    assert UnrollWindows(rs, ONE_OF_TWO) == Some(rs);
  }

  lemma MulSwap(a: nat, b: nat)
    ensures a * b == b * a
  {
  }

  lemma MulThree(a: nat, b: nat, c: nat)
    ensures a * b * c == (c * b) * a == a * (c * b)
  {
  }
}
