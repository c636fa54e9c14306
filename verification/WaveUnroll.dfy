/** Properties of unrolling: where each output sample comes from, and when there is one. */
module WaveUnroll {
  import opened BitArithmetic
  import opened WaveSamples
  import opened Wrappers

  /** `x` brought into 0..n by at most one turn. */
  function Wrap(x: int, n: int): int {
    if x < 0 then x + n else if x < n then x else x - n
  }

  lemma WrapIsModulo(x: int, n: int)
    requires n > 0 && -n <= x < 2 * n
    ensures Wrap(x, n) == x % n
  {
    DivModUnique(x, n, if x < 0 then -1 else if x < n then 0 else 1, Wrap(x, n));
  }

  /** Output sample `k` of a window is input sample `k + mark - triggerPosition`, wrapped around
      the window; the first marked sample comes to the trigger position. */
  lemma UnrollWindowIsRotation(ws: seq<Sample>, info: TraceInfo, k: nat)
    requires Wide(ws, info.dataWidth)
    requires info.triggerPosition < |ws| && k < |ws|
    requires UnrollWindow(ws, info).Some?
    ensures var r, mark := UnrollWindow(ws, info).value, FirstMark(ws, info.dataWidth);
            && |r| == |ws|
            && r[k] == ws[Wrap(k + mark - info.triggerPosition, |ws|)]
            && r[info.triggerPosition] == ws[mark] && Marked(ws[mark], info.dataWidth)
  {
    hide Marked, FirstMark;
    var mark := FirstMark(ws, info.dataWidth);
    var start := Rotation(mark, info.triggerPosition, |ws|);
    assert UnrollWindow(ws, info).value == ws[start..] + ws[..start];
  }

  /** Unrolling loses and invents no sample. */
  lemma {:induction false} UnrollPermutes(ss: seq<Sample>, info: TraceInfo)
    requires Wide(ss, info.dataWidth)
    requires WindowsHoldTrigger(|ss|, info) && UnrollWindows(ss, info).Some?
    ensures multiset(UnrollWindows(ss, info).value) == multiset(ss)
    decreases |ss|
  {
    if ss != [] {
      var n := WindowLength(|ss|, info);
      var ws := ss[..n];
      var start := Rotation(FirstMark(ws, info.dataWidth), info.triggerPosition, n);
      assert ws == ws[..start] + ws[start..];
      assert ss == ss[..n] + ss[n..];
      UnrollPermutes(ss[n..], info);
    }
  }

  /** Where window `w` starts. */
  function Base(info: TraceInfo, w: nat): nat {
    if w == 0 then 0 else info.windowSize + Base(info, w - 1)
  }

  lemma {:induction false} BaseIsProduct(info: TraceInfo, w: nat)
    ensures Base(info, w) == w * info.windowSize
  {
    if w != 0 {
      BaseIsProduct(info, w - 1);
    }
  }

  /** Where window `w` ends. */
  function Limit(count: nat, info: TraceInfo, w: nat): (hi: nat)
    requires Base(info, w) < count
    ensures hi <= count
  {
    Base(info, w) + WindowLength(count - Base(info, w), info)
  }

  ghost predicate UnrollsTo(ws: seq<Sample>, out: seq<Sample>, info: TraceInfo) {
    && Wide(ws, info.dataWidth) && info.triggerPosition < |ws|
    && UnrollWindow(ws, info) == Some(out)
  }

  lemma UnrollSplit(ss: seq<Sample>, info: TraceInfo)
    requires Wide(ss, info.dataWidth) && ss != []
    requires WindowsHoldTrigger(|ss|, info) && UnrollWindows(ss, info).Some?
    ensures var n, r := WindowLength(|ss|, info), UnrollWindows(ss, info).value;
            && |r| == |ss| && UnrollsTo(ss[..n], r[..n], info)
            && UnrollWindows(ss[n..], info) == Some(r[n..])
  {
    UnrollKeepsSize(ss, info);
    var n, r := WindowLength(|ss|, info), UnrollWindows(ss, info).value;
    var first := UnrollWindow(ss[..n], info).value;
    assert r[..n] == first && r[n..] == UnrollWindows(ss[n..], info).value;
  }

  lemma WideSuffix(ss: seq<Sample>, dataWidth: nat)
    requires Wide(ss, dataWidth)
    ensures forall n | 0 <= n <= |ss| :: Wide(ss[n..], dataWidth)
  {
  }

  /** From the start of any window on, unrolling is unrolling of the rest. */
  lemma {:induction false} UnrollFrom(ss: seq<Sample>, info: TraceInfo, w: nat)
    requires Wide(ss, info.dataWidth)
    requires WindowsHoldTrigger(|ss|, info) && UnrollWindows(ss, info).Some?
    requires Base(info, w) < |ss|
    ensures |UnrollWindows(ss, info).value| == |ss|
    ensures var lo := Base(info, w);
            && WindowsHoldTrigger(|ss| - lo, info)
            && UnrollWindows(ss[lo..], info) == Some(UnrollWindows(ss, info).value[lo..])
  {
    hide UnrollWindows, UnrollsTo, Wide;
    UnrollKeepsSize(ss, info);
    WideSuffix(ss, info.dataWidth);
    var r := UnrollWindows(ss, info).value;
    if w == 0 {
      assert ss[0..] == ss && r[0..] == r;
    } else {
      UnrollFrom(ss, info, w - 1);
      var lo := Base(info, w - 1);
      UnrollSplit(ss[lo..], info);
      assert ss[lo..][info.windowSize..] == ss[lo + info.windowSize..];
      assert r[lo..][info.windowSize..] == r[lo + info.windowSize..];
    }
  }

  /** Every window is unrolled on its own. */
  lemma UnrollWindowsAt(ss: seq<Sample>, info: TraceInfo, w: nat)
    requires Wide(ss, info.dataWidth)
    requires WindowsHoldTrigger(|ss|, info) && UnrollWindows(ss, info).Some?
    requires Base(info, w) < |ss|
    ensures |UnrollWindows(ss, info).value| == |ss|
    ensures var lo, hi := Base(info, w), Limit(|ss|, info, w);
            UnrollsTo(ss[lo..hi], UnrollWindows(ss, info).value[lo..hi], info)
  {
    hide UnrollWindows, UnrollsTo, Wide;
    WideSuffix(ss, info.dataWidth);
    UnrollFrom(ss, info, w);
    var lo, hi, r := Base(info, w), Limit(|ss|, info, w), UnrollWindows(ss, info).value;
    UnrollSplit(ss[lo..], info);
    assert ss[lo..][..hi - lo] == ss[lo..hi] && r[lo..][..hi - lo] == r[lo..hi];
  }

  ghost predicate HasMark(ss: seq<Sample>, info: TraceInfo, w: nat)
    requires Wide(ss, info.dataWidth)
    requires Base(info, w) < |ss|
  {
    exists i | Base(info, w) <= i < Limit(|ss|, info, w) :: Marked(ss[i], info.dataWidth)
  }

  ghost predicate EveryWindowHasMark(ss: seq<Sample>, info: TraceInfo)
    requires Wide(ss, info.dataWidth)
  {
    forall w: nat | Base(info, w) < |ss| :: HasMark(ss, info, w)
  }

  /** The windows of the samples after the first window. */
  lemma ShiftWindow(ss: seq<Sample>, info: TraceInfo, w: nat)
    requires Wide(ss, info.dataWidth)
    requires ss != [] && Base(info, w) < |ss| - WindowLength(|ss|, info)
    ensures Base(info, w + 1) < |ss|
    ensures HasMark(ss[WindowLength(|ss|, info)..], info, w) <==> HasMark(ss, info, w + 1)
  {
    var n := WindowLength(|ss|, info);
    var rest := ss[n..];
    var lo, hi := Base(info, w), Limit(|rest|, info, w);
    assert Base(info, w + 1) == lo + n && Limit(|ss|, info, w + 1) == hi + n;
    assert forall i | lo <= i < hi :: rest[i] == ss[i + n];
    assert forall i | lo + n <= i < hi + n :: ss[i] == rest[i - n];
  }

  lemma FirstWindowMarked(ss: seq<Sample>, info: TraceInfo)
    requires Wide(ss, info.dataWidth)
    requires ss != [] && WindowsHoldTrigger(|ss|, info)
    ensures UnrollWindows(ss, info).Some? <==>
            HasMark(ss, info, 0) && UnrollWindows(ss[WindowLength(|ss|, info)..], info).Some?
  {
    var ws := ss[..WindowLength(|ss|, info)];
    assert forall i | 0 <= i < |ws| :: ws[i] == ss[i];
  }

  lemma EveryWindowSplit(ss: seq<Sample>, info: TraceInfo)
    requires Wide(ss, info.dataWidth) && ss != []
    ensures Base(info, 0) < |ss|
    ensures EveryWindowHasMark(ss, info) <==>
            HasMark(ss, info, 0) && EveryWindowHasMark(ss[WindowLength(|ss|, info)..], info)
  {
    hide HasMark;
    var rest := ss[WindowLength(|ss|, info)..];
    assert Base(info, 0) < |ss|;
    if EveryWindowHasMark(rest, info) && HasMark(ss, info, 0) {
      forall w: nat | Base(info, w) < |ss| ensures HasMark(ss, info, w) {
        if w > 0 {
          ShiftWindow(ss, info, w - 1);
        }
      }
    }
    if EveryWindowHasMark(ss, info) {
      forall w: nat | Base(info, w) < |rest| ensures HasMark(rest, info, w) {
        ShiftWindow(ss, info, w);
      }
    }
  }

  /** Unrolling succeeds exactly when every window has a marked sample. */
  lemma {:induction false} UnrollSucceedsExactly(ss: seq<Sample>, info: TraceInfo)
    requires Wide(ss, info.dataWidth) && WindowsHoldTrigger(|ss|, info)
    ensures UnrollWindows(ss, info).Some? <==> EveryWindowHasMark(ss, info)
    decreases |ss|
  {
    if ss != [] {
      UnrollSucceedsExactly(ss[WindowLength(|ss|, info)..], info);
      FirstWindowMarked(ss, info);
      EveryWindowSplit(ss, info);
    }
  }
}
