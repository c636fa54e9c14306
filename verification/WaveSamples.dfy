/** What an uploaded waveform means, sample by sample, and how samples lie in bytes. */
module WaveSamples {
  import BitArithmetic
  import opened Wrappers

  type Sample = seq<byte>

  /** `triggerPosition` is the index, within its window, at which the trigger sample goes;
      `partialCount` is the number of samples of a partial last window, which `windowCount`
      includes, or zero. */
  datatype TraceInfo =
    TraceInfo(dataWidth: nat, triggerPosition: nat, windowCount: nat, windowSize: nat, partialCount: nat)

  /** Bit `k` of a sample; samples are little-endian. */
  predicate SampleBit(s: Sample, k: nat)
    requires k / 8 < |s|
  {
    s[k / 8] / BitArithmetic.Pow2(k % 8) % 2 == 1
  }

  // ---------- samples in bytes

  predicate AllOfSize(ss: seq<Sample>, size: nat) {
    forall s | s in ss :: |s| == size
  }

  /** The samples one after the other. */
  function Flat(ss: seq<Sample>): seq<byte> {
    if ss == [] then [] else ss[0] + Flat(ss[1..])
  }

  /** The `n` samples of `size` bytes that lie in `data`. */
  function Chop(data: seq<byte>, size: nat, n: nat): (ss: seq<Sample>)
    requires |data| == n * size
    ensures AllOfSize(ss, size) && |ss| == n
  {
    if n == 0 then []
    else
      assert n * size == size + (n - 1) * size;
      [data[..size]] + Chop(data[size..], size, n - 1)
  }

  lemma ChopStep(data: seq<byte>, size: nat, n: nat)
    requires |data| == n * size && n > 0
    ensures size <= |data| && |data[size..]| == (n - 1) * size
    ensures Chop(data, size, n) == [data[..size]] + Chop(data[size..], size, n - 1)
  {
    MulNext(n - 1, size);
  }

  lemma MulNext(n: nat, size: nat)
    ensures (n + 1) * size == n * size + size
  {
  }

  lemma {:induction false} FlatLength(ss: seq<Sample>, size: nat)
    requires AllOfSize(ss, size)
    ensures |Flat(ss)| == |ss| * size
  {
    if ss != [] {
      FlatLength(ss[1..], size);
      MulNext(|ss[1..]|, size);
    }
  }

  lemma FlatIs(ss: seq<Sample>)
    ensures Flat(ss) == if ss == [] then [] else ss[0] + Flat(ss[1..])
  {
  }

  lemma {:induction false} FlatConcat(a: seq<Sample>, b: seq<Sample>)
    ensures Flat(a + b) == Flat(a) + Flat(b)
  {
    hide Flat;
    if a == [] {
      assert a + b == b;
      FlatIs(a);
    } else {
      FlatConcat(a[1..], b);
      FlatIs(a);
      FlatIs(a + b);
      assert (a + b)[1..] == a[1..] + b;
      assert a[0] + (Flat(a[1..]) + Flat(b)) == (a[0] + Flat(a[1..])) + Flat(b);
    }
  }

  /** Cutting bytes at a sample boundary cuts the samples. */
  lemma FlatCut(ss: seq<Sample>, size: nat, k: nat)
    requires AllOfSize(ss, size) && k <= |ss|
    ensures k * size <= |Flat(ss)|
    ensures Flat(ss)[..k * size] == Flat(ss[..k]) && Flat(ss)[k * size..] == Flat(ss[k..])
  {
    assert ss == ss[..k] + ss[k..];
    FlatConcat(ss[..k], ss[k..]);
    assert AllOfSize(ss[..k], size);
    FlatLength(ss[..k], size);
  }

  lemma FlatAt(ss: seq<Sample>, size: nat, k: nat, j: nat)
    requires AllOfSize(ss, size) && k < |ss| && j < size
    ensures k * size + j < |Flat(ss)| && Flat(ss)[k * size + j] == ss[k][j]
  {
    FlatCut(ss, size, k);
    assert Flat(ss[k..]) == ss[k] + Flat(ss[k..][1..]);
    assert Flat(ss)[k * size..][j] == ss[k][j];
  }

  lemma {:induction false} FlatChop(data: seq<byte>, size: nat, n: nat)
    requires |data| == n * size
    ensures Flat(Chop(data, size, n)) == data
  {
    if n != 0 {
      assert n * size == size + (n - 1) * size;
      FlatChop(data[size..], size, n - 1);
    }
  }

  /** The first `n` bytes of every sample. */
  function TakeEach(ss: seq<Sample>, n: nat): (r: seq<Sample>)
    requires forall s | s in ss :: n <= |s|
    ensures AllOfSize(r, n) && |r| == |ss| && forall i | 0 <= i < |r| :: r[i] == ss[i][..n]
  {
    if ss == [] then [] else [ss[0][..n]] + TakeEach(ss[1..], n)
  }

  // ---------- unrolling

  predicate Marked(s: Sample, dataWidth: nat)
    requires dataWidth / 8 < |s|
  {
    SampleBit(s, dataWidth)
  }

  /** Every sample has a trigger bit. */
  predicate Wide(ss: seq<Sample>, dataWidth: nat) {
    forall i | 0 <= i < |ss| :: dataWidth / 8 < |ss[i]|
  }

  /** The index of the first sample with the trigger mark, or the length. */
  function FirstMark(ws: seq<Sample>, dataWidth: nat): (m: nat)
    requires Wide(ws, dataWidth)
    ensures m <= |ws| && (forall i | 0 <= i < m :: !Marked(ws[i], dataWidth))
    ensures m < |ws| ==> Marked(ws[m], dataWidth)
  {
    if ws == [] || Marked(ws[0], dataWidth) then 0 else 1 + FirstMark(ws[1..], dataWidth)
  }

  function Rotation(mark: nat, triggerPosition: nat, count: nat): (start: nat)
    requires mark < count && triggerPosition < count
    ensures start < count
  {
    if mark < triggerPosition then mark - triggerPosition + count else mark - triggerPosition
  }

  /** One window: rotated so that the first marked sample comes to the trigger position. */
  function UnrollWindow(ws: seq<Sample>, info: TraceInfo): Option<seq<Sample>>
    requires Wide(ws, info.dataWidth)
    requires info.triggerPosition < |ws|
  {
    var mark := FirstMark(ws, info.dataWidth);
    if mark == |ws| then None
    else
      var start := Rotation(mark, info.triggerPosition, |ws|);
      Some(ws[start..] + ws[..start])
  }

  /** Windows are full, except that the last one may be shorter. */
  function WindowLength(count: nat, info: TraceInfo): nat {
    if info.windowSize <= count then info.windowSize else count
  }

  /** Every window, also a shorter last one, has a sample at the trigger position. */
  predicate WindowsHoldTrigger(count: nat, info: TraceInfo) {
    count > 0 ==>
      && info.triggerPosition < WindowLength(count, info)
      && WindowsHoldTrigger(count - WindowLength(count, info), info)
  }

  function UnrollWindows(ss: seq<Sample>, info: TraceInfo): Option<seq<Sample>>
    requires Wide(ss, info.dataWidth)
    requires WindowsHoldTrigger(|ss|, info)
    decreases |ss|
  {
    if ss == [] then Some([])
    else
      var n := WindowLength(|ss|, info);
      match UnrollWindow(ss[..n], info)
      case None => None
      case Some(w) =>
        match UnrollWindows(ss[n..], info)
        case None => None
        case Some(rest) => Some(w + rest)
  }

  /** The result: unrolled samples, without the bytes that hold nothing but the trigger column. */
  function Wave(ss: seq<Sample>, info: TraceInfo): Option<seq<Sample>>
    requires AllOfSize(ss, PackedBytes(info.dataWidth + 1)) && WindowsHoldTrigger(|ss|, info)
  {
    match UnrollWindows(ss, info)
    case None => None
    case Some(r) => UnrollKeepsSize(ss, info); Some(TakeEach(r, PackedBytes(info.dataWidth)))
  }

  function PackedBytes(bits: nat): nat {
    (bits + 7) / 8
  }

  lemma {:induction false} UnrollKeepsSize(ss: seq<Sample>, info: TraceInfo)
    requires Wide(ss, info.dataWidth)
    requires WindowsHoldTrigger(|ss|, info)
    ensures var r := UnrollWindows(ss, info);
            r.Some? ==> |r.value| == |ss| && forall s | s in r.value :: s in ss
    decreases |ss|
  {
    if ss != [] {
      var n := WindowLength(|ss|, info);
      assert ss == ss[..n] + ss[n..];
      UnrollKeepsSize(ss[n..], info);
    }
  }
}
