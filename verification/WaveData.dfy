/** The byte-level code: in-place compaction, in-place rotation of windows, and removal of the
    trigger column, tied to the sample-level functions. */
module WaveData {
  import opened BitArithmetic
  import opened WaveSamples
  import opened WaveUnroll
  import opened Wrappers

  /** Bytes that a sample occupies when samples are aligned on `alignBits`. */
  function AlignedBytes(alignBits: nat, bits: nat): nat
    requires alignBits > 0
  {
    ((bits + alignBits - 1) / alignBits) * (alignBits / 8)
  }

  /** A raw sample takes the least whole number of alignment units that holds its bits. */
  lemma AlignedIsLeast(alignBits: nat, bits: nat) returns (units: nat)
    requires alignBits > 0 && alignBits % 8 == 0 && bits > 0
    ensures AlignedBytes(alignBits, bits) == units * (alignBits / 8)
    ensures (units - 1) * alignBits < bits <= units * alignBits
  {
    units := (bits + alignBits - 1) / alignBits;
    assert units * alignBits + (bits + alignBits - 1) % alignBits == bits + alignBits - 1;
    assert (units - 1) * alignBits == units * alignBits - alignBits;
  }

  lemma PackedFits(alignBits: nat, bits: nat)
    requires alignBits > 0 && alignBits % 8 == 0 && bits > 0
    ensures 0 < PackedBytes(bits) <= AlignedBytes(alignBits, bits)
  {
    var a, q := alignBits / 8, (bits + alignBits - 1) / alignBits;
    assert alignBits == 8 * a;
    assert q * alignBits + (bits + alignBits - 1) % alignBits == bits + alignBits - 1;
    assert q * alignBits >= bits;
    assert q * alignBits == q * (8 * a) == 8 * (q * a);
  }

  lemma MulMonotone(a: nat, b: nat, size: nat)
    requires a <= b
    ensures a * size <= b * size
  {
    assert (b - a) * size >= 0;
  }

  lemma {:induction false} ChopAt(data: seq<byte>, size: nat, n: nat, i: nat, lo: nat)
    requires |data| == n * size && i < n && lo == i * size
    ensures lo + size == (i + 1) * size && lo + size <= |data|
    ensures Chop(data, size, n)[i] == data[lo..lo + size]
  {
    hide Chop;
    MulMonotone(i + 1, n, size);
    MulNext(i, size);
    ChopStep(data, size, n);
    if i == 0 {
      assert lo == 0;
    } else {
      MulNext(i - 1, size);
      ChopAt(data[size..], size, n - 1, i - 1, lo - size);
      SliceDrop(data, size, lo, lo + size);
    }
  }

  lemma SliceDrop<T>(s: seq<T>, d: nat, lo: nat, hi: nat)
    requires d <= lo <= hi <= |s|
    ensures s[d..][lo - d..hi - d] == s[lo..hi]
  {
  }

  lemma SliceTake<T>(s: seq<T>, lo: nat, size: nat, low: nat)
    requires lo + size <= |s| && low <= size
    ensures s[lo..lo + size][..low] == s[lo..lo + low]
  {
  }

  lemma FlatLast(ss: seq<Sample>, s: Sample)
    ensures Flat(ss + [s]) == Flat(ss) + s
  {
    FlatConcat(ss, [s]);
    assert Flat([s]) == s + Flat([]);
  }

  lemma TakeEachNext(ss: seq<Sample>, size: nat, i: nat)
    requires forall s | s in ss :: size <= |s|
    requires i < |ss|
    ensures Flat(TakeEach(ss[..i + 1], size)) == Flat(TakeEach(ss[..i], size)) + ss[i][..size]
  {
    hide Flat, TakeEach;
    FlatLast(TakeEach(ss[..i], size), ss[i][..size]);
    var a, b := TakeEach(ss[..i + 1], size), TakeEach(ss[..i], size) + [ss[i][..size]];
    assert forall k | 0 <= k < |a| :: a[k] == b[k];
    assert a == b;
  }

  /** What is in place after `i` moves. */
  ghost function Kept(start: seq<byte>, inSize: nat, outSize: nat, n: nat, i: nat): seq<byte>
    requires |start| == n * inSize && outSize <= inSize && i <= n
  {
    Flat(TakeEach(Chop(start, inSize, n)[..i], outSize))
  }

  lemma KeptNext(start: seq<byte>, inSize: nat, outSize: nat, n: nat, i: nat, lo: nat)
    requires |start| == n * inSize && outSize <= inSize && i < n && lo == i * inSize
    ensures lo + inSize == (i + 1) * inSize && lo + inSize <= |start|
    ensures Kept(start, inSize, outSize, n, i + 1) == Kept(start, inSize, outSize, n, i) + start[lo..lo + outSize]
  {
    hide Flat, TakeEach, Chop;
    ChopAt(start, inSize, n, i, lo);
    SliceTake(start, lo, inSize, outSize);
    TakeEachNext(Chop(start, inSize, n), outSize, i);
  }

  lemma KeptAll(start: seq<byte>, inSize: nat, outSize: nat, n: nat)
    requires |start| == n * inSize && outSize <= inSize
    ensures Kept(start, inSize, outSize, n, 0) == []
    ensures Kept(start, inSize, outSize, n, n) == Flat(TakeEach(Chop(start, inSize, n), outSize))
  {
    var rs := Chop(start, inSize, n);
    assert rs[..n] == rs && TakeEach(rs[..0], outSize) == [];
  }

  /** Slice assignment between two ranges of one length. */
  method MoveSlice(data: array<byte>, toAddr: nat, fromAddr: nat, len: nat)
    requires toAddr <= fromAddr && fromAddr + len <= data.Length
    modifies data
    ensures data[..toAddr + len] == old(data[..toAddr] + data[fromAddr..fromAddr + len])
    ensures forall j | toAddr + len <= j < data.Length :: data[j] == old(data[j])
  {
    forall j | 0 <= j < len {
      data[toAddr + j] := data[fromAddr + j];
    }
  }

  /** Keeps the low `outSize` bytes of each of the `n` samples in the first `limit` bytes.  The
      moves go left, and the bytes not yet read stay as they were. */
  method KeepLowBytes(data: array<byte>, limit: nat, inSize: nat, outSize: nat, ghost n: nat) returns (toAddr: nat)
    requires limit == n * inSize <= data.Length && outSize <= inSize && inSize > 0
    modifies data
    ensures toAddr <= data.Length
    ensures data[..toAddr] == Flat(TakeEach(Chop(old(data[..limit]), inSize, n), outSize))
  {
    hide Kept, Flat, Chop, TakeEach;
    toAddr := 0;
    var fromAddr := 0;
    ghost var start, i := data[..limit], 0;
    KeptAll(start, inSize, outSize, n);
    while fromAddr < limit
      invariant i <= n && fromAddr == i * inSize && toAddr <= fromAddr <= limit
      invariant data[..toAddr] == Kept(start, inSize, outSize, n, i)
      invariant forall j | fromAddr <= j < limit :: data[j] == start[j]
    {
      BelowMultiple(i, n, inSize);
      KeptNext(start, inSize, outSize, n, i, fromAddr);
      assert data[fromAddr..fromAddr + outSize] == start[fromAddr..fromAddr + outSize];
      MoveSlice(data, toAddr, fromAddr, outSize);
      toAddr := toAddr + outSize;
      fromAddr := fromAddr + inSize;
      i := i + 1;
    }
    BelowMultiple(i, n, inSize);
  }

  lemma BelowMultiple(i: nat, n: nat, size: nat)
    requires size > 0
    ensures i * size < n * size <==> i < n
  {
    if i < n {
      MulAtLeast(n - i, size);
    } else {
      assert (i - n) * size >= 0;
    }
  }

  lemma SizedIsWide(ws: seq<Sample>, dataWidth: nat)
    requires AllOfSize(ws, PackedBytes(dataWidth + 1))
    ensures Wide(ws, dataWidth) && dataWidth / 8 < PackedBytes(dataWidth + 1)
  {
    assert forall i | 0 <= i < |ws| :: ws[i] in ws;
  }

  lemma FirstMarkIs(ws: seq<Sample>, dataWidth: nat, m: nat)
    requires Wide(ws, dataWidth) && m <= |ws|
    requires forall i | 0 <= i < m :: !Marked(ws[i], dataWidth)
    requires m < |ws| ==> Marked(ws[m], dataWidth)
    ensures FirstMark(ws, dataWidth) == m
  {
  }

  /** The index of the first sample of `data[lo..hi]` with the trigger mark, or -1. */
  method FindMark(data: array<byte>, lo: nat, hi: nat, info: TraceInfo, ghost ws: seq<Sample>) returns (mark: int)
    requires lo <= hi <= data.Length && data[lo..hi] == Flat(ws)
    requires AllOfSize(ws, PackedBytes(info.dataWidth + 1))
    ensures Wide(ws, info.dataWidth)
    ensures mark == if FirstMark(ws, info.dataWidth) == |ws| then -1 else FirstMark(ws, info.dataWidth)
  {
    hide Flat, Marked, Wide, FirstMark, AllOfSize;
    SizedIsWide(ws, info.dataWidth);
    var size, sampleIdx := PackedBytes(info.dataWidth + 1), 0;
    var first, trigMask := info.dataWidth / 8, BitArithmetic.Pow2(info.dataWidth % 8);
    var addr := lo + first;
    FlatLength(ws, size);
    mark := -1;
    while addr < hi
      invariant sampleIdx <= |ws| && addr == lo + first + sampleIdx * size
      invariant forall i | 0 <= i < sampleIdx :: !Marked(ws[i], info.dataWidth)
      decreases hi - addr
    {
      BelowMultiple(sampleIdx, |ws|, size);
      FlatAt(ws, size, sampleIdx, first);
      assert data[lo..hi][addr - lo] == data[addr];
      MarkedIs(ws[sampleIdx], info.dataWidth);
      if BitArithmetic.And(data[addr], trigMask) != 0 {
        mark := sampleIdx;
        break;
      }
      assert (sampleIdx + 1) * size == sampleIdx * size + size;
      sampleIdx := sampleIdx + 1;
      addr := addr + size;
    }
    if mark < 0 {
      assert (sampleIdx + 1) * size == sampleIdx * size + size;
      MulMonotone(sampleIdx + 1, if sampleIdx < |ws| then |ws| else sampleIdx + 1, size);
    }
    FirstMarkIs(ws, info.dataWidth, sampleIdx);
  }

  lemma MarkedIs(s: Sample, dataWidth: nat)
    requires dataWidth / 8 < |s|
    ensures Marked(s, dataWidth) <==>
            BitArithmetic.And(s[dataWidth / 8], BitArithmetic.Pow2(dataWidth % 8)) != 0
  {
    BitArithmetic.AndTestsBit(s[dataWidth / 8], dataWidth % 8);
  }

  lemma RotatedBytes(ws: seq<Sample>, size: nat, start: nat)
    requires AllOfSize(ws, size) && start <= |ws|
    ensures start * size <= |Flat(ws)|
    ensures Flat(ws[start..] + ws[..start]) == Flat(ws)[start * size..] + Flat(ws)[..start * size]
  {
    FlatCut(ws, size, start);
    FlatConcat(ws[start..], ws[..start]);
  }

  /** Where the first byte of the rotated window is, counted in bytes. */
  lemma RotationAddress(size: nat, mark: nat, triggerPosition: nat, n: nat)
    requires size > 0 && mark < n && triggerPosition < n
    ensures
      var a := size * (mark - triggerPosition);
      (if a < 0 then a + n * size else a) == Rotation(mark, triggerPosition, n) * size
  {
    var start := mark - triggerPosition;
    if start < 0 {
      MulAtLeast(-start, size);
      assert size * start == -((-start) * size);
      assert (start + n) * size == start * size + n * size;
    } else {
      MulMonotone(0, start, size);
      assert size * start == start * size;
    }
  }

  /** Where sample `start` of a window is, a negative one counted from the end. */
  function WindowAddr(size: nat, start: int, bytes: nat): int {
    if size * start < 0 then size * start + bytes else size * start
  }

  /** The bytes of a window, rotated at the first marked sample, are those of the unrolled one. */
  lemma RotatedWindow(ws: seq<Sample>, info: TraceInfo, size: nat, firstAddr: int)
    requires AllOfSize(ws, size) && size > 0 && Wide(ws, info.dataWidth) && info.triggerPosition < |ws|
    requires FirstMark(ws, info.dataWidth) < |ws|
    requires firstAddr == WindowAddr(size, FirstMark(ws, info.dataWidth) - info.triggerPosition, |Flat(ws)|)
    ensures UnrollWindow(ws, info).Some? && 0 <= firstAddr <= |Flat(ws)|
    ensures Flat(UnrollWindow(ws, info).value) == Flat(ws)[firstAddr..] + Flat(ws)[..firstAddr]
  {
    hide Flat, Wide, FirstMark, AllOfSize;
    FlatLength(ws, size);
    RotationAddress(size, FirstMark(ws, info.dataWidth), info.triggerPosition, |ws|);
    RotatedBytes(ws, size, Rotation(FirstMark(ws, info.dataWidth), info.triggerPosition, |ws|));
  }

  /** Rotates one window in place; false when it has no trigger mark. */
  method UnrollOneWindow(data: array<byte>, lo: nat, hi: nat, info: TraceInfo, ghost ws: seq<Sample>)
    returns (found: bool)
    requires lo <= hi <= data.Length && data[lo..hi] == Flat(ws)
    requires AllOfSize(ws, PackedBytes(info.dataWidth + 1)) && info.triggerPosition < |ws|
    modifies data
    ensures Wide(ws, info.dataWidth) && (found <==> UnrollWindow(ws, info).Some?)
    ensures found ==> data[lo..hi] == Flat(UnrollWindow(ws, info).value)
    ensures data[..lo] == old(data[..lo]) && data[hi..] == old(data[hi..])
  {
    hide Flat, Wide, FirstMark, Marked, AllOfSize, UnrollWindow, WindowAddr, PackedBytes;
    var size := PackedBytes(info.dataWidth + 1);
    var mark := FindMark(data, lo, hi, info, ws);
    NoMark(ws, info);
    if mark < 0 {
      return false;
    }
    found := true;
    var startOfWindow := mark - info.triggerPosition;
    var firstAddr := FirstAddr(size, startOfWindow, hi - lo);
    SizeIsPositive(info);
    RotatedWindow(ws, info, size, firstAddr);
    if startOfWindow == 0 {
      AddrOfFirst(size, hi - lo);
      assert Flat(ws)[0..] + Flat(ws)[..0] == Flat(ws);
      return;
    }
    var buf := data[lo + firstAddr..hi] + data[lo..lo + firstAddr];
    assert data[lo..hi][firstAddr..] == data[lo + firstAddr..hi];
    assert data[lo..hi][..firstAddr] == data[lo..lo + firstAddr];
    WriteBack(data, lo, buf);
  }

  method FirstAddr(size: nat, start: int, bytes: nat) returns (addr: int)
    ensures addr == WindowAddr(size, start, bytes)
  {
    addr := size * start;
    if addr < 0 {
      addr := addr + bytes;
    }
  }

  lemma AddrOfFirst(size: nat, bytes: nat)
    ensures WindowAddr(size, 0, bytes) == 0
  {
  }

  lemma SizeIsPositive(info: TraceInfo)
    ensures PackedBytes(info.dataWidth + 1) > 0
  {
  }

  lemma NoMark(ws: seq<Sample>, info: TraceInfo)
    requires Wide(ws, info.dataWidth) && info.triggerPosition < |ws|
    ensures FirstMark(ws, info.dataWidth) <= |ws|
    ensures UnrollWindow(ws, info).Some? <==> FirstMark(ws, info.dataWidth) < |ws|
  {
  }

  method WriteBack(data: array<byte>, lo: nat, buf: seq<byte>)
    requires lo + |buf| <= data.Length
    modifies data
    ensures data[lo..lo + |buf|] == buf
    ensures data[..lo] == old(data[..lo]) && data[lo + |buf|..] == old(data[lo + |buf|..])
  {
    forall j | 0 <= j < |buf| {
      data[lo + j] := buf[j];
    }
  }

  lemma UnrollNext(ss: seq<Sample>, info: TraceInfo)
    requires Wide(ss, info.dataWidth) && ss != [] && WindowsHoldTrigger(|ss|, info)
    ensures var n := WindowLength(|ss|, info);
            var first, rest, all := UnrollWindow(ss[..n], info), UnrollWindows(ss[n..], info), UnrollWindows(ss, info);
            && (all.Some? <==> first.Some? && rest.Some?)
            && (all.Some? ==> Flat(all.value) == Flat(first.value) + Flat(rest.value))
  {
    var n := WindowLength(|ss|, info);
    var first, rest := UnrollWindow(ss[..n], info), UnrollWindows(ss[n..], info);
    if first.Some? && rest.Some? {
      FlatConcat(first.value, rest.value);
    }
  }

  ghost predicate UnrollsFrom(ss: seq<Sample>, info: TraceInfo, done: seq<byte>, rest: seq<Sample>) {
    && Wide(ss, info.dataWidth) && WindowsHoldTrigger(|ss|, info)
    && Wide(rest, info.dataWidth) && WindowsHoldTrigger(|rest|, info)
    && (UnrollWindows(ss, info).Some? <==> UnrollWindows(rest, info).Some?)
    && (UnrollWindows(ss, info).Some? ==>
          Flat(UnrollWindows(ss, info).value) == done + Flat(UnrollWindows(rest, info).value))
  }

  lemma UnrollsFromIs(ss: seq<Sample>, info: TraceInfo, done: seq<byte>, rest: seq<Sample>)
    requires Wide(ss, info.dataWidth) && WindowsHoldTrigger(|ss|, info)
    requires Wide(rest, info.dataWidth) && WindowsHoldTrigger(|rest|, info)
    ensures UnrollsFrom(ss, info, done, rest) <==>
            var all, after := UnrollWindows(ss, info), UnrollWindows(rest, info);
            (all.Some? <==> after.Some?) && (all.Some? ==> Flat(all.value) == done + Flat(after.value))
  {
  }

  lemma RestIsWide(rest: seq<Sample>, info: TraceInfo)
    requires Wide(rest, info.dataWidth) && WindowsHoldTrigger(|rest|, info) && rest != []
    ensures
      var n := WindowLength(|rest|, info);
      && info.triggerPosition < n <= |rest| && Wide(rest[..n], info.dataWidth)
      && Wide(rest[n..], info.dataWidth) && WindowsHoldTrigger(|rest[n..]|, info)
  {
  }

  lemma UnrollsFromNext(ss: seq<Sample>, info: TraceInfo, done: seq<byte>, rest: seq<Sample>)
    requires UnrollsFrom(ss, info, done, rest) && rest != []
    ensures var n := WindowLength(|rest|, info);
            && info.triggerPosition < n
            && match UnrollWindow(rest[..n], info)
               case None => UnrollWindows(ss, info).None?
               case Some(w) => UnrollsFrom(ss, info, done + Flat(w), rest[n..])
  {
    UnrollNext(rest, info);
    RestIsWide(rest, info);
    UnrollsFromIs(ss, info, done, rest);
    hide Flat, UnrollWindow, UnrollWindows, UnrollsFrom, Wide, WindowsHoldTrigger;
    var n := WindowLength(|rest|, info);
    var w, after := UnrollWindow(rest[..n], info), UnrollWindows(rest[n..], info);
    if w.Some? {
      UnrollsFromIs(ss, info, done + Flat(w.value), rest[n..]);
      if after.Some? {
        assert done + (Flat(w.value) + Flat(after.value)) == (done + Flat(w.value)) + Flat(after.value);
      }
    }
  }

  lemma FlatEmpty(ss: seq<Sample>, size: nat)
    requires AllOfSize(ss, size) && size > 0
    ensures Flat(ss) == [] <==> ss == []
  {
    FlatLength(ss, size);
    if ss != [] {
      MulAtLeast(|ss|, size);
    }
  }

  lemma UnrollsFromStart(ss: seq<Sample>, info: TraceInfo)
    requires AllOfSize(ss, PackedBytes(info.dataWidth + 1)) && WindowsHoldTrigger(|ss|, info)
    ensures UnrollsFrom(ss, info, [], ss)
  {
    hide UnrollWindows, Flat, WindowsHoldTrigger, AllOfSize, PackedBytes, Wide;
    SizedIsWide(ss, info.dataWidth);
  }

  lemma UnrollsFromEnd(ss: seq<Sample>, info: TraceInfo, done: seq<byte>)
    requires UnrollsFrom(ss, info, done, [])
    ensures Wide(ss, info.dataWidth) && WindowsHoldTrigger(|ss|, info)
    ensures UnrollWindows(ss, info).Some? && Flat(UnrollWindows(ss, info).value) == done
  {
  }

  lemma PartsOfSize(ss: seq<Sample>, size: nat, n: nat)
    requires AllOfSize(ss, size) && n <= |ss|
    ensures AllOfSize(ss[..n], size) && AllOfSize(ss[n..], size)
  {
  }

  /** A window's bytes are its samples' bytes, also for a shorter last window. */
  lemma WindowBytes(rest: seq<Sample>, info: TraceInfo, size: nat) returns (bytes: nat)
    requires AllOfSize(rest, size) && rest != [] && size > 0
    ensures var n, all := WindowLength(|rest|, info), Flat(rest);
            && bytes == (if size * info.windowSize < |all| then size * info.windowSize else |all|)
            && all[..bytes] == Flat(rest[..n]) && all[bytes..] == Flat(rest[n..])
            && AllOfSize(rest[..n], size) && AllOfSize(rest[n..], size)
  {
    hide Flat, AllOfSize;
    var n := WindowLength(|rest|, info);
    FlatLength(rest, size);
    FlatCut(rest, size, n);
    PartsOfSize(rest, size, n);
    bytes := n * size;
    assert size * info.windowSize == info.windowSize * size;
    if info.windowSize <= |rest| {
      MulMonotone(info.windowSize, |rest|, size);
    } else {
      MulMonotone(|rest|, info.windowSize, size);
    }
  }

  /** The bytes `d` while windows are being unrolled: done up to `addr`, `rest` still to do. */
  ghost predicate Unrolling(d: seq<byte>, ss: seq<Sample>, info: TraceInfo, addr: nat, rest: seq<Sample>) {
    && addr <= |d| && d[addr..] == Flat(rest) && AllOfSize(rest, PackedBytes(info.dataWidth + 1))
    && UnrollsFrom(ss, info, d[..addr], rest)
  }

  lemma UnrollingStart(ss: seq<Sample>, info: TraceInfo)
    requires AllOfSize(ss, PackedBytes(info.dataWidth + 1)) && WindowsHoldTrigger(|ss|, info)
    ensures Unrolling(Flat(ss), ss, info, 0, ss)
  {
    UnrollsFromStart(ss, info);
  }

  lemma UnrollingReady(d: seq<byte>, ss: seq<Sample>, info: TraceInfo, addr: nat, rest: seq<Sample>, step: nat)
    returns (ws: seq<Sample>, hi: nat)
    requires Unrolling(d, ss, info, addr, rest) && addr < |d|
    requires step == PackedBytes(info.dataWidth + 1) * info.windowSize
    ensures rest != [] && ws == rest[..WindowLength(|rest|, info)]
    ensures hi == (if addr + step > |d| then |d| else addr + step)
    ensures d[addr..hi] == Flat(ws) && AllOfSize(ws, PackedBytes(info.dataWidth + 1))
    ensures info.triggerPosition < |ws|
  {
    hide UnrollWindows, UnrollWindow, Flat;
    FlatEmpty(rest, PackedBytes(info.dataWidth + 1));
    var bytes := WindowBytes(rest, info, PackedBytes(info.dataWidth + 1));
    UnrollsFromNext(ss, info, d[..addr], rest);
    ws, hi := rest[..WindowLength(|rest|, info)], addr + bytes;
    assert d[addr..hi] == d[addr..][..bytes];
  }

  lemma UnrollingStep(d: seq<byte>, d': seq<byte>, ss: seq<Sample>, info: TraceInfo, addr: nat, rest: seq<Sample>,
                      step: nat, hi: nat)
    returns (rest': seq<Sample>)
    requires Unrolling(d, ss, info, addr, rest) && addr < |d|
    requires step == PackedBytes(info.dataWidth + 1) * info.windowSize
    requires hi == (if addr + step > |d| then |d| else addr + step)
    requires rest != [] && Wide(rest[..WindowLength(|rest|, info)], info.dataWidth)
    requires info.triggerPosition < WindowLength(|rest|, info)
    requires |d'| == |d| && d'[..addr] == d[..addr] && d'[hi..] == d[hi..]
    requires var w := UnrollWindow(rest[..WindowLength(|rest|, info)], info);
             w.Some? ==> addr <= hi && d'[addr..hi] == Flat(w.value)
    ensures match UnrollWindow(rest[..WindowLength(|rest|, info)], info)
            case None => Wide(ss, info.dataWidth) && WindowsHoldTrigger(|ss|, info) && UnrollWindows(ss, info).None?
            case Some(w) => Unrolling(d', ss, info, hi, rest')
  {
    hide UnrollWindows, UnrollWindow, Flat;
    var bytes := WindowBytes(rest, info, PackedBytes(info.dataWidth + 1));
    UnrollsFromNext(ss, info, d[..addr], rest);
    rest' := rest[WindowLength(|rest|, info)..];
    assert d[hi..] == d[addr..][bytes..];
    assert d'[..hi] == d'[..addr] + d'[addr..hi];
  }

  lemma UnrollingEnd(d: seq<byte>, ss: seq<Sample>, info: TraceInfo, rest: seq<Sample>)
    requires Unrolling(d, ss, info, |d|, rest)
    ensures Wide(ss, info.dataWidth) && WindowsHoldTrigger(|ss|, info)
    ensures UnrollWindows(ss, info).Some? && Flat(UnrollWindows(ss, info).value) == d
  {
    FlatEmpty(rest, PackedBytes(info.dataWidth + 1));
    assert d[..|d|] == d;
    UnrollsFromEnd(ss, info, d);
  }

  /** Unrolls every window in place; false when a window has no trigger mark. */
  method UnrollEveryWindow(data: array<byte>, info: TraceInfo, ghost ss: seq<Sample>) returns (found: bool)
    requires data[..] == Flat(ss) && AllOfSize(ss, PackedBytes(info.dataWidth + 1))
    requires info.windowSize > 0 && WindowsHoldTrigger(|ss|, info)
    modifies data
    ensures Wide(ss, info.dataWidth) && (found <==> UnrollWindows(ss, info).Some?)
    ensures found ==> data[..] == Flat(UnrollWindows(ss, info).value)
  {
    hide Flat, AllOfSize, UnrollWindow, UnrollWindows, Unrolling, WindowsHoldTrigger;
    SizedIsWide(ss, info.dataWidth);
    hide Wide;
    var step := PackedBytes(info.dataWidth + 1) * info.windowSize;
    assert step > 0 by { MulAtLeast(PackedBytes(info.dataWidth + 1), info.windowSize); }
    var windowAddr := 0;
    ghost var rest := ss;
    UnrollingStart(ss, info);
    while windowAddr < data.Length
      invariant windowAddr <= data.Length && Unrolling(data[..], ss, info, windowAddr, rest)
    {
      var windowByteCount := step;
      if windowAddr + windowByteCount > data.Length {
        windowByteCount := data.Length - windowAddr;
      }
      ghost var d := data[..];
      ghost var ws, hi := UnrollingReady(d, ss, info, windowAddr, rest, step);
      assert data[windowAddr..hi] == d[windowAddr..hi];
      found := UnrollOneWindow(data, windowAddr, windowAddr + windowByteCount, info, ws);
      ghost var d' := data[..];
      assert d'[..windowAddr] == data[..windowAddr] == d[..windowAddr] && d'[hi..] == data[hi..] == d[hi..];
      assert d'[windowAddr..hi] == data[windowAddr..hi];
      rest := UnrollingStep(d, d', ss, info, windowAddr, rest, step, hi);
      if !found {
        return;
      }
      windowAddr := windowAddr + windowByteCount;
    }
    UnrollingEnd(data[..], ss, info, rest);
    found := true;
  }
}
