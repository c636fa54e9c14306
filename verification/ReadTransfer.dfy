/** Reading from a debug core in chunks. */
module ReadTransfer {
  import opened TransferWindow
  import opened Wrappers

  /** A read request of whole words, and where in the buffer its data goes. */
  datatype Request = Request(addr: nat, words: nat, offset: nat)

  datatype Config = Config(address: nat, offset: nat, total: nat)

  function ChunkRequest(c: Config, i: nat): Request
    requires i < Chunks(c.total)
  {
    ChunksTile(c.total, 0, i);
    Request(c.address + i * CHUNK, ChunkSize(c.total, i) / 4, c.offset + i * CHUNK)
  }

  /** A reply: an error, or data, or neither when the result has an unexpected shape. */
  datatype Reception = Reception(token: nat, error: Option<Error>, data: Option<seq<byte>>)

  const TOO_MUCH_DATA: Error := "Request to read more data than buffer can hold"

  predicate DataFits(c: Config, e: Reception)
    requires e.data.Some?
  {
    c.offset + e.token * CHUNK + |e.data.value| <= c.offset + c.total
  }

  /** The error that a reply leaves behind. */
  function Outcome(c: Config, e: Reception): Option<Error> {
    if e.error.Some? then e.error
    else if e.data.Some? && !DataFits(c, e) then Some(TOO_MUCH_DATA)
    else None
  }

  function Store(c: Config, buf: seq<byte>, e: Reception): (r: seq<byte>)
    requires c.offset + c.total <= |buf|
    ensures |r| == |buf|
  {
    if e.error.None? && e.data.Some? && DataFits(c, e) then
      var start := c.offset + e.token * CHUNK;
      buf[..start] + e.data.value + buf[start + |e.data.value|..]
    else buf
  }

  datatype ReadState = ReadState(x: Window, buf: seq<byte>)

  function Receive(c: Config, s: ReadState, e: Reception): ReadState
    requires c.offset + c.total <= |s.buf|
  {
    ReadState(Reply(s.x, Chunks(c.total), e.token, Outcome(c, e)),
              if s.x.err.Some? then s.buf else Store(c, s.buf, e))
  }

  function ReadRun(c: Config, buf: seq<byte>, es: seq<Reception>): (r: Option<ReadState>)
    requires c.offset + c.total <= |buf|
    ensures r.Some? ==> |r.value.buf| == |buf|
  {
    if es == [] then Some(ReadState(Refill(START, Chunks(c.total)), buf))
    else
      var e := es[|es| - 1];
      match ReadRun(c, buf, es[..|es| - 1])
      case None => None
      case Some(s) => if e.token in s.x.pending then Some(Receive(c, s, e)) else None
  }

  function Outcomes(c: Config, es: seq<Reception>): seq<Event> {
    seq(|es|, i requires 0 <= i < |es| => Event(es[i].token, Outcome(c, es[i])))
  }

  /** A read is a run of the window, so all that holds of the window holds of the read. */
  lemma {:induction false} ReadRunIsWindowRun(c: Config, buf: seq<byte>, es: seq<Reception>)
    requires c.offset + c.total <= |buf|
    ensures ReadRun(c, buf, es).Some? <==> Run(Chunks(c.total), Outcomes(c, es)).Some?
    ensures ReadRun(c, buf, es).Some? ==>
              ReadRun(c, buf, es).value.x == Run(Chunks(c.total), Outcomes(c, es)).value
  {
    if es != [] {
      ReadRunIsWindowRun(c, buf, es[..|es| - 1]);
      assert Outcomes(c, es)[..|es| - 1] == Outcomes(c, es[..|es| - 1]);
    }
  }

  /** The bytes that the whole words of the transfer hold. */
  function WordBytes(total: nat): nat {
    total / 4 * 4
  }

  /** A reply without error carries what the device holds at the requested words. */
  ghost predicate Honest(c: Config, mem: Memory, e: Reception) {
    e.error.None? ==>
      && e.token < Chunks(c.total) && e.data.Some?
      && Answers(mem, ChunkRequest(c, e.token), e.data.value)
  }

  /** The data of the requested words. */
  ghost predicate Answers(mem: Memory, r: Request, data: seq<byte>) {
    |data| == 4 * r.words && forall j | 0 <= j < |data| :: data[j] == mem(r.addr + j)
  }

  lemma HonestData(c: Config, mem: Memory, e: Reception)
    requires e.error.None?
    ensures Honest(c, mem, e) <==>
            && e.token < Chunks(c.total)
            && e.data.Some? && |e.data.value| == 4 * (ChunkSize(c.total, e.token) / 4)
            && forall j | 0 <= j < |e.data.value| :: e.data.value[j] == mem(c.address + e.token * CHUNK + j)
  {
    if e.token < Chunks(c.total) {
      ChunksTile(c.total, 0, e.token);
    }
    hide ChunkSize, Chunks;
  }

  /** Buffer byte `k` once the chunks before `next` that are not pending have been answered. */
  ghost predicate ByteIs(c: Config, mem: Memory, buf: seq<byte>, s: ReadState, k: nat)
    requires k < |buf| == |s.buf|
  {
    var d := k - c.offset;
    && (!(0 <= d < WordBytes(c.total)) ==> s.buf[k] == buf[k])
    && (0 <= d < WordBytes(c.total) && s.x.err.None? && d / CHUNK < s.x.next && d / CHUNK !in s.x.pending ==>
          s.buf[k] == mem(c.address + d))
  }

  /** Where the whole words of chunk `i` end. */
  lemma WordsEnd(total: nat, i: nat)
    requires i < Chunks(total)
    ensures 0 <= 4 * (ChunkSize(total, i) / 4) <= ChunkSize(total, i) && i * CHUNK + ChunkSize(total, i) <= total
    ensures i * CHUNK + 4 * (ChunkSize(total, i) / 4) ==
            if i * CHUNK + CHUNK < total then i * CHUNK + CHUNK else WordBytes(total)
    ensures i * CHUNK + CHUNK < total ==> i * CHUNK + CHUNK <= WordBytes(total)
    ensures i * CHUNK + CHUNK >= total ==> WordBytes(total) <= i * CHUNK + CHUNK
  {
  }

  lemma WordsOfChunk(total: nat, i: nat, d: nat)
    requires i < Chunks(total)
    ensures i * CHUNK <= d < i * CHUNK + 4 * (ChunkSize(total, i) / 4) <==> d < WordBytes(total) && d / CHUNK == i
    ensures 0 <= 4 * (ChunkSize(total, i) / 4) <= ChunkSize(total, i) && i * CHUNK + ChunkSize(total, i) <= total
  {
    WordsEnd(total, i);
    hide ChunkSize, WordBytes, Chunks;
    assert d / CHUNK * CHUNK <= d < d / CHUNK * CHUNK + CHUNK;
  }

  /** An honest reply fits, and changes exactly the bytes of its chunk's whole words. */
  lemma StoreByte(c: Config, mem: Memory, buf: seq<byte>, e: Reception, k: nat)
    requires c.offset + c.total <= |buf| && k < |buf|
    requires e.token < Chunks(c.total) && Honest(c, mem, e) && e.error.None?
    ensures Outcome(c, e).None?
    ensures var d := k - c.offset;
            Store(c, buf, e)[k] == if 0 <= d < WordBytes(c.total) && d / CHUNK == e.token then mem(c.address + d) else buf[k]
  {
    hide ChunkSize, WordBytes, Chunks, Honest;
    var d := k - c.offset;
    WordsOfChunk(c.total, e.token, if d < 0 then 0 else d);
    HonestData(c, mem, e);
    var start := c.offset + e.token * CHUNK;
    var data := e.data.value;
    assert Store(c, buf, e) == buf[..start] + data + buf[start + |data|..];
    if start <= k < start + |data| {
      assert data[k - start] == mem(c.address + e.token * CHUNK + (k - start));
    }
  }

  lemma ErrorStoresNothing(c: Config, buf: seq<byte>, e: Reception)
    requires c.offset + c.total <= |buf|
    ensures e.error.Some? ==> Outcome(c, e) == e.error && Store(c, buf, e) == buf
  {
  }

  lemma ReceiveByte(c: Config, mem: Memory, buf: seq<byte>, s: ReadState, e: Reception, k: nat)
    requires c.offset + c.total <= |buf| == |s.buf| && k < |buf|
    requires Inv(s.x, Chunks(c.total)) && e.token in s.x.pending && Honest(c, mem, e)
    requires ByteIs(c, mem, buf, s, k)
    ensures ByteIs(c, mem, buf, Receive(c, s, e), k)
  {
    hide Reply, Store, Inv, Honest, Chunks, Outcome, WordBytes;
    var d := k - c.offset;
    PendingIsSent(s.x, Chunks(c.total), e.token);
    if d >= 0 {
      ReplyPending(s.x, Chunks(c.total), e.token, Outcome(c, e), d / CHUNK);
    }
    ErrorStoresNothing(c, s.buf, e);
    if e.error.None? {
      StoreByte(c, mem, s.buf, e, k);
    }
  }

  lemma {:induction false} ReadRunByte(c: Config, mem: Memory, buf: seq<byte>, es: seq<Reception>, k: nat)
    requires c.offset + c.total <= |buf| && k < |buf|
    requires ReadRun(c, buf, es).Some? && forall e | e in es :: Honest(c, mem, e)
    ensures ByteIs(c, mem, buf, ReadRun(c, buf, es).value, k)
  {
    ReadRunIsWindowRun(c, buf, es);
    if es == [] {
      RefillSends(START, Chunks(c.total));
    } else {
      var before := es[..|es| - 1];
      ReadRunByte(c, mem, buf, before, k);
      ReadRunIsWindowRun(c, buf, before);
      RunKeepsInv(Chunks(c.total), Outcomes(c, before));
      ReceiveByte(c, mem, buf, ReadRun(c, buf, before).value, es[|es| - 1], k);
    }
  }

  /** Whatever the replies carry, no byte outside the slice is written. */
  lemma {:induction false} OutsideStays(c: Config, buf: seq<byte>, es: seq<Reception>, k: nat)
    requires c.offset + c.total <= |buf| && k < |buf| && ReadRun(c, buf, es).Some?
    ensures !(c.offset <= k < c.offset + c.total) ==> ReadRun(c, buf, es).value.buf[k] == buf[k]
  {
    hide Reply, Refill, Chunks;
    if es != [] {
      OutsideStays(c, buf, es[..|es| - 1], k);
    }
  }

  /** The requests of a read: chunks of 0x8000 bytes from the address on, of which the last may
      be shorter, each for its whole words, and each for its own place in the buffer. */
  lemma RequestsAre(c: Config, i: nat)
    ensures i < Chunks(c.total) <==> 0x8000 * i < c.total
    ensures i < Chunks(c.total) ==>
              ChunkRequest(c, i) ==
              Request(c.address + 0x8000 * i,
                      (if 0x8000 * (i + 1) < c.total then 0x8000 else c.total - 0x8000 * i) / 4,
                      c.offset + 0x8000 * i)
  {
  }

  /** When the callback reports success, the buffer holds the device's bytes for all whole words
      of the range, and is otherwise as it was. */
  lemma ReadIsExact(c: Config, mem: Memory, buf: seq<byte>, es: seq<Reception>, k: nat)
    requires c.offset + c.total <= |buf| && k < |buf|
    requires ReadRun(c, buf, es).Some? && forall e | e in es :: Honest(c, mem, e)
    requires ReadRun(c, buf, es).value.x.done == [None]
    ensures ReadRun(c, buf, es).value.buf[k] ==
            if c.offset <= k < c.offset + WordBytes(c.total) then mem(c.address + k - c.offset) else buf[k]
  {
    ReadRunByte(c, mem, buf, es, k);
    ReadRunIsWindowRun(c, buf, es);
    RunKeepsInv(Chunks(c.total), Outcomes(c, es));
    if c.offset <= k < c.offset + WordBytes(c.total) {
      ChunksTile(c.total, k - c.offset, (k - c.offset) / CHUNK);
    }
  }

  ghost predicate AllHonest(c: Config, mem: Memory, es: seq<Reception>) {
    forall e | e in es :: Honest(c, mem, e)
  }

  /** The whole slice holds what the device holds. */
  ghost predicate SliceIs(c: Config, mem: Memory, buf: seq<byte>)
    requires c.offset + c.total <= |buf|
  {
    forall k | c.offset <= k < c.offset + c.total :: buf[k] == mem(c.address + k - c.offset)
  }

  function Changed(mem: Memory, a: nat, v: byte): Memory {
    x => if x == a then v else mem(x)
  }

  /** The first byte after the whole words is in no request, so no reply depends on it. */
  lemma TailNotRequested(c: Config, mem: Memory, e: Reception, v: byte)
    requires Honest(c, mem, e) && e.error.None?
    ensures Honest(c, Changed(mem, c.address + WordBytes(c.total), v), e)
  {
    hide WordBytes, ChunkSize, Chunks, Honest;
    var other := Changed(mem, c.address + WordBytes(c.total), v);
    HonestData(c, mem, e);
    HonestData(c, other, e);
    forall j | 0 <= j < |e.data.value| ensures e.data.value[j] == other(c.address + e.token * CHUNK + j) {
      WordsOfChunk(c.total, e.token, e.token * CHUNK + j);
    }
  }

  lemma ErrorIsHonest(c: Config, mem: Memory, e: Reception)
    requires e.error.Some?
    ensures Honest(c, mem, e)
  {
  }

  /** Whenever the size is no multiple of four, the replies of a successful read fit a device
      whose memory is not what the buffer holds. */
  lemma TailCanDiffer(c: Config, mem: Memory, buf: seq<byte>, es: seq<Reception>) returns (other: Memory)
    requires c.offset + c.total <= |buf| && c.total % 4 != 0
    requires ReadRun(c, buf, es).Some? && AllHonest(c, mem, es)
    requires ReadRun(c, buf, es).value.x.done == [None]
    ensures AllHonest(c, other, es) && !SliceIs(c, other, ReadRun(c, buf, es).value.buf)
  {
    hide ReadRun, Honest;
    var r := ReadRun(c, buf, es).value.buf;
    var k := c.offset + WordBytes(c.total);
    var v: byte := if r[k] == 0 then 1 else 0;
    other := Changed(mem, c.address + WordBytes(c.total), v);
    forall e | e in es ensures Honest(c, other, e) {
      if e.error.None? {
        TailNotRequested(c, mem, e, v);
      } else {
        ErrorIsHonest(c, other, e);
      }
    }
    assert other(c.address + k - c.offset) == v;
  }

  lemma WholeWordsAreRead(c: Config, mem: Memory, buf: seq<byte>, es: seq<Reception>)
    requires c.offset + c.total <= |buf| && c.total % 4 == 0
    requires ReadRun(c, buf, es).Some? && AllHonest(c, mem, es)
    requires ReadRun(c, buf, es).value.x.done == [None]
    ensures SliceIs(c, mem, ReadRun(c, buf, es).value.buf)
  {
    hide ReadRun, Honest;
    forall k | c.offset <= k < c.offset + c.total
      ensures ReadRun(c, buf, es).value.buf[k] == mem(c.address + k - c.offset)
    {
      ReadIsExact(c, mem, buf, es, k);
    }
  }

  /** Success means that the whole slice is what the device holds, whatever device gave these
      replies, if and only if the size is a multiple of four. */
  lemma ReadIsCompleteExactly(c: Config, mem: Memory, buf: seq<byte>, es: seq<Reception>)
    requires c.offset + c.total <= |buf|
    requires ReadRun(c, buf, es).Some? && AllHonest(c, mem, es)
    requires ReadRun(c, buf, es).value.x.done == [None]
    ensures (forall m: Memory | AllHonest(c, m, es) :: SliceIs(c, m, ReadRun(c, buf, es).value.buf)) <==>
            c.total % 4 == 0
  {
    hide ReadRun, AllHonest, SliceIs;
    if c.total % 4 == 0 {
      forall m: Memory | AllHonest(c, m, es) ensures SliceIs(c, m, ReadRun(c, buf, es).value.buf) {
        WholeWordsAreRead(c, m, buf, es);
      }
    } else {
      var other := TailCanDiffer(c, mem, buf, es);
    }
  }

  const ONE_SENT := Window(1, {0}, true, None, [])

  lemma OneChunkSent()
    ensures Chunks(1) == 1 && ChunkSize(1, 0) == 1 && Refill(START, 1) == ONE_SENT
  {
    var sent := ONE_SENT.(allSent := false);
    assert {} + {0} == {0};
    assert Refill(START, 1) == Refill(sent, 1) == ONE_SENT;
  }

  lemma OneChunkAnswered()
    ensures Reply(ONE_SENT, 1, 0, None) == Window(1, {}, true, None, [None])
  {
    assert {0} - {0} == {};
    hide Refill;
  }

  lemma {:induction false} OneReply(c: Config, buf: seq<byte>, e: Reception)
    requires c.offset + c.total <= |buf|
    ensures ReadRun(c, buf, [e]) ==
            var s := ReadState(Refill(START, Chunks(c.total)), buf);
            if e.token in s.x.pending then Some(Receive(c, s, e)) else None
  {
    hide Refill, Receive, Chunks;
    assert [e][..0] == [];
    assert ReadRun(c, buf, [e][..0]) == Some(ReadState(Refill(START, Chunks(c.total)), buf));
  }

  const NO_WORDS := Reception(0, None, Some([]))

  lemma NoWordsTaken(buf: seq<byte>)
    requires |buf| == 1
    ensures Receive(Config(0, 0, 1), ReadState(ONE_SENT, buf), NO_WORDS) ==
            ReadState(Window(1, {}, true, None, [None]), buf)
  {
    hide Reply, Chunks, ChunkSize;
    OneChunkSent();
    OneChunkAnswered();
    assert Store(Config(0, 0, 1), buf, NO_WORDS) == buf[..0] + [] + buf[0..] == buf;
  }

  lemma NoWordsAsked(mem: Memory)
    ensures Chunks(1) == 1 && ChunkRequest(Config(0, 0, 1), 0) == Request(0, 0, 0)
    ensures AllHonest(Config(0, 0, 1), mem, [NO_WORDS])
  {
    OneChunkSent();
  }

  /** A read of one byte asks for no word, succeeds, and leaves the buffer as it was. */
  lemma OneByteIsNotRead(mem: Memory, buf: seq<byte>)
    requires |buf| == 1
    ensures
      var c, es := Config(0, 0, 1), [Reception(0, None, Some([]))];
      && 0 < Chunks(1) && ChunkRequest(c, 0) == Request(0, 0, 0)
      && AllHonest(c, mem, es) && ReadRun(c, buf, es).Some?
      && ReadRun(c, buf, es).value.x.done == [None] && ReadRun(c, buf, es).value.buf == buf
      && (SliceIs(c, mem, buf) <==> buf[0] == mem(0))
  {
    hide Refill, ReadRun, Receive, Chunks, ChunkRequest, AllHonest;
    NoWordsAsked(mem);
    OneChunkSent();
    OneReply(Config(0, 0, 1), buf, NO_WORDS);
    NoWordsTaken(buf);
  }

  /** A read without error replies calls back with success, once, unless it is empty. */
  lemma ReadCompletes(c: Config, buf: seq<byte>, es: seq<Reception>)
    requires c.offset + c.total <= |buf| && ReadRun(c, buf, es).Some?
    requires ReadRun(c, buf, es).value.x.pending == {}
    ensures ReadRun(c, buf, es).value.x.done == if c.total > 0 then [FirstError(Outcomes(c, es))] else []
    ensures |es| <= Chunks(c.total)
  {
    ReadRunIsWindowRun(c, buf, es);
    CompletedExactly(Chunks(c.total), Outcomes(c, es));
    RunCounts(Chunks(c.total), Outcomes(c, es));
  }

  // ---------- the client's callbacks

  class Reader {
    const c: Config
    const data: array<byte>
    var nextChunk: nat
    var localPending: set<nat>
    var allRequestsSent: bool
    var err: Option<Error>
    var initialToken: Option<nat>
    var sent: seq<Request>
    // the arguments of each call of the callback
    var doneTokens: seq<Option<nat>>
    var doneErrors: seq<Option<Error>>

    ghost predicate Valid()
      reads this
    {
      && c.offset + c.total <= data.Length
      && nextChunk == |sent| <= Chunks(c.total)
      && forall i | 0 <= i < |sent| :: sent[i] == ChunkRequest(c, i)
    }

    /** The callback gets the token that the caller was given: that of the first request. */
    ghost predicate TokenKept()
      reads this
    {
      && |doneTokens| == |doneErrors|
      && (c.total > 0 ==> if doneErrors == [] then initialToken == Some(0) else doneTokens[0] == Some(0))
    }

    ghost function W(): Window
      reads this
    {
      Window(nextChunk, localPending, allRequestsSent, err, doneErrors)
    }

    constructor (c: Config, data: array<byte>)
      requires c.offset + c.total <= data.Length
      ensures Valid() && this.c == c && this.data == data && W() == START && doneTokens == []
    {
      this.c, this.data := c, data;
      nextChunk, localPending, allRequestsSent, err := 0, {}, false, None;
      initialToken, sent, doneTokens, doneErrors := None, [], [], [];
    }

    method ReadDone()
      requires Valid()
      modifies this
      ensures Valid() && W() == CallDone(old(W()))
      ensures doneTokens == old(doneTokens) + [old(initialToken)] && initialToken.None?
    {
      var token := initialToken;
      initialToken := None;
      doneTokens, doneErrors := doneTokens + [token], doneErrors + [err];
    }

    /** Returns the token of the first request it sends, if any. */
    method RequestData() returns (returnToken: Option<nat>)
      requires Valid() && Range(W(), Chunks(c.total))
      modifies this
      ensures Valid() && W() == RequestMore(old(W()), Chunks(c.total))
      ensures old(err).Some? ==>
                doneTokens == old(doneTokens) + [old(initialToken)] && doneErrors == old(doneErrors) + [old(err)]
      ensures returnToken == if old(err).None? && nextChunk > old(nextChunk) then Some(old(nextChunk)) else None
      ensures old(err).None? ==>
                initialToken == old(initialToken) && doneTokens == old(doneTokens) && doneErrors == old(doneErrors)
    {
      hide ChunkRequest, Refill, Range;
      returnToken := None;
      if err.Some? {
        ReadDone();
        return;
      }
      while |localPending| < WINDOW
        invariant Valid() && err.None?
        invariant initialToken == old(initialToken) && nextChunk >= old(nextChunk)
        invariant doneTokens == old(doneTokens) && doneErrors == old(doneErrors)
        invariant Refill(W(), Chunks(c.total)) == Refill(old(W()), Chunks(c.total))
        invariant returnToken == if nextChunk > old(nextChunk) then Some(old(nextChunk)) else None
        decreases Chunks(c.total) - nextChunk, !allRequestsSent
      {
        RefillStep(W(), Chunks(c.total));
        if nextChunk * CHUNK >= c.total {
          allRequestsSent := true;
          break;
        }
        if returnToken.None? {
          returnToken := Some(nextChunk);
        }
        sent := sent + [ChunkRequest(c, nextChunk)];
        localPending := localPending + {nextChunk};
        nextChunk := nextChunk + 1;
      }
      RefillStep(W(), Chunks(c.total));
    }

    /** Stores the data of a reply where its request says, or notes its error. */
    method TakeReply(e: Reception)
      requires Valid() && err.None? && e.token < nextChunk
      modifies this`err, data
      ensures err == Outcome(c, e) && data[..] == Store(c, old(data[..]), e)
    {
      err := e.error;
      if e.error.None? && e.data.Some? {
        var start := sent[e.token].offset;
        var end := start + |e.data.value|;
        if end > c.offset + c.total {
          err := Some(TOO_MUCH_DATA);
        } else {
          forall j | 0 <= j < |e.data.value| {
            data[start + j] := e.data.value[j];
          }
          assert data[..] == old(data[..start]) + e.data.value + old(data[end..]);
        }
      }
    }

    /** The reply to an outstanding request. */
    method ReceiveData(e: Reception)
      requires Valid() && Inv(W(), Chunks(c.total)) && TokenKept() && e.token in localPending
      modifies this, data
      ensures Valid() && Inv(W(), Chunks(c.total)) && TokenKept()
      ensures ReadState(W(), data[..]) == Receive(c, ReadState(old(W()), old(data[..])), e)
    {
      hide Inv, Reply, Refill, RequestMore, Outcome, Store, Range, ChunkRequest;
      ReplySteps(W(), Chunks(c.total), e.token, Outcome(c, e));
      localPending := localPending - {e.token};
      if err.Some? {
        return;
      }
      PendingIsSent(old(W()), Chunks(c.total), e.token);
      TakeReply(e);
      if allRequestsSent && localPending == {} {
        ReadDone();
      } else {
        var token := RequestData();
      }
    }
  }

  /** Starts a read; None stands for the raised IndexError. */
  method ReadBytes(address: nat, data: array<byte>, offset: nat, byteSize: Option<nat>) returns (r: Option<Reader>)
    ensures r.None? <==> (if byteSize.None? then data.Length else byteSize.value) > data.Length - offset
    ensures r.Some? ==>
              var t := r.value;
              var total := if byteSize.None? then data.Length else byteSize.value;
              && fresh(t) && t.Valid() && t.c == Config(address, offset, total) && t.data == data
              && t.W() == Refill(START, Chunks(total)) && Inv(t.W(), Chunks(total))
              && t.TokenKept() && t.initialToken == if total > 0 then Some(0) else None
  {
    var total := if byteSize.None? then data.Length else byteSize.value;
    if total > data.Length - offset {
      return None;
    }
    var t := new Reader(Config(address, offset, total), data);
    RefillKeeps(START, Chunks(total));
    var token := t.RequestData();
    t.initialToken := token;
    return Some(t);
  }
}
