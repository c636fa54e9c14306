/** Writing to a debug core in chunks. */
module WriteTransfer {
  import opened TransferWindow
  import opened Wrappers

  /** A write request. */
  datatype Request = Request(addr: nat, data: seq<byte>)

  datatype Config = Config(address: nat, offset: nat, total: nat)

  function ChunkRequest(c: Config, source: seq<byte>, i: nat): Request
    requires c.offset + c.total <= |source| && i < Chunks(c.total)
  {
    ChunksTile(c.total, 0, i);
    var start := c.offset + i * CHUNK;
    Request(c.address + i * CHUNK, source[start..start + ChunkSize(c.total, i)])
  }

  function Written(mem: Memory, r: Request): Memory {
    (a: nat) => if r.addr <= a < r.addr + |r.data| then r.data[a - r.addr] else mem(a)
  }

  /** The device performs an outstanding request, or confirms one.  It confirms without error
      only what it has performed; a request that it rejects may have been performed or not. */
  datatype Step = Perform(token: nat) | Confirm(token: nat, error: Option<Error>)

  datatype WriteState = WriteState(x: Window, performed: set<nat>, mem: Memory)

  predicate Possible(s: WriteState, e: Step) {
    && e.token in s.x.pending
    && (e.Confirm? && e.error.None? ==> e.token in s.performed)
  }

  function Take(c: Config, source: seq<byte>, s: WriteState, e: Step): WriteState
    requires c.offset + c.total <= |source| && (e.Perform? ==> e.token < Chunks(c.total))
  {
    match e
    case Perform(t) => WriteState(s.x, s.performed + {t}, Written(s.mem, ChunkRequest(c, source, t)))
    case Confirm(t, error) => s.(x := Reply(s.x, Chunks(c.total), t, error))
  }

  function Begin(c: Config, mem: Memory): WriteState {
    WriteState(Refill(START, Chunks(c.total)), {}, mem)
  }

  /** The state after a run in which every step was possible. */
  ghost function WriteRun(c: Config, source: seq<byte>, mem: Memory, es: seq<Step>): Option<WriteState>
    requires c.offset + c.total <= |source|
  {
    if es == [] then Some(Begin(c, mem))
    else
      var e := es[|es| - 1];
      match WriteRun(c, source, mem, es[..|es| - 1])
      case None => None
      case Some(s) =>
        if Possible(s, e) && e.token < Chunks(c.total) then Some(Take(c, source, s, e)) else None
  }

  /** The replies of a run. */
  ghost function Replies(es: seq<Step>): seq<Event> {
    if es == [] then []
    else
      var before, e := Replies(es[..|es| - 1]), es[|es| - 1];
      if e.Confirm? then before + [Event(e.token, e.error)] else before
  }

  /** A write is a run of the window. */
  lemma {:induction false} WriteRunIsWindowRun(c: Config, source: seq<byte>, mem: Memory, es: seq<Step>)
    requires c.offset + c.total <= |source| && WriteRun(c, source, mem, es).Some?
    ensures Run(Chunks(c.total), Replies(es)) == Some(WriteRun(c, source, mem, es).value.x)
  {
    if es != [] {
      var before, e := es[..|es| - 1], es[|es| - 1];
      WriteRunIsWindowRun(c, source, mem, before);
      if e.Confirm? {
        assert Replies(es)[..|Replies(es)| - 1] == Replies(before);
      }
    }
  }

  /** The requests of a write: chunks of 0x8000 bytes from the address on, of which the last may
      be shorter, each with its own slice of the source. */
  lemma RequestsAre(c: Config, source: seq<byte>, i: nat)
    requires c.offset + c.total <= |source|
    ensures i < Chunks(c.total) <==> 0x8000 * i < c.total
    ensures i < Chunks(c.total) ==>
              var size := if 0x8000 * (i + 1) < c.total then 0x8000 else c.total - 0x8000 * i;
              ChunkRequest(c, source, i) ==
              Request(c.address + 0x8000 * i, source[c.offset + 0x8000 * i..c.offset + 0x8000 * i + size])
  {
  }

  /** Memory while writing: performed chunks hold the source, the rest is as it was, and chunks
      answered without an error are performed. */
  ghost predicate MemoryIs(c: Config, source: seq<byte>, mem: Memory, s: WriteState)
    requires c.offset + c.total <= |source|
  {
    && (forall t | t in s.performed :: t < Chunks(c.total))
    && (s.x.err.None? ==> forall t: nat | t < s.x.next && t !in s.x.pending :: t in s.performed)
    && forall a: nat :: s.mem(a) ==
         if c.address <= a < c.address + c.total && (a - c.address) / CHUNK in s.performed
         then source[c.offset + a - c.address] else mem(a)
  }

  lemma PerformedByte(c: Config, source: seq<byte>, s: WriteState, t: nat, a: nat)
    requires c.offset + c.total <= |source| && t < Chunks(c.total)
    ensures Take(c, source, s, Perform(t)).mem(a) ==
            if c.address <= a < c.address + c.total && (a - c.address) / CHUNK == t
            then source[c.offset + a - c.address] else s.mem(a)
  {
    ChunksTile(c.total, if a < c.address then 0 else a - c.address, t);
    hide Chunks, ChunkSize;
  }

  lemma PerformKeeps(c: Config, source: seq<byte>, mem: Memory, s: WriteState, t: nat)
    requires c.offset + c.total <= |source| && t < Chunks(c.total) && MemoryIs(c, source, mem, s)
    ensures MemoryIs(c, source, mem, Take(c, source, s, Perform(t)))
  {
    hide ChunkRequest, Chunks, Written;
    forall a: nat {
      PerformedByte(c, source, s, t, a);
    }
  }

  lemma ConfirmKeeps(c: Config, source: seq<byte>, mem: Memory, s: WriteState, e: Step)
    requires c.offset + c.total <= |source| && e.Confirm? && Possible(s, e)
    requires Inv(s.x, Chunks(c.total)) && MemoryIs(c, source, mem, s)
    ensures MemoryIs(c, source, mem, Take(c, source, s, e))
  {
    hide Reply, Inv;
    forall t: nat {
      ReplyPending(s.x, Chunks(c.total), e.token, e.error, t);
    }
  }

  lemma {:induction false} WriteRunMemory(c: Config, source: seq<byte>, mem: Memory, es: seq<Step>)
    requires c.offset + c.total <= |source| && WriteRun(c, source, mem, es).Some?
    ensures MemoryIs(c, source, mem, WriteRun(c, source, mem, es).value)
  {
    if es == [] {
      RefillSends(START, Chunks(c.total));
    } else {
      var before, e := es[..|es| - 1], es[|es| - 1];
      var s := WriteRun(c, source, mem, before).value;
      WriteRunMemory(c, source, mem, before);
      WriteRunIsWindowRun(c, source, mem, before);
      RunKeepsInv(Chunks(c.total), Replies(before));
      hide MemoryIs, Inv, Reply;
      match e
      case Perform(t) => PerformKeeps(c, source, mem, s, t);
      case Confirm(_, _) => ConfirmKeeps(c, source, mem, s, e);
    }
  }

  lemma MemoryWhenDone(c: Config, source: seq<byte>, mem: Memory, s: WriteState, a: nat)
    requires c.offset + c.total <= |source| && MemoryIs(c, source, mem, s) && Inv(s.x, Chunks(c.total))
    ensures !(c.address <= a < c.address + c.total) ==> s.mem(a) == mem(a)
    ensures s.x.done == [None] && c.address <= a < c.address + c.total ==>
              s.mem(a) == source[c.offset + a - c.address]
  {
    if c.address <= a < c.address + c.total {
      ChunksTile(c.total, a - c.address, (a - c.address) / CHUNK);
    }
  }

  /** When the callback reports success, device memory equals the source slice over the whole
      range; outside the range it never changes. */
  lemma WriteIsExact(c: Config, source: seq<byte>, mem: Memory, es: seq<Step>, a: nat)
    requires c.offset + c.total <= |source| && WriteRun(c, source, mem, es).Some?
    ensures var s := WriteRun(c, source, mem, es).value;
            && (!(c.address <= a < c.address + c.total) ==> s.mem(a) == mem(a))
            && (s.x.done == [None] && c.address <= a < c.address + c.total ==>
                  s.mem(a) == source[c.offset + a - c.address])
  {
    hide MemoryIs, Inv, Replies;
    WriteRunMemory(c, source, mem, es);
    WriteRunIsWindowRun(c, source, mem, es);
    RunKeepsInv(Chunks(c.total), Replies(es));
    MemoryWhenDone(c, source, mem, WriteRun(c, source, mem, es).value, a);
  }

  /** Once every reply is in, the callback was called exactly once, with the first error if any
      reply carried one; only an empty write never calls back. */
  lemma WriteCompletes(c: Config, source: seq<byte>, mem: Memory, es: seq<Step>)
    requires c.offset + c.total <= |source| && WriteRun(c, source, mem, es).Some?
    requires WriteRun(c, source, mem, es).value.x.pending == {}
    ensures WriteRun(c, source, mem, es).value.x.done == if c.total > 0 then [FirstError(Replies(es))] else []
  {
    WriteRunIsWindowRun(c, source, mem, es);
    CompletedExactly(Chunks(c.total), Replies(es));
  }

  // ---------- the client's callbacks

  class Writer {
    const c: Config
    const data: array<byte>
    // the buffer's contents, which the caller leaves alone during the transfer
    ghost const source: seq<byte>
    var nextChunk: nat
    var localPending: set<nat>
    var allSent: bool
    var err: Option<Error>
    var initialToken: Option<nat>
    var sent: seq<Request>
    // the arguments of each call of the callback
    var doneTokens: seq<Option<nat>>
    var doneErrors: seq<Option<Error>>

    ghost predicate Valid()
      reads this, data
    {
      && c.offset + c.total <= data.Length && data[..] == source
      && nextChunk == |sent| <= Chunks(c.total)
      && forall i | 0 <= i < |sent| :: sent[i] == ChunkRequest(c, source, i)
    }

    /** The callback gets the token that the caller was given: that of the first request. */
    ghost predicate TokenKept()
      reads this
    {
      && |doneTokens| == |doneErrors|
      && (c.total > 0 ==> if doneErrors == [] then initialToken == Some(0) else doneTokens[0] == Some(0))
    }

    ghost function W(): Window
      reads this
    {
      Window(nextChunk, localPending, allSent, err, doneErrors)
    }

    constructor (c: Config, data: array<byte>)
      requires c.offset + c.total <= data.Length
      ensures Valid() && this.c == c && this.data == data && W() == START && doneTokens == []
    {
      this.c, this.data, this.source := c, data, data[..];
      nextChunk, localPending, allSent, err := 0, {}, false, None;
      initialToken, sent, doneTokens, doneErrors := None, [], [], [];
    }

    method WriteDone()
      requires Valid()
      modifies this
      ensures Valid() && W() == CallDone(old(W()))
      ensures doneTokens == old(doneTokens) + [old(initialToken)] && initialToken.None?
    {
      var token := initialToken;
      initialToken := None;
      doneTokens, doneErrors := doneTokens + [token], doneErrors + [err];
    }

    /** Returns the token of the first request it sends, if any. */
    method SendData() returns (returnToken: Option<nat>)
      requires Valid() && Range(W(), Chunks(c.total))
      modifies this
      ensures Valid() && W() == RequestMore(old(W()), Chunks(c.total))
      ensures old(err).Some? ==>
                doneTokens == old(doneTokens) + [old(initialToken)] && doneErrors == old(doneErrors) + [old(err)]
      ensures returnToken == if old(err).None? && nextChunk > old(nextChunk) then Some(old(nextChunk)) else None
      ensures old(err).None? ==>
                initialToken == old(initialToken) && doneTokens == old(doneTokens) && doneErrors == old(doneErrors)
    {
      hide ChunkRequest, Refill;
      returnToken := None;
      if err.Some? {
        WriteDone();
        return;
      }
      while |localPending| < WINDOW && !allSent
        invariant Valid() && err.None? && (allSent ==> nextChunk == Chunks(c.total))
        invariant initialToken == old(initialToken) && nextChunk >= old(nextChunk)
        invariant doneTokens == old(doneTokens) && doneErrors == old(doneErrors)
        invariant Refill(W(), Chunks(c.total)) == Refill(old(W()), Chunks(c.total))
        invariant returnToken == if nextChunk > old(nextChunk) then Some(old(nextChunk)) else None
        decreases Chunks(c.total) - nextChunk, !allSent
      {
        RefillStep(W(), Chunks(c.total));
        if nextChunk * CHUNK < c.total {
          sent := sent + [ChunkRequest(c, data[..], nextChunk)];
          if returnToken.None? {
            returnToken := Some(nextChunk);
          }
          localPending := localPending + {nextChunk};
          nextChunk := nextChunk + 1;
        } else {
          allSent := true;
          break;
        }
      }
      RefillWhenDone(W(), Chunks(c.total));
    }

    /** The reply to an outstanding request. */
    method SendConfirmation(token: nat, error: Option<Error>)
      requires Valid() && Inv(W(), Chunks(c.total)) && TokenKept() && token in localPending
      modifies this
      ensures Valid() && Inv(W(), Chunks(c.total)) && TokenKept()
      ensures W() == Reply(old(W()), Chunks(c.total), token, error)
    {
      hide Inv, Reply, Refill, RequestMore, Range, ChunkRequest;
      ReplySteps(W(), Chunks(c.total), token, error);
      localPending := localPending - {token};
      if err.Some? {
        return;
      }
      err := error;
      if localPending != {} || !allSent {
        var first := SendData();
      } else {
        WriteDone();
      }
    }
  }

  lemma RefillWhenDone(x: Window, n: nat)
    ensures |x.pending| >= WINDOW || (x.allSent && x.next == n) ==> Refill(x, n) == x
  {
  }

  /** Starts a write; None stands for the raised IndexError. */
  method WriteBytes(address: nat, data: array<byte>, offset: nat, byteSize: Option<nat>) returns (r: Option<Writer>)
    ensures r.None? <==> (if byteSize.None? then data.Length else byteSize.value) > data.Length - offset
    ensures r.Some? ==>
              var t := r.value;
              var total := if byteSize.None? then data.Length else byteSize.value;
              && fresh(t) && t.Valid() && t.c == Config(address, offset, total) && t.data == data
              && t.W() == Refill(START, Chunks(total)) && Inv(t.W(), Chunks(total))
              && t.TokenKept() && t.initialToken == if total > 0 then Some(0) else None
  {
    var total := if byteSize.None? then data.Length else byteSize.value;
    if total > data.Length - offset {
      return None;
    }
    var t := new Writer(Config(address, offset, total), data);
    RefillKeeps(START, Chunks(total));
    var token := t.SendData();
    t.initialToken := token;
    return Some(t);
  }
}
