/**
 * Responses to HEAD (Nowin/Transport2HttpHandler.cs:580-587, 712-757, 830-860, 1414-1450): the same calls
 * send a header block and nothing else, except for the zero chunk of a flushed response; against section
 * 3.3.3 of RFC 7230.
 */
module ResponseHead {
  import opened Bytes
  import opened ChunkEncoder
  import opened ResponseSpec
  import opened ResponseTheorems
  import opened ResponseReuse
  import opened ResponseWire
  import opened ResponseClient

  /** The invariant of every run: the header block or nothing is on the wire. */
  predicate HeadInv(r: Response) {
    && ValidConfig(r.config) && r.config.isHead && |r.local| <= r.config.size && !r.closed
    && r.trace.blocks == []
    && if r.headersSent
       then 200 <= r.header.statusCode <= 999 && r.head == HeaderBlock(r.config, r.header) && r.trace.wire == r.head
       else r.trace.wire == []
  }

  /** Behind the header block nothing is sent, and nothing fails. */
  lemma SilentSend(r: Response, block: seq<Byte>, own: bool)
    requires HeadInv(r) && r.headersSent && (own || !r.header.chunked)
    ensures Send(r, block, own) == (r, Sent)
  {
    hide HeaderBlock;
  }

  lemma {:induction false} SilentOverflow(r: Response, data: seq<Byte>)
    requires HeadInv(r) && r.headersSent && data != []
    ensures var (q, o) := Overflow(r, data);
            o == Sent && HeadInv(q) && q == r.(local := q.local, position := r.position + |data|)
    decreases |data|
  {
    hide Send, HeaderBlock;
    SilentSend(r.(local := []), r.local, true);
    var (r1, o) := FlushIfFull(r);
    if |r.local| == r.config.size && |data| >= r.config.size && CanUseDirectWrite(r1) {
      SilentSend(r1.(position := r1.position + |data|), data, false);
    } else {
      var tillEnd := ResponseSpec.Min(r1.config.size - |r1.local|, |data|);
      if tillEnd < |data| {
        SilentOverflow(Buffered(r1, data[..tillEnd]), data[tillEnd..]);
      }
    }
  }

  lemma HeadLater(r: Response, op: Op)
    requires HeadInv(r) && r.headersSent
    ensures var (q, o) := Apply(r, op);
            && o == Sent && HeadInv(q) && q.headersSent && q.header == r.header
            && q.position == r.position + |Data(op)|
  {
    hide Send, Overflow, HeaderBlock;
    SilentSend(r.(local := []), r.local, true);
    if op.WriteOp? && |op.data| > r.config.size - |r.local| {
      SilentOverflow(r, op.data);
    }
  }

  /** The flush that sends the header block. */
  lemma HeadOpens(r: Response)
    requires HeadInv(r) && !r.headersSent && !Refuses(r)
    ensures var (q, o) := Flush(r);
            && o == Sent && HeadInv(q) && q.headersSent && q.header == Upcoming(r) && q.local == []
            && q.position == r.position && q.config == r.config
  {
    hide HeaderBlock, Decide, Consumed;
    var head := HeaderBlock(r.config, Upcoming(r));
    assert [] + (head + BodyBytes(Upcoming(r).chunked, [])) == head;
  }

  lemma HeadApplyOpens(r: Response, op: Op)
    requires HeadInv(r) && !r.headersSent && FlushPoint(r, op).Some? && !Refuses(FlushPoint(r, op).value)
    ensures var p := FlushPoint(r, op).value;
            var (q, o) := Apply(r, op);
            && o == Sent && HeadInv(q) && q.headersSent && q.header == Upcoming(p)
            && q.position == r.position + |Data(op)|
  {
    hide Flush, Refuses, Upcoming, Send, HeaderBlock;
    var p := FlushPoint(r, op).value;
    HeadOpens(p);
    match op {
      case WriteOp(data) =>
        var room := r.config.size - |r.local|;
        WriteAtFlushPoint(r, data);
        HeadOpeningOverflow(p, data[room..]);
      case FlushOp =>
    }
  }

  lemma HeadOpeningOverflow(p: Response, data: seq<Byte>)
    requires ValidConfig(p.config) && |p.local| == p.config.size && data != []
    ensures var (q1, o1) := Flush(p);
            var (q, o) := Overflow(p, data);
            o1 == Sent && HeadInv(q1) && q1.headersSent ==>
              && o == Sent && HeadInv(q) && q.headersSent && q.header == q1.header
              && q.position == p.position + |data|
  {
    hide Flush, Overflow, HeadInv, AfterOpening, Upcoming, FlushPoint;
    OverflowAtFullBuffer(p, data);
    if Flush(p).1 == Sent && HeadInv(Flush(p).0) && Flush(p).0.headersSent {
      HeadRest(Flush(p).0, data);
    }
  }

  /** The first iteration of WriteOverflowAsync with its header block sent, up to the next one. */
  function AfterOpening(q: Response, data: seq<Byte>): (Response, Outcome)
    requires q.config.size > 0 && q.local == [] && data != []
  {
    if |data| >= q.config.size && CanUseDirectWrite(q) then
      Send(q.(position := q.position + |data|), data, false)
    else
      var n := ResponseSpec.Min(q.config.size, |data|);
      var r := q.(local := data[..n], position := q.position + n);
      if n == |data| then (r, Sent) else Overflow(r, data[n..])
  }

  lemma OverflowAtFullBuffer(p: Response, data: seq<Byte>)
    requires p.config.size > 0 && |p.local| == p.config.size && data != []
    ensures Flush(p).1 == Sent ==> Overflow(p, data) == AfterOpening(Flush(p).0, data)
  {
    hide Flush, Send, CanUseDirectWrite;
    assert forall n :: 0 <= n <= |data| ==> [] + data[..n] == data[..n];
  }

  lemma HeadRest(q: Response, data: seq<Byte>)
    requires q.config.size > 0 && HeadInv(q) && q.headersSent && q.local == [] && data != []
    ensures var (e, o) := AfterOpening(q, data);
            o == Sent && HeadInv(e) && e.headersSent && e.header == q.header && e.position == q.position + |data|
  {
    hide Flush, Send, HeaderBlock, Overflow;
    if |data| >= q.config.size && CanUseDirectWrite(q) {
      SilentSend(q.(position := q.position + |data|), data, false);
    } else {
      var n := ResponseSpec.Min(q.config.size, |data|);
      if n < |data| {
        SilentOverflow(q.(local := data[..n], position := q.position + n), data[n..]);
      }
    }
  }

  lemma HeadRefused(r: Response, op: Op)
    requires HeadInv(r) && !r.headersSent && FlushPoint(r, op).Some? && Refuses(FlushPoint(r, op).value)
    ensures var p, q := FlushPoint(r, op).value, Apply(r, op).0;
            && HeadInv(q) && !q.headersSent && q.header == Upcoming(p)
            && (q.header.chunked <==> r.header.chunked || TurnsChunked(r, op))
  {
    hide Flush, HeaderBlock;
    ApplyRefused(r, op);
    RefusedFlush(FlushPoint(r, op).value);
  }

  lemma HeadQuiet(r: Response, op: Op)
    requires HeadInv(r) && !r.headersSent && FlushPoint(r, op).None?
    ensures HeadInv(Apply(r, op).0)
  {
    hide HeaderBlock;
    ApplyQuiet(r, op);
  }

  lemma {:induction false} HeadRunLater(r: Response, ops: seq<Op>)
    requires HeadInv(r) && r.headersSent
    ensures var e := Run(r, ops); HeadInv(e) && e.headersSent && e.header == r.header
    ensures !EverTurnsChunked(r, ops)
    decreases |ops|
  {
    hide Apply, HeadInv, Data;
    if ops != [] {
      HeadIsValid(r);
      HeadLater(r, ops[0]);
      HeadRunLater(Apply(r, ops[0]).0, ops[1..]);
    }
  }

  lemma HeadIsValid(r: Response)
    requires HeadInv(r)
    ensures ValidConfig(r.config) && |r.local| <= r.config.size
  {
  }

  /** As RunDecides: what is sent is decided at the opening flush. */
  lemma {:induction false} HeadDecides(r: Response, ops: seq<Op>)
    requires HeadInv(r) && !r.headersSent
    ensures var e, p := Run(r, ops), Opening(r, ops);
            && HeadInv(e) && (e.headersSent <==> p.Some?)
            && (p.Some? ==> e.header == Upcoming(p.value))
            && (p.Some? ==> (p.value.header.chunked <==> r.header.chunked || EverTurnsChunked(r, ops)))
    decreases |ops|
  {
    hide Apply, HeadInv, Upcoming, Refuses, Undeclared;
    HeadIsValid(r);
    if ops != [] {
      var p := FlushPoint(r, ops[0]);
      var q := Apply(r, ops[0]).0;
      if p.None? {
        ApplyQuiet(r, ops[0]);
        HeadQuiet(r, ops[0]);
        HeadDecides(q, ops[1..]);
      } else if Refuses(p.value) {
        HeadRefused(r, ops[0]);
        HeadDecides(q, ops[1..]);
      } else {
        HeadApplyOpens(r, ops[0]);
        HeadRunLater(q, ops[1..]);
      }
    }
  }

  /**
   * A reused connection carries a header block and nothing else, if and only if no flush has sent the
   * header block with chunked coding on: then the zero chunk follows it.
   */
  lemma HeadIsFramed(r: Response, ops: seq<Op>, end: Ending)
    requires Fresh(r) && r.config.isHead && Reused(Conclude(Run(r, ops), end))
    ensures var q := Conclude(Run(r, ops), end);
            && Headed(q)
            && Body(q) == (if SendsChunked(r, ops) then ZERO_CHUNK else [])
  {
    hide HeaderBlock, Run, EverTurnsChunked, Opening, Conclude, Last, Upcoming, Undeclared, Decide;
    HeadDecides(r, ops);
    var e := Run(r, ops);
    ConcludeOrAbort(e, end);
    var l := Last(e, end);
    HeadLast(e, end);
    HeadFinishes(l);
    if e.headersSent {
      ChunkedIfUndeclared(Opening(r, ops).value);
    }
  }

  lemma ChunkedIfUndeclared(p: Response)
    ensures Upcoming(p).chunked <==> p.header.chunked || (Undeclared(p) && !p.config.isHttp10)
  {
  }

  lemma HeadLast(e: Response, end: Ending)
    requires HeadInv(e)
    ensures var l := Last(e, end); HeadInv(l) && l == e.(wish := l.wish)
  {
    hide HeaderBlock;
  }

  lemma HeadFinishes(l: Response)
    requires HeadInv(l)
    ensures var q := Finish(l);
            Reused(q) ==>
              && Headed(q) && q.trace.wire == q.head + (if l.headersSent && l.header.chunked then ZERO_CHUNK else [])
  {
    hide HeaderBlock, Decide;
    var q := Finish(l);
    assert q.head + [] == q.head && [] + q.head == q.head && BodyBytes(true, []) + ZERO_CHUNK == ZERO_CHUNK;
  }

  /** Exactly when the connection is reused. */
  lemma HeadReusedExactly(r: Response, ops: seq<Op>, end: Ending)
    requires Fresh(r) && r.config.isHead
    ensures var e := Run(r, ops);
            Reused(Conclude(e, end)) <==>
            && !Aborts(e, end)
            && match Opening(r, ops)
               case Some(p) =>
                 KeptOpen(p) && if Announced(p) == ULONG_MAX then !r.config.isHttp10 else Announced(p) == e.position
               case None =>
                 var l := AtTheEnd(e, end);
                 KeptOpen(l) && !(Announced(l) == ULONG_MAX && r.config.isHttp10) && FitsAtTheEnd(l)
  {
    hide HeaderBlock, Run, Opening, EverTurnsChunked, Finish, Decide, Prepare, Consumed, Conclude, Aborts, Last;
    HeadDecides(r, ops);
    var e := Run(r, ops);
    var l := Last(e, end);
    ConcludeOrAbort(e, end);
    HeadLast(e, end);
    if e.headersSent {
      HeadFinishSent(l);
      HeadKeeps(Opening(r, ops).value, false);
    } else {
      HeadFinishUnsent(l);
      HeadKeeps(l, true);
      if !Aborts(e, end) {
        LastIsAtTheEnd(e, end);
      }
    }
  }

  lemma HeadFinishSent(l: Response)
    requires HeadInv(l) && l.headersSent
    ensures Reused(Finish(l)) <==>
            l.header.keepAlive && (l.header.contentLength == ULONG_MAX || l.header.contentLength == l.position)
  {
    hide HeaderBlock, Decide;
  }

  lemma HeadFinishUnsent(l: Response)
    requires HeadInv(l) && !l.headersSent
    ensures Reused(Finish(l)) <==>
            FitsAtTheEnd(l) && Decide(l.config, l.wish, l.header, l.position, true).keepAlive
  {
    hide HeaderBlock, Decide;
  }

  lemma HeadKeeps(p: Response, finished: bool)
    requires p.config.isHead
    ensures var d := Decide(p.config, p.wish, p.header, p.position, finished);
            && (d.keepAlive <==> KeptOpen(p) && !(Announced(p) == ULONG_MAX && p.config.isHttp10))
            && d.contentLength == Announced(p)
  {
  }

  /** The state in which the header block is decided. */
  function DecidedAt(r: Response, ops: seq<Op>, end: Ending): Response
    requires Fresh(r)
  {
    match Opening(r, ops)
    case Some(p) => p
    case None => AtTheEnd(Run(r, ops), end)
  }

  /**
   * On a reused connection the client reads the header block the application has asked for, with a length
   * if one is declared; behind it stands the zero chunk of a flushed response, or nothing.
   */
  lemma HeadClientReads(r: Response, ops: seq<Op>, end: Ending)
    requires Fresh(r) && r.config.isHead && CleanRun(r, ops, end) && Reused(Conclude(Run(r, ops), end))
    ensures var q := Conclude(Run(r, ops), end);
            var reply := ReadReply(q.trace.wire);
            && reply.Some? && TellsAsAsked(reply.value, DecidedAt(r, ops, end), false)
            && q.trace.wire[reply.value.size..] == (if SendsChunked(r, ops) then ZERO_CHUNK else [])
  {
    hide HeaderBlock, Run, EverTurnsChunked, Opening, Conclude, Last, Upcoming, Undeclared, Decide, ReadReply, Body;
    hide TellsAsAsked, CleanWish, CleanServer, Tells, Readable, SendsChunked, Aborts;
    HeadIsFramed(r, ops, end);
    HeadDecides(r, ops);
    RunIsClean(r, ops);
    OpeningIsClean(r, ops);
    var e := Run(r, ops);
    ConcludeOrAbort(e, end);
    HeadLast(e, end);
    LastIsClean(e, end);
    var l := Last(e, end);
    var q := Conclude(e, end);
    var p := DecidedAt(r, ops, end);
    if !e.headersSent {
      LastIsAtTheEnd(e, end);
    }
    CleanMeansWish(l);
    FinishKeepsHeader(l);
    NothingToReplace(p);
    assert q.header == Upcoming(p) && q.config == p.config;
    UpcomingIs(p);
    ReadAt(p, false, q);
    DecidedIsClean(p.config, p.wish, p.header, p.position, false);
    ReadableMeans(p.(header := q.header), q);
    ResponseClient.HeadIsRead(q);
  }

  lemma UpcomingIs(p: Response)
    ensures Upcoming(p) == Decide(p.config, p.wish, p.header, p.position, false)
  {
  }

  lemma NothingToReplace(p: Response)
    requires p.config.isHead
    ensures Decide(p.config, p.wish, p.header, p.position, true) == Upcoming(p)
  {
  }

  // A flushed response to HEAD leaves the zero chunk on a connection that is reused.
  lemma FlushedHead() returns (r: Response)
    ensures Fresh(r) && r.config.isHead
    ensures var q := Conclude(Run(r, [FlushOp]), Plainly(Completes, false));
            Reused(q) && Body(q) == ZERO_CHUNK
  {
    hide HeaderBlock, Run, Conclude;
    r := NewResponse(AsksStatus(200)).(config := Config(1024, true, false, None));
    ShortHead(r);
    assert [FlushOp][1..] == [];
    OpensAtOnce(r);
    var end := Plainly(Completes, false);
    StatusOfRun(r);
    HeadReusedExactly(r, [FlushOp], end);
    HeadIsFramed(r, [FlushOp], end);
  }

  lemma OpensAtOnce(r: Response)
    requires Fresh(r) && !Refuses(r)
    ensures Opening(r, [FlushOp]) == Some(r)
  {
    hide HeaderBlock, Apply, Upcoming;
  }

  lemma StatusOfRun(r: Response)
    requires Fresh(r) && r.wish == AsksStatus(200)
    ensures !Aborts(Run(r, [FlushOp]), Plainly(Completes, false))
  {
    hide Run, Aborts;
    PlainStatus(r, [FlushOp]);
    PlainAborts(r, Run(r, [FlushOp]), Completes, false);
  }

  lemma ShortHead(r: Response)
    requires r.config == Config(1024, true, false, None) && r.wish == AsksStatus(200)
    requires r.header.contentLength == ULONG_MAX && !r.headersSent
    ensures !Refuses(r)
  {
    var d := Upcoming(r);
    assert |StatusLine(d)| == 14 && |FramingLines(r.config, d)| == 28;
    assert |ConnectionLines(r.config, d)| <= 19 && |ServerLines(r.config, d)| <= 8 && FieldLines(d.shown) == "";
  }
}
