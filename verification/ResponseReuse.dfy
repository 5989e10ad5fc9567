/**
 * When the connection is reused behind a response, and what the client then finds on the wire: over
 * every run of writes, flushes and header changes and every ending (Nowin/Transport2HttpHandler.cs:576-664,
 * 712-757, 830-885, 1264-1276, 1414-1450, Nowin/OwinHandler.cs:201-246), against sections 3.3.2, 3.3.3 and
 * 4.1 of RFC 7230.
 */
module ResponseReuse {
  import opened Bytes
  import opened Chunked
  import opened ChunkedBody
  import opened ChunkEncoder
  import opened ResponseSpec
  import opened ResponseTheorems

  // ---------------------------------------------------------------------------------------
  // The flushes of a run
  // ---------------------------------------------------------------------------------------

  /** A flush is refused and takes buffered bytes with it. */
  predicate Drops(r: Response, op: Op)
    requires |r.local| <= r.config.size
  {
    var p := FlushPoint(r, op);
    p.Some? && Refuses(p.value) && p.value.local != []
  }

  predicate EverDrops(r: Response, ops: seq<Op>)
    requires ValidConfig(r.config) && |r.local| <= r.config.size
    decreases |ops|
  {
    ops != [] && (Drops(r, ops[0]) || EverDrops(Apply(r, ops[0]).0, ops[1..]))
  }

  /** No length is declared, so FillResponse(false) decides on chunked coding if it can. */
  predicate Undeclared(r: Response) {
    Prepare(r.wish, r.header).contentLength == ULONG_MAX
  }

  /** A flush is refused after it has decided on chunked coding. */
  predicate TurnsChunked(r: Response, op: Op)
    requires |r.local| <= r.config.size
  {
    var p := FlushPoint(r, op);
    p.Some? && Refuses(p.value) && Undeclared(p.value) && !r.config.isHttp10
  }

  predicate EverTurnsChunked(r: Response, ops: seq<Op>)
    requires ValidConfig(r.config) && |r.local| <= r.config.size
    decreases |ops|
  {
    ops != [] && (TurnsChunked(r, ops[0]) || EverTurnsChunked(Apply(r, ops[0]).0, ops[1..]))
  }

  /** The state in which a flush sends the header block, if one does. */
  function Opening(r: Response, ops: seq<Op>): (p: Option<Response>)
    requires ValidConfig(r.config) && |r.local| <= r.config.size && !r.headersSent
    ensures p.Some? ==> p.value.config == r.config
    decreases |ops|
  {
    if ops == [] then None
    else
      var p, q := FlushPoint(r, ops[0]), Apply(r, ops[0]).0;
      if p.Some? && !Refuses(p.value) then p
      else if q.headersSent then None
      else Opening(q, ops[1..])
  }

  // ---------------------------------------------------------------------------------------
  // What the flushes decide
  // ---------------------------------------------------------------------------------------

  /** A run behind the header block. */
  lemma {:induction false} RunLater(r: Response, ops: seq<Op>)
    requires Inv(r) && r.headersSent
    ensures var e := Run(r, ops);
            && Inv(e) && e.headersSent && e.header == r.header
            && (!e.closed ==> e.trace.lost == r.trace.lost && !r.closed && e.position == r.position + |Written(ops)|)
            && r.position <= e.position <= r.position + |Written(ops)|
            && (e.header.contentLength == ULONG_MAX ==> AllSent(r, ops))
    ensures !EverDrops(r, ops) && !EverTurnsChunked(r, ops)
    decreases |ops|
  {
    hide Apply, Inv, Data;
    if ops != [] {
      ApplyLater(r, ops[0]);
      ApplyKeeps(r, ops[0]);
      RunLater(Apply(r, ops[0]).0, ops[1..]);
    }
  }

  /** What a refused flush changes. */
  lemma RefusedStep(r: Response, op: Op)
    requires Inv(r) && !r.headersSent && FlushPoint(r, op).Some? && Refuses(FlushPoint(r, op).value)
    ensures var p, q := FlushPoint(r, op).value, Apply(r, op).0;
            && !q.headersSent && q.header == Upcoming(p)
            && q.trace.lost == r.trace.lost + |p.local|
            && (q.header.chunked <==> r.header.chunked || TurnsChunked(r, op))
  {
    hide Flush, HeaderBlock;
    ApplyRefused(r, op);
    RefusedFlush(FlushPoint(r, op).value);
  }

  /**
   * The header block that is sent is the one upcoming at the opening flush; `chunked` is older than
   * that exactly if a refused flush had turned it on.
   */
  lemma {:induction false} RunDecides(r: Response, ops: seq<Op>)
    requires Inv(r) && !r.headersSent
    ensures var e, p := Run(r, ops), Opening(r, ops);
            && Inv(e) && (e.headersSent <==> p.Some?)
            && (p.Some? ==> e.header == Upcoming(p.value))
            && (p.Some? ==> (p.value.header.chunked <==> r.header.chunked || EverTurnsChunked(r, ops)))
            && (p.None? ==> (e.header.chunked <==> r.header.chunked || EverTurnsChunked(r, ops)))
    decreases |ops|
  {
    hide Apply, Inv, Upcoming, Refuses, Undeclared;
    if ops != [] {
      var p := FlushPoint(r, ops[0]);
      ApplyKeeps(r, ops[0]);
      var q := Apply(r, ops[0]).0;
      if p.None? {
        ApplyQuiet(r, ops[0]);
        RunDecides(q, ops[1..]);
      } else if Refuses(p.value) {
        RefusedStep(r, ops[0]);
        RunDecides(q, ops[1..]);
      } else {
        ApplyOpens(r, ops[0]);
        RunLater(q, ops[1..]);
      }
    }
  }

  /** Bytes are missing exactly if a refused flush took some; otherwise the connection is closed. */
  lemma {:induction false} LostIffDropped(r: Response, ops: seq<Op>)
    requires Inv(r) && !r.headersSent
    ensures var e := Run(r, ops);
            && e.trace.lost >= r.trace.lost
            && (!e.closed ==> (e.trace.lost == r.trace.lost <==> !EverDrops(r, ops)))
    decreases |ops|
  {
    hide Apply, Inv, Upcoming, Refuses;
    if ops != [] {
      var p := FlushPoint(r, ops[0]);
      ApplyKeeps(r, ops[0]);
      var q := Apply(r, ops[0]).0;
      if p.None? {
        ApplyQuiet(r, ops[0]);
        LostIffDropped(q, ops[1..]);
      } else if Refuses(p.value) {
        RefusedStep(r, ops[0]);
        LostIffDropped(q, ops[1..]);
      } else {
        ApplyOpens(r, ops[0]);
        RunLater(q, ops[1..]);
        LostOnlyGrows(r, ops);
      }
    }
  }

  /** What FillResponse makes of a wish in one call or several. */
  predicate Wished(w: Wish, w': Wish) {
    w' == w || w' == Consumed(w) || (Consumed(w).statusCode == 500 && w'.statusCode == 500)
  }

  lemma WishedTwice(w: Wish, w1: Wish, w2: Wish)
    requires Wished(w, w1) && Wished(w1, w2)
    ensures Wished(w, w2)
  {
  }

  lemma {:induction false} LostOnlyGrows(r: Response, ops: seq<Op>)
    requires ValidConfig(r.config) && |r.local| <= r.config.size
    ensures Run(r, ops).trace.lost >= r.trace.lost
    decreases |ops|
  {
    hide Apply;
    if ops != [] {
      ApplyOnlyGrows(r, ops[0]);
      LostOnlyGrows(Apply(r, ops[0]).0, ops[1..]);
    }
  }

  lemma ApplyOnlyGrows(r: Response, op: Op)
    requires ValidConfig(r.config) && |r.local| <= r.config.size
    ensures Apply(r, op).0.trace.lost >= r.trace.lost
    ensures !op.AskOp? ==> Wished(r.wish, Apply(r, op).0.wish)
  {
    hide Overflow, Send, Wished;
    NoWish(r.wish);
    SendOnlyGrows(r.(local := []), r.local, true);
    if op.WriteOp? && |op.data| > r.config.size - |r.local| {
      OverflowOnlyGrows(r, op.data);
    }
  }

  lemma SendOnlyGrows(r: Response, block: seq<Byte>, own: bool)
    ensures Send(r, block, own).0.trace.lost >= r.trace.lost
    ensures Wished(r.wish, Send(r, block, own).0.wish)
  {
    hide HeaderBlock, Decide, Consumed, BodyBytes;
  }

  lemma NoWish(w: Wish)
    ensures Wished(w, w)
  {
  }

  lemma {:induction false} OverflowOnlyGrows(r: Response, data: seq<Byte>)
    requires ValidConfig(r.config) && |r.local| <= r.config.size && data != []
    ensures Overflow(r, data).0.trace.lost >= r.trace.lost
    ensures Wished(r.wish, Overflow(r, data).0.wish)
    decreases |data|
  {
    hide Send, Wished;
    NoWish(r.wish);
    var (r1, o) := FlushIfFull(r);
    SendOnlyGrows(r.(local := []), r.local, true);
    SendOnlyGrows(r1.(position := r1.position + |data|), data, false);
    WishedTwice(r.wish, r1.wish, Send(r1.(position := r1.position + |data|), data, false).0.wish);
    if o == Sent && !(|r.local| == r.config.size && |data| >= r.config.size && CanUseDirectWrite(r1)) {
      var tillEnd := Min(r1.config.size - |r1.local|, |data|);
      if tillEnd < |data| {
        OverflowOnlyGrows(Buffered(r1, data[..tillEnd]), data[tillEnd..]);
        WishedTwice(r.wish, r1.wish, Overflow(Buffered(r1, data[..tillEnd]), data[tillEnd..]).0.wish);
      }
    }
  }

  /** What has been written since the last refused flush. */
  function Kept(r: Response, ops: seq<Op>, sofar: seq<Byte>): seq<Byte>
    requires ValidConfig(r.config) && |r.local| <= r.config.size
    decreases |ops|
  {
    if ops == [] then sofar
    else
      var p := FlushPoint(r, ops[0]);
      Kept(Apply(r, ops[0]).0, ops[1..], if p.Some? && Refuses(p.value) then [] else sofar + Data(ops[0]))
  }

  /** Exactly that is on the wire or buffered, unless the connection is closed. */
  lemma {:induction false} KeptIsAccepted(r: Response, ops: seq<Op>)
    requires Inv(r) && !Run(r, ops).closed
    ensures Accepted(Run(r, ops)) == Kept(r, ops, Accepted(r))
    decreases |ops|
  {
    hide Apply, Inv, Accepted, Data, Refuses;
    if ops != [] {
      var q := Apply(r, ops[0]).0;
      ApplyKeeps(r, ops[0]);
      StaysClosed(q, ops[1..]);
      KeptIsAccepted(q, ops[1..]);
      KeptStep(r, ops[0]);
    }
  }

  lemma KeptStep(r: Response, op: Op)
    requires Inv(r) && !Apply(r, op).0.closed
    ensures var p := FlushPoint(r, op);
            Accepted(Apply(r, op).0) == if p.Some? && Refuses(p.value) then [] else Accepted(r) + Data(op)
  {
    hide Apply, Inv, Refuses, Upcoming;
    var p := FlushPoint(r, op);
    ApplyKeeps(r, op);
    if r.headersSent {
      ApplyLater(r, op);
      assert p.Some? ==> !Refuses(p.value) by { SentIsAccepted(r, op); }
    } else if p.None? {
      ApplyQuiet(r, op);
    } else if Refuses(p.value) {
      ApplyRefused(r, op);
      RefusedFlush(p.value);
      UnsentHasNoBlocks(Apply(r, op).0);
    } else {
      ApplyOpens(r, op);
    }
  }

  lemma SentIsAccepted(r: Response, op: Op)
    requires |r.local| <= r.config.size && r.headersSent
    ensures var p := FlushPoint(r, op); p.Some? ==> !Refuses(p.value)
  {
  }

  lemma UnsentHasNoBlocks(r: Response)
    requires Inv(r) && !r.headersSent
    ensures Accepted(r) == r.local
  {
  }

  /** A closed response stays closed. */
  lemma StaysClosed(r: Response, ops: seq<Op>)
    requires Inv(r)
    ensures r.closed ==> Run(r, ops).closed
  {
    hide Run;
    if r.headersSent {
      RunLater(r, ops);
    } else {
      UnsentIsOpen(r);
    }
  }

  // ---------------------------------------------------------------------------------------
  // Finishing
  // ---------------------------------------------------------------------------------------

  /**
   * The response is given up: the request has been cancelled, the application has set one of two statuses,
   * or its task has failed, unless the header block is out with status 500 and the task has thrown.
   */
  predicate Aborts(r: Response, e: Ending) {
    || e.cancelled
    || (e.task.Completes? && r.wish.statusCode in {599, 5000})
    || (!e.task.Completes? && !(e.task.Faults? && r.headersSent && r.wish.statusCode == 500))
  }

  /** What SendHttpResponseAndPrepareForNext finds otherwise. */
  function Last(r: Response, e: Ending): Response {
    Late(AppDone(r, e.task), e.late)
  }

  /** The response at its end, if the header block is still to be sent: callbacks may have changed the wish. */
  function AtTheEnd(r: Response, e: Ending): Response {
    if e.late.Some? then r.(wish := e.late.value) else r
  }

  lemma LastIsAtTheEnd(r: Response, e: Ending)
    requires !Aborts(r, e) && !r.headersSent
    ensures Last(r, e) == AtTheEnd(r, e)
  {
  }

  /**
   * A response that is given up adds nothing to what is on the wire but a fixed error answer, and nothing
   * behind a header block; the connection is closed, at once or behind that answer.
   */
  lemma ConcludeOrAbort(r: Response, e: Ending)
    ensures var q := Conclude(r, e);
            if !Aborts(r, e) then q == Finish(Last(r, e))
            else
              && !Reused(q) && ClosedBehind(q)
              && if r.headersSent || (e.task.Completes? && r.wish.statusCode == 599)
                 then q.closed && q.trace == r.trace && q.head == r.head
                      && (e.task.Completes? && r.wish.statusCode == 599 ==> !q.header.keepAlive)
                 else q.trace.wire == r.trace.wire + Utf8Text(ErrorText(r.config, r.wish.date))
  {
    hide Finish;
  }

  /** Either CloseConnection has been called, or FinishSend calls it behind the last packet. */
  predicate ClosedBehind(q: Response) {
    q.closed || (q.lastPacket && !q.header.keepAlive)
  }

  /** No response leaves the connection hanging: it is reused, or it is closed. */
  lemma ReusedOrClosed(r: Response, ops: seq<Op>, end: Ending)
    requires ValidConfig(r.config) && |r.local| <= r.config.size
    ensures var q := Conclude(Run(r, ops), end); Reused(q) <==> !ClosedBehind(q)
  {
    hide Run, Decide, HeaderBlock, Aborts, Last;
    var e := Run(r, ops);
    ConcludeOrAbort(e, end);
    FinishEnds(Last(e, end));
  }

  lemma FinishEnds(l: Response)
    ensures var q := Finish(l); q.closed || q.lastPacket
  {
    hide Decide, HeaderBlock;
  }

  lemma LastKeeps(r: Response, e: Ending)
    requires Inv(r)
    ensures var l := Last(r, e);
            && Inv(l) && l == r.(wish := l.wish) && Accepted(l) == Accepted(r)
            && (e.task.Completes? && e.late.None? ==> l == r)
  {
    hide HeaderBlock, Framed, Sendable, Concat;
  }

  /** What stands behind the header block. */
  function Body(r: Response): seq<Byte> {
    if |r.head| <= |r.trace.wire| then r.trace.wire[|r.head|..] else []
  }

  /** The header block that has been sent is that of the decisions, and everything else follows it. */
  predicate Headed(q: Response) {
    && q.headersSent && 200 <= q.header.statusCode <= 999
    && q.head == HeaderBlock(q.config, q.header)
    && q.head <= q.trace.wire
  }

  lemma SendableLast(r: Response)
    requires Inv(r) && r.headersSent && r.header.chunked
    ensures Sendable(Finish(r).trace.blocks)
  {
    hide HeaderBlock, FinishFirst, EncodeChunks, EncodeChunk, Concat, HeadersSettled;
  }

  lemma FinishLate(r: Response)
    requires Inv(r) && r.headersSent && Reused(Finish(r))
    ensures var q := Finish(r);
            && Headed(q) && q.header == r.header && Concat(q.trace.blocks) == Accepted(r)
            && Body(q) == Framed(r.header.chunked, q.trace.blocks) + (if r.header.chunked then ZERO_CHUNK else [])
            && (r.header.chunked ==> Sendable(q.trace.blocks))
            && (if q.header.contentLength == ULONG_MAX then r.header.chunked else q.header.contentLength == r.position)
  {
    hide HeaderBlock, FinishFirst, EncodeChunks, EncodeChunk, Concat, Sendable;
    var q := Finish(r);
    var c := r.header.chunked;
    if c {
      SendableLast(r);
    }
    if r.local != [] {
      FramedAppend(c, r.trace.blocks, r.local);
    }
    assert Framed(c, q.trace.blocks) == Framed(c, r.trace.blocks) + BodyBytes(c, r.local);
    assert q.trace.wire == r.head + (Framed(c, q.trace.blocks) + if c then ZERO_CHUNK else []);
  }

  lemma FinishEarly(r: Response)
    requires Inv(r) && !r.headersSent && Reused(Finish(r))
    ensures var q := Finish(r);
            && Headed(q) && q.header.contentLength == r.position
            && Concat(q.trace.blocks) == Accepted(r) && Body(q) == Accepted(r)
  {
    hide HeaderBlock;
    var q := Finish(r);
    assert Concat<Byte>([]) == [];
    FirstBlock(false, r.local);
    assert q.trace.wire == q.head + r.local;
    assert Accepted(r) == r.local;
    assert q.trace.blocks == if r.local == [] then [] else [r.local];
    assert Body(q) == r.local;
  }

  // ---------------------------------------------------------------------------------------
  // What the client finds
  // ---------------------------------------------------------------------------------------

  /** The client takes such a response to end behind the header block. */
  predicate Bodiless(status: int) {
    status == 204 || status == 304
  }

  /**
   * The body is delimited as status and length have been decided: none, a complete chunked body, or the
   * very bytes handed over, as many as announced.
   */
  predicate FramedAsDecided(q: Response) {
    && Headed(q)
    && if Bodiless(q.header.statusCode) then Body(q) == []
       else if q.header.contentLength == ULONG_MAX
       then Decode(START, Body(q)) == Decoded(ENDED, Concat(q.trace.blocks), [])
       else Body(q) == Concat(q.trace.blocks) && |Body(q)| == q.header.contentLength
  }

  /** A flush sends the header block and decides on chunked coding, or an earlier one had decided on it. */
  predicate SendsChunked(r: Response, ops: seq<Op>)
    requires ValidConfig(r.config) && |r.local| <= r.config.size && !r.headersSent
  {
    var p := Opening(r, ops);
    p.Some? && (EverTurnsChunked(r, ops) || (Undeclared(p.value) && !r.config.isHttp10))
  }

  /** When that is so; `ResponseClient.ReuseIsFramed` says the same of what the client reads. */
  lemma ReuseIsFramedAsDecided(r: Response, ops: seq<Op>, end: Ending)
    requires Fresh(r) && !r.config.isHead
    requires Run(r, ops).position < ULONG_MAX && Reused(Conclude(Run(r, ops), end))
    ensures var q := Conclude(Run(r, ops), end);
            FramedAsDecided(q) <==>
            if Bodiless(q.header.statusCode) then !SendsChunked(r, ops) && Kept(r, ops, []) == []
            else
              || q.header.contentLength == ULONG_MAX
              || (!EverDrops(r, ops) && !(EverTurnsChunked(r, ops) && Opening(r, ops).Some?))
    ensures Concat(Conclude(Run(r, ops), end).trace.blocks) == Kept(r, ops, [])
    ensures AllSent(r, ops) ==> Concat(Conclude(Run(r, ops), end).trace.blocks) == Written(ops)
  {
    hide HeaderBlock, Run, AllSent, EverDrops, EverTurnsChunked, Opening, Inv, Finish, EncodeChunks, Concat, Headed;
    hide Conclude, Last, Kept, Accepted, Undeclared, Body;
    FreshIsInv(r);
    RunKeeps(r, ops);
    var e := Run(r, ops);
    ConcludeOrAbort(e, end);
    LastKeeps(e, end);
    var l := Last(e, end);
    RunDecides(r, ops);
    LostIffDropped(r, ops);
    ReusedIsOpen(l);
    KeptIsAccepted(r, ops);
    CountsBytes(e);
    assert [] + Written(ops) == Written(ops);
    if e.headersSent {
      FinishLate(l);
      FramedBody(Finish(l), e.header.chunked);
      ChunkedAtOpening(r, ops);
    } else {
      FinishEarly(l);
    }
  }

  lemma CountsBytes(e: Response)
    requires Inv(e)
    ensures |Accepted(e)| + e.trace.lost == e.position
  {
  }

  lemma ReusedIsOpen(e: Response)
    requires Inv(e) && Reused(Finish(e))
    ensures !e.closed
  {
    hide HeaderBlock, Decide, HeadersSettled, Framed, Sendable, Concat;
  }

  /** Chunked coding is on behind an opening flush; with a Content-Length it is left over from a refused one. */
  lemma ChunkedAtOpening(r: Response, ops: seq<Op>)
    requires Inv(r) && !r.headersSent && !r.header.chunked && Opening(r, ops).Some?
    ensures var e := Run(r, ops);
            && (e.header.chunked <==> SendsChunked(r, ops))
            && (e.header.contentLength != ULONG_MAX ==> (e.header.chunked <==> EverTurnsChunked(r, ops)))
  {
    hide Run, Opening, EverTurnsChunked, Inv;
    RunDecides(r, ops);
  }

  lemma FramedBody(q: Response, chunked: bool)
    requires Headed(q) && (chunked ==> Sendable(q.trace.blocks))
    requires Body(q) == Framed(chunked, q.trace.blocks) + (if chunked then ZERO_CHUNK else [])
    requires q.header.contentLength == ULONG_MAX ==> chunked
    ensures FramedAsDecided(q) <==>
            if Bodiless(q.header.statusCode) then !chunked && Concat(q.trace.blocks) == []
            else q.header.contentLength == ULONG_MAX || (!chunked && |Concat(q.trace.blocks)| == q.header.contentLength)
  {
    hide Decode, EncodeChunks, Concat, Headed;
    var blocks := q.trace.blocks;
    if chunked {
      EncodedBodyDecodes(blocks, []);
      assert EncodeChunks(blocks) + ZERO_CHUNK + [] == EncodeChunks(blocks) + ZERO_CHUNK;
      EncodingIsLonger(blocks);
    } else {
      assert Concat(blocks) + [] == Concat(blocks);
    }
  }

  lemma {:induction false} EncodingIsLonger(blocks: seq<seq<Byte>>)
    ensures |EncodeChunks(blocks)| >= |Concat(blocks)|
  {
    if blocks != [] {
      EncodingIsLonger(blocks[1..]);
    }
  }

  /** While no call fails, nothing is dropped, reordered or repeated, however the data is cut. */
  lemma WrittenInOrder(r: Response, ops: seq<Op>)
    requires Fresh(r) && !r.config.isHead && AllSent(r, ops)
    ensures var e := Run(r, ops);
            Accepted(e) == Written(ops) && e.position == |Written(ops)| && e.trace.lost == 0
  {
    hide Run, AllSent, EverDrops, Inv, Accepted;
    FreshIsInv(r);
    RunKeeps(r, ops);
    CountsBytes(Run(r, ops));
    SentDropsNothing(r, ops);
  }

  lemma {:induction false} SentDropsNothing(r: Response, ops: seq<Op>)
    requires Inv(r) && AllSent(r, ops)
    ensures Run(r, ops).trace.lost == r.trace.lost
    decreases |ops|
  {
    hide Apply, Inv, Upcoming, Refuses;
    if ops != [] {
      var p := FlushPoint(r, ops[0]);
      ApplyKeeps(r, ops[0]);
      if r.headersSent {
        ApplyLater(r, ops[0]);
      } else if p.None? {
        ApplyQuiet(r, ops[0]);
      } else if Refuses(p.value) {
        ApplyRefused(r, ops[0]);
        RefusedFlush(p.value);
      } else {
        ApplyOpens(r, ops[0]);
      }
      SentDropsNothing(Apply(r, ops[0]).0, ops[1..]);
    }
  }

  // ---------------------------------------------------------------------------------------
  // When the connection is reused
  // ---------------------------------------------------------------------------------------

  /**
   * Nothing so far asks to close: the last word on it, by the application or else by the request, is to
   * keep the connection; and there is no reason for status 500.
   */
  predicate KeptOpen(r: Response) {
    && (r.wish.connection == KeepAlive || (r.wish.connection != Close && r.header.keepAlive))
    && !Malformed(r.wish) && 200 <= r.wish.statusCode <= 999 && r.wish.statusCode != 500
  }

  /** Several values of Connection, or a Content-Length that is not one number. */
  predicate Malformed(w: Wish) {
    w.connection == ManyConnections || w.lengthHeader == BadLength
  }

  /** The length the application has declared, by now or before a refused flush; ULONG_MAX if none. */
  function Announced(r: Response): nat {
    if r.wish.lengthHeader.Declared? && !Malformed(r.wish) then r.wish.lengthHeader.n else r.header.contentLength
  }

  /** The header block of a response that is finished unsent fits. */
  predicate FitsAtTheEnd(r: Response) {
    |HeaderBlock(r.config, Decide(r.config, r.wish, r.header, r.position, true))| <= r.config.size
  }

  /**
   * Exactly when the connection is reused, for every run and every ending. An over-write, an
   * under-write, status 500 and HTTP/1.0 without a length all lead to close, whatever the application
   * does besides; so do 599, an uncaught exception and a cancelled request, up to the very end.
   */
  lemma ReusedExactly(r: Response, ops: seq<Op>, end: Ending)
    requires Fresh(r) && !r.config.isHead && Run(r, ops).position < ULONG_MAX
    ensures var e := Run(r, ops);
            Reused(Conclude(e, end)) <==>
            && !Aborts(e, end)
            && match Opening(r, ops)
               case Some(p) =>
                 KeptOpen(p) && if Announced(p) == ULONG_MAX then !r.config.isHttp10 else Announced(p) == e.position
               case None =>
                 var l := AtTheEnd(e, end);
                 KeptOpen(l) && (Announced(l) == ULONG_MAX || Announced(l) == e.position) && FitsAtTheEnd(l)
  {
    hide HeaderBlock, Run, Opening, EverTurnsChunked, Finish, Decide, Prepare, Consumed, Conclude, Aborts, Last;
    FreshIsInv(r);
    RunDecides(r, ops);
    var e := Run(r, ops);
    var l := Last(e, end);
    ConcludeOrAbort(e, end);
    LastKeeps(e, end);
    if e.headersSent {
      var p := Opening(r, ops).value;
      FinishSent(l);
      DecidesToKeep(p, false);
    } else {
      FinishUnsent(l);
      DecidesToKeep(l, true);
      if !Aborts(e, end) {
        LastIsAtTheEnd(e, end);
      }
    }
  }

  lemma FinishSent(e: Response)
    requires Inv(e) && e.headersSent
    ensures Reused(Finish(e)) <==>
            e.header.keepAlive && (e.header.contentLength == ULONG_MAX || e.header.contentLength == e.position)
  {
    hide HeaderBlock, Decide, HeadersSettled, Framed, Sendable, Concat;
  }

  lemma FinishUnsent(e: Response)
    requires Inv(e) && !e.headersSent
    ensures Reused(Finish(e)) <==>
            FitsAtTheEnd(e) && Decide(e.config, e.wish, e.header, e.position, true).keepAlive
  {
    hide HeaderBlock, Decide, Framed, Sendable, Concat;
  }

  lemma DecidesToKeep(p: Response, finished: bool)
    requires !p.config.isHead && (finished ==> p.position < ULONG_MAX)
    ensures var d := Decide(p.config, p.wish, p.header, p.position, finished);
            && (d.keepAlive <==>
                && KeptOpen(p)
                && if finished then Announced(p) == ULONG_MAX || Announced(p) == p.position
                   else !(Announced(p) == ULONG_MAX && p.config.isHttp10))
            && (!finished ==> d.contentLength == Announced(p))
  {
  }

  /**
   * What a refused flush leaves for the next one. Connection and Content-Length have been taken out of the
   * headers, but for a Content-Length behind several values of Connection; what they asked for stands.
   */
  lemma SecondAttempt(r: Response)
    requires !r.headersSent && Refuses(r)
    ensures var q := Flush(r).0;
            && q.wish.connection == NoConnection
            && q.wish.lengthHeader == (if r.wish.connection == ManyConnections then r.wish.lengthHeader else NoLength)
            && q.wish.statusCode == (if Malformed(r.wish) then 500 else r.wish.statusCode)
            && q.wish.reason == r.wish.reason && q.wish.date == r.wish.date && q.wish.fields == r.wish.fields
            && (!Malformed(r.wish) ==>
                  && Announced(q) == Announced(r)
                  && (KeptOpen(q) <==> KeptOpen(r) && !(Announced(r) == ULONG_MAX && r.config.isHttp10)))
  {
    hide HeaderBlock, Passed;
    RefusedFlush(r);
  }

  // ---------------------------------------------------------------------------------------
  // Runs that leave the headers alone
  // ---------------------------------------------------------------------------------------

  predicate Plain(ops: seq<Op>) {
    forall i :: 0 <= i < |ops| ==> !ops[i].AskOp?
  }

  /** Something is handed over before the end: a flush, or more than the body region holds. */
  predicate Flushes(size: nat, ops: seq<Op>) {
    FlushOp in ops || |Written(ops)| > size
  }

  /** The status of a plain run at its end. */
  lemma {:induction false} PlainStatus(r: Response, ops: seq<Op>)
    requires ValidConfig(r.config) && |r.local| <= r.config.size && Plain(ops)
    ensures Wished(r.wish, Run(r, ops).wish)
    decreases |ops|
  {
    hide Apply, Wished;
    NoWish(r.wish);
    if ops != [] {
      var q := Apply(r, ops[0]).0;
      ApplyOnlyGrows(r, ops[0]);
      PlainStatus(q, ops[1..]);
      WishedTwice(r.wish, q.wish, Run(q, ops[1..]).wish);
    }
  }

  /** The upcoming header block does not depend on what has been written. */
  lemma UpcomingStays(r: Response, q: Response)
    requires q.config == r.config && q.wish == r.wish && q.header == r.header
    ensures Upcoming(q) == Upcoming(r) && Announced(q) == Announced(r) && (KeptOpen(q) <==> KeptOpen(r))
  {
  }

  lemma {:induction false} PlainOpening(r: Response, ops: seq<Op>)
    requires Inv(r) && !r.headersSent && !Refuses(r) && Plain(ops)
    ensures var e, p := Run(r, ops), Opening(r, ops);
            && (p.Some? <==> FlushOp in ops || |r.local| + |Written(ops)| > r.config.size)
            && (p.Some? ==> p.value.wish == r.wish && p.value.header == r.header)
            && (p.None? ==> e.wish == r.wish && e.header == r.header && !e.closed)
            && (!e.closed ==> e.position == r.position + |Written(ops)|)
            && e.position <= r.position + |Written(ops)|
            && (Announced(r) == ULONG_MAX ==> AllSent(r, ops))
    decreases |ops|
  {
    hide Apply, Inv, Upcoming, Announced, KeptOpen, HeaderBlock, FlushPoint;
    UnsentIsOpen(r);
    if ops != [] {
      var p := FlushPoint(r, ops[0]);
      ApplyKeeps(r, ops[0]);
      var q := Apply(r, ops[0]).0;
      assert FlushOp in ops <==> ops[0] == FlushOp || FlushOp in ops[1..];
      if p.None? {
        ApplyQuiet(r, ops[0]);
        UpcomingStays(r, q);
        assert !ops[0].FlushOp? by { PointOf(r, ops[0]); }
        PlainOpening(q, ops[1..]);
      } else {
        PointOf(r, ops[0]);
        UpcomingStays(r, p.value);
        ApplyOpens(r, ops[0]);
        RunLater(q, ops[1..]);
        AnnouncedIsUpcoming(p.value);
      }
    }
  }

  lemma UnsentIsOpen(r: Response)
    requires Inv(r) && !r.headersSent
    ensures !r.closed
  {
  }

  lemma PointOf(r: Response, op: Op)
    requires |r.local| <= r.config.size
    ensures FlushPoint(r, op).Some? <==> op.FlushOp? || (op.WriteOp? && |r.local| + |op.data| > r.config.size)
  {
  }

  lemma AnnouncedIsUpcoming(p: Response)
    ensures Upcoming(p).contentLength == Announced(p)
  {
  }

  /** No callback of OnSendingHeaders changes anything. */
  function Plainly(task: TaskEnd, cancelled: bool): Ending {
    Ending(task, cancelled, None)
  }

  /**
   * The same for an application that sets its headers once, in its own terms: what it declares, how
   * much it writes, whether anything goes out before the end, and how its task ends.
   */
  lemma PlainReuse(r: Response, ops: seq<Op>, task: TaskEnd, cancelled: bool)
    requires Fresh(r) && !r.config.isHead && Plain(ops) && !Refuses(r) && |Written(ops)| < ULONG_MAX
    ensures var n := |Written(ops)|;
            Reused(Conclude(Run(r, ops), Plainly(task, cancelled))) <==>
            && task.Completes? && !cancelled && r.wish.statusCode != ABORT
            && KeptOpen(r) && (Announced(r) == ULONG_MAX || Announced(r) == n)
            && if Flushes(r.config.size, ops) then !(Announced(r) == ULONG_MAX && r.config.isHttp10)
               else FitsAtTheEnd(r.(position := n))
  {
    hide Run, Opening, Inv, Finish, Announced, KeptOpen, HeaderBlock, Decide, Aborts, Last;
    FreshIsInv(r);
    PlainOpening(r, ops);
    ReusedExactly(r, ops, Plainly(task, cancelled));
    RunDecides(r, ops);
    var e, p, n := Run(r, ops), Opening(r, ops), |Written(ops)|;
    PlainStatus(r, ops);
    PlainAborts(r, e, task, cancelled);
    assert p.Some? <==> Flushes(r.config.size, ops);
    if p.Some? {
      UpcomingStays(r, p.value);
      AnnouncedIsUpcoming(p.value);
      ClosedMeans(e);
      assert Announced(r) != ULONG_MAX ==> (Announced(r) == e.position <==> Announced(r) == n);
    } else {
      UpcomingStays(r, e);
      assert e.position == n;
      assert FitsAtTheEnd(e) <==> FitsAtTheEnd(r.(position := n));
      if task.Completes? {
        LastIsSame(e, cancelled);
      }
    }
  }

  lemma LastIsSame(e: Response, cancelled: bool)
    ensures AtTheEnd(e, Plainly(Completes, cancelled)) == e
  {
  }

  lemma PlainAborts(r: Response, e: Response, task: TaskEnd, cancelled: bool)
    requires Wished(r.wish, e.wish)
    ensures KeptOpen(r) ==>
              (Aborts(e, Plainly(task, cancelled)) <==> !task.Completes? || cancelled || r.wish.statusCode == ABORT)
    ensures task.Completes? && !cancelled && r.wish.statusCode != ABORT && r.wish.statusCode != UNCAUGHT ==>
              !Aborts(e, Plainly(task, cancelled))
  {
    hide Prepare;
  }

  lemma ClosedMeans(e: Response)
    requires Inv(e)
    ensures e.closed ==> e.header.contentLength != ULONG_MAX && e.position > e.header.contentLength
  {
  }

  /**
   * HTTP/1.1, no declared length and at least one flush: no call fails, what has gone out at any
   * moment decodes to what was handed over and has not ended. The response is either finished, and then
   * the body decodes to everything written and ends with its last byte and no earlier one; or it is
   * given up, and then the client finds a body that has not ended on a closed connection.
   */
  lemma ChunkedResponse(r: Response, ops: seq<Op>, end: Ending)
    requires Flushes(r.config.size, ops) && Plain(ops)
    requires Fresh(r) && !r.config.isHead && !r.config.isHttp10
    requires Announced(r) == ULONG_MAX && !Refuses(r)
    ensures var e := Run(r, ops);
            var q := Conclude(e, end);
            && AllSent(r, ops)
            && Decode(START, Body(e)) == Decoded(START, Concat(e.trace.blocks), [])
            && if Aborts(e, end) then q.closed && Body(q) == Body(e)
               else
                 && Decode(START, Body(q)) == Decoded(ENDED, Written(ops), [])
                 && forall n :: 0 <= n < |Body(q)| ==> !Finished(Decode(START, Body(q)[..n]).d)
  {
    hide HeaderBlock, Run, AllSent, Decide, Opening, Inv, Announced, Accepted, Finish, EverTurnsChunked, Prepare;
    hide Conclude, Aborts, Last;
    FreshIsInv(r);
    PlainOpening(r, ops);
    RunDecides(r, ops);
    RunKeeps(r, ops);
    var e := Run(r, ops);
    var p := Opening(r, ops).value;
    UpcomingStays(r, p);
    UndeclaredIsChunked(p);
    ChunkedProgress(e);
    ConcludeOrAbort(e, end);
    LastKeeps(e, end);
    var l := Last(e, end);
    if !Aborts(e, end) {
      ChunkedProgress(l);
      TerminatedOnce(Finish(l).trace.blocks);
      assert Accepted(r) + Written(ops) == Written(ops);
    }
  }

  /** When it is finished, and, if nothing asks to close, exactly when. */
  lemma ChunkedIsFinished(r: Response, ops: seq<Op>, task: TaskEnd, cancelled: bool)
    requires Fresh(r) && Plain(ops)
    ensures task.Completes? && !cancelled && r.wish.statusCode != ABORT && r.wish.statusCode != UNCAUGHT ==>
              !Aborts(Run(r, ops), Plainly(task, cancelled))
    ensures KeptOpen(r) ==>
              (Aborts(Run(r, ops), Plainly(task, cancelled)) <==>
               !task.Completes? || cancelled || r.wish.statusCode == ABORT)
  {
    hide Run, Aborts, KeptOpen;
    PlainStatus(r, ops);
    PlainAborts(r, Run(r, ops), task, cancelled);
  }

  lemma UndeclaredIsChunked(p: Response)
    requires Announced(p) == ULONG_MAX && !p.config.isHttp10
    ensures Upcoming(p).contentLength == ULONG_MAX && Upcoming(p).chunked
  {
  }

  lemma ChunkedProgress(e: Response)
    requires Inv(e) && e.headersSent && e.header.chunked && e.header.contentLength == ULONG_MAX
    ensures Decode(START, Body(e)) == Decoded(START, Concat(e.trace.blocks), [])
    ensures Sendable(Finish(e).trace.blocks) && Concat(Finish(e).trace.blocks) == Accepted(e)
    ensures Body(Finish(e)) == EncodeChunks(Finish(e).trace.blocks) + ZERO_CHUNK
  {
    hide HeaderBlock, Decide, EncodeChunk, EncodeChunks, Concat, Decode;
    UnterminatedBody(e.trace.blocks);
    if e.local != [] {
      FramedAppend(true, e.trace.blocks, e.local);
    }
    var q := Finish(e);
    assert Framed(true, q.trace.blocks) == Framed(true, e.trace.blocks) + BodyBytes(true, e.local);
    assert q.trace.wire == e.head + (EncodeChunks(q.trace.blocks) + ZERO_CHUNK);
  }

  /** The zero chunk ends the body with its last byte, and nothing ends it earlier. */
  lemma TerminatedOnce(blocks: seq<seq<Byte>>)
    requires Sendable(blocks)
    ensures var wire := EncodeChunks(blocks) + ZERO_CHUNK;
            && Decode(START, wire) == Decoded(ENDED, Concat(blocks), [])
            && forall n :: 0 <= n < |wire| ==> !Finished(Decode(START, wire[..n]).d)
  {
    hide EncodeChunks, Concat, Decode;
    var wire := EncodeChunks(blocks) + ZERO_CHUNK;
    EncodedBodyDecodes(blocks, []);
    assert wire + [] == wire;
    forall n | 0 <= n < |wire|
      ensures !Finished(Decode(START, wire[..n]).d)
    {
      DecodeSplit(START, wire[..n], wire[n..]);
      assert wire[..n] + wire[n..] == wire;
    }
  }
}
