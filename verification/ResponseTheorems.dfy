/** What every run of writes and flushes leaves on the wire, and when the connection is reused. */
module ResponseTheorems {
  import opened Bytes
  import opened Chunked
  import opened ChunkedBody
  import opened ChunkEncoder
  import opened ResponseSpec

  /** What the application does between two points where FillResponse may run. */
  datatype Op = WriteOp(data: seq<Byte>) | FlushOp | AskOp(w: Wish)

  predicate ValidConfig(config: Config) {
    1024 <= config.size <= 65536
  }

  predicate Fresh(r: Response) {
    && ValidConfig(r.config)
    && !r.header.chunked && r.header.contentLength == ULONG_MAX
    && !r.headersSent && r.local == [] && r.position == 0 && !r.lastPacket && !r.closed
    && r.trace == Trace([], [], 0)
  }

  function Apply(r: Response, op: Op): (q: (Response, Outcome))
    requires ValidConfig(r.config) && |r.local| <= r.config.size
    ensures q.0.config == r.config && |q.0.local| <= r.config.size
  {
    match op
    case WriteOp(data) => Write(r, data)
    case FlushOp => Flush(r)
    case AskOp(w) => (r.(wish := w), Sent)
  }

  /** The application goes on after a failed call as it likes. */
  function Run(r: Response, ops: seq<Op>): (q: Response)
    requires ValidConfig(r.config) && |r.local| <= r.config.size
    ensures q.config == r.config && |q.local| <= r.config.size
    decreases |ops|
  {
    if ops == [] then r else Run(Apply(r, ops[0]).0, ops[1..])
  }

  /** Every call of the run succeeds. */
  predicate AllSent(r: Response, ops: seq<Op>)
    requires ValidConfig(r.config) && |r.local| <= r.config.size
    decreases |ops|
  {
    ops == [] || (Apply(r, ops[0]).1 == Sent && AllSent(Apply(r, ops[0]).0, ops[1..]))
  }

  function Data(op: Op): seq<Byte> {
    match op
    case WriteOp(data) => data
    case _ => []
  }

  function Written(ops: seq<Op>): seq<Byte> {
    if ops == [] then [] else Data(ops[0]) + Written(ops[1..])
  }

  /** The application's bytes that are on the wire or still buffered. */
  function Accepted(r: Response): seq<Byte> {
    Concat(r.trace.blocks) + r.local
  }

  function Framed(chunked: bool, blocks: seq<seq<Byte>>): seq<Byte> {
    if chunked then EncodeChunks(blocks) else Concat(blocks)
  }

  // ---------------------------------------------------------------------------------------
  // The invariant of every run
  // ---------------------------------------------------------------------------------------

  predicate HeadersSettled(r: Response) {
    && 200 <= r.header.statusCode <= 999
    && r.head == HeaderBlock(r.config, r.header) && |r.head| <= r.config.size
    && (r.header.keepAlive && r.header.contentLength == ULONG_MAX ==> r.header.chunked)
  }

  predicate HeadersOpen(r: Response) {
    r.trace.wire == [] && r.trace.blocks == [] && !r.closed
  }

  /** The invariant while `inFlight` further bytes are counted but neither sent nor buffered. */
  predicate InvWith(r: Response, inFlight: nat) {
    && ValidConfig(r.config) && !r.config.isHead
    && |r.local| <= r.config.size
    && |Concat(r.trace.blocks)| + |r.local| + inFlight + r.trace.lost == r.position
    && (if r.headersSent
        then HeadersSettled(r) && (r.closed || r.trace.wire == r.head + Framed(r.header.chunked, r.trace.blocks))
        else HeadersOpen(r))
    && (r.header.chunked ==> Sendable(r.trace.blocks))
    && (r.closed ==> r.header.contentLength != ULONG_MAX && r.position > r.header.contentLength)
  }

  predicate Inv(r: Response)
    ensures Inv(r) ==> ValidConfig(r.config) && |r.local| <= r.config.size
  {
    InvWith(r, 0)
  }

  lemma FramedAppend(chunked: bool, blocks: seq<seq<Byte>>, block: seq<Byte>)
    requires block != []
    ensures Framed(chunked, blocks + [block]) == Framed(chunked, blocks) + BodyBytes(chunked, block)
    ensures Concat(blocks + [block]) == Concat(blocks) + block
  {
    ConcatAppend(blocks, [block]);
    ConcatSingle(block);
    EncodeChunksAppend(blocks, block);
  }

  /** Handing over a block appends its framed bytes. */
  lemma EmitFramed(t: Trace, chunked: bool, block: seq<Byte>, lead: seq<Byte>)
    ensures var t' := Emit(t, BodyBytes(chunked, block), block);
            && (t.wire == lead + Framed(chunked, t.blocks) ==> t'.wire == lead + Framed(chunked, t'.blocks))
            && Concat(t'.blocks) == Concat(t.blocks) + block
  {
    if block != [] {
      FramedAppend(chunked, t.blocks, block);
    }
  }

  lemma PushKeeps(r: Response, block: seq<Byte>)
    requires InvWith(r, |block|) && r.headersSent && |block| < TWO63
    ensures var (q, o) := Push(r, BodyBytes(r.header.chunked, block), block);
            Inv(q) && (o == Sent ==> q.local == r.local && Concat(q.trace.blocks) == Concat(r.trace.blocks) + block)
  {
    hide HeaderBlock;
    EmitFramed(r.trace, r.header.chunked, block, r.head);
  }

  /** Without a length the body will be chunked, if the connection stays open. */
  lemma DecideSettles(config: Config, w: Wish, h: Header, position: nat)
    ensures var d := Decide(config, w, h, position, false);
            d.keepAlive && d.contentLength == ULONG_MAX ==> d.chunked
  {
  }

  lemma SendFirstKeeps(r: Response, block: seq<Byte>)
    requires InvWith(r, |block|) && !r.headersSent && |block| < TWO63
    ensures var (q, o) := SendFirst(r, block);
            Inv(q) && (o == Sent ==> q.local == r.local && Concat(q.trace.blocks) == block)
  {
    hide HeaderBlock;
    var h := Decide(r.config, r.wish, r.header, r.position, false);
    var head := HeaderBlock(r.config, h);
    assert Concat<Byte>([]) == [];
    DecideSettles(r.config, r.wish, r.header, r.position);
    if |head| <= r.config.size {
      FirstBlock(h.chunked, block);
      var f := r.(wish := Consumed(r.wish), header := h, head := head, headersSent := true);
      var q := Push(f, head + BodyBytes(h.chunked, block), block).0;
      assert q.trace.blocks == [] || q.trace.blocks == if block == [] then [] else [block];
      assert HeadersSettled(q);
      assert [] + (head + BodyBytes(h.chunked, block)) == head + BodyBytes(h.chunked, block);
    }
  }

  lemma FlushKeeps(r: Response)
    requires Inv(r)
    ensures var (q, o) := Flush(r); Inv(q) && (o == Sent ==> Accepted(q) == Accepted(r))
  {
    hide HeaderBlock;
    var e := r.(local := []);
    assert InvWith(e, |r.local|);
    if !r.headersSent {
      SendFirstKeeps(e, r.local);
      assert r.trace.blocks == [] && Concat<Byte>([]) == [];
    } else {
      PushKeeps(e, r.local);
    }
  }

  lemma FirstBlock(chunked: bool, block: seq<Byte>)
    ensures block != [] ==> Framed(chunked, [block]) == BodyBytes(chunked, block) && Concat([block]) == block
    ensures Framed(chunked, []) == []
  {
    ConcatSingle(block);
    assert [block][1..] == [];
    assert EncodeChunks([block]) == EncodeChunk(block) + EncodeChunks([]);
  }

  lemma BufferedKeeps(r: Response, data: seq<Byte>)
    requires Inv(r) && |r.local| + |data| <= r.config.size
    ensures Inv(Buffered(r, data)) && Accepted(Buffered(r, data)) == Accepted(r) + data
  {
  }

  lemma FlushIfFullKeeps(r: Response)
    requires Inv(r)
    ensures var (q, o) := FlushIfFull(r); Inv(q) && (o == Sent ==> Accepted(q) == Accepted(r))
  {
    FlushKeeps(r);
  }

  /** The direct write is only reached with an empty body region, and keeps the order. */
  lemma DirectKeeps(r: Response, data: seq<Byte>)
    requires Inv(r) && |r.local| == r.config.size && data != []
    requires var (r1, o) := FlushIfFull(r); o == Sent && CanUseDirectWrite(r1)
    ensures var r1 := FlushIfFull(r).0;
            var (q, o) := Send(r1.(position := r1.position + |data|), data, false);
            r1.local == [] && Inv(q) && (o == Sent ==> Accepted(q) == Accepted(r) + data)
  {
    hide HeaderBlock, FlushIfFull;
    FlushIfFullKeeps(r);
    var r1 := FlushIfFull(r).0;
    var p := r1.(position := r1.position + |data|);
    assert InvWith(p, |data|);
    EmitFramed(p.trace, false, data, p.head);
  }

  lemma {:induction false} OverflowKeeps(r: Response, data: seq<Byte>)
    requires Inv(r) && data != []
    ensures var (q, o) := Overflow(r, data); Inv(q) && (o == Sent ==> Accepted(q) == Accepted(r) + data)
    decreases |data|
  {
    hide FlushIfFull, Send, InvWith, Accepted;
    FlushIfFullKeeps(r);
    var (r1, o) := FlushIfFull(r);
    if o == Sent {
      if |r.local| == r.config.size && |data| >= r.config.size && CanUseDirectWrite(r1) {
        DirectKeeps(r, data);
      } else {
        var tillEnd := Min(r1.config.size - |r1.local|, |data|);
        BufferedKeeps(r1, data[..tillEnd]);
        if tillEnd == |data| {
          assert data[..tillEnd] == data;
        } else {
          OverflowKeeps(Buffered(r1, data[..tillEnd]), data[tillEnd..]);
          assert Accepted(r1) + data == (Accepted(r1) + data[..tillEnd]) + data[tillEnd..];
        }
      }
    }
  }

  lemma ApplyKeeps(r: Response, op: Op)
    requires Inv(r)
    ensures var (q, o) := Apply(r, op);
            Inv(q) && (o == Sent ==> Accepted(q) == Accepted(r) + Data(op))
  {
    match op
    case WriteOp(data) =>
      if |data| <= r.config.size - |r.local| {
        BufferedKeeps(r, data);
      } else {
        OverflowKeeps(r, data);
      }
    case FlushOp =>
      FlushKeeps(r);
    case AskOp(_) =>
      assert Accepted(r) + [] == Accepted(r);
  }

  lemma {:induction false} RunKeeps(r: Response, ops: seq<Op>)
    requires Inv(r)
    ensures Inv(Run(r, ops))
    ensures AllSent(r, ops) ==> Accepted(Run(r, ops)) == Accepted(r) + Written(ops)
    decreases |ops|
  {
    hide Apply, Inv, Accepted, Data;
    if ops != [] {
      ApplyKeeps(r, ops[0]);
      RunKeeps(Apply(r, ops[0]).0, ops[1..]);
      assert Accepted(r) + Written(ops) == (Accepted(r) + Data(ops[0])) + Written(ops[1..]);
    }
  }

  lemma FreshIsInv(r: Response)
    requires Fresh(r) && !r.config.isHead
    ensures Inv(r) && Accepted(r) == []
  {
    assert Concat<Byte>([]) == [];
  }

  /** WriteAsync refuses a caller's own block exactly where the direct write is not allowed. */
  lemma ForeignBlock(r: Response, block: seq<Byte>, own: bool)
    ensures Send(r, block, own).1 == WrongBuffer <==> !own && !CanUseDirectWrite(r)
    ensures Send(r, block, own).1 == WrongBuffer ==> Send(r, block, own).0 == r
  {
    hide HeaderBlock, Decide, BodyBytes;
  }

  /** So it never does: direct writes are tried only where they are allowed. */
  lemma {:induction false} OverflowIsAllowed(r: Response, data: seq<Byte>)
    requires r.config.size > 0 && |r.local| <= r.config.size && data != []
    ensures Overflow(r, data).1 != WrongBuffer
    decreases |data|
  {
    hide Send;
    ForeignBlock(r.(local := []), r.local, true);
    var (r1, o) := FlushIfFull(r);
    if o == Sent {
      if |r.local| == r.config.size && |data| >= r.config.size && CanUseDirectWrite(r1) {
        ForeignBlock(r1.(position := r1.position + |data|), data, false);
      } else {
        var tillEnd := Min(r1.config.size - |r1.local|, |data|);
        if tillEnd < |data| {
          OverflowIsAllowed(Buffered(r1, data[..tillEnd]), data[tillEnd..]);
        }
      }
    }
  }

  // ---------------------------------------------------------------------------------------
  // Where a block is handed over
  // ---------------------------------------------------------------------------------------

  /** The header block that FillResponse(false) would produce now. */
  function Upcoming(r: Response): Header {
    Decide(r.config, r.wish, r.header, r.position, false)
  }

  /** The guard of WriteAsync: a flush would be refused, because this header block is too long. */
  predicate Refuses(r: Response) {
    !r.headersSent && |HeaderBlock(r.config, Upcoming(r))| > r.config.size
  }

  /** The state in which a call hands over its first block, if it hands over one. */
  function FlushPoint(r: Response, op: Op): (p: Option<Response>)
    requires |r.local| <= r.config.size
    ensures p.Some? ==> p.value.config == r.config && |p.value.local| <= r.config.size
    ensures p.Some? ==> p.value.wish == r.wish && p.value.header == r.header && p.value.headersSent == r.headersSent
  {
    match op
    case WriteOp(data) =>
      var room := r.config.size - |r.local|;
      if |data| <= room then None else Some(Buffered(r, data[..room]))
    case FlushOp => Some(r)
    case AskOp(_) => None
  }

  /** A write that overflows first fills the body region, then flushes it. */
  lemma WriteAtFlushPoint(r: Response, data: seq<Byte>)
    requires ValidConfig(r.config) && |r.local| <= r.config.size && |data| > r.config.size - |r.local|
    ensures var room := r.config.size - |r.local|;
            var p := FlushPoint(r, WriteOp(data)).value;
            |p.local| == r.config.size && Write(r, data) == Overflow(p, data[room..])
  {
    hide Send;
    var room := r.config.size - |r.local|;
    if room == 0 {
      assert data[..0] == [] && data[0..] == data && r.local + [] == r.local;
    }
  }

  /** What a refused flush leaves behind: nothing is sent, the decisions stay, the block is gone. */
  lemma RefusedFlush(r: Response)
    requires Refuses(r)
    ensures Flush(r) == (r.(wish := Consumed(r.wish), header := Upcoming(r), head := HeaderBlock(r.config, Upcoming(r)),
                            local := [], trace := r.trace.(lost := r.trace.lost + |r.local|)), HeadersTooLong)
  {
    hide HeaderBlock, Decide, Consumed;
  }

  /** A first flush that is not refused. */
  lemma OpeningFlush(r: Response)
    requires Inv(r) && !r.headersSent && !Refuses(r)
    ensures var (q, o) := Flush(r);
            && q.headersSent && q.header == Upcoming(r) && q.wish == Consumed(r.wish)
            && (o == Sent <==> !q.closed) && (o == Sent ==> q.trace.lost == r.trace.lost)
            && (o != Sent <==> q.header.contentLength != ULONG_MAX && r.position > q.header.contentLength)
  {
    hide HeaderBlock, Decide, Consumed, BodyBytes;
  }

  /** Once the header block is out, it stays; a call fails exactly if more was written than declared. */
  lemma LaterFlush(r: Response)
    requires Inv(r) && r.headersSent
    ensures var (q, o) := Flush(r);
            && q == r.(local := [], closed := q.closed, trace := q.trace)
            && (o == Sent ==> q.trace.lost == r.trace.lost && q.closed == r.closed) && (o != Sent ==> q.closed)
            && (q.header.contentLength == ULONG_MAX ==> o == Sent)
  {
    hide HeaderBlock, BodyBytes;
  }

  lemma LaterDirect(r: Response, data: seq<Byte>)
    requires Inv(r) && r.local == [] && CanUseDirectWrite(r) && data != []
    ensures var p := r.(position := r.position + |data|);
            var (q, o) := Send(p, data, false);
            && q == p.(closed := q.closed, trace := q.trace)
            && (o == Sent ==> q.trace.lost == r.trace.lost && q.closed == r.closed) && (o != Sent ==> q.closed)
            && (q.header.contentLength == ULONG_MAX ==> o == Sent)
  {
    hide HeaderBlock, BodyBytes;
  }

  /** What a call may do to a response whose header block is out. */
  predicate Later(r: Response, q: Response, o: Outcome, added: nat) {
    && q.headersSent && q.header == r.header
    && (o == Sent ==> q.trace.lost == r.trace.lost && q.closed == r.closed && q.position == r.position + added)
    && (o != Sent ==> q.closed)
    && r.position <= q.position <= r.position + added
    && (q.header.contentLength == ULONG_MAX ==> o == Sent)
  }

  lemma {:induction false} LaterOverflow(r: Response, data: seq<Byte>)
    requires Inv(r) && r.headersSent && data != []
    ensures var (q, o) := Overflow(r, data); Later(r, q, o, |data|)
    decreases |data|
  {
    hide FlushIfFull, Flush, Send, Inv;
    FlushIfFullLater(r);
    FlushIfFullKeeps(r);
    var (r1, o) := FlushIfFull(r);
    if o == Sent {
      if |r.local| == r.config.size && |data| >= r.config.size && CanUseDirectWrite(r1) {
        LaterDirect(r1, data);
      } else {
        var tillEnd := Min(r1.config.size - |r1.local|, |data|);
        BufferedKeeps(r1, data[..tillEnd]);
        if tillEnd < |data| {
          LaterOverflow(Buffered(r1, data[..tillEnd]), data[tillEnd..]);
        }
      }
    }
  }

  lemma FlushIfFullLater(r: Response)
    requires Inv(r) && r.headersSent
    ensures var (q, o) := FlushIfFull(r); Later(r, q, o, 0) && q.position == r.position
  {
    hide Flush, Inv;
    LaterFlush(r);
  }

  /** Any call on a response whose header block is out. */
  lemma ApplyLater(r: Response, op: Op)
    requires Inv(r) && r.headersSent
    ensures var (q, o) := Apply(r, op); Later(r, q, o, |Data(op)|)
  {
    hide Overflow, Flush, Inv;
    match op
    case WriteOp(data) =>
      if |data| > r.config.size - |r.local| {
        LaterOverflow(r, data);
      }
    case FlushOp => LaterFlush(r);
    case AskOp(_) =>
  }

  /** A call that hands over nothing while the header block is unsent. */
  lemma ApplyQuiet(r: Response, op: Op)
    requires ValidConfig(r.config) && |r.local| <= r.config.size && FlushPoint(r, op).None?
    ensures var (q, o) := Apply(r, op);
            && o == Sent && q.header == r.header && q.headersSent == r.headersSent && q.trace == r.trace
            && q.closed == r.closed && q.position == r.position + |Data(op)| && q.head == r.head
            && (op.AskOp? || q.wish == r.wish) && q.local == r.local + Data(op)
  {
  }

  /** A call whose first flush is refused ends there. */
  lemma ApplyRefused(r: Response, op: Op)
    requires ValidConfig(r.config) && |r.local| <= r.config.size
    requires FlushPoint(r, op).Some? && Refuses(FlushPoint(r, op).value)
    ensures Apply(r, op) == Flush(FlushPoint(r, op).value)
  {
    hide Flush, Refuses;
    var p := FlushPoint(r, op).value;
    RefusedFlush(p);
    if op.WriteOp? {
      WriteAtFlushPoint(r, op.data);
    }
  }

  /** A call whose first flush sends the header block. */
  lemma ApplyOpens(r: Response, op: Op)
    requires Inv(r) && !r.headersSent && FlushPoint(r, op).Some? && !Refuses(FlushPoint(r, op).value)
    ensures var p := FlushPoint(r, op).value;
            var (q, o) := Apply(r, op);
            && q.headersSent && q.header == Upcoming(p)
            && (o == Sent ==> q.trace.lost == r.trace.lost && !q.closed && q.position == r.position + |Data(op)|)
            && (o != Sent ==> q.closed)
            && r.position <= q.position <= r.position + |Data(op)|
            && (q.header.contentLength == ULONG_MAX ==> o == Sent)
  {
    hide Flush, Refuses, Inv, Upcoming;
    var p := FlushPoint(r, op).value;
    match op {
      case WriteOp(data) =>
        var room := r.config.size - |r.local|;
        WriteAtFlushPoint(r, data);
        BufferedKeeps(r, data[..room]);
        OpeningFlush(p);
        FlushKeeps(p);
        OpeningOverflow(p, data[room..]);
      case FlushOp =>
        OpeningFlush(p);
    }
  }

  lemma OpeningOverflow(p: Response, data: seq<Byte>)
    requires Inv(p) && |p.local| == p.config.size && data != []
    ensures var (q1, o1) := Flush(p);
            var (q, o) := Overflow(p, data);
            q1.headersSent && Inv(q1) && (o1 != Sent ==> q1.closed) ==>
            && q.headersSent && q.header == q1.header
            && (o == Sent ==> o1 == Sent && q.trace.lost == q1.trace.lost && q.closed == q1.closed
                              && q.position == p.position + |data|)
            && (o != Sent ==> q.closed)
            && p.position <= q.position <= p.position + |data|
            && (q1.header.contentLength == ULONG_MAX && o1 == Sent ==> o == Sent)
  {
    hide Flush, Send, Inv;
    var (q1, o1) := Flush(p);
    assert FlushIfFull(p) == (q1, o1);
    if q1.headersSent && Inv(q1) && o1 == Sent {
      if |data| >= p.config.size && CanUseDirectWrite(q1) {
        LaterDirect(q1, data);
      } else {
        var tillEnd := Min(p.config.size, |data|);
        BufferedKeeps(q1, data[..tillEnd]);
        if tillEnd < |data| {
          LaterOverflow(Buffered(q1, data[..tillEnd]), data[tillEnd..]);
        }
      }
    }
  }
}
