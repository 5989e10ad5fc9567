/**
 * Receiving WebSocket frames: the byte-wise reference, and the in-place receiver of OwinHandler
 * (Nowin/OwinHandler.cs:355-366, 423-437, 489-616) that refines it for every cut of the stream into
 * receives and every sequence of buffers the application passes in.
 */
module WebSocketReceive {
  import opened Bytes
  import opened WebSocketHeader

  // ---------------------------------------------------------------------------------------
  // The reference
  // ---------------------------------------------------------------------------------------

  datatype InFrame = InFrame(opcode: Byte, last: bool, length: nat, payload: seq<Byte>)

  datatype Stage =
    | AtHeader(acc: seq<Byte>)
    | InBody(left: nat, key: Key, index: nat)
    | Closed                              // a close frame: not modelled further
    | Broken

  datatype Stream = Stream(frames: seq<InFrame>, stage: Stage)

  const BEGIN := Stream([], AtHeader([]))

  predicate Sane(s: Stream) {
    match s.stage
    case AtHeader(acc) => acc == [] || ParseHeader(acc).Incomplete?
    case InBody(left, key, index) => left > 0 && index < 4 && s.frames != []
    case _ => true
  }

  function Opened(s: Stream, h: Head): (s': Stream)
    requires h.Head?
    ensures Sane(s')
  {
    if h.opcode == 8 then s.(stage := Closed)
    else Stream(s.frames + [InFrame(h.opcode, h.last, h.length, [])],
                if h.length == 0 then AtHeader([]) else InBody(h.length, h.key, 0))
  }

  function Grow(frames: seq<InFrame>, p: seq<Byte>): (r: seq<InFrame>)
    requires frames != []
    ensures |r| == |frames|
  {
    var f := frames[|frames| - 1];
    frames[..|frames| - 1] + [f.(payload := f.payload + p)]
  }

  /** The stream after `p` more bytes of the current payload. */
  function Fed(s: Stream, p: seq<Byte>): (s': Stream)
    requires Sane(s) && s.stage.InBody? && |p| <= s.stage.left
    ensures Sane(s')
  {
    var InBody(left, key, index) := s.stage;
    Stream(Grow(s.frames, Masked(key, index, p)),
           if |p| == left then AtHeader([]) else InBody(left - |p|, key, (index + |p|) % 4))
  }

  function Step(s: Stream, b: Byte): (s': Stream)
    requires Sane(s)
    ensures Sane(s')
  {
    match s.stage
    case AtHeader(acc) =>
      var h := ParseHeader(acc + [b]);
      if h.Incomplete? then s.(stage := AtHeader(acc + [b]))
      else if h.Bad? then s.(stage := Broken)
      else Opened(s, h)
    case InBody(_, _, _) => Fed(s, [b])
    case _ => s
  }

  function Fold(s: Stream, bytes: seq<Byte>): (s': Stream)
    requires Sane(s)
    ensures Sane(s')
    decreases |bytes|
  {
    if bytes == [] then s else Fold(Step(s, bytes[0]), bytes[1..])
  }

  lemma {:induction false} FoldSplit(s: Stream, a: seq<Byte>, b: seq<Byte>)
    requires Sane(s)
    ensures Fold(s, a + b) == Fold(Fold(s, a), b)
    decreases |a|
  {
    hide Step, Sane;
    if a == [] {
      assert a + b == b;
    } else {
      assert (a + b)[0] == a[0] && (a + b)[1..] == a[1..] + b;
      FoldSplit(Step(s, a[0]), a[1..], b);
    }
  }

  /** A header that is complete in the buffer is taken as a whole. */
  lemma FoldHeader(s: Stream, bytes: seq<Byte>)
    requires s.stage == AtHeader([]) && bytes != [] && ParseHeader(bytes).Head?
    ensures Fold(s, bytes[..ParseHeader(bytes).size]) == Opened(s, ParseHeader(bytes))
  {
    hide ParseHeader, Fold, Opened;
    var h := ParseHeader(bytes);
    HeaderPrefix(bytes, h.size);
    var head := bytes[..h.size];
    assert [] + head == head;
    FoldHeaderFrom(s, [], head, h);
    assert s.(stage := AtHeader([])) == s;
  }

  lemma {:induction false} FoldHeaderFrom(s: Stream, acc: seq<Byte>, bytes: seq<Byte>, h: Head)
    requires s.stage == AtHeader(acc) && Sane(s) && bytes != []
    requires h == ParseHeader(acc + bytes) && h.Head? && h.size == |acc + bytes|
    ensures Fold(s, bytes) == Opened(s.(stage := AtHeader([])), h)
    decreases |bytes|
  {
    hide ParseHeader;
    var all := acc + bytes;
    var acc' := acc + [bytes[0]];
    assert all[..|acc'|] == acc';
    HeaderPrefix(all, |acc'|);
    if |bytes| == 1 {
      assert acc' == all && bytes[1..] == [];
    } else {
      assert acc' + bytes[1..] == all;
      FoldHeaderFrom(s.(stage := AtHeader(acc')), acc', bytes[1..], h);
    }
  }

  lemma GrowTwice(frames: seq<InFrame>, a: seq<Byte>, b: seq<Byte>)
    requires frames != []
    ensures Grow(Grow(frames, a), b) == Grow(frames, a + b)
    ensures Grow(frames, []) == frames
  {
    var n := |frames| - 1;
    var f := frames[n];
    assert f.payload + (a + b) == f.payload + a + b && f.payload + [] == f.payload;
    assert Grow(frames, a)[..n] == frames[..n];
    assert frames == frames[..n] + [f];
  }

  lemma FoldPayload(s: Stream, p: seq<Byte>)
    requires Sane(s) && s.stage.InBody? && p != [] && 0 < s.stage.left
    ensures Fold(s, p) == Fold(Fed(s, [p[0]]), p[1..])
  {
    hide Fed;
  }

  /** Payload is taken in pieces of any size. */
  lemma {:induction false} FoldBody(s: Stream, p: seq<Byte>)
    requires Sane(s) && s.stage.InBody? && |p| <= s.stage.left
    ensures Fold(s, p) == if p == [] then s else Fed(s, p)
    decreases |p|
  {
    hide Masked, Grow, ParseHeader, Fold;
    if p == [] {
      FoldNothing(s);
    } else {
      var InBody(left, key, index) := s.stage;
      var s' := Fed(s, [p[0]]);
      FoldPayload(s, p);
      assert [p[0]] + p[1..] == p;
      MaskedRolls(key, index, [p[0]], p[1..]);
      GrowTwice(s.frames, Masked(key, index, [p[0]]), Masked(key, (index + 1) % 4, p[1..]));
      if |p| == 1 {
        assert p == [p[0]] && p[1..] == [];
        FoldNothing(s');
      } else {
        FoldBody(s', p[1..]);
        assert ((index + 1) % 4 + |p| - 1) % 4 == (index + |p|) % 4;
      }
    }
  }

  // ---------------------------------------------------------------------------------------
  // What a client renders
  // ---------------------------------------------------------------------------------------

  datatype ClientFrame = ClientFrame(fin: bool, opcode: Byte, payload: seq<Byte>, key: Key)

  predicate Data(f: ClientFrame) {
    ValidOpcode(f.opcode) && f.opcode != 8 && |f.payload| < TWO31
  }

  function Render(f: ClientFrame): seq<Byte>
    requires ValidOpcode(f.opcode)
  {
    ClientHead(f.fin, f.opcode, |f.payload|, f.key) + ClientMasked(f.key, f.payload)
  }

  function RenderAll(fs: seq<ClientFrame>): seq<Byte>
    requires forall i :: 0 <= i < |fs| ==> ValidOpcode(fs[i].opcode)
  {
    if fs == [] then [] else Render(fs[0]) + RenderAll(fs[1..])
  }

  function Meant(fs: seq<ClientFrame>): (r: seq<InFrame>)
    ensures |r| == |fs|
  {
    seq(|fs|, i requires 0 <= i < |fs| => InFrame(fs[i].opcode, fs[i].fin, |fs[i].payload|, fs[i].payload))
  }

  lemma FrameArrives(s: Stream, f: ClientFrame)
    requires s.stage == AtHeader([]) && Data(f)
    ensures Fold(s, Render(f)) == Stream(s.frames + [InFrame(f.opcode, f.fin, |f.payload|, f.payload)], AtHeader([]))
  {
    hide ParseHeader, Masked, ClientMasked, ClientHead, Step, Fold;
    var n := |f.payload|;
    var head, body := ClientHead(f.fin, f.opcode, n, f.key), ClientMasked(f.key, f.payload);
    MaskedIsStandard(f.key, f.payload);
    HeaderRoundTrip(f.fin, f.opcode, n, f.key, []);
    assert head + [] == head && head[..|head|] == head;
    FoldHeader(s, head);
    FoldSplit(s, head, body);
    var entered := Opened(s, ParseHeader(head));
    MaskedTwice(f.key, 0, f.payload);
    if n == 0 {
      assert body == [] && f.payload == [];
      FoldNothing(entered);
    } else {
      FoldBody(entered, body);
      assert [] + f.payload == f.payload;
    }
  }

  lemma FoldNothing(s: Stream)
    requires Sane(s)
    ensures Fold(s, []) == s
  {
  }

  /** All data frames of a client below 2^31 bytes arrive unmasked, in order, with their flags. */
  lemma {:induction false} FramesArrive(s: Stream, fs: seq<ClientFrame>)
    requires s.stage == AtHeader([])
    requires forall i :: 0 <= i < |fs| ==> ValidOpcode(fs[i].opcode) && Data(fs[i])
    ensures Fold(s, RenderAll(fs)) == Stream(s.frames + Meant(fs), AtHeader([]))
    decreases |fs|
  {
    hide Fold, Render, Data;
    if fs == [] {
      FoldNothing(s);
      assert s.frames + Meant(fs) == s.frames;
    } else {
      FrameArrives(s, fs[0]);
      FoldSplit(s, Render(fs[0]), RenderAll(fs[1..]));
      FramesArrive(Fold(s, Render(fs[0])), fs[1..]);
      assert Meant(fs) == [Meant(fs)[0]] + Meant(fs[1..]);
      assert s.frames + ([Meant(fs)[0]] + Meant(fs[1..])) == s.frames + [Meant(fs)[0]] + Meant(fs[1..]);
    }
  }

  // ---------------------------------------------------------------------------------------
  // What the application is told
  // ---------------------------------------------------------------------------------------

  /** One completed ReceiveAsync: the tuple it returns and the bytes it has stored. */
  datatype Piece = Piece(opcode: Byte, end: bool, data: seq<Byte>)

  function StoredBy(ps: seq<Piece>): seq<Byte> {
    if ps == [] then [] else ps[0].data + StoredBy(ps[1..])
  }

  /** The pieces of one frame, `partial` being stored but not reported yet. */
  predicate Pieces(f: InFrame, ps: seq<Piece>, partial: seq<Byte>, done: bool) {
    && StoredBy(ps) + partial == f.payload
    && (forall i :: 0 <= i < |ps| ==> ps[i].opcode == f.opcode)
    && (forall i :: 0 <= i < |ps| ==> (ps[i].end <==> done && f.last && i == |ps| - 1))
    && (done ==> ps != [] && partial == [] && |f.payload| == f.length)
  }

  /** Every frame before the last has been reported completely; the last one unless it is `current`. */
  predicate Reported(frames: seq<InFrame>, reports: seq<seq<Piece>>, partial: seq<Byte>, current: bool) {
    && |reports| == |frames|
    && (current ==> frames != [])
    && (!current ==> partial == [])
    && (forall i :: 0 <= i < |frames| ==>
          var open := current && i == |frames| - 1;
          Pieces(frames[i], reports[i], if open then partial else [], !open))
  }

  lemma {:induction false} BytesAppend(ps: seq<Piece>, p: Piece)
    ensures StoredBy(ps + [p]) == StoredBy(ps) + p.data
  {
    if ps == [] {
      assert [p][1..] == [] && [] + [p] == [p] && p.data + [] == p.data && [] + p.data == p.data;
    } else {
      assert (ps + [p])[0] == ps[0] && (ps + [p])[1..] == ps[1..] + [p];
      BytesAppend(ps[1..], p);
    }
  }

  function AddPiece(reports: seq<seq<Piece>>, p: Piece): (r: seq<seq<Piece>>)
    requires reports != []
    ensures |r| == |reports|
  {
    var n := |reports| - 1;
    reports[..n] + [reports[n] + [p]]
  }

  /** The receive of the current piece completes. */
  lemma ReportPiece(frames: seq<InFrame>, reports: seq<seq<Piece>>, partial: seq<Byte>, done: bool)
    requires Reported(frames, reports, partial, true)
    requires done ==> |frames[|frames| - 1].payload| == frames[|frames| - 1].length
    ensures var f := frames[|frames| - 1];
            Reported(frames, AddPiece(reports, Piece(f.opcode, done && f.last, partial)), [], !done)
  {
    var n := |frames| - 1;
    var f := frames[n];
    var p := Piece(f.opcode, done && f.last, partial);
    BytesAppend(reports[n], p);
    assert Pieces(f, reports[n], partial, false);
    assert StoredBy(reports[n] + [p]) + [] == f.payload;
    assert Pieces(f, reports[n] + [p], [], done);
  }

  lemma NothingPartial(frames: seq<InFrame>, reports: seq<seq<Piece>>, partial: seq<Byte>)
    requires Reported(frames, reports, partial, false)
    ensures partial == []
  {
  }

  lemma StoreMore(frames: seq<InFrame>, reports: seq<seq<Piece>>, partial: seq<Byte>, more: seq<Byte>)
    requires Reported(frames, reports, partial, true)
    ensures Reported(Grow(frames, more), reports, partial + more, true)
  {
    var n := |frames| - 1;
    assert Pieces(frames[n], reports[n], partial, false);
    assert StoredBy(reports[n]) + (partial + more) == StoredBy(reports[n]) + partial + more;
  }

  lemma NewFrame(frames: seq<InFrame>, reports: seq<seq<Piece>>, f: InFrame)
    requires Reported(frames, reports, [], false) && f.payload == []
    ensures Reported(frames + [f], reports + [[]], [], true)
  {
    assert StoredBy([]) + [] == [];
  }

  // ---------------------------------------------------------------------------------------
  // In place
  // ---------------------------------------------------------------------------------------

  /** A frame without payload is over as soon as its header is. */
  function BodyStage(left: nat, key: Key, index: nat): Stage {
    if left == 0 then AtHeader([]) else InBody(left, key, index)
  }

  lemma HeaderTaken(consumed: seq<Byte>, frames: seq<InFrame>, s: seq<Byte>)
    requires Fold(BEGIN, consumed) == Stream(frames, AtHeader([])) && s != [] && ParseHeader(s).Head?
    ensures var h := ParseHeader(s);
            Fold(BEGIN, consumed + s[..h.size]) ==
            if h.opcode == 8 then Stream(frames, Closed)
            else Stream(frames + [InFrame(h.opcode, h.last, h.length, [])], BodyStage(h.length, h.key, 0))
  {
    hide Fold, ParseHeader;
    FoldHeader(Fold(BEGIN, consumed), s);
    FoldSplit(BEGIN, consumed, s[..ParseHeader(s).size]);
  }

  lemma PayloadTaken(consumed: seq<Byte>, frames: seq<InFrame>, left: nat, key: Key, index: nat, s: seq<Byte>)
    requires Fold(BEGIN, consumed) == Stream(frames, BodyStage(left, key, index))
    requires |s| <= left && index < 4 && frames != []
    ensures Fold(BEGIN, consumed + s) ==
            Stream(Grow(frames, Masked(key, index, s)), BodyStage(left - |s|, key, (index + |s|) % 4))
  {
    hide Fold, Masked, Grow;
    FoldSplit(BEGIN, consumed, s);
    if s == [] {
      FoldNothing(Fold(BEGIN, consumed));
      GrowTwice(frames, [], []);
      assert Masked(key, index, s) == [];
    } else {
      FoldBody(Fold(BEGIN, consumed), s);
    }
  }

  lemma FirstBytes(b: seq<Byte>, lo: nat, hi: nat, n: nat)
    requires lo + n <= hi <= |b|
    ensures b[lo..hi][..n] == b[lo..lo + n]
  {
  }

  lemma Behind(consumed: seq<Byte>, s: seq<Byte>, n: nat)
    requires n <= |s|
    ensures consumed + s == consumed + s[..n] + s[n..]
  {
  }

  datatype ReceiveState = Header | Body | Closing | Error

  class WebSocketReceiver {
    const buffer: array<Byte>
    const start: nat
    const size: nat             // ReceiveBufferSize
    var pos: nat                // ReceiveBufferPos
    var fullness: nat           // _receiveBufferFullness
    var receiving: bool         // _webSocketReceiving: a receive is under way

    var state: ReceiveState     // _webSocketReceiveState, as far as the stream goes
    var closed: bool            // it is Close: a receive has failed
    var frameLen: nat
    var frameLast: bool
    var frameOpcode: Byte
    var mask: Key               // _webSocketMask0 to _webSocketMask3
    var maskIndex: nat
    var readPending: bool       // _webSocketReceiveTcs is set
    var segment: array<Byte>    // _webSocketReceiveSegment
    var segmentOffset: nat
    var segmentCount: nat
    var count: nat              // _webSocketReceiveCount

    ghost var consumed: seq<Byte>
    ghost var received: seq<Byte>
    ghost var frames: seq<InFrame>
    ghost var reports: seq<seq<Piece>>
    ghost var partial: seq<Byte>

    ghost predicate Layout()
      reads `pos, `fullness, `receiving, `segment, `segmentOffset, `segmentCount, `readPending, `count
    {
      && size > 0 && start + size <= buffer.Length
      && start + pos <= fullness <= start + size
      && (receiving ==> pos == 0 && fullness == start)
      && segment != buffer && segmentOffset + segmentCount <= segment.Length
      && (readPending ==> count <= segmentOffset)
    }

    ghost function Pending(): seq<Byte>
      requires Layout()
      reads `pos, `fullness, `receiving, `segment, `segmentOffset, `segmentCount, `readPending, `count, buffer
    {
      buffer[start + pos..fullness]
    }

    /** What the consumed bytes mean to the reference. */
    ghost predicate Sync()
      reads `consumed, `frames, `state, `frameLen, `frameOpcode, `frameLast, `mask, `maskIndex
    {
      && maskIndex < 4
      && Fold(BEGIN, consumed) == Stream(frames, AbsStage())
      && (state == Body ==> frames != [] && frames[|frames| - 1].opcode == frameOpcode
                            && frames[|frames| - 1].last == frameLast
                            && |frames[|frames| - 1].payload| + frameLen == frames[|frames| - 1].length)
    }

    ghost function AbsStage(): Stage
      reads `state, `frameLen, `mask, `maskIndex
    {
      match state
      case Header => AtHeader([])
      case Body => BodyStage(frameLen, mask, maskIndex)
      case Closing => Closed
      case Error => AtHeader([])
    }

    /** The bytes stored for the pending receive, or for the one that was cancelled. */
    ghost predicate Stored()
      requires Layout()
      reads `pos, `fullness, `receiving, `segment, `segmentOffset, `segmentCount, `readPending, `count
      reads `closed, `partial, segment
    {
      if readPending then segment[segmentOffset - count..segmentOffset] == partial else closed || partial == []
    }

    /** What holds inside ParseWebSocketReceivedData. */
    ghost predicate Running()
      reads this, buffer, segment
    {
      && Layout() && Stored() && Sync()
      && Reported(frames, reports, partial, state == Body)
      && received == consumed + Pending()
    }

    ghost predicate Valid()
      reads this, buffer, segment
    {
      && Running()
      && (state == Body ==> frameLen > 0 && (readPending ==> Pending() == []))
      && (state == Header && readPending ==> Pending() == [] || ParseHeader(Pending()).Incomplete?)
      && (state == Error ==> Pending() != [] && ParseHeader(Pending()).Bad?)
      && (readPending ==> state == Header || state == Body)
      && (closed ==> !readPending && !receiving)
    }

    /**
     * WebSocketAcceptMethod; bytes that came behind the request may be in the buffer by then. `segment`
     * is a stand-in until the first receive.
     */
    constructor (buffer: array<Byte>, start: nat, size: nat, pos: nat, fullness: nat, segment: array<Byte>)
      requires size > 0 && start + size <= buffer.Length && segment != buffer
      requires start + pos <= fullness <= start + size
      ensures this.buffer == buffer && this.start == start && this.size == size
      ensures Valid() && Pending() == received == buffer[start + pos..fullness] && reports == []
      ensures !readPending && !closed && state == Header
    {
      this.buffer, this.start, this.size, this.segment := buffer, start, size, segment;
      this.pos, this.fullness, receiving, state, closed := pos, fullness, false, Header, false;
      frameLen, frameLast, frameOpcode, mask, maskIndex := 0, false, 0, [0, 0, 0, 0], 0;
      readPending, segmentOffset, segmentCount, count := false, 0, 0, 0;
      consumed, received, frames, reports, partial := [], buffer[start + pos..fullness], [], [], [];
      new;
      assert [] + Pending() == Pending();
    }

    method Unmask(srcOfs: nat, dst: array<Byte>, dstOfs: nat, len: nat)
      requires srcOfs + len <= buffer.Length && dstOfs + len <= dst.Length && dst != buffer && maskIndex < 4
      modifies this`maskIndex, dst
      ensures dst[dstOfs..dstOfs + len] == Masked(mask, old(maskIndex), buffer[srcOfs..srcOfs + len])
      ensures maskIndex == (old(maskIndex) + len) % 4
      ensures forall i :: 0 <= i < dst.Length && !(dstOfs <= i < dstOfs + len) ==> dst[i] == old(dst[i])
    {
      hide Xor, Masked;
      ghost var index, src := maskIndex, buffer[srcOfs..srcOfs + len];
      var i := 0;
      while i < len
        invariant i <= len && maskIndex == (index + i) % 4
        invariant dst[dstOfs..dstOfs + i] == Masked(mask, index, src[..i])
        invariant forall k :: 0 <= k < dst.Length && !(dstOfs <= k < dstOfs + i) ==> dst[k] == old(dst[k])
      {
        MaskedOneMore(mask, index, src, i);
        Append(dst, dstOfs, dstOfs + i, Xor(buffer[srcOfs + i], mask[maskIndex]));
        maskIndex := (maskIndex + 1) % 4;
        i := i + 1;
      }
      assert src[..len] == src;
    }

    static method Append(a: array<Byte>, from: nat, to: nat, b: Byte)
      requires from <= to < a.Length
      modifies a
      ensures a[from..to + 1] == old(a[from..to]) + [b]
      ensures forall i :: 0 <= i < a.Length && i != to ==> a[i] == old(a[i])
    {
      a[to] := b;
      assert a[from..to] == old(a[from..to]);
      Joined(a, from, to, to + 1);
    }

    method ConsumeReceiveData(n: nat)
      requires Layout() && received == consumed + Pending() && n <= |Pending()| && (receiving ==> n == 0)
      modifies this`pos, this`consumed
      ensures Layout() && received == consumed + Pending() && pos == old(pos) + n
      ensures Pending() == old(Pending())[n..] && consumed == old(consumed) + old(Pending())[..n]
    {
      ghost var s0 := Pending();
      Behind(consumed, s0, n);
      pos := pos + n;
      consumed := consumed + s0[..n];
      assert Pending() == s0[n..];
    }

    /** A complete header leaves the buffer. */
    method TakeHeader()
      requires Running() && state == Header && !receiving && Pending() != [] && ParseHeader(Pending()).Head?
      modifies this`pos, this`state, this`frameLen, this`frameLast, this`frameOpcode, this`mask, this`maskIndex
      modifies this`consumed, this`frames, this`reports
      ensures Running() && partial == [] && (state == Body || state == Closing)
    {
      hide Fold, ParseHeader, Reported;
      ghost var s0 := Pending();
      var h := ParseHeader(buffer[start + pos..fullness]);
      HeaderTaken(consumed, frames, s0);
      assert partial == [] by { NothingPartial(frames, reports, partial); }
      ConsumeReceiveData(h.size);
      OpenFrame(h);
    }

    /** What ParseHeader leaves in the fields, and the state behind it. */
    method OpenFrame(h: Head)
      requires h.Head? && state == Header && Reported(frames, reports, [], false)
      requires Fold(BEGIN, consumed) == if h.opcode == 8 then Stream(frames, Closed)
               else Stream(frames + [InFrame(h.opcode, h.last, h.length, [])], BodyStage(h.length, h.key, 0))
      modifies this`state, this`frameLen, this`frameLast, this`frameOpcode, this`mask, this`maskIndex
      modifies this`frames, this`reports
      ensures Sync() && Reported(frames, reports, [], state == Body) && (state == Body || state == Closing)
    {
      hide Fold, Reported;
      frameLen, frameLast, frameOpcode, mask := h.length, h.last, h.opcode, h.key;
      maskIndex := 0;
      if h.opcode == 8 {
        state := Closing;
      } else {
        state := Body;
        ghost var f := InFrame(h.opcode, h.last, h.length, []);
        NewFrame(frames, reports, f);
        frames, reports := frames + [f], reports + [[]];
      }
    }

    /** As much payload as is there and as the application has room for. */
    method TakePayload()
      requires Running() && state == Body && readPending && !receiving
      modifies this`pos, this`frameLen, this`maskIndex, this`segmentOffset, this`segmentCount, this`count
      modifies this`consumed, this`frames, this`partial, segment
      ensures Running()
      ensures frameLen == 0 || segmentCount == 0 || Pending() == []
      ensures pos >= old(pos)
    {
      hide Fold, Masked, Reported, Stored;
      var len := if frameLen <= segmentCount then frameLen else segmentCount;
      if fullness - start - pos < len {
        len := fullness - start - pos;
      }
      PayloadTaken(consumed, frames, frameLen, mask, maskIndex, Pending()[..len]);
      MovePayload(len);
      GrowFrame(len, old(partial), Masked(mask, old(maskIndex), old(Pending())[..len]));
    }

    method MovePayload(len: nat)
      requires Layout() && Stored() && readPending && !receiving && maskIndex < 4
      requires received == consumed + Pending() && len <= segmentCount && len <= |Pending()|
      modifies this`pos, this`maskIndex, this`segmentOffset, this`segmentCount, this`count
      modifies this`consumed, this`partial, segment
      ensures Layout() && Stored() && received == consumed + Pending()
      ensures segmentCount == old(segmentCount) - len && pos == old(pos) + len
      ensures consumed == old(consumed) + old(Pending())[..len]
      ensures partial == old(partial) + Masked(mask, old(maskIndex), old(Pending())[..len])
      ensures maskIndex == (old(maskIndex) + len) % 4
    {
      hide Masked;
      FirstBytes(buffer[..], start + pos, fullness, len);
      Store(len);
      ConsumeReceiveData(len);
    }

    method GrowFrame(len: nat, ghost stored: seq<Byte>, ghost more: seq<Byte>)
      requires state == Body && len == |more| <= frameLen && frames != [] && maskIndex < 4
      requires Fold(BEGIN, consumed) == Stream(Grow(frames, more), BodyStage(frameLen - len, mask, maskIndex))
      requires frames[|frames| - 1].opcode == frameOpcode && frames[|frames| - 1].last == frameLast
      requires |frames[|frames| - 1].payload| + frameLen == frames[|frames| - 1].length
      requires Reported(frames, reports, stored, true) && partial == stored + more
      modifies this`frameLen, this`frames
      ensures Sync() && Reported(frames, reports, partial, true) && frameLen == old(frameLen) - len
    {
      hide Fold, Reported;
      StoreMore(frames, reports, stored, more);
      frameLen := frameLen - len;
      frames := Grow(frames, more);
    }

    method Store(len: nat)
      requires Layout() && Stored() && readPending && maskIndex < 4
      requires len <= segmentCount && start + pos + len <= fullness
      modifies this`maskIndex, this`segmentOffset, this`segmentCount, this`count, this`partial, segment
      ensures Layout() && Stored() && segmentCount == old(segmentCount) - len
      ensures partial == old(partial) + Masked(mask, old(maskIndex), buffer[start + pos..start + pos + len])
      ensures maskIndex == (old(maskIndex) + len) % 4
    {
      hide Masked;
      ghost var more := Masked(mask, maskIndex, buffer[start + pos..start + pos + len]);
      UnmaskBehind(segmentOffset - count, len);
      AdvanceSegment(len);
      partial := partial + more;
    }

    method UnmaskBehind(from: nat, len: nat)
      requires from <= segmentOffset && segmentOffset + len <= segment.Length && segment != buffer
      requires maskIndex < 4 && start + pos + len <= buffer.Length
      modifies this`maskIndex, segment
      ensures segment[from..segmentOffset + len] ==
              old(segment[from..segmentOffset]) + Masked(mask, old(maskIndex), buffer[start + pos..start + pos + len])
      ensures maskIndex == (old(maskIndex) + len) % 4
    {
      hide Masked;
      Unmask(start + pos, segment, segmentOffset, len);
      assert segment[from..segmentOffset] == old(segment[from..segmentOffset]);
      Joined(segment, from, segmentOffset, segmentOffset + len);
    }

    method AdvanceSegment(len: nat)
      requires len <= segmentCount
      modifies this`segmentOffset, this`segmentCount, this`count
      ensures segmentOffset == old(segmentOffset) + len && segmentCount == old(segmentCount) - len
      ensures count == old(count) + len
    {
      count := count + len;
      segmentOffset := segmentOffset + len;
      segmentCount := segmentCount - len;
    }

    /** Completes the pending receive. */
    method Report(end: bool)
      requires Running() && state == Body && readPending
      requires end ==> frameLen == 0
      modifies this`readPending, this`reports, this`partial, this`state
      ensures Running() && !readPending && Pending() == old(Pending()) && state == (if end then Header else Body)
    {
      hide Fold, Pieces;
      ReportPiece(frames, reports, partial, end);
      reports := AddPiece(reports, Piece(frameOpcode, end && frameLast, partial));
      partial := [];
      readPending := false;
      if end {
        state := Header;
      }
    }

    method StartReceive()
      requires Layout() && Stored() && Pending() == []
      modifies this`pos, this`fullness, this`receiving
      ensures Layout() && Stored() && Pending() == [] && receiving
    {
      pos := 0;
      fullness := start;
      receiving := true;
    }

    /** ParseWebSocketReceivedData */
    method Parse()
      requires Running() && !closed && (receiving ==> Pending() == [])
      requires readPending ==> state != Closing
      requires state == Body ==> frameLen > 0
      requires state == Error ==> Pending() != [] && ParseHeader(Pending()).Bad?
      modifies this, segment
      ensures Valid() && received == old(received) && segment == old(segment) && !closed
      // a receive that stays unanswered waits for more data, except in the middle of a header
      ensures readPending ==> old(readPending)
      ensures readPending ==> (receiving <==> !(state == Header && Pending() != []))
      ensures old(readPending && state == Header && Pending() != [] && ParseHeader(Pending()).Incomplete?)
          ==> readPending && state == Header && Pending() == old(Pending())
      ensures readPending && state == Header && Pending() != [] ==> Pending() == old(Pending())
      ensures old(Pending()) == [] ==> receiving && readPending == old(readPending) && state == old(state)
    {
      hide Fold, ParseHeader, Reported, Sync, Stored;
      if fullness - start - pos == 0 {
        StartReceive();
        return;
      }
      if !readPending {
        return;
      }
      if state == Header {
        ParseAtHeader();
      }
      if state == Body {
        ParseInBody();
      } else if state == Error {
        NothingPartial(frames, reports, partial);
        Answer();
      } else if state == Closing {
        Answer();
      }
    }

    /** The pending receive is cancelled, or told about the close frame. */
    method Answer()
      requires Layout() && partial == []
      modifies this`readPending
      ensures Layout() && Stored() && Pending() == old(Pending()) && !readPending
    {
      readPending := false;
    }

    method ParseAtHeader()
      requires Running() && state == Header && Pending() != [] && readPending && !receiving
      modifies this`pos, this`state, this`frameLen, this`frameLast, this`frameOpcode, this`mask, this`maskIndex
      modifies this`consumed, this`frames, this`reports
      ensures Running() && partial == []
      ensures state == Header <==> old(ParseHeader(Pending())).Incomplete?
      ensures state == Header ==> Pending() == old(Pending())
      ensures state == Error ==> Pending() == old(Pending()) && ParseHeader(Pending()).Bad?
    {
      hide Fold, ParseHeader, Reported;
      NothingPartial(frames, reports, partial);
      match ParseHeader(buffer[start + pos..fullness]) {
        case Head(_, _, _, _, _) =>
          TakeHeader();
        case Bad =>
          state := Error;
        case Incomplete =>
      }
    }

    method ParseInBody()
      requires Running() && state == Body && readPending && !receiving && !closed
      modifies this, segment
      ensures Valid() && received == old(received) && segment == old(segment) && !closed
      ensures state != Closing && state != Error
      ensures readPending ==> state == Body && receiving
    {
      hide Fold, ParseHeader, Reported, Sync, Stored;
      TakePayload();
      if frameLen == 0 {
        Report(true);
      } else if segmentCount == 0 {
        Report(false);
      }
      if fullness - start - pos == 0 {
        StartReceive();
      }
    }

    /** WebSocketReceiveAsyncMethod; the application awaits one receive before it starts the next. */
    method ReceiveAsync(target: array<Byte>, offset: nat, size: nat) returns (cancelled: bool)
      requires Valid() && !readPending && target != buffer && offset + size <= target.Length
      modifies this, target
      ensures Valid() && received == old(received) && (cancelled <==> old(closed || state == Closing))
      ensures !cancelled ==> segment == target
      ensures !cancelled && old(Pending()) == [] ==> readPending && receiving && state == old(state)
      ensures readPending ==> (receiving <==> !(state == Header && Pending() != []))
    {
      hide Fold, ParseHeader, Reported;
      if closed || state == Closing {
        return true;
      }
      assert partial == [];
      segment, segmentOffset, segmentCount := target, offset, size;
      readPending := true;
      count := 0;
      assert segment[segmentOffset..segmentOffset] == [];
      Parse();
      return false;
    }

    /**
     * A receive has brought `data`, or it has failed, which cancels the pending receive of the application.
     * A receive of the application that waits for a header hangs if and only if the header is incomplete:
     * it stays pending and no receive is started.
     */
    method FinishReceiveData(success: bool, data: seq<Byte>)
      requires Valid() && receiving && (success ==> 0 < |data| <= size)
      modifies this, buffer, segment
      ensures Valid() && segment == old(segment) && closed == !success
      ensures received == if success then old(received) + data else old(received)
      ensures readPending ==> old(readPending) && success
      ensures readPending ==> (receiving <==> !(state == Header && Pending() != []))
      ensures success && old(readPending && state == Header)
          ==> (readPending && !receiving <==> ParseHeader(data).Incomplete?)
    {
      hide Fold, ParseHeader, Reported, Sync, Stored;
      if !success {
        Cancel();
        return;
      }
      Take(data);
      Parse();
    }

    method Cancel()
      requires Layout() && Stored()
      modifies this`receiving, this`closed, this`readPending
      ensures Layout() && Stored() && Pending() == old(Pending()) && !receiving && closed && !readPending
    {
      receiving := false;
      closed := true;
      readPending := false;
    }

    method Take(data: seq<Byte>)
      requires Layout() && Stored() && receiving && 0 < |data| <= size
      modifies this`receiving, this`fullness, this`received, buffer
      ensures Layout() && Stored() && !receiving && Pending() == data && received == old(received) + data
    {
      CopyIn(data, buffer, fullness);
      receiving := false;
      fullness := fullness + |data|;
      received := received + data;
      assert Pending() == data;
    }
  }

  const FIN_TEXT: Byte := 0x81

  lemma OneByteIsIncomplete()
    ensures ParseHeader([FIN_TEXT]).Incomplete?
  {
  }

  /** The first byte of a text frame, alone in its receive, and the application waits for ever. */
  method HeaderCutByReceive(buffer: array<Byte>, size: nat, target: array<Byte>) returns (c: WebSocketReceiver)
    requires 0 < size <= buffer.Length && target != buffer
    modifies buffer, target
    ensures c.Valid() && c.received == [FIN_TEXT]
    ensures c.readPending && !c.receiving
  {
    hide ParseHeader, Fold, Reported;
    OneByteIsIncomplete();
    c := new WebSocketReceiver(buffer, 0, size, 0, 0, target);
    var cancelled := c.ReceiveAsync(target, 0, target.Length);
    c.FinishReceiveData(true, [FIN_TEXT]);
  }

  // ---------------------------------------------------------------------------------------
  // What Valid says about the stream
  // ---------------------------------------------------------------------------------------

  /** Frames only get longer, and only the last one while it is open. */
  predicate Continues(a: seq<InFrame>, b: seq<InFrame>, open: bool) {
    && |a| <= |b|
    && forall i :: 0 <= i < |a| ==>
         && a[i].payload <= b[i].payload
         && (i < |a| - 1 || !open ==> b[i] == a[i])
  }

  lemma StepContinues(s: Stream, b: Byte)
    requires Sane(s)
    ensures Continues(s.frames, Step(s, b).frames, s.stage.InBody?)
    ensures !s.stage.InBody? && Step(s, b).stage.InBody? ==> |Step(s, b).frames| > |s.frames|
  {
    hide ParseHeader, Masked;
  }

  lemma {:induction false} FoldContinues(s: Stream, bytes: seq<Byte>)
    requires Sane(s)
    ensures Continues(s.frames, Fold(s, bytes).frames, s.stage.InBody?)
    decreases |bytes|
  {
    hide Step, Sane;
    if bytes != [] {
      var s', all := Step(s, bytes[0]), Fold(s, bytes).frames;
      StepContinues(s, bytes[0]);
      FoldContinues(s', bytes[1..]);
      forall i | 0 <= i < |s.frames|
        ensures s.frames[i].payload <= all[i].payload
      {
        assert s.frames[i].payload <= s'.frames[i].payload <= all[i].payload;
      }
    }
  }

  function Payload(frames: seq<InFrame>): seq<Byte> {
    if frames == [] then [] else frames[0].payload + Payload(frames[1..])
  }

  function Delivered(reports: seq<seq<Piece>>): seq<Byte> {
    if reports == [] then [] else StoredBy(reports[0]) + Delivered(reports[1..])
  }

  lemma {:induction false} DeliveredIsPayload(frames: seq<InFrame>, reports: seq<seq<Piece>>, partial: seq<Byte>,
                                              current: bool)
    requires Reported(frames, reports, partial, current)
    ensures Delivered(reports) + partial == Payload(frames)
  {
    hide Reported, StoredBy;
    FirstReported(frames, reports, partial, current);
    if frames != [] {
      if |frames| == 1 {
        assert Delivered(reports[1..]) == [] && Payload(frames[1..]) == [];
      } else {
        RestReported(frames, reports, partial, current);
        DeliveredIsPayload(frames[1..], reports[1..], partial, current);
        assert StoredBy(reports[0]) + (Delivered(reports[1..]) + partial)
            == StoredBy(reports[0]) + Delivered(reports[1..]) + partial;
      }
    }
  }

  lemma FirstReported(frames: seq<InFrame>, reports: seq<seq<Piece>>, partial: seq<Byte>, current: bool)
    requires Reported(frames, reports, partial, current)
    ensures |frames| == |reports| && (frames == [] ==> partial == [])
    ensures |frames| == 1 ==> StoredBy(reports[0]) + partial == frames[0].payload
    ensures |frames| > 1 ==> StoredBy(reports[0]) == frames[0].payload
  {
    hide StoredBy;
    if frames != [] {
      var open := current && |frames| == 1;
      assert Pieces(frames[0], reports[0], if open then partial else [], !open);
    }
  }

  lemma RestReported(frames: seq<InFrame>, reports: seq<seq<Piece>>, partial: seq<Byte>, current: bool)
    requires Reported(frames, reports, partial, current) && |frames| > 1
    ensures Reported(frames[1..], reports[1..], partial, current)
  {
    hide Pieces;
  }

  lemma {:induction false} PayloadContinues(a: seq<InFrame>, b: seq<InFrame>, open: bool)
    requires Continues(a, b, open)
    ensures Payload(a) <= Payload(b)
  {
    if |a| == 1 {
      assert Payload(a[1..]) == [];
    } else if |a| > 1 {
      PayloadContinues(a[1..], b[1..], open);
    }
  }

  /**
   * However the stream was cut and whatever buffers were passed in: the bytes stored for the
   * application are a beginning of the unmasked payloads of everything received, and each frame that
   * has been passed is covered by its reports, whose counts add up and of which only the last one can
   * say end of message, which it does if and only if the frame has FIN.
   */
  lemma ReceivedFramesAreReported(c: WebSocketReceiver)
    requires c.Valid()
    ensures var all := Fold(BEGIN, c.received).frames;
            var n := |c.reports| - if c.state == Body then 1 else 0;
            && Delivered(c.reports) + c.partial <= Payload(all)
            && 0 <= n && |c.reports| <= |all|
            && forall i :: 0 <= i < n ==> Pieces(all[i], c.reports[i], [], true)
  {
    hide Fold, Pieces;
    var s := Fold(BEGIN, c.consumed);
    FoldSplit(BEGIN, c.consumed, c.Pending());
    FoldContinues(s, c.Pending());
    PayloadContinues(c.frames, Fold(BEGIN, c.received).frames, s.stage.InBody?);
    DeliveredIsPayload(c.frames, c.reports, c.partial, c.state == Body);
  }

  /** A header that is refused breaks the stream, and nothing behind it is taken. */
  lemma {:induction false} RefusedHeaderBreaks(s: Stream, acc: seq<Byte>, bytes: seq<Byte>)
    requires s.stage == AtHeader(acc) && Sane(s) && bytes != [] && ParseHeader(acc + bytes).Bad?
    ensures Fold(s, bytes) == s.(stage := Broken)
    decreases |bytes|
  {
    hide ParseHeader, Fold;
    var all := acc + bytes;
    var acc' := acc + [bytes[0]];
    assert all[..|acc'|] == acc' && all[..|all|] == all;
    HeaderPrefix(all, |acc'|);
    NoHeadInBad(all, |acc'|);
    FoldOne(s, bytes);
    if ParseHeader(acc').Bad? {
      BrokenStays(s.(stage := Broken), bytes[1..]);
    } else {
      assert acc' + bytes[1..] == all;
      RefusedHeaderBreaks(s.(stage := AtHeader(acc')), acc', bytes[1..]);
    }
  }

  lemma NoHeadInBad(s: seq<Byte>, k: nat)
    requires s != [] && 0 < k <= |s| && ParseHeader(s).Bad?
    ensures !ParseHeader(s[..k]).Head?
  {
    hide Length64;
  }

  lemma FoldOne(s: Stream, bytes: seq<Byte>)
    requires Sane(s) && bytes != []
    ensures Fold(s, bytes) == Fold(Step(s, bytes[0]), bytes[1..])
  {
    hide Step;
  }

  lemma {:induction false} BrokenStays(s: Stream, bytes: seq<Byte>)
    requires s.stage.Broken?
    ensures Fold(s, bytes) == s
    decreases |bytes|
  {
    if bytes != [] {
      BrokenStays(s, bytes[1..]);
    }
  }

  /** The receiver that has given up on a header stands where the reference is broken, with all frames before it. */
  lemma ErrorIsBroken(c: WebSocketReceiver)
    requires c.Valid() && c.state == Error
    ensures Fold(BEGIN, c.received) == Stream(c.frames, Broken)
  {
    hide Fold, ParseHeader;
    FoldSplit(BEGIN, c.consumed, c.Pending());
    var s := Fold(BEGIN, c.consumed);
    assert [] + c.Pending() == c.Pending();
    RefusedHeaderBreaks(s, [], c.Pending());
  }
}
