/**
 * Sending WebSocket messages: the fragmenting sender of OwinHandler with its carry-over buffer
 * (Nowin/OwinHandler.cs:368-421), against the frame layout and the fragmentation rules of
 * sections 5.2 and 5.4 of RFC 6455.
 */
module WebSocketSend {
  import opened Bytes

  // ---------------------------------------------------------------------------------------
  // Frames
  // ---------------------------------------------------------------------------------------

  datatype Frame = Frame(fin: bool, opcode: int, payload: seq<Byte>)

  /** `(byte)((fin ? 0x80 : 0) + messageType)` */
  function HeadByte(fin: bool, opcode: int): Byte {
    ((if fin then 0x80 else 0) + opcode) % 256
  }

  function LengthField(n: nat): (bytes: seq<Byte>)
    requires n <= 65535
    ensures |bytes| == if n < 126 then 1 else 3
  {
    if n < 126 then [n] else [126, n / 256, n % 256]
  }

  function Encode(f: Frame): seq<Byte>
    requires |f.payload| <= 65535
  {
    [HeadByte(f.fin, f.opcode)] + LengthField(|f.payload|) + f.payload
  }

  /** Bytes 2 and on of a frame: the size of the header and the payload length, in its only legal form. */
  function StandardLength(s: seq<Byte>): (r: Option<(nat, nat)>)
    requires |s| >= 2
    ensures r.Some? ==> r.value.0 >= 2
  {
    if s[1] < 126 then Some((2, s[1]))
    else if s[1] == 126 && |s| >= 4 && BigEndian(s[2..4]) >= 126 then Some((4, BigEndian(s[2..4])))
    else if s[1] == 127 && |s| >= 10 && BigEndian(s[2..10]) >= 65536 && s[2] < 128 then Some((10, BigEndian(s[2..10])))
    else None
  }

  /** The first frame of a server's stream by section 5.2: reserved bits clear, no mask, minimal length. */
  function StandardFrame(s: seq<Byte>): (r: Option<(Frame, seq<Byte>)>)
    ensures r.Some? ==> |r.value.1| < |s|
  {
    if |s| < 2 || s[0] / 16 % 8 != 0 then None
    else match StandardLength(s)
         case None => None
         case Some((header, n)) =>
           if |s| < header + n then None
           else Some((Frame(s[0] >= 128, s[0] % 16, s[header..header + n]), s[header + n..]))
  }

  function StandardFrames(s: seq<Byte>): Option<seq<Frame>>
    decreases |s|
  {
    if s == [] then Some([])
    else match StandardFrame(s)
         case None => None
         case Some((f, rest)) =>
           match StandardFrames(rest)
           case None => None
           case Some(fs) => Some([f] + fs)
  }

  predicate Sendable(f: Frame) {
    0 <= f.opcode < 16 && |f.payload| <= 65535
  }

  function EncodeAll(frames: seq<Frame>): seq<Byte>
    requires forall i :: 0 <= i < |frames| ==> |frames[i].payload| <= 65535
  {
    if frames == [] then [] else Encode(frames[0]) + EncodeAll(frames[1..])
  }

  lemma FrameDecodes(f: Frame, rest: seq<Byte>)
    requires Sendable(f)
    ensures StandardFrame(Encode(f) + rest) == Some((f, rest))
  {
    var n := |f.payload|;
    var s := Encode(f) + rest;
    var header := if n < 126 then 2 else 4;
    assert s[0] == HeadByte(f.fin, f.opcode) && s[1] == LengthField(n)[0];
    if n >= 126 {
      assert s[2..4] == [n / 256, n % 256];
      assert s[2..4][..1] == [n / 256] && s[2..4][..1][..0] == [];
      assert BigEndian([n / 256]) == n / 256;
    }
    assert s[header..header + n] == f.payload;
    assert s[header + n..] == rest;
  }

  /** What goes out is read back frame by frame. */
  lemma {:induction false} FramesDecode(frames: seq<Frame>)
    requires forall i :: 0 <= i < |frames| ==> |frames[i].payload| <= 65535 && Sendable(frames[i])
    ensures StandardFrames(EncodeAll(frames)) == Some(frames)
  {
    hide StandardFrame, Encode;
    if frames != [] {
      FrameDecodes(frames[0], EncodeAll(frames[1..]));
      FramesDecode(frames[1..]);
      assert StandardFrame([]) == None by { NoFrame(); }
      assert frames == [frames[0]] + frames[1..];
    }
  }

  lemma NoFrame()
    ensures StandardFrame([]) == None
  {
  }

  // ---------------------------------------------------------------------------------------
  // One call
  // ---------------------------------------------------------------------------------------

  /** What one call sends, what it leaves in the buffer, and whether it found the connection closed. */
  datatype Sent = Sent(frames: seq<Frame>, buffered: seq<Byte>, cancelled: bool)

  /** The loop of the sender; the connection is found closed at the start of turn `alive`. */
  function Send(buffered: seq<Byte>, data: seq<Byte>, messageType: int, endOfMessage: bool,
                maxlen: nat, alive: nat): Sent
    requires maxlen > 0
    decreases |buffered| + |data|
  {
    var all := buffered + data;
    if alive == 0 then Sent([], buffered, true)
    else if |all| > maxlen then
      var rest := Send([], all[maxlen..], 0, endOfMessage, maxlen, alive - 1);
      rest.(frames := [Frame(false, messageType, all[..maxlen])] + rest.frames)
    else if endOfMessage then Sent([Frame(true, messageType, all)], [], false)
    else Sent([], all, false)
  }

  function Payloads(frames: seq<Frame>): seq<Byte> {
    if frames == [] then [] else frames[0].payload + Payloads(frames[1..])
  }

  /** Nothing is lost, repeated or reordered; a cancelled call has sent a beginning. */
  lemma {:induction false} SendConserves(buffered: seq<Byte>, data: seq<Byte>, messageType: int, endOfMessage: bool,
                                         maxlen: nat, alive: nat)
    requires maxlen > 0
    ensures var r := Send(buffered, data, messageType, endOfMessage, maxlen, alive);
            && (!r.cancelled ==> Payloads(r.frames) + r.buffered == buffered + data)
            && (alive > |buffered| + |data| ==> !r.cancelled)
            && Payloads(r.frames) <= buffered + data
    decreases |buffered| + |data|
  {
    var all := buffered + data;
    if alive > 0 && |all| > maxlen {
      var f, tail := Frame(false, messageType, all[..maxlen]), all[maxlen..];
      var rest := Send([], tail, 0, endOfMessage, maxlen, alive - 1);
      SendConserves([], tail, 0, endOfMessage, maxlen, alive - 1);
      PayloadsFirst(f, rest.frames);
      assert [] + tail == tail && all == f.payload + tail;
      Continued(f.payload, Payloads(rest.frames), rest.buffered, tail);
    } else if alive > 0 && endOfMessage {
      PayloadsFirst(Frame(true, messageType, all), []);
    }
  }

  lemma PayloadsFirst(f: Frame, frames: seq<Frame>)
    ensures Payloads([f] + frames) == f.payload + Payloads(frames)
  {
    assert ([f] + frames)[1..] == frames;
  }

  lemma Continued(first: seq<Byte>, sent: seq<Byte>, buffered: seq<Byte>, tail: seq<Byte>)
    requires sent <= tail
    ensures first + sent <= first + tail
    ensures sent + buffered == tail ==> first + sent + buffered == first + tail
  {
  }

  /** FIN, opcode and size of every frame of a call. */
  predicate Shaped(frames: seq<Frame>, messageType: int, endOfMessage: bool, maxlen: nat) {
    forall i :: 0 <= i < |frames| ==>
      && frames[i].opcode == (if i == 0 then messageType else 0)
      && frames[i].fin == (endOfMessage && i == |frames| - 1)
      && |frames[i].payload| <= maxlen
      && (!frames[i].fin ==> |frames[i].payload| == maxlen)
  }

  lemma {:induction false} SendShape(buffered: seq<Byte>, data: seq<Byte>, messageType: int, endOfMessage: bool,
                                     maxlen: nat, alive: nat)
    requires maxlen > 0 && alive > |buffered| + |data|
    ensures var r := Send(buffered, data, messageType, endOfMessage, maxlen, alive);
            && Shaped(r.frames, messageType, endOfMessage, maxlen)
            && (if endOfMessage then r.buffered == [] && r.frames != []
                else |r.buffered| <= maxlen && (r.frames == [] <==> |buffered| + |data| <= maxlen))
    decreases |buffered| + |data|
  {
    var all := buffered + data;
    if |all| > maxlen {
      SendShape([], all[maxlen..], 0, endOfMessage, maxlen, alive - 1);
    }
  }

  // ---------------------------------------------------------------------------------------
  // Any number of calls
  // ---------------------------------------------------------------------------------------

  datatype Call = Call(data: seq<Byte>, messageType: int, endOfMessage: bool)

  /** A call that is never cancelled. */
  function SendWhole(buffered: seq<Byte>, call: Call, maxlen: nat): Sent
    requires maxlen > 0
  {
    Send(buffered, call.data, call.messageType, call.endOfMessage, maxlen, |buffered| + |call.data| + 1)
  }

  function SendAll(buffered: seq<Byte>, calls: seq<Call>, maxlen: nat): Sent
    requires maxlen > 0
    decreases |calls|
  {
    if calls == [] then Sent([], buffered, false)
    else
      var first := SendWhole(buffered, calls[0], maxlen);
      var rest := SendAll(first.buffered, calls[1..], maxlen);
      Sent(first.frames + rest.frames, rest.buffered, false)
  }

  function DataOf(calls: seq<Call>): seq<Byte> {
    if calls == [] then [] else calls[0].data + DataOf(calls[1..])
  }

  lemma {:induction false} PayloadsAppend(a: seq<Frame>, b: seq<Frame>)
    ensures Payloads(a + b) == Payloads(a) + Payloads(b)
  {
    if a == [] {
      assert a + b == b;
    } else {
      assert (a + b)[0] == a[0] && (a + b)[1..] == a[1..] + b;
      PayloadsAppend(a[1..], b);
    }
  }

  /** The frames of any calls, continued by the buffer, carry exactly what was passed in, in order. */
  lemma {:induction false} MessagesAreConserved(buffered: seq<Byte>, calls: seq<Call>, maxlen: nat)
    requires maxlen > 0
    ensures var r := SendAll(buffered, calls, maxlen);
            Payloads(r.frames) + r.buffered == buffered + DataOf(calls)
    decreases |calls|
  {
    hide Send, Payloads;
    if calls == [] {
      assert Payloads([]) == [] by { NoPayload(); }
      assert buffered + [] == buffered;
    } else {
      var first := SendWhole(buffered, calls[0], maxlen);
      var rest := SendAll(first.buffered, calls[1..], maxlen);
      var call := calls[0];
      SendConserves(buffered, call.data, call.messageType, call.endOfMessage, maxlen, |buffered| + |call.data| + 1);
      MessagesAreConserved(first.buffered, calls[1..], maxlen);
      PayloadsAppend(first.frames, rest.frames);
      calc {
        Payloads(first.frames + rest.frames) + rest.buffered;
        Payloads(first.frames) + Payloads(rest.frames) + rest.buffered;
        { assert Payloads(first.frames) + Payloads(rest.frames) + rest.buffered
              == Payloads(first.frames) + (Payloads(rest.frames) + rest.buffered); }
        Payloads(first.frames) + (first.buffered + DataOf(calls[1..]));
        { assert Payloads(first.frames) + (first.buffered + DataOf(calls[1..]))
              == (Payloads(first.frames) + first.buffered) + DataOf(calls[1..]); }
        (buffered + call.data) + DataOf(calls[1..]);
        { assert (buffered + call.data) + DataOf(calls[1..]) == buffered + (call.data + DataOf(calls[1..])); }
        buffered + DataOf(calls);
      }
    }
  }

  lemma NoPayload()
    ensures Payloads([]) == []
  {
  }

  /** Section 5.4: the opcode on the first frame only, FIN on the last one only. */
  predicate WellFragmented(frames: seq<Frame>, messageType: int) {
    && frames != []
    && forall i :: 0 <= i < |frames| ==>
         && frames[i].opcode == (if i == 0 then messageType else 0)
         && frames[i].fin == (i == |frames| - 1)
  }

  /** A message given in one call is one well-formed fragmented message, whatever its size. */
  lemma SingleCallMessage(data: seq<Byte>, messageType: int, maxlen: nat)
    requires maxlen > 0
    ensures var r := SendWhole([], Call(data, messageType, true), maxlen);
            WellFragmented(r.frames, messageType) && Payloads(r.frames) == data && r.buffered == []
  {
    SendShape([], data, messageType, true, maxlen, |data| + 1);
    SendConserves([], data, messageType, true, maxlen, |data| + 1);
    assert [] + data == data;
    assert Payloads(SendWhole([], Call(data, messageType, true), maxlen).frames) + [] == data;
  }

  function Parts(parts: seq<seq<Byte>>, messageType: int): (calls: seq<Call>)
    ensures |calls| == |parts|
  {
    seq(|parts|, i requires 0 <= i < |parts| => Call(parts[i], messageType, false))
  }

  lemma {:induction false} PartsBuffered(buffered: seq<Byte>, parts: seq<seq<Byte>>, messageType: int, maxlen: nat)
    requires maxlen > 0 && |buffered| <= maxlen
    ensures var r := SendAll(buffered, Parts(parts, messageType), maxlen);
            && |r.buffered| <= maxlen
            && (r.frames == [] <==> |buffered| + |Concat(parts)| <= maxlen)
            && (r.frames == [] ==> r.buffered == buffered + Concat(parts))
            && (r.frames != [] ==> r.frames[0].opcode == messageType)
            && (forall i :: 0 <= i < |r.frames| ==> !r.frames[i].fin)
    decreases |parts|
  {
    hide Send;
    var calls := Parts(parts, messageType);
    if parts == [] {
      assert buffered + [] == buffered;
    } else {
      assert calls[1..] == Parts(parts[1..], messageType);
      var first := SendWhole(buffered, calls[0], maxlen);
      SendShape(buffered, parts[0], messageType, false, maxlen, |buffered| + |parts[0]| + 1);
      SendConserves(buffered, parts[0], messageType, false, maxlen, |buffered| + |parts[0]| + 1);
      PartsBuffered(first.buffered, parts[1..], messageType, maxlen);
      if first.frames == [] {
        assert first.buffered == buffered + parts[0] by { assert [] + first.buffered == first.buffered; }
        assert buffered + parts[0] + Concat(parts[1..]) == buffered + Concat(parts);
      }
    }
  }

  lemma {:induction false} SendAllLast(buffered: seq<Byte>, calls: seq<Call>, last: Call, maxlen: nat)
    requires maxlen > 0
    ensures var r := SendAll(buffered, calls, maxlen);
            var l := SendWhole(r.buffered, last, maxlen);
            SendAll(buffered, calls + [last], maxlen) == Sent(r.frames + l.frames, l.buffered, false)
    decreases |calls|
  {
    hide Send;
    if calls == [] {
      assert [last][1..] == [] && calls + [last] == [last];
      var l := SendWhole(buffered, last, maxlen);
      assert l.frames + [] == l.frames && [] + l.frames == l.frames;
    } else {
      assert (calls + [last])[0] == calls[0] && (calls + [last])[1..] == calls[1..] + [last];
      var first := SendWhole(buffered, calls[0], maxlen);
      SendAllLast(first.buffered, calls[1..], last, maxlen);
      var r := SendAll(first.buffered, calls[1..], maxlen);
      var l := SendWhole(r.buffered, last, maxlen);
      assert first.frames + (r.frames + l.frames) == first.frames + r.frames + l.frames;
    }
  }

  /**
   * A message given in several calls is well fragmented exactly when its non-final calls fit the
   * buffer together: otherwise the opcode is repeated on the first frame of a later call.
   */
  lemma MessageWellFormedIffPartsFit(parts: seq<seq<Byte>>, data: seq<Byte>, messageType: int, maxlen: nat)
    requires maxlen > 0 && messageType != 0
    ensures var r := SendAll([], Parts(parts, messageType) + [Call(data, messageType, true)], maxlen);
            && r.buffered == []
            && Payloads(r.frames) == Concat(parts) + data
            && (WellFragmented(r.frames, messageType) <==> |Concat(parts)| <= maxlen)
  {
    hide Send, Payloads;
    var calls, last := Parts(parts, messageType), Call(data, messageType, true);
    var r := SendAll([], calls, maxlen);
    var l := SendWhole(r.buffered, last, maxlen);
    SendAllLast([], calls, last, maxlen);
    PartsBuffered([], parts, messageType, maxlen);
    SendShape(r.buffered, data, messageType, true, maxlen, |r.buffered| + |data| + 1);
    MessagesAreConserved([], calls + [last], maxlen);
    DataOfParts(parts, messageType, last);
    var all := r.frames + l.frames;
    assert Payloads(all) + [] == Payloads(all) && [] + DataOf(calls + [last]) == DataOf(calls + [last]);
    assert all[|r.frames|] == l.frames[0];
    if r.frames == [] {
      assert all == l.frames;
    }
  }

  lemma {:induction false} DataOfParts(parts: seq<seq<Byte>>, messageType: int, last: Call)
    ensures DataOf(Parts(parts, messageType) + [last]) == Concat(parts) + last.data
  {
    var calls := Parts(parts, messageType) + [last];
    if parts == [] {
      assert calls[1..] == [] && last.data + [] == last.data && [] + last.data == last.data;
    } else {
      assert calls[1..] == Parts(parts[1..], messageType) + [last];
      DataOfParts(parts[1..], messageType, last);
      assert parts[0] + (Concat(parts[1..]) + last.data) == parts[0] + Concat(parts[1..]) + last.data;
    }
  }

  // ---------------------------------------------------------------------------------------
  // In place
  // ---------------------------------------------------------------------------------------

  class WebSocketSender {
    const buffer: array<Byte>
    const start: nat              // SendDataOffset
    const length: nat             // SendDataLength
    var used: nat                 // _webSocketSendBufferUsedSize
    var nextIsStart: bool         // _webSocketNextSendIsStartOfMessage
    ghost var sent: seq<Byte>     // everything passed to SendData

    ghost function MaxLen(): int {
      if length - 4 < 65535 then length - 4 else 65535
    }

    ghost predicate Valid()
      reads this
    {
      && start + length <= buffer.Length && length > 4
      && used <= MaxLen() && nextIsStart
    }

    ghost function Buffered(): seq<Byte>
      requires Valid()
      reads this, buffer
    {
      buffer[start + 4..start + 4 + used]
    }

    /** WebSocketAcceptMethod; the send region is 2 * ReceiveBufferSize + 16 bytes long. */
    constructor (buffer: array<Byte>, start: nat, receiveBufferSize: nat)
      requires start + 2 * receiveBufferSize + 16 <= buffer.Length
      ensures this.buffer == buffer && this.start == start && length == 2 * receiveBufferSize + 16
      ensures Valid() && Buffered() == [] && sent == []
    {
      this.buffer, this.start, length := buffer, start, 2 * receiveBufferSize + 16;
      used := 0;
      nextIsStart := true;
      sent := [];
    }

    /** Puts the header in front of the `l` bytes of payload in the buffer and sends the frame. */
    method SendFrame(fin: bool, messageType: int, l: nat)
      requires Valid() && used == 0 && l <= MaxLen()
      modifies this`sent, buffer
      ensures sent == old(sent) + Encode(Frame(fin, messageType, old(buffer[start + 4..start + 4 + l])))
      ensures forall i :: 0 <= i < buffer.Length && !(start <= i < start + 4) ==> buffer[i] == old(buffer[i])
    {
      var o := start + 4;
      ghost var payload := buffer[o..o + l];
      var headerSize := WriteHeader(o, fin, messageType, l);
      assert buffer[o..o + l] == payload;
      assert buffer[o - headerSize..o + l] == buffer[o - headerSize..o] + buffer[o..o + l];
      sent := sent + buffer[o - headerSize..o + l];
    }

    /** The header, written backwards from `o`. */
    method WriteHeader(o: nat, fin: bool, messageType: int, l: nat) returns (headerSize: nat)
      requires 4 <= o <= buffer.Length && l <= 65535
      modifies buffer
      ensures headerSize <= 4 && buffer[o - headerSize..o] == [HeadByte(fin, messageType)] + LengthField(l)
      ensures forall i :: 0 <= i < buffer.Length && !(o - 4 <= i < o) ==> buffer[i] == old(buffer[i])
    {
      if l < 126 {
        buffer[o - 1] := l;
        headerSize := 2;
      } else {
        buffer[o - 3] := 126;
        buffer[o - 2] := l / 256;
        buffer[o - 1] := l % 256;
        headerSize := 4;
      }
      buffer[o - headerSize] := ((if fin then 0x80 else 0) + messageType) % 256;
    }

    /** Takes as much of the caller's data as fits behind what is buffered; `l` bytes are there now. */
    method FillPayload(source: array<Byte>, ofs: nat, left: nat) returns (ofs': nat, left': nat, l: nat, last: bool)
      requires Valid() && source != buffer && ofs + left <= source.Length
      modifies buffer
      ensures l == (if used + left > MaxLen() then MaxLen() else used + left) && (last <==> used + left <= MaxLen())
      ensures ofs' == ofs + (l - used) && left' == left - (l - used)
      ensures buffer[start + 4..start + 4 + l] == (old(Buffered()) + source[ofs..ofs + left])[..l]
      ensures source[ofs'..ofs' + left'] == (old(Buffered()) + source[ofs..ofs + left])[l..]
      ensures forall i :: 0 <= i < buffer.Length && !(start <= i < start + 4 + MaxLen()) ==> buffer[i] == old(buffer[i])
    {
      ghost var pending, data := Buffered(), source[ofs..ofs + left];
      var maxlen := if length - 4 < 65535 then length - 4 else 65535;
      l := used + left;
      last := false;
      if l > maxlen {
        l := maxlen;
      } else {
        last := true;
      }
      CopyBlock(source, ofs, buffer, start + 4 + used, l - used);
      ofs', left' := ofs + l - used, left - l + used;
      ghost var n := l - used;
      SourceSplit(source[..], ofs, left, n);
      CopiedBehind(old(buffer[..]), buffer[..], start + 4, used, data, n);
    }

    /** WebSocketSendAsyncMethod, up to the moment when every SendData it awaits has been started. */
    method SendAsync(source: array<Byte>, offset: nat, count: nat, messageType: int, endOfMessage: bool, alive: nat)
      returns (cancelled: bool)
      requires Valid() && source != buffer && offset + count <= source.Length
      modifies this`used, this`nextIsStart, this`sent, buffer
      ensures Valid()
      ensures var r := Send(old(Buffered()), source[offset..offset + count], messageType, endOfMessage, MaxLen(),
                            alive);
              && cancelled == r.cancelled && Buffered() == r.buffered
              && (forall i :: 0 <= i < |r.frames| ==> |r.frames[i].payload| <= 65535)
              && sent == old(sent) + EncodeAll(r.frames)
      ensures forall i :: 0 <= i < buffer.Length && !(start <= i < start + 4 + MaxLen()) ==> buffer[i] == old(buffer[i])
    {
      hide Encode, EncodeAll, Send, Ahead;
      var messageType := messageType;
      if !nextIsStart {
        messageType := 0;
      }
      var last := false;
      var ofs, left, turns := offset, count, alive;
      ghost var all := Send(Buffered(), source[offset..offset + count], messageType, endOfMessage, MaxLen(), alive);
      ghost var done: seq<Frame> := [];
      EncodeNone();
      NothingDone(all);
      while !last
        invariant Valid() && ofs + left == offset + count
        invariant forall i :: 0 <= i < |done| ==> |done[i].payload| <= 65535
        invariant sent == old(sent) + EncodeAll(done)
        invariant last ==> endOfMessage && all == Sent(done, [], false) && used == 0
        invariant !last ==> Ahead(all, done, Send(Buffered(), source[ofs..ofs + left], messageType, endOfMessage,
                                                  MaxLen(), turns))
        invariant forall i :: 0 <= i < buffer.Length && !(start <= i < start + 4 + MaxLen())
                              ==> buffer[i] == old(buffer[i])
        decreases !last, used + left
      {
        if turns == 0 {
          SendTurn(all, done, Buffered(), source[ofs..ofs + left], messageType, endOfMessage, MaxLen(), turns);
          return true;
        }
        turns := turns - 1;
        var buffered;
        ghost var f;
        ofs, left, last, buffered, f := SendOne(source, ofs, left, messageType, endOfMessage, all, done, turns);
        if buffered {
          return false;
        }
        EncodeOneMore(done, f);
        done := done + [f];
        messageType := 0;
        assert Buffered() == [];
      }
      nextIsStart := endOfMessage;
      return false;
    }

    /** A turn of the loop: the next frame `f` goes out, unless the rest of the data is only buffered. */
    method SendOne(source: array<Byte>, ofs: nat, left: nat, messageType: int, endOfMessage: bool,
                   ghost all: Sent, ghost done: seq<Frame>, ghost turns: nat)
      returns (ofs': nat, left': nat, last: bool, buffered: bool, ghost f: Frame)
      requires Valid() && source != buffer && ofs + left <= source.Length
      requires Ahead(all, done, Send(Buffered(), source[ofs..ofs + left], messageType, endOfMessage, MaxLen(),
                                     turns + 1))
      modifies this`used, this`sent, buffer
      ensures Valid() && ofs' + left' == ofs + left && (!last ==> left' < old(used) + left)
      ensures buffered ==> all == Sent(done, Buffered(), false) && sent == old(sent)
      ensures !buffered ==> used == 0 && |f.payload| <= 65535 && sent == old(sent) + Encode(f)
      ensures !buffered && last ==> endOfMessage && all == Sent(done + [f], [], false)
      ensures !last ==> !buffered && Ahead(all, done + [f], Send([], source[ofs'..ofs' + left'], 0, endOfMessage,
                                                                MaxLen(), turns))
      ensures forall i :: 0 <= i < buffer.Length && !(start <= i < start + 4 + MaxLen()) ==> buffer[i] == old(buffer[i])
    {
      hide Encode, Send, Ahead;
      ghost var next := Buffered() + source[ofs..ofs + left];
      SendTurn(all, done, Buffered(), source[ofs..ofs + left], messageType, endOfMessage, MaxLen(), turns + 1);
      var l;
      ofs', left', l, last := FillPayload(source, ofs, left);
      f := Frame(last && endOfMessage, messageType, next[..l]);
      if left' == 0 && last && !endOfMessage {
        used := l;
        assert next[..l] == next;
        return ofs', left', last, true, f;
      }
      used := 0;
      buffered := false;
      SendFrame(last && endOfMessage, messageType, l);
    }
  }

  /** `all` is what has been `done`, continued by `rest`. */
  predicate Ahead(all: Sent, done: seq<Frame>, rest: Sent) {
    all == Sent(done + rest.frames, rest.buffered, rest.cancelled)
  }

  lemma NothingDone(all: Sent)
    ensures Ahead(all, [], all)
  {
    assert [] + all.frames == all.frames;
  }

  /** One turn of the loop. */
  lemma SendTurn(all: Sent, done: seq<Frame>, buffered: seq<Byte>, data: seq<Byte>, messageType: int,
                 endOfMessage: bool, maxlen: nat, turns: nat)
    requires maxlen > 0 && Ahead(all, done, Send(buffered, data, messageType, endOfMessage, maxlen, turns))
    ensures turns == 0 ==> all == Sent(done, buffered, true)
    ensures turns > 0 ==>
      var next := buffered + data;
      var last := |next| <= maxlen;
      var l := if last then |next| else maxlen;
      var done' := done + [Frame(last && endOfMessage, messageType, next[..l])];
      && (last && endOfMessage ==> all == Sent(done', [], false))
      && (last && !endOfMessage ==> all == Sent(done, next, false))
      && (!last ==> Ahead(all, done', Send([], next[l..], 0, endOfMessage, maxlen, turns - 1)))
  {
    var next := buffered + data;
    assert done + [] == done && next[..|next|] == next;
    if turns > 0 && |next| > maxlen {
      var f := Frame(false, messageType, next[..maxlen]);
      var rest := Send([], next[maxlen..], 0, endOfMessage, maxlen, turns - 1);
      assert done + ([f] + rest.frames) == (done + [f]) + rest.frames;
    }
  }

  lemma SourceSplit(source: seq<Byte>, ofs: nat, left: nat, n: nat)
    requires n <= left && ofs + left <= |source|
    ensures source[ofs..ofs + left][..n] == source[ofs..ofs + n]
    ensures source[ofs..ofs + left][n..] == source[ofs + n..ofs + left]
  {
  }

  lemma CopiedBehind(before: seq<Byte>, after: seq<Byte>, o: nat, used: nat, data: seq<Byte>, n: nat)
    requires |before| == |after| && n <= |data| && o + used + n <= |after|
    requires after[o + used..o + used + n] == data[..n]
    requires forall i :: 0 <= i < |before| && !(o + used <= i < o + used + n) ==> after[i] == before[i]
    ensures after[o..o + used + n] == (before[o..o + used] + data)[..used + n]
    ensures data[n..] == (before[o..o + used] + data)[used + n..]
  {
    var filled, all := after[o..o + used + n], before[o..o + used] + data;
    forall i | 0 <= i < |filled|
      ensures filled[i] == all[i]
    {
      if i >= used {
        assert after[o + used..o + used + n][i - used] == data[i - used];
      }
    }
  }

  lemma EncodeNone()
    ensures EncodeAll([]) == []
  {
  }

  lemma {:induction false} EncodeOneMore(frames: seq<Frame>, f: Frame)
    requires forall i :: 0 <= i < |frames| ==> |frames[i].payload| <= 65535
    requires |f.payload| <= 65535
    ensures EncodeAll(frames + [f]) == EncodeAll(frames) + Encode(f)
  {
    hide Encode;
    if frames == [] {
      assert [f][1..] == [] && frames + [f] == [f] && Encode(f) + [] == Encode(f) && [] + Encode(f) == Encode(f);
    } else {
      assert (frames + [f])[0] == frames[0] && (frames + [f])[1..] == frames[1..] + [f];
      EncodeOneMore(frames[1..], f);
    }
  }
}
