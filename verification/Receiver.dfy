/**
 * The receive half of one connection, in place: the receive loop of Transport2HttpHandler
 * (Nowin/Transport2HttpHandler.cs:704-710, 930-942, 979-996, 1003-1230) together with the read
 * side of ReqRespStream (Nowin/ReqRespStream.cs:46-159). Every method keeps `Valid`, which says that
 * the heads and bodies handed on so far, continued by the bytes in the buffer, are those of the
 * reference `Input.Fold` over everything received.
 */
module Receiver {
  import opened Bytes
  import opened Chunked
  import opened BodyReader
  import opened RequestEnd
  import opened RequestHeaders
  import opened Input

  /** No connection is assumed to bring 2^63 bytes or more. */
  const STREAM_LIMIT: nat := TWO63

  /** Where one ProcessChunkedDataInternal started and what it has delivered so far. */
  datatype ReadRun = ReadRun(
    d0: Decoder, s0: seq<Byte>, want: nat,
    from: nat, result: nat, consumed: nat, length: nat,
    out: seq<Byte>, ended: bool)

  /** A call of Read or ReadAsync: its offset and count, and the bodies before it. */
  datatype ReadCall = ReadCall(from: nat, count: nat, bodies: seq<seq<Byte>>)

  class Receiver {
    const buffer: array<Byte>
    const start: nat          // StartBufferOffset
    const setup: Setup        // ReceiveBufferSize, and what ParseRequest makes of a head
    const decoder: ChunkedDecoder

    var pos: nat              // ReceiveBufferPos
    var fullness: nat         // _receiveBufferFullness
    var waiting: bool         // _waitingForRequest
    var receiving: bool       // a receive has been started and not finished
    var clientClosed: bool    // _clientClosedConnection
    var rejected: bool        // the 400 answer has been sent
    var failed: bool          // ParseRequest has thrown, and the 500 answer has been sent

    var isChunked: bool       // RequestIsChunked
    var contentLength: nat    // RequestContentLength
    var position: nat         // RequestPosition
    var reading: bool         // _startedReceiveRequestData
    var asyncBuffer: array<Byte>
    var asyncOffset: nat
    var asyncCount: nat
    var asyncResult: nat

    ghost var receiveOffset: nat         // where the receive that is going on stores its bytes
    ghost var call: ReadCall             // the last read
    ghost var delivered: seq<Byte>       // what it has got so far
    ghost var received: seq<Byte>        // every byte of the connection
    ghost var heads: seq<seq<Byte>>      // handed to ParseRequest
    ghost var bodies: seq<seq<Byte>>     // delivered by reads, one entry for each head

    // -------------------------------------------------------------------------------------
    // The invariant
    // -------------------------------------------------------------------------------------

    ghost function RegionEnd(): nat { start + setup.size }

    /** Offsets and free space: what the Debug.Asserts of the source rely on. */
    ghost predicate Layout()
      reads `pos, `fullness, `receiving, `receiveOffset, `waiting, `clientClosed
    {
      && setup.size > 0 && RegionEnd() <= buffer.Length
      && start + pos <= fullness <= RegionEnd()
      && (receiving ==> pos == 0 && fullness == receiveOffset < RegionEnd() && (waiting || fullness == start))
      && (receiving ==> !clientClosed)
    }

    /** A destination that a read may fill: never the receive region itself. */
    ghost predicate Target(a: array<Byte>, offset: nat, count: nat) {
      offset + count <= a.Length && (a == buffer ==> RegionEnd() <= offset)
    }

    ghost function Pending(): seq<Byte>
      requires Layout()
      reads `pos, `fullness, `receiving, `receiveOffset, `waiting, `clientClosed, buffer
    {
      buffer[start + pos..fullness]
    }

    /** A request has been handed over and is being processed. */
    ghost predicate InRequest()
      reads `waiting, `failed
    {
      !waiting && !failed
    }

    ghost function CurrentReader(): Reader
      requires position <= contentLength
      reads `isChunked, `position, `contentLength, decoder
    {
      var left := contentLength - position;
      if isChunked then Coded(left, decoder.Value()) else Sized(left)
    }

    /** While a request is processed, the body counters agree with the decoder. */
    ghost predicate BodyState()
      reads `pos, `fullness, `waiting, `failed, `received, `bodies
      reads `isChunked, `position, `contentLength, decoder
    {
      && position + fullness <= |received| + start + pos && |received| < STREAM_LIMIT
      && (InRequest() ==>
            && bodies != [] && position <= contentLength
            && (isChunked ==> Sound(decoder.Value()) && (decoder.state == End ==> contentLength == position)))
    }

    ghost predicate ReadState()
      reads `reading, `waiting, `failed, `asyncBuffer, `asyncOffset, `asyncCount, `position, `contentLength
    {
      && Target(asyncBuffer, asyncOffset, asyncCount)
      && (reading ==> InRequest() && asyncCount > 0 && position + asyncCount <= contentLength)
    }

    /** The last read has stored `delivered`, and counted it as part of the body. */
    ghost predicate Recorded()
      reads `asyncBuffer, `asyncOffset, `asyncResult, `call, `delivered, `bodies, asyncBuffer
    {
      && Target(asyncBuffer, call.from, |delivered|)
      && asyncOffset == call.from + |delivered| && asyncResult == |delivered|
      && asyncBuffer[call.from..call.from + |delivered|] == delivered
      && call.bodies != [] && bodies == Grow(call.bodies, delivered)
    }

    /** It wants what is left of its count, or of a shorter body. */
    ghost predicate Underway()
      reads this, asyncBuffer
    {
      && Recorded() && |delivered| + asyncCount <= call.count
      && (|delivered| + asyncCount < call.count ==> position + asyncCount == contentLength)
    }

    /** It has got its count, or the body is over. */
    ghost predicate ReadDone()
      reads this, asyncBuffer
    {
      && Recorded() && |delivered| <= call.count
      && (|delivered| < call.count ==> position == contentLength)
    }

    ghost function AbsStage(): Stage
      requires BodyState()
      reads `pos, `fullness, `waiting, `failed, `received, `bodies, `rejected
      reads `isChunked, `position, `contentLength, decoder
    {
      if rejected then TooLong else if failed then Refused
      else if waiting then Waiting([]) else Settle(CurrentReader())
    }

    ghost function Abs(): Stream
      requires BodyState()
      reads `pos, `fullness, `waiting, `failed, `received, `bodies, `heads, `rejected
      reads `isChunked, `position, `contentLength, decoder
    {
      Stream(heads, bodies, AbsStage())
    }

    /** The refinement: processed part and buffered bytes together are the reference's view. */
    ghost predicate Sync()
      requires Layout() && BodyState()
      reads `pos, `fullness, `waiting, `failed, `receiving, `receiveOffset, `clientClosed
      reads `received, `bodies, `heads, `rejected
      reads `isChunked, `position, `contentLength, decoder, buffer
    {
      && Sane(Abs()) && Sane(BEGIN)
      && Fold(setup, BEGIN, received) == Fold(setup, Abs(), Pending())
    }

    /** Between requests the stream is reset and the buffer holds no complete head. */
    ghost predicate Idle()
      requires Layout()
      reads this, buffer
    {
      if rejected then !receiving
      else Scan(0, Pending()) < 0 && |Pending()| < setup.size && (pos == 0 || start + pos == fullness)
    }

    /** What holds inside the receive loop. */
    ghost predicate Running()
      reads this, buffer, decoder, asyncBuffer
    {
      && Layout() && BodyState() && ReadState()
      && (reading ==> Underway())
      && (waiting ==> position == 0 && decoder.Value() == START)
      && (rejected ==> waiting) && (failed ==> !waiting)
      && Sync()
    }

    /** Outside the receive loop. */
    ghost predicate Quiet()
      reads this, buffer, decoder, asyncBuffer
    {
      && Running()
      && (waiting ==> Idle())
      && (reading ==> start + pos == fullness)
      && (failed ==> !receiving)
    }

    /** Whatever waits for bytes has a receive going on, until the client closes. */
    ghost predicate Live()
      reads `waiting, `rejected, `reading, `receiving, `clientClosed
    {
      (waiting && !rejected) || reading ==> receiving || clientClosed
    }

    ghost predicate Valid()
      reads this, buffer, decoder, asyncBuffer
    {
      Quiet() && Live()
    }

    constructor (buffer: array<Byte>, start: nat, setup: Setup)
      requires setup.size > 0 && start + setup.size <= buffer.Length
      ensures this.buffer == buffer && this.start == start && this.setup == setup
      ensures fresh(decoder)
      ensures Valid() && receiving && received == []
    {
      this.buffer, this.start, this.setup := buffer, start, setup;
      decoder := new ChunkedDecoder();
      pos, fullness, waiting, receiving, clientClosed, rejected, failed := 0, start, true, true, false, false, false;
      isChunked, contentLength, position := false, 0, 0;
      reading, asyncBuffer, asyncOffset, asyncCount, asyncResult := false, buffer, start + setup.size, 0, 0;
      received, heads, bodies := [], [], [];
      receiveOffset, call, delivered := start, ReadCall(0, 0, []), [];
      new;
      assert Matched(0, []) == 0 && Pending() == [];
    }

    // -------------------------------------------------------------------------------------
    // The receive buffer
    // -------------------------------------------------------------------------------------

    method NormalizeReceiveBuffer()
      requires Layout()
      modifies this`pos, this`fullness, buffer
      ensures Layout() && pos == 0 && Pending() == old(Pending())
      ensures forall i :: 0 <= i < buffer.Length && !(start <= i < RegionEnd()) ==> buffer[i] == old(buffer[i])
    {
      if pos == 0 {
        return;
      }
      MoveBlock(buffer, start + pos, start, fullness - start - pos);
      fullness := fullness - pos;
      pos := 0;
    }

    // -------------------------------------------------------------------------------------
    // Body data (ReqRespStream)
    // -------------------------------------------------------------------------------------

    /** The state of ProcessChunkedDataInternal's loop, the next encoded byte being at `ofs`. */
    ghost predicate InLoop(run: ReadRun, ofs: nat)
      reads this, decoder, buffer, asyncBuffer
    {
      && start + pos <= ofs <= fullness <= RegionEnd() <= buffer.Length
      && buffer[start + pos..fullness] == run.s0
      && Sound(run.d0) && Sound(decoder.Value())
      && Target(asyncBuffer, asyncOffset, asyncCount)
      && run.from <= asyncOffset && Delivered(run.from, run.result, run.consumed, run.out)
      && (if run.ended then
            && asyncCount == 0 && contentLength == position
            && TakeCoded(run.d0, run.s0, run.want) ==
               Taken(decoder.Value(), run.out, ofs - start - pos, true)
          else
            && asyncCount == run.want - |run.out| && contentLength == run.length
            && Progress(run.d0, run.s0, run.want, run.out, ofs - start - pos, decoder.Value(), asyncCount)
            && (decoder.state == End ==> run.d0.state == End))
    }

    method ProcessChunkedDataInternal()
      requires Layout() && !waiting && Sound(decoder.Value()) && Target(asyncBuffer, asyncOffset, asyncCount)
      modifies this`pos, this`position, this`contentLength, this`asyncOffset, this`asyncCount, this`asyncResult
      modifies decoder, asyncBuffer
      ensures var t := TakeCoded(old(decoder.Value()), old(Pending()), old(asyncCount));
              && t.r == decoder.Value()
              && pos == old(pos) + t.used && Layout() && Pending() == old(Pending())[t.used..]
              && asyncOffset == old(asyncOffset) + |t.out|
              && asyncCount == (if t.ended then 0 else old(asyncCount) - |t.out|)
              && asyncResult == old(asyncResult) + |t.out|
              && position == old(position) + |t.out|
              && contentLength == (if t.ended then position else old(contentLength))
              && asyncOffset <= asyncBuffer.Length && asyncBuffer[old(asyncOffset)..asyncOffset] == t.out
              && (decoder.state == End && old(decoder.state) != End ==> t.ended)
      ensures forall i :: 0 <= i < asyncBuffer.Length && !(old(asyncOffset) <= i < asyncOffset)
                          ==> asyncBuffer[i] == old(asyncBuffer[i])
    {
      hide TakeCoded, Progress, Sound, InLoop, Delivered;
      ghost var run := ReadRun(decoder.Value(), Pending(), asyncCount, asyncOffset, asyncResult, position,
                               contentLength, [], false);
      LoopEntered(run);
      var encodedDataOfs;
      encodedDataOfs, run := DecodeAvailable(run);
      LoopLeft(encodedDataOfs, run);
      MoveTo(encodedDataOfs);
    }

    /** The bytes in front of `ofs` leave the buffer. */
    method MoveTo(ofs: nat)
      requires Layout() && !waiting && start + pos <= ofs <= fullness
      modifies `pos
      ensures Layout() && pos == ofs - start && Pending() == buffer[ofs..fullness]
    {
      pos := ofs - start;
    }

    lemma LoopEntered(run: ReadRun)
      requires Layout() && Sound(decoder.Value()) && Target(asyncBuffer, asyncOffset, asyncCount)
      requires run == ReadRun(decoder.Value(), Pending(), asyncCount, asyncOffset, asyncResult, position,
                              contentLength, [], false)
      ensures InLoop(run, start + pos)
    {
      hide TakeCoded, Progress, Sound;
      ProgressStart(run.d0, run.s0, run.want);
    }

    /** What the loop has taken, when it is left. */
    lemma LoopLeft(ofs: nat, run: ReadRun)
      requires Layout() && InLoop(run, ofs) && (run.ended || ofs == fullness || asyncCount == 0)
      ensures start + pos <= ofs <= fullness && Sound(decoder.Value())
      ensures var used := ofs - start - pos;
              && TakeCoded(run.d0, run.s0, run.want) == Taken(decoder.Value(), run.out, used, run.ended)
              && buffer[ofs..fullness] == run.s0[used..]
      ensures asyncOffset == run.from + |run.out| <= asyncBuffer.Length && asyncBuffer[run.from..asyncOffset] == run.out
      ensures asyncResult == run.result + |run.out| && position == run.consumed + |run.out|
      ensures asyncCount == (if run.ended then 0 else run.want - |run.out|)
      ensures contentLength == (if run.ended then position else run.length)
      ensures !run.ended && decoder.state == End ==> run.d0.state == End
    {
      hide TakeCoded, Progress, Sound;
      if !run.ended {
        ProgressDone(run.d0, run.s0, run.want, run.out, ofs - start - pos, decoder.Value(), asyncCount);
      }
      SliceOfSlice(buffer[..], start + pos, fullness, ofs - start - pos, fullness - start - pos);
    }

    /** The loop, from the first available byte on. */
    method DecodeAvailable(ghost run0: ReadRun) returns (encodedDataOfs: nat, ghost run: ReadRun)
      requires Layout() && InLoop(run0, start + pos) && !run0.ended
      modifies this`position, this`contentLength, this`asyncOffset, this`asyncCount, this`asyncResult
      modifies decoder, asyncBuffer
      ensures InLoop(run, encodedDataOfs) && run == run0.(out := run.out, ended := run.ended)
      ensures !run.ended ==> encodedDataOfs == fullness || asyncCount == 0
      ensures forall i :: 0 <= i < asyncBuffer.Length && !(run.from <= i < asyncOffset)
                          ==> asyncBuffer[i] == old(asyncBuffer[i])
    {
      hide TakeCoded, Progress;
      run := run0;
      var encodedDataAvail := fullness - start - pos;
      encodedDataOfs := start + pos;
      while encodedDataAvail > 0 && asyncCount > 0
        invariant 0 <= encodedDataAvail && encodedDataOfs + encodedDataAvail == fullness
        invariant InLoop(run, encodedDataOfs)
        invariant run == run0.(out := run.out, ended := run.ended) && (run.ended ==> asyncCount == 0)
        invariant forall i :: 0 <= i < asyncBuffer.Length && !(run.from <= i < asyncOffset)
                              ==> asyncBuffer[i] == old(asyncBuffer[i])
        decreases encodedDataAvail, asyncCount
      {
        var decodedDataAvail := decoder.DataAvailable();
        if decodedDataAvail < 0 {
          run := BodyIsOver(encodedDataOfs, run);
          break;
        }
        if decodedDataAvail == 0 {
          run := ProcessFramingByte(encodedDataOfs, run);
          encodedDataOfs := encodedDataOfs + 1;
          encodedDataAvail := encodedDataAvail - 1;
        } else {
          if decodedDataAvail > encodedDataAvail {
            decodedDataAvail := encodedDataAvail;
          }
          if decodedDataAvail > asyncCount {
            decodedDataAvail := asyncCount;
          }
          run := CopyPayload(encodedDataOfs, decodedDataAvail, run);
          encodedDataAvail := encodedDataAvail - decodedDataAvail;
          encodedDataOfs := encodedDataOfs + decodedDataAvail;
        }
      }
    }

    method BodyIsOver(ofs: nat, ghost run: ReadRun) returns (ghost run': ReadRun)
      requires InLoop(run, ofs) && !run.ended && ofs < fullness && asyncCount > 0
      requires Finished(decoder.Value())
      modifies this`contentLength, this`asyncCount
      ensures InLoop(run', ofs) && run' == run.(ended := true)
    {
      hide TakeCoded, Progress;
      ProgressDone(run.d0, run.s0, run.want, run.out, ofs - start - pos, decoder.Value(), asyncCount);
      contentLength := position;
      asyncCount := 0;
      run' := run.(ended := true);
    }

    method ProcessFramingByte(ofs: nat, ghost run: ReadRun) returns (ghost run': ReadRun)
      requires InLoop(run, ofs) && !run.ended && ofs < fullness && asyncCount > 0
      requires Available(decoder.Value()) == 0
      modifies this`contentLength, this`asyncCount, decoder
      ensures InLoop(run', ofs + 1) && run' == run.(ended := run'.ended)
    {
      hide TakeCoded, Progress, Advance;
      ProgressFraming(run.d0, run.s0, run.want, run.out, ofs - start - pos, decoder.Value(), asyncCount);
      assert run.s0[ofs - start - pos] == buffer[ofs];
      var finished := decoder.ProcessByte(buffer[ofs]);
      if finished {
        contentLength := position;
        asyncCount := 0;
      }
      run' := run.(ended := finished);
    }

    method CopyPayload(ofs: nat, n: nat, ghost run: ReadRun) returns (ghost run': ReadRun)
      requires InLoop(run, ofs) && !run.ended && ofs + n <= fullness && n <= asyncCount
      requires 0 < n <= Available(decoder.Value())
      modifies this`asyncOffset, this`asyncCount, this`asyncResult, this`position, decoder, asyncBuffer
      ensures InLoop(run', ofs + n) && run' == run.(out := run'.out)
      ensures asyncOffset == old(asyncOffset) + n
      ensures forall i :: 0 <= i < asyncBuffer.Length && !(run.from <= i < asyncOffset)
                          ==> asyncBuffer[i] == old(asyncBuffer[i])
    {
      hide TakeCoded, Progress, Eat, Available, Sound, InLoop, Delivered;
      ghost var used := ofs - start - pos;
      Looping(run, ofs);
      PayloadTaken(run, ofs, n);
      decoder.DataEatten(n);
      Deliver(ofs, n, run.from, run.result, run.consumed, run.out);
      run' := run.(out := run.out + run.s0[used..used + n]);
      LoopGoesOn(run', ofs + n);
    }

    lemma Looping(run: ReadRun, ofs: nat)
      requires InLoop(run, ofs)
      ensures start + pos <= ofs <= fullness <= RegionEnd() <= buffer.Length && buffer[start + pos..fullness] == run.s0
      ensures Target(asyncBuffer, asyncOffset, asyncCount) && run.from <= asyncOffset
      ensures Delivered(run.from, run.result, run.consumed, run.out)
      ensures !run.ended ==> asyncCount == run.want - |run.out| && contentLength == run.length
    {
    }

    lemma LoopGoesOn(run: ReadRun, ofs: nat)
      requires start + pos <= ofs <= fullness <= RegionEnd() <= buffer.Length && buffer[start + pos..fullness] == run.s0
      requires Target(asyncBuffer, asyncOffset, asyncCount) && run.from <= asyncOffset
      requires Delivered(run.from, run.result, run.consumed, run.out)
      requires !run.ended && asyncCount == run.want - |run.out| && contentLength == run.length
      requires Sound(run.d0) && Sound(decoder.Value()) && decoder.state != End
      requires Progress(run.d0, run.s0, run.want, run.out, ofs - start - pos, decoder.Value(), asyncCount)
      ensures InLoop(run, ofs)
    {
      hide Progress, Sound, Delivered;
    }

    lemma PayloadTaken(run: ReadRun, ofs: nat, n: nat)
      requires InLoop(run, ofs) && !run.ended && ofs + n <= fullness && n <= asyncCount
      requires 0 < n <= Available(decoder.Value())
      ensures Sound(run.d0) && Sound(Eat(decoder.Value(), n)) && Eat(decoder.Value(), n).state == decoder.state != End
      ensures var used := ofs - start - pos;
              && buffer[ofs..ofs + n] == run.s0[used..used + n]
              && Progress(run.d0, run.s0, run.want, run.out + run.s0[used..used + n], used + n,
                          Eat(decoder.Value(), n), asyncCount - n)
    {
      hide TakeCoded, Progress, Eat, Available, Delivered;
      var used := ofs - start - pos;
      ProgressBlock(run.d0, run.s0, run.want, run.out, used, decoder.Value(), asyncCount, n);
      SliceOfSlice(buffer[..], start + pos, fullness, used, used + n);
    }

    /** The current read has put `out` into the caller's buffer and counted it everywhere. */
    ghost predicate Delivered(from: nat, result: nat, consumed: nat, out: seq<Byte>)
      requires asyncOffset <= asyncBuffer.Length
      reads this, asyncBuffer
    {
      && asyncOffset == from + |out| && asyncResult == result + |out| && position == consumed + |out|
      && asyncBuffer[from..asyncOffset] == out
    }

    /** Copies a block of payload to the caller. */
    method Deliver(ofs: nat, n: nat, ghost from: nat, ghost result: nat, ghost consumed: nat, ghost out: seq<Byte>)
      requires start <= ofs && ofs + n <= RegionEnd() <= buffer.Length
      requires n <= asyncCount && Target(asyncBuffer, asyncOffset, asyncCount)
      requires from <= asyncOffset && Delivered(from, result, consumed, out)
      modifies this`asyncOffset, this`asyncCount, this`asyncResult, this`position, asyncBuffer
      ensures asyncCount == old(asyncCount) - n && Target(asyncBuffer, asyncOffset, asyncCount)
      ensures Delivered(from, result, consumed, out + old(buffer[ofs..ofs + n]))
      ensures forall i :: 0 <= i < asyncBuffer.Length && !(from <= i < asyncOffset)
                          ==> asyncBuffer[i] == old(asyncBuffer[i])
      ensures asyncOffset == old(asyncOffset) + n
      ensures start + pos <= fullness <= RegionEnd()
          ==> buffer[start + pos..fullness] == old(buffer[start + pos..fullness])
    {
      ghost var block := buffer[ofs..ofs + n];
      CopyBlock(buffer, ofs, asyncBuffer, asyncOffset, n);
      assert asyncBuffer[from..asyncOffset] == out;
      assert asyncBuffer[from..asyncOffset + n] == out + block;
      asyncOffset := asyncOffset + n;
      asyncCount := asyncCount - n;
      asyncResult := asyncResult + n;
      position := position + n;
    }

    /** A read wants `asyncCount` bytes of the current body. */
    ghost predicate MidRead()
      reads this, buffer, decoder
    {
      && Layout() && BodyState() && Target(asyncBuffer, asyncOffset, asyncCount)
      && InRequest() && !rejected
      && position + asyncCount <= contentLength
      && Sync()
    }

    /** Takes what the buffer has for the current read out of the buffer. */
    method Consume()
      requires Layout() && BodyState() && Target(asyncBuffer, asyncOffset, asyncCount) && InRequest()
      requires position + asyncCount <= contentLength
      modifies this`pos, this`position, this`contentLength, this`asyncOffset, this`asyncCount, this`asyncResult
      modifies decoder, asyncBuffer
      ensures Layout() && BodyState() && Target(asyncBuffer, asyncOffset, asyncCount)
      ensures position + asyncCount <= contentLength
      ensures var t := Take(old(CurrentReader()), old(Pending()), old(asyncCount));
              && CurrentReader() == t.r
              && pos == old(pos) + t.used && Pending() == old(Pending())[t.used..]
              && asyncCount == (if t.ended then 0 else old(asyncCount) - |t.out|)
              && contentLength == (if t.ended then position else old(contentLength))
              && position == old(position) + |t.out|
              && asyncResult == old(asyncResult) + |t.out| && asyncOffset == old(asyncOffset) + |t.out|
              && asyncBuffer[old(asyncOffset)..asyncOffset] == t.out
      ensures forall i :: 0 <= i < asyncBuffer.Length && !(old(asyncOffset) <= i < asyncOffset)
                          ==> asyncBuffer[i] == old(asyncBuffer[i])
    {
      ghost var r, s0, n := CurrentReader(), Pending(), asyncCount;
      ghost var t := Take(r, s0, n);
      if isChunked {
        assert t == Limited(contentLength - position, TakeCoded(decoder.Value(), s0, n));
        hide Take, TakeCoded, TakeSized, Finished, Sound, Available, Readable, Layout, BodyState, Target, Pending;
        ConsumeCoded();
      } else {
        assert t == TakeSized(contentLength - position, s0, n);
        hide Take, TakeCoded, TakeSized, Finished, Sound, Available, Readable, Layout, BodyState, Target, Pending;
        ConsumeSized();
      }
    }

    /** ProcessChunkedDataInternal, with what it means for the counters and the unread bytes. */
    method ConsumeCoded()
      requires Layout() && BodyState() && Target(asyncBuffer, asyncOffset, asyncCount) && InRequest() && isChunked
      requires position + asyncCount <= contentLength
      modifies this`pos, this`position, this`contentLength, this`asyncOffset, this`asyncCount, this`asyncResult
      modifies decoder, asyncBuffer
      ensures Layout() && BodyState() && Target(asyncBuffer, asyncOffset, asyncCount)
      ensures position + asyncCount <= contentLength
      ensures var t := TakeCoded(old(decoder.Value()), old(Pending()), old(asyncCount));
              && t.r == decoder.Value()
              && pos == old(pos) + t.used && Pending() == old(Pending())[t.used..]
              && asyncCount == (if t.ended then 0 else old(asyncCount) - |t.out|)
              && contentLength == (if t.ended then position else old(contentLength))
              && position == old(position) + |t.out|
              && asyncResult == old(asyncResult) + |t.out| && asyncOffset == old(asyncOffset) + |t.out|
              && asyncBuffer[old(asyncOffset)..asyncOffset] == t.out
      ensures forall i :: 0 <= i < asyncBuffer.Length && !(old(asyncOffset) <= i < asyncOffset)
                          ==> asyncBuffer[i] == old(asyncBuffer[i])
    {
      hide TakeCoded, Finished, Available;
      ProcessChunkedDataInternal();
    }

    method ConsumeSized()
      requires Layout() && BodyState() && Target(asyncBuffer, asyncOffset, asyncCount) && InRequest() && !isChunked
      requires position + asyncCount <= contentLength
      modifies this`pos, this`position, this`asyncOffset, this`asyncCount, this`asyncResult, asyncBuffer
      ensures Layout() && BodyState() && Target(asyncBuffer, asyncOffset, asyncCount)
      ensures position + asyncCount <= contentLength
      ensures var t := TakeSized(old(contentLength - position), old(Pending()), old(asyncCount));
              && t.r == Sized(contentLength - position)
              && pos == old(pos) + t.used && Pending() == old(Pending())[t.used..]
              && asyncCount == old(asyncCount) - |t.out|
              && position == old(position) + |t.out|
              && asyncResult == old(asyncResult) + |t.out| && asyncOffset == old(asyncOffset) + |t.out|
              && asyncBuffer[old(asyncOffset)..asyncOffset] == t.out
      ensures forall i :: 0 <= i < asyncBuffer.Length && !(old(asyncOffset) <= i < asyncOffset)
                          ==> asyncBuffer[i] == old(asyncBuffer[i])
    {
      ProcessSizedDataInternal();
    }

    method ProcessSizedDataInternal()
      requires Layout() && !waiting && Target(asyncBuffer, asyncOffset, asyncCount)
      requires position + asyncCount <= contentLength
      modifies this`pos, this`position, this`asyncOffset, this`asyncCount, this`asyncResult, asyncBuffer
      ensures var t := TakeSized(old(contentLength - position), old(Pending()), old(asyncCount));
              && position == old(position) + |t.out| <= contentLength
              && t.r == Sized(contentLength - position)
              && pos == old(pos) + t.used && Layout() && Pending() == old(Pending())[t.used..]
              && asyncOffset == old(asyncOffset) + |t.out|
              && asyncCount == old(asyncCount) - |t.out|
              && asyncResult == old(asyncResult) + |t.out|
              && asyncOffset <= asyncBuffer.Length && asyncBuffer[old(asyncOffset)..asyncOffset] == t.out
      ensures forall i :: 0 <= i < asyncBuffer.Length && !(old(asyncOffset) <= i < asyncOffset)
                          ==> asyncBuffer[i] == old(asyncBuffer[i])
    {
      hide TakeSized;
      ghost var s0 := Pending();
      var len := if asyncCount < fullness - start - pos then asyncCount else fullness - start - pos;
      SizedIs(contentLength - position, s0, asyncCount, len);
      if len > 0 {
        HandOver(len);
      }
    }

    /** The next `n` bytes go from the buffer to the caller. */
    method HandOver(n: nat)
      requires Layout() && !waiting && n <= |Pending()| && n <= asyncCount
      requires Target(asyncBuffer, asyncOffset, asyncCount)
      modifies this`pos, this`position, this`asyncOffset, this`asyncCount, this`asyncResult, asyncBuffer
      ensures Layout() && pos == old(pos) + n && Pending() == old(Pending())[n..]
      ensures asyncOffset == old(asyncOffset) + n && asyncCount == old(asyncCount) - n
      ensures asyncResult == old(asyncResult) + n && position == old(position) + n
      ensures asyncOffset <= asyncBuffer.Length && asyncBuffer[old(asyncOffset)..asyncOffset] == old(Pending())[..n]
      ensures forall i :: 0 <= i < asyncBuffer.Length && !(old(asyncOffset) <= i < asyncOffset)
                          ==> asyncBuffer[i] == old(asyncBuffer[i])
    {
      Cut(n);
      Deliver(start + pos, n, asyncOffset, asyncResult, position, []);
      Cut(n);
      MoveTo(start + pos + n);
    }

    lemma Cut(n: nat)
      requires Layout() && n <= |Pending()|
      ensures buffer[start + pos + n..fullness] == Pending()[n..]
      ensures [] + buffer[start + pos..start + pos + n] == Pending()[..n]
    {
      SliceOfSlice(buffer[..], start + pos, fullness, 0, n);
      SliceOfSlice(buffer[..], start + pos, fullness, n, fullness - start - pos);
    }

    method ProcessDataInternal()
      requires MidRead()
      modifies this`pos, this`position, this`contentLength, this`asyncOffset, this`asyncCount, this`asyncResult
      modifies this`bodies, this`delivered, decoder, asyncBuffer
      ensures MidRead()
      ensures var t := Take(old(CurrentReader()), old(Pending()), old(asyncCount));
              && CurrentReader() == t.r
              && pos == old(pos) + t.used && Pending() == old(Pending())[t.used..]
              && asyncCount == (if t.ended then 0 else old(asyncCount) - |t.out|)
              && contentLength == (if t.ended then position else old(contentLength))
              && position == old(position) + |t.out|
              && asyncResult == old(asyncResult) + |t.out| && asyncOffset == old(asyncOffset) + |t.out|
              && asyncBuffer[old(asyncOffset)..asyncOffset] == t.out
              && bodies == Grow(old(bodies), t.out) && delivered == old(delivered) + t.out
      ensures forall i :: 0 <= i < asyncBuffer.Length && !(old(asyncOffset) <= i < asyncOffset)
                          ==> asyncBuffer[i] == old(asyncBuffer[i])
    {
      hide Fold, Take, Matched, Finished, Grow, Layout, Sound, Available, Settle;
      ghost var t := Take(CurrentReader(), Pending(), asyncCount);
      ghost var c := Abs();
      FoldTake(setup, c, CurrentReader(), Pending(), asyncCount);
      ReadingSane(c, t.out, t.r);
      GrowKeepsCount(bodies, t.out);
      Consume();
      bodies := Grow(bodies, t.out);
      delivered := delivered + t.out;
      assert Layout() && Target(asyncBuffer, asyncOffset, asyncCount);
      assert BodyState();
      assert Abs() == Reading(c, t.out, t.r);
      assert Sync();
    }

    /** ProcessDataInternal, and what the current read has got by it. */
    method ProcessRead()
      requires MidRead() && Underway()
      modifies this`pos, this`position, this`contentLength, this`asyncOffset, this`asyncCount, this`asyncResult
      modifies this`bodies, this`delivered, decoder, asyncBuffer
      ensures MidRead() && Recorded() && pos >= old(pos)
      ensures asyncCount == 0 ==> ReadDone()
      ensures asyncCount != 0 ==> Underway() && Pending() == []
      ensures var t := Take(old(CurrentReader()), old(Pending()), old(asyncCount));
              && delivered == old(delivered) + t.out
              && asyncCount == (if t.ended then 0 else old(asyncCount) - |t.out|)
    {
      hide Fold, Scan, Matched, Take, Grow, MidRead, Sync, Sound, Available, Layout, BodyState;
      ReadingState();
      ghost var n, t := asyncOffset, Take(CurrentReader(), Pending(), asyncCount);
      TakeExhausts(CurrentReader(), Pending(), asyncCount);
      GrowTwice(call.bodies, delivered, t.out);
      ProcessDataInternal();
      ReadingState();
      assert asyncBuffer[call.from..n] == old(delivered);
      Joined(asyncBuffer, call.from, n, asyncOffset);
    }

    lemma ReadingState()
      requires MidRead()
      ensures Layout() && BodyState() && Target(asyncBuffer, asyncOffset, asyncCount)
      ensures position + asyncCount <= contentLength && Readable(CurrentReader())
    {
    }

    // -------------------------------------------------------------------------------------
    // The receive loop
    // -------------------------------------------------------------------------------------

    /** A complete head leaves the buffer; ParseRequest sets up the body behind it. */
    method TakeHead(posOfReqEnd: nat)
      requires Running() && waiting && !rejected && !receiving
      requires start + pos <= posOfReqEnd <= fullness
      requires Scan(0, Pending()) == posOfReqEnd - start - pos > 0
      modifies this`waiting, this`failed, this`pos, this`heads, this`bodies, this`isChunked, this`contentLength
      ensures Running() && !waiting
      ensures pos > old(pos) && Pending() == old(Pending())[pos - old(pos)..]
    {
      hide Fold, Matched, Scan, HeadDone, Settle;
      HeadIsWhole(setup, Abs(), Pending());
      var head := DropHead(posOfReqEnd - start - pos);
      ParseRequest(head);
      assert Sync();
    }

    method DropHead(n: nat) returns (head: seq<Byte>)
      requires Layout() && !receiving && n <= |Pending()|
      modifies this`pos
      ensures Layout() && pos == old(pos) + n
      ensures head == old(Pending())[..n] && Pending() == old(Pending())[n..]
    {
      SliceOfSlice(buffer[..], start + pos, fullness, 0, n);
      SliceOfSlice(buffer[..], start + pos, fullness, n, fullness - start - pos);
      head := buffer[start + pos..start + pos + n];
      pos := pos + n;
    }

    /** What ParseRequest leaves for the receive side. */
    method ParseRequest(head: seq<Byte>)
      requires waiting && !rejected && !receiving && BodyState() && Layout() && ReadState()
      requires !failed && position == 0 && decoder.Value() == START
      modifies this`waiting, this`failed, this`heads, this`bodies, this`isChunked, this`contentLength
      ensures !waiting && BodyState() && Layout() && ReadState()
      ensures Abs() == HeadDone(setup, old(Abs()), head)
    {
      hide Matched;
      StartNotFinished();
      waiting := false;
      heads := heads + [head];
      bodies := bodies + [[]];
      var meaning := setup.parse(head);
      match meaning {
        case None =>
          failed := true;
        case Some(m) =>
          isChunked := m.chunked;
          contentLength := m.contentLength;
          assert CurrentReader() == Opening(m);
      }
    }

    /** No end of head in the buffer: make room, or give up when there is none. */
    method NoHeadYet()
      requires Running() && waiting && !rejected && !receiving && Scan(0, Pending()) < 0 && Pending() != []
      modifies this`pos, this`fullness, this`rejected, buffer
      ensures Quiet() && pos == 0 && Pending() == old(Pending())
      ensures rejected <==> |Pending()| == setup.size
      ensures forall i :: 0 <= i < buffer.Length && !(start <= i < RegionEnd()) ==> buffer[i] == old(buffer[i])
    {
      hide Fold, Matched, Scan;
      ghost var c, s0 := Abs(), Pending();
      assert [] + s0 == s0 && c.stage == Waiting([]);
      NothingScanned();
      FoldHead(setup, c, [], s0);
      NormalizeReceiveBuffer();
      var count := start + setup.size - fullness;
      if count == 0 {
        rejected := true;
        FoldStopped(setup, Abs(), s0);
      }
    }

    /** ProcessDataAndShouldReadMore for a read that was waiting for data. */
    method ContinueRead()
      requires Running() && reading
      modifies this`reading, this`pos, this`position, this`contentLength, this`delivered
      modifies this`asyncOffset, this`asyncCount, this`asyncResult, this`bodies, decoder, asyncBuffer
      ensures Running() && InRequest() && (reading ==> Pending() == []) && (!reading ==> ReadDone())
      ensures pos >= old(pos) && old(delivered) <= delivered
    {
      hide Fold, Scan, Matched, Take, Grow, Sync, BodyState, Recorded;
      reading := false;
      ProcessRead();
      if asyncCount != 0 {
        reading := true;
      }
    }

    /** Starts the next receive where the loop has left the buffer, if one is due. */
    method NextReceive() returns (startNext: bool)
      requires Quiet() && !rejected && !failed && (receiving ==> Pending() == [])
      modifies this`pos, this`fullness, this`receiving, this`receiveOffset
      ensures Valid() && (startNext <==> receiving && !old(receiving)) && (old(receiving) ==> receiving)
      ensures old(ReadDone()) ==> ReadDone()
    {
      hide Fold, Scan, Matched, Grow, Sound, Available, Recorded, BodyState, Finished, Abs, AbsStage;
      Rewind();
      if fullness - start - pos == 0 || waiting {
        if !receiving && !clientClosed {
          receiving := true;
          receiveOffset := fullness;
          return true;
        }
      }
      return false;
    }

    /** An empty buffer is filled from its beginning again. */
    method Rewind()
      requires Quiet() && !rejected && (receiving ==> Pending() == [])
      modifies this`pos, this`fullness
      ensures Quiet() && Pending() == old(Pending()) && (Pending() == [] ==> pos == 0 && fullness == start)
      ensures old(ReadDone()) ==> ReadDone()
    {
      hide Fold, Scan, Matched, Grow, Sound, Available, Recorded, Finished;
      ghost var s0 := Pending();
      if start + pos == fullness {
        pos := 0;
        fullness := start;
        assert Pending() == s0;
      }
    }

    /** A turn of the loop between two requests: true if a head was complete. */
    method TryHead() returns (found: bool)
      requires Running() && waiting && !rejected && !receiving && Pending() != []
      modifies this`waiting, this`failed, this`pos, this`fullness, this`rejected
      modifies this`heads, this`bodies, this`isChunked, this`contentLength, buffer
      ensures found ==> Running() && !waiting && !rejected && |Pending()| < old(|Pending()|)
      ensures !found ==> Quiet() && waiting && !failed
    {
      hide Fold, Scan, Matched, Take, Sync, Grow, Sound, Available;
      ScanSound(Pending());
      var posOfReqEnd := FindRequestEnd(buffer, start + pos, fullness);
      if posOfReqEnd < 0 {
        NoHeadYet();
        return false;
      }
      TakeHead(posOfReqEnd);
      return true;
    }

    /** true if a new receive should be started */
    method ProcessReceive() returns (startNext: bool)
      requires Running() && !rejected && !failed
      requires receiving ==> Pending() == []
      modifies this`waiting, this`failed, this`rejected, this`pos, this`fullness, this`receiving, this`receiveOffset
      modifies this`isChunked, this`contentLength, this`position, this`heads, this`bodies
      modifies this`reading, this`asyncOffset, this`asyncCount, this`asyncResult, this`delivered
      modifies buffer, decoder, asyncBuffer
      ensures Valid() && received == old(received) && clientClosed == old(clientClosed)
      ensures startNext <==> receiving && !old(receiving)
      ensures old(receiving) ==> receiving
      ensures call == old(call) && asyncBuffer == old(asyncBuffer) && old(delivered) <= delivered
      ensures old(reading) && !reading ==> ReadDone()
    {
      hide Fold, Scan, Matched, Take, Sync, Grow, Sound, Available, BodyState, Recorded, ReadDone;
      NothingScanned();
      while fullness - start - pos > 0
        invariant Running() && !rejected && !failed
        invariant received == old(received) && clientClosed == old(clientClosed) && asyncBuffer == old(asyncBuffer)
        invariant (receiving ==> Pending() == []) && receiving == old(receiving)
        invariant call == old(call) && old(delivered) <= delivered
        invariant old(reading) ==> !waiting && (reading || ReadDone())
        decreases fullness - start - pos, reading
      {
        if waiting {
          var found := TryHead();
          if rejected || failed {
            return false;
          }
          if !found {
            break;
          }
        } else {
          if !reading {
            break;
          }
          ContinueRead();
        }
      }
      assert start + pos == fullness ==> Pending() == [];
      assert waiting ==> Idle();
      startNext := NextReceive();
    }

    // -------------------------------------------------------------------------------------
    // Events
    // -------------------------------------------------------------------------------------

    /** What a started receive asks the transport for, at any time until it is finished. */
    method RealStartNextReceive() returns (offset: nat, count: nat)
      requires Valid() && receiving
      ensures offset == receiveOffset && count > 0 && offset + count == RegionEnd()
    {
      offset := fullness;
      count := start + setup.size - fullness;
    }

    /**
     * A receive (or the accept, for the first one) has stored `data` where it was asked to. A read that
     * is over after it has got what it wanted, or the rest of the body.
     */
    method FinishReceive(offset: nat, data: seq<Byte>) returns (startNext: bool)
      requires Valid() && receiving && offset == receiveOffset
      requires |data| <= RegionEnd() - offset && |received| + |data| < STREAM_LIMIT
      modifies this, buffer, decoder, asyncBuffer
      ensures Valid() && received == old(received) + data
      ensures startNext <==> receiving
      ensures call == old(call) && asyncBuffer == old(asyncBuffer) && old(delivered) <= delivered
      ensures old(reading) && !reading ==> ReadDone()
    {
      hide Fold, Scan, Matched;
      TakeIn(offset, data);
      startNext := ProcessReceive();
    }

    method TakeIn(offset: nat, data: seq<Byte>)
      requires Valid() && receiving && offset == receiveOffset
      requires |data| <= RegionEnd() - offset && |received| + |data| < STREAM_LIMIT
      modifies this`receiving, this`fullness, this`received, buffer
      ensures Running() && !receiving && !rejected && !failed && received == old(received) + data
    {
      hide Fold, Scan, Matched, Grow, Sound, Available, Recorded;
      FoldSplit(setup, BEGIN, received, data);
      FoldSplit(setup, Abs(), Pending(), data);
      Store(offset, data);
      received := received + data;
    }

    method Store(offset: nat, data: seq<Byte>)
      requires Layout() && receiving && offset == receiveOffset && |data| <= RegionEnd() - offset
      modifies this`receiving, this`fullness, buffer
      ensures Layout() && !receiving && Pending() == old(Pending()) + data && fullness == old(fullness) + |data|
      ensures old(Recorded()) ==> Recorded()
    {
      hide Grow;
      // what the source asserts before it looks at the data
      assert start + pos == offset || waiting;
      assert fullness == offset;
      ghost var s0 := Pending();
      CopyIn(data, buffer, offset);
      receiving := false;
      fullness := offset + |data|;
      assert buffer[start..fullness] == buffer[start..offset] + buffer[offset..fullness];
      assert buffer[start..offset] == s0;
    }


    /** The client has closed its side: a receive came back empty, and a read that waits for it is cancelled. */
    method FinishReceiveClosed() returns (cancelled: bool)
      requires Valid() && receiving
      modifies this`receiving, this`clientClosed, this`reading
      ensures Valid() && !receiving && clientClosed && !reading
      ensures cancelled <==> old(reading)
    {
      hide Fold, Scan, Matched, Grow;
      receiving := false;
      clientClosed := true;
      cancelled := false;
      if !waiting {
        if reading {
          reading := false;
          cancelled := true;
        }
      }
    }

    /** The response is out and its request read to the end: ResetForNextRequest, StartNextReceive. */
    method ResponseDone() returns (startNext: bool)
      requires Valid() && InRequest() && !reading && position == contentLength && !clientClosed
      modifies this, buffer, decoder, asyncBuffer
      ensures Valid() && received == old(received)
      ensures startNext <==> receiving && !old(receiving)
    {
      hide Fold, Scan, Matched;
      ghost var c, s0 := Abs(), Pending();
      waiting := true;
      decoder.Reset();
      position := 0;
      assert Abs() == c && Pending() == s0;
      startNext := ProcessReceive();
    }

    /** The count a read really wants: no more than the request has left. */
    ghost function Wanted(count: nat): nat
      requires position <= contentLength
      reads this
    {
      if count > contentLength - position then contentLength - position else count
    }

    method ReadSyncPart(target: array<Byte>, offset: nat, count: nat)
      requires Valid() && InRequest() && !reading && Target(target, offset, count)
      modifies this`asyncBuffer, this`asyncOffset, this`asyncCount, this`asyncResult
      modifies this`pos, this`position, this`contentLength, this`bodies, this`call, this`delivered, decoder, target
      ensures MidRead() && asyncBuffer == target
      ensures Recorded() && call == ReadCall(offset, count, old(bodies))
      ensures asyncCount == 0 ==> ReadDone()
      ensures asyncCount != 0 ==> Underway()
      ensures var want := old(Wanted(count));
              var t := Take(old(CurrentReader()), old(Pending()), want);
              && asyncCount == (if t.ended then 0 else want - |t.out|)
              && (asyncCount != 0 ==> Pending() == [])
              && delivered == t.out
    {
      hide Fold, Scan, Matched, Take, Grow, Sync, MidRead, Recorded, Underway, ReadDone, Sound, Available;
      var want := count;
      if want > contentLength - position {
        want := contentLength - position;
      }
      TakeZero(CurrentReader(), Pending(), bodies);
      StartRead(target, offset, count, want);
      if want == 0 {
        NothingWanted();
        return;
      }
      ProcessRead();
    }

    method StartRead(target: array<Byte>, offset: nat, count: nat, want: nat)
      requires Valid() && InRequest() && !reading && Target(target, offset, want)
      requires position + want <= contentLength && want <= count
      requires want < count ==> position + want == contentLength
      modifies this`asyncBuffer, this`asyncOffset, this`asyncCount, this`asyncResult, this`call, this`delivered
      ensures MidRead() && asyncBuffer == target && asyncCount == want
      ensures call == ReadCall(offset, count, bodies) && delivered == [] && Underway()
    {
      hide Fold, Scan, Matched, Take, Grow, Sync, BodyState, Layout;
      hide Idle, Abs, AbsStage, CurrentReader, Pending, ReadState;
      BodyIsOpen();
      SetTarget(target, offset, want);
      call, delivered := ReadCall(offset, count, bodies), [];
      GrowTwice(bodies, [], []);
    }

    lemma BodyIsOpen()
      requires BodyState() && InRequest()
      ensures bodies != []
    {
    }

    method SetTarget(target: array<Byte>, offset: nat, count: nat)
      modifies this`asyncBuffer, this`asyncOffset, this`asyncCount, this`asyncResult
      ensures asyncBuffer == target && asyncOffset == offset && asyncCount == count && asyncResult == 0
    {
      asyncBuffer := target;
      asyncOffset := offset;
      asyncCount := count;
      asyncResult := 0;
    }

    lemma NothingWanted()
      requires MidRead() && Underway() && asyncCount == 0
      ensures ReadDone() && Recorded()
    {
      hide Sync, Recorded;
    }

    /** Read and ReadAsync: `done` if the read completes at once, with asyncResult bytes. */
    method ReadAsync(target: array<Byte>, offset: nat, count: nat) returns (done: bool, startNext: bool)
      requires Valid() && InRequest() && !reading && Target(target, offset, count)
      modifies this, buffer, decoder, target
      ensures Valid() && received == old(received)
      ensures var want := old(Wanted(count));
              var t := Take(old(CurrentReader()), old(Pending()), want);
              && (done <==> Served(t, want)) && (done <==> !reading)
              && delivered == t.out && call == ReadCall(offset, count, old(bodies))
      ensures asyncBuffer == target && Recorded() && (done ==> ReadDone())
      // a read that waits has a receive going on, unless the client has closed its side: then it waits for ever
      ensures !done ==> (receiving <==> !old(clientClosed))
      ensures startNext <==> receiving && !old(receiving)
    {
      hide Fold, Scan, Matched, Take, Grow, Recorded, Sound, Available, Sync, BodyState;
      ReadSyncPart(target, offset, count);
      if asyncCount == 0 {
        return true, false;
      }
      reading := true;
      if clientClosed {
        return false, false;
      }
      // StartNextReceive: the buffer is empty, so the loop of ProcessReceive is not entered
      startNext := NextReceive();
      done := false;
    }
  }

  /**
   * A read behind the end: the client has closed its side and the buffer is empty. The read waits, no
   * receive is started, and no event can complete or cancel it any more, since all of them need one.
   */
  method ReadBehindTheEnd(c: Receiver, target: array<Byte>, offset: nat, count: nat)
    requires c.Valid() && c.InRequest() && !c.reading && c.clientClosed
    requires c.Pending() == [] && c.position < c.contentLength && count > 0 && c.Target(target, offset, count)
    modifies c, c.buffer, c.decoder, target
    ensures c.Valid() && c.reading && !c.receiving
  {
    hide Take;
    TakeFromNothing(c.CurrentReader(), c.Wanted(count));
    var done, startNext := c.ReadAsync(target, offset, count);
  }

  /** A complete head in front of the buffer is what the reference takes next. */
  lemma HeadIsWhole(setup: Setup, c: Stream, s: seq<Byte>)
    requires c.stage == Waiting([]) && |s| <= setup.size && 0 < setup.size
    requires 0 <= Scan(0, s) <= |s|
    ensures var n := Scan(0, s);
            Sane(c) && Fold(setup, c, s) == Fold(setup, HeadDone(setup, c, s[..n]), s[n..])
  {
    hide Fold, Matched, Scan, HeadDone;
    assert [] + s == s;
    NothingScanned();
    FoldHead(setup, c, [], s);
  }

  lemma GrowKeepsCount(bodies: seq<seq<Byte>>, out: seq<Byte>)
    ensures |Grow(bodies, out)| == |bodies|
  {
  }

  lemma SizedIs(left: nat, s: seq<Byte>, count: nat, len: nat)
    requires count <= left && len == if count < |s| then count else |s|
    ensures TakeSized(left, s, count) == Taken(Sized(left - len), s[..len], len, false)
  {
  }

  lemma TakeZero(r: Reader, s: seq<Byte>, bodies: seq<seq<Byte>>)
    requires Readable(r)
    ensures Take(r, s, 0) == Taken(r, [], 0, false)
    ensures Grow(bodies, []) == bodies
  {
    GrowTwice(bodies, [], []);
  }

  // ---------------------------------------------------------------------------------------
  // What Valid says about the stream
  // ---------------------------------------------------------------------------------------

  /**
   * At any moment the heads handed to ParseRequest are the first heads of the reference, which sees
   * only the concatenation of all receives; while the connection waits they are all of them, and the
   * 400 answer has been given exactly when the reference finds a head without end in `size` bytes.
   */
  lemma HeadsAreTheReference(c: Receiver)
    requires c.Valid()
    ensures Sane(BEGIN)
    ensures var all := Fold(c.setup, BEGIN, c.received);
            && c.heads <= all.heads && Extends(c.bodies, all.bodies)
            && (!c.InRequest() ==> c.heads == all.heads && c.bodies == all.bodies)
            && (!c.InRequest() ==> (c.rejected <==> all.stage == TooLong) && (c.failed <==> all.stage == Refused))
  {
    hide Fold, Matched, Scan;
    HeadsGrow(c.setup, c.Abs(), c.Pending());
    if c.rejected || c.failed {
      FoldStopped(c.setup, c.Abs(), c.Pending());
    } else if c.waiting {
      NothingScanned();
      assert [] + c.Pending() == c.Pending();
      FoldHead(c.setup, c.Abs(), [], c.Pending());
    }
  }

  /**
   * A read, however many receives it has waited for, has stored the next bytes of its body in the
   * reference; once it is over it has got min(count, what the body has left), whatever `more` comes.
   */
  lemma ReadsAreTheReference(c: Receiver, more: seq<Byte>)
    requires c.Valid() && c.Recorded()
    ensures Sane(BEGIN)
    ensures var body := Fold(c.setup, BEGIN, c.received + more).bodies;
            var i := |c.bodies| - 1;
            var from := |c.call.bodies[i]|;
            && i < |body| && from + |c.delivered| <= |body[i]|
            && c.delivered == body[i][from..from + |c.delivered|]
            && (c.ReadDone() ==> |c.delivered| == Min(c.call.count, |body[i]| - from))
  {
    hide Fold, Matched, Scan;
    FoldSplit(c.setup, BEGIN, c.received, more);
    FoldSplit(c.setup, c.Abs(), c.Pending(), more);
    HeadsGrow(c.setup, c.Abs(), c.Pending() + more);
    SettledStay(c.setup, c.Abs(), c.Pending() + more);
  }

  function Min(a: int, b: int): int { if a < b then a else b }

  /** Only an exhausted buffer leaves a read unserved. */
  lemma TakeExhausts(r: Reader, s: seq<Byte>, count: nat)
    requires Readable(r) && count <= r.left
    ensures Served(Take(r, s, count), count) || Take(r, s, count).used == |s|
  {
    TakeSplit(r, s, [], count);
  }

  /** Behind an oversized or refused head nothing changes any more. */
  lemma {:induction false} FoldStopped(setup: Setup, c: Stream, s: seq<Byte>)
    requires c.stage == TooLong || c.stage == Refused
    ensures Fold(setup, c, s) == c
    decreases |s|
  {
    if s != [] {
      FoldStopped(setup, c, s[1..]);
    }
  }

  lemma NothingScanned()
    ensures Scan(0, []) == -1 && Matched(0, []) == 0
  {
  }

  lemma StartNotFinished()
    ensures Sound(START) && !Finished(START)
  {
  }

  lemma SliceOfSlice(b: seq<Byte>, lo: nat, hi: nat, i: nat, j: nat)
    requires lo <= hi <= |b| && i <= j <= hi - lo
    ensures b[lo..hi][i..j] == b[lo + i..lo + j]
    ensures b[lo..hi][i..] == b[lo + i..hi]
  {
    var w := b[lo..hi];
    assert forall k :: 0 <= k < |w| ==> w[k] == b[lo + k];
    assert w[i..] == b[lo + i..hi];
    assert w[i..j] == b[lo + i..lo + j];
  }
}
