/**
 * Reading a request body, Content-Length or chunked (Nowin/ReqRespStream.cs:46-159), as a
 * function of the bytes in the receive buffer, and what reads return over any cut of the stream.
 */
module BodyReader {
  import opened Bytes
  import opened Chunked
  import opened ChunkedBody

  /**
   * The part of a body that has not been consumed yet. `left` is RequestContentLength minus
   * RequestPosition; under chunked coding it is a limit that the reads keep to all the same.
   */
  datatype Reader = Sized(left: nat) | Coded(left: nat, d: Decoder)

  predicate Readable(r: Reader) {
    r.Coded? ==> Sound(r.d)
  }

  /** The server takes the body to be consumed: RequestPosition equals RequestContentLength. */
  predicate Ended(r: Reader) {
    r.left == 0
  }

  /**
   * What one ProcessDataInternal does with the available bytes when `count` bytes are wanted:
   * `out` goes to the caller, `used` bytes leave the buffer, `ended` sets the wanted count to 0.
   */
  datatype Taken<R> = Taken(r: R, out: seq<Byte>, used: nat, ended: bool)

  function TakeCoded(d: Decoder, s: seq<Byte>, count: nat): (t: Taken<Decoder>)
    requires Sound(d)
    ensures Sound(t.r) && |t.out| <= t.used <= |s| && |t.out| <= count
    decreases |s|
  {
    if count == 0 || s == [] then Taken(d, [], 0, false)
    else if Finished(d) then Taken(d, [], 0, true)
    else
      var (d', o) := Feed(d, s[0]);
      if d'.state == End then Taken(d', o, 1, true)
      else Prepend(o, TakeCoded(d', s[1..], count - |o|))
  }

  function Prepend<R>(o: seq<Byte>, t: Taken<R>): Taken<R> {
    Taken(t.r, o + t.out, t.used + 1, t.ended)
  }

  function TakeSized(left: nat, s: seq<Byte>, count: nat): (t: Taken<Reader>)
    requires count <= left
    ensures !t.ended && t.r.Sized?
  {
    var n := if count < |s| then count else |s|;
    Taken(Sized(left - n), s[..n], n, false)
  }

  /** A chunked body that is over sets RequestContentLength to RequestPosition. */
  function Limited(left: nat, t: Taken<Decoder>): Taken<Reader>
    requires |t.out| <= left
  {
    Taken(Coded(if t.ended then 0 else left - |t.out|, t.r), t.out, t.used, t.ended)
  }

  function Take(r: Reader, s: seq<Byte>, count: nat): (t: Taken<Reader>)
    requires Readable(r) && count <= r.left
    ensures Readable(t.r) && |t.out| <= t.used <= |s| && |t.out| <= count && t.r.Sized? == r.Sized?
    ensures t.r.left == if t.ended then 0 else r.left - |t.out|
  {
    match r
    case Sized(left) => TakeSized(left, s, count)
    case Coded(left, d) => Limited(left, TakeCoded(d, s, count))
  }

  /** Nothing more is wanted after this step. */
  predicate Served<R>(t: Taken<R>, count: nat) {
    t.ended || |t.out| == count
  }

  /** `t` behind `out` bytes delivered and `used` bytes consumed before. */
  function After<R>(out: seq<Byte>, used: nat, t: Taken<R>): Taken<R> {
    Taken(t.r, out + t.out, used + t.used, t.ended)
  }

  lemma AfterTwice<R>(o1: seq<Byte>, u1: nat, o2: seq<Byte>, u2: nat, t: Taken<R>)
    ensures After(o1, u1, After(o2, u2, t)) == After(o1 + o2, u1 + u2, t)
    ensures After([], 0, t) == t
  {
    assert o1 + (o2 + t.out) == o1 + o2 + t.out;
    assert [] + t.out == t.out;
  }

  lemma TakeFraming(d: Decoder, s: seq<Byte>, count: nat)
    requires Sound(d) && Available(d) == 0 && s != [] && count > 0
    ensures var (d', done) := Advance(d, s[0]);
            TakeCoded(d, s, count) ==
            if done then Taken(d', [], 1, true) else After([], 1, TakeCoded(d', s[1..], count))
  {
  }

  /** Casting down to 32 bits commutes with subtracting what the cast leaves room for. */
  lemma CastMinus(x: int, n: nat)
    requires n <= CastToInt(x)
    ensures CastToInt(x - n) == CastToInt(x) - n
  {
    var m := 2 * TWO31;
    var k := (x + TWO31) / m;
    assert x + TWO31 == k * m + (CastToInt(x) + TWO31);
    assert x - n + TWO31 == k * m + (CastToInt(x) - n + TWO31);
  }

  /** Eating available payload never wraps. */
  lemma EatPlain(d: Decoder, n: nat)
    requires n <= Available(d)
    ensures d.dataAvail - n >= -TWO63
    ensures Eat(d, n) == d.(dataAvail := d.dataAvail - n)
    ensures Available(Eat(d, n)) >= Available(d) - n
  {
    var x := d.dataAvail;
    if x <= TWO31 - 1 {
      CastMinus(x, n);
      assert CastToInt(-TWO63) == 0;
    }
    assert WrapLong(x - n) == x - n;
  }

  lemma EatTwice(d: Decoder, n: nat)
    requires 1 <= n <= Available(d)
    ensures Eat(Eat(d, 1), n - 1) == Eat(d, n) && Available(Eat(d, 1)) >= n - 1
  {
    EatPlain(d, 1);
    EatPlain(Eat(d, 1), n - 1);
    EatPlain(d, n);
  }

  lemma TakePayload(d: Decoder, s: seq<Byte>, count: nat)
    requires Sound(d) && Available(d) > 0 && s != [] && count > 0
    ensures Sound(Eat(d, 1))
    ensures TakeCoded(d, s, count) == After([s[0]], 1, TakeCoded(Eat(d, 1), s[1..], count - 1))
  {
    EatKeepsState(d, 1);
    var t := TakeCoded(Eat(d, 1), s[1..], count - 1);
  }

  /** A run of available payload is taken as one block. */
  lemma {:induction false} TakeBlock(d: Decoder, s: seq<Byte>, count: nat, n: nat)
    requires Sound(d) && n <= Available(d) && n <= |s| && n <= count
    ensures Sound(Eat(d, n))
    ensures TakeCoded(d, s, count) == After(s[..n], n, TakeCoded(Eat(d, n), s[n..], count - n))
    decreases n
  {
    hide Eat, Available, TakeCoded, After;
    if n == 0 {
      EatNothing(d);
      AfterTwice([], 0, [], 0, TakeCoded(d, s, count));
      assert s[..0] == [] && s[0..] == s;
    } else {
      EatTwice(d, n);
      TakePayload(d, s, count);
      TakeBlock(Eat(d, 1), s[1..], count - 1, n - 1);
      assert s[1..][n - 1..] == s[n..];
      assert [s[0]] + s[1..][..n - 1] == s[..n];
      AfterTwice([s[0]], 1, s[1..][..n - 1], n - 1, TakeCoded(Eat(d, n), s[n..], count - n));
    }
  }

  lemma EatNothing(d: Decoder)
    ensures Eat(d, 0) == d
  {
  }

  lemma EatKeepsState(d: Decoder, n: nat)
    requires Sound(d) && 0 < n <= Available(d)
    ensures Eat(d, n).state == d.state != End
  {
  }

  /** The loop has delivered `out`, consumed `used` bytes and still wants `count`. */
  predicate Progress(d0: Decoder, s0: seq<Byte>, want: nat, out: seq<Byte>, used: nat, d: Decoder, count: nat)
    requires Sound(d0) && Sound(d) && used <= |s0|
  {
    TakeCoded(d0, s0, want) == After(out, used, TakeCoded(d, s0[used..], count))
  }

  lemma ProgressStart(d: Decoder, s: seq<Byte>, want: nat)
    requires Sound(d)
    ensures Progress(d, s, want, [], 0, d, want)
  {
    AfterTwice([], 0, [], 0, TakeCoded(d, s, want));
    assert s[0..] == s;
  }

  lemma ProgressFraming(d0: Decoder, s0: seq<Byte>, want: nat, out: seq<Byte>, used: nat, d: Decoder, count: nat)
    requires Sound(d0) && Sound(d) && used < |s0| && Progress(d0, s0, want, out, used, d, count)
    requires Available(d) == 0 && count > 0
    ensures var (d', done) := Advance(d, s0[used]);
            if done then TakeCoded(d0, s0, want) == Taken(d', out, used + 1, true)
            else Progress(d0, s0, want, out, used + 1, d', count)
  {
    hide TakeCoded, Advance;
    TakeFraming(d, s0[used..], count);
    var d' := Advance(d, s0[used]).0;
    assert s0[used..][1..] == s0[used + 1..];
    AfterTwice(out, used, [], 1, TakeCoded(d', s0[used + 1..], count));
    assert out + [] == out;
  }

  lemma ProgressBlock(d0: Decoder, s0: seq<Byte>, want: nat, out: seq<Byte>, used: nat, d: Decoder, count: nat, n: nat)
    requires Sound(d0) && Sound(d) && used <= |s0| && Progress(d0, s0, want, out, used, d, count)
    requires 0 < n <= Available(d) && n <= |s0| - used && n <= count
    ensures Sound(Eat(d, n)) && Eat(d, n).state == d.state != End
    ensures Progress(d0, s0, want, out + s0[used..used + n], used + n, Eat(d, n), count - n)
  {
    hide TakeCoded, Eat;
    TakeBlock(d, s0[used..], count, n);
    EatKeepsState(d, n);
    assert s0[used..][n..] == s0[used + n..] && s0[used..][..n] == s0[used..used + n];
    AfterTwice(out, used, s0[used..used + n], n, TakeCoded(Eat(d, n), s0[used + n..], count - n));
  }

  /** The loop is left: over, or out of bytes, or out of demand. */
  lemma ProgressDone(d0: Decoder, s0: seq<Byte>, want: nat, out: seq<Byte>, used: nat, d: Decoder, count: nat)
    requires Sound(d0) && Sound(d) && used <= |s0| && Progress(d0, s0, want, out, used, d, count)
    ensures used == |s0| || count == 0 ==> TakeCoded(d0, s0, want) == Taken(d, out, used, false)
    ensures Finished(d) && used < |s0| && count > 0 ==> TakeCoded(d0, s0, want) == Taken(d, out, used, true)
  {
    assert out + [] == out;
  }

  // ---------------------------------------------------------------------------------------
  // What is still to come
  // ---------------------------------------------------------------------------------------

  /** The stream `s` holds the whole rest of the body, as far as the server reads it. */
  predicate Holds(r: Reader, s: seq<Byte>)
    requires Readable(r)
  {
    Served(Take(r, s, r.left), r.left)
  }

  function Rest(r: Reader, s: seq<Byte>): seq<Byte>
    requires Readable(r) && Holds(r, s)
  {
    Take(r, s, r.left).out
  }

  function Behind(r: Reader, s: seq<Byte>): seq<Byte>
    requires Readable(r) && Holds(r, s)
  {
    s[Take(r, s, r.left).used..]
  }

  /** Wanting more goes on where wanting less has stopped. */
  lemma {:induction false} TakeCodedMore(d: Decoder, s: seq<Byte>, count: nat, want: nat)
    requires Sound(d) && count <= want
    ensures var t := TakeCoded(d, s, count);
            if t.ended then TakeCoded(d, s, want) == t
            else TakeCoded(d, s, want) == After(t.out, t.used, TakeCoded(t.r, s[t.used..], want - |t.out|))
    decreases |s|
  {
    hide Feed, Finished, TakeCoded;
    var t := TakeCoded(d, s, count);
    TakeCodedStep(d, s, count);
    TakeCodedStep(d, s, want);
    if count == 0 || s == [] {
      assert s[0..] == s;
      AfterTwice([], 0, [], 0, TakeCoded(d, s, want));
    } else if !Finished(d) {
      var (d', o) := Feed(d, s[0]);
      if d'.state != End {
        var t' := TakeCoded(d', s[1..], count - |o|);
        TakeCodedMore(d', s[1..], count - |o|, want - |o|);
        assert s[1..][t'.used..] == s[t.used..];
        if !t.ended {
          PrependAfter(o, t'.out, t'.used, TakeCoded(t.r, s[t.used..], want - |t.out|));
        }
      }
    }
  }

  lemma TakeCodedStep(d: Decoder, s: seq<Byte>, count: nat)
    requires Sound(d)
    ensures TakeCoded(d, s, count) ==
            if count == 0 || s == [] then Taken(d, [], 0, false)
            else if Finished(d) then Taken(d, [], 0, true)
            else
              var (d', o) := Feed(d, s[0]);
              if d'.state == End then Taken(d', o, 1, true)
              else Prepend(o, TakeCoded(d', s[1..], count - |o|))
  {
  }

  lemma PrependAfter<R>(o: seq<Byte>, out: seq<Byte>, used: nat, t: Taken<R>)
    ensures Prepend(o, After(out, used, t)) == After(o + out, used + 1, t)
  {
    assert o + (out + t.out) == o + out + t.out;
  }

  lemma TakeMore(r: Reader, s: seq<Byte>, count: nat)
    requires Readable(r) && count <= r.left
    ensures var t := Take(r, s, count);
            if t.ended then Take(r, s, r.left) == t
            else Take(r, s, r.left) == After(t.out, t.used, Take(t.r, s[t.used..], t.r.left))
  {
    hide TakeSized, TakeCoded, After;
    match r
    case Sized(left) =>
      SizedMore(left, s, count);
    case Coded(left, d) =>
      var t := TakeCoded(d, s, count);
      TakeCodedMore(d, s, count, left);
      if !t.ended {
        LimitedAfter(left, t.out, t.used, TakeCoded(t.r, s[t.used..], left - |t.out|));
      }
  }

  lemma SizedMore(left: nat, s: seq<Byte>, count: nat)
    requires count <= left
    ensures var t := TakeSized(left, s, count);
            TakeSized(left, s, left) == After(t.out, t.used, TakeSized(t.r.left, s[t.used..], t.r.left))
  {
    var t := TakeSized(left, s, count);
    var q := TakeSized(t.r.left, s[t.used..], t.r.left);
    assert s[..t.used] + s[t.used..][..q.used] == s[..t.used + q.used];
  }

  lemma LimitedAfter(left: nat, out: seq<Byte>, used: nat, t: Taken<Decoder>)
    requires |out| + |t.out| <= left
    ensures After(out, used, t).out == out + t.out
    ensures Limited(left, After(out, used, t)) == After(out, used, Limited(left - |out|, t))
  {
  }

  /** One step delivers a prefix of the rest and leaves exactly what remains of it. */
  lemma TakeDelivers(r: Reader, s: seq<Byte>, count: nat)
    requires Readable(r) && count <= r.left && Holds(r, s)
    ensures var t := Take(r, s, count);
            && Holds(t.r, s[t.used..])
            && Rest(r, s) == t.out + Rest(t.r, s[t.used..])
            && Behind(r, s) == Behind(t.r, s[t.used..])
            && Served(t, count)
            && (Ended(t.r) ==> Rest(t.r, s[t.used..]) == [] && Behind(r, s) == s[t.used..])
  {
    hide Take, After;
    var t := Take(r, s, count);
    TakeMore(r, s, count);
    TakeNothing(t.r, s[t.used..]);
    TakeSplit(r, s, [], count);
    var q := Take(t.r, s[t.used..], t.r.left);
    AfterIs(t.out, t.used, q);
    if !t.ended {
      assert s[t.used..][q.used..] == s[t.used + q.used..];
      if t.used == |s| {
        TakeFromNothing(t.r, t.r.left);
      }
    } else {
      assert t.out + [] == t.out && s[t.used..][0..] == s[t.used..];
    }
  }

  lemma AfterIs<R>(out: seq<Byte>, used: nat, t: Taken<R>)
    ensures After(out, used, t) == Taken(t.r, out + t.out, used + t.used, t.ended)
  {
  }

  lemma TakeNothing(r: Reader, s: seq<Byte>)
    requires Readable(r)
    ensures Take(r, s, 0) == Taken(r, [], 0, false)
  {
  }

  lemma TakeFromNothing(r: Reader, count: nat)
    requires Readable(r) && count <= r.left
    ensures Take(r, [], count) == Taken(r, [], 0, false)
  {
  }

  lemma {:induction false} TakeCodedSplit(d: Decoder, a: seq<Byte>, b: seq<Byte>, count: nat)
    requires Sound(d)
    ensures var t := TakeCoded(d, a, count);
            if Served(t, count) then TakeCoded(d, a + b, count) == t
            else
              && t.used == |a|
              && var q := TakeCoded(t.r, b, count - |t.out|);
                 TakeCoded(d, a + b, count) == Taken(q.r, t.out + q.out, |a| + q.used, q.ended)
    decreases |a|
  {
    hide Feed, Finished, TakeCoded;
    var t := TakeCoded(d, a, count);
    TakeCodedStep(d, a, count);
    TakeCodedStep(d, a + b, count);
    if a == [] {
      assert a + b == b;
      var q := TakeCoded(d, b, count);
      assert [] + q.out == q.out;
    } else if count != 0 && !Finished(d) {
      assert (a + b)[0] == a[0] && (a + b)[1..] == a[1..] + b;
      var (d', o) := Feed(d, a[0]);
      if d'.state != End {
        var t' := TakeCoded(d', a[1..], count - |o|);
        TakeCodedSplit(d', a[1..], b, count - |o|);
        if !Served(t, count) {
          PrependTwice(o, t', TakeCoded(t.r, b, count - |t.out|), |a|);
        }
      }
    }
  }

  lemma PrependTwice<R>(o: seq<Byte>, t: Taken<R>, q: Taken<R>, n: nat)
    requires n > 0
    ensures Prepend(o, Taken(q.r, t.out + q.out, n - 1 + q.used, q.ended))
         == Taken(q.r, Prepend(o, t).out + q.out, n + q.used, q.ended)
  {
    assert o + (t.out + q.out) == o + t.out + q.out;
  }

  /** A step over `a` that is not served goes on over `b` as if both had come at once. */
  lemma TakeSplit(r: Reader, a: seq<Byte>, b: seq<Byte>, count: nat)
    requires Readable(r) && count <= r.left
    ensures var t := Take(r, a, count);
            if Served(t, count) then Take(r, a + b, count) == t
            else
              && t.used == |a|
              && var q := Take(t.r, b, count - |t.out|);
                 Take(r, a + b, count) == Taken(q.r, t.out + q.out, |a| + q.used, q.ended)
  {
    var t := Take(r, a, count);
    match r
    case Sized(left) =>
      if count <= |a| {
        assert (a + b)[..count] == a[..count];
      } else {
        var q := Take(t.r, b, count - |t.out|);
        assert (a + b)[..|a| + q.used] == a + b[..q.used];
        assert a[..|a|] == a;
      }
    case Coded(_, d) =>
      hide TakeCoded;
      TakeCodedSplit(d, a, b, count);
  }

  // ---------------------------------------------------------------------------------------
  // Whole reads over any cut of the stream
  // ---------------------------------------------------------------------------------------

  /** The bytes not consumed yet: first those in the buffer, then the receives to come. */
  function Unread(avail: seq<Byte>, receives: seq<seq<Byte>>): seq<Byte> {
    avail + Concat(receives)
  }

  datatype Read = Completed(r: Reader, out: seq<Byte>, avail: seq<Byte>, receives: seq<seq<Byte>>) | Starved

  function Clip(r: Reader, count: nat): nat {
    if count > r.left then r.left else count
  }

  /** A read that has got its wanted count and takes from receive after receive until it is served. */
  function Serve(r: Reader, avail: seq<Byte>, receives: seq<seq<Byte>>, count: nat): Read
    requires Readable(r) && count <= r.left
    decreases |receives|
  {
    var t := Take(r, avail, count);
    if Served(t, count) then Completed(t.r, t.out, avail[t.used..], receives)
    else if receives == [] then Starved
    else
      var next := Serve(t.r, avail[t.used..] + receives[0], receives[1..], count - |t.out|);
      if next.Starved? then Starved else next.(out := t.out + next.out)
  }

  function ReadAsync(r: Reader, avail: seq<Byte>, receives: seq<seq<Byte>>, count: nat): Read
    requires Readable(r)
  {
    Serve(r, avail, receives, Clip(r, count))
  }

  /** However the stream is cut, a read is one step over the whole of it. */
  lemma {:induction false} ServeIsOneStep(r: Reader, avail: seq<Byte>, receives: seq<seq<Byte>>, count: nat)
    requires Readable(r) && count <= r.left
    ensures var s := Unread(avail, receives);
            var t := Take(r, s, count);
            match Serve(r, avail, receives, count)
            case Starved => !Served(t, count)
            case Completed(r', out, avail', receives') =>
              Served(t, count) && t.r == r' && t.out == out && Unread(avail', receives') == s[t.used..]
    decreases |receives|
  {
    hide Take;
    var t := Take(r, avail, count);
    TakeSplit(r, avail, Concat(receives), count);
    if Served(t, count) {
      assert Unread(avail, receives)[t.used..] == avail[t.used..] + Concat(receives);
    } else if receives == [] {
      assert avail + Concat(receives) == avail;
    } else {
      var rest := Concat(receives[1..]);
      assert avail[t.used..] + receives[0] == receives[0];
      assert Unread(receives[0], receives[1..]) == Concat(receives);
      ServeIsOneStep(t.r, receives[0], receives[1..], count - |t.out|);
      var q := Take(t.r, Concat(receives), count - |t.out|);
      assert Unread(avail, receives)[|avail| + q.used..] == Concat(receives)[q.used..];
    }
  }

  /**
   * Over every cut of a stream that holds the rest of the body, a read completes with exactly
   * min(count, bytes left) bytes, the next ones of the body; what follows the body is never touched,
   * and a read that gets less than it wanted leaves the cursor right behind the body.
   */
  lemma ReadIsExact(r: Reader, avail: seq<Byte>, receives: seq<seq<Byte>>, count: nat)
    requires Readable(r) && Holds(r, Unread(avail, receives))
    ensures var s := Unread(avail, receives);
            var q := ReadAsync(r, avail, receives, count);
            && q.Completed?
            && Readable(q.r) && Holds(q.r, Unread(q.avail, q.receives))
            && |q.out| == (if count < |Rest(r, s)| then count else |Rest(r, s)|)
            && Rest(r, s) == q.out + Rest(q.r, Unread(q.avail, q.receives))
            && Behind(r, s) == Behind(q.r, Unread(q.avail, q.receives))
            && (|q.out| < count ==> Ended(q.r) && Unread(q.avail, q.receives) == Behind(r, s))
  {
    hide Take, Holds, Rest, Behind;
    var want := Clip(r, count);
    TakeDelivers(r, Unread(avail, receives), want);
    ServeIsOneStep(r, avail, receives, want);
  }

  // ---------------------------------------------------------------------------------------
  // Sequences of reads, draining
  // ---------------------------------------------------------------------------------------

  datatype Session = Session(r: Reader, outs: seq<seq<Byte>>, avail: seq<Byte>, receives: seq<seq<Byte>>)

  function ReadAll(r: Reader, avail: seq<Byte>, receives: seq<seq<Byte>>, counts: seq<nat>): Session
    requires Readable(r) && Holds(r, Unread(avail, receives))
    decreases |counts|
  {
    if counts == [] then Session(r, [], avail, receives)
    else
      ReadIsExact(r, avail, receives, counts[0]);
      var q := ReadAsync(r, avail, receives, counts[0]);
      var rest := ReadAll(q.r, q.avail, q.receives, counts[1..]);
      rest.(outs := [q.out] + rest.outs)
  }

  /** The reads of any sequence of sizes concatenate to a prefix of the decoded body. */
  lemma {:induction false} ReadsConcatenate(r: Reader, avail: seq<Byte>, receives: seq<seq<Byte>>, counts: seq<nat>)
    requires Readable(r) && Holds(r, Unread(avail, receives))
    ensures var e := ReadAll(r, avail, receives, counts);
            var s := Unread(avail, receives);
            && Readable(e.r) && Holds(e.r, Unread(e.avail, e.receives))
            && Rest(r, s) == Concat(e.outs) + Rest(e.r, Unread(e.avail, e.receives))
            && Behind(r, s) == Behind(e.r, Unread(e.avail, e.receives))
    decreases |counts|
  {
    hide Holds, Rest, Behind, ReadAsync;
    if counts == [] {
      assert [] + Rest(r, Unread(avail, receives)) == Rest(r, Unread(avail, receives));
    } else {
      ReadIsExact(r, avail, receives, counts[0]);
      var q := ReadAsync(r, avail, receives, counts[0]);
      ReadsConcatenate(q.r, q.avail, q.receives, counts[1..]);
      var e := ReadAll(q.r, q.avail, q.receives, counts[1..]);
      ConcatAppend([q.out], e.outs);
      ConcatSingle(q.out);
    }
  }

  /** DrainRequestStreamAsync: reads of `size` bytes until one returns less. */
  function Drain(r: Reader, avail: seq<Byte>, receives: seq<seq<Byte>>, size: nat): (Reader, seq<Byte>, seq<seq<Byte>>)
    requires Readable(r) && Holds(r, Unread(avail, receives)) && size > 0
    decreases |Rest(r, Unread(avail, receives))|
  {
    ReadIsExact(r, avail, receives, size);
    var q := ReadAsync(r, avail, receives, size);
    if |q.out| < size then (q.r, q.avail, q.receives) else Drain(q.r, q.avail, q.receives, size)
  }

  /** Draining terminates right behind the body: a pipelined request is left intact. */
  lemma {:induction false} DrainLeavesNextRequest(r: Reader, avail: seq<Byte>, receives: seq<seq<Byte>>, size: nat)
    requires Readable(r) && Holds(r, Unread(avail, receives)) && size > 0
    ensures var (r', avail', receives') := Drain(r, avail, receives, size);
            Ended(r') && Unread(avail', receives') == Behind(r, Unread(avail, receives))
    decreases |Rest(r, Unread(avail, receives))|
  {
    hide Holds, Rest, Behind, ReadAsync;
    ReadIsExact(r, avail, receives, size);
    var q := ReadAsync(r, avail, receives, size);
    if |q.out| == size {
      DrainLeavesNextRequest(q.r, q.avail, q.receives, size);
    }
  }

  // ---------------------------------------------------------------------------------------
  // A chunked body under a limit
  // ---------------------------------------------------------------------------------------

  lemma DecodeStep(d: Decoder, s: seq<Byte>)
    requires Sound(d)
    ensures s != [] && !Finished(d) ==>
              var (d', o) := Feed(d, s[0]);
              var r := Decode(d', s[1..]);
              Decode(d, s) == Decoded(r.d, o + r.out, r.rest)
    ensures s == [] || Finished(d) ==> Decode(d, s) == Decoded(d, [], s)
  {
  }

  /**
   * A body that ends in `s` is taken to its end exactly if it is shorter than what is wanted; of a
   * longer one the reads get the beginning, and its last bytes stay in the stream.
   */
  lemma {:induction false} TakeWholeBody(d: Decoder, s: seq<Byte>, want: nat)
    requires Sound(d) && d.state != End && Decode(d, s).d.state == End
    ensures var w, t := Decode(d, s), TakeCoded(d, s, want);
            if |w.out| < want then t.ended && t.out == w.out && s[t.used..] == w.rest
            else !t.ended && t.out == w.out[..want] && |s[t.used..]| > |w.rest|
    decreases |s|
  {
    hide Decode, Feed, Finished;
    DecodeStep(d, s);
    DecodeShortens(d, s);
    assert s != [] && !Finished(d);
    if want != 0 {
      var (d', o) := Feed(d, s[0]);
      DecodeStep(d', s[1..]);
      if d'.state == End {
        FeedEnds(d, s[0]);
        assert o + [] == o;
      } else {
        TakeWholeBody(d', s[1..], want - |o|);
        var t' := TakeCoded(d', s[1..], want - |o|);
        assert s[1..][t'.used..] == s[t'.used + 1..];
        var rest := Decode(d', s[1..]).out;
        assert |rest| >= want - |o| ==> o + rest[..want - |o|] == (o + rest)[..want];
      }
    }
  }

  lemma DecodeShortens(d: Decoder, s: seq<Byte>)
    requires Sound(d) && d.state != End && Decode(d, s).d.state == End
    ensures |Decode(d, s).rest| < |s| && s != [] && !Finished(d)
  {
    hide Decode, Feed;
    DecodeStep(d, s);
    assert s != [] && !Finished(d);
    DecodeFits(Feed(d, s[0]).0, s[1..]);
  }

  lemma {:induction false} DecodeFits(d: Decoder, s: seq<Byte>)
    requires Sound(d)
    ensures |Decode(d, s).rest| <= |s|
    decreases |s|
  {
    hide Feed, Finished;
    if s != [] && !Finished(d) {
      DecodeFits(Feed(d, s[0]).0, s[1..]);
    }
  }

  lemma FeedEnds(d: Decoder, b: Byte)
    requires Sound(d) && !Finished(d) && d.state != End && Feed(d, b).0.state == End
    ensures Feed(d, b).1 == [] && Finished(Feed(d, b).0)
  {
  }

  /**
   * A well-formed chunked body is read to its end if and only if the limit is above its payload:
   * otherwise the reads get its first `left` bytes, and what follows begins inside the body.
   */
  lemma ChunkedBodyIsHeld(left: nat, body: WireBody, next: seq<Byte>)
    requires ValidBody(body)
    ensures var r, s, payload := Coded(left, START), Render(body) + next, Payload(body.chunks);
            && Readable(r) && Holds(r, s)
            && Rest(r, s) == (if left <= |payload| then payload[..left] else payload)
            && (Behind(r, s) == next <==> left > |payload|)
            && (left <= |payload| ==> |Behind(r, s)| > |next|)
  {
    hide Decode, TakeCoded, Render;
    var s := Render(body) + next;
    BodyDecodes(body, next);
    TakeWholeBody(START, s, left);
  }
}
