/**
 * The reference for the receive side: the incoming stream, byte by byte, cut into request heads
 * and bodies. It knows neither receives nor buffers, so it cannot depend on how the stream is cut.
 */
module Input {
  import opened Bytes
  import opened Chunked
  import opened BodyReader
  import opened RequestEnd
  import opened RequestHeaders

  /** The body behind a head with this meaning. */
  function Opening(m: Meaning): (r: Reader)
    ensures Readable(r)
  {
    if m.chunked then Coded(m.contentLength, START) else Sized(m.contentLength)
  }

  /** Behind an oversized head, or one that ParseRequest refuses, the server closes the connection. */
  datatype Stage = Waiting(head: seq<Byte>) | InBody(r: Reader) | TooLong | Refused

  datatype Stream = Stream(heads: seq<seq<Byte>>, bodies: seq<seq<Byte>>, stage: Stage)

  const BEGIN := Stream([], [], Waiting([]))

  /** No further byte is taken for the body (also when its chunk size has overflown). */
  predicate Over(r: Reader) {
    r.left == 0 || (r.Coded? && Finished(r.d))
  }

  function Settle(r: Reader): Stage {
    if Over(r) then Waiting([]) else InBody(r)
  }

  predicate Sane(c: Stream) {
    match c.stage
    case Waiting(head) => Matched(0, head) != 4
    case InBody(r) => Readable(r) && !Over(r)
    case _ => true
  }

  function Grow(bodies: seq<seq<Byte>>, out: seq<Byte>): seq<seq<Byte>> {
    if bodies == [] then [] else bodies[..|bodies| - 1] + [bodies[|bodies| - 1] + out]
  }

  function FeedReader(r: Reader, b: Byte): (q: (Reader, seq<Byte>))
    requires Readable(r) && !Over(r)
    ensures Readable(q.0)
  {
    match r
    case Sized(left) => (Sized(left - 1), [b])
    case Coded(left, d) => var (d', o) := Feed(d, b); (Coded(left - |o|, d'), o)
  }

  /** The size of the receive region, and what ParseRequest makes of a head; None where it throws. */
  datatype Setup = Setup(size: nat, parse: seq<Byte> -> Option<Meaning>)

  function HeadDone(setup: Setup, c: Stream, head: seq<Byte>): (c': Stream)
    ensures Sane(c')
  {
    var m := setup.parse(head);
    Stream(c.heads + [head], c.bodies + [[]], if m.Some? then Settle(Opening(m.value)) else Refused)
  }

  function Step(setup: Setup, c: Stream, b: Byte): (c': Stream)
    requires Sane(c)
    ensures Sane(c')
  {
    match c.stage
    case Waiting(head) =>
      var head' := head + [b];
      if Matched(0, head') == 4 then HeadDone(setup, c, head')
      else if |head'| == setup.size then c.(stage := TooLong)
      else c.(stage := Waiting(head'))
    case InBody(r) =>
      var (r', o) := FeedReader(r, b);
      Stream(c.heads, Grow(c.bodies, o), Settle(r'))
    case _ => c
  }

  function Fold(setup: Setup, c: Stream, s: seq<Byte>): (c': Stream)
    requires Sane(c)
    ensures Sane(c')
    decreases |s|
  {
    if s == [] then c else Fold(setup, Step(setup, c, s[0]), s[1..])
  }

  lemma {:induction false} FoldSplit(setup: Setup, c: Stream, a: seq<Byte>, b: seq<Byte>)
    requires Sane(c)
    ensures Fold(setup, c, a + b) == Fold(setup, Fold(setup, c, a), b)
    decreases |a|
  {
    hide Step;
    if a == [] {
      assert a + b == b;
    } else {
      assert (a + b)[0] == a[0] && (a + b)[1..] == a[1..] + b;
      FoldSplit(setup, Step(setup, c, a[0]), a[1..], b);
    }
  }

  /** Every body of `a` is continued by the body at the same place of `b`. */
  predicate Extends(a: seq<seq<Byte>>, b: seq<seq<Byte>>) {
    |a| <= |b| && forall i :: 0 <= i < |a| ==> a[i] <= b[i]
  }

  lemma StepGrows(setup: Setup, c: Stream, b: Byte)
    requires Sane(c)
    ensures c.heads <= Step(setup, c, b).heads && Extends(c.bodies, Step(setup, c, b).bodies)
  {
    hide Matched, FeedReader;
  }

  /** Heads only ever get appended, bodies only ever get longer. */
  lemma {:induction false} HeadsGrow(setup: Setup, c: Stream, s: seq<Byte>)
    requires Sane(c)
    ensures c.heads <= Fold(setup, c, s).heads && Extends(c.bodies, Fold(setup, c, s).bodies)
    decreases |s|
  {
    hide Step;
    if s != [] {
      var c' := Step(setup, c, s[0]);
      StepGrows(setup, c, s[0]);
      HeadsGrow(setup, c', s[1..]);
      var all := Fold(setup, c, s);
      forall i | 0 <= i < |c.bodies|
        ensures c.bodies[i] <= all.bodies[i]
      {
        assert c.bodies[i] <= c'.bodies[i] <= all.bodies[i];
      }
    }
  }

  /** The bodies that nothing can be added to. */
  function Settled(c: Stream): (n: nat)
    ensures n <= |c.bodies|
  {
    if c.stage.InBody? && c.bodies != [] then |c.bodies| - 1 else |c.bodies|
  }

  lemma {:induction false} SettledStay(setup: Setup, c: Stream, s: seq<Byte>)
    requires Sane(c)
    ensures c.bodies[..Settled(c)] <= Fold(setup, c, s).bodies
    decreases |s|
  {
    hide Step, Settled;
    if s != [] {
      var c' := Step(setup, c, s[0]);
      StepSettles(setup, c, s[0]);
      SettledStay(setup, c', s[1..]);
      assert c.bodies[..Settled(c)] <= c'.bodies[..Settled(c')];
    }
  }

  lemma StepSettles(setup: Setup, c: Stream, b: Byte)
    requires Sane(c)
    ensures Settled(c) <= Settled(Step(setup, c, b))
    ensures c.bodies[..Settled(c)] <= Step(setup, c, b).bodies
  {
    hide Matched, FeedReader;
  }

  lemma GrowTwice(bodies: seq<seq<Byte>>, a: seq<Byte>, b: seq<Byte>)
    ensures Grow(Grow(bodies, a), b) == Grow(bodies, a + b)
    ensures Grow(bodies, []) == bodies
  {
    if bodies != [] {
      var n := |bodies| - 1;
      assert bodies[n] + (a + b) == bodies[n] + a + b;
      assert Grow(bodies, a)[..n] == bodies[..n];
      assert bodies[n] + [] == bodies[n] && bodies == bodies[..n] + [bodies[n]];
    }
  }

  /** `c` after `out` more body bytes, with `r` still to be read. */
  function Reading(c: Stream, out: seq<Byte>, r: Reader): Stream {
    Stream(c.heads, Grow(c.bodies, out), Settle(r))
  }

  lemma FoldStep(setup: Setup, c: Stream, r: Reader, s: seq<Byte>)
    requires Readable(r) && !Over(r) && c.stage == Settle(r) && s != []
    ensures var (r', o) := FeedReader(r, s[0]);
            Sane(c) && Fold(setup, c, s) == Fold(setup, Reading(c, o, r'), s[1..])
  {
    assert Matched(0, []) == 0;
  }

  lemma ReadingSane(c: Stream, out: seq<Byte>, r: Reader)
    requires Readable(r)
    ensures Sane(Reading(c, out, r))
  {
    assert Matched(0, []) == 0;
  }

  lemma ReadingTwice(c: Stream, a: seq<Byte>, b: seq<Byte>, r: Reader, r': Reader)
    ensures Reading(Reading(c, a, r), b, r') == Reading(c, a + b, r')
    ensures Reading(c, a, r).stage == Settle(r)
    ensures c.stage == Settle(r) ==> Reading(c, [], r) == c
  {
    GrowTwice(c.bodies, a, b);
  }

  lemma {:induction false} FoldSized(setup: Setup, c: Stream, left: nat, s: seq<Byte>, n: nat)
    requires c.stage == Settle(Sized(left)) && n <= left && n <= |s|
    ensures Sane(c) && Fold(setup, c, s) == Fold(setup, Reading(c, s[..n], Sized(left - n)), s[n..])
    decreases n
  {
    hide Step, Fold, Matched, Reading, Grow, Settle;
    ReadingSane(c, [], Sized(left));
    ReadingTwice(c, [], [], Sized(left), Sized(left));
    if n == 0 {
      assert s[..0] == [] && s[0..] == s;
    } else {
      FoldStep(setup, c, Sized(left), s);
      var rest := s[1..][..n - 1];
      ReadingTwice(c, [s[0]], rest, Sized(left - 1), Sized(left - n));
      ReadingSane(c, [s[0]], Sized(left - 1));
      FoldSized(setup, Reading(c, [s[0]], Sized(left - 1)), left - 1, s[1..], n - 1);
      assert [s[0]] + s[1..][..n - 1] == s[..n];
      assert s[1..][n - 1..] == s[n..];
    }
  }

  lemma {:induction false} FoldCoded(setup: Setup, c: Stream, left: nat, d: Decoder, s: seq<Byte>, count: nat)
    requires Sound(d) && c.stage == Settle(Coded(left, d)) && count <= left
    ensures var t := Take(Coded(left, d), s, count);
            Sane(c) && Fold(setup, c, s) == Fold(setup, Reading(c, t.out, t.r), s[t.used..])
    decreases |s|
  {
    hide Step, Fold, Feed, Matched, Reading, Grow, Finished, TakeCoded;
    var r := Coded(left, d);
    TakeCodedStep(d, s, count);
    if count == 0 || s == [] {
      NothingRead(setup, c, r, s);
    } else if Finished(d) {
      NothingRead(setup, c, r, s);
      ReadingSettles(c, [], r, Coded(0, d));
    } else {
      FoldStep(setup, c, r, s);
      var (d', o) := Feed(d, s[0]);
      if d'.state == End {
        EndIsFinished(d');
        ReadingSettles(c, o, Coded(left - |o|, d'), Coded(0, d'));
      } else {
        var t' := Take(Coded(left - |o|, d'), s[1..], count - |o|);
        ReadingTwice(c, o, t'.out, Coded(left - |o|, d'), t'.r);
        ReadingSane(c, o, Coded(left - |o|, d'));
        FoldCoded(setup, Reading(c, o, Coded(left - |o|, d')), left - |o|, d', s[1..], count - |o|);
        assert s[1..][t'.used..] == s[t'.used + 1..];
      }
    }
  }

  lemma NothingRead(setup: Setup, c: Stream, r: Reader, s: seq<Byte>)
    requires Readable(r) && c.stage == Settle(r)
    ensures Sane(c) && Fold(setup, c, s) == Fold(setup, Reading(c, [], r), s[0..])
  {
    hide Fold;
    ReadingSane(c, [], r);
    ReadingTwice(c, [], [], r, r);
    assert s[0..] == s;
  }

  /** Two bodies that are over are the same. */
  lemma ReadingSettles(c: Stream, out: seq<Byte>, r: Reader, r': Reader)
    requires Over(r) && Over(r')
    ensures Reading(c, out, r) == Reading(c, out, r')
  {
  }

  lemma EndIsFinished(d: Decoder)
    requires Sound(d) && d.state == End
    ensures Finished(d)
  {
  }

  /** Consuming a whole step of the body reader at once is the same as feeding byte by byte. */
  lemma FoldTake(setup: Setup, c: Stream, r: Reader, s: seq<Byte>, count: nat)
    requires Readable(r) && count <= r.left
    requires c.stage == Settle(r)
    ensures var t := Take(r, s, count);
            Sane(c) && Fold(setup, c, s) == Fold(setup, Reading(c, t.out, t.r), s[t.used..])
  {
    hide Fold, Matched, Reading, Grow, Settle, TakeCoded;
    match r
    case Sized(left) =>
      var t := Take(r, s, count);
      FoldSized(setup, c, left, s, t.used);
    case Coded(left, d) =>
      FoldCoded(setup, c, left, d, s, count);
  }

  /** A head that is complete in the buffer is found at once. */
  lemma {:induction false} FoldHead(setup: Setup, c: Stream, head: seq<Byte>, s: seq<Byte>)
    requires c.stage == Waiting(head) && Scan(0, head) < 0 && |head| < setup.size
    requires |head| + |s| <= setup.size
    ensures Sane(c)
    ensures var n := Scan(0, head + s);
            if n >= 0 then
              && |head| < n <= |head| + |s|
              && Fold(setup, c, s) == Fold(setup, HeadDone(setup, c, (head + s)[..n]), s[n - |head|..])
            else
              Fold(setup, c, s) == c.(stage := if |head| + |s| == setup.size then TooLong else Waiting(head + s))
    decreases |s|
  {
    hide Scan, Matched, HeadDone, Fold, Step;
    ScanEnds(head);
    if s == [] {
      assert head + s == head;
      FoldNothing(setup, c);
    } else {
      var head', rest := head + [s[0]], s[1..];
      assert head' + rest == head + s;
      HeadByte(setup, c, head, s);
      ScanEnds(head');
      ScanStable(head', rest);
      ScanSound(head');
      ScanStable(head, [s[0]]);
      if Matched(0, head') == 4 {
        HeadEnds(setup, c, head', rest);
      } else if |head'| == setup.size {
        assert rest == [] && head' == head + s;
        FoldNothing(setup, c.(stage := TooLong));
      } else {
        FoldHead(setup, c.(stage := Waiting(head')), head', rest);
        HeadGoesOn(setup, c, head, s);
      }
    }
  }

  /** What one byte of a head does. */
  lemma HeadByte(setup: Setup, c: Stream, head: seq<Byte>, s: seq<Byte>)
    requires c.stage == Waiting(head) && Matched(0, head) != 4 && s != []
    ensures Sane(c)
    ensures var head' := head + [s[0]];
            if Matched(0, head') == 4 then Fold(setup, c, s) == Fold(setup, HeadDone(setup, c, head'), s[1..])
            else if |head'| == setup.size then Fold(setup, c, s) == Fold(setup, c.(stage := TooLong), s[1..])
            else Fold(setup, c, s) == Fold(setup, c.(stage := Waiting(head')), s[1..])
  {
    hide Matched, HeadDone;
  }

  lemma FoldNothing(setup: Setup, c: Stream)
    requires Sane(c)
    ensures Fold(setup, c, []) == c
  {
  }

  lemma HeadEnds(setup: Setup, c: Stream, head: seq<Byte>, rest: seq<Byte>)
    ensures Fold(setup, HeadDone(setup, c, (head + rest)[..|head|]), rest[0..])
         == Fold(setup, HeadDone(setup, c, head), rest)
  {
    assert (head + rest)[..|head|] == head && rest[0..] == rest;
  }

  /** A head that ends behind the first byte of `s` is the same seen from before and behind that byte. */
  lemma HeadGoesOn(setup: Setup, c: Stream, head: seq<Byte>, s: seq<Byte>)
    requires s != []
    ensures var c' := c.(stage := Waiting(head + [s[0]]));
            forall n :: |head| < n <= |head| + |s| ==>
                && HeadDone(setup, c', (head + s)[..n]) == HeadDone(setup, c, (head + s)[..n])
                && s[1..][n - |head| - 1..] == s[n - |head|..]
  {
    hide Settle, Opening;
  }

  /** A scan without result has not matched; one that ends with the last byte has. */
  lemma ScanEnds(s: seq<Byte>)
    ensures Scan(0, s) < 0 ==> Matched(0, s) != 4
    ensures Matched(0, s) == 4 ==> 0 <= Scan(0, s) <= |s|
    ensures Scan(0, s) == |s| ==> Matched(0, s) == 4
  {
    ScanMeaning(0, s);
    assert s[..|s|] == s;
  }
}
