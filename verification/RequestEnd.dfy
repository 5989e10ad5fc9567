/** Where a request head ends (FindRequestEnd, Nowin/Transport2HttpHandler.cs:801-820). */
module RequestEnd {
  import opened Bytes

  const BLANK_LINE: seq<Byte> := [CR, LF, CR, LF]

  /** How many bytes of CR LF CR LF the scanner has matched; 4 is final. */
  function Next(q: nat, b: Byte): (q': nat)
    requires q <= 4
    ensures q' <= 4
  {
    if q == 4 then 4
    else if q == 0 then (if b == CR then 1 else 0)
    else if q == 1 then (if b == LF then 2 else 0)
    else if q == 2 then (if b == CR then 3 else 0)
    else (if b == LF then 4 else 0)
  }

  function Matched(q: nat, s: seq<Byte>): (q': nat)
    requires q <= 4
    ensures q' <= 4
    decreases |s|
  {
    if s == [] then q else Matched(Next(q, s[0]), s[1..])
  }

  /** The number of bytes up to and including the end of the head, -1 if it is not there yet. */
  function Scan(q: nat, s: seq<Byte>): int
    requires q <= 4
    decreases |s|
  {
    if q == 4 then 0
    else if s == [] then -1
    else Shift(1, Scan(Next(q, s[0]), s[1..]))
  }

  function Shift(n: nat, r: int): int {
    if r < 0 then -1 else n + r
  }

  lemma {:induction false} MatchedSnoc(q: nat, s: seq<Byte>, b: Byte)
    requires q <= 4
    ensures Matched(q, s + [b]) == Next(Matched(q, s), b)
    decreases |s|
  {
    if s == [] {
      assert s + [b] == [b] && [b][1..] == [];
    } else {
      MatchedSnoc(Next(q, s[0]), s[1..], b);
      assert (s + [b])[0] == s[0] && (s + [b])[1..] == s[1..] + [b];
    }
  }

  /** The scan stops at the first prefix that matches completely. */
  lemma {:induction false} ScanMeaning(q: nat, s: seq<Byte>)
    requires q <= 4
    ensures var n := Scan(q, s);
            && -1 <= n <= |s|
            && (n >= 0 ==> Matched(q, s[..n]) == 4)
            && forall m :: 0 <= m <= |s| && (n < 0 || m < n) ==> Matched(q, s[..m]) != 4
    decreases |s|
  {
    if q == 4 {
    } else if s == [] {
    } else {
      var q' := Next(q, s[0]);
      ScanMeaning(q', s[1..]);
      forall m | 0 < m <= |s|
        ensures Matched(q, s[..m]) == Matched(q', s[1..][..m - 1])
      {
        assert s[..m][1..] == s[1..][..m - 1];
      }
    }
  }

  /** Bytes behind the end of a head do not move it, bytes before it are needed. */
  lemma ScanStable(a: seq<Byte>, b: seq<Byte>)
    ensures Scan(0, a) >= 0 ==> Scan(0, a + b) == Scan(0, a)
    ensures Scan(0, a) < 0 && Scan(0, a + b) >= 0 ==> Scan(0, a + b) > |a|
  {
    ScanMeaning(0, a);
    ScanMeaning(0, a + b);
    assert forall m :: 0 <= m <= |a| ==> (a + b)[..m] == a[..m];
  }

  // ---------------------------------------------------------------------------------------
  // Against the first CR LF CR LF
  // ---------------------------------------------------------------------------------------

  predicate BlankLineEndsAt(s: seq<Byte>, p: int) {
    4 <= p <= |s| && s[p - 4] == CR && s[p - 3] == LF && s[p - 2] == CR && s[p - 1] == LF
  }

  ghost predicate FirstBlankLine(s: seq<Byte>, p: int) {
    BlankLineEndsAt(s, p) && forall k :: 0 <= k < p ==> !BlankLineEndsAt(s, k)
  }

  /** The number of CRs directly before position `i`. */
  function CrRun(s: seq<Byte>, i: nat): nat
    requires i <= |s|
  {
    if i == 0 || s[i - 1] != CR then 0 else 1 + CrRun(s, i - 1)
  }

  /** The `q` bytes the scanner has matched stand directly before `i`. */
  predicate StandsBefore(s: seq<Byte>, i: nat, q: nat)
    requires i <= |s|
  {
    && q <= i && q <= 4
    && (q == 1 ==> s[i - 1] == CR)
    && (q == 2 ==> s[i - 2] == CR && s[i - 1] == LF)
    && (q == 3 ==> s[i - 3] == CR && s[i - 2] == LF && s[i - 1] == CR)
    && (q == 4 ==> BlankLineEndsAt(s, i))
  }

  function MatchedAt(s: seq<Byte>, i: nat): (q: nat)
    requires i <= |s|
    ensures q <= 4
  {
    Matched(0, s[..i])
  }

  lemma MatchedAtNext(s: seq<Byte>, i: nat)
    requires i < |s|
    ensures MatchedAt(s, i + 1) == Next(MatchedAt(s, i), s[i])
  {
    MatchedSnoc(0, s[..i], s[i]);
    assert s[..i + 1] == s[..i] + [s[i]];
  }

  /** Until the scanner stops, its state tells what stands before it, and the parity of a run of CRs. */
  lemma {:induction false} MatchedState(s: seq<Byte>, i: nat)
    requires i <= |s|
    requires forall m :: 0 <= m < i ==> MatchedAt(s, m) != 4
    ensures var q := MatchedAt(s, i);
            StandsBefore(s, i, q) && (q != 4 ==> (q in {1, 3} <==> CrRun(s, i) % 2 == 1))
  {
    if i > 0 {
      hide MatchedAt;
      MatchedState(s, i - 1);
      MatchedAtNext(s, i - 1);
    }
  }

  lemma ScanMeaningAt(s: seq<Byte>)
    ensures var n := Scan(0, s);
            && -1 <= n <= |s|
            && (n >= 0 ==> MatchedAt(s, n) == 4)
            && forall m :: 0 <= m <= |s| && (n < 0 || m < n) ==> MatchedAt(s, m) != 4
  {
    ScanMeaning(0, s);
  }

  /** The scanner never invents an end, and without a blank line it finds none. */
  lemma ScanSound(s: seq<Byte>)
    ensures var n := Scan(0, s); -1 <= n <= |s| && (n >= 0 ==> BlankLineEndsAt(s, n))
  {
    hide MatchedAt, Scan;
    ScanMeaningAt(s);
    var n := Scan(0, s);
    if n >= 0 {
      MatchedState(s, n);
    }
  }

  /**
   * The end found is the first CR LF CR LF exactly when an even number of CRs stands directly
   * before it: after a CR the scanner swallows one byte without looking whether it is a CR.
   */
  lemma ScanFindsFirstIffEvenRun(s: seq<Byte>, p: nat)
    requires FirstBlankLine(s, p)
    ensures Scan(0, s) == p <==> CrRun(s, p - 4) % 2 == 0
  {
    hide MatchedAt, Scan;
    ScanMeaningAt(s);
    ScanSound(s);
    var i := p - 4;
    MatchedState(s, i);
    MatchedAtNext(s, i);
    MatchedAtNext(s, i + 1);
    MatchedAtNext(s, i + 2);
    MatchedAtNext(s, i + 3);
  }

  /** One CR in front of the blank line hides it. */
  lemma HiddenBlankLine()
    ensures var s := [CR] + BLANK_LINE; FirstBlankLine(s, 5) && Scan(0, s) == -1
  {
    var s := [CR] + BLANK_LINE;
    assert s == [CR, CR, LF, CR, LF];
    assert CrRun(s, 1) == 1 + CrRun(s, 0);
    ScanFindsFirstIffEvenRun(s, 5);
    ScanSound(s);
  }

  // ---------------------------------------------------------------------------------------
  // The scanning loop
  // ---------------------------------------------------------------------------------------

  /** What remains to be scanned from `i` on, as a position in `s`. */
  function ScanFrom(q: nat, s: seq<Byte>, i: nat): int
    requires q <= 4 && i <= |s|
  {
    Shift(i, Scan(q, s[i..]))
  }

  lemma ScanStep(q: nat, s: seq<Byte>, i: nat)
    requires q < 4 && i <= |s|
    ensures i < |s| ==> ScanFrom(q, s, i) == ScanFrom(Next(q, s[i]), s, i + 1)
    ensures i == |s| ==> ScanFrom(q, s, i) == -1
  {
    if i < |s| {
      assert s[i..][1..] == s[i + 1..];
    }
  }

  lemma ScanDone(s: seq<Byte>, i: nat)
    requires i <= |s|
    ensures ScanFrom(4, s, i) == i
  {
  }

  method FindRequestEnd(buffer: array<Byte>, start: nat, end: nat) returns (found: int)
    requires start <= end <= buffer.Length
    ensures found == Shift(start, Scan(0, buffer[start..end]))
  {
    ghost var s := buffer[..end];
    assert s[start..] == buffer[start..end];
    assert ScanFrom(0, s, start) == Shift(start, Scan(0, s[start..]));
    hide ScanFrom, Scan, Shift;
    var pos := start;
    while pos < end
      invariant start <= pos <= end
      invariant ScanFrom(0, s, start) == ScanFrom(0, s, pos)
    {
      var ch := buffer[pos];
      ScanStep(0, s, pos);
      pos := pos + 1;
      if ch != CR { continue; }
      ScanStep(1, s, pos);
      if pos >= end { return -1; }
      ch := buffer[pos];
      pos := pos + 1;
      if ch != LF { continue; }
      ScanStep(2, s, pos);
      if pos >= end { return -1; }
      ch := buffer[pos];
      pos := pos + 1;
      if ch != CR { continue; }
      ScanStep(3, s, pos);
      if pos >= end { return -1; }
      ch := buffer[pos];
      pos := pos + 1;
      if ch != LF { continue; }
      ScanDone(s, pos);
      return pos;
    }
    ScanStep(0, s, pos);
    return -1;
  }
}
