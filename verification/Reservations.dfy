/** The reserved address spans and the release of an interval from them: a table
    of at most 64 disjoint spans, edited in place while it is scanned.  Addresses
    are numbers; the calls to munmap are recorded in a log. */
module Reservations {

  const CAP: nat := 64

  /** The addresses from `a` up to but not including `b`. */
  datatype Span = Span(a: nat, b: nat)

  predicate Has(s: Span, x: nat) { s.a <= x < s.b }

  ghost predicate Covered(t: seq<Span>, x: nat) {
    exists k | 0 <= k < |t| :: Has(t[k], x)
  }

  /** At most 64 non-empty spans, no two of which share an address. */
  ghost predicate Tidy(t: seq<Span>) {
    && |t| <= CAP
    && (forall k | 0 <= k < |t| :: t[k].a < t[k].b)
    && (forall j, k | 0 <= j < k < |t| :: t[j].b <= t[k].a || t[k].b <= t[j].a)
  }

  function Overlap(s: Span, w: Span): Span {
    Span(if w.a > s.a then w.a else s.a, if w.b < s.b then w.b else s.b)
  }

  predicate Meets(s: Span, w: Span) { Overlap(s, w).a < Overlap(s, w).b }

  /** `s` sticks out of the non-empty `w` on both sides. */
  predicate Straddles(s: Span, w: Span) { s.a < w.a < w.b < s.b }

  // ---------------------------------------------------------------------------
  // One step of the scan

  function Left(s: Span, w: Span): Span { Span(s.a, Overlap(s, w).a) }

  function Right(s: Span, w: Span): Span { Span(Overlap(s, w).b, s.b) }

  /** The longer of the two remainders, the left one on a tie. */
  function Longer(s: Span, w: Span): Span
    requires Straddles(s, w)
  {
    if w.a - s.a >= s.b - w.b then Left(s, w) else Right(s, w)
  }

  /** The table after the span at `i`, which meets `w`, has lost the overlap. */
  function Edit(t: seq<Span>, i: nat, w: Span): seq<Span>
    requires i < |t| && Meets(t[i], w)
  {
    var l, r := Left(t[i], w), Right(t[i], w);
    if l.a < l.b && r.a < r.b then
      if |t| < CAP then t[i := l] + [r] else t[i := Longer(t[i], w)]
    else if l.a < l.b then t[i := l]
    else if r.a < r.b then t[i := r]
    else t[i := t[|t| - 1]][..|t| - 1]
  }

  /** `t` covers what `s` does except the addresses of `cut`. */
  ghost predicate Minus(s: seq<Span>, cut: Span, t: seq<Span>) {
    forall x: nat :: Covered(t, x) <==> Covered(s, x) && !Has(cut, x)
  }

  lemma ReplaceCuts(t: seq<Span>, i: nat, cut: Span, p: Span)
    requires Tidy(t) && i < |t| && p.a < p.b
    requires forall x: nat :: Has(p, x) <==> Has(t[i], x) && !Has(cut, x)
    requires t[i].a <= cut.a && cut.b <= t[i].b && t[i].a <= p.a && p.b <= t[i].b
    ensures Tidy(t[i := p]) && Minus(t, cut, t[i := p])
  {
    var u := t[i := p];
    forall x: nat
      ensures Covered(u, x) <==> Covered(t, x) && !Has(cut, x)
    {
      if Covered(u, x) {
        var k :| 0 <= k < |u| && Has(u[k], x);
        assert Has(t[k], x);
      }
      if Covered(t, x) && !Has(cut, x) {
        var k :| 0 <= k < |t| && Has(t[k], x);
        assert Has(u[k], x);
      }
    }
  }

  lemma SplitCuts(t: seq<Span>, i: nat, w: Span)
    requires Tidy(t) && |t| < CAP && i < |t| && Straddles(t[i], w)
    ensures Tidy(t[i := Left(t[i], w)] + [Right(t[i], w)])
    ensures Minus(t, w, t[i := Left(t[i], w)] + [Right(t[i], w)])
  {
    var u := t[i := Left(t[i], w)] + [Right(t[i], w)];
    forall x: nat
      ensures Covered(u, x) <==> Covered(t, x) && !Has(w, x)
    {
      if Covered(u, x) {
        var k :| 0 <= k < |u| && Has(u[k], x);
        assert Has(t[if k == |t| then i else k], x);
      }
      if Covered(t, x) && !Has(w, x) {
        var k :| 0 <= k < |t| && Has(t[k], x);
        assert Has(u[k], x) || Has(u[|t|], x);
      }
    }
  }

  lemma RemoveCuts(t: seq<Span>, i: nat)
    requires Tidy(t) && i < |t|
    ensures Tidy(t[i := t[|t| - 1]][..|t| - 1]) && Minus(t, t[i], t[i := t[|t| - 1]][..|t| - 1])
  {
    var n := |t| - 1;
    var u := t[i := t[n]][..n];
    forall x: nat
      ensures Covered(u, x) <==> Covered(t, x) && !Has(t[i], x)
    {
      if Covered(u, x) {
        var k :| 0 <= k < |u| && Has(u[k], x);
        assert Has(t[if k == i then n else k], x);
      }
      if Covered(t, x) && !Has(t[i], x) {
        var k :| 0 <= k < |t| && Has(t[k], x);
        assert Has(u[if k == n then i else k], x);
      }
    }
  }

  /** A step takes away the overlap and nothing else, unless it has to drop one
      of two remainders. */
  lemma EditCuts(t: seq<Span>, i: nat, w: Span)
    requires Tidy(t) && i < |t| && Meets(t[i], w) && !(Straddles(t[i], w) && |t| == CAP)
    ensures Tidy(Edit(t, i, w)) && Minus(t, Overlap(t[i], w), Edit(t, i, w))
  {
    var l, r := Left(t[i], w), Right(t[i], w);
    if Straddles(t[i], w) {
      SplitCuts(t, i, w);
    } else if l.a < l.b {
      ReplaceCuts(t, i, Overlap(t[i], w), l);
    } else if r.a < r.b {
      ReplaceCuts(t, i, Overlap(t[i], w), r);
    } else {
      RemoveCuts(t, i);
    }
  }

  // ---------------------------------------------------------------------------
  // The whole scan

  /** How many spans meet `w`. */
  ghost function Meeting(t: seq<Span>, w: Span): nat {
    if t == [] then 0 else (if Meets(t[0], w) then 1 else 0) + Meeting(t[1..], w)
  }

  lemma {:induction false} MeetingConcat(s: seq<Span>, t: seq<Span>, w: Span)
    ensures Meeting(s + t, w) == Meeting(s, w) + Meeting(t, w)
  {
    if s == [] {
      assert s + t == t;
    } else {
      assert (s + t)[1..] == s[1..] + t;
      MeetingConcat(s[1..], t, w);
    }
  }

  /** A step leaves fewer spans to cut from the scan position on. */
  lemma EditProgresses(t: seq<Span>, i: nat, w: Span)
    requires i < |t| && Meets(t[i], w)
    ensures var u := Edit(t, i, w);
            var j := if |u| < |t| then i else i + 1;
            j <= |u| && Meeting(u[j..], w) < Meeting(t[i..], w)
  {
    var u := Edit(t, i, w);
    var n := |t| - 1;
    assert t[i..] == [t[i]] + t[i + 1..];
    if |u| == |t| {
      assert u[i + 1..] == t[i + 1..];
    } else if |u| > |t| {
      assert u[i + 1..] == t[i + 1..] + [Right(t[i], w)];
      MeetingConcat(t[i + 1..], [Right(t[i], w)], w);
    } else if i < n {
      assert t[i + 1..] == t[i + 1..n] + [t[n]];
      assert u[i..] == [t[n]] + t[i + 1..n];
      MeetingConcat(t[i + 1..n], [t[n]], w);
      MeetingConcat([t[n]], t[i + 1..n], w);
    }
  }

  /** The release of `w` from `s` cannot keep both remainders of a span. */
  ghost predicate Lossy(s: seq<Span>, w: Span) {
    |s| == CAP && exists k | 0 <= k < |s| :: Straddles(s[k], w)
  }

  /** `x` is in the remainder that is dropped for lack of room: the shorter one, the
      right one on a tie. */
  ghost predicate Dropped(s: seq<Span>, w: Span, x: nat) {
    |s| == CAP && exists k | 0 <= k < |s| ::
      Straddles(s[k], w) && Has(s[k], x) && if w.a - s[k].a >= s[k].b - w.b then w.b <= x else x < w.a
  }

  /** What holds of a loss-free scan that has reached `i`. */
  ghost predicate Scanned(s: seq<Span>, w: Span, t: seq<Span>, i: nat, log: seq<Span>) {
    && Tidy(t) && i <= |t|
    && (forall k | 0 <= k < i :: !Meets(t[k], w))
    && (forall k | 0 <= k < |log| :: w.a <= log[k].a < log[k].b <= w.b)
    && (log == [] ==> t == s)
    && (forall x: nat :: Covered(s, x) <==> Covered(t, x) || Covered(log, x))
    && (forall x: nat :: !(Covered(t, x) && Covered(log, x)))
  }

  lemma LogGrows(log: seq<Span>, cut: Span)
    ensures forall x: nat :: Covered(log + [cut], x) <==> Covered(log, x) || Has(cut, x)
  {
    var l := log + [cut];
    forall x: nat
      ensures Covered(l, x) <==> Covered(log, x) || Has(cut, x)
    {
      if Has(cut, x) { assert Has(l[|log|], x); }
      if Covered(log, x) {
        var k :| 0 <= k < |log| && Has(log[k], x);
        assert Has(l[k], x);
      }
    }
  }

  /** A span that straddles `w` is met before anything has been cut. */
  lemma StraddleIsFirst(s: seq<Span>, w: Span, t: seq<Span>, i: nat, log: seq<Span>)
    requires Scanned(s, w, t, i, log) && i < |t| && Straddles(t[i], w)
    ensures t == s && log == []
  {
    if log != [] {
      assert Has(log[0], log[0].a);
      assert Has(t[i], log[0].a);
      assert Covered(t, log[0].a) && Covered(log, log[0].a);
    }
  }

  lemma EditKeepsScanned(s: seq<Span>, w: Span, t: seq<Span>, i: nat, log: seq<Span>)
    requires Scanned(s, w, t, i, log) && i < |t| && Meets(t[i], w) && !Lossy(s, w)
    ensures var u := Edit(t, i, w);
            Scanned(s, w, u, if |u| < |t| then i else i + 1, log + [Overlap(t[i], w)])
  {
    if Straddles(t[i], w) { StraddleIsFirst(s, w, t, i, log); }
    var u := Edit(t, i, w);
    var cut := Overlap(t[i], w);
    EditCuts(t, i, w);
    LogGrows(log, cut);
    forall x: nat
      ensures Has(cut, x) ==> Covered(t, x)
    {
      if Has(cut, x) { assert Has(t[i], x); }
    }
  }

  /** What holds of a scan that has to drop a remainder of the span at `k`. */
  ghost predicate ScannedLossy(s: seq<Span>, w: Span, k: nat, t: seq<Span>, i: nat, log: seq<Span>)
    requires k < |s| && Straddles(s[k], w)
  {
    && i <= |s|
    && (i <= k ==> t == s && log == [])
    && (i > k ==> t == s[k := Longer(s[k], w)] && log == [w])
  }

  lemma OnlyOneMeets(s: seq<Span>, w: Span, k: nat, j: nat)
    requires Tidy(s) && k < |s| && Straddles(s[k], w) && j < |s| && j != k
    ensures !Meets(s[j], w)
  {
  }

  /** What the release of `w` from `s` has to come to. */
  ghost predicate Released(s: seq<Span>, w: Span, t: seq<Span>, log: seq<Span>) {
    && Tidy(t)
    && (forall x: nat :: Covered(log, x) <==> Covered(s, x) && Has(w, x))
    && (forall x: nat :: Covered(t, x) <==> Covered(s, x) && !Has(w, x) && !Dropped(s, w, x))
  }

  lemma ScanReleases(s: seq<Span>, w: Span, t: seq<Span>, log: seq<Span>)
    requires Scanned(s, w, t, |t|, log) && !Lossy(s, w)
    ensures Released(s, w, t, log)
  {
    forall x: nat
      ensures Covered(t, x) ==> !Has(w, x)
    {
      if Covered(t, x) {
        var k :| 0 <= k < |t| && Has(t[k], x);
        assert !Meets(t[k], w);
      }
    }
  }

  lemma LossyScanReleases(s: seq<Span>, w: Span, k: nat)
    requires Tidy(s) && |s| == CAP && k < |s| && Straddles(s[k], w)
    ensures Released(s, w, s[k := Longer(s[k], w)], [w])
  {
    forall x: nat
      ensures Covered([w], x) <==> Covered(s, x) && Has(w, x)
      ensures Covered(s[k := Longer(s[k], w)], x) <==> Covered(s, x) && !Has(w, x) && !Dropped(s, w, x)
    {
      LossyAt(s, w, k, x);
    }
  }

  lemma LossyAt(s: seq<Span>, w: Span, k: nat, x: nat)
    requires Tidy(s) && |s| == CAP && k < |s| && Straddles(s[k], w)
    ensures Covered([w], x) <==> Covered(s, x) && Has(w, x)
    ensures Covered(s[k := Longer(s[k], w)], x) <==> Covered(s, x) && !Has(w, x) && !Dropped(s, w, x)
  {
    var t := s[k := Longer(s[k], w)];
    if Has(w, x) {
      assert Has([w][0], x) && Has(s[k], x);
      assert forall j | 0 <= j < |t| :: !Has(t[j], x);
    } else if Covered(t, x) {
      var j :| 0 <= j < |t| && Has(t[j], x);
      assert Has(s[j], x);
    } else if Covered(s, x) {
      var j :| 0 <= j < |s| && Has(s[j], x);
      assert !Has(t[j], x);
    }
  }

  /** The span that will lose a remainder, or the length of the table if none. */
  ghost function Straddler(s: seq<Span>, w: Span): (k: nat)
    ensures k <= |s|
    ensures k < |s| ==> |s| == CAP && Straddles(s[k], w)
    ensures k == |s| ==> !Lossy(s, w)
  {
    if Lossy(s, w) then var k :| 0 <= k < |s| && Straddles(s[k], w); k else |s|
  }

  ghost predicate Upto(s: seq<Span>, w: Span, k: nat, t: seq<Span>, i: nat, log: seq<Span>) {
    && Tidy(s) && k <= |s|
    && (k < |s| ==> |s| == CAP && Straddles(s[k], w) && ScannedLossy(s, w, k, t, i, log))
    && (k == |s| ==> !Lossy(s, w) && Scanned(s, w, t, i, log))
  }

  lemma EditKeepsUpto(s: seq<Span>, w: Span, k: nat, t: seq<Span>, i: nat, log: seq<Span>)
    requires Upto(s, w, k, t, i, log) && i < |t| && Meets(t[i], w)
    ensures var u := Edit(t, i, w);
            Upto(s, w, k, u, if |u| < |t| then i else i + 1, log + [Overlap(t[i], w)])
  {
    if k == |s| {
      EditKeepsScanned(s, w, t, i, log);
    } else if i != k {
      OnlyOneMeets(s, w, k, i);
    }
  }

  lemma SkipKeepsUpto(s: seq<Span>, w: Span, k: nat, t: seq<Span>, i: nat, log: seq<Span>)
    requires Upto(s, w, k, t, i, log) && i < |t| && !Meets(t[i], w)
    ensures Upto(s, w, k, t, i + 1, log)
  {
  }

  lemma UptoReleases(s: seq<Span>, w: Span, k: nat, t: seq<Span>, log: seq<Span>)
    requires Upto(s, w, k, t, |t|, log)
    ensures Released(s, w, t, log)
  {
    if k == |s| { ScanReleases(s, w, t, log); } else { LossyScanReleases(s, w, k); }
  }

  // ---------------------------------------------------------------------------
  // The scan as a function

  datatype Result = Result(spans: seq<Span>, log: seq<Span>)

  /** The rest of the scan from `i` on, with `log` already unmapped. */
  ghost function Scan(t: seq<Span>, i: nat, w: Span, log: seq<Span>): Result
    requires i <= |t|
    decreases Meeting(t[i..], w), |t| - i
  {
    if i == |t| then Result(t, log)
    else if Meets(t[i], w) then
      EditProgresses(t, i, w);
      var u := Edit(t, i, w);
      Scan(u, if |u| < |t| then i else i + 1, w, log + [Overlap(t[i], w)])
    else
      assert t[i..] == [t[i]] + t[i + 1..];
      Scan(t, i + 1, w, log)
  }

  type Progress = (seq<Span>, nat, seq<Span>) -> bool

  /** One turn of the scan keeps `good`. */
  ghost predicate TurnKeeps(good: Progress, w: Span, t: seq<Span>, i: nat, log: seq<Span>) {
    i < |t| && good(t, i, log) ==>
      if Meets(t[i], w) then
        var u := Edit(t, i, w);
        good(u, if |u| < |t| then i else i + 1, log + [Overlap(t[i], w)])
      else
        good(t, i + 1, log)
  }

  /** What every turn keeps holds when the scan ends. */
  lemma {:induction false} ScanKeeps(good: Progress, w: Span, t: seq<Span>, i: nat, log: seq<Span>)
    requires i <= |t| && good(t, i, log)
    requires forall t: seq<Span>, i: nat, log: seq<Span> :: TurnKeeps(good, w, t, i, log)
    ensures var r := Scan(t, i, w, log); good(r.spans, |r.spans|, r.log)
    decreases Meeting(t[i..], w), |t| - i
  {
    if i < |t| {
      assert TurnKeeps(good, w, t, i, log);
      if Meets(t[i], w) {
        EditProgresses(t, i, w);
        var u := Edit(t, i, w);
        ScanKeeps(good, w, u, if |u| < |t| then i else i + 1, log + [Overlap(t[i], w)]);
      } else {
        assert t[i..] == [t[i]] + t[i + 1..];
        ScanKeeps(good, w, t, i + 1, log);
      }
    }
  }

  /** Releasing `w` from any tidy table unmaps exactly the reserved addresses of
      `w`; the table then covers exactly the others, except that a full table
      drops the shorter remainder of a span that `w` splits. */
  lemma ReleaseIsSubtraction(s: seq<Span>, w: Span)
    requires Tidy(s)
    ensures Released(s, w, Scan(s, 0, w, []).spans, Scan(s, 0, w, []).log)
  {
    var k, r := Straddler(s, w), Scan(s, 0, w, []);
    var good := (t: seq<Span>, i: nat, log: seq<Span>) => Upto(s, w, k, t, i, log);
    forall t: seq<Span>, i: nat, log: seq<Span> ensures TurnKeeps(good, w, t, i, log) {
      if i < |t| && good(t, i, log) {
        if Meets(t[i], w) { EditKeepsUpto(s, w, k, t, i, log); } else { SkipKeepsUpto(s, w, k, t, i, log); }
      }
    }
    ScanKeeps(good, w, s, 0, []);
    UptoReleases(s, w, k, r.spans, r.log);
  }

  /** Nothing is lost exactly when no span of a full table is split. */
  lemma ExactUnlessFullAndSplit(s: seq<Span>, w: Span)
    requires Tidy(s)
    ensures (forall x: nat :: Covered(Scan(s, 0, w, []).spans, x) <==> Covered(s, x) && !Has(w, x)) <==> !Lossy(s, w)
  {
    ReleaseIsSubtraction(s, w);
    if Lossy(s, w) {
      var k :| 0 <= k < |s| && Straddles(s[k], w);
      var x := if Longer(s[k], w) == Left(s[k], w) then w.b else s[k].a;
      assert Has(s[k], x) && !Has(w, x) && !Has(Longer(s[k], w), x);
      assert Dropped(s, w, x);
    }
  }

  /** Sixty-four spans of five addresses, ten apart. */
  function FullTable(): seq<Span> { seq(64, i requires 0 <= i => Span(10 * i, 10 * i + 5)) }

  /** Releasing one address in the middle of the first span of a full table loses
      another one: address 0 is neither released nor covered any more. */
  lemma FullTableLosesRemainder()
    ensures var s, w := FullTable(), Span(1, 2);
            Tidy(s) && Lossy(s, w) && Covered(s, 0) && !Has(w, 0) && !Covered(Scan(s, 0, w, []).spans, 0)
  {
    var s, w := FullTable(), Span(1, 2);
    assert s[0] == Span(0, 5) && Straddles(s[0], w) && Has(s[0], 0);
    ReleaseIsSubtraction(s, w);
    assert !Has(Longer(s[0], w), 0);
    assert Dropped(s, w, 0);
  }

  // ---------------------------------------------------------------------------
  // The table

  class Table {
    const spans: array<Span>
    var n: nat
    var unmapped: seq<Span>

    ghost predicate Valid()
      reads this, spans
    {
      spans.Length == CAP && n <= CAP && Tidy(spans[..n])
    }

    constructor ()
      ensures Valid() && n == 0 && unmapped == [] && fresh(spans)
    {
      spans := new Span[CAP];
      n, unmapped := 0, [];
    }

    /** The body of the scan for a span that meets `w`. */
    method CutAt(i: nat, w: Span) returns (j: nat)
      requires spans.Length == CAP && n <= CAP && i < n && Meets(spans[i], w)
      modifies this, spans
      ensures n <= CAP && spans[..n] == Edit(old(spans[..n]), i, w)
      ensures unmapped == old(unmapped) + [Overlap(old(spans[i]), w)]
      ensures j == if n < old(n) then i else i + 1
    {
      var lo := if w.a > spans[i].a then w.a else spans[i].a;
      var hi := if w.b < spans[i].b then w.b else spans[i].b;
      unmapped := unmapped + [Span(lo, hi)];
      var l, r := Span(spans[i].a, lo), Span(hi, spans[i].b);
      j := i + 1;
      if l.a < l.b && r.a < r.b {
        if n < CAP {
          spans[i] := l;
          spans[n] := r;
          n := n + 1;
        } else if l.b - l.a >= r.b - r.a {
          spans[i] := l;
        } else {
          spans[i] := r;
        }
      } else if l.a < l.b {
        spans[i] := l;
      } else if r.a < r.b {
        spans[i] := r;
      } else {
        n := n - 1;
        spans[i] := spans[n];
        j := i;
      }
    }

    /** Gives back every reserved address of `w`. */
    method Release(w: Span)
      requires Valid()
      modifies this, spans
      ensures Valid()
      ensures exists log :: unmapped == old(unmapped) + log && Released(old(spans[..n]), w, spans[..n], log)
    {
      ghost var s := spans[..n];
      ghost var was := unmapped;
      ScanAll(w);
      ReleaseIsSubtraction(s, w);
      assert unmapped == was + Scan(s, 0, w, []).log;
    }

    /** One turn of the scan. */
    method Turn(i: nat, w: Span, ghost log: seq<Span>) returns (j: nat, ghost more: seq<Span>)
      requires spans.Length == CAP && n <= CAP && i < n
      modifies this, spans
      ensures n <= CAP && j <= n && Scan(spans[..n], j, w, log + more) == Scan(old(spans[..n]), i, w, log)
      ensures unmapped == old(unmapped) + more
      ensures var left, was := Meeting(spans[..n][j..], w), Meeting(old(spans[..n])[i..], w);
              left < was || (left == was && n - j < old(n) - i)
    {
      ghost var t := spans[..n];
      if Meets(spans[i], w) {
        EditProgresses(t, i, w);
        more := [Overlap(t[i], w)];
        j := CutAt(i, w);
      } else {
        more := [];
        assert t[i..] == [t[i]] + t[i + 1..] && log + more == log;
        j := i + 1;
      }
    }

    method ScanAll(w: Span)
      requires spans.Length == CAP && n <= CAP
      modifies this, spans
      ensures n <= CAP && spans[..n] == Scan(old(spans[..n]), 0, w, []).spans
      ensures unmapped == old(unmapped) + Scan(old(spans[..n]), 0, w, []).log
    {
      ghost var goal := Scan(spans[..n], 0, w, []);
      ghost var log: seq<Span> := [];
      ghost var was := unmapped;
      var i: nat := 0;
      while i < n
        invariant n <= CAP && i <= n && unmapped == was + log
        invariant Scan(spans[..n], i, w, log) == goal
        decreases Meeting(spans[..n][i..], w), n - i
      {
        ghost var more;
        i, more := Turn(i, w, log);
        log := log + more;
      }
    }
  }
}
