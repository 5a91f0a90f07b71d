/** The reader of the shadow table when the owner is still: the loads of a lookup run
    to the end and find the longest live row. */
module ShadowSolo {
  import opened Common
  import opened PathTranslate
  import Shadow = ShadowTable
  import opened ShadowRace
  import opened ShadowRuns

  // ---------------------------------------------------------------------------
  // The answer a lookup owes

  /** The table as a lookup finds it: the cells and what their rows say. */
  datatype View = View(m: Memory, pairs: seq<(string, string)>, path: string, outCap: nat) {
    predicate Valid() { |pairs| == m.count <= |m.rows| }

    /** Row `i` is live and its directory holds the path. */
    predicate Hit(i: nat)
      requires Valid()
    {
      i < m.count && m.rows[i].state == Shadow.S_VALID && PathWithin(pairs[i].0, path)
    }

    ghost predicate NoHit(n: nat)
      requires Valid()
    {
      forall j | 0 <= j < n :: !Hit(j)
    }

    /** The last of the deepest hits among the first `n` rows. */
    ghost predicate Wins(i: nat, n: nat)
      requires Valid()
    {
      && i < n && Hit(i)
      && forall j | 0 <= j < n && Hit(j) :: |pairs[j].0| < |pairs[i].0| || (|pairs[j].0| == |pairs[i].0| && j <= i)
    }

    predicate Fits(i: nat)
      requires Valid() && i < m.count
    {
      |pairs[i].1| + (|path| - |pairs[i].0|) + 1 <= outCap
    }

    /** The rewriting by the winner, if it fits; nothing if no row holds the path. */
    ghost predicate Answer(result: Option<string>)
      requires Valid()
    {
      && (NoHit(m.count) ==> result == None)
      && forall i | 0 <= i < m.count && Wins(i, m.count) ::
           result == if Fits(i) then Some(pairs[i].1 + path[|pairs[i].0|..]) else None
    }
  }

  function ViewOf(s: State): View { View(s.m, s.pairs, s.r.path, s.r.outCap) }

  // ---------------------------------------------------------------------------
  // The scan

  /** What the reader has kept is the winner among the first `n` rows. */
  ghost predicate Best(v: View, r: Reader, n: nat)
    requires v.Valid()
  {
    if r.bestLen == 0 then v.NoHit(n)
    else v.Wins(r.bestIdx, n) && |v.pairs[r.bestIdx].0| == r.bestLen
  }

  /** The lookup so far, in a memory that does not change. */
  ghost predicate Quiet(v: View, r: Reader)
    requires v.Valid()
  {
    match r.pc
    case RIdle => false
    case RGen => r.i == 0 && r.bestLen == 0
    case RLen => r.i == 0 && r.bestLen == 0 && r.gen == v.m.gen
    case RGenAgain => r.gen == v.m.gen && Best(v, r, v.m.count) && r.bestLen > 0
    case RCopy => Best(v, r, v.m.count) && r.bestLen > 0 && v.Fits(r.bestIdx)
    case RDone => v.Answer(r.result)
    case _ => r.gen == v.m.gen && r.len == v.m.strtabLen && r.i <= v.m.count && Best(v, r, r.i) && RowSoFar(v, r)
  }

  ghost predicate RowSoFar(v: View, r: Reader)
    requires v.Valid()
  {
    InRow(r.pc) ==>
      && r.i < v.m.count
      && (r.pc != RType && r.pc != RState ==> v.m.rows[r.i].state == Shadow.S_VALID)
      && (r.pc == RCompare || r.pc == RSrcOff || r.pc == RSrcLen ==> |v.pairs[r.i].0| >= r.bestLen)
  }

  /** What the invariant of the race says about the row the reader is at. */
  ghost predicate Sees(v: View, r: Reader)
    requires v.Valid()
  {
    && r.i < v.m.count && Says(v.m, v.m.rows[r.i], v.pairs[r.i], v.m.strtabLen) && AtRow(r, v.m.rows[r.i], v.pairs[r.i])
  }

  lemma SkipRow(v: View, r: Reader)
    requires v.Valid() && InRow(r.pc) && Quiet(v, r)
    requires !v.Hit(r.i) || |v.pairs[r.i].0| < r.bestLen
    ensures Quiet(v, NextRow(r))
  {
  }

  lemma MismatchIsNoHit(path: string, d: string, k: nat)
    requires k < |d| && (k >= |path| || path[k] != d[k])
    ensures !PathWithin(d, path)
  {
    if |d| <= |path| { assert path[..|d|][k] == path[k]; }
  }

  lemma TypeStep(s: State)
    requires ViewOf(s).Valid() && Quiet(ViewOf(s), s.r) && s.r.pc == RType && Sees(ViewOf(s), s.r)
    ensures Quiet(ViewOf(s), ReaderLoadsType(s).r)
  {
  }

  lemma StateStep(s: State)
    requires ViewOf(s).Valid() && Quiet(ViewOf(s), s.r) && s.r.pc == RState && Sees(ViewOf(s), s.r)
    ensures Quiet(ViewOf(s), ReaderLoadsState(s).r)
  {
    if s.m.rows[s.r.i].state != Shadow.S_VALID { SkipRow(ViewOf(s), s.r); }
  }

  lemma DstLenStep(s: State)
    requires ViewOf(s).Valid() && Quiet(ViewOf(s), s.r) && s.r.pc == RDstLen && Sees(ViewOf(s), s.r)
    ensures Quiet(ViewOf(s), ReaderLoadsDstLen(s).r)
  {
  }

  lemma DstOffStep(s: State)
    requires ViewOf(s).Valid() && Quiet(ViewOf(s), s.r) && s.r.pc == RDstOff && Sees(ViewOf(s), s.r)
    ensures Quiet(ViewOf(s), ReaderLoadsDstOff(s).r)
  {
    if s.r.e.dstLen < s.r.bestLen { SkipRow(ViewOf(s), s.r); }
  }

  lemma CompareStep(s: State)
    requires ViewOf(s).Valid() && Quiet(ViewOf(s), s.r) && s.r.pc == RCompare && Sees(ViewOf(s), s.r)
    ensures Quiet(ViewOf(s), ReaderCompares(s).r)
  {
    var r, p := s.r, s.pairs[s.r.i];
    if ReaderCompares(s).r.pc == RCount {
      if r.k < r.e.dstLen {
        DstByte(s.m, s.m.rows[r.i], p, s.m.strtabLen, r.k);
        MismatchIsNoHit(r.path, p.0, r.k);
      }
      SkipRow(ViewOf(s), r);
    }
  }

  lemma SrcOffStep(s: State)
    requires ViewOf(s).Valid() && Quiet(ViewOf(s), s.r) && s.r.pc == RSrcOff && Sees(ViewOf(s), s.r)
    ensures Quiet(ViewOf(s), ReaderLoadsSrcOff(s).r)
  {
  }

  lemma SrcLenStep(s: State)
    requires ViewOf(s).Valid() && Quiet(ViewOf(s), s.r) && s.r.pc == RSrcLen && Sees(ViewOf(s), s.r)
    ensures Quiet(ViewOf(s), ReaderLoadsSrcLen(s).r)
  {
    var v, i := ViewOf(s), s.r.i;
    assert v.Hit(i);
    assert v.Wins(i, i + 1);
  }

  lemma CountStep(s: State)
    requires ViewOf(s).Valid() && Quiet(ViewOf(s), s.r) && s.r.pc == RCount
    ensures Quiet(ViewOf(s), ReaderLoadsCount(s).r)
  {
  }

  lemma WinnerAnswers(v: View, i: nat, result: Option<string>)
    requires v.Valid() && v.Wins(i, v.m.count)
    requires result == if v.Fits(i) then Some(v.pairs[i].1 + v.path[|v.pairs[i].0|..]) else None
    ensures v.Answer(result)
  {
    forall j | 0 <= j < v.m.count && v.Wins(j, v.m.count) ensures j == i {
    }
  }

  lemma GenAgainStep(s: State)
    requires ViewOf(s).Valid() && Quiet(ViewOf(s), s.r) && s.r.pc == RGenAgain
    requires s.r.bestSrcLen == |s.pairs[s.r.bestIdx].1|
    ensures Quiet(ViewOf(s), ReaderChecksGen(s).r)
  {
    if ReaderChecksGen(s).r.pc == RDone { WinnerAnswers(ViewOf(s), s.r.bestIdx, None); }
  }

  lemma CopyStep(s: State)
    requires ViewOf(s).Valid() && Quiet(ViewOf(s), s.r) && s.r.pc == RCopy
    requires s.r.bestSrcLen == |s.pairs[s.r.bestIdx].1| && s.r.bestSrcOff + s.r.bestSrcLen <= |s.m.strs|
    requires s.r.out <= s.pairs[s.r.bestIdx].1
    ensures Quiet(ViewOf(s), ReaderCopies(s).r)
  {
    if ReaderCopies(s).r.pc == RDone {
      assert s.r.out == s.pairs[s.r.bestIdx].1;
      WinnerAnswers(ViewOf(s), s.r.bestIdx, ReaderCopies(s).r.result);
    }
  }

  // ---------------------------------------------------------------------------
  // The whole lookup

  /** What the lemmas above need of the race's invariant. */
  ghost predicate Facts(s: State) {
    && ViewOf(s).Valid()
    && (InRow(s.r.pc) ==> Sees(ViewOf(s), s.r))
    && (s.r.pc == RGenAgain || s.r.pc == RCopy ==>
          && s.r.bestIdx < s.m.count && s.r.bestLen <= |s.r.path|
          && s.r.bestSrcLen == |s.pairs[s.r.bestIdx].1| && s.r.bestSrcOff + s.r.bestSrcLen <= |s.m.strs|)
    && (s.r.pc == RCopy ==> s.r.out <= s.pairs[s.r.bestIdx].1)
  }

  lemma InvGivesFacts(s: State)
    requires Inv(s)
    ensures Facts(s)
  {
    if s.r.pc == RGenAgain || s.r.pc == RCopy {
      assert Says(s.m, s.m.rows[s.r.bestIdx], s.pairs[s.r.bestIdx], s.m.strtabLen);
    }
  }

  lemma RowMoves(s: State)
    requires Facts(s) && Quiet(ViewOf(s), s.r) && InRow(s.r.pc)
    ensures Quiet(ViewOf(s), ReaderStep(s).r)
  {
    match s.r.pc
    case RType => TypeStep(s);
    case RState => StateStep(s);
    case RDstLen => DstLenStep(s);
    case RDstOff => DstOffStep(s);
    case RCompare => CompareStep(s);
    case RSrcOff => SrcOffStep(s);
    case RSrcLen => SrcLenStep(s);
  }

  lemma ReaderMoves(s: State)
    requires Facts(s) && Quiet(ViewOf(s), s.r)
    ensures Quiet(ViewOf(s), ReaderStep(s).r)
  {
    match s.r.pc
    case RGen => case RLen => case RDone =>
    case RCount => CountStep(s);
    case RGenAgain => GenAgainStep(s);
    case RCopy => CopyStep(s);
    case _ => RowMoves(s);
  }

  function Phase(pc: ReaderPc): nat {
    match pc
    case RGen => 5 case RLen => 4 case RGenAgain => 2 case RCopy => 1 case RIdle => 0 case RDone => 0
    case _ => 3
  }

  function RowRank(pc: ReaderPc): nat {
    match pc
    case RCount => 8 case RType => 7 case RState => 6 case RDstLen => 5 case RDstOff => 4 case RCompare => 3
    case RSrcOff => 2 case RSrcLen => 1
    case _ => 0
  }

  function RowsLeft(s: State): nat { if s.r.i < s.m.count then s.m.count - s.r.i else 0 }

  function BytesLeft(r: Reader): nat {
    if r.pc == RCompare && r.k <= r.e.dstLen then r.e.dstLen - r.k
    else if r.pc == RCopy && |r.out| <= r.bestSrcLen then r.bestSrcLen - |r.out|
    else 0
  }

  /** Every load brings the lookup nearer to its end. */
  lemma ReaderProgresses(s: State)
    requires Facts(s) && s.r.pc != RDone && s.r.pc != RIdle
    ensures var t := ReaderStep(s);
            || Phase(t.r.pc) < Phase(s.r.pc)
            || (Phase(t.r.pc) == Phase(s.r.pc)
                && (RowsLeft(t) < RowsLeft(s)
                    || (RowsLeft(t) == RowsLeft(s)
                        && (RowRank(t.r.pc) < RowRank(s.r.pc)
                            || (RowRank(t.r.pc) == RowRank(s.r.pc) && BytesLeft(t.r) < BytesLeft(s.r))))))
  {
  }

  lemma ReaderMemory(s: State)
    ensures var t := ReaderStep(s);
            t.m == s.m && t.pairs == s.pairs && t.w == s.w && t.r.path == s.r.path && t.r.outCap == s.r.outCap
  {
  }

  lemma {:induction false} LookupEnds(s: State) returns (n: nat)
    requires Inv(s) && Quiet(ViewOf(s), s.r)
    ensures var t := Iterate(ReaderStep, s, n);
            t.r.pc == RDone && ViewOf(t) == ViewOf(s) && ViewOf(s).Answer(t.r.result)
    decreases Phase(s.r.pc), RowsLeft(s), RowRank(s.r.pc), BytesLeft(s.r)
  {
    if s.r.pc == RDone {
      n := 0;
    } else {
      InvGivesFacts(s);
      ReaderProgresses(s);
      ReaderMoves(s);
      ReaderMemory(s);
      ReaderKeepsInv(s);
      n := LookupEnds(ReaderStep(s));
      FirstStep(ReaderStep, s, n);
      n := n + 1;
    }
  }

  /** In `t` the lookup of `path` in the memory of `s` is over, with the answer owed. */
  ghost predicate Answered(s: State, path: string, outCap: nat, t: State) {
    && t.r.pc == RDone && t.m == s.m && t.pairs == s.pairs && |s.pairs| == s.m.count <= |s.m.rows|
    && View(s.m, s.pairs, path, outCap).Answer(t.r.result)
  }

  /** In any reachable state, a lookup that starts and is not disturbed ends, and
      with the answer it owes. */
  lemma QuietLookupAnswers(run: ShadowRuns.Run, k: nat, path: string, outCap: nat) returns (n: nat)
    requires IsRun(run) && !Busy(run.state(k).r.pc) && '\0' !in path
    ensures var s := run.state(k);
            && Sized(s)
            && Answered(s, path, outCap, Iterate(ReaderStep, Next(s, Lookup(path, outCap, true)), n))
  {
    RunInv(run, k);
    n := QuietLookup(run.state(k), path, outCap);
  }

  lemma QuietLookup(s: State, path: string, outCap: nat) returns (n: nat)
    requires Inv(s) && !Busy(s.r.pc) && '\0' !in path
    ensures Answered(s, path, outCap, Iterate(ReaderStep, Next(s, Lookup(path, outCap, true)), n))
  {
    var c := Next(s, Lookup(path, outCap, true));
    LookupStarts(s, path, outCap, c);
    n := LookupEnds(c);
  }

  lemma LookupStarts(s: State, path: string, outCap: nat, c: State)
    requires Inv(s) && !Busy(s.r.pc) && '\0' !in path && c == Next(s, Lookup(path, outCap, true))
    ensures Inv(c) && ViewOf(c) == View(s.m, s.pairs, path, outCap) && ViewOf(c).Valid() && Quiet(ViewOf(c), c.r)
  {
    ReaderCallsKeepsInv(s, path, outCap, true);
  }
}
