/** Whole runs of the shadow table while the owner adds and marks rows: what a
    lookup that succeeds has answered with. */
module ShadowRuns {
  import opened Common
  import opened PathTranslate
  import Shadow = ShadowTable
  import opened ShadowRace

  type Run = Common.Run<State, Action>

  ghost predicate IsStep(s: State, a: Action, t: State) { Sized(s) && t == Next(s, a) }

  ghost predicate IsRun(r: Run) {
    (exists cells, area :: r.state(0) == Init(cells, area)) && Steps(IsStep, r)
  }

  lemma StepAt(r: Run, n: nat)
    requires IsRun(r)
    ensures IsStep(r.state(n), r.act(n), r.state(n + 1))
  {
    assert Stepped(IsStep, r, n);
  }

  lemma StepKeepsInv(s: State, a: Action, t: State)
    requires Inv(s) && IsStep(s, a, t)
    ensures Inv(t)
  {
    NextKeepsInv(s, a);
  }

  lemma RunInv(r: Run, n: nat)
    requires IsRun(r)
    ensures Inv(r.state(n))
  {
    var good := (k: nat) => Inv(r.state(k));
    forall k: nat | 0 <= k < n ensures Kept(good, k) {
      StepAt(r, k);
      if good(k) { StepKeepsInv(r.state(k), r.act(k), r.state(k + 1)); }
    }
    Always(good, 0, n);
  }

  // ---------------------------------------------------------------------------
  // The row a lookup answers with was live

  predicate Busy(pc: ReaderPc) { pc != RIdle && pc != RDone }

  /** The reader has found the row it is at live. */
  predicate PastState(pc: ReaderPc) { InRow(pc) && pc != RType && pc != RState }

  /** Row `i` is published, and neither removed nor tombstoned. */
  predicate IsLive(s: State, i: nat) { Sized(s) && i < s.m.count && s.m.rows[i].state == Shadow.S_VALID }

  /** From step `m` to step `n` the reader is in one lookup. */
  ghost predicate OneLookup(r: Run, m: nat, n: nat) {
    m <= n && forall k | m <= k <= n :: Busy(r.state(k).r.pc)
  }

  /** Row `i` was live at a moment of the lookup that is going on at step `n`. */
  ghost predicate WasLive(r: Run, n: nat, i: nat) { exists m: nat :: OneLookup(r, m, n) && IsLive(r.state(m), i) }

  lemma StaysWasLive(r: Run, n: nat, i: nat)
    requires WasLive(r, n, i) && Busy(r.state(n + 1).r.pc)
    ensures WasLive(r, n + 1, i)
  {
    var m: nat :| OneLookup(r, m, n) && IsLive(r.state(m), i);
    assert OneLookup(r, m, n + 1);
  }

  lemma LiveNow(r: Run, n: nat, i: nat)
    requires IsLive(r.state(n), i) && Busy(r.state(n).r.pc)
    ensures WasLive(r, n, i)
  {
    assert OneLookup(r, n, n);
  }

  /** The row the reader is at, once past its state, and the best row so far have
      been live during this lookup. */
  ghost predicate Witnessed(r: Run, n: nat) {
    var q := r.state(n).r;
    Busy(q.pc) ==>
      && (PastState(q.pc) ==> WasLive(r, n, q.i))
      && (q.bestLen > 0 ==> WasLive(r, n, q.bestIdx))
  }

  /** How a step of the reader changes the row it is at and the best row. */
  ghost predicate Follows(s: State, t: State) {
    var p, q := s.r, t.r;
    Busy(q.pc) ==>
      && (!Busy(p.pc) ==> !PastState(q.pc) && q.bestLen == 0)
      && (PastState(q.pc) ==> q.i == p.i && (PastState(p.pc) || IsLive(s, p.i)))
      && (q.bestLen > 0 ==> (q.bestIdx == p.bestIdx && p.bestLen > 0) || (q.bestIdx == p.i && PastState(p.pc)))
  }

  lemma LoadFollows(s: State)
    requires RowsOk(s) && InRow(s.r.pc) && s.r.i < s.m.count
    ensures Follows(s, ReaderStep(s))
  {
  }

  lemma HeaderFollows(s: State)
    requires !InRow(s.r.pc)
    ensures Follows(s, ReaderStep(s))
  {
  }

  lemma ReaderFollows(s: State)
    requires Inv(s)
    ensures Follows(s, ReaderStep(s))
  {
    if InRow(s.r.pc) { LoadFollows(s); } else { HeaderFollows(s); }
  }

  lemma WriterLeavesReader(s: State)
    requires Sized(s)
    ensures WriterStep(s).r == s.r
  {
  }

  lemma StepFollows(s: State, a: Action, t: State)
    requires Inv(s) && IsStep(s, a, t)
    ensures Follows(s, t)
  {
    match a
    case ReaderSteps => ReaderFollows(s);
    case WriterSteps => WriterLeavesReader(s);
    case _ =>
  }

  lemma WitnessedStep(r: Run, n: nat)
    requires Witnessed(r, n) && Follows(r.state(n), r.state(n + 1))
    ensures Witnessed(r, n + 1)
  {
    var p, q := r.state(n).r, r.state(n + 1).r;
    if Busy(q.pc) && Busy(p.pc) {
      if PastState(q.pc) && !PastState(p.pc) { LiveNow(r, n, p.i); }
      if PastState(q.pc) { StaysWasLive(r, n, q.i); }
      if q.bestLen > 0 { StaysWasLive(r, n, q.bestIdx); }
    }
  }

  lemma RunWitnessed(r: Run, n: nat)
    requires IsRun(r)
    ensures Witnessed(r, n)
  {
    var good := (k: nat) => Witnessed(r, k);
    forall k: nat | 0 <= k < n ensures Kept(good, k) {
      RunFollows(r, k);
      if Witnessed(r, k) { WitnessedStep(r, k); }
    }
    Always(good, 0, n);
  }

  lemma RunFollows(r: Run, n: nat)
    requires IsRun(r)
    ensures Follows(r.state(n), r.state(n + 1))
  {
    RunInv(r, n);
    StepAt(r, n);
    StepFollows(r.state(n), r.act(n), r.state(n + 1));
  }

  lemma ReturnRewrites(s: State, a: Action)
    requires Inv(s) && s.r.pc == RCopy && Next(s, a).r.pc == RDone
    ensures var t := Next(s, a);
            t.pairs == s.pairs && t.r.result.Some? && Rewrites(s.pairs[s.r.bestIdx], t.r.path, t.r.result.value)
  {
    var i := s.r.bestIdx;
    ReaderCopiesSource(s, s.m.rows[i], s.pairs[i]);
    WriterLeavesReader(s);
  }

  // ---------------------------------------------------------------------------
  // The pairs were given to an add

  /** Some action before step `n` is the add of `p`. */
  ghost predicate Given(r: Run, n: nat, p: (string, string)) { exists k: nat :: k < n && r.act(k) == Add(p.0, p.1) }

  ghost predicate AllGiven(r: Run, n: nat) {
    var s := r.state(n);
    && (s.w.pc != WIdle ==> Given(r, n, (s.w.dst, s.w.src)))
    && forall i | 0 <= i < |s.pairs| :: Given(r, n, s.pairs[i])
  }

  /** Where the arguments of the add in progress and a new pair come from. */
  lemma PairsFrom(s: State, a: Action, t: State)
    requires IsStep(s, a, t)
    ensures t.w.pc != WIdle ==>
              (s.w.pc != WIdle && t.w.dst == s.w.dst && t.w.src == s.w.src) || a == Add(t.w.dst, t.w.src)
    ensures t.pairs == s.pairs || (s.w.pc != WIdle && t.pairs == s.pairs + [(s.w.dst, s.w.src)])
  {
    if a == ReaderSteps { ReaderLeavesOwner(s); }
  }

  lemma ReaderLeavesOwner(s: State)
    ensures ReaderStep(s).w == s.w && ReaderStep(s).pairs == s.pairs && ReaderStep(s).m == s.m
  {
  }

  lemma StillGiven(r: Run, n: nat, p: (string, string))
    requires Given(r, n, p)
    ensures Given(r, n + 1, p)
  {
    var k: nat :| k < n && r.act(k) == Add(p.0, p.1);
    assert k < n + 1;
  }

  lemma GivenStep(r: Run, n: nat)
    requires IsRun(r) && AllGiven(r, n)
    ensures AllGiven(r, n + 1)
  {
    var s, t := r.state(n), r.state(n + 1);
    StepAt(r, n);
    PairsFrom(s, r.act(n), t);
    if s.w.pc != WIdle { StillGiven(r, n, (s.w.dst, s.w.src)); }
    if r.act(n) == Add(t.w.dst, t.w.src) { assert Given(r, n + 1, (t.w.dst, t.w.src)); }
    forall i | 0 <= i < |t.pairs| ensures Given(r, n + 1, t.pairs[i]) {
      if i < |s.pairs| { StillGiven(r, n, s.pairs[i]); }
    }
  }

  /** Every pair of a reachable state is the argument of an add before it. */
  lemma PairsAreGiven(r: Run, n: nat)
    requires IsRun(r)
    ensures AllGiven(r, n)
  {
    var good := (k: nat) => AllGiven(r, k);
    forall k: nat | 0 <= k < n ensures Kept(good, k) {
      if good(k) { GivenStep(r, k); }
    }
    Always(good, 0, n);
  }

  // ---------------------------------------------------------------------------
  // From the call of a lookup to its return

  /** A result fits the caller's buffer with its terminator. */
  ghost predicate OutFits(q: Reader) {
    && (q.pc == RCopy ==> q.bestLen <= |q.path| && |q.out| <= q.bestSrcLen
                          && q.bestSrcLen + (|q.path| - q.bestLen) + 1 <= q.outCap)
    && (q.pc == RDone && q.result.Some? ==> |q.result.value| + 1 <= q.outCap)
  }

  /** The lookup of `path` is going on, or is over. */
  ghost predicate LooksUp(q: Reader, path: string, outCap: nat) {
    q.path == path && q.outCap == outCap && q.pc != RIdle && OutFits(q)
  }

  lemma LookupStarts(s: State, a: Action, t: State)
    requires IsStep(s, a, t) && a.Lookup? && !Busy(s.r.pc) && '\0' !in a.path
    ensures LooksUp(t.r, a.path, a.outCap) && (t.r.pc == RDone ==> t.r.result == None)
    ensures !a.live ==> t.r.pc == RDone
  {
  }

  lemma ReaderGoesOn(s: State, path: string, outCap: nat)
    requires Busy(s.r.pc) && LooksUp(s.r, path, outCap)
    ensures LooksUp(ReaderStep(s).r, path, outCap)
  {
  }

  lemma LookupGoesOn(s: State, a: Action, t: State, path: string, outCap: nat)
    requires IsStep(s, a, t) && Busy(s.r.pc) && LooksUp(s.r, path, outCap)
    ensures LooksUp(t.r, path, outCap)
  {
    match a
    case ReaderSteps => ReaderGoesOn(s, path, outCap);
    case WriterSteps => WriterLeavesReader(s);
    case _ =>
  }

  /** The lookup called at step `c` is over at step `n` and not before. */
  ghost predicate Returns(r: Run, c: nat, n: nat) {
    c < n && !Busy(r.state(c).r.pc) && !Busy(r.state(n).r.pc) && forall k | c < k < n :: Busy(r.state(k).r.pc)
  }

  lemma LookupIsOf(r: Run, c: nat, n: nat)
    requires IsRun(r) && Returns(r, c, n) && r.act(c).Lookup? && '\0' !in r.act(c).path
    ensures LooksUp(r.state(n).r, r.act(c).path, r.act(c).outCap)
    ensures r.state(n).r.result.Some? ==> n > c + 1 && r.act(c).live
  {
    var path, outCap := r.act(c).path, r.act(c).outCap;
    var good := (k: nat) => LooksUp(r.state(k).r, path, outCap);
    StepAt(r, c);
    LookupStarts(r.state(c), r.act(c), r.state(c + 1));
    forall k: nat | c + 1 <= k < n ensures Kept(good, k) {
      StepAt(r, k);
      if good(k) { LookupGoesOn(r.state(k), r.act(k), r.state(k + 1), path, outCap); }
    }
    Always(good, c + 1, n);
  }

  /** A busy reader that stops being busy with a result was copying. */
  lemma ResultIsCopied(s: State, a: Action, t: State)
    requires Inv(s) && IsStep(s, a, t) && Busy(s.r.pc) && t.r.pc == RDone && t.r.result.Some?
    ensures s.r.pc == RCopy
  {
    match a
    case ReaderSteps =>
    case WriterSteps => WriterLeavesReader(s);
    case _ =>
  }

  /** However the owner's stores and the reader's loads interleave, a lookup of a path
      that succeeds returns its rewriting by one pair: the arguments of an add before,
      whose row was published and live at a moment between call and return.  The
      table passed for live at the call, and the result fits the caller's buffer. */
  lemma LookupNeverMixesRows(r: Run, c: nat, n: nat) returns (k: nat, m: nat, i: nat)
    requires IsRun(r) && Returns(r, c, n) && r.act(c).Lookup? && '\0' !in r.act(c).path
    requires r.state(n).r.result.Some?
    ensures k < n && r.act(k).Add? && Rewrites((r.act(k).dst, r.act(k).src), r.act(c).path, r.state(n).r.result.value)
    ensures c < m < n && IsLive(r.state(m), i) && i < |r.state(n).pairs|
    ensures r.state(n).pairs[i] == (r.act(k).dst, r.act(k).src)
    ensures |r.state(n).r.result.value| + 1 <= r.act(c).outCap && r.act(c).live
  {
    LookupIsOf(r, c, n);
    m, i := AnswersFromLiveRow(r, n - 1);
    PairsAreGiven(r, n);
    var p := r.state(n).pairs[i];
    assert Given(r, n, p);
    k :| k < n && r.act(k) == Add(p.0, p.1);
  }

  lemma AnswersFromLiveRow(r: Run, n: nat) returns (m: nat, i: nat)
    requires IsRun(r) && Busy(r.state(n).r.pc) && r.state(n + 1).r.pc == RDone && r.state(n + 1).r.result.Some?
    ensures OneLookup(r, m, n) && IsLive(r.state(m), i)
    ensures var s := r.state(n + 1);
            i < |s.pairs| && Rewrites(s.pairs[i], s.r.path, s.r.result.value)
  {
    RunInv(r, n);
    RunWitnessed(r, n);
    StepAt(r, n);
    var s := r.state(n);
    ResultIsCopied(s, r.act(n), r.state(n + 1));
    i := s.r.bestIdx;
    m :| OneLookup(r, m, n) && IsLive(r.state(m), i);
    ReturnRewrites(s, r.act(n));
  }

  // ---------------------------------------------------------------------------
  // No commit during a lookup that succeeds

  /** The generation the lookup works with is the one it loaded at step `g`. */
  ghost predicate LoadedAt(r: Run, n: nat, g: nat) {
    OneLookup(r, g, n) && r.state(g).r.pc == RGen && r.state(n).r.gen == r.state(g).m.gen
  }

  /** At step `h` the generation was still that of step `g`. */
  ghost predicate CheckedAt(r: Run, n: nat, g: nat, h: nat) {
    && g < h && OneLookup(r, g, n) && h <= n
    && r.state(g).r.pc == RGen && r.state(h).r.pc == RGenAgain && r.state(h).m.gen == r.state(g).m.gen
  }

  ghost predicate GenKnown(r: Run, n: nat) {
    var pc := r.state(n).r.pc;
    && (Busy(pc) && pc != RGen ==> exists g: nat :: LoadedAt(r, n, g))
    && (pc == RCopy ==> exists g: nat, h: nat :: CheckedAt(r, n, g, h))
  }

  /** How a step changes the generation the reader has loaded. */
  ghost predicate GenFollows(s: State, t: State) {
    var p, q := s.r, t.r;
    && (!Busy(p.pc) && Busy(q.pc) ==> q.pc == RGen)
    && (Busy(p.pc) && Busy(q.pc) && q.pc != RGen ==> q.gen == if p.pc == RGen then s.m.gen else p.gen)
    && (q.pc == RGen ==> p.pc == RGen || !Busy(p.pc))
    && (q.pc == RCopy && p.pc != RCopy ==> p.pc == RGenAgain && s.m.gen == p.gen)
  }

  lemma ReaderGenFollows(s: State)
    ensures GenFollows(s, ReaderStep(s))
  {
  }

  lemma StepGenFollows(s: State, a: Action, t: State)
    requires IsStep(s, a, t)
    ensures GenFollows(s, t)
  {
    match a
    case ReaderSteps => ReaderGenFollows(s);
    case WriterSteps => WriterLeavesReader(s);
    case _ =>
  }

  lemma GenStep(r: Run, n: nat)
    requires GenKnown(r, n) && GenFollows(r.state(n), r.state(n + 1))
    ensures GenKnown(r, n + 1)
  {
    var p, q := r.state(n).r, r.state(n + 1).r;
    if Busy(q.pc) && q.pc != RGen {
      var g := StillLoaded(r, n);
      if q.pc == RCopy {
        if p.pc == RCopy {
          var g', h: nat :| CheckedAt(r, n, g', h);
          assert CheckedAt(r, n + 1, g', h);
        } else {
          assert CheckedAt(r, n + 1, g, n);
        }
      }
    }
  }

  lemma StillLoaded(r: Run, n: nat) returns (g: nat)
    requires GenKnown(r, n) && GenFollows(r.state(n), r.state(n + 1))
    requires Busy(r.state(n + 1).r.pc) && r.state(n + 1).r.pc != RGen
    ensures LoadedAt(r, n + 1, g) && (r.state(n).r.pc != RGen ==> LoadedAt(r, n, g))
  {
    if r.state(n).r.pc == RGen {
      g := n;
    } else {
      g :| LoadedAt(r, n, g);
    }
  }

  lemma RunGenKnown(r: Run, n: nat)
    requires IsRun(r)
    ensures GenKnown(r, n)
  {
    var good := (k: nat) => GenKnown(r, k);
    forall k: nat | 0 <= k < n ensures Kept(good, k) {
      StepAt(r, k);
      StepGenFollows(r.state(k), r.act(k), r.state(k + 1));
      if good(k) { GenStep(r, k); }
    }
    Always(good, 0, n);
  }

  /** The owner commits at step `k`. */
  predicate Commits(r: Run, k: nat) { r.act(k) == Publish && r.state(k).w.pc == WIdle }

  lemma GenGrows(s: State, a: Action, t: State)
    requires IsStep(s, a, t)
    ensures s.m.gen <= t.m.gen && (a == Publish && s.w.pc == WIdle ==> s.m.gen < t.m.gen)
  {
    match a
    case ReaderSteps => ReaderLeavesOwner(s);
    case WriterSteps =>
    case _ =>
  }

  lemma {:induction false} NoCommitBetween(r: Run, g: nat, h: nat)
    requires IsRun(r) && g <= h
    ensures r.state(g).m.gen <= r.state(h).m.gen
    ensures r.state(g).m.gen == r.state(h).m.gen ==> forall k | g <= k < h :: !Commits(r, k)
    decreases h - g
  {
    if g < h {
      NoCommitBetween(r, g, h - 1);
      StepAt(r, h - 1);
      GenGrows(r.state(h - 1), r.act(h - 1), r.state(h));
    }
  }

  /** A lookup that succeeds loads the generation at a step `g`, before it looks at any
      row, and again at a step `h`, after it has looked at all of them, and the owner
      commits at no step between the two. */
  lemma NoCommitDuringLookup(r: Run, c: nat, n: nat) returns (g: nat, h: nat)
    requires IsRun(r) && Returns(r, c, n) && r.act(c).Lookup? && '\0' !in r.act(c).path
    requires r.state(n).r.result.Some?
    ensures c < g < h < n && r.state(g).r.pc == RGen && r.state(h).r.pc == RGenAgain
    ensures forall k | g <= k < h :: !Commits(r, k)
  {
    EndsCopying(r, c, n);
    g, h := Checked(r, n - 1);
    assert !Busy(r.state(c).r.pc);
    NoCommitBetween(r, g, h);
  }

  lemma EndsCopying(r: Run, c: nat, n: nat)
    requires IsRun(r) && Returns(r, c, n) && r.act(c).Lookup? && '\0' !in r.act(c).path
    requires r.state(n).r.result.Some?
    ensures n > c + 1 && r.state(n - 1).r.pc == RCopy
  {
    LookupIsOf(r, c, n);
    LastStepCopies(r, n - 1);
  }

  lemma LastStepCopies(r: Run, n: nat)
    requires IsRun(r) && Busy(r.state(n).r.pc) && r.state(n + 1).r.pc == RDone && r.state(n + 1).r.result.Some?
    ensures r.state(n).r.pc == RCopy
  {
    RunInv(r, n);
    StepAt(r, n);
    ResultIsCopied(r.state(n), r.act(n), r.state(n + 1));
  }

  lemma Checked(r: Run, n: nat) returns (g: nat, h: nat)
    requires IsRun(r) && r.state(n).r.pc == RCopy
    ensures CheckedAt(r, n, g, h) && h < n
  {
    RunGenKnown(r, n);
    g, h :| CheckedAt(r, n, g, h);
  }
}
