/** Progress of the PTY channel: in every interleaving in which a process is not
    stopped for ever inside its call, the call ends with what it promised,
    whatever the other process does meanwhile. */
module PtyRuns {
  import opened Common
  import opened PtyChannel

  type Run = Common.Run<State, Action>

  ghost predicate IsStep(s: State, a: Action, t: State) { |s.mem.data| == CAP && t == Next(s, a) }

  ghost predicate IsRun(r: Run) {
    (exists d :: |d| == CAP && r.state(0) == PtyChannel.Init(d)) && Steps(IsStep, r)
  }

  lemma StepAt(r: Run, n: nat)
    requires IsRun(r)
    ensures IsStep(r.state(n), r.act(n), r.state(n + 1))
  {
    assert Stepped(IsStep, r, n);
  }

  lemma RunInv(r: Run, n: nat)
    requires IsRun(r)
    ensures Inv(r.state(n))
  {
    var good := (k: nat) => Inv(r.state(k));
    forall k: nat | 0 <= k < n ensures Kept(good, k) {
      StepAt(r, k);
      if good(k) { NextKeepsInv(r.state(k), r.act(k)); }
    }
    Always(good, 0, n);
  }

  /** Bytes count as accepted and as delivered at the two publications only. */
  lemma OnlyPublishing(s: State, a: Action, t: State)
    requires IsStep(s, a, t)
    ensures s.accepted <= t.accepted && (a != WPublish ==> t.accepted == s.accepted)
    ensures s.delivered <= t.delivered && (a != RPublish ==> t.delivered == s.delivered)
  {
  }

  lemma BytesStay(r: Run, n: nat, m: nat)
    requires IsRun(r) && n <= m
    ensures r.state(n).accepted <= r.state(m).accepted && r.state(n).delivered <= r.state(m).delivered
  {
    var s := r.state(n);
    var good := (k: nat) => s.accepted <= r.state(k).accepted && s.delivered <= r.state(k).delivered;
    forall k: nat | n <= k < m ensures Kept(good, k) {
      StepAt(r, k);
      OnlyPublishing(r.state(k), r.act(k), r.state(k + 1));
    }
    Always(good, n, m);
  }

  // ---------------------------------------------------------------------------
  // The writer

  /** The writer's next step inside its call. */
  predicate WriterActs(s: State, a: Action) {
    match s.w
    case WIdle => false
    case WGotHead(_, _) => a == WLoadTail
    case WCopy(_, _, n, i) => a == if i < n then WCopyByte else WPublish
  }

  lemma OthersLeaveWriter(s: State, a: Action)
    requires Inv(s) && !s.w.WIdle? && !WriterActs(s, a)
    ensures Next(s, a).w == s.w && Next(s, a).accepted == s.accepted
  {
  }

  /** At step `k` the writer is not in a call or takes its next step. */
  ghost predicate WriterDue(r: Run, k: nat) { r.state(k).w.WIdle? || WriterActs(r.state(k), r.act(k)) }

  ghost predicate WriterRunsAfter(r: Run, n: nat) { exists k: nat :: k >= n && WriterDue(r, k) }

  /** The writer is never stopped for ever inside a call. */
  ghost predicate WriterRuns(r: Run) { forall n: nat :: WriterRunsAfter(r, n) }

  /** Waits, over any steps of the reader, for the writer's next step. */
  lemma {:induction false} WriterSteps(r: Run, n: nat, k: nat) returns (m: nat)
    requires IsRun(r) && !r.state(n).w.WIdle? && k >= n && WriterDue(r, k)
    ensures m >= n && WriterActs(r.state(m), r.act(m))
    ensures r.state(m).w == r.state(n).w && r.state(m).accepted == r.state(n).accepted
    decreases k - n
  {
    RunInv(r, n);
    if WriterActs(r.state(n), r.act(n)) {
      m := n;
    } else {
      StepAt(r, n);
      OthersLeaveWriter(r.state(n), r.act(n));
      m := WriterSteps(r, n + 1, k);
    }
  }

  lemma NextWriterStep(r: Run, n: nat) returns (m: nat)
    requires IsRun(r) && WriterRuns(r) && !r.state(n).w.WIdle?
    ensures m >= n && WriterActs(r.state(m), r.act(m))
    ensures r.state(m).w == r.state(n).w && r.state(m).accepted == r.state(n).accepted
  {
    assert WriterRunsAfter(r, n);
    var k: nat :| k >= n && WriterDue(r, k);
    m := WriterSteps(r, n, k);
  }

  lemma CopyStep(s: State, a: Action, t: State)
    requires Inv(s) && s.w.WCopy? && WriterActs(s, a) && IsStep(s, a, t)
    ensures if s.w.i < s.w.n then t.w == s.w.(i := s.w.i + 1) && t.accepted == s.accepted
            else t.w == WIdle && t.accepted == s.accepted + s.w.buf[..s.w.n]
  {
  }

  lemma {:induction false} CopyEnds(r: Run, n: nat) returns (m: nat)
    requires IsRun(r) && WriterRuns(r) && r.state(n).w.WCopy? && r.state(n).w.i <= r.state(n).w.n <= |r.state(n).w.buf|
    ensures m > n && r.state(m).w.WIdle?
    ensures r.state(m).accepted == r.state(n).accepted + r.state(n).w.buf[..r.state(n).w.n]
    decreases r.state(n).w.n - r.state(n).w.i
  {
    var j := NextWriterStep(r, n);
    RunInv(r, j);
    StepAt(r, j);
    CopyStep(r.state(j), r.act(j), r.state(j + 1));
    if r.state(n).w.i < r.state(n).w.n {
      m := CopyEnds(r, j + 1);
    } else {
      m := j + 1;
    }
  }

  lemma LoadStep(s: State, a: Action, t: State)
    requires Inv(s) && s.w.WGotHead? && WriterActs(s, a) && IsStep(s, a, t)
    ensures t.accepted == s.accepted
    ensures t.w == WCopy(s.w.buf, s.w.head, Min(|s.w.buf|, CAP - (|s.accepted| - |s.delivered|)), 0)
    ensures 0 <= t.w.n <= |s.w.buf|
  {
    LoadTailKeepsInv(s);
  }

  /** A write that has loaded the head goes on: at some step `j` it loads the tail, and
      at step `m` it has accepted the bytes that fitted at `j`. */
  lemma WriteGoesOn(r: Run, n: nat) returns (j: nat, m: nat)
    requires IsRun(r) && WriterRuns(r) && r.state(n).w.WGotHead?
    ensures n <= j < m && r.act(j) == WLoadTail
    ensures r.state(j).accepted == r.state(n).accepted && r.state(m).w.WIdle?
    ensures var c := Min(|r.state(n).w.buf|, CAP - (|r.state(j).accepted| - |r.state(j).delivered|));
            0 <= c <= |r.state(n).w.buf| && r.state(m).accepted == r.state(n).accepted + r.state(n).w.buf[..c]
  {
    j := NextWriterStep(r, n);
    RunInv(r, j);
    StepAt(r, j);
    LoadStep(r.state(j), r.act(j), r.state(j + 1));
    m := CopyEnds(r, j + 1);
  }

  lemma CallStarts(s: State, a: Action, t: State)
    requires Inv(s) && IsStep(s, a, t)
    ensures a.WCall? && s.w.WIdle? && |a.buf| < U32 ==> t.w == WGotHead(a.buf, s.mem.head)
    ensures a.RCall? && s.r.RIdle? && a.want < U32 ==> t.r == RGotHead(a.want, s.mem.head, |s.accepted|)
  {
  }

  /** A write of `buf` called at step `n` ends, however the reader's steps fall in
      between: at some step `j` it loads the tail, and at step `m` it has accepted
      exactly as much of `buf` as fitted at `j`, at least what fitted at the call. */
  lemma WriteAcceptsWhatFits(r: Run, n: nat, buf: seq<Byte>) returns (j: nat, m: nat)
    requires IsRun(r) && WriterRuns(r) && r.act(n) == WCall(buf) && r.state(n).w.WIdle? && |buf| < U32
    ensures n < j < m && r.act(j) == WLoadTail && r.state(m).w.WIdle?
    ensures r.state(j).accepted == r.state(n).accepted
    ensures var c := Min(|buf|, CAP - (|r.state(j).accepted| - |r.state(j).delivered|));
            && Min(|buf|, CAP - (|r.state(n).accepted| - |r.state(n).delivered|)) <= c <= |buf| && 0 <= c
            && r.state(m).accepted == r.state(n).accepted + buf[..c]
  {
    RunInv(r, n);
    StepAt(r, n);
    CallStarts(r.state(n), r.act(n), r.state(n + 1));
    OnlyPublishing(r.state(n), r.act(n), r.state(n + 1));
    j, m := WriteGoesOn(r, n + 1);
    BytesStay(r, n, j);
  }

  // ---------------------------------------------------------------------------
  // The reader

  /** The reader's next step inside its call. */
  predicate ReaderActs(s: State, a: Action) {
    match s.r
    case RIdle => false
    case RGotHead(_, _, _) => a == RLoadTail
    case RCopy(_, n, got) => a == if |got| < n then RCopyByte else RPublish
  }

  lemma OthersLeaveReader(s: State, a: Action)
    requires Inv(s) && !s.r.RIdle? && !ReaderActs(s, a)
    ensures Next(s, a).r == s.r && Next(s, a).delivered == s.delivered
  {
  }

  ghost predicate ReaderDue(r: Run, k: nat) { r.state(k).r.RIdle? || ReaderActs(r.state(k), r.act(k)) }

  ghost predicate ReaderRunsAfter(r: Run, n: nat) { exists k: nat :: k >= n && ReaderDue(r, k) }

  /** The reader is never stopped for ever inside a call. */
  ghost predicate ReaderRuns(r: Run) { forall n: nat :: ReaderRunsAfter(r, n) }

  lemma {:induction false} ReaderSteps(r: Run, n: nat, k: nat) returns (m: nat)
    requires IsRun(r) && !r.state(n).r.RIdle? && k >= n && ReaderDue(r, k)
    ensures m >= n && ReaderActs(r.state(m), r.act(m))
    ensures r.state(m).r == r.state(n).r && r.state(m).delivered == r.state(n).delivered
    decreases k - n
  {
    RunInv(r, n);
    if ReaderActs(r.state(n), r.act(n)) {
      m := n;
    } else {
      StepAt(r, n);
      OthersLeaveReader(r.state(n), r.act(n));
      m := ReaderSteps(r, n + 1, k);
    }
  }

  lemma NextReaderStep(r: Run, n: nat) returns (m: nat)
    requires IsRun(r) && ReaderRuns(r) && !r.state(n).r.RIdle?
    ensures m >= n && ReaderActs(r.state(m), r.act(m))
    ensures r.state(m).r == r.state(n).r && r.state(m).delivered == r.state(n).delivered
  {
    assert ReaderRunsAfter(r, n);
    var k: nat :| k >= n && ReaderDue(r, k);
    m := ReaderSteps(r, n, k);
  }

  lemma TakeStep(s: State, a: Action, t: State)
    requires Inv(s) && s.r.RCopy? && ReaderActs(s, a) && IsStep(s, a, t)
    ensures if |s.r.got| < s.r.n then
              t.r.RCopy? && t.r.n == s.r.n && |t.r.got| == |s.r.got| + 1 && t.delivered == s.delivered
            else t.r == RIdle && |t.delivered| == |s.delivered| + s.r.n
  {
  }

  lemma {:induction false} TakeEnds(r: Run, n: nat) returns (m: nat)
    requires IsRun(r) && ReaderRuns(r) && r.state(n).r.RCopy? && |r.state(n).r.got| <= r.state(n).r.n
    ensures m > n && r.state(m).r.RIdle? && |r.state(m).delivered| == |r.state(n).delivered| + r.state(n).r.n
    decreases r.state(n).r.n - |r.state(n).r.got|
  {
    var j := NextReaderStep(r, n);
    RunInv(r, j);
    StepAt(r, j);
    TakeStep(r.state(j), r.act(j), r.state(j + 1));
    if |r.state(n).r.got| < r.state(n).r.n {
      m := TakeEnds(r, j + 1);
    } else {
      m := j + 1;
    }
  }

  lemma ReadLoadStep(s: State, a: Action, t: State)
    requires Inv(s) && s.r.RGotHead? && ReaderActs(s, a) && IsStep(s, a, t)
    ensures t.delivered == s.delivered && t.r.RCopy? && t.r.got == []
    ensures t.r.n == Min(s.r.want, s.r.seen - |s.delivered|)
    ensures s.r.seen >= |s.delivered|
  {
    ReadLoadKeepsInv(s);
  }

  /** A read that has loaded the head goes on and delivers as many bytes as it saw and
      asked for. */
  lemma ReadGoesOn(r: Run, n: nat) returns (m: nat)
    requires IsRun(r) && ReaderRuns(r) && r.state(n).r.RGotHead?
    ensures m > n && r.state(m).r.RIdle?
    ensures var s := r.state(n);
            s.r.seen >= |s.delivered|
            && |r.state(m).delivered| == |s.delivered| + Min(s.r.want, s.r.seen - |s.delivered|)
  {
    var j := NextReaderStep(r, n);
    RunInv(r, j);
    StepAt(r, j);
    ReadLoadStep(r.state(j), r.act(j), r.state(j + 1));
    m := TakeEnds(r, j + 1);
  }

  /** A read of `want` bytes called at step `n` ends, however the writer's steps fall
      in between, and has then delivered the next bytes accepted before the call, as
      many as were asked for and there. */
  lemma ReadDeliversWhatIsThere(r: Run, n: nat, want: nat) returns (m: nat)
    requires IsRun(r) && ReaderRuns(r) && r.act(n) == RCall(want) && r.state(n).r.RIdle? && want < U32
    ensures m > n && r.state(m).r.RIdle?
    ensures var s := r.state(n);
            var d := |s.delivered|;
            && d <= |s.accepted|
            && r.state(m).delivered == s.delivered + s.accepted[d..d + Min(want, |s.accepted| - d)]
  {
    RunInv(r, n);
    StepAt(r, n);
    CallStarts(r.state(n), r.act(n), r.state(n + 1));
    OnlyPublishing(r.state(n), r.act(n), r.state(n + 1));
    m := ReadGoesOn(r, n + 1);
    RunInv(r, m);
    BytesStay(r, n, m);
    PrefixGoesOn(r.state(n), r.state(m));
  }

  lemma PrefixGoesOn(s: State, t: State)
    requires Inv(s) && Inv(t) && s.accepted <= t.accepted && |s.delivered| <= |t.delivered| <= |s.accepted|
    ensures t.delivered == s.delivered + s.accepted[|s.delivered|..|t.delivered|]
  {
    var d, e := |s.delivered|, |t.delivered|;
    assert t.accepted[..e] == s.accepted[..e];
    assert s.accepted[..e] == s.accepted[..d] + s.accepted[d..e];
  }
}
