/** Whole runs of the request ring.  The code's request numbers are 32-bit words;
    beside the code runs a copy of it whose numbers never wrap, and the code
    follows that copy word for word until the holder polls for a number that has
    wrapped to zero before the agent rang it. */
module RingRuns {
  import opened Common
  import opened RequestRing

  // ---------------------------------------------------------------------------
  // The agent's lag

  /** How far the agent's last scan is behind what it has answered: a scan answers
      each slot at most once. */
  ghost predicate Lag(s: State) {
    var a := s.a;
    if a.pc == AIdle then |s.served| <= a.lastSeen + 1 + SLOTS
    else |s.served| <= a.hs + 1 + a.i + (if Writing(a.pc) then 1 else 0)
  }

  predicate Writing(pc: AgentPc) { pc == AWrite || pc == AStoreLen || pc == AStoreDone || pc == ARing }

  lemma AgentKeepsLag(s: State, answer: Bytes, chunk: nat)
    requires Sized(s) && Lag(s) && |s.served| <= s.hostSeq + 1
    ensures Lag(AgentStep(s, answer, chunk))
  {
  }

  lemma HolderLeavesAgent(s: State, number: nat)
    requires Sized(s)
    ensures var t := HolderStep(s, number); t.a == s.a && t.served == s.served && t.guestSeq == s.guestSeq
  {
  }

  lemma CountKeepsLag(s: State, act: Action)
    requires Inv(s) && Lag(s)
    ensures Lag(Count(s, act))
  {
    match act
    case ClientCalls(_) =>
    case HolderSteps => HolderLeavesAgent(s, s.hostSeq + 1);
    case AgentSteps(answer, chunk) => AgentKeepsLag(s, answer, chunk);
  }

  // ---------------------------------------------------------------------------
  // Words

  function WordSlot(sl: Slot): Slot { sl.(seqNo := Wrap(sl.seqNo)) }

  /** A state with every request number cut to its word. */
  function Words(s: State): State {
    s.(slots := seq(|s.slots|, i requires 0 <= i < |s.slots| => WordSlot(s.slots[i])),
       hostSeq := Wrap(s.hostSeq), guestSeq := Wrap(s.guestSeq), h := s.h.(q := Wrap(s.h.q)),
       a := s.a.(lastSeen := Wrap(s.a.lastSeen), hs := Wrap(s.a.hs), q := Wrap(s.a.q)))
  }

  /** The holder polls for number 0 and the agent has not rung it. */
  predicate EarlyPoll(s: State, act: Action) {
    act.HolderSteps? && s.h.pc == HWait && s.h.q == 0 && s.guestSeq != 0
  }

  lemma StoreWords(s: State, i: nat, sl: Slot)
    requires i < |s.slots|
    ensures Words(Store(s, i, sl)) == Store(Words(s), i, WordSlot(sl))
  {
    var a, b := Words(Store(s, i, sl)).slots, Store(Words(s), i, WordSlot(sl)).slots;
    assert |a| == |b| && forall j | 0 <= j < |a| :: a[j] == b[j];
  }

  lemma WrapNext(x: nat)
    ensures Wrap(Wrap(x) + 1) == Wrap(x + 1)
    ensures Wrap(x) >= Wrap(x + 1) <==> Wrap(x + 1) == 0
    ensures Wrap(x) != Wrap(x + 1)
  {
  }

  lemma WrapClose(x: nat, y: nat)
    requires x <= y < x + U32
    ensures Wrap(x) == Wrap(y) <==> x == y
  {
  }

  /** The agent has rung for the holder's request, or is exactly one behind. */
  lemma OneBehind(s: State)
    requires Inv(s) && s.h.pc == HWait
    ensures s.h.q == |s.replies| + 1 == |s.posted|
    ensures s.guestSeq == s.h.q || s.guestSeq + 1 == s.h.q
  {
  }

  lemma PollFollows(s: State)
    requires Inv(s) && s.h.pc == HWait && !EarlyPoll(Words(s), HolderSteps)
    ensures Words(HolderPolls(s)) == HolderPolls(Words(s))
  {
    OneBehind(s);
    WrapNext(|s.replies|);
  }

  lemma HolderStoresFollow(s: State)
    requires Sized(s) && Sized(Words(s)) && s.h.pc != HWait
    ensures Words(HolderStep(s, s.hostSeq + 1)) == HolderStep(Words(s), Wrap(Words(s).hostSeq + 1))
  {
    var h, sl := s.h, s.slots[s.h.i];
    match h.pc
    case HReadSeq => WrapNext(s.hostSeq);
    case HCopy => if h.j < |h.body| { StoreWords(s, h.i, sl.(pay := sl.pay[h.j := h.body[h.j]])); }
    case HStoreLen => StoreWords(s, h.i, sl.(len := |h.body|));
    case HStoreSeq => StoreWords(s, h.i, sl.(seqNo := h.q));
    case HStoreBusy => StoreWords(s, h.i, sl.(status := Busy));
    case HStoreFree => StoreWords(s, h.i, sl.(status := Free));
    case _ =>
  }

  lemma HolderFollows(s: State)
    requires Inv(s) && Sized(Words(s)) && !EarlyPoll(Words(s), HolderSteps)
    ensures Words(HolderStep(s, s.hostSeq + 1)) == HolderStep(Words(s), Wrap(Words(s).hostSeq + 1))
  {
    if s.h.pc == HWait { PollFollows(s); } else { HolderStoresFollow(s); }
  }

  lemma BellFollows(s: State)
    requires Inv(s) && Lag(s) && s.a.pc == AIdle
    ensures Words(AgentLoadsBell(s)) == AgentLoadsBell(Words(s))
  {
    WrapClose(s.a.lastSeen, s.hostSeq);
  }

  lemma WriteFollows(s: State, chunk: nat)
    requires Sized(s) && Sized(Words(s)) && s.a.pc == AWrite
    ensures Words(AgentWrites(s, chunk)) == AgentWrites(Words(s), chunk)
  {
    var a, sl := s.a, s.slots[s.a.i];
    var left := Min(|a.answer|, MAX_FRAME) - a.got;
    if left > 0 {
      var n := Min(chunk + 1, left);
      StoreWords(s, a.i, sl.(pay := Overwrite(sl.pay, a.got, a.answer[a.got..a.got + n])));
    }
  }

  lemma AgentStoresFollow(s: State, answer: Bytes, chunk: nat)
    requires Sized(s) && Sized(Words(s)) && s.a.pc != AIdle
    ensures Words(AgentStep(s, answer, chunk)) == AgentStep(Words(s), answer, chunk)
  {
    match s.a.pc
    case AWrite => WriteFollows(s, chunk);
    case AStoreLen => StoreWords(s, s.a.i, s.slots[s.a.i].(len := s.a.got));
    case AStoreDone => StoreWords(s, s.a.i, s.slots[s.a.i].(status := Done));
    case _ =>
  }

  lemma AgentFollows(s: State, answer: Bytes, chunk: nat)
    requires Inv(s) && Lag(s) && Sized(Words(s))
    ensures Words(AgentStep(s, answer, chunk)) == AgentStep(Words(s), answer, chunk)
  {
    if s.a.pc == AIdle { BellFollows(s); } else { AgentStoresFollow(s, answer, chunk); }
  }

  /** The code's step on the words is the words of the counted step, unless the
      holder polls too early. */
  lemma NextFollows(s: State, act: Action)
    requires Inv(s) && Lag(s) && Sized(Words(s)) && !EarlyPoll(Words(s), act)
    ensures Words(Count(s, act)) == Next(Words(s), act)
  {
    match act
    case ClientCalls(_) =>
    case HolderSteps => HolderFollows(s);
    case AgentSteps(answer, chunk) => AgentFollows(s, answer, chunk);
  }

  // ---------------------------------------------------------------------------
  // Runs

  type Run = Common.Run<State, Action>

  ghost predicate IsStep(s: State, act: Action, t: State) { Sized(s) && t == Next(s, act) }

  ghost predicate IsRun(r: Run) { r.state(0) == Init() && Steps(IsStep, r) }

  lemma StepAt(r: Run, n: nat)
    requires IsRun(r)
    ensures IsStep(r.state(n), r.act(n), r.state(n + 1))
  {
    assert Stepped(IsStep, r, n);
  }

  ghost predicate EarlyAt(r: Run, n: nat) { EarlyPoll(r.state(n), r.act(n)) }

  /** No poll among the first `n` steps came too early. */
  ghost predicate PromptUntil(r: Run, n: nat) { forall k: nat | k < n :: !EarlyAt(r, k) }

  /** The code's state is the words of a counted one. */
  ghost predicate Mirrors(s: State, u: State) { Inv(u) && Lag(u) && s == Words(u) }

  lemma InitMirrors()
    ensures Mirrors(Init(), Init())
  {
    InitInv();
    assert Words(Init()).slots == Init().slots;
  }

  lemma StepMirrors(s: State, u: State, act: Action, t: State) returns (v: State)
    requires Mirrors(s, u) && IsStep(s, act, t) && !EarlyPoll(s, act)
    ensures Mirrors(t, v)
  {
    CountKeepsInv(u, act);
    CountKeepsLag(u, act);
    NextFollows(u, act);
    v := Count(u, act);
  }

  ghost predicate Mirrored(s: State) { exists u :: Mirrors(s, u) }

  lemma MirroredAt(r: Run, k: nat)
    requires IsRun(r) && !EarlyAt(r, k)
    ensures Mirrored(r.state(k)) ==> Mirrored(r.state(k + 1))
  {
    StepAt(r, k);
    if Mirrored(r.state(k)) {
      var u :| Mirrors(r.state(k), u);
      var v := StepMirrors(r.state(k), u, r.act(k), r.state(k + 1));
    }
  }

  /** Until a poll comes too early, the code's state is that of a counted run. */
  lemma RunIsCounted(r: Run, n: nat)
    requires IsRun(r) && PromptUntil(r, n)
    ensures Mirrored(r.state(n))
  {
    var good := (k: nat) => Mirrored(r.state(k));
    forall k: nat | 0 <= k < n ensures Kept(good, k) {
      assert !EarlyAt(r, k);
      MirroredAt(r, k);
    }
    InitMirrors();
    Always(good, 0, n);
  }

  // ---------------------------------------------------------------------------
  // Safety

  /** The action is a client's call that the holder takes. */
  predicate Takes(s: State, act: Action) { act.ClientCalls? && s.h.pc == HIdle && 1 <= |act.body| <= MAX_FRAME }

  /** The agent runs its handler on the body it has copied. */
  predicate Handles(s: State, act: Action) { act.AgentSteps? && s.a.pc == AServe }

  /** The holder has read a reply and frees its slot. */
  predicate Sends(s: State, act: Action) { act.HolderSteps? && s.h.pc == HStoreFree }

  /** The bodies clients called with, as far as the holder took them. */
  ghost function Called(r: Run, n: nat): seq<Bytes> {
    if n == 0 then []
    else if Takes(r.state(n - 1), r.act(n - 1)) then Called(r, n - 1) + [r.act(n - 1).body]
    else Called(r, n - 1)
  }

  /** The bodies the agent's handler took, with its answers. */
  ghost function Handled(r: Run, n: nat): seq<Served> {
    if n == 0 then []
    else if Handles(r.state(n - 1), r.act(n - 1)) then
      Handled(r, n - 1) + [Served(r.state(n - 1).a.body, r.act(n - 1).answer)]
    else Handled(r, n - 1)
  }

  /** The bytes the holder read before it freed a slot. */
  ghost function Sent(r: Run, n: nat): seq<Bytes> {
    if n == 0 then []
    else if Sends(r.state(n - 1), r.act(n - 1)) then Sent(r, n - 1) + [r.state(n - 1).h.out]
    else Sent(r, n - 1)
  }

  lemma StepLogs(s: State, act: Action, t: State)
    requires IsStep(s, act, t)
    ensures t.posted == if Takes(s, act) then s.posted + [act.body] else s.posted
    ensures t.served == if Handles(s, act) then s.served + [Served(s.a.body, act.answer)] else s.served
    ensures t.replies == if Sends(s, act) then s.replies + [s.h.out] else s.replies
  {
    match act
    case ClientCalls(_) =>
    case HolderSteps => HolderLogs(s, Wrap(s.hostSeq + 1));
    case AgentSteps(answer, chunk) => AgentLogs(s, answer, chunk);
  }

  lemma HolderLogs(s: State, number: nat)
    requires Sized(s)
    ensures var t := HolderStep(s, number);
            && t.posted == s.posted && t.served == s.served
            && t.replies == if s.h.pc == HStoreFree then s.replies + [s.h.out] else s.replies
  {
  }

  lemma AgentLogs(s: State, answer: Bytes, chunk: nat)
    requires Sized(s)
    ensures var t := AgentStep(s, answer, chunk);
            && t.posted == s.posted && t.replies == s.replies
            && t.served == if s.a.pc == AServe then s.served + [Served(s.a.body, answer)] else s.served
  {
  }

  /** The three logs are what the run's actions and the two processes' own buffers say
      they are. */
  lemma {:induction false} RunLogs(r: Run, n: nat)
    requires IsRun(r)
    ensures r.state(n).posted == Called(r, n) && r.state(n).served == Handled(r, n) && r.state(n).replies == Sent(r, n)
  {
    if n > 0 {
      RunLogs(r, n - 1);
      StepAt(r, n - 1);
      StepLogs(r.state(n - 1), r.act(n - 1), r.state(n));
    }
  }

  lemma MirrorsHistory(s: State, u: State)
    requires Mirrors(s, u)
    ensures s.posted == u.posted && s.served == u.served && s.replies == u.replies && History(s)
    ensures |s.posted| <= |s.replies| + 1
  {
  }

  /** In every run without an early poll, the agent's handler is run at most once on
      each body a client called with, in order, and the k-th bytes sent back are its
      answer to the k-th body, cut at 60 KiB. */
  lemma EveryReplyAnswersItsRequest(r: Run, n: nat)
    requires IsRun(r) && PromptUntil(r, n)
    ensures var called, handled, sent := Called(r, n), Handled(r, n), Sent(r, n);
            && |sent| <= |handled| <= |called| <= |sent| + 1
            && (forall k | 0 <= k < |handled| :: handled[k].body == called[k])
            && (forall k | 0 <= k < |sent| :: sent[k] == Cut(handled[k].answer))
  {
    RunLogs(r, n);
    RunIsCounted(r, n);
    var u :| Mirrors(r.state(n), u);
    MirrorsHistory(r.state(n), u);
  }

  lemma IdleMeansServed(s: State, u: State, i: nat)
    requires Mirrors(s, u) && i < SLOTS && s.a.pc == AIdle && s.a.lastSeen == s.hostSeq
    ensures |s.slots| == SLOTS
    ensures s.slots[i].status == Busy ==> s.h.pc == HRing && i == s.h.i && s.slots[i].seqNo == Wrap(s.a.lastSeen + 1)
  {
    WrapClose(u.a.lastSeen, u.hostSeq);
    WrapNext(u.hostSeq);
    if u.slots[i].status == Busy { assert i == u.h.i && Live(u.h.pc); }
  }

  /** No doorbell is lost: between scans with nothing new to see, the only slot
      that can be waiting is one the holder has yet to ring for. */
  lemma NoDoorbellLost(r: Run, n: nat, i: nat)
    requires IsRun(r) && PromptUntil(r, n) && i < SLOTS
    requires r.state(n).a.pc == AIdle && r.state(n).a.lastSeen == r.state(n).hostSeq
    ensures var s := r.state(n);
            && |s.slots| == SLOTS
            && (s.slots[i].status == Busy ==>
                  s.h.pc == HRing && i == s.h.i && s.slots[i].seqNo == Wrap(s.a.lastSeen + 1))
  {
    RunIsCounted(r, n);
    var u :| Mirrors(r.state(n), u);
    IdleMeansServed(r.state(n), u, i);
  }

  lemma PollOf(s: State, u: State)
    requires Mirrors(s, u) && s.h.pc == HWait
    ensures |s.posted| == |s.replies| + 1 && s.h.q == |s.posted| % U32
    ensures s.guestSeq == s.h.q <==> u.guestSeq >= u.h.q
    ensures s.guestSeq != s.h.q ==> s.guestSeq == |s.replies| % U32
  {
    OneBehind(u);
    WrapNext(|u.replies|);
  }

  /** When the holder polls before the agent has rung, it goes on if and only if
      the number of its request is a multiple of 2^32. */
  lemma PollsEarlyIff(r: Run, n: nat)
    requires IsRun(r) && PromptUntil(r, n) && r.state(n).h.pc == HWait && r.state(n).guestSeq != r.state(n).h.q
    ensures var s := r.state(n);
            && (HolderPolls(s).h.pc == HReadLen <==> |Called(r, n)| % U32 == 0)
            && (EarlyPoll(s, HolderSteps) <==> |Called(r, n)| % U32 == 0)
  {
    RunLogs(r, n);
    RunIsCounted(r, n);
    var u :| Mirrors(r.state(n), u);
    PollsEarly(r.state(n), u);
  }

  lemma PollsEarly(s: State, u: State)
    requires Mirrors(s, u) && s.h.pc == HWait && s.guestSeq != s.h.q
    ensures HolderPolls(s).h.pc == HReadLen <==> |s.posted| % U32 == 0
    ensures EarlyPoll(s, HolderSteps) <==> |s.posted| % U32 == 0
  {
    PollOf(s, u);
    WrapNext(|s.replies|);
  }

  lemma StepPosts(s: State, act: Action, t: State)
    requires IsStep(s, act, t)
    ensures s.posted <= t.posted
  {
  }

  lemma FewIsPrompt(s: State, u: State, act: Action)
    requires Mirrors(s, u) && |s.posted| < U32
    ensures !EarlyPoll(s, act)
  {
    if s.h.pc == HWait { PollOf(s, u); }
  }

  lemma FewAt(r: Run, k: nat)
    requires IsRun(r) && PromptUntil(r, k) && |r.state(k).posted| < U32
    ensures !EarlyAt(r, k)
  {
    RunIsCounted(r, k);
    var u :| Mirrors(r.state(k), u);
    FewIsPrompt(r.state(k), u, r.act(k));
  }

  lemma PostsAt(r: Run, k: nat)
    requires IsRun(r)
    ensures r.state(k).posted <= r.state(k + 1).posted
  {
    StepAt(r, k);
    StepPosts(r.state(k), r.act(k), r.state(k + 1));
  }

  lemma {:induction false} FewPosts(r: Run, n: nat)
    requires IsRun(r) && |r.state(n).posted| < U32
    ensures PromptUntil(r, n)
  {
    if n > 0 {
      PostsAt(r, n - 1);
      FewPosts(r, n - 1);
      FewAt(r, n - 1);
    }
  }

  /** With fewer than 2^32 calls no poll is early. */
  lemma FewRequestsArePrompt(r: Run, n: nat)
    requires IsRun(r) && |Called(r, n)| < U32
    ensures PromptUntil(r, n)
  {
    RunLogs(r, n);
    FewPosts(r, n);
  }

  // ---------------------------------------------------------------------------
  // Progress

  /** The step that brings the reply nearer: the agent's while the holder waits for
      it, the holder's otherwise. */
  predicate Helps(u: State, act: Action) {
    if u.h.pc == HWait && u.guestSeq < u.h.q then act.AgentSteps? else act.HolderSteps?
  }

  /** One step of the code towards the reply, or past it. */
  lemma Advance(s: State, u: State, act: Action, t: State) returns (v: State)
    requires Mirrors(s, u) && IsStep(s, act, t) && u.h.pc != HIdle && |u.posted| % U32 != 0
    ensures Mirrors(t, v) && v.posted == u.posted
    ensures v.h.pc == HIdle || Rank(v) < Rank(u) || (Rank(v) == Rank(u) && !Helps(u, act))
    ensures v.h.pc != HIdle && Rank(v) == Rank(u) ==> forall a :: Helps(v, a) == Helps(u, a)
  {
    if s.h.pc == HWait { PollOf(s, u); }
    CountKeepsInv(u, act);
    CountKeepsLag(u, act);
    NextFollows(u, act);
    v := Count(u, act);
    CountAdvances(u, act);
  }

  lemma CountAdvances(u: State, act: Action)
    requires Inv(u) && u.h.pc != HIdle && Sized(Count(u, act))
    ensures var v := Count(u, act);
            && v.posted == u.posted
            && (v.h.pc == HIdle || Rank(v) < Rank(u) || (Rank(v) == Rank(u) && !Helps(u, act)))
            && (v.h.pc != HIdle && Rank(v) == Rank(u) ==> forall a :: Helps(v, a) == Helps(u, a))
  {
    match act
    case ClientCalls(_) =>
    case HolderSteps =>
      if u.h.pc == HWait && u.guestSeq < u.h.q {
        assert Count(u, act) == u;
      } else {
        HolderMakesProgress(u);
      }
    case AgentSteps(answer, chunk) =>
      AgentLeavesHolder(u, answer, chunk);
      if u.h.pc == HWait && u.guestSeq < u.h.q {
        AgentMakesProgress(u, answer, chunk);
      } else {
        AgentKeepsRank(u, answer, chunk);
      }
  }

  /** From step `m` on, some step that helps the request of `u` is taken. */
  ghost predicate HelpComes(r: Run, m: nat, u: State) { exists k: nat :: k >= m && Helps(u, r.act(k)) }

  /** Whatever is pending, help comes. */
  ghost predicate HelpAlwaysComes(r: Run) {
    forall m: nat, u | NeedsHelp(r, m, u) :: HelpComes(r, m, u)
  }

  ghost predicate NeedsHelp(r: Run, m: nat, u: State) {
    Mirrors(r.state(m), u) && u.h.pc != HIdle && |u.posted| % U32 != 0
  }

  /** Both processes keep running. */
  ghost predicate Fair(r: Run) { forall n: nat :: HolderRuns(r, n) && AgentRuns(r, n) }

  ghost predicate HolderRuns(r: Run, n: nat) { exists k: nat :: k >= n && r.act(k).HolderSteps? }

  ghost predicate AgentRuns(r: Run, n: nat) { exists k: nat :: k >= n && r.act(k).AgentSteps? }

  lemma FairHelps(r: Run)
    requires Fair(r)
    ensures HelpAlwaysComes(r)
  {
    forall m: nat, u | NeedsHelp(r, m, u)
      ensures HelpComes(r, m, u)
    {
      assert HolderRuns(r, m) && AgentRuns(r, m);
      var h: nat :| h >= m && r.act(h).HolderSteps?;
      var a: nat :| a >= m && r.act(a).AgentSteps?;
      assert Helps(u, r.act(h)) || Helps(u, r.act(a));
    }
  }

  lemma AdvanceAt(r: Run, n: nat, u: State) returns (v: State)
    requires IsRun(r) && Mirrors(r.state(n), u) && u.h.pc != HIdle && |u.posted| % U32 != 0
    ensures Mirrors(r.state(n + 1), v) && v.posted == u.posted
    ensures v.h.pc == HIdle || Rank(v) < Rank(u) || (Rank(v) == Rank(u) && !Helps(u, r.act(n)))
    ensures v.h.pc != HIdle && Rank(v) == Rank(u) ==> forall a :: Helps(v, a) == Helps(u, a)
  {
    StepAt(r, n);
    v := Advance(r.state(n), u, r.act(n), r.state(n + 1));
  }

  /** The request is not replied to yet, `rank` steps are left, and one of them is
      due at step `k`. */
  ghost predicate Pending(r: Run, p: seq<Bytes>, n: nat, rank: nat, k: nat) {
    exists u :: PendingBy(r, p, n, rank, k, u)
  }

  ghost predicate PendingBy(r: Run, p: seq<Bytes>, n: nat, rank: nat, k: nat, u: State) {
    NeedsHelp(r, n, u) && u.posted == p && Rank(u) == rank && k >= n && Helps(u, r.act(k))
  }

  ghost predicate Replied(r: Run, p: seq<Bytes>, n: nat) {
    && r.state(n).h.pc == HIdle && r.state(n).posted == p && |r.state(n).replies| == |p|
    && Mirrored(r.state(n))
  }

  ghost function PendingIn(r: Run, p: seq<Bytes>): (nat, nat, nat) -> bool {
    (n: nat, rank: nat, k: nat) => Pending(r, p, n, rank, k)
  }

  ghost function RepliedIn(r: Run, p: seq<Bytes>): nat -> bool { (n: nat) => Replied(r, p, n) }

  lemma IdleIsReplied(r: Run, n: nat, u: State)
    requires Mirrors(r.state(n), u) && u.h.pc == HIdle
    ensures Replied(r, u.posted, n)
  {
  }

  lemma StartsPending(r: Run, n: nat, u: State) returns (rank: nat, k: nat)
    requires HelpAlwaysComes(r) && Mirrors(r.state(n), u) && u.h.pc != HIdle && |u.posted| % U32 != 0
    ensures Pending(r, u.posted, n, rank, k) && rank == Rank(u)
  {
    assert NeedsHelp(r, n, u) && HelpComes(r, n, u);
    k :| k >= n && Helps(u, r.act(k));
    rank := Rank(u);
    assert PendingBy(r, u.posted, n, rank, k, u);
  }

  lemma PendingMoves(r: Run, p: seq<Bytes>, n: nat, rank: nat, k: nat)
    requires IsRun(r) && HelpAlwaysComes(r) && Pending(r, p, n, rank, k)
    ensures Moves(PendingIn(r, p), RepliedIn(r, p), n, rank, k)
  {
    var u :| PendingBy(r, p, n, rank, k, u);
    var pending := PendingIn(r, p);
    var v := AdvanceAt(r, n, u);
    if v.h.pc == HIdle {
      IdleIsReplied(r, n + 1, v);
    } else if Rank(v) < Rank(u) {
      var l, j := StartsPending(r, n + 1, v);
      assert Nearer(pending, n, rank, k, l, j);
    } else {
      StaysPending(r, p, n, rank, k, u, v);
      assert Nearer(pending, n, rank, k, rank, k);
    }
  }

  lemma StaysPending(r: Run, p: seq<Bytes>, n: nat, rank: nat, k: nat, u: State, v: State)
    requires PendingBy(r, p, n, rank, k, u) && !Helps(u, r.act(n)) && (forall a :: Helps(v, a) == Helps(u, a))
    requires Mirrors(r.state(n + 1), v) && v.h.pc != HIdle && v.posted == u.posted && Rank(v) == Rank(u)
    ensures Pending(r, p, n + 1, rank, k) && k > n
  {
    assert PendingBy(r, p, n + 1, rank, k, v);
  }

  lemma PendingIsReplied(r: Run, n: nat) returns (m: nat)
    requires IsRun(r) && HelpAlwaysComes(r) && PromptUntil(r, n)
    requires r.state(n).h.pc != HIdle && |r.state(n).posted| % U32 != 0
    ensures m >= n && Replied(r, r.state(n).posted, m)
  {
    RunIsCounted(r, n);
    var u :| Mirrors(r.state(n), u);
    var p := u.posted;
    var rank, k := StartsPending(r, n, u);
    var pending, done := PendingIn(r, p), RepliedIn(r, p);
    forall i: nat, l: nat, j: nat | pending(i, l, j) ensures Moves(pending, done, i, l, j) {
      PendingMoves(r, p, i, l, j);
    }
    m := Descend(pending, done, n, rank, k);
  }

  lemma TakenCall(r: Run, n: nat)
    requires IsRun(r) && PromptUntil(r, n) && Takes(r.state(n), r.act(n))
    ensures r.state(n + 1).h.pc != HIdle && r.state(n + 1).posted == Called(r, n) + [r.act(n).body]
    ensures PromptUntil(r, n + 1)
  {
    StepAt(r, n);
    RunLogs(r, n);
    assert !EarlyAt(r, n);
  }

  lemma RepliedMeans(r: Run, m: nat, p: seq<Bytes>)
    requires IsRun(r) && Replied(r, p, m) && p != []
    ensures Called(r, m) == p && |Sent(r, m)| == |Handled(r, m)| == |p|
    ensures var k := |p| - 1; Handled(r, m)[k].body == p[k] && Sent(r, m)[k] == Cut(Handled(r, m)[k].answer)
  {
    RunLogs(r, m);
    var u :| Mirrors(r.state(m), u);
    MirrorsHistory(r.state(m), u);
  }

  /** In every run in which both processes keep running, whatever the order of their
      steps, the answers and the sizes of the agent's reads, a client's call whose
      number is not a multiple of 2^32 is sent the handler's answer to its body, and
      the holder is ready for the next one. */
  lemma EveryRequestIsReplied(r: Run, n: nat) returns (m: nat)
    requires IsRun(r) && Fair(r) && PromptUntil(r, n) && Takes(r.state(n), r.act(n))
    requires (|Called(r, n)| + 1) % U32 != 0
    ensures m > n && r.state(m).h.pc == HIdle && Called(r, m) == Called(r, n) + [r.act(n).body]
    ensures var k := |Called(r, n)|;
            && |Sent(r, m)| == |Handled(r, m)| == k + 1
            && Handled(r, m)[k].body == r.act(n).body && Sent(r, m)[k] == Cut(Handled(r, m)[k].answer)
  {
    TakenCall(r, n);
    FairHelps(r);
    m := PendingIsReplied(r, n + 1);
    RepliedMeans(r, m, r.state(n + 1).posted);
  }

  // ---------------------------------------------------------------------------
  // The first early poll

  /** A scheduler that posts one request after another and is patient with all of
      them except those whose number is a multiple of 2^32. */
  function Impatient(s: State): Action {
    if s.h.pc == HIdle then ClientCalls([0])
    else if s.h.pc == HWait && s.guestSeq != s.h.q && |s.posted| % U32 != 0 then AgentSteps([], 0)
    else HolderSteps
  }

  function Driven(s: State): State { if Sized(s) then Next(s, Impatient(s)) else s }

  lemma DrivenSteps(s: State)
    requires Sized(s)
    ensures Sized(Driven(s)) && IsStep(s, Impatient(s), Driven(s))
  {
    TurnKeepsSized(s, Impatient(s), Wrap(s.hostSeq + 1));
  }

  ghost predicate DrivenBy(f: State -> State, s: State) { Sized(s) ==> Sized(f(s)) && IsStep(s, Impatient(s), f(s)) }

  lemma {:induction false} IterateSized(f: State -> State, n: nat)
    requires forall s :: DrivenBy(f, s)
    ensures Sized(Iterate(f, Init(), n))
  {
    if n > 0 {
      IterateSized(f, n - 1);
      assert DrivenBy(f, Iterate(f, Init(), n - 1));
    }
  }

  ghost predicate ImpatientAt(r: Run, n: nat) { r.act(n) == Impatient(r.state(n)) }

  /** A run under that scheduler. */
  ghost predicate IsImpatient(r: Run) { IsRun(r) && forall n: nat :: ImpatientAt(r, n) }

  lemma IteratedRun(f: State -> State) returns (r: Run)
    requires forall s :: DrivenBy(f, s)
    ensures IsImpatient(r)
  {
    r := Common.Run((n: nat) => Iterate(f, Init(), n), (n: nat) => Impatient(Iterate(f, Init(), n)));
    forall n: nat ensures Stepped(IsStep, r, n) && ImpatientAt(r, n) {
      IterateSized(f, n);
      assert DrivenBy(f, Iterate(f, Init(), n));
    }
  }

  lemma ImpatientRunExists() returns (r: Run)
    ensures IsImpatient(r)
  {
    var f := (s: State) => Driven(s);
    forall s ensures DrivenBy(f, s) {
      if Sized(s) { DrivenSteps(s); }
    }
    r := IteratedRun(f);
  }

  lemma ImpatientHelps(s: State, u: State)
    requires Mirrors(s, u) && u.h.pc != HIdle && |u.posted| % U32 != 0
    ensures Helps(u, Impatient(s))
  {
    if s.h.pc == HWait { PollOf(s, u); }
  }

  lemma ImpatientAlwaysHelps(r: Run)
    requires IsImpatient(r)
    ensures HelpAlwaysComes(r)
  {
    forall m: nat, u | NeedsHelp(r, m, u) ensures HelpComes(r, m, u) {
      assert ImpatientAt(r, m);
      ImpatientHelps(r.state(m), u);
      assert Helps(u, r.act(m));
    }
  }

  lemma CallPosts(s: State, u: State, t: State)
    requires Mirrors(s, u) && s.h.pc == HIdle && IsStep(s, ClientCalls([0]), t)
    ensures t.h.pc == HScan && |t.posted| == |s.posted| + 1
    ensures |t.served| == |t.replies| == |s.posted|
  {
  }

  lemma CallAt(r: Run, n: nat)
    requires IsImpatient(r) && PromptUntil(r, n) && r.state(n).h.pc == HIdle
    ensures var s, t := r.state(n), r.state(n + 1);
            && t.h.pc == HScan && |t.posted| == |s.posted| + 1
            && |t.served| == |t.replies| == |s.posted|
    ensures PromptUntil(r, n + 1)
  {
    StepAt(r, n);
    assert ImpatientAt(r, n);
    RunIsCounted(r, n);
    var u :| Mirrors(r.state(n), u);
    CallPosts(r.state(n), u, r.state(n + 1));
    IdleIsNotEarly(r.state(n), r.act(n));
    assert !EarlyAt(r, n);
  }

  /** Every number of requests below 2^32 is reached, with all of them replied to. */
  lemma {:induction false} ManyRequests(r: Run, count: nat) returns (n: nat)
    requires IsImpatient(r) && HelpAlwaysComes(r) && count < U32
    ensures PromptUntil(r, n) && r.state(n).h.pc == HIdle && |r.state(n).posted| == count
  {
    if count == 0 {
      n := 0;
    } else {
      var m := ManyRequests(r, count - 1);
      CallAt(r, m);
      n := PendingIsReplied(r, m + 1);
      FewPosts(r, n);
    }
  }

  /** The holder alone, from taking a request to waiting for it. */
  ghost predicate Posting(u: State) {
    u.h.pc != HIdle && !Rung(u.h.pc) && |u.served| == |u.replies|
  }

  ghost predicate Unanswered(u: State) {
    u.h.pc == HWait && |u.served| == |u.replies| && u.guestSeq < u.h.q
  }

  lemma PostingStep(s: State, u: State, t: State) returns (v: State)
    requires Mirrors(s, u) && Posting(u) && IsStep(s, HolderSteps, t)
    ensures Mirrors(t, v) && v.posted == u.posted && Rank(v) < Rank(u) && (Posting(v) || Unanswered(v))
  {
    CountKeepsInv(u, HolderSteps);
    CountKeepsLag(u, HolderSteps);
    NextFollows(u, HolderSteps);
    PostingMakesProgress(u);
    HolderLeavesAgent(u, u.hostSeq + 1);
    v := Count(u, HolderSteps);
    PostingGoesOn(u);
    if v.h.pc == HWait { UnansweredWaits(v); }
  }

  lemma PostingGoesOn(u: State)
    requires Inv(u) && Posting(u)
    ensures var v := HolderStep(u, u.hostSeq + 1);
            v.h.pc != HIdle && !Draining(v.h.pc) && v.replies == u.replies
  {
  }

  lemma UnansweredWaits(u: State)
    requires Inv(u) && u.h.pc == HWait && |u.served| == |u.replies|
    ensures u.guestSeq < u.h.q
  {
  }

  lemma PostingAt(r: Run, n: nat, u: State) returns (v: State)
    requires IsImpatient(r) && Mirrors(r.state(n), u) && Posting(u)
    ensures Mirrors(r.state(n + 1), v) && v.posted == u.posted && Rank(v) < Rank(u)
    ensures Posting(v) || Unanswered(v)
    ensures !EarlyAt(r, n)
  {
    StepAt(r, n);
    assert ImpatientAt(r, n);
    v := PostingStep(r.state(n), u, r.state(n + 1));
  }

  lemma {:induction false} PostingEnds(r: Run, n: nat, u: State) returns (m: nat, v: State)
    requires IsImpatient(r) && PromptUntil(r, n) && Mirrors(r.state(n), u) && Posting(u)
    ensures PromptUntil(r, m) && Mirrors(r.state(m), v) && v.posted == u.posted && Unanswered(v)
    decreases Rank(u)
  {
    v := PostingAt(r, n, u);
    if Posting(v) {
      m, v := PostingEnds(r, n + 1, v);
    } else {
      m := n + 1;
    }
  }

  lemma UnansweredIsEarly(s: State, u: State)
    requires Mirrors(s, u) && Unanswered(u) && |u.posted| == U32
    ensures EarlyPoll(s, Impatient(s)) && s.guestSeq == U32 - 1 && |s.served| < |s.posted|
  {
    PollOf(s, u);
  }

  lemma CallIsPosting(s: State, u: State)
    requires Mirrors(s, u) && s.h.pc == HScan && |s.served| == |s.replies|
    ensures Posting(u)
  {
  }

  /** Some run comes, without an early poll before, to a poll for its 2^32-nd
      request that goes on although the agent has not answered it: the bound of
      FewRequestsArePrompt is exact. */
  lemma FirstEarlyWake() returns (r: Run, n: nat)
    ensures IsRun(r) && PromptUntil(r, n) && EarlyAt(r, n)
    ensures |Called(r, n)| == U32 && |Handled(r, n)| < U32
    ensures HolderPolls(r.state(n)).h.pc == HReadLen && r.state(n).guestSeq == U32 - 1
  {
    r := ImpatientRunExists();
    ImpatientAlwaysHelps(r);
    var m := ManyRequests(r, U32 - 1);
    var u := LastCall(r, m);
    var v;
    n, v := PostingEnds(r, m + 1, u);
    EarlyThere(r, n, v);
    RunLogs(r, n);
  }

  lemma LastCall(r: Run, m: nat) returns (u: State)
    requires IsImpatient(r) && PromptUntil(r, m) && r.state(m).h.pc == HIdle
    ensures PromptUntil(r, m + 1) && Mirrors(r.state(m + 1), u) && Posting(u) && |u.posted| == |r.state(m).posted| + 1
  {
    CallAt(r, m);
    RunIsCounted(r, m + 1);
    u :| Mirrors(r.state(m + 1), u);
    CallIsPosting(r.state(m + 1), u);
  }

  lemma EarlyThere(r: Run, n: nat, v: State)
    requires IsImpatient(r) && Mirrors(r.state(n), v) && Unanswered(v) && |v.posted| == U32
    ensures EarlyAt(r, n) && |r.state(n).posted| == U32 && |r.state(n).served| < U32
    ensures HolderPolls(r.state(n)).h.pc == HReadLen && r.state(n).guestSeq == U32 - 1
  {
    assert ImpatientAt(r, n);
    UnansweredIsEarly(r.state(n), v);
  }

  lemma IdleIsNotEarly(s: State, act: Action)
    requires s.h.pc == HIdle
    ensures !EarlyPoll(s, act)
  {
  }

  // ---------------------------------------------------------------------------
  // After an early poll

  /** The holder's number is a word, and the agent's bell shows the largest one. */
  ghost predicate Deaf(s: State) { Sized(s) && s.h.q < U32 && s.guestSeq == U32 - 1 }

  lemma DeafStep(s: State, act: Action, t: State)
    requires Deaf(s) && IsStep(s, act, t) && !(act.AgentSteps? && s.a.pc == ARing)
    ensures Deaf(t)
  {
    TurnKeepsSized(s, act, Wrap(s.hostSeq + 1));
    match act
    case ClientCalls(_) =>
    case HolderSteps =>
      HolderLeavesAgent(s, Wrap(s.hostSeq + 1));
      HolderNumbers(s, Wrap(s.hostSeq + 1));
    case AgentSteps(answer, chunk) =>
      AgentLeavesHolder(s, answer, chunk);
      QuietBell(s, answer, chunk);
  }

  lemma HolderNumbers(s: State, number: nat)
    requires Sized(s)
    ensures HolderStep(s, number).h.q == s.h.q || HolderStep(s, number).h.q == number
  {
  }

  lemma QuietBell(s: State, answer: Bytes, chunk: nat)
    requires Sized(s) && s.a.pc != ARing
    ensures AgentStep(s, answer, chunk).guestSeq == s.guestSeq
  {
  }

  ghost predicate RingsAt(r: Run, k: nat) { r.act(k).AgentSteps? && r.state(k).a.pc == ARing }

  lemma DeafAt(r: Run, k: nat)
    requires IsRun(r) && !RingsAt(r, k)
    ensures Deaf(r.state(k)) ==> Deaf(r.state(k + 1))
  {
    StepAt(r, k);
    if Deaf(r.state(k)) { DeafStep(r.state(k), r.act(k), r.state(k + 1)); }
  }

  lemma EarlyIsDeaf(r: Run, n: nat)
    requires IsRun(r) && PromptUntil(r, n) && EarlyAt(r, n)
    ensures Deaf(r.state(n))
  {
    RunIsCounted(r, n);
    var u :| Mirrors(r.state(n), u);
    EarlyMeansDeaf(r.state(n), u);
  }

  lemma EarlyMeansDeaf(s: State, u: State)
    requires Mirrors(s, u) && s.h.pc == HWait && s.h.q == 0 && s.guestSeq != 0
    ensures Deaf(s)
  {
    PollOf(s, u);
    WrapNext(|s.replies|);
  }

  /** From the first early poll until the agent rings again no request waits:
      whatever its number, its first poll goes on. */
  lemma NoRingNoWait(r: Run, n: nat, m: nat)
    requires IsRun(r) && PromptUntil(r, n) && EarlyAt(r, n)
    requires n <= m && forall k: nat | n <= k < m :: !RingsAt(r, k)
    ensures r.state(m).h.pc == HWait ==> HolderPolls(r.state(m)).h.pc == HReadLen
  {
    var good := (k: nat) => Deaf(r.state(k));
    EarlyIsDeaf(r, n);
    forall k: nat | n <= k < m ensures Kept(good, k) {
      assert !RingsAt(r, k);
      DeafAt(r, k);
    }
    Always(good, n, m);
  }

  /** From reply `base` on, every reply is the body of its own request. */
  ghost predicate Echo(s: State, base: nat) {
    && base <= |s.replies| && |s.posted| == |s.replies| + (if s.h.pc == HIdle then 0 else 1)
    && (forall k | base <= k < |s.replies| :: s.replies[k] == s.posted[k])
    && (s.h.pc != HIdle ==> s.h.body == s.posted[|s.replies|])
  }

  /** What the holder's slot and its buffer hold meanwhile. */
  ghost predicate EchoSlot(h: Holder, sl: Slot) {
    var b := h.body;
    && |b| <= |sl.pay|
    && match h.pc
       case HIdle => true
       case HScan => true
       case HReadSeq => true
       case HCopy => h.j <= |b| && sl.pay[..h.j] == b[..h.j]
       case HStoreLen => sl.pay[..|b|] == b
       case HReply => sl.pay[..|b|] == b && h.respLen == |b| && h.out <= b
       case HStoreFree => h.out == b
       case _ => sl.pay[..|b|] == b && sl.len == |b|
  }

  ghost predicate Echoing(s: State, base: nat) { Deaf(s) && Echo(s, base) && EchoSlot(s.h, s.slots[s.h.i]) }

  lemma EchoSlotStep(s: State, number: nat)
    requires Sized(s) && EchoSlot(s.h, s.slots[s.h.i]) && (s.h.pc == HWait ==> s.guestSeq >= s.h.q)
    ensures var t := HolderStep(s, number); Sized(t) && EchoSlot(t.h, t.slots[t.h.i])
  {
    HolderKeepsSized(s, number);
    var h, sl := s.h, s.slots[s.h.i];
    if h.pc == HCopy && h.j < |h.body| {
      CopyExtends(sl.pay, h.body, h.j);
    } else if h.pc == HReply && |h.out| < h.respLen {
      assert sl.pay[|h.out|] == sl.pay[..|h.body|][|h.out|];
    }
  }

  lemma CopyExtends(pay: Bytes, body: Bytes, j: nat)
    requires j < |body| <= |pay| && pay[..j] == body[..j]
    ensures pay[j := body[j]][..j + 1] == body[..j + 1]
  {
    assert body[..j + 1] == body[..j] + [body[j]];
  }

  lemma EchoStep(s: State, base: nat, act: Action, t: State)
    requires Echoing(s, base) && IsStep(s, act, t) && !act.AgentSteps?
    ensures Echoing(t, base)
  {
    DeafStep(s, act, t);
    if act.HolderSteps? {
      EchoSlotStep(s, Wrap(s.hostSeq + 1));
      EchoHistory(s, base, Wrap(s.hostSeq + 1));
    }
  }

  lemma EchoHistory(s: State, base: nat, number: nat)
    requires Sized(s) && Echo(s, base) && (s.h.pc == HStoreFree ==> s.h.out == s.h.body)
    ensures Echo(HolderStep(s, number), base)
  {
  }

  lemma EchoAt(r: Run, base: nat, k: nat)
    requires IsRun(r) && !r.act(k).AgentSteps?
    ensures Echoing(r.state(k), base) ==> Echoing(r.state(k + 1), base)
  {
    StepAt(r, k);
    if Echoing(r.state(k), base) { EchoStep(r.state(k), base, r.act(k), r.state(k + 1)); }
  }

  lemma EchoStarts(s: State, u: State)
    requires Mirrors(s, u) && EarlyPoll(s, HolderSteps) && |s.served| == |s.replies|
    ensures Echoing(s, |s.replies|)
  {
    PollOf(s, u);
    assert Waiting(u);
  }

  /** Until the agent takes a step again, the request of the first early poll and
      every one after it gets its own body back for a reply, if the agent had not
      begun to answer it. */
  lemma EarlyWakeEchoes(r: Run, n: nat, m: nat)
    requires IsRun(r) && PromptUntil(r, n) && EarlyAt(r, n) && |Handled(r, n)| == |Sent(r, n)|
    requires n <= m && forall k: nat | n <= k < m :: !r.act(k).AgentSteps?
    ensures |Sent(r, n)| <= |Sent(r, m)| <= |Called(r, m)|
    ensures forall k | |Sent(r, n)| <= k < |Sent(r, m)| :: Sent(r, m)[k] == Called(r, m)[k]
  {
    RunLogs(r, n);
    RunLogs(r, m);
    RunIsCounted(r, n);
    var u :| Mirrors(r.state(n), u);
    EchoStarts(r.state(n), u);
    var base := |r.state(n).replies|;
    var good := (k: nat) => Echoing(r.state(k), base);
    forall k: nat | n <= k < m ensures Kept(good, k) {
      EchoAt(r, base, k);
    }
    Always(good, n, m);
  }
}
