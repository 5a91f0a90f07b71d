/** The request ring between the holder (host) and the agent (guest): eight slots
    in shared memory, two doorbell words, and two processes whose loads and
    stores interleave arbitrarily.  Every load or store of a shared word or
    payload byte is one step; the agent's capture of an answer stores one
    arbitrary chunk at a time. */
module RequestRing {
  import opened Common

  const SLOTS: nat := 8
  const MAX_FRAME: nat := 60 * 1024

  type Bytes = seq<Byte>

  /** What fits of an answer in a slot. */
  function Cut(answer: Bytes): Bytes { answer[..Min(|answer|, MAX_FRAME)] }

  datatype Status = Free | Busy | Done
  datatype Slot = Slot(status: Status, len: nat, seqNo: nat, pay: Bytes)

  /** Where the holder's serve loop is: the name of its next load or store. */
  datatype HolderPc =
    | HIdle | HScan | HReadSeq | HCopy | HStoreLen | HStoreSeq | HStoreBusy | HRing
    | HWait | HReadLen | HReply | HStoreFree

  datatype Holder = Holder(pc: HolderPc, body: Bytes, i: nat, q: nat, j: nat, respLen: nat, out: Bytes)

  /** Where the agent's ring loop is. */
  datatype AgentPc =
    | AIdle | AScan | AReadLen | AReadSeq | ACopy | AServe | AWrite | AStoreLen | AStoreDone | ARing

  datatype Agent = Agent(pc: AgentPc, lastSeen: nat, hs: nat, i: nat, len: nat, q: nat,
                         body: Bytes, answer: Bytes, got: nat)

  datatype Served = Served(body: Bytes, answer: Bytes)

  /** `posted`, `served` and `replies` are the request bodies taken so far, the
      requests the agent has answered so far, and the replies sent so far. */
  datatype State = State(slots: seq<Slot>, hostSeq: nat, guestSeq: nat, h: Holder, a: Agent,
                         posted: seq<Bytes>, served: seq<Served>, replies: seq<Bytes>)

  /** A schedule entry: a client hands the holder a body, the holder takes its
      next step, or the agent does.  `answer` is what the agent's handler would
      say to the request at hand, `chunk` how much its next read returns. */
  datatype Action = ClientCalls(body: Bytes) | HolderSteps | AgentSteps(answer: Bytes, chunk: nat)

  function Init(): State {
    State(seq(SLOTS, _ => Slot(Free, 0, 0, seq(MAX_FRAME, _ => 0))), 0, 0,
          Holder(HIdle, [], 0, 0, 0, 0, []), Agent(AIdle, 0, 0, 0, 0, 0, [], [], 0), [], [], [])
  }

  /** Sizes that make every step's memory access fall inside the slot area. */
  predicate Sized(s: State) {
    && |s.slots| == SLOTS
    && (forall i | 0 <= i < SLOTS :: |s.slots[i].pay| == MAX_FRAME && s.slots[i].len <= MAX_FRAME)
    && s.h.i < SLOTS && s.a.i <= SLOTS
    && |s.h.body| <= MAX_FRAME && s.h.respLen <= MAX_FRAME
    && s.a.len <= MAX_FRAME && s.a.got <= Min(|s.a.answer|, MAX_FRAME)
    && (Serving(s.a.pc) ==> s.a.i < SLOTS)
  }

  predicate Serving(pc: AgentPc) { pc != AIdle && pc != AScan }

  function Store(s: State, i: nat, sl: Slot): State
    requires i < |s.slots|
  {
    s.(slots := s.slots[i := sl])
  }

  /** The holder refuses an empty or oversized body without touching the ring. */
  function ClientCall(s: State, body: Bytes): State {
    if s.h.pc == HIdle && 1 <= |body| <= MAX_FRAME then
      s.(h := Holder(HScan, body, 0, 0, 0, 0, []), posted := s.posted + [body])
    else s
  }

  // The holder's steps, one per program point

  function HolderScans(s: State): State
    requires Sized(s)
  {
    var h := s.h;
    s.(h := if s.slots[h.i].status == Free then h.(pc := HReadSeq)
            else h.(i := if h.i + 1 < SLOTS then h.i + 1 else 0))
  }

  /** `number` is what the holder makes of the host word it loads. */
  function HolderReadsSeq(s: State, number: nat): State {
    s.(h := s.h.(pc := HCopy, q := number, j := 0))
  }

  function HolderCopies(s: State): State
    requires Sized(s)
  {
    var h, sl := s.h, s.slots[s.h.i];
    if h.j < |h.body| then Store(s, h.i, sl.(pay := sl.pay[h.j := h.body[h.j]])).(h := h.(j := h.j + 1))
    else s.(h := h.(pc := HStoreLen))
  }

  function HolderStoresLen(s: State): State
    requires Sized(s)
  {
    Store(s, s.h.i, s.slots[s.h.i].(len := |s.h.body|)).(h := s.h.(pc := HStoreSeq))
  }

  function HolderStoresSeq(s: State): State
    requires Sized(s)
  {
    Store(s, s.h.i, s.slots[s.h.i].(seqNo := s.h.q)).(h := s.h.(pc := HStoreBusy))
  }

  function HolderStoresBusy(s: State): State
    requires Sized(s)
  {
    Store(s, s.h.i, s.slots[s.h.i].(status := Busy)).(h := s.h.(pc := HRing))
  }

  function HolderRings(s: State): State { s.(hostSeq := s.h.q, h := s.h.(pc := HWait)) }

  function HolderPolls(s: State): State {
    if s.guestSeq >= s.h.q then s.(h := s.h.(pc := HReadLen)) else s
  }

  function HolderReadsLen(s: State): State
    requires Sized(s)
  {
    s.(h := s.h.(pc := HReply, respLen := Min(s.slots[s.h.i].len, MAX_FRAME), out := []))
  }

  function HolderReadsReply(s: State): State
    requires Sized(s)
  {
    var h, sl := s.h, s.slots[s.h.i];
    if |h.out| < h.respLen then s.(h := h.(out := h.out + [sl.pay[|h.out|]]))
    else s.(h := h.(pc := HStoreFree))
  }

  function HolderFrees(s: State): State
    requires Sized(s)
  {
    Store(s, s.h.i, s.slots[s.h.i].(status := Free)).(h := s.h.(pc := HIdle), replies := s.replies + [s.h.out])
  }

  /** The holder's next load or store. */
  function HolderStep(s: State, number: nat): State
    requires Sized(s)
  {
    match s.h.pc
    case HIdle => s
    case HScan => HolderScans(s)
    case HReadSeq => HolderReadsSeq(s, number)
    case HCopy => HolderCopies(s)
    case HStoreLen => HolderStoresLen(s)
    case HStoreSeq => HolderStoresSeq(s)
    case HStoreBusy => HolderStoresBusy(s)
    case HRing => HolderRings(s)
    case HWait => HolderPolls(s)
    case HReadLen => HolderReadsLen(s)
    case HReply => HolderReadsReply(s)
    case HStoreFree => HolderFrees(s)
  }

  // The agent's steps

  function AgentLoadsBell(s: State): State {
    s.(a := if s.hostSeq != s.a.lastSeen then s.a.(pc := AScan, hs := s.hostSeq, i := 0) else s.a)
  }

  function AgentScans(s: State): State
    requires Sized(s)
  {
    var a := s.a;
    if a.i == SLOTS then s.(a := a.(pc := AIdle, lastSeen := a.hs))
    else if s.slots[a.i].status == Busy then s.(a := a.(pc := AReadLen))
    else s.(a := a.(i := a.i + 1))
  }

  function AgentReadsLen(s: State): State
    requires Sized(s) && s.a.i < SLOTS
  {
    s.(a := s.a.(pc := AReadSeq, len := s.slots[s.a.i].len))
  }

  function AgentReadsSeq(s: State): State
    requires Sized(s) && s.a.i < SLOTS
  {
    s.(a := s.a.(pc := ACopy, q := s.slots[s.a.i].seqNo, body := []))
  }

  function AgentCopies(s: State): State
    requires Sized(s) && s.a.i < SLOTS
  {
    var a, sl := s.a, s.slots[s.a.i];
    if |a.body| < a.len then s.(a := a.(body := a.body + [sl.pay[|a.body|]]))
    else s.(a := a.(pc := AServe))
  }

  function AgentAnswers(s: State, answer: Bytes): State {
    s.(a := s.a.(pc := AWrite, answer := answer, got := 0), served := s.served + [Served(s.a.body, answer)])
  }

  function AgentWrites(s: State, chunk: nat): State
    requires Sized(s) && s.a.i < SLOTS
  {
    var a, sl := s.a, s.slots[s.a.i];
    var left := Min(|a.answer|, MAX_FRAME) - a.got;
    if left == 0 then s.(a := a.(pc := AStoreLen))
    else
      var n := Min(chunk + 1, left);
      Store(s, a.i, sl.(pay := Overwrite(sl.pay, a.got, a.answer[a.got..a.got + n]))).(a := a.(got := a.got + n))
  }

  function AgentStoresLen(s: State): State
    requires Sized(s) && s.a.i < SLOTS
  {
    Store(s, s.a.i, s.slots[s.a.i].(len := s.a.got)).(a := s.a.(pc := AStoreDone))
  }

  function AgentStoresDone(s: State): State
    requires Sized(s) && s.a.i < SLOTS
  {
    Store(s, s.a.i, s.slots[s.a.i].(status := Done)).(a := s.a.(pc := ARing))
  }

  function AgentRings(s: State): State {
    s.(guestSeq := s.a.q, a := s.a.(pc := AScan, i := s.a.i + 1))
  }

  /** The agent's next load or store. */
  function AgentStep(s: State, answer: Bytes, chunk: nat): State
    requires Sized(s)
  {
    match s.a.pc
    case AIdle => AgentLoadsBell(s)
    case AScan => AgentScans(s)
    case AReadLen => AgentReadsLen(s)
    case AReadSeq => AgentReadsSeq(s)
    case ACopy => AgentCopies(s)
    case AServe => AgentAnswers(s, answer)
    case AWrite => AgentWrites(s, chunk)
    case AStoreLen => AgentStoresLen(s)
    case AStoreDone => AgentStoresDone(s)
    case ARing => AgentRings(s)
  }

  function Turn(s: State, act: Action, number: nat): State
    requires Sized(s)
  {
    match act
    case ClientCalls(body) => ClientCall(s, body)
    case HolderSteps => HolderStep(s, number)
    case AgentSteps(answer, chunk) => AgentStep(s, answer, chunk)
  }

  /** The code's step: request numbers are 32-bit words. */
  function Next(s: State, act: Action): State
    requires Sized(s)
  {
    Turn(s, act, Wrap(s.hostSeq + 1))
  }

  /** The same step with numbers that never wrap. */
  function Count(s: State, act: Action): State
    requires Sized(s)
  {
    Turn(s, act, s.hostSeq + 1)
  }

  // ---------------------------------------------------------------------------
  // The invariant

  /** The holder's slot is in the ring: from the BUSY store to the FREE store. */
  predicate Live(pc: HolderPc) {
    pc == HRing || pc == HWait || Draining(pc)
  }

  predicate Draining(pc: HolderPc) { pc == HReadLen || pc == HReply || pc == HStoreFree }

  predicate Rung(pc: HolderPc) { pc == HWait || Draining(pc) }

  /** The sequence word of the request has been chosen. */
  predicate Numbered(pc: HolderPc) {
    pc != HIdle && pc != HScan && pc != HReadSeq
  }

  ghost predicate Counts(s: State) {
    && |s.posted| == |s.replies| + (if s.h.pc == HIdle then 0 else 1)
    && s.hostSeq == |s.replies| + (if Rung(s.h.pc) then 1 else 0)
    && s.a.lastSeen <= s.hostSeq
    && (s.a.pc != AIdle ==> s.a.hs <= s.hostSeq)
    && (Numbered(s.h.pc) ==> s.h.q == |s.replies| + 1)
    && (s.h.pc != HIdle ==> s.h.body == s.posted[|s.replies|] && 1 <= |s.h.body|)
  }

  ghost predicate History(s: State) {
    && |s.replies| <= |s.served| <= |s.replies| + 1
    && |s.served| <= |s.posted|
    && (forall k | 0 <= k < |s.served| :: s.served[k].body == s.posted[k])
    && (forall k | 0 <= k < |s.replies| :: s.replies[k] == Cut(s.served[k].answer))
  }

  ghost predicate OthersFree(s: State)
    requires Sized(s)
  {
    forall i | 0 <= i < SLOTS :: (i != s.h.i || !Live(s.h.pc)) ==> s.slots[i].status == Free
  }

  /** What the holder's slot holds while it is being filled. */
  ghost predicate Filling(s: State)
    requires Sized(s)
  {
    var h, sl := s.h, s.slots[s.h.i];
    match h.pc
    case HCopy => h.j <= |h.body| && sl.pay[..h.j] == h.body[..h.j]
    case HStoreLen => sl.pay[..|h.body|] == h.body
    case HStoreSeq => sl.pay[..|h.body|] == h.body && sl.len == |h.body|
    case HStoreBusy => Posted(h.body, h.q, sl)
    case _ => true
  }

  ghost predicate Posted(body: Bytes, q: nat, sl: Slot) {
    && |body| <= |sl.pay|
    && sl.pay[..|body|] == body
    && sl.len == |body| && sl.seqNo == q
  }

  /** The posted request before the agent's handler has run on it. */
  ghost predicate Waiting(s: State)
    requires Sized(s)
  {
    var a, sl := s.a, s.slots[s.h.i];
    && !Draining(s.h.pc)
    && sl.status == Busy && s.guestSeq == |s.replies| && Posted(s.h.body, s.h.q, sl)
    && a.lastSeen < s.h.q
    && (a.pc == AScan && a.hs == s.h.q ==> a.i <= s.h.i)
    && (Serving(a.pc) ==> a.i == s.h.i && ReadingOk(a, sl))
  }

  ghost predicate ReadingOk(a: Agent, sl: Slot) {
    match a.pc
    case AReadLen => true
    case AReadSeq => a.len == sl.len
    case ACopy => a.len == sl.len <= |sl.pay| && a.q == sl.seqNo && |a.body| <= a.len && a.body == sl.pay[..|a.body|]
    case AServe => a.len == sl.len <= |sl.pay| && a.q == sl.seqNo && a.body == sl.pay[..a.len]
    case _ => false
  }

  /** The posted request after the agent's handler has run on it. */
  ghost predicate Answered(s: State)
    requires Sized(s) && s.served != []
  {
    var a, sl, answer := s.a, s.slots[s.h.i], s.served[|s.served| - 1].answer;
    if Serving(a.pc) then
      && !Draining(s.h.pc)
      && a.i == s.h.i && s.guestSeq == |s.replies|
      && a.q == s.h.q && a.answer == answer
      && sl.pay[..a.got] == answer[..a.got]
      && WritingOk(a, sl)
    else
      && sl.status == Done && s.guestSeq == s.h.q
      && Holds(sl, answer)
  }

  ghost predicate WritingOk(a: Agent, sl: Slot) {
    match a.pc
    case AWrite => sl.status == Busy
    case AStoreLen => sl.status == Busy && a.got == |Cut(a.answer)|
    case AStoreDone => sl.status == Busy && Holds(sl, a.answer)
    case ARing => sl.status == Done && Holds(sl, a.answer)
    case _ => false
  }

  ghost predicate Holds(sl: Slot, answer: Bytes) {
    sl.len == |Cut(answer)| <= |sl.pay| && sl.pay[..sl.len] == Cut(answer)
  }

  /** What the holder has read of the reply. */
  ghost predicate Reading(s: State)
    requires Sized(s)
  {
    var h, sl := s.h, s.slots[s.h.i];
    match h.pc
    case HReply => h.respLen == sl.len && |h.out| <= sl.len && h.out == sl.pay[..|h.out|]
    case HStoreFree => h.out == sl.pay[..sl.len]
    case _ => true
  }

  ghost predicate Current(s: State)
    requires Sized(s)
  {
    if !Live(s.h.pc) then
      s.guestSeq == |s.replies| == |s.served| && !Serving(s.a.pc)
    else if |s.served| == |s.replies| then Waiting(s)
    else s.served != [] && Answered(s)
  }

  ghost predicate Inv(s: State) {
    Sized(s) && Counts(s) && History(s) && OthersFree(s) && Filling(s) && Current(s) && Reading(s)
  }

  // Sizes, which every step keeps whatever the numbers are

  lemma HolderKeepsSized(s: State, number: nat)
    requires Sized(s)
    ensures Sized(HolderStep(s, number))
  {
  }

  lemma AgentKeepsSized(s: State, answer: Bytes, chunk: nat)
    requires Sized(s)
    ensures Sized(AgentStep(s, answer, chunk))
  {
  }

  lemma TurnKeepsSized(s: State, act: Action, number: nat)
    requires Sized(s)
    ensures Sized(Turn(s, act, number))
  {
    match act
    case ClientCalls(_) =>
    case HolderSteps => HolderKeepsSized(s, number);
    case AgentSteps(answer, chunk) => AgentKeepsSized(s, answer, chunk);
  }

  // The invariant, step by step

  lemma InitInv()
    ensures Inv(Init())
  {
  }

  lemma ClientKeepsInv(s: State, body: Bytes)
    requires Inv(s)
    ensures Inv(ClientCall(s, body))
  {
  }

  lemma HolderScansKeepsInv(s: State)
    requires Inv(s) && s.h.pc == HScan
    ensures Inv(HolderScans(s))
  {
  }

  lemma HolderReadsSeqKeepsInv(s: State)
    requires Inv(s) && s.h.pc == HReadSeq
    ensures Inv(HolderReadsSeq(s, s.hostSeq + 1))
  {
  }

  lemma HolderCopiesKeepsInv(s: State)
    requires Inv(s) && s.h.pc == HCopy
    ensures Inv(HolderCopies(s))
  {
    var h, sl := s.h, s.slots[s.h.i];
    if h.j < |h.body| {
      assert h.body[..h.j + 1] == h.body[..h.j] + [h.body[h.j]];
    }
  }

  lemma HolderStoresLenKeepsInv(s: State)
    requires Inv(s) && s.h.pc == HStoreLen
    ensures Inv(HolderStoresLen(s))
  {
  }

  lemma HolderStoresSeqKeepsInv(s: State)
    requires Inv(s) && s.h.pc == HStoreSeq
    ensures Inv(HolderStoresSeq(s))
  {
  }

  lemma HolderStoresBusyKeepsInv(s: State)
    requires Inv(s) && s.h.pc == HStoreBusy
    ensures Inv(HolderStoresBusy(s))
  {
  }

  lemma HolderRingsKeepsInv(s: State)
    requires Inv(s) && s.h.pc == HRing
    ensures Inv(HolderRings(s))
  {
  }

  lemma HolderPollsKeepsInv(s: State)
    requires Inv(s) && s.h.pc == HWait
    ensures Inv(HolderPolls(s))
  {
  }

  lemma HolderReadsLenKeepsInv(s: State)
    requires Inv(s) && s.h.pc == HReadLen
    ensures Inv(HolderReadsLen(s))
  {
  }

  lemma HolderReadsReplyKeepsInv(s: State)
    requires Inv(s) && s.h.pc == HReply
    ensures Inv(HolderReadsReply(s))
  {
    var h, sl := s.h, s.slots[s.h.i];
    if |h.out| < h.respLen {
      assert sl.pay[..|h.out| + 1] == sl.pay[..|h.out|] + [sl.pay[|h.out|]];
    }
  }

  lemma HolderFreesKeepsInv(s: State)
    requires Inv(s) && s.h.pc == HStoreFree
    ensures Inv(HolderFrees(s))
  {
  }

  /** A step that changes only the agent's own variables. */
  lemma QuietAgent(s: State, a: Agent)
    requires Inv(s) && Sized(s.(a := a)) && a.lastSeen <= s.hostSeq && (a.pc != AIdle ==> a.hs <= s.hostSeq)
    requires Current(s.(a := a))
    ensures Inv(s.(a := a))
  {
    var t := s.(a := a);
    assert Counts(t) && History(t);
    assert OthersFree(t) && Filling(t) && Reading(t);
  }

  /** A step that also stores to the slot the agent is serving. */
  lemma ServingAgent(s: State, sl: Slot, a: Agent)
    requires Inv(s) && Serving(s.a.pc) && a.lastSeen == s.a.lastSeen && a.hs == s.a.hs
    requires Sized(Store(s, s.h.i, sl).(a := a)) && Current(Store(s, s.h.i, sl).(a := a))
    ensures Inv(Store(s, s.h.i, sl).(a := a))
  {
    var t := Store(s, s.h.i, sl).(a := a);
    assert Live(s.h.pc) && !Draining(s.h.pc);
    assert Counts(t) && History(t);
    assert OthersFree(t) && Filling(t) && Reading(t);
  }

  lemma AgentLoadsBellKeepsInv(s: State)
    requires Inv(s) && s.a.pc == AIdle
    ensures Inv(AgentLoadsBell(s))
  {
    QuietAgent(s, AgentLoadsBell(s).a);
  }

  lemma AgentScansKeepsInv(s: State)
    requires Inv(s) && s.a.pc == AScan
    ensures Inv(AgentScans(s))
  {
    if s.a.i < SLOTS && s.slots[s.a.i].status == Busy {
      assert s.a.i == s.h.i && Waiting(s);
    }
    QuietAgent(s, AgentScans(s).a);
  }

  lemma AgentReadsLenKeepsInv(s: State)
    requires Inv(s) && s.a.pc == AReadLen
    ensures Inv(AgentReadsLen(s))
  {
    assert Waiting(s);
    StillWaiting(s, AgentReadsLen(s).a);
  }

  lemma AgentReadsSeqKeepsInv(s: State)
    requires Inv(s) && s.a.pc == AReadSeq
    ensures Inv(AgentReadsSeq(s))
  {
    assert Waiting(s);
    StillWaiting(s, AgentReadsSeq(s).a);
  }

  /** One more byte of the body, or all of it. */
  lemma CopyReads(a: Agent, sl: Slot)
    requires a.pc == ACopy && ReadingOk(a, sl)
    ensures if |a.body| < a.len then ReadingOk(a.(body := a.body + [sl.pay[|a.body|]]), sl)
            else ReadingOk(a.(pc := AServe), sl)
  {
    if |a.body| < a.len {
      assert sl.pay[..|a.body| + 1] == sl.pay[..|a.body|] + [sl.pay[|a.body|]];
    }
  }

  /** While the request waits, reading on is all the agent does to it. */
  lemma StillWaiting(s: State, a: Agent)
    requires Inv(s) && Waiting(s) && Live(s.h.pc) && Serving(s.a.pc) && Serving(a.pc)
    requires a.lastSeen == s.a.lastSeen && a.hs == s.a.hs && a.i == s.a.i && ReadingOk(a, s.slots[s.h.i])
    requires a.len <= MAX_FRAME && a.got == s.a.got && a.answer == s.a.answer
    requires |s.served| == |s.replies|
    ensures Inv(s.(a := a))
  {
    assert Waiting(s.(a := a));
    QuietAgent(s, a);
  }

  lemma AgentCopiesKeepsInv(s: State)
    requires Inv(s) && s.a.pc == ACopy
    ensures Inv(AgentCopies(s))
  {
    assert Waiting(s);
    CopyReads(s.a, s.slots[s.h.i]);
    StillWaiting(s, AgentCopies(s).a);
  }

  lemma AnswerIsLogged(s: State, answer: Bytes)
    requires Inv(s) && s.a.pc == AServe
    ensures var t := AgentAnswers(s, answer);
            |s.served| == |s.replies| && Live(s.h.pc) && Waiting(s) && Counts(t) && History(t)
  {
    ServesWaiting(s);
    HistoryGrows(s, answer);
  }

  lemma ServesWaiting(s: State)
    requires Inv(s) && s.a.pc == AServe
    ensures |s.served| == |s.replies| && Live(s.h.pc) && Waiting(s) && s.a.body == s.h.body
  {
    assert Waiting(s);
  }

  lemma HistoryGrows(s: State, answer: Bytes)
    requires Sized(s) && Counts(s) && History(s) && s.a.pc == AServe
    requires |s.served| == |s.replies| && Live(s.h.pc) && s.a.body == s.h.body
    ensures var t := AgentAnswers(s, answer); Counts(t) && History(t)
  {
  }

  lemma AgentAnswersKeepsInv(s: State, answer: Bytes)
    requires Inv(s) && s.a.pc == AServe
    ensures Inv(AgentAnswers(s, answer))
  {
    AnswerIsLogged(s, answer);
    var t := AgentAnswers(s, answer);
    assert OthersFree(t) && Filling(t) && Reading(t);
    assert Answered(t);
  }

  /** While the agent writes, only its slot and its progress change. */
  lemma StillAnswering(s: State, sl: Slot, a: Agent)
    requires Inv(s) && |s.served| > |s.replies| && Serving(s.a.pc) && Serving(a.pc)
    requires a == s.a.(pc := a.pc, got := a.got) && a.got <= Min(|a.answer|, MAX_FRAME)
    requires |sl.pay| == MAX_FRAME && sl.len <= MAX_FRAME
    requires sl.pay[..a.got] == a.answer[..a.got] && WritingOk(a, sl)
    ensures Inv(Store(s, s.h.i, sl).(a := a))
  {
    assert Answered(s);
    assert Answered(Store(s, s.h.i, sl).(a := a));
    ServingAgent(s, sl, a);
  }

  lemma AgentWritesKeepsInv(s: State, chunk: nat)
    requires Inv(s) && s.a.pc == AWrite
    ensures Inv(AgentWrites(s, chunk))
  {
    assert Answered(s);
    var a, t := s.a, AgentWrites(s, chunk);
    var sl := t.slots[a.i];
    if t.a.got > a.got { OverwriteExtends(s.slots[a.i].pay, a.got, a.answer, t.a.got - a.got); }
    StillAnswering(s, sl, t.a);
    assert Store(s, s.h.i, sl).(a := t.a) == t;
  }

  /** A prefix of the answer in the slot, made longer. */
  lemma OverwriteExtends(pay: Bytes, got: nat, answer: Bytes, n: nat)
    requires got + n <= |answer| && got + n <= |pay| && pay[..got] == answer[..got]
    ensures Overwrite(pay, got, answer[got..got + n])[..got + n] == answer[..got + n]
  {
    assert answer[..got + n] == answer[..got] + answer[got..got + n];
  }

  lemma AgentStoresLenKeepsInv(s: State)
    requires Inv(s) && s.a.pc == AStoreLen
    ensures Inv(AgentStoresLen(s))
  {
    assert Answered(s);
    var t := AgentStoresLen(s);
    StillAnswering(s, t.slots[s.a.i], t.a);
  }

  lemma AgentStoresDoneKeepsInv(s: State)
    requires Inv(s) && s.a.pc == AStoreDone
    ensures Inv(AgentStoresDone(s))
  {
    assert Answered(s);
    var t := AgentStoresDone(s);
    StillAnswering(s, t.slots[s.a.i], t.a);
  }

  lemma AgentRingsKeepsInv(s: State)
    requires Inv(s) && s.a.pc == ARing
    ensures Inv(AgentRings(s))
  {
  }

  /** Every step keeps the invariant, for any number of requests. */
  lemma CountKeepsInv(s: State, act: Action)
    requires Inv(s)
    ensures Inv(Count(s, act))
  {
    match act
    case ClientCalls(body) => ClientKeepsInv(s, body);
    case HolderSteps => HolderKeepsInv(s);
    case AgentSteps(answer, chunk) => AgentKeepsInv(s, answer, chunk);
  }

  lemma HolderKeepsInv(s: State)
    requires Inv(s)
    ensures Inv(HolderStep(s, s.hostSeq + 1))
  {
    match s.h.pc
    case HIdle =>
    case HScan => HolderScansKeepsInv(s);
    case HReadSeq => HolderReadsSeqKeepsInv(s);
    case HCopy => HolderCopiesKeepsInv(s);
    case HStoreLen => HolderStoresLenKeepsInv(s);
    case HStoreSeq => HolderStoresSeqKeepsInv(s);
    case HStoreBusy => HolderStoresBusyKeepsInv(s);
    case HRing => HolderRingsKeepsInv(s);
    case HWait => HolderPollsKeepsInv(s);
    case HReadLen => HolderReadsLenKeepsInv(s);
    case HReply => HolderReadsReplyKeepsInv(s);
    case HStoreFree => HolderFreesKeepsInv(s);
  }

  lemma AgentKeepsInv(s: State, answer: Bytes, chunk: nat)
    requires Inv(s)
    ensures Inv(AgentStep(s, answer, chunk))
  {
    match s.a.pc
    case AIdle => AgentLoadsBellKeepsInv(s);
    case AScan => AgentScansKeepsInv(s);
    case AReadLen => AgentReadsLenKeepsInv(s);
    case AReadSeq => AgentReadsSeqKeepsInv(s);
    case ACopy => AgentCopiesKeepsInv(s);
    case AServe => AgentAnswersKeepsInv(s, answer);
    case AWrite => AgentWritesKeepsInv(s, chunk);
    case AStoreLen => AgentStoresLenKeepsInv(s);
    case AStoreDone => AgentStoresDoneKeepsInv(s);
    case ARing => AgentRingsKeepsInv(s);
  }

  // ---------------------------------------------------------------------------
  // Progress

  /** How far the agent is from ringing for the request the holder waits for. */
  ghost function AgentRank(s: State): (r: nat)
    requires Sized(s)
    ensures r < 40 + 2 * MAX_FRAME
  {
    var a := s.a;
    match a.pc
    case ARing => 1
    case AStoreDone => 2
    case AStoreLen => 3
    case AWrite => 4 + Min(|a.answer|, MAX_FRAME) - a.got
    case AServe => 5 + MAX_FRAME
    case ACopy => 6 + MAX_FRAME + (if |a.body| <= a.len then a.len - |a.body| else 0)
    case AReadSeq => 7 + 2 * MAX_FRAME
    case AReadLen => 8 + 2 * MAX_FRAME
    case AScan => (if a.hs == s.h.q then 9 else 19) + 2 * MAX_FRAME + SLOTS - a.i
    case AIdle => 18 + 2 * MAX_FRAME
  }

  /** How far the holder is from having freed the slot again. */
  ghost function Rank(s: State): nat
    requires Sized(s)
  {
    var h := s.h;
    match h.pc
    case HIdle => 0
    case HStoreFree => 1
    case HReply => 2 + (if |h.out| <= h.respLen then h.respLen - |h.out| else 0)
    case HReadLen => 3 + MAX_FRAME
    case HWait => 4 + MAX_FRAME + (if s.guestSeq >= h.q then 0 else 1 + AgentRank(s))
    case HRing => 50 + 3 * MAX_FRAME
    case HStoreBusy => 51 + 3 * MAX_FRAME
    case HStoreSeq => 52 + 3 * MAX_FRAME
    case HStoreLen => 53 + 3 * MAX_FRAME
    case HCopy => 54 + 3 * MAX_FRAME + (if h.j <= |h.body| then |h.body| - h.j else 0)
    case HReadSeq => 55 + 4 * MAX_FRAME
    case HScan => 56 + 4 * MAX_FRAME
  }

  ghost predicate Closer(s: State, t: State)
    requires Sized(s)
  {
    t.h == s.h && t.posted == s.posted && Sized(t) && (t.guestSeq >= s.h.q || AgentRank(t) < AgentRank(s))
  }

  lemma LoopMakesProgress(s: State)
    requires Inv(s) && s.h.pc == HWait && s.guestSeq < s.h.q
    ensures s.a.pc == AIdle ==> Closer(s, AgentLoadsBell(s))
    ensures s.a.pc == AScan ==> Closer(s, AgentScans(s))
  {
    AgentKeepsSized(s, [], 0);
  }

  lemma ReadingMakesProgress(s: State, answer: Bytes)
    requires Inv(s) && s.h.pc == HWait && s.guestSeq < s.h.q
    requires s.a.pc == AReadLen || s.a.pc == AReadSeq || s.a.pc == ACopy || s.a.pc == AServe
    ensures Closer(s, AgentStep(s, answer, 0))
  {
    AgentKeepsSized(s, answer, 0);
    assert Waiting(s);
  }

  lemma WritingMakesProgress(s: State, chunk: nat)
    requires Inv(s) && s.h.pc == HWait && s.guestSeq < s.h.q
    requires s.a.pc == AWrite || s.a.pc == AStoreLen || s.a.pc == AStoreDone || s.a.pc == ARing
    ensures Closer(s, AgentStep(s, [], chunk))
  {
    AgentKeepsSized(s, [], chunk);
    assert Answered(s);
  }

  lemma AgentMakesProgress(s: State, answer: Bytes, chunk: nat)
    requires Inv(s) && s.h.pc == HWait && s.guestSeq < s.h.q
    ensures Closer(s, AgentStep(s, answer, chunk))
  {
    match s.a.pc
    case AIdle => LoopMakesProgress(s);
    case AScan => LoopMakesProgress(s);
    case AReadLen => ReadingMakesProgress(s, answer);
    case AReadSeq => ReadingMakesProgress(s, answer);
    case ACopy => ReadingMakesProgress(s, answer);
    case AServe => ReadingMakesProgress(s, answer);
    case _ => WritingMakesProgress(s, chunk);
  }

  lemma PostingMakesProgress(s: State)
    requires Inv(s) && s.h.pc != HIdle && !Rung(s.h.pc)
    ensures var t := HolderStep(s, s.hostSeq + 1); Sized(t) && t.posted == s.posted && Rank(t) < Rank(s)
  {
    HolderKeepsSized(s, s.hostSeq + 1);
    HolderAtRest(s);
  }

  lemma DrainingMakesProgress(s: State)
    requires Inv(s) && Rung(s.h.pc) && s.guestSeq >= s.h.q
    ensures var t := HolderStep(s, s.hostSeq + 1);
            Sized(t) && t.posted == s.posted && (t.h.pc == HIdle || Rank(t) < Rank(s))
  {
    HolderKeepsSized(s, s.hostSeq + 1);
    HolderAtRest(s);
  }

  lemma HolderMakesProgress(s: State)
    requires Inv(s) && s.h.pc != HIdle && (s.h.pc == HWait ==> s.guestSeq >= s.h.q)
    ensures var t := HolderStep(s, s.hostSeq + 1);
            Sized(t) && t.posted == s.posted && (t.h.pc == HIdle || Rank(t) < Rank(s))
  {
    if Rung(s.h.pc) { DrainingMakesProgress(s); } else { PostingMakesProgress(s); }
  }

  /** What the rank needs of the invariant. */
  lemma HolderAtRest(s: State)
    requires Inv(s)
    ensures s.h.pc == HScan ==> s.slots[s.h.i].status == Free
    ensures s.h.pc == HCopy ==> s.h.j <= |s.h.body|
    ensures s.h.pc == HReply ==> |s.h.out| <= s.h.respLen
  {
  }

  lemma AgentLeavesHolder(s: State, answer: Bytes, chunk: nat)
    requires Sized(s)
    ensures var t := AgentStep(s, answer, chunk); t.h == s.h && t.posted == s.posted && t.replies == s.replies
    ensures !Serving(s.a.pc) ==> AgentStep(s, answer, chunk).guestSeq == s.guestSeq
  {
  }

  lemma RungMeansServed(s: State)
    requires Inv(s) && s.h.pc == HWait && s.guestSeq >= s.h.q
    ensures !Serving(s.a.pc)
  {
  }

  /** A step of the agent takes nothing back while it is the holder's turn. */
  lemma AgentKeepsRank(s: State, answer: Bytes, chunk: nat)
    requires Inv(s) && s.h.pc != HIdle && (s.h.pc == HWait ==> s.guestSeq >= s.h.q)
    requires Sized(AgentStep(s, answer, chunk))
    ensures var t := AgentStep(s, answer, chunk);
            Rank(t) == Rank(s) && (t.h.pc == HWait ==> t.guestSeq >= t.h.q)
  {
    AgentLeavesHolder(s, answer, chunk);
    if s.h.pc == HWait { RungMeansServed(s); }
  }
}
