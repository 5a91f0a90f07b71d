/** The system-call filter of the static stub: a classic BPF program built from a
    table of traced and a table of trapped call numbers, and what the kernel
    makes of it. */
module SeccompFilter {
  import opened Common

  const LD_W_ABS: nat := 0x20
  const JEQ_K: nat := 0x15
  const RET_K: nat := 0x06

  const ARCH: nat := 0xC000_00B7
  const KILL: nat := 0
  const NOTIF: nat := 0x7fc0_0000
  const TRACE: nat := 0x7ff0_0000
  const ALLOW: nat := 0x7fff_0000

  datatype Insn = Insn(code: nat, jt: nat, jf: nat, k: nat)

  /** The two words of the call record that the filter looks at. */
  datatype Call = Call(nr: nat, arch: nat)

  // ---------------------------------------------------------------------------
  // The machine

  /** Runs the program from `pc` with accumulator `a`; None if it leaves the program
      or meets an instruction that is not modelled. */
  function Exec(prog: seq<Insn>, pc: nat, a: nat, call: Call): Option<nat>
    decreases |prog| - pc
  {
    if pc >= |prog| then None
    else
      var i := prog[pc];
      if i.code == LD_W_ABS && i.k == 0 then Exec(prog, pc + 1, call.nr, call)
      else if i.code == LD_W_ABS && i.k == 4 then Exec(prog, pc + 1, call.arch, call)
      else if i.code == JEQ_K then Exec(prog, pc + 1 + (if a == i.k then i.jt else i.jf), a, call)
      else if i.code == RET_K then Some(i.k)
      else None
  }

  /** What the filter is for. */
  function Verdict(traced: seq<nat>, traps: seq<nat>, call: Call): nat {
    if call.arch != ARCH then KILL
    else if call.nr in traced then TRACE
    else if call.nr in traps then NOTIF
    else ALLOW
  }

  // ---------------------------------------------------------------------------
  // The builder

  /** The layout: four fixed instructions, a test per traced and per trapped call,
      three returns.  Jump offsets are single bytes. */
  ghost predicate Laid(prog: seq<Insn>, traced: seq<nat>, traps: seq<nat>) {
    var n, t := |traced|, |traps|;
    && |prog| == 7 + n + t
    && prog[0] == Insn(LD_W_ABS, 0, 0, 4) && prog[1] == Insn(JEQ_K, 1, 0, ARCH)
    && prog[2] == Insn(RET_K, 0, 0, KILL) && prog[3] == Insn(LD_W_ABS, 0, 0, 0)
    && (forall i | 0 <= i < n :: prog[4 + i] == TracedTest(traced, traps, i))
    && (forall i | 0 <= i < t :: prog[4 + n + i] == TrapTest(traps, i))
    && prog[4 + n + t] == Insn(RET_K, 0, 0, ALLOW)
    && prog[5 + n + t] == Insn(RET_K, 0, 0, TRACE)
    && prog[6 + n + t] == Insn(RET_K, 0, 0, NOTIF)
  }

  function TracedTest(traced: seq<nat>, traps: seq<nat>, i: nat): Insn
    requires i < |traced|
  {
    Insn(JEQ_K, (|traced| + |traps| - i) % 256, 0, traced[i])
  }

  function TrapTest(traps: seq<nat>, i: nat): Insn
    requires i < |traps|
  {
    Insn(JEQ_K, (|traps| + 1 - i) % 256, 0, traps[i])
  }

  /** One test per number, the first jumping `far` instructions ahead and each
      next one a step less. */
  function Tests(nrs: seq<nat>, far: nat): seq<Insn>
    requires |nrs| <= far
  {
    seq(|nrs|, i requires 0 <= i < |nrs| => Insn(JEQ_K, (far - i) % 256, 0, nrs[i]))
  }

  const HEAD: seq<Insn> := [
    Insn(LD_W_ABS, 0, 0, 4), Insn(JEQ_K, 1, 0, ARCH), Insn(RET_K, 0, 0, KILL), Insn(LD_W_ABS, 0, 0, 0)
  ]
  const RETURNS: seq<Insn> := [Insn(RET_K, 0, 0, ALLOW), Insn(RET_K, 0, 0, TRACE), Insn(RET_K, 0, 0, NOTIF)]

  lemma PartsAreLaid(traced: seq<nat>, traps: seq<nat>)
    ensures var n, t := |traced|, |traps|;
            Laid(HEAD + Tests(traced, n + t) + Tests(traps, t + 1) + RETURNS, traced, traps)
  {
  }

  method WriteTests(prog: array<Insn>, at: nat, nrs: seq<nat>, far: nat) returns (p: nat)
    requires at + |nrs| <= prog.Length && |nrs| <= far
    modifies prog
    ensures p == at + |nrs| && prog[..p] == old(prog[..at]) + Tests(nrs, far)
  {
    p := at;
    for i := 0 to |nrs|
      invariant p == at + i && prog[..p] == old(prog[..at]) + Tests(nrs, far)[..i]
    {
      prog[p], p := Insn(JEQ_K, (far - i) % 256, 0, nrs[i]), p + 1;
    }
  }

  method WriteHead(prog: array<Insn>) returns (p: nat)
    requires prog.Length >= 4
    modifies prog
    ensures p == 4 && prog[..p] == HEAD
  {
    p := 0;
    prog[p], p := Insn(LD_W_ABS, 0, 0, 4), p + 1;
    prog[p], p := Insn(JEQ_K, 1, 0, ARCH), p + 1;
    prog[p], p := Insn(RET_K, 0, 0, KILL), p + 1;
    prog[p], p := Insn(LD_W_ABS, 0, 0, 0), p + 1;
  }

  method WriteReturns(prog: array<Insn>, at: nat) returns (p: nat)
    requires at + 3 <= prog.Length
    modifies prog
    ensures p == at + 3 && prog[..p] == old(prog[..at]) + RETURNS
  {
    p := at;
    prog[p], p := Insn(RET_K, 0, 0, ALLOW), p + 1;
    prog[p], p := Insn(RET_K, 0, 0, TRACE), p + 1;
    prog[p], p := Insn(RET_K, 0, 0, NOTIF), p + 1;
  }

  method Build(traced: seq<nat>, traps: seq<nat>, prog: array<Insn>) returns (p: nat)
    requires prog.Length >= 7 + |traced| + |traps|
    modifies prog
    ensures p <= prog.Length && Laid(prog[..p], traced, traps)
  {
    var n, t := |traced|, |traps|;
    PartsAreLaid(traced, traps);
    p := WriteHead(prog);
    p := WriteTests(prog, p, traced, n + t);
    p := WriteTests(prog, p, traps, t + 1);
    p := WriteReturns(prog, p);
  }

  // ---------------------------------------------------------------------------
  // What the program does

  /** Every jump offset fits its byte. */
  predicate Fits(traced: seq<nat>, traps: seq<nat>) {
    && (traced != [] ==> |traced| + |traps| < 256)
    && (traps != [] ==> |traps| + 1 < 256)
  }

  /** From the trap tests on, no match left: the call is allowed. */
  lemma {:induction false} PastTraps(prog: seq<Insn>, traced: seq<nat>, traps: seq<nat>, i: nat, call: Call)
    requires Laid(prog, traced, traps) && i <= |traps| && call.nr !in traps[i..]
    ensures Exec(prog, 4 + |traced| + i, call.nr, call) == Some(ALLOW)
    decreases |traps| - i
  {
    if i < |traps| {
      assert prog[4 + |traced| + i] == TrapTest(traps, i);
      assert traps[i..][0] == traps[i] && forall x :: x in traps[i + 1..] ==> x in traps[i..];
      PastTraps(prog, traced, traps, i + 1, call);
    }
  }

  lemma {:induction false} PastTraced(prog: seq<Insn>, traced: seq<nat>, traps: seq<nat>, i: nat, call: Call)
    requires Laid(prog, traced, traps) && i <= |traced| && call.nr !in traced[i..]
    ensures Exec(prog, 4 + i, call.nr, call) == Exec(prog, 4 + |traced|, call.nr, call)
    decreases |traced| - i
  {
    if i < |traced| {
      assert prog[4 + i] == TracedTest(traced, traps, i);
      assert traced[i..][0] == traced[i] && forall x :: x in traced[i + 1..] ==> x in traced[i..];
      PastTraced(prog, traced, traps, i + 1, call);
    }
  }

  lemma {:induction false} TrapsMatch(prog: seq<Insn>, traced: seq<nat>, traps: seq<nat>, i: nat, call: Call)
    requires Laid(prog, traced, traps) && Fits(traced, traps) && i <= |traps| && call.nr in traps[i..]
    ensures Exec(prog, 4 + |traced| + i, call.nr, call) == Some(NOTIF)
    decreases |traps| - i
  {
    assert prog[4 + |traced| + i] == TrapTest(traps, i);
    if traps[i] != call.nr { TrapsMatch(prog, traced, traps, i + 1, call); }
  }

  lemma {:induction false} TracedMatch(prog: seq<Insn>, traced: seq<nat>, traps: seq<nat>, i: nat, call: Call)
    requires Laid(prog, traced, traps) && Fits(traced, traps) && i <= |traced| && call.nr in traced[i..]
    ensures Exec(prog, 4 + i, call.nr, call) == Some(TRACE)
    decreases |traced| - i
  {
    assert prog[4 + i] == TracedTest(traced, traps, i);
    if traced[i] != call.nr { TracedMatch(prog, traced, traps, i + 1, call); }
  }

  lemma ArchTest(prog: seq<Insn>, traced: seq<nat>, traps: seq<nat>, call: Call)
    requires Laid(prog, traced, traps)
    ensures Exec(prog, 0, 0, call) == if call.arch != ARCH then Some(KILL) else Exec(prog, 4, call.nr, call)
  {
    assert Exec(prog, 0, 0, call) == Exec(prog, 1, call.arch, call);
    assert Exec(prog, 3, ARCH, call) == Exec(prog, 4, call.nr, call);
  }

  /** With offsets that fit, the program decides every call as it should. */
  lemma FilterDecides(prog: seq<Insn>, traced: seq<nat>, traps: seq<nat>, call: Call)
    requires Laid(prog, traced, traps) && Fits(traced, traps)
    ensures Exec(prog, 0, 0, call) == Some(Verdict(traced, traps, call))
  {
    ArchTest(prog, traced, traps, call);
    assert traced[0..] == traced && traps[0..] == traps;
    if call.nr in traced {
      TracedMatch(prog, traced, traps, 0, call);
    } else {
      PastTraced(prog, traced, traps, 0, call);
      if call.nr in traps {
        TrapsMatch(prog, traced, traps, 0, call);
      } else {
        PastTraps(prog, traced, traps, 0, call);
      }
    }
  }

  // ---------------------------------------------------------------------------
  // When offsets do not fit

  ghost predicate Distinct(traced: seq<nat>, traps: seq<nat>) {
    var all := traced + traps;
    forall i, j | 0 <= i < j < |all| :: all[i] != all[j]
  }

  /** From anywhere behind its own test and not behind the tests, a call that no
      other test names is allowed. */
  lemma LateJumpAllows(prog: seq<Insn>, traced: seq<nat>, traps: seq<nat>, q: nat, call: Call)
    requires Laid(prog, traced, traps) && q <= |traced| + |traps| && call.nr !in (traced + traps)[q..]
    ensures Exec(prog, 4 + q, call.nr, call) == Some(ALLOW)
  {
    var all := traced + traps;
    if q <= |traced| {
      assert all[q..] == traced[q..] + traps;
      PastTraced(prog, traced, traps, q, call);
      assert traps[0..] == traps;
      PastTraps(prog, traced, traps, 0, call);
    } else {
      assert all[q..] == traps[q - |traced|..];
      PastTraps(prog, traced, traps, q - |traced|, call);
    }
  }

  /** A first offset that overflows its byte makes the filter allow that call. */
  lemma OverflowAllows(prog: seq<Insn>, traced: seq<nat>, traps: seq<nat>) returns (call: Call)
    requires Laid(prog, traced, traps) && Distinct(traced, traps) && !Fits(traced, traps)
    ensures Exec(prog, 0, 0, call) == Some(ALLOW) && Verdict(traced, traps, call) != ALLOW
  {
    var all, n, t := traced + traps, |traced|, |traps|;
    var first := if traced != [] && n + t >= 256 then 0 else n;
    call := Call(all[first], ARCH);
    ArchTest(prog, traced, traps, call);
    var q := if first == 0 && n > 0 then 1 + (n + t) % 256 else n + 1 + (t + 1) % 256;
    assert forall j | 0 <= j < |all| - q :: all[q..][j] == all[q + j];
    if first == 0 && n > 0 {
      assert prog[4] == TracedTest(traced, traps, 0);
    } else {
      assert n == 0;
      assert prog[4] == TrapTest(traps, 0);
    }
    LateJumpAllows(prog, traced, traps, q, call);
  }

  /** For tables without repetitions the filter is right on every call exactly
      when its offsets fit a byte. */
  lemma RightIffFits(prog: seq<Insn>, traced: seq<nat>, traps: seq<nat>)
    requires Laid(prog, traced, traps) && Distinct(traced, traps)
    ensures (forall call :: Exec(prog, 0, 0, call) == Some(Verdict(traced, traps, call))) <==> Fits(traced, traps)
  {
    if Fits(traced, traps) {
      forall call ensures Exec(prog, 0, 0, call) == Some(Verdict(traced, traps, call)) {
        FilterDecides(prog, traced, traps, call);
      }
    } else {
      var call := OverflowAllows(prog, traced, traps);
      assert Exec(prog, 0, 0, call) != Some(Verdict(traced, traps, call));
    }
  }

  // ---------------------------------------------------------------------------
  // The shipped tables

  const TRACED: seq<nat> := [49, 51, 43, 45, 99, 100]
  const TRAPS: seq<nat> := [56, 437, 48, 34, 35, 33, 53, 54, 88, 36, 37, 38, 276, 79, 291, 78, 221, 200, 203, 206, 211]
  const PROG_SIZE: nat := 43

  /** The stub's own filter: it fits its buffer and decides every call. */
  method InstallFilter() returns (prog: array<Insn>, p: nat)
    ensures prog.Length == PROG_SIZE && p == 34
    ensures forall call :: Exec(prog[..p], 0, 0, call) == Some(Verdict(TRACED, TRAPS, call))
  {
    prog := new Insn[PROG_SIZE](_ => Insn(0, 0, 0, 0));
    p := Build(TRACED, TRAPS, prog);
    forall call ensures Exec(prog[..p], 0, 0, call) == Some(Verdict(TRACED, TRAPS, call)) {
      FilterDecides(prog[..p], TRACED, TRAPS, call);
    }
  }
}
