/** The owner of the shadow table, store by store: an add run to its end, a mark and a
    publication do to the shared memory what the value operations do to a table,
    for the arguments they were called with. */
module ShadowAdds {
  import opened Common
  import opened PathTranslate
  import Shadow = ShadowTable
  import opened ShadowRace
  import opened ShadowRuns

  // ---------------------------------------------------------------------------
  // One add

  /** Room for one more row and its strings. */
  predicate HasRoom(m: Memory, dst: string, src: string) {
    m.count < |m.rows| && m.strtabLen + |dst| + 1 + |src| + 1 <= |m.strs|
  }

  function NewRow(at: nat, dst: string, src: string): Shadow.Row {
    Shadow.Row(Shadow.T_BIND, Shadow.S_VALID, at + |dst| + 1, |src|, at, |dst|)
  }

  /** The rows in use of `m`, those before `n` without live rows of `dst`, are in `u`. */
  ghost predicate Buried(m: Memory, u: Memory, dst: string, n: nat)
    requires m.count <= |m.rows| && m.count <= |u.rows|
  {
    forall i | 0 <= i < m.count ::
      u.rows[i] == if i < n then Shadow.Bury(m.strs, m.rows[i], dst) else m.rows[i]
  }

  /** What stays while an add runs: sizes, count, generation and the bytes in use. */
  ghost predicate SameUse(m: Memory, u: Memory) {
    && |u.rows| == |m.rows| && |u.strs| == |m.strs| && u.count == m.count && u.gen == m.gen
    && m.strtabLen <= |m.strs| && u.strs[..m.strtabLen] == m.strs[..m.strtabLen]
  }

  /** The add of (dst, src) that began with memory `m` has come to `t`. */
  ghost predicate Adding(m: Memory, dst: string, src: string, t: State)
    requires m.count <= |m.rows|
  {
    var at, w := m.strtabLen, t.w;
    && SameUse(m, t.m) && w.dst == dst && w.src == src
    && Buried(m, t.m, dst, if w.pc == WBury then w.at else m.count)
    && (w.pc == WBury ==> w.at <= m.count)
    && (w.pc == WIdle ==> !HasRoom(m, dst, src))
    && (w.pc != WBury && w.pc != WIdle ==> HasRoom(m, dst, src))
    && (w.pc != WCount ==> t.m.strtabLen == at)
    && (w.pc == WCount ==> t.m.strtabLen == at + |Text(w)| <= |t.m.strs| && Stored(t.m, at, dst, src))
  }

  ghost predicate Stored(m: Memory, at: nat, dst: string, src: string) {
    var text := dst + "\0" + src + "\0";
    && m.count < |m.rows| && m.rows[m.count] == NewRow(at, dst, src)
    && at + |text| <= |m.strs| && m.strs[at..at + |text|] == text
  }

  lemma BurySame(m: Memory, u: Memory, row: Shadow.Row, p: (string, string), dst: string)
    requires Says(m, row, p, m.strtabLen) && SameUse(m, u)
    ensures Shadow.Bury(u.strs, row, dst) == Shadow.Bury(m.strs, row, dst)
  {
    SliceFramed(u.strs, m.strs, m.strtabLen, row.dstOff, row.dstLen);
  }

  lemma BuryStep(m: Memory, dst: string, src: string, pairs: seq<(string, string)>, t: State)
    requires m.count <= |m.rows| && Sized(t) && Adding(m, dst, src, t) && t.w.pc == WBury
    requires |pairs| == m.count && forall i | 0 <= i < m.count :: Says(m, m.rows[i], pairs[i], m.strtabLen)
    ensures Adding(m, dst, src, WriterBuries(t))
  {
    var i := t.w.at;
    if i < m.count { BurySame(m, t.m, m.rows[i], pairs[i], dst); }
  }

  lemma FieldStep(m: Memory, dst: string, src: string, t: State)
    requires m.count <= |m.rows| && Sized(t) && Adding(m, dst, src, t) && t.w.pc == WRow && WriterOk(t)
    ensures Adding(m, dst, src, WriterStoresField(t))
  {
  }

  lemma ByteStep(m: Memory, dst: string, src: string, t: State)
    requires m.count <= |m.rows| && Sized(t) && Adding(m, dst, src, t) && t.w.pc == WBytes && WriterOk(t)
    ensures Adding(m, dst, src, WriterStoresByte(t))
  {
    var u := WriterStoresByte(t);
    assert u.m.strs[..m.strtabLen] == t.m.strs[..m.strtabLen];
  }

  lemma LenStep(m: Memory, dst: string, src: string, t: State)
    requires m.count <= |m.rows| && Sized(t) && Adding(m, dst, src, t) && t.w.pc == WLen && WriterOk(t)
    ensures Adding(m, dst, src, WriterStoresLen(t))
  {
    assert Text(t.w) == dst + "\0" + src + "\0";
    assert t.m.rows[t.m.count] == NewRow(m.strtabLen, dst, src);
  }

  lemma AddSteps(m: Memory, dst: string, src: string, pairs: seq<(string, string)>, t: State)
    requires m.count <= |m.rows| && Inv(t) && Adding(m, dst, src, t) && t.w.pc != WIdle && t.w.pc != WCount
    requires |pairs| == m.count && forall i | 0 <= i < m.count :: Says(m, m.rows[i], pairs[i], m.strtabLen)
    ensures Inv(WriterStep(t)) && Adding(m, dst, src, WriterStep(t))
    ensures WriterStep(t).pairs == t.pairs && WriterStep(t).r == t.r
  {
    WriterKeepsInv(t);
    match t.w.pc
    case WBury => BuryStep(m, dst, src, pairs, t);
    case WRow => FieldStep(m, dst, src, t);
    case WBytes => ByteStep(m, dst, src, t);
    case WLen => LenStep(m, dst, src, t);
  }

  /** What an add of (dst, src) makes of memory `m`: live rows of `dst` are buried in any
      case, and with room one row and its strings are appended. */
  ghost predicate Added(m: Memory, dst: string, src: string, u: Memory)
    requires m.count <= |m.rows| && m.strtabLen <= |m.strs|
  {
    var text := dst + "\0" + src + "\0";
    && |u.rows| == |m.rows| && |u.strs| == |m.strs| && u.gen == m.gen
    && Buried(m, u, dst, m.count)
    && (if HasRoom(m, dst, src) then
          && u.count == m.count + 1 && u.rows[m.count] == NewRow(m.strtabLen, dst, src)
          && u.strtabLen == m.strtabLen + |text| && u.strs[..u.strtabLen] == m.strs[..m.strtabLen] + text
        else u.count == m.count && u.strtabLen == m.strtabLen && u.strs[..m.strtabLen] == m.strs[..m.strtabLen])
  }

  lemma CountStep(m: Memory, dst: string, src: string, t: State)
    requires m.count <= |m.rows| && m.strtabLen <= |m.strs| && Sized(t) && Adding(m, dst, src, t) && t.w.pc == WCount
    ensures var u := WriterStoresCount(t);
            Added(m, dst, src, u.m) && u.w.pc == WIdle && u.pairs == t.pairs + [(dst, src)] && u.r == t.r
  {
    var at, n, all := m.strtabLen, t.m.strtabLen, t.m.strs;
    assert all[..n] == all[..at] + all[at..n];
  }

  function WriterPhase(pc: WriterPc): nat {
    match pc
    case WBury => 5 case WRow => 4 case WBytes => 3 case WLen => 2 case WCount => 1 case WIdle => 0
  }

  function StoresLeft(s: State): nat {
    if s.w.pc == WBury && s.w.at < s.m.count then s.m.count - s.w.at
    else if s.w.pc == WRow && s.w.at < 6 then 6 - s.w.at
    else if s.w.pc == WBytes && s.w.at < |Text(s.w)| then |Text(s.w)| - s.w.at
    else 0
  }

  lemma OwnerProgresses(s: State)
    requires Inv(s) && s.w.pc != WIdle
    ensures Closer(s, WriterStep(s))
  {
  }

  /** The owner's next store. */
  function OwnerStep(s: State): State { if Sized(s) then WriterStep(s) else s }

  /** The add of (dst, src) at `s` is over in `t`. */
  ghost predicate Over(s: State, dst: string, src: string, t: State) {
    && Sized(s) && t.w.pc == WIdle && t.r == s.r && Added(s.m, dst, src, t.m)
    && t.pairs == if HasRoom(s.m, dst, src) then s.pairs + [(dst, src)] else s.pairs
  }

  /** The add of (dst, src) that began at `s` has come to `t`. */
  ghost predicate InAdd(s: State, dst: string, src: string, t: State) {
    RowsOk(s) && Inv(t) && Adding(s.m, dst, src, t) && t.pairs == s.pairs && t.r == s.r
  }

  lemma AddGoesOn(s: State, dst: string, src: string, t: State)
    requires InAdd(s, dst, src, t) && t.w.pc != WIdle && t.w.pc != WCount
    ensures InAdd(s, dst, src, WriterStep(t))
  {
    AddSteps(s.m, dst, src, s.pairs, t);
  }

  lemma AddIsOver(s: State, dst: string, src: string, t: State)
    requires InAdd(s, dst, src, t)
    ensures t.w.pc == WIdle ==> Over(s, dst, src, t)
    ensures t.w.pc == WCount ==> Over(s, dst, src, WriterStep(t))
  {
    if t.w.pc == WCount { CountStep(s.m, dst, src, t); }
  }

  ghost predicate Closer(t: State, u: State) {
    || WriterPhase(u.w.pc) < WriterPhase(t.w.pc)
    || (WriterPhase(u.w.pc) == WriterPhase(t.w.pc) && StoresLeft(u) < StoresLeft(t))
  }

  lemma AddMoves(s: State, dst: string, src: string, t: State)
    requires InAdd(s, dst, src, t)
    ensures t.w.pc == WIdle || t.w.pc == WCount || (InAdd(s, dst, src, WriterStep(t)) && Closer(t, WriterStep(t)))
  {
    if t.w.pc != WIdle && t.w.pc != WCount {
      OwnerProgresses(t);
      AddGoesOn(s, dst, src, t);
    }
  }

  lemma AddRunsOut(s: State, dst: string, src: string, t: State) returns (n: nat)
    requires InAdd(s, dst, src, t)
    ensures Over(s, dst, src, Iterate(OwnerStep, t, n))
  {
    var good, over := (u: State) => InAdd(s, dst, src, u), (u: State) => Over(s, dst, src, u);
    var phase, left := (u: State) => WriterPhase(u.w.pc), (u: State) => StoresLeft(u);
    forall u ensures Approaches(OwnerStep, good, over, phase, left, u) {
      if good(u) {
        AddIsOver(s, dst, src, u);
        AddMoves(s, dst, src, u);
      }
    }
    n := RunsOut(OwnerStep, good, over, phase, left, t);
  }

  lemma AddStarts(s: State, dst: string, src: string)
    requires Inv(s) && s.w.pc == WIdle && Absolute(dst) && Absolute(src) && '\0' !in dst && '\0' !in src
    ensures var c := Next(s, Add(dst, src));
            InAdd(s, dst, src, c)
  {
    NextKeepsInv(s, Add(dst, src));
  }

  /** From any reachable state with the owner idle, an add of (dst, src) that is left to
      itself ends, and memory is then what the add is to make of it. */
  lemma AddEnds(run: ShadowRuns.Run, k: nat, dst: string, src: string) returns (n: nat)
    requires IsRun(run) && run.state(k).w.pc == WIdle
    requires Absolute(dst) && Absolute(src) && '\0' !in dst && '\0' !in src
    ensures var s := run.state(k);
            Sized(s) && Over(s, dst, src, Iterate(OwnerStep, Next(s, Add(dst, src)), n))
  {
    var s := run.state(k);
    RunInv(run, k);
    AddStarts(s, dst, src);
    n := AddRunsOut(s, dst, src, Next(s, Add(dst, src)));
  }

  // ---------------------------------------------------------------------------
  // The table in memory

  /** The table that memory holds. */
  function InMemory(m: Memory): Shadow.Table
    requires m.count <= |m.rows| && m.strtabLen <= |m.strs|
  {
    Shadow.Table(|m.rows|, m.rows[..m.count], m.strs[..m.strtabLen], m.gen)
  }

  /** Rows and strings share the mapping. */
  predicate Mapped(m: Memory) { Shadow.Base(|m.rows|) + |m.strs| == Shadow.MAP_SIZE }

  lemma BuryInMemory(m: Memory, row: Shadow.Row, p: (string, string), dst: string)
    requires Says(m, row, p, m.strtabLen)
    ensures Shadow.Bury(m.strs[..m.strtabLen], row, dst) == Shadow.Bury(m.strs, row, dst)
  {
    var low := m.strs[..m.strtabLen];
    assert low[..m.strtabLen] == m.strs[..m.strtabLen];
    SliceFramed(low, m.strs, m.strtabLen, row.dstOff, row.dstLen);
  }

  lemma TombstonedRows(s: State, dst: string, u: Memory)
    requires RowsOk(s) && s.m.count <= |u.rows| && Buried(s.m, u, dst, s.m.count)
    ensures u.rows[..s.m.count] == Shadow.Tombstone(InMemory(s.m), dst).rows
  {
    forall i | 0 <= i < s.m.count
      ensures u.rows[i] == Shadow.Bury(s.m.strs[..s.m.strtabLen], s.m.rows[i], dst)
    {
      BuryInMemory(s.m, s.m.rows[i], s.pairs[i], dst);
    }
  }

  /** What an add makes of memory is what add_bind makes of the table in it. */
  lemma AddIsAddBind(s: State, dst: string, src: string, u: Memory)
    requires RowsOk(s) && Mapped(s.m) && Absolute(dst) && Absolute(src) && Added(s.m, dst, src, u)
    ensures u.count <= |u.rows| && u.strtabLen <= |u.strs|
    ensures InMemory(u) == Shadow.AddBind(InMemory(s.m), dst, src).0
    ensures HasRoom(s.m, dst, src) <==> Shadow.AddBind(InMemory(s.m), dst, src).1.Ok?
  {
    TombstonedRows(s, dst, u);
    var n := s.m.count;
    if HasRoom(s.m, dst, src) { assert u.rows[..n + 1] == u.rows[..n] + [u.rows[n]]; }
    AppendedText(s.m.strs[..s.m.strtabLen], dst, src);
  }

  lemma AppendedText(strs: string, dst: string, src: string)
    ensures strs + dst + "\0" + src + "\0" == strs + (dst + "\0" + src + "\0")
  {
  }

  /** A mark is mark_state on the table in memory; a row that is not there is left. */
  lemma MarkIsMarkState(s: State, idx: nat, state: nat)
    requires RowsOk(s) && s.w.pc == WIdle
    ensures var t := Next(s, Mark(idx, state));
            && Sized(t) && t.r == s.r && t.pairs == s.pairs
            && InMemory(t.m) == Shadow.MarkState(InMemory(s.m), idx, state).0
  {
    var t := Next(s, Mark(idx, state));
    var n := s.m.count;
    if idx < n { assert t.m.rows[..n] == s.m.rows[..n][idx := s.m.rows[idx].(state := state)]; }
  }

  /** A publication is a commit of the table in memory that has nothing to compact. */
  lemma PublishIsCommit(s: State)
    requires RowsOk(s) && s.w.pc == WIdle && Shadow.Compacted(InMemory(s.m)) == InMemory(s.m)
    ensures var t := Next(s, Publish);
            && Sized(t) && t.r == s.r && t.pairs == s.pairs
            && InMemory(t.m) == Shadow.Commit(InMemory(s.m))
  {
  }
}
