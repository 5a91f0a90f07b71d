/** The holder's bind and unbind commands on the shadow table: a bind adds a row
    and commits if the add was accepted; an unbind marks the first row it finds
    for the directory, in whatever state, and commits. */
module HolderCommands {
  import opened Common
  import opened PathTranslate
  import opened ShadowTable

  // ---------------------------------------------------------------------------
  // The commands

  /** The first row for `dst` in any state, or the row count. */
  function FirstRow(t: Table, dst: string, from: nat): (i: nat)
    requires from <= |t.rows|
    ensures from <= i <= |t.rows|
    ensures i < |t.rows| ==> Dst(t.strs, t.rows[i]) == dst
    ensures forall k | from <= k < i :: Dst(t.strs, t.rows[k]) != dst
    decreases |t.rows| - from
  {
    if from == |t.rows| || Dst(t.strs, t.rows[from]) == dst then from else FirstRow(t, dst, from + 1)
  }

  function BindCommand(t: Table, dst: string, src: string): Table {
    var (u, r) := AddBind(t, dst, src);
    if r.Ok? then Commit(u) else u
  }

  /** The mark the unbind command makes. */
  function Mark(t: Table, dst: string): Table { MarkState(t, FirstRow(t, dst, 0), S_REMOVED).0 }

  function UnbindCommand(t: Table, dst: string): Table {
    if FirstRow(t, dst, 0) < |t.rows| then Commit(Mark(t, dst)) else t
  }

  /** A commit of this table would compact it. */
  predicate Due(t: Table) { |t.rows| > 8 && 2 * Removed(t.rows) > |t.rows| }

  // ---------------------------------------------------------------------------
  // Unbinding

  predicate FirstIsLive(t: Table, dst: string) {
    FirstRow(t, dst, 0) < |t.rows| && t.rows[FirstRow(t, dst, 0)].state == S_VALID
  }

  lemma MarkKeepsInv(t: Table, dst: string)
    requires Inv(t) && FirstRow(t, dst, 0) < |t.rows|
    ensures Inv(Mark(t, dst))
  {
    var k, u := FirstRow(t, dst, 0), Mark(t, dst);
    SameBytes(t.rows, u.rows);
  }

  lemma MarkMeans(t: Table, dst: string)
    requires Inv(t)
    ensures FirstIsLive(t, dst) ==> Binds(Mark(t, dst)) == Binds(t) - {dst}
    ensures !FirstIsLive(t, dst) ==> Binds(Mark(t, dst)) == Binds(t)
  {
    var k := FirstRow(t, dst, 0);
    if k < |t.rows| {
      if t.rows[k].state == S_VALID {
        assert k == LiveRow(t, dst) by {
          assert forall i | 0 <= i < k :: Dst(t.strs, t.rows[i]) != dst;
        }
        RemoveMeans(t, dst);
      } else {
        assert t.rows[k].(state := S_REMOVED) == t.rows[k];
        assert Mark(t, dst).rows == t.rows;
      }
    }
  }

  lemma BoundHasRow(t: Table, dst: string)
    requires Inv(t) && dst in Binds(t)
    ensures FirstRow(t, dst, 0) < |t.rows|
  {
    RowsAreBinds(t);
    var i :| 0 <= i < |t.rows| && t.rows[i].state == S_VALID && Dst(t.strs, t.rows[i]) == dst;
  }

  /** The command unbinds `dst` if and only if `dst` is not bound or its first row
      is the live one; otherwise it changes no binding. */
  lemma UnbindMeans(t: Table, dst: string)
    requires Inv(t)
    ensures var u := UnbindCommand(t, dst);
            && Inv(u)
            && (Binds(u) == Binds(t) - {dst} <==> dst !in Binds(t) || FirstIsLive(t, dst))
            && (Binds(u) == Binds(t) - {dst} || Binds(u) == Binds(t))
  {
    MarkMeans(t, dst);
    if FirstRow(t, dst, 0) < |t.rows| {
      MarkKeepsInv(t, dst);
      CommitMeans(Mark(t, dst));
    }
    if dst in Binds(t) {
      BoundHasRow(t, dst);
    } else {
      assert Binds(t) - {dst} == Binds(t);
    }
  }

  lemma FirstIsTomb(t: Table, dst: string)
    requires Inv(t) && dst in Binds(t)
    ensures var u := Tombstone(t, dst); var k := FirstRow(u, dst, 0);
            k < |u.rows| && u.rows[k].state == S_REMOVED
  {
    RowsAreBinds(t);
    TombstoneRows(t, dst);
    var i :| 0 <= i < |t.rows| && t.rows[i].state == S_VALID && Dst(t.strs, t.rows[i]) == dst;
    assert Dst(t.strs, Tombstone(t, dst).rows[i]) == dst;
  }

  lemma AppendKeepsFirst(u: Table, dst: string, src: string)
    requires Inv(u) && Absolute(dst) && '\0' !in dst && FirstRow(u, dst, 0) < |u.rows|
    ensures FirstRow(Append(u, T_BIND, dst, src), dst, 0) == FirstRow(u, dst, 0)
  {
    var v, k := Append(u, T_BIND, dst, src), FirstRow(u, dst, 0);
    AppendRows(u, dst, src);
    assert Dst(v.strs, v.rows[k]) == dst;
    forall i | 0 <= i < k ensures Dst(v.strs, v.rows[i]) != dst {
      assert Dst(v.strs, v.rows[i]) == Dst(u.strs, u.rows[i]);
    }
  }

  lemma {:induction false} NoneRemoved(rows: seq<Row>, i: nat)
    requires Removed(rows) == 0 && i < |rows|
    ensures rows[i].state != S_REMOVED
    decreases |rows|
  {
    if i < |rows| - 1 { NoneRemoved(rows[..|rows| - 1], i); }
  }

  lemma GenIsUnread(t: Table, g: nat, dst: string)
    ensures FirstRow(t.(gen := g), dst, 0) == FirstRow(t, dst, 0)
  {
  }

  lemma CompactedIsLive(v: Table, dst: string)
    requires Inv(v) && Due(v) && dst in Binds(v)
    ensures Inv(Commit(v)) && Binds(Commit(v)) == Binds(v) && FirstIsLive(Commit(v), dst)
  {
    CommitMeans(v);
    CompactKeeps(v);
    var u := Commit(v);
    BoundHasRow(u, dst);
    LiveFits(u.strs, u.rows);
    NoneRemoved(u.rows, FirstRow(u, dst, 0));
  }

  lemma UncompactedIsDead(t: Table, dst: string, src: string)
    requires Inv(t) && '\0' !in dst && dst in Binds(t) && AddBind(t, dst, src).1.Ok?
    requires !Due(AddBind(t, dst, src).0)
    ensures !FirstIsLive(Commit(AddBind(t, dst, src).0), dst)
  {
    var u, v := Tombstone(t, dst), AddBind(t, dst, src).0;
    FirstIsTomb(t, dst);
    TombstoneRemoves(t, dst);
    AppendKeepsFirst(u, dst, src);
    GenIsUnread(v, Commit(v).gen, dst);
  }

  lemma RebindMeans(t: Table, dst: string, src: string)
    requires Inv(t) && '\0' !in dst && dst in Binds(t) && AddBind(t, dst, src).1.Ok?
    ensures var c := BindCommand(t, dst, src);
            && Inv(c) && Binds(c) == Binds(t)[dst := src]
            && (FirstIsLive(c, dst) <==> Due(AddBind(t, dst, src).0))
  {
    var v := AddBind(t, dst, src).0;
    AddBindMeans(t, dst, src);
    CommitMeans(v);
    if Due(v) { CompactedIsLive(v, dst); } else { UncompactedIsDead(t, dst, src); }
  }

  lemma Rebound(b: map<string, string>, dst: string, src: string)
    ensures b[dst := src] - {dst} == b - {dst} && b[dst := src] != b - {dst}
  {
    assert dst in b[dst := src] && dst !in b - {dst};
  }

  /** Binding a bound directory again and then unbinding it leaves the new binding
      in place if and only if the bind's own commit did not compact the table. */
  lemma UnbindAfterRebind(t: Table, dst: string, src: string)
    requires Inv(t) && '\0' !in dst && dst in Binds(t) && AddBind(t, dst, src).1.Ok?
    ensures var u := UnbindCommand(BindCommand(t, dst, src), dst);
            && (Binds(u) == Binds(t)[dst := src] <==> !Due(AddBind(t, dst, src).0))
            && (Binds(u) == Binds(t) - {dst} <==> Due(AddBind(t, dst, src).0))
  {
    RebindMeans(t, dst, src);
    UnbindMeans(BindCommand(t, dst, src), dst);
    Rebound(Binds(t), dst, src);
  }

  lemma FreshBind(cap: nat, dst: string, src: string)
    requires CapOk(cap) && cap >= 2 && Absolute(dst) && Absolute(src) && '\0' !in dst && |dst| + |src| < 1000
    ensures var t := BindCommand(Create(cap), dst, src);
            Inv(t) && t.cap == cap && |t.rows| == 1 && |t.strs| < 1002 && dst in Binds(t)
  {
    var t := Create(cap);
    assert Tombstone(t, dst).rows == [];
    AddBindMeans(t, dst, src);
    CommitMeans(AddBind(t, dst, src).0);
  }

  /** Bound twice, then unbound: still bound, to the second source. */
  lemma TwoBindsOneUnbind(cap: nat)
    requires CapOk(cap) && cap >= 2
    ensures var t := BindCommand(BindCommand(Create(cap), "/a", "/x"), "/a", "/y");
            "/a" in Binds(UnbindCommand(t, "/a")) && Binds(UnbindCommand(t, "/a"))["/a"] == "/y"
  {
    var t := BindCommand(Create(cap), "/a", "/x");
    FreshBind(cap, "/a", "/x");
    assert |Tombstone(t, "/a").rows| == 1;
    UnbindAfterRebind(t, "/a", "/y");
  }

  // ---------------------------------------------------------------------------
  // A full table

  /** Right after a commit, a table of more than eight rows is full only when at
      least half of them are live. */
  lemma FullMeansHalfLive(t: Table, dst: string, src: string)
    requires Inv(t) && t.cap > 8 && AddBind(Commit(t), dst, src).1 == Err(ShadowFull)
    ensures 2 * |Live(t.strs, t.rows)| >= t.cap
  {
    CommitMeans(t);
  }

  lemma NotDueAfterCommit(t: Table)
    requires Inv(t)
    ensures !Due(Commit(t))
  {
    CommitMeans(t);
    var u := Commit(t);
    LiveFits(u.strs, u.rows);
  }

  /** Every command that is not a rejected bind leaves a table that is not due. */
  lemma CommandsLeaveNotDue(t: Table, dst: string, src: string)
    requires Inv(t) && '\0' !in dst
    ensures AddBind(t, dst, src).1.Ok? ==> !Due(BindCommand(t, dst, src))
    ensures FirstRow(t, dst, 0) < |t.rows| ==> !Due(UnbindCommand(t, dst))
  {
    AddBindMeans(t, dst, src);
    NotDueAfterCommit(AddBind(t, dst, src).0);
    if FirstRow(t, dst, 0) < |t.rows| {
      MarkKeepsInv(t, dst);
      NotDueAfterCommit(Mark(t, dst));
    }
  }

  function BindAll(t: Table, dsts: seq<string>, src: string): Table {
    if dsts == [] then t else BindCommand(BindAll(t, dsts[..|dsts| - 1], src), dsts[|dsts| - 1], src)
  }

  lemma RejectedBind(t: Table, dst: string, src: string)
    requires Inv(t) && |t.rows| >= t.cap && Absolute(dst) && Absolute(src) && '\0' !in dst
    ensures var u := BindCommand(t, dst, src);
            Inv(u) && u.cap == t.cap && |u.rows| == |t.rows| && Binds(u) == Binds(t) - {dst}
            && AddBind(t, dst, src).1 == Err(ShadowFull)
  {
    AddBindMeans(t, dst, src);
  }

  /** `u` is as full as `t` and has all its bindings but those in `gone`. */
  ghost predicate FullLess(u: Table, t: Table, gone: seq<string>) {
    && Inv(u) && u.cap == t.cap && |u.rows| == |t.rows|
    && forall d :: d in Binds(u) <==> d in Binds(t) && d !in gone
  }

  lemma OneMoreGone(u: Table, t: Table, gone: seq<string>, dst: string, src: string)
    requires FullLess(u, t, gone) && |t.rows| >= t.cap && Absolute(dst) && Absolute(src) && '\0' !in dst
    ensures FullLess(BindCommand(u, dst, src), t, gone + [dst])
  {
    RejectedBind(u, dst, src);
  }

  /** On a full table every bind is rejected, unbinds its directory all the same,
      and leaves the table full: binding every bound directory again leaves a full
      table with no binding, on which every further bind fails. */
  lemma {:induction false} FullStaysFull(t: Table, dsts: seq<string>, src: string)
    requires Inv(t) && |t.rows| >= t.cap && Absolute(src)
    requires forall k | 0 <= k < |dsts| :: Absolute(dsts[k]) && '\0' !in dsts[k]
    ensures FullLess(BindAll(t, dsts, src), t, dsts)
  {
    if dsts != [] {
      var n := |dsts| - 1;
      var front, dst := dsts[..n], dsts[n];
      assert dsts == front + [dst];
      FullStaysFull(t, front, src);
      OneMoreGone(BindAll(t, front, src), t, front, dst, src);
    }
  }
}
