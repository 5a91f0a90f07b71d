/** Whole runs of the holder's commands from a new table: what the table stands for
    between commits, and when a full table is at least half live. */
module HolderRuns {
  import opened Common
  import opened PathTranslate
  import opened ShadowTable
  import opened HolderCommands

  datatype Command = Bind(dst: string, src: string) | Unbind(dst: string)

  ghost predicate CommandsOk(cmds: seq<Command>) { forall k | 0 <= k < |cmds| :: '\0' !in cmds[k].dst }

  function Do(t: Table, c: Command): Table {
    match c
    case Bind(dst, src) => BindCommand(t, dst, src)
    case Unbind(dst) => UnbindCommand(t, dst)
  }

  function After(t: Table, cmds: seq<Command>): Table {
    if cmds == [] then t else Do(After(t, cmds[..|cmds| - 1]), cmds[|cmds| - 1])
  }

  /** The command ends with a commit: an accepted bind, or an unbind that finds a row. */
  predicate Commits(t: Table, c: Command) {
    match c
    case Bind(dst, src) => AddBind(t, dst, src).1.Ok?
    case Unbind(dst) => FirstRow(t, dst, 0) < |t.rows|
  }

  /** The command is a bind that finds no room. */
  predicate Rejected(t: Table, c: Command) {
    c.Bind? && AddBind(t, c.dst, c.src).1.Err? && AddBind(t, c.dst, c.src).1.error != NotAbsolute
  }

  /** What command `k` of a run does. */
  predicate CommitsAt(t: Table, cmds: seq<Command>, k: nat) { k < |cmds| && Commits(After(t, cmds[..k]), cmds[k]) }

  predicate RejectedAt(t: Table, cmds: seq<Command>, k: nat) { k < |cmds| && Rejected(After(t, cmds[..k]), cmds[k]) }

  /** How many commands it took to the last commit. */
  function LastCommit(t: Table, cmds: seq<Command>): (n: nat)
    ensures n <= |cmds|
  {
    if cmds == [] then 0
    else
      var front := cmds[..|cmds| - 1];
      if Commits(After(t, front), cmds[|cmds| - 1]) then |cmds| else LastCommit(t, front)
  }

  /** The directories bound in vain since the last commit. */
  function Vain(t: Table, cmds: seq<Command>): set<string> {
    if cmds == [] then {}
    else
      var front, c := cmds[..|cmds| - 1], cmds[|cmds| - 1];
      if Commits(After(t, front), c) then {}
      else if Rejected(After(t, front), c) then Vain(t, front) + {c.dst}
      else Vain(t, front)
  }

  // ---------------------------------------------------------------------------
  // One command

  lemma CommitStep(t: Table, c: Command)
    requires Inv(t) && '\0' !in c.dst && Commits(t, c)
    ensures Inv(Do(t, c)) && !Due(Do(t, c)) && Do(t, c).cap == t.cap
  {
    match c
    case Bind(dst, src) =>
      AddBindMeans(t, dst, src);
      CommitMeans(AddBind(t, dst, src).0);
      CommandsLeaveNotDue(t, dst, src);
    case Unbind(dst) =>
      MarkKeepsInv(t, dst);
      CommitMeans(Mark(t, dst));
      CommandsLeaveNotDue(t, dst, "");
  }

  lemma QuietStep(t: Table, c: Command)
    requires Inv(t) && '\0' !in c.dst && !Commits(t, c)
    ensures Inv(Do(t, c)) && SameRows(Do(t, c), t)
    ensures Binds(Do(t, c)) == Binds(t) - (if Rejected(t, c) then {c.dst} else {})
  {
    if c.Bind? { AddBindMeans(t, c.dst, c.src); }
  }

  // ---------------------------------------------------------------------------
  // Runs

  /** The same strings, and the same rows up to their state. */
  ghost predicate SameRows(t: Table, u: Table) {
    && t.cap == u.cap && t.strs == u.strs && |t.rows| == |u.rows|
    && forall i | 0 <= i < |t.rows| :: t.rows[i].(state := 0) == u.rows[i].(state := 0)
  }

  /** `t` has come from `u`, the table of the last commit, by binds in vain. */
  ghost predicate Since(t: Table, u: Table, vain: set<string>) {
    && Inv(t) && Inv(u) && SameRows(t, u) && !Due(u)
    && Binds(t) == Binds(u) - vain
  }

  lemma SinceStep(t: Table, u: Table, vain: set<string>, c: Command)
    requires Since(t, u, vain) && '\0' !in c.dst
    ensures Commits(t, c) ==> Since(Do(t, c), Do(t, c), {})
    ensures !Commits(t, c) ==> Since(Do(t, c), u, if Rejected(t, c) then vain + {c.dst} else vain)
  {
    if Commits(t, c) {
      CommitStep(t, c);
      SinceItself(Do(t, c));
    } else {
      QuietStep(t, c);
      SinceLess(Do(t, c), t, u, vain, if Rejected(t, c) then {c.dst} else {});
      assert vain + {} == vain;
    }
  }

  lemma SinceLess(t: Table, s: Table, u: Table, vain: set<string>, more: set<string>)
    requires Since(s, u, vain) && Inv(t) && SameRows(t, s) && Binds(t) == Binds(s) - more
    ensures Since(t, u, vain + more)
  {
    SameRowsTwice(t, s, u);
    assert Binds(u) - vain - more == Binds(u) - (vain + more);
  }

  lemma SinceItself(t: Table)
    requires Inv(t) && !Due(t)
    ensures Since(t, t, {})
  {
    assert Binds(t) - {} == Binds(t);
  }

  lemma SameRowsTwice(t: Table, u: Table, v: Table)
    requires SameRows(t, u) && SameRows(u, v)
    ensures SameRows(t, v)
  {
  }

  lemma NewTableSince(cap: nat)
    requires CapOk(cap)
    ensures Since(Create(cap), Create(cap), {})
  {
    assert Binds(Create(cap)) == map[];
  }

  /** After any run the table has the rows of the last commit, up to their state, and
      stands for its map less the directories bound in vain since. */
  lemma {:induction false} SinceLastCommit(cap: nat, cmds: seq<Command>)
    requires CapOk(cap) && CommandsOk(cmds)
    ensures var t := Create(cap);
            Since(After(t, cmds), After(t, cmds[..LastCommit(t, cmds)]), Vain(t, cmds))
    ensures After(Create(cap), cmds).cap == cap
    decreases |cmds|
  {
    if cmds == [] {
      NewTableSince(cap);
    } else {
      var t, front, c := Create(cap), cmds[..|cmds| - 1], cmds[|cmds| - 1];
      SinceLastCommit(cap, front);
      var n := LastCommit(t, front);
      assert front[..n] == cmds[..n] && cmds[..|cmds|] == cmds;
      SinceStep(After(t, front), After(t, front[..n]), Vain(t, front), c);
      CapStays(After(t, front), c);
    }
  }

  lemma CapStays(t: Table, c: Command)
    requires Inv(t) && '\0' !in c.dst
    ensures Do(t, c).cap == t.cap
  {
    if Commits(t, c) { CommitStep(t, c); } else { QuietStep(t, c); }
  }

  /** As many live rows as bound directories. */
  lemma LiveAreBinds(t: Table)
    requires Inv(t)
    ensures |Live(t.strs, t.rows)| == |Binds(t).Keys|
  {
    LiveDistinct(t, |t.rows|);
    assert t.rows[..|t.rows|] == t.rows;
    DistinctKeys(Live(t.strs, t.rows));
  }

  lemma {:induction false} DistinctKeys(es: seq<Entry>)
    requires Distinct(es)
    ensures |ToMap(es).Keys| == |es|
  {
    if es != [] {
      var n := |es| - 1;
      var front := es[..n];
      DistinctKeys(front);
      DistinctMap(front);
      assert es[n].dst !in ToMap(front);
      assert ToMap(es).Keys == ToMap(front).Keys + {es[n].dst};
    }
  }

  /** After any run, a full table is at least half live if and only if the
      directories bound at the last commit and not bound in vain since are. */
  lemma FullIsHalfLiveIff(cap: nat, cmds: seq<Command>)
    requires CapOk(cap) && CommandsOk(cmds) && |After(Create(cap), cmds).rows| == cap
    ensures var t, n := After(Create(cap), cmds), LastCommit(Create(cap), cmds);
            var kept := Binds(After(Create(cap), cmds[..n])).Keys - Vain(Create(cap), cmds);
            2 * |Live(t.strs, t.rows)| >= cap <==> 2 * |kept| >= cap
  {
    var t := After(Create(cap), cmds);
    SinceLastCommit(cap, cmds);
    LiveAreBinds(t);
    var u := After(Create(cap), cmds[..LastCommit(Create(cap), cmds)]);
    assert Binds(t).Keys == Binds(u).Keys - Vain(Create(cap), cmds);
  }

  lemma NothingInVain(t: Table, u: Table)
    requires Since(t, u, {}) && t.cap > 8 && |t.rows| == t.cap
    ensures 2 * |Live(t.strs, t.rows)| >= t.cap
  {
    assert Binds(t) == Binds(u);
    LiveAreBinds(t);
    LiveAreBinds(u);
    LiveFits(u.strs, u.rows);
  }

  /** A full table that is not half live has had a bind rejected since its last
      commit. */
  lemma FullOfRejects(cap: nat, cmds: seq<Command>) returns (k: nat)
    requires CapOk(cap) && cap > 8 && CommandsOk(cmds)
    requires var t := After(Create(cap), cmds); |t.rows| == cap && 2 * |Live(t.strs, t.rows)| < cap
    ensures k < |cmds| && RejectedAt(Create(cap), cmds, k)
    ensures forall j | k <= j < |cmds| :: !CommitsAt(Create(cap), cmds, j)
  {
    var t, n := Create(cap), LastCommit(Create(cap), cmds);
    SinceLastCommit(cap, cmds);
    if Vain(t, cmds) == {} { NothingInVain(After(t, cmds), After(t, cmds[..n])); }
    k := LastReject(t, cmds);
  }

  /** What is up after step `n` was up before or is raised by it, and is not lowered. */
  ghost predicate Follows(up: nat -> bool, raise: nat -> bool, lower: nat -> bool, n: nat) {
    up(n + 1) ==> !lower(n) && (up(n) || raise(n))
  }

  /** What is up was raised, and has not been lowered since. */
  lemma {:induction false} LastRaise(up: nat -> bool, raise: nat -> bool, lower: nat -> bool, n: nat) returns (k: nat)
    requires !up(0) && up(n) && forall i: nat | i < n :: Follows(up, raise, lower, i)
    ensures k < n && raise(k) && forall j: nat | k <= j < n :: !lower(j)
  {
    assert Follows(up, raise, lower, n - 1);
    k := n - 1;
    if !raise(k) { k := LastRaise(up, raise, lower, n - 1); }
  }

  lemma VainFollows(t: Table, cmds: seq<Command>, n: nat)
    requires n < |cmds| && Vain(t, cmds[..n + 1]) != {}
    ensures !CommitsAt(t, cmds, n) && (Vain(t, cmds[..n]) != {} || RejectedAt(t, cmds, n))
  {
    assert cmds[..n + 1][..n] == cmds[..n];
  }

  lemma LastReject(t: Table, cmds: seq<Command>) returns (k: nat)
    requires Vain(t, cmds) != {}
    ensures k < |cmds| && RejectedAt(t, cmds, k) && forall j | k <= j < |cmds| :: !CommitsAt(t, cmds, j)
  {
    var up := (n: nat) => n <= |cmds| && Vain(t, cmds[..n]) != {};
    var raise, lower := (n: nat) => RejectedAt(t, cmds, n), (n: nat) => CommitsAt(t, cmds, n);
    assert cmds[..|cmds|] == cmds;
    forall n: nat | n < |cmds| ensures Follows(up, raise, lower, n) {
      if up(n + 1) { VainFollows(t, cmds, n); }
    }
    k := LastRaise(up, raise, lower, |cmds|);
    forall j | k <= j < |cmds| ensures !CommitsAt(t, cmds, j) {
      assert !lower(j);
    }
  }

  // ---------------------------------------------------------------------------
  // A run that fills the table and then empties it

  ghost predicate NewNames(dsts: seq<string>) {
    && (forall k | 0 <= k < |dsts| :: Absolute(dsts[k]) && '\0' !in dsts[k])
    && (forall j, k | 0 <= j < k < |dsts| :: dsts[j] != dsts[k])
  }

  /** The string bytes it takes to bind `dsts` to `src`. */
  function Room(dsts: seq<string>, src: string): nat {
    if dsts == [] then 0 else Room(dsts[..|dsts| - 1], src) + Need(dsts[|dsts| - 1], src)
  }

  /** A table of `n` rows, all live, with `bytes` of strings. */
  ghost predicate AllLive(t: Table, cap: nat, n: nat, bytes: nat) {
    Inv(t) && t.cap == cap && |t.rows| == n && Removed(t.rows) == 0 && |t.strs| == bytes
  }

  /** Room for one more binding. */
  ghost predicate Fits(cap: nat, n: nat, bytes: nat, dst: string, src: string) {
    n < cap && Base(cap) + bytes + Need(dst, src) <= MAP_SIZE
  }

  lemma FreshBindStep(t: Table, cap: nat, n: nat, bytes: nat, dst: string, src: string)
    requires AllLive(t, cap, n, bytes) && Fits(cap, n, bytes, dst, src) && dst !in Binds(t)
    requires Absolute(dst) && '\0' !in dst && Absolute(src)
    ensures var u := BindCommand(t, dst, src);
            AllLive(u, cap, n + 1, bytes + Need(dst, src)) && Binds(u).Keys == Binds(t).Keys + {dst}
  {
    FreshAdd(t, cap, n, bytes, dst, src);
    AllLiveCommit(AddBind(t, dst, src).0, cap, n + 1, bytes + Need(dst, src));
  }

  lemma FreshAdd(t: Table, cap: nat, n: nat, bytes: nat, dst: string, src: string)
    requires AllLive(t, cap, n, bytes) && Fits(cap, n, bytes, dst, src) && dst !in Binds(t)
    requires Absolute(dst) && '\0' !in dst && Absolute(src)
    ensures var (v, r) := AddBind(t, dst, src);
            && r.Ok? && AllLive(v, cap, n + 1, bytes + Need(dst, src))
            && Binds(v).Keys == Binds(t).Keys + {dst}
  {
    var v := AddBind(t, dst, src).0;
    AddIsTaken(t, dst, src);
    AddBindMeans(t, dst, src);
    assert Binds(v).Keys == Binds(t).Keys + {dst};
    MoreAreLive(t, v, dst);
  }

  lemma AddIsTaken(t: Table, dst: string, src: string)
    requires Fits(t.cap, |t.rows|, |t.strs|, dst, src) && Absolute(dst) && Absolute(src)
    ensures var (v, r) := AddBind(t, dst, src);
            r.Ok? && v.cap == t.cap && |v.rows| == |t.rows| + 1 && |v.strs| == |t.strs| + Need(dst, src)
  {
    assert Full(Tombstone(t, dst), dst, src) == None;
  }

  lemma AllLiveCommit(v: Table, cap: nat, n: nat, bytes: nat)
    requires AllLive(v, cap, n, bytes)
    ensures AllLive(Commit(v), cap, n, bytes) && Binds(Commit(v)) == Binds(v)
  {
    assert Compacted(v) == v;
    Published(v);
  }

  lemma MoreAreLive(t: Table, v: Table, dst: string)
    requires Inv(t) && Inv(v) && Removed(t.rows) == 0 && |v.rows| == |t.rows| + 1
    requires dst !in Binds(t) && Binds(v).Keys == Binds(t).Keys + {dst}
    ensures Removed(v.rows) == 0
  {
    LiveFits(t.strs, t.rows);
    LiveFits(v.strs, v.rows);
    LiveAreBinds(t);
    LiveAreBinds(v);
  }

  /** All of `dsts` and nothing else is bound, and nothing is tombstoned. */
  ghost predicate Bound(u: Table, cap: nat, dsts: seq<string>, src: string) {
    AllLive(u, cap, |dsts|, Room(dsts, src)) && forall d :: d in Binds(u) <==> d in dsts
  }

  lemma BoundStep(u: Table, cap: nat, dsts: seq<string>, src: string, dst: string)
    requires Bound(u, cap, dsts, src) && dst !in dsts && Fits(cap, |dsts|, Room(dsts, src), dst, src)
    requires Absolute(dst) && '\0' !in dst && Absolute(src)
    ensures Bound(BindCommand(u, dst, src), cap, dsts + [dst], src)
  {
    FreshBindStep(u, cap, |dsts|, Room(dsts, src), dst, src);
    RoomSnoc(dsts, src, dst);
    OneMore(Binds(u).Keys, dsts, dst);
  }

  lemma RoomSnoc(dsts: seq<string>, src: string, dst: string)
    ensures Room(dsts + [dst], src) == Room(dsts, src) + Need(dst, src)
  {
    assert (dsts + [dst])[..|dsts|] == dsts;
  }

  lemma OneMore(b: set<string>, dsts: seq<string>, dst: string)
    requires forall d :: d in b <==> d in dsts
    ensures forall d :: d in b + {dst} <==> d in dsts + [dst]
  {
  }

  lemma {:induction false} FreshBinds(cap: nat, dsts: seq<string>, src: string)
    requires CapOk(cap) && |dsts| <= cap && NewNames(dsts) && Absolute(src) && Base(cap) + Room(dsts, src) <= MAP_SIZE
    ensures Bound(BindAll(Create(cap), dsts, src), cap, dsts, src)
    decreases |dsts|
  {
    if dsts == [] {
      NewTableSince(cap);
    } else {
      var front, dst := dsts[..|dsts| - 1], dsts[|dsts| - 1];
      assert dsts == front + [dst] && dst !in front;
      RoomSnoc(front, src, dst);
      FreshBinds(cap, front, src);
      BoundStep(BindAll(Create(cap), front, src), cap, front, src, dst);
    }
  }

  /** A table can be filled and then left with fewer than half of its rows live: bind as
      many directories as it has rows, with strings that fit, then bind more than half
      of them again. */
  lemma RebindsEmptyFullTable(cap: nat, dsts: seq<string>, again: seq<string>, src: string)
    requires CapOk(cap) && |dsts| == cap && NewNames(dsts) && NewNames(again) && Absolute(src)
    requires Base(cap) + Room(dsts, src) <= MAP_SIZE
    requires (forall d | d in again :: d in dsts) && 2 * |again| > cap
    ensures var t := BindAll(BindAll(Create(cap), dsts, src), again, src);
            Inv(t) && |t.rows| == cap && 2 * |Live(t.strs, t.rows)| < cap
  {
    var full := BindAll(Create(cap), dsts, src);
    var t := BindAll(full, again, src);
    FreshBinds(cap, dsts, src);
    FullStaysFull(full, again, src);
    LiveAreBinds(full);
    LiveAreBinds(t);
    LiveFits(full.strs, full.rows);
    var gone := Elements(again);
    assert Binds(t).Keys == Binds(full).Keys - gone && gone <= Binds(full).Keys;
  }

  lemma {:induction false} ShortNamesFit(dsts: seq<string>, src: string, n: nat)
    requires forall k | 0 <= k < |dsts| :: |dsts[k]| <= n
    ensures Room(dsts, src) <= |dsts| * (n + |src| + 2)
    decreases |dsts|
  {
    if dsts != [] { ShortNamesFit(dsts[..|dsts| - 1], src, n); }
  }

  /** As many elements as a sequence without repetitions has places. */
  lemma {:induction false} Elements(xs: seq<string>) returns (r: set<string>)
    requires forall j, k | 0 <= j < k < |xs| :: xs[j] != xs[k]
    ensures |r| == |xs| && forall x :: x in r <==> x in xs
    decreases |xs|
  {
    if xs == [] {
      r := {};
    } else {
      var n := |xs| - 1;
      r := Elements(xs[..n]);
      assert xs[n] !in xs[..n];
      assert forall x :: x in xs <==> x in xs[..n] || x == xs[n];
      r := r + {xs[n]};
    }
  }

  /** Nine binds and five rejected rebinds on a table of nine rows. */
  lemma NineBindsFiveRebinds()
    ensures var nine := ["/a", "/b", "/c", "/d", "/e", "/f", "/g", "/h", "/i"];
            var t := BindAll(BindAll(Create(9), nine, "/s"), nine[..5], "/s");
            |t.rows| == 9 && 2 * |Live(t.strs, t.rows)| < 9
  {
    var nine := ["/a", "/b", "/c", "/d", "/e", "/f", "/g", "/h", "/i"];
    assert NewNames(nine) by {
      assert forall k | 0 <= k < 9 :: |nine[k]| == 2 && nine[k][0] == '/' && nine[k][1] == 'a' + k as char;
    }
    assert NewNames(nine[..5]);
    ShortNamesFit(nine, "/s", 2);
    RebindsEmptyFullTable(9, nine, nine[..5], "/s");
  }
}
