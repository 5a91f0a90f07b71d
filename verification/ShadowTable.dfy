/** The shadow mount table: rows and a string table in one 64 KiB buffer, written
    by the session owner and read by every interposed process.  A row binds a
    guest directory `dst` to a source directory `src`; rows are appended, never
    moved, and tombstoned until a commit compacts the table. */
module ShadowTable {
  import opened Common
  import opened PathTranslate

  const MAP_SIZE: nat := 65536
  const HDR_SIZE: nat := 56
  const ENTRY_SIZE: nat := 28
  const T_BIND: nat := 1
  const S_VALID: nat := 1
  const S_REMOVED: nat := 4
  const STALE_NS: nat := 2_000_000_000

  datatype Row = Row(typ: nat, state: nat, srcOff: nat, srcLen: nat, dstOff: nat, dstLen: nat)

  /** `rows` are the used rows and `strs` the used bytes of the string table. */
  datatype Table = Table(cap: nat, rows: seq<Row>, strs: string, gen: nat)

  datatype Error = NotAbsolute | ShadowFull | StrtabFull | BadIndex
  datatype Result = Ok(index: nat) | Err(error: Error)

  /** Where the string table starts. */
  function Base(cap: nat): nat { HDR_SIZE + cap * ENTRY_SIZE }

  predicate CapOk(cap: nat) { Base(cap) < MAP_SIZE / 2 }

  function Slice(strs: string, off: nat, len: nat): string {
    if off + len <= |strs| then strs[off..off + len] else ""
  }

  function Dst(strs: string, r: Row): string { Slice(strs, r.dstOff, r.dstLen) }

  function Src(strs: string, r: Row): string { Slice(strs, r.srcOff, r.srcLen) }

  function Create(cap: nat): Table { Table(cap, [], "", 1) }

  // ---------------------------------------------------------------------------
  // The owner's operations

  /** Strings of one row with their terminators. */
  function Need(dst: string, src: string): nat { |dst| + 1 + |src| + 1 }

  function Append(t: Table, typ: nat, dst: string, src: string): Table {
    var at := |t.strs|;
    t.(rows := t.rows + [Row(typ, S_VALID, at + |dst| + 1, |src|, at, |dst|)],
       strs := t.strs + dst + "\0" + src + "\0")
  }

  function Full(t: Table, dst: string, src: string): Option<Error> {
    if |t.rows| >= t.cap then Some(ShadowFull)
    else if Base(t.cap) + |t.strs| + Need(dst, src) > MAP_SIZE then Some(StrtabFull)
    else None
  }

  function Bury(strs: string, r: Row, dst: string): Row {
    if r.typ == T_BIND && r.state == S_VALID && Dst(strs, r) == dst then r.(state := S_REMOVED) else r
  }

  /** Every live row for `dst` becomes a tombstone. */
  function Tombstone(t: Table, dst: string): Table {
    t.(rows := seq(|t.rows|, i requires 0 <= i < |t.rows| => Bury(t.strs, t.rows[i], dst)))
  }

  /** A rejected add has tombstoned the old row already. */
  function AddBind(t: Table, dst: string, src: string): (Table, Result) {
    if !Absolute(dst) || !Absolute(src) then (t, Err(NotAbsolute))
    else
      var u := Tombstone(t, dst);
      match Full(u, dst, src)
      case Some(e) => (u, Err(e))
      case None => (Append(u, T_BIND, dst, src), Ok(|t.rows|))
  }

  function MarkState(t: Table, idx: nat, state: nat): (Table, Result) {
    if idx >= |t.rows| then (t, Err(BadIndex))
    else (t.(rows := t.rows[idx := t.rows[idx].(state := state)]), Ok(idx))
  }

  function Removed(rows: seq<Row>): nat {
    if rows == [] then 0
    else Removed(rows[..|rows| - 1]) + (if rows[|rows| - 1].state == S_REMOVED then 1 else 0)
  }

  datatype Entry = Entry(typ: nat, dst: string, src: string)

  /** What every live row says, in row order. */
  function Live(strs: string, rows: seq<Row>): seq<Entry> {
    if rows == [] then []
    else
      var r, front := rows[|rows| - 1], Live(strs, rows[..|rows| - 1]);
      if r.state == S_VALID then front + [Entry(r.typ, Dst(strs, r), Src(strs, r))] else front
  }

  /** Appends every entry, or stops at the first that does not fit. */
  function Rebuild(t: Table, es: seq<Entry>): (Table, bool) {
    if es == [] then (t, true)
    else
      var (u, ok) := Rebuild(t, es[..|es| - 1]);
      var e := es[|es| - 1];
      if !ok || Full(u, e.dst, e.src).Some? then (u, false) else (Append(u, e.typ, e.dst, e.src), true)
  }

  /** The table rebuilt from its live rows, and whether they all went in. */
  function Compact(t: Table): (Table, bool) {
    Rebuild(t.(rows := [], strs := ""), Live(t.strs, t.rows))
  }

  function Compacted(t: Table): Table {
    if |t.rows| > 8 && Removed(t.rows) * 2 > |t.rows| then Compact(t).0 else t
  }

  function Commit(t: Table): Table {
    var u := Compacted(t);
    u.(gen := u.gen - u.gen % 2 + 2)
  }

  // ---------------------------------------------------------------------------
  // The map the table stands for

  function ToMap(es: seq<Entry>): map<string, string> {
    if es == [] then map[] else ToMap(es[..|es| - 1])[es[|es| - 1].dst := es[|es| - 1].src]
  }

  function Binds(t: Table): map<string, string> { ToMap(Live(t.strs, t.rows)) }

  function Without(es: seq<Entry>, dst: string): seq<Entry> {
    if es == [] then []
    else
      var e, front := es[|es| - 1], Without(es[..|es| - 1], dst);
      if e.dst == dst then front else front + [e]
  }

  // ---------------------------------------------------------------------------
  // The invariant

  predicate RowOk(strs: string, r: Row) {
    && r.typ == T_BIND && (r.state == S_VALID || r.state == S_REMOVED)
    && r.dstOff + r.dstLen <= |strs| && r.srcOff + r.srcLen <= |strs|
    && Absolute(Dst(strs, r)) && '\0' !in Dst(strs, r)
  }

  /** The bytes the rows' strings and terminators take. */
  function Bytes(rows: seq<Row>): nat {
    if rows == [] then 0
    else Bytes(rows[..|rows| - 1]) + rows[|rows| - 1].dstLen + 1 + rows[|rows| - 1].srcLen + 1
  }

  predicate Unique(t: Table) {
    forall i, j | 0 <= i < j < |t.rows| && t.rows[i].state == S_VALID && t.rows[j].state == S_VALID ::
      Dst(t.strs, t.rows[i]) != Dst(t.strs, t.rows[j])
  }

  predicate Inv(t: Table) {
    && CapOk(t.cap) && |t.rows| <= t.cap && Base(t.cap) + |t.strs| <= MAP_SIZE
    && (forall i | 0 <= i < |t.rows| :: RowOk(t.strs, t.rows[i]))
    && Bytes(t.rows) == |t.strs|
    && Unique(t)
  }

  // Appending

  lemma SliceStays(strs: string, more: string, off: nat, len: nat)
    requires off + len <= |strs|
    ensures Slice(strs + more, off, len) == Slice(strs, off, len)
  {
  }

  lemma RowStays(strs: string, more: string, r: Row)
    requires RowOk(strs, r)
    ensures RowOk(strs + more, r) && Dst(strs + more, r) == Dst(strs, r) && Src(strs + more, r) == Src(strs, r)
  {
    SliceStays(strs, more, r.dstOff, r.dstLen);
    SliceStays(strs, more, r.srcOff, r.srcLen);
  }

  lemma {:induction false} LiveStays(strs: string, more: string, rows: seq<Row>)
    requires forall i | 0 <= i < |rows| :: RowOk(strs, rows[i])
    ensures Live(strs + more, rows) == Live(strs, rows)
  {
    if rows != [] {
      LiveStays(strs, more, rows[..|rows| - 1]);
      RowStays(strs, more, rows[|rows| - 1]);
    }
  }

  lemma AppendedRow(t: Table, typ: nat, dst: string, src: string)
    ensures var u := Append(t, typ, dst, src); var r := u.rows[|t.rows|];
            Dst(u.strs, r) == dst && Src(u.strs, r) == src
  {
    var u := Append(t, typ, dst, src);
    var at := |t.strs|;
    assert u.strs[at..at + |dst|] == dst;
    assert u.strs[at + |dst| + 1..at + |dst| + 1 + |src|] == src;
  }

  lemma AppendLive(t: Table, dst: string, src: string)
    requires forall i | 0 <= i < |t.rows| :: RowOk(t.strs, t.rows[i])
    ensures var u := Append(t, T_BIND, dst, src);
            Live(u.strs, u.rows) == Live(t.strs, t.rows) + [Entry(T_BIND, dst, src)]
  {
    var u := Append(t, T_BIND, dst, src);
    var more := dst + "\0" + src + "\0";
    assert u.strs == t.strs + more;
    assert u.rows[..|t.rows|] == t.rows;
    AppendedRow(t, T_BIND, dst, src);
    LiveStays(t.strs, more, t.rows);
  }

  lemma AppendRows(t: Table, dst: string, src: string)
    requires Inv(t) && Absolute(dst) && '\0' !in dst
    ensures var u := Append(t, T_BIND, dst, src);
            && (forall i | 0 <= i < |t.rows| ::
                  RowOk(u.strs, u.rows[i]) && Dst(u.strs, u.rows[i]) == Dst(t.strs, t.rows[i]))
            && RowOk(u.strs, u.rows[|t.rows|]) && Dst(u.strs, u.rows[|t.rows|]) == dst
  {
    var u := Append(t, T_BIND, dst, src);
    var more := dst + "\0" + src + "\0";
    assert u.strs == t.strs + more;
    AppendedRow(t, T_BIND, dst, src);
    forall i | 0 <= i < |t.rows| ensures RowOk(u.strs, u.rows[i]) && Dst(u.strs, u.rows[i]) == Dst(t.strs, t.rows[i]) {
      RowStays(t.strs, more, t.rows[i]);
    }
  }

  predicate Absent(t: Table, dst: string) {
    forall i | 0 <= i < |t.rows| && t.rows[i].state == S_VALID :: Dst(t.strs, t.rows[i]) != dst
  }

  /** Appending a row whose dst has no live row adds its pair at the end of the
      live sequence. */
  lemma AppendExtends(t: Table, dst: string, src: string)
    requires Inv(t) && Full(t, dst, src) == None && Absolute(dst) && '\0' !in dst && Absent(t, dst)
    ensures var u := Append(t, T_BIND, dst, src);
            Inv(u) && Live(u.strs, u.rows) == Live(t.strs, t.rows) + [Entry(T_BIND, dst, src)]
  {
    var u := Append(t, T_BIND, dst, src);
    assert u.rows[..|t.rows|] == t.rows;
    AppendRows(t, dst, src);
    AppendLive(t, dst, src);
  }

  // Tombstones

  lemma TombstoneRows(t: Table, dst: string)
    requires Inv(t)
    ensures var u := Tombstone(t, dst);
            && Absent(u, dst) && Unique(u)
            && (forall i | 0 <= i < |t.rows| ::
                  RowOk(u.strs, u.rows[i]) && Dst(u.strs, u.rows[i]) == Dst(t.strs, t.rows[i]))
  {
  }

  lemma WithoutSnoc(es: seq<Entry>, e: Entry, dst: string)
    ensures Without(es + [e], dst) == if e.dst == dst then Without(es, dst) else Without(es, dst) + [e]
  {
    assert (es + [e])[..|es|] == es;
  }

  lemma {:induction false} BuriedLive(strs: string, rows: seq<Row>, buried: seq<Row>, dst: string)
    requires |buried| == |rows|
    requires forall i | 0 <= i < |rows| :: rows[i].typ == T_BIND && buried[i] == Bury(strs, rows[i], dst)
    ensures Live(strs, buried) == Without(Live(strs, rows), dst)
  {
    if rows != [] {
      var n := |rows| - 1;
      var r := rows[n];
      BuriedLive(strs, rows[..n], buried[..n], dst);
      WithoutSnoc(Live(strs, rows[..n]), Entry(r.typ, Dst(strs, r), Src(strs, r)), dst);
    }
  }

  lemma {:induction false} SameBytes(rows: seq<Row>, other: seq<Row>)
    requires |other| == |rows|
    requires forall i | 0 <= i < |rows| :: other[i].dstLen == rows[i].dstLen && other[i].srcLen == rows[i].srcLen
    ensures Bytes(other) == Bytes(rows)
  {
    if rows != [] { SameBytes(rows[..|rows| - 1], other[..|rows| - 1]); }
  }

  /** Tombstoning removes exactly the live pair of `dst`. */
  lemma TombstoneRemoves(t: Table, dst: string)
    requires Inv(t)
    ensures var u := Tombstone(t, dst);
            Inv(u) && Absent(u, dst) && Live(u.strs, u.rows) == Without(Live(t.strs, t.rows), dst)
  {
    var u := Tombstone(t, dst);
    TombstoneRows(t, dst);
    BuriedLive(t.strs, t.rows, u.rows, dst);
    SameBytes(t.rows, u.rows);
  }

  lemma {:induction false} WithoutMap(es: seq<Entry>, dst: string)
    ensures ToMap(Without(es, dst)) == ToMap(es) - {dst}
  {
    if es != [] {
      var front, e := es[..|es| - 1], es[|es| - 1];
      WithoutMap(front, dst);
      if e.dst == dst {
        assert Without(es, dst) == Without(front, dst);
        assert ToMap(front)[dst := e.src] - {dst} == ToMap(front) - {dst};
      } else {
        AppendMap(Without(front, dst), e);
        assert (ToMap(front) - {dst})[e.dst := e.src] == ToMap(front)[e.dst := e.src] - {dst};
      }
    }
  }

  lemma AppendMap(es: seq<Entry>, e: Entry)
    ensures ToMap(es + [e]) == ToMap(es)[e.dst := e.src]
  {
    assert (es + [e])[..|es|] == es;
  }

  lemma AcceptedMeans(t: Table, u: Table, dst: string, src: string)
    requires Inv(u) && Absent(u, dst) && Absolute(dst) && '\0' !in dst && Full(u, dst, src) == None
    requires Binds(u) == Binds(t) - {dst}
    ensures var v := Append(u, T_BIND, dst, src);
            && Inv(v) && Binds(v) == Binds(t)[dst := src]
            && Live(v.strs, v.rows) == Live(u.strs, u.rows) + [Entry(T_BIND, dst, src)]
  {
    AppendExtends(u, dst, src);
    AppendMap(Live(u.strs, u.rows), Entry(T_BIND, dst, src));
    assert (Binds(t) - {dst})[dst := src] == Binds(t)[dst := src];
  }

  /** What adding does to the map: an accepted add binds, a rejected one has
      unbound, a relative path changes nothing. */
  lemma AddBindMeans(t: Table, dst: string, src: string)
    requires Inv(t) && '\0' !in dst
    ensures var (u, r) := AddBind(t, dst, src);
            && Inv(u)
            && (r.Ok? ==> Live(u.strs, u.rows) == Without(Live(t.strs, t.rows), dst) + [Entry(T_BIND, dst, src)])
            && Binds(u) == (if r.Ok? then Binds(t)[dst := src]
                            else if r.error == NotAbsolute then Binds(t) else Binds(t) - {dst})
  {
    if Absolute(dst) && Absolute(src) {
      var u := Tombstone(t, dst);
      TombstoneRemoves(t, dst);
      WithoutMap(Live(t.strs, t.rows), dst);
      if Full(u, dst, src) == None { AcceptedMeans(t, u, dst, src); }
    }
  }

  /** An add is accepted if and only if both paths are absolute, a row is free and both
      strings with their terminators fit the map; it then takes the next row.  The error
      says which of these failed first. */
  lemma AddTakenIff(t: Table, dst: string, src: string)
    requires Inv(t) && '\0' !in dst
    ensures var (u, r) := AddBind(t, dst, src);
            var relative := !Absolute(dst) || !Absolute(src);
            var room := 56 + 28 * t.cap + |t.strs| + |dst| + |src| + 2 <= 65536;
            && (r.Ok? <==> !relative && |t.rows| < t.cap && room)
            && (r.Ok? ==> r.index == |t.rows| < |u.rows| && u.rows[r.index].state == S_VALID
                          && Dst(u.strs, u.rows[r.index]) == dst && Src(u.strs, u.rows[r.index]) == src)
            && (r.Err? ==> r.error == if relative then NotAbsolute
                                      else if |t.rows| == t.cap then ShadowFull else StrtabFull)
  {
    AppendedRow(Tombstone(t, dst), T_BIND, dst, src);
  }

  // Removal of a live row by index

  /** The live row of `dst`, or the row count. */
  function LiveRow(t: Table, dst: string): (i: nat)
    ensures i <= |t.rows|
    ensures i < |t.rows| ==> t.rows[i].state == S_VALID && Dst(t.strs, t.rows[i]) == dst
    ensures i == |t.rows| ==> Absent(t, dst)
  {
    LiveRowFrom(t, dst, 0)
  }

  function LiveRowFrom(t: Table, dst: string, from: nat): (i: nat)
    requires from <= |t.rows|
    ensures from <= i <= |t.rows|
    ensures i < |t.rows| ==> t.rows[i].state == S_VALID && Dst(t.strs, t.rows[i]) == dst
    ensures forall k | from <= k < i && t.rows[k].state == S_VALID :: Dst(t.strs, t.rows[k]) != dst
    decreases |t.rows| - from
  {
    if from == |t.rows| || (t.rows[from].state == S_VALID && Dst(t.strs, t.rows[from]) == dst) then from
    else LiveRowFrom(t, dst, from + 1)
  }

  /** Marking the live row of `dst` removed is tombstoning `dst`. */
  lemma MarkRemovedIsTombstone(t: Table, dst: string)
    requires Inv(t) && LiveRow(t, dst) < |t.rows|
    ensures MarkState(t, LiveRow(t, dst), S_REMOVED).0 == Tombstone(t, dst)
  {
    var k, u := LiveRow(t, dst), Tombstone(t, dst);
    forall i | 0 <= i < |t.rows| && i != k ensures u.rows[i] == t.rows[i] {
      assert i < k || k < i;
    }
    assert MarkState(t, k, S_REMOVED).0.rows == u.rows;
  }

  // Compaction

  function EntryBytes(es: seq<Entry>): nat {
    if es == [] then 0 else EntryBytes(es[..|es| - 1]) + Need(es[|es| - 1].dst, es[|es| - 1].src)
  }

  predicate Distinct(es: seq<Entry>) {
    forall i, j | 0 <= i < j < |es| :: es[i].dst != es[j].dst
  }

  predicate EntriesOk(es: seq<Entry>) {
    forall i | 0 <= i < |es| :: es[i].typ == T_BIND && Absolute(es[i].dst) && '\0' !in es[i].dst
  }

  lemma {:induction false} LiveFits(strs: string, rows: seq<Row>)
    requires forall i | 0 <= i < |rows| :: RowOk(strs, rows[i])
    ensures EntriesOk(Live(strs, rows)) && |Live(strs, rows)| + Removed(rows) == |rows|
    ensures EntryBytes(Live(strs, rows)) <= Bytes(rows)
  {
    if rows != [] {
      var n := |rows| - 1;
      LiveFits(strs, rows[..n]);
      EntryBytesSnoc(Live(strs, rows[..n]), Entry(rows[n].typ, Dst(strs, rows[n]), Src(strs, rows[n])));
    }
  }

  lemma EntryBytesSnoc(es: seq<Entry>, e: Entry)
    ensures EntryBytes(es + [e]) == EntryBytes(es) + Need(e.dst, e.src)
  {
    assert (es + [e])[..|es|] == es;
  }

  ghost predicate FromRow(strs: string, rows: seq<Row>, e: Entry) {
    exists i | 0 <= i < |rows| :: rows[i].state == S_VALID && Dst(strs, rows[i]) == e.dst && Src(strs, rows[i]) == e.src
  }

  lemma {:induction false} LiveFrom(strs: string, rows: seq<Row>, k: nat)
    requires k < |Live(strs, rows)|
    ensures FromRow(strs, rows, Live(strs, rows)[k])
  {
    var n, e := |rows| - 1, Live(strs, rows)[k];
    if k < |Live(strs, rows[..n])| {
      LiveFrom(strs, rows[..n], k);
      var i :| 0 <= i < n && rows[..n][i].state == S_VALID
                     && Dst(strs, rows[..n][i]) == e.dst && Src(strs, rows[..n][i]) == e.src;
      assert rows[i] == rows[..n][i];
    } else {
      assert rows[n].state == S_VALID;
    }
  }

  lemma {:induction false} LiveDistinct(t: Table, n: nat)
    requires n <= |t.rows| && Unique(t)
    ensures Distinct(Live(t.strs, t.rows[..n]))
  {
    if n > 0 {
      LiveDistinct(t, n - 1);
      assert t.rows[..n][..n - 1] == t.rows[..n - 1];
      var r, front := t.rows[n - 1], Live(t.strs, t.rows[..n - 1]);
      if r.state == S_VALID {
        forall k | 0 <= k < |front| ensures front[k].dst != Dst(t.strs, r) {
          LiveFrom(t.strs, t.rows[..n - 1], k);
        }
      }
    }
  }

  lemma AbsentWhenNotLive(t: Table, dst: string)
    requires Inv(t) && forall k | 0 <= k < |Live(t.strs, t.rows)| :: Live(t.strs, t.rows)[k].dst != dst
    ensures Absent(t, dst)
  {
    forall i | 0 <= i < |t.rows| && t.rows[i].state == S_VALID ensures Dst(t.strs, t.rows[i]) != dst {
      RowIsLive(t.strs, t.rows, i);
    }
  }

  lemma {:induction false} RowIsLive(strs: string, rows: seq<Row>, i: nat)
    requires i < |rows| && rows[i].state == S_VALID
    ensures Entry(rows[i].typ, Dst(strs, rows[i]), Src(strs, rows[i])) in Live(strs, rows)
  {
    if i < |rows| - 1 { RowIsLive(strs, rows[..|rows| - 1], i); }
  }

  /** Rebuilding from distinct entries that fit never stops early and yields
      exactly those entries. */
  lemma {:induction false} RebuildKeeps(t: Table, es: seq<Entry>)
    requires CapOk(t.cap) && t.rows == [] && t.strs == ""
    requires EntriesOk(es) && Distinct(es) && |es| <= t.cap && Base(t.cap) + EntryBytes(es) <= MAP_SIZE
    ensures var (u, ok) := Rebuild(t, es);
            ok && Inv(u) && u.cap == t.cap && u.gen == t.gen && Live(u.strs, u.rows) == es
            && |u.rows| == |es| && |u.strs| == EntryBytes(es)
  {
    if es != [] {
      var front, e := es[..|es| - 1], es[|es| - 1];
      RebuildKeeps(t, front);
      var u := Rebuild(t, front).0;
      AbsentWhenNotLive(u, e.dst);
      AppendExtends(u, e.dst, e.src);
    }
  }

  /** Compaction never errors and keeps the live sequence exactly. */
  lemma CompactKeeps(t: Table)
    requires Inv(t)
    ensures var (u, ok) := Compact(t);
            ok && Inv(u) && Live(u.strs, u.rows) == Live(t.strs, t.rows) && |u.rows| == |Live(t.strs, t.rows)|
            && u.cap == t.cap && u.gen == t.gen
  {
    LiveFits(t.strs, t.rows);
    LiveDistinct(t, |t.rows|);
    assert t.rows[..|t.rows|] == t.rows;
    RebuildKeeps(t.(rows := [], strs := ""), Live(t.strs, t.rows));
  }

  function Max(a: nat, b: nat): nat { if a >= b then a else b }

  lemma CompactedMeans(t: Table)
    requires Inv(t)
    ensures var u := Compacted(t);
            && Inv(u) && Live(u.strs, u.rows) == Live(t.strs, t.rows)
            && |u.rows| <= Max(8, 2 * |Live(t.strs, t.rows)|)
            && u.cap == t.cap && u.gen == t.gen
  {
    CompactKeeps(t);
    LiveFits(t.strs, t.rows);
  }

  /** The next even generation is free: only the header word changes. */
  lemma Published(t: Table)
    requires Inv(t)
    ensures var u := t.(gen := t.gen - t.gen % 2 + 2);
            Inv(u) && Binds(u) == Binds(t) && u.gen % 2 == 0 && t.gen < u.gen <= t.gen + 2
  {
  }

  lemma SameLive(t: Table, u: Table)
    requires Live(u.strs, u.rows) == Live(t.strs, t.rows)
    ensures Binds(u) == Binds(t)
  {
  }

  /** A commit keeps the live sequence and leaves at most eight rows or twice as
      many rows as live bindings; the generation it leaves is even and new. */
  lemma CommitMeans(t: Table)
    requires Inv(t)
    ensures var u := Commit(t);
            && Inv(u) && Live(u.strs, u.rows) == Live(t.strs, t.rows) && Binds(u) == Binds(t)
            && |u.rows| <= Max(8, 2 * |Live(u.strs, u.rows)|)
            && u.cap == t.cap && u.gen % 2 == 0 && t.gen < u.gen <= t.gen + 2
  {
    CompactedMeans(t);
    SameLive(t, Compacted(t));
    Published(Compacted(t));
  }

  // ---------------------------------------------------------------------------
  // Runs

  datatype Op = Add(dst: string, src: string) | Remove(dst: string) | Publish

  predicate OpOk(op: Op) { op.Add? ==> '\0' !in op.dst && '\0' !in op.src }

  function Step(t: Table, op: Op): Table {
    match op
    case Add(dst, src) => AddBind(t, dst, src).0
    case Remove(dst) => MarkState(t, LiveRow(t, dst), S_REMOVED).0
    case Publish => Commit(t)
  }

  /** What the same operation does to a plain map, given whether the table took it. */
  function MapStep(m: map<string, string>, op: Op, taken: Result): map<string, string> {
    match op
    case Add(dst, src) =>
      if taken.Ok? then m[dst := src] else if taken.error == NotAbsolute then m else m - {dst}
    case Remove(dst) => m - {dst}
    case Publish => m
  }

  function Run(t: Table, ops: seq<Op>): Table {
    if ops == [] then t else Step(Run(t, ops[..|ops| - 1]), ops[|ops| - 1])
  }

  function MapRun(t: Table, ops: seq<Op>): map<string, string> {
    if ops == [] then Binds(t)
    else
      var before, op := Run(t, ops[..|ops| - 1]), ops[|ops| - 1];
      MapStep(MapRun(t, ops[..|ops| - 1]), op, if op.Add? then AddBind(before, op.dst, op.src).1 else Ok(0))
  }

  lemma RemoveMeans(t: Table, dst: string)
    requires Inv(t)
    ensures var u := Step(t, Remove(dst)); Inv(u) && Binds(u) == Binds(t) - {dst}
  {
    TombstoneRemoves(t, dst);
    WithoutMap(Live(t.strs, t.rows), dst);
    if LiveRow(t, dst) < |t.rows| {
      MarkRemovedIsTombstone(t, dst);
    } else {
      assert Tombstone(t, dst).rows == t.rows;
    }
  }

  /** Every operation keeps the invariant and does to the table's map what it does
      to a plain map. */
  lemma StepRefines(t: Table, op: Op)
    requires Inv(t) && OpOk(op)
    ensures Inv(Step(t, op))
    ensures Binds(Step(t, op)) == MapStep(Binds(t), op, if op.Add? then AddBind(t, op.dst, op.src).1 else Ok(0))
  {
    match op
    case Add(dst, src) => AddBindMeans(t, dst, src);
    case Remove(dst) => RemoveMeans(t, dst);
    case Publish => CommitMeans(t);
  }

  /** After any run the table stands for the map the run built, and no dst has
      two live rows. */
  lemma {:induction false} RunRefinesMap(cap: nat, ops: seq<Op>)
    requires CapOk(cap) && forall k | 0 <= k < |ops| :: OpOk(ops[k])
    ensures Inv(Run(Create(cap), ops)) && Unique(Run(Create(cap), ops))
    ensures Binds(Run(Create(cap), ops)) == MapRun(Create(cap), ops)
  {
    if ops != [] {
      RunRefinesMap(cap, ops[..|ops| - 1]);
      StepRefines(Run(Create(cap), ops[..|ops| - 1]), ops[|ops| - 1]);
    }
  }

  // ---------------------------------------------------------------------------
  // The reader on a quiescent table

  predicate Readable(t: Table, age: nat) {
    t.gen != 0 && age <= STALE_NS && t.gen % 2 == 0 && |t.rows| <= t.cap
  }

  /** `d` is the longest directory of the map that `path` is in. */
  ghost predicate Longest(m: map<string, string>, path: string, d: string) {
    d in m && PathWithin(d, path) && forall e | e in m && PathWithin(e, path) :: |e| <= |d|
  }

  lemma {:induction false} DistinctMap(es: seq<Entry>)
    requires Distinct(es)
    ensures forall k | 0 <= k < |es| :: es[k].dst in ToMap(es) && ToMap(es)[es[k].dst] == es[k].src
    ensures forall d | d in ToMap(es) :: exists k | 0 <= k < |es| :: es[k].dst == d
  {
    if es != [] {
      var n := |es| - 1;
      DistinctMap(es[..n]);
      forall k | 0 <= k < n ensures es[k].dst in ToMap(es) && ToMap(es)[es[k].dst] == es[k].src {
        assert es[..n][k] == es[k];
      }
      forall d | d in ToMap(es) ensures exists k | 0 <= k < |es| :: es[k].dst == d {
        if d == es[n].dst {
        } else {
          var k :| 0 <= k < n && es[..n][k].dst == d;
          assert es[k].dst == d;
        }
      }
    }
  }

  /** The map's pairs are those of the live rows. */
  lemma RowsAreBinds(t: Table)
    requires Inv(t)
    ensures forall i | 0 <= i < |t.rows| && t.rows[i].state == S_VALID ::
              Dst(t.strs, t.rows[i]) in Binds(t) && Binds(t)[Dst(t.strs, t.rows[i])] == Src(t.strs, t.rows[i])
    ensures forall d | d in Binds(t) ::
              exists i | 0 <= i < |t.rows| :: t.rows[i].state == S_VALID && Dst(t.strs, t.rows[i]) == d
  {
    var es := Live(t.strs, t.rows);
    LiveDistinct(t, |t.rows|);
    assert t.rows[..|t.rows|] == t.rows;
    DistinctMap(es);
    forall i | 0 <= i < |t.rows| && t.rows[i].state == S_VALID
      ensures Dst(t.strs, t.rows[i]) in Binds(t) && Binds(t)[Dst(t.strs, t.rows[i])] == Src(t.strs, t.rows[i])
    {
      RowIsLive(t.strs, t.rows, i);
    }
    forall d | d in Binds(t)
      ensures exists i | 0 <= i < |t.rows| :: t.rows[i].state == S_VALID && Dst(t.strs, t.rows[i]) == d
    {
      var k :| 0 <= k < |es| && es[k].dst == d;
      LiveFrom(t.strs, t.rows, k);
    }
  }

  predicate Matches(t: Table, r: Row, path: string) {
    r.typ == T_BIND && r.state == S_VALID && r.dstLen != 0 && r.dstOff + r.dstLen <= |t.strs|
    && PathWithin(Dst(t.strs, r), path)
  }

  /** The scan: the last of the deepest matching rows. */
  method ScanRows(t: Table, path: string) returns (bestLen: nat, best: nat)
    ensures bestLen == 0 ==> forall k | 0 <= k < |t.rows| :: !Matches(t, t.rows[k], path)
    ensures bestLen > 0 ==> best < |t.rows| && Matches(t, t.rows[best], path) && t.rows[best].dstLen == bestLen
    ensures bestLen > 0 ==> forall k | 0 <= k < |t.rows| && Matches(t, t.rows[k], path) :: t.rows[k].dstLen <= bestLen
    ensures bestLen > 0 ==> forall k | best < k < |t.rows| && Matches(t, t.rows[k], path) :: t.rows[k].dstLen < bestLen
  {
    bestLen, best := 0, 0;
    for i := 0 to |t.rows|
      invariant bestLen == 0 ==> forall k | 0 <= k < i :: !Matches(t, t.rows[k], path)
      invariant bestLen > 0 ==> best < i && Matches(t, t.rows[best], path) && t.rows[best].dstLen == bestLen
      invariant bestLen > 0 ==> forall k | 0 <= k < i && Matches(t, t.rows[k], path) :: t.rows[k].dstLen <= bestLen
      invariant bestLen > 0 ==> forall k | best < k < i && Matches(t, t.rows[k], path) :: t.rows[k].dstLen < bestLen
    {
      var r := t.rows[i];
      if r.typ == T_BIND && r.state == S_VALID && r.dstLen != 0 && r.dstOff + r.dstLen <= |t.strs|
         && r.dstLen >= bestLen && PathWithin(Dst(t.strs, r), path) {
        bestLen, best := r.dstLen, i;
      }
    }
  }

  /** The reader rewrites a path below the longest bound directory it is in, and
      fails when the table is not published or older than two seconds, nothing matches
      or the result does not fit. */
  method LookupBind(t: Table, age: nat, path: string, outCap: nat) returns (r: Option<string>)
    requires Inv(t)
    ensures t.gen == 0 || t.gen % 2 == 1 || age > 2_000_000_000 ==> r == None
    ensures (forall d | d in Binds(t) :: !PathWithin(d, path)) ==> r == None
    ensures forall d | t.gen != 0 && t.gen % 2 == 0 && age <= 2_000_000_000 && Longest(Binds(t), path, d) ::
              r == if |Binds(t)[d]| + (|path| - |d|) + 1 > outCap then None else Some(Binds(t)[d] + path[|d|..])
    ensures r.Some? ==> exists d :: Longest(Binds(t), path, d)
  {
    if !Readable(t, age) { return None; }
    RowsAreBinds(t);
    var bestLen, best := ScanRows(t, path);
    if bestLen == 0 {
      forall d | d in Binds(t) ensures !PathWithin(d, path) {
        var i :| 0 <= i < |t.rows| && t.rows[i].state == S_VALID && Dst(t.strs, t.rows[i]) == d;
        assert !Matches(t, t.rows[i], path);
      }
      return None;
    }
    var w := t.rows[best];
    ghost var d := Dst(t.strs, w);
    WinnerIsLongest(t, path, best);
    var src := Src(t.strs, w);
    if |src| + (|path| - bestLen) + 1 > outCap { return None; }
    return Some(src + path[bestLen..]);
  }

  lemma WinnerIsLongest(t: Table, path: string, best: nat)
    requires Inv(t) && best < |t.rows| && Matches(t, t.rows[best], path)
    requires forall k | 0 <= k < |t.rows| && Matches(t, t.rows[k], path) :: t.rows[k].dstLen <= t.rows[best].dstLen
    ensures var d := Dst(t.strs, t.rows[best]);
            && Longest(Binds(t), path, d) && Binds(t)[d] == Src(t.strs, t.rows[best]) && |d| == t.rows[best].dstLen
            && forall e | Longest(Binds(t), path, e) :: e == d
  {
    RowsAreBinds(t);
    var d := Dst(t.strs, t.rows[best]);
    forall e | e in Binds(t) && PathWithin(e, path) ensures |e| <= |d| {
      var i :| 0 <= i < |t.rows| && t.rows[i].state == S_VALID && Dst(t.strs, t.rows[i]) == e;
      assert Matches(t, t.rows[i], path);
    }
    LongestIsUnique(Binds(t), path, d);
  }

  lemma LongestIsUnique(m: map<string, string>, path: string, d: string)
    requires Longest(m, path, d)
    ensures forall e | Longest(m, path, e) :: e == d
  {
    forall e | Longest(m, path, e) ensures e == d {
      assert |e| == |d| && e == path[..|e|] && d == path[..|d|];
    }
  }
}
