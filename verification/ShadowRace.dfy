/** A lookup in the shadow table while the owner is adding rows: every store of
    add_bind and every load of the reader is one step, and the two interleave
    arbitrarily.  Compaction does not happen during a lookup. */
module ShadowRace {
  import opened Common
  import opened PathTranslate
  import opened ShadowTable

  /** The shared buffer: all row cells, all string bytes and the header words. */
  datatype Memory = Memory(rows: seq<Row>, strs: string, count: nat, strtabLen: nat, gen: nat)

  /** Where the owner is.  `dst` and `src` are the arguments of add_bind; the row's
      fields are stored in the order type, state, src_off, src_len, dst_off,
      dst_len, then the string bytes, the string length, and the count. */
  datatype WriterPc = WIdle | WBury | WRow | WBytes | WLen | WCount
  datatype Writer = Writer(pc: WriterPc, dst: string, src: string, at: nat)

  /** Where the reader is; the fields are the locals of the lookup. */
  datatype ReaderPc =
    | RIdle | RGen | RLen | RCount | RType | RState | RDstLen | RDstOff | RCompare | RSrcOff | RSrcLen
    | RGenAgain | RCopy | RDone
  datatype Reader = Reader(pc: ReaderPc, path: string, outCap: nat, gen: nat, len: nat, i: nat, e: Row, k: nat,
                           bestLen: nat, bestSrcOff: nat, bestSrcLen: nat, bestIdx: nat,
                           out: string, result: Option<string>)

  /** `pairs[i]` is the (dst, src) whose add_bind made row `i`. */
  datatype State = State(m: Memory, w: Writer, r: Reader, pairs: seq<(string, string)>)

  datatype Action =
    | Add(dst: string, src: string) | Mark(idx: nat, state: nat) | Publish | WriterSteps
    | Lookup(path: string, outCap: nat, live: bool) | ReaderSteps

  /** The bytes add_bind appends. */
  function Text(w: Writer): string { w.dst + "\0" + w.src + "\0" }

  predicate Sized(s: State) { s.m.count <= |s.m.rows| && s.m.strtabLen <= |s.m.strs| }

  // ---------------------------------------------------------------------------
  // The owner

  function WriterCalls(s: State, dst: string, src: string): State {
    if s.w.pc == WIdle && Absolute(dst) && Absolute(src) && '\0' !in dst && '\0' !in src
    then s.(w := Writer(WBury, dst, src, 0)) else s
  }

  function WriterMarks(s: State, idx: nat, state: nat): State
    requires Sized(s)
  {
    if s.w.pc == WIdle && idx < s.m.count
    then s.(m := s.m.(rows := s.m.rows[idx := s.m.rows[idx].(state := state)])) else s
  }

  function WriterPublishes(s: State): State {
    if s.w.pc == WIdle then s.(m := s.m.(gen := s.m.gen - s.m.gen % 2 + 2)) else s
  }

  /** Looks at one row, and tombstones it if it is a live row of `dst`. */
  function WriterBuries(s: State): State
    requires Sized(s)
  {
    var i := s.w.at;
    if i < s.m.count then
      s.(m := s.m.(rows := s.m.rows[i := Bury(s.m.strs, s.m.rows[i], s.w.dst)]), w := s.w.(at := i + 1))
    else if s.m.count >= |s.m.rows| || s.m.strtabLen + |Text(s.w)| > |s.m.strs| then s.(w := s.w.(pc := WIdle))
    else s.(w := s.w.(pc := WRow, at := 0))
  }

  /** The row with field number `j` stored. */
  function SetField(row: Row, j: nat, w: Writer, base: nat): Row {
    if j == 0 then row.(typ := T_BIND)
    else if j == 1 then row.(state := S_VALID)
    else if j == 2 then row.(srcOff := base + |w.dst| + 1)
    else if j == 3 then row.(srcLen := |w.src|)
    else if j == 4 then row.(dstOff := base)
    else row.(dstLen := |w.dst|)
  }

  function WriterStoresField(s: State): State {
    var c := s.m.count;
    if c < |s.m.rows| && s.w.at < 6 then
      s.(m := s.m.(rows := s.m.rows[c := SetField(s.m.rows[c], s.w.at, s.w, s.m.strtabLen)]),
         w := s.w.(at := s.w.at + 1))
    else s.(w := s.w.(pc := WBytes, at := 0))
  }

  function WriterStoresByte(s: State): State {
    var a := s.m.strtabLen + s.w.at;
    if s.w.at < |Text(s.w)| && a < |s.m.strs| then
      s.(m := s.m.(strs := s.m.strs[a := Text(s.w)[s.w.at]]), w := s.w.(at := s.w.at + 1))
    else s.(w := s.w.(pc := WLen))
  }

  function WriterStoresLen(s: State): State {
    s.(m := s.m.(strtabLen := s.m.strtabLen + |Text(s.w)|), w := s.w.(pc := WCount))
  }

  function WriterStoresCount(s: State): State {
    s.(m := s.m.(count := s.m.count + 1), w := s.w.(pc := WIdle), pairs := s.pairs + [(s.w.dst, s.w.src)])
  }

  function WriterStep(s: State): State
    requires Sized(s)
  {
    match s.w.pc
    case WIdle => s
    case WBury => WriterBuries(s)
    case WRow => WriterStoresField(s)
    case WBytes => WriterStoresByte(s)
    case WLen => WriterStoresLen(s)
    case WCount => WriterStoresCount(s)
  }

  // ---------------------------------------------------------------------------
  // The reader

  /** The liveness test is the environment's: a table that is not live fails. */
  function ReaderCalls(s: State, path: string, outCap: nat, live: bool): State {
    if (s.r.pc != RIdle && s.r.pc != RDone) || '\0' in path then s
    else
      var r := s.r.(pc := if live then RGen else RDone, path := path, outCap := outCap, i := 0, bestLen := 0, out := "",
                    result := None);
      s.(r := r)
  }

  function ReaderLoadsGen(s: State): State { s.(r := s.r.(pc := RLen, gen := s.m.gen)) }

  function ReaderLoadsLen(s: State): State { s.(r := s.r.(pc := RCount, len := s.m.strtabLen)) }

  function ReaderLoadsCount(s: State): State {
    s.(r := if s.r.i < s.m.count then s.r.(pc := RType)
            else if s.r.bestLen == 0 then s.r.(pc := RDone, result := None)
            else s.r.(pc := RGenAgain))
  }

  function NextRow(r: Reader): Reader { r.(pc := RCount, i := r.i + 1) }

  // Loading one field of row `i`: go on with the row, or skip it

  function ReaderLoadsType(s: State): State
    requires s.r.i < |s.m.rows|
  {
    s.(r := if s.m.rows[s.r.i].typ == T_BIND then s.r.(pc := RState) else NextRow(s.r))
  }

  function ReaderLoadsState(s: State): State
    requires s.r.i < |s.m.rows|
  {
    s.(r := if s.m.rows[s.r.i].state == S_VALID then s.r.(pc := RDstLen) else NextRow(s.r))
  }

  function ReaderLoadsDstLen(s: State): State
    requires s.r.i < |s.m.rows|
  {
    var n := s.m.rows[s.r.i].dstLen;
    s.(r := if n != 0 then s.r.(pc := RDstOff, e := s.r.e.(dstLen := n)) else NextRow(s.r))
  }

  function ReaderLoadsDstOff(s: State): State
    requires s.r.i < |s.m.rows|
  {
    var r, off := s.r, s.m.rows[s.r.i].dstOff;
    s.(r := if off + r.e.dstLen > r.len || r.e.dstLen < r.bestLen then NextRow(r)
            else r.(pc := RCompare, e := r.e.(dstOff := off), k := 0))
  }

  function ReaderLoadsSrcOff(s: State): State
    requires s.r.i < |s.m.rows|
  {
    s.(r := s.r.(pc := RSrcLen, e := s.r.e.(srcOff := s.m.rows[s.r.i].srcOff)))
  }

  function ReaderLoadsSrcLen(s: State): State
    requires s.r.i < |s.m.rows|
  {
    var r := s.r;
    s.(r := NextRow(r.(bestLen := r.e.dstLen, bestSrcOff := r.e.srcOff, bestSrcLen := s.m.rows[r.i].srcLen,
                       bestIdx := r.i)))
  }

  /** Compares one byte, or the byte of the path after the match. */
  function ReaderCompares(s: State): State {
    var r := s.r;
    if r.k < r.e.dstLen then
      if r.k < |r.path| && r.e.dstOff + r.k < |s.m.strs| && r.path[r.k] == s.m.strs[r.e.dstOff + r.k]
      then s.(r := r.(k := r.k + 1)) else s.(r := NextRow(r))
    else if r.k == |r.path| || (r.k < |r.path| && r.path[r.k] == '/') then s.(r := r.(pc := RSrcOff))
    else s.(r := NextRow(r))
  }

  function ReaderChecksGen(s: State): State {
    var r := s.r;
    s.(r := if s.m.gen != r.gen || r.bestLen > |r.path| || r.bestSrcLen + (|r.path| - r.bestLen) + 1 > r.outCap
            then r.(pc := RDone, result := None) else r.(pc := RCopy, out := ""))
  }

  function ReaderCopies(s: State): State {
    var r := s.r;
    if |r.out| < r.bestSrcLen && r.bestSrcOff + |r.out| < |s.m.strs| then
      s.(r := r.(out := r.out + [s.m.strs[r.bestSrcOff + |r.out|]]))
    else if r.bestLen <= |r.path| then s.(r := r.(pc := RDone, result := Some(r.out + r.path[r.bestLen..])))
    else s
  }

  function ReaderStep(s: State): State {
    match s.r.pc
    case RIdle => s
    case RDone => s
    case RGen => ReaderLoadsGen(s)
    case RLen => ReaderLoadsLen(s)
    case RCount => ReaderLoadsCount(s)
    case RType => if s.r.i < |s.m.rows| then ReaderLoadsType(s) else s
    case RState => if s.r.i < |s.m.rows| then ReaderLoadsState(s) else s
    case RDstLen => if s.r.i < |s.m.rows| then ReaderLoadsDstLen(s) else s
    case RDstOff => if s.r.i < |s.m.rows| then ReaderLoadsDstOff(s) else s
    case RCompare => ReaderCompares(s)
    case RSrcOff => if s.r.i < |s.m.rows| then ReaderLoadsSrcOff(s) else s
    case RSrcLen => if s.r.i < |s.m.rows| then ReaderLoadsSrcLen(s) else s
    case RGenAgain => ReaderChecksGen(s)
    case RCopy => ReaderCopies(s)
  }

  function Next(s: State, a: Action): State
    requires Sized(s)
  {
    match a
    case Add(dst, src) => WriterCalls(s, dst, src)
    case Mark(idx, state) => WriterMarks(s, idx, state)
    case Publish => WriterPublishes(s)
    case WriterSteps => WriterStep(s)
    case Lookup(path, outCap, live) => ReaderCalls(s, path, outCap, live)
    case ReaderSteps => ReaderStep(s)
  }

  // ---------------------------------------------------------------------------
  // The invariant

  /** A row that says `p`, whatever its state, with its strings below `limit`. */
  ghost predicate Says(m: Memory, row: Row, p: (string, string), limit: nat) {
    && limit <= |m.strs|
    && row.typ == T_BIND
    && row.dstLen == |p.0| > 0 && row.dstOff + row.dstLen <= limit
    && row.srcLen == |p.1| && row.srcOff + row.srcLen <= limit
    && m.strs[row.dstOff..row.dstOff + row.dstLen] == p.0
    && m.strs[row.srcOff..row.srcOff + row.srcLen] == p.1
    && '\0' !in p.0
  }

  ghost predicate RowsOk(s: State) {
    && Sized(s) && |s.pairs| == s.m.count
    && forall i | 0 <= i < s.m.count :: Says(s.m, s.m.rows[i], s.pairs[i], s.m.strtabLen)
  }

  /** The fields of the new row stored so far. */
  ghost predicate FieldsStored(row: Row, w: Writer, base: nat, n: nat) {
    && (n > 0 ==> row.typ == T_BIND)
    && (n > 1 ==> row.state == S_VALID)
    && (n > 2 ==> row.srcOff == base + |w.dst| + 1)
    && (n > 3 ==> row.srcLen == |w.src|)
    && (n > 4 ==> row.dstOff == base)
    && (n > 5 ==> row.dstLen == |w.dst|)
  }

  ghost predicate WriterOk(s: State) {
    var w, m := s.w, s.m;
    && (w.pc != WIdle ==> w.dst != "" && '\0' !in w.dst)
    && match w.pc
       case WIdle => true
       case WBury => true
       case WRow =>
         && m.count < |m.rows| && m.strtabLen + |Text(w)| <= |m.strs|
         && w.at <= 6 && FieldsStored(m.rows[m.count], w, m.strtabLen, w.at)
       case WBytes =>
         && m.count < |m.rows| && m.strtabLen + |Text(w)| <= |m.strs|
         && FieldsStored(m.rows[m.count], w, m.strtabLen, 6)
         && w.at <= |Text(w)| && m.strs[m.strtabLen..m.strtabLen + w.at] == Text(w)[..w.at]
       case WLen =>
         && m.count < |m.rows| && m.strtabLen + |Text(w)| <= |m.strs|
         && FieldsStored(m.rows[m.count], w, m.strtabLen, 6)
         && m.strs[m.strtabLen..m.strtabLen + |Text(w)|] == Text(w)
       case WCount =>
         && m.count < |m.rows| && m.rows[m.count].state == S_VALID
         && Says(m, m.rows[m.count], (w.dst, w.src), m.strtabLen)
  }

  /** The best row so far is a row some add_bind made, and it covers the path. */
  ghost predicate BestOk(s: State)
    requires RowsOk(s)
  {
    var r := s.r;
    r.bestLen > 0 ==>
      && r.bestIdx < s.m.count
      && r.bestLen == |s.pairs[r.bestIdx].0| && PathWithin(s.pairs[r.bestIdx].0, r.path)
      && r.bestSrcOff == s.m.rows[r.bestIdx].srcOff && r.bestSrcLen == s.m.rows[r.bestIdx].srcLen
  }

  predicate InRow(pc: ReaderPc) {
    pc == RType || pc == RState || pc == RDstLen || pc == RDstOff || pc == RCompare || pc == RSrcOff || pc == RSrcLen
  }

  /** What the reader has loaded of the row it is at. */
  ghost predicate AtRow(r: Reader, row: Row, p: (string, string)) {
    match r.pc
    case RDstOff => r.e.dstLen == row.dstLen
    case RCompare =>
      && r.e.dstLen == row.dstLen && r.e.dstOff == row.dstOff
      && r.k <= |p.0| && r.k <= |r.path| && r.path[..r.k] == p.0[..r.k]
    case RSrcOff => r.e.dstLen == row.dstLen && PathWithin(p.0, r.path)
    case RSrcLen => r.e.dstLen == row.dstLen && PathWithin(p.0, r.path) && r.e.srcOff == row.srcOff
    case _ => true
  }

  ghost predicate ReaderOk(s: State)
    requires RowsOk(s)
  {
    var r := s.r;
    && (InRow(r.pc) ==> r.i < s.m.count && AtRow(r, s.m.rows[r.i], s.pairs[r.i]))
    && BestOk(s)
    && (r.pc == RGenAgain || r.pc == RCopy ==> r.bestLen > 0)
    && (r.pc == RCopy ==> r.out <= s.pairs[r.bestIdx].1)
    && (r.pc == RDone && r.result.Some? ==> Genuine(s.pairs, r.path, r.result.value))
  }

  /** The rewriting of `path` by one pair really given to add_bind. */
  ghost predicate Genuine(pairs: seq<(string, string)>, path: string, out: string) {
    exists i | 0 <= i < |pairs| :: Rewrites(pairs[i], path, out)
  }

  ghost predicate Rewrites(p: (string, string), path: string, out: string) {
    PathWithin(p.0, path) && out == p.1 + path[|p.0|..]
  }

  ghost predicate Inv(s: State) { RowsOk(s) && WriterOk(s) && ReaderOk(s) }

  // ---------------------------------------------------------------------------
  // The owner's steps leave what the reader relies on

  ghost predicate SameRow(a: Row, b: Row) { a.(state := 0) == b.(state := 0) }

  /** Rows in use keep everything but their state, and pairs are only added. */
  ghost predicate Extends(s: State, t: State)
    requires RowsOk(s) && RowsOk(t)
  {
    && t.r == s.r && s.m.count <= t.m.count
    && (forall i | 0 <= i < s.m.count :: SameRow(s.m.rows[i], t.m.rows[i]) && t.pairs[i] == s.pairs[i])
  }

  lemma GenuineFramed(s: seq<(string, string)>, t: seq<(string, string)>, path: string, out: string)
    requires s <= t && Genuine(s, path, out)
    ensures Genuine(t, path, out)
  {
    var i :| 0 <= i < |s| && Rewrites(s[i], path, out);
    assert Rewrites(t[i], path, out);
  }

  lemma BestFramed(s: State, t: State)
    requires RowsOk(s) && BestOk(s) && RowsOk(t) && Extends(s, t)
    ensures BestOk(t)
  {
    var i := s.r.bestIdx;
    assert s.r.bestLen > 0 ==> SameRow(s.m.rows[i], t.m.rows[i]) && t.pairs[i] == s.pairs[i];
  }

  lemma AtRowFramed(s: State, t: State)
    requires RowsOk(s) && ReaderOk(s) && RowsOk(t) && Extends(s, t) && InRow(s.r.pc)
    ensures t.r.i < t.m.count && AtRow(t.r, t.m.rows[t.r.i], t.pairs[t.r.i])
  {
    var i := s.r.i;
    assert SameRow(s.m.rows[i], t.m.rows[i]) && t.pairs[i] == s.pairs[i];
  }

  lemma ReaderFramed(s: State, t: State)
    requires RowsOk(s) && ReaderOk(s) && RowsOk(t) && Extends(s, t)
    ensures ReaderOk(t)
  {
    BestFramed(s, t);
    if InRow(s.r.pc) { AtRowFramed(s, t); }
    if s.r.pc == RDone && s.r.result.Some? { GenuineFramed(s.pairs, t.pairs, s.r.path, s.r.result.value); }
  }

  lemma SliceFramed(a: string, b: string, limit: nat, off: nat, len: nat)
    requires limit <= |a| && limit <= |b| && a[..limit] == b[..limit] && off + len <= limit
    ensures a[off..off + len] == b[off..off + len]
  {
    forall k | off <= k < off + len ensures a[k] == b[k] {
      assert a[..limit][k] == b[..limit][k];
    }
  }

  lemma SaysFramed(m: Memory, n: Memory, a: Row, b: Row, p: (string, string), limit: nat, more: nat)
    requires Says(m, a, p, limit) && SameRow(a, b)
    requires limit <= more <= |n.strs| && n.strs[..limit] == m.strs[..limit]
    ensures Says(n, b, p, more)
  {
    SliceFramed(n.strs, m.strs, limit, a.dstOff, a.dstLen);
    SliceFramed(n.strs, m.strs, limit, a.srcOff, a.srcLen);
  }

  /** A step that keeps the rows in use up to their state, the bytes in use and
      the count keeps the rows and the reader sound. */
  lemma QuietStep(s: State, t: State)
    requires RowsOk(s) && ReaderOk(s) && Sized(t)
    requires t.r == s.r && t.pairs == s.pairs && t.m.count == s.m.count && s.m.strtabLen <= t.m.strtabLen
    requires forall i | 0 <= i < s.m.count :: SameRow(s.m.rows[i], t.m.rows[i])
    requires s.m.strtabLen <= |t.m.strs| && t.m.strs[..s.m.strtabLen] == s.m.strs[..s.m.strtabLen]
    ensures RowsOk(t) && ReaderOk(t)
  {
    forall i | 0 <= i < t.m.count ensures Says(t.m, t.m.rows[i], t.pairs[i], t.m.strtabLen) {
      SaysFramed(s.m, t.m, s.m.rows[i], t.m.rows[i], s.pairs[i], s.m.strtabLen, t.m.strtabLen);
    }
    ReaderFramed(s, t);
  }

  lemma WriterBuriesKeepsInv(s: State)
    requires Inv(s) && s.w.pc == WBury
    ensures Inv(WriterBuries(s))
  {
    QuietStep(s, WriterBuries(s));
  }

  lemma WriterMarksKeepsInv(s: State, idx: nat, state: nat)
    requires Inv(s)
    ensures Inv(WriterMarks(s, idx, state))
  {
    QuietStep(s, WriterMarks(s, idx, state));
  }

  lemma WriterStoresFieldKeepsInv(s: State)
    requires Inv(s) && s.w.pc == WRow
    ensures Inv(WriterStoresField(s))
  {
    QuietStep(s, WriterStoresField(s));
  }

  lemma WriterStoresByteKeepsInv(s: State)
    requires Inv(s) && s.w.pc == WBytes
    ensures Inv(WriterStoresByte(s))
  {
    WriterStoresByteIsQuiet(s);
    WriterStoresByteKeepsText(s);
  }

  /** One more byte of `text` stored at `b + n`. */
  lemma ByteStored(strs: string, b: nat, n: nat, text: string)
    requires b + |text| <= |strs| && n < |text| && strs[b..b + n] == text[..n]
    ensures var now := strs[b + n := text[n]]; now[..b] == strs[..b] && now[b..b + n + 1] == text[..n + 1]
  {
    var now := strs[b + n := text[n]];
    assert now[b..b + n + 1] == strs[b..b + n] + [text[n]];
    assert text[..n + 1] == text[..n] + [text[n]];
  }

  lemma WriterStoresByteIsQuiet(s: State)
    requires Inv(s) && s.w.pc == WBytes
    ensures var t := WriterStoresByte(s); RowsOk(t) && ReaderOk(t)
  {
    if s.w.at < |Text(s.w)| { ByteStored(s.m.strs, s.m.strtabLen, s.w.at, Text(s.w)); }
    QuietStep(s, WriterStoresByte(s));
  }

  lemma WriterStoresByteKeepsText(s: State)
    requires Sized(s) && WriterOk(s) && s.w.pc == WBytes
    ensures WriterOk(WriterStoresByte(s))
  {
    var text := Text(s.w);
    if s.w.at < |text| {
      ByteStored(s.m.strs, s.m.strtabLen, s.w.at, text);
    } else {
      assert text[..s.w.at] == text;
    }
  }

  /** Where a part of a text that is stored at `b` is stored. */
  lemma PartStored(strs: string, b: nat, before: string, part: string, after: string)
    requires var n := |before| + |part| + |after|; b + n <= |strs| && strs[b..b + n] == before + part + after
    ensures var from := b + |before|; strs[from..from + |part|] == part
  {
    var n := |before| + |part| + |after|;
    forall k | 0 <= k < |part| ensures strs[b + |before| + k] == part[k] {
      assert strs[b..b + n][|before| + k] == (before + part + after)[|before| + k];
    }
  }

  lemma StringsStored(strs: string, b: nat, w: Writer)
    requires b + |Text(w)| <= |strs| && strs[b..b + |Text(w)|] == Text(w)
    ensures strs[b..b + |w.dst|] == w.dst
    ensures strs[b + |w.dst| + 1..b + |w.dst| + 1 + |w.src|] == w.src
  {
    assert Text(w) == "" + w.dst + ("\0" + w.src + "\0");
    PartStored(strs, b, "", w.dst, "\0" + w.src + "\0");
    PartStored(strs, b, w.dst + "\0", w.src, "\0");
  }

  lemma WriterStoresLenKeepsInv(s: State)
    requires Inv(s) && s.w.pc == WLen
    ensures Inv(WriterStoresLen(s))
  {
    QuietStep(s, WriterStoresLen(s));
    WriterStoresLenMakesRow(s);
  }

  /** With its string length in, the new row says what add_bind was given. */
  lemma WriterStoresLenMakesRow(s: State)
    requires Sized(s) && WriterOk(s) && s.w.pc == WLen
    ensures WriterOk(WriterStoresLen(s))
  {
    StringsStored(s.m.strs, s.m.strtabLen, s.w);
  }

  lemma WriterStoresCountKeepsInv(s: State)
    requires Inv(s) && s.w.pc == WCount
    ensures Inv(WriterStoresCount(s))
  {
    var t := WriterStoresCount(s);
    assert RowsOk(t);
    ReaderFramed(s, t);
  }

  lemma WriterKeepsInv(s: State)
    requires Inv(s)
    ensures Inv(WriterStep(s))
  {
    match s.w.pc
    case WIdle =>
    case WBury => WriterBuriesKeepsInv(s);
    case WRow => WriterStoresFieldKeepsInv(s);
    case WBytes => WriterStoresByteKeepsInv(s);
    case WLen => WriterStoresLenKeepsInv(s);
    case WCount => WriterStoresCountKeepsInv(s);
  }

  // ---------------------------------------------------------------------------
  // The reader's steps

  lemma ReaderLoadsHeaderKeepsInv(s: State)
    requires Inv(s)
    ensures s.r.pc == RGen ==> Inv(ReaderLoadsGen(s))
    ensures s.r.pc == RLen ==> Inv(ReaderLoadsLen(s))
  {
  }

  /** A step that keeps the best row and is not in a row, copying or successful. */
  lemma ReaderLeaves(s: State, r: Reader)
    requires Inv(s) && r.path == s.r.path && !InRow(r.pc) && (r.result.Some? ==> r.pc != RDone)
    requires SameBest(r, s.r) && (r.pc == RGenAgain || r.pc == RCopy ==> r.bestLen > 0)
    requires r.pc == RCopy ==> r.out == ""
    ensures Inv(s.(r := r))
  {
  }

  lemma ReaderLoadsCountKeepsInv(s: State)
    requires Inv(s) && s.r.pc == RCount
    ensures Inv(ReaderLoadsCount(s))
  {
    var t := ReaderLoadsCount(s);
    if t.r.pc == RType { ReaderStays(s, t.r); } else { ReaderLeaves(s, t.r); }
  }

  lemma ReaderChecksGenKeepsInv(s: State)
    requires Inv(s) && s.r.pc == RGenAgain
    ensures Inv(ReaderChecksGen(s))
  {
    ReaderLeaves(s, ReaderChecksGen(s).r);
  }

  lemma ReaderLoadsStartKeepsInv(s: State)
    requires Inv(s) && InRow(s.r.pc)
    ensures s.r.pc == RType ==> Inv(ReaderLoadsType(s))
    ensures s.r.pc == RState ==> Inv(ReaderLoadsState(s))
  {
    if s.r.pc == RType { ReaderStays(s, ReaderLoadsType(s).r); }
    if s.r.pc == RState { ReaderStays(s, ReaderLoadsState(s).r); }
  }

  lemma ReaderLoadsDstKeepsInv(s: State)
    requires Inv(s) && InRow(s.r.pc)
    ensures s.r.pc == RDstLen ==> Inv(ReaderLoadsDstLen(s))
    ensures s.r.pc == RDstOff ==> Inv(ReaderLoadsDstOff(s))
  {
    if s.r.pc == RDstLen { ReaderStays(s, ReaderLoadsDstLen(s).r); }
    if s.r.pc == RDstOff { ReaderStays(s, ReaderLoadsDstOff(s).r); }
  }

  lemma ReaderLoadsSourceKeepsInv(s: State)
    requires Inv(s) && InRow(s.r.pc)
    ensures s.r.pc == RSrcOff ==> Inv(ReaderLoadsSrcOff(s))
    ensures s.r.pc == RSrcLen ==> Inv(ReaderLoadsSrcLen(s))
  {
  }

  lemma DstByte(m: Memory, row: Row, p: (string, string), limit: nat, k: nat)
    requires Says(m, row, p, limit) && k < row.dstLen
    ensures m.strs[row.dstOff + k] == p.0[k]
  {
    assert m.strs[row.dstOff..row.dstOff + row.dstLen][k] == p.0[k];
  }

  lemma MatchGrows(path: string, d: string, k: nat)
    requires k < |path| && k < |d| && path[..k] == d[..k] && path[k] == d[k]
    ensures path[..k + 1] == d[..k + 1]
  {
    assert path[..k + 1] == path[..k] + [path[k]];
    assert d[..k + 1] == d[..k] + [d[k]];
  }

  lemma MatchEnds(path: string, d: string)
    requires |d| <= |path| && path[..|d|] == d[..|d|] && (|d| == |path| || path[|d|] == '/')
    ensures PathWithin(d, path)
  {
  }

  ghost predicate SameBest(r: Reader, q: Reader) {
    && r.bestLen == q.bestLen && r.bestIdx == q.bestIdx
    && r.bestSrcOff == q.bestSrcOff && r.bestSrcLen == q.bestSrcLen
  }

  /** A step that keeps the best row and stays in the scan. */
  lemma ReaderStays(s: State, r: Reader)
    requires Inv(s) && r.path == s.r.path && SameBest(r, s.r)
    requires r.pc == RCount || (InRow(r.pc) && r.i < s.m.count && AtRow(r, s.m.rows[r.i], s.pairs[r.i]))
    ensures Inv(s.(r := r))
  {
  }

  lemma ReaderComparesKeepsInv(s: State)
    requires Inv(s) && s.r.pc == RCompare
    ensures Inv(ReaderCompares(s))
  {
    ReaderComparesRow(s, s.m.rows[s.r.i], s.pairs[s.r.i]);
    ReaderStays(s, ReaderCompares(s).r);
  }

  lemma ReaderComparesRow(s: State, row: Row, p: (string, string))
    requires Sized(s) && Says(s.m, row, p, s.m.strtabLen) && s.r.pc == RCompare && AtRow(s.r, row, p)
    ensures var t := ReaderCompares(s); t.r.pc == RCount || (InRow(t.r.pc) && AtRow(t.r, row, p))
  {
    var r := s.r;
    if r.k < r.e.dstLen {
      DstByte(s.m, row, p, s.m.strtabLen, r.k);
      if r.k < |r.path| && r.path[r.k] == p.0[r.k] { MatchGrows(r.path, p.0, r.k); }
    } else if r.k == |r.path| || r.path[r.k] == '/' {
      MatchEnds(r.path, p.0);
    }
  }

  lemma ReaderCopiesKeepsInv(s: State)
    requires Inv(s) && s.r.pc == RCopy
    ensures Inv(ReaderCopies(s))
  {
    var i, t := s.r.bestIdx, ReaderCopies(s);
    ReaderCopiesSource(s, s.m.rows[i], s.pairs[i]);
    if t.r.pc == RDone { assert Rewrites(s.pairs[i], t.r.path, t.r.result.value); }
  }

  /** A copying step adds the next byte of the source, or returns the rewriting. */
  lemma ReaderCopiesSource(s: State, row: Row, p: (string, string))
    requires Sized(s) && Says(s.m, row, p, s.m.strtabLen) && s.r.pc == RCopy && s.r.out <= p.1
    requires s.r.bestLen == |p.0| && PathWithin(p.0, s.r.path)
    requires s.r.bestSrcOff == row.srcOff && s.r.bestSrcLen == row.srcLen
    ensures var t := ReaderCopies(s);
            && t == s.(r := t.r) && t.r.path == s.r.path && SameBest(t.r, s.r)
            && (t.r.pc == RCopy || (t.r.pc == RDone && t.r.result.Some?))
            && (t.r.pc == RCopy ==> t.r.out <= p.1)
            && (t.r.pc == RDone ==> Rewrites(p, t.r.path, t.r.result.value))
  {
    var r := s.r;
    if |r.out| < r.bestSrcLen {
      assert s.m.strs[row.srcOff..row.srcOff + row.srcLen][|r.out|] == p.1[|r.out|];
    } else {
      assert r.out == p.1;
    }
  }

  lemma ReaderKeepsInv(s: State)
    requires Inv(s)
    ensures Inv(ReaderStep(s))
  {
    match s.r.pc
    case RIdle => case RDone =>
    case RGen => ReaderLoadsHeaderKeepsInv(s);
    case RLen => ReaderLoadsHeaderKeepsInv(s);
    case RCount => ReaderLoadsCountKeepsInv(s);
    case RGenAgain => ReaderChecksGenKeepsInv(s);
    case RType => ReaderLoadsStartKeepsInv(s);
    case RState => ReaderLoadsStartKeepsInv(s);
    case RDstLen => ReaderLoadsDstKeepsInv(s);
    case RDstOff => ReaderLoadsDstKeepsInv(s);
    case RCompare => ReaderComparesKeepsInv(s);
    case RSrcOff => ReaderLoadsSourceKeepsInv(s);
    case RSrcLen => ReaderLoadsSourceKeepsInv(s);
    case RCopy => ReaderCopiesKeepsInv(s);
  }

  lemma ReaderCallsKeepsInv(s: State, path: string, outCap: nat, live: bool)
    requires Inv(s)
    ensures Inv(ReaderCalls(s, path, outCap, live))
  {
  }

  lemma NextKeepsInv(s: State, a: Action)
    requires Inv(s)
    ensures Inv(Next(s, a))
  {
    match a
    case Add(_, _) =>
    case Mark(idx, state) => WriterMarksKeepsInv(s, idx, state);
    case Publish => QuietStep(s, WriterPublishes(s));
    case WriterSteps => WriterKeepsInv(s);
    case Lookup(path, outCap, live) => ReaderCallsKeepsInv(s, path, outCap, live);
    case ReaderSteps => ReaderKeepsInv(s);
  }

  /** An empty table over any cells and bytes, nobody using it. */
  function Init(cells: seq<Row>, area: string): State {
    var none := Row(0, 0, 0, 0, 0, 0);
    State(Memory(cells, area, 0, 0, 1), Writer(WIdle, "", "", 0),
          Reader(RIdle, "", 0, 0, 0, 0, none, 0, 0, 0, 0, 0, "", None), [])
  }
}
