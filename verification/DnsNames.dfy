/** Domain names on the wire (sections 3.1 and 4.1.4 of RFC 1035): the query
    encoder of the interposer's resolver and the expansion of possibly compressed
    names. */
module DnsNames {
  import opened Common

  const DOT: Byte := 46
  const MAX_HOPS: nat := 128

  type Label = seq<Byte>

  // ---------------------------------------------------------------------------
  // The meaning of a name in a message

  /** The labels of `done` in front of those of `rest`. */
  function After(done: seq<Label>, rest: Option<seq<Label>>): Option<seq<Label>> {
    if rest.None? then None else Some(done + rest.value)
  }

  function Target(msg: seq<Byte>, p: nat): nat
    requires p + 1 < |msg| && msg[p] >= 192
  {
    var hi: int := msg[p] - 192;
    hi * 256 + msg[p + 1]
  }

  /** The labels of the name at `p`, after `hops` pointers. */
  function NameAt(msg: seq<Byte>, p: nat, hops: nat): Option<seq<Label>>
    requires hops <= MAX_HOPS
    decreases MAX_HOPS - hops, |msg| - p
  {
    if p >= |msg| then None
    else
      var c := msg[p];
      if c == 0 then Some([])
      else if c >= 192 then
        if p + 1 >= |msg| || hops == MAX_HOPS || Target(msg, p) >= |msg| then None
        else NameAt(msg, Target(msg, p), hops + 1)
      else if c > 63 || p + 1 + c > |msg| then None
      else After([msg[p + 1..p + 1 + c]], NameAt(msg, p + 1 + c, hops))
  }

  /** Where the name at `p` ends in the message: behind its zero byte or its first
      pointer. */
  function EndAt(msg: seq<Byte>, p: nat): Option<nat>
    decreases |msg| - p
  {
    if p >= |msg| then None
    else
      var c := msg[p];
      if c == 0 then Some(p + 1)
      else if c >= 192 then (if p + 1 >= |msg| then None else Some(p + 2))
      else if c > 63 || p + 1 + c > |msg| then None
      else EndAt(msg, p + 1 + c)
  }

  /** The labels with dots between them. */
  function Dotted(ls: seq<Label>): seq<Byte> {
    if ls == [] then []
    else if |ls| == 1 then ls[0]
    else Dotted(ls[..|ls| - 1]) + [DOT] + ls[|ls| - 1]
  }

  lemma DottedSnoc(ls: seq<Label>, l: Label)
    ensures Dotted(ls + [l]) == if ls == [] then l else Dotted(ls) + [DOT] + l
  {
    assert (ls + [l])[..|ls|] == ls;
  }

  lemma {:induction false} DottedGrows(ls: seq<Label>, more: seq<Label>)
    ensures |Dotted(ls + more)| >= |Dotted(ls)|
    decreases |more|
  {
    if more == [] {
      assert ls + more == ls;
    } else {
      var n := |more| - 1;
      assert ls + more == ls + more[..n] + [more[n]];
      DottedSnoc(ls + more[..n], more[n]);
      DottedGrows(ls, more[..n]);
    }
  }

  lemma AfterNothing(rest: Option<seq<Label>>)
    ensures After([], rest) == rest
  {
    if rest.Some? { assert [] + rest.value == rest.value; }
  }

  lemma AfterAfter(a: seq<Label>, b: seq<Label>, rest: Option<seq<Label>>)
    ensures After(a, After(b, rest)) == After(a + b, rest)
  {
    if rest.Some? { assert a + (b + rest.value) == a + b + rest.value; }
  }

  // ---------------------------------------------------------------------------
  // Expansion

  /** What a caller with room for `size` bytes is to get. */
  ghost predicate Expandable(msg: seq<Byte>, src: nat, size: nat) {
    NameAt(msg, src, 0).Some? && |Dotted(NameAt(msg, src, 0).value)| < size
  }

  /** The expansion so far: `done` is written, the name goes on at `p`. */
  ghost predicate Expanding(msg: seq<Byte>, src: nat, p: nat, hops: nat, consumed: int, done: seq<Label>) {
    && hops <= MAX_HOPS
    && NameAt(msg, src, 0) == After(done, NameAt(msg, p, hops))
    && (consumed < 0 ==> src <= p && EndAt(msg, src) == EndAt(msg, p))
    && (consumed >= 0 ==> EndAt(msg, src) == Some(src + consumed))
  }

  lemma StepOverLabel(msg: seq<Byte>, src: nat, p: nat, hops: nat, consumed: int, done: seq<Label>)
    requires Expanding(msg, src, p, hops, consumed, done) && p < |msg| && 0 < msg[p] < 64 && p + 1 + msg[p] <= |msg|
    ensures Expanding(msg, src, p + 1 + msg[p], hops, consumed, done + [msg[p + 1..p + 1 + msg[p]]])
  {
    AfterAfter(done, [msg[p + 1..p + 1 + msg[p]]], NameAt(msg, p + 1 + msg[p], hops));
  }

  lemma EndOfName(msg: seq<Byte>, src: nat, p: nat, hops: nat, consumed: int, done: seq<Label>)
    requires Expanding(msg, src, p, hops, consumed, done) && p < |msg| && msg[p] == 0
    ensures NameAt(msg, src, 0) == Some(done)
    ensures EndAt(msg, src) == Some(if consumed < 0 then p + 1 else src + consumed)
  {
    assert done + [] == done;
  }

  lemma NoName(msg: seq<Byte>, src: nat, p: nat, hops: nat, consumed: int, done: seq<Label>)
    requires Expanding(msg, src, p, hops, consumed, done)
    requires p >= |msg| || (0 < msg[p] < 192 && (msg[p] > 63 || p + 1 + msg[p] > |msg|))
    ensures NameAt(msg, src, 0).None?
  {
  }

  lemma FollowPointer(msg: seq<Byte>, src: nat, p: nat, hops: nat, consumed: int, done: seq<Label>)
    requires Expanding(msg, src, p, hops, consumed, done) && p < |msg| && msg[p] >= 192
    ensures p + 1 >= |msg| || hops + 1 > MAX_HOPS || Target(msg, p) >= |msg| ==> NameAt(msg, src, 0).None?
    ensures p + 1 < |msg| && hops + 1 <= MAX_HOPS && Target(msg, p) < |msg| ==>
              Expanding(msg, src, Target(msg, p), hops + 1, if consumed < 0 then p + 2 - src else consumed, done)
  {
  }

  /** A name whose first labels already overflow the buffer does not fit. */
  lemma OverflowIsFinal(msg: seq<Byte>, src: nat, p: nat, hops: nat, consumed: int, done: seq<Label>, size: nat)
    requires Expanding(msg, src, p, hops, consumed, done) && |Dotted(done)| >= size
    ensures !Expandable(msg, src, size)
  {
    if NameAt(msg, p, hops).Some? { DottedGrows(done, NameAt(msg, p, hops).value); }
  }

  lemma OverwriteMore(s: seq<Byte>, x: seq<Byte>, d: seq<Byte>)
    requires |x| + |d| <= |s|
    ensures Overwrite(Overwrite(s, 0, x), |x|, d) == Overwrite(s, 0, x + d)
  {
  }

  lemma DottedAppend(done: seq<Label>, l: Label)
    ensures Dotted(done + [l]) == Dotted(done) + (if done == [] then l else [DOT] + l)
  {
    DottedSnoc(done, l);
  }

  method CopyInto(dst: array<Byte>, at: nat, d: seq<Byte>)
    requires at + |d| <= dst.Length
    modifies dst
    ensures dst[..] == Overwrite(old(dst[..]), at, d)
  {
    ghost var s := dst[..];
    for k := 0 to |d|
      invariant forall j | 0 <= j < dst.Length :: dst[j] == if at <= j < at + k then d[j - at] else s[j]
    {
      dst[at + k] := d[k];
    }
    assert dst[..] == Overwrite(s, at, d);
  }

  /** Writes a dot, unless this is the first label, and the label. */
  method AppendLabel(dst: array<Byte>, dp: nat, l: Label, first: bool) returns (q: Option<nat>)
    requires dp < dst.Length
    modifies dst
    ensures var d := if first then l else [DOT] + l;
            if dp + |d| < dst.Length then q == Some(dp + |d|) && dst[..] == Overwrite(old(dst[..]), dp, d)
            else q == None
  {
    var w := dp;
    if !first {
      dst[w] := DOT;
      w := w + 1;
    }
    if w + |l| >= dst.Length { return None; }
    CopyInto(dst, w, l);
    q := Some(w + |l|);
  }

  /** `done`, with dots, is at the front of the buffer and nothing else changed. */
  ghost predicate Written(s: seq<Byte>, now: seq<Byte>, done: seq<Label>, dp: nat) {
    dp == |Dotted(done)| < |s| && now == Overwrite(s, 0, Dotted(done))
  }

  method PutLabel(dst: array<Byte>, dp: nat, l: Label, first: bool, ghost s: seq<Byte>, ghost done: seq<Label>)
    returns (q: Option<nat>)
    requires Written(s, dst[..], done, dp) && (first <==> done == [])
    modifies dst
    ensures q.Some? ==> Written(s, dst[..], done + [l], q.value)
    ensures q.None? ==> |Dotted(done + [l])| >= dst.Length
  {
    DottedAppend(done, l);
    q := AppendLabel(dst, dp, l, first);
    if q.Some? { OverwriteMore(s, Dotted(done), if first then l else [DOT] + l); }
  }

  method PutZero(dst: array<Byte>, dp: nat, ghost s: seq<Byte>, ghost done: seq<Label>)
    requires Written(s, dst[..], done, dp)
    modifies dst
    ensures dst[..] == Overwrite(s, 0, Dotted(done) + [0])
  {
    OverwriteMore(s, Dotted(done), [0]);
    CopyInto(dst, dp, [0]);
  }

  method Jump(msg: seq<Byte>, src: nat, p: nat, hops: nat, consumed: int, ghost done: seq<Label>)
    returns (off: Option<nat>, used: int)
    requires Expanding(msg, src, p, hops, consumed, done) && p < |msg| && msg[p] >= 192
    ensures off.None? ==> NameAt(msg, src, 0).None?
    ensures off.Some? ==> hops < MAX_HOPS && Expanding(msg, src, off.value, hops + 1, used, done)
  {
    FollowPointer(msg, src, p, hops, consumed, done);
    used := consumed;
    if p + 1 >= |msg| { return None, used; }
    var to := Target(msg, p);
    if consumed < 0 { used := p + 2 - src; }
    if hops + 1 > MAX_HOPS || to >= |msg| { return None, used; }
    off := Some(to);
  }

  /** One label of the expansion, unless it is malformed or does not fit. */
  method TakeLabel(msg: seq<Byte>, src: nat, p: nat, hops: nat, consumed: int, dst: array<Byte>, dp: nat, first: bool,
                   ghost s: seq<Byte>, ghost done: seq<Label>)
    returns (q: Option<nat>, ghost more: seq<Label>)
    requires Expanding(msg, src, p, hops, consumed, done) && p < |msg| && 0 < msg[p] < 192
    requires Written(s, dst[..], done, dp) && (first <==> done == [])
    modifies dst
    ensures q.None? ==> !Expandable(msg, src, dst.Length)
    ensures q.Some? ==> p + 1 + msg[p] <= |msg| && Expanding(msg, src, p + 1 + msg[p], hops, consumed, more)
    ensures q.Some? ==> Written(s, dst[..], more, q.value) && more != []
  {
    var c := msg[p];
    more := done;
    if c > 63 || p + 1 + c > |msg| {
      NoName(msg, src, p, hops, consumed, done);
      return None, more;
    }
    var l := msg[p + 1..p + 1 + c];
    StepOverLabel(msg, src, p, hops, consumed, done);
    q := PutLabel(dst, dp, l, first, s, done);
    more := done + [l];
    if q.None? { OverflowIsFinal(msg, src, p + 1 + c, hops, consumed, more, dst.Length); }
  }

  /** The end of the expansion, at the name's zero byte. */
  method CloseName(msg: seq<Byte>, src: nat, p: nat, hops: nat, consumed: int, dst: array<Byte>, dp: nat,
                   ghost s: seq<Byte>, ghost done: seq<Label>)
    returns (n: int)
    requires Expanding(msg, src, p, hops, consumed, done) && p < |msg| && msg[p] == 0 && Written(s, dst[..], done, dp)
    modifies dst
    ensures NameAt(msg, src, 0) == Some(done) && n >= 0 && EndAt(msg, src) == Some(src + n)
    ensures dst[..] == Overwrite(s, 0, Dotted(done) + [0])
  {
    EndOfName(msg, src, p, hops, consumed, done);
    n := if consumed < 0 then p + 1 - src else consumed;
    PutZero(dst, dp, s, done);
  }

  /** Expands the name at `src`: the labels with dots between them and a zero
      byte, and how far the name reaches in the message. */
  method DnExpand(msg: seq<Byte>, src: nat, dst: array<Byte>) returns (n: int)
    requires src <= |msg|
    modifies dst
    ensures n >= 0 <==> Expandable(msg, src, dst.Length)
    ensures n >= 0 ==> EndAt(msg, src) == Some(src + n)
    ensures n >= 0 ==> dst[..] == Overwrite(old(dst[..]), 0, Dotted(NameAt(msg, src, 0).value) + [0])
  {
    if dst.Length == 0 { return -1; }
    ghost var s := dst[..];
    ghost var done: seq<Label> := [];
    var p: nat, dp: nat, hops: nat, consumed: int, first := src, 0, 0, -1, true;
    AfterNothing(NameAt(msg, src, 0));
    while p < |msg|
      invariant Expanding(msg, src, p, hops, consumed, done) && (first <==> done == [])
      invariant Written(s, dst[..], done, dp)
      decreases MAX_HOPS - hops, |msg| - p
    {
      var c := msg[p];
      if c == 0 {
        n := CloseName(msg, src, p, hops, consumed, dst, dp, s, done);
        return;
      }
      if c >= 192 {
        var off;
        off, consumed := Jump(msg, src, p, hops, consumed, done);
        if off.None? { return -1; }
        p, hops := off.value, hops + 1;
        continue;
      }
      var q;
      q, done := TakeLabel(msg, src, p, hops, consumed, dst, dp, first, s, done);
      if q.None? { return -1; }
      p, dp, first := p + 1 + c, q.value, false;
    }
    NoName(msg, src, p, hops, consumed, done);
    n := -1;
  }

  // ---------------------------------------------------------------------------
  // Encoding

  /** Labels as they stand in a message, without the closing zero or pointer. */
  function Body(ls: seq<Label>): seq<Byte>
    requires Short(ls)
  {
    if ls == [] then [] else Body(ls[..|ls| - 1]) + [|ls[|ls| - 1]|] + ls[|ls| - 1]
  }

  /** Every label has 1 to 63 bytes. */
  ghost predicate Short(ls: seq<Label>) { forall k | 0 <= k < |ls| :: 1 <= |ls[k]| <= 63 }

  /** The name that starts with `ls` and goes on behind them. */
  lemma {:induction false} NameOfBody(msg: seq<Byte>, p: nat, ls: seq<Label>, hops: nat)
    requires Short(ls) && hops <= MAX_HOPS && p + |Body(ls)| <= |msg| && msg[p..p + |Body(ls)|] == Body(ls)
    ensures NameAt(msg, p, hops) == After(ls, NameAt(msg, p + |Body(ls)|, hops))
    ensures EndAt(msg, p) == EndAt(msg, p + |Body(ls)|)
  {
    if ls == [] {
      AfterNothing(NameAt(msg, p, hops));
    } else {
      var init, l := ls[..|ls| - 1], ls[|ls| - 1];
      var q := p + |Body(init)|;
      LastLabel(msg, p, Body(init), l);
      NameOfBody(msg, p, init, hops);
      LabelAt(msg, q, l, hops);
      AfterAfter(init, [l], NameAt(msg, q + 1 + |l|, hops));
      assert init + [l] == ls;
    }
  }

  lemma LabelAt(msg: seq<Byte>, q: nat, l: Label, hops: nat)
    requires 1 <= |l| <= 63 && hops <= MAX_HOPS && q + 1 + |l| <= |msg| && msg[q] == |l|
    requires msg[q + 1..q + 1 + |l|] == l
    ensures NameAt(msg, q, hops) == After([l], NameAt(msg, q + 1 + |l|, hops))
    ensures EndAt(msg, q) == EndAt(msg, q + 1 + |l|)
  {
  }

  lemma LastLabel(msg: seq<Byte>, p: nat, init: seq<Byte>, l: Label)
    requires |l| <= 63
    requires var b := init + [|l|] + l; p + |b| <= |msg| && msg[p..p + |b|] == b
    ensures var q := p + |init|; msg[p..q] == init && msg[q] == |l| && msg[q + 1..q + 1 + |l|] == l
  {
    var b, q := init + [|l|] + l, p + |init|;
    assert msg[p..q] == b[..|init|] && msg[q] == b[|init|] && msg[q + 1..q + 1 + |l|] == b[|init| + 1..];
  }

  /** Expanding an encoded name gives its labels back and reaches its end. */
  lemma NameRoundTrip(msg: seq<Byte>, p: nat, ls: seq<Label>, hops: nat)
    requires Short(ls) && hops <= MAX_HOPS && p + |Body(ls)| < |msg|
    requires msg[p..p + |Body(ls)|] == Body(ls) && msg[p + |Body(ls)|] == 0
    ensures NameAt(msg, p, hops) == Some(ls) && EndAt(msg, p) == Some(p + |Body(ls)| + 1)
  {
    NameOfBody(msg, p, ls, hops);
    assert ls + [] == ls;
  }

  /** At `p` stands a pointer to `off`: two bytes, the upper two bits set and the offset
      in the other fourteen, high bits first. */
  predicate PointsTo(msg: seq<Byte>, p: nat, off: nat) {
    p + 1 < |msg| && off < 16384 && msg[p] == 192 + off / 256 && msg[p + 1] == off % 256
  }

  /** A compressed name is its own labels and then those of the name pointed to,
      at the price of one hop; in the message it ends behind the pointer. */
  lemma CompressedName(msg: seq<Byte>, p: nat, ls: seq<Label>, off: nat, hops: nat)
    requires Short(ls) && hops < MAX_HOPS && off < |msg|
    requires p + |Body(ls)| <= |msg| && msg[p..p + |Body(ls)|] == Body(ls) && PointsTo(msg, p + |Body(ls)|, off)
    ensures NameAt(msg, p, hops) == After(ls, NameAt(msg, off, hops + 1))
    ensures EndAt(msg, p) == Some(p + |Body(ls)| + 2)
  {
    NameOfBody(msg, p, ls, hops);
  }

  /** Labels in front of a pointer back to them make no name. */
  lemma {:induction false} CycleIsRefused(msg: seq<Byte>, p: nat, ls: seq<Label>, hops: nat)
    requires Short(ls) && hops <= MAX_HOPS
    requires p + |Body(ls)| <= |msg| && msg[p..p + |Body(ls)|] == Body(ls) && PointsTo(msg, p + |Body(ls)|, p)
    ensures NameAt(msg, p, hops) == None
    decreases MAX_HOPS - hops
  {
    NameOfBody(msg, p, ls, hops);
    if hops < MAX_HOPS { CycleIsRefused(msg, p, ls, hops + 1); }
  }

  /** Each of `ps` but the last is where a pointer to the next stands; at the last is a
      zero byte. */
  ghost predicate Chained(msg: seq<Byte>, ps: seq<nat>) {
    && ps != [] && ps[|ps| - 1] < |msg| && msg[ps[|ps| - 1]] == 0
    && forall k | 0 <= k < |ps| - 1 :: PointsTo(msg, ps[k], ps[k + 1])
  }

  /** Pointers to pointers are followed 128 times and no more. */
  lemma ChainIff(msg: seq<Byte>, ps: seq<nat>)
    requires Chained(msg, ps)
    ensures NameAt(msg, ps[0], 0) == if |ps| <= 129 then Some([]) else None
  {
    ChainFrom(msg, ps, 0);
  }

  lemma {:induction false} ChainFrom(msg: seq<Byte>, ps: seq<nat>, hops: nat)
    requires Chained(msg, ps) && hops <= MAX_HOPS
    ensures NameAt(msg, ps[0], hops) == if hops + |ps| - 1 <= MAX_HOPS then Some([]) else None
    decreases |ps|
  {
    if |ps| > 1 {
      assert PointsTo(msg, ps[0], ps[1]);
      forall k | 0 <= k < |ps| - 2 ensures PointsTo(msg, ps[1..][k], ps[1..][k + 1]) {
        assert PointsTo(msg, ps[k + 1], ps[k + 2]);
      }
      if |ps| > 2 { assert PointsTo(msg, ps[1], ps[2]); }
      if hops < MAX_HOPS { ChainFrom(msg, ps[1..], hops + 1); }
    }
  }

  // ---------------------------------------------------------------------------
  // Host names

  /** The labels found by the scan that is at `p` in the label from `lv`; it stops
      at the first empty label. */
  function LabelsFrom(host: seq<Byte>, lv: nat, p: nat): seq<Label>
    requires lv <= p <= |host|
    decreases |host| - p
  {
    if p == |host| then (if p == lv then [] else [host[lv..p]])
    else if host[p] != DOT then LabelsFrom(host, lv, p + 1)
    else if p == lv then []
    else [host[lv..p]] + LabelsFrom(host, p + 1, p + 1)
  }

  function HostLabels(host: seq<Byte>): seq<Label> { LabelsFrom(host, 0, 0) }

  /** No dot at either end and no two in a row. */
  ghost predicate Proper(host: seq<Byte>) {
    host != [] ==>
      && host[0] != DOT && host[|host| - 1] != DOT
      && forall k | 0 < k < |host| :: !(host[k - 1] == DOT && host[k] == DOT)
  }

  /** Labels that a dotted name can show: not empty and without dots. */
  ghost predicate Plain(ls: seq<Label>) { forall k | 0 <= k < |ls| :: ls[k] != [] && DOT !in ls[k] }

  lemma {:induction false} DottedCons(l: Label, ls: seq<Label>)
    ensures Dotted([l] + ls) == if ls == [] then l else l + [DOT] + Dotted(ls)
    decreases |ls|
  {
    if ls == [] {
      assert [l] + ls == [l];
    } else {
      var init, z := ls[..|ls| - 1], ls[|ls| - 1];
      assert [l] + ls == [l] + init + [z] && init + [z] == ls;
      DottedSnoc([l] + init, z);
      DottedSnoc(init, z);
      DottedCons(l, init);
      Regroup(l, Dotted(init), z);
    }
  }

  lemma Regroup(a: seq<Byte>, b: seq<Byte>, c: seq<Byte>)
    ensures a + [DOT] + b + [DOT] + c == a + [DOT] + (b + [DOT] + c)
  {
  }

  lemma {:induction false} DottedIsProper(ls: seq<Label>)
    requires Plain(ls)
    ensures Proper(Dotted(ls)) && (ls != [] ==> Dotted(ls) != [])
  {
    if |ls| > 1 {
      DottedIsProper(ls[..|ls| - 1]);
      var d, l := Dotted(ls[..|ls| - 1]), ls[|ls| - 1];
      assert Dotted(ls) == d + [DOT] + l;
      assert l[0] != DOT && l[|l| - 1] != DOT;
    } else if |ls| == 1 {
      assert ls[0][0] != DOT && ls[0][|ls[0]| - 1] != DOT;
    }
  }

  lemma LongerSlice(host: seq<Byte>, lv: nat, p: nat)
    requires lv <= p < |host|
    ensures host[lv..p + 1] == host[lv..p] + [host[p]]
  {
  }

  lemma {:induction false} LabelsArePlain(host: seq<Byte>, lv: nat, p: nat)
    requires lv <= p <= |host| && DOT !in host[lv..p]
    ensures Plain(LabelsFrom(host, lv, p))
    decreases |host| - p
  {
    if p < |host| {
      if host[p] != DOT {
        LongerSlice(host, lv, p);
        LabelsArePlain(host, lv, p + 1);
      } else if p > lv {
        assert host[p + 1..p + 1] == [];
        LabelsArePlain(host, p + 1, p + 1);
      }
    }
  }

  /** The scan stopped at the end, or at an empty label. */
  ghost predicate StopsAt(host: seq<Byte>, n: nat) {
    n == |host| || (n < |host| && host[n] == DOT
                       && (n == 0 || host[n - 1] == DOT || n + 1 == |host| || host[n + 1] == DOT))
  }

  /** `ls`, with dots, is what stands at `lv`, up to where the scan stops. */
  ghost predicate Spell(host: seq<Byte>, lv: nat, ls: seq<Label>) { Shown(host, lv, Dotted(ls)) }

  ghost predicate Shown(host: seq<Byte>, lv: nat, d: seq<Byte>) {
    lv + |d| <= |host| && d == host[lv..lv + |d|] && StopsAt(host, lv + |d|)
  }

  lemma SpellCons(host: seq<Byte>, lv: nat, p: nat, rest: seq<Label>)
    requires lv < p < |host| && host[p] == DOT && Spell(host, p + 1, rest)
    ensures Spell(host, lv, [host[lv..p]] + rest)
  {
    DottedCons(host[lv..p], rest);
    if rest == [] { ShownLast(host, lv, p); } else { ShownMore(host, lv, p, Dotted(rest)); }
  }

  lemma ShownLast(host: seq<Byte>, lv: nat, p: nat)
    requires lv < p < |host| && host[p] == DOT && Shown(host, p + 1, [])
    ensures Shown(host, lv, host[lv..p])
  {
    assert StopsAt(host, p);
  }

  lemma ShownMore(host: seq<Byte>, lv: nat, p: nat, d: seq<Byte>)
    requires lv < p < |host| && host[p] == DOT && Shown(host, p + 1, d)
    ensures Shown(host, lv, host[lv..p] + [DOT] + d)
  {
    assert host[lv..p + 1 + |d|] == host[lv..p] + [DOT] + d;
  }

  lemma {:induction false} LabelsSpell(host: seq<Byte>, lv: nat, p: nat)
    requires lv <= p <= |host| && DOT !in host[lv..p] && (lv > 0 ==> host[lv - 1] == DOT)
    ensures Spell(host, lv, LabelsFrom(host, lv, p))
    decreases |host| - p
  {
    if p < |host| {
      if host[p] != DOT {
        LongerSlice(host, lv, p);
        LabelsSpell(host, lv, p + 1);
      } else if p > lv {
        assert host[p + 1..p + 1] == [];
        LabelsSpell(host, p + 1, p + 1);
        SpellCons(host, lv, p, LabelsFrom(host, p + 1, p + 1));
      }
    }
  }

  /** The labels sent spell the host name exactly when it has no empty label. */
  lemma HostRoundTrip(host: seq<Byte>)
    ensures Dotted(HostLabels(host)) == host <==> Proper(host)
  {
    LabelsArePlain(host, 0, 0);
    LabelsSpell(host, 0, 0);
    DottedIsProper(HostLabels(host));
    var n := |Dotted(HostLabels(host))|;
    if n < |host| {
      assert host[n] == DOT && !Proper(host);
    }
  }

  // ---------------------------------------------------------------------------
  // The query

  const QUERY_SIZE: nat := 512

  /** The header: identifier, recursion desired, one question. */
  function Head(id: nat): seq<Byte>
    requires id < 65536
  {
    [id / 256, id % 256, 1, 0, 0, 1, 0, 0, 0, 0, 0, 0]
  }

  /** The end of the name, the type and the Internet class. */
  function Tail(qtype: nat): seq<Byte>
    requires qtype < 65536
  {
    [0, qtype / 256, qtype % 256, 0, 1]
  }

  function Query(id: nat, ls: seq<Label>, qtype: nat): seq<Byte>
    requires id < 65536 && qtype < 65536 && Short(ls)
  {
    Head(id) + Body(ls) + Tail(qtype)
  }

  /** The labels the encoder writes from there on: it stops at the first that is
      empty or too long. */
  function SentFrom(host: seq<Byte>, lv: nat, p: nat): (ls: seq<Label>)
    requires lv <= p <= |host|
    ensures Short(ls)
    decreases |host| - p
  {
    if p < |host| && host[p] != DOT then SentFrom(host, lv, p + 1)
    else if p == lv || p - lv > 63 then []
    else if p == |host| then [host[lv..p]]
    else [host[lv..p]] + SentFrom(host, p + 1, p + 1)
  }

  /** It stops because a label is too long. */
  predicate RefusedFrom(host: seq<Byte>, lv: nat, p: nat)
    requires lv <= p <= |host|
    decreases |host| - p
  {
    if p < |host| && host[p] != DOT then RefusedFrom(host, lv, p + 1)
    else p - lv > 63 || (p > lv && p < |host| && RefusedFrom(host, p + 1, p + 1))
  }

  function Sent(host: seq<Byte>): (ls: seq<Label>)
    ensures Short(ls)
  {
    SentFrom(host, 0, 0)
  }

  predicate Refused(host: seq<Byte>) { RefusedFrom(host, 0, 0) }

  /** Nothing is refused if and only if all labels are short, and then all are sent. */
  lemma {:induction false} RefusedIff(host: seq<Byte>, lv: nat, p: nat)
    requires lv <= p <= |host|
    ensures RefusedFrom(host, lv, p) <==> !Short(LabelsFrom(host, lv, p))
    ensures !RefusedFrom(host, lv, p) ==> SentFrom(host, lv, p) == LabelsFrom(host, lv, p)
    decreases |host| - p
  {
    if p < |host| && host[p] != DOT {
      RefusedIff(host, lv, p + 1);
    } else if p > lv {
      var l := host[lv..p];
      if p == |host| {
        assert [l][0] == l;
      } else {
        RefusedIff(host, p + 1, p + 1);
        ShortCons(l, LabelsFrom(host, p + 1, p + 1));
      }
    }
  }

  lemma ShortCons(l: Label, ls: seq<Label>)
    ensures Short([l] + ls) <==> 1 <= |l| <= 63 && Short(ls)
  {
    var all := [l] + ls;
    assert all[0] == l && forall k | 0 <= k < |ls| :: all[k + 1] == ls[k];
  }

  /** Every byte the encoder writes behind the cleared buffer's start. */
  function QueryBytes(host: seq<Byte>, qtype: nat, id: nat): seq<Byte>
    requires qtype < 65536 && id < 65536
  {
    if Refused(host) then Head(id) + Body(Sent(host)) else Query(id, Sent(host), qtype)
  }

  /** How far that reaches. */
  function Extent(host: seq<Byte>): nat {
    12 + |Body(Sent(host))| + (if Refused(host) then 0 else 5)
  }

  /** Memory from the buffer on, after the encoder has run. */
  function Encoded(mem: seq<Byte>, host: seq<Byte>, qtype: nat, id: nat): seq<Byte>
    requires qtype < 65536 && id < 65536 && |mem| >= QUERY_SIZE && |mem| >= Extent(host)
  {
    Overwrite(Overwrite(mem, 0, Zeros(QUERY_SIZE)), 0, QueryBytes(host, qtype, id))
  }

  /** The query so far: the header and the labels of `done` in front of `base`. */
  ghost predicate Encoding(now: seq<Byte>, base: seq<Byte>, id: nat, done: seq<Label>, w: nat)
    requires id < 65536
  {
    && Short(done) && w == 12 + |Body(done)| <= |base|
    && now == Overwrite(base, 0, Head(id) + Body(done))
  }

  lemma BodySnoc(done: seq<Label>, l: Label)
    requires Short(done) && 1 <= |l| <= 63
    ensures Short(done + [l]) && Body(done + [l]) == Body(done) + ([|l|] + l)
  {
    assert (done + [l])[..|done|] == done;
  }

  lemma {:induction false} BodyGrows(done: seq<Label>, more: seq<Label>)
    requires Short(done) && Short(more)
    ensures Short(done + more) && |Body(done)| <= |Body(done + more)|
    decreases |more|
  {
    if more == [] {
      assert done + more == done;
    } else {
      var n := |more| - 1;
      BodyGrows(done, more[..n]);
      BodySnoc(done + more[..n], more[n]);
      assert done + more == done + more[..n] + [more[n]];
    }
  }

  method EncodeLabel(dst: array<Byte>, w: nat, l: Label, ghost base: seq<Byte>, ghost id: nat, ghost done: seq<Label>)
    returns (v: nat)
    requires id < 65536 && Encoding(dst[..], base, id, done, w) && 1 <= |l| <= 63 && w + 1 + |l| <= dst.Length
    modifies dst
    ensures v == w + 1 + |l| && Encoding(dst[..], base, id, done + [l], v)
  {
    BodySnoc(done, l);
    ghost var h, b := Head(id), Body(done);
    OverwriteMore(base, h + b, [|l|] + l);
    assert h + b + ([|l|] + l) == h + (b + ([|l|] + l));
    CopyInto(dst, w, [|l|] + l);
    v := w + 1 + |l|;
  }

  /** Clears the buffer's 512 bytes and writes the header. */
  method Start(dst: array<Byte>, id: nat)
    requires dst.Length >= QUERY_SIZE && id < 65536
    modifies dst
    ensures Encoding(dst[..], Overwrite(old(dst[..]), 0, Zeros(QUERY_SIZE)), id, [], 12)
  {
    CopyInto(dst, 0, Zeros(QUERY_SIZE));
    CopyInto(dst, 0, Head(id));
    assert Head(id) + [] == Head(id);
  }

  method Finish(dst: array<Byte>, w: nat, qtype: nat, ghost base: seq<Byte>, ghost id: nat, ghost done: seq<Label>)
    returns (n: int)
    requires id < 65536 && qtype < 65536 && Encoding(dst[..], base, id, done, w) && w + 5 <= dst.Length
    modifies dst
    ensures n == |Query(id, done, qtype)| <= |base| && dst[..] == Overwrite(base, 0, Query(id, done, qtype))
  {
    OverwriteMore(base, Head(id) + Body(done), Tail(qtype));
    CopyInto(dst, w, Tail(qtype));
    n := w + 5;
  }

  /** The scan has written `done` and is at `p` in the label from `lv`. */
  ghost predicate Scanning(host: seq<Byte>, done: seq<Label>, lv: nat, p: nat) {
    && lv <= p <= |host| && Short(done)
    && Sent(host) == done + SentFrom(host, lv, p)
    && (Refused(host) <==> RefusedFrom(host, lv, p))
  }

  lemma ScanStops(host: seq<Byte>, done: seq<Label>, lv: nat, p: nat)
    requires Scanning(host, done, lv, p) && (p == |host| || host[p] == DOT) && (p == lv || p - lv > 63)
    ensures Sent(host) == done && (Refused(host) <==> p - lv > 63)
  {
    assert done + [] == done;
  }

  /** A short label fits whatever fits all of them, and the scan goes on behind it. */
  lemma ScanLabel(host: seq<Byte>, done: seq<Label>, lv: nat, p: nat)
    requires Scanning(host, done, lv, p) && (p == |host| || host[p] == DOT) && 1 <= p - lv <= 63
    ensures 12 + |Body(done)| + 1 + (p - lv) <= Extent(host)
    ensures p == |host| ==> Sent(host) == done + [host[lv..p]] && !Refused(host)
    ensures p < |host| ==> Scanning(host, done + [host[lv..p]], p + 1, p + 1)
  {
    var l := host[lv..p];
    var rest := if p == |host| then [] else SentFrom(host, p + 1, p + 1);
    BodySnoc(done, l);
    BodyGrows(done + [l], rest);
    assert done + ([l] + rest) == done + [l] + rest;
    if p == |host| { assert [l] + rest == [l] && done + [l] + [] == done + [l]; }
  }

  lemma ScanOn(host: seq<Byte>, done: seq<Label>, lv: nat, p: nat)
    requires Scanning(host, done, lv, p) && p < |host| && host[p] != DOT
    ensures Scanning(host, done, lv, p + 1)
  {
  }

  method SendLabel(dst: array<Byte>, w: nat, host: seq<Byte>, lv: nat, p: nat, ghost base: seq<Byte>, ghost id: nat,
                   ghost done: seq<Label>)
    returns (v: nat, ghost more: seq<Label>)
    requires id < 65536 && Encoding(dst[..], base, id, done, w) && Extent(host) <= dst.Length
    requires Scanning(host, done, lv, p) && (p == |host| || host[p] == DOT) && 1 <= p - lv <= 63
    modifies dst
    ensures Encoding(dst[..], base, id, more, v)
    ensures if p == |host| then Sent(host) == more && !Refused(host) else Scanning(host, more, p + 1, p + 1)
  {
    ScanLabel(host, done, lv, p);
    v := EncodeLabel(dst, w, host[lv..p], base, id, done);
    more := done + [host[lv..p]];
  }

  /** Looks at one byte: a label ends there or goes on. */
  method ScanByte(dst: array<Byte>, w: nat, host: seq<Byte>, lv: nat, p: nat, ghost base: seq<Byte>, ghost id: nat,
                  ghost done: seq<Label>)
    returns (v: nat, start: nat, ghost more: seq<Label>, stop: bool, ok: bool)
    requires id < 65536 && Encoding(dst[..], base, id, done, w) && Extent(host) <= dst.Length
    requires Scanning(host, done, lv, p)
    modifies dst
    ensures stop ==> Encoding(dst[..], base, id, Sent(host), v) && ok == !Refused(host)
    ensures !stop ==> p < |host| && Scanning(host, more, start, p + 1) && Encoding(dst[..], base, id, more, v)
  {
    v, start, more, stop, ok := w, lv, done, false, true;
    if p == |host| || host[p] == DOT {
      if p == lv || p - lv > 63 {
        ScanStops(host, done, lv, p);
        return w, lv, done, true, p == lv;
      }
      v, more := SendLabel(dst, w, host, lv, p, base, id, done);
      start, stop := p + 1, p == |host|;
    } else {
      ScanOn(host, done, lv, p);
    }
  }

  /** The scan: writes label after label. */
  method WriteLabels(dst: array<Byte>, host: seq<Byte>, ghost base: seq<Byte>, ghost id: nat) returns (w: nat, ok: bool)
    requires id < 65536 && Encoding(dst[..], base, id, [], 12) && Extent(host) <= dst.Length
    modifies dst
    ensures Encoding(dst[..], base, id, Sent(host), w) && ok == !Refused(host)
  {
    ghost var done: seq<Label> := [];
    var p: nat, lv: nat, stop := 0, 0, false;
    w, ok := 12, true;
    while !stop
      invariant stop ==> Encoding(dst[..], base, id, Sent(host), w) && ok == !Refused(host)
      invariant !stop ==> Scanning(host, done, lv, p) && Encoding(dst[..], base, id, done, w)
      decreases !stop, |host| - p
    {
      w, lv, done, stop, ok := ScanByte(dst, w, host, lv, p, base, id, done);
      if !stop { p := p + 1; }
    }
  }

  /** Writes the query for a host name: refused exactly when a label in front of
      the first empty one has more than 63 bytes.  The caller has to have room for
      what is written, which Extent says. */
  method DnsEncode(dst: array<Byte>, host: seq<Byte>, qtype: nat, id: nat) returns (n: int)
    requires dst.Length >= QUERY_SIZE && Extent(host) <= dst.Length && qtype < 65536 && id < 65536
    modifies dst
    ensures n >= 0 <==> !Refused(host)
    ensures n >= 0 ==> n == Extent(host)
    ensures dst[..] == Encoded(old(dst[..]), host, qtype, id)
  {
    ghost var base := Overwrite(dst[..], 0, Zeros(QUERY_SIZE));
    Start(dst, id);
    var w, ok := WriteLabels(dst, host, base, id);
    if !ok { return -1; }
    n := Finish(dst, w, qtype, base, id, Sent(host));
  }

  // ---------------------------------------------------------------------------
  // When the query stays in its buffer

  /** Whatever is in memory behind the 512-byte buffer survives the encoder if and
      only if the labels it sends leave room for what frames them. */
  lemma StaysInBufferIff(host: seq<Byte>, qtype: nat, id: nat, size: nat)
    requires qtype < 65536 && id < 65536 && size >= QUERY_SIZE && size >= Extent(host)
    ensures (forall mem | |mem| == size :: Encoded(mem, host, qtype, id)[QUERY_SIZE..] == mem[QUERY_SIZE..])
       <==> Extent(host) <= QUERY_SIZE
  {
    var w := QueryBytes(host, qtype, id);
    if Extent(host) <= QUERY_SIZE {
      forall mem | |mem| == size ensures Encoded(mem, host, qtype, id)[QUERY_SIZE..] == mem[QUERY_SIZE..] {
      }
    } else {
      var last := |w| - 1;
      var mem := seq(size, _ => if w[last] == 0 then 1 else 0);
      var after := Encoded(mem, host, qtype, id);
      assert after[last] == w[last] != mem[last];
      assert after[QUERY_SIZE..][last - QUERY_SIZE] != mem[QUERY_SIZE..][last - QUERY_SIZE];
    }
  }

  /** `n` labels of one letter. */
  function Letters(n: nat): seq<Byte> {
    if n == 0 then [] else if n == 1 then [97] else [97, DOT] + Letters(n - 1)
  }

  function LetterLabels(n: nat): (ls: seq<Label>)
    ensures Short(ls) && |Body(ls)| == 2 * n
  {
    if n == 0 then [] else LetterLabels(n - 1) + [[97]]
  }

  lemma {:induction false} LettersSplit(host: seq<Byte>, p: nat, n: nat)
    requires p <= |host| && host[p..] == Letters(n)
    ensures LabelsFrom(host, p, p) == LetterLabels(n)
    decreases n
  {
    if n > 0 {
      assert host[p] == host[p..][0] == 97;
      assert host[p..p + 1] == [97];
      if n == 1 {
        assert |host| == p + 1;
      } else {
        assert host[p + 1] == host[p..][1] == DOT;
        assert host[p + 2..] == host[p..][2..] == Letters(n - 1);
        LettersSplit(host, p + 2, n - 1);
        LetterLabelsCons(n);
      }
    }
  }

  lemma {:induction false} LetterLabelsCons(n: nat)
    requires n > 0
    ensures LetterLabels(n) == [[97]] + LetterLabels(n - 1)
  {
    if n > 1 {
      LetterLabelsCons(n - 1);
    }
  }

  /** A name of 300 one-letter labels runs past the buffer: the code does not check. */
  lemma LongNameOverruns()
    ensures |Letters(300)| == 599 && Short(HostLabels(Letters(300))) && Extent(Letters(300)) == 617 > QUERY_SIZE
  {
    var host := Letters(300);
    assert host[0..] == host;
    LettersSplit(host, 0, 300);
    RefusedIff(host, 0, 0);
    LettersLength(300);
  }

  lemma {:induction false} LettersLength(n: nat)
    requires n > 0
    ensures |Letters(n)| == 2 * n - 1
  {
    if n > 1 { LettersLength(n - 1); }
  }

  // ---------------------------------------------------------------------------
  // Round trips

  /** The name field of a query expands to the labels of the host name, and to its
      encoded length, whatever else is in the buffer. */
  lemma QueryRoundTrip(id: nat, ls: seq<Label>, qtype: nat, after: seq<Byte>)
    requires id < 65536 && qtype < 65536 && Short(ls)
    ensures NameAt(Query(id, ls, qtype) + after, 12, 0) == Some(ls)
    ensures EndAt(Query(id, ls, qtype) + after, 12) == Some(12 + |Body(ls)| + 1)
  {
    var q := Query(id, ls, qtype) + after;
    assert q[12..12 + |Body(ls)|] == Body(ls);
    assert q[12 + |Body(ls)|] == 0;
    NameRoundTrip(q, 12, ls, 0);
  }

  /** The sixteen-bit field at `at`, high byte first. */
  function Word(msg: seq<Byte>, at: nat): int
    requires at + 1 < |msg|
  {
    var hi: int := msg[at];
    hi * 256 + msg[at + 1]
  }

  /** The fields around the name in `d`, whose question ends at `n`: the identifier,
      recursion desired and nothing else, one question and no records; and the type
      asked for, of the Internet class. */
  predicate Framed(d: seq<Byte>, n: nat, id: nat, qtype: nat) {
    && 17 <= n <= |d|
    && Word(d, 0) == id && Word(d, 2) == 0x0100 && Word(d, 4) == 1
    && Word(d, 6) == 0 && Word(d, 8) == 0 && Word(d, 10) == 0
    && Word(d, n - 4) == qtype && Word(d, n - 2) == 1
  }

  /** What a server reads in the buffer: the fields, the host's labels between them, and
      zeros behind. */
  lemma EncodedFields(mem: seq<Byte>, host: seq<Byte>, qtype: nat, id: nat)
    requires qtype < 65536 && id < 65536 && |mem| >= QUERY_SIZE && |mem| >= Extent(host)
    requires Short(HostLabels(host))
    ensures var d, n := Encoded(mem, host, qtype, id), Extent(host);
            && Framed(d, n, id, qtype)
            && NameAt(d, 12, 0) == Some(HostLabels(host)) && EndAt(d, 12) == Some(n - 4)
            && forall k | n <= k < QUERY_SIZE :: d[k] == 0
  {
    RefusedIff(host, 0, 0);
    var after := OverZeros(mem, QueryBytes(host, qtype, id));
    QueryRoundTrip(id, HostLabels(host), qtype, after);
    QueryFields(id, HostLabels(host), qtype, after);
  }

  lemma OverZeros(mem: seq<Byte>, w: seq<Byte>) returns (after: seq<Byte>)
    requires |mem| >= QUERY_SIZE && |mem| >= |w|
    ensures var d := Overwrite(Overwrite(mem, 0, Zeros(QUERY_SIZE)), 0, w);
            d == w + after && forall k | |w| <= k < QUERY_SIZE :: d[k] == 0
  {
    after := Overwrite(mem, 0, Zeros(QUERY_SIZE))[|w|..];
  }

  lemma QueryFields(id: nat, ls: seq<Label>, qtype: nat, after: seq<Byte>)
    requires id < 65536 && qtype < 65536 && Short(ls)
    ensures Framed(Query(id, ls, qtype) + after, 12 + |Body(ls)| + 5, id, qtype)
  {
    var h, b, t := Head(id), Body(ls), Tail(qtype);
    var d, n := h + b + t + after, 12 + |b| + 5;
    assert forall k | 0 <= k < 12 :: d[k] == h[k];
    assert d[n - 4] == t[1] && d[n - 3] == t[2] && d[n - 2] == t[3] && d[n - 1] == t[4];
  }

  /** A host name comes back as it was if and only if it has no empty label. */
  lemma HostNameSurvives(id: nat, host: seq<Byte>, qtype: nat, after: seq<Byte>)
    requires id < 65536 && qtype < 65536 && Short(HostLabels(host))
    ensures NameAt(Query(id, HostLabels(host), qtype) + after, 12, 0).Some?
    ensures Dotted(NameAt(Query(id, HostLabels(host), qtype) + after, 12, 0).value) == host <==> Proper(host)
  {
    QueryRoundTrip(id, HostLabels(host), qtype, after);
    HostRoundTrip(host);
  }

  /** `a.` comes back as `a`. */
  lemma TrailingDotIsLost()
    ensures HostLabels([97, DOT]) == [[97]] && Dotted(HostLabels([97, DOT])) == [97]
  {
    var host: seq<Byte> := [97, DOT];
    assert host[0..1] == [97];
    assert LabelsFrom(host, 2, 2) == [];
    assert LabelsFrom(host, 0, 1) == [[97]] + [];
  }
}
