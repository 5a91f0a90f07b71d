/** Lexical canonicalization of an absolute path, clamped at a leading floor: the
    byte loop of the interposer and the component-stack resolver it computes. */
module PathCanon {

  const PATH_MAX: nat := 4096

  // ---------------------------------------------------------------------------
  // Components

  /** Length of the leading run without a slash. */
  function NameLen(s: string): (n: nat)
    ensures n <= |s|
    ensures forall k | 0 <= k < n :: s[k] != '/'
    ensures n < |s| ==> s[n] == '/'
  {
    if s == "" || s[0] == '/' then 0 else 1 + NameLen(s[1..])
  }

  /** The nonempty pieces between slashes. */
  function Comps(s: string): seq<string>
  {
    if s == "" then []
    else if s[0] == '/' then Comps(s[1..])
    else [s[..NameLen(s)]] + Comps(s[NameLen(s)..])
  }

  predicate IsName(c: string) { c != "" && '/' !in c }

  predicate Names(cs: seq<string>) { forall k | 0 <= k < |cs| :: IsName(cs[k]) }

  /** A resolved stack: only names, and neither "." nor "..". */
  predicate Clean(cs: seq<string>) {
    forall k | 0 <= k < |cs| :: IsName(cs[k]) && cs[k] != "." && cs[k] != ".."
  }

  /** One component against the stack; ".." at the floor stays there. */
  function Push(stack: seq<string>, c: string): seq<string> {
    if c == "." then stack
    else if c == ".." then (if stack == [] then [] else stack[..|stack| - 1])
    else stack + [c]
  }

  function Resolve(stack: seq<string>, cs: seq<string>): seq<string>
    decreases |cs|
  {
    if cs == [] then stack else Resolve(Push(stack, cs[0]), cs[1..])
  }

  /** Every component with its slash in front. */
  function Join(stack: seq<string>): string {
    if stack == [] then "" else Join(stack[..|stack| - 1]) + "/" + stack[|stack| - 1]
  }

  predicate EndsInSlash(s: string) { s != "" && s[|s| - 1] == '/' }

  /** The canonical form of `p` above its first `floor` bytes, which are kept; an
      absent floor counts as "/". */
  function Canon(p: string, floor: nat): string
    requires floor <= |p|
  {
    if p == "" || p[0] != '/' then p
    else
      var w := Base(p, floor) + Join(Resolve([], Comps(p[floor..])));
      if EndsInSlash(p[floor..]) && |w| > 1 then w + "/" else w
  }

  function Base(p: string, floor: nat): string
    requires floor <= |p|
  {
    if floor == 0 then "/" else p[..floor]
  }

  /** The floor ends where a component does. */
  predicate AtBoundary(p: string, floor: nat) {
    1 <= floor <= |p| && p[0] == '/' && (floor == |p| || p[floor] == '/')
  }

  // ---------------------------------------------------------------------------
  // The resolver's laws

  lemma JoinSnoc(stack: seq<string>, c: string)
    ensures Join(stack + [c]) == Join(stack) + "/" + c
  {
    assert (stack + [c])[..|stack|] == stack;
  }

  lemma {:induction false} CompsAreNames(s: string)
    ensures Names(Comps(s))
    decreases |s|
  {
    if s != "" {
      if s[0] == '/' { CompsAreNames(s[1..]); } else { CompsAreNames(s[NameLen(s)..]); }
    }
  }

  lemma {:induction false} ResolveIsClean(stack: seq<string>, cs: seq<string>)
    requires Clean(stack) && Names(cs)
    ensures Clean(Resolve(stack, cs))
    decreases |cs|
  {
    if cs != [] { ResolveIsClean(Push(stack, cs[0]), cs[1..]); }
  }

  /** A slash separates: the components of a joined path are those of its parts. */
  lemma {:induction false} CompsSplit(a: string, b: string)
    ensures Comps(a + "/" + b) == Comps(a) + Comps(b)
    decreases |a|
  {
    var s := a + "/" + b;
    if a == "" {
      assert s[1..] == b;
    } else if a[0] == '/' {
      assert s[1..] == a[1..] + "/" + b;
      CompsSplit(a[1..], b);
    } else {
      var c, t := a[..NameLen(a)], a[NameLen(a)..];
      CompsSplit(t, b);
      NameFirst(c, t);
      NameFirst(c, t + "/" + b);
      assert a == c + t && s == c + (t + "/" + b);
      assert [c] + (Comps(t) + Comps(b)) == [c] + Comps(t) + Comps(b);
    }
  }

  /** A name in front of a slash, or alone, is the first component. */
  lemma NameFirst(c: string, t: string)
    requires IsName(c) && (t == "" || t[0] == '/')
    ensures Comps(c + t) == [c] + Comps(t)
  {
    NameRun(c + t, |c|);
    assert (c + t)[..|c|] == c && (c + t)[|c|..] == t;
  }

  lemma NameIsOneComp(c: string)
    requires IsName(c)
    ensures Comps(c) == [c]
  {
    assert NameLen(c) == |c|;
    assert c[..|c|] == c && c[|c|..] == "";
  }

  lemma {:induction false} CompsOfJoin(stack: seq<string>)
    requires Clean(stack)
    ensures Comps(Join(stack)) == stack
    ensures Comps(Join(stack) + "/") == stack
  {
    if stack != [] {
      var front, c := stack[..|stack| - 1], stack[|stack| - 1];
      CompsOfJoin(front);
      NameIsOneComp(c);
      CompsSplit(Join(front), c);
    }
    CompsSplit(Join(stack), "");
    assert Join(stack) + "/" + "" == Join(stack) + "/";
  }

  lemma {:induction false} ResolveOfClean(stack: seq<string>, cs: seq<string>)
    requires Clean(cs)
    ensures Resolve(stack, cs) == stack + cs
    decreases |cs|
  {
    if cs != [] { ResolveOfClean(stack + [cs[0]], cs[1..]); }
  }

  lemma {:induction false} JoinShape(stack: seq<string>)
    requires Clean(stack)
    ensures Join(stack) != "" ==> Join(stack)[0] == '/' && !EndsInSlash(Join(stack))
    ensures Join(stack) == "" <==> stack == []
  {
    if stack != [] {
      JoinShape(stack[..|stack| - 1]);
      var c := stack[|stack| - 1];
      assert c[|c| - 1] in c;
    }
  }

  /** What Canon puts after the floor for a resolved stack. */
  function Rest(stack: seq<string>, floor: nat, trail: bool): string {
    if trail && (floor > 1 || stack != []) then Join(stack) + "/" else Join(stack)
  }

  lemma RestLaws(stack: seq<string>, floor: nat, trail: bool)
    requires Clean(stack)
    ensures var t := Rest(stack, floor, trail);
            && Comps(t) == stack && Resolve([], Comps(t)) == stack
            && (t == "" || t[0] == '/')
            && EndsInSlash(t) == (trail && (floor > 1 || stack != []))
  {
    CompsOfJoin(stack);
    ResolveOfClean([], stack);
    JoinShape(stack);
  }

  lemma CanonIsRest(p: string, floor: nat)
    requires AtBoundary(p, floor)
    ensures var stack := Resolve([], Comps(p[floor..]));
            Clean(stack) && Canon(p, floor) == p[..floor] + Rest(stack, floor, EndsInSlash(p[floor..]))
  {
    var stack := Resolve([], Comps(p[floor..]));
    CompsAreNames(p[floor..]);
    ResolveIsClean([], Comps(p[floor..]));
    JoinShape(stack);
  }

  /** The canonical path keeps its floor, ends it at a component boundary, and has
      only names after it, none of them "." or "..". */
  lemma CanonIsClean(p: string, floor: nat)
    requires AtBoundary(p, floor)
    ensures AtBoundary(Canon(p, floor), floor) && Canon(p, floor)[..floor] == p[..floor]
    ensures Clean(Comps(Canon(p, floor)[floor..]))
    ensures Comps(Canon(p, floor)[floor..]) == Resolve([], Comps(p[floor..]))
  {
    var stack, trail := Resolve([], Comps(p[floor..])), EndsInSlash(p[floor..]);
    CanonIsRest(p, floor);
    RestLaws(stack, floor, trail);
    assert Canon(p, floor)[floor..] == Rest(stack, floor, trail);
  }

  /** Canonicalizing twice is canonicalizing once. */
  lemma CanonIdempotent(p: string, floor: nat)
    requires AtBoundary(p, floor)
    ensures floor <= |Canon(p, floor)|
    ensures Canon(Canon(p, floor), floor) == Canon(p, floor)
  {
    var q, stack, trail := Canon(p, floor), Resolve([], Comps(p[floor..])), EndsInSlash(p[floor..]);
    CanonIsRest(p, floor);
    RestLaws(stack, floor, trail);
    assert q[floor..] == Rest(stack, floor, trail) && q[..floor] == p[..floor];
    CanonIsRest(q, floor);
  }

  lemma {:induction false} CompsLength(s: string)
    ensures s == "" || s[0] == '/' ==> |Join(Comps(s))| + (if EndsInSlash(s) then 1 else 0) <= |s|
    ensures |Join(Comps(s))| + (if EndsInSlash(s) then 1 else 0) <= |s| + 1
    decreases |s|
  {
    if s != "" {
      if s[0] == '/' {
        CompsLength(s[1..]);
        assert s[1..] == "" || EndsInSlash(s[1..]) == EndsInSlash(s);
      } else {
        var n := NameLen(s);
        var rest := s[n..];
        CompsLength(rest);
        JoinCons(s[..n], Comps(rest));
        assert rest == "" || EndsInSlash(rest) == EndsInSlash(s);
      }
    }
  }

  lemma {:induction false} JoinCons(c: string, cs: seq<string>)
    ensures Join([c] + cs) == "/" + c + Join(cs)
  {
    if cs == [] {
      assert [c] + cs == [] + [c];
      JoinSnoc([], c);
    } else {
      var front, last := cs[..|cs| - 1], cs[|cs| - 1];
      JoinCons(c, front);
      JoinSnoc([c] + front, last);
      JoinSnoc(front, last);
      assert [c] + cs == ([c] + front) + [last] && front + [last] == cs;
      var x, y := "/" + c, Join(front);
      assert x + y + "/" + last == x + (y + "/" + last);
    }
  }

  lemma {:induction false} ResolveShrinks(stack: seq<string>, cs: seq<string>)
    ensures |Join(Resolve(stack, cs))| <= |Join(stack)| + |Join(cs)|
    decreases |cs|
  {
    if cs != [] {
      var next := Push(stack, cs[0]);
      ResolveShrinks(next, cs[1..]);
      JoinCons(cs[0], cs[1..]);
      assert [cs[0]] + cs[1..] == cs;
      JoinSnoc(stack, cs[0]);
    }
  }

  /** Canonicalizing never lengthens a path. */
  lemma CanonNeverLengthens(p: string, floor: nat)
    requires AtBoundary(p, floor)
    ensures |Canon(p, floor)| <= |p|
  {
    var rest := p[floor..];
    CompsLength(rest);
    ResolveShrinks([], Comps(rest));
  }

  // ---------------------------------------------------------------------------
  // The byte loop

  /** The buffer holds the NUL-terminated string `s`. */
  ghost predicate IsCString(buf: seq<char>, s: string) {
    |s| < |buf| && buf[..|s|] == s && '\0' !in s && buf[|s|] == '\0'
  }

  lemma SlashSkipped(s: string, r: nat)
    requires r < |s| && s[r] == '/'
    ensures Comps(s[r..]) == Comps(s[r + 1..])
  {
    assert s[r..][1..] == s[r + 1..];
  }

  method SkipSlashes(p: array<char>, from: nat, ghost s: string) returns (r: nat)
    requires IsCString(p[..], s) && from <= |s|
    ensures from <= r <= |s| && Comps(s[r..]) == Comps(s[from..])
    ensures forall k | from <= k < r :: s[k] == '/'
    ensures r < |s| ==> s[r] != '/'
  {
    r := from;
    while p[r] == '/'
      invariant from <= r <= |s| && Comps(s[r..]) == Comps(s[from..])
      invariant forall k | from <= k < r :: s[k] == '/'
      decreases |s| - r
    {
      assert r < |s| && s[r] == p[r];
      SlashSkipped(s, r);
      r := r + 1;
    }
    assert r < |s| ==> s[r] == p[r];
  }

  method NameEnd(p: array<char>, r: nat, ghost s: string) returns (e: nat)
    requires IsCString(p[..], s) && r < |s| && s[r] != '/'
    ensures r < e <= |s| && IsName(s[r..e])
    ensures e < |s| ==> s[e] == '/'
    ensures Comps(s[r..]) == [s[r..e]] + Comps(s[e..])
  {
    e := r;
    while p[e] != '\0' && p[e] != '/'
      invariant r <= e <= |s|
      invariant forall k | r <= k < e :: s[k] != '/'
      decreases |s| - e
    {
      assert e < |s|;
      e := e + 1;
    }
    assert e < |s| ==> s[e] == p[e] && s[e] in s;
    assert e > r by { assert s[r] == p[r] && s[r] in s; }
    NameRun(s[r..], e - r);
    assert s[r..][..e - r] == s[r..e] && s[r..][e - r..] == s[e..];
  }

  lemma {:induction false} NameRun(s: string, n: nat)
    requires n <= |s| && (forall k | 0 <= k < n :: s[k] != '/') && (n < |s| ==> s[n] == '/')
    ensures NameLen(s) == n
    decreases |s|
  {
    if n > 0 { NameRun(s[1..], n - 1); }
  }

  /** Walks back over the last component and its slash, never below the floor. */
  method DropName(sc: array<char>, w: nat, fl: nat, ghost base: string, ghost stack: seq<string>) returns (v: nat)
    requires w <= sc.Length && |base| == fl && Clean(stack)
    requires sc[..w] == base + Join(stack)
    ensures v <= w && sc[..v] == base + Join(Push(stack, ".."))
  {
    v := w;
    if v > fl {
      JoinShape(stack);
      ghost var front, c := stack[..|stack| - 1], stack[|stack| - 1];
      ghost var m := fl + |Join(front)|;
      assert sc[..w] == base + Join(front) + "/" + c;
      assert sc[m] == '/' by { assert sc[..w][m] == '/'; }
      forall k | m < k < w ensures sc[k] != '/' {
        assert sc[k] == sc[..w][k] == c[k - m - 1];
        assert c[k - m - 1] in c;
      }
      while v > fl && sc[v - 1] != '/'
        invariant m < v <= w
      {
        v := v - 1;
      }
      assert v == m + 1;
      v := v - 1;
      assert sc[..m] == sc[..w][..m] == base + Join(front);
    }
  }

  method AppendName(sc: array<char>, w: nat, p: array<char>, r: nat, e: nat, ghost base: string,
                    ghost stack: seq<string>)
    returns (v: nat)
    requires sc != p && r <= e <= p.Length && w + 1 + (e - r) <= sc.Length
    requires sc[..w] == base + Join(stack)
    modifies sc
    ensures v == w + 1 + (e - r) && sc[..v] == base + Join(stack + [p[r..e]])
  {
    sc[w] := '/';
    forall k | 0 <= k < e - r { sc[w + 1 + k] := p[r + k]; }
    v := w + 1 + (e - r);
    JoinSnoc(stack, p[r..e]);
    assert sc[..v] == old(sc[..w]) + "/" + p[r..e];
  }

  /** Handles the component `c` in `p[b..e]`: drops it, pops the last one, or
      appends it. */
  method OneName(sc: array<char>, w: nat, fl: nat, p: array<char>, b: nat, e: nat, ghost c: string,
                 ghost base: string, ghost stack: seq<string>)
    returns (v: nat)
    requires sc != p && b < e <= p.Length && p[b..e] == c
    requires w + 1 + (e - b) <= sc.Length && |base| == fl && Clean(stack) && sc[..w] == base + Join(stack)
    modifies sc
    ensures fl <= v <= w + 1 + (e - b)
    ensures sc[..v] == base + Join(Push(stack, c))
  {
    if e - b == 1 && p[b] == '.' {
      assert c == ".";
      v := w;
    } else if e - b == 2 && p[b] == '.' && p[b + 1] == '.' {
      assert c == "..";
      v := DropName(sc, w, fl, base, stack);
    } else {
      assert c != "." && c != ".." by { assert c[0] == p[b] && (|c| == 2 ==> c[1] == p[b + 1]); }
      v := AppendName(sc, w, p, b, e, base, stack);
    }
  }

  /** Where the rewriting loop is: what comes before `r` has been resolved to
      `stack`, and the whole will resolve to `all`. */
  ghost predicate At(s: string, floor: nat, r: nat, trail: bool, stack: seq<string>, all: seq<string>) {
    && floor <= r <= |s| && (r == |s| || s[r] == '/')
    && Clean(stack) && Resolve(stack, Comps(s[r..])) == all
    && if trail then r == |s| && EndsInSlash(s[floor..]) else r == floor || s[r - 1] != '/'
  }

  lemma ResolveCons(stack: seq<string>, c: string, cs: seq<string>)
    requires Clean(stack) && IsName(c)
    ensures Resolve(stack, [c] + cs) == Resolve(Push(stack, c), cs) && Clean(Push(stack, c))
  {
    assert ([c] + cs)[1..] == cs;
  }

  lemma AfterName(s: string, floor: nat, r: nat, b: nat, e: nat, stack: seq<string>, all: seq<string>)
    requires At(s, floor, r, false, stack, all) && r <= b < e <= |s|
    requires Comps(s[r..]) == [s[b..e]] + Comps(s[e..])
    requires IsName(s[b..e]) && (e < |s| ==> s[e] == '/')
    ensures At(s, floor, e, false, Push(stack, s[b..e]), all)
  {
    var c := s[b..e];
    assert s[e - 1] == c[|c| - 1] && c[|c| - 1] in c;
    ResolveCons(stack, c, Comps(s[e..]));
  }

  /** In a NUL-terminated buffer only the end reads as NUL. */
  lemma NulIsEnd(buf: seq<char>, s: string, r: nat)
    requires IsCString(buf, s) && r <= |s|
    ensures buf[r] == '\0' <==> r == |s|
    ensures r < |s| ==> buf[r] == s[r]
  {
    if r < |s| { assert buf[r] == s[r] && s[r] in s; }
  }

  /** One turn of the rewriting loop that meets a name at `b`. */
  method NextName(sc: array<char>, w: nat, fl: nat, p: array<char>, r: nat, b: nat, ghost s: string, ghost floor: nat,
                  ghost base: string, ghost stack: seq<string>, ghost all: seq<string>)
    returns (e: nat, v: nat)
    requires sc != p && IsCString(p[..], s) && |base| == fl && floor <= fl
    requires At(s, floor, r, false, stack, all) && r < b < |s| && s[b] != '/' && Comps(s[b..]) == Comps(s[r..])
    requires fl <= w <= r + fl - floor && |s| + fl - floor < sc.Length && sc[..w] == base + Join(stack)
    modifies sc
    ensures b < e <= |s| && At(s, floor, e, false, Push(stack, s[b..e]), all)
    ensures fl <= v <= e + fl - floor && sc[..v] == base + Join(Push(stack, s[b..e]))
  {
    e := NameEnd(p, b, s);
    assert p[b..e] == p[..|s|][b..e] == s[b..e];
    v := OneName(sc, w, fl, p, b, e, s[b..e], base, stack);
    AfterName(s, floor, r, b, e, stack, all);
  }

  /** The rewriting loop: from the floor on, every component of `s` against what
      has been written so far. */
  method WriteNames(sc: array<char>, fl: nat, p: array<char>, floor: nat, ghost s: string, ghost base: string)
    returns (w: nat, trail: bool)
    requires sc != p && IsCString(p[..], s) && floor <= |s| && (floor < |s| ==> s[floor] == '/')
    requires floor <= fl == |base| <= floor + 1 && |s| + fl - floor < sc.Length && sc[..fl] == base
    modifies sc
    ensures fl <= w && w + (if trail then 1 else 0) <= |s| + fl - floor
    ensures sc[..w] == base + Join(Resolve([], Comps(s[floor..])))
    ensures trail == EndsInSlash(s[floor..])
  {
    ghost var stack, all := [], Resolve([], Comps(s[floor..]));
    var r := floor;
    w, trail := fl, false;
    NulIsEnd(p[..], s, r);
    while !trail && p[r] != '\0'
      invariant At(s, floor, r, trail, stack, all)
      invariant p[r] == '\0' <==> r == |s|
      invariant fl <= w && w + (if trail then 1 else 0) <= r + fl - floor && sc[..w] == base + Join(stack)
      decreases |s| - r, !trail
    {
      var b := SkipSlashes(p, r, s);
      NulIsEnd(p[..], s, b);
      if p[b] == '\0' {
        r, trail := b, true;
      } else {
        r, w := NextName(sc, w, fl, p, r, b, s, floor, base, stack, all);
        NulIsEnd(p[..], s, r);
        stack := Push(stack, s[b..r]);
      }
    }
    assert Comps(s[|s|..]) == [];
  }

  /** The interposer's in-place rewrite computes the clamped resolver. */
  method DotdotCanon(p: array<char>, floor: nat, ghost s: string)
    requires p.Length == PATH_MAX && IsCString(p[..], s) && floor <= |s|
    requires s == "" || s[0] != '/' || AtBoundary(s, floor) || (floor == 0 && |s| + 1 < PATH_MAX)
    modifies p
    ensures IsCString(p[..], Canon(s, floor))
  {
    if p[0] != '/' { return; }
    assert s != "" && s[0] == '/';
    var sc := new char[PATH_MAX];
    forall k | 0 <= k < floor { sc[k] := p[k]; }
    var fl := floor;
    if fl == 0 { sc[0] := '/'; fl := 1; }
    assert sc[..fl] == Base(s, floor);
    var w, trail := WriteNames(sc, fl, p, floor, s, Base(s, floor));
    NoNul(s, floor);
    CopyBack(p, sc, w, trail, Canon(s, floor));
  }

  method CopyBack(p: array<char>, sc: array<char>, len: nat, trail: bool, ghost t: string)
    requires sc != p && sc.Length == p.Length && len + (if trail then 1 else 0) < sc.Length
    requires t == if trail && len > 1 then sc[..len] + "/" else sc[..len]
    requires '\0' !in t
    modifies p, sc
    ensures IsCString(p[..], t)
  {
    var w := len;
    if trail && w > 1 { sc[w] := '/'; w := w + 1; }
    sc[w] := '\0';
    assert sc[..w] == t;
    forall k | 0 <= k <= w { p[k] := sc[k]; }
    assert p[..w] == sc[..w];
  }

  /** A canonical path brings in no byte but slashes. */
  lemma NoNul(p: string, floor: nat)
    requires floor <= |p| && '\0' !in p
    ensures '\0' !in Canon(p, floor)
  {
    CompsFrom(p[floor..]);
    ResolveFrom([], Comps(p[floor..]));
    JoinFrom(Resolve([], Comps(p[floor..])));
  }

  predicate NulFree(cs: seq<string>) { forall k | 0 <= k < |cs| :: '\0' !in cs[k] }

  lemma {:induction false} CompsFrom(s: string)
    requires '\0' !in s
    ensures NulFree(Comps(s))
    decreases |s|
  {
    if s != "" {
      if s[0] == '/' { CompsFrom(s[1..]); } else { CompsFrom(s[NameLen(s)..]); }
    }
  }

  lemma {:induction false} ResolveFrom(stack: seq<string>, cs: seq<string>)
    requires NulFree(stack) && NulFree(cs)
    ensures NulFree(Resolve(stack, cs))
    decreases |cs|
  {
    if cs != [] { ResolveFrom(Push(stack, cs[0]), cs[1..]); }
  }

  lemma {:induction false} JoinFrom(cs: seq<string>)
    requires NulFree(cs)
    ensures '\0' !in Join(cs)
  {
    if cs != [] { JoinFrom(cs[..|cs| - 1]); }
  }
}
