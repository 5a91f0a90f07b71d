/** The launcher's walk of a guest path through symbolic links that are resolved
    against the rootfs.  The file system is a function from the names below the
    rootfs to what lstat and readlink report there. */
module GuestReal {

  type Name = string

  const MAX_HOPS: nat := 16

  datatype Comp = Normal(name: Name) | Cur | Parent

  datatype Path = Path(absolute: bool, comps: seq<Comp>)

  datatype Node = Missing | Plain | Link(target: Path) | Unreadable

  type Fs = seq<Name> -> Node

  /** The result of a walk: where it ends and how many links it took, or why there
      is none. */
  datatype Outcome = Real(stack: seq<Name>, hops: nat) | NotFound | BadLink | TooManyLinks

  // ---------------------------------------------------------------------------
  // Path components

  predicate NameOk(n: Name) { n != "" && n != "." && n != ".." && '/' !in n }

  ghost predicate PathOk(p: Path) { forall k | 0 <= k < |p.comps| && p.comps[k].Normal? :: NameOk(p.comps[k].name) }

  ghost predicate FsOk(fs: Fs) { forall s :: fs(s).Link? ==> PathOk(fs(s).target) }

  ghost predicate NamesOk(ns: seq<Name>) { forall k | 0 <= k < |ns| :: NameOk(ns[k]) }

  /** The normal components: the root, `.` and `..` are dropped. */
  function Normals(cs: seq<Comp>): seq<Name> {
    if cs == [] then []
    else if cs[0].Normal? then [cs[0].name] + Normals(cs[1..])
    else Normals(cs[1..])
  }

  /** The components of a list of names. */
  function Names(ns: seq<Name>): seq<Comp> { seq(|ns|, i requires 0 <= i < |ns| => Normal(ns[i])) }

  lemma {:induction false} NormalsAreOk(p: Path)
    requires PathOk(p)
    ensures NamesOk(Normals(p.comps))
    decreases |p.comps|
  {
    if p.comps != [] {
      assert PathOk(p.(comps := p.comps[1..]));
      NormalsAreOk(p.(comps := p.comps[1..]));
    }
  }

  /** A host-absolute target inside the rootfs is spelled as the guest sees it. */
  function Localize(root: Path, t: Path): Path {
    if t.absolute && root.absolute && root.comps <= t.comps then Path(true, t.comps[|root.comps|..]) else t
  }

  lemma LocalizeKeepsOk(root: Path, t: Path)
    requires PathOk(t)
    ensures PathOk(Localize(root, t))
  {
    var u := Localize(root, t);
    if u != t {
      forall k | 0 <= k < |u.comps| && u.comps[k].Normal? ensures NameOk(u.comps[k].name) {
        assert u.comps[k] == t.comps[|root.comps| + k];
      }
    }
  }

  // ---------------------------------------------------------------------------
  // The walk

  function Pop(s: seq<Name>): seq<Name> { if s == [] then [] else s[..|s| - 1] }

  /** Where the walk goes on after the link `t` at `stack`. */
  function Base(stack: seq<Name>, t: Path): seq<Name> {
    if t.absolute then [] else Pop(stack)
  }

  /** Walks the pending names from `stack`, with `hops` links taken so far and at
      most `limit` allowed. */
  function Walk(fs: Fs, root: Path, limit: nat, stack: seq<Name>, pending: seq<Name>, hops: nat): Outcome
    requires hops <= limit
    decreases limit - hops, |pending|
  {
    if pending == [] then Real(stack, hops)
    else if pending[0] == "." then Walk(fs, root, limit, stack, pending[1..], hops)
    else if pending[0] == ".." then Walk(fs, root, limit, Pop(stack), pending[1..], hops)
    else
      var here := stack + [pending[0]];
      match fs(here)
      case Missing => NotFound
      case Plain => Walk(fs, root, limit, here, pending[1..], hops)
      case Unreadable => if hops == limit then TooManyLinks else BadLink
      case Link(target) =>
        if hops == limit then TooManyLinks
        else
          var t := Localize(root, target);
          Walk(fs, root, limit, Base(here, t), Normals(t.comps) + pending[1..], hops + 1)
  }

  function Resolve(fs: Fs, root: Path, guest: Path): Outcome {
    Walk(fs, root, MAX_HOPS, [], Normals(guest.comps), 0)
  }

  // ---------------------------------------------------------------------------
  // What a result is

  /** Everything on the way is there and none of it is a link. */
  ghost predicate Clear(fs: Fs, s: seq<Name>) {
    forall n | 0 < n <= |s| :: fs(s[..n]) == Plain
  }

  lemma ClearPush(fs: Fs, s: seq<Name>, name: Name)
    requires Clear(fs, s) && fs(s + [name]) == Plain
    ensures Clear(fs, s + [name])
  {
    forall n | 0 < n <= |s| + 1 ensures fs((s + [name])[..n]) == Plain {
      if n <= |s| { assert (s + [name])[..n] == s[..n]; } else { assert (s + [name])[..n] == s + [name]; }
    }
  }

  lemma LinkStep(fs: Fs, root: Path, stack: seq<Name>, pending: seq<Name>)
    requires FsOk(fs) && NamesOk(stack) && NamesOk(pending) && pending != [] && Clear(fs, stack)
    requires fs(stack + [pending[0]]).Link?
    ensures var here, t := stack + [pending[0]], Localize(root, fs(stack + [pending[0]]).target);
            NamesOk(Base(here, t)) && Clear(fs, Base(here, t)) && NamesOk(Normals(t.comps) + pending[1..])
  {
    var here := stack + [pending[0]];
    var t := Localize(root, fs(here).target);
    LocalizeKeepsOk(root, fs(here).target);
    NormalsAreOk(t);
    assert Pop(here) == stack;
  }

  /** No prefix of a result is a link, and the hop budget is kept. */
  lemma {:induction false} WalkEndsClear(fs: Fs, root: Path, limit: nat, stack: seq<Name>,
                                         pending: seq<Name>, hops: nat)
    requires FsOk(fs) && NamesOk(stack) && NamesOk(pending) && Clear(fs, stack) && hops <= limit
    ensures var r := Walk(fs, root, limit, stack, pending, hops);
            r.Real? ==> Clear(fs, r.stack) && NamesOk(r.stack) && hops <= r.hops <= limit
    decreases limit - hops, |pending|
  {
    if pending != [] {
      var here := stack + [pending[0]];
      match fs(here)
      case Missing =>
      case Unreadable =>
      case Plain =>
        ClearPush(fs, stack, pending[0]);
        WalkEndsClear(fs, root, limit, here, pending[1..], hops);
      case Link(target) =>
        if hops < limit {
          LinkStep(fs, root, stack, pending);
          var t := Localize(root, target);
          WalkEndsClear(fs, root, limit, Base(here, t), Normals(t.comps) + pending[1..], hops + 1);
        }
    }
  }

  /** A walk takes no link exactly when there is none on its way. */
  lemma {:induction false} ClearWalksStraight(fs: Fs, root: Path, limit: nat, stack: seq<Name>,
                                              pending: seq<Name>, hops: nat)
    requires NamesOk(pending) && hops <= limit && Clear(fs, stack + pending)
    ensures Walk(fs, root, limit, stack, pending, hops) == Real(stack + pending, hops)
    decreases |pending|
  {
    if pending == [] {
      assert stack + pending == stack;
    } else {
      var here := stack + [pending[0]];
      assert stack + pending == here + pending[1..];
      assert (stack + pending)[..|here|] == here;
      ClearWalksStraight(fs, root, limit, here, pending[1..], hops);
    }
  }

  /** Resolving a result again returns it unchanged, without taking a link. */
  lemma ResolveIsFixed(fs: Fs, root: Path, guest: Path)
    requires FsOk(fs) && PathOk(guest)
    ensures var r := Resolve(fs, root, guest);
            r.Real? ==>
              && Clear(fs, r.stack) && r.hops <= MAX_HOPS
              && Resolve(fs, root, Path(true, Names(r.stack)))
                 == Real(r.stack, 0)
  {
    NormalsAreOk(guest);
    WalkEndsClear(fs, root, MAX_HOPS, [], Normals(guest.comps), 0);
    var r := Resolve(fs, root, guest);
    if r.Real? {
      NormalsOfNames(r.stack);
      assert [] + r.stack == r.stack;
      ClearWalksStraight(fs, root, MAX_HOPS, [], r.stack, 0);
    }
  }

  lemma {:induction false} NormalsOfNames(ns: seq<Name>)
    ensures Normals(Names(ns)) == ns
  {
    if ns != [] {
      assert Names(ns)[1..] == Names(ns[1..]);
      NormalsOfNames(ns[1..]);
    }
  }

  // ---------------------------------------------------------------------------
  // Composition and the hop limit

  /** A path is walked piece by piece: the rest goes on from where the front
      ended. */
  lemma {:induction false} WalkComposes(fs: Fs, root: Path, limit: nat, stack: seq<Name>, a: seq<Name>,
                                        b: seq<Name>, hops: nat)
    requires hops <= limit
    ensures Walk(fs, root, limit, stack, a + b, hops)
         == GoOn(fs, root, limit, Walk(fs, root, limit, stack, a, hops), b)
    decreases limit - hops, |a|
  {
    if a == [] {
      assert a + b == b;
    } else {
      var first, rest, here := a[0], a[1..], stack + [a[0]];
      var whole := a + b;
      assert whole[0] == first && whole[1..] == rest + b;
      if first == "." {
        WalkComposes(fs, root, limit, stack, rest, b, hops);
      } else if first == ".." {
        WalkComposes(fs, root, limit, Pop(stack), rest, b, hops);
      } else if fs(here).Plain? {
        WalkComposes(fs, root, limit, here, rest, b, hops);
      } else if fs(here).Link? && hops < limit {
        var t := Localize(root, fs(here).target);
        var names := Normals(t.comps);
        Regroup(names, rest, b);
        WalkComposes(fs, root, limit, Base(here, t), names + rest, b, hops + 1);
      }
    }
  }

  lemma Regroup(a: seq<Name>, b: seq<Name>, c: seq<Name>)
    ensures a + (b + c) == a + b + c
  {
  }

  /** Walks on from a result that has hops left. */
  function GoOn(fs: Fs, root: Path, limit: nat, r: Outcome, b: seq<Name>): Outcome {
    if r.Real? && r.hops <= limit then Walk(fs, root, limit, r.stack, b, r.hops) else r
  }

  /** The hop limit only decides whether there is an answer, never which: with
      more hops allowed, a walk that ended otherwise ends the same way. */
  lemma {:induction false} LimitOnlyRefuses(fs: Fs, root: Path, limit: nat, more: nat, stack: seq<Name>,
                                            pending: seq<Name>, hops: nat)
    requires hops <= limit <= more
    ensures var r := Walk(fs, root, limit, stack, pending, hops);
            !r.TooManyLinks? ==> Walk(fs, root, more, stack, pending, hops) == r
    decreases limit - hops, |pending|
  {
    if pending != [] {
      var here := stack + [pending[0]];
      if pending[0] == "." {
        LimitOnlyRefuses(fs, root, limit, more, stack, pending[1..], hops);
      } else if pending[0] == ".." {
        LimitOnlyRefuses(fs, root, limit, more, Pop(stack), pending[1..], hops);
      } else if fs(here).Plain? {
        LimitOnlyRefuses(fs, root, limit, more, here, pending[1..], hops);
      } else if fs(here).Link? && hops < limit {
        var t := Localize(root, fs(here).target);
        LimitOnlyRefuses(fs, root, limit, more, Base(here, t), Normals(t.comps) + pending[1..], hops + 1);
      }
    }
  }

  // ---------------------------------------------------------------------------
  // Parent components

  /** The walk as documented: `..` is kept, in the path and in link targets, and pops
      the stack when it is met. */
  function PopWalk(fs: Fs, root: Path, limit: nat, stack: seq<Name>, pending: seq<Comp>, hops: nat): Outcome
    requires hops <= limit
    decreases limit - hops, |pending|
  {
    if pending == [] then Real(stack, hops)
    else
      match pending[0]
      case Cur => PopWalk(fs, root, limit, stack, pending[1..], hops)
      case Parent => PopWalk(fs, root, limit, Pop(stack), pending[1..], hops)
      case Normal(n) =>
        var here := stack + [n];
        match fs(here)
        case Missing => NotFound
        case Plain => PopWalk(fs, root, limit, here, pending[1..], hops)
        case Unreadable => if hops == limit then TooManyLinks else BadLink
        case Link(target) =>
          if hops == limit then TooManyLinks
          else
            var t := Localize(root, target);
            PopWalk(fs, root, limit, Base(here, t), t.comps + pending[1..], hops + 1)
  }

  function Documented(fs: Fs, root: Path, guest: Path): Outcome {
    PopWalk(fs, root, MAX_HOPS, [], guest.comps, 0)
  }

  ghost predicate Agree(fs: Fs, root: Path, guest: Path) {
    Resolve(fs, root, guest) == Documented(fs, root, guest)
  }

  /** The stack that components leave where no link is taken. */
  function Popped(stack: seq<Name>, cs: seq<Comp>): seq<Name>
    decreases |cs|
  {
    if cs == [] then stack
    else
      match cs[0]
      case Normal(n) => Popped(stack + [n], cs[1..])
      case Cur => Popped(stack, cs[1..])
      case Parent => Popped(Pop(stack), cs[1..])
  }

  /** No parent component has a name to take back. */
  ghost predicate NoParentAfterName(cs: seq<Comp>) {
    forall i, j | 0 <= i < j < |cs| && cs[i].Normal? :: !cs[j].Parent?
  }

  ghost predicate NoParent(cs: seq<Comp>) { forall j | 0 <= j < |cs| :: !cs[j].Parent? }

  /** The same, with a name in front of `cs` or not. */
  predicate Tame(named: bool, cs: seq<Comp>)
    decreases |cs|
  {
    cs == [] || (!(named && cs[0].Parent?) && Tame(named || cs[0].Normal?, cs[1..]))
  }

  lemma {:induction false} TameMeans(named: bool, cs: seq<Comp>)
    ensures Tame(named, cs) <==> NoParentAfterName(cs) && (named ==> NoParent(cs))
    decreases |cs|
  {
    if cs != [] {
      var rest := cs[1..];
      TameMeans(named || cs[0].Normal?, rest);
      assert forall j | 0 < j < |cs| :: cs[j] == rest[j - 1];
      assert forall j | 0 <= j < |rest| :: rest[j] == cs[j + 1];
    }
  }

  lemma {:induction false} TameConcat(named: bool, a: seq<Comp>, b: seq<Comp>)
    requires Tame(named, a) && Tame(true, b)
    ensures Tame(named, a + b)
    decreases |a|
  {
    if a == [] {
      assert a + b == b;
      TameMeans(true, b);
      TameMeans(named, b);
    } else {
      assert (a + b)[1..] == a[1..] + b;
      TameConcat(named || a[0].Normal?, a[1..], b);
    }
  }

  lemma {:induction false} NormalsConcat(a: seq<Comp>, b: seq<Comp>)
    ensures Normals(a + b) == Normals(a) + Normals(b)
    decreases |a|
  {
    if a == [] {
      assert a + b == b;
    } else {
      assert (a + b)[1..] == a[1..] + b;
      NormalsConcat(a[1..], b);
    }
  }

  lemma {:induction false} PoppedIff(stack: seq<Name>, cs: seq<Comp>)
    ensures |Popped(stack, cs)| <= |stack| + |Normals(cs)|
    ensures Popped(stack, cs) == stack + Normals(cs) <==> Tame(stack != [], cs)
    ensures !Tame(stack != [], cs) ==> |Popped(stack, cs)| < |stack| + |Normals(cs)|
    decreases |cs|
  {
    if cs == [] {
      assert stack + [] == stack;
    } else {
      match cs[0]
      case Normal(n) =>
        PoppedIff(stack + [n], cs[1..]);
        assert stack + [n] + Normals(cs[1..]) == stack + ([n] + Normals(cs[1..]));
      case Cur => PoppedIff(stack, cs[1..]);
      case Parent => PoppedIff(Pop(stack), cs[1..]);
    }
  }

  // Where the two agree

  /** A link at `s` whose target, as the guest sees it, has no `..` behind a name and,
      when it is walked from below the top, none at all. */
  ghost predicate LinkTame(root: Path, s: seq<Name>, target: Path) {
    var t := Localize(root, target);
    NoParentAfterName(t.comps) && (Base(s, t) != [] ==> NoParent(t.comps))
  }

  ghost predicate TameLinks(fs: Fs, root: Path) {
    forall s | s != [] && fs(s).Link? :: LinkTame(root, s, fs(s).target)
  }

  ghost predicate CompsOk(cs: seq<Comp>) { PathOk(Path(true, cs)) }

  lemma CompsOkParts(a: seq<Comp>, b: seq<Comp>)
    ensures CompsOk(a + b) <==> CompsOk(a) && CompsOk(b)
    ensures a != [] && CompsOk(a) ==> CompsOk(a[1..])
  {
    var c := a + b;
    assert forall k | 0 <= k < |a| :: c[k] == a[k];
    assert forall k | 0 <= k < |b| :: c[|a| + k] == b[k];
  }

  /** What is pending after a link is as tame as what was before. */
  lemma TameLinkStep(fs: Fs, root: Path, here: seq<Name>, rest: seq<Comp>)
    requires FsOk(fs) && TameLinks(fs, root) && here != [] && fs(here).Link? && CompsOk(rest) && Tame(true, rest)
    ensures var t := Localize(root, fs(here).target);
            && CompsOk(t.comps + rest) && Tame(Base(here, t) != [], t.comps + rest)
            && Normals(t.comps + rest) == Normals(t.comps) + Normals(rest)
  {
    var t := Localize(root, fs(here).target);
    LocalizeKeepsOk(root, fs(here).target);
    CompsOkParts(t.comps, rest);
    assert LinkTame(root, here, fs(here).target);
    TameMeans(Base(here, t) != [], t.comps);
    TameConcat(Base(here, t) != [], t.comps, rest);
    NormalsConcat(t.comps, rest);
  }

  lemma {:induction false} TameWalksAgree(fs: Fs, root: Path, limit: nat, stack: seq<Name>, pending: seq<Comp>,
                                          hops: nat)
    requires hops <= limit && FsOk(fs) && TameLinks(fs, root) && CompsOk(pending) && Tame(stack != [], pending)
    ensures Walk(fs, root, limit, stack, Normals(pending), hops) == PopWalk(fs, root, limit, stack, pending, hops)
    decreases limit - hops, |pending|
  {
    if pending != [] {
      var rest := pending[1..];
      CompsOkParts(pending, []);
      match pending[0]
      case Cur => TameWalksAgree(fs, root, limit, stack, rest, hops);
      case Parent => TameWalksAgree(fs, root, limit, Pop(stack), rest, hops);
      case Normal(n) =>
        var here := stack + [n];
        assert NameOk(n) && Normals(pending)[1..] == Normals(rest);
        if fs(here).Plain? {
          TameWalksAgree(fs, root, limit, here, rest, hops);
        } else if fs(here).Link? && hops < limit {
          var t := Localize(root, fs(here).target);
          TameLinkStep(fs, root, here, rest);
          TameWalksAgree(fs, root, limit, Base(here, t), t.comps + rest, hops + 1);
        }
    }
  }

  /** Where no `..` stands behind a name, in the path or in a link's target, and none in
      a relative link below the top, the code does what is documented. */
  lemma AgreesWithoutParents(fs: Fs, root: Path, guest: Path)
    requires FsOk(fs) && TameLinks(fs, root) && PathOk(guest) && NoParentAfterName(guest.comps)
    ensures Agree(fs, root, guest)
  {
    assert CompsOk(guest.comps);
    TameMeans(false, guest.comps);
    TameWalksAgree(fs, root, MAX_HOPS, [], guest.comps, 0);
  }

  // Walks that take no link

  lemma {:induction false} HopsGrow(fs: Fs, root: Path, limit: nat, stack: seq<Name>, names: seq<Name>, hops: nat)
    requires hops <= limit
    ensures var r := Walk(fs, root, limit, stack, names, hops); r.Real? ==> r.hops >= hops
    decreases limit - hops, |names|
  {
    if names != [] {
      var rest, here := names[1..], stack + [names[0]];
      if names[0] == "." {
        HopsGrow(fs, root, limit, stack, rest, hops);
      } else if names[0] == ".." {
        HopsGrow(fs, root, limit, Pop(stack), rest, hops);
      } else if fs(here).Plain? {
        HopsGrow(fs, root, limit, here, rest, hops);
      } else if fs(here).Link? && hops < limit {
        var t := Localize(root, fs(here).target);
        HopsGrow(fs, root, limit, Base(here, t), Normals(t.comps) + rest, hops + 1);
      }
    }
  }

  lemma {:induction false} PopHopsGrow(fs: Fs, root: Path, limit: nat, stack: seq<Name>, pending: seq<Comp>, hops: nat)
    requires hops <= limit
    ensures var r := PopWalk(fs, root, limit, stack, pending, hops); r.Real? ==> r.hops >= hops
    decreases limit - hops, |pending|
  {
    if pending != [] {
      var rest := pending[1..];
      match pending[0]
      case Cur => PopHopsGrow(fs, root, limit, stack, rest, hops);
      case Parent => PopHopsGrow(fs, root, limit, Pop(stack), rest, hops);
      case Normal(n) =>
        var here := stack + [n];
        if fs(here).Plain? {
          PopHopsGrow(fs, root, limit, here, rest, hops);
        } else if fs(here).Link? && hops < limit {
          var t := Localize(root, fs(here).target);
          PopHopsGrow(fs, root, limit, Base(here, t), t.comps + rest, hops + 1);
        }
    }
  }

  /** The code's walk leaves the names it was given. */
  lemma {:induction false} StraightNames(fs: Fs, root: Path, limit: nat, stack: seq<Name>, names: seq<Name>, hops: nat)
    requires hops <= limit && NamesOk(names)
    ensures var r := Walk(fs, root, limit, stack, names, hops);
            r.Real? && r.hops == hops ==> r.stack == stack + names
    decreases |names|
  {
    if names == [] {
      assert stack + names == stack;
    } else {
      var rest, here := names[1..], stack + [names[0]];
      if fs(here).Plain? {
        StraightNames(fs, root, limit, here, rest, hops);
        assert here + rest == stack + names;
      } else if fs(here).Link? && hops < limit {
        var t := Localize(root, fs(here).target);
        HopsGrow(fs, root, limit, Base(here, t), Normals(t.comps) + rest, hops + 1);
      }
    }
  }

  /** The documented walk leaves them popped. */
  lemma {:induction false} StraightPops(fs: Fs, root: Path, limit: nat, stack: seq<Name>, pending: seq<Comp>, hops: nat)
    requires hops <= limit
    ensures var r := PopWalk(fs, root, limit, stack, pending, hops);
            r.Real? && r.hops == hops ==> r.stack == Popped(stack, pending)
    decreases |pending|
  {
    if pending != [] {
      var rest := pending[1..];
      match pending[0]
      case Cur => StraightPops(fs, root, limit, stack, rest, hops);
      case Parent => StraightPops(fs, root, limit, Pop(stack), rest, hops);
      case Normal(n) =>
        var here := stack + [n];
        if fs(here).Plain? {
          StraightPops(fs, root, limit, here, rest, hops);
        } else if fs(here).Link? && hops < limit {
          var t := Localize(root, fs(here).target);
          PopHopsGrow(fs, root, limit, Base(here, t), t.comps + rest, hops + 1);
        }
    }
  }

  /** The two walks of `cs` from `stack`, when neither takes a link. */
  lemma StraightIff(fs: Fs, root: Path, stack: seq<Name>, cs: seq<Comp>, hops: nat)
    requires hops <= MAX_HOPS && CompsOk(cs)
    requires var r := Walk(fs, root, MAX_HOPS, stack, Normals(cs), hops); r.Real? && r.hops == hops
    requires var d := PopWalk(fs, root, MAX_HOPS, stack, cs, hops); d.Real? && d.hops == hops
    ensures Walk(fs, root, MAX_HOPS, stack, Normals(cs), hops) == PopWalk(fs, root, MAX_HOPS, stack, cs, hops)
       <==> Tame(stack != [], cs)
  {
    NormalsAreOk(Path(true, cs));
    StraightNames(fs, root, MAX_HOPS, stack, Normals(cs), hops);
    StraightPops(fs, root, MAX_HOPS, stack, cs, hops);
    PoppedIff(stack, cs);
  }

  // Paths

  /** Nothing is a link; names may be missing. */
  ghost predicate LinkFree(fs: Fs) { forall s :: fs(s).Plain? || fs(s).Missing? }

  lemma {:induction false} NoLinkToTake(fs: Fs, root: Path, stack: seq<Name>, names: seq<Name>)
    requires LinkFree(fs)
    ensures var r := Walk(fs, root, MAX_HOPS, stack, names, 0); r.Real? ==> r.hops == 0
    decreases |names|
  {
    if names != [] {
      var next := if names[0] == "." then stack else if names[0] == ".." then Pop(stack) else stack + [names[0]];
      NoLinkToTake(fs, root, next, names[1..]);
    }
  }

  lemma {:induction false} NoLinkToPop(fs: Fs, root: Path, stack: seq<Name>, pending: seq<Comp>)
    requires LinkFree(fs)
    ensures var r := PopWalk(fs, root, MAX_HOPS, stack, pending, 0); r.Real? ==> r.hops == 0
    decreases |pending|
  {
    if pending != [] {
      match pending[0]
      case Cur => NoLinkToPop(fs, root, stack, pending[1..]);
      case Parent => NoLinkToPop(fs, root, Pop(stack), pending[1..]);
      case Normal(n) => NoLinkToPop(fs, root, stack + [n], pending[1..]);
    }
  }

  /** Where nothing is a link and both find something, the code finds what is
      documented if and only if no `..` stands behind a name. */
  lemma DropsInsteadOfPops(fs: Fs, root: Path, guest: Path)
    requires LinkFree(fs) && PathOk(guest)
    requires Resolve(fs, root, guest).Real? && Documented(fs, root, guest).Real?
    ensures Agree(fs, root, guest) <==> NoParentAfterName(guest.comps)
  {
    assert CompsOk(guest.comps);
    NoLinkToTake(fs, root, [], Normals(guest.comps));
    NoLinkToPop(fs, root, [], guest.comps);
    StraightIff(fs, root, [], guest.comps, 0);
    TameMeans(false, guest.comps);
  }

  lemma {:induction false} NeverMissing(fs: Fs, root: Path, stack: seq<Name>, names: seq<Name>)
    requires forall s :: fs(s) == Plain
    ensures Walk(fs, root, MAX_HOPS, stack, names, 0).Real?
    decreases |names|
  {
    if names != [] {
      var next := if names[0] == "." then stack else if names[0] == ".." then Pop(stack) else stack + [names[0]];
      NeverMissing(fs, root, next, names[1..]);
    }
  }

  lemma {:induction false} NeverMissed(fs: Fs, root: Path, stack: seq<Name>, pending: seq<Comp>)
    requires forall s :: fs(s) == Plain
    ensures PopWalk(fs, root, MAX_HOPS, stack, pending, 0).Real?
    decreases |pending|
  {
    if pending != [] {
      match pending[0]
      case Cur => NeverMissed(fs, root, stack, pending[1..]);
      case Parent => NeverMissed(fs, root, Pop(stack), pending[1..]);
      case Normal(n) => NeverMissed(fs, root, stack + [n], pending[1..]);
    }
  }

  /** The code does what is documented on every file system with tame links exactly for
      the paths in which no `..` stands behind a name. */
  lemma AgreesOnTameIff(root: Path, guest: Path)
    requires PathOk(guest)
    ensures (forall fs | FsOk(fs) && TameLinks(fs, root) :: Agree(fs, root, guest)) <==> NoParentAfterName(guest.comps)
  {
    if NoParentAfterName(guest.comps) {
      forall fs | FsOk(fs) && TameLinks(fs, root) ensures Agree(fs, root, guest) {
        AgreesWithoutParents(fs, root, guest);
      }
    } else {
      var full: Fs := _ => Plain;
      NeverMissing(full, root, [], Normals(guest.comps));
      NeverMissed(full, root, [], guest.comps);
      DropsInsteadOfPops(full, root, guest);
      assert FsOk(full) && TameLinks(full, root) && !Agree(full, root, guest);
    }
  }

  // Links

  lemma {:induction false} ClearPops(fs: Fs, root: Path, stack: seq<Name>, ns: seq<Name>, rest: seq<Comp>)
    requires Clear(fs, stack + ns)
    ensures PopWalk(fs, root, MAX_HOPS, stack, Names(ns) + rest, 0) == PopWalk(fs, root, MAX_HOPS, stack + ns, rest, 0)
    decreases |ns|
  {
    if ns == [] {
      assert Names(ns) + rest == rest && stack + ns == stack;
    } else {
      var here := stack + [ns[0]];
      assert (Names(ns) + rest)[0] == Normal(ns[0]) && (Names(ns) + rest)[1..] == Names(ns[1..]) + rest;
      assert here + ns[1..] == stack + ns && (stack + ns)[..|here|] == here;
      ClearPops(fs, root, here, ns[1..], rest);
    }
  }

  lemma LinkIsTaken(fs: Fs, root: Path, dir: seq<Name>, name: Name)
    requires Clear(fs, dir) && NamesOk(dir) && NameOk(name) && fs(dir + [name]).Link?
    ensures var t, p := Localize(root, fs(dir + [name]).target), Path(true, Names(dir + [name]));
            && Resolve(fs, root, p) == Walk(fs, root, MAX_HOPS, Base(dir + [name], t), Normals(t.comps), 1)
            && Documented(fs, root, p) == PopWalk(fs, root, MAX_HOPS, Base(dir + [name], t), t.comps, 1)
  {
    var here := dir + [name];
    NormalsOfNames(here);
    assert [] + dir == dir;
    LastIsTaken(fs, root, dir, name);
    assert Walk(fs, root, MAX_HOPS, [], dir + [name], 0) == Walk(fs, root, MAX_HOPS, dir, [name], 0) by {
      ClearWalksStraight(fs, root, MAX_HOPS, [], dir, 0);
      WalkComposes(fs, root, MAX_HOPS, [], dir, [name], 0);
    }
    assert Names(here) == Names(dir) + [Normal(name)];
    ClearPops(fs, root, [], dir, [Normal(name)]);
  }

  /** Where a link in the directory `dir` leads: from there when its target is relative,
      from the guest's root when it is absolute, and when the host's spelling of the
      rootfs is in front of it, without that. */
  function Landing(root: Path, dir: seq<Name>, target: Path): seq<Name> {
    if !target.absolute then dir + Normals(target.comps)
    else if root.absolute && root.comps <= target.comps then Normals(target.comps[|root.comps|..])
    else Normals(target.comps)
  }

  /** A path through one link: the names behind the link are looked up where it leads. */
  lemma LinkLands(fs: Fs, root: Path, dir: seq<Name>, name: Name, rest: seq<Name>)
    requires FsOk(fs) && Clear(fs, dir) && NamesOk(dir) && NameOk(name) && NamesOk(rest) && fs(dir + [name]).Link?
    requires Clear(fs, Landing(root, dir, fs(dir + [name]).target) + rest)
    ensures Resolve(fs, root, Path(true, Names(dir + [name] + rest)))
         == Real(Landing(root, dir, fs(dir + [name]).target) + rest, 1)
  {
    var target := fs(dir + [name]).target;
    var t := Localize(root, target);
    var base, names := Base(dir + [name], t), Normals(t.comps);
    LandingIs(root, dir, name, target);
    Regroup(base, names, rest);
    LocalizeKeepsOk(root, target);
    NormalsAreOk(t);
    TakenThenRest(fs, root, dir, name, rest);
    ClearWalksStraight(fs, root, MAX_HOPS, base, names + rest, 1);
  }

  lemma LandingIs(root: Path, dir: seq<Name>, name: Name, target: Path)
    ensures var t := Localize(root, target);
            Base(dir + [name], t) + Normals(t.comps) == Landing(root, dir, target)
  {
    assert Pop(dir + [name]) == dir;
  }

  lemma TakenThenRest(fs: Fs, root: Path, dir: seq<Name>, name: Name, rest: seq<Name>)
    requires Clear(fs, dir) && NamesOk(dir) && NameOk(name) && fs(dir + [name]).Link?
    ensures var t := Localize(root, fs(dir + [name]).target);
            Resolve(fs, root, Path(true, Names(dir + [name] + rest)))
            == Walk(fs, root, MAX_HOPS, Base(dir + [name], t), Normals(t.comps) + rest, 1)
  {
    var here := dir + [name];
    var t := Localize(root, fs(here).target);
    NormalsOfNames(here);
    NormalsOfNames(here + rest);
    LinkIsTaken(fs, root, dir, name);
    WalkComposes(fs, root, MAX_HOPS, [], here, rest, 0);
    WalkComposes(fs, root, MAX_HOPS, Base(here, t), Normals(t.comps), rest, 1);
  }

  /** A name that is missing ends the walk, and so does a link that cannot be read. */
  lemma FailsThere(fs: Fs, root: Path, dir: seq<Name>, name: Name, rest: seq<Name>)
    requires Clear(fs, dir) && NamesOk(dir) && NameOk(name)
    ensures fs(dir + [name]).Missing? ==> Resolve(fs, root, Path(true, Names(dir + [name] + rest))) == NotFound
    ensures fs(dir + [name]).Unreadable? ==> Resolve(fs, root, Path(true, Names(dir + [name] + rest))) == BadLink
  {
    var after := [name] + rest;
    assert dir + [name] + rest == dir + after && [] + dir == dir && after[0] == name;
    NormalsOfNames(dir + after);
    ClearWalksStraight(fs, root, MAX_HOPS, [], dir, 0);
    WalkComposes(fs, root, MAX_HOPS, [], dir, after, 0);
  }

  /** A link that leads to itself is followed until the limit, and then refused. */
  lemma LinkToItself(fs: Fs, root: Path, dir: seq<Name>, name: Name)
    requires FsOk(fs) && Clear(fs, dir) && NamesOk(dir) && NameOk(name) && fs(dir + [name]).Link?
    requires Landing(root, dir, fs(dir + [name]).target) == dir + [name]
    ensures Resolve(fs, root, Path(true, Names(dir + [name]))) == TooManyLinks
  {
    var here := dir + [name];
    var t := Localize(root, fs(here).target);
    var base, names := Base(here, t), Normals(t.comps);
    LandingIs(root, dir, name, fs(here).target);
    assert Pop(here) == dir;
    LinkIsTaken(fs, root, dir, name);
    RoundAgain(fs, root, dir, name, base, names, 1);
  }

  /** Each of `xs` but the last is a relative link to the next, which is next to it. */
  ghost predicate Linked(fs: Fs, xs: seq<Name>) {
    && xs != [] && NamesOk(xs) && fs([xs[|xs| - 1]]) == Plain
    && forall k | 0 <= k < |xs| - 1 :: fs([xs[k]]) == Link(Path(false, [Normal(xs[k + 1])]))
  }

  /** Links to links are followed sixteen times and no more. */
  lemma ChainIff(fs: Fs, root: Path, xs: seq<Name>)
    requires Linked(fs, xs)
    ensures Resolve(fs, root, Path(true, Names([xs[0]])))
         == if |xs| <= 17 then Real([xs[|xs| - 1]], |xs| - 1) else TooManyLinks
  {
    NormalsOfNames([xs[0]]);
    ChainFrom(fs, root, xs, 0);
  }

  lemma {:induction false} ChainFrom(fs: Fs, root: Path, xs: seq<Name>, hops: nat)
    requires Linked(fs, xs) && hops <= MAX_HOPS
    ensures Walk(fs, root, MAX_HOPS, [], [xs[0]], hops)
         == if hops + |xs| - 1 <= MAX_HOPS then Real([xs[|xs| - 1]], hops + |xs| - 1) else TooManyLinks
    decreases |xs|
  {
    if |xs| > 1 {
      NextLink(fs, root, xs[0], xs[1], hops);
      LinkedTail(fs, xs);
      if hops < MAX_HOPS { ChainFrom(fs, root, xs[1..], hops + 1); }
    } else {
      assert [] + [xs[0]] == [xs[0]] == [xs[0]][..1];
      ClearWalksStraight(fs, root, MAX_HOPS, [], [xs[0]], hops);
    }
  }

  lemma LinkedTail(fs: Fs, xs: seq<Name>)
    requires Linked(fs, xs) && |xs| > 1
    ensures Linked(fs, xs[1..])
  {
    var ys := xs[1..];
    forall k | 0 <= k < |ys| - 1 ensures fs([ys[k]]) == Link(Path(false, [Normal(ys[k + 1])])) {
      assert fs([xs[k + 1]]) == Link(Path(false, [Normal(xs[k + 2])]));
    }
  }

  lemma NextLink(fs: Fs, root: Path, x: Name, y: Name, hops: nat)
    requires NameOk(x) && fs([x]) == Link(Path(false, [Normal(y)])) && hops <= MAX_HOPS
    ensures Walk(fs, root, MAX_HOPS, [], [x], hops)
         == if hops == MAX_HOPS then TooManyLinks else Walk(fs, root, MAX_HOPS, [], [y], hops + 1)
  {
    assert [] + [x] == [x] && Pop([x]) == [];
    OnceMore(fs, root, [], x, hops);
    SingleNormal(y);
  }

  lemma SingleNormal(name: Name)
    ensures Normals([Normal(name)]) == [name]
  {
    assert [Normal(name)][1..] == [];
  }

  lemma OnceMore(fs: Fs, root: Path, dir: seq<Name>, name: Name, hops: nat)
    requires NameOk(name) && fs(dir + [name]).Link? && hops <= MAX_HOPS
    ensures var t := Localize(root, fs(dir + [name]).target);
            Walk(fs, root, MAX_HOPS, dir, [name], hops)
            == if hops == MAX_HOPS then TooManyLinks
               else Walk(fs, root, MAX_HOPS, Base(dir + [name], t), Normals(t.comps), hops + 1)
  {
    var names := Normals(Localize(root, fs(dir + [name]).target).comps);
    assert [name][1..] == [] && names + [] == names;
  }

  lemma {:induction false} RoundAgain(fs: Fs, root: Path, dir: seq<Name>, name: Name, base: seq<Name>,
                                      names: seq<Name>, hops: nat)
    requires Clear(fs, dir) && NamesOk(dir) && NameOk(name) && fs(dir + [name]).Link? && 1 <= hops <= MAX_HOPS
    requires var t := Localize(root, fs(dir + [name]).target);
             base == Base(dir + [name], t) && names == Normals(t.comps)
    requires base + names == dir + [name] && (base == dir || base == [])
    ensures Walk(fs, root, MAX_HOPS, base, names, hops) == TooManyLinks
    decreases MAX_HOPS - hops
  {
    assert names == (dir + [name])[|base|..];
    var front := dir[|base|..];
    assert names == front + [name] && base + front == dir;
    ClearWalksStraight(fs, root, MAX_HOPS, base, front, hops);
    WalkComposes(fs, root, MAX_HOPS, base, front, [name], hops);
    OnceMore(fs, root, dir, name, hops);
    if hops < MAX_HOPS { RoundAgain(fs, root, dir, name, base, names, hops + 1); }
  }

  lemma LastIsTaken(fs: Fs, root: Path, dir: seq<Name>, name: Name)
    requires NameOk(name) && fs(dir + [name]).Link?
    ensures var t := Localize(root, fs(dir + [name]).target);
            && Walk(fs, root, MAX_HOPS, dir, [name], 0)
               == Walk(fs, root, MAX_HOPS, Base(dir + [name], t), Normals(t.comps), 1)
            && PopWalk(fs, root, MAX_HOPS, dir, [Normal(name)], 0)
               == PopWalk(fs, root, MAX_HOPS, Base(dir + [name], t), t.comps, 1)
  {
    var t := Localize(root, fs(dir + [name]).target);
    assert [name][1..] == [] && [Normal(name)][1..] == [];
    assert Normals(t.comps) + [] == Normals(t.comps) && t.comps + [] == t.comps;
  }

  /** Where one link stands at the end of a path and both find something behind it
      without taking another, the code finds what is documented if and only if that
      link is tame. */
  lemma OneLinkIff(fs: Fs, root: Path, dir: seq<Name>, name: Name)
    requires FsOk(fs) && Clear(fs, dir) && NamesOk(dir) && NameOk(name) && fs(dir + [name]).Link?
    requires var r := Resolve(fs, root, Path(true, Names(dir + [name]))); r.Real? && r.hops == 1
    requires var d := Documented(fs, root, Path(true, Names(dir + [name]))); d.Real? && d.hops == 1
    ensures Agree(fs, root, Path(true, Names(dir + [name]))) <==> LinkTame(root, dir + [name], fs(dir + [name]).target)
  {
    var here := dir + [name];
    var t := Localize(root, fs(here).target);
    LinkIsTaken(fs, root, dir, name);
    LocalizeKeepsOk(root, fs(here).target);
    assert CompsOk(t.comps);
    StraightIff(fs, root, Base(here, t), t.comps, 1);
    TameMeans(Base(here, t) != [], t.comps);
  }

  /** A tree with everything in it and one link, `/x`, to `/a/../b`. */
  function OneLink(root: Path, x: Name, a: Name): Fs {
    var tail := [Normal(a), Parent, Normal("b")];
    var target := Path(true, if root.absolute then root.comps + tail else tail);
    (s: seq<Name>) => if s == [x] then Link(target) else Plain
  }

  lemma OneLinkMeans(root: Path, x: Name, a: Name)
    requires PathOk(root) && NameOk(a)
    ensures FsOk(OneLink(root, x, a))
    ensures Localize(root, OneLink(root, x, a)([x]).target) == Path(true, [Normal(a), Parent, Normal("b")])
  {
    var tail := [Normal(a), Parent, Normal("b")];
    assert CompsOk(tail) && CompsOk(root.comps);
    CompsOkParts(root.comps, tail);
    var all := root.comps + tail;
    assert root.comps <= all && all[|root.comps|..] == tail;
  }

  /** Behind that link the code is one level deeper than the documented walk. */
  lemma BehindOneLink(root: Path, x: Name, a: Name, rest: seq<Comp>)
    requires PathOk(root) && NameOk(a) && a != x && CompsOk(rest)
    ensures var fs := OneLink(root, x, a);
            Walk(fs, root, MAX_HOPS, [], [a, "b"] + Normals(rest), 1)
            != PopWalk(fs, root, MAX_HOPS, [], [Normal(a), Parent, Normal("b")] + rest, 1)
  {
    var fs, names, tail := OneLink(root, x, a), [a, "b"] + Normals(rest), [Normal(a), Parent, Normal("b")];
    NormalsAreOk(Path(true, rest));
    assert Clear(fs, [] + names) by {
      assert [] + names == names;
      forall n | 0 < n <= |names| ensures fs(names[..n]) == Plain { assert names[..n][0] == a; }
    }
    ClearWalksStraight(fs, root, MAX_HOPS, [], names, 1);
    StraightPops(fs, root, MAX_HOPS, [], tail + rest, 1);
    PoppedTail(a, rest);
  }

  lemma PoppedTail(a: Name, rest: seq<Comp>)
    ensures |Popped([], [Normal(a), Parent, Normal("b")] + rest)| <= 1 + |Normals(rest)|
  {
    var last, tail, all := [Normal("b")] + rest, [Parent, Normal("b")] + rest, [Normal(a), Parent, Normal("b")] + rest;
    assert all[1..] == tail && tail[1..] == last && last[1..] == rest;
    assert [] + [a] == [a] && Pop([a]) == [] && [] + ["b"] == ["b"];
    assert Popped([], all) == Popped([a], tail) == Popped([], last) == Popped(["b"], rest);
    PoppedIff(["b"], rest);
  }

  lemma {:induction false} FirstNameDiffers(root: Path, cs: seq<Comp>) returns (fs: Fs)
    requires PathOk(root) && CompsOk(cs) && Normals(cs) != []
    ensures FsOk(fs)
    ensures Walk(fs, root, MAX_HOPS, [], Normals(cs), 0) != PopWalk(fs, root, MAX_HOPS, [], cs, 0)
    decreases |cs|
  {
    var rest := cs[1..];
    CompsOkParts(cs, []);
    if cs[0].Normal? {
      var x := cs[0].name;
      var a := if x == "a" then "c" else "a";
      fs := OneLink(root, x, a);
      OneLinkMeans(root, x, a);
      BehindOneLink(root, x, a, rest);
      FirstName(root, x, a, cs);
    } else {
      fs := FirstNameDiffers(root, rest);
    }
  }

  lemma FirstName(root: Path, x: Name, a: Name, cs: seq<Comp>)
    requires PathOk(root) && NameOk(a) && cs != [] && cs[0] == Normal(x) && NameOk(x)
    ensures var fs, rest := OneLink(root, x, a), cs[1..];
            && Walk(fs, root, MAX_HOPS, [], Normals(cs), 0) == Walk(fs, root, MAX_HOPS, [], [a, "b"] + Normals(rest), 1)
            && PopWalk(fs, root, MAX_HOPS, [], cs, 0)
               == PopWalk(fs, root, MAX_HOPS, [], [Normal(a), Parent, Normal("b")] + rest, 1)
  {
    var fs, tail := OneLink(root, x, a), [Normal(a), Parent, Normal("b")];
    OneLinkMeans(root, x, a);
    assert [] + [x] == [x] && Normals(cs)[1..] == Normals(cs[1..]);
    TailNames(a);
  }

  lemma TailNames(a: Name)
    ensures Normals([Normal(a), Parent, Normal("b")]) == [a, "b"]
  {
    var last, tail, all := [Normal("b")], [Parent, Normal("b")], [Normal(a), Parent, Normal("b")];
    assert all[1..] == tail && tail[1..] == last && last[1..] == [];
    assert Normals(last) == ["b"] && Normals(tail) == ["b"];
  }

  lemma {:induction false} NoNames(fs: Fs, root: Path, cs: seq<Comp>)
    requires Normals(cs) == []
    ensures PopWalk(fs, root, MAX_HOPS, [], cs, 0) == Real([], 0)
    decreases |cs|
  {
    if cs != [] { NoNames(fs, root, cs[1..]); }
  }

  /** With no condition on links, only a path without names is safe: for every other
      one some file system makes the code and the documentation differ. */
  lemma AgreesEverywhereIff(root: Path, guest: Path)
    requires PathOk(root) && PathOk(guest)
    ensures (forall fs | FsOk(fs) :: Agree(fs, root, guest)) <==> Normals(guest.comps) == []
  {
    assert CompsOk(guest.comps);
    if Normals(guest.comps) == [] {
      forall fs | FsOk(fs) ensures Agree(fs, root, guest) {
        NoNames(fs, root, guest.comps);
      }
    } else {
      var fs := FirstNameDiffers(root, guest.comps);
      assert !Agree(fs, root, guest);
    }
  }

  // Instances

  /** `/a/../b`: the code looks up `/a/b`, the documentation promises `/b`. */
  lemma ParentIsDropped(fs: Fs, root: Path)
    requires fs(["a"]) == Plain && fs(["a", "b"]) == Plain && fs(["b"]) == Plain
    ensures var p := Path(true, [Normal("a"), Parent, Normal("b")]);
            && Resolve(fs, root, p) == Real(["a", "b"], 0)
            && Documented(fs, root, p) == Real(["b"], 0)
  {
    var cs, tail, last := [Normal("a"), Parent, Normal("b")], [Parent, Normal("b")], [Normal("b")];
    assert cs[1..] == tail && tail[1..] == last && last[1..] == [];
    TailNames("a");
    assert [] + ["a"] == ["a"] && [] + ["b"] == ["b"] && ["a"] + ["b"] == ["a", "b"] && ["b"] + [] == ["b"];
    OneName(fs, root, [], "a", ["b"], 0);
    OneName(fs, root, ["a"], "b", [], 0);
    assert PopWalk(fs, root, MAX_HOPS, [], last, 0) == Real(["b"], 0);
    assert PopWalk(fs, root, MAX_HOPS, ["a"], tail, 0) == PopWalk(fs, root, MAX_HOPS, [], last, 0);
  }

  lemma OneName(fs: Fs, root: Path, stack: seq<Name>, n: Name, rest: seq<Name>, hops: nat)
    requires n != "." && n != ".." && fs(stack + [n]) == Plain && hops <= MAX_HOPS
    ensures Walk(fs, root, MAX_HOPS, stack, [n] + rest, hops) == Walk(fs, root, MAX_HOPS, stack + [n], rest, hops)
  {
    assert ([n] + rest)[1..] == rest;
  }

  /** `/d/a`, a link to `../b`: the code ends at `/d/b`, the documentation promises `/b`. */
  lemma LinkParentIsDropped(fs: Fs, root: Path)
    requires fs(["d"]) == Plain && fs(["d", "a"]) == Link(Path(false, [Parent, Normal("b")]))
    requires fs(["d", "b"]) == Plain && fs(["b"]) == Plain
    ensures var p := Path(true, [Normal("d"), Normal("a")]);
            && NoParentAfterName(p.comps)
            && Resolve(fs, root, p) == Real(["d", "b"], 1) && Documented(fs, root, p) == Real(["b"], 1)
  {
    var t, last := [Parent, Normal("b")], [Normal("b")];
    assert ["d"] + ["a"] == ["d", "a"] && ["d"] + ["b"] == ["d", "b"] && [] + ["b"] == ["b"] && ["b"] + [] == ["b"];
    assert Names(["d", "a"]) == [Normal("d"), Normal("a")] && Pop(["d", "a"]) == ["d"];
    assert ["d"][..1] == ["d"];
    LinkIsTaken(fs, root, ["d"], "a");
    assert t[1..] == last && last[1..] == [] && Normals(last) == ["b"] && Normals(t) == ["b"];
    OneName(fs, root, ["d"], "b", [], 1);
    assert PopWalk(fs, root, MAX_HOPS, [], last, 1) == Real(["b"], 1);
    assert PopWalk(fs, root, MAX_HOPS, ["d"], t, 1) == PopWalk(fs, root, MAX_HOPS, [], last, 1);
  }

  // ---------------------------------------------------------------------------
  // The loop

  ghost function Reversed(s: seq<Name>): seq<Name> {
    if s == [] then [] else [s[|s| - 1]] + Reversed(s[..|s| - 1])
  }

  lemma {:induction false} ReversedConcat(s: seq<Name>, t: seq<Name>)
    ensures Reversed(s + t) == Reversed(t) + Reversed(s)
    decreases |t|
  {
    if t == [] {
      assert s + t == s;
    } else {
      assert (s + t)[..|s + t| - 1] == s + t[..|t| - 1];
      ReversedConcat(s, t[..|t| - 1]);
    }
  }

  method Reverse(s: seq<Name>) returns (r: seq<Name>)
    ensures Reversed(r) == s
  {
    r := [];
    for k := 0 to |s|
      invariant Reversed(r) == s[|s| - k..]
    {
      ReversedConcat(r, [s[|s| - 1 - k]]);
      assert Reversed([s[|s| - 1 - k]]) == [s[|s| - 1 - k]];
      r := r + [s[|s| - 1 - k]];
    }
  }

  /** The walk with its stack of names still to come, the next one last. */
  method GuestReal(fs: Fs, root: Path, guest: Path) returns (r: Outcome)
    ensures r == Resolve(fs, root, guest)
  {
    var stack: seq<Name>, hops := [], 0;
    var pending := Reverse(Normals(guest.comps));
    while pending != []
      invariant hops <= MAX_HOPS && Walk(fs, root, MAX_HOPS, stack, Reversed(pending), hops) == Resolve(fs, root, guest)
      decreases MAX_HOPS - hops, |pending|
    {
      var comp := pending[|pending| - 1];
      ghost var todo := Reversed(pending);
      pending := pending[..|pending| - 1];
      assert todo[0] == comp && todo[1..] == Reversed(pending);
      if comp == "." { continue; }
      if comp == ".." {
        stack := Pop(stack);
        continue;
      }
      stack := stack + [comp];
      var node := fs(stack);
      if node.Missing? { return NotFound; }
      if node.Plain? { continue; }
      if hops + 1 > MAX_HOPS { return TooManyLinks; }
      if node.Unreadable? { return BadLink; }
      var t := Localize(root, node.target);
      stack := Base(stack, t);
      var tv := Reverse(Normals(t.comps));
      ReversedConcat(pending, tv);
      pending, hops := pending + tv, hops + 1;
    }
    r := Real(stack, hops);
  }
}
