/** Where the walk over intermediate components puts a relative link's target.  It
    is meant to be the directory that holds the link; it is the link's own name.
    The two come to the same path exactly when the target and what follows it
    climb back to the rootfs. */
module LinkParent {
  import opened PathTranslate
  import opened PathCanon
  import opened LinkChase

  /** The path with the link at its first `cut` bytes replaced by its target, in the
      directory that holds the link. */
  function AtParent(cur: string, cut: nat, link: string): string
    requires cut <= |cur| && LastSlash(cur[..cut]) >= 0
  {
    cur[..LastSlash(cur[..cut])] + "/" + link + cur[cut..]
  }

  /** The most levels above its start that a walk along `cs` gets. */
  function Climb(cs: seq<string>): nat {
    if cs == [] then 0
    else
      var c := Climb(cs[1..]);
      if cs[0] == ".." then c + 1 else if cs[0] == "." || c == 0 then c else c - 1
  }

  /** Two walks one level apart end at the same place exactly when they climb to
      the floor, where neither can go up. */
  lemma {:induction false} OneLevelApart(deep: seq<string>, flat: seq<string>, cs: seq<string>)
    requires |deep| == |flat| + 1
    ensures Resolve(deep, cs) == Resolve(flat, cs) <==> Climb(cs) > |flat|
    decreases |cs|
  {
    if cs != [] {
      var d, f := Push(deep, cs[0]), Push(flat, cs[0]);
      if cs[0] == ".." && flat == [] {
        assert d == f;
      } else {
        OneLevelApart(d, f, cs[1..]);
      }
    }
  }

  lemma {:induction false} ResolveAppend(stack: seq<string>, a: seq<string>, b: seq<string>)
    ensures Resolve(stack, a + b) == Resolve(Resolve(stack, a), b)
    decreases |a|
  {
    if a == [] {
      assert a + b == b;
    } else {
      assert (a + b)[1..] == a[1..] + b;
      ResolveAppend(Push(stack, a[0]), a[1..], b);
    }
  }

  lemma ResolveOverClean(a: seq<string>, b: seq<string>)
    requires Clean(a)
    ensures Resolve([], a + b) == Resolve(a, b)
  {
    ResolveAppend([], a, b);
    ResolveOfClean([], a);
    assert [] + a == a;
  }

  /** A path that goes on from clean components resolves from them. */
  lemma ResolvesFrom(front: string, back: string)
    requires Clean(Comps(front))
    ensures Resolve([], Comps(front + "/" + back)) == Resolve(Comps(front), Comps(back))
  {
    CompsSplit(front, back);
    ResolveOverClean(Comps(front), Comps(back));
  }

  /** Canonical forms with the same ending are equal exactly when they resolve alike. */
  lemma SameCanonIff(p: string, q: string, floor: nat)
    requires AtBoundary(p, floor) && AtBoundary(q, floor) && p[..floor] == q[..floor]
    requires EndsInSlash(p[floor..]) == EndsInSlash(q[floor..])
    ensures Canon(p, floor) == Canon(q, floor) <==> Resolve([], Comps(p[floor..])) == Resolve([], Comps(q[floor..]))
  {
    CanonIsRest(p, floor);
    CanonIsRest(q, floor);
    CanonIsClean(p, floor);
    CanonIsClean(q, floor);
  }

  /** The directory that holds the component ending at `cut`, and its name. */
  lemma HeldBy(root: string, cur: string, cut: nat)
    requires Contained(root, cur) && |root| < cut <= |cur| && cur[cut - 1] != '/' && (cut < |cur| ==> cur[cut] == '/')
    ensures var dir := LastSlash(cur[..cut]);
            && |root| <= dir < cut - 1
            && Clean(Comps(cur[|root|..dir])) && Clean(Comps(cur[|root|..cut]))
            && |Comps(cur[|root|..cut])| == |Comps(cur[|root|..dir])| + 1
  {
    var n, dir := |root|, LastSlash(cur[..cut]);
    HoldingSlash(root, cur, cut);
    var whole, front, name := Parts(cur, n, dir, cut);
    LastComp(whole, front, name);
    if cut < |cur| { FrontIsClean(cur[n..], whole, cur[cut + 1..]); }
    FrontIsClean(whole, front, name);
  }

  /** A path from `n` on, cut at the slashes at `dir` and `cut`. */
  lemma Parts(s: string, n: nat, dir: nat, cut: nat) returns (whole: string, front: string, name: string)
    requires n <= dir < cut <= |s| && s[dir] == '/' && (cut < |s| ==> s[cut] == '/')
    ensures whole == s[n..cut] && front == s[n..dir] && name == s[dir + 1..cut] && whole == front + "/" + name
    ensures cut < |s| ==> s[n..] == whole + "/" + s[cut + 1..]
    ensures cut == |s| ==> s[n..] == whole
  {
    whole, front, name := s[n..cut], s[n..dir], s[dir + 1..cut];
    assert whole == front + "/" + name;
    if cut < |s| { assert s[n..] == whole + "/" + s[cut + 1..]; } else { assert s[n..] == whole; }
  }

  lemma HoldingSlash(root: string, cur: string, cut: nat)
    requires Starts(root, cur) && |root| < cut <= |cur| && cur[cut - 1] != '/'
    ensures var dir := LastSlash(cur[..cut]);
            |root| <= dir < cut - 1 && cur[dir] == '/' && IsName(cur[dir + 1..cut])
  {
    var dir := LastSlash(cur[..cut]);
    assert cur[..cut][|root|] == cur[|root|] == '/';
    assert forall k | dir < k < cut :: cur[..cut][k] == cur[k];
  }

  /** Clean components stay clean up to the end of one of them. */
  lemma FrontIsClean(s: string, front: string, back: string)
    requires Clean(Comps(s)) && s == front + "/" + back
    ensures Clean(Comps(front))
  {
    CompsSplit(front, back);
    CleanPrefix(Comps(front), Comps(back));
  }

  lemma LastComp(whole: string, front: string, name: string)
    requires IsName(name) && whole == front + "/" + name
    ensures |Comps(whole)| == |Comps(front)| + 1
  {
    CompsSplit(front, name);
    NameIsOneComp(name);
  }

  lemma CleanPrefix(a: seq<string>, b: seq<string>)
    requires Clean(a + b)
    ensures Clean(a)
  {
    assert forall k | 0 <= k < |a| :: a[k] == (a + b)[k];
  }

  /** A relative link is resolved in the directory that holds it exactly when it is
      the final component or its target, with what follows, climbs to the rootfs. */
  lemma RelativeLinkIff(root: string, cur: string, cut: nat, link: string)
    requires Absolute(root) && Contained(root, cur) && link != "" && link[0] != '/'
    requires |root| < cut <= |cur| && cur[cut - 1] != '/' && (cut < |cur| ==> cur[cut] == '/')
    ensures var dir := LastSlash(cur[..cut]);
            && |root| <= dir
            && (Clamp(root, Spliced(root, cur, cut, link)) == Clamp(root, AtParent(cur, cut, link))
                <==> cut == |cur| || Climb(Comps(link + cur[cut..])) > |Comps(cur[|root|..dir])|)
  {
    HeldBy(root, cur, cut);
    if cut == |cur| {
      assert cur[..cut] == cur;
    } else {
      InTheMiddle(root, cur, cut, link);
    }
  }

  lemma InTheMiddle(root: string, cur: string, cut: nat, link: string)
    requires Absolute(root) && Contained(root, cur) && link != "" && link[0] != '/'
    requires |root| < cut < |cur| && cur[cut - 1] != '/' && cur[cut] == '/'
    ensures var dir := LastSlash(cur[..cut]);
            && |root| <= dir
            && (Clamp(root, Spliced(root, cur, cut, link)) == Clamp(root, AtParent(cur, cut, link))
                <==> Climb(Comps(link + cur[cut..])) > |Comps(cur[|root|..dir])|)
  {
    HeldBy(root, cur, cut);
    var n, dir, after := |root|, LastSlash(cur[..cut]), link + cur[cut..];
    var p, q := cur[..cut] + "/" + after, cur[..dir] + "/" + after;
    Regroup(cur[..cut], link, cur[cut..]);
    Regroup(cur[..dir], link, cur[cut..]);
    assert Spliced(root, cur, cut, link) == p && AtParent(cur, cut, link) == q;
    BelowRoot(root, cur);
    LeaveApart(root, cur, dir, cut, after);
  }

  lemma Regroup(a: string, b: string, c: string)
    ensures a + "/" + b + c == a + "/" + (b + c)
  {
  }

  /** Leaving `cur` at two places whose directories are one level apart. */
  lemma LeaveApart(root: string, cur: string, dir: nat, cut: nat, t: string)
    requires Absolute(root) && Starts(root, cur) && |root| <= dir <= cut <= |cur|
    requires |root| < |cur| && cur[|root|] == '/'
    requires Clean(Comps(cur[|root|..dir])) && Clean(Comps(cur[|root|..cut]))
    requires |Comps(cur[|root|..cut])| == |Comps(cur[|root|..dir])| + 1
    ensures Clamp(root, cur[..cut] + "/" + t) == Clamp(root, cur[..dir] + "/" + t)
       <==> Climb(Comps(t)) > |Comps(cur[|root|..dir])|
  {
    var n := |root|;
    Continued(root, cur, cut, t);
    Continued(root, cur, dir, t);
    SameCanonIff(cur[..cut] + "/" + t, cur[..dir] + "/" + t, n);
    OneLevelApart(Comps(cur[n..cut]), Comps(cur[n..dir]), Comps(t));
  }

  /** A path that leaves `cur` at `at`. */
  lemma Continued(root: string, cur: string, at: nat, t: string)
    requires Absolute(root) && Starts(root, cur) && |root| <= at <= |cur| && Clean(Comps(cur[|root|..at]))
    requires |root| < at ==> cur[|root|] == '/'
    ensures var s := cur[..at] + "/" + t;
            && Starts(root, s) && |root| <= |s|
            && Resolve([], Comps(s[|root|..])) == Resolve(Comps(cur[|root|..at]), Comps(t))
            && EndsInSlash(s[|root|..]) == (t == "" || EndsInSlash(t))
  {
    var s := cur[..at] + "/" + t;
    RelativeStays(root, cur, at, t);
    assert s[|root|..] == cur[|root|..at] + "/" + t;
    ResolvesFrom(cur[|root|..at], t);
  }

  /** A link `t` at /a/l inside the rootfs /r, with more behind it. */
  lemma TargetBehindTheLink()
    ensures Spliced("/r", "/r/a/l/x", 6, "t") == "/r/a/l/t/x"
    ensures LastSlash("/r/a/l/x"[..6]) == 4 && AtParent("/r/a/l/x", 6, "t") == "/r/a/t/x"
  {
    var cur := "/r/a/l/x";
    assert cur[..6] == "/r/a/l" && cur[..4] == "/r/a" && cur[6..] == "/x";
    assert "/r/a/l"[4] == '/' && "/r/a/l"[5] == 'l';
  }
}
