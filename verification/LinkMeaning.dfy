/** What following links comes to, in components above the rootfs: one hop of the final
    chase, one splice of the walk, and the whole resolution of a path that ends in a
    link or has one in the middle. */
module LinkMeaning {
  import opened Common
  import opened PathCanon
  import opened PathTranslate
  import opened LinkChase
  import opened LinkParent

  /** The components above the rootfs. */
  function Above(root: string, path: string): seq<string> {
    if |root| <= |path| then Comps(path[|root|..]) else []
  }

  // ---------------------------------------------------------------------------
  // One hop

  lemma ClampMeans(root: string, rest: string)
    requires Absolute(root) && (rest == "" || rest[0] == '/')
    ensures Above(root, Clamp(root, root + rest)) == Resolve([], Comps(rest))
    ensures Starts(root, Clamp(root, root + rest))
  {
    var p := root + rest;
    assert p[|root|..] == rest && p[..|root|] == root && AtBoundary(p, |root|);
    CanonIsClean(p, |root|);
  }

  /** A target's spelling as the guest's: below the rootfs, if it is spelled under it. */
  function GuestSpelling(root: string, link: string): string {
    if PathWithin(root, link) then link[|root|..] else link
  }

  lemma Respelled(root: string, link: string)
    requires Absolute(root) && Absolute(link)
    ensures var g := GuestSpelling(root, link);
            (g == "" || g[0] == '/') && root + g == if PathWithin(root, link) then link else root + link
  {
  }

  /** An absolute target is followed from the guest's root, whichever of its two
      spellings it has. */
  lemma AbsoluteHop(root: string, cur: string, link: string)
    requires Absolute(root) && Absolute(link)
    ensures Above(root, Clamp(root, Followed(root, cur, link))) == Resolve([], Comps(GuestSpelling(root, link)))
  {
    Respelled(root, link);
    ClampMeans(root, GuestSpelling(root, link));
  }

  /** The components of the directory that holds `cur`; behind a trailing slash, its
      own. */
  function Holder(root: string, cur: string): seq<string> {
    var cs := Above(root, cur);
    if EndsInSlash(cur) || cs == [] then cs else cs[..|cs| - 1]
  }

  /** A relative target is followed from the directory that holds the link. */
  lemma RelativeHop(root: string, cur: string, link: string)
    requires Absolute(root) && Starts(root, cur) && cur != root && link != "" && link[0] != '/'
    ensures Above(root, Clamp(root, Followed(root, cur, link))) == Resolve([], Holder(root, cur) + Comps(link))
  {
    BelowRoot(root, cur);
    HolderIs(root, cur);
    NewTail(root, cur, LastSlash(cur), link, Followed(root, cur, link), Holder(root, cur));
  }

  lemma HolderIs(root: string, cur: string)
    requires Starts(root, cur) && |root| <= LastSlash(cur)
    ensures Holder(root, cur) == Comps(cur[|root|..LastSlash(cur)])
  {
    var d := LastSlash(cur);
    var whole, front, name := Parts(cur, |root|, d, |cur|);
    assert cur[|root|..] == whole;
    CompsSplit(front, name);
    if name != "" {
      assert IsName(name);
      NameIsOneComp(name);
    }
  }

  lemma NewTail(root: string, cur: string, d: nat, link: string, path: string, dir: seq<string>)
    requires Absolute(root) && Starts(root, cur) && |root| <= d < |cur| && cur[d] == '/' && cur[|root|] == '/'
    requires path == cur[..d + 1] + link && dir == Comps(cur[|root|..d])
    ensures Above(root, Clamp(root, path)) == Resolve([], dir + Comps(link))
  {
    var front := cur[|root|..d];
    assert path == root + (front + "/" + link);
    CompsSplit(front, link);
    ClampMeans(root, front + "/" + link);
  }

  /** A hop is taken exactly from a readable link whose new path fits the buffer. */
  lemma HopIff(root: string, cur: string, node: Node)
    ensures Hop(root, cur, node).Some? <==>
              && node.Link? && node.target != ""
              && (if !Absolute(node.target) then LastSlash(cur) + 1 + |node.target| < PATH_MAX
                  else if PathWithin(root, node.target) then |node.target| < PATH_MAX
                  else |root| + |node.target| < PATH_MAX)
    ensures Hop(root, cur, node).Some? ==>
              Hop(root, cur, node).value == Clamp(root, Followed(root, cur, node.target))
  {
  }

  /** The last look puts one more absolute target under the rootfs, and does nothing
      else. */
  lemma LastLook(root: string, cur: string, node: Node)
    requires Absolute(root)
    ensures node.Link? && Absolute(node.target) && !PathWithin(root, node.target)
            && |root| + |node.target| < PATH_MAX ==>
              Above(root, AfterLast(root, cur, node)) == Resolve([], Comps(node.target))
    ensures !(node.Link? && Absolute(node.target) && !PathWithin(root, node.target)
              && |root| + |node.target| < PATH_MAX) ==>
              AfterLast(root, cur, node) == cur
  {
    if node.Link? && Absolute(node.target) { AbsoluteHop(root, cur, node.target); }
  }

  /** A chase that uses up its hops ends with the last look at the path it has come to. */
  lemma {:induction false} ChaseRunsOut(rules: Rules, cur: string, fs: Fs, t: nat, hop: nat) returns (p: string)
    requires hop <= HOPS
    ensures var r := Chase(rules, cur, fs, t, hop);
            r.clock == t + (HOPS - hop) + 1 ==> r.clean && r.path == rules.last(p, fs(r.clock - 1, p))
    decreases HOPS - hop
  {
    p := cur;
    var node := fs(t, cur);
    if hop < HOPS && !node.Missing? && rules.hop(cur, node).Some? {
      p := ChaseRunsOut(rules, rules.hop(cur, node).value, fs, t + 1, hop + 1);
    }
  }

  /** A chase that began after `u` queries has come to the path it asked about last:
      within sixteen hops the path is missing or there is nothing left to follow; after
      sixteen it is the last look at `p`. */
  ghost predicate EndsAt(rules: Rules, fs: Fs, u: nat, p: string, r: Chased) {
    && u < r.clock <= u + 17
    && (!r.clean ==> fs(r.clock - 1, r.path).Missing?)
    && (r.clean && r.clock <= u + 16 ==> rules.hop(r.path, fs(r.clock - 1, r.path)).None?)
    && (r.clock == u + 17 ==> r.path == rules.last(p, fs(r.clock - 1, p)))
  }

  lemma ChaseEndsAt(rules: Rules, cur: string, fs: Fs, u: nat) returns (p: string)
    ensures EndsAt(rules, fs, u, p, Chase(rules, cur, fs, u, 0))
  {
    ChaseEnds(rules, cur, fs, u, 0);
    p := ChaseRunsOut(rules, cur, fs, u, 0);
  }

  /** A resolution ends as its last chase does. */
  lemma ResolvedEnds(root: string, cur: string, fs: Fs, t: nat) returns (u: nat, p: string)
    ensures EndsAt(RulesOf(root), fs, u, p, Resolved(root, cur, fs, t))
  {
    var rules := RulesOf(root);
    var first := Chase(rules, cur, fs, t, 0);
    if first.clean {
      u := t;
      p := ChaseEndsAt(rules, cur, fs, u);
    } else {
      var w := Intermediate(WalkOf(root, fs), first.path, first.clock, 0);
      u := w.clock;
      p := ChaseEndsAt(rules, w.path, fs, u);
    }
  }

  // ---------------------------------------------------------------------------
  // One splice

  /** An absolute link in the middle of a path is replaced by its target, from the
      guest's root, and what follows the link stays behind it. */
  lemma AbsoluteSplice(root: string, cur: string, cut: nat, link: string)
    requires Absolute(root) && Absolute(link) && cut <= |cur| && (cut < |cur| ==> cur[cut] == '/')
    ensures Above(root, Clamp(root, Spliced(root, cur, cut, link)))
         == Resolve([], Comps(GuestSpelling(root, link)) + Comps(cur[cut..]))
  {
    var g, rest := GuestSpelling(root, link), cur[cut..];
    Respelled(root, link);
    assert Spliced(root, cur, cut, link) == root + g + rest;
    UnderRoot(root, g, rest);
  }

  lemma UnderRoot(root: string, g: string, rest: string)
    requires Absolute(root) && (g == "" || g[0] == '/') && (rest == "" || rest[0] == '/')
    ensures Above(root, Clamp(root, root + g + rest)) == Resolve([], Comps(g) + Comps(rest))
  {
    assert root + g + rest == root + (g + rest);
    CompsAppend(g, rest);
    ClampMeans(root, g + rest);
  }

  lemma CompsAppend(a: string, b: string)
    requires b == "" || b[0] == '/'
    ensures Comps(a + b) == Comps(a) + Comps(b)
  {
    if b == "" {
      assert a + b == a;
    } else {
      assert a + b == a + "/" + b[1..];
      CompsSplit(a, b[1..]);
    }
  }

  /** A relative one leaves its target behind its own name, or in its directory when it
      is the last. */
  lemma RelativeSplice(root: string, cur: string, cut: nat, link: string)
    requires Absolute(root) && Starts(root, cur) && link != "" && link[0] != '/'
    requires |root| < cut <= |cur| && (cut < |cur| ==> cur[cut] == '/')
    ensures Above(root, Clamp(root, Spliced(root, cur, cut, link)))
         == if cut < |cur| then Resolve([], Comps(cur[|root|..cut]) + Comps(link + cur[cut..]))
            else Resolve([], Holder(root, cur) + Comps(link))
  {
    BelowRoot(root, cur);
    var path, rest := Spliced(root, cur, cut, link), cur[cut..];
    if cut < |cur| {
      Regroup(cur[..cut], link, rest);
      assert cur[..cut + 1] == cur[..cut] + "/";
      NewTail(root, cur, cut, link + rest, path, Comps(cur[|root|..cut]));
    } else {
      var d := LastSlash(cur);
      SplicedLast(root, cur, d, link);
      Rejoin(cur, d, link);
      HolderIs(root, cur);
      NewTail(root, cur, d, link, path, Holder(root, cur));
    }
  }

  lemma SplicedLast(root: string, cur: string, d: nat, link: string)
    requires d == LastSlash(cur) && link != "" && link[0] != '/'
    ensures Spliced(root, cur, |cur|, link) == cur[..d] + "/" + link + cur[|cur|..]
  {
  }

  lemma Rejoin(cur: string, d: nat, link: string)
    requires d < |cur| && cur[d] == '/'
    ensures cur[..d] + "/" + link + cur[|cur|..] == cur[..d + 1] + link
  {
    var front, rest := cur[..d], cur[|cur|..];
    assert cur[..d + 1] == front + "/";
    assert rest == "";
  }

  // ---------------------------------------------------------------------------
  // Which link the walk finds

  /** A component of `cur` behind `p` ends at `c`. */
  predicate Ends(cur: string, p: nat, c: nat) { p < c <= |cur| && (c == |cur| || cur[c] == '/') }

  /** Neither missing nor a readable link. */
  predicate Passes(node: Node) { node.Plain? || node == Link("") }

  /** The prefix up to `c` passed when it was asked about. */
  ghost predicate Passed(cur: string, fs: Fs, c: nat, t: nat, clock: nat)
    requires c <= |cur|
  {
    exists u: nat :: t <= u < clock && Passes(fs(u, cur[..c]))
  }

  lemma PassedLonger(cur: string, fs: Fs, c: nat, t: nat, u: nat, clock: nat)
    requires c <= |cur| && Passed(cur, fs, c, u, clock) && t <= u
    ensures Passed(cur, fs, c, t, clock)
  {
    var v: nat :| u <= v < clock && Passes(fs(v, cur[..c]));
    assert t <= v < clock;
  }

  /** The search asks about the components in order and stops at the first that does not
      pass: it found a link there, or the component is missing; or all passed. */
  lemma {:induction false} SearchMeans(cur: string, fs: Fs, p: nat, t: nat) returns (stop: nat)
    requires p <= |cur|
    ensures var f := LinkFrom(cur, fs, p, t);
            && (forall c: nat | Ends(cur, p, c) && c < stop :: Passed(cur, fs, c, t, f.clock))
            && (if f.found then
                  && stop == f.cut && Ends(cur, p, stop) && f.link != "" && f.clock > t
                  && fs(f.clock - 1, cur[..stop]) == Link(f.link)
                else stop > |cur| || (Ends(cur, p, stop) && f.clock > t && fs(f.clock - 1, cur[..stop]).Missing?))
            && f.clock >= t
    decreases |cur| - p
  {
    if p == |cur| {
      stop := |cur| + 1;
    } else {
      var cut := NextSlash(cur, p + 1);
      var node := fs(t, cur[..cut]);
      assert forall c: nat | Ends(cur, p, c) :: cut <= c;
      if !Passes(node) {
        stop := cut;
      } else {
        stop := SearchMeans(cur, fs, cut, t + 1);
        var f := LinkFrom(cur, fs, cut, t + 1);
        assert f == LinkFrom(cur, fs, p, t);
        forall c: nat | Ends(cur, p, c) && c < stop ensures Passed(cur, fs, c, t, f.clock) {
          if c == cut {
            assert t <= t < f.clock && Passes(fs(t, cur[..c]));
          } else {
            assert Ends(cur, cut, c);
            PassedLonger(cur, fs, c, t, t + 1, f.clock);
          }
        }
      }
    }
  }

  ghost predicate Still(fs: Fs) { forall t, u, p :: fs(t, p) == fs(u, p) }

  /** `cut` is the first component of `cur` above the rootfs that does not pass. */
  ghost predicate FirstAt(root: string, cur: string, fs: Fs, cut: nat) {
    && Ends(cur, |root|, cut) && !Passes(fs(0, cur[..cut]))
    && forall c: nat | Ends(cur, |root|, c) && c < cut :: Passes(fs(0, cur[..c]))
  }

  ghost predicate AllPass(root: string, cur: string, fs: Fs) {
    forall c: nat | Ends(cur, |root|, c) :: Passes(fs(0, cur[..c]))
  }

  lemma SearchStill(root: string, cur: string, fs: Fs, t: nat)
    requires Still(fs) && |root| <= |cur|
    ensures var f := LinkFrom(cur, fs, |root|, t);
            && (AllPass(root, cur, fs) ==> !f.found)
            && forall cut: nat | FirstAt(root, cur, fs, cut) ::
                 if fs(0, cur[..cut]).Link? then f.found && f.cut == cut && f.link == fs(0, cur[..cut]).target
                 else !f.found
  {
    var f := LinkFrom(cur, fs, |root|, t);
    var stop := SearchMeans(cur, fs, |root|, t);
    forall c: nat | Ends(cur, |root|, c) && c < stop ensures Passes(fs(0, cur[..c])) {
      assert Passed(cur, fs, c, t, f.clock);
      var u: nat :| t <= u < f.clock && Passes(fs(u, cur[..c]));
      assert fs(u, cur[..c]) == fs(0, cur[..c]);
    }
    if stop <= |cur| {
      assert fs(f.clock - 1, cur[..stop]) == fs(0, cur[..stop]);
      assert FirstAt(root, cur, fs, stop);
    }
    forall cut: nat | FirstAt(root, cur, fs, cut) ensures stop == cut {
    }
  }

  /** One walk on a file system that holds still: the first component that does not pass
      is spliced if it is a link and the new path fits; otherwise nothing changes. */
  lemma WalkMeans(root: string, cur: string, fs: Fs, t: nat)
    requires Still(fs) && |root| < |cur|
    ensures AllPass(root, cur, fs) ==> Walk(root, cur, fs, t).path == cur && !Walk(root, cur, fs, t).spliced
    ensures forall cut: nat | FirstAt(root, cur, fs, cut) ::
              var node, w := fs(0, cur[..cut]), Walk(root, cur, fs, t);
              if node.Link? && |Spliced(root, cur, cut, node.target)| < PATH_MAX
              then w.path == Clamp(root, Spliced(root, cur, cut, node.target)) && w.spliced
              else w.path == cur && !w.spliced
  {
    SearchStill(root, cur, fs, t);
  }

  // ---------------------------------------------------------------------------
  // The whole resolution

  /** A path that is there and not a link is left alone. */
  lemma PlainStays(root: string, cur: string, fs: Fs, t: nat)
    requires Still(fs) && Passes(fs(0, cur))
    ensures Chase(RulesOf(root), cur, fs, t, 0) == Chased(cur, true, t + 1)
    ensures Resolved(root, cur, fs, t).path == cur
  {
    assert fs(t, cur) == fs(0, cur);
  }

  /** A final link whose target leads to something that is there and not a link comes to
      the target's components: from the guest's root, or from the directory that holds
      the link. */
  lemma FinalLinkIsFollowed(root: string, cur: string, fs: Fs, t: nat)
    requires Absolute(root) && Starts(root, cur) && cur != root
    requires Still(fs) && fs(0, cur).Link? && Hop(root, cur, fs(0, cur)).Some?
    requires Passes(fs(0, Hop(root, cur, fs(0, cur)).value))
    ensures var link, r := fs(0, cur).target, Resolved(root, cur, fs, t);
            Above(root, r.path) == if Absolute(link) then Resolve([], Comps(GuestSpelling(root, link)))
                                   else Resolve([], Holder(root, cur) + Comps(link))
  {
    var link := fs(0, cur).target;
    OneHop(root, cur, fs, t, Hop(root, cur, fs(0, cur)).value);
    if Absolute(link) { AbsoluteHop(root, cur, link); } else { RelativeHop(root, cur, link); }
  }

  lemma OneHop(root: string, cur: string, fs: Fs, t: nat, next: string)
    requires Still(fs) && Hop(root, cur, fs(0, cur)) == Some(next) && Passes(fs(0, next))
    ensures Resolved(root, cur, fs, t).path == next
  {
    assert fs(t, cur) == fs(0, cur) && fs(t + 1, next) == fs(0, next);
    var r := Chase(RulesOf(root), next, fs, t + 1, 1);
    assert Chase(RulesOf(root), cur, fs, t, 0) == r;
    assert r == Chased(next, true, t + 2);
  }

  /** The case the walk is for: the path as a whole is not found, and an absolute link is
      its first component that does not pass.  Where the new path and all of its
      components are there and no links, it is the result: the target's components
      from the guest's root, and behind them what followed the link. */
  lemma MidPathLinkIsFollowed(root: string, cur: string, fs: Fs, t: nat, cut: nat)
    requires Absolute(root) && Still(fs) && |root| < |cur| && fs(0, cur).Missing?
    requires FirstAt(root, cur, fs, cut) && fs(0, cur[..cut]).Link? && Absolute(fs(0, cur[..cut]).target)
    requires |Spliced(root, cur, cut, fs(0, cur[..cut]).target)| < PATH_MAX
    requires var next := Clamp(root, Spliced(root, cur, cut, fs(0, cur[..cut]).target));
             |root| < |next| && Passes(fs(0, next)) && AllPass(root, next, fs)
    ensures var link, r := fs(0, cur[..cut]).target, Resolved(root, cur, fs, t);
            Above(root, r.path) == Resolve([], Comps(GuestSpelling(root, link)) + Comps(cur[cut..]))
  {
    var link := fs(0, cur[..cut]).target;
    var next := Clamp(root, Spliced(root, cur, cut, link));
    WalkReaches(root, cur, fs, t, cut, next);
    AbsoluteSplice(root, cur, cut, link);
  }

  lemma WalkReaches(root: string, cur: string, fs: Fs, t: nat, cut: nat, next: string)
    requires Still(fs) && |root| < |cur| && fs(0, cur).Missing?
    requires FirstAt(root, cur, fs, cut) && fs(0, cur[..cut]).Link?
    requires |Spliced(root, cur, cut, fs(0, cur[..cut]).target)| < PATH_MAX
    requires next == Clamp(root, Spliced(root, cur, cut, fs(0, cur[..cut]).target))
    requires |root| < |next| && Passes(fs(0, next)) && AllPass(root, next, fs)
    ensures Resolved(root, cur, fs, t).path == next
  {
    var walk := WalkOf(root, fs);
    assert fs(t, cur) == fs(0, cur);
    assert Chase(RulesOf(root), cur, fs, t, 0) == Chased(cur, false, t + 1);
    TwoWalks(walk, root, cur, fs, t + 1, cut, next);
    var w := Intermediate(walk, cur, t + 1, 0);
    PlainStays(root, next, fs, w.clock);
  }

  lemma TwoWalks(walk: (string, nat) -> Walked, root: string, cur: string, fs: Fs, t: nat, cut: nat, next: string)
    requires walk == WalkOf(root, fs) && Still(fs) && |root| < |cur|
    requires FirstAt(root, cur, fs, cut) && fs(0, cur[..cut]).Link?
    requires |Spliced(root, cur, cut, fs(0, cur[..cut]).target)| < PATH_MAX
    requires next == Clamp(root, Spliced(root, cur, cut, fs(0, cur[..cut]).target))
    requires |root| < |next| && AllPass(root, next, fs)
    ensures Intermediate(walk, cur, t, 0).path == next
  {
    WalkMeans(root, cur, fs, t);
    var w := walk(cur, t);
    assert w.path == next && w.spliced;
    WalkMeans(root, next, fs, w.clock);
    var v := walk(next, w.clock);
    assert Intermediate(walk, next, w.clock, 1) == v;
  }

  /** A walk that splices nothing gives its path back. */
  ghost predicate KeepsPath(walk: (string, nat) -> Walked) {
    forall c: string, v: nat :: !walk(c, v).spliced ==> walk(c, v).path == c
  }

  lemma {:induction false} WalksEnd(walk: (string, nat) -> Walked, cur: string, t: nat, hop: nat) returns (u: nat)
    requires hop <= HOPS && KeepsPath(walk)
    ensures var w := Intermediate(walk, cur, t, hop);
            !w.spliced ==> walk(w.path, u) == w
    decreases HOPS - hop
  {
    u := t;
    if hop < HOPS && walk(cur, t).spliced {
      u := WalksEnd(walk, walk(cur, t).path, walk(cur, t).clock, hop + 1);
    }
  }

  /** Unless all sixteen walks are used, the path they end at has no link before the first
      missing component, or only one whose target does not fit. */
  lemma NoLinkIsLeft(root: string, cur: string, fs: Fs, t: nat, cut: nat)
    requires Still(fs)
    ensures var w := Intermediate(WalkOf(root, fs), cur, t, 0);
            !w.spliced && FirstAt(root, w.path, fs, cut) && fs(0, w.path[..cut]).Link? ==>
              |Spliced(root, w.path, cut, fs(0, w.path[..cut]).target)| >= PATH_MAX
  {
    var walk := WalkOf(root, fs);
    var u := WalksEnd(walk, cur, t, 0);
    var w := Intermediate(walk, cur, t, 0);
    if !w.spliced && FirstAt(root, w.path, fs, cut) { WalkMeans(root, w.path, fs, u); }
  }

  /** `/r/lib/x` where `/lib` is a link to `/usr/lib` inside the rootfs `/r`. */
  lemma LibIsFollowed(fs: Fs, t: nat)
    requires Still(fs) && fs(0, "/r/lib/x").Missing? && fs(0, "/r/lib") == Link("/usr/lib")
    requires fs(0, "/r/usr") == Plain && fs(0, "/r/usr/lib") == Plain && fs(0, "/r/usr/lib/x") == Plain
    ensures Resolved("/r", "/r/lib/x", fs, t).path == "/r/usr/lib/x"
  {
    var root: string, cur: string, next: string := "/r", "/r/lib/x", "/r/usr/lib/x";
    assert cur[..6] == "/r/lib" && cur[6..] == "/x" && cur[6] == '/';
    assert FirstAt(root, cur, fs, 6);
    assert Spliced(root, cur, 6, "/usr/lib") == next;
    LibIsCanonical();
    NextPasses(fs);
    WalkReaches(root, cur, fs, t, 6, next);
  }

  lemma NextPasses(fs: Fs)
    requires fs(0, "/r/usr") == Plain && fs(0, "/r/usr/lib") == Plain && fs(0, "/r/usr/lib/x") == Plain
    ensures AllPass("/r", "/r/usr/lib/x", fs)
  {
    var next: string := "/r/usr/lib/x";
    assert next[..6] == "/r/usr" && next[..10] == "/r/usr/lib" && next[..12] == next;
    forall c: nat | Ends(next, 2, c) ensures c == 6 || c == 10 || c == 12 {
    }
  }

  lemma LibIsCanonical()
    ensures Clamp("/r", "/r/usr/lib/x") == "/r/usr/lib/x"
  {
    var a: seq<string> := ["usr"];
    var b, c := a + ["lib"], a + ["lib"] + ["x"];
    assert Join(a) == "/" + "usr" by { JoinSnoc([], "usr"); }
    assert Join(b) == "/" + "usr" + "/" + "lib" by { JoinSnoc(a, "lib"); }
    assert Join(c) == "/" + "usr" + "/" + "lib" + "/" + "x" by { JoinSnoc(b, "x"); }
    assert "/r" + Join(c) == "/r/usr/lib/x";
    CleanStays("/r", c);
  }

  lemma CleanStays(root: string, stack: seq<string>)
    requires Absolute(root) && Clean(stack)
    ensures Clamp(root, root + Join(stack)) == root + Join(stack)
  {
    var p := root + Join(stack);
    JoinShape(stack);
    CompsOfJoin(stack);
    ResolveOfClean([], stack);
    assert p[|root|..] == Join(stack) && p[..|root|] == root && [] + stack == stack;
    CanonIsRest(p, |root|);
  }
}
