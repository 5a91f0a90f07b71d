/** Following symbolic links inside the rootfs: the translated path in its buffer,
    the final-component chase, the intermediate-component walk, and an arbitrary
    file system that may answer differently at every call. */
module LinkChase {
  import opened Common
  import opened PathCanon
  import opened PathTranslate

  const HOPS: nat := 16

  /** What lstat and, for a link, readlink say of a path.  A link that cannot be
      read has an empty target. */
  datatype Node = Missing | Plain | Link(target: string)

  /** The file system at each moment: the n-th query and the path asked about. */
  type Fs = (nat, string) -> Node

  /** A link's target is a string that fits the buffer readlink is given. */
  ghost predicate Readable(fs: Fs) {
    forall t, p :: fs(t, p).Link? ==> |fs(t, p).target| < PATH_MAX && '\0' !in fs(t, p).target
  }

  /** The rootfs is an absolute directory other than "/", and never a link. */
  ghost predicate Rooted(root: string, fs: Fs) {
    |root| > 1 && Absolute(root) && '\0' !in root && forall t :: fs(t, root).Plain?
  }

  /** `path` starts with `root` at a component boundary. */
  predicate Starts(root: string, path: string) { AtBoundary(path, |root|) && path[..|root|] == root }

  /** `path` starts with `root`, is canonical above it, and so has no "." or ".."
      there. */
  ghost predicate Contained(root: string, path: string) {
    && Starts(root, path)
    && Canon(path, |root|) == path && Clean(Comps(path[|root|..]))
  }

  lemma CanonContains(root: string, path: string)
    requires Starts(root, path)
    ensures Contained(root, Canon(path, |root|)) && |Canon(path, |root|)| <= |path|
  {
    CanonIsClean(path, |root|);
    CanonIdempotent(path, |root|);
    CanonNeverLengthens(path, |root|);
  }

  /** A contained path is in the rootfs, and nothing in it leads out again. */
  lemma ContainedMeans(root: string, path: string)
    requires Contained(root, path)
    ensures PathWithin(root, path) && ".." !in Comps(path[|root|..])
  {
    var cs := Comps(path[|root|..]);
    assert forall k | 0 <= k < |cs| :: cs[k] != "..";
  }

  // ---------------------------------------------------------------------------
  // The buffer

  /** The string in a buffer: everything before the first NUL. */
  function Text(buf: seq<char>): string {
    if buf == [] || buf[0] == '\0' then "" else [buf[0]] + Text(buf[1..])
  }

  lemma {:induction false} TextOf(buf: seq<char>, s: string)
    requires IsCString(buf, s)
    ensures Text(buf) == s
  {
    if s == "" {
    } else {
      assert buf[0] == s[0] && s[0] in s;
      TextOf(buf[1..], s[1..]);
    }
  }

  /** The buffer holds a string contained in the rootfs. */
  ghost predicate Holds(out: array<char>, root: string)
    reads out
  {
    out.Length == PATH_MAX && IsCString(out[..], Text(out[..])) && Contained(root, Text(out[..]))
  }

  /** Overwrites the string from position `at` on. */
  method Splice(out: array<char>, at: nat, t: string, ghost s: string)
    requires IsCString(out[..], s) && at <= |s| && at + |t| + 1 <= out.Length && '\0' !in t
    modifies out
    ensures IsCString(out[..], s[..at] + t)
  {
    forall k | 0 <= k < |t| { out[at + k] := t[k]; }
    out[at + |t|] := '\0';
    ghost var r := s[..at] + t;
    assert out[..|r|] == r;
  }

  /** Replaces the whole string and canonicalizes it above the rootfs. */
  method Adopt(out: array<char>, root: string, at: nat, t: string)
    requires out.Length == PATH_MAX && IsCString(out[..], Text(out[..])) && '\0' !in t
    requires at <= |Text(out[..])| && at + |t| + 1 <= PATH_MAX
    requires Starts(root, Text(out[..])[..at] + t)
    modifies out
    ensures Holds(out, root) && Text(out[..]) == Canon(old(Text(out[..]))[..at] + t, |root|)
  {
    ghost var s := Text(out[..])[..at] + t;
    Splice(out, at, t, Text(out[..]));
    DotdotCanon(out, |root|, s);
    CanonContains(root, s);
    TextOf(out[..], Canon(s, |root|));
  }

  function LastSlash(s: string): (i: int)
    ensures -1 <= i < |s|
    ensures i >= 0 ==> s[i] == '/'
    ensures forall k | i < k < |s| :: s[k] != '/'
  {
    if s == "" then -1 else if s[|s| - 1] == '/' then |s| - 1 else LastSlash(s[..|s| - 1])
  }

  function NextSlash(s: string, from: nat): (i: nat)
    requires from <= |s|
    ensures from <= i <= |s| && (i < |s| ==> s[i] == '/')
    ensures forall k | from <= k < i :: s[k] != '/'
    decreases |s| - from
  {
    if from == |s| || s[from] == '/' then from else NextSlash(s, from + 1)
  }

  lemma BelowRoot(root: string, cur: string)
    requires Absolute(root) && Starts(root, cur) && cur != root
    ensures |root| < |cur| && cur[|root|] == '/' && LastSlash(cur) >= |root|
  {
    assert cur[..|root|] + cur[|root|..] == cur;
  }

  lemma SpliceStays(root: string, cur: string, at: nat, t: string)
    requires Absolute(root) && Starts(root, cur) && |root| < at <= |cur|
    ensures Starts(root, cur[..at] + t)
  {
    assert (cur[..at] + t)[..|root|] == cur[..|root|];
  }

  lemma PrefixStays(root: string, t: string)
    requires Absolute(root) && Absolute(t)
    ensures Starts(root, root + t)
  {
  }

  lemma WithinStays(root: string, t: string)
    requires Absolute(root) && PathWithin(root, t)
    ensures Starts(root, t)
  {
  }

  // ---------------------------------------------------------------------------
  // The chase of the final component

  /** The path after one hop: a relative target replaces the last component, a
      target spelled under the rootfs replaces everything, any other is put under
      the rootfs. */
  function Followed(root: string, cur: string, link: string): string
    requires link != ""
  {
    if link[0] != '/' then cur[..LastSlash(cur) + 1] + link else if PathWithin(root, link) then link else root + link
  }

  /** A new path, canonicalized above the rootfs. */
  function Clamp(root: string, s: string): string { if |root| <= |s| then Canon(s, |root|) else s }

  /** Where the new path parts from the old one, and how it goes on. */
  method NewPath(root: string, cur: string, link: string) returns (at: nat, t: string)
    requires link != ""
    ensures at <= |cur| && cur[..at] + t == Followed(root, cur, link) && (t == link || t == root + link)
  {
    at, t := 0, root + link;
    if link[0] != '/' {
      at, t := LastSlash(cur) + 1, link;
    } else if PathWithin(root, link) {
      t := link;
    }
  }

  method FollowOnce(root: string, out: array<char>, link: string)
    requires Absolute(root) && '\0' !in root && Holds(out, root) && Text(out[..]) != root
    requires link != "" && '\0' !in link && |Followed(root, Text(out[..]), link)| < PATH_MAX
    modifies out
    ensures Holds(out, root) && Text(out[..]) == Clamp(root, Followed(root, old(Text(out[..])), link))
  {
    var cur := Text(out[..]);
    var at, t := NewPath(root, cur, link);
    FollowedStarts(root, cur, link);
    Adopt(out, root, at, t);
  }

  lemma FollowedStarts(root: string, cur: string, link: string)
    requires Absolute(root) && Starts(root, cur) && cur != root && link != ""
    ensures Starts(root, Followed(root, cur, link))
  {
    if link[0] != '/' {
      BelowRoot(root, cur);
      SpliceStays(root, cur, LastSlash(cur) + 1, link);
    } else if PathWithin(root, link) {
      WithinStays(root, link);
    } else {
      PrefixStays(root, link);
    }
  }

  /** Nothing more to do at `path`: not a link, an unreadable one, or one whose
      target does not fit the buffer. */
  predicate Settled(root: string, path: string, node: Node) {
    node.Plain? || (node.Link? && (node.target == "" || |Followed(root, path, node.target)| >= PATH_MAX))
  }

  datatype Chased = Chased(path: string, clean: bool, clock: nat)

  /** After the last hop an absolute target is followed once more, to keep the
      kernel inside the rootfs. */
  function AfterLast(root: string, cur: string, node: Node): string {
    if node.Link? && node.target != "" && node.target[0] == '/' && !PathWithin(root, node.target)
       && |root| + |node.target| + 1 <= PATH_MAX
    then Clamp(root, Followed(root, cur, node.target)) else cur
  }

  /** Where one hop leads, or None when there is nothing more to do. */
  function Hop(root: string, cur: string, node: Node): Option<string> {
    if node.Missing? || Settled(root, cur, node) then None else Some(Clamp(root, Followed(root, cur, node.target)))
  }

  /** The two rules of a chase: a hop, and the last look. */
  datatype Rules = Rules(hop: (string, Node) -> Option<string>, last: (string, Node) -> string)

  function RulesOf(root: string): Rules {
    Rules((cur, node) => Hop(root, cur, node), (cur, node) => AfterLast(root, cur, node))
  }

  /** The chase from `cur` on, `hop` hops being taken and `t` queries made. */
  ghost function Chase(rules: Rules, cur: string, fs: Fs, t: nat, hop: nat): Chased
    decreases HOPS - hop
  {
    var node := fs(t, cur);
    if hop >= HOPS then Chased(rules.last(cur, node), true, t + 1)
    else if node.Missing? then Chased(cur, false, t + 1)
    else
      match rules.hop(cur, node)
      case None => Chased(cur, true, t + 1)
      case Some(next) => Chase(rules, next, fs, t + 1, hop + 1)
  }

  /** The chase stays within its budget; a miss is one of the path it gives back,
      and a path reported clean within the budget has nothing left to follow. */
  lemma {:induction false} ChaseEnds(rules: Rules, cur: string, fs: Fs, t: nat, hop: nat)
    requires hop <= HOPS
    ensures var r := Chase(rules, cur, fs, t, hop);
            && t < r.clock <= t + (HOPS - hop) + 1
            && (!r.clean ==> fs(r.clock - 1, r.path).Missing?)
            && (r.clean && r.clock <= t + (HOPS - hop) ==> rules.hop(r.path, fs(r.clock - 1, r.path)).None?)
    decreases HOPS - hop
  {
    var node := fs(t, cur);
    if hop < HOPS && !node.Missing? && rules.hop(cur, node).Some? {
      ChaseEnds(rules, rules.hop(cur, node).value, fs, t + 1, hop + 1);
    }
  }

  /** On a file system that holds still, a chase that ended within its budget has
      nothing left to do: chasing its result again is one query and no change. */
  lemma {:induction false} ChaseIsFinal(rules: Rules, cur: string, fs: Fs, t: nat, hop: nat, u: nat)
    requires forall a, b, p :: fs(a, p) == fs(b, p)
    requires var r := Chase(rules, cur, fs, t, hop); r.clean && r.clock <= t + (HOPS - hop)
    ensures var r := Chase(rules, cur, fs, t, hop); Chase(rules, r.path, fs, u, 0) == Chased(r.path, true, u + 1)
    decreases HOPS - hop
  {
    var node := fs(t, cur);
    assert node == fs(u, cur);
    if hop < HOPS && rules.hop(cur, node).Some? {
      ChaseIsFinal(rules, rules.hop(cur, node).value, fs, t + 1, hop + 1, u);
    }
  }

  /** One hop of the chase: ends it, or goes on with a new path. */
  method ChaseHop(root: string, out: array<char>, fs: Fs, t: nat, ghost hop: nat) returns (done: bool, clean: bool)
    requires Rooted(root, fs) && Readable(fs) && Holds(out, root) && hop < HOPS
    modifies out
    ensures Holds(out, root)
    ensures Chase(RulesOf(root), old(Text(out[..])), fs, t, hop)
         == if done then Chased(Text(out[..]), clean, t + 1)
            else Chase(RulesOf(root), Text(out[..]), fs, t + 1, hop + 1)
  {
    var cur := Text(out[..]);
    var node := fs(t, cur);
    if node.Missing? { return true, false; }
    if Settled(root, cur, node) { return true, true; }
    FollowOnce(root, out, node.target);
    return false, true;
  }

  /** The last look after the hops are used up. */
  method ChaseLast(root: string, out: array<char>, fs: Fs, t: nat)
    requires Rooted(root, fs) && Readable(fs) && Holds(out, root)
    modifies out
    ensures Holds(out, root)
    ensures Chase(RulesOf(root), old(Text(out[..])), fs, t, HOPS) == Chased(Text(out[..]), true, t + 1)
  {
    var node := fs(t, Text(out[..]));
    if node.Link? && node.target != "" && node.target[0] == '/' && !PathWithin(root, node.target)
       && |root| + |node.target| + 1 <= PATH_MAX {
      FollowOnce(root, out, node.target);
    }
  }

  /** Follows the final component for at most sixteen hops.  The path never leaves
      the rootfs. */
  method ChaseFinal(root: string, out: array<char>, fs: Fs, start: nat) returns (clean: bool, clock: nat)
    requires Rooted(root, fs) && Readable(fs) && Holds(out, root)
    modifies out
    ensures Holds(out, root)
    ensures Chased(Text(out[..]), clean, clock) == Chase(RulesOf(root), old(Text(out[..])), fs, start, 0)
  {
    clock := start;
    ghost var goal := Chase(RulesOf(root), Text(out[..]), fs, start, 0);
    for hop := 0 to HOPS
      invariant Holds(out, root) && Chase(RulesOf(root), Text(out[..]), fs, clock, hop) == goal
    {
      var done;
      done, clean := ChaseHop(root, out, fs, clock, hop);
      clock := clock + 1;
      if done { return; }
    }
    ChaseLast(root, out, fs, clock);
    return true, clock + 1;
  }

  // ---------------------------------------------------------------------------
  // The walk over the intermediate components

  /** The path with the link at its first `cut` bytes spliced in; a relative target
      goes after the link's own name, or after the last slash when the link is the
      final component. */
  function Spliced(root: string, cur: string, cut: nat, link: string): string
    requires cut <= |cur| && link != ""
  {
    var rest := cur[cut..];
    if link[0] != '/' then
      var dirlen := if cut < |cur| then cut else if LastSlash(cur) >= 0 then LastSlash(cur) else 0;
      cur[..dirlen] + "/" + link + rest
    else if PathWithin(root, link) then link + rest
    else root + link + rest
  }

  lemma SplicedStays(root: string, cur: string, cut: nat, link: string)
    requires Absolute(root) && Starts(root, cur) && |root| < cut <= |cur| && (cut < |cur| ==> cur[cut] == '/')
    requires link != ""
    ensures Starts(root, Spliced(root, cur, cut, link))
  {
    var rest := cur[cut..];
    if link[0] != '/' {
      BelowRoot(root, cur);
      var dirlen := if cut < |cur| then cut else LastSlash(cur);
      RelativeStays(root, cur, dirlen, link + rest);
      assert cur[..dirlen] + "/" + link + rest == cur[..dirlen] + "/" + (link + rest);
    } else if PathWithin(root, link) {
      assert (link + rest)[..|root|] == link[..|root|] == root;
    } else {
      PrefixStays(root, link + rest);
      assert root + link + rest == root + (link + rest);
    }
  }

  lemma RelativeStays(root: string, cur: string, dirlen: nat, t: string)
    requires Absolute(root) && Starts(root, cur) && |root| <= dirlen < |cur| + 1
    requires |root| < dirlen ==> cur[|root|] == '/'
    ensures Starts(root, cur[..dirlen] + "/" + t)
  {
    var s := cur[..dirlen] + "/" + t;
    assert s[..|root|] == cur[..|root|] == root;
  }

  lemma SplicedNulFree(root: string, cur: string, cut: nat, link: string)
    requires cut <= |cur| && link != "" && '\0' !in root && '\0' !in cur && '\0' !in link
    ensures '\0' !in Spliced(root, cur, cut, link)
  {
  }

  datatype Found = Found(found: bool, cut: nat, link: string, clock: nat)

  /** The first link among the prefixes of `cur` that end behind `p`, up to the
      first that is missing. */
  ghost function LinkFrom(cur: string, fs: Fs, p: nat, t: nat): Found
    decreases |cur| - p
  {
    if p >= |cur| then Found(false, 0, "", t)
    else
      var cut := NextSlash(cur, p + 1);
      var node := fs(t, cur[..cut]);
      if node.Missing? then Found(false, 0, "", t + 1)
      else if node.Link? && node.target != "" then Found(true, cut, node.target, t + 1)
      else LinkFrom(cur, fs, cut, t + 1)
  }

  /** Asks about each component of `cur` below the rootfs, outermost first, until
      one is missing or is a link. */
  method FindLink(root: string, cur: string, fs: Fs, start: nat)
    returns (found: bool, cut: nat, link: string, clock: nat)
    requires |root| < |cur| && cur[|root|] == '/' && Readable(fs)
    ensures found ==> |root| < cut <= |cur| && (cut < |cur| ==> cur[cut] == '/')
    ensures found ==> link != "" && '\0' !in link
    ensures Found(found, cut, link, clock) == LinkFrom(cur, fs, |root|, start)
  {
    clock, found, cut, link := start, false, 0, "";
    var p := |root|;
    while p < |cur|
      invariant |root| <= p <= |cur|
      invariant LinkFrom(cur, fs, p, clock) == LinkFrom(cur, fs, |root|, start)
    {
      var next := NextSlash(cur, p + 1);
      var node := fs(clock, cur[..next]);
      clock := clock + 1;
      if node.Missing? { return; }
      if node.Link? && node.target != "" { return true, next, node.target, clock; }
      p := next;
    }
  }

  datatype Walked = Walked(path: string, spliced: bool, clock: nat)

  ghost function Walk(root: string, cur: string, fs: Fs, t: nat): Walked {
    if cur == root then Walked(cur, false, t + 1)
    else
      var f := LinkFrom(cur, fs, |root|, t);
      if f.found && f.link != "" && f.cut <= |cur| && |Spliced(root, cur, f.cut, f.link)| < PATH_MAX
      then Walked(Clamp(root, Spliced(root, cur, f.cut, f.link)), true, f.clock)
      else Walked(cur, false, f.clock)
  }

  /** The walks from the `hop`-th on, until one splices nothing. */
  ghost function Intermediate(walk: (string, nat) -> Walked, cur: string, t: nat, hop: nat): Walked
    decreases HOPS - hop
  {
    if hop >= HOPS then Walked(cur, true, t)
    else
      var w := walk(cur, t);
      if w.spliced then Intermediate(walk, w.path, w.clock, hop + 1) else w
  }

  ghost function WalkOf(root: string, fs: Fs): (string, nat) -> Walked {
    (cur: string, t: nat) => Walk(root, cur, fs, t)
  }

  /** The final chase and, after a miss, the walk and a second chase. */
  ghost function Resolved(root: string, cur: string, fs: Fs, t: nat): Chased {
    var first := Chase(RulesOf(root), cur, fs, t, 0);
    if first.clean then first
    else
      var w := Intermediate(WalkOf(root, fs), first.path, first.clock, 0);
      Chase(RulesOf(root), w.path, fs, w.clock, 0)
  }

  method SpliceLink(root: string, out: array<char>, cut: nat, link: string)
    requires Absolute(root) && '\0' !in root && Holds(out, root) && link != "" && '\0' !in link
    requires |root| < cut <= |Text(out[..])| && (cut < |Text(out[..])| ==> Text(out[..])[cut] == '/')
    requires |Spliced(root, Text(out[..]), cut, link)| < PATH_MAX
    modifies out
    ensures Holds(out, root) && Text(out[..]) == Clamp(root, Spliced(root, old(Text(out[..])), cut, link))
  {
    var cur := Text(out[..]);
    var merged := Spliced(root, cur, cut, link);
    SplicedStays(root, cur, cut, link);
    SplicedNulFree(root, cur, cut, link);
    assert cur[..0] + merged == merged;
    Adopt(out, root, 0, merged);
  }

  /** One walk from the rootfs down: splices the first link it meets and reports
      it, or leaves the path alone. */
  method WalkOnce(root: string, out: array<char>, fs: Fs, start: nat) returns (spliced: bool, clock: nat)
    requires Rooted(root, fs) && Readable(fs) && Holds(out, root)
    modifies out
    ensures Holds(out, root)
    ensures Walked(Text(out[..]), spliced, clock) == WalkOf(root, fs)(old(Text(out[..])), start)
  {
    var cur := Text(out[..]);
    if cur == root {
      // only the rootfs itself is left to look at, and it is not a link
      return false, start + 1;
    }
    BelowRoot(root, cur);
    var cut, link;
    spliced, cut, link, clock := FindLink(root, cur, fs, start);
    if spliced {
      if |Spliced(root, cur, cut, link)| >= PATH_MAX { return false, clock; }
      SpliceLink(root, out, cut, link);
    }
  }

  method WalkHop(root: string, out: array<char>, fs: Fs, t: nat, ghost hop: nat) returns (spliced: bool, clock: nat)
    requires Rooted(root, fs) && Readable(fs) && Holds(out, root) && hop < HOPS
    modifies out
    ensures Holds(out, root)
    ensures Intermediate(WalkOf(root, fs), old(Text(out[..])), t, hop)
         == if spliced then Intermediate(WalkOf(root, fs), Text(out[..]), clock, hop + 1)
            else Walked(Text(out[..]), false, clock)
  {
    spliced, clock := WalkOnce(root, out, fs, t);
  }

  /** At most sixteen walks, stopping at the first that splices nothing. */
  method ResolveIntermediate(root: string, out: array<char>, fs: Fs, start: nat) returns (clock: nat)
    requires Rooted(root, fs) && Readable(fs) && Holds(out, root)
    modifies out
    ensures Holds(out, root)
    ensures var w := Intermediate(WalkOf(root, fs), old(Text(out[..])), start, 0);
            Text(out[..]) == w.path && clock == w.clock
  {
    clock := start;
    ghost var walk := WalkOf(root, fs);
    ghost var goal := Intermediate(walk, Text(out[..]), start, 0);
    for hop := 0 to HOPS
      invariant Holds(out, root) && Intermediate(walk, Text(out[..]), clock, hop) == goal
    {
      var spliced;
      spliced, clock := WalkHop(root, out, fs, clock, hop);
      if !spliced {
        assert goal == Walked(Text(out[..]), false, clock);
        return;
      }
    }
    assert goal == Walked(Text(out[..]), true, clock);
  }

  /** The final chase and, after a miss, the walk and a second chase. */
  method ResolveLinks(root: string, out: array<char>, fs: Fs, start: nat) returns (clock: nat)
    requires Rooted(root, fs) && Readable(fs) && Holds(out, root)
    modifies out
    ensures Holds(out, root)
    ensures var r := Resolved(root, old(Text(out[..])), fs, start); Text(out[..]) == r.path && clock == r.clock
  {
    var clean;
    clean, clock := ChaseFinal(root, out, fs, start);
    if clean { return; }
    clock := ResolveIntermediate(root, out, fs, clock);
    clean, clock := ChaseFinal(root, out, fs, clock);
  }

  // ---------------------------------------------------------------------------
  // Translation into the caller's buffer

  method Fill(out: array<char>, prefix: string, rest: string)
    requires out.Length == PATH_MAX && |prefix| + |rest| + 1 <= PATH_MAX
    requires Absolute(prefix) && (rest == "" || rest[0] == '/') && '\0' !in prefix && '\0' !in rest
    modifies out
    ensures IsCString(out[..], Canon(prefix + rest, |prefix|))
  {
    var s := prefix + rest;
    forall k | 0 <= k < |s| { out[k] := s[k]; }
    out[|s|] := '\0';
    assert out[..|s|] == s;
    DotdotCanon(out, |prefix|, s);
  }

  /** Translates `path` into `out`.  Without link following, or where a bound path is
      not a link, the buffer holds the translation; whatever links there are and
      however they change, a path that takes the rootfs branch ends contained in the
      rootfs. */
  method TranslateInto(cfg: Config, path: string, out: array<char>, follow: bool, fs: Fs) returns (done: bool)
    requires Loaded(cfg) && '\0' !in path && out.Length == PATH_MAX
    requires follow ==> Rooted(cfg.rootfs, fs) && Readable(fs)
    modifies out
    ensures done <==> Translate(cfg, path).Some?
    ensures done && !follow ==> IsCString(out[..], Translate(cfg, path).value)
    ensures done && RuleFor(cfg, path).ByBind? && fs(0, Translate(cfg, path).value).Plain? ==>
              IsCString(out[..], Translate(cfg, path).value)
    ensures RuleFor(cfg, path).ByRootfs? ==> done && Holds(out, cfg.rootfs)
    ensures follow && RuleFor(cfg, path).ByRootfs? ==>
              Text(out[..]) == Resolved(cfg.rootfs, Translate(cfg, path).value, fs, 0).path
  {
    if !Absolute(path) || HostSide(cfg, path) { return false; }
    var j := FindBind(cfg.binds, path);
    if j < |cfg.binds| {
      var b := cfg.binds[j];
      if |b.host| + (|path| - |b.guest|) + 1 > PATH_MAX { return false; }
      Fill(out, b.host, path[|b.guest|..]);
      return true;
    }
    var pass := IsPassedThrough(cfg, path);
    if pass || cfg.rootfs == "" || |cfg.rootfs| + |path| + 1 > PATH_MAX { return false; }
    Fill(out, cfg.rootfs, path);
    TextOf(out[..], Canon(cfg.rootfs + path, |cfg.rootfs|));
    PrefixStays(cfg.rootfs, path);
    CanonContains(cfg.rootfs, cfg.rootfs + path);
    if follow {
      var clock := ResolveLinks(cfg.rootfs, out, fs, 0);
    }
    return true;
  }

  // ---------------------------------------------------------------------------
  // Containment, for every file system

  /** Contained, and short enough for the buffer. */
  ghost predicate Fit(root: string, path: string) { Contained(root, path) && |path| < PATH_MAX }

  lemma FollowedStays(root: string, cur: string, link: string)
    requires Absolute(root) && Starts(root, cur) && cur != root && link != "" && |Followed(root, cur, link)| < PATH_MAX
    ensures Fit(root, Clamp(root, Followed(root, cur, link)))
  {
    FollowedStarts(root, cur, link);
    CanonContains(root, Followed(root, cur, link));
  }

  lemma HopStays(root: string, cur: string, node: Node)
    requires Absolute(root) && Fit(root, cur) && (cur == root ==> node.Plain?)
    ensures var rules := RulesOf(root);
            && (rules.hop(cur, node).Some? ==> Fit(root, rules.hop(cur, node).value))
            && Fit(root, rules.last(cur, node))
  {
    if node.Link? && node.target != "" && |Followed(root, cur, node.target)| < PATH_MAX {
      FollowedStays(root, cur, node.target);
    }
  }

  /** What every hop keeps, the chase keeps. */
  lemma {:induction false} ChaseKeeps(rules: Rules, inside: string -> bool, cur: string, fs: Fs, t: nat, hop: nat)
    requires inside(cur)
    requires forall c, u: nat | inside(c) ::
               && (rules.hop(c, fs(u, c)).Some? ==> inside(rules.hop(c, fs(u, c)).value))
               && inside(rules.last(c, fs(u, c)))
    ensures inside(Chase(rules, cur, fs, t, hop).path)
    decreases HOPS - hop
  {
    var node := fs(t, cur);
    if hop < HOPS && !node.Missing? && rules.hop(cur, node).Some? {
      ChaseKeeps(rules, inside, rules.hop(cur, node).value, fs, t + 1, hop + 1);
    }
  }

  lemma ChaseStays(root: string, cur: string, fs: Fs, t: nat)
    requires Rooted(root, fs) && Fit(root, cur)
    ensures Fit(root, Chase(RulesOf(root), cur, fs, t, 0).path)
  {
    var rules, inside := RulesOf(root), (p: string) => Fit(root, p);
    forall c, u: nat | inside(c)
      ensures (rules.hop(c, fs(u, c)).Some? ==> inside(rules.hop(c, fs(u, c)).value)) && inside(rules.last(c, fs(u, c)))
    {
      HopStays(root, c, fs(u, c));
    }
    ChaseKeeps(rules, inside, cur, fs, t, 0);
  }

  /** The link found is below the rootfs, after at most one query a byte. */
  lemma {:induction false} LinkIsBelow(root: string, cur: string, fs: Fs, p: nat, t: nat)
    requires |root| <= p <= |cur|
    ensures var f := LinkFrom(cur, fs, p, t);
            && (f.found ==> |root| < f.cut <= |cur| && (f.cut < |cur| ==> cur[f.cut] == '/') && f.link != "")
            && t <= f.clock <= t + |cur| - p && (p < |cur| ==> t < f.clock)
    decreases |cur| - p
  {
    if p < |cur| { LinkIsBelow(root, cur, fs, NextSlash(cur, p + 1), t + 1); }
  }

  lemma WalkStays(root: string, cur: string, fs: Fs, t: nat)
    requires Absolute(root) && Fit(root, cur)
    ensures var w := WalkOf(root, fs)(cur, t); Fit(root, w.path) && t < w.clock <= t + PATH_MAX
  {
    if cur != root {
      BelowRoot(root, cur);
      var f := LinkFrom(cur, fs, |root|, t);
      LinkIsBelow(root, cur, fs, |root|, t);
      if f.found {
        SplicedStays(root, cur, f.cut, f.link);
        CanonContains(root, Spliced(root, cur, f.cut, f.link));
      }
    }
  }

  lemma {:induction false} IntermediateKeeps(walk: (string, nat) -> Walked, inside: string -> bool,
                                                   cur: string, t: nat, hop: nat)
    requires inside(cur) && hop <= HOPS
    requires forall c, u: nat | inside(c) :: inside(walk(c, u).path) && u < walk(c, u).clock <= u + PATH_MAX
    ensures var w := Intermediate(walk, cur, t, hop);
            inside(w.path) && t <= w.clock <= t + (HOPS - hop) * PATH_MAX
    decreases HOPS - hop
  {
    if hop < HOPS && walk(cur, t).spliced {
      IntermediateKeeps(walk, inside, walk(cur, t).path, walk(cur, t).clock, hop + 1);
    }
  }

  lemma IntermediateStays(root: string, cur: string, fs: Fs, t: nat)
    requires Absolute(root) && Fit(root, cur)
    ensures var w := Intermediate(WalkOf(root, fs), cur, t, 0); Fit(root, w.path) && t <= w.clock <= t + HOPS * PATH_MAX
  {
    var walk, inside := WalkOf(root, fs), (p: string) => Fit(root, p);
    forall c, u: nat | inside(c)
      ensures inside(walk(c, u).path) && u < walk(c, u).clock <= u + PATH_MAX
    {
      WalkStays(root, c, fs, u);
    }
    IntermediateKeeps(walk, inside, cur, t, 0);
  }

  /** Whatever links there are, however they point and however they change from
      query to query, a path contained in the rootfs is resolved, in a bounded
      number of queries, to one that is. */
  lemma ResolvedStaysInside(root: string, cur: string, fs: Fs, t: nat)
    requires Rooted(root, fs) && Fit(root, cur)
    ensures var r := Resolved(root, cur, fs, t);
            && Contained(root, r.path) && PathWithin(root, r.path) && ".." !in Comps(r.path[|root|..])
            && t < r.clock <= t + 2 * (HOPS + 1) + HOPS * PATH_MAX
  {
    var rules := RulesOf(root);
    var first := Chase(rules, cur, fs, t, 0);
    ChaseStays(root, cur, fs, t);
    ChaseEnds(rules, cur, fs, t, 0);
    var w := Intermediate(WalkOf(root, fs), first.path, first.clock, 0);
    IntermediateStays(root, first.path, fs, first.clock);
    ChaseStays(root, w.path, fs, w.clock);
    ChaseEnds(rules, w.path, fs, w.clock, 0);
    ContainedMeans(root, Resolved(root, cur, fs, t).path);
  }

  /** Why the rootfs itself must not be a link: a relative target replaces the
      rootfs' own last name, and stays inside only if it starts with that name. */
  lemma RootLinkStays(dir: string, name: string, link: string)
    requires dir != "" && dir[|dir| - 1] == '/' && '/' !in name && link != "" && link[0] != '/'
    ensures PathWithin(dir + name, Followed(dir + name, dir + name, link)) <==> PathWithin(name, link)
  {
    var root := dir + name;
    assert LastSlash(root) == |dir| - 1 by {
      assert root[|dir| - 1] == '/';
      assert forall k | |dir| <= k < |root| :: root[k] == name[k - |dir|] && root[k] in name;
    }
    assert root[..|dir|] == dir;
    SharedPrefix(dir, name, link);
  }

  lemma SharedPrefix(a: string, b: string, x: string)
    ensures PathWithin(a + b, a + x) <==> PathWithin(b, x)
  {
    if |b| <= |x| {
      assert (a + x)[..|a + b|] == a + x[..|b|];
      assert a + b <= a + x <==> b <= x by {
        if a + b <= a + x { assert b == (a + b)[|a|..] == (a + x)[..|a + b|][|a|..] == x[..|b|]; }
      }
      if |b| < |x| { assert (a + x)[|a + b|] == x[|b|]; }
    }
  }
}
