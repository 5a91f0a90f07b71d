/** Guest-to-host path translation and its reverse, without following links: the
    bind table sorted longest guest first, the pass-through prefixes and the
    rootfs. */
module PathTranslate {
  import opened Common
  import opened PathCanon

  datatype Bind = Bind(host: string, guest: string)
  datatype Config = Config(rootfs: string, binds: seq<Bind>, passthrough: seq<string>)

  predicate Absolute(p: string) { p != "" && p[0] == '/' }

  /** What loading the environment leaves: absolute bind paths and an absolute
      rootfs, or none; NUL ends a string, so none is inside one. */
  predicate Loaded(cfg: Config) {
    && (forall k | 0 <= k < |cfg.binds| :: Absolute(cfg.binds[k].host) && Absolute(cfg.binds[k].guest))
    && (forall k | 0 <= k < |cfg.binds| :: '\0' !in cfg.binds[k].host && '\0' !in cfg.binds[k].guest)
    && (cfg.rootfs != "" ==> Absolute(cfg.rootfs)) && '\0' !in cfg.rootfs
  }

  /** `path` is `prefix` or something below it. */
  predicate PathWithin(prefix: string, path: string) {
    prefix <= path && (|path| == |prefix| || path[|prefix|] == '/')
  }

  // ---------------------------------------------------------------------------
  // The bind table: insertion sort, longest guest prefix first

  function Insert(sorted: seq<Bind>, key: Bind): seq<Bind> {
    if sorted != [] && |sorted[|sorted| - 1].guest| < |key.guest|
    then Insert(sorted[..|sorted| - 1], key) + [sorted[|sorted| - 1]]
    else sorted + [key]
  }

  function SortBinds(bs: seq<Bind>): seq<Bind> {
    if bs == [] then [] else Insert(SortBinds(bs[..|bs| - 1]), bs[|bs| - 1])
  }

  predicate LongestFirst(bs: seq<Bind>) {
    forall i, j | 0 <= i < j < |bs| :: |bs[i].guest| >= |bs[j].guest|
  }

  /** The binds whose guest path has length `n`, in order. */
  function OfLength(bs: seq<Bind>, n: nat): seq<Bind> {
    if bs == [] then []
    else OfLength(bs[..|bs| - 1], n) + (if |bs[|bs| - 1].guest| == n then [bs[|bs| - 1]] else [])
  }

  lemma {:induction false} InsertOrders(sorted: seq<Bind>, key: Bind)
    requires LongestFirst(sorted)
    ensures LongestFirst(Insert(sorted, key)) && |Insert(sorted, key)| == |sorted| + 1
    ensures forall k | 0 <= k < |Insert(sorted, key)| ::
              Insert(sorted, key)[k] == key || Insert(sorted, key)[k] in sorted
  {
    if sorted != [] && |sorted[|sorted| - 1].guest| < |key.guest| {
      InsertOrders(sorted[..|sorted| - 1], key);
    }
  }

  lemma {:induction false} InsertKeepsOrder(sorted: seq<Bind>, key: Bind, n: nat)
    requires LongestFirst(sorted)
    ensures OfLength(Insert(sorted, key), n) == OfLength(sorted + [key], n)
  {
    assert (sorted + [key])[..|sorted|] == sorted;
    if sorted != [] && |sorted[|sorted| - 1].guest| < |key.guest| {
      var front, last := sorted[..|sorted| - 1], sorted[|sorted| - 1];
      InsertKeepsOrder(front, key, n);
      assert (front + [key])[..|front|] == front;
      assert (Insert(front, key) + [last])[..|Insert(front, key)|] == Insert(front, key);
    }
  }

  /** The sort orders the table longest guest first and keeps, for every length,
      the same binds in the same order: it is a stable permutation. */
  lemma {:induction false} SortIsStable(bs: seq<Bind>, n: nat)
    ensures LongestFirst(SortBinds(bs)) && |SortBinds(bs)| == |bs|
    ensures OfLength(SortBinds(bs), n) == OfLength(bs, n)
  {
    if bs != [] {
      var front, last := bs[..|bs| - 1], bs[|bs| - 1];
      SortIsStable(front, n);
      InsertOrders(SortBinds(front), last);
      InsertKeepsOrder(SortBinds(front), last, n);
      var ext := SortBinds(front) + [last];
      assert ext[..|front|] == SortBinds(front);
    }
  }

  lemma {:induction false} InsertPosition(sorted: seq<Bind>, key: Bind, j: nat)
    requires j <= |sorted| && (j > 0 ==> |sorted[j - 1].guest| >= |key.guest|)
    requires forall k | j <= k < |sorted| :: |sorted[k].guest| < |key.guest|
    ensures Insert(sorted, key) == sorted[..j] + [key] + sorted[j..]
  {
    if j < |sorted| {
      InsertPosition(sorted[..|sorted| - 1], key, j);
    }
  }

  /** One pass of the sort's inner loop: shifts right, then drops the key in. */
  method InsertInPlace(a: array<Bind>, i: nat)
    requires i < a.Length
    modifies a
    ensures a[..i + 1] == Insert(old(a[..i]), old(a[i]))
    ensures a[i + 1..] == old(a[i + 1..])
  {
    ghost var s := a[..];
    var key := a[i];
    var j := i;
    while j > 0 && |a[j - 1].guest| < |key.guest|
      invariant j <= i
      invariant forall k | 0 <= k < j || i < k < a.Length :: a[k] == s[k]
      invariant forall k | j < k <= i :: a[k] == s[k - 1]
      invariant forall k | j <= k < i :: |s[k].guest| < |key.guest|
    {
      a[j] := a[j - 1];
      j := j - 1;
    }
    a[j] := key;
    InsertPosition(s[..i], key, j);
    ShiftedSlices(s, a[..], i, j, key);
  }

  /** What the shifts and the final store leave, as slices. */
  lemma ShiftedSlices(s: seq<Bind>, now: seq<Bind>, i: nat, j: nat, key: Bind)
    requires j <= i < |s| == |now| && now[j] == key
    requires forall k | 0 <= k < j || i < k < |s| :: now[k] == s[k]
    requires forall k | j < k <= i :: now[k] == s[k - 1]
    ensures now[..i + 1] == s[..i][..j] + [key] + s[..i][j..] && now[i + 1..] == s[i + 1..]
  {
  }

  /** The in-place insertion sort of the loaded table. */
  method SortInPlace(a: array<Bind>, n: nat)
    requires n <= a.Length
    modifies a
    ensures a[..n] == SortBinds(old(a[..n]))
    ensures a[n..] == old(a[n..])
  {
    ghost var s := a[..];
    for i := 0 to n
      invariant a[..i] == SortBinds(s[..i])
      invariant a[i..] == s[i..]
    {
      assert s[..i + 1][..i] == s[..i];
      assert a[i] == a[i..][0] == s[i] && a[i + 1..] == a[i..][1..];
      InsertInPlace(a, i);
    }
  }

  // ---------------------------------------------------------------------------
  // Translation

  /** The first bind of the table that covers `path`, or the table's length. */
  function FirstBind(binds: seq<Bind>, path: string): (j: nat)
    ensures j <= |binds|
    ensures j < |binds| ==> PathWithin(binds[j].guest, path)
    ensures forall i | 0 <= i < j :: !PathWithin(binds[i].guest, path)
  {
    if binds == [] || PathWithin(binds[0].guest, path) then 0 else 1 + FirstBind(binds[1..], path)
  }

  predicate PassedThrough(cfg: Config, path: string) {
    exists k | 0 <= k < |cfg.passthrough| :: PathWithin(cfg.passthrough[k], path)
  }

  /** Host-side already: below the rootfs, or one of its ancestors. */
  predicate HostSide(cfg: Config, path: string) {
    cfg.rootfs != "" &&
    (PathWithin(cfg.rootfs, path) ||
     (0 < |path| < |cfg.rootfs| && path <= cfg.rootfs && cfg.rootfs[|path|] == '/'))
  }

  /** Which rule translates a path. */
  datatype Rule = Untouched | ByBind(j: nat) | ByRootfs

  function RuleFor(cfg: Config, path: string): (r: Rule)
    ensures r.ByBind? ==> r.j < |cfg.binds| && PathWithin(cfg.binds[r.j].guest, path)
  {
    if !Absolute(path) || HostSide(cfg, path) then Untouched
    else
      var j := FirstBind(cfg.binds, path);
      if j < |cfg.binds| then
        if |cfg.binds[j].host| + (|path| - |cfg.binds[j].guest|) + 1 > PATH_MAX then Untouched else ByBind(j)
      else if PassedThrough(cfg, path) || cfg.rootfs == "" || |cfg.rootfs| + |path| + 1 > PATH_MAX then Untouched
      else ByRootfs
  }

  /** The host path a guest path translates to, links not followed; None leaves
      the caller's path as it is. */
  function Translate(cfg: Config, path: string): Option<string> {
    match RuleFor(cfg, path)
    case Untouched => None
    case ByBind(j) =>
      var b := cfg.binds[j];
      Some(Canon(b.host + path[|b.guest|..], |b.host|))
    case ByRootfs => Some(Canon(cfg.rootfs + path, |cfg.rootfs|))
  }

  lemma FirstIsLongest(sorted: seq<Bind>, path: string, i: nat)
    requires LongestFirst(sorted) && i < |sorted| && PathWithin(sorted[i].guest, path)
    ensures var j := FirstBind(sorted, path);
            && j <= i && |sorted[i].guest| <= |sorted[j].guest|
            && (|sorted[i].guest| == |sorted[j].guest| ==> sorted[i].guest == sorted[j].guest)
  {
    var j := FirstBind(sorted, path);
    assert sorted[i].guest == path[..|sorted[i].guest|];
    assert sorted[j].guest == path[..|sorted[j].guest|];
  }

  /** Bind `j` has the longest guest path that covers `path`, the first of equals. */
  ghost predicate Longest(binds: seq<Bind>, path: string, j: nat) {
    && j < |binds| && PathWithin(binds[j].guest, path)
    && forall i | 0 <= i < |binds| && PathWithin(binds[i].guest, path) ::
         |binds[i].guest| < |binds[j].guest| || (|binds[i].guest| == |binds[j].guest| && j <= i)
  }

  /** `path` is neither in the rootfs nor on the way to it. */
  predicate Outside(cfg: Config, path: string) {
    cfg.rootfs == "" || (!PathWithin(cfg.rootfs, path) && !PathWithin(path, cfg.rootfs))
  }

  lemma HostSideIff(cfg: Config, path: string)
    requires Absolute(path)
    ensures HostSide(cfg, path) <==> !Outside(cfg, path)
  {
    if |path| == |cfg.rootfs| && path <= cfg.rootfs { assert path == cfg.rootfs; }
  }

  lemma FirstIffLongest(binds: seq<Bind>, path: string, j: nat)
    requires LongestFirst(binds) && j < |binds|
    ensures FirstBind(binds, path) == j <==> Longest(binds, path, j)
  {
    var f := FirstBind(binds, path);
    if f < |binds| {
      forall i | 0 <= i < |binds| && PathWithin(binds[i].guest, path)
        ensures |binds[i].guest| < |binds[f].guest| || (|binds[i].guest| == |binds[f].guest| && f <= i)
      {
        FirstIsLongest(binds, path, i);
      }
    }
  }

  /** Binds come first, the longest guest path of them, whatever is passed through; the
      rootfs takes what no bind and no pass-through prefix covers.  Either way the
      result has to fit, and a path at the rootfs is left alone. */
  lemma RuleIff(cfg: Config, path: string, j: nat)
    requires LongestFirst(cfg.binds)
    ensures RuleFor(cfg, path) == ByBind(j) <==>
              && Absolute(path) && Outside(cfg, path) && Longest(cfg.binds, path, j)
              && |cfg.binds[j].host| + |path[|cfg.binds[j].guest|..]| < PATH_MAX
    ensures RuleFor(cfg, path) == ByRootfs <==>
              && Absolute(path) && Outside(cfg, path) && cfg.rootfs != "" && |cfg.rootfs| + |path| < PATH_MAX
              && (forall i | 0 <= i < |cfg.binds| :: !PathWithin(cfg.binds[i].guest, path))
              && (forall k | 0 <= k < |cfg.passthrough| :: !PathWithin(cfg.passthrough[k], path))
  {
    if Absolute(path) { HostSideIff(cfg, path); }
    if j < |cfg.binds| { FirstIffLongest(cfg.binds, path, j); }
  }

  /** What a guest path translates to: behind the longest bind's host path, or behind
      the rootfs, the components of what is left of it, resolved. */
  lemma TranslateMeans(cfg: Config, path: string, j: nat)
    requires Loaded(cfg) && LongestFirst(cfg.binds) && Absolute(path) && Outside(cfg, path)
    ensures Longest(cfg.binds, path, j) ==>
              var b := cfg.binds[j];
              var rest := path[|b.guest|..];
              if |b.host| + |rest| < PATH_MAX then Lands(Translate(cfg, path), b.host, rest)
              else Translate(cfg, path) == None
    ensures (forall i | 0 <= i < |cfg.binds| :: !PathWithin(cfg.binds[i].guest, path)) ==>
              if cfg.rootfs != "" && |cfg.rootfs| + |path| < PATH_MAX
                 && (forall k | 0 <= k < |cfg.passthrough| :: !PathWithin(cfg.passthrough[k], path))
              then Lands(Translate(cfg, path), cfg.rootfs, path)
              else Translate(cfg, path) == None
  {
    RuleIff(cfg, path, j);
    HostSideIff(cfg, path);
    if Longest(cfg.binds, path, j) {
      FirstIffLongest(cfg.binds, path, j);
      LandsThere(cfg.binds[j].host, path[|cfg.binds[j].guest|..]);
    }
    if cfg.rootfs != "" { LandsThere(cfg.rootfs, path); }
  }

  /** `out` is `prefix` and, above it, the components of `rest`, resolved. */
  ghost predicate Lands(out: Option<string>, prefix: string, rest: string) {
    && out.Some? && prefix <= out.value
    && (|out.value| > |prefix| ==> out.value[|prefix|] == '/' || prefix == "/")
    && Comps(out.value[|prefix|..]) == Resolve([], Comps(rest))
  }

  lemma LandsThere(prefix: string, rest: string)
    requires Absolute(prefix) && (rest == "" || rest[0] == '/')
    ensures Lands(Some(Canon(prefix + rest, |prefix|)), prefix, rest)
  {
    var p := prefix + rest;
    assert p[|prefix|..] == rest && p[..|prefix|] == prefix;
    assert AtBoundary(p, |prefix|);
    CanonIsClean(p, |prefix|);
    assert Canon(p, |prefix|)[..|prefix|] == prefix;
  }

  /** With a table sorted at load time, a path that some bind covers is translated by the
      bind with the longest guest path that does, the first one given among equals,
      whatever is passed through. */
  lemma LongestGuestWins(cfg: Config, given: seq<Bind>, path: string, i: nat) returns (j: nat)
    requires Loaded(cfg) && cfg.binds == SortBinds(given) && Absolute(path) && Outside(cfg, path)
    requires i < |cfg.binds| && PathWithin(cfg.binds[i].guest, path)
    ensures Longest(cfg.binds, path, j)
    ensures var b := cfg.binds[j];
            var rest := path[|b.guest|..];
            if |b.host| + |rest| < PATH_MAX then Lands(Translate(cfg, path), b.host, rest)
            else Translate(cfg, path) == None
  {
    SortIsStable(given, 0);
    j := FirstBind(cfg.binds, path);
    FirstIffLongest(cfg.binds, path, j);
    TranslateMeans(cfg, path, j);
  }

  const SHM_CONFIG := Config("/r", [Bind("/h/shm", "/dev/shm")], ["/proc", "/sys", "/dev"])

  /** A bind below a passed-through directory: `/dev/shm/x` with `/dev` passed through. */
  lemma BindBeatsPassThrough()
    ensures Lands(Translate(SHM_CONFIG, "/dev/shm/x"), "/h/shm", "/x")
  {
    var p: string := "/dev/shm/x";
    assert p[..8] == "/dev/shm" && p[8..] == "/x" && PathWithin("/dev/shm", p);
    assert Longest(SHM_CONFIG.binds, p, 0);
    assert Outside(SHM_CONFIG, p) by { assert "/r"[1] == 'r' && p[1] == 'd'; }
    TranslateMeans(SHM_CONFIG, p, 0);
  }

  lemma OthersPassThrough()
    ensures Translate(SHM_CONFIG, "/dev/null") == None
  {
    var p: string := "/dev/null";
    assert p[..4] == "/dev" && PathWithin(SHM_CONFIG.passthrough[2], p);
    assert !PathWithin(SHM_CONFIG.binds[0].guest, p);
    assert Outside(SHM_CONFIG, p) by { assert "/r"[1] == 'r' && p[1] == 'd'; }
    TranslateMeans(SHM_CONFIG, p, 0);
  }

  /** A rootfs translation stays under the rootfs, and translating it again does
      nothing. */
  lemma RetranslateIsNoop(cfg: Config, path: string)
    requires Loaded(cfg) && RuleFor(cfg, path).ByRootfs?
    ensures PathWithin(cfg.rootfs, Translate(cfg, path).value)
    ensures Translate(cfg, Translate(cfg, path).value) == None
  {
    var p := cfg.rootfs + path;
    assert AtBoundary(p, |cfg.rootfs|);
    CanonIsClean(p, |cfg.rootfs|);
    assert p[..|cfg.rootfs|] == cfg.rootfs;
  }

  // ---------------------------------------------------------------------------
  // Reverse translation

  /** The bind with the deepest host path that covers `host`, the first of equals;
      the table's length if none does. */
  function DeepestHost(binds: seq<Bind>, host: string): (j: nat)
    ensures j <= |binds|
    ensures j < |binds| ==> PathWithin(binds[j].host, host)
  {
    if binds == [] then 0
    else
      var n := |binds| - 1;
      var j := DeepestHost(binds[..n], host);
      if PathWithin(binds[n].host, host) && (j == n || |binds[n].host| > |binds[j].host|) then n
      else if j == n then |binds| else j
  }

  function Reverse(cfg: Config, host: string): string {
    var j := DeepestHost(cfg.binds, host);
    if j < |cfg.binds| && !(|cfg.rootfs| > |cfg.binds[j].host| && PathWithin(cfg.rootfs, host)) then
      cfg.binds[j].guest + host[|cfg.binds[j].host|..]
    else if cfg.rootfs != "" && PathWithin(cfg.rootfs, host) then
      if |host| == |cfg.rootfs| then "/" else host[|cfg.rootfs|..]
    else host
  }

  lemma {:induction false} DeepestIsDeepest(binds: seq<Bind>, host: string)
    ensures var j := DeepestHost(binds, host);
            forall i | 0 <= i < |binds| && PathWithin(binds[i].host, host) ::
              j < |binds| && |binds[i].host| <= |binds[j].host| && (|binds[i].host| == |binds[j].host| ==> j <= i)
  {
    if binds != [] {
      DeepestIsDeepest(binds[..|binds| - 1], host);
    }
  }

  /** Bind `j` has the longest host path that covers `host`, the first of equals. */
  ghost predicate Deepest(binds: seq<Bind>, host: string, j: nat) {
    && j < |binds| && PathWithin(binds[j].host, host)
    && forall i | 0 <= i < |binds| && PathWithin(binds[i].host, host) ::
         |binds[i].host| < |binds[j].host| || (|binds[i].host| == |binds[j].host| && j <= i)
  }

  lemma DeepestIff(binds: seq<Bind>, host: string, j: nat)
    requires j < |binds|
    ensures DeepestHost(binds, host) == j <==> Deepest(binds, host, j)
  {
    DeepestIsDeepest(binds, host);
  }

  /** What a host path is shown as: below the deepest bind, unless the rootfs is deeper
      and holds it; below the rootfs; or unchanged. */
  lemma ReverseMeans(cfg: Config, host: string, j: nat)
    ensures Deepest(cfg.binds, host, j) && !(PathWithin(cfg.rootfs, host) && |cfg.rootfs| > |cfg.binds[j].host|) ==>
              Reverse(cfg, host) == cfg.binds[j].guest + host[|cfg.binds[j].host|..]
    ensures cfg.rootfs != "" && PathWithin(cfg.rootfs, host)
            && (forall i | 0 <= i < |cfg.binds| && PathWithin(cfg.binds[i].host, host) ::
                  |cfg.binds[i].host| < |cfg.rootfs|) ==>
              Reverse(cfg, host) == if host == cfg.rootfs then "/" else host[|cfg.rootfs|..]
    ensures (cfg.rootfs == "" || !PathWithin(cfg.rootfs, host))
            && (forall i | 0 <= i < |cfg.binds| :: !PathWithin(cfg.binds[i].host, host)) ==>
              Reverse(cfg, host) == host
  {
    if j < |cfg.binds| { DeepestIff(cfg.binds, host, j); }
    DeepestIsDeepest(cfg.binds, host);
    if |host| == |cfg.rootfs| && cfg.rootfs <= host { assert host == cfg.rootfs; }
  }

  /** Bind `j` is the one deepest host rule for `host`: every other bind that
      covers it is shallower, and so is the rootfs or it does not cover it. */
  ghost predicate OnlyDeepest(cfg: Config, j: nat, host: string) {
    && j < |cfg.binds|
    && (forall i | 0 <= i < |cfg.binds| && i != j && PathWithin(cfg.binds[i].host, host) ::
          |cfg.binds[i].host| < |cfg.binds[j].host|)
    && !(|cfg.rootfs| > |cfg.binds[j].host| && PathWithin(cfg.rootfs, host))
  }

  /** What a bind translation and the canonical guest spelling have in common:
      the same resolved tail behind two prefixes. */
  lemma SameTail(prefix: string, rest: string)
    requires Absolute(prefix) && (rest == "" || rest[0] == '/')
    ensures var stack := Resolve([], Comps(rest));
            Clean(stack) && Canon(prefix + rest, |prefix|) == prefix + Rest(stack, |prefix|, EndsInSlash(rest))
  {
    var p := prefix + rest;
    assert p[|prefix|..] == rest && p[..|prefix|] == prefix;
    assert AtBoundary(p, |prefix|);
    CanonIsRest(p, |prefix|);
  }

  /** Round trip through a bind: when the bind that translated `path` is also the
      only deepest host match of the result, reversing gives `path` canonicalized
      at the bind's guest prefix.  The one exception is the bind's own root given
      with a trailing slash when exactly one of the two prefixes is "/": the
      canonicalizer drops the slash after "/" alone. */
  lemma BindRoundTrip(cfg: Config, path: string, j: nat)
    requires Loaded(cfg) && RuleFor(cfg, path) == ByBind(j)
    requires OnlyDeepest(cfg, j, Translate(cfg, path).value)
    ensures var b := cfg.binds[j]; var rest := path[|b.guest|..];
            var lost := EndsInSlash(rest) && Resolve([], Comps(rest)) == [] && (|b.host| == 1) != (|b.guest| == 1);
            Reverse(cfg, Translate(cfg, path).value) == Canon(path, |b.guest|) <==> !lost
  {
    var b, out := cfg.binds[j], Translate(cfg, path).value;
    var rest := path[|b.guest|..];
    assert path == b.guest + rest;
    SameTail(b.host, rest);
    SameTail(b.guest, rest);
    var stack, trail := Resolve([], Comps(rest)), EndsInSlash(rest);
    RestLaws(stack, |b.host|, trail);
    assert out[|b.host|..] == Rest(stack, |b.host|, trail);
    assert PathWithin(b.host, out);
    DeepestIsDeepest(cfg.binds, out);
    assert DeepestHost(cfg.binds, out) == j;
    assert Reverse(cfg, out) == b.guest + Rest(stack, |b.host|, trail);
    JoinShape(stack);
  }

  /** The exception at one input: host `/` bound at `/h`, and the path `/h/`. */
  lemma TrailingSlashIsLost()
    ensures var cfg := Config("", [Bind("/", "/h")], []);
            && Translate(cfg, "/h/") == Some("/")
            && Reverse(cfg, "/") == "/h" && Canon("/h/", 2) == "/h/"
  {
    var cfg := Config("", [Bind("/", "/h")], []);
    var path: string := "/h/";
    assert path[2..] == "/" && path[..2] == "/h" && Comps("/") == [];
    assert PathWithin("/h", path) && RuleFor(cfg, path) == ByBind(0);
    var out: string := "//";
    assert "/" + "/" == out && out[1..] == "/" && out[..1] == "/";
    assert Join([]) == "" && "/h" + "" == "/h" && "/h" + "/" == path && "/" + "" == "/";
    assert cfg.binds[..0] == [] && DeepestHost([], "/") == 0;
    assert DeepestHost(cfg.binds, "/") == 0 && "/"[1..] == "";
  }

  /** A guest path with its components resolved against the guest root. */
  function GuestCanon(path: string): string {
    var t := Join(Resolve([], Comps(path))) + (if EndsInSlash(path) then "/" else "");
    if t == "" then "/" else t
  }

  /** Round trip through the rootfs: when no bind covers the result as deeply as
      the rootfs, reversing gives the canonical guest path. */
  lemma RootfsRoundTrip(cfg: Config, path: string)
    requires Loaded(cfg) && |cfg.rootfs| > 1 && RuleFor(cfg, path).ByRootfs?
    requires forall i | 0 <= i < |cfg.binds| && PathWithin(cfg.binds[i].host, Translate(cfg, path).value) ::
               |cfg.binds[i].host| < |cfg.rootfs|
    ensures Reverse(cfg, Translate(cfg, path).value) == GuestCanon(path)
  {
    var out := Translate(cfg, path).value;
    SameTail(cfg.rootfs, path);
    var stack, trail := Resolve([], Comps(path)), EndsInSlash(path);
    RestLaws(stack, |cfg.rootfs|, trail);
    assert out[|cfg.rootfs|..] == Rest(stack, |cfg.rootfs|, trail);
    assert PathWithin(cfg.rootfs, out);
  }

  // ---------------------------------------------------------------------------
  // The scans as the loops they are

  method FindBind(binds: seq<Bind>, path: string) returns (j: nat)
    ensures j == FirstBind(binds, path)
  {
    j := 0;
    while j < |binds| && !PathWithin(binds[j].guest, path)
      invariant j <= |binds|
      invariant forall i | 0 <= i < j :: !PathWithin(binds[i].guest, path)
    {
      j := j + 1;
    }
  }

  method IsPassedThrough(cfg: Config, path: string) returns (r: bool)
    ensures r == PassedThrough(cfg, path)
  {
    for i := 0 to |cfg.passthrough|
      invariant forall k | 0 <= k < i :: !PathWithin(cfg.passthrough[k], path)
    {
      if PathWithin(cfg.passthrough[i], path) { return true; }
    }
    return false;
  }

  method ReverseTranslate(cfg: Config, host: string) returns (guest: string)
    ensures guest == Reverse(cfg, host)
  {
    var best := 0;
    for i := 0 to |cfg.binds|
      invariant best == DeepestHost(cfg.binds[..i], host)
    {
      assert cfg.binds[..i + 1][..i] == cfg.binds[..i];
      if PathWithin(cfg.binds[i].host, host) && (best == i || |cfg.binds[i].host| > |cfg.binds[best].host|) {
        best := i;
      } else if best == i {
        best := i + 1;
      }
    }
    assert cfg.binds[..|cfg.binds|] == cfg.binds;
    if best < |cfg.binds| && !(|cfg.rootfs| > |cfg.binds[best].host| && PathWithin(cfg.rootfs, host)) {
      return cfg.binds[best].guest + host[|cfg.binds[best].host|..];
    }
    if cfg.rootfs != "" && PathWithin(cfg.rootfs, host) {
      return if |host| == |cfg.rootfs| then "/" else host[|cfg.rootfs|..];
    }
    return host;
  }
}
