# Sprout, verified

Sprout runs a guest Linux tree without root: an interposer rewrites paths and
places memory, a small owner process publishes bind mounts in a shared table, a
guest agent and a host-side holder exchange requests and terminal bytes through
shared memory, and a static stub loads guests that have no dynamic linker.  This
project models the parts of it that are protocols or in-place algorithms and
proves what they are for.  `dafny verify dfyconfig.toml` checks everything.

| file | what it models |
|---|---|
| `PtyChannel.dfy` | the terminal byte channel: two wrapping 32-bit counters over a 32 KiB circle, host and agent interleaving byte by byte |
| `PtyRuns.dfy` | whole runs of that channel: what every write and read comes to while both ends keep running |
| `RequestRing.dfy` | the request ring: holder and agent as steps over slot words and two doorbells, and its invariant |
| `RingRuns.dfy` | whole runs of the ring with 32-bit request numbers, the wrap of the numbers included |
| `ShadowTable.dfy` | the mount table as a value: rows, tombstones, string table, compaction, and the reader's scan; refinement of a map |
| `HolderCommands.dfy` | the holder's bind and unbind commands on that table |
| `HolderRuns.dfy` | whole runs of those commands: the table between commits, and when a full table is half live |
| `ShadowOwner.dfy` | the owner's table in place, proved equal to the value operations |
| `ShadowRace.dfy` | every store of an add against every load of a lookup |
| `ShadowRuns.dfy` | whole runs of that race: what a lookup that succeeds has answered with |
| `ShadowAdds.dfy` | the owner's steps left to themselves: an add completes and does what its arguments say |
| `ShadowSolo.dfy` | the reader's steps left to themselves: a lookup completes with the answer it owes |
| `PathCanon.dfy` | the in-place `..` canonicalizer against a component stack |
| `PathTranslate.dfy` | bind sort, guest-to-host translation, host-to-guest reversal |
| `LinkChase.dfy` | symbolic-link following inside the rootfs over an arbitrary, changing file system |
| `LinkParent.dfy` | where the walk over intermediate components puts a relative link's target |
| `LinkMeaning.dfy` | what a hop, a splice and a whole resolution come to, in components above the rootfs |
| `LowArena.dfy` | the low-address allocator: size classes, linked free lists, bump pool, calloc, realloc |
| `Masks.dfy` | rounding an address up with a mask, for alignments that need not be powers of two |
| `Reservations.dfy` | interval subtraction on the table of reserved address spans |
| `MemoCache.dfy` | the bounded-probe caches for translations and exec names |
| `Frames.dfy` | the agent's response stream, its parser, and polling a growing response |
| `DnsNames.dfy` | the DNS query encoder and the expansion of compressed names |
| `GuestReal.dfy` | the launcher's symlink walk relative to the rootfs |
| `SeccompFilter.dfy` | the BPF program of the stub and its execution |
| `ElfLoad.dfy` | the stub's segment loading and its page arithmetic |
| `Common.dfy` | optional results, bytes, 32-bit words, infinite runs and the two induction principles for them |

Concurrent parts are state machines whose steps are single loads and stores, one
lemma per step, an inductive invariant, and theorems over all infinite runs, for
every order of the steps.  Each has progress theorems beside its safety theorems,
under the assumption only that the processes keep taking steps.  In-place code is
a class or an array method proved equal to a function on values, and the theorems
are about that function.

What the proofs say about the code, where it differs from what one might expect:

- The agent clips a write length through a 32-bit cast: `ClipStaysInside` gives
  the exact lengths for which the clip is safe, `LongLengthIsNotClipped` one for
  which it is not.  The agent's own callers pass buffers far below 4 GiB.
- The holder's wake test is a plain comparison of 32-bit numbers.  Until the first
  early poll, a poll before the agent rang goes on if and only if its request is
  the k * 2^32-nd (`PollsEarlyIff`), so there is none among fewer than 2^32
  requests (`FewRequestsArePrompt`), and a run exists in which the 2^32-nd is the
  first (`FirstEarlyWake`).  From that poll until the agent rings no request waits,
  whatever its number (`NoRingNoWait`).  If the agent had not begun to answer at
  that poll, each reply until the agent's next step is the request's own body
  (`EarlyWakeEchoes`); if it had, the holder reads the first reply while the agent
  writes it, and nothing is claimed of that reply.
- The holder's unbind marks the first row of a directory, live or not:
  `UnbindMeans` gives the exact condition under which it unbinds.  After a rebind
  it unbinds if and only if the rebind's commit compacted the table
  (`UnbindAfterRebind`); two binds and an unbind on a new table leave the second
  binding (`TwoBindsOneUnbind`).
- The holder does not commit a rejected bind.  After any run of commands the table
  stands for the map of the last commit less the directories bound in vain since
  (`SinceLastCommit`), so a full table is half live if and only if those that are
  left are (`FullIsHalfLiveIff`).  One that is not has had a bind rejected since its
  last commit (`FullOfRejects`); binding more than half of a full table's
  directories again leads there (`RebindsEmptyFullTable`, `NineBindsFiveRebinds`),
  and more binds never lead out (`FullStaysFull`).
- A rejected add has already removed the old binding (`AddBindMeans`).
- Translating and reversing a bind loses a trailing slash in exactly one shape
  of configuration (`BindRoundTrip`, with an instance in `TrailingSlashIsLost`).
- A relative link in the middle of a path is meant to be resolved in the directory
  that holds it; the splice puts its target behind the link's own name, which
  comes to the same if and only if the rest of the path climbs to the rootfs
  (`RelativeLinkIff`, with an instance in `TargetBehindTheLink`).
- An absolute link in the middle of a path, the case the walk is for, leads to its
  target's components and then those that followed it (`AbsoluteSplice`,
  `MidPathLinkIsFollowed`); a chase that ends in the same target leads to the same
  (`AbsoluteHop`, `FinalLinkIsFollowed`).
- A full reservation table drops the shorter remainder of a split span, and only
  then is anything lost (`ExactUnlessFullAndSplit`, with an instance in
  `FullTableLosesRemainder`).
- Freeing a large arena block never unmaps it (`LargeFreeNeverUnmaps`), and a
  realloc that finds no new block has released the old one (`Realloc`,
  `FailedGrowthReleases`).  A freed block is handed out again whatever alignment is
  asked for (`FreeThenObtain`, `ReuseIgnoresAlignment`), and a new one is placed
  with a mask, which aligns for every address if and only if the alignment is a
  power of two (`AlignsIff`, with 48 in `FortyEightIsMissed`); `memalign` and
  `aligned_alloc` do not check that it is.  A request is covered if and only if rounding it does
  not wrap (`CoveredIff`), a new pool holds its block if and only if its size does
  not overflow (`PoolHoldsBlockIff`), and a header records the size of its block if
  and only if it is below 4 GiB (`StoredIff`), which is what realloc copies.
- The walker's documentation describes a textual `..` pop, and its loop has a branch
  for it; the code drops `..` from the path and from link targets before the loop
  sees them.  Taken as the pop of that branch, for the path and the targets alike,
  the two agree wherever no `..` stands behind a name, in the path or in a target,
  and a relative link below the top has none at all (`AgreesWithoutParents`).
  Both halves of that condition are exact: over all file systems with such links the
  paths that agree are those with no `..` behind a name (`AgreesOnTameIff`), and
  one link that is taken leads where it should if and only if it is of that kind
  (`OneLinkIff`).  With no condition on links only a path without names agrees on
  every file system (`AgreesEverywhereIff`).  Where nothing is a link and both find
  something, they find the same if and only if no `..` stands behind a name
  (`DropsInsteadOfPops`).  Instances are `/a/../b` (`ParentIsDropped`) and `/d/a`
  linked to `../b` (`LinkParentIsDropped`).  Read lexically instead, the pop leaves
  the names the code walks under the same condition (`PoppedIff`).
- The filter is right on every call exactly when its jump offsets fit a byte
  (`RightIffFits`); the shipped tables do.
- The query encoder stops at the first empty label, so a host name survives
  exactly when it has none (`HostNameSurvives`, `TrailingDotIsLost`).  It does not
  check its 512-byte buffer: it stays inside if and only if the labels sent and
  what frames them fit (`StaysInBufferIff`), which 300 one-letter labels do not
  (`LongNameOverruns`).
- The stub zeroes the rest of the page a segment's file bytes end in; it dies
  doing so if and only if the file ends before that page (`GapFaultsIff`, with a
  file that ends behind its headers in `ShortFileKills`).

## Model

| member | source | states |
|---|---|---|
| `PtyChannel.ClipStaysInside` | uml/sprout-uml-agent.c:169-173 | the host's clip never exceeds the free space; the agent's 32-bit cast keeps inside it if and only if the length fits 32 bits or its low word is already too big |
| `PtyChannel.LongLengthIsNotClipped` | uml/sprout-uml-agent.c:169-173 | a length of 2^32 is clipped to nothing at the host and not at all at the agent |
| `PtyChannel.NextKeepsInv` | uml/sprout-uml-agent.c:169-189 | every single load, byte copy and publish of either end keeps the channel invariant, with wrapping counters |
| `PtyChannel.EveryRunIsFifo` | uml/sprout-uml-agent.c:169-189 | in every reachable state the bytes delivered are a prefix of the bytes accepted, at most 32768 are outstanding, and the shared words are the true counts modulo 2^32 |
| `PtyChannel.NoUnreadByteOverwritten` | crates/sprout-cli/src/uml.rs:1786-1800 | no step of either end changes the cell of an accepted, undelivered byte, and the cell holds that byte |
| `PtyRuns.WriteAcceptsWhatFits` | crates/sprout-cli/src/uml.rs:1786-1800 | in every run in which the writer keeps running, whatever the reader does meanwhile, a call to write a buffer ends with exactly those of its first bytes accepted that fitted at a moment of the call, and no fewer than fitted when it began |
| `PtyRuns.ReadDeliversWhatIsThere` | uml/sprout-uml-agent.c:180-189 | in every run in which the reader keeps running, whatever the writer does meanwhile, a call to read so many bytes ends with exactly the next ones delivered, as far as they were there when it was made |
| `PtyRuns.OnlyPublishing` | uml/sprout-uml-agent.c:169-189 | bytes become accepted or delivered at a publishing store and at no other step |
| `PtyChannel.SharedCircle.WriteCirc` | crates/sprout-cli/src/uml.rs:1786-1800 | the copy loop in place: accepts the first bytes that fit and leaves unread bytes alone |
| `PtyChannel.SharedCircle.ReadCirc` | crates/sprout-cli/src/uml.rs:1801-1814 | the copy loop in place: returns the next unread bytes in order |
| `RequestRing.CountKeepsInv` | uml/sprout-uml-agent.c:1035-1108 | every step of holder, agent and client keeps the ring invariant, request numbers counted without wrap |
| `RingRuns.RunIsCounted` | uml/sprout-uml-agent.c:1035-1108 | every run of the code, with wrapping request words, is word for word a counted run until a poll comes too early |
| `RingRuns.EveryReplyAnswersItsRequest` | crates/sprout-cli/src/bin/sprout-uml-hold.rs:331-380 | until a poll comes too early, the k-th body handed to the holder is the k-th the agent handles, and the k-th reply is the answer the agent gave to it, cut at the frame limit |
| `RingRuns.RunLogs` | crates/sprout-cli/src/bin/sprout-uml-hold.rs:321-380 | in every run the requests posted are the bodies of the calls the holder took, those of 1 to 60 KiB made while it was idle, in order; the requests served are what the agent handled, with its answers; the replies are what was sent |
| `RingRuns.NoDoorbellLost` | uml/sprout-uml-agent.c:1151-1166 | between scans with nothing new to see, the only slot that can be waiting is the one the holder has yet to ring for |
| `RingRuns.EveryRequestIsReplied` | crates/sprout-cli/src/bin/sprout-uml-hold.rs:331-380 | in every run in which both processes keep running, in whatever order, a call the holder takes whose number is not a multiple of 2^32 is replied to and its slot freed |
| `RequestRing.AgentMakesProgress` | uml/sprout-uml-agent.c:1035-1108 | every agent step while a request waits brings its answer nearer |
| `RingRuns.PollsEarlyIff` | crates/sprout-cli/src/bin/sprout-uml-hold.rs:352-360 | until the first early poll, a poll before the agent rang goes on if and only if the number of the request is a multiple of 2^32 |
| `RingRuns.FewRequestsArePrompt` | crates/sprout-cli/src/bin/sprout-uml-hold.rs:352-360 | in runs of fewer than 2^32 calls no poll comes too early |
| `RingRuns.FirstEarlyWake` | crates/sprout-cli/src/bin/sprout-uml-hold.rs:352-360 | a run exists that comes, with no early poll before, to a poll for its 2^32-nd request that goes on unanswered |
| `RingRuns.NoRingNoWait` | crates/sprout-cli/src/bin/sprout-uml-hold.rs:352-360 | from the first early poll until the agent rings no request waits, whatever its number |
| `RingRuns.EarlyWakeEchoes` | crates/sprout-cli/src/bin/sprout-uml-hold.rs:352-380 | if the agent had not begun to answer at the first early poll, that call and every later one until the agent's next step gets its own body as its reply |
| `ShadowTable.AddBindMeans` | crates/sprout-cli/src/session_owner.rs:155-210 | an accepted add updates the map at the directory, a rejected one removes the directory, a relative path changes nothing; the invariant holds after each |
| `ShadowTable.AddTakenIff` | crates/sprout-cli/src/session_owner.rs:155-210 | an add is accepted if and only if both paths are absolute, a row is free and both strings fit the 64 KiB map; it then takes the next row, which says the pair; otherwise the error names the first of these that fails |
| `ShadowTable.MarkRemovedIsTombstone` | crates/sprout-cli/src/session_owner.rs:213-219 | marking the live row removed is the tombstoning of its directory |
| `ShadowTable.CompactKeeps` | crates/sprout-cli/src/session_owner.rs:250-312 | compaction never fails and keeps the live rows, in order, exactly |
| `ShadowTable.CommitMeans` | crates/sprout-cli/src/session_owner.rs:223-247 | a commit keeps the map, takes the next even generation, and bounds the row count by twice the live rows or 8 |
| `HolderCommands.FullMeansHalfLive` | crates/sprout-cli/src/session_owner.rs:177-186 | after a commit, "full" is reported only with at least half the rows live |
| `HolderRuns.SinceLastCommit` | crates/sprout-cli/src/bin/sprout-uml-hold.rs:451-525 | after any run of commands from a new table, the table has the strings and, up to their state, the rows of the last commit, and stands for its map less the directories bound in vain since |
| `HolderRuns.FullIsHalfLiveIff` | crates/sprout-cli/src/bin/sprout-uml-hold.rs:451-525 | after any run, a full table is at least half live if and only if the directories bound at the last commit and not bound in vain since are |
| `HolderRuns.FullOfRejects` | crates/sprout-cli/src/bin/sprout-uml-hold.rs:455-461 | after any run, a full table of more than eight rows that is not half live has had a bind rejected with no commit since |
| `HolderRuns.RebindsEmptyFullTable` | crates/sprout-cli/src/bin/sprout-uml-hold.rs:455-461 | for every capacity, filling a table with directories whose strings fit and binding more than half of them again leaves it full and not half live |
| `HolderRuns.NineBindsFiveRebinds` | crates/sprout-cli/src/bin/sprout-uml-hold.rs:455-461 | an instance on nine rows |
| `HolderCommands.CommandsLeaveNotDue` | crates/sprout-cli/src/bin/sprout-uml-hold.rs:451-463 | an accepted bind and an unbind that finds a row leave nothing to compact |
| `HolderCommands.FullStaysFull` | crates/sprout-cli/src/bin/sprout-uml-hold.rs:455-461 | on a full table every bind is rejected, tombstones its directory, and is not committed, so the table stays full |
| `HolderCommands.UnbindMeans` | crates/sprout-cli/src/bin/sprout-uml-hold.rs:511-525 | the holder's unbind removes the binding if and only if the first row of the directory is its live row |
| `HolderCommands.UnbindAfterRebind` | crates/sprout-cli/src/bin/sprout-uml-hold.rs:451-525 | after a directory was bound again, the unbind removes the new binding if and only if the rebind's commit compacted the table, and leaves it in place otherwise |
| `HolderCommands.TwoBindsOneUnbind` | crates/sprout-cli/src/bin/sprout-uml-hold.rs:451-525 | on a new table, two binds of one directory and an unbind leave the second binding in place |
| `ShadowTable.StepRefines` | crates/sprout-cli/src/session_owner.rs:155-247 | every operation does to the table's map what it does to a plain map |
| `ShadowTable.RunRefinesMap` | crates/sprout-cli/src/session_owner.rs:155-312 | after any run the table stands for the map the run built, and no directory has two live rows |
| `ShadowTable.ScanRows` | crates/sprout-preload/csrc/sprout_shadow.c:145-158 | the scan ends with the last of the deepest matching live rows, or with none when none matches |
| `ShadowTable.LookupBind` | crates/sprout-preload/csrc/sprout_shadow.c:112-176 | on a published table not older than two seconds the reader returns source plus tail for the longest bound directory holding the path, and fails when there is none, the table is stale or being written, or the result does not fit |
| `ShadowTable.WinnerIsLongest` | crates/sprout-preload/csrc/sprout_shadow.c:145-158 | the winning row's directory is the unique longest one in the map that holds the path |
| `ShadowOwner.Shadow.AddBind` | crates/sprout-cli/src/session_owner.rs:155-210 | the add in the buffer is the value operation, result and error included |
| `ShadowOwner.Shadow.MarkState` | crates/sprout-cli/src/session_owner.rs:213-219 | the state store in the buffer is the value operation |
| `ShadowOwner.Shadow.WriteEntryRaw` | crates/sprout-cli/src/session_owner.rs:280-312 | a raw row is appended, or refused with the right error |
| `ShadowOwner.Shadow.Compact` | crates/sprout-cli/src/session_owner.rs:250-277 | the rebuild in the buffer is the value operation |
| `ShadowOwner.Shadow.Commit` | crates/sprout-cli/src/session_owner.rs:223-247 | counting, compacting and publishing in the buffer is the value operation |
| `ShadowOwner.Shadow.constructor` | crates/sprout-cli/src/session_owner.rs:81-120 | a new buffer is the empty table |
| `ShadowRace.NextKeepsInv` | crates/sprout-cli/src/session_owner.rs:189-208 | every single store of an add and every load of a lookup keeps the invariant that rows below the count say what was given to an add |
| `ShadowRuns.LookupNeverMixesRows` | crates/sprout-preload/csrc/sprout_shadow.c:124-176 | in every interleaving without compaction, a lookup of a path that succeeds returns source plus tail of one pair: the arguments of an add called before, whose row was published and live at some moment between the call and the return; the table passed for live at the call and the result fits the caller's buffer |
| `ShadowRuns.NoCommitDuringLookup` | crates/sprout-preload/csrc/sprout_shadow.c:131-166 | between the load of the generation, before the rows, and its check, behind them, of a lookup that succeeds the owner never commits |
| `ShadowRuns.PairsAreGiven` | crates/sprout-cli/src/session_owner.rs:155-210 | every pair a row says is the argument pair of an add called before |
| `ShadowSolo.QuietLookupAnswers` | crates/sprout-preload/csrc/sprout_shadow.c:124-176 | from every reachable state an undisturbed lookup ends, with the rewriting by the last of the deepest live rows if it fits and nothing otherwise |
| `ShadowAdds.AddEnds` | crates/sprout-cli/src/session_owner.rs:155-210 | from every reachable state an add of a directory and a source left to itself ends: exactly the live rows of that directory are tombstoned and, if there is room for both strings, one live row more says that directory and that source |
| `ShadowAdds.AddIsAddBind` | crates/sprout-cli/src/session_owner.rs:155-210 | the table such an add leaves is the one the value operation leaves |
| `ShadowAdds.MarkIsMarkState` | crates/sprout-cli/src/session_owner.rs:213-219 | so is the table after a state store |
| `ShadowAdds.PublishIsCommit` | crates/sprout-cli/src/session_owner.rs:223-247 | so is the generation after a commit |
| `PathCanon.DotdotCanon` | crates/sprout-preload/csrc/sprout_preload.c:174-208 | the in-place byte loop leaves the string of the clamped component-stack resolver, with the trailing slash it keeps |
| `PathCanon.WriteNames` | crates/sprout-preload/csrc/sprout_preload.c:180-204 | the scratch buffer receives the floor and the resolved components, and never overflows |
| `PathCanon.CanonIsClean` | crates/sprout-preload/csrc/sprout_preload.c:174-208 | the result keeps the floor prefix, is at a component boundary there, and has exactly the resolved components above it, none of them `.` or `..` |
| `PathCanon.CanonIdempotent` | crates/sprout-preload/csrc/sprout_preload.c:174-208 | canonicalizing twice is canonicalizing once |
| `PathCanon.CanonNeverLengthens` | crates/sprout-preload/csrc/sprout_preload.c:174-208 | the result is never longer than the input |
| `PathTranslate.SortInPlace` | crates/sprout-preload/csrc/sprout_preload.c:146-156 | the insertion sort on the array is the sort on values and touches nothing behind it |
| `PathTranslate.SortIsStable` | crates/sprout-preload/csrc/sprout_preload.c:146-156 | the sort orders by guest length, longest first, and keeps the order among equal lengths |
| `PathTranslate.LongestGuestWins` | crates/sprout-preload/csrc/sprout_preload.c:397-435 | with a table sorted at load, a path that some bind covers and that is not host-side is translated by the bind with the longest guest path that does, the first given of equals, whatever is passed through, and left alone if that does not fit |
| `PathTranslate.RuleIff` | crates/sprout-preload/csrc/sprout_preload.c:382-454 | the exact condition of each rule: a bind translates if and only if it is the longest that covers the path and the result fits; the rootfs does if and only if no bind and no pass-through prefix covers the path, there is a rootfs, and it fits |
| `PathTranslate.TranslateMeans` | crates/sprout-preload/csrc/sprout_preload.c:424-454 | what comes out: the components behind the bind's host path, or behind the rootfs, `..` never climbing above either |
| `PathTranslate.BindBeatsPassThrough` | crates/sprout-preload/csrc/sprout_preload.c:421-435 | an instance: with `/dev` passed through and `/dev/shm` bound, `/dev/shm/x` goes to the bind |
| `PathTranslate.OthersPassThrough` | crates/sprout-preload/csrc/sprout_preload.c:437-441 | and `/dev/null` is left alone |
| `PathTranslate.RetranslateIsNoop` | crates/sprout-preload/csrc/sprout_preload.c:397-454 | a path translated through the rootfs lies in the rootfs and is not translated again |
| `PathTranslate.DeepestIsDeepest` | crates/sprout-preload/csrc/sprout_preload.c:470-478 | the reverse scan picks a bind with the longest host prefix |
| `PathTranslate.ReverseMeans` | crates/sprout-preload/csrc/sprout_preload.c:460-508 | a host path comes back behind the guest path of the bind with the longest host path that covers it, unless the rootfs covers it with a longer one; then, or without a bind, behind `/`; and otherwise as it is |
| `PathTranslate.BindRoundTrip` | crates/sprout-preload/csrc/sprout_preload.c:424-508 | where the bind is the only deepest host match, reversing a translation gives the path canonicalized at the guest prefix, except in exactly one trailing-slash shape |
| `PathTranslate.TrailingSlashIsLost` | crates/sprout-preload/csrc/sprout_preload.c:424-508 | an instance of that shape: a bind and a path whose trailing slash does not come back |
| `PathTranslate.RootfsRoundTrip` | crates/sprout-preload/csrc/sprout_preload.c:443-508 | where no bind is as deep as the rootfs, reversing a translation gives the canonical guest path |
| `PathTranslate.ReverseTranslate` | crates/sprout-preload/csrc/sprout_preload.c:460-508 | the scanning loop computes the reverse mapping |
| `LinkChase.ResolvedStaysInside` | crates/sprout-preload/csrc/sprout_preload.c:226-346 | for every file system, also one that changes between queries, resolving a contained path gives, in a bounded number of queries, a path in the rootfs at a component boundary with no `..` above it |
| `LinkChase.ChaseEnds` | crates/sprout-preload/csrc/sprout_preload.c:284-334 | the chase makes at most 17 queries; a miss is one of the path it leaves; a path found clean within the budget has nothing left to follow |
| `LinkChase.ChaseIsFinal` | crates/sprout-preload/csrc/sprout_preload.c:284-334 | on a file system that holds still, chasing the result of a chase again changes nothing |
| `LinkChase.ChaseFinal` | crates/sprout-preload/csrc/sprout_preload.c:284-334 | the buffer follows the chase function hop by hop and stays contained |
| `LinkChase.FollowOnce` | crates/sprout-preload/csrc/sprout_preload.c:294-312 | one hop in the buffer: relative, rootfs-spelled and guest-absolute targets |
| `LinkChase.WalkOnce` | crates/sprout-preload/csrc/sprout_preload.c:231-277 | one walk over the components: splices the first link or leaves the path alone |
| `LinkChase.ResolveIntermediate` | crates/sprout-preload/csrc/sprout_preload.c:226-279 | at most sixteen walks, as the walk function says; the buffer stays contained |
| `LinkChase.ResolveLinks` | crates/sprout-preload/csrc/sprout_preload.c:336-346 | chase, and after a miss walk and chase again; the buffer stays contained |
| `LinkChase.TranslateInto` | crates/sprout-preload/csrc/sprout_preload.c:382-454 | without following, and with following where a bound path is not a link, the buffer gets the translation; on the rootfs branch with following it gets the resolved path and stays contained |
| `LinkChase.RootLinkStays` | crates/sprout-preload/csrc/sprout_preload.c:294-301 | a relative link at the rootfs itself stays inside exactly when its target starts with the rootfs' own last name |
| `LinkParent.RelativeLinkIff` | crates/sprout-preload/csrc/sprout_preload.c:256-271 | the walk resolves a relative link in the directory that holds it if and only if it is the final component or its target, with what follows it, climbs to the rootfs |
| `LinkParent.OneLevelApart` | crates/sprout-preload/csrc/sprout_preload.c:174-208 | two canonicalizations that start one level apart end alike if and only if they climb to the floor |
| `LinkParent.TargetBehindTheLink` | crates/sprout-preload/csrc/sprout_preload.c:256-266 | an instance: the target of `/a/l` is looked for under `/a/l`, not `/a` |
| `LinkMeaning.AbsoluteHop` | crates/sprout-preload/csrc/sprout_preload.c:303-311 | a hop over an absolute link leads to the components of its target, from the guest's root, in either spelling |
| `LinkMeaning.RelativeHop` | crates/sprout-preload/csrc/sprout_preload.c:294-301 | a hop over a relative link leads to the components of its target, from the directory that holds the link |
| `LinkMeaning.HopIff` | crates/sprout-preload/csrc/sprout_preload.c:288-311 | a hop is taken if and only if the path is a readable link and the new path fits |
| `LinkMeaning.LastLook` | crates/sprout-preload/csrc/sprout_preload.c:313-333 | after the last hop an absolute target not spelled under the rootfs is put under it once more, and nothing else happens |
| `LinkMeaning.ResolvedEnds` | crates/sprout-preload/csrc/sprout_preload.c:336-346 | for every file system, also one that changes, a resolution ends with the path it asked about last: missing, or with nothing left to follow, or the last look after sixteen hops |
| `LinkMeaning.AbsoluteSplice` | crates/sprout-preload/csrc/sprout_preload.c:245-255 | an absolute link in the middle of a path leads to the components of its target from the guest's root and, behind them, those that followed the link |
| `LinkMeaning.RelativeSplice` | crates/sprout-preload/csrc/sprout_preload.c:256-265 | a relative one leads to those of the path up to and with the link, then the target's and those that followed; as the last component, from its directory |
| `LinkMeaning.SearchMeans` | crates/sprout-preload/csrc/sprout_preload.c:231-276 | for every file system, the walk asks about the components in order and stops at the first that is missing or a readable link |
| `LinkMeaning.WalkMeans` | crates/sprout-preload/csrc/sprout_preload.c:231-277 | on a file system that holds still, the first component that is missing or a link is spliced if it is a link and the result fits, and otherwise nothing changes |
| `LinkMeaning.FinalLinkIsFollowed` | crates/sprout-preload/csrc/sprout_preload.c:284-338 | a path that is a link to something that is there resolves to the components of the target |
| `LinkMeaning.MidPathLinkIsFollowed` | crates/sprout-preload/csrc/sprout_preload.c:218-279 | a path that is not found and has an absolute link in its middle resolves to the components of the target and, behind them, those that followed the link, where all of that is there |
| `LinkMeaning.NoLinkIsLeft` | crates/sprout-preload/csrc/sprout_preload.c:226-279 | unless all sixteen walks are used, the path they leave has no link in front of the first missing component, or one whose target does not fit |
| `LinkMeaning.LibIsFollowed` | crates/sprout-preload/csrc/sprout_preload.c:245-255 | an instance: `/lib/x` with `/lib` linked to `/usr/lib` resolves to `/usr/lib/x` in the rootfs |
| `LowArena.Classify` | crates/sprout-preload/csrc/sprout_preload.c:6631-6638 | the loop finds the size and the class of every 64-bit request, wrapped ones included |
| `LowArena.CoveredIff` | crates/sprout-preload/csrc/sprout_preload.c:6631 | the block is as big as the request if and only if rounding the request up does not wrap |
| `LowArena.LargestRequestIsShort` | crates/sprout-preload/csrc/sprout_preload.c:6631 | a request of 2^64 - 1 bytes gets 32 |
| `LowArena.ClassFromIsLeast` | crates/sprout-preload/csrc/sprout_preload.c:6633-6638 | that class is the smallest whose blocks hold the request |
| `LowArena.CarveKeepsSound` | crates/sprout-preload/csrc/sprout_preload.c:6659-6662 | cutting a block from the bump pool keeps live blocks, listed blocks and the rest of the pool pairwise disjoint, headers included |
| `LowArena.PushKeepsChained` | crates/sprout-preload/csrc/sprout_preload.c:6720-6722 | linking a header in front of its list through its next field keeps every list what it stands for |
| `LowArena.PopKeepsChained` | crates/sprout-preload/csrc/sprout_preload.c:6640-6641 | unlinking the first header of a list and clearing its next field keeps every list what it stands for |
| `LowArena.PoolHoldsBlockIff` | crates/sprout-preload/csrc/sprout_preload.c:6643-6645 | a new pool holds the block it is mapped for if and only if its 64-bit size does not overflow; it is then the block, its header, the alignment and 4 MiB, in whole pages |
| `LowArena.LargestPoolIsShort` | crates/sprout-preload/csrc/sprout_preload.c:6643-6645 | the largest request whose rounding does not wrap gets a pool smaller than its block |
| `LowArena.Arena.Alloc` | crates/sprout-preload/csrc/sprout_preload.c:6627-6670 | a new payload is 16-aligned, of the size the request gets, and in a block that was not live; no header changes; the first block of the class's list is used first, and a newly cut one has the alignment asked for if that is a power of two; it fails if and only if the list is empty, the rest of the pool too small and the kernel refuses a pool of exactly the size asked for |
| `LowArena.Arena.Obtain` | crates/sprout-preload/csrc/sprout_preload.c:6639-6662 | the same for a class and size, with the address a new block gets |
| `Masks.AlignsIff` | crates/sprout-preload/csrc/sprout_preload.c:6659 | the mask gives multiples of the alignment for every address if and only if the alignment is a power of two |
| `Masks.AlignsToFactor` | crates/sprout-preload/csrc/sprout_preload.c:6659 | it gives multiples of every power of two that divides the alignment |
| `Masks.FortyEightIsMissed` | crates/sprout-preload/csrc/sprout_preload.c:6659 | an instance: alignment 48 in a new pool |
| `LowArena.FreeThenObtain` | crates/sprout-preload/csrc/sprout_preload.c:6627-6732 | a freed block is the next one handed out for its class, whatever alignment is asked for |
| `LowArena.ReuseIgnoresAlignment` | crates/sprout-preload/csrc/sprout_preload.c:6640-6641 | a run in which a request for alignment 64 gets an odd multiple of 32 |
| `LowArena.Arena.Free` | crates/sprout-preload/csrc/sprout_preload.c:6707-6732 | the block is no longer live, and goes to the front of its class's list or nowhere |
| `LowArena.LargeFreeNeverUnmaps` | crates/sprout-preload/csrc/sprout_preload.c:6722-6726 | the address given to munmap for a large block is never page aligned |
| `LowArena.CheckedProduct` | crates/sprout-preload/csrc/sprout_preload.c:6691-6693 | the division test refuses exactly the products that overflow 64 bits |
| `LowArena.Arena.Calloc` | crates/sprout-preload/csrc/sprout_preload.c:6689-6705 | the block holds the product in zero bytes, and every other live block keeps header and contents; it fails exactly when the product overflows or there is no block to be had |
| `LowArena.StoredIff` | crates/sprout-preload/csrc/sprout_preload.c:6666 | a header records the size of its block if and only if the size is below 4 GiB |
| `LowArena.FourGigabytesAreForgotten` | crates/sprout-preload/csrc/sprout_preload.c:6666 | the header of a 4 GiB block says it is empty |
| `LowArena.Arena.Realloc` | crates/sprout-preload/csrc/sprout_preload.c:6734-6748 | size zero releases; a size the header covers changes nothing; any other copies as many bytes as the header records to a new block and releases the old one, also when there is no new one, which is exactly when the allocation of the new size fails; every other live block keeps header and contents |
| `LowArena.FailedGrowthReleases` | crates/sprout-preload/csrc/sprout_preload.c:6743-6747 | a run in which a block is gone after a growth that failed |
| `Reservations.Table.Release` | crates/sprout-preload/csrc/sprout_preload.c:6511-6541 | the in-place scan terminates by (spans still to cut, rows left), unmaps the reserved part of the interval and leaves the rest |
| `Reservations.ReleaseIsSubtraction` | crates/sprout-preload/csrc/sprout_preload.c:6511-6541 | exactly the reserved addresses of the interval are unmapped; the table stays disjoint and non-empty and covers exactly the other addresses, less a dropped remainder |
| `Reservations.ExactUnlessFullAndSplit` | crates/sprout-preload/csrc/sprout_preload.c:6524-6533 | nothing is dropped if and only if the table was not full or no span sticks out of the interval on both sides |
| `Reservations.FullTableLosesRemainder` | crates/sprout-preload/csrc/sprout_preload.c:6524-6533 | an instance: 64 spans, one address released, another one lost |
| `Reservations.EditProgresses` | crates/sprout-preload/csrc/sprout_preload.c:6515-6540 | each cut leaves fewer spans to cut, also when it appends or swaps in the last row |
| `MemoCache.LookupIsLastPut` | crates/sprout-preload/csrc/sprout_preload.c:1239-1273 | after any run of puts and clears a lookup gives the value last put for the key since the last clear, or nothing if every such put found its probes taken |
| `MemoCache.EachKeyOnce` | crates/sprout-preload/csrc/sprout_preload.c:1289-1318 | after any run of puts and clears no key is in the table twice |
| `MemoCache.StoreKeepsOk` | crates/sprout-preload/csrc/sprout_preload.c:1253-1265 | a put keeps every entry where its own key's probe ends |
| `MemoCache.RoomIff` | crates/sprout-preload/csrc/sprout_preload.c:1253-1263 | a put finds a place if and only if one of its probes, counted on from the hash and around the end, is free or holds the key |
| `MemoCache.CutKeyAnswersForAnother` | crates/sprout-preload/csrc/sprout_preload.c:1306-1308 | a key longer than its buffer would answer for its shorter form; the callers only store names below 96 bytes |
| `MemoCache.Cache.Get` | crates/sprout-preload/csrc/sprout_preload.c:1244-1252 | the probe loop is the lookup |
| `MemoCache.Cache.Put` | crates/sprout-preload/csrc/sprout_preload.c:1253-1265 | the probe loop is the store |
| `MemoCache.Cache.Clear` | crates/sprout-preload/csrc/sprout_preload.c:1271-1273 | every slot is free |
| `Frames.ParseFrames` | crates/sprout-cli/src/uml.rs:208-236 | the cursor loop is the parse function |
| `Frames.ParseInvertsEncode` | crates/sprout-cli/src/uml.rs:208-236 | for every chunking of the two streams, with unknown streams in between and anything behind, the parser returns the exit code and both streams |
| `Frames.StrictPrefixFails` | crates/sprout-cli/src/uml.rs:212-228 | a response cut anywhere is refused |
| `Frames.SuffixIsIgnored` | crates/sprout-cli/src/uml.rs:217-223 | bytes behind anything that parses change nothing |
| `Frames.StreamNumbers` | crates/sprout-cli/src/uml.rs:229-233 | the body of a frame of stream 1 comes out as stdout, of stream 2 as stderr |
| `Frames.WordIsLittleEndian` | crates/sprout-cli/src/uml.rs:215-222 | words are read lowest byte first |
| `Frames.HeaderBytes` | uml/sprout-uml-agent.c:421-442 | a header is the stream and the length, four bytes each, lowest first |
| `Frames.PollResponse` | crates/sprout-cli/src/uml.rs:624-653 | re-reading a growing response succeeds if and only if some read was complete, and then with the right result |
| `Frames.Wire.SendFrame` | uml/sprout-uml-agent.c:421-442 | data goes out in frames of at most one chunk, empty data as one empty frame |
| `Frames.Wire.Pump` | uml/sprout-uml-agent.c:446-470 | both streams are forwarded read by read until each has ended |
| `Frames.Wire.Respond` | uml/sprout-uml-agent.c:571-579 | the frames, then the exit frame and the code |
| `Frames.ResponseParses` | uml/sprout-uml-agent.c:421-470 | what the agent sends for a child parses to the child's two outputs and its exit code |
| `DnsNames.DnExpand` | crates/sprout-preload/csrc/sprout-symfix/symfix.c:81-115 | on every message, cyclic ones included, the loop ends by (hops left, bytes to the end), succeeds if and only if the name is well formed and fits, and writes its dotted form, a zero byte and nothing else |
| `DnsNames.NameRoundTrip` | crates/sprout-preload/csrc/sprout-symfix/symfix.c:88-112 | expanding encoded labels gives them back and the encoded length |
| `DnsNames.CompressedName` | crates/sprout-preload/csrc/sprout-symfix/symfix.c:95-102 | labels in front of a pointer, two bytes with the upper two bits set and the offset in the other fourteen, are followed by the labels at that offset; the name ends behind the pointer |
| `DnsNames.CycleIsRefused` | crates/sprout-preload/csrc/sprout-symfix/symfix.c:95-102 | a pointer back to its own name is refused |
| `DnsNames.ChainIff` | crates/sprout-preload/csrc/sprout-symfix/symfix.c:95-102 | a chain of pointers makes a name if and only if there are at most 128 of them |
| `DnsNames.DnsEncode` | crates/sprout-preload/csrc/sprout_preload.c:1925-1949 | memory from the start of the buffer on holds exactly the query, zeros to the end of the buffer, and what was there behind; refused if and only if a label in front of the first empty one is longer than 63 bytes |
| `DnsNames.RefusedIff` | crates/sprout-preload/csrc/sprout_preload.c:1932-1940 | what the scan refuses is exactly a label longer than 63 bytes |
| `DnsNames.StaysInBufferIff` | crates/sprout-preload/csrc/sprout_preload.c:1925-1949 | nothing behind the 512-byte buffer changes if and only if the labels sent and their frame fit it |
| `DnsNames.LongNameOverruns` | crates/sprout-preload/csrc/sprout_preload.c:1932-1943 | 300 one-letter labels, all short enough, need 617 bytes |
| `DnsNames.QueryRoundTrip` | crates/sprout-preload/csrc/sprout_preload.c:1925-1949 | the name field of a query expands to the labels encoded |
| `DnsNames.EncodedFields` | crates/sprout-preload/csrc/sprout_preload.c:1925-1949 | field by field, as sixteen-bit words read from the buffer: the identifier, the flags 0x0100, one question and no records; the labels of the host name; the type asked for and the Internet class; zeros behind |
| `DnsNames.HostNameSurvives` | crates/sprout-preload/csrc/sprout_preload.c:1932-1943 | the dotted form is the host name if and only if the name has no empty label |
| `DnsNames.TrailingDotIsLost` | crates/sprout-preload/csrc/sprout_preload.c:1932-1943 | `a.` comes back as `a` |
| `GuestReal.GuestReal` | crates/sprout-core/src/rootfs.rs:246-314 | the loop over stack, pending names and hops is the walk function, and ends by (hops left, names pending) |
| `GuestReal.ResolveIsFixed` | crates/sprout-core/src/rootfs.rs:246-314 | nothing on the way to a result is a link, at most 16 links were taken, and resolving it again returns it without taking one |
| `GuestReal.WalkComposes` | crates/sprout-core/src/rootfs.rs:269-308 | a path is resolved piece by piece |
| `GuestReal.LimitOnlyRefuses` | crates/sprout-core/src/rootfs.rs:287-290 | the hop limit decides whether there is an answer, never which |
| `GuestReal.LinkLands` | crates/sprout-core/src/rootfs.rs:291-308 | a path through one link ends where the link leads, and what follows the link behind it: from the directory that holds the link if its target is relative, from the guest's root if it is absolute, and without the host's spelling of the rootfs if that is in front |
| `GuestReal.FailsThere` | crates/sprout-core/src/rootfs.rs:283-291 | a missing name ends the walk, and so does a link that cannot be read |
| `GuestReal.LinkToItself` | crates/sprout-core/src/rootfs.rs:287-308 | a link that leads to itself is refused |
| `GuestReal.ChainIff` | crates/sprout-core/src/rootfs.rs:287-290 | a chain of links is resolved if and only if there are at most sixteen of them |
| `GuestReal.PoppedIff` | crates/sprout-core/src/rootfs.rs:253-264 | popping `..` leaves the names that dropping it leaves if and only if no `..` has a name to take back |
| `GuestReal.AgreesWithoutParents` | crates/sprout-core/src/rootfs.rs:246-314 | on every file system, missing names and unreadable links included, in whose link targets no `..` has a name to take back, a path in which none has is resolved as documented, `..` popped in path and targets |
| `GuestReal.AgreesOnTameIff` | crates/sprout-core/src/rootfs.rs:246-314 | a path is resolved as documented on every file system with such links if and only if no `..` stands behind a name in it |
| `GuestReal.OneLinkIff` | crates/sprout-core/src/rootfs.rs:287-308 | where both walks find something by way of one link at the end of a path, they find the same if and only if no `..` of its target has a name to take back |
| `GuestReal.AgreesEverywhereIff` | crates/sprout-core/src/rootfs.rs:246-314 | a path is resolved as documented on every file system whatever its links if and only if it has no names |
| `GuestReal.DropsInsteadOfPops` | crates/sprout-core/src/rootfs.rs:256-264 | where nothing is a link and both walks find something, they find the same if and only if no `..` stands behind a name |
| `GuestReal.ParentIsDropped` | crates/sprout-core/src/rootfs.rs:256-264 | `/a/../b` is looked up as `/a/b` |
| `GuestReal.LinkParentIsDropped` | crates/sprout-core/src/rootfs.rs:301-303 | `/d/a`, a link to `../b`, ends at `/d/b` |
| `SeccompFilter.Build` | crates/sprout-ptrace/csrc/sprout_stub.c:625-648 | the array holds the layout, with each offset cut to a byte |
| `SeccompFilter.FilterDecides` | crates/sprout-ptrace/csrc/sprout_stub.c:596-648 | for all tables whose offsets fit, the program kills a foreign architecture, else traces traced calls, else notifies on trapped ones, else allows |
| `SeccompFilter.RightIffFits` | crates/sprout-ptrace/csrc/sprout_stub.c:634-645 | for tables without repetitions the program is right on every call if and only if the offsets fit a byte |
| `SeccompFilter.InstallFilter` | crates/sprout-ptrace/csrc/sprout_stub.c:596-648 | the shipped tables fit the 43-entry buffer and their program decides every call |
| `ElfLoad.SegmentContents` | crates/sprout-ptrace/csrc/sprout_stub.c:270-299 | a loaded segment shows its file bytes, which fault in pages behind the end of the file, and zeros behind them up to its memory size |
| `ElfLoad.GapFaultsIff` | crates/sprout-ptrace/csrc/sprout_stub.c:293-298 | zeroing the rest of the page the file bytes end in faults if and only if the file ends before that page |
| `ElfLoad.ShortFileKills` | crates/sprout-ptrace/csrc/sprout_stub.c:293-298 | an instance: a file that ends behind its ELF header and one program header, whose segment claims a byte of the next page |
| `ElfLoad.WholeSegmentIsSafe` | crates/sprout-ptrace/csrc/sprout_stub.c:293-298 | a segment whose bytes the file holds never faults |
| `ElfLoad.ImageContents` | crates/sprout-ptrace/csrc/sprout_stub.c:265-305 | after a load every segment is in memory as the file has it, later segments notwithstanding |
| `ElfLoad.LoadsIffApart` | crates/sprout-ptrace/csrc/sprout_stub.c:282-298 | a load succeeds if and only if the segments' pages were free and do not overlap and no segment's file bytes end in a page behind the end of the file |
| `ElfLoad.Loader.LoadSegment` | crates/sprout-ptrace/csrc/sprout_stub.c:270-299 | the mapping and zeroing steps produce the loaded memory, fail exactly on a collision, or die exactly on a fault |
| `ElfLoad.Loader.LoadGuest` | crates/sprout-ptrace/csrc/sprout_stub.c:265-318 | the segment loop, the header address and the entry point |
| `ElfLoad.PhdrHoldsHeaders` | crates/sprout-ptrace/csrc/sprout_stub.c:308-317 | the reported address shows the file from the program headers on, as far as the segment's file bytes reach |

## Left out

- Memory order: the concurrent models are sequentially consistent; fences and weak-memory effects are not modelled.
- `RequestRing`, `RingRuns`: the holder's 60-second and 5-second timeouts, and the agent's out-of-memory and fork failures, which publish a slot without an answer.  After an early poll only what holds until the agent's next step is proved.
- `ShadowRace`: compaction during a lookup, and the liveness test, which is a parameter.
- `ShadowTable`: the byte encoding of the rows, the wrap of the 64-bit generation, and the row checksum the reader computes and does not use.
- `PathTranslate`: the `/proc/self/exe` and fake-`/proc` reroutes, and the truncation of a reversed path to a small output buffer.
- TranslateInto: with following set, says nothing of a bound path that is a link or missing: the code follows it with the rootfs length as its floor, which is not modelled; the second chase in `sp_translate_xf` is not modelled.
- WalkOnce: at the rootfs itself the code searches for a slash behind the string's end and may find stale bytes; the model asks about the rootfs once and stops.  The path is the same, since the rootfs is a directory; the number of queries may differ.
- Alloc: the spin lock, the boot pool and the fallback to the C library's allocator are not modelled; the case in which the size of the pool overflows is excluded, since the block then does not fit its pool, and so are alignments above 16 that are not multiples of 16.
- Calloc: likewise, and for products whose rounding wraps, where the block is smaller than what is zeroed.
- Realloc: likewise, for sizes that are not covered; a null pointer is a plain allocation, and the C library's allocator, which the code tries before it gives up, is taken to have nothing.
- Free: only for addresses the code takes for the arena's own; a block that a pool reaching past 4 GiB puts beyond it goes to the C library instead.
- `MemoCache`: the two hash functions, since the results hold for every hash.
- `DnsNames`: the answer walker and the sockets around it.
- `Frames`: the EXEC request body and the transports that carry it.
- `ElfLoad`: reading and checking the ELF header, page protections, 64-bit address overflow, and files that change while mapped.
- `GuestReal`: the spelling of host paths; the file system is asked by the names below the rootfs.
- The libc wrapper layer, the exec chain, NSS, guest boot, transports, CLI, journal and planning code: calls into the outside world with little logic of their own.
- `sprout_sysvipc.c`: its multi-operation `semop` is not atomic, so the law one would want does not hold, and the single-operation case is easy.
