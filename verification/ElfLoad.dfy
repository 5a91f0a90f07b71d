/** The static stub's ELF loader: page arithmetic, private file mappings that
    never replace anything, the zero-filled tail of a segment, and the address at
    which the program headers end up. */
module ElfLoad {
  import opened Common

  const PAGE: nat := 4096
  const PIE_BASE: nat := 0x4000_0000

  datatype Segment = Segment(isLoad: bool, offset: nat, vaddr: nat, filesz: nat, memsz: nat)

  /** A mapped byte: its value, or a fault if its page is behind the end of the file. */
  datatype Cell = Val(b: Byte) | Bus

  /** What is at each address; nothing where nothing is mapped. */
  type Memory = nat -> Option<Cell>

  // ---------------------------------------------------------------------------
  // Pages

  function Down(x: nat): (r: nat)
    ensures r <= x < r + PAGE && r % PAGE == 0
  {
    x - x % PAGE
  }

  function Up(x: nat): (r: nat)
    ensures x <= r < x + PAGE && r % PAGE == 0
  {
    Down(x + PAGE - 1)
  }

  /** A byte of the file as a private mapping shows it: zeros up to the end of the
      last page, and nothing that can be touched behind it. */
  function FileCell(file: seq<Byte>, k: nat): Cell {
    if k < |file| then Val(file[k]) else if Down(k) < |file| then Val(0) else Bus
  }

  /** First and last page boundary of a segment in memory. */
  function First(base: nat, s: Segment): nat { Down(base + s.vaddr) }

  function Last(base: nat, s: Segment): nat { Up(base + s.vaddr + s.memsz) }

  /** How many bytes of its pages come from the file. */
  function FileLen(base: nat, s: Segment): (r: nat)
    ensures r <= Last(base, s) - First(base, s)
  {
    var flen := Up(s.offset + s.filesz) - Down(s.offset);
    var mlen := Last(base, s) - First(base, s);
    if flen > mlen then mlen else flen
  }

  // ---------------------------------------------------------------------------
  // Mappings

  predicate Unmapped(m: Memory, at: nat, len: nat) {
    forall a: nat | at <= a < at + len :: m(a).None?
  }

  function WithFile(m: Memory, at: nat, len: nat, file: seq<Byte>, off: nat): Memory {
    if len == 0 then m
    else (a: nat) => if at <= a < at + len then Some(FileCell(file, off + (a - at))) else m(a)
  }

  function WithZeros(m: Memory, at: nat, len: nat): Memory {
    if len == 0 then m
    else (a: nat) => if at <= a < at + len then Some(Val(0)) else m(a)
  }

  lemma SplitUnmapped(m: Memory, at: nat, x: nat, len: nat, file: seq<Byte>, off: nat)
    requires x <= len
    ensures Unmapped(m, at, len) <==> Unmapped(m, at, x) && Unmapped(WithFile(m, at, x, file, off), at + x, len - x)
  {
    var w := WithFile(m, at, x, file, off);
    assert forall a: nat | at + x <= a < at + len :: w(a) == m(a);
    if Unmapped(m, at, x) && Unmapped(w, at + x, len - x) {
      forall a: nat | at <= a < at + len ensures m(a).None? {
        assert a >= at + x ==> w(a).None?;
      }
    }
  }

  /** The end of the zeroed gap behind the file bytes. */
  function GapEnd(base: nat, s: Segment): nat {
    var init, end := base + s.vaddr + s.filesz, base + s.vaddr + s.memsz;
    if Up(init) > end then end else Up(init)
  }

  function Mapped(m: Memory, file: seq<Byte>, base: nat, s: Segment): Memory {
    var first, flen := First(base, s), FileLen(base, s);
    WithZeros(WithFile(m, first, flen, file, Down(s.offset)), first + flen, Last(base, s) - first - flen)
  }

  /** File bytes end inside a page that goes on with zeros. */
  predicate HasGap(base: nat, s: Segment) {
    var init := base + s.vaddr + s.filesz;
    Up(init) > init && s.filesz < s.memsz
  }

  /** Some byte of a range cannot be touched. */
  predicate Faulty(m: Memory, at: nat, len: nat) {
    exists a: nat | at <= a < at + len :: m(a) == Some(Bus)
  }

  /** Zeroing the gap touches a page behind the end of the file. */
  predicate GapFaults(m: Memory, file: seq<Byte>, base: nat, s: Segment) {
    var init := base + s.vaddr + s.filesz;
    HasGap(base, s) && Faulty(Mapped(m, file, base, s), init, GapEnd(base, s) - init)
  }

  /** Memory once a segment is in place. */
  function Loaded(m: Memory, file: seq<Byte>, base: nat, s: Segment): Memory {
    var init := base + s.vaddr + s.filesz;
    if HasGap(base, s)
    then WithZeros(Mapped(m, file, base, s), init, GapEnd(base, s) - init)
    else Mapped(m, file, base, s)
  }

  /** What the ELF format asks of a loadable segment. */
  predicate WellFormed(s: Segment) {
    s.offset % PAGE == s.vaddr % PAGE && s.filesz <= s.memsz
  }

  // ---------------------------------------------------------------------------
  // What a loaded segment is

  lemma UpOfAligned(d: nat, z: nat)
    requires d % PAGE == 0
    ensures Up(d + z) == d + Up(z)
  {
  }

  /** Rounding does the same to addresses with the same place in their page. */
  lemma SameInPage(x: nat, y: nat, d: nat)
    requires x % PAGE == y % PAGE
    ensures x - Down(x) == y - Down(y) && Up(x + d) - Down(x) == Up(y + d) - Down(y)
  {
    UpOfAligned(Down(x), x % PAGE + d);
    UpOfAligned(Down(y), y % PAGE + d);
  }

  lemma Congruent(base: nat, s: Segment)
    requires base % PAGE == 0 && WellFormed(s)
    ensures base + s.vaddr - First(base, s) == s.offset - Down(s.offset)
    ensures Up(base + s.vaddr + s.filesz) - First(base, s) == Up(s.offset + s.filesz) - Down(s.offset)
  {
    assert (base + s.vaddr) % PAGE == s.vaddr % PAGE;
    SameInPage(base + s.vaddr, s.offset, s.filesz);
  }

  lemma FileLenExact(base: nat, s: Segment)
    requires base % PAGE == 0 && WellFormed(s)
    ensures First(base, s) + FileLen(base, s) == Up(base + s.vaddr + s.filesz)
  {
    Congruent(base, s);
    UpGrows(base + s.vaddr + s.filesz, base + s.vaddr + s.memsz);
  }

  lemma UpGrows(x: nat, y: nat)
    requires x <= y
    ensures Up(x) <= Up(y)
  {
  }

  /** The page in which the file bytes end is behind the end of the file. */
  predicate PastEnd(file: seq<Byte>, base: nat, s: Segment) {
    HasGap(base, s) && Down(s.offset + s.filesz) >= |file|
  }

  lemma ShowsFile(m: Memory, file: seq<Byte>, off: nat, first: nat, flen: nat, mlen: nat, a: nat)
    requires flen <= mlen && first <= a < first + flen
    ensures WithZeros(WithFile(m, first, flen, file, off), first + flen, mlen - flen)(a)
         == Some(FileCell(file, off + (a - first)))
  {
  }

  /** What the mapping shows up to the end of the page the file bytes end in. */
  lemma FileShows(m: Memory, file: seq<Byte>, base: nat, s: Segment, a: nat)
    requires base % PAGE == 0 && WellFormed(s)
    requires base + s.vaddr <= a < Up(base + s.vaddr + s.filesz)
    ensures Mapped(m, file, base, s)(a) == Some(FileCell(file, s.offset + (a - base - s.vaddr)))
  {
    var first, flen := First(base, s), FileLen(base, s);
    assert Down(s.offset) + (a - first) == s.offset + (a - base - s.vaddr) by { Congruent(base, s); }
    assert a < first + flen by { FileLenExact(base, s); }
    ShowsFile(m, file, Down(s.offset), first, flen, Last(base, s) - first, a);
  }

  /** File bytes first, zeros behind them, nothing else touched. */
  lemma SegmentContents(m: Memory, file: seq<Byte>, base: nat, s: Segment, k: nat)
    requires base % PAGE == 0 && WellFormed(s) && k < s.memsz
    ensures Loaded(m, file, base, s)(base + s.vaddr + k)
         == Some(if k < s.filesz then FileCell(file, s.offset + k) else Val(0))
  {
    var a, init := base + s.vaddr + k, base + s.vaddr + s.filesz;
    if a < Up(init) {
      FileShows(m, file, base, s, a);
    } else {
      FileLenExact(base, s);
    }
  }

  lemma InPage(x: nat, y: nat, d: nat)
    requires x % PAGE == y % PAGE && x + d < Up(x)
    ensures Down(y + d) == Down(y)
  {
  }

  lemma ModShift(z: nat, y: nat, q: int)
    requires z == y + PAGE * q
    ensures z % PAGE == y % PAGE
  {
  }

  lemma SameResidue(base: nat, s: Segment)
    requires base % PAGE == 0 && WellFormed(s)
    ensures (base + s.vaddr + s.filesz) % PAGE == (s.offset + s.filesz) % PAGE
  {
    var q := base / PAGE + s.vaddr / PAGE - s.offset / PAGE;
    ModShift(base + s.vaddr + s.filesz, s.offset + s.filesz, q);
  }

  /** The gap is in one page, and the mapping shows one page of the file there. */
  lemma GapShows(m: Memory, file: seq<Byte>, base: nat, s: Segment, a: nat)
    requires base % PAGE == 0 && WellFormed(s) && base + s.vaddr + s.filesz <= a < GapEnd(base, s)
    ensures Mapped(m, file, base, s)(a) == Some(Bus) <==> Down(s.offset + s.filesz) >= |file|
  {
    var init, y := base + s.vaddr + s.filesz, s.offset + s.filesz;
    FileShows(m, file, base, s, a);
    assert Down(y + (a - init)) == Down(y) by {
      SameResidue(base, s);
      InPage(init, y, a - init);
    }
  }

  lemma FaultyAll(m: Memory, at: nat, len: nat, bad: bool)
    requires len > 0 && forall a: nat | at <= a < at + len :: m(a) == Some(Bus) <==> bad
    ensures Faulty(m, at, len) <==> bad
  {
    assert m(at) == Some(Bus) <==> bad;
  }

  /** Zeroing the gap faults exactly when the file ends before the page the gap
      is in. */
  lemma GapFaultsIff(m: Memory, file: seq<Byte>, base: nat, s: Segment)
    requires base % PAGE == 0 && WellFormed(s)
    ensures GapFaults(m, file, base, s) <==> PastEnd(file, base, s)
  {
    if HasGap(base, s) {
      var init, end, mapped := base + s.vaddr + s.filesz, GapEnd(base, s), Mapped(m, file, base, s);
      var bad := Down(s.offset + s.filesz) >= |file|;
      forall a: nat | init <= a < end ensures mapped(a) == Some(Bus) <==> bad {
        GapShows(m, file, base, s, a);
      }
      FaultyAll(mapped, init, end - init, bad);
    }
  }

  /** A file that ends behind its ELF header and its one program header, whose
      segment claims a byte of the next page and one zero behind it. */
  lemma ShortFileKills(m: Memory, file: seq<Byte>)
    requires |file| == 120 && Unmapped(m, PIE_BASE + PAGE, PAGE)
    ensures LoadOne(m, file, PIE_BASE, Segment(true, PAGE, PAGE, 1, 2)) == Killed
  {
    var s := Segment(true, PAGE, PAGE, 1, 2);
    assert First(PIE_BASE, s) == PIE_BASE + PAGE && Last(PIE_BASE, s) == PIE_BASE + PAGE + PAGE;
    assert GapFaults(m, file, PIE_BASE, s) by {
      GapFaultsIff(m, file, PIE_BASE, s);
      assert Up(PIE_BASE + PAGE + 1) == PIE_BASE + PAGE + PAGE && Down(PAGE + 1) == PAGE;
    }
  }

  /** A segment whose bytes the file holds never faults. */
  lemma WholeSegmentIsSafe(file: seq<Byte>, base: nat, s: Segment)
    requires base % PAGE == 0 && WellFormed(s) && s.offset + s.filesz <= |file|
    ensures !PastEnd(file, base, s)
  {
    SameResidue(base, s);
  }

  lemma SegmentElsewhere(m: Memory, file: seq<Byte>, base: nat, s: Segment, a: nat)
    requires s.filesz <= s.memsz && !(First(base, s) <= a < Last(base, s))
    ensures Loaded(m, file, base, s)(a) == m(a)
  {
  }

  lemma SegmentMapsAll(m: Memory, file: seq<Byte>, base: nat, s: Segment, a: nat)
    requires First(base, s) <= a < Last(base, s)
    ensures Loaded(m, file, base, s)(a).Some?
  {
  }

  // ---------------------------------------------------------------------------
  // The whole image

  /** Memory after a load, or why there is none: a mapping would have replaced
      another, or the loader was killed by its own store. */
  datatype Image = Image(mem: Memory) | Collision | Killed

  ghost function LoadOne(m: Memory, file: seq<Byte>, base: nat, s: Segment): Image {
    if !Unmapped(m, First(base, s), Last(base, s) - First(base, s)) then Collision
    else if GapFaults(m, file, base, s) then Killed
    else Image(Loaded(m, file, base, s))
  }

  /** The loadable segments in turn. */
  ghost function LoadAll(m: Memory, file: seq<Byte>, base: nat, segs: seq<Segment>): Image {
    if segs == [] then Image(m)
    else
      var n := |segs| - 1;
      var before := LoadAll(m, file, base, segs[..n]);
      if !before.Image? || !segs[n].isLoad then before else LoadOne(before.mem, file, base, segs[n])
  }

  /** The pages of loadable segments are free and do not overlap. */
  ghost predicate Apart(m: Memory, base: nat, segs: seq<Segment>) {
    && (forall i | 0 <= i < |segs| && segs[i].isLoad ::
          Unmapped(m, First(base, segs[i]), Last(base, segs[i]) - First(base, segs[i])))
    && (forall i, j | 0 <= i < j < |segs| && segs[i].isLoad && segs[j].isLoad :: Separate(base, segs[i], segs[j]))
  }

  ghost predicate Separate(base: nat, s: Segment, t: Segment) {
    || Last(base, s) <= First(base, t) || Last(base, t) <= First(base, s)
    || First(base, s) == Last(base, s) || First(base, t) == Last(base, t)
  }

  ghost predicate AllWellFormed(segs: seq<Segment>) {
    forall i | 0 <= i < |segs| && segs[i].isLoad :: WellFormed(segs[i])
  }

  /** `a` is in a page of a loadable segment. */
  ghost predicate InImage(base: nat, segs: seq<Segment>, a: nat) {
    exists i | 0 <= i < |segs| && segs[i].isLoad :: First(base, segs[i]) <= a < Last(base, segs[i])
  }

  /** Exactly the segments' pages are added to what was mapped. */
  lemma {:induction false} LoadAllMaps(m: Memory, file: seq<Byte>, base: nat, segs: seq<Segment>, a: nat)
    requires AllWellFormed(segs) && LoadAll(m, file, base, segs).Image?
    ensures LoadAll(m, file, base, segs).mem(a).Some? <==> m(a).Some? || InImage(base, segs, a)
    ensures !InImage(base, segs, a) ==> LoadAll(m, file, base, segs).mem(a) == m(a)
  {
    if segs != [] {
      var n := |segs| - 1;
      var init, s := segs[..n], segs[n];
      assert AllWellFormed(init);
      LoadAllMaps(m, file, base, init, a);
      assert InImage(base, segs, a)
        <==> InImage(base, init, a) || (s.isLoad && First(base, s) <= a < Last(base, s)) by {
        if InImage(base, init, a) {
          var i :| 0 <= i < |init| && init[i].isLoad && First(base, init[i]) <= a < Last(base, init[i]);
          assert segs[i] == init[i];
        }
      }
      if s.isLoad {
        var before := LoadAll(m, file, base, init).mem;
        if First(base, s) <= a < Last(base, s) {
          SegmentMapsAll(before, file, base, s, a);
        } else {
          SegmentElsewhere(before, file, base, s, a);
        }
      }
    }
  }

  lemma LaterKeeps(m: Memory, file: seq<Byte>, base: nat, s: Segment, a: nat)
    requires WellFormed(s) && m(a).Some? && Unmapped(m, First(base, s), Last(base, s) - First(base, s))
    ensures Loaded(m, file, base, s)(a) == m(a)
  {
    assert !(First(base, s) <= a < Last(base, s));
    SegmentElsewhere(m, file, base, s, a);
  }

  lemma LastSegment(m: Memory, file: seq<Byte>, base: nat, segs: seq<Segment>, a: nat)
    requires segs != [] && AllWellFormed(segs) && LoadAll(m, file, base, segs).Image?
    ensures LoadAll(m, file, base, segs[..|segs| - 1]).Image? && AllWellFormed(segs[..|segs| - 1])
    ensures var before := LoadAll(m, file, base, segs[..|segs| - 1]).mem;
            before(a).Some? ==> LoadAll(m, file, base, segs).mem(a) == before(a)
  {
    var n := |segs| - 1;
    var before := LoadAll(m, file, base, segs[..n]).mem;
    if segs[n].isLoad && before(a).Some? { LaterKeeps(before, file, base, segs[n], a); }
  }

  /** What a segment shows at its byte `k`. */
  function Shown(file: seq<Byte>, s: Segment, k: nat): Cell {
    if k < s.filesz then FileCell(file, s.offset + k) else Val(0)
  }

  lemma OneContents(m: Memory, file: seq<Byte>, base: nat, s: Segment, k: nat)
    requires base % PAGE == 0 && WellFormed(s) && k < s.memsz && LoadOne(m, file, base, s).Image?
    ensures LoadOne(m, file, base, s).mem(base + s.vaddr + k) == Some(Shown(file, s, k))
  {
    SegmentContents(m, file, base, s, k);
  }

  lemma LastContents(m: Memory, file: seq<Byte>, base: nat, segs: seq<Segment>, k: nat, mem: Memory)
    requires segs != [] && base % PAGE == 0 && LoadAll(m, file, base, segs) == Image(mem)
    requires var s := segs[|segs| - 1]; WellFormed(s) && s.isLoad && k < s.memsz
    ensures var s := segs[|segs| - 1]; mem(base + s.vaddr + k) == Some(Shown(file, s, k))
  {
    var n := |segs| - 1;
    OneContents(LoadAll(m, file, base, segs[..n]).mem, file, base, segs[n], k);
  }

  /** Segment `i` right after it is loaded. */
  lemma FrontContents(m: Memory, file: seq<Byte>, base: nat, segs: seq<Segment>, i: nat, k: nat, mem: Memory)
    requires base % PAGE == 0 && i < |segs| && LoadAll(m, file, base, segs[..i + 1]) == Image(mem)
    requires WellFormed(segs[i]) && segs[i].isLoad && k < segs[i].memsz
    ensures mem(base + segs[i].vaddr + k) == Some(Shown(file, segs[i], k))
  {
    var front := segs[..i + 1];
    assert front[|front| - 1] == segs[i];
    LastContents(m, file, base, front, k, mem);
  }

  /** What is mapped after the first `j` segments stays through the others. */
  lemma {:induction false} StaysMapped(m: Memory, file: seq<Byte>, base: nat, segs: seq<Segment>, j: nat, a: nat,
                                       mem: Memory) returns (before: Memory)
    requires AllWellFormed(segs) && j <= |segs| && LoadAll(m, file, base, segs) == Image(mem)
    ensures LoadAll(m, file, base, segs[..j]) == Image(before)
    ensures before(a).Some? ==> mem(a) == before(a)
    decreases |segs|
  {
    if j == |segs| {
      assert segs[..j] == segs;
      before := mem;
    } else {
      var front := segs[..|segs| - 1];
      assert front[..j] == segs[..j];
      LastSegment(m, file, base, segs, a);
      before := StaysMapped(m, file, base, front, j, a, LoadAll(m, file, base, front).mem);
    }
  }

  /** Every loadable segment is in memory as the file has it, later segments
      notwithstanding. */
  lemma ImageContents(m: Memory, file: seq<Byte>, base: nat, segs: seq<Segment>, i: nat, k: nat, mem: Memory)
    requires base % PAGE == 0 && AllWellFormed(segs) && LoadAll(m, file, base, segs) == Image(mem)
    requires i < |segs| && segs[i].isLoad && k < segs[i].memsz
    ensures mem(base + segs[i].vaddr + k) == Some(Shown(file, segs[i], k))
  {
    assert WellFormed(segs[i]);
    var a, c := base + segs[i].vaddr + k, Some(Shown(file, segs[i], k));
    var before := StaysMapped(m, file, base, segs, i + 1, a, mem);
    assert before(a) == c by { FrontContents(m, file, base, segs, i, k, before); }
  }

  /** A new segment's pages are free behind the others exactly when they were
      free at first and overlap none of the others' pages. */
  lemma FreeBehind(m: Memory, file: seq<Byte>, base: nat, segs: seq<Segment>, s: Segment)
    requires AllWellFormed(segs) && LoadAll(m, file, base, segs).Image?
    ensures Unmapped(LoadAll(m, file, base, segs).mem, First(base, s), Last(base, s) - First(base, s))
       <==> Unmapped(m, First(base, s), Last(base, s) - First(base, s))
            && forall i | 0 <= i < |segs| && segs[i].isLoad :: Separate(base, segs[i], s)
  {
    var now, f, l := LoadAll(m, file, base, segs).mem, First(base, s), Last(base, s);
    forall a: nat | f <= a < l
      ensures now(a).Some? <==> m(a).Some? || InImage(base, segs, a)
    {
      LoadAllMaps(m, file, base, segs, a);
    }
    if Unmapped(now, f, l - f) {
      forall i | 0 <= i < |segs| && segs[i].isLoad
        ensures Separate(base, segs[i], s)
      {
        var a := if f < First(base, segs[i]) then First(base, segs[i]) else f;
        assert First(base, segs[i]) <= a < Last(base, segs[i]) ==> InImage(base, segs, a);
      }
    }
    if Unmapped(m, f, l - f) && forall i | 0 <= i < |segs| && segs[i].isLoad :: Separate(base, segs[i], s) {
      forall a: nat | f <= a < l ensures now(a).None? {
        assert !InImage(base, segs, a);
      }
    }
  }

  lemma ApartSnoc(m: Memory, base: nat, segs: seq<Segment>, s: Segment)
    ensures Apart(m, base, segs + [s])
       <==> Apart(m, base, segs)
            && (s.isLoad ==> Unmapped(m, First(base, s), Last(base, s) - First(base, s))
                             && forall i | 0 <= i < |segs| && segs[i].isLoad :: Separate(base, segs[i], s))
  {
    var all := segs + [s];
    assert all[|segs|] == s && forall i | 0 <= i < |segs| :: all[i] == segs[i];
  }

  /** No segment's file bytes end in a page behind the end of the file. */
  ghost predicate NonePastEnd(file: seq<Byte>, base: nat, segs: seq<Segment>) {
    forall i | 0 <= i < |segs| && segs[i].isLoad :: !PastEnd(file, base, segs[i])
  }

  lemma NoneSnoc(file: seq<Byte>, base: nat, segs: seq<Segment>, s: Segment)
    ensures NonePastEnd(file, base, segs + [s])
       <==> NonePastEnd(file, base, segs) && !(s.isLoad && PastEnd(file, base, s))
  {
    var all := segs + [s];
    assert all[|segs|] == s && forall i | 0 <= i < |segs| :: all[i] == segs[i];
  }

  /** Loading succeeds exactly when the segments' pages are free and apart and the
      file reaches the page in which each segment's gap is. */
  lemma {:induction false} LoadsIffApart(m: Memory, file: seq<Byte>, base: nat, segs: seq<Segment>)
    requires base % PAGE == 0 && AllWellFormed(segs)
    ensures LoadAll(m, file, base, segs).Image? <==> Apart(m, base, segs) && NonePastEnd(file, base, segs)
  {
    if segs != [] {
      var n := |segs| - 1;
      var init, s := segs[..n], segs[n];
      assert AllWellFormed(init) && segs == init + [s];
      LoadsIffApart(m, file, base, init);
      ApartSnoc(m, base, init, s);
      NoneSnoc(file, base, init, s);
      if s.isLoad && LoadAll(m, file, base, init).Image? {
        FreeBehind(m, file, base, init, s);
        GapFaultsIff(LoadAll(m, file, base, init).mem, file, base, s);
      }
    }
  }

  // ---------------------------------------------------------------------------
  // The loader

  /** How a load ends: it is done, it reports failure, or its process dies. */
  datatype Status = Done | Failed | Died

  function Outcome(st: Status, m: Memory): Image {
    match st
    case Done => Image(m)
    case Failed => Collision
    case Died => Killed
  }

  /** Memory `m` with the rest of the page `init` is in zeroed, up to `end`. */
  function GapZeroed(m: Memory, init: nat, end: nat): Image {
    var gap := Min(Up(init), end);
    if Up(init) <= init || end <= init then Image(m)
    else if Faulty(m, init, gap - init) then Killed
    else Image(WithZeros(m, init, gap - init))
  }

  lemma LoadOneZeroes(m: Memory, file: seq<Byte>, base: nat, s: Segment)
    requires Unmapped(m, First(base, s), Last(base, s) - First(base, s))
    ensures LoadOne(m, file, base, s)
         == GapZeroed(Mapped(m, file, base, s), base + s.vaddr + s.filesz, base + s.vaddr + s.memsz)
  {
  }

  class Loader {
    var mem: Memory

    constructor (m: Memory)
      ensures mem == m
    {
      mem := m;
    }

    /** The two mappings of a segment: `flen` bytes of file, then zeros. */
    method MapPages(file: seq<Byte>, off: nat, first: nat, flen: nat, mlen: nat) returns (ok: bool)
      requires flen <= mlen
      modifies this
      ensures ok <==> Unmapped(old(mem), first, mlen)
      ensures ok ==> mem == WithZeros(WithFile(old(mem), first, flen, file, off), first + flen, mlen - flen)
    {
      SplitUnmapped(mem, first, flen, mlen, file, off);
      if flen > 0 {
        if !Unmapped(mem, first, flen) { return false; }
        mem := WithFile(mem, first, flen, file, off);
      }
      if mlen > flen {
        if !Unmapped(mem, first + flen, mlen - flen) { return false; }
        mem := WithZeros(mem, first + flen, mlen - flen);
      }
      ok := true;
    }

    /** Zeroes the rest of the page in which the file bytes end. */
    method ZeroGap(init: nat, end: nat) returns (st: Status)
      modifies this
      ensures Outcome(st, mem) == GapZeroed(old(mem), init, end)
    {
      var gap := Up(init);
      if gap > init && init < end {
        if gap > end { gap := end; }
        if Faulty(mem, init, gap - init) { return Died; }
        mem := WithZeros(mem, init, gap - init);
      }
      st := Done;
    }

    method LoadSegment(file: seq<Byte>, base: nat, s: Segment) returns (st: Status)
      modifies this
      ensures Outcome(st, mem) == LoadOne(old(mem), file, base, s)
    {
      var first := First(base, s);
      var ok := MapPages(file, Down(s.offset), first, FileLen(base, s), Last(base, s) - first);
      if !ok { return Failed; }
      LoadOneZeroes(old(mem), file, base, s);
      st := ZeroGap(base + s.vaddr + s.filesz, base + s.vaddr + s.memsz);
    }

    method LoadSegments(file: seq<Byte>, base: nat, segs: seq<Segment>) returns (st: Status)
      modifies this
      ensures Outcome(st, mem) == LoadAll(old(mem), file, base, segs)
    {
      ghost var m := mem;
      for i := 0 to |segs|
        invariant LoadAll(m, file, base, segs[..i]) == Image(mem)
      {
        assert segs[..i + 1][..i] == segs[..i];
        if segs[i].isLoad {
          st := LoadSegment(file, base, segs[i]);
          if st != Done {
            FailsForGood(m, file, base, segs, i + 1);
            return;
          }
        }
      }
      assert segs[..|segs|] == segs;
      st := Done;
    }

    /** Loads every segment; gives the address of the program headers (0 if no
        segment holds them) and the entry point. */
    method LoadGuest(file: seq<Byte>, pie: bool, segs: seq<Segment>, phoff: nat, entry: nat)
      returns (st: Status, phdr: nat, start: nat)
      modifies this
      ensures var base := if pie then 0x4000_0000 else 0;
              && Outcome(st, mem) == LoadAll(old(mem), file, base, segs)
              && (AllWellFormed(segs) ==>
                    (st == Done <==> Apart(old(mem), base, segs) && NonePastEnd(file, base, segs)))
              && (st == Done ==> phdr == PhdrAddress(base, segs, phoff) && start == base + entry)
    {
      var base := if pie then PIE_BASE else 0;
      if AllWellFormed(segs) { LoadsIffApart(mem, file, base, segs); }
      st := LoadSegments(file, base, segs);
      phdr, start := 0, 0;
      if st == Done {
        phdr := FindPhdr(base, segs, phoff);
        start := base + entry;
      }
    }
  }

  lemma {:induction false} FailsForGood(m: Memory, file: seq<Byte>, base: nat, segs: seq<Segment>, i: nat)
    requires i <= |segs| && !LoadAll(m, file, base, segs[..i]).Image?
    ensures LoadAll(m, file, base, segs) == LoadAll(m, file, base, segs[..i])
    decreases |segs|
  {
    if i < |segs| {
      assert segs[..|segs| - 1][..i] == segs[..i];
      FailsForGood(m, file, base, segs[..|segs| - 1], i);
    } else {
      assert segs[..i] == segs;
    }
  }

  predicate Holds(s: Segment, phoff: nat) { s.isLoad && s.offset <= phoff < s.offset + s.filesz }

  /** Where the first segment that holds file offset `phoff` puts it; 0 if none does. */
  function PhdrAddress(base: nat, segs: seq<Segment>, phoff: nat): nat {
    if segs == [] then 0
    else if Holds(segs[0], phoff) then base + segs[0].vaddr + (phoff - segs[0].offset)
    else PhdrAddress(base, segs[1..], phoff)
  }

  method FindPhdr(base: nat, segs: seq<Segment>, phoff: nat) returns (a: nat)
    ensures a == PhdrAddress(base, segs, phoff)
  {
    assert segs[0..] == segs;
    for i := 0 to |segs|
      invariant PhdrAddress(base, segs[i..], phoff) == PhdrAddress(base, segs, phoff)
    {
      if Holds(segs[i], phoff) { return base + segs[i].vaddr + (phoff - segs[i].offset); }
      assert segs[i..][1..] == segs[i + 1..];
    }
    a := 0;
  }

  /** The first segment that holds `phoff`, or the number of segments. */
  ghost function Holder(segs: seq<Segment>, phoff: nat): (i: nat)
    ensures i <= |segs| && (i < |segs| ==> Holds(segs[i], phoff))
    ensures forall j | 0 <= j < i :: !Holds(segs[j], phoff)
  {
    if segs == [] then 0
    else if Holds(segs[0], phoff) then 0
    else
      var i := Holder(segs[1..], phoff);
      assert i < |segs[1..]| ==> segs[1..][i] == segs[i + 1];
      assert forall j | 0 < j < |segs| :: segs[j] == segs[1..][j - 1];
      1 + i
  }

  lemma {:induction false} HolderAddress(base: nat, segs: seq<Segment>, phoff: nat)
    ensures var i := Holder(segs, phoff);
            PhdrAddress(base, segs, phoff) == if i < |segs| then base + segs[i].vaddr + (phoff - segs[i].offset) else 0
  {
    if segs != [] { HolderAddress(base, segs[1..], phoff); }
  }

  /** The reported address shows the file from `phoff` on, as far as the segment's
      file bytes reach. */
  lemma PhdrHoldsHeaders(m: Memory, file: seq<Byte>, base: nat, segs: seq<Segment>, phoff: nat, k: nat, mem: Memory)
    requires base % PAGE == 0 && AllWellFormed(segs) && LoadAll(m, file, base, segs) == Image(mem)
    requires var i := Holder(segs, phoff); i < |segs| && phoff + k < segs[i].offset + segs[i].filesz
    ensures mem(PhdrAddress(base, segs, phoff) + k) == Some(FileCell(file, phoff + k))
  {
    var i, j := HeaderByte(file, base, segs, phoff, k);
    ImageByte(m, file, base, segs, i, j, mem);
  }

  lemma ImageByte(m: Memory, file: seq<Byte>, base: nat, segs: seq<Segment>, i: nat, j: nat, mem: Memory)
    requires base % PAGE == 0 && AllWellFormed(segs) && LoadAll(m, file, base, segs) == Image(mem)
    requires i < |segs| && segs[i].isLoad && j < segs[i].filesz
    ensures mem(base + segs[i].vaddr + j) == Some(Shown(file, segs[i], j))
  {
    assert WellFormed(segs[i]);
    ImageContents(m, file, base, segs, i, j, mem);
  }

  /** Which byte of which segment is at the reported address. */
  lemma HeaderByte(file: seq<Byte>, base: nat, segs: seq<Segment>, phoff: nat, k: nat) returns (i: nat, j: nat)
    requires var h := Holder(segs, phoff); h < |segs| && phoff + k < segs[h].offset + segs[h].filesz
    ensures i < |segs| && segs[i].isLoad && j < segs[i].filesz
    ensures PhdrAddress(base, segs, phoff) + k == base + segs[i].vaddr + j
    ensures Shown(file, segs[i], j) == FileCell(file, phoff + k)
  {
    i := Holder(segs, phoff);
    j := phoff - segs[i].offset + k;
    HolderAddress(base, segs, phoff);
  }
}
