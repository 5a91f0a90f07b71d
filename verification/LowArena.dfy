/** The low arena: size-class free lists over a bump pool, as the interposer's
    replacement allocator keeps them.  Addresses are numbers; a block is its
    24-byte header followed by its payload. */
module LowArena {
  import opened Common
  import opened Masks

  const HEADER: nat := 24
  const CLASSES: nat := 20
  const BIG: nat := 0x10_0000
  const SLACK: nat := 0x40_0000
  const POOL_LO: nat := 0x1000_0000
  const POOL_HI: nat := 0x1_0000_0000
  const U64: nat := 0x1_0000_0000_0000_0000

  /** A header's class (0 for a block too big for the free lists) and payload size. */
  datatype Block = Block(cls: nat, size: nat) {
    /** The size the header records: a 32-bit word. */
    function Stored(): nat { size % U32 }
  }

  /** A header records the whole size exactly when it is below 4 GiB. */
  lemma StoredIff(blk: Block)
    ensures blk.Stored() == blk.size <==> blk.size < U32
  {
  }

  /** The header of a block of exactly 4 GiB says it is empty. */
  lemma FourGigabytesAreForgotten()
    ensures Block(0, U32).Stored() == 0
  {
  }

  // ---------------------------------------------------------------------------
  // Size classes

  /** The next multiple of `a`. */
  function RoundUp(x: nat, a: nat): nat
    requires a > 0
  {
    x + a - 1 - (x + a - 1) % a
  }

  /** `32 << (cls - 4)`, the payload size of a class. */
  function ClassSize(cls: nat): nat
    requires 4 <= cls
  {
    if cls == 4 then 32 else 2 * ClassSize(cls - 1)
  }

  lemma {:induction false} ClassSizeGrows(c: nat, d: nat)
    requires 4 <= c <= d
    ensures 32 <= ClassSize(c) <= ClassSize(d)
  {
    if c < d { ClassSizeGrows(c, d - 1); } else if c > 4 { ClassSizeGrows(c - 1, c - 1); }
  }

  lemma BiggestClass()
    ensures ClassSize(19) == BIG
  {
    assert ClassSize(8) == 512;
    assert ClassSize(12) == 8192;
    assert ClassSize(16) == 131072;
  }

  /** The first class from `cls` on that holds `need` bytes. */
  ghost function ClassFrom(need: nat, cls: nat): (r: nat)
    requires 4 <= cls < CLASSES
    ensures cls <= r < CLASSES
    decreases CLASSES - cls
  {
    if need <= ClassSize(cls) || cls == 19 then cls else ClassFrom(need, cls + 1)
  }

  /** The class a request belongs to; 0 when it is too big for any. */
  ghost function ClassOf(need: nat): nat {
    if need > BIG then 0 else ClassFrom(need, 4)
  }

  /** The class found is the smallest whose blocks are big enough. */
  lemma {:induction false} ClassFromIsLeast(need: nat, cls: nat)
    requires 4 <= cls < CLASSES && need <= BIG && (cls > 4 ==> ClassSize(cls - 1) < need)
    ensures cls <= ClassFrom(need, cls) < CLASSES && need <= ClassSize(ClassFrom(need, cls))
    ensures ClassFrom(need, cls) > 4 ==> ClassSize(ClassFrom(need, cls) - 1) < need
    decreases CLASSES - cls
  {
    BiggestClass();
    if ClassSize(cls) < need && cls < 19 { ClassFromIsLeast(need, cls + 1); }
  }

  /** Class sizes compare with a request as they do with the request rounded up. */
  lemma RoundingKeepsClass(need: nat, cls: nat)
    requires 4 <= cls
    ensures ClassSize(cls) % 16 == 0
    ensures ClassSize(cls) < RoundUp(need, 16) <==> ClassSize(cls) < need
  {
    ClassSizeIsEven(cls);
    RoundingKeepsOrder(need, ClassSize(cls));
  }

  lemma {:induction false} ClassSizeIsEven(cls: nat)
    requires 4 <= cls
    ensures ClassSize(cls) % 16 == 0
  {
    if cls > 4 {
      ClassSizeIsEven(cls - 1);
      DoubleIsEven(ClassSize(cls - 1));
    }
  }

  lemma DoubleIsEven(x: nat)
    requires x % 16 == 0
    ensures 2 * x % 16 == 0
  {
    assert 2 * x == 16 * (2 * (x / 16));
  }

  lemma RoundingKeepsOrder(need: nat, c: nat)
    requires c % 16 == 0
    ensures c < RoundUp(need, 16) <==> c < need
  {
  }

  /** `(need + 15) & ~15` on 64-bit words. */
  function Rounded(need: nat): nat {
    var t := (need + 15) % U64;
    t - t % 16
  }

  /** The class a request gets: its own, or the smallest if rounding wraps. */
  ghost function ClassGot(need: nat): nat { if need + 15 < U64 then ClassOf(need) else 4 }

  /** The payload size a request gets. */
  ghost function SizeGot(need: nat): nat {
    if need + 15 >= U64 then 32
    else if need <= BIG then ClassSize(ClassFrom(need, 4))
    else RoundUp(need, 16)
  }

  /** A request is covered exactly when rounding it up does not wrap. */
  lemma CoveredIff(need: nat)
    requires need < U64
    ensures need <= SizeGot(need) <==> need + 15 < U64
  {
    if need <= BIG { ClassFromIsLeast(need, 4); }
  }

  /** The largest request gets the smallest block. */
  lemma LargestRequestIsShort()
    ensures SizeGot(U64 - 1) == 32 && ClassGot(U64 - 1) == 4
  {
  }

  lemma RoundedMeans(need: nat)
    requires need < U64
    ensures Rounded(need) == RoundUp(if need + 15 < U64 then need else 0, 16)
    ensures need + 15 < U64 ==> (Rounded(need) <= BIG <==> need <= BIG)
  {
  }

  /** Doubles from 32 up to the rounded size. */
  method SmallClass(size: nat, ghost need: nat) returns (cls: nat, c: nat)
    requires need <= BIG && size == RoundUp(need, 16)
    ensures cls == ClassFrom(need, 4) && c == ClassSize(cls)
  {
    c, cls := 32, 4;
    RoundingKeepsClass(need, 4);
    while c < size
      invariant 4 <= cls < CLASSES && c == ClassSize(cls) && ClassFrom(need, 4) == ClassFrom(need, cls)
      invariant c < size <==> c < need
      decreases CLASSES - cls
    {
      BiggestClass();
      c := 2 * c;
      cls := cls + 1;
      RoundingKeepsClass(need, cls);
    }
  }

  /** The class and the payload size a request gets. */
  method Classify(need: nat) returns (cls: nat, size: nat)
    requires need < U64
    ensures cls == ClassGot(need) && size == SizeGot(need)
    ensures cls != 0 ==> 4 <= cls < CLASSES && size == ClassSize(cls)
  {
    size := Rounded(need);
    RoundedMeans(need);
    cls := 0;
    if size <= BIG {
      cls, size := SmallClass(size, if need + 15 < U64 then need else 0);
    }
  }

  // ---------------------------------------------------------------------------
  // The layout

  /** First byte after a block at `b`. */
  function End(b: nat, blk: Block): nat { b + HEADER + blk.size }

  /** No two blocks share a byte, headers included. */
  ghost predicate Disjoint(hs: map<nat, Block>) {
    forall b, c | b in hs && c in hs && b < c :: End(b, hs[b]) <= c
  }

  /** No block touches the `left` bytes from `bump` on. */
  ghost predicate Clear(hs: map<nat, Block>, bump: nat, left: nat) {
    forall b | b in hs :: End(b, hs[b]) <= bump || bump + left <= b
  }

  /** A block too big for the lists, or of the size of its class. */
  predicate BlockOk(blk: Block) { blk.cls == 0 || (4 <= blk.cls < CLASSES && blk.size == ClassSize(blk.cls)) }

  /** Every block is 16-aligned at its payload and has the size of its class. */
  ghost predicate Shaped(hs: map<nat, Block>) {
    forall b | b in hs ::
      && (b + HEADER) % 16 == 0
      && BlockOk(hs[b])
  }

  ghost predicate NoDups(xs: seq<nat>) {
    forall i, j | 0 <= i < j < |xs| :: xs[i] != xs[j]
  }

  /** Distinct dead blocks of class `c`. */
  ghost predicate ListOk(list: seq<nat>, c: nat, hs: map<nat, Block>, live: set<nat>) {
    && NoDups(list) && (list != [] ==> c != 0)
    && forall i | 0 <= i < |list| :: list[i] in hs && list[i] !in live && hs[list[i]].cls == c
  }

  /** Each free list holds distinct dead blocks of its own class. */
  ghost predicate Listed(free: seq<seq<nat>>, hs: map<nat, Block>, live: set<nat>) {
    |free| == CLASSES && forall c | 0 <= c < CLASSES :: ListOk(free[c], c, hs, live)
  }

  /** The payload at `q` belongs to a newly live block of at least `need` bytes. */
  ghost predicate Taken(q: nat, need: nat, was: set<nat>, now: set<nat>, hs: map<nat, Block>) {
    && q >= HEADER && q % 16 == 0
    && q - HEADER !in was && now == was + {q - HEADER}
    && q - HEADER in hs && hs[q - HEADER].size >= need
  }

  /** The same, of a block of this class and size. */
  ghost predicate TakenAs(q: nat, blk: Block, was: set<nat>, now: set<nat>, hs: map<nat, Block>) {
    Taken(q, blk.size, was, now, hs) && hs[q - HEADER] == blk
  }

  /** No header changed; some may be new. */
  ghost predicate Grown(was: map<nat, Block>, now: map<nat, Block>) {
    forall b | b in was :: b in now && now[b] == was[b]
  }

  /** What every operation keeps. */
  ghost predicate Sound(free: seq<seq<nat>>, bump: nat, left: nat, hs: map<nat, Block>, live: set<nat>) {
    && Disjoint(hs) && Clear(hs, bump, left) && Shaped(hs)
    && Listed(free, hs, live)
    && live <= hs.Keys
  }

  lemma CarveKeepsLayout(hs: map<nat, Block>, bump: nat, left: nat, b: nat, blk: Block)
    requires Disjoint(hs) && Clear(hs, bump, left) && bump <= b && End(b, blk) <= bump + left
    ensures b !in hs && Disjoint(hs[b := blk])
    ensures Clear(hs[b := blk], End(b, blk), bump + left - End(b, blk))
  {
  }

  lemma CarveKeepsShape(hs: map<nat, Block>, b: nat, blk: Block)
    requires Shaped(hs) && (b + HEADER) % 16 == 0
    requires BlockOk(blk)
    ensures Shaped(hs[b := blk])
  {
  }

  lemma CarveKeepsSound(free: seq<seq<nat>>, bump: nat, left: nat, hs: map<nat, Block>, live: set<nat>, b: nat,
                        blk: Block)
    requires Sound(free, bump, left, hs, live) && bump <= b && End(b, blk) <= bump + left && (b + HEADER) % 16 == 0
    requires BlockOk(blk)
    ensures b !in hs && Grown(hs, hs[b := blk]) && Taken(b + HEADER, blk.size, live, live + {b}, hs[b := blk])
    ensures Sound(free, End(b, blk), bump + left - End(b, blk), hs[b := blk], live + {b})
  {
    CarveKeepsLayout(hs, bump, left, b, blk);
    CarveKeepsShape(hs, b, blk);
  }

  lemma QuotientIsUnique(x: nat, a: nat, q: nat, r: nat)
    requires a > 0 && r < a && x == q * a + r
    ensures x / a == q && x % a == r
  {
    var d := x / a - q;
    assert d * a == r - x % a by { assert d * a == x / a * a - q * a; }
    assert d > 0 ==> d * a >= a;
    assert d < 0 ==> d * a + a <= 0;
  }

  /** Where the bump allocator puts a block that fits. */
  lemma Placement(bump: nat, left: nat, size: nat, align: nat)
    requires align > 0 && align % 16 == 0 && left >= size + HEADER + align
    ensures var payload := AlignUp(bump + HEADER, align);
            bump + HEADER <= payload && payload + size <= bump + left && payload % 16 == 0
  {
    Sixteen();
    AlignsToFactor(bump + HEADER, align, 16);
  }

  lemma Sixteen()
    ensures IsPowerOfTwo(16)
  {
  }

  /** The header of an arena block is never page aligned, so the munmap of a large
      block's header address that free issues is always refused: a large block's
      memory stays mapped and is never handed out again. */
  lemma LargeFreeNeverUnmaps(b: nat)
    requires (b + HEADER) % 16 == 0
    ensures b % 4096 != 0
  {
  }

  // ---------------------------------------------------------------------------
  // Memory

  /** The `n` bytes from `at` on. */
  function Payload(m: nat -> Byte, at: nat, n: nat): (r: seq<Byte>)
    ensures |r| == n && forall k | 0 <= k < n :: r[k] == m(at + k)
  {
    seq(n, k requires 0 <= k => m(at + k))
  }

  /** Memory after `bytes` are copied to `at`. */
  function Write(m: nat -> Byte, at: nat, bytes: seq<Byte>): nat -> Byte {
    (a: nat) => if at <= a < at + |bytes| then bytes[a - at] else m(a)
  }

  /** Every block of `bs` has the header and the payload it had. */
  ghost predicate AllKept(bs: set<nat>, was: map<nat, Block>, now: map<nat, Block>, before: nat -> Byte,
                          after: nat -> Byte) {
    forall c | c in bs ::
      && c in was && c in now && now[c] == was[c]
      && Payload(after, c + HEADER, was[c].size) == Payload(before, c + HEADER, was[c].size)
  }

  /** A copy that fits its block shows up there and in no other block. */
  lemma WriteIsLocal(hs: map<nat, Block>, b: nat, m: nat -> Byte, bytes: seq<Byte>)
    requires Disjoint(hs) && b in hs && |bytes| <= hs[b].size
    ensures Payload(Write(m, b + HEADER, bytes), b + HEADER, |bytes|) == bytes
    ensures AllKept(hs.Keys - {b}, hs, hs, m, Write(m, b + HEADER, bytes))
  {
  }

  /** The new block at `q` starts with `bytes`. */
  ghost predicate TakenWith(q: nat, need: nat, bytes: seq<Byte>, was: set<nat>, now: set<nat>,
                            hs: map<nat, Block>, m: nat -> Byte) {
    && Taken(q, need, was, now, hs)
    && Payload(m, q, |bytes|) == bytes
  }

  lemma FillKeeps(live: set<nat>, now: set<nat>, was: map<nat, Block>, hs: map<nat, Block>, q: nat, need: nat,
                  m: nat -> Byte, bytes: seq<Byte>)
    requires Grown(was, hs) && live <= was.Keys && Taken(q, need, live, now, hs) && |bytes| <= need && Disjoint(hs)
    ensures AllKept(live, was, hs, m, Write(m, q, bytes))
    ensures Payload(Write(m, q, bytes), q, |bytes|) == bytes
  {
    WriteIsLocal(hs, q - HEADER, m, bytes);
  }

  /** The overflow test: the wrapped product divides back exactly when the true
      product fits 64 bits. */
  method CheckedProduct(a: nat, b: nat) returns (n: Option<nat>)
    requires a < U64 && b < U64
    ensures n == if a * b < U64 then Some(a * b) else None
  {
    var w := a * b % U64;
    DividesBack(a, b);
    if b != 0 && w / b != a { return None; }
    n := Some(w);
  }

  lemma DividesBack(a: nat, b: nat)
    requires a < U64 && b < U64
    ensures b != 0 && (a * b) % U64 / b != a <==> a * b >= U64
  {
    if b > 0 {
      var w := (a * b) % U64;
      assert a * b == a * b / U64 * U64 + w;
      assert w == w / b * b + w % b;
      if a * b < U64 { QuotientIsUnique(a * b, b, a, 0); }
    } else {
      assert a * b == 0;
    }
  }

  // ---------------------------------------------------------------------------
  // The allocator

  /** Addresses that free and realloc take for the arena's. */
  predicate InPool(a: nat) { POOL_LO <= a < POOL_HI }

  /** Bytes asked of the kernel for a new pool, on 64-bit words. */
  function PoolSize(size: nat, align: nat): nat {
    (size + HEADER + align + SLACK) % U64 / 4096 * 4096
  }

  /** The largest request whose rounding does not wrap gets a pool smaller than its
      block. */
  lemma LargestPoolIsShort()
    ensures SizeGot(U64 - 16) == U64 - 16 && PoolSize(U64 - 16, 16) < U64 - 16
  {
  }

  function AtLeast16(align: nat): nat { if align < 16 then 16 else align }

  /** The size of the pool does not overflow. */
  predicate Fits(size: nat, align: nat) { size + HEADER + align + SLACK < U64 }

  /** A new pool holds the block it is mapped for exactly when its size does not
      overflow. */
  lemma PoolHoldsBlockIff(size: nat, align: nat)
    ensures size + HEADER + align <= PoolSize(size, align) <==> Fits(size, align)
    ensures Fits(size, align) ==>
              var x := size + 24 + align + 0x40_0000; x - 4096 < PoolSize(size, align) <= x
    ensures PoolSize(size, align) % 4096 == 0
  {
    var x := size + HEADER + align + SLACK;
    assert x < U64 ==> x % U64 == x;
    assert x >= U64 ==> x % U64 <= x - U64;
    var p := x % U64;
    assert p / 4096 * 4096 <= p < p / 4096 * 4096 + 4096;
  }

  /** Where the pool a block is cut from goes on: the bump pointer, or the new pool's
      address when the rest of the old one is too small. */
  function PoolStart(bump: nat, left: nat, size: nat, align: nat, os: nat -> Option<nat>): nat {
    if bump != 0 && left >= size + HEADER + align then bump
    else if os(PoolSize(size, align)).Some? then os(PoolSize(size, align)).value
    else 0
  }

  /** The rest of the pool is too small and the kernel refuses another. */
  ghost predicate NoPool(bump: nat, left: nat, size: nat, align: nat, os: nat -> Option<nat>) {
    (bump == 0 || left < size + HEADER + align) && Refused(os, PoolSize(size, align))
  }

  lemma ClassGotIsClass(need: nat)
    ensures ClassGot(need) < CLASSES
  {
  }

  lemma PowerAligns(a: nat)
    requires a > 0 && IsPowerOfTwo(a)
    ensures forall x: nat :: AlignUp(x, a) % a == 0
  {
    AlignsIff(a);
  }

  /** Neither rounding the request nor sizing its pool overflows. */
  ghost predicate Covered(need: nat) { need + 15 < U64 && Fits(SizeGot(need), 16) }

  /** The kernel has no pool of `n` bytes that starts in the low 4 GiB, above 256 MiB. */
  predicate Refused(os: nat -> Option<nat>, n: nat) {
    os(n).None? || os(n).value < 0x1000_0000 || os(n).value >= 0x1_0000_0000
  }

  // ---------------------------------------------------------------------------
  // The free lists

  /** The headers from `head` on, by their `next` fields, are `list`; 0 is the null
      pointer. */
  ghost predicate Chain(next: map<nat, nat>, head: nat, list: seq<nat>)
    decreases |list|
  {
    if list == [] then head == 0
    else head == list[0] && head != 0 && head in next && Chain(next, next[head], list[1..])
  }

  ghost predicate Chained(heads: seq<nat>, next: map<nat, nat>, free: seq<seq<nat>>) {
    |heads| == |free| && forall c | 0 <= c < |free| :: Chain(next, heads[c], free[c])
  }

  lemma {:induction false} ChainFramed(next: map<nat, nat>, head: nat, list: seq<nat>, b: nat, to: nat)
    requires Chain(next, head, list) && b !in list
    ensures Chain(next[b := to], head, list)
    decreases |list|
  {
    if list != [] { ChainFramed(next, next[head], list[1..], b, to); }
  }

  /** Storing the `next` field of a header that is on no list. */
  lemma UnlistedNext(heads: seq<nat>, next: map<nat, nat>, free: seq<seq<nat>>, b: nat, to: nat)
    requires Chained(heads, next, free) && forall c | 0 <= c < |free| :: b !in free[c]
    ensures Chained(heads, next[b := to], free)
  {
    forall c | 0 <= c < |free| ensures Chain(next[b := to], heads[c], free[c]) {
      ChainFramed(next, heads[c], free[c], b, to);
    }
  }

  lemma NullMeansEmpty(heads: seq<nat>, next: map<nat, nat>, free: seq<seq<nat>>, cls: nat)
    requires Chained(heads, next, free) && cls < |free|
    ensures heads[cls] == 0 <==> free[cls] == []
  {
    assert Chain(next, heads[cls], free[cls]);
  }

  /** Clearing the `next` field of a new header. */
  lemma NewIsUnlisted(heads: seq<nat>, next: map<nat, nat>, free: seq<seq<nat>>, hs: map<nat, Block>, live: set<nat>,
                      b: nat)
    requires Chained(heads, next, free) && Listed(free, hs, live) && b !in hs
    ensures Chained(heads, next[b := 0], free)
  {
    forall c | 0 <= c < |free| ensures b !in free[c] {
      assert ListOk(free[c], c, hs, live);
    }
    UnlistedNext(heads, next, free, b, 0);
  }

  /** Taking the first header off a list. */
  lemma PopKeepsChained(heads: seq<nat>, next: map<nat, nat>, free: seq<seq<nat>>, cls: nat, hs: map<nat, Block>,
                        live: set<nat>)
    requires Chained(heads, next, free) && Listed(free, hs, live) && cls < CLASSES && free[cls] != []
    ensures var b := free[cls][0];
            heads[cls] == b && b in next && Chained(heads[cls := next[b]], next[b := 0], free[cls := free[cls][1..]])
  {
    var b, rest := free[cls][0], free[cls := free[cls][1..]];
    assert Chain(next, heads[cls], free[cls]);
    assert ListOk(free[cls], cls, hs, live);
    forall c | 0 <= c < |rest| ensures b !in rest[c] {
      assert ListOk(free[c], c, hs, live);
    }
    UnlistedNext(heads[cls := next[b]], next, rest, b, 0);
  }

  /** Putting a header that is on no list in front of one. */
  lemma PushKeepsChained(heads: seq<nat>, next: map<nat, nat>, free: seq<seq<nat>>, cls: nat, b: nat)
    requires Chained(heads, next, free) && cls < |free| && b != 0 && forall c | 0 <= c < |free| :: b !in free[c]
    ensures Chained(heads[cls := b], next[b := heads[cls]], free[cls := [b] + free[cls]])
  {
    UnlistedNext(heads, next, free, b, heads[cls]);
    assert ([b] + free[cls])[1..] == free[cls];
  }

  lemma ZeroListIsEmpty(free: seq<seq<nat>>, hs: map<nat, Block>, live: set<nat>)
    requires Listed(free, hs, live)
    ensures free[0] == []
  {
    assert ListOk(free[0], 0, hs, live);
  }

  /** Handing out the first block of a list. */
  lemma PopKeepsSound(free: seq<seq<nat>>, bump: nat, left: nat, hs: map<nat, Block>, live: set<nat>, cls: nat)
    requires Sound(free, bump, left, hs, live) && 4 <= cls < CLASSES && free[cls] != []
    ensures var b := free[cls][0];
            && Sound(free[cls := free[cls][1..]], bump, left, hs, live + {b})
            && Taken(b + HEADER, ClassSize(cls), live, live + {b}, hs) && hs[b] == Block(cls, ClassSize(cls))
  {
    var b, less := free[cls][0], free[cls := free[cls][1..]];
    assert ListOk(free[cls], cls, hs, live);
    forall c | 0 <= c < CLASSES ensures ListOk(less[c], c, hs, live + {b}) {
      assert ListOk(free[c], c, hs, live);
    }
  }

  /** Releasing a live block to the list of its class. */
  lemma PushKeepsSound(free: seq<seq<nat>>, bump: nat, left: nat, hs: map<nat, Block>, live: set<nat>, b: nat)
    requires Sound(free, bump, left, hs, live) && b in live && hs[b].cls != 0
    ensures b != 0 && forall c | 0 <= c < |free| :: b !in free[c]
    ensures Sound(free[hs[b].cls := [b] + free[hs[b].cls]], bump, left, hs, live - {b})
  {
    var cls := hs[b].cls;
    var more := free[cls := [b] + free[cls]];
    assert (b + HEADER) % 16 == 0;
    forall c | 0 <= c < CLASSES ensures b !in free[c] && ListOk(more[c], c, hs, live - {b}) {
      assert ListOk(free[c], c, hs, live);
      PushList(free[c], c, hs, live, b);
    }
  }

  lemma PushList(list: seq<nat>, c: nat, hs: map<nat, Block>, live: set<nat>, b: nat)
    requires ListOk(list, c, hs, live) && b in live && b in hs
    ensures b !in list && ListOk(list, c, hs, live - {b})
    ensures hs[b].cls == c != 0 ==> ListOk([b] + list, c, hs, live - {b})
  {
    var longer := [b] + list;
    assert forall j | 0 < j < |longer| :: longer[j] == list[j - 1];
  }

  class Arena {
    var heads: seq<nat>
    var next: map<nat, nat>
    var bump: nat
    var left: nat
    var headers: map<nat, Block>
    var mem: nat -> Byte
    ghost var free: seq<seq<nat>>
    ghost var live: set<nat>

    ghost predicate Valid()
      reads this
    {
      Sound(free, bump, left, headers, live) && Chained(heads, next, free)
    }

    constructor ()
      ensures Valid() && live == {} && headers == map[] && bump == left == 0 && free == seq(CLASSES, _ => [])
    {
      heads, next := seq(CLASSES, _ => 0), map[];
      bump, left, headers := 0, 0, map[];
      free, live := seq(CLASSES, _ => []), {};
      mem := _ => 0;
    }

    /** `os(n)` is where the kernel maps `n` fresh bytes, if it does: never over a
        block of the arena. */
    ghost predicate KernelOk(os: nat -> Option<nat>)
      reads this`headers
    {
      forall n :: os(n).Some? ==> Clear(headers, os(n).value, n)
    }

    /** Takes the first block of a class's free list. */
    method Reuse(cls: nat) returns (b: nat)
      requires Valid() && 4 <= cls < CLASSES && free[cls] != []
      modifies this`heads, this`next, this`free, this`live
      ensures Valid() && b == old(free)[cls][0] && free == old(free)[cls := old(free)[cls][1..]]
      ensures TakenAs(b + HEADER, Block(cls, ClassSize(cls)), old(live), live, headers)
    {
      PopKeepsSound(free, bump, left, headers, live, cls);
      PopKeepsChained(heads, next, free, cls, headers, live);
      b := heads[cls];
      heads := heads[cls := next[b]];
      next := next[b := 0];
      free := free[cls := free[cls][1..]];
      live := live + {b};
    }

    /** Replaces the bump pool, dropping what is left of the old one. */
    method MapPool(size: nat, align: nat, os: nat -> Option<nat>) returns (ok: bool)
      requires Valid() && KernelOk(os) && Fits(size, align)
      modifies this`bump, this`left
      ensures Valid()
      ensures ok <==> !Refused(os, PoolSize(size, align))
      ensures ok ==> Some(bump) == os(PoolSize(size, align)) && InPool(bump)
      ensures ok ==> size + HEADER + align <= left == PoolSize(size, align)
      ensures !ok ==> bump == old(bump) && left == old(left)
    {
      var pool := PoolSize(size, align);
      PoolHoldsBlockIff(size, align);
      var p := os(pool);
      if p.None? || !InPool(p.value) { return false; }
      bump, left := p.value, pool;
      ok := true;
    }

    /** Cuts a block with its payload at `q` off the front of the bump pool. */
    method CutAt(q: nat, blk: Block)
      requires Valid() && bump + HEADER <= q && q + blk.size <= bump + left && q % 16 == 0 && BlockOk(blk)
      modifies this`bump, this`left, this`next, this`headers, this`live
      ensures Valid() && Grown(old(headers), headers) && TakenAs(q, blk, old(live), live, headers)
      ensures q - HEADER !in old(headers) && left <= old(left)
    {
      var b := q - HEADER;
      CarveKeepsSound(free, bump, left, headers, live, b, blk);
      NewIsUnlisted(heads, next, free, headers, live, b);
      var used := q + blk.size - bump;
      bump, left := bump + used, left - used;
      headers := headers[b := blk];
      next := next[b := 0];
      live := live + {b};
    }

    /** Cuts an aligned block off the front of the bump pool. */
    method Cut(blk: Block, align: nat) returns (q: nat)
      requires Valid() && align > 0 && align % 16 == 0 && left >= blk.size + HEADER + align && BlockOk(blk)
      modifies this`bump, this`left, this`next, this`headers, this`live
      ensures Valid() && Grown(old(headers), headers) && TakenAs(q, blk, old(live), live, headers)
      ensures q - HEADER !in old(headers) && q == AlignUp(old(bump) + HEADER, align) && left <= old(left)
    {
      Placement(bump, left, blk.size, align);
      q := AlignUp(bump + HEADER, align);
      CutAt(q, blk);
    }

    /** Carves a block from the bump pool, mapping a new pool first if the rest of
        the old one is too small.  `os` is what the kernel answers. */
    method Carve(blk: Block, align: nat, os: nat -> Option<nat>) returns (q: Option<nat>)
      requires Valid() && align > 0 && align % 16 == 0 && BlockOk(blk) && KernelOk(os) && Fits(blk.size, align)
      modifies this`bump, this`left, this`next, this`headers, this`live
      ensures Valid() && Grown(old(headers), headers)
      ensures q.None? <==> NoPool(old(bump), old(left), blk.size, align, os)
      ensures q.None? ==> headers == old(headers) && live == old(live)
      ensures left <= old(left) || left <= PoolSize(blk.size, align)
      ensures q.Some? ==>
                && TakenAs(q.value, blk, old(live), live, headers) && q.value - HEADER !in old(headers)
                && q.value == AlignUp(PoolStart(old(bump), old(left), blk.size, align, os) + HEADER, align)
    {
      if bump == 0 || left < blk.size + HEADER + align {
        var ok := MapPool(blk.size, align, os);
        if !ok { return None; }
      }
      var p := Cut(blk, align);
      return Some(p);
    }

    /** A block of a class and size: the first of the class's list, or a new one. */
    method Obtain(blk: Block, align: nat, os: nat -> Option<nat>) returns (q: Option<nat>)
      requires Valid() && align > 0 && align % 16 == 0 && BlockOk(blk) && KernelOk(os) && Fits(blk.size, align)
      modifies this`heads, this`next, this`free, this`bump, this`left, this`headers, this`live
      ensures Valid() && Grown(old(headers), headers)
      ensures q.None? <==> old(free)[blk.cls] == [] && NoPool(old(bump), old(left), blk.size, align, os)
      ensures q.None? ==> live == old(live)
      ensures q.Some? ==> TakenAs(q.value, blk, old(live), live, headers)
      ensures left <= old(left) || left <= PoolSize(blk.size, align)
      ensures old(free)[blk.cls] != [] ==>
                && q == Some(old(free)[blk.cls][0] + HEADER) && headers == old(headers)
                && free == old(free)[blk.cls := old(free)[blk.cls][1..]]
      ensures old(free)[blk.cls] == [] && q.Some? ==>
                && q.value == AlignUp(PoolStart(old(bump), old(left), blk.size, align, os) + HEADER, align)
                && free == old(free)
    {
      NullMeansEmpty(heads, next, free, blk.cls);
      if blk.cls != 0 && heads[blk.cls] != 0 {
        var b := Reuse(blk.cls);
        return Some(b + HEADER);
      }
      ZeroListIsEmpty(free, headers, live);
      q := Carve(blk, align, os);
    }

    /** No block of the class is free, the pool is too small, and the kernel has no
        other. */
    ghost predicate CannotServe(need: nat, align: nat, os: nat -> Option<nat>)
      requires Valid()
      reads this
    {
      ClassGotIsClass(need);
      free[ClassGot(need)] == [] && NoPool(bump, left, SizeGot(need), align, os)
    }

    /** A fresh payload of the size the request gets, or none if there is none to be
        had.  No byte of any live block changes hands. */
    method Alloc(need: nat, align: nat, os: nat -> Option<nat>) returns (q: Option<nat>)
      requires Valid() && need < U64 && 0 < align && (align <= 16 || align % 16 == 0)
      requires KernelOk(os) && Fits(SizeGot(need), AtLeast16(align))
      modifies this`heads, this`next, this`free, this`bump, this`left, this`headers, this`live
      ensures Valid() && Grown(old(headers), headers)
      ensures q.None? <==> old(CannotServe(need, AtLeast16(align), os))
      ensures q.None? ==> live == old(live)
      ensures q.Some? ==>
                TakenAs(q.value, Block(ClassGot(need), SizeGot(need)), old(live), live, headers)
      ensures ClassGot(need) < CLASSES
      ensures old(free)[ClassGot(need)] != [] ==>
                && q == Some(old(free)[ClassGot(need)][0] + HEADER) && headers == old(headers)
                && free == old(free)[ClassGot(need) := old(free)[ClassGot(need)][1..]]
      ensures old(free)[ClassGot(need)] == [] && q.Some? ==>
                free == old(free) && (IsPowerOfTwo(AtLeast16(align)) ==> q.value % AtLeast16(align) == 0)
    {
      var cls, size := Classify(need);
      var al := AtLeast16(align);
      assert al > 0 && al % 16 == 0;
      if IsPowerOfTwo(al) { PowerAligns(al); }
      q := Obtain(Block(cls, size), al, os);
    }

    /** A small block goes back to its class's list; a large one is only lost. */
    method Free(q: nat)
      requires Valid() && q >= HEADER && q - HEADER in live && InPool(q - HEADER)
      modifies this`heads, this`next, this`free, this`live
      ensures Valid() && live == old(live) - {q - HEADER}
      ensures var c := headers[q - HEADER].cls;
              free == if c == 0 then old(free) else old(free)[c := [q - HEADER] + old(free)[c]]
    {
      var b := q - HEADER;
      var cls := headers[b].cls;
      if cls != 0 && cls < CLASSES {
        PushKeepsSound(free, bump, left, headers, live, b);
        PushKeepsChained(heads, next, free, cls, b);
        next := next[b := heads[cls]];
        heads := heads[cls := b];
        free := free[cls := [b] + free[cls]];
      }
      live := live - {b};
    }

    /** Allocates a block and copies `bytes` to its front. */
    method AllocWith(need: nat, bytes: seq<Byte>, os: nat -> Option<nat>) returns (q: Option<nat>)
      requires Valid() && KernelOk(os) && |bytes| <= need && Covered(need)
      modifies this
      ensures Valid()
      ensures q.None? <==> old(CannotServe(need, 16, os))
      ensures q.None? ==> live == old(live)
      ensures q.Some? ==> TakenWith(q.value, need, bytes, old(live), live, headers, mem)
      ensures AllKept(old(live), old(headers), headers, old(mem), mem)
    {
      q := Alloc(need, 16, os);
      CoveredIff(need);
      if q.Some? {
        FillKeeps(old(live), live, old(headers), headers, q.value, need, mem, bytes);
        mem := Write(mem, q.value, bytes);
      }
    }

    /** A zeroed block; a product that overflows 64 bits is refused. */
    method Calloc(a: nat, b: nat, os: nat -> Option<nat>) returns (q: Option<nat>)
      requires Valid() && KernelOk(os) && a < U64 && b < U64 && (a * b < U64 ==> Covered(a * b))
      modifies this
      ensures Valid()
      ensures a * b >= U64 ==> q.None?
      ensures a * b < U64 ==> (q.None? <==> old(CannotServe(if a * b == 0 then 1 else a * b, 16, os)))
      ensures q.None? ==> live == old(live)
      ensures q.Some? ==> TakenWith(q.value, a * b, Zeros(a * b), old(live), live, headers, mem)
      ensures AllKept(old(live), old(headers), headers, old(mem), mem)
    {
      var n := CheckedProduct(a, b);
      if n.None? { return None; }
      q := AllocWith(if n.value == 0 then 1 else n.value, Zeros(n.value), os);
    }

    /** Size zero releases the block.  A size the header still covers changes
        nothing.  Any other size copies as many bytes as the header records to a new
        block and releases the old one, also when there is no new one. */
    method Realloc(q: nat, n: nat, os: nat -> Option<nat>) returns (r: Option<nat>)
      requires Valid() && KernelOk(os) && q >= HEADER && q - HEADER in live && InPool(q - HEADER)
      requires Covered(n)
      modifies this
      ensures Valid()
      ensures n == 0 ==> r == None && live == old(live) - {q - HEADER}
      ensures 0 < n <= old(headers)[q - HEADER].Stored() ==> r == Some(q) && live == old(live)
      ensures n > old(headers)[q - HEADER].Stored() ==> (r.None? <==> old(CannotServe(n, 16, os)))
      ensures n > old(headers)[q - HEADER].Stored() && r.None? ==> live == old(live) - {q - HEADER}
      ensures n > old(headers)[q - HEADER].Stored() && r.Some? ==>
                && TakenWith(r.value, n, Payload(old(mem), q, old(headers)[q - HEADER].Stored()),
                             old(live), live + {q - HEADER}, headers, mem)
                && q - HEADER !in live
      ensures AllKept(live * old(live), old(headers), headers, old(mem), mem)
    {
      if n == 0 {
        Free(q);
        return None;
      }
      var size := headers[q - HEADER].Stored();
      if n <= size { return Some(q); }
      r := AllocWith(n, Payload(mem, q, size), os);
      Free(q);
    }
  }

  lemma SmallestRequest()
    ensures ClassGot(32) == 4 && SizeGot(32) == 32
    ensures Fits(32, 16) && Fits(32, 64) && AlignUp(0x2000_0000 + HEADER, 16) == 0x2000_0020
  {
    Sixteen();
    AlignsToFactor(0x2000_0018, 16, 16);
  }

  lemma PutBack(live: set<nat>, b: nat)
    requires b in live
    ensures live - {b} + {b} == live
  {
  }

  /** A freed block is handed to the next request of its class, whatever alignment
      is asked for. */
  method FreeThenObtain(arena: Arena, q: nat, cls: nat, align: nat, os: nat -> Option<nat>) returns (r: Option<nat>)
    requires arena.Valid() && q >= HEADER && q - HEADER in arena.live && InPool(q - HEADER)
    requires arena.headers[q - HEADER].cls == cls && 4 <= cls < CLASSES
    requires align > 0 && align % 16 == 0 && arena.KernelOk(os) && Fits(ClassSize(cls), align)
    modifies arena
    ensures arena.Valid() && r == Some(q) && arena.live == old(arena.live)
  {
    PutBack(arena.live, q - HEADER);
    arena.Free(q);
    r := arena.Obtain(Block(cls, ClassSize(cls)), align, os);
  }

  /** What a first request for 32 bytes gets when the kernel honours the hint. */
  method FirstBlock() returns (arena: Arena, q: nat)
    ensures fresh(arena) && arena.Valid() && q == 0x2000_0020 && q - HEADER in arena.live
    ensures arena.headers[q - HEADER] == Block(4, 32) && arena.left <= PoolSize(32, 16)
  {
    SmallestRequest();
    arena := new Arena();
    var os := (n: nat) => Some(0x2000_0000);
    var p := arena.Obtain(Block(4, 32), 16, os);
    q := p.value;
  }

  /** 32 bytes are asked to grow to 16 MiB and the kernel refuses: there is no new
      block, and the old one is gone. */
  method FailedGrowthReleases() returns (arena: Arena, q: nat, r: Option<nat>)
    ensures r == None && q - HEADER !in arena.live
  {
    arena, q := FirstBlock();
    LargeRequest(arena.left);
    ZeroListIsEmpty(arena.free, arena.headers, arena.live);
    var none := (n: nat) => None;
    r := arena.Realloc(q, 0x100_0000, none);
  }

  lemma LargeRequest(left: nat)
    requires left <= PoolSize(32, 16)
    ensures ClassGot(0x100_0000) == 0 && SizeGot(0x100_0000) == 0x100_0000 && Covered(0x100_0000)
    ensures left < SizeGot(0x100_0000) + HEADER + 16
  {
  }

  /** A block asked for at alignment 64 that is not at a multiple of 64. */
  method ReuseIgnoresAlignment() returns (q: nat)
    ensures q % 64 == 32
  {
    SmallestRequest();
    var arena, p := FirstBlock();
    var r := FreeThenObtain(arena, p, 4, 64, (n: nat) => None);
    q := r.value;
  }
}
