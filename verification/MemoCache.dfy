/** The memo caches of the interposer: a fixed table, a bounded linear probe from
    the key's hash, no eviction, and a clear that empties everything.  The
    translate cache has 128 slots and 8 probes, the exec-name cache 64 and 6, and
    both cut keys and values to their buffers; the model covers every such table
    and every hash. */
module MemoCache {
  import opened Common

  datatype Slot<K, V> = Free | Used(key: K, val: V)

  /** `start` is the hash reduced to a slot; `cutKey` and `cutVal` are what the
      fixed-size buffers keep of a key and of a value. */
  datatype Shape<!K, !V> = Shape(cap: nat, hops: nat, start: K -> nat, cutKey: K -> K, cutVal: V -> V) {
    predicate Valid() { 0 < hops <= cap }
  }

  type Table<K, V> = seq<Slot<K, V>>

  // ---------------------------------------------------------------------------
  // Probing

  function Pos<K, V>(sh: Shape<K, V>, k: K, hop: nat): (i: nat)
    requires sh.Valid()
    ensures i < sh.cap
  {
    (sh.start(k) + hop) % sh.cap
  }

  /** The first probe, from `hop` on, whose slot is free or holds `k`; the number
      of probes if there is none. */
  function Probe<K(==), V>(sh: Shape<K, V>, t: Table<K, V>, k: K, hop: nat): (h: nat)
    requires sh.Valid() && |t| == sh.cap && hop <= sh.hops
    ensures hop <= h <= sh.hops
    ensures h < sh.hops ==> t[Pos(sh, k, h)].Free? || t[Pos(sh, k, h)].key == k
    ensures forall j | hop <= j < h :: t[Pos(sh, k, j)].Used? && t[Pos(sh, k, j)].key != k
    decreases sh.hops - hop
  {
    if hop == sh.hops then hop
    else if t[Pos(sh, k, hop)].Free? || t[Pos(sh, k, hop)].key == k then hop
    else Probe(sh, t, k, hop + 1)
  }

  predicate Room<K(==), V>(sh: Shape<K, V>, t: Table<K, V>, k: K)
    requires sh.Valid() && |t| == sh.cap
  {
    Probe(sh, t, k, 0) < sh.hops
  }

  function Home<K(==), V>(sh: Shape<K, V>, t: Table<K, V>, k: K): nat
    requires sh.Valid() && |t| == sh.cap && Room(sh, t, k)
  {
    Pos(sh, k, Probe(sh, t, k, 0))
  }

  function Lookup<K(==), V>(sh: Shape<K, V>, t: Table<K, V>, k: K): Option<V>
    requires sh.Valid() && |t| == sh.cap
  {
    if Room(sh, t, k) && t[Home(sh, t, k)].Used? then Some(t[Home(sh, t, k)].val) else None
  }

  function Store<K(==), V>(sh: Shape<K, V>, t: Table<K, V>, k: K, v: V): (u: Table<K, V>)
    requires sh.Valid() && |t| == sh.cap
    ensures |u| == |t|
  {
    if Room(sh, t, k) then t[Home(sh, t, k) := Used(sh.cutKey(k), sh.cutVal(v))] else t
  }

  function Empty<K, V>(sh: Shape<K, V>): (t: Table<K, V>)
    ensures |t| == sh.cap
  {
    seq(sh.cap, _ => Free)
  }

  // ---------------------------------------------------------------------------
  // What the table keeps

  /** Every used slot is the one its own key's probe ends at. */
  ghost predicate Ok<K, V>(sh: Shape<K, V>, t: Table<K, V>) {
    && sh.Valid() && |t| == sh.cap
    && forall i | 0 <= i < |t| && t[i].Used? :: Room(sh, t, t[i].key) && Home(sh, t, t[i].key) == i
  }

  /** No key is in the table twice. */
  lemma KeysAreUnique<K, V>(sh: Shape<K, V>, t: Table<K, V>, i: nat, j: nat)
    requires Ok(sh, t) && i < |t| && j < |t| && t[i].Used? && t[j].Used? && t[i].key == t[j].key
    ensures i == j
  {
    assert Home(sh, t, t[i].key) == i;
  }

  lemma MissMeansAbsent<K, V>(sh: Shape<K, V>, t: Table<K, V>, k: K)
    requires Ok(sh, t)
    ensures Lookup(sh, t, k) == None <==> forall i | 0 <= i < |t| && t[i].Used? :: t[i].key != k
  {
    if Room(sh, t, k) { assert t[Home(sh, t, k)].Used? ==> t[Home(sh, t, k)].key == k; }
  }

  /** The slot `hop` places behind the hash, around the end, is free or holds `k`. */
  predicate Open<K(==), V>(sh: Shape<K, V>, t: Table<K, V>, k: K, hop: nat)
    requires sh.Valid() && |t| == sh.cap
  {
    var e := t[(sh.start(k) + hop) % sh.cap];
    e.Free? || e.key == k
  }

  /** A put finds a place if and only if one of its probes does. */
  lemma RoomIff<K, V>(sh: Shape<K, V>, t: Table<K, V>, k: K)
    requires sh.Valid() && |t| == sh.cap
    ensures Room(sh, t, k) <==> exists hop: nat | hop < sh.hops :: Open(sh, t, k, hop)
  {
    var h := Probe(sh, t, k, 0);
    assert h < sh.hops ==> Open(sh, t, k, h);
    assert forall hop: nat | hop < h :: Open(sh, t, k, hop) ==> t[Pos(sh, k, hop)].Free? || t[Pos(sh, k, hop)].key == k;
  }

  /** Storing `k` leaves the probe of a key that is in the table where it was. */
  lemma {:induction false} ProbeIsStable<K, V>(sh: Shape<K, V>, t: Table<K, V>, p: nat, k: K, v: V, other: K, hop: nat)
    requires sh.Valid() && |t| == sh.cap && p < |t| && (t[p].Free? || t[p].key == k) && other != k
    requires hop <= sh.hops && Probe(sh, t, other, hop) < sh.hops && t[Pos(sh, other, Probe(sh, t, other, hop))].Used?
    ensures Probe(sh, t[p := Used(k, v)], other, hop) == Probe(sh, t, other, hop)
    decreases sh.hops - hop
  {
    if hop < Probe(sh, t, other, hop) { ProbeIsStable(sh, t, p, k, v, other, hop + 1); }
  }

  lemma {:induction false} ProbeOfStored<K, V>(sh: Shape<K, V>, t: Table<K, V>, k: K, v: V, hop: nat)
    requires sh.Valid() && |t| == sh.cap && hop <= sh.hops && Probe(sh, t, k, hop) < sh.hops
    ensures Probe(sh, t[Pos(sh, k, Probe(sh, t, k, hop)) := Used(k, v)], k, hop) == Probe(sh, t, k, hop)
    decreases sh.hops - hop
  {
    var h := Probe(sh, t, k, hop);
    if hop < h {
      assert Pos(sh, k, hop) != Pos(sh, k, h);
      ProbeOfStored(sh, t, k, v, hop + 1);
    }
  }

  lemma StoreKeepsOk<K, V>(sh: Shape<K, V>, t: Table<K, V>, k: K, v: V)
    requires Ok(sh, t) && sh.cutKey(k) == k
    ensures Ok(sh, Store(sh, t, k, v))
  {
    if Room(sh, t, k) {
      var p, u := Home(sh, t, k), Store(sh, t, k, v);
      ProbeOfStored(sh, t, k, sh.cutVal(v), 0);
      forall i | 0 <= i < |u| && u[i].Used?
        ensures Room(sh, u, u[i].key) && Home(sh, u, u[i].key) == i
      {
        if i != p {
          assert Home(sh, t, t[i].key) == i;
          ProbeIsStable(sh, t, p, k, sh.cutVal(v), t[i].key, 0);
        }
      }
    }
  }

  /** A store answers for its own key, if the probe found a place, and for no
      other key. */
  lemma StoreMeans<K, V>(sh: Shape<K, V>, t: Table<K, V>, k: K, v: V, other: K)
    requires Ok(sh, t) && sh.cutKey(k) == k && sh.cutVal(v) == v
    ensures Lookup(sh, Store(sh, t, k, v), other)
         == if other != k then Lookup(sh, t, other) else if Room(sh, t, k) then Some(v) else None
  {
    if Room(sh, t, k) {
      var p, u := Home(sh, t, k), Store(sh, t, k, v);
      StoreKeepsOk(sh, t, k, v);
      if other == k {
        ProbeOfStored(sh, t, k, v, 0);
      } else if Lookup(sh, t, other).Some? {
        ProbeIsStable(sh, t, p, k, v, other, 0);
      } else {
        MissMeansAbsent(sh, t, other);
        MissMeansAbsent(sh, u, other);
      }
    }
  }

  // ---------------------------------------------------------------------------
  // Runs

  datatype Op<K, V> = Put(key: K, val: V) | Clear

  ghost function Run<K, V>(sh: Shape<K, V>, ops: seq<Op<K, V>>): (t: Table<K, V>)
    requires sh.Valid()
    ensures |t| == sh.cap
  {
    if ops == [] then Empty(sh)
    else
      match ops[|ops| - 1]
      case Put(k, v) => Store(sh, Run(sh, ops[..|ops| - 1]), k, v)
      case Clear => Empty(sh)
  }

  /** The value last put for `k` since the last clear. */
  ghost function LastPut<K, V>(ops: seq<Op<K, V>>, k: K): Option<V> {
    if ops == [] || ops[|ops| - 1].Clear? then None
    else if ops[|ops| - 1].key == k then Some(ops[|ops| - 1].val)
    else LastPut(ops[..|ops| - 1], k)
  }

  /** Some put of `k` since the last clear found a place within its probes. */
  ghost predicate Admitted<K, V>(sh: Shape<K, V>, ops: seq<Op<K, V>>, k: K)
    requires sh.Valid()
  {
    && ops != [] && ops[|ops| - 1].Put?
    && (Admitted(sh, ops[..|ops| - 1], k)
        || (ops[|ops| - 1].key == k && Room(sh, Run(sh, ops[..|ops| - 1]), k)))
  }

  /** No key and no value is cut. */
  ghost predicate Fits<K, V>(sh: Shape<K, V>, ops: seq<Op<K, V>>) {
    forall i | 0 <= i < |ops| && ops[i].Put? ::
      sh.cutKey(ops[i].key) == ops[i].key && sh.cutVal(ops[i].val) == ops[i].val
  }

  lemma EmptyAnswersNothing<K, V>(sh: Shape<K, V>, k: K)
    requires sh.Valid()
    ensures Ok(sh, Empty(sh)) && Lookup(sh, Empty(sh), k) == None
  {
  }

  lemma {:induction false} RunKeepsOk<K, V>(sh: Shape<K, V>, ops: seq<Op<K, V>>)
    requires sh.Valid() && Fits(sh, ops)
    ensures Ok(sh, Run(sh, ops))
  {
    if ops != [] && ops[|ops| - 1].Put? {
      RunKeepsOk(sh, ops[..|ops| - 1]);
      StoreKeepsOk(sh, Run(sh, ops[..|ops| - 1]), ops[|ops| - 1].key, ops[|ops| - 1].val);
    }
  }

  /** After any run no key is in the table twice. */
  lemma EachKeyOnce<K, V>(sh: Shape<K, V>, ops: seq<Op<K, V>>, i: nat, j: nat)
    requires sh.Valid() && Fits(sh, ops) && i < sh.cap && j < sh.cap
    requires var t := Run(sh, ops); t[i].Used? && t[j].Used? && t[i].key == t[j].key
    ensures i == j
  {
    RunKeepsOk(sh, ops);
    KeysAreUnique(sh, Run(sh, ops), i, j);
  }

  /** After any run a lookup gives the value last put for the key since the last
      clear, or nothing; and nothing only if there was no such put or every one
      of them found its probes taken. */
  lemma {:induction false} LookupIsLastPut<K, V>(sh: Shape<K, V>, ops: seq<Op<K, V>>, k: K)
    requires sh.Valid() && Fits(sh, ops)
    ensures Lookup(sh, Run(sh, ops), k) == if Admitted(sh, ops, k) then LastPut(ops, k) else None
    ensures Admitted(sh, ops, k) ==> LastPut(ops, k).Some?
  {
    if ops == [] || ops[|ops| - 1].Clear? {
      EmptyAnswersNothing(sh, k);
    } else {
      var before, op := ops[..|ops| - 1], ops[|ops| - 1];
      RunKeepsOk(sh, before);
      LookupIsLastPut(sh, before, k);
      StoreMeans(sh, Run(sh, before), op.key, op.val, k);
    }
  }

  /** A key that does not fit its buffer is filed under what is left of it: where
      that hashes alike, it answers for the shorter key, which was never put. */
  lemma CutKeyAnswersForAnother<K, V>(sh: Shape<K, V>, long: K, v: V)
    requires sh.Valid() && sh.cutKey(long) != long && sh.start(sh.cutKey(long)) == sh.start(long)
    ensures Lookup(sh, Run(sh, [Put(long, v)]), sh.cutKey(long)) == Some(sh.cutVal(v))
    ensures LastPut([Put(long, v)], sh.cutKey(long)) == None
  {
    var ops := [Put(long, v)];
    assert ops[..0] == [];
    assert Run(sh, ops) == Store(sh, Empty(sh), long, v);
    assert Home(sh, Empty(sh), long) == Pos(sh, long, 0);
  }

  // ---------------------------------------------------------------------------
  // The table in place

  class Cache<K(==), V> {
    const sh: Shape<K, V>
    const slots: array<Slot<K, V>>

    ghost predicate Valid()
      reads this, slots
    {
      sh.Valid() && slots.Length == sh.cap
    }

    constructor (sh: Shape<K, V>)
      requires sh.Valid()
      ensures Valid() && this.sh == sh && slots[..] == Empty(sh) && fresh(slots)
    {
      this.sh := sh;
      slots := new Slot<K, V>[sh.cap](_ => Free);
      new;
      assert slots[..] == Empty(sh);
    }

    method Get(k: K) returns (r: Option<V>)
      requires Valid()
      ensures r == Lookup(sh, slots[..], k)
    {
      for hop := 0 to sh.hops
        invariant Probe(sh, slots[..], k, 0) == Probe(sh, slots[..], k, hop)
      {
        var e := slots[Pos(sh, k, hop)];
        if e.Free? { return None; }
        if e.key == k { return Some(e.val); }
      }
      return None;
    }

    method Put(k: K, v: V)
      requires Valid()
      modifies slots
      ensures Valid() && slots[..] == Store(sh, old(slots[..]), k, v)
    {
      ghost var t := slots[..];
      for hop := 0 to sh.hops
        invariant slots[..] == t && Probe(sh, t, k, 0) == Probe(sh, t, k, hop)
      {
        var i := Pos(sh, k, hop);
        if slots[i].Free? || slots[i].key == k {
          slots[i] := Used(sh.cutKey(k), sh.cutVal(v));
          return;
        }
      }
    }

    method Clear()
      requires Valid()
      modifies slots
      ensures Valid() && slots[..] == Empty(sh)
    {
      for i := 0 to slots.Length
        invariant forall j | 0 <= j < i :: slots[j].Free?
      {
        slots[i] := Free;
      }
      assert slots[..] == Empty(sh);
    }
  }
}
