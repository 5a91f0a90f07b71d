/** The session owner's side of the shadow table, as it updates the mapped buffer
    in place.  Each method is proved against the table function it implements. */
module ShadowOwner {
  import opened Common
  import opened PathTranslate
  import opened ShadowTable

  class Shadow {
    const cap: nat
    const rows: array<Row>
    const strtab: array<char>
    var count: nat
    var hdrStrtabLen: nat
    var strtabLen: nat
    var gen: nat

    ghost predicate Valid()
      reads this
    {
      && CapOk(cap) && rows.Length == cap && Base(cap) + strtab.Length == MAP_SIZE
      && count <= cap && hdrStrtabLen == strtabLen <= strtab.Length
    }

    /** The table in the buffer. */
    ghost function Snapshot(): Table
      requires Valid()
      reads this, rows, strtab
    {
      Table(cap, rows[..count], strtab[..strtabLen], gen)
    }

    constructor (cap: nat)
      requires CapOk(cap)
      ensures Valid() && fresh(rows) && fresh(strtab) && Snapshot() == ShadowTable.Create(cap)
    {
      this.cap := cap;
      rows := new Row[cap](_ => Row(0, 0, 0, 0, 0, 0));
      strtab := new char[MAP_SIZE - Base(cap)](_ => '\0');
      count, hdrStrtabLen, strtabLen, gen := 0, 0, 0, 1;
    }

    /** The stores of one row: the row, its strings, the published length, and the
        count last. */
    method Put(typ: nat, dst: string, src: string)
      requires Valid() && Full(Snapshot(), dst, src) == None
      modifies this, rows, strtab
      ensures Valid() && Snapshot() == Append(old(Snapshot()), typ, dst, src)
    {
      var at := strtabLen;
      var srcAt := at + |dst| + 1;
      rows[count] := Row(typ, S_VALID, srcAt, |src|, at, |dst|);
      forall k | 0 <= k < |dst| { strtab[at + k] := dst[k]; }
      strtab[at + |dst|] := '\0';
      forall k | 0 <= k < |src| { strtab[srcAt + k] := src[k]; }
      strtab[srcAt + |src|] := '\0';
      hdrStrtabLen := at + Need(dst, src);
      count := count + 1;
      strtabLen := at + Need(dst, src);
      assert strtab[..strtabLen] == old(strtab[..strtabLen]) + dst + "\0" + src + "\0";
    }

    method WriteEntryRaw(typ: nat, src: string, dst: string) returns (r: Result)
      requires Valid()
      modifies this, rows, strtab
      ensures Valid()
      ensures match Full(old(Snapshot()), dst, src)
              case Some(e) => r == Err(e) && Snapshot() == old(Snapshot())
              case None => r == Ok(old(count)) && Snapshot() == Append(old(Snapshot()), typ, dst, src)
    {
      if count >= cap { return Err(ShadowFull); }
      if Base(cap) + strtabLen + Need(dst, src) > MAP_SIZE { return Err(StrtabFull); }
      r := Ok(count);
      Put(typ, dst, src);
    }

    method BuryLive(dst: string)
      requires Valid()
      modifies rows
      ensures Snapshot() == Tombstone(old(Snapshot()), dst)
    {
      ghost var strs := strtab[..strtabLen];
      for i := 0 to count
        invariant strtab[..strtabLen] == strs
        invariant forall k | 0 <= k < i :: rows[k] == Bury(strs, old(rows[k]), dst)
        invariant forall k | i <= k < cap :: rows[k] == old(rows[k])
      {
        var r := rows[i];
        if r.typ == T_BIND && r.state == S_VALID && Dst(strtab[..strtabLen], r) == dst {
          rows[i] := r.(state := S_REMOVED);
        }
      }
      assert rows[..count] == Tombstone(old(Snapshot()), dst).rows;
    }

    method AddBind(dst: string, src: string) returns (r: Result)
      requires Valid()
      modifies this, rows, strtab
      ensures Valid() && (Snapshot(), r) == ShadowTable.AddBind(old(Snapshot()), dst, src)
    {
      if !Absolute(dst) || !Absolute(src) { return Err(NotAbsolute); }
      BuryLive(dst);
      r := WriteEntryRaw(T_BIND, src, dst);
    }

    method MarkState(idx: nat, state: nat) returns (r: Result)
      requires Valid()
      modifies rows
      ensures (Snapshot(), r) == ShadowTable.MarkState(old(Snapshot()), idx, state)
    {
      if idx >= count { return Err(BadIndex); }
      rows[idx] := rows[idx].(state := state);
      r := Ok(idx);
      assert rows[..count] == old(rows[..count])[idx := rows[idx]];
    }

    method CountRemoved() returns (n: nat)
      requires Valid()
      ensures n == Removed(Snapshot().rows)
    {
      n := 0;
      for i := 0 to count
        invariant n == Removed(rows[..i])
      {
        assert rows[..i + 1][..i] == rows[..i];
        if rows[i].state == S_REMOVED { n := n + 1; }
      }
    }

    method CollectLive() returns (es: seq<Entry>)
      requires Valid()
      ensures es == Live(Snapshot().strs, Snapshot().rows)
    {
      es := [];
      for i := 0 to count
        invariant es == Live(strtab[..strtabLen], rows[..i])
      {
        assert rows[..i + 1][..i] == rows[..i];
        var r := rows[i];
        if r.state == S_VALID {
          es := es + [Entry(r.typ, Dst(strtab[..strtabLen], r), Src(strtab[..strtabLen], r))];
        }
      }
    }

    method Wipe()
      requires Valid()
      modifies this, rows, strtab
      ensures Valid() && Snapshot() == old(Snapshot()).(rows := [], strs := "")
    {
      forall k | 0 <= k < rows.Length { rows[k] := Row(0, 0, 0, 0, 0, 0); }
      forall k | 0 <= k < strtab.Length { strtab[k] := '\0'; }
      count, hdrStrtabLen, strtabLen := 0, 0, 0;
    }

    method Compact() returns (ok: bool)
      requires Valid()
      modifies this, rows, strtab
      ensures Valid() && (Snapshot(), ok) == ShadowTable.Compact(old(Snapshot()))
    {
      var es := CollectLive();
      Wipe();
      ghost var blank := Snapshot();
      ok := true;
      for i := 0 to |es|
        invariant Valid() && ok && (Snapshot(), ok) == Rebuild(blank, es[..i])
      {
        assert es[..i + 1][..i] == es[..i];
        var r := WriteEntryRaw(es[i].typ, es[i].src, es[i].dst);
        if r.Err? {
          RebuildStops(blank, es, i + 1);
          return false;
        }
      }
      assert es[..|es|] == es;
    }

    method Commit()
      requires Valid()
      modifies this, rows, strtab
      ensures Valid() && Snapshot() == ShadowTable.Commit(old(Snapshot()))
    {
      if count > 8 {
        var removed := CountRemoved();
        if removed * 2 > count {
          var _ := Compact();
        }
      }
      gen := gen - gen % 2 + 2;
    }
  }

  /** Once an entry does not fit, the rest are not tried. */
  lemma {:induction false} RebuildStops(t: Table, es: seq<Entry>, n: nat)
    requires n <= |es| && !Rebuild(t, es[..n]).1
    ensures Rebuild(t, es) == Rebuild(t, es[..n])
    decreases |es| - n
  {
    if n < |es| {
      assert es[..n + 1][..n] == es[..n];
      RebuildStops(t, es, n + 1);
    } else {
      assert es[..n] == es;
    }
  }
}
