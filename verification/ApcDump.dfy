/** apc_bd_t and the loops that rewrite it in place. */
module ApcDump {
  import opened ApcImage
  import opened ApcBin

  function OffsetIn(base: nat, size: nat): nat -> nat { v => Offset(base, size, v) }

  function AbsoluteIn(base: nat): nat -> nat { v => Absolute(base, v) }

  /** The recorded addresses as offsets into the image at address base. */
  function CellsOf(recorded: seq<nat>, base: nat): (cells: seq<nat>)
    ensures |cells| == |recorded|
  {
    seq(|recorded|, i requires 0 <= i < |recorded| => if base <= recorded[i] then recorded[i] - base else 0)
  }

  class Dump {
    const sums: Checksums
    var base: nat
    var mem: array<byte>
    var recorded: seq<nat>

    ghost predicate Valid()
      reads this, mem
    {
      && ChecksumsOk(sums)
      && HEADER + 2 <= mem.Length <= base && base + mem.Length <= TOP
      && Within(CellsOf(recorded, base), mem.Length - 2) && Apart(CellsOf(recorded, base))
    }

    constructor (sums: Checksums, base: nat, image: Bytes)
      ensures this.sums == sums && this.base == base && mem[..] == image && fresh(mem) && recorded == []
    {
      this.sums, this.base, recorded := sums, base, [];
      mem := new byte[|image|](i requires 0 <= i < |image| => image[i]);
    }

    method Put(i: nat, n: nat, v: nat)
      requires i + n <= mem.Length && v < Pow(n)
      modifies mem
      ensures Wrote(old(mem[..]), mem[..], i, n, v)
    {
      ValueOfEnc(v, n);
      CopyIn(i, Enc(v, n));
    }

    method CopyIn(i: nat, b: Bytes)
      requires i + |b| <= mem.Length
      modifies mem
      ensures Patched(old(mem[..]), mem[..], i, b)
    {
      forall k | 0 <= k < |b| { mem[i + k] := b[k]; }
      assert mem[..][i..i + |b|] == b;
    }

    /** _apc_swizzle_ptr on the cell at address a. */
    method Record(a: nat)
      requires Valid() && base + HEADER <= a && a + PTR <= base + mem.Length - 2
      requires Apart(CellsOf(recorded, base) + [a - base])
      modifies `recorded
      ensures Valid()
      ensures var p := Get(mem[..], a - base, PTR);
        recorded == old(recorded) + if base < p && p < base + mem.Length then [a] else []
      ensures Recorded(mem[..], base, CellsOf(old(recorded), base)) ==> Recorded(mem[..], base, CellsOf(recorded, base))
    {
      var p := Get(mem[..], a - base, PTR);
      if p != 0 && Inside(base, mem.Length, p) {
        assert CellsOf(recorded + [a], base) == CellsOf(recorded, base) + [a - base];
        recorded := recorded + [a];
      }
    }

    /** The SWIZZLE macro on the cell at offset at; it gives up if the pointer p is astray. */
    method Swizzle(at: nat) returns (p: nat)
      requires at + PTR <= mem.Length && base + mem.Length <= TOP
      modifies mem
      ensures p == Get(old(mem[..]), at, PTR)
      ensures Wrote(old(mem[..]), mem[..], at, PTR, if base < p < base + mem.Length then p - base else p)
    {
      Widths();
      p := Get(mem[..], at, PTR);
      if Inside(base, mem.Length, p) { Put(at, PTR, p - base); }
    }

    /** Every recorded cell becomes an offset, and so does every recorded location. */
    method SwizzleCells() returns (table: seq<nat>, ok: bool)
      requires Valid()
      modifies mem
      ensures var cells, was := CellsOf(recorded, base), old(mem[..]);
        && (ok <==> forall c :: c in cells ==> !Astray(base, |was|, Get(was, c, PTR)))
        && (ok ==> table == cells && CellsBecome(was, mem[..], cells, |cells|, OffsetIn(base, |was|)))
    {
      ghost var was, cells := mem[..], CellsOf(recorded, base);
      table := [];
      for k := 0 to |recorded|
        invariant table == cells[..k] && CellsBecome(was, mem[..], cells, k, OffsetIn(base, |was|))
        invariant forall c :: c in cells && c in cells[..k] ==> !Astray(base, |was|, Get(was, c, PTR))
      {
        assert cells[k] in cells && recorded[k] - base == cells[k];
        ghost var s := mem[..];
        var p := Swizzle(recorded[k] - base);
        SwizzleStep(was, s, mem[..], base, cells, k);
        assert cells[..k + 1] == cells[..k] + [cells[k]];
        if Astray(base, mem.Length, p) { return table, false; }
        table := table + [Offset(base, mem.Length, recorded[k])];
      }
      assert cells[..|cells|] == cells;
      ok := true;
    }

    /** memcpy of the table. */
    method WriteTable(at: nat, table: seq<nat>)
      requires at + PTR * |table| <= mem.Length && forall c :: c in table ==> c < TOP
      modifies mem
      ensures TableAt(mem[..], at, table, 0)
      ensures Same(old(mem[..]), mem[..], 0, at) && Same(old(mem[..]), mem[..], at + PTR * |table|, mem.Length)
    {
      Widths();
      for k := 0 to |table|
        invariant TableUpTo(mem[..], at, table, k, 0)
        invariant Same(old(mem[..]), mem[..], 0, at) && Same(old(mem[..]), mem[..], at + PTR * |table|, mem.Length)
      {
        ghost var s := mem[..];
        assert table[k] in table;
        Put(at + PTR * k, PTR, table[k]);
        TableStep(s, mem[..], at, table, k, 0);
      }
    }

    /** The image grows by the table, and may move as it does. */
    method Grow(newBase: nat, junk: Bytes)
      modifies `base, `mem
      ensures fresh(mem) && base == newBase && mem[..] == old(mem[..]) + junk
    {
      var image := mem[..] + junk;
      mem := new byte[|image|](i requires 0 <= i < |image| => image[i]);
      base := newBase;
    }

    /** Appends the table of recorded cells; junk is what realloc leaves in the new bytes. */
    method Append(table: seq<nat>, newBase: nat, junk: Bytes)
      requires HEADER + 2 <= mem.Length && table != [] && |junk| == PTR * |table|
      requires newBase + mem.Length + |junk| <= TOP && mem.Length + |junk| < Pow(4)
      requires forall c :: c in table ==> c < TOP
      modifies `base, `mem
      ensures fresh(mem) && base == newBase && Appended(old(mem[..]), mem[..], table)
    {
      Widths();
      var size := mem.Length;
      Grow(newBase, junk);
      ghost var s0 := mem[..];
      Put(COUNT, 4, |table|);
      ghost var s1 := mem[..];
      Put(TABLE, PTR, base + size - 2);
      ghost var s2 := mem[..];
      Put(SIZE, 4, mem.Length);
      ghost var s3 := mem[..];
      WriteTable(size - 2, table);
      ghost var s4 := mem[..];
      var p := Swizzle(TABLE);
      AppendedBySteps(s0, s1, s2, s3, s4, mem[..], size, base, table);
    }

    method ClearChecksums()
      requires HEADER < mem.Length
      modifies mem
      ensures mem[..] == Blank(old(mem[..]))
    {
      forall k | MD5 <= k < 28 { mem[k] := 0; }
      assert mem[..] == Blank(old(mem[..]));
    }

    /** Terminates the image, marks it as a dump and stores its checksums. */
    method Seal()
      requires HEADER + 2 <= mem.Length && ChecksumsOk(sums)
      modifies mem
      ensures Same(old(mem[..]), mem[..], 0, SWIZZLED) && Same(old(mem[..]), mem[..], 28, mem.Length - 1)
      ensures mem[mem.Length - 1] == 0 && Get(mem[..], SWIZZLED, 4) == 1 && Sealed(mem[..], sums)
    {
      Widths();
      mem[mem.Length - 1] := 0;
      Put(SWIZZLED, 4, 1);
      ghost var marked := mem[..];
      ClearChecksums();
      var blank := mem[..];
      GetSame(marked, blank, 0, MD5, SWIZZLED, 4);
      CopyIn(MD5, sums.md5(blank));
      ghost var s := mem[..];
      Put(CRC, 4, sums.crc(blank));
      SealedBySteps(blank, s, mem[..], sums);
    }

    /** apc_swizzle_bd: the image becomes a dump, unless a pointer is astray. */
    method SwizzleImage(newBase: nat, junk: Bytes) returns (ok: bool)
      requires Valid() && Get(mem[..], SIZE, 4) == mem.Length && |junk| == PTR * |recorded|
      requires newBase + mem.Length + |junk| <= TOP && mem.Length + |junk| < Pow(4)
      modifies this, mem
      ensures var o, cells := old(mem[..]), CellsOf(old(recorded), old(base));
        && (ok <==> AllPlaced(o, old(base), cells))
        && (ok ==> |o| <= mem.Length && Dumped(o, mem[..], old(base), cells) && Sealed(mem[..], sums))
    {
      ghost var o, cells, at := mem[..], CellsOf(recorded, base), base;
      var table, placed := SwizzleCells();
      if !placed { return false; }
      ghost var s1 := mem[..];
      var p := Swizzle(ENTRIES);
      ghost var s2 := mem[..];
      CellsThenEntries(o, s1, s2, at, cells, p);
      if Astray(base, mem.Length, p) { return false; }
      if table != [] {
        Append(table, newBase, junk);
      } else {
        Widths();
        Put(COUNT, 4, 0);
        ghost var s := mem[..];
        Put(TABLE, PTR, 0);
        EmptyTable(s2, s, mem[..]);
      }
      ghost var s3 := mem[..];
      Seal();
      DumpedBySteps(o, s2, s3, mem[..], at, cells);
      return true;
    }

    /** apc_unswizzle_bd: the checks, then every offset becomes a pointer. cells: what the table lists. */
    method UnswizzleImage(checkMd5: bool, checkCrc: bool, ghost cells: seq<nat>) returns (ok: bool)
      requires ChecksumsOk(sums) && HEADER + 2 <= mem.Length <= base && base + mem.Length <= TOP
      requires Passes(mem[..], sums, checkMd5, checkCrc) ==> Loadable(mem[..], cells)
      modifies mem
      ensures ok <==> Passes(old(mem[..]), sums, checkMd5, checkCrc)
      ensures ok ==> Within(cells, mem.Length) && Loaded(old(mem[..]), mem[..], base, cells)
      ensures !ok ==> mem[..] == Blank(old(mem[..]))
    {
      ghost var s := mem[..];
      ok := Verify(checkMd5, checkCrc);
      if !ok { return; }
      Widths();
      var count, table := Get(mem[..], COUNT, 4), Get(mem[..], TABLE, PTR);
      MoveHeader();
      ghost var s2 := mem[..];
      if count > 0 {
        StillLoadable(s, s2, base, cells);
        UnswizzleCells(table, count, cells);
      }
      ghost var s3 := mem[..];
      Put(SWIZZLED, 4, 0);
      LoadedBySteps(s, s2, s3, mem[..], base, cells);
    }

    method MoveHeader()
      requires HEADER <= mem.Length
      modifies mem
      ensures HeadMoved(old(mem[..]), mem[..], base)
    {
      Widths();
      ghost var s := mem[..];
      Put(ENTRIES, PTR, Plus(base, Get(mem[..], ENTRIES, PTR)));
      ghost var s1 := mem[..];
      Put(TABLE, PTR, Plus(base, Get(mem[..], TABLE, PTR)));
      HeaderMoved(s, s1, mem[..], base);
    }

    /** Takes the stored checksums out, compares them as asked, and puts them back if they agree. */
    method Verify(checkMd5: bool, checkCrc: bool) returns (ok: bool)
      requires ChecksumsOk(sums) && HEADER + 2 <= mem.Length
      modifies mem
      ensures ok <==> Passes(old(mem[..]), sums, checkMd5, checkCrc)
      ensures mem[..] == if ok then old(mem[..]) else Blank(old(mem[..]))
    {
      ghost var s := mem[..];
      var md5, crc := mem[MD5..CRC], mem[CRC..28];
      assert crc == s[CRC..CRC + 4];
      ClearChecksums();
      if checkMd5 && md5 != sums.md5(mem[..]) { return false; }
      if checkCrc && Value(crc) != sums.crc(mem[..]) { return false; }
      CopyIn(MD5, md5);
      ghost var t := mem[..];
      CopyIn(CRC, crc);
      PutBack(s, t, mem[..]);
      return true;
    }

    /** The loop over the table. */
    method UnswizzleCells(table: nat, count: nat, ghost cells: seq<nat>)
      requires mem.Length <= base && base + mem.Length <= TOP
      requires count == |cells| && TableAt(mem[..], table, cells, 0) && Within(cells, table) && Apart(cells)
      modifies mem
      requires cells != []
      ensures Moved(old(mem[..]), mem[..], table, base, cells)
    {
      ghost var s := mem[..];
      for k := 0 to count
        invariant Moving(s, mem[..], table, base, cells, k)
      {
        UnswizzleCell(table, k, cells, s);
      }
      MovingIsMoved(s, mem[..], table, base, cells);
    }

    /** The offset in the cell at `at` becomes a pointer, unless it is one. */
    method Unswizzle(at: nat)
      requires at + PTR <= mem.Length && base <= TOP
      modifies mem
      ensures var v := Get(old(mem[..]), at, PTR);
        Wrote(old(mem[..]), mem[..], at, PTR, if v != 0 && v < base then v + base else v)
    {
      Widths();
      var v := Get(mem[..], at, PTR);
      if v != 0 && v < base { Put(at, PTR, v + base); }
    }

    /** One turn of it. */
    method UnswizzleCell(table: nat, k: nat, ghost cells: seq<nat>, ghost s: Bytes)
      requires |s| == mem.Length <= base && base + mem.Length <= TOP && k < |cells|
      requires TableAt(s, table, cells, 0) && Within(cells, table) && Apart(cells)
      requires Moving(s, mem[..], table, base, cells, k)
      modifies mem
      ensures Moving(s, mem[..], table, base, cells, k + 1)
    {
      Widths();
      ghost var s1 := mem[..];
      NextEntry(s, s1, table, base, cells, k);
      var at := Get(mem[..], table + PTR * k, PTR);
      if at != 0 {
        Put(table + PTR * k, PTR, at + base);
        ghost var s2 := mem[..];
        Unswizzle(at);
        MovingStep(s, s1, s2, mem[..], table, base, cells, k);
      }
    }
  }

  /** A dump nobody altered, brought to any address: it passes the checks asked for and keeps its
      checksums, recorded pointers have their old targets relative to the image, other bytes are kept. */
  method DumpThenLoad(d: Dump, growBase: nat, junk: Bytes, loadBase: nat, checkMd5: bool, checkCrc: bool)
      returns (copy: Dump, ghost dump: Bytes)
    requires d.Valid() && Get(d.mem[..], SIZE, 4) == d.mem.Length && |junk| == PTR * |d.recorded|
    requires Recorded(d.mem[..], d.base, CellsOf(d.recorded, d.base))
    requires growBase + d.mem.Length + |junk| <= TOP && d.mem.Length + |junk| < Pow(4)
    requires d.mem.Length + |junk| <= loadBase && loadBase + d.mem.Length + |junk| <= TOP
    modifies d, d.mem
    ensures fresh(copy) && copy.base == loadBase && fresh(copy.mem)
    ensures var o, u, cells := old(d.mem[..]), copy.mem[..], CellsOf(old(d.recorded), old(d.base));
      && Within(cells, |o| - 2) && |u| == |dump| == |o| + PTR * |cells|
      && (forall c :: c in cells ==> Get(u, c, PTR) - loadBase == Get(o, c, PTR) - old(d.base))
      && Get(u, ENTRIES, PTR) - loadBase == Get(o, ENTRIES, PTR) - old(d.base)
      && PayloadKept(o, u, cells, KeptTo(o, cells))
      && Sealed(dump, d.sums) && u[MD5..28] == dump[MD5..28]
  {
    ghost var o, cells, base := d.mem[..], CellsOf(d.recorded, d.base), d.base;
    var ok := d.SwizzleImage(growBase, junk);
    dump := d.mem[..];
    copy := new Dump(d.sums, loadBase, d.mem[..]);
    ok := copy.UnswizzleImage(checkMd5, checkCrc, cells);
    RoundTrip(o, dump, copy.mem[..], base, loadBase, cells);
    SliceKept(dump, copy.mem[..]);
  }

  /** An image filled up to its last two bytes: dumping it overwrites the last one with the table. */
  method LosesLastBytes(sums: Checksums) returns (d: Dump, o: Bytes)
    requires ChecksumsOk(sums)
    ensures |o| == HEADER + PTR + 2 && Recorded(o, 1000, [HEADER])
    ensures Dumped(o, d.mem[..], 1000, [HEADER]) && !PayloadKept(o, d.mem[..], [HEADER], |o|)
  {
    Widths();
    d := FullImage(sums);
    o := d.mem[..];
    d.Record(1000 + HEADER);
    assert CellsOf(d.recorded, d.base) == [HEADER];
    PlacedOne(o);
    var ok := d.SwizzleImage(2000, seq(PTR, _ => 0));
    LastTwoBytesKeptIff(o, d.mem[..], 1000, [HEADER]);
  }

  method FullImage(sums: Checksums) returns (d: Dump)
    requires ChecksumsOk(sums)
    ensures fresh(d) && fresh(d.mem) && d.Valid() && d.recorded == [] && d.base == 1000 && d.sums == sums
    ensures d.mem.Length == HEADER + PTR + 2 && d.mem[d.mem.Length - 2] == d.mem[d.mem.Length - 1] == 1
    ensures var o := d.mem[..];
      Get(o, SIZE, 4) == |o| && Get(o, ENTRIES, PTR) == 1000 + HEADER && Get(o, HEADER, PTR) == 1000 + HEADER + 1
  {
    Widths();
    d := new Dump(sums, 1000, seq(HEADER + PTR + 2, _ => 1));
    d.Put(SIZE, 4, HEADER + PTR + 2);
    ghost var s1 := d.mem[..];
    d.Put(ENTRIES, PTR, 1000 + HEADER);
    ghost var s2 := d.mem[..];
    d.Put(HEADER, PTR, 1000 + HEADER + 1);
    WroteApart(s1, s2, ENTRIES, PTR, 1000 + HEADER, SIZE, 4);
    WroteApart(s2, d.mem[..], HEADER, PTR, 1000 + HEADER + 1, SIZE, 4);
    WroteApart(s2, d.mem[..], HEADER, PTR, 1000 + HEADER + 1, ENTRIES, PTR);
  }

  lemma PlacedOne(o: Bytes)
    requires |o| == HEADER + PTR + 2 && Get(o, ENTRIES, PTR) == 1000 + HEADER
      && Get(o, HEADER, PTR) == 1000 + HEADER + 1
    ensures Recorded(o, 1000, [HEADER]) && AllPlaced(o, 1000, [HEADER])
  {
  }

  lemma SliceKept(s: Bytes, u: Bytes)
    requires HEADER < |s| == |u| && u[MD5..ENTRIES] == s[MD5..ENTRIES]
    ensures u[MD5..28] == s[MD5..28]
  {
    assert u[MD5..28] == u[MD5..ENTRIES][..20] && s[MD5..28] == s[MD5..ENTRIES][..20];
  }

  /** The first k entries of the table, and the cells they name, have been moved. */
  ghost predicate Moving(s: Bytes, t: Bytes, table: nat, base: nat, cells: seq<nat>, k: nat) {
    && k <= |cells| && table + PTR * |cells| <= |s| == |t| && Within(cells, table)
    && CellsBecome(s[..table], t[..table], cells, k, AbsoluteIn(base))
    && TableUpTo(t, table, cells, k, base)
    && (forall i: nat :: k <= i < |cells| ==> Entry(t, table, i) == Entry(s, table, i))
    && Same(s, t, table + PTR * |cells|, |s|)
  }

  lemma PutBack(s: Bytes, t: Bytes, u: Bytes)
    requires HEADER < |s| && Patched(Blank(s), t, MD5, s[MD5..CRC]) && Patched(t, u, CRC, s[CRC..28])
    ensures u == s
  {
    forall j: nat | j < |s| ensures u[j] == s[j] {
      if MD5 <= j < CRC { assert t[MD5..MD5 + 16][j - MD5] == s[MD5..CRC][j - MD5]; }
      if CRC <= j < 28 { assert u[CRC..CRC + 4][j - CRC] == s[CRC..28][j - CRC]; }
    }
  }

  lemma WrotePrefix(s: Bytes, t: Bytes, i: nat, v: nat, limit: nat)
    requires Wrote(s, t, i, PTR, v) && limit <= |s|
    ensures i + PTR <= limit ==> Wrote(s[..limit], t[..limit], i, PTR, v)
    ensures limit <= i ==> t[..limit] == s[..limit]
  {
    if i + PTR <= limit { assert t[..limit][i..i + PTR] == t[i..i + PTR]; }
  }

  lemma GetPrefix(s: Bytes, i: nat, limit: nat)
    requires i + PTR <= limit <= |s|
    ensures Get(s[..limit], i, PTR) == Get(s, i, PTR)
  {
    assert s[..limit][i..i + PTR] == s[i..i + PTR];
  }

  lemma MovingStep(s: Bytes, s1: Bytes, s2: Bytes, s3: Bytes, table: nat, base: nat, cells: seq<nat>, k: nat)
    requires k < |cells| && cells[k] in cells && Apart(cells) && Moving(s, s1, table, base, cells, k)
    requires Wrote(s1, s2, table + PTR * k, PTR, cells[k] + base)
    requires Wrote(s2, s3, cells[k], PTR, Absolute(base, Get(s2, cells[k], PTR)))
    ensures Moving(s, s3, table, base, cells, k + 1)
  {
    var at := cells[k];
    WrotePrefix(s1, s2, table + PTR * k, at + base, table);
    WrotePrefix(s2, s3, at, Absolute(base, Get(s2, at, PTR)), table);
    GetPrefix(s2, at, table);
    CellStep(s[..table], s2[..table], s3[..table], cells, k, AbsoluteIn(base));
    TableStep(s1, s2, table, cells, k, base);
    TableSame(s2, s3, table, cells, k + 1, base);
    forall i: nat | k + 1 <= i < |cells| ensures Entry(s3, table, i) == Entry(s, table, i) {
      LaterEntry(s1, s2, s3, table, at, k, i, at + base, Absolute(base, Get(s2, at, PTR)));
    }
  }

  /** Neither write of a turn reaches a later entry of the table. */
  lemma LaterEntry(s1: Bytes, s2: Bytes, s3: Bytes, table: nat, at: nat, k: nat, i: nat, v: nat, w: nat)
    requires k < i && table + PTR * (i + 1) <= |s1| && at + PTR <= table
    requires Wrote(s1, s2, table + PTR * k, PTR, v) && Wrote(s2, s3, at, PTR, w)
    ensures Entry(s3, table, i) == Entry(s1, table, i)
  {
    WroteApart(s1, s2, table + PTR * k, PTR, v, table + PTR * i, PTR);
    WroteApart(s2, s3, at, PTR, w, table + PTR * i, PTR);
  }

  /** The entry of the table that is next to be moved names its cell. */
  lemma NextEntry(s: Bytes, t: Bytes, table: nat, base: nat, cells: seq<nat>, k: nat)
    requires k < |cells| && TableAt(s, table, cells, 0) && Moving(s, t, table, base, cells, k)
    ensures table + PTR * (k + 1) <= |t| && Get(t, table + PTR * k, PTR) == cells[k] && cells[k] in cells
    ensures HEADER <= cells[k] && cells[k] + PTR <= table
  {
    assert Entry(t, table, k) == Entry(s, table, k) && cells[k] in cells;
  }

  /** Both pointers of the header have been moved. */
  ghost predicate HeadMoved(s: Bytes, t: Bytes, base: nat)
    requires HEADER <= |s|
  {
    && |t| == |s| && Get(t, ENTRIES, PTR) == Plus(base, Get(s, ENTRIES, PTR))
    && Get(t, TABLE, PTR) == Plus(base, Get(s, TABLE, PTR))
    && Same(s, t, 0, ENTRIES) && Same(s, t, COUNT, TABLE) && Same(s, t, HEADER, |s|)
  }

  lemma HeaderMoved(s: Bytes, s1: Bytes, s2: Bytes, base: nat)
    requires HEADER <= |s| && Wrote(s, s1, ENTRIES, PTR, Plus(base, Get(s, ENTRIES, PTR)))
    requires Wrote(s1, s2, TABLE, PTR, Plus(base, Get(s1, TABLE, PTR)))
    ensures HeadMoved(s, s2, base)
  {
    WroteApart(s, s1, ENTRIES, PTR, Plus(base, Get(s, ENTRIES, PTR)), TABLE, PTR);
    WroteApart(s1, s2, TABLE, PTR, Plus(base, Get(s1, TABLE, PTR)), ENTRIES, PTR);
  }

  lemma StillLoadable(s: Bytes, t: Bytes, base: nat, cells: seq<nat>)
    requires cells != [] && Loadable(s, cells) && HeadMoved(s, t, base)
    ensures var table := Get(s, TABLE, PTR);
      TableAt(t, table, cells, 0) && Within(cells, table)
  {
    assert cells[0] in cells;
    TableSame(s, t, Get(s, TABLE, PTR), cells, |cells|, 0);
  }

  /** What the loop has done, in terms of the whole image. */
  ghost predicate Moved(s: Bytes, t: Bytes, table: nat, base: nat, cells: seq<nat>) {
    && |t| == |s| && HEADER <= table && Within(cells, table) && TableAt(t, table, cells, base)
    && (forall c :: c in cells ==> Get(t, c, PTR) == Absolute(base, Get(s, c, PTR)))
    && (forall j: nat :: j < table && !Covered(cells, j) ==> t[j] == s[j])
  }

  lemma MovingIsMoved(s: Bytes, t: Bytes, table: nat, base: nat, cells: seq<nat>)
    requires cells != [] && Moving(s, t, table, base, cells, |cells|)
    ensures Moved(s, t, table, base, cells)
  {
    assert cells[..|cells|] == cells && cells[0] in cells;
    forall c | c in cells ensures Get(t, c, PTR) == Absolute(base, Get(s, c, PTR)) {
      GetPrefix(s, c, table);
      GetPrefix(t, c, table);
    }
    forall j: nat | j < table && !Covered(cells, j) ensures t[j] == s[j] {
      assert t[..table][j] == s[..table][j];
    }
  }

  lemma LoadedBySteps(s: Bytes, s2: Bytes, s3: Bytes, u: Bytes, base: nat, cells: seq<nat>)
    requires Loadable(s, cells) && Within(cells, |s|) && HeadMoved(s, s2, base) && Wrote(s3, u, SWIZZLED, 4, 0)
    requires if cells == [] then s3 == s2 else Moved(s2, s3, Get(s, TABLE, PTR), base, cells)
    ensures Loaded(s, u, base, cells)
  {
    assert Same(s2, s3, 0, HEADER) by {
      forall j: nat | j < HEADER ensures s3[j] == s2[j] { assert !Covered(cells, j); }
    }
    assert Same(s2, u, 8, HEADER);
    GetSame(s2, u, 8, HEADER, ENTRIES, PTR);
    GetSame(s2, u, 8, HEADER, TABLE, PTR);
    forall c | c in cells ensures Get(u, c, PTR) == Absolute(base, Get(s, c, PTR)) {
      GetSame(s, s2, HEADER, |s|, c, PTR);
      GetSame(s3, u, HEADER, |s|, c, PTR);
    }
    if cells != [] { TableSame(s3, u, Get(s, TABLE, PTR), cells, |cells|, base); }
  }

  ghost predicate AllPlaced(o: Bytes, base: nat, cells: seq<nat>)
    requires HEADER <= |o| && Within(cells, |o|)
  {
    && (forall c :: c in cells ==> !Astray(base, |o|, Get(o, c, PTR)))
    && !Astray(base, |o|, Get(o, ENTRIES, PTR))
  }

  /** A dump is refused exactly if a recorded pointer or that to the entries lies outside the image and is no
      small number either; of what recording established, none does. */
  lemma PlacedIff(o: Bytes, base: nat, cells: seq<nat>)
    requires HEADER <= |o| && Within(cells, |o|)
    ensures AllPlaced(o, base, cells) <==>
      forall c :: c in cells + [ENTRIES] ==> var p := Get(o, c, PTR); p <= |o| || (base < p && p < base + |o|)
    ensures Recorded(o, base, cells) ==> AllPlaced(o, base, cells)
  {
    if c :| c in cells && Astray(base, |o|, Get(o, c, PTR)) { assert c in cells + [ENTRIES]; }
    assert ENTRIES in cells + [ENTRIES];
  }

  predicate Patched(s: Bytes, t: Bytes, i: nat, b: Bytes) {
    && i + |b| <= |s| == |t| && t[i..i + |b|] == b
    && forall j: nat :: j < |s| && !(i <= j < i + |b|) ==> t[j] == s[j]
  }

  lemma SealedBySteps(blank: Bytes, s: Bytes, t: Bytes, sums: Checksums)
    requires HEADER < |blank| && |sums.md5(blank)| == 16
    requires forall j: nat :: MD5 <= j < 28 ==> blank[j] == 0
    requires Patched(blank, s, MD5, sums.md5(blank)) && Wrote(s, t, CRC, 4, sums.crc(blank))
    ensures Sealed(t, sums) && Same(blank, t, 0, MD5) && Get(t, SWIZZLED, 4) == Get(blank, SWIZZLED, 4)
  {
    assert Blank(t) == blank;
    assert t[MD5..CRC] == s[MD5..MD5 + 16];
    GetSame(blank, t, 0, MD5, SWIZZLED, 4);
  }

  /** The image once its cells and its entry pointer are offsets. */
  ghost predicate Rebased(o: Bytes, s: Bytes, base: nat, cells: seq<nat>)
    requires HEADER <= |o| && Within(cells, |o|)
  {
    && |s| == |o|
    && (forall c :: c in cells ==> Get(s, c, PTR) == Offset(base, |o|, Get(o, c, PTR)))
    && Get(s, ENTRIES, PTR) == Offset(base, |o|, Get(o, ENTRIES, PTR))
    && PayloadKept(o, s, cells, |o|) && Get(s, SIZE, 4) == Get(o, SIZE, 4)
  }

  lemma CellsThenEntries(o: Bytes, s: Bytes, t: Bytes, base: nat, cells: seq<nat>, p: nat)
    requires HEADER <= |o| && Within(cells, |o|) && CellsBecome(o, s, cells, |cells|, OffsetIn(base, |o|))
    requires p == Get(s, ENTRIES, PTR) && Wrote(s, t, ENTRIES, PTR, Offset(base, |o|, p))
    ensures p == Get(o, ENTRIES, PTR) && Rebased(o, t, base, cells)
  {
    assert cells[..|cells|] == cells;
    forall j: nat | j < HEADER ensures s[j] == o[j] { assert !Covered(cells, j); }
    GetSame(o, s, 0, HEADER, ENTRIES, PTR);
    GetSame(o, s, 0, HEADER, SIZE, 4);
    WroteApart(s, t, ENTRIES, PTR, Offset(base, |o|, p), SIZE, 4);
    forall c | c in cells ensures Get(t, c, PTR) == Get(s, c, PTR) {
      WroteApart(s, t, ENTRIES, PTR, Offset(base, |o|, p), c, PTR);
    }
  }

  lemma EmptyTable(s: Bytes, t: Bytes, u: Bytes)
    requires HEADER + 2 <= |s| && Get(s, SIZE, 4) == |s| && Wrote(s, t, COUNT, 4, 0) && Wrote(t, u, TABLE, PTR, 0)
    ensures Appended(s, u, [])
  {
    WroteApart(t, u, TABLE, PTR, 0, COUNT, 4);
    GetSame(s, u, 0, COUNT, SIZE, 4);
  }

  lemma DumpedBySteps(o: Bytes, s: Bytes, t: Bytes, u: Bytes, base: nat, cells: seq<nat>)
    requires HEADER + 2 <= |o| && Within(cells, |o| - 2) && Rebased(o, s, base, cells) && Appended(s, t, cells)
    requires |u| == |t| && Same(t, u, 0, SWIZZLED) && Same(t, u, 28, |t| - 1)
    requires u[|u| - 1] == 0 && Get(u, SWIZZLED, 4) == 1
    ensures Dumped(o, u, base, cells)
  {
    forall c | c in cells ensures Get(u, c, PTR) == Get(s, c, PTR) {
      GetSame(s, u, HEADER, |o| - 2, c, PTR);
    }
    assert Same(s, u, ENTRIES, COUNT);
    GetSame(s, u, ENTRIES, COUNT, ENTRIES, PTR);
    GetSame(t, u, 28, |t| - 1, COUNT, 4);
    GetSame(t, u, 28, |t| - 1, TABLE, PTR);
    GetSame(t, u, 0, SWIZZLED, SIZE, 4);
    if cells != [] { TableSame(t, u, |o| - 2, cells, |cells|, 0); }
  }

  /** t is s with the table appended and the header brought up to date. */
  ghost predicate Appended(s: Bytes, t: Bytes, table: seq<nat>)
    requires HEADER + 2 <= |s|
  {
    && |t| == |s| + PTR * |table|
    && Same(s, t, MD5, COUNT) && Same(s, t, HEADER, if table == [] then |s| else |s| - 2)
    && Get(t, SIZE, 4) == |t| && Get(t, COUNT, 4) == |table|
    && Get(t, TABLE, PTR) == (if table == [] then 0 else |s| - 2)
    && TableAt(t, |s| - 2, table, 0)
  }

  lemma AppendedBySteps(s0: Bytes, s1: Bytes, s2: Bytes, s3: Bytes, s4: Bytes, s5: Bytes,
                        size: nat, base: nat, table: seq<nat>)
    requires HEADER + 2 <= size && |s0| == size + PTR * |table| && table != []
    requires Wrote(s0, s1, COUNT, 4, |table|)
    requires Wrote(s1, s2, TABLE, PTR, base + size - 2)
    requires Wrote(s2, s3, SIZE, 4, |s0|)
    requires |s4| == |s3| && Same(s3, s4, 0, size - 2) && TableAt(s4, size - 2, table, 0)
    requires Wrote(s4, s5, TABLE, PTR, Offset(base, |s0|, Get(s4, TABLE, PTR)))
    ensures Appended(s0[..size], s5, table)
  {
    WroteApart(s1, s2, TABLE, PTR, base + size - 2, COUNT, 4);
    WroteApart(s2, s3, SIZE, 4, |s0|, COUNT, 4);
    WroteApart(s2, s3, SIZE, 4, |s0|, TABLE, PTR);
    GetSame(s3, s4, 0, size - 2, COUNT, 4);
    GetSame(s3, s4, 0, size - 2, TABLE, PTR);
    GetSame(s3, s4, 0, size - 2, SIZE, 4);
    WroteApart(s4, s5, TABLE, PTR, size - 2, COUNT, 4);
    WroteApart(s4, s5, TABLE, PTR, size - 2, SIZE, 4);
    TableSame(s4, s5, size - 2, table, |table|, 0);
  }

  lemma SwizzleStep(o: Bytes, s: Bytes, t: Bytes, base: nat, cells: seq<nat>, k: nat)
    requires |o| <= base && base + |o| <= TOP && Within(cells, |o|) && Apart(cells) && k < |cells| && cells[k] in cells
    requires CellsBecome(o, s, cells, k, OffsetIn(base, |o|))
    requires Wrote(s, t, cells[k], PTR, Offset(base, |o|, Get(s, cells[k], PTR)))
    ensures Astray(base, |o|, Get(s, cells[k], PTR)) <==> Astray(base, |o|, Get(o, cells[k], PTR))
    ensures CellsBecome(o, t, cells, k + 1, OffsetIn(base, |o|))
  {
    CellStep(o, s, t, cells, k, OffsetIn(base, |o|));
  }
}
