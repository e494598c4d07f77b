/** Binary dumps: the pointers recorded in an image become offsets, the image moves, and the offsets
    become pointers again. */
module ApcBin {
  import opened Machine
  import opened ApcImage

  /** Addresses are compared as signed numbers, so an image lies below the sign bit. */
  const TOP: nat := 0x8000_0000_0000_0000

  /** The two checksums, as functions of a whole image. */
  datatype Checksums = Checksums(md5: Bytes -> Bytes, crc: Bytes -> nat)

  ghost predicate ChecksumsOk(sums: Checksums) {
    (forall s: Bytes :: |sums.md5(s)| == 16) && (forall s: Bytes :: sums.crc(s) < Pow(4))
  }

  // ---- pointers and offsets -----------------------------------------------------------------

  predicate Inside(base: nat, size: nat, p: nat) { base < p < base + size }

  /** What the SWIZZLE macro leaves in a pointer, and when it gives up. */
  function Offset(base: nat, size: nat, p: nat): nat { if Inside(base, size, p) then p - base else p }

  predicate Astray(base: nat, size: nat, p: nat) { !Inside(base, size, p) && p > size }

  /** What loading makes of a recorded cell. */
  function Absolute(base: nat, v: nat): nat { if v != 0 && v < base then v + base else v }

  function Plus(base: nat, v: nat): nat { (v + base) % ULONG_MOD }

  // ---- recorded cells --------------------------------------------------------------------------

  /** Two cells are the same one or do not overlap: the same one may be recorded more than once. */
  ghost predicate Apart(cells: seq<nat>) {
    forall b, c :: b in cells && c in cells ==> b == c || b + PTR <= c || c + PTR <= b
  }

  ghost predicate Covered(cells: seq<nat>, j: nat) { exists c :: c in cells && c <= j < c + PTR }

  /** Cells lie behind the header and before limit. */
  ghost predicate Within(cells: seq<nat>, limit: nat) {
    forall c :: c in cells ==> HEADER <= c && c + PTR <= limit
  }

  /** The first k cells have gone through f, and nothing else has changed. */
  ghost predicate CellsBecome(o: Bytes, s: Bytes, cells: seq<nat>, k: nat, f: nat -> nat)
    requires Within(cells, |o|) && k <= |cells|
  {
    && |s| == |o|
    && (forall c :: c in cells ==> Get(s, c, PTR) == if c in cells[..k] then f(Get(o, c, PTR)) else Get(o, c, PTR))
    && (forall j: nat :: j < |o| && !Covered(cells, j) ==> s[j] == o[j])
  }

  /** One turn: passing a cell through f a second time makes no difference. */
  lemma CellStep(o: Bytes, s: Bytes, t: Bytes, cells: seq<nat>, k: nat, f: nat -> nat)
    requires Within(cells, |o|) && Apart(cells) && k < |cells| && CellsBecome(o, s, cells, k, f) && cells[k] in cells
    requires Wrote(s, t, cells[k], PTR, f(Get(s, cells[k], PTR)))
    requires f(f(Get(o, cells[k], PTR))) == f(Get(o, cells[k], PTR))
    ensures CellsBecome(o, t, cells, k + 1, f)
  {
    var at := cells[k];
    assert cells[..k + 1] == cells[..k] + [at];
    forall c | c in cells ensures Get(t, c, PTR) == if c in cells[..k + 1] then f(Get(o, c, PTR)) else Get(o, c, PTR) {
      if c != at { WroteApart(s, t, at, PTR, f(Get(s, at, PTR)), c, PTR); }
    }
    forall j: nat | j < |o| && !Covered(cells, j) ensures t[j] == s[j] {
      assert !(at <= j < at + PTR);
    }
  }

  // ---- a finished dump and a loaded one ----------------------------------------------------------

  /** The first k entries of the table at offset at hold the cells, moved by shift. */
  ghost predicate TableUpTo(s: Bytes, at: nat, cells: seq<nat>, k: nat, shift: nat) {
    && k <= |cells| && at + PTR * |cells| <= |s|
    && forall i: nat :: i < k ==> Entry(s, at, i) == cells[i] + shift
  }

  ghost predicate TableAt(s: Bytes, at: nat, cells: seq<nat>, shift: nat) {
    TableUpTo(s, at, cells, |cells|, shift)
  }

  lemma TableStep(s: Bytes, t: Bytes, at: nat, cells: seq<nat>, k: nat, shift: nat)
    requires TableUpTo(s, at, cells, k, shift) && k < |cells| && Wrote(s, t, at + PTR * k, PTR, cells[k] + shift)
    ensures TableUpTo(t, at, cells, k + 1, shift)
  {
    forall i: nat | i < k ensures Entry(t, at, i) == cells[i] + shift {
      WroteApart(s, t, at + PTR * k, PTR, cells[k] + shift, at + PTR * i, PTR);
      assert Entry(s, at, i) == cells[i] + shift;
    }
  }

  lemma TableSame(s: Bytes, t: Bytes, at: nat, cells: seq<nat>, k: nat, shift: nat)
    requires TableUpTo(s, at, cells, k, shift) && Same(s, t, at, at + PTR * |cells|)
    ensures TableUpTo(t, at, cells, k, shift)
  {
    forall i: nat | i < k ensures Entry(t, at, i) == cells[i] + shift {
      GetSame(s, t, at, at + PTR * |cells|, at + PTR * i, PTR);
      assert Entry(s, at, i) == cells[i] + shift;
    }
  }

  function Entry(s: Bytes, at: nat, i: nat): nat
    requires at + PTR * (i + 1) <= |s|
  {
    Get(s, at + PTR * i, PTR)
  }

  /** Payload bytes (the entry count included) that belong to no recorded cell are those of o. */
  ghost predicate PayloadKept(o: Bytes, s: Bytes, cells: seq<nat>, limit: nat) {
    && HEADER <= limit <= |o| && limit <= |s|
    && forall j: nat :: (28 <= j < ENTRIES || HEADER <= j < limit) && !Covered(cells, j) ==> s[j] == o[j]
  }

  /** How far the payload survives a dump: to the table, or to the terminating zero. */
  function KeptTo(o: Bytes, cells: seq<nat>): nat
    requires |o| > HEADER
  {
    if cells == [] then |o| - 1 else |o| - 2
  }

  /** s is the dump of the image o made at address base. */
  ghost predicate Dumped(o: Bytes, s: Bytes, base: nat, cells: seq<nat>)
    requires |o| > HEADER && Within(cells, |o| - 2)
  {
    && |s| == |o| + PTR * |cells|
    && (forall c :: c in cells ==> Get(s, c, PTR) == Offset(base, |o|, Get(o, c, PTR)))
    && PayloadKept(o, s, cells, KeptTo(o, cells))
    && Get(s, ENTRIES, PTR) == Offset(base, |o|, Get(o, ENTRIES, PTR))
    && Get(s, COUNT, 4) == |cells| && Get(s, TABLE, PTR) == (if cells == [] then 0 else |o| - 2)
    && (cells != [] ==> TableAt(s, |o| - 2, cells, 0))
    && Get(s, SIZE, 4) == |s| && Get(s, SWIZZLED, 4) == 1 && s[|s| - 1] == 0
  }

  function Blank(s: Bytes): (t: Bytes)
    requires |s| > HEADER
    ensures |t| == |s|
  {
    s[..MD5] + seq(20, _ => 0) + s[28..]
  }

  predicate Sealed(s: Bytes, sums: Checksums)
    requires |s| > HEADER
  {
    s[MD5..CRC] == sums.md5(Blank(s)) && Get(s, CRC, 4) == sums.crc(Blank(s))
  }

  predicate Passes(s: Bytes, sums: Checksums, checkMd5: bool, checkCrc: bool)
    requires |s| > HEADER
  {
    && (checkMd5 ==> s[MD5..CRC] == sums.md5(Blank(s)))
    && (checkCrc ==> Get(s, CRC, 4) == sums.crc(Blank(s)))
  }

  /** A dump altered outside its checksums passes exactly if the checksums asked for collide with those of the
      dump as it was. */
  lemma AlteredPassesIff(s: Bytes, t: Bytes, sums: Checksums, checkMd5: bool, checkCrc: bool)
    requires |s| > HEADER && |t| > HEADER && Sealed(s, sums)
    requires t[MD5..CRC] == s[MD5..CRC] && Get(t, CRC, 4) == Get(s, CRC, 4)
    ensures Passes(t, sums, checkMd5, checkCrc) <==>
      (checkMd5 ==> sums.md5(Blank(t)) == sums.md5(Blank(s))) && (checkCrc ==> sums.crc(Blank(t)) == sums.crc(Blank(s)))
  {
  }

  /** What loading relies on: the header gives the table, and the table gives cells before it. */
  ghost predicate Loadable(s: Bytes, cells: seq<nat>) {
    && HEADER < |s| && Get(s, COUNT, 4) == |cells| && Apart(cells)
    && (cells != [] ==> TableAt(s, Get(s, TABLE, PTR), cells, 0) && Within(cells, Get(s, TABLE, PTR)))
  }

  /** u is the image s once loaded at address base. */
  ghost predicate Loaded(s: Bytes, u: Bytes, base: nat, cells: seq<nat>)
    requires |s| > HEADER && Within(cells, |s|)
  {
    && |u| == |s|
    && (forall c :: c in cells ==> Get(u, c, PTR) == Absolute(base, Get(s, c, PTR)))
    && Get(u, ENTRIES, PTR) == Plus(base, Get(s, ENTRIES, PTR))
    && Get(u, TABLE, PTR) == Plus(base, Get(s, TABLE, PTR))
    && Get(u, SWIZZLED, 4) == 0
    && u[MD5..ENTRIES] == s[MD5..ENTRIES] && u[COUNT..TABLE] == s[COUNT..TABLE]
    && PayloadKept(s, u, cells, if cells == [] then |s| else Get(s, TABLE, PTR))
    && (cells != [] ==> TableAt(u, Get(s, TABLE, PTR), cells, base))
  }

  // ---- there and back -------------------------------------------------------------------------------

  /** What recording established: every cell lies in the payload and points into the image, and the
      image lies no lower than its own size. */
  ghost predicate Recorded(o: Bytes, base: nat, cells: seq<nat>) {
    && HEADER < |o| <= base && base + |o| <= TOP
    && Within(cells, |o| - 2) && Apart(cells)
    && (forall c :: c in cells ==> Inside(base, |o|, Get(o, c, PTR)))
    && Inside(base, |o|, Get(o, ENTRIES, PTR))
  }

  /** Swizzled, moved to any address and unswizzled: every recorded pointer has the same target
      relative to the image, and every other payload byte is what it was. */
  lemma RoundTrip(o: Bytes, s: Bytes, u: Bytes, base: nat, newBase: nat, cells: seq<nat>)
    requires Recorded(o, base, cells) && Dumped(o, s, base, cells)
    requires Within(cells, |s|) && Loaded(s, u, newBase, cells)
    requires |s| <= newBase && newBase + |s| <= TOP
    ensures forall c :: c in cells ==> Get(u, c, PTR) - newBase == Get(o, c, PTR) - base
    ensures Get(u, ENTRIES, PTR) - newBase == Get(o, ENTRIES, PTR) - base
    ensures PayloadKept(o, u, cells, KeptTo(o, cells))
  {
    forall c | c in cells ensures Get(u, c, PTR) - newBase == Get(o, c, PTR) - base {
      PointerReturns(o, base, newBase, |s|, Get(o, c, PTR));
    }
    PointerReturns(o, base, newBase, |s|, Get(o, ENTRIES, PTR));
    KeptThrough(o, s, u, cells, KeptTo(o, cells), if cells == [] then |s| else Get(s, TABLE, PTR));
  }

  /** A pointer into the image becomes an offset, and the same place in the image that was moved. */
  lemma PointerReturns(o: Bytes, base: nat, newBase: nat, size: nat, p: nat)
    requires Inside(base, |o|, p) && |o| <= size <= newBase && newBase + size <= TOP
    ensures Absolute(newBase, Offset(base, |o|, p)) - newBase == p - base
    ensures Plus(newBase, Offset(base, |o|, p)) - newBase == p - base
  {
  }

  lemma KeptThrough(o: Bytes, s: Bytes, u: Bytes, cells: seq<nat>, n: nat, m: nat)
    requires PayloadKept(o, s, cells, n) && PayloadKept(s, u, cells, m) && n <= m
    ensures PayloadKept(o, u, cells, n)
  {
  }

  lemma LowBytes(b: Bytes)
    requires |b| >= 2
    ensures b[0] == Value(b) % 256 && b[1] == Value(b) / 256 % 256
  {
    assert Value(b) == b[0] + 256 * Value(b[1..]);
    assert Value(b[1..]) == b[1] + 256 * Value(b[1..][1..]);
  }

  /** The table starts two bytes before the end of the image, and the last byte of a dump is zero: the
      whole payload survives exactly if the last two bytes happen to be the low bytes of the first table
      entry, or, when nothing is recorded, if the last byte is zero. */
  lemma LastTwoBytesKeptIff(o: Bytes, s: Bytes, base: nat, cells: seq<nat>)
    requires HEADER + 2 <= |o| && Within(cells, |o| - 2) && Dumped(o, s, base, cells)
    ensures PayloadKept(o, s, cells, |o|) <==>
      if cells == [] then o[|o| - 1] == 0
      else o[|o| - 2] == cells[0] % 256 && o[|o| - 1] == cells[0] / 256 % 256
  {
    var at := |o| - 2;
    assert !Covered(cells, at) && !Covered(cells, at + 1);
    if cells != [] {
      assert Entry(s, at, 0) == cells[0] + 0;
      LowBytes(s[at..at + PTR]);
      assert s[at..at + PTR][0] == s[at] && s[at..at + PTR][1] == s[at + 1];
    }
  }
}
