/** The fixed-size pool allocator of src/mpool.c.  Addresses are numbers, and one memory of bytes
    holds both what the users store and the words in front of the chunks, which link the free
    ones. */
module Mpool {
  import opened Arith
  import opened Common

  const SIZE_MAX: nat := 0xFFFF_FFFF_FFFF_FFFF
  const HEADER: nat := 8

  type Byte = b: nat | b < 256

  // ----- words in memory

  /** The number whose `n` bytes, lowest first, start at `a`. */
  function WordAt(mem: map<nat, Byte>, a: nat, n: nat): nat
    requires forall i :: a <= i < a + n ==> i in mem
    decreases n
  {
    if n == 0 then 0 else mem[a] + 256 * WordAt(mem, a + 1, n - 1)
  }

  function Power(n: nat): (p: nat)
    ensures p > 0
  {
    if n == 0 then 1 else 256 * Power(n - 1)
  }

  /** Storing the lowest `n` bytes of `w` at `a`. */
  function SetWord(mem: map<nat, Byte>, a: nat, w: nat, n: nat): (r: map<nat, Byte>)
    ensures forall i: nat :: i in r <==> i in mem || a <= i < a + n
    ensures forall i <- mem :: !(a <= i < a + n) ==> r[i] == mem[i]
    decreases n
  {
    if n == 0 then mem else SetWord(mem, a + 1, w / 256, n - 1)[a := w % 256]
  }

  lemma {:induction false} WordSame(mem: map<nat, Byte>, mem': map<nat, Byte>, a: nat, n: nat)
    requires forall i :: a <= i < a + n ==> i in mem && i in mem' && mem[i] == mem'[i]
    ensures WordAt(mem, a, n) == WordAt(mem', a, n)
    decreases n
  {
    if n > 0 {
      WordSame(mem, mem', a + 1, n - 1);
    }
  }

  lemma {:induction false} SetThenGet(mem: map<nat, Byte>, a: nat, w: nat, n: nat)
    requires w < Power(n)
    ensures WordAt(SetWord(mem, a, w, n), a, n) == w
    decreases n
  {
    if n > 0 {
      var inner := SetWord(mem, a + 1, w / 256, n - 1);
      SetThenGet(mem, a + 1, w / 256, n - 1);
      WordSame(inner, inner[a := w % 256], a + 1, n - 1);
    }
  }

  lemma PowerEight()
    ensures Power(HEADER) == SIZE_MAX + 1
  {
    assert Power(1) == 256 && Power(2) == 0x1_0000 && Power(3) == 0x100_0000 && Power(4) == 0x1_0000_0000;
    assert Power(5) == 0x100_0000_0000 && Power(6) == 0x1_0000_0000_0000 && Power(7) == 0x100_0000_0000_0000;
  }

  /** The two memories hold the same outside `lo` to `hi`. */
  ghost predicate SameOutside(mem: map<nat, Byte>, mem': map<nat, Byte>, lo: nat, hi: nat) {
    forall a <- mem :: a in mem' && (!(lo <= a < hi) ==> mem'[a] == mem[a])
  }

  // ----- sizes

  function Unit(chunkSize: nat): nat {
    HEADER + chunkSize
  }

  function ChunksIn(size: nat, unit: nat): nat
    requires unit > 0
  {
    size / unit
  }

  /** Addition of sizes, which wraps. */
  function AddSizes(x: nat, y: nat): nat
    requires x <= SIZE_MAX && y <= SIZE_MAX
  {
    if x + y <= SIZE_MAX then x + y else x + y - SIZE_MAX - 1
  }

  /** The pool size after making room for one header. */
  function Adjusted(poolSize: nat, chunkSize: nat): nat
    requires poolSize <= SIZE_MAX
  {
    if poolSize < Unit(chunkSize) then AddSizes(poolSize, HEADER) else poolSize
  }

  function Pages(poolSize: nat, pgsz: nat): nat
    requires pgsz > 0
  {
    (poolSize + pgsz - 1) / pgsz
  }

  lemma DivBounds(x: nat, n: nat)
    requires n > 0
    ensures (x / n) * n <= x < (x / n) * n + n
  {
  }

  /** As many chunks as fit, and no more. */
  lemma ChunksFit(size: nat, unit: nat, n: nat)
    requires unit > 0
    ensures n <= ChunksIn(size, unit) <==> n * unit <= size
  {
    DivBounds(size, unit);
    if n <= size / unit {
      MulAtLeast(unit, n, size / unit);
    } else {
      MulAtLeast(unit, size / unit + 1, n);
    }
  }

  /** Rounding up to pages never loses a byte. */
  lemma PagesCover(poolSize: nat, pgsz: nat)
    requires pgsz > 0
    ensures poolSize <= Pages(poolSize, pgsz) * pgsz < poolSize + pgsz
  {
    DivBounds(poolSize + pgsz - 1, pgsz);
  }

  /** The page count needs no overflow check of its own. */
  lemma PagesFit(size: nat, pgsz: nat)
    requires 0 < pgsz && size + pgsz - 1 <= SIZE_MAX
    ensures size <= Pages(size, pgsz) * pgsz && Pages(size, pgsz) <= SIZE_MAX / pgsz
  {
    PagesCover(size, pgsz);
    DivBounds(SIZE_MAX, pgsz);
    if Pages(size, pgsz) > SIZE_MAX / pgsz {
      MulAtLeast(pgsz, SIZE_MAX / pgsz + 1, Pages(size, pgsz));
    }
  }

  lemma PagesCounted(size: nat, pgsz: nat)
    requires 0 < pgsz && size + pgsz - 1 <= SIZE_MAX
    ensures Pages(size, pgsz) <= SIZE_MAX / pgsz
  {
    PagesFit(size, pgsz);
  }

  /** The pool is at least as large as a chunk, and making room for a header does not wrap. */
  predicate RoomForOne(poolSize: nat, chunkSize: nat) {
    chunkSize <= poolSize && (poolSize < Unit(chunkSize) ==> poolSize + HEADER <= SIZE_MAX)
  }

  /** That is exactly when there is a first chunk. */
  lemma FirstChunk(poolSize: nat, chunkSize: nat)
    requires poolSize <= SIZE_MAX && chunkSize <= SIZE_MAX - HEADER
    ensures ChunksIn(Adjusted(poolSize, chunkSize), Unit(chunkSize)) >= 1 <==> RoomForOne(poolSize, chunkSize)
  {
    DivAtLeastOne(Adjusted(poolSize, chunkSize), Unit(chunkSize));
  }

  /** A pool larger than a chunk and yet without one, which passes every check of the sizes. */
  lemma WrappedPool(pgsz: nat)
    requires 0 < pgsz <= SIZE_MAX - 3
    ensures
      var poolSize, chunkSize := SIZE_MAX - 3, SIZE_MAX - 10;
      && chunkSize < poolSize && SizesFit(poolSize, chunkSize, pgsz) && Adjusted(poolSize, chunkSize) == 4
      && !RoomForOne(poolSize, chunkSize) && ChunksIn(Adjusted(poolSize, chunkSize), Unit(chunkSize)) == 0
  {
    FirstChunk(SIZE_MAX - 3, SIZE_MAX - 10);
  }

  /** The checks of the sizes. */
  predicate SizesFit(poolSize: nat, chunkSize: nat, pgsz: nat)
    requires poolSize <= SIZE_MAX
  {
    chunkSize <= SIZE_MAX - HEADER && Adjusted(poolSize, chunkSize) <= SIZE_MAX - pgsz + 1
  }

  /** The size that is carved up: the bytes asked for, with eight more for a header if they are too
      few for a chunk with its own, modulo 2^64. */
  ghost function Enlarged(poolSize: nat, chunkSize: nat): nat {
    if chunkSize + 8 <= poolSize then poolSize else (poolSize + 8) % 0x1_0000_0000_0000_0000
  }

  /** The checks in numbers: neither a chunk with its header nor the rounding to pages passes 2^64. */
  lemma SizesChecked(poolSize: nat, chunkSize: nat, pgsz: nat)
    requires 0 < pgsz && poolSize < 0x1_0000_0000_0000_0000
    ensures SizesFit(poolSize, chunkSize, pgsz) <==>
      chunkSize + 8 < 0x1_0000_0000_0000_0000 && Enlarged(poolSize, chunkSize) + pgsz <= 0x1_0000_0000_0000_0000
  {
  }

  /** The pool has as many chunks as fit with their headers, and no more. */
  lemma PoolCapacity(poolSize: nat, chunkSize: nat, n: nat)
    requires poolSize < 0x1_0000_0000_0000_0000
    ensures n <= ChunksIn(Adjusted(poolSize, chunkSize), Unit(chunkSize)) <==>
      n * (chunkSize + 8) <= Enlarged(poolSize, chunkSize)
  {
    ChunksFit(Adjusted(poolSize, chunkSize), Unit(chunkSize), n);
  }

  /** If the checks pass, the pages are counted without overflow, and hold the chunks. */
  lemma PoolSizes(poolSize: nat, chunkSize: nat, pgsz: nat)
    requires 0 < pgsz && poolSize <= SIZE_MAX && SizesFit(poolSize, chunkSize, pgsz)
    ensures
      var size, unit := Adjusted(poolSize, chunkSize), Unit(chunkSize);
      && Pages(size, pgsz) <= SIZE_MAX / pgsz
      && (ChunksIn(size, unit) >= 1 <==> RoomForOne(poolSize, chunkSize))
      && ChunksIn(size, unit) * unit <= Pages(size, pgsz) * pgsz
      && (RoomForOne(poolSize, chunkSize) ==> unit <= Pages(size, pgsz) * pgsz)
  {
    var size, unit := Adjusted(poolSize, chunkSize), Unit(chunkSize);
    FirstChunk(poolSize, chunkSize);
    PagesFit(size, pgsz);
    DivBounds(size, unit);
    DivAtLeastOne(size, unit);
  }

  // ----- chunks and areas

  /** The `n` chunks of an area that starts at `base`. */
  function Chunks(base: nat, n: nat, unit: nat): (s: seq<nat>)
    ensures |s| == n && forall k :: 0 <= k < n ==> s[k] == base + k * unit
  {
    seq(n, k requires 0 <= k < n => base + k * unit)
  }

  /** An area: where it is mapped and how many chunks were carved from it. */
  datatype Area = Area(base: nat, count: nat)

  /** All chunks ever carved. */
  ghost function Carved(areas: seq<Area>, unit: nat): set<nat> {
    if areas == [] then {}
    else Carved(areas[..|areas| - 1], unit) + ChunkSet(areas[|areas| - 1], unit)
  }

  ghost function ChunkSet(a: Area, unit: nat): set<nat> {
    set k: nat | k < a.count :: a.base + k * unit
  }

  ghost predicate Disjoint(a: Area, b: Area, size: nat) {
    a.base + size <= b.base || b.base + size <= a.base
  }

  /** Areas do not overlap and hold their chunks. */
  ghost predicate Mapped(areas: seq<Area>, size: nat, unit: nat) {
    && (forall i :: 0 <= i < |areas| ==>
          areas[i].base > 0 && areas[i].count * unit <= size && areas[i].base + size <= SIZE_MAX)
    && (forall i, j :: 0 <= i < j < |areas| ==> Disjoint(areas[i], areas[j], size))
  }

  /** The chunk `c` with its header lies in area `i`. */
  ghost predicate Inside(c: nat, a: Area, size: nat, unit: nat) {
    a.base <= c && c + unit <= a.base + size
  }

  lemma {:induction false} CarvedFrom(areas: seq<Area>, unit: nat, c: nat)
    ensures c in Carved(areas, unit) <==> exists i :: 0 <= i < |areas| && c in ChunkSet(areas[i], unit)
    decreases |areas|
  {
    if areas != [] {
      var rest := areas[..|areas| - 1];
      CarvedFrom(rest, unit, c);
      assert forall i :: 0 <= i < |rest| ==> rest[i] == areas[i];
    }
  }

  lemma ChunkInside(a: Area, size: nat, unit: nat, c: nat)
    requires a.count * unit <= size && c in ChunkSet(a, unit)
    ensures Inside(c, a, size, unit)
  {
    var k: nat :| k < a.count && c == a.base + k * unit;
    MulAtLeast(unit, k + 1, a.count);
    assert (k + 1) * unit == k * unit + unit;
  }

  /** Every carved chunk lies in one area, whole. */
  lemma CarvedInside(areas: seq<Area>, size: nat, unit: nat, c: nat) returns (i: nat)
    requires Mapped(areas, size, unit) && c in Carved(areas, unit)
    ensures i < |areas| && Inside(c, areas[i], size, unit) && c in ChunkSet(areas[i], unit)
  {
    CarvedFrom(areas, unit, c);
    i :| 0 <= i < |areas| && c in ChunkSet(areas[i], unit);
    ChunkInside(areas[i], size, unit, c);
  }

  lemma AreaApart(a: Area, unit: nat, c: nat, d: nat)
    requires c in ChunkSet(a, unit) && d in ChunkSet(a, unit) && c != d
    ensures c + unit <= d || d + unit <= c
  {
    var k: nat :| k < a.count && c == a.base + k * unit;
    var l: nat :| l < a.count && d == a.base + l * unit;
    if k < l {
      StepApart(unit, k, l);
    } else if l < k {
      StepApart(unit, l, k);
    }
  }

  lemma StepApart(unit: nat, k: nat, l: nat)
    requires k < l
    ensures k * unit + unit <= l * unit
  {
    Distribute(unit, k, 1);
    MulAtLeast(unit, k + 1, l);
  }

  /** No two carved chunks overlap, header included. */
  lemma CarvedApart(areas: seq<Area>, size: nat, unit: nat, c: nat, d: nat)
    requires Mapped(areas, size, unit) && c in Carved(areas, unit) && d in Carved(areas, unit) && c != d
    ensures c + unit <= d || d + unit <= c
  {
    var i := CarvedInside(areas, size, unit, c);
    var j := CarvedInside(areas, size, unit, d);
    if i == j {
      AreaApart(areas[i], unit, c, d);
    } else {
      assert Disjoint(areas[if i < j then i else j], areas[if i < j then j else i], size);
    }
  }

  // ----- the free list

  /** The first `|free|` hops from the head, which is all the allocator relies on: the word of
      the last free chunk need not end the list. */
  ghost predicate Threaded(mem: map<nat, Byte>, head: nat, free: seq<nat>) {
    && (free != [] ==> head == free[0])
    && (forall i :: 0 <= i < |free| ==> HasWord(mem, free[i]))
    && (forall i :: 0 <= i < |free| - 1 ==> WordAt(mem, free[i], HEADER) == free[i + 1])
  }

  ghost predicate HasWord(mem: map<nat, Byte>, a: nat) {
    forall i :: a <= i < a + HEADER ==> i in mem
  }

  /** Writes that stay clear of the words of the free chunks do not disturb the list. */
  lemma ThreadedKept(mem: map<nat, Byte>, mem': map<nat, Byte>, head: nat, free: seq<nat>, lo: nat, hi: nat)
    requires Threaded(mem, head, free) && SameOutside(mem, mem', lo, hi)
    requires forall i :: 0 <= i < |free| ==> free[i] + HEADER <= lo || hi <= free[i]
    ensures Threaded(mem', head, free)
  {
    forall i | 0 <= i < |free|
      ensures HasWord(mem', free[i]) && WordAt(mem', free[i], HEADER) == WordAt(mem, free[i], HEADER)
    {
      assert HasWord(mem, free[i]);
      WordSame(mem, mem', free[i], HEADER);
    }
  }

  lemma ThreadedFirst(mem: map<nat, Byte>, c: nat, head: nat, free: seq<nat>)
    requires Threaded(mem, head, free) && HasWord(mem, c) && (free != [] ==> WordAt(mem, c, HEADER) == head)
    ensures Threaded(mem, c, [c] + free)
  {
  }

  /** Every byte of every area is memory. */
  ghost predicate Backed(mem: map<nat, Byte>, areas: seq<Area>, size: nat) {
    forall i :: 0 <= i < |areas| ==> Held(mem, areas[i].base, size)
  }

  ghost predicate Held(mem: map<nat, Byte>, base: nat, size: nat) {
    forall a :: base <= a < base + size ==> a in mem
  }

  lemma ChunkBacked(mem: map<nat, Byte>, areas: seq<Area>, size: nat, unit: nat, c: nat)
    requires Backed(mem, areas, size) && Mapped(areas, size, unit) && c in Carved(areas, unit)
    ensures Held(mem, c, unit) && c + unit <= SIZE_MAX
  {
    var i := CarvedInside(areas, size, unit, c);
    assert Held(mem, areas[i].base, size);
  }

  ghost predicate Distinct(s: seq<nat>) {
    forall i, j :: 0 <= i < j < |s| ==> s[i] != s[j]
  }

  ghost function SetOf(s: seq<nat>): set<nat> {
    set x | x in s
  }

  lemma ChunksDistinct(base: nat, n: nat, unit: nat)
    requires unit > 0
    ensures Distinct(Chunks(base, n, unit)) && SetOf(Chunks(base, n, unit)) == ChunkSet(Area(base, n), unit)
  {
    var s := Chunks(base, n, unit);
    forall i, j | 0 <= i < j < n ensures s[i] != s[j] {
      MulAtLeast(unit, i + 1, j);
      assert (i + 1) * unit == i * unit + unit;
    }
    forall c ensures c in s <==> c in ChunkSet(Area(base, n), unit) {
      if c in s {
        var k: nat :| k < n && s[k] == c;
        assert c == base + k * unit;
      }
      if c in ChunkSet(Area(base, n), unit) {
        var k: nat :| k < n && c == base + k * unit;
        assert s[k] == c;
      }
    }
  }

  /** A new area adds its chunks to those carved before and shares none with them. */
  lemma AreaAdded(areas: seq<Area>, a: Area, size: nat, unit: nat)
    requires Mapped(areas, size, unit) && a.base > 0 && a.count * unit <= size && a.base + size <= SIZE_MAX && unit > 0
    requires forall i :: 0 <= i < |areas| ==> Disjoint(areas[i], a, size)
    ensures Mapped(areas + [a], size, unit)
    ensures Carved(areas + [a], unit) == Carved(areas, unit) + ChunkSet(a, unit)
    ensures Carved(areas, unit) !! ChunkSet(a, unit)
  {
    assert (areas + [a])[..|areas|] == areas;
    forall c | c in Carved(areas, unit) && c in ChunkSet(a, unit) ensures false {
      var i := CarvedInside(areas, size, unit, c);
      ChunkInside(a, size, unit, c);
    }
  }

  /** The pool's bookkeeping as a value: every carved chunk is either free or outstanding. */
  ghost predicate Accounts(free: seq<nat>, outstanding: set<nat>, areas: seq<Area>, unit: nat) {
    Distinct(free) && SetOf(free) !! outstanding && SetOf(free) + outstanding == Carved(areas, unit)
  }

  lemma FirstArea(p: nat, count: nat, size: nat, unit: nat)
    requires 0 < p && p + size <= SIZE_MAX && count * unit <= size && unit > 0
    ensures Mapped([Area(p, count)], size, unit) && Accounts(Chunks(p, count, unit), {}, [Area(p, count)], unit)
  {
    ChunksDistinct(p, count, unit);
    AreaAdded([], Area(p, count), size, unit);
    assert [] + [Area(p, count)] == [Area(p, count)];
  }

  // ----- linking the chunks of an area

  lemma ChunksApart(base: nat, n: nat, unit: nat)
    ensures forall k, l :: 0 <= k < l < n ==> Chunks(base, n, unit)[k] + unit <= Chunks(base, n, unit)[l]
  {
    forall k, l | 0 <= k < l < n ensures Chunks(base, n, unit)[k] + unit <= Chunks(base, n, unit)[l] {
      MulAtLeast(unit, k + 1, l);
      assert (k + 1) * unit == k * unit + unit;
    }
  }

  lemma ChunksWithin(base: nat, n: nat, unit: nat, size: nat)
    requires n * unit <= size
    ensures forall k :: 0 <= k < n ==>
      base <= Chunks(base, n, unit)[k] && Chunks(base, n, unit)[k] + unit <= base + size
  {
    forall k | 0 <= k < n ensures base <= Chunks(base, n, unit)[k] && Chunks(base, n, unit)[k] + unit <= base + size {
      MulAtLeast(unit, k + 1, n);
      assert (k + 1) * unit == k * unit + unit;
    }
  }

  /** The first `i` chunks of `s` are linked, and of the memory `before` only the area at `p` has
      changed.  The detour over `j` keeps the words out of the loop, which only passes this on. */
  ghost predicate Linking(before: map<nat, Byte>, mem: map<nat, Byte>, p: nat, size: nat, s: seq<nat>, i: nat) {
    forall j: nat :: j == i ==> LinkedTo(before, mem, p, size, s, j)
  }

  ghost predicate LinkedTo(before: map<nat, Byte>, mem: map<nat, Byte>, p: nat, size: nat, s: seq<nat>, i: nat) {
    && mem.Keys == before.Keys && SameOutside(before, mem, p, p + size)
    && (forall k :: 0 <= k < |s| ==> HasWord(mem, s[k]))
    && (forall k :: 0 <= k < i && k + 1 < |s| ==> LoadsAt(mem, s[k], s[k + 1]))
  }

  lemma FirstLink(mem: map<nat, Byte>, p: nat, size: nat, n: nat, unit: nat)
    requires Held(mem, p, size) && n * unit <= size && unit >= HEADER
    ensures Linking(mem, mem, p, size, Chunks(p, n, unit), 0)
  {
    ChunksWithin(p, n, unit, size);
  }

  /** `mem'` is `mem` with the word `w` stored at `a`; with a detour, as before. */
  ghost predicate Stored(mem: map<nat, Byte>, mem': map<nat, Byte>, a: nat, w: nat) {
    forall u: nat :: u == w ==> StoredAt(mem, mem', a, u)
  }

  ghost predicate StoredAt(mem: map<nat, Byte>, mem': map<nat, Byte>, a: nat, w: nat) {
    mem' == SetWord(mem, a, w, HEADER)
  }

  ghost predicate Loads(mem: map<nat, Byte>, a: nat, w: nat) {
    forall u: nat :: u == w ==> LoadsAt(mem, a, u)
  }

  ghost predicate LoadsAt(mem: map<nat, Byte>, a: nat, w: nat) {
    HasWord(mem, a) && WordAt(mem, a, HEADER) == w
  }

  /** Writing the word of chunk `i`. */
  lemma NextLink(before: map<nat, Byte>, mem: map<nat, Byte>, mem': map<nat, Byte>, p: nat, size: nat, n: nat,
                 unit: nat, i: nat)
    requires Linking(before, mem, p, size, Chunks(p, n, unit), i) && i + 1 < n && n * unit <= size && unit >= HEADER
    requires p + size <= SIZE_MAX && Stored(mem, mem', Chunks(p, n, unit)[i], Chunks(p, n, unit)[i] + unit)
    ensures
      var s := Chunks(p, n, unit);
      s[i + 1] == s[i] + unit && Loads(mem', s[i], s[i + 1]) && Linking(before, mem', p, size, s, i + 1)
  {
    var s := Chunks(p, n, unit);
    assert s[i + 1] == p + (i + 1) * unit == s[i] + unit;
    ChunksApart(p, n, unit);
    ChunksWithin(p, n, unit, size);
    LinkInList(before, mem, mem', p, size, s, i, unit);
  }

  lemma LinkInList(before: map<nat, Byte>, mem: map<nat, Byte>, mem': map<nat, Byte>, p: nat, size: nat, s: seq<nat>,
                   i: nat, unit: nat)
    requires i + 1 < |s| && unit >= HEADER && p + size <= SIZE_MAX && s[i + 1] == s[i] + unit
    requires Linking(before, mem, p, size, s, i) && Stored(mem, mem', s[i], s[i + 1])
    requires forall k, l :: 0 <= k < l < |s| ==> s[k] + unit <= s[l]
    requires forall k :: 0 <= k < |s| ==> p <= s[k] && s[k] + unit <= p + size
    ensures Loads(mem', s[i], s[i + 1]) && Linking(before, mem', p, size, s, i + 1)
  {
    assert LinkedTo(before, mem, p, size, s, i);
    assert HasWord(mem, s[i]);
    StoredFacts(mem, mem', s[i], s[i + 1]);
    WordStored(mem, mem', s, i, unit);
    assert LoadsAt(mem', s[i], s[i + 1]);
    SameTwice(before, mem, mem', p, p + size, s[i], s[i] + HEADER);
  }

  lemma SameTwice(a: map<nat, Byte>, b: map<nat, Byte>, c: map<nat, Byte>, lo: nat, hi: nat, lo': nat, hi': nat)
    requires SameOutside(a, b, lo, hi) && SameOutside(b, c, lo', hi') && lo <= lo' && hi' <= hi
    ensures SameOutside(a, c, lo, hi)
  {
  }

  /** What storing a word does. */
  lemma StoredFacts(mem: map<nat, Byte>, mem': map<nat, Byte>, a: nat, w: nat)
    requires Stored(mem, mem', a, w)
    ensures SameOutside(mem, mem', a, a + HEADER) && mem.Keys <= mem'.Keys && HasWord(mem', a)
    ensures HasWord(mem, a) ==> mem'.Keys == mem.Keys
    ensures w <= SIZE_MAX ==> LoadsAt(mem', a, w)
  {
    assert StoredAt(mem, mem', a, w);
    if w <= SIZE_MAX {
      WordSet(mem, a, w);
    }
  }

  lemma WordSet(mem: map<nat, Byte>, a: nat, w: nat)
    requires w <= SIZE_MAX
    ensures LoadsAt(SetWord(mem, a, w, HEADER), a, w)
  {
    PowerEight();
    SetThenGet(mem, a, w, HEADER);
  }

  lemma WordKept(mem: map<nat, Byte>, mem': map<nat, Byte>, lo: nat, hi: nat, a: nat)
    requires HasWord(mem, a) && SameOutside(mem, mem', lo, hi) && (a + HEADER <= lo || hi <= a)
    ensures LoadsAt(mem', a, WordAt(mem, a, HEADER))
  {
    WordSame(mem, mem', a, HEADER);
  }

  lemma WordStored(mem: map<nat, Byte>, mem': map<nat, Byte>, s: seq<nat>, i: nat, unit: nat)
    requires i + 1 < |s| && SameOutside(mem, mem', s[i], s[i] + HEADER) && LoadsAt(mem', s[i], s[i + 1])
      && unit >= HEADER
    requires forall k, l :: 0 <= k < l < |s| ==> s[k] + unit <= s[l]
    requires forall k :: 0 <= k < |s| ==> HasWord(mem, s[k])
    requires forall k :: 0 <= k < i && k + 1 < |s| ==> LoadsAt(mem, s[k], s[k + 1])
    ensures forall k :: 0 <= k < |s| ==> HasWord(mem', s[k])
    ensures forall k :: 0 <= k < i + 1 && k + 1 < |s| ==> LoadsAt(mem', s[k], s[k + 1])
  {
    forall k | 0 <= k < |s| ensures HasWord(mem', s[k]) {
      assert HasWord(mem, s[k]);
    }
    forall k | 0 <= k < i + 1 && k + 1 < |s| ensures LoadsAt(mem', s[k], s[k + 1]) {
      if k < i {
        assert LoadsAt(mem, s[k], s[k + 1]);
        WordKept(mem, mem', s[i], s[i] + HEADER, s[k]);
      }
    }
  }

  /** The list does not need the word of its last chunk. */
  lemma LastUnread(mem: map<nat, Byte>, mem': map<nat, Byte>, head: nat, p: nat, n: nat, unit: nat)
    requires n > 0 && unit >= HEADER && Threaded(mem, head, Chunks(p, n, unit))
    requires SameOutside(mem, mem', Chunks(p, n, unit)[n - 1], Chunks(p, n, unit)[n - 1] + HEADER)
    ensures Threaded(mem', head, Chunks(p, n, unit))
  {
    var s := Chunks(p, n, unit);
    ChunksApart(p, n, unit);
    forall i | 0 <= i < n
      ensures HasWord(mem', s[i]) && (i < n - 1 ==> WordAt(mem', s[i], HEADER) == WordAt(mem, s[i], HEADER)) {
      assert HasWord(mem, s[i]);
      if i < n - 1 {
        WordSame(mem, mem', s[i], HEADER);
      }
    }
  }

  lemma BackedKept(mem: map<nat, Byte>, mem': map<nat, Byte>, areas: seq<Area>, size: nat)
    requires Backed(mem, areas, size) && mem.Keys <= mem'.Keys
    ensures Backed(mem', areas, size)
  {
    forall i | 0 <= i < |areas| ensures Held(mem', areas[i].base, size) {
      assert Held(mem, areas[i].base, size);
    }
  }

  lemma BackedAdded(mem: map<nat, Byte>, mem': map<nat, Byte>, areas: seq<Area>, a: Area, size: nat)
    requires Backed(mem, areas, size) && mem.Keys <= mem'.Keys && Held(mem', a.base, size)
    ensures Backed(mem', areas + [a], size)
  {
    BackedKept(mem, mem', areas, size);
  }

  class Pool {
    const pgsz: nat
    const chunkSize: nat
    const pageCount: nat
    var chunkCount: nat
    var freeHead: nat
    var areas: seq<Area>
    var mem: map<nat, Byte>
    ghost var free: seq<nat>
    ghost var outstanding: set<nat>

    ghost predicate Valid()
      reads this
    {
      && Unit(chunkSize) <= AreaSize()
      && chunkCount == |free|
      && Threaded(mem, freeHead, free)
      && Accounts(free, outstanding, areas, Unit(chunkSize))
      && Mapped(areas, AreaSize(), Unit(chunkSize))
      && Backed(mem, areas, AreaSize())
    }

    /** Carves the first area; `held` is what its memory happens to hold. */
    constructor (chunkSize: nat, pgsz: nat, pageCount: nat, count: nat, p: nat, held: map<nat, Byte>)
      requires 0 < p && p + pageCount * pgsz <= SIZE_MAX && Held(held, p, pageCount * pgsz)
      requires 0 < count && count * Unit(chunkSize) <= pageCount * pgsz && Unit(chunkSize) <= pageCount * pgsz
      ensures Valid() && areas == [Area(p, count)] && chunkCount == count && outstanding == {}
      ensures this.chunkSize == chunkSize && this.pgsz == pgsz && this.pageCount == pageCount
    {
      this.chunkSize, this.pgsz, this.pageCount, chunkCount := chunkSize, pgsz, pageCount, count;
      mem, areas := held, [];
      free, outstanding := [], {};
      new;
      var last := BuildList(p, count);
      var unit := Unit(chunkSize);
      ghost var s := Chunks(p, count, unit);
      FirstArea(p, count, AreaSize(), unit);
      areas, free := [Area(p, count)], s;
      EndList(last, p, count);
      assert Held(mem, p, AreaSize());
    }

    /** Ends the list of a new pool with a null link. */
    method EndList(last: nat, ghost p: nat, ghost count: nat)
      requires count > 0 && Unit(chunkSize) > 0 && last == Chunks(p, count, Unit(chunkSize))[count - 1]
      requires Threaded(mem, freeHead, Chunks(p, count, Unit(chunkSize)))
      modifies this`mem
      ensures Threaded(mem, freeHead, Chunks(p, count, Unit(chunkSize))) && mem.Keys == old(mem).Keys
    {
      ghost var s, before := Chunks(p, count, Unit(chunkSize)), mem;
      mem := SetWord(mem, last, 0, HEADER);
      assert HasWord(before, s[count - 1]);
      LastUnread(before, mem, freeHead, p, count, Unit(chunkSize));
    }

    /** Every outstanding chunk, header included, lies within one mapped area and overlaps no
        other carved chunk; free and outstanding chunks are all there ever were. */
    lemma ChunksSafe(c: nat, d: nat)
      requires Valid() && c in outstanding && d in SetOf(free) + outstanding && c != d
      ensures exists i :: 0 <= i < |areas| && Inside(c, areas[i], AreaSize(), Unit(chunkSize))
      ensures c + Unit(chunkSize) <= d || d + Unit(chunkSize) <= c
      ensures |free| == chunkCount && SetOf(free) !! outstanding
        && SetOf(free) + outstanding == Carved(areas, Unit(chunkSize))
    {
      var i := CarvedInside(areas, AreaSize(), Unit(chunkSize), c);
      CarvedApart(areas, AreaSize(), Unit(chunkSize), c, d);
    }

    /** A pool for `poolSize` bytes, rounded up to pages, or null if the sizes overflow or
        nothing can be mapped.  `arena` is where the pages would be mapped.  `overruns` says that
        there is no first chunk: then the bound of the loop that carves the chunks wraps and it
        leaves the area, which is not followed any further. */
    static method Create(poolSize: nat, chunkSize: nat, pgsz: nat, arena: Option<nat>, held: map<nat, Byte>)
      returns (mp: Pool?, overruns: bool)
      requires 0 < pgsz <= SIZE_MAX && poolSize <= SIZE_MAX && chunkSize <= SIZE_MAX
      requires arena.Some? ==>
        var size := Pages(Adjusted(poolSize, chunkSize), pgsz) * pgsz;
        0 < arena.value && arena.value + size <= SIZE_MAX && Held(held, arena.value, size)
      ensures mp != null <==> SizesFit(poolSize, chunkSize, pgsz) && arena.Some? && RoomForOne(poolSize, chunkSize)
      ensures overruns <==> SizesFit(poolSize, chunkSize, pgsz) && arena.Some? && !RoomForOne(poolSize, chunkSize)
      ensures mp != null ==> fresh(mp) && mp.Valid() && mp.outstanding == {} && mp.chunkSize == chunkSize
      ensures mp != null ==> mp.chunkCount == ChunksIn(Adjusted(poolSize, chunkSize), Unit(chunkSize)) >= 1
    {
      var fit, pageCount, count := Sizes(poolSize, chunkSize, pgsz);
      if !fit || arena.None? {
        return null, false;
      }
      PoolSizes(poolSize, chunkSize, pgsz);
      mp := Carve(chunkSize, pgsz, pageCount, count, arena.value, held);
      overruns := mp == null;
    }

    /** The checks of the sizes, the pages and the chunks of the first area. */
    static method Sizes(poolSize: nat, chunkSize: nat, pgsz: nat) returns (fit: bool, pageCount: nat, count: nat)
      requires 0 < pgsz <= SIZE_MAX && poolSize <= SIZE_MAX && chunkSize <= SIZE_MAX
      ensures fit <==> SizesFit(poolSize, chunkSize, pgsz)
      ensures fit ==>
        && pageCount == Pages(Adjusted(poolSize, chunkSize), pgsz)
        && count == ChunksIn(Adjusted(poolSize, chunkSize), Unit(chunkSize))
    {
      fit, pageCount, count := false, 0, 0;
      if chunkSize > SIZE_MAX - HEADER {
        return;
      }
      var size := Adjusted(poolSize, chunkSize);
      if size > SIZE_MAX - pgsz + 1 {
        return;
      }
      PagesCounted(size, pgsz);
      pageCount := Pages(size, pgsz);
      if pageCount > SIZE_MAX / pgsz {
        return;
      }
      fit, count := true, ChunksIn(size, Unit(chunkSize));
    }

    /** Carves the first area, if it holds a chunk. */
    static method Carve(chunkSize: nat, pgsz: nat, pageCount: nat, count: nat, p: nat, held: map<nat, Byte>)
      returns (mp: Pool?)
      requires 0 < p && p + pageCount * pgsz <= SIZE_MAX && Held(held, p, pageCount * pgsz)
      requires count * Unit(chunkSize) <= pageCount * pgsz && (count > 0 ==> Unit(chunkSize) <= pageCount * pgsz)
      ensures mp == null <==> count == 0
      ensures mp != null ==> fresh(mp) && mp.Valid() && mp.outstanding == {} && mp.chunkSize == chunkSize
      ensures mp != null ==> mp.chunkCount == count
    {
      if count == 0 {
        return null;
      }
      mp := new Pool(chunkSize, pgsz, pageCount, count, p, held);
    }

    function AreaSize(): nat {
      pageCount * pgsz
    }

    /** A fresh mapping: above zero and clear of the areas there are; `held` is what its memory
        happens to hold, and says nothing of memory elsewhere. */
    ghost predicate Fresh(base: nat, held: map<nat, Byte>)
      reads this`areas, this`mem
    {
      && 0 < base && base + AreaSize() <= SIZE_MAX
      && (forall i :: 0 <= i < |areas| ==> Disjoint(areas[i], Area(base, 0), AreaSize()))
      && Held(held, base, AreaSize()) && held.Keys !! mem.Keys
    }

    /** Maps another area of the same size when no chunk is free; false if there is none. */
    method Extend(arena: Option<nat>, held: map<nat, Byte>) returns (ok: bool)
      requires Valid() && chunkCount == 0 && (arena.Some? ==> Fresh(arena.value, held))
      modifies this`chunkCount, this`freeHead, this`areas, this`mem, this`free
      ensures Valid() && ok == arena.Some? && (ok ==> chunkCount > 0)
      ensures !ok ==> areas == old(areas) && free == old(free) && mem == old(mem)
      ensures ok ==> areas == old(areas) + [Area(arena.value, ChunksIn(AreaSize(), Unit(chunkSize)))]
      ensures SameOutside(old(mem), mem, 0, 0)
    {
      if arena.None? {
        return false;
      }
      var p, unit := arena.value, Unit(chunkSize);
      var count := ChunksIn(AreaSize(), unit);
      DivAtLeastOne(AreaSize(), unit);
      DivBounds(AreaSize(), unit);
      ghost var before := mem;
      mem := mem + held;
      var _ := BuildList(p, count);
      BackedAdded(before, mem, areas, Area(p, count), AreaSize());
      chunkCount := chunkCount + count;
      ghost var a := Area(p, count);
      AreaAdded(areas, a, AreaSize(), unit);
      ChunksDistinct(p, count, unit);
      areas := areas + [Area(p, count)];
      free := Chunks(p, count, unit);
      ok := true;
    }

    /** Threads the chunks of an area; the word of the last one is left alone. */
    method BuildList(p: nat, count: nat) returns (cur: nat)
      requires count > 0 && count * Unit(chunkSize) <= AreaSize() && p + AreaSize() <= SIZE_MAX
        && Held(mem, p, AreaSize())
      modifies this`freeHead, this`mem
      ensures Threaded(mem, freeHead, Chunks(p, count, Unit(chunkSize)))
      ensures mem.Keys == old(mem).Keys && SameOutside(old(mem), mem, p, p + AreaSize())
      ensures cur == Chunks(p, count, Unit(chunkSize))[count - 1]
    {
      var unit := Unit(chunkSize);
      ghost var before, s := mem, Chunks(p, count, unit);
      freeHead := p;
      cur := p;
      FirstLink(mem, p, AreaSize(), count, unit);
      for i := 0 to count - 1
        invariant cur == s[i] && freeHead == p && Linking(before, mem, p, AreaSize(), s, i)
      {
        cur := LinkNext(cur, before, p, count, i);
      }
      assert LinkedTo(before, mem, p, AreaSize(), s, count - 1);
    }

    /** Links one chunk to the next. */
    method LinkNext(cur: nat, ghost before: map<nat, Byte>, ghost p: nat, ghost count: nat, ghost i: nat)
      returns (next: nat)
      requires i + 1 < count && count * Unit(chunkSize) <= AreaSize() && p + AreaSize() <= SIZE_MAX
      requires cur == Chunks(p, count, Unit(chunkSize))[i]
      requires Linking(before, mem, p, AreaSize(), Chunks(p, count, Unit(chunkSize)), i)
      modifies this`mem
      ensures next == Chunks(p, count, Unit(chunkSize))[i + 1]
      ensures Linking(before, mem, p, AreaSize(), Chunks(p, count, Unit(chunkSize)), i + 1)
    {
      ghost var mem0 := mem;
      WriteWord(cur, cur + Unit(chunkSize));
      NextLink(before, mem0, mem, p, AreaSize(), count, Unit(chunkSize), i);
      next := ReadWord(cur, cur + Unit(chunkSize));
    }

    method WriteWord(a: nat, w: nat)
      modifies this`mem
      ensures Stored(old(mem), mem, a, w)
    {
      mem := SetWord(mem, a, w, HEADER);
    }

    method ReadWord(a: nat, ghost w: nat) returns (r: nat)
      requires Loads(mem, a, w)
      ensures r == w
    {
      assert LoadsAt(mem, a, w);
      r := WordAt(mem, a, HEADER);
    }

    /** Takes the first free chunk. */
    method AllocHelper() returns (ptr: nat)
      requires Valid() && chunkCount > 0
      modifies this`chunkCount, this`freeHead, this`free, this`outstanding
      ensures Valid() && ptr >= HEADER && outstanding == old(outstanding) + {ptr - HEADER}
      ensures ptr - HEADER !in old(outstanding) && chunkCount == old(chunkCount) - 1
    {
      assert HasWord(mem, free[0]);
      ptr := freeHead + HEADER;
      ghost var c, rest := free[0], free[1..];
      freeHead := WordAt(mem, freeHead, HEADER);
      chunkCount := chunkCount - 1;
      assert free == [c] + rest;
      free, outstanding := rest, outstanding + {c};
    }

    /** A chunk that nobody holds, or 0 if none is free and no area can be mapped.  No byte that
        was memory before changes. */
    method Alloc(arena: Option<nat>, held: map<nat, Byte>) returns (ptr: nat)
      requires Valid() && (arena.Some? ==> Fresh(arena.value, held))
      modifies this`chunkCount, this`freeHead, this`areas, this`mem, this`free, this`outstanding
      ensures Valid() && (ptr == 0 <==> old(chunkCount) == 0 && arena.None?)
      ensures ptr == 0 ==> outstanding == old(outstanding)
      ensures ptr != 0 ==>
        ptr >= HEADER && outstanding == old(outstanding) + {ptr - HEADER} && ptr - HEADER !in old(outstanding)
      ensures SameOutside(old(mem), mem, 0, 0) && old(areas) <= areas
    {
      if chunkCount == 0 {
        var ok := Extend(arena, held);
        if !ok {
          return 0;
        }
      }
      ptr := AllocHelper();
    }

    /** The same, with the chunk's memory cleared; no other byte that was memory before
        changes, and the free list is left alone. */
    method Calloc(arena: Option<nat>, held: map<nat, Byte>) returns (ptr: nat)
      requires Valid() && (arena.Some? ==> Fresh(arena.value, held))
      modifies this`chunkCount, this`freeHead, this`areas, this`mem, this`free, this`outstanding
      ensures Valid() && (ptr == 0 <==> old(chunkCount) == 0 && arena.None?)
      ensures ptr == 0 ==> outstanding == old(outstanding) && SameOutside(old(mem), mem, 0, 0)
      ensures ptr != 0 ==>
        ptr >= HEADER && outstanding == old(outstanding) + {ptr - HEADER} && ptr - HEADER !in old(outstanding)
      ensures ptr != 0 ==> SameOutside(old(mem), mem, ptr, ptr + chunkSize)
      ensures ptr != 0 ==> forall a :: ptr <= a < ptr + chunkSize ==> a in mem && mem[a] == 0
      ensures old(areas) <= areas
    {
      ptr := Alloc(arena, held);
      if ptr != 0 {
        Clear(ptr);
      }
    }

    /** Clears an outstanding chunk. */
    method Clear(ptr: nat)
      requires Valid() && ptr >= HEADER && ptr - HEADER in outstanding
      modifies this`mem
      ensures Valid() && SameOutside(old(mem), mem, ptr, ptr + chunkSize)
      ensures forall a :: ptr <= a < ptr + chunkSize ==> a in mem && mem[a] == 0
    {
      ghost var before := mem;
      for i := 0 to chunkSize
        invariant Valid() && Cleared(before, mem, ptr, chunkSize, i)
      {
        Store(ptr, i, 0);
      }
    }

    /** The first `i` of the `n` bytes at `ptr` are zero, and no byte outside them has changed. */
    ghost predicate Cleared(before: map<nat, Byte>, now: map<nat, Byte>, ptr: nat, n: nat, i: nat) {
      SameOutside(before, now, ptr, ptr + n) && forall a :: ptr <= a < ptr + i ==> a in now && now[a] == 0
    }

    /** A user's store into an outstanding chunk: the pool stays as it is. */
    method Store(ptr: nat, i: nat, b: Byte)
      requires Valid() && ptr >= HEADER && ptr - HEADER in outstanding && i < chunkSize
      modifies this`mem
      ensures Valid() && mem == old(mem)[ptr + i := b] && ptr + i in old(mem)
    {
      ghost var before := mem;
      ChunkBacked(mem, areas, AreaSize(), Unit(chunkSize), ptr - HEADER);
      mem := mem[ptr + i := b];
      FreeApart(ptr - HEADER);
      ThreadedKept(before, mem, freeHead, free, ptr - HEADER, ptr - HEADER + Unit(chunkSize));
      BackedKept(before, mem, areas, AreaSize());
    }

    /** The free chunks' words lie clear of an outstanding chunk. */
    lemma FreeApart(c: nat)
      requires Accounts(free, outstanding, areas, Unit(chunkSize)) && Mapped(areas, AreaSize(), Unit(chunkSize))
      requires c in outstanding
      ensures forall i :: 0 <= i < |free| ==> free[i] + HEADER <= c || c + Unit(chunkSize) <= free[i]
    {
      forall i | 0 <= i < |free| ensures free[i] + HEADER <= c || c + Unit(chunkSize) <= free[i] {
        assert free[i] in SetOf(free);
        CarvedApart(areas, AreaSize(), Unit(chunkSize), c, free[i]);
      }
    }

    /** Gives an outstanding chunk back; 0 is accepted and ignored.  Only its header is
        written. */
    method Free(target: nat)
      requires Valid() && (target != 0 ==> target >= HEADER && target - HEADER in outstanding)
      modifies this`chunkCount, this`freeHead, this`mem, this`free, this`outstanding
      ensures Valid()
      ensures outstanding == if target == 0 then old(outstanding) else old(outstanding) - {target - HEADER}
      ensures chunkCount == if target == 0 then old(chunkCount) else old(chunkCount) + 1
      ensures target == 0 ==> mem == old(mem)
      ensures target != 0 ==> SameOutside(old(mem), mem, target - HEADER, target)
    {
      if target == 0 {
        return;
      }
      var ptr := target - HEADER;
      ghost var before := mem;
      WriteWord(ptr, freeHead);
      Linked(before, ptr);
      freeHead := ptr;
      chunkCount := chunkCount + 1;
      free, outstanding := [ptr] + free, outstanding - {ptr};
    }

    /** With the head written into its word, an outstanding chunk can go in front of the list. */
    lemma Linked(before: map<nat, Byte>, c: nat)
      requires Threaded(before, freeHead, free) && Accounts(free, outstanding, areas, Unit(chunkSize))
      requires Mapped(areas, AreaSize(), Unit(chunkSize)) && Backed(before, areas, AreaSize())
      requires c in outstanding && Stored(before, mem, c, freeHead)
      ensures Threaded(mem, c, [c] + free) && Backed(mem, areas, AreaSize())
      ensures SameOutside(before, mem, c, c + HEADER) && mem.Keys == before.Keys
    {
      ChunkBacked(before, areas, AreaSize(), Unit(chunkSize), c);
      assert HasWord(before, c);
      StoredFacts(before, mem, c, freeHead);
      FreeApart(c);
      ThreadedKept(before, mem, freeHead, free, c, c + HEADER);
      BackedKept(before, mem, areas, AreaSize());
      if free != [] {
        assert free[0] in SetOf(free);
        ChunkBacked(before, areas, AreaSize(), Unit(chunkSize), free[0]);
      }
      ThreadedFirst(mem, c, freeHead, free);
    }
  }
}
