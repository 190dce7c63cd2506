/** The demand-paged guest memory of src/io.c: inaccessible chunks are opened by the fault
    handler on first access, and the collector closes chunks that hold only zeros again. */
module GuestMemory {
  import opened Arith

  const CHUNK: nat := 65536
  const MAX_CHUNKS: nat := 65536
  const BITMAP_SIZE: nat := MAX_CHUNKS / 8
  const MAX_SIZE: nat := 0x1_0000_0000

  // ----- the bitmap

  function BitMask(j: nat): bv8
    requires j < 8
  {
    match j
    case 0 => 1
    case 1 => 2
    case 2 => 4
    case 3 => 8
    case 4 => 16
    case 5 => 32
    case 6 => 64
    case 7 => 128
  }

  predicate Bit(b: bv8, j: nat)
    requires j < 8
  {
    b & BitMask(j) != 0
  }

  lemma BitSet(b: bv8, j: nat, k: nat)
    requires j < 8 && k < 8
    ensures Bit(b | BitMask(j), k) == (k == j || Bit(b, k))
  {
  }

  lemma BitCleared(b: bv8, j: nat, k: nat)
    requires j < 8 && k < 8
    ensures Bit(b & !BitMask(j), k) == (k != j && Bit(b, k))
  {
  }

  predicate Tested(bitmap: seq<bv8>, idx: nat)
    requires |bitmap| == BITMAP_SIZE && idx < MAX_CHUNKS
  {
    Bit(bitmap[idx / 8], idx % 8)
  }

  lemma SamePlace(i: nat, j: nat)
    ensures i == j <==> i / 8 == j / 8 && i % 8 == j % 8
  {
    DivMod(i, 8);
    DivMod(j, 8);
  }

  lemma TestedSet(bitmap: seq<bv8>, idx: nat, i: nat)
    requires |bitmap| == BITMAP_SIZE && idx < MAX_CHUNKS && i < MAX_CHUNKS
    ensures Tested(bitmap[idx / 8 := bitmap[idx / 8] | BitMask(idx % 8)], i) == (i == idx || Tested(bitmap, i))
  {
    SamePlace(i, idx);
    BitSet(bitmap[idx / 8], idx % 8, i % 8);
  }

  lemma TestedCleared(bitmap: seq<bv8>, idx: nat, i: nat)
    requires |bitmap| == BITMAP_SIZE && idx < MAX_CHUNKS && i < MAX_CHUNKS
    ensures Tested(bitmap[idx / 8 := bitmap[idx / 8] & !BitMask(idx % 8)], i) == (i != idx && Tested(bitmap, i))
  {
    SamePlace(i, idx);
    BitCleared(bitmap[idx / 8], idx % 8, i % 8);
  }

  // ----- chunks

  /** Number of chunks, the last of which may be a part. */
  function ChunkCount(size: nat): nat {
    (size + CHUNK - 1) / CHUNK
  }

  function ChunkEnd(size: nat, idx: nat): nat {
    if idx * CHUNK + CHUNK > size then size else idx * CHUNK + CHUNK
  }

  ghost function Count(s: seq<bool>): (n: nat)
    ensures n <= |s|
  {
    if s == [] then 0 else (if s[|s| - 1] then 1 else 0) + Count(s[..|s| - 1])
  }

  lemma {:induction false} CountUpdate(s: seq<bool>, i: nat, b: bool)
    requires i < |s|
    ensures Count(s[i := b]) == Count(s) - (if s[i] then 1 else 0) + (if b then 1 else 0)
    decreases |s|
  {
    var t := s[i := b];
    if i == |s| - 1 {
      assert t[..|s| - 1] == s[..|s| - 1];
    } else {
      assert t[..|s| - 1] == s[..|s| - 1][i := b];
      CountUpdate(s[..|s| - 1], i, b);
    }
  }

  // ----- the collector's scan

  /** How many calls after one at `start` the scan comes to `c`. */
  function Distance(start: nat, c: nat, n: nat): (d: nat)
    requires start < n && c < n
    ensures d < n
  {
    if c >= start then c - start else c + n - start
  }

  /** Calls in a row come past every chunk once, wherever they start. */
  lemma ScanCovers(start: nat, n: nat, k: nat)
    requires start < n && k < n
    ensures (start + k) % n < n && Distance(start, (start + k) % n, n) == k
    ensures ((start + k) % n + 1) % n == (start + k + 1) % n
    ensures (start + n) % n == start == start % n
  {
    DivUnique(start + k, n, if start + k < n then 0 else 1, if start + k < n then start + k else start + k - n);
    DivUnique(start + n, n, 1, start);
    DivUnique(start, n, 0, start);
    DivSplit(start + k, 1, n);
  }

  // ----- what an access opens

  /** The open chunks after an access to the bytes from `lo` to `hi`. */
  ghost function Opened(o: seq<bool>, lo: nat, hi: nat): (r: seq<bool>)
    ensures |r| == |o|
    ensures forall c :: 0 <= c < |r| ==> r[c] == (o[c] || (lo < hi && lo / CHUNK <= c <= (hi - 1) / CHUNK))
  {
    seq(|o|, c requires 0 <= c < |o| => o[c] || (lo < hi && lo / CHUNK <= c <= (hi - 1) / CHUNK))
  }

  lemma OpenedNext(o: seq<bool>, lo: nat, hi: nat)
    requires lo <= hi && hi / CHUNK < |o|
    ensures Opened(o, lo, hi)[hi / CHUNK := true] == Opened(o, lo, hi + 1)
  {
    var a, b := Opened(o, lo, hi)[hi / CHUNK := true], Opened(o, lo, hi + 1);
    forall c | 0 <= c < |o| ensures a[c] == b[c] {
      if lo < hi {
        assert hi / CHUNK - 1 <= (hi - 1) / CHUNK <= hi / CHUNK;
      }
    }
  }

  lemma OpenedNone(o: seq<bool>, lo: nat)
    ensures Opened(o, lo, lo) == o
  {
  }

  // ----- the memory

  class Memory {
    const size: nat
    /** The pages; those that are not resident hold anything. */
    const bytes: array<bv8>
    const resident: array<bool>
    /** What the page tables allow, chunk by chunk. */
    const open: array<bool>
    const bitmap: array<bv8>
    var gcScanIdx: nat
    var active: nat
    var peak: nat

    ghost predicate Shape() {
      && 0 < size <= MAX_SIZE
      && bytes.Length == size
      && open.Length == resident.Length == ChunkCount(size) <= MAX_CHUNKS
      && bitmap.Length == BITMAP_SIZE
      && bytes != bitmap && bytes as object != open && bitmap as object != open
      && open != resident && bytes as object != resident && bitmap as object != resident
    }

    /** The bitmap says which chunks are open, the counters count them, and open chunks have
        their pages. */
    ghost predicate Valid()
      reads this, open, bitmap, resident
    {
      && Shape()
      && (forall i :: 0 <= i < open.Length ==> Tested(bitmap[..], i) == open[i])
      && (forall i :: open.Length <= i < MAX_CHUNKS ==> !Tested(bitmap[..], i))
      && active == Count(open[..]) <= peak <= open.Length
      && (forall c :: 0 <= c < open.Length ==> open[c] ==> resident[c])
    }

    /** What a program that can read everything would find: pages that are not resident are
        supplied as zeros. */
    ghost function Contents(): seq<bv8>
      reads bytes, resident
      requires Shape()
    {
      Flat(bytes[..], resident[..])
    }

    /** A memory of `size` bytes, all zero, closed and without pages. */
    constructor (size: nat)
      requires 0 < size <= MAX_SIZE
      ensures Valid() && this.size == size && active == peak == gcScanIdx == 0
      ensures fresh(bytes) && fresh(open) && fresh(bitmap) && fresh(resident)
      ensures Contents() == seq(size, _ => 0)
    {
      this.size := size;
      bytes := new bv8[size];
      resident := new bool[ChunkCount(size)](_ => false);
      open := new bool[ChunkCount(size)](_ => false);
      bitmap := new bv8[BITMAP_SIZE](_ => 0);
      gcScanIdx, active, peak := 0, 0, 0;
      new;
      AllClosed(open[..]);
      EmptyBitmap(bitmap[..]);
      SizeBounds(size);
    }

    method BitmapSet(idx: nat)
      requires Shape() && idx < MAX_CHUNKS
      modifies bitmap
      ensures forall i :: 0 <= i < MAX_CHUNKS ==> Tested(bitmap[..], i) == (i == idx || Tested(old(bitmap[..]), i))
    {
      ghost var before := bitmap[..];
      bitmap[idx / 8] := bitmap[idx / 8] | BitMask(idx % 8);
      assert bitmap[..] == before[idx / 8 := before[idx / 8] | BitMask(idx % 8)];
      forall i | 0 <= i < MAX_CHUNKS ensures Tested(bitmap[..], i) == (i == idx || Tested(before, i)) {
        TestedSet(before, idx, i);
      }
    }

    method BitmapClear(idx: nat)
      requires Shape() && idx < MAX_CHUNKS
      modifies bitmap
      ensures forall i :: 0 <= i < MAX_CHUNKS ==> Tested(bitmap[..], i) == (i != idx && Tested(old(bitmap[..]), i))
    {
      ghost var before := bitmap[..];
      bitmap[idx / 8] := bitmap[idx / 8] & !BitMask(idx % 8);
      assert bitmap[..] == before[idx / 8 := before[idx / 8] & !BitMask(idx % 8)];
      forall i | 0 <= i < MAX_CHUNKS ensures Tested(bitmap[..], i) == (i != idx && Tested(before, i)) {
        TestedCleared(before, idx, i);
      }
    }

    /** The fault handler; `protects` says whether mprotect succeeds.  False means that the
        fault goes to the previous handler. */
    method Fault(addr: int, protects: bool) returns (resumed: bool)
      requires Valid()
      modifies this`active, this`peak, open, bitmap, bytes, resident
      ensures Valid() && Contents() == old(Contents()) && resumed == (0 <= addr < size && protects)
      ensures active >= old(active) && peak == if active > old(peak) then active else old(peak)
      ensures !resumed ==> open[..] == old(open[..]) && active == old(active)
      ensures resumed ==> addr / CHUNK < open.Length && open[..] == old(open[..])[addr / CHUNK := true]
    {
      if 0 <= addr < size {
        var idx := addr / CHUNK;
        ChunkIndex(size, addr);
        if protects {
          Admit(idx);
          return true;
        }
      }
      resumed := false;
    }

    /** Opens a chunk, and counts it if it was closed. */
    method Admit(idx: nat)
      requires Valid() && idx < open.Length
      modifies this`active, this`peak, open, bitmap, bytes, resident
      ensures Valid() && Contents() == old(Contents()) && open[..] == old(open[..])[idx := true]
      ensures active >= old(active) && peak == if active > old(peak) then active else old(peak)
    {
      var known := Tested(bitmap[..], idx);
      CountUpdate(open[..], idx, true);
      OpenChunk(idx);
      if !known {
        BitmapSet(idx);
        active := active + 1;
        if active > peak {
          peak := active;
        }
      }
    }

    /** The system opens a chunk, and supplies its pages if it has none. */
    method OpenChunk(idx: nat)
      requires Shape() && idx < open.Length
      modifies open, bytes, resident
      ensures open[..] == old(open[..])[idx := true] && resident[..] == old(resident[..])[idx := true]
      ensures Contents() == old(Contents())
    {
      ghost var bs, before := bytes[..], resident[..];
      if !resident[idx] {
        ZeroFill(idx);
      }
      resident[idx] := true;
      FlatSupplied(bs, bytes[..], before, idx);
      open[idx] := true;
    }

    method ZeroFill(idx: nat)
      requires Shape() && idx < open.Length
      modifies bytes
      ensures forall i :: 0 <= i < size ==> bytes[i] == if i / CHUNK == idx then 0 else old(bytes[i])
    {
      ChunkStart(size, idx);
      for i := idx * CHUNK to ChunkEnd(size, idx)
        invariant forall k :: 0 <= k < size ==> bytes[k] == if idx * CHUNK <= k < i then 0 else old(bytes[k])
      {
        bytes[i] := 0;
      }
      forall i | 0 <= i < size ensures idx * CHUNK <= i < ChunkEnd(size, idx) <==> i / CHUNK == idx {
        ChunkOf(size, idx, i);
      }
    }

    /** A load from an open chunk. */
    method LoadByte(addr: nat) returns (b: bv8)
      requires Valid() && addr < size && addr / CHUNK < open.Length && open[addr / CHUNK]
      ensures b == Contents()[addr]
    {
      b := bytes[addr];
    }

    /** A store to an open chunk. */
    method StoreByte(addr: nat, b: bv8)
      requires Valid() && addr < size && addr / CHUNK < open.Length && open[addr / CHUNK]
      modifies bytes
      ensures Valid() && Contents() == old(Contents())[addr := b]
    {
      bytes[addr] := b;
    }

    /** Before an access to a byte: a closed chunk faults and is opened. */
    method Touch(addr: nat)
      requires Valid() && addr < size
      modifies this`active, this`peak, open, bitmap, bytes, resident
      ensures Valid() && Contents() == old(Contents())
      ensures addr / CHUNK < open.Length && open[..] == old(open[..])[addr / CHUNK := true]
      ensures active >= old(active) && peak == if active > old(peak) then active else old(peak)
    {
      ChunkIndex(size, addr);
      if !open[addr / CHUNK] {
        var _ := Fault(addr, true);
      } else {
        assert open[..][addr / CHUNK := true] == open[..];
      }
    }

    /** Reads `n` bytes: what a flat memory would return.  It opens the chunks it comes to. */
    method Read(addr: nat, n: nat) returns (dst: seq<bv8>)
      requires Valid() && addr + n <= size
      modifies this`active, this`peak, open, bitmap, bytes, resident
      ensures Valid() && Contents() == old(Contents()) && dst == old(Contents())[addr..addr + n]
      ensures open[..] == Opened(old(open[..]), addr, addr + n)
      ensures active >= old(active) && peak == if active > old(peak) then active else old(peak)
    {
      OpenedNone(open[..], addr);
      ghost var bs, o, a, p := Contents(), open[..], active, peak;
      assert AfterAll(bs, o, a, p, addr, 0);
      dst := LoadBytes(addr, n, bs, o, a, p);
      assert AfterAll(bs, o, a, p, addr, n);
    }

    method LoadBytes(addr: nat, n: nat, ghost bs: seq<bv8>, ghost o: seq<bool>, ghost a: nat, ghost p: nat)
      returns (dst: seq<bv8>)
      requires addr + n <= size == |bs| && After(bs, o, a, p, addr, 0)
      modifies this`active, this`peak, open, bitmap, bytes, resident
      ensures After(bs, o, a, p, addr, n) && dst == bs[addr..addr + n]
    {
      dst := [];
      for i := 0 to n
        invariant After(bs, o, a, p, addr, i)
        invariant dst == bs[addr..addr + i]
      {
        var b := TouchLoad(addr, i, bs, o, a, p);
        SliceNext(bs, addr, i);
        dst := dst + [b];
      }
    }

    /** After accesses to the `i` bytes from `addr` on, seen from a state with contents `bs`, open
        chunks `o` and counters `a` and `p`; writes have made of the contents what `bs` says.  The
        detour over `n` keeps this out of the loops, which only pass it on. */
    ghost predicate After(bs: seq<bv8>, o: seq<bool>, a: nat, p: nat, addr: nat, i: nat)
      reads this, bytes, resident, open, bitmap
    {
      forall n: nat :: n == i ==> AfterAll(bs, o, a, p, addr, n)
    }

    ghost predicate AfterAll(bs: seq<bv8>, o: seq<bool>, a: nat, p: nat, addr: nat, i: nat)
      reads this, bytes, resident, open, bitmap
    {
      && Valid() && Contents() == bs && |o| == open.Length && open[..] == Opened(o, addr, addr + i)
      && active >= a && peak == if active > p then active else p
    }

    method TouchLoad(addr: nat, i: nat, ghost bs: seq<bv8>, ghost o: seq<bool>, ghost a: nat, ghost p: nat)
      returns (b: bv8)
      requires addr + i < size == |bs| && After(bs, o, a, p, addr, i)
      modifies this`active, this`peak, open, bitmap, bytes, resident
      ensures After(bs, o, a, p, addr, i + 1) && b == bs[addr + i]
    {
      TouchNext(addr, i, bs, o, a, p);
      AfterContents(bs, o, a, p, addr, i + 1);
      b := LoadByte(addr + i);
    }

    lemma AfterContents(bs: seq<bv8>, o: seq<bool>, a: nat, p: nat, addr: nat, i: nat)
      requires After(bs, o, a, p, addr, i)
      ensures Valid() && Contents() == bs
    {
      assert AfterAll(bs, o, a, p, addr, i);
    }

    method TouchNext(addr: nat, i: nat, ghost bs: seq<bv8>, ghost o: seq<bool>, ghost a: nat, ghost p: nat)
      requires addr + i < size == |bs| && After(bs, o, a, p, addr, i)
      modifies this`active, this`peak, open, bitmap, bytes, resident
      ensures Valid() && After(bs, o, a, p, addr, i + 1)
      ensures (addr + i) / CHUNK < open.Length && open[(addr + i) / CHUNK]
    {
      assert AfterAll(bs, o, a, p, addr, i);
      ghost var idx := (addr + i) / CHUNK;
      assert idx < open.Length by {
        ChunkIndex(size, addr + i);
      }
      assert Opened(o, addr, addr + i)[idx := true] == Opened(o, addr, addr + (i + 1)) by {
        OpenedNext(o, addr, addr + i);
      }
      Touch(addr + i);
      assert open[..][idx];
      assert AfterAll(bs, o, a, p, addr, i + 1);
    }

    /** Writes bytes, like a flat memory. */
    method Write(addr: nat, src: seq<bv8>)
      requires Valid() && addr + |src| <= size
      modifies this`active, this`peak, open, bitmap, bytes, resident
      ensures Valid() && Contents() == Written(old(Contents()), addr, src, |src|)
      ensures open[..] == Opened(old(open[..]), addr, addr + |src|)
      ensures active >= old(active) && peak == if active > old(peak) then active else old(peak)
    {
      ghost var bs, o, a, p := Contents(), open[..], active, peak;
      OpenedNone(o, addr);
      WrittenNone(bs, addr, src);
      assert AfterAll(bs, o, a, p, addr, 0);
      StoreBytes(addr, src, bs, o, a, p);
      assert AfterAll(Written(bs, addr, src, |src|), o, a, p, addr, |src|);
    }

    method StoreBytes(addr: nat, src: seq<bv8>, ghost bs: seq<bv8>, ghost o: seq<bool>, ghost a: nat, ghost p: nat)
      requires addr + |src| <= size == |bs| && After(Written(bs, addr, src, 0), o, a, p, addr, 0)
      modifies this`active, this`peak, open, bitmap, bytes, resident
      ensures After(Written(bs, addr, src, |src|), o, a, p, addr, |src|)
    {
      for i := 0 to |src|
        invariant After(Written(bs, addr, src, i), o, a, p, addr, i)
      {
        WrittenNext(bs, addr, src, i);
        TouchStore(addr, src[i], i, Written(bs, addr, src, i), o, a, p);
      }
    }

    method TouchStore(addr: nat, b: bv8, i: nat, ghost bs: seq<bv8>, ghost o: seq<bool>, ghost a: nat, ghost p: nat)
      requires addr + i < size == |bs| && After(bs, o, a, p, addr, i)
      modifies this`active, this`peak, open, bitmap, bytes, resident
      ensures After(bs[addr + i := b], o, a, p, addr, i + 1)
    {
      TouchNext(addr, i, bs, o, a, p);
      assert AfterAll(bs, o, a, p, addr, i + 1);
      StoreByte(addr + i, b);
      assert AfterAll(bs[addr + i := b], o, a, p, addr, i + 1);
    }

    /** An instruction word, or zeros beyond the end. */
    method Ifetch(addr: nat) returns (word: seq<bv8>)
      requires Valid()
      modifies this`active, this`peak, open, bitmap, bytes, resident
      ensures Valid() && Contents() == old(Contents())
      ensures word == if addr + 4 > size then [0, 0, 0, 0] else Contents()[addr..addr + 4]
    {
      if addr + 4 > size {
        return [0, 0, 0, 0];
      }
      word := Read(addr, 4);
    }

    ghost predicate ZeroChunk(bs: seq<bv8>, idx: nat)
      requires |bs| == size
    {
      forall i :: idx * CHUNK <= i < ChunkEnd(size, idx) ==> bs[i] == 0
    }

    /** Looks through an open chunk; no fault can happen, signals being blocked. */
    method IsRegionZero(idx: nat) returns (zero: bool)
      requires Valid() && idx < open.Length && open[idx]
      ensures zero <==> ZeroChunk(Contents(), idx)
    {
      ChunkStart(size, idx);
      for i := idx * CHUNK to ChunkEnd(size, idx)
        invariant forall k :: idx * CHUNK <= k < i ==> Contents()[k] == 0
      {
        ChunkOf(size, idx, i);
        var b := LoadByte(i);
        if b != 0 {
          return false;
        }
      }
      zero := true;
    }

    /** Looks at one chunk, closes it if it holds only zeros, and moves on around the end;
        `drops` says whether the system follows the advice to drop the pages. */
    method Gc(protects: bool, drops: bool)
      requires Valid()
      modifies this`gcScanIdx, this`active, open, bitmap, resident
      ensures Valid() && Contents() == old(Contents())
      ensures gcScanIdx == if old(gcScanIdx) < open.Length then (old(gcScanIdx) + 1) % open.Length else 0
      ensures open[..] == AfterGc(old(open[..]), Contents(), old(gcScanIdx), protects)
    {
      var idx := gcScanIdx;
      var maxIdx := ChunkCount(size);
      if idx >= maxIdx {
        gcScanIdx := 0;
        return;
      }
      if Tested(bitmap[..], idx) {
        CloseIfZero(idx, protects, drops);
      } else {
        assert open[..][idx := false] == open[..];
      }
      gcScanIdx := (idx + 1) % maxIdx;
    }

    /** The open chunks after a call that looks at `idx`. */
    ghost function AfterGc(o: seq<bool>, bs: seq<bv8>, idx: nat, protects: bool): seq<bool>
      requires |bs| == size
    {
      if idx < |o| then o[idx := o[idx] && !(protects && ZeroChunk(bs, idx))] else o
    }

    method CloseIfZero(idx: nat, protects: bool, drops: bool)
      requires Valid() && idx < open.Length && open[idx]
      modifies this`active, open, bitmap, resident
      ensures Valid() && Contents() == old(Contents())
      ensures open[..] == AfterGc(old(open[..]), Contents(), idx, protects)
    {
      var zero := IsRegionZero(idx);
      if zero && protects {
        Close(idx, drops);
      } else {
        assert open[..][idx := true] == open[..];
      }
    }

    method Close(idx: nat, drops: bool)
      requires Valid() && idx < open.Length && open[idx] && ZeroChunk(Contents(), idx)
      modifies this`active, open, bitmap, resident
      ensures Valid() && Contents() == old(Contents()) && open[..] == old(open[..])[idx := false]
    {
      CountUpdate(open[..], idx, false);
      CloseChunk(idx);
      if drops {
        DropPages(idx);
      }
      BitmapClear(idx);
      if active > 0 {
        active := active - 1;
      }
    }

    method CloseChunk(idx: nat)
      requires Shape() && idx < open.Length
      modifies open
      ensures open[..] == old(open[..])[idx := false]
    {
      open[idx] := false;
    }

    /** Dropping the pages of a chunk loses what they hold; nothing, if that is only zeros. */
    method DropPages(idx: nat)
      requires Shape() && idx < resident.Length && ZeroChunk(Contents(), idx)
      modifies resident
      ensures resident[..] == old(resident[..])[idx := false] && Contents() == old(Contents())
    {
      ghost var before := resident[..];
      resident[idx] := false;
      forall i | 0 <= i < size && i / CHUNK == idx ensures old(Contents())[i] == 0 {
        ChunkOf(size, idx, i);
      }
      FlatDropped(bytes[..], before, idx);
    }

    /** A full round of the collector, from any valid scan index, looks at every chunk: none
        that holds only zeros stays open. */
    method GcRound(drops: nat -> bool)
      requires Valid() && gcScanIdx < open.Length
      modifies this`gcScanIdx, this`active, open, bitmap, resident
      ensures Valid() && Contents() == old(Contents()) && gcScanIdx == old(gcScanIdx)
      ensures forall c :: 0 <= c < open.Length ==> open[c] == (old(open[c]) && !ZeroChunk(Contents(), c))
    {
      ghost var start, before, bs := gcScanIdx, open[..], Contents();
      ScanCovers(start, open.Length, 0);
      assert RoundAt(before, bs, start, 0);
      GcTurns(drops, before, bs, start);
      assert RoundAt(before, bs, start, open.Length);
      SweptAll(before, open[..], bs, start);
    }

    /** After `k` calls of a round that began at `start`; with a detour over `n`. */
    ghost predicate InRound(before: seq<bool>, bs: seq<bv8>, start: nat, k: nat)
      reads this, open, bitmap, resident, bytes
    {
      forall n: nat :: n == k ==> RoundAt(before, bs, start, n)
    }

    ghost predicate RoundAt(before: seq<bool>, bs: seq<bv8>, start: nat, k: nat)
      reads this, open, bitmap, resident, bytes
    {
      && Valid() && Contents() == bs && start < open.Length && gcScanIdx == (start + k) % open.Length
      && Swept(before, open[..], bs, start, k)
    }

    method GcTurns(drops: nat -> bool, ghost before: seq<bool>, ghost bs: seq<bv8>, ghost start: nat)
      requires InRound(before, bs, start, 0)
      modifies this`gcScanIdx, this`active, open, bitmap, resident
      ensures InRound(before, bs, start, open.Length)
    {
      for k := 0 to open.Length
        invariant InRound(before, bs, start, k)
      {
        GcTurn(drops(k), before, bs, start, k);
      }
    }

    method GcTurn(drops: bool, ghost before: seq<bool>, ghost bs: seq<bv8>, ghost start: nat, ghost k: nat)
      requires InRound(before, bs, start, k) && k < open.Length
      modifies this`gcScanIdx, this`active, open, bitmap, resident
      ensures InRound(before, bs, start, k + 1)
    {
      assert RoundAt(before, bs, start, k);
      GcNext(drops, before, bs, start, k);
    }

    method GcNext(drops: bool, ghost before: seq<bool>, ghost bs: seq<bv8>, ghost start: nat, ghost k: nat)
      requires RoundAt(before, bs, start, k) && k < open.Length
      modifies this`gcScanIdx, this`active, open, bitmap, resident
      ensures RoundAt(before, bs, start, k + 1)
    {
      ghost var i, now := gcScanIdx, open[..];
      assert i < |now| && (i + 1) % |now| == (start + k + 1) % |now| by {
        ScanCovers(start, |now|, k);
      }
      assert Swept(before, AfterGc(now, bs, i, true), bs, start, k + 1) by {
        SweptNext(before, now, bs, start, k);
      }
      Gc(true, drops);
    }

    lemma SweptNext(before: seq<bool>, now: seq<bool>, bs: seq<bv8>, start: nat, k: nat)
      requires Shape() && |bs| == size && Swept(before, now, bs, start, k) && k < |now|
      ensures Swept(before, AfterGc(now, bs, (start + k) % |now|, true), bs, start, k + 1)
    {
      ScanCovers(start, |now|, k);
      var i := (start + k) % |now|;
      assert forall c :: 0 <= c < |now| && c != i ==> Distance(start, c, |now|) != k;
    }

    lemma SweptAll(before: seq<bool>, now: seq<bool>, bs: seq<bv8>, start: nat)
      requires Shape() && |bs| == size && Swept(before, now, bs, start, |now|)
      ensures forall c :: 0 <= c < |now| ==> now[c] == (before[c] && !ZeroChunk(bs, c))
    {
    }

    /** After `k` calls from `start`, the chunks they came past are closed if all zero. */
    ghost predicate Swept(before: seq<bool>, now: seq<bool>, bs: seq<bv8>, start: nat, k: nat)
      requires Shape() && |bs| == size
    {
      start < |before| == |now| == open.Length &&
      forall c :: 0 <= c < |now| ==> now[c] == (before[c] && !(Distance(start, c, |now|) < k && ZeroChunk(bs, c)))
    }

    /** Peak use in bytes; the clamp to the memory size never bites. */
    method GetUsage() returns (usage: nat)
      requires Valid()
      ensures usage == peak * 65536 < size + 65536
    {
      var maxChunks := ChunkCount(size);
      var chunks := if peak < maxChunks then peak else maxChunks;
      usage := chunks * CHUNK;
    }
  }

  /** Bytes whose pages are resident, and zeros elsewhere. */
  ghost function Flat(bs: seq<bv8>, resident: seq<bool>): (f: seq<bv8>)
    requires |resident| == ChunkCount(|bs|)
    ensures |f| == |bs|
    ensures forall i :: 0 <= i < |bs| ==> i / CHUNK < |resident| && f[i] == if resident[i / CHUNK] then bs[i] else 0
  {
    seq(|bs|, i requires 0 <= i < |bs| => ChunkIndex(|bs|, i); if resident[i / CHUNK] then bs[i] else 0)
  }

  /** Supplying pages of zeros changes nothing that can be read. */
  lemma FlatSupplied(bs: seq<bv8>, bs': seq<bv8>, resident: seq<bool>, idx: nat)
    requires |resident| == ChunkCount(|bs|) && |bs'| == |bs| && idx < |resident|
    requires forall i :: 0 <= i < |bs| ==> bs'[i] == if !resident[idx] && i / CHUNK == idx then 0 else bs[i]
    ensures Flat(bs', resident[idx := true]) == Flat(bs, resident)
  {
  }

  /** Nor does dropping pages of zeros. */
  lemma FlatDropped(bs: seq<bv8>, resident: seq<bool>, idx: nat)
    requires |resident| == ChunkCount(|bs|) && idx < |resident|
    requires forall i :: 0 <= i < |bs| && i / CHUNK == idx ==> Flat(bs, resident)[i] == 0
    ensures Flat(bs, resident[idx := false]) == Flat(bs, resident)
  {
  }

  lemma SliceNext(bs: seq<bv8>, addr: nat, i: nat)
    requires addr + i < |bs|
    ensures bs[addr..addr + i] + [bs[addr + i]] == bs[addr..addr + (i + 1)]
  {
  }

  /** A flat memory after the first `i` bytes of `src` have been written at `addr`. */
  ghost function Written(bs: seq<bv8>, addr: nat, src: seq<bv8>, i: nat): (r: seq<bv8>)
    requires i <= |src| && addr + |src| <= |bs|
    ensures |r| == |bs|
  {
    bs[..addr] + src[..i] + bs[addr + i..]
  }

  lemma WrittenNone(bs: seq<bv8>, addr: nat, src: seq<bv8>)
    requires addr + |src| <= |bs|
    ensures Written(bs, addr, src, 0) == bs
  {
  }

  lemma WrittenNext(bs: seq<bv8>, addr: nat, src: seq<bv8>, i: nat)
    requires i < |src| && addr + |src| <= |bs|
    ensures Written(bs, addr, src, i)[addr + i := src[i]] == Written(bs, addr, src, i + 1)
  {
  }

  /** The bytes of chunk `idx`. */
  lemma ChunkOf(size: nat, idx: nat, i: nat)
    requires i < size
    ensures idx * CHUNK <= i < ChunkEnd(size, idx) <==> i / CHUNK == idx
  {
  }

  lemma EmptyBitmap(s: seq<bv8>)
    requires |s| == BITMAP_SIZE && forall i :: 0 <= i < |s| ==> s[i] == 0
    ensures forall i :: 0 <= i < MAX_CHUNKS ==> !Tested(s, i)
  {
    forall i | 0 <= i < MAX_CHUNKS ensures !Tested(s, i) {
      NoBit(i % 8);
    }
  }

  lemma NoBit(j: nat)
    requires j < 8
    ensures !Bit(0, j)
  {
  }

  lemma SizeBounds(size: nat)
    requires size <= MAX_SIZE
    ensures ChunkCount(size) <= MAX_CHUNKS
  {
  }

  lemma ChunkStart(size: nat, idx: nat)
    requires idx < ChunkCount(size)
    ensures idx * CHUNK < size
  {
  }

  lemma ChunkIndex(size: nat, addr: nat)
    requires addr < size
    ensures addr / CHUNK < ChunkCount(size)
  {
  }

  lemma {:induction false} AllClosed(s: seq<bool>)
    requires forall i :: 0 <= i < |s| ==> !s[i]
    ensures Count(s) == 0
    decreases |s|
  {
    if s != [] {
      AllClosed(s[..|s| - 1]);
    }
  }
}
