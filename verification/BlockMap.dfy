/** The map of translated blocks of src/emulate.c and src/riscv.c: open addressing with linear
    probing under an arbitrary hash, and a direct-mapped cache in front of it. */
module BlockMap {
  import opened Arith
  import opened Common

  const L1_SIZE: nat := 256
  const INVALID_TAG: Word := 0xFFFF_FFFF

  class TBlock {
    const pcStart: Word

    constructor (pcStart: Word)
      ensures this.pcStart == pcStart
    {
      this.pcStart := pcStart;
    }
  }

  /** The slot `d` places after that of `h`, around the end of the table. */
  function Slot(h: Word, d: nat, capacity: nat): nat
    requires capacity > 0
  {
    (h + d) % capacity
  }

  lemma WrapKeepsSlot(h: nat, capacity: nat)
    requires capacity > 0 && WORD % capacity == 0
    ensures (h % WORD) % capacity == h % capacity
  {
    var q, r := WORD / capacity, h / WORD;
    assert h == capacity * (q * r) + h % WORD by {
      assert WORD == capacity * q;
      assert h == WORD * r + h % WORD;
      assert WORD * r == capacity * (q * r);
    }
    ModOffset(h % WORD, q * r, capacity);
  }

  lemma ModOffset(x: nat, k: nat, n: nat)
    requires n > 0
    ensures (n * k + x) % n == x % n
  {
    var a, b := x / n, x % n;
    assert n * k + x == n * (k + a) + b;
    DivUnique(n * k + x, n, k + a, b);
  }

  /** Capacities that leave a slot empty whenever the load check lets an insertion through: the
      check compares 1.25 times the size with the capacity. */
  lemma LoadCheckLeavesRoom(capacity: nat)
    ensures (forall size: nat :: 5 * size <= 4 * capacity ==> size + 1 < capacity) <==> capacity >= 6
  {
    if capacity < 6 {
      var size := if capacity <= 1 then 0 else capacity - 1;
      assert 5 * size <= 4 * capacity && size + 1 >= capacity;
    }
  }

  // ----- the table as a value

  /** Every stored block can be reached from the slot of its hash without meeting an empty
      slot; `dist` says how far away it is. */
  ghost predicate Reachable(table: seq<TBlock?>, contents: map<Word, TBlock>, dist: map<Word, nat>, hash: Word -> Word)
    requires |table| > 0
  {
    && dist.Keys == contents.Keys
    && (forall pc <- contents :: contents[pc].pcStart == pc && dist[pc] < |table|)
    && (forall pc <- contents :: Stored(table, contents, pc, Slot(hash(pc), dist[pc], |table|)))
    && (forall pc <- contents, d: nat :: d <= dist[pc] ==> table[Slot(hash(pc), d, |table|)] != null)
    && (forall i :: 0 <= i < |table| ==> Accounted(table, contents, dist, hash, i))
  }

  ghost predicate Stored(table: seq<TBlock?>, contents: map<Word, TBlock>, pc: Word, i: nat)
    requires i < |table| && pc in contents
  {
    table[i] == contents[pc]
  }

  /** Slot `i` is empty or the place of one of the stored blocks. */
  ghost predicate Accounted(table: seq<TBlock?>, contents: map<Word, TBlock>, dist: map<Word, nat>, hash: Word -> Word,
                            i: nat)
    requires i < |table| && dist.Keys == contents.Keys
  {
    table[i] != null ==>
      var pc := (table[i] as TBlock).pcStart;
      pc in contents && table[i] == contents[pc] && i == Slot(hash(pc), dist[pc], |table|)
  }

  lemma NextSlot(h: Word, d: nat, index: Word, capacity: nat)
    requires capacity > 0 && WORD % capacity == 0 && index % capacity == Slot(h, d, capacity)
    ensures ((index + 1) % WORD) % capacity == Slot(h, d + 1, capacity)
  {
    WrapKeepsSlot(index + 1, capacity);
    DivSplit(index, 1, capacity);
    DivSplit(h + d, 1, capacity);
  }

  /** Probing passes every slot. */
  lemma SlotReached(h: Word, i: nat, capacity: nat) returns (d: nat)
    requires i < capacity
    ensures d < capacity && Slot(h, d, capacity) == i
  {
    var r := h % capacity;
    d := if i >= r then i - r else i + capacity - r;
    DivSplit(h, d, capacity);
    DivUnique(r + d, capacity, if i >= r then 0 else 1, i);
  }

  /** The start addresses in the first `k` slots. */
  lemma {:induction false} FullPrefix(table: seq<TBlock?>, contents: map<Word, TBlock>, dist: map<Word, nat>,
                                      hash: Word -> Word, k: nat)
    returns (pcs: set<Word>)
    requires |table| > 0 && Reachable(table, contents, dist, hash)
    requires k <= |table| && forall i :: 0 <= i < k ==> table[i] != null
    ensures |pcs| == k && pcs <= contents.Keys
    ensures forall pc <- pcs :: pc in contents && Slot(hash(pc), dist[pc], |table|) < k
    decreases k
  {
    if k == 0 {
      pcs := {};
    } else {
      var before := FullPrefix(table, contents, dist, hash, k - 1);
      assert Accounted(table, contents, dist, hash, k - 1);
      pcs := before + {(table[k - 1] as TBlock).pcStart};
    }
  }

  lemma CardinalityAtMost(a: set<Word>, b: set<Word>)
    requires a <= b
    ensures |a| <= |b|
  {
    assert b == a + (b - a);
  }

  /** A table that holds fewer blocks than it has slots has an empty one. */
  lemma EmptySlot(table: seq<TBlock?>, contents: map<Word, TBlock>, dist: map<Word, nat>, hash: Word -> Word)
    returns (i: nat)
    requires |table| > 0 && Reachable(table, contents, dist, hash) && |contents| < |table|
    ensures i < |table| && table[i] == null
  {
    assert |contents.Keys| == |contents|;
    if forall j :: 0 <= j < |table| ==> table[j] != null {
      var pcs := FullPrefix(table, contents, dist, hash, |table|);
      CardinalityAtMost(pcs, contents.Keys);
    }
    i :| 0 <= i < |table| && table[i] == null;
  }

  /** Filling an empty slot that probing for a new address meets first. */
  lemma Filled(table: seq<TBlock?>, contents: map<Word, TBlock>, dist: map<Word, nat>, hash: Word -> Word,
               block: TBlock, d: nat)
    requires |table| > 0 && Reachable(table, contents, dist, hash) && block.pcStart !in contents && d < |table|
    requires table[Slot(hash(block.pcStart), d, |table|)] == null
    requires forall e: nat :: e < d ==> table[Slot(hash(block.pcStart), e, |table|)] != null
    ensures
      var pc := block.pcStart;
      Reachable(table[Slot(hash(pc), d, |table|) := block], contents[pc := block], dist[pc := d], hash)
  {
    var pc := block.pcStart;
    var p := Slot(hash(pc), d, |table|);
    var table', contents', dist' := table[p := block], contents[pc := block], dist[pc := d];
    forall a | a in contents' ensures Stored(table', contents', a, Slot(hash(a), dist'[a], |table|)) {
      if a != pc {
        assert Stored(table, contents, a, Slot(hash(a), dist[a], |table|));
      }
    }
    forall i | 0 <= i < |table| ensures Accounted(table', contents', dist', hash, i) {
      assert Accounted(table, contents, dist, hash, i);
    }
  }

  /** An empty slot on the way, or none: what probing for `addr` finds at distance `d`. */
  lemma Probed(table: seq<TBlock?>, contents: map<Word, TBlock>, dist: map<Word, nat>, hash: Word -> Word, addr: Word,
               d: nat)
    requires |table| > 0 && Reachable(table, contents, dist, hash)
    requires forall e: nat :: e < d ==>
      var b := table[Slot(hash(addr), e, |table|)]; b != null && (b as TBlock).pcStart != addr
    ensures
      var b := table[Slot(hash(addr), d, |table|)];
      && (b == null ==> addr !in contents)
      && (b != null && (b as TBlock).pcStart == addr ==> addr in contents && b == contents[addr])
  {
    assert Accounted(table, contents, dist, hash, Slot(hash(addr), d, |table|));
    if addr in contents {
      assert Stored(table, contents, addr, Slot(hash(addr), dist[addr], |table|));
      assert d <= dist[addr];
    }
  }

  // ----- the first-level cache as a value

  /** Position of an address in the first-level cache. */
  function L1Index(pc: Word, halfWords: bool): (i: nat)
    ensures i < L1_SIZE
  {
    (pc / if halfWords then 2 else 4) % L1_SIZE
  }

  /** Each aligned stretch of 256 instruction slots, of two bytes or of four, fills the cache once. */
  lemma L1Slots(pc: Word, halfWords: bool, q: nat, i: nat, r: nat)
    requires
      var unit := if halfWords then 2 else 4;
      i < 256 && r < unit && pc == (256 * q + i) * unit + r
    ensures L1Index(pc, halfWords) == i
  {
    DivUnique(pc, if halfWords then 2 else 4, 256 * q + i, r);
    DivUnique(256 * q + i, 256, q, i);
  }

  /** A position holds a stored block, or nothing; the invalid tag is no exception even if a
      block should start at that address. */
  ghost predicate L1At(tag: Word, ptr: TBlock?, i: nat, contents: map<Word, TBlock>, halfWords: bool) {
    || (tag in contents && ptr == contents[tag])
    || (tag == INVALID_TAG && ptr == null && (i == L1Index(INVALID_TAG, halfWords) ==> INVALID_TAG !in contents))
  }

  class Blocks {
    const capacity: nat
    const hash: Word -> Word
    const halfWords: bool
    const table: array<TBlock?>
    const tags: array<Word>
    const ptrs: array<TBlock?>
    var size: nat
    ghost var contents: map<Word, TBlock>
    ghost var dist: map<Word, nat>

    ghost predicate Shape() {
      && capacity > 0 && WORD % capacity == 0 && table.Length == capacity
      && tags.Length == L1_SIZE && ptrs.Length == L1_SIZE
      && table != ptrs && tags as object != table && tags as object != ptrs
    }

    /** At least one slot is empty, so that probing ends. */
    ghost predicate Valid()
      reads this, table, tags, ptrs
    {
      && Shape()
      && size == |contents| < capacity
      && Reachable(table[..], contents, dist, hash)
      && L1Valid(contents)
    }

    constructor (capacity: nat, hash: Word -> Word, halfWords: bool)
      requires capacity > 0 && WORD % capacity == 0
      ensures Valid() && contents == map[] && this.capacity == capacity
      ensures fresh(table) && fresh(tags) && fresh(ptrs)
    {
      this.capacity, this.hash, this.halfWords := capacity, hash, halfWords;
      table := new TBlock?[capacity](_ => null);
      tags := new Word[L1_SIZE](_ => INVALID_TAG);
      ptrs := new TBlock?[L1_SIZE](_ => null);
      size, contents, dist := 0, map[], map[];
    }

    ghost predicate L1Valid(m: map<Word, TBlock>)
      requires Shape()
      reads tags, ptrs
    {
      forall i :: 0 <= i < L1_SIZE ==> L1At(tags[i], ptrs[i], i, m, halfWords)
    }

    method L1Update(block: TBlock, ghost m: map<Word, TBlock>)
      requires Shape() && L1Valid(m) && block.pcStart !in m
      modifies tags, ptrs
      ensures L1Valid(m[block.pcStart := block])
    {
      var idx := L1Index(block.pcStart, halfWords);
      tags[idx] := block.pcStart;
      ptrs[idx] := block;
    }

    /** Stores a block for an address that has none. */
    method Insert(block: TBlock)
      requires Valid() && block.pcStart !in contents && size + 1 < capacity
      modifies this, table, tags, ptrs
      ensures Valid() && contents == old(contents)[block.pcStart := block]
    {
      PlaceInTable(block);
      L1Update(block, old(contents));
    }

    /** Probes for an empty slot and takes it. */
    method PlaceInTable(block: TBlock)
      requires Valid() && block.pcStart !in contents && size + 1 < capacity
      modifies this`size, this`contents, this`dist, table
      ensures contents == old(contents)[block.pcStart := block] && size == |contents| < capacity
      ensures Reachable(table[..], contents, dist, hash)
    {
      ghost var c := contents[block.pcStart := block];
      assert |c| == |contents| + 1;
      ghost var d := FillTable(block);
      size := size + 1;
      contents, dist := c, dist[block.pcStart := d];
    }

    method FillTable(block: TBlock) returns (ghost d: nat)
      requires Valid() && block.pcStart !in contents
      modifies table
      ensures Reachable(table[..], contents[block.pcStart := block], dist[block.pcStart := d], hash)
    {
      var index;
      index, d := ProbeEmpty(block.pcStart);
      Filled(table[..], contents, dist, hash, block, d);
      TakeSlot(index % capacity, block);
    }

    method TakeSlot(i: nat, block: TBlock)
      requires i < table.Length
      modifies table
      ensures table[..] == old(table[..])[i := block]
    {
      table[i] := block;
    }

    method ProbeEmpty(pc: Word) returns (index: Word, ghost d: nat)
      requires Valid()
      ensures d < capacity && index % capacity == Slot(hash(pc), d, capacity)
      ensures table[index % capacity] == null
      ensures forall e: nat :: e < d ==> table[..][Slot(hash(pc), e, capacity)] != null
    {
      index := hash(pc);
      ghost var empty := EmptySlot(table[..], contents, dist, hash);
      ghost var last := SlotReached(index, empty, capacity);
      d := 0;
      while table[index % capacity] != null
        invariant d <= last && index % capacity == Slot(hash(pc), d, capacity)
        invariant forall e: nat :: e < d ==> table[..][Slot(hash(pc), e, capacity)] != null
        decreases last - d
      {
        NextSlot(hash(pc), d, index, capacity);
        index := (index + 1) % WORD;
        d := d + 1;
      }
    }

    /** The block stored for an address. */
    method Find(addr: Word) returns (block: TBlock?)
      requires Valid()
      ensures block == if addr in contents then contents[addr] else null
    {
      var index: Word := hash(addr);
      ghost var empty := EmptySlot(table[..], contents, dist, hash);
      ghost var last := SlotReached(index, empty, capacity);
      ghost var d := 0;
      while true
        invariant d <= last && index % capacity == Slot(hash(addr), d, capacity)
        invariant forall e: nat :: e < d ==>
          var b := table[..][Slot(hash(addr), e, capacity)]; b != null && (b as TBlock).pcStart != addr
        decreases last - d
      {
        Probed(table[..], contents, dist, hash, addr, d);
        block := table[index % capacity];
        if block == null || block.pcStart == addr {
          return;
        }
        NextSlot(hash(addr), d, index, capacity);
        index := (index + 1) % WORD;
        d := d + 1;
      }
    }

    /** The same through the first-level cache, which it fills. */
    method LookupOrFind(pc: Word) returns (block: TBlock?)
      requires Valid()
      modifies tags, ptrs
      ensures Valid() && block == if pc in contents then contents[pc] else null
    {
      var idx := L1Index(pc, halfWords);
      assert L1At(tags[idx], ptrs[idx], idx, contents, halfWords);
      if tags[idx] == pc {
        return ptrs[idx];
      }
      block := Find(pc);
      if block != null {
        tags[idx] := pc;
        ptrs[idx] := block;
      }
    }

    /** Forgets all blocks, in the table and in the first-level cache. */
    method Clear()
      requires Valid()
      modifies this, table, tags, ptrs
      ensures Valid() && contents == map[]
    {
      for i := 0 to capacity
        invariant forall j :: 0 <= j < i ==> table[j] == null
      {
        table[i] := null;
      }
      size, contents, dist := 0, map[], map[];
      ClearL1();
    }

    method ClearL1()
      requires Shape()
      modifies tags, ptrs
      ensures L1Valid(map[])
    {
      for i := 0 to L1_SIZE
        invariant forall j :: 0 <= j < i ==> tags[j] == INVALID_TAG && ptrs[j] == null
      {
        tags[i] := INVALID_TAG;
        ptrs[i] := null;
      }
    }

    /** The block for `pc`: the stored one, or else `block`, stored after a clean-up if the map
        is too full.  The check keeps a slot empty for every capacity from 6 on. */
    method FindOrTranslate(pc: Word, block: TBlock) returns (result: TBlock)
      requires Valid() && block.pcStart == pc && capacity >= 6
      modifies this, table, tags, ptrs
      ensures Valid()
      ensures pc in old(contents) ==> result == old(contents)[pc] && contents == old(contents)
      ensures pc !in old(contents) ==>
        result == block
        && contents == (if 5 * |old(contents)| > 4 * capacity then map[] else old(contents))[pc := block]
    {
      var next := LookupOrFind(pc);
      if next != null {
        return next;
      }
      LoadCheckLeavesRoom(capacity);
      if 5 * size > 4 * capacity {
        Clear();
      }
      Insert(block);
      result := block;
    }
  }
}
