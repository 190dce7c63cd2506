/** The block cache of src/cache.c: a bounded list of live entries, a bounded list of evicted
    ones, hash chains that hold both, and an index of the cached blocks by page.

    Each intrusive list and chain is a sequence of entry objects; the entries' `alive` flag and
    use count are updated in place.  Freeing an entry is dropping it from the sequences. */
module Cache {
  import opened Common

  const PAGE: nat := 4096
  const PAGE_INDEX_SIZE: nat := 1024

  /** A translated block, as far as the cache looks into it; `pcEnd` is exclusive. */
  class JitBlock {
    const pcStart: Word
    const pcEnd: Word
    const satp: Word
    var invalidated: bool

    constructor (pcStart: Word, pcEnd: Word, satp: Word)
      ensures this.pcStart == pcStart && this.pcEnd == pcEnd && this.satp == satp && !invalidated
    {
      this.pcStart, this.pcEnd, this.satp, invalidated := pcStart, pcEnd, satp, false;
    }
  }

  class Entry {
    const key: Word
    const value: JitBlock
    var alive: bool
    var freq: Word

    constructor (key: Word, value: JitBlock, freq: Word)
      ensures this.key == key && this.value == value && this.freq == freq && alive
    {
      this.key, this.value, this.freq, alive := key, value, freq, true;
    }
  }

  // ----- the bounded map the cache is for

  datatype Rec = Rec(key: Word, value: JitBlock, freq: Word)

  /** Live and evicted entries, most recent first. */
  datatype Model = Model(live: seq<Rec>, ghosts: seq<Rec>)

  /** The first position of `k`, or the length. */
  ghost function IndexOf(s: seq<Rec>, k: Word): (i: nat)
    ensures i <= |s| && (i < |s| ==> s[i].key == k) && forall j :: 0 <= j < i ==> s[j].key != k
  {
    if s == [] || s[0].key == k then 0 else 1 + IndexOf(s[1..], k)
  }

  ghost function Without(s: seq<Rec>, i: nat): seq<Rec> {
    if i < |s| then s[..i] + s[i + 1..] else s
  }

  function Increment(w: Word): Word {
    (w + 1) % WORD
  }

  /** The entry that has to make room: the one with the same key, or the one put longest ago
      when all places are taken. */
  ghost function Victim(m: Model, cap: nat, key: Word): nat {
    var i := IndexOf(m.live, key);
    if i == |m.live| == cap && cap > 0 then cap - 1 else i
  }

  ghost function Evict(m: Model, i: nat): Model {
    if i < |m.live| then Model(Without(m.live, i), [m.live[i]] + m.ghosts) else m
  }

  /** The use count of a new entry continues that of its latest evicted namesake. */
  ghost function Inherited(m: Model, key: Word): Word {
    var i := IndexOf(m.ghosts, key);
    if IndexOf(m.live, key) < |m.live| || i == |m.ghosts| then 1 else Increment(m.ghosts[i].freq)
  }

  ghost function Forget(m: Model, key: Word): Model {
    m.(ghosts := Without(m.ghosts, IndexOf(m.ghosts, key)))
  }

  ghost function Trim(m: Model, cap: nat): Model {
    if |m.ghosts| > cap then m.(ghosts := m.ghosts[..|m.ghosts| - 1]) else m
  }

  ghost function PutModel(m: Model, cap: nat, key: Word, value: JitBlock): Model {
    var m1 := Evict(m, Victim(m, cap, key));
    var m2 := if IndexOf(m.live, key) < |m.live| then m1 else Forget(m1, key);
    Trim(m2.(live := [Rec(key, value, Inherited(m, key))] + m2.live), cap)
  }

  ghost function ReplacedBy(m: Model, cap: nat, key: Word): Option<JitBlock> {
    var i := Victim(m, cap, key);
    if i < |m.live| then Some(m.live[i].value) else None
  }

  ghost function Find(s: seq<Rec>, k: Word): Option<Rec> {
    var i := IndexOf(s, k);
    if i < |s| then Some(s[i]) else None
  }

  ghost predicate DistinctKeys(s: seq<Rec>) {
    forall i, j :: 0 <= i < j < |s| ==> s[i].key != s[j].key
  }

  /** At most one live entry a key, and no list over capacity. */
  ghost predicate Bounded(m: Model, cap: nat) {
    |m.live| <= cap && |m.ghosts| <= cap && DistinctKeys(m.live)
  }

  lemma IndexIs(s: seq<Rec>, k: Word, i: nat)
    requires i <= |s| && (i < |s| ==> s[i].key == k) && forall j :: 0 <= j < i ==> s[j].key != k
    ensures IndexOf(s, k) == i
  {
  }

  lemma FindWithout(s: seq<Rec>, i: nat, k: Word)
    requires DistinctKeys(s)
    ensures DistinctKeys(Without(s, i))
    ensures Find(Without(s, i), k) == if i < |s| && k == s[i].key then None else Find(s, k)
  {
    var t, j := Without(s, i), IndexOf(s, k);
    if i < |s| {
      IndexIs(t, k, if j == i then |t| else if j < i then j else j - 1);
    }
  }

  lemma FindFirst(r: Rec, s: seq<Rec>, k: Word)
    ensures Find([r] + s, k) == if r.key == k then Some(r) else Find(s, k)
  {
    assert ([r] + s)[1..] == s;
  }

  lemma FindNone(s: seq<Rec>, k: Word)
    requires Find(s, k).None?
    ensures forall i :: 0 <= i < |s| ==> s[i].key != k
  {
  }

  lemma VictimIs(m: Model, cap: nat, key: Word)
    requires Bounded(m, cap) && cap > 0
    ensures
      var victim := Victim(m, cap, key);
      && (victim < |m.live| <==> Find(m.live, key).Some? || |m.live| == cap)
      && (Find(m.live, key).None? && |m.live| == cap ==> victim == |m.live| - 1)
      && Find(Without(m.live, victim), key).None?
      && |Without(m.live, victim)| < cap
  {
    FindWithout(m.live, Victim(m, cap, key), key);
  }

  lemma PutLists(m: Model, cap: nat, key: Word, value: JitBlock)
    requires Bounded(m, cap) && cap > 0
    ensures
      var m', victim := PutModel(m, cap, key, value), Victim(m, cap, key);
      m'.live == [Rec(key, value, Inherited(m, key))] + Without(m.live, victim) && |m'.ghosts| <= cap
  {
  }

  /** What putting does to a bounded map: the key is bound to the new value, the victim is
      forgotten, every other binding stays, in the same order.  A victim exists exactly if the
      key was bound or the cache full; in the latter case it is the entry put longest ago. */
  lemma PutIsBounded(m: Model, cap: nat, key: Word, value: JitBlock, k: Word)
    requires Bounded(m, cap) && cap > 0
    ensures
      var m', victim := PutModel(m, cap, key, value), Victim(m, cap, key);
      && Bounded(m', cap)
      && (victim < |m.live| <==> Find(m.live, key).Some? || |m.live| == cap)
      && (Find(m.live, key).None? && |m.live| == cap ==> victim == |m.live| - 1)
      && m'.live[1..] == Without(m.live, victim)
      && Find(m'.live, k) ==
         if k == key then Some(Rec(key, value, Inherited(m, key)))
         else if victim < |m.live| && k == m.live[victim].key then None
         else Find(m.live, k)
  {
    var victim := Victim(m, cap, key);
    var r, rest := Rec(key, value, Inherited(m, key)), Without(m.live, victim);
    VictimIs(m, cap, key);
    PutLists(m, cap, key, value);
    FindWithout(m.live, victim, k);
    FindFirst(r, rest, k);
    FindNone(rest, key);
  }

  /** A use of a live entry. */
  ghost function UseModel(m: Model, key: Word): Model {
    var i := IndexOf(m.live, key);
    if i < |m.live| then m.(live := m.live[i := m.live[i].(freq := Increment(m.live[i].freq))]) else m
  }

  lemma FindUpdated(s: seq<Rec>, i: nat, r: Rec, k: Word)
    requires DistinctKeys(s) && i < |s| && r.key == s[i].key
    ensures Find(s[i := r], k) == if k == r.key then Some(r) else Find(s, k)
  {
    IndexIs(s[i := r], k, if k == r.key then i else IndexOf(s, k));
    if k == r.key {
      IndexIs(s, k, i);
    }
  }

  /** A use adds one to the count of its key, and changes nothing else. */
  lemma UseCounts(m: Model, key: Word, k: Word)
    requires DistinctKeys(m.live)
    ensures UseModel(m, key).ghosts == m.ghosts
    ensures
      Find(UseModel(m, key).live, k) ==
        match Find(m.live, k)
        case None => None
        case Some(r) => if k == key then Some(Rec(k, r.value, (r.freq + 1) % 0x1_0000_0000)) else Some(r)
  {
    var i := IndexOf(m.live, key);
    if i < |m.live| {
      FindUpdated(m.live, i, m.live[i].(freq := Increment(m.live[i].freq)), k);
    }
  }

  datatype Op = PutOp(key: Word, value: JitBlock) | UseOp(key: Word)

  /** The model after a run of operations on an empty cache. */
  ghost function Replay(ops: seq<Op>, cap: nat): Model {
    if ops == [] then Model([], [])
    else
      var m, op := Replay(ops[..|ops| - 1], cap), ops[|ops| - 1];
      match op
      case PutOp(key, value) => PutModel(m, cap, key, value)
      case UseOp(key) => UseModel(m, key)
  }

  /** When `k` was put last, or -1. */
  ghost function LastPut(ops: seq<Op>, k: Word): (t: int)
    ensures -1 <= t < |ops|
  {
    if ops == [] then -1
    else if ops[|ops| - 1].PutOp? && ops[|ops| - 1].key == k then |ops| - 1
    else LastPut(ops[..|ops| - 1], k)
  }

  /** The keys of `s` were put, and the later ones of the list longer ago. */
  ghost predicate ByRecency(ops: seq<Op>, s: seq<Rec>) {
    && (forall i :: 0 <= i < |s| ==> LastPut(ops, s[i].key) >= 0)
    && (forall i, j :: 0 <= i < j < |s| ==> LastPut(ops, s[i].key) > LastPut(ops, s[j].key))
  }

  /** In every run the live entries stand in the order they were put, so the one at the end,
      which is evicted from a full cache, was put longest ago. */
  lemma {:induction false} ReplayRecency(ops: seq<Op>, cap: nat)
    requires cap > 0
    ensures Bounded(Replay(ops, cap), cap) && ByRecency(ops, Replay(ops, cap).live)
    decreases |ops|
  {
    if ops != [] {
      var before, op := ops[..|ops| - 1], ops[|ops| - 1];
      var m := Replay(before, cap);
      ReplayRecency(before, cap);
      assert before + [op] == ops;
      if op.PutOp? {
        PutStep(before, m, cap, op);
      } else {
        UseRecency(ops, m, op.key);
      }
    }
  }

  lemma PutStep(ops: seq<Op>, m: Model, cap: nat, op: Op)
    requires cap > 0 && op.PutOp? && Bounded(m, cap) && ByRecency(ops, m.live)
    ensures
      var m' := PutModel(m, cap, op.key, op.value);
      Bounded(m', cap) && ByRecency(ops + [op], m'.live)
  {
    PutIsBounded(m, cap, op.key, op.value, op.key);
    PutRecency(ops, m.live, op, Victim(m, cap, op.key), PutModel(m, cap, op.key, op.value).live);
  }

  lemma PutRecency(ops: seq<Op>, s: seq<Rec>, op: Op, i: nat, t: seq<Rec>)
    requires ByRecency(ops, s) && op.PutOp? && |t| > 0 && t[0].key == op.key && t[1..] == Without(s, i)
    requires forall j :: 1 <= j < |t| ==> t[j].key != op.key
    ensures ByRecency(ops + [op], t)
  {
    assert (ops + [op])[..|ops|] == ops;
    forall j | 1 <= j < |t|
      ensures t[j] == Without(s, i)[j - 1] && LastPut(ops + [op], t[j].key) == LastPut(ops, t[j].key)
    {
      assert t[j] == t[1..][j - 1];
    }
  }

  lemma UseRecency(ops: seq<Op>, m: Model, key: Word)
    requires ops != [] && ops[|ops| - 1].UseOp? && ByRecency(ops[..|ops| - 1], m.live)
    ensures ByRecency(ops, UseModel(m, key).live)
    ensures DistinctKeys(m.live) ==> DistinctKeys(UseModel(m, key).live)
  {
    assert forall i :: 0 <= i < |m.live| ==> UseModel(m, key).live[i].key == m.live[i].key;
  }

  // ----- lists and chains of entries

  /** The entries for key `k`, in order. */
  ghost function Keyed(s: seq<Entry>, k: Word): seq<Entry> {
    if s == [] then [] else (if s[0].key == k then [s[0]] else []) + Keyed(s[1..], k)
  }

  /** `s` without the first occurrence of `e`, which is what unlinking a node does. */
  function Unlinked(s: seq<Entry>, e: Entry): seq<Entry> {
    if s == [] then [] else if s[0] == e then s[1..] else [s[0]] + Unlinked(s[1..], e)
  }

  lemma {:induction false} UnlinkedWithin(s: seq<Entry>, e: Entry)
    ensures forall x <- Unlinked(s, e) :: x in s
    ensures |Unlinked(s, e)| == if e in s then |s| - 1 else |s|
    decreases |s|
  {
    if s != [] {
      var t := s[1..];
      assert s == [s[0]] + t;
      if s[0] != e {
        UnlinkedWithin(t, e);
      }
      forall x <- Unlinked(s, e) ensures x in s {
        assert x == s[0] || x in t;
      }
    }
  }

  lemma KeyedCons(e: Entry, s: seq<Entry>, k: Word)
    ensures Keyed([e] + s, k) == (if e.key == k then [e] else []) + Keyed(s, k)
  {
    assert ([e] + s)[1..] == s;
  }

  lemma {:induction false} KeyedUnlinked(s: seq<Entry>, e: Entry, k: Word)
    ensures Keyed(Unlinked(s, e), k) == if e.key == k then Unlinked(Keyed(s, k), e) else Keyed(s, k)
    decreases |s|
  {
    if s != [] {
      var rest := Keyed(s[1..], k);
      assert ([s[0]] + rest)[1..] == rest && [] + rest == rest;
      if s[0] != e {
        KeyedUnlinked(s[1..], e, k);
        KeyedCons(s[0], Unlinked(s[1..], e), k);
      }
    }
  }

  lemma {:induction false} KeyedMember(s: seq<Entry>, e: Entry, k: Word)
    ensures e in Keyed(s, k) <==> e in s && e.key == k
    decreases |s|
  {
    if s != [] {
      KeyedMember(s[1..], e, k);
    }
  }

  lemma {:induction false} UnlinkedAt(s: seq<Entry>, e: Entry, i: nat)
    requires i < |s| && s[i] == e && forall j :: 0 <= j < i ==> s[j] != e
    ensures Unlinked(s, e) == s[..i] + s[i + 1..]
    decreases i
  {
    if i > 0 {
      UnlinkedAt(s[1..], e, i - 1);
    }
  }

  /** The first entry for `k` in `s`. */
  lemma {:induction false} KeyedFirst(s: seq<Entry>, k: Word, i: nat)
    requires i <= |s| && (i < |s| ==> s[i].key == k) && forall j :: 0 <= j < i ==> s[j].key != k
    ensures if i < |s| then Keyed(s, k) != [] && Keyed(s, k)[0] == s[i] else Keyed(s, k) == []
    decreases i
  {
    if i > 0 {
      KeyedFirst(s[1..], k, i - 1);
    }
  }

  ghost predicate Distinct(s: seq<Entry>) {
    s == [] || (s[0] !in s[1..] && Distinct(s[1..]))
  }

  lemma {:induction false} UnlinkedDistinct(s: seq<Entry>, i: nat)
    requires Distinct(s) && i < |s|
    ensures Unlinked(s, s[i]) == s[..i] + s[i + 1..] && Distinct(Unlinked(s, s[i])) && s[i] !in Unlinked(s, s[i])
    decreases i
  {
    if i > 0 {
      var t := s[1..];
      UnlinkedDistinct(t, i - 1);
      UnlinkedWithin(t, t[i - 1]);
      assert Unlinked(s, s[i])[1..] == Unlinked(t, t[i - 1]);
    }
  }

  ghost function Recs(s: seq<Entry>): (r: seq<Rec>)
    reads s`freq
    ensures |r| == |s| && forall i :: 0 <= i < |s| ==> r[i] == Rec(s[i].key, s[i].value, s[i].freq)
  {
    if s == [] then [] else [Rec(s[0].key, s[0].value, s[0].freq)] + Recs(s[1..])
  }

  /** Every key has its entries in one chain: at most one live entry, first, and then the
      evicted ones, the latest first. */
  ghost predicate Chained(chains: seq<seq<Entry>>, list: seq<Entry>, ghosts: seq<Entry>, hash: Word -> nat) {
    forall k: Word :: ChainedAt(chains, list, ghosts, hash, k)
  }

  ghost predicate ChainedAt(chains: seq<seq<Entry>>, list: seq<Entry>, ghosts: seq<Entry>, hash: Word -> nat, k: Word)
  {
    hash(k) < |chains| && Keyed(chains[hash(k)], k) == Keyed(list, k) + Keyed(ghosts, k) && |Keyed(list, k)| <= 1
  }

  lemma EvictOnly(list: seq<Entry>, e: Entry)
    requires e in list && |Keyed(list, e.key)| <= 1
    ensures Keyed(list, e.key) == [e] && Keyed(Unlinked(list, e), e.key) == []
  {
    KeyedMember(list, e, e.key);
    KeyedUnlinked(list, e, e.key);
  }

  lemma EvictChainedAt(chains: seq<seq<Entry>>, list: seq<Entry>, ghosts: seq<Entry>, hash: Word -> nat, e: Entry,
                       k: Word)
    requires ChainedAt(chains, list, ghosts, hash, k) && e in list
    ensures ChainedAt(chains, Unlinked(list, e), [e] + ghosts, hash, k)
  {
    KeyedCons(e, ghosts, k);
    var before, after := Keyed(ghosts, k), Keyed([e] + ghosts, k);
    if k == e.key {
      EvictOnly(list, e);
      assert after == [e] + before && [] + after == after;
    } else {
      KeyedUnlinked(list, e, k);
      assert after == before by {
        assert [] + before == before;
      }
    }
  }

  /** Evicting a live entry: its chain stays as it is. */
  lemma EvictChained(chains: seq<seq<Entry>>, list: seq<Entry>, ghosts: seq<Entry>, hash: Word -> nat, e: Entry)
    requires Chained(chains, list, ghosts, hash) && e in list
    ensures Chained(chains, Unlinked(list, e), [e] + ghosts, hash)
    ensures Keyed(Unlinked(list, e), e.key) == []
  {
    forall k: Word ensures ChainedAt(chains, Unlinked(list, e), [e] + ghosts, hash, k) {
      EvictChainedAt(chains, list, ghosts, hash, e, k);
    }
    assert ChainedAt(chains, list, ghosts, hash, e.key);
    EvictOnly(list, e);
  }

  /** Dropping an evicted entry from its list and its chain. */
  lemma DropChained(chains: seq<seq<Entry>>, list: seq<Entry>, ghosts: seq<Entry>, hash: Word -> nat, e: Entry)
    requires Chained(chains, list, ghosts, hash) && e in ghosts && e !in list
    ensures
      var h := hash(e.key);
      h < |chains| && Chained(chains[h := Unlinked(chains[h], e)], list, Unlinked(ghosts, e), hash)
  {
    assert ChainedAt(chains, list, ghosts, hash, e.key);
    var h := hash(e.key);
    var chains' := chains[h := Unlinked(chains[h], e)];
    forall k: Word ensures ChainedAt(chains', list, Unlinked(ghosts, e), hash, k) {
      assert ChainedAt(chains, list, ghosts, hash, k);
      KeyedUnlinked(chains[h], e, k);
      KeyedUnlinked(ghosts, e, k);
      KeyedMember(list, e, k);
      if k == e.key {
        UnlinkedConcat(Keyed(list, k), Keyed(ghosts, k), e);
      }
    }
  }

  lemma {:induction false} UnlinkedConcat(s: seq<Entry>, t: seq<Entry>, e: Entry)
    requires e !in s
    ensures Unlinked(s + t, e) == s + Unlinked(t, e)
    decreases |s|
  {
    if s == [] {
      assert s + t == t;
    } else {
      assert (s + t)[1..] == s[1..] + t;
      UnlinkedConcat(s[1..], t, e);
    }
  }

  lemma InsertChainedAt(chains: seq<seq<Entry>>, list: seq<Entry>, ghosts: seq<Entry>, hash: Word -> nat, e: Entry,
                        k: Word)
    requires ChainedAt(chains, list, ghosts, hash, k) && hash(e.key) < |chains| && Keyed(list, e.key) == []
    ensures var h := hash(e.key); ChainedAt(chains[h := [e] + chains[h]], [e] + list, ghosts, hash, k)
  {
    KeyedCons(e, list, k);
    if hash(k) == hash(e.key) {
      KeyedCons(e, chains[hash(e.key)], k);
    }
  }

  /** Adding a live entry for a key that has none. */
  lemma InsertChained(chains: seq<seq<Entry>>, list: seq<Entry>, ghosts: seq<Entry>, hash: Word -> nat, e: Entry)
    requires Chained(chains, list, ghosts, hash) && Keyed(list, e.key) == []
    ensures
      var h := hash(e.key);
      h < |chains| && Chained(chains[h := [e] + chains[h]], [e] + list, ghosts, hash)
  {
    assert ChainedAt(chains, list, ghosts, hash, e.key);
    var h := hash(e.key);
    var chains' := chains[h := [e] + chains[h]];
    forall k: Word ensures ChainedAt(chains', [e] + list, ghosts, hash, k) {
      InsertChainedAt(chains, list, ghosts, hash, e, k);
    }
  }

  /** The shape of the lists and chains; live entries are the ones in `list`. */
  ghost predicate LinkedLists(chains: seq<seq<Entry>>, list: seq<Entry>, ghosts: seq<Entry>, hash: Word -> nat)
    reads list, ghosts
  {
    && Chained(chains, list, ghosts, hash)
    && (forall e <- list :: e.alive)
    && (forall e <- ghosts :: !e.alive)
    && Distinct(list)
    && Distinct(ghosts)
  }

  /** What the lists and chains are before the evicted entry is marked. */
  lemma EvictReady(chains: seq<seq<Entry>>, list: seq<Entry>, ghosts: seq<Entry>, hash: Word -> nat, e: Entry, i: nat)
    requires LinkedLists(chains, list, ghosts, hash) && i < |list| && list[i] == e
    ensures
      var rest := Unlinked(list, e);
      && Chained(chains, rest, [e] + ghosts, hash) && Keyed(rest, e.key) == []
      && Distinct(rest) && Distinct([e] + ghosts) && e !in rest && |rest| == |list| - 1 && (forall x <- rest :: x.alive)
      && Model(Recs(rest), Recs([e] + ghosts)) == Evict(Model(Recs(list), Recs(ghosts)), i)
  {
    EvictChained(chains, list, ghosts, hash, e);
    Rest(list, i);
  }

  /** Marks an evicted entry; `rest` are the other live ones. */
  method Kill(replaced: Entry, ghost rest: seq<Entry>, ghost ghosts: seq<Entry>, ghost chains: seq<seq<Entry>>,
              ghost hash: Word -> nat, ghost m: Model)
    requires Chained(chains, rest, [replaced] + ghosts, hash) && Distinct(rest) && Distinct([replaced] + ghosts)
    requires replaced !in rest && (forall e <- rest :: e.alive) && (forall e <- ghosts :: !e.alive)
    requires Model(Recs(rest), Recs([replaced] + ghosts)) == m
    modifies replaced`alive
    ensures LinkedLists(chains, rest, [replaced] + ghosts, hash)
    ensures Model(Recs(rest), Recs([replaced] + ghosts)) == m
  {
    replaced.alive := false;
  }

  /** Counts one use of an entry that stands once in `list` and not in `ghosts`. */
  method Bump(entry: Entry, ghost list: seq<Entry>, ghost ghosts: seq<Entry>, ghost i: nat)
    requires i < |list| && list[i] == entry && entry !in ghosts
      && forall j :: 0 <= j < |list| && j != i ==> list[j] != entry
    modifies entry`freq
    ensures Recs(list) == old(Recs(list))[i := old(Recs(list))[i].(freq := Increment(old(entry.freq)))]
    ensures Recs(ghosts) == old(Recs(ghosts))
  {
    entry.freq := Increment(entry.freq);
  }

  // ----- the cache

  class BlockCache {
    const capacity: nat
    const hash: Word -> nat
    const pageHash: Word -> nat
    var list: seq<Entry>
    var ghostList: seq<Entry>
    var chains: seq<seq<Entry>>
    var size: nat
    var ghostListSize: nat
    var pageIndex: seq<seq<JitBlock>>
    var pageIndexIncomplete: bool

    /** What holds between the steps of an insertion, too. */
    ghost predicate Linked()
      reads this, list, ghostList
    {
      size == |list| && ghostListSize == |ghostList| && LinkedLists(chains, list, ghostList, hash)
    }

    /** Both lists hold at most `capacity` entries. */
    ghost predicate Valid()
      reads this, list, ghostList
    {
      Linked() && 0 < capacity && size <= capacity && ghostListSize <= capacity && Indexed(list)
    }

    ghost function Contents(): Model
      reads this, list, ghostList
    {
      Model(Recs(list), Recs(ghostList))
    }

    /** A cache of 2^size_bits entries. */
    constructor (capacity: nat, hash: Word -> nat, pageHash: Word -> nat)
      requires capacity > 0 && forall k: Word :: hash(k) < capacity
      requires forall p: Word :: pageHash(p) < 1024
      ensures Valid() && Contents() == Model([], []) && this.capacity == capacity
    {
      this.capacity, this.hash, this.pageHash := capacity, hash, pageHash;
      list, ghostList, size, ghostListSize := [], [], 0, 0;
      chains := seq(capacity, _ => []);
      pageIndex, pageIndexIncomplete := seq(PAGE_INDEX_SIZE, _ => []), false;
      new;
      forall k: Word ensures ChainedAt(chains, list, ghostList, hash, k) {
        assert chains[hash(k)] == [];
      }
      assert forall k :: 0 <= k < PAGE_INDEX_SIZE ==> BucketHolds(pageIndex, list, pageHash, k);
    }

    /** Walks a chain to the first entry for `key`. */
    method Walk(key: Word) returns (entry: Entry?)
      requires Linked()
      ensures entry == null <==> Keyed(list, key) + Keyed(ghostList, key) == []
      ensures entry != null ==> entry == (Keyed(list, key) + Keyed(ghostList, key))[0]
    {
      assert ChainedAt(chains, list, ghostList, hash, key);
      var chain, i := chains[hash(key)], 0;
      while i < |chain|
        invariant i <= |chain| && forall j :: 0 <= j < i ==> chain[j].key != key
      {
        if chain[i].key == key {
          KeyedFirst(chain, key, i);
          return chain[i];
        }
        i := i + 1;
      }
      KeyedFirst(chain, key, i);
      entry := null;
    }

    /** The block cached for `key`; a hit counts as a use if `update` is set. */
    method Get(key: Word, update: bool) returns (value: Option<JitBlock>)
      requires Valid()
      modifies list
      ensures Valid() && list == old(list) && ghostList == old(ghostList)
      ensures value == match Find(old(Contents()).live, key) case Some(r) => Some(r.value) case None => None
      ensures Contents() == if update then UseModel(old(Contents()), key) else old(Contents())
    {
      var entry := Hit(key);
      if entry == null {
        return None;
      }
      value := Some(entry.value);
      if update {
        CountUse(entry, key);
      }
    }

    /** The live entry for `key`, if the first of its chain with that key is one. */
    method Hit(key: Word) returns (entry: Entry?)
      requires Valid()
      ensures match Find(Contents().live, key)
              case Some(r) => entry != null && HasIndex(entry, key) && entry.value == r.value
              case None => entry == null && UseModel(Contents(), key) == Contents()
    {
      entry := Walk(key);
      assert ChainedAt(chains, list, ghostList, hash, key);
      WalkFinds(list, ghostList, key, entry);
      if entry == null || entry.key != key || !entry.alive {
        return null;
      }
    }

    ghost predicate HasIndex(entry: Entry, key: Word)
      reads this, list
    {
      var i := IndexOf(Recs(list), key);
      i < |list| && list[i] == entry
    }

    method CountUse(entry: Entry, ghost key: Word)
      requires Valid() && HasIndex(entry, key)
      modifies entry`freq
      ensures Valid() && Contents() == UseModel(old(Contents()), key)
    {
      assert ChainedAt(chains, list, ghostList, hash, key);
      LiveKeysDistinct(list, key);
      assert forall e <- list + ghostList :: e as object != this;
      Bump(entry, list, ghostList, IndexOf(Recs(list), key));
    }

    /** The use count of the live entry for `key`, or 0. */
    method Freq(key: Word) returns (freq: Word)
      requires Valid()
      ensures freq == match Find(Contents().live, key) case Some(r) => r.freq case None => 0
    {
      assert ChainedAt(chains, list, ghostList, hash, key);
      var chain, i := chains[hash(key)], 0;
      while i < |chain|
        invariant i <= |chain| && forall j :: 0 <= j < i ==> !(chain[j].key == key && chain[j].alive)
      {
        if chain[i].key == key && chain[i].alive {
          LiveFinds(list, ghostList, chain, key, chain[i]);
          return chain[i].freq;
        }
        i := i + 1;
      }
      NoneFinds(list, ghostList, chain, key);
      freq := 0;
    }

    /** Moves a live entry to the list of evicted ones. */
    method EvictEntry(replaced: Entry, ghost i: nat)
      requires Linked() && i < |list| && list[i] == replaced
      modifies this`chains, this`list, this`ghostList, this`size, this`ghostListSize, replaced`alive
      ensures Linked() && Keyed(list, replaced.key) == []
      ensures list == Unlinked(old(list), replaced) && ghostList == [replaced] + old(ghostList)
      ensures Contents() == Evict(old(Contents()), i) && size == old(size) - 1
    {
      ghost var m := Evict(Contents(), i);
      EvictReady(chains, list, ghostList, hash, replaced, i);
      Kill(replaced, Unlinked(list, replaced), ghostList, chains, hash, m);
      Relist(chains, Unlinked(list, replaced), [replaced] + ghostList, size - 1, ghostListSize + 1, m);
    }

    /** Drops an evicted entry for good. */
    method DropGhost(entry: Entry, ghost i: nat)
      requires Linked() && i < |ghostList| && ghostList[i] == entry
      modifies this`chains, this`list, this`ghostList, this`size, this`ghostListSize
      ensures Linked() && list == old(list) && size == old(size)
      ensures Contents() == old(Contents()).(ghosts := Without(old(Contents()).ghosts, i))
    {
      ghost var m := Contents().(ghosts := Without(Contents().ghosts, i));
      assert ChainedAt(chains, list, ghostList, hash, entry.key);
      DropChained(chains, list, ghostList, hash, entry);
      Rest(ghostList, i);
      Relist(chains[hash(entry.key) := Unlinked(chains[hash(entry.key)], entry)], list, Unlinked(ghostList, entry),
             size, ghostListSize - 1, m);
    }

    /** Stores the relinked lists. */
    method Relist(c: seq<seq<Entry>>, l: seq<Entry>, g: seq<Entry>, n: nat, k: nat, ghost m: Model)
      requires LinkedLists(c, l, g, hash) && |l| == n && |g| == k && Model(Recs(l), Recs(g)) == m
      modifies this`chains, this`list, this`ghostList, this`size, this`ghostListSize
      ensures Linked() && Contents() == m
      ensures chains == c && list == l && ghostList == g
    {
      assert forall e <- l :: e as object != this;
      assert forall e <- g :: e as object != this;
      chains, list, ghostList, size, ghostListSize := c, l, g, n, k;
    }

    /** Links a new live entry for a key that has none. */
    method InsertEntry(entry: Entry)
      requires Linked() && Keyed(list, entry.key) == [] && entry.alive && entry !in list
      modifies this`chains, this`list, this`size
      ensures Linked() && list == [entry] + old(list)
      ensures Contents() == old(Contents()).(live := [Rec(entry.key, entry.value, entry.freq)] + old(Contents()).live)
      ensures size == old(size) + 1
    {
      assert ChainedAt(chains, list, ghostList, hash, entry.key);
      InsertChained(chains, list, ghostList, hash, entry);
      list := [entry] + list;
      chains := chains[hash(entry.key) := [entry] + chains[hash(entry.key)]];
      size := size + 1;
    }

    /** Drops the oldest evicted entry when there are too many. */
    method GhostListUpdate()
      requires Linked()
      modifies this`chains, this`list, this`ghostList, this`size, this`ghostListSize
      ensures Linked() && list == old(list) && Contents() == Trim(old(Contents()), capacity)
    {
      if ghostListSize <= capacity {
        return;
      }
      var entry := ghostList[|ghostList| - 1];
      DropGhost(entry, |ghostList| - 1);
    }

    ghost predicate Hashed()
      reads this`pageIndex
    {
      |pageIndex| == PAGE_INDEX_SIZE && forall p: Word :: pageHash(p) < PAGE_INDEX_SIZE
    }

    /** The page index is in step with the live list `s`, unless it is marked incomplete. */
    ghost predicate Indexed(s: seq<Entry>)
      reads this`pageIndex, this`pageIndexIncomplete
    {
      Hashed() && (pageIndexIncomplete || IndexedBy(pageIndex, s, pageHash))
    }

    /** Links a block in front of its bucket; `ok` says whether a link could be allocated. */
    method PageIndexInsert(block: JitBlock, ok: bool, ghost e: Entry, ghost s: seq<Entry>)
      requires Indexed(s) && e.value == block
      modifies this`pageIndex, this`pageIndexIncomplete
      ensures Indexed([e] + s) && pageIndexIncomplete == (old(pageIndexIncomplete) || !ok)
    {
      var bucket := pageHash(PageOf(block.pcStart));
      if !ok {
        pageIndexIncomplete := true;
        return;
      }
      pageIndex := pageIndex[bucket := [block] + pageIndex[bucket]];
      if !pageIndexIncomplete {
        IndexInserted(old(pageIndex), s, pageHash, e);
      }
    }

    /** Unlinks a block from its bucket, if it is there. */
    method PageIndexRemove(block: JitBlock, ghost e: Entry, ghost s: seq<Entry>)
      requires Indexed(s) && e in s && e.value == block
      modifies this`pageIndex
      ensures Indexed(Unlinked(s, e))
    {
      var bucket := pageHash(PageOf(block.pcStart));
      var chain, i := pageIndex[bucket], 0;
      while i < |chain| && chain[i] != block
        invariant i <= |chain| && forall j :: 0 <= j < i ==> chain[j] != block
      {
        i := i + 1;
      }
      DroppedAt(chain, block, i);
      if i < |chain| {
        pageIndex := pageIndex[bucket := chain[..i] + chain[i + 1..]];
      }
      assert pageIndex == old(pageIndex)[bucket := Dropped(chain, block)];
      if !pageIndexIncomplete {
        IndexRemoved(old(pageIndex), s, pageHash, e);
      }
    }

    /** The live entry for `key`, or the one put longest ago if the cache is full. */
    method PickVictim(key: Word, same: Entry?) returns (replaced: Entry?)
      requires Valid() && (same == null <==> Keyed(list, key) == []) && (same != null ==> same == Keyed(list, key)[0])
      ensures
        var i := Victim(Contents(), capacity, key);
        if i < |list| then replaced == list[i] else replaced == null && size < capacity
      ensures same != null ==> replaced == same && same.key == key
    {
      ghost var i := IndexOf(Recs(list), key);
      KeyedFirst(list, key, i);
      replaced := same;
      if replaced == null && size == capacity {
        replaced := list[|list| - 1];
      }
    }

    /** Evicts the victim, if there is one. */
    method MakeRoom(key: Word, same: Entry?, ghost i: nat, ghost m: Model) returns (value: Option<JitBlock>)
      requires Valid() && (same == null <==> Keyed(list, key) == []) && (same != null ==> same == Keyed(list, key)[0])
      requires i == Victim(Contents(), capacity, key) && m == Evict(Contents(), i)
      modifies this`chains, this`list, this`ghostList, this`size, this`ghostListSize, this`pageIndex, list`alive
      ensures Linked() && Indexed(list) && size < capacity && ghostListSize <= capacity + 1 && Keyed(list, key) == []
      ensures Contents() == m
      ensures value == if i < |old(Contents()).live| then Some(old(Contents()).live[i].value) else None
      ensures same == null ==> Keyed(ghostList, key) == Keyed(old(ghostList), key)
    {
      var replaced := PickVictim(key, same);
      if replaced == null {
        return None;
      }
      value := Some(replaced.value);
      EvictIndexed(key, replaced, i, same == null);
    }

    method EvictIndexed(key: Word, replaced: Entry, ghost i: nat, ghost other: bool)
      requires Linked() && Indexed(list) && i < |list| && list[i] == replaced && (other ==> Keyed(list, key) == [])
      requires other || replaced.key == key
      modifies this`chains, this`list, this`ghostList, this`size, this`ghostListSize, this`pageIndex, replaced`alive
      ensures Linked() && Indexed(list) && Keyed(list, key) == []
      ensures size == old(size) - 1 && ghostListSize == old(ghostListSize) + 1
      ensures Contents() == Evict(old(Contents()), i)
      ensures other ==> Keyed(ghostList, key) == Keyed(old(ghostList), key)
    {
      PageIndexRemove(replaced.value, replaced, list);
      EvictPicked(key, replaced, i, other);
    }

    method EvictPicked(key: Word, replaced: Entry, ghost i: nat, ghost other: bool)
      requires Linked() && i < |list| && list[i] == replaced && (other ==> Keyed(list, key) == [])
      requires other || replaced.key == key
      modifies this`chains, this`list, this`ghostList, this`size, this`ghostListSize, replaced`alive
      ensures Linked() && Keyed(list, key) == [] && list == Unlinked(old(list), replaced)
      ensures size == old(size) - 1 && ghostListSize == old(ghostListSize) + 1
      ensures Contents() == Evict(old(Contents()), i)
      ensures other ==> Keyed(ghostList, key) == Keyed(old(ghostList), key)
    {
      KeyedUnlinked(list, replaced, key);
      KeyedMember(list, replaced, key);
      KeyedCons(replaced, ghostList, key);
      EvictEntry(replaced, i);
    }

    /** Takes over the use count of an evicted namesake, which is dropped. */
    method Revive(key: Word, revived: Entry?) returns (freq: Word)
      requires Linked() && Keyed(list, key) == []
      requires revived != null ==> Keyed(ghostList, key) != [] && revived == Keyed(ghostList, key)[0]
      modifies this`chains, this`list, this`ghostList, this`size, this`ghostListSize
      ensures Linked() && list == old(list) && size == old(size) && ghostListSize <= old(ghostListSize)
      ensures Contents() == if revived != null then Forget(old(Contents()), key) else old(Contents())
      ensures freq == if revived != null then Increment(revived.freq) else 1
    {
      freq := 1;
      if revived != null {
        freq := Increment(revived.freq);
        ghost var i := IndexOf(Recs(ghostList), key);
        KeyedFirst(ghostList, key, i);
        DropGhost(revived, i);
      }
    }

    /** Binds `key` to `value`, which it is not bound to yet; returns the value that had to go.
        `indexOk` says whether a link for the page index could be allocated. */
    method Put(key: Word, value: JitBlock, indexOk: bool) returns (replaced: Option<JitBlock>)
      requires Valid()
      requires Find(Contents().live, key).Some? ==> Find(Contents().live, key).value.value != value
      modifies this`chains, this`list, this`ghostList, this`size, this`ghostListSize, this`pageIndex,
        this`pageIndexIncomplete, list`alive
      ensures Valid() && pageIndexIncomplete == (old(pageIndexIncomplete) || !indexOk)
      ensures Contents() == PutModel(old(Contents()), capacity, key, value)
      ensures replaced == ReplacedBy(old(Contents()), capacity, key)
    {
      ghost var m, again := Contents(), false;
      var freq;
      replaced, freq, again := Vacate(key, m);
      PutSteps(m, capacity, key, value, again, freq, Contents());
      Finish(key, value, freq, indexOk);
    }

    /** Finds what stands in the way of a new entry for `key`, and removes it. */
    method Vacate(key: Word, ghost m: Model) returns (replaced: Option<JitBlock>, freq: Word, ghost again: bool)
      requires Valid() && m == Contents()
      modifies this`chains, this`list, this`ghostList, this`size, this`ghostListSize, this`pageIndex, list`alive
      ensures Linked() && Indexed(list) && Keyed(list, key) == [] && size < capacity && ghostListSize <= capacity + 1
      ensures replaced == ReplacedBy(m, capacity, key) && Vacated(m, capacity, key, again, freq, Contents())
    {
      var same, revived := Search(key);
      again := revived != null;
      replaced, freq := Prepare(key, same, revived, Evict(m, Victim(m, capacity, key)));
    }

    /** Everything that has to go goes. */
    method Prepare(key: Word, same: Entry?, revived: Entry?, ghost m: Model)
      returns (replaced: Option<JitBlock>, freq: Word)
      requires Valid() && (same == null <==> Keyed(list, key) == []) && (same != null ==> same == Keyed(list, key)[0])
      requires revived != null ==> same == null && Keyed(ghostList, key) != [] && revived == Keyed(ghostList, key)[0]
      requires m == Evict(Contents(), Victim(Contents(), capacity, key))
      modifies this`chains, this`list, this`ghostList, this`size, this`ghostListSize, this`pageIndex, list`alive
      ensures Linked() && Indexed(list) && Keyed(list, key) == [] && size < capacity && ghostListSize <= capacity + 1
      ensures replaced == ReplacedBy(old(Contents()), capacity, key)
      ensures freq == if revived != null then Increment(revived.freq) else 1
      ensures Contents() == if revived != null then Forget(m, key) else m
    {
      replaced := MakeRoom(key, same, Victim(Contents(), capacity, key), m);
      freq := Revive(key, revived);
    }

    method Finish(key: Word, value: JitBlock, freq: Word, indexOk: bool)
      requires Linked() && Indexed(list) && Keyed(list, key) == [] && size < capacity && ghostListSize <= capacity + 1
      modifies this`chains, this`list, this`ghostList, this`size, this`ghostListSize, this`pageIndex,
          this`pageIndexIncomplete
      ensures Valid() && pageIndexIncomplete == (old(pageIndexIncomplete) || !indexOk)
      ensures
        var m := old(Contents());
        Contents() == Trim(m.(live := [Rec(key, value, freq)] + m.live), capacity)
    {
      AddEntry(key, value, freq, indexOk);
      GhostListUpdate();
    }

    method AddEntry(key: Word, value: JitBlock, freq: Word, indexOk: bool)
      requires Linked() && Indexed(list) && Keyed(list, key) == []
      modifies this`chains, this`list, this`ghostList, this`size, this`ghostListSize, this`pageIndex,
          this`pageIndexIncomplete
      ensures Linked() && Indexed(list) && size == old(size) + 1 && ghostListSize == old(ghostListSize)
      ensures pageIndexIncomplete == (old(pageIndexIncomplete) || !indexOk)
      ensures Contents() == old(Contents()).(live := [Rec(key, value, freq)] + old(Contents()).live)
    {
      ghost var s := list;
      NewEntry(key, value, freq);
      ghost var e := list[0];
      assert list == [e] + s;
      PageIndexInsert(value, indexOk, e, s);
    }

    method NewEntry(key: Word, value: JitBlock, freq: Word)
      requires Linked() && Keyed(list, key) == []
      modifies this`chains, this`list, this`ghostList, this`size, this`ghostListSize
      ensures Linked() && size == old(size) + 1 && ghostListSize == old(ghostListSize)
      ensures list[1..] == old(list) && list[0].value == value
      ensures Contents() == old(Contents()).(live := [Rec(key, value, freq)] + old(Contents()).live)
    {
      var entry := new Entry(key, value, freq);
      InsertEntry(entry);
    }

    /** The live entry for `key`, or else the latest evicted one. */
    method Search(key: Word) returns (same: Entry?, revived: Entry?)
      requires Linked()
      ensures (same == null <==> Keyed(list, key) == []) && (same != null ==> same == Keyed(list, key)[0])
      ensures revived != null ==> same == null && Keyed(ghostList, key) != [] && revived == Keyed(ghostList, key)[0]
      ensures
        var m := Contents();
        var i, j := IndexOf(m.live, key), IndexOf(m.ghosts, key);
        && (same != null <==> i < |m.live|)
        && (revived != null <==> i == |m.live| && j < |m.ghosts|)
        && (revived != null ==> revived.freq == m.ghosts[j].freq)
    {
      assert ChainedAt(chains, list, ghostList, hash, key);
      KeyedFirst(list, key, IndexOf(Recs(list), key));
      KeyedFirst(ghostList, key, IndexOf(Recs(ghostList), key));
      var entry := Walk(key);
      same, revived := null, null;
      if entry != null {
        KeyedMember(list, entry, key);
        KeyedMember(ghostList, entry, key);
        if !entry.alive {
          revived := entry;
        } else {
          same := entry;
        }
      }
    }

    ghost function LiveBlocks(): set<JitBlock>
      reads this
    {
      set b | b in Values(list)
    }

    /** Every reachable state is a bounded map. */
    lemma ContentsBounded()
      requires Valid()
      ensures Bounded(Contents(), capacity)
    {
      forall i, j | 0 <= i < j < |list| ensures list[i].key != list[j].key {
        assert ChainedAt(chains, list, ghostList, hash, list[i].key);
        LiveKeysDistinct(list, list[i].key);
      }
    }

    /** Invalidates the live blocks of one page and address space that are still valid, and
        counts them, whether by the page index or by a scan of the whole list. */
    method InvalidateVa(va: Word, satp: Word) returns (count: nat)
      requires Valid() && forall b <- LiveBlocks() :: OnePage(b)
      modifies LiveBlocks()`invalidated
      ensures Marked(count, Invalidated(LiveBlocks()), old(LiveBlocks()), old(Invalidated(LiveBlocks())), va, satp)
    {
      ghost var live := LiveBlocks();
      if !pageIndexIncomplete {
        var bucket := pageHash(PageOf(va));
        BucketMembers(pageIndex, list, pageHash, bucket);
        count := MarkBucket(pageIndex[bucket], va, satp, live);
        assert Hits((set b | b in pageIndex[bucket]), old(Invalidated(LiveBlocks())), va, satp)
            == Hits(live, old(Invalidated(LiveBlocks())), va, satp);
        return;
      }
      count := MarkList(list, va, satp, live);
    }
  }

  /** `rest` is what the removals leave of `m`, `revived` whether they used up an evicted entry for
      the key, and `freq` the use count the new entry starts with. */
  ghost predicate Vacated(m: Model, cap: nat, key: Word, revived: bool, freq: Word, rest: Model) {
    var i, j, e := IndexOf(m.live, key), IndexOf(m.ghosts, key), Evict(m, Victim(m, cap, key));
    && (revived <==> i == |m.live| && j < |m.ghosts|)
    && freq == (if revived then Increment(m.ghosts[j].freq) else 1)
    && rest == if revived then Forget(e, key) else e
  }

  /** The steps of an insertion add up to `PutModel`. */
  lemma PutSteps(m: Model, cap: nat, key: Word, value: JitBlock, revived: bool, freq: Word, rest: Model)
    requires Vacated(m, cap, key, revived, freq, rest)
    ensures PutModel(m, cap, key, value) == Trim(rest.(live := [Rec(key, value, freq)] + rest.live), cap)
  {
    var e := Evict(m, Victim(m, cap, key));
    if IndexOf(m.live, key) == |m.live| && !revived {
      IndexIs(e.ghosts, key, |e.ghosts|);
    }
  }

  // ----- invalidation

  function LastByte(b: JitBlock): Word {
    if b.pcEnd > b.pcStart then b.pcEnd - 1 else b.pcStart
  }

  /** Blocks end at page boundaries: the last byte lies in the page of the first. */
  ghost predicate OnePage(b: JitBlock) {
    b.pcEnd > b.pcStart ==> (b.pcEnd - 1) / 4096 == b.pcStart / 4096
  }

  ghost function Invalidated(blocks: set<JitBlock>): set<JitBlock>
    reads blocks`invalidated
  {
    set b | b in blocks && b.invalidated
  }

  ghost predicate Matches(b: JitBlock, va: Word, satp: Word) {
    b.satp == satp && b.pcStart / 4096 == va / 4096
  }

  /** The blocks that an invalidation is for. */
  ghost function Hits(blocks: set<JitBlock>, invalidated: set<JitBlock>, va: Word, satp: Word): set<JitBlock> {
    set b | b in blocks && b !in invalidated && Matches(b, va, satp)
  }

  /** What has been marked and counted once the blocks in `done` were looked at. */
  ghost predicate Marked(count: nat, invalidated: set<JitBlock>, done: set<JitBlock>, before: set<JitBlock>, va: Word,
                         satp: Word) {
    count == |Hits(done, before, va, satp)| && invalidated == before + Hits(done, before, va, satp)
  }

  /** Looks at one block; `inPage` says whether it lies in the page. */
  method Mark(block: JitBlock, inPage: bool, satp: Word, count: nat, ghost va: Word, ghost live: set<JitBlock>,
              ghost done: set<JitBlock>, ghost before: set<JitBlock>) returns (n: nat)
    requires block in live && inPage == (PageOf(block.pcStart) == PageOf(va))
    requires Marked(count, Invalidated(live), done, before, va, satp)
    modifies block`invalidated
    ensures Marked(n, Invalidated(live), done + {block}, before, va, satp)
  {
    n := count;
    ghost var was := Invalidated(live);
    MarkedNext(count, was, done, before, va, satp, block);
    if block.satp == satp && !block.invalidated && inPage {
      block.invalidated := true;
      n := n + 1;
      assert Invalidated(live) == was + {block};
    }
  }

  lemma MarkedNext(count: nat, invalidated: set<JitBlock>, done: set<JitBlock>, before: set<JitBlock>, va: Word,
                   satp: Word, b: JitBlock)
    requires Marked(count, invalidated, done, before, va, satp)
    ensures
      if Matches(b, va, satp) && b !in invalidated
      then Marked(count + 1, invalidated + {b}, done + {b}, before, va, satp)
      else Marked(count, invalidated, done + {b}, before, va, satp)
  {
    var hits := Hits(done, before, va, satp);
    if Matches(b, va, satp) && b !in invalidated {
      assert Hits(done + {b}, before, va, satp) == hits + {b};
    } else {
      assert Hits(done + {b}, before, va, satp) == hits;
    }
  }

  /** The first `i` blocks of a chain. */
  ghost function Firsts(chain: seq<JitBlock>, i: nat): set<JitBlock>
    requires i <= |chain|
  {
    set b | b in chain[..i]
  }

  lemma FirstsNext(chain: seq<JitBlock>, i: nat)
    requires i < |chain|
    ensures Firsts(chain, i + 1) == Firsts(chain, i) + {chain[i]}
  {
    assert chain[..i + 1] == chain[..i] + [chain[i]];
  }

  method MarkBucket(chain: seq<JitBlock>, va: Word, satp: Word, ghost live: set<JitBlock>) returns (count: nat)
    requires forall b <- chain :: b in live
    modifies live`invalidated
    ensures Marked(count, Invalidated(live), set b | b in chain, old(Invalidated(live)), va, satp)
  {
    ghost var before, done: set<JitBlock> := Invalidated(live), {};
    count := 0;
    for i := 0 to |chain|
      invariant done == Firsts(chain, i)
      invariant Marked(count, Invalidated(live), done, before, va, satp)
    {
      FirstsNext(chain, i);
      count := Mark(chain[i], PageOf(chain[i].pcStart) == PageOf(va), satp, count, va, live, done, before);
      done := done + {chain[i]};
    }
    assert chain[..|chain|] == chain;
  }

  ghost function Values(list: seq<Entry>): (v: seq<JitBlock>)
    ensures |v| == |list| && forall i :: 0 <= i < |v| ==> v[i] == list[i].value
  {
    seq(|list|, i requires 0 <= i < |list| => list[i].value)
  }

  lemma OnePageTest(b: JitBlock, va: Word)
    requires OnePage(b)
    ensures PageOf(b.pcStart) <= PageOf(va) <= PageOf(LastByte(b)) <==> PageOf(b.pcStart) == PageOf(va)
  {
  }

  method MarkOverlap(block: JitBlock, satp: Word, count: nat, va: Word, ghost live: set<JitBlock>,
                     ghost done: set<JitBlock>, ghost before: set<JitBlock>) returns (n: nat)
    requires block in live && OnePage(block) && Marked(count, Invalidated(live), done, before, va, satp)
    modifies block`invalidated
    ensures Marked(n, Invalidated(live), done + {block}, before, va, satp)
  {
    OnePageTest(block, va);
    var inPage := PageOf(block.pcStart) <= PageOf(va) <= PageOf(LastByte(block));
    n := Mark(block, inPage, satp, count, va, live, done, before);
  }

  method MarkList(list: seq<Entry>, va: Word, satp: Word, ghost live: set<JitBlock>) returns (count: nat)
    requires forall b <- Values(list) :: b in live && OnePage(b)
    modifies live`invalidated
    ensures Marked(count, Invalidated(live), set b | b in Values(list), old(Invalidated(live)), va, satp)
  {
    ghost var before, done: set<JitBlock> := Invalidated(live), {};
    ghost var chain := Values(list);
    count := 0;
    for i := 0 to |list|
      invariant done == Firsts(chain, i)
      invariant Marked(count, Invalidated(live), done, before, va, satp)
    {
      var block := list[i].value;
      FirstsNext(chain, i);
      assert chain[i] in chain;
      count := MarkOverlap(block, satp, count, va, live, done, before);
      done := done + {block};
    }
    assert chain[..|chain|] == chain;
  }

  lemma {:induction false} PagedMembers(s: seq<Entry>, pageHash: Word -> nat, k: nat, b: JitBlock)
    ensures b in Paged(s, pageHash, k) <==> BucketOf(b, pageHash) == k && b in Values(s)
    decreases |s|
  {
    if s != [] {
      assert Values(s) == [s[0].value] + Values(s[1..]);
      PagedMembers(s[1..], pageHash, k, b);
    }
  }

  lemma BucketMembers(pageIndex: seq<seq<JitBlock>>, list: seq<Entry>, pageHash: Word -> nat, k: nat)
    requires IndexedBy(pageIndex, list, pageHash) && k < PAGE_INDEX_SIZE
    ensures forall b :: b in pageIndex[k] <==> b in Values(list) && BucketOf(b, pageHash) == k
  {
    assert BucketHolds(pageIndex, list, pageHash, k);
    forall b ensures b in pageIndex[k] <==> b in Values(list) && BucketOf(b, pageHash) == k {
      PagedMembers(list, pageHash, k, b);
      assert b in pageIndex[k] <==> b in multiset(pageIndex[k]);
      assert b in Paged(list, pageHash, k) <==> b in multiset(Paged(list, pageHash, k));
    }
  }

  // ----- the page index

  function PageOf(va: Word): Word {
    va / PAGE
  }

  ghost function BucketOf(b: JitBlock, pageHash: Word -> nat): nat {
    pageHash(PageOf(b.pcStart))
  }

  /** The blocks of `s` that belong in bucket `k`. */
  ghost function Paged(s: seq<Entry>, pageHash: Word -> nat, k: nat): seq<JitBlock> {
    if s == [] then []
    else (if BucketOf(s[0].value, pageHash) == k then [s[0].value] else []) + Paged(s[1..], pageHash, k)
  }

  /** Unless an insertion failed, each live block is linked once, in the bucket of its page. */
  ghost predicate IndexedBy(pageIndex: seq<seq<JitBlock>>, list: seq<Entry>, pageHash: Word -> nat) {
    |pageIndex| == PAGE_INDEX_SIZE && forall k :: 0 <= k < PAGE_INDEX_SIZE ==> BucketHolds(pageIndex, list, pageHash, k)
  }

  ghost predicate BucketHolds(pageIndex: seq<seq<JitBlock>>, list: seq<Entry>, pageHash: Word -> nat, k: nat)
    requires k < |pageIndex|
  {
    multiset(pageIndex[k]) == multiset(Paged(list, pageHash, k))
  }

  function Dropped(s: seq<JitBlock>, b: JitBlock): seq<JitBlock> {
    if s == [] then [] else if s[0] == b then s[1..] else [s[0]] + Dropped(s[1..], b)
  }

  lemma {:induction false} DroppedMultiset(s: seq<JitBlock>, b: JitBlock)
    ensures multiset(Dropped(s, b)) == multiset(s) - multiset{b}
    decreases |s|
  {
    if s != [] {
      assert s == [s[0]] + s[1..];
      if s[0] != b {
        DroppedMultiset(s[1..], b);
      }
    }
  }

  lemma {:induction false} DroppedAt(s: seq<JitBlock>, b: JitBlock, i: nat)
    requires i <= |s| && (i < |s| ==> s[i] == b) && forall j :: 0 <= j < i ==> s[j] != b
    ensures Dropped(s, b) == if i < |s| then s[..i] + s[i + 1..] else s
    decreases i
  {
    if i > 0 {
      DroppedAt(s[1..], b, i - 1);
      assert i < |s| ==> [s[0]] + (s[1..][..i - 1] + s[1..][i..]) == s[..i] + s[i + 1..];
    }
  }

  lemma PagedCons(e: Entry, s: seq<Entry>, pageHash: Word -> nat, k: nat)
    ensures multiset(Paged([e] + s, pageHash, k)) ==
      (if BucketOf(e.value, pageHash) == k then multiset{e.value} else multiset{}) + multiset(Paged(s, pageHash, k))
  {
    assert ([e] + s)[1..] == s;
  }

  lemma {:induction false} PagedUnlinked(s: seq<Entry>, e: Entry, pageHash: Word -> nat, k: nat)
    requires e in s
    ensures multiset(Paged(s, pageHash, k)) ==
      (if BucketOf(e.value, pageHash) == k then multiset{e.value} else multiset{})
        + multiset(Paged(Unlinked(s, e), pageHash, k))
    decreases |s|
  {
    var t := s[1..];
    assert s == [s[0]] + t;
    PagedCons(s[0], t, pageHash, k);
    if s[0] != e {
      PagedUnlinked(t, e, pageHash, k);
      PagedCons(s[0], Unlinked(t, e), pageHash, k);
    }
  }

  lemma IndexInserted(pageIndex: seq<seq<JitBlock>>, s: seq<Entry>, pageHash: Word -> nat, e: Entry)
    requires IndexedBy(pageIndex, s, pageHash) && BucketOf(e.value, pageHash) < PAGE_INDEX_SIZE
    ensures var h := BucketOf(e.value, pageHash); IndexedBy(pageIndex[h := [e.value] + pageIndex[h]], [e] + s, pageHash)
  {
    var h := BucketOf(e.value, pageHash);
    var index := pageIndex[h := [e.value] + pageIndex[h]];
    forall k | 0 <= k < PAGE_INDEX_SIZE ensures BucketHolds(index, [e] + s, pageHash, k) {
      assert BucketHolds(pageIndex, s, pageHash, k);
      PagedCons(e, s, pageHash, k);
    }
  }

  lemma IndexRemoved(pageIndex: seq<seq<JitBlock>>, s: seq<Entry>, pageHash: Word -> nat, e: Entry)
    requires IndexedBy(pageIndex, s, pageHash) && BucketOf(e.value, pageHash) < PAGE_INDEX_SIZE && e in s
    ensures
      var h := BucketOf(e.value, pageHash);
      IndexedBy(pageIndex[h := Dropped(pageIndex[h], e.value)], Unlinked(s, e), pageHash)
  {
    var h := BucketOf(e.value, pageHash);
    var index := pageIndex[h := Dropped(pageIndex[h], e.value)];
    forall k | 0 <= k < PAGE_INDEX_SIZE ensures BucketHolds(index, Unlinked(s, e), pageHash, k) {
      assert BucketHolds(pageIndex, s, pageHash, k);
      PagedUnlinked(s, e, pageHash, k);
      DroppedMultiset(pageIndex[h], e.value);
    }
  }

  lemma RecsWithout(s: seq<Entry>, t: seq<Entry>, i: nat)
    requires i < |s| && t == s[..i] + s[i + 1..]
    ensures Recs(t) == Without(Recs(s), i)
  {
  }

  /** What unlinking leaves of a list. */
  lemma Rest(s: seq<Entry>, i: nat)
    requires Distinct(s) && i < |s|
    ensures
      var rest := Unlinked(s, s[i]);
      && Distinct(rest) && s[i] !in rest && |rest| == |s| - 1
      && (forall x <- rest :: x in s)
      && Recs(rest) == Without(Recs(s), i)
  {
    UnlinkedDistinct(s, i);
    UnlinkedWithin(s, s[i]);
    RecsWithout(s, Unlinked(s, s[i]), i);
  }

  lemma {:induction false} TwoKeyed(list: seq<Entry>, i: nat, j: nat)
    requires i < j < |list| && list[i].key == list[j].key
    ensures |Keyed(list, list[i].key)| >= 2
    decreases i
  {
    if i > 0 {
      TwoKeyed(list[1..], i - 1, j - 1);
    } else {
      KeyedMember(list[1..], list[j], list[i].key);
    }
  }

  lemma LiveKeysDistinct(list: seq<Entry>, key: Word)
    requires |Keyed(list, key)| <= 1
    ensures forall i, j :: 0 <= i < |list| && 0 <= j < |list| && i != j && list[i].key == key ==> list[j].key != key
  {
    forall i, j | 0 <= i < |list| && 0 <= j < |list| && i != j && list[i].key == key && list[j].key == key
      ensures false
    {
      TwoKeyed(list, if i < j then i else j, if i < j then j else i);
    }
  }

  lemma LiveFinds(list: seq<Entry>, ghosts: seq<Entry>, chain: seq<Entry>, key: Word, e: Entry)
    requires forall e <- ghosts :: !e.alive
    requires Keyed(chain, key) == Keyed(list, key) + Keyed(ghosts, key) && |Keyed(list, key)| <= 1
    requires e in chain && e.key == key && e.alive
    ensures var i := IndexOf(Recs(list), key); i < |list| && list[i] == e
  {
    KeyedMember(chain, e, key);
    KeyedMember(ghosts, e, key);
    assert e in Keyed(list, key);
    KeyedFirst(list, key, IndexOf(Recs(list), key));
  }

  lemma NoneFinds(list: seq<Entry>, ghosts: seq<Entry>, chain: seq<Entry>, key: Word)
    requires forall e <- list :: e.alive
    requires Keyed(chain, key) == Keyed(list, key) + Keyed(ghosts, key)
    requires forall j :: 0 <= j < |chain| ==> !(chain[j].key == key && chain[j].alive)
    ensures IndexOf(Recs(list), key) == |list|
  {
    var i := IndexOf(Recs(list), key);
    if i < |list| {
      KeyedFirst(list, key, i);
      assert list[i] in Keyed(chain, key);
      KeyedMember(chain, list[i], key);
    }
  }

  lemma WalkFinds(list: seq<Entry>, ghosts: seq<Entry>, key: Word, entry: Entry?)
    requires forall e <- list :: e.alive
    requires forall e <- ghosts :: !e.alive
    requires |Keyed(list, key)| <= 1
    requires entry ==
      if Keyed(list, key) + Keyed(ghosts, key) == [] then null
      else (Keyed(list, key) + Keyed(ghosts, key))[0]
    ensures
      var i := IndexOf(Recs(list), key);
      if i < |list| then entry != null && entry.alive && entry == list[i]
      else entry == null || (entry.key == key && !entry.alive)
  {
    var i := IndexOf(Recs(list), key);
    KeyedFirst(list, key, i);
    if i == |list| && entry != null {
      KeyedMember(ghosts, entry, key);
    }
  }
}
