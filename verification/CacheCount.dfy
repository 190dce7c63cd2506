/** What the use counts of the block cache are, over runs of operations. */
module CacheCount {
  import opened Cache
  import opened Common

  /** The uses of `k` in a run. */
  ghost function Uses(ops: seq<Op>, k: Word): nat {
    if ops == [] then 0
    else
      var op := ops[|ops| - 1];
      Uses(ops[..|ops| - 1], k) + if op == UseOp(k) then 1 else 0
  }

  ghost predicate NoPut(ops: seq<Op>, k: Word) {
    forall op <- ops :: op.PutOp? ==> op.key != k
  }

  /** The live entry for `k`, and its latest evicted one, after a run. */
  ghost function LiveAfter(ops: seq<Op>, cap: nat, k: Word): Option<Rec> {
    Find(Replay(ops, cap).live, k)
  }

  ghost function GhostAfter(ops: seq<Op>, cap: nat, k: Word): Option<Rec> {
    Find(Replay(ops, cap).ghosts, k)
  }

  // ----- one operation

  lemma ReplayNext(ops: seq<Op>, op: Op, cap: nat)
    ensures op.PutOp? ==> Replay(ops + [op], cap) == PutModel(Replay(ops, cap), cap, op.key, op.value)
    ensures op.UseOp? ==> Replay(ops + [op], cap) == UseModel(Replay(ops, cap), op.key)
  {
    assert (ops + [op])[..|ops|] == ops;
  }

  lemma FindWithoutOther(s: seq<Rec>, i: nat, k: Word)
    requires i < |s| ==> s[i].key != k
    ensures Find(Without(s, i), k) == Find(s, k)
  {
    var t, j := Without(s, i), IndexOf(s, k);
    if i < |s| {
      IndexIs(t, k, if j < i then j else j - 1);
    }
  }

  lemma FindPrefix(s: seq<Rec>, n: nat, k: Word)
    requires n <= |s|
    ensures Find(s[..n], k).Some? ==> Find(s[..n], k) == Find(s, k)
  {
    if Find(s[..n], k).Some? {
      IndexIs(s, k, IndexOf(s[..n], k));
    }
  }

  /** An evicted entry of another key hides no ghost of `k`. */
  lemma EvictOther(m: Model, i: nat, k: Word)
    requires i < |m.live| ==> m.live[i].key != k
    ensures Find(Evict(m, i).ghosts, k) == Find(m.ghosts, k)
  {
    if i < |m.live| {
      FindFirst(m.live[i], m.ghosts, k);
    }
  }

  lemma ForgetOther(m: Model, key: Word, k: Word)
    requires k != key
    ensures Find(Forget(m, key).ghosts, k) == Find(m.ghosts, k)
  {
    FindWithoutOther(m.ghosts, IndexOf(m.ghosts, key), k);
  }

  lemma TrimKeeps(m: Model, cap: nat, k: Word)
    ensures Find(Trim(m, cap).ghosts, k).Some? ==> Find(Trim(m, cap).ghosts, k) == Find(m.ghosts, k)
  {
    if |m.ghosts| > cap {
      FindPrefix(m.ghosts, |m.ghosts| - 1, k);
    }
  }

  lemma PutGhosts(m: Model, cap: nat, key: Word, value: JitBlock, k: Word)
    requires Bounded(m, cap) && cap > 0 && k != key && Find(m.live, k).None?
    ensures
      var m' := PutModel(m, cap, key, value);
      Find(m'.ghosts, k).Some? ==> Find(m'.ghosts, k) == Find(m.ghosts, k)
  {
    FindNone(m.live, k);
    var m1 := Evict(m, Victim(m, cap, key));
    var m2 := if IndexOf(m.live, key) < |m.live| then m1 else Forget(m1, key);
    EvictOther(m, Victim(m, cap, key), k);
    ForgetOther(m1, key, k);
    TrimKeeps(m2.(live := [Rec(key, value, Inherited(m, key))] + m2.live), cap, k);
  }

  /** Putting another key keeps the entry or evicts it, and then it is the latest ghost. */
  lemma PutOthers(m: Model, cap: nat, key: Word, value: JitBlock, k: Word)
    requires Bounded(m, cap) && cap > 0 && k != key
    ensures
      var m' := PutModel(m, cap, key, value);
      && (Find(m.live, k).None? ==> Find(m'.live, k).None?)
      && (Find(m.live, k).Some? && Find(m'.live, k).Some? ==> Find(m'.live, k) == Find(m.live, k))
      && (Find(m.live, k).Some? && Find(m'.live, k).None? ==> Find(m'.ghosts, k) == Find(m.live, k))
      && (Find(m.live, k).None? && Find(m'.ghosts, k).Some? ==> Find(m'.ghosts, k) == Find(m.ghosts, k))
  {
    PutIsBounded(m, cap, key, value, k);
    if Find(m.live, k).None? {
      PutGhosts(m, cap, key, value, k);
    }
  }

  /** The count a put starts with: 1 for a key that is live or not known, and one more than that of
      the latest ghost otherwise. */
  lemma PutStarts(m: Model, cap: nat, key: Word, value: JitBlock)
    requires Bounded(m, cap) && cap > 0
    ensures
      var start := if Find(m.live, key).Some? || Find(m.ghosts, key).None? then 1
                   else (Find(m.ghosts, key).value.freq + 1) % 0x1_0000_0000;
      Find(PutModel(m, cap, key, value).live, key) == Some(Rec(key, value, start))
  {
    PutIsBounded(m, cap, key, value, key);
  }

  // ----- runs

  lemma Snoc(ops: seq<Op>, rest: seq<Op>)
    requires rest != []
    ensures ops + rest == (ops + rest[..|rest| - 1]) + [rest[|rest| - 1]]
  {
  }

  lemma RunBounded(ops: seq<Op>, cap: nat)
    requires cap > 0
    ensures Bounded(Replay(ops, cap), cap)
  {
    ReplayRecency(ops, cap);
  }

  lemma AddWrapped(a: nat, b: nat)
    ensures ((a % 0x1_0000_0000) + b) % 0x1_0000_0000 == (a + b) % 0x1_0000_0000
  {
  }

  /** A key that is not live comes back by a put of it alone. */
  lemma StaysOut(ops: seq<Op>, op: Op, cap: nat, k: Word)
    requires cap > 0 && LiveAfter(ops, cap, k).None? && (op.PutOp? ==> op.key != k)
    ensures LiveAfter(ops + [op], cap, k).None?
    ensures GhostAfter(ops + [op], cap, k).Some? ==> GhostAfter(ops + [op], cap, k) == GhostAfter(ops, cap, k)
  {
    ReplayNext(ops, op, cap);
    RunBounded(ops, cap);
    if op.PutOp? {
      PutOthers(Replay(ops, cap), cap, op.key, op.value, k);
    } else {
      UseCounts(Replay(ops, cap), op.key, k);
    }
  }

  /** What one operation makes of a live key that it neither puts nor evicts. */
  lemma StaysIn(ops: seq<Op>, op: Op, cap: nat, k: Word)
    requires cap > 0 && LiveAfter(ops, cap, k).Some? && (op.PutOp? ==> op.key != k)
    requires LiveAfter(ops + [op], cap, k).Some?
    ensures
      var r := LiveAfter(ops, cap, k).value;
      LiveAfter(ops + [op], cap, k) ==
        Some(if op == UseOp(k) then Rec(k, r.value, (r.freq + 1) % 0x1_0000_0000) else r)
  {
    ReplayNext(ops, op, cap);
    RunBounded(ops, cap);
    if op.PutOp? {
      PutOthers(Replay(ops, cap), cap, op.key, op.value, k);
    } else {
      UseCounts(Replay(ops, cap), op.key, k);
    }
  }

  ghost function Turns(q: nat): nat {
    q * 0x1_0000_0000
  }

  /** The count `f` is `n`, modulo 2^32. */
  ghost predicate Same(f: Word, n: nat) {
    exists q :: n == Turns(q) + f
  }

  lemma SameIs(f: Word, n: nat)
    ensures Same(f, n) <==> f == n % 0x1_0000_0000
  {
    if Same(f, n) {
      var q :| n == Turns(q) + f;
    }
    assert n == Turns(n / 0x1_0000_0000) + n % 0x1_0000_0000;
  }

  lemma OneMore(f: Word, n: nat)
    requires Same(f, n)
    ensures Same((f + 1) % 0x1_0000_0000, n + 1)
  {
    SameIs(f, n);
    SameIs((f + 1) % 0x1_0000_0000, n + 1);
    AddWrapped(n, 1);
  }

  /** The last operation of a run that keeps `k` live. */
  lemma UsesNext(ops: seq<Op>, op: Op, cap: nat, k: Word, n: nat, n': nat)
    requires cap > 0 && LiveAfter(ops, cap, k).Some? && Same(LiveAfter(ops, cap, k).value.freq, n)
    requires (op.PutOp? ==> op.key != k) && LiveAfter(ops + [op], cap, k).Some?
    requires n' == if op == UseOp(k) then n + 1 else n
    ensures LiveAfter(ops + [op], cap, k).value.value == LiveAfter(ops, cap, k).value.value
    ensures Same(LiveAfter(ops + [op], cap, k).value.freq, n')
  {
    StaysIn(ops, op, cap, k);
    OneMore(LiveAfter(ops, cap, k).value.freq, n);
  }

  lemma SameStart(f: Word)
    ensures Same(f, f)
  {
    assert f == Turns(0) + f;
  }

  /** A live key that is neither put nor evicted: its count grows by the number of its uses. */
  lemma {:induction false} UsesCounted(ops: seq<Op>, rest: seq<Op>, cap: nat, k: Word)
    requires cap > 0 && LiveAfter(ops, cap, k).Some? && NoPut(rest, k) && LiveAfter(ops + rest, cap, k).Some?
    ensures
      var r, r' := LiveAfter(ops, cap, k).value, LiveAfter(ops + rest, cap, k).value;
      r'.value == r.value && Same(r'.freq, r.freq + Uses(rest, k))
    decreases |rest|
  {
    if rest == [] {
      assert ops + rest == ops;
      SameStart(LiveAfter(ops, cap, k).value.freq);
    } else {
      var before, op := rest[..|rest| - 1], rest[|rest| - 1];
      Snoc(ops, rest);
      assert op in rest;
      if LiveAfter(ops + before, cap, k).None? {
        StaysOut(ops + before, op, cap, k);
      }
      UsesCounted(ops, before, cap, k);
      var f := LiveAfter(ops, cap, k).value.freq;
      UsesNext(ops + before, op, cap, k, f + Uses(before, k), f + Uses(rest, k));
    }
  }

  /** An evicted key whose ghost is kept: the ghost has the count of the eviction. */
  lemma {:induction false} GhostKept(ops: seq<Op>, rest: seq<Op>, cap: nat, k: Word)
    requires cap > 0 && LiveAfter(ops, cap, k).None? && NoPut(rest, k)
    ensures LiveAfter(ops + rest, cap, k).None?
    ensures GhostAfter(ops + rest, cap, k).Some? ==> GhostAfter(ops + rest, cap, k) == GhostAfter(ops, cap, k)
    decreases |rest|
  {
    if rest == [] {
      assert ops + rest == ops;
    } else {
      var before, op := rest[..|rest| - 1], rest[|rest| - 1];
      Snoc(ops, rest);
      assert op in rest;
      GhostKept(ops, before, cap, k);
      StaysOut(ops + before, op, cap, k);
    }
  }

  // ----- what a run leaves, as predicates of the run

  /** After the run `k` is live. */
  ghost predicate Live(ops: seq<Op>, cap: nat, k: Word) {
    forall m: Model :: m == Replay(ops, cap) ==> Find(m.live, k).Some?
  }

  /** After the run a ghost of `k` is kept. */
  ghost predicate Kept(ops: seq<Op>, cap: nat, k: Word) {
    forall m: Model :: m == Replay(ops, cap) ==> Find(m.ghosts, k).Some?
  }

  /** After the run `k` is live, with count `n`, modulo 2^32. */
  ghost predicate Counted(ops: seq<Op>, cap: nat, k: Word, n: nat) {
    forall m: Model :: m == Replay(ops, cap) ==>
      Find(m.live, k).Some? && Find(m.live, k).value.freq == n % 0x1_0000_0000
  }

  /** After the run `k` is not live, and if a ghost of it is kept, its count is `n`. */
  ghost predicate Out(ops: seq<Op>, cap: nat, k: Word, n: nat) {
    forall m: Model :: m == Replay(ops, cap) ==>
      Find(m.live, k).None? && (Find(m.ghosts, k).Some? ==> Find(m.ghosts, k).value.freq == n % 0x1_0000_0000)
  }

  lemma CountedAfter(ops: seq<Op>, cap: nat, k: Word, n: nat)
    ensures Live(ops, cap, k) <==> LiveAfter(ops, cap, k).Some?
    ensures Counted(ops, cap, k, n) <==>
      LiveAfter(ops, cap, k).Some? && LiveAfter(ops, cap, k).value.freq == n % 0x1_0000_0000
  {
    var m := Replay(ops, cap);
    assert LiveAfter(ops, cap, k) == Find(m.live, k);
  }

  lemma OutAfter(ops: seq<Op>, cap: nat, k: Word, n: nat)
    ensures Kept(ops, cap, k) <==> GhostAfter(ops, cap, k).Some?
    ensures Out(ops, cap, k, n) <==>
      && LiveAfter(ops, cap, k).None?
      && (GhostAfter(ops, cap, k).Some? ==> GhostAfter(ops, cap, k).value.freq == n % 0x1_0000_0000)
  {
    var m := Replay(ops, cap);
    assert LiveAfter(ops, cap, k) == Find(m.live, k) && GhostAfter(ops, cap, k) == Find(m.ghosts, k);
  }

  lemma PutStartsAfter(ops: seq<Op>, put: Op, cap: nat, k: Word)
    requires cap > 0 && put.PutOp? && put.key == k
    ensures
      var start := if LiveAfter(ops, cap, k).Some? || GhostAfter(ops, cap, k).None? then 1
                   else (GhostAfter(ops, cap, k).value.freq + 1) % 0x1_0000_0000;
      LiveAfter(ops + [put], cap, k) == Some(Rec(k, put.value, start))
  {
    RunBounded(ops, cap);
    ReplayNext(ops, put, cap);
    PutStarts(Replay(ops, cap), cap, k, put.value);
  }

  lemma Started(ops: seq<Op>, put: Op, cap: nat, k: Word)
    requires cap > 0 && put.PutOp? && put.key == k && (Live(ops, cap, k) || !Kept(ops, cap, k))
    ensures Counted(ops + [put], cap, k, 1)
  {
    CountedAfter(ops, cap, k, 0);
    OutAfter(ops, cap, k, 0);
    PutStartsAfter(ops, put, cap, k);
    CountedAfter(ops + [put], cap, k, 1);
  }

  lemma Restarted(ops: seq<Op>, put: Op, cap: nat, k: Word, n: nat)
    requires cap > 0 && put.PutOp? && put.key == k && Out(ops, cap, k, n) && Kept(ops, cap, k)
    ensures Counted(ops + [put], cap, k, n + 1)
  {
    OutAfter(ops, cap, k, n);
    PutStartsAfter(ops, put, cap, k);
    AddWrapped(n, 1);
    CountedAfter(ops + [put], cap, k, n + 1);
  }

  lemma CountGrows(ops: seq<Op>, rest: seq<Op>, cap: nat, k: Word, n: nat, u: nat)
    requires cap > 0 && LiveAfter(ops, cap, k).Some? && LiveAfter(ops, cap, k).value.freq == n % 0x1_0000_0000
    requires NoPut(rest, k) && LiveAfter(ops + rest, cap, k).Some? && u == Uses(rest, k)
    ensures LiveAfter(ops + rest, cap, k).value.freq == (n + u) % 0x1_0000_0000
  {
    var f := LiveAfter(ops, cap, k).value.freq;
    UsesCounted(ops, rest, cap, k);
    SameIs(LiveAfter(ops + rest, cap, k).value.freq, f + u);
    AddWrapped(n, u);
  }

  lemma CountedOn(ops: seq<Op>, rest: seq<Op>, cap: nat, k: Word, n: nat, u: nat)
    requires cap > 0 && Counted(ops, cap, k, n) && NoPut(rest, k) && Live(ops + rest, cap, k) && u == Uses(rest, k)
    ensures Counted(ops + rest, cap, k, n + u)
  {
    CountedAfter(ops, cap, k, n);
    CountedAfter(ops + rest, cap, k, n + u);
    CountGrows(ops, rest, cap, k, n, u);
  }

  lemma EvictedWith(ops: seq<Op>, evicting: Op, cap: nat, k: Word, n: nat)
    requires cap > 0 && Counted(ops, cap, k, n) && evicting.PutOp? && evicting.key != k
    requires !Live(ops + [evicting], cap, k)
    ensures Out(ops + [evicting], cap, k, n)
  {
    CountedAfter(ops, cap, k, n);
    CountedAfter(ops + [evicting], cap, k, n);
    RunBounded(ops, cap);
    ReplayNext(ops, evicting, cap);
    PutOthers(Replay(ops, cap), cap, evicting.key, evicting.value, k);
    OutAfter(ops + [evicting], cap, k, n);
  }

  lemma OutStill(ops: seq<Op>, idle: seq<Op>, cap: nat, k: Word, n: nat)
    requires cap > 0 && Out(ops, cap, k, n) && NoPut(idle, k)
    ensures Out(ops + idle, cap, k, n)
  {
    OutAfter(ops, cap, k, n);
    GhostKept(ops, idle, cap, k);
    OutAfter(ops + idle, cap, k, n);
  }

  // ----- the counts

  /** A key that is not known, or put again while it is live, and then `u` times used but neither
      put nor evicted: its count is 1 + u. */
  lemma FreshCount(before: seq<Op>, put: Op, rest: seq<Op>, cap: nat, k: Word, u: nat)
    requires cap > 0 && put.PutOp? && put.key == k && (Live(before, cap, k) || !Kept(before, cap, k))
    requires NoPut(rest, k) && u == Uses(rest, k) && Live(before + [put] + rest, cap, k)
    ensures Counted(before + [put] + rest, cap, k, 1 + u)
  {
    Started(before, put, cap, k);
    CountedOn(before + [put], rest, cap, k, 1, u);
  }

  lemma RevivedFrom(ops: seq<Op>, put: Op, rest: seq<Op>, cap: nat, k: Word, n: nat, next: nat, u: nat)
    requires cap > 0 && Out(ops, cap, k, n) && Kept(ops, cap, k) && next == n + 1
    requires put.PutOp? && put.key == k && NoPut(rest, k) && u == Uses(rest, k) && Live(ops + [put] + rest, cap, k)
    ensures Counted(ops + [put] + rest, cap, k, next + u)
  {
    Restarted(ops, put, cap, k, n);
    CountedOn(ops + [put], rest, cap, k, next, u);
  }

  lemma EvictedOut(before: seq<Op>, evicting: Op, idle: seq<Op>, cap: nat, k: Word, n: nat)
    requires cap > 0 && Counted(before, cap, k, n) && evicting.PutOp? && evicting.key != k
    requires !Live(before + [evicting], cap, k) && NoPut(idle, k)
    ensures Out(before + [evicting] + idle, cap, k, n)
  {
    EvictedWith(before, evicting, cap, k, n);
    OutStill(before + [evicting], idle, cap, k, n);
  }

  /** A key with count `n`, evicted to make room for another, put again while its ghost is kept, and
      then `u` times used but neither put nor evicted: the count has gone on from `n`, plus one. */
  lemma RevivedCount(before: seq<Op>, evicting: Op, idle: seq<Op>, put: Op, rest: seq<Op>, cap: nat, k: Word,
                     n: nat, next: nat, u: nat)
    requires cap > 0 && Counted(before, cap, k, n) && evicting.PutOp? && evicting.key != k
    requires !Live(before + [evicting], cap, k) && NoPut(idle, k) && Kept(before + [evicting] + idle, cap, k)
    requires put.PutOp? && put.key == k && NoPut(rest, k) && u == Uses(rest, k) && next == n + 1
    requires Live(before + [evicting] + idle + [put] + rest, cap, k)
    ensures Counted(before + [evicting] + idle + [put] + rest, cap, k, next + u)
  {
    EvictedOut(before, evicting, idle, cap, k, n);
    RevivedFrom(before + [evicting] + idle, put, rest, cap, k, n, next, u);
  }
}
