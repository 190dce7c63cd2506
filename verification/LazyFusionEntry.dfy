/** `try_lazy_fusion` of src/emulate.c: when a block is entered, marked runs whose addresses lie
    in RAM are fused in place, one after the other, each possibly in a different execution.  The
    list is seen as stretches, each a marked run and what precedes it. */
module LazyFusionEntry {
  import opened Common
  import opened Fusion
  import opened FusionBlock
  import opened LazyFusion
  import opened LazyFusionBlock

  datatype Stretch = Stretch(gap: seq<Insn>, run: seq<Insn>)

  ghost function RunOp(run: seq<Insn>): Op {
    if run != [] && run[0].op == LW then FUSE4 else FUSE3
  }

  /** A run as it stands in the list. */
  ghost function Piece(run: seq<Insn>, fused: bool): seq<Insn> {
    if fused && |run| >= 2 then [Batched(run, |run|, RunOp(run))] else run
  }

  /** The list in which the runs chosen by `fused` are fused. */
  ghost function List(segs: seq<Stretch>, fused: seq<bool>, tail: seq<Insn>): seq<Insn>
    requires |segs| == |fused|
  {
    if segs == [] then tail
    else segs[0].gap + Piece(segs[0].run, fused[0]) + List(segs[1..], fused[1..], tail)
  }

  /** What precedes run `i`. */
  ghost function Before(segs: seq<Stretch>, fused: seq<bool>, i: nat): seq<Insn>
    requires i < |segs| == |fused|
  {
    List(segs[..i], fused[..i], []) + segs[i].gap
  }

  /** And what comes after it. */
  ghost function After(segs: seq<Stretch>, fused: seq<bool>, i: nat, tail: seq<Insn>): seq<Insn>
    requires i < |segs| == |fused|
  {
    List(segs[i + 1..], fused[i + 1..], tail)
  }

  /** The position of run `i`. */
  ghost function Start(segs: seq<Stretch>, fused: seq<bool>, i: nat): nat
    requires i < |segs| == |fused|
  {
    |Before(segs, fused, i)|
  }

  ghost function Unfused(n: nat): (f: seq<bool>)
    ensures |f| == n && forall i :: 0 <= i < n ==> !f[i]
  {
    seq(n, _ => false)
  }

  lemma Concat3<T>(a: seq<T>, b: seq<T>, c: seq<T>, d: seq<T>)
    ensures (a + b + c) + d == a + b + (c + d)
  {
  }

  lemma Concat4<T>(a: seq<T>, b: seq<T>, c: seq<T>, d: seq<T>)
    ensures a + (b + c + d) == a + b + c + d
  {
  }

  lemma {:induction false} ListSplit(segs: seq<Stretch>, fused: seq<bool>, tail: seq<Insn>, i: nat)
    requires i <= |segs| == |fused|
    ensures List(segs, fused, tail) == List(segs[..i], fused[..i], []) + List(segs[i..], fused[i..], tail)
    decreases i
  {
    if i == 0 {
      assert segs[0..] == segs && fused[0..] == fused && segs[..0] == [] && fused[..0] == [];
      assert [] + List(segs, fused, tail) == List(segs, fused, tail);
    } else {
      var s, f := segs[1..], fused[1..];
      ListSplit(s, f, tail, i - 1);
      assert segs[..i][1..] == s[..i - 1] && fused[..i][1..] == f[..i - 1];
      assert segs[i..] == s[i - 1..] && fused[i..] == f[i - 1..];
      Concat3(segs[0].gap, Piece(segs[0].run, fused[0]), List(s[..i - 1], f[..i - 1], []),
              List(s[i - 1..], f[i - 1..], tail));
    }
  }

  lemma ListAt(segs: seq<Stretch>, fused: seq<bool>, tail: seq<Insn>, i: nat)
    requires i < |segs| == |fused|
    ensures List(segs, fused, tail) ==
      Before(segs, fused, i) + Piece(segs[i].run, fused[i]) + After(segs, fused, i, tail)
  {
    ListSplit(segs, fused, tail, i);
    assert segs[i..][1..] == segs[i + 1..] && fused[i..][1..] == fused[i + 1..];
    Concat4(List(segs[..i], fused[..i], []), segs[i].gap, Piece(segs[i].run, fused[i]), After(segs, fused, i, tail));
  }

  // ----- fusing one more run

  lemma SliceMiddle<T>(a: seq<T>, b: seq<T>, c: seq<T>)
    ensures (a + b + c)[..|a|] == a && (a + b + c)[|a|..|a| + |b|] == b && (a + b + c)[|a| + |b|..] == c
  {
  }

  /** Putting a batch in place of run `i` is choosing that run as well. */
  lemma FuseOne(segs: seq<Stretch>, fused: seq<bool>, tail: seq<Insn>, i: nat)
    requires i < |segs| == |fused| && !fused[i] && |segs[i].run| >= 2
    ensures
      var s, p, n := List(segs, fused, tail), Start(segs, fused, i), |segs[i].run|;
      && p + n <= |s| && s[p..p + n] == segs[i].run
      && List(segs, fused[i := true], tail) == s[..p] + [Batched(segs[i].run, n, RunOp(segs[i].run))] + s[p + n..]
  {
    var g, p, n := fused[i := true], Start(segs, fused, i), |segs[i].run|;
    ListAt(segs, fused, tail, i);
    ListAt(segs, g, tail, i);
    assert g[..i] == fused[..i] && g[i + 1..] == fused[i + 1..];
    SliceMiddle(Before(segs, fused, i), segs[i].run, After(segs, fused, i, tail));
  }

  /** Where the other runs are then. */
  lemma StartMoves(segs: seq<Stretch>, fused: seq<bool>, i: nat, j: nat)
    requires i < |segs| == |fused| && j < |segs| && !fused[i] && |segs[i].run| >= 2 && i != j
    ensures
      var g, p, n := fused[i := true], Start(segs, fused, i), |segs[i].run|;
      if j < i then Start(segs, g, j) == Start(segs, fused, j) <= p
      else p + n <= Start(segs, fused, j) && Start(segs, g, j) == Start(segs, fused, j) - (n - 1)
  {
    var g := fused[i := true];
    if j < i {
      assert g[..j] == fused[..j];
      ListSplit(segs[..i], fused[..i], [], j);
      assert segs[..i][..j] == segs[..j] && fused[..i][..j] == fused[..j];
      assert segs[..i][j..][0] == segs[j];
    } else {
      ListAt(segs[..j], fused[..j], [], i);
      ListAt(segs[..j], g[..j], [], i);
      assert segs[..j][..i] == segs[..i] && fused[..j][..i] == fused[..i] && g[..j][..i] == fused[..i];
      assert fused[..j][i + 1..] == g[..j][i + 1..];
      assert fused[..j][i] == fused[i] && g[..j][i] == g[i] && segs[..j][i] == segs[i];
    }
  }

  // ----- running the list

  ghost predicate StretchRuns(x: Stretch) {
    Runs(x.gap) && Runs(x.run) && UniformRun(x.run)
  }

  ghost predicate SegsRun(segs: seq<Stretch>, tail: seq<Insn>) {
    Runs(tail) && forall x <- segs :: StretchRuns(x)
  }

  lemma PieceRuns(run: seq<Insn>, fused: bool)
    requires Runs(run) && UniformRun(run)
    ensures Runs(Piece(run, fused))
  {
    if fused && |run| >= 2 {
      assert run[0] in run;
      assert forall e <- Entries(run, |run|) :: e.op == run[0].op;
    }
  }

  lemma {:induction false} ListRuns(segs: seq<Stretch>, fused: seq<bool>, tail: seq<Insn>)
    requires |segs| == |fused| && SegsRun(segs, tail)
    ensures Runs(List(segs, fused, tail))
    decreases |segs|
  {
    if segs != [] {
      assert segs[0] in segs;
      ListRuns(segs[1..], fused[1..], tail);
      PieceRuns(segs[0].run, fused[0]);
    }
  }

  /** The state after all of `a`, if execution gets there. */
  ghost function Through(env: Env, a: seq<Insn>, st: State): Option<State>
    requires Runs(a)
  {
    Reach(env, a, st, |a|)
  }

  lemma {:induction false} ReachAppend(env: Env, a: seq<Insn>, b: seq<Insn>, st: State, k: nat)
    requires Runs(a) && Runs(b) && Runs(a + b) && k <= |b|
    ensures Reach(env, a + b, st, |a| + k) ==
      match Through(env, a, st) case None => None case Some(mid) => Reach(env, b, mid, k)
    decreases |a|
  {
    if a == [] {
      assert a + b == b;
    } else {
      assert (a + b)[1..] == a[1..] + b && (a + b)[0] == a[0];
      if Exec(env, a[0], st).Next? {
        ReachAppend(env, a[1..], b, Exec(env, a[0], st).st, k);
      }
    }
  }

  lemma {:induction false} RunAppend(env: Env, a: seq<Insn>, b: seq<Insn>, st: State)
    requires Runs(a) && Runs(b) && Runs(a + b)
    ensures Run(env, a + b, st) ==
      match Through(env, a, st) case None => Run(env, a, st) case Some(mid) => Run(env, b, mid)
    decreases |a|
  {
    if a == [] {
      assert a + b == b;
    } else {
      assert (a + b)[1..] == a[1..] + b && (a + b)[0] == a[0];
      if Exec(env, a[0], st).Next? {
        RunAppend(env, a[1..], b, Exec(env, a[0], st).st);
      }
    }
  }

  // ----- marking preserves the block's meaning, as fusing does

  /** What a turn of the pass leaves does what it used: one instruction that stands for them, or
      a marked run left as it was. */
  ghost predicate TurnStands(env: Env, t: Turn, s: seq<Insn>, st: State)
    requires forall i <- s :: Executable(i)
  {
    && 1 <= t.used <= |s|
    && if t.marked then t.out == s[..t.used] && UniformRun(t.out)
       else |t.out| == 1 && Executable(t.out[0]) && StandsExactly(env, t.out[0], t.used, s, st)
  }

  lemma MarkRunStands(env: Env, s: seq<Insn>, modified: set<nat>, full: bool, st: State)
    requires |s| >= 2 && Runnable(env, s, st) && s[0].op in {LW, SW}
    ensures TurnStands(env, MarkRun(s, modified, full), s, st)
  {
    UnfusedStandsFor(env, s, st);
    var count := RunLengthAt(s, {s[0].op});
    assert forall i <- s[..count] :: i.op == s[0].op;
  }

  lemma MarkHeadStands(env: Env, s: seq<Insn>, modified: set<nat>, full: bool, slot: bool, cfg: Config, st: State)
    requires |s| >= 2 && Runnable(env, s, st)
    ensures TurnStands(env, MarkHead(s, modified, full, slot, cfg), s, st)
  {
    match Pair(s[0], s[1], cfg)
    case Some(h) => PatternStandsFor(env, s, cfg, st);
    case None =>
      if s[0].op in {LW, SW} {
        MarkRunStands(env, s, modified, full, st);
      } else if Batch(s[0].op).Some? {
        var (ops, op) := Batch(s[0].op).value;
        RunStandsFor(env, s, RunLengthAt(s, ops), op, slot, cfg, st);
      } else {
        UnfusedStandsFor(env, s, st);
      }
  }

  ghost predicate StandingTurns(env: Env, head: (seq<Insn>, set<nat>, bool, bool) -> Turn) {
    forall s, modified, full, slot, st: State :: |s| >= 2 && Runnable(env, s, st) ==>
      TurnStands(env, head(s, modified, full, slot), s, st)
  }

  lemma StandingTurn(env: Env, head: (seq<Insn>, set<nat>, bool, bool) -> Turn, s: seq<Insn>, modified: set<nat>,
                     full: bool, slot: bool, st: State)
    requires StandingTurns(env, head) && |s| >= 2 && Runnable(env, s, st)
    ensures TurnStands(env, head(s, modified, full, slot), s, st)
  {
  }

  lemma TurnsStand(env: Env, cfg: Config)
    ensures StandingTurns(env, Turns(cfg))
  {
    forall s: seq<Insn>, modified, full, slot, st: State | |s| >= 2 && Runnable(env, s, st)
      ensures TurnStands(env, Turns(cfg)(s, modified, full, slot), s, st)
    {
      MarkHeadStands(env, s, modified, full, slot, cfg, st);
    }
  }

  /** The rewritten list `f` does what `s` does exactly if x0 is as its operations expect. */
  ghost predicate RunsExactly(env: Env, f: seq<Insn>, s: seq<Insn>, st: State)
    requires (forall i <- f :: Executable(i)) && forall i <- s :: Executable(i)
  {
    && (ZeroHeld(env, f, st) ==> Run(env, f, st) == Run(env, s, st))
    && (TellsApart(env) && Run(env, f, st) == Run(env, s, st) ==> ZeroHeld(env, f, st))
  }

  lemma {:induction false} RunPrefixExact(env: Env, run: seq<Insn>, f: seq<Insn>, s: seq<Insn>, st: State)
    requires (forall i <- run + f :: Executable(i)) && (forall i <- run + s :: Executable(i)) && UniformRun(run)
    requires (forall i <- f :: Executable(i)) && (forall i <- s :: Executable(i))
    requires !Run(env, run + s, st).Trap?
      && forall mid: State :: !Run(env, s, mid).Trap? ==> RunsExactly(env, f, s, mid)
    ensures RunsExactly(env, run + f, run + s, st)
    decreases |run|
  {
    if run == [] {
      assert run + f == f && run + s == s;
    } else {
      assert (run + f)[1..] == run[1..] + f && (run + s)[1..] == run[1..] + s;
      assert (run + f)[0] == (run + s)[0] == run[0] && run[0] in run;
      RunPrefixExact(env, run[1..], f, s, Exec(env, run[0], st).st);
    }
  }

  lemma TurnRunsExactly(env: Env, t: Turn, s: seq<Insn>, f: seq<Insn>, st: State)
    requires Runnable(env, s, st) && TurnStands(env, t, s, st)
    requires AllExecutable(f) && AllExecutable(s[t.used..]) && AlwaysExact(env, f, s[t.used..])
    ensures (forall i <- t.out + f :: Executable(i)) && RunsExactly(env, t.out + f, s, st)
  {
    DecodedSuffix(s, t.used);
    if t.marked {
      assert t.out + s[t.used..] == s;
      assert forall i <- t.out :: i in s;
      RunPrefixExact(env, t.out, f, s[t.used..], st);
    } else {
      HeadRunsExactly(env, t.out[0], t.used, s, f, st);
      assert t.out + f == [t.out[0]] + f;
    }
  }

  lemma HeadRunsExactly(env: Env, h: Insn, k: nat, s: seq<Insn>, f: seq<Insn>, st: State)
    requires Runnable(env, s, st) && Executable(h) && k <= |s| && StandsExactly(env, h, k, s, st) && Decoded(s[k..])
    requires (forall i <- f :: Executable(i)) && (forall i <- s[k..] :: Executable(i))
    requires forall mid: State :: Runnable(env, s[k..], mid) ==> RunsExactly(env, f, s[k..], mid)
    ensures (forall i <- [h] + f :: Executable(i)) && RunsExactly(env, [h] + f, s, st)
  {
    assert ([h] + f)[0] == h && ([h] + f)[1..] == f;
    var o := Exec(env, h, st);
    if o.Next? {
      assert ZeroHolds(h, st) && Run(env, s, st) == Run(env, s[k..], o.st);
      assert Runnable(env, s[k..], o.st);
    }
  }

  ghost predicate AllExecutable(s: seq<Insn>) {
    forall i <- s :: Executable(i)
  }

  lemma PartsExecutable(a: seq<Insn>, b: seq<Insn>)
    requires AllExecutable(a + b)
    ensures AllExecutable(a) && AllExecutable(b)
  {
    assert forall i <- a :: i in a + b;
    assert forall i <- b :: i in a + b;
  }

  /** From every state the rewritten list `f` does what `s` does exactly if x0 is as expected. */
  ghost predicate AlwaysExact(env: Env, f: seq<Insn>, s: seq<Insn>)
    requires AllExecutable(f) && AllExecutable(s)
  {
    forall st: State :: Runnable(env, s, st) ==> RunsExactly(env, f, s, st)
  }

  lemma {:induction false} MarkRunsExactly(env: Env, head: (seq<Insn>, set<nat>, bool, bool) -> Turn, s: seq<Insn>,
                                           pos: nat, modified: set<nat>, cands: nat, slot: nat -> bool,
                                           r: (seq<Insn>, seq<Candidate>))
    requires StandingTurns(env, head) && GoodTurns(head) && Plain(s) && AllExecutable(s)
    requires Leaves(head, s, pos, modified, cands, slot, r) && AllExecutable(r.0)
    ensures AlwaysExact(env, r.0, s)
    decreases |s|
  {
    if |s| > 1 {
      var full := cands >= MAX_LAZY_CANDIDATES;
      var t := head(s, modified, full, slot(pos));
      OneTurn(head, s, modified, full, slot(pos));
      PlainSuffix(s, t.used);
      var rest := LeavesTurn(head, s, pos, modified, cands, slot, r, t);
      PartsExecutable(t.out, rest.0);
      MarkRunsExactly(env, head, s[t.used..], pos + |t.out|, modified + t.writes,
                      if t.marked then cands + 1 else cands, slot, rest);
      forall st: State | Runnable(env, s, st) ensures RunsExactly(env, r.0, s, st) {
        StandingTurn(env, head, s, modified, full, slot(pos), st);
        TurnRunsExactly(env, t, s, rest.0, st);
      }
    } else {
      LeavesShort(head, s, pos, modified, cands, slot, r);
      forall st: State | Runnable(env, s, st) ensures RunsExactly(env, s, s, st) {
        ShortRunsExactly(env, s, st);
      }
    }
  }

  lemma ShortRunsExactly(env: Env, s: seq<Insn>, st: State)
    requires Runnable(env, s, st) && |s| <= 1
    ensures RunsExactly(env, s, s, st)
  {
    if |s| == 1 {
      assert s[0] in s && s[1..] == [];
    }
  }

  /** The marked list does what the decoded block does if and only if, where it comes to a fused
      system call or counter, x0 is as expected. */
  lemma MarkExact(env: Env, s: seq<Insn>, slot: nat -> bool, cfg: Config, st: State)
    requires Runnable(env, s, st)
    ensures
      var t := MarkBlock(s, slot, cfg).0;
      Runs(t) && RunsExactly(env, t, s, st)
  {
    TurnsStand(env, cfg);
    TurnsGood(cfg);
    MarkedRuns(s, slot, cfg);
    MarkRunsExactly(env, Turns(cfg), s, 0, {}, 0, slot, MarkBlock(s, slot, cfg));
  }

  // ----- running a fused run

  /** The effects of a run are those of its first instruction and then of the others. */
  lemma EntriesThrough(env: Env, run: seq<Insn>, st: State)
    requires run != []
    ensures
      var n := |run|;
      match Effect(env, EntryOf(run[0]), st)
      case None => Effects(env, Entries(run, n), st).None?
      case Some(r) =>
        match Effects(env, Entries(run[1..], n - 1), Advance(r, 1))
        case None => Effects(env, Entries(run, n), st).None?
        case Some(a) =>
          var o := Effects(env, Entries(run, n), st);
          o.Some? && Advance(o.value, n) == Advance(a, n - 1)
  {
    var n, es := |run|, Entries(run, |run|);
    assert es[0] == EntryOf(run[0]) && es[1..] == Entries(run[1..], n - 1);
    var r := Effect(env, es[0], st);
    if r.Some? {
      EffectsAdvance(env, es[1..], r.value, 1);
      if Effects(env, es[1..], r.value).Some? {
        AdvanceTwice(Effects(env, es[1..], r.value).value, 1, n - 1);
      }
    }
  }

  /** A run of loads or stores has the effects of its entries, in order; it does not leave the
      block, and traps where an entry does. */
  lemma {:induction false} RunThrough(env: Env, run: seq<Insn>, st: State)
    requires Runs(run) && UniformRun(run)
    ensures Through(env, run, st) ==
      match Effects(env, Entries(run, |run|), st) case None => None case Some(r) => Some(Advance(r, |run|))
    ensures Through(env, run, st).None? ==> Run(env, run, st).Trap?
    decreases |run|
  {
    if run != [] {
      assert run[0] in run;
      var r := Effect(env, EntryOf(run[0]), st);
      assert Exec(env, run[0], st) == Done(1, r);
      EntriesThrough(env, run, st);
      if r.Some? {
        RunThrough(env, run[1..], Advance(r.value, 1));
      }
    }
  }

  /** Fused or not, a run takes the same state to the same state, or traps. */
  lemma PieceThrough(env: Env, run: seq<Insn>, fused: bool, st: State)
    requires Runs(run) && UniformRun(run)
    ensures Runs(Piece(run, fused)) && Through(env, Piece(run, fused), st) == Through(env, run, st)
    ensures Through(env, run, st).None? ==> Run(env, Piece(run, fused), st).Trap? && Run(env, run, st).Trap?
  {
    PieceRuns(run, fused);
    RunThrough(env, run, st);
    if fused && |run| >= 2 {
      var h := Batched(run, |run|, RunOp(run));
      assert run[0] in run;
      assert [h][1..] == [];
      assert Exec(env, h, st) == Done(|run|, Effects(env, Entries(run, |run|), st));
      if Exec(env, h, st).Next? {
        assert Reach(env, [h], st, 1) == Reach(env, [h][1..], Exec(env, h, st).st, 0);
      }
    }
  }

  /** From every state the two lists run alike, and come through alike. */
  ghost predicate Alike(env: Env, a: seq<Insn>, b: seq<Insn>, st: State)
    requires Runs(a) && Runs(b)
  {
    Run(env, a, st) == Run(env, b, st) && Through(env, a, st) == Through(env, b, st)
  }

  lemma AlikeAfter(env: Env, front: seq<Insn>, a: seq<Insn>, b: seq<Insn>, st: State)
    requires Runs(front) && Runs(a) && Runs(b)
    requires Through(env, front, st).Some? ==> Alike(env, a, b, Through(env, front, st).value)
    ensures Runs(front + a) && Runs(front + b) && Alike(env, front + a, front + b, st)
  {
    RunAppend(env, front, a, st);
    RunAppend(env, front, b, st);
    ReachAppend(env, front, a, st, |a|);
    ReachAppend(env, front, b, st, |b|);
  }

  lemma PieceAlike(env: Env, run: seq<Insn>, fused: bool, a: seq<Insn>, b: seq<Insn>, st: State)
    requires Runs(run) && UniformRun(run) && Runs(a) && Runs(b)
    requires Through(env, run, st).Some? ==> Alike(env, a, b, Through(env, run, st).value)
    ensures Runs(Piece(run, fused) + a) && Runs(run + b) && Alike(env, Piece(run, fused) + a, run + b, st)
  {
    var piece := Piece(run, fused);
    PieceThrough(env, run, fused, st);
    RunAppend(env, piece, a, st);
    RunAppend(env, run, b, st);
    ReachAppend(env, piece, a, st, |a|);
    ReachAppend(env, run, b, st, |b|);
  }

  lemma StretchAlike(env: Env, x: Stretch, fused: bool, a: seq<Insn>, b: seq<Insn>, st: State)
    requires StretchRuns(x) && Runs(a) && Runs(b) && forall mid: State :: Alike(env, a, b, mid)
    ensures
      var c, d := x.gap + Piece(x.run, fused) + a, x.gap + x.run + b;
      Runs(c) && Runs(d) && Alike(env, c, d, st)
  {
    var piece := Piece(x.run, fused);
    PieceRuns(x.run, fused);
    if Through(env, x.gap, st).Some? {
      PieceAlike(env, x.run, fused, a, b, Through(env, x.gap, st).value);
    }
    AlikeAfter(env, x.gap, piece + a, x.run + b, st);
    assert x.gap + (piece + a) == x.gap + piece + a && x.gap + (x.run + b) == x.gap + x.run + b;
  }

  /** Whatever runs are fused, the list runs as the marked list does. */
  lemma {:induction false} ListAlike(env: Env, segs: seq<Stretch>, fused: seq<bool>, tail: seq<Insn>, st: State)
    requires |segs| == |fused| && SegsRun(segs, tail)
    ensures
      var a, b := List(segs, fused, tail), List(segs, Unfused(|segs|), tail);
      Runs(a) && Runs(b) && Alike(env, a, b, st)
    decreases |segs|
  {
    if segs != [] {
      var a, b := List(segs[1..], fused[1..], tail), List(segs[1..], Unfused(|segs| - 1), tail);
      assert StretchRuns(segs[0]) && Unfused(|segs|)[1..] == Unfused(|segs| - 1);
      ListRuns(segs[1..], fused[1..], tail);
      ListRuns(segs[1..], Unfused(|segs| - 1), tail);
      forall mid: State ensures Alike(env, a, b, mid) {
        ListAlike(env, segs[1..], fused[1..], tail, mid);
      }
      StretchAlike(env, segs[0], fused[0], a, b, st);
    }
  }

  // ----- the accesses of a fused run

  /** The accesses the fused handler makes from state `now` are in RAM. */
  ghost predicate HandlerInRam(env: Env, h: Insn, now: State, ramSize: nat) {
    forall j :: 0 <= j < |h.fuse| ==> EntryInRam(env, h, now, j, ramSize)
  }

  /** Execution from `st` comes to instruction `p` of `u`, and it does not trap. */
  ghost predicate Passes(env: Env, u: seq<Insn>, st: State, p: nat)
    requires Runs(u) && p < |u|
  {
    var o := Reach(env, u, st, p);
    o.Some? && !Exec(env, u[p], o.value).Trap?
  }

  ghost predicate EntryInRam(env: Env, h: Insn, now: State, j: nat, ramSize: nat)
    requires j < |h.fuse|
  {
    match Effects(env, h.fuse[..j], now)
    case None => true
    case Some(mid) => InRam((mid.X[h.fuse[j].rs1] + h.fuse[j].imm) % 0x1_0000_0000, ramSize)
  }

  ghost function MarksOf(segs: seq<Stretch>): (c: seq<Candidate>)
    ensures |c| == |segs|
    ensures forall i :: 0 <= i < |c| ==> c[i] == Candidate(Start(segs, Unfused(|segs|), i), |segs[i].run|)
  {
    seq(|segs|, i requires 0 <= i < |segs| => Candidate(Start(segs, Unfused(|segs|), i), |segs[i].run|))
  }

  lemma SegsPrefix(segs: seq<Stretch>, tail: seq<Insn>, i: nat)
    requires SegsRun(segs, tail) && i < |segs|
    ensures SegsRun(segs[..i], []) && SegsRun(segs[i + 1..], tail) && StretchRuns(segs[i])
  {
    assert forall x <- segs[..i] :: x in segs;
    assert forall x <- segs[i + 1..] :: x in segs;
  }

  lemma BeforeRuns(segs: seq<Stretch>, fused: seq<bool>, tail: seq<Insn>, i: nat)
    requires i < |segs| == |fused| && SegsRun(segs, tail)
    ensures Runs(Before(segs, fused, i)) && Runs(After(segs, fused, i, tail)) && Runs(segs[i].run)
    ensures Runs(List(segs, fused, tail)) && Start(segs, fused, i) <= |List(segs, fused, tail)|
  {
    SegsPrefix(segs, tail, i);
    ListRuns(segs[..i], fused[..i], []);
    ListRuns(segs[i + 1..], fused[i + 1..], tail);
    ListRuns(segs, fused, tail);
    ListAt(segs, fused, tail, i);
  }

  /** Whatever runs are fused, execution comes to run `i` in the same state. */
  lemma BeforeAlike(env: Env, segs: seq<Stretch>, fused: seq<bool>, tail: seq<Insn>, i: nat, st: State)
    requires i < |segs| == |fused| && SegsRun(segs, tail)
    ensures
      var a, b := Before(segs, fused, i), Before(segs, Unfused(|segs|), i);
      Runs(a) && Runs(b) && Through(env, a, st) == Through(env, b, st)
  {
    BeforeRuns(segs, fused, tail, i);
    BeforeRuns(segs, Unfused(|segs|), tail, i);
    SegsPrefix(segs, tail, i);
    assert Unfused(|segs|)[..i] == Unfused(i);
    ListAlike(env, segs[..i], fused[..i], [], st);
    ThroughAppend(env, List(segs[..i], fused[..i], []), List(segs[..i], Unfused(i), []), segs[i].gap, st);
  }

  lemma ThroughAppend(env: Env, a: seq<Insn>, b: seq<Insn>, gap: seq<Insn>, st: State)
    requires Runs(a) && Runs(b) && Runs(gap) && Through(env, a, st) == Through(env, b, st)
    ensures Runs(a + gap) && Runs(b + gap) && Through(env, a + gap, st) == Through(env, b + gap, st)
  {
    ReachAppend(env, a, gap, st, |gap|);
    ReachAppend(env, b, gap, st, |gap|);
  }

  lemma StartReached(env: Env, segs: seq<Stretch>, fused: seq<bool>, tail: seq<Insn>, i: nat, st: State)
    requires i < |segs| == |fused| && SegsRun(segs, tail)
    ensures Runs(List(segs, fused, tail)) && Start(segs, fused, i) <= |List(segs, fused, tail)|
      && Runs(Before(segs, fused, i))
    ensures Reach(env, List(segs, fused, tail), st, Start(segs, fused, i)) == Through(env, Before(segs, fused, i), st)
  {
    BeforeRuns(segs, fused, tail, i);
    SegsPrefix(segs, tail, i);
    PieceRuns(segs[i].run, fused[i]);
    ListAt(segs, fused, tail, i);
    var a, b := Before(segs, fused, i), Piece(segs[i].run, fused[i]) + After(segs, fused, i, tail);
    assert a + b == List(segs, fused, tail);
    ReachAppend(env, a, b, st, 0);
  }

  lemma RunPrefix(run: seq<Insn>, j: nat)
    requires Runs(run) && j <= |run|
    ensures Runs(run[..j]) && Runs(run[j..]) && (UniformRun(run) ==> UniformRun(run[..j]))
  {
    assert forall x <- run[..j] :: x in run;
    assert forall x <- run[j..] :: x in run;
  }

  lemma ReachMiddle(env: Env, a: seq<Insn>, run: seq<Insn>, z: seq<Insn>, j: nat, st: State)
    requires Runs(a) && Runs(run) && Runs(z) && j <= |run|
    ensures Runs(a + run + z) && Runs(run[..j])
    ensures Reach(env, a + run + z, st, |a| + j) ==
      match Through(env, a, st) case None => None case Some(now) => Through(env, run[..j], now)
  {
    RunPrefix(run, j);
    var b, c := run[..j], run[j..] + z;
    assert a + (b + c) == a + run + z;
    ReachAppend(env, a, b + c, st, j);
    if Through(env, a, st).Some? {
      ReachAppend(env, b, c, Through(env, a, st).value, 0);
    }
  }

  /** A marked run in the list it stands in. */
  ghost predicate RunIn(t: seq<Insn>, before: seq<Insn>, run: seq<Insn>, after: seq<Insn>, cands: seq<Candidate>) {
    && Runs(before) && Runs(run) && Runs(after) && UniformRun(run) && Runs(t) && t == before + run + after
    && Candidate(|before|, |run|) in cands && InList(cands, t)
  }

  lemma RunStands(segs: seq<Stretch>, tail: seq<Insn>, i: nat)
    requires i < |segs| && SegsRun(segs, tail)
    requires InList(MarksOf(segs), List(segs, Unfused(|segs|), tail))
    ensures
      var none := Unfused(|segs|);
      RunIn(List(segs, none, tail), Before(segs, none, i), segs[i].run, After(segs, none, i, tail), MarksOf(segs))
  {
    BeforeRuns(segs, Unfused(|segs|), tail, i);
    SegsPrefix(segs, tail, i);
    ListAt(segs, Unfused(|segs|), tail, i);
    assert MarksOf(segs)[i] == Candidate(Start(segs, Unfused(|segs|), i), |segs[i].run|);
  }

  lemma {:induction false} EffectsPrefix(env: Env, es: seq<Entry>, j: nat, st: State)
    requires j <= |es| && Effects(env, es, st).Some?
    ensures Effects(env, es[..j], st).Some?
    decreases j
  {
    if j > 0 {
      assert es[..j][0] == es[0] && es[..j][1..] == es[1..][..j - 1];
      EffectsPrefix(env, es[1..], j - 1, Effect(env, es[0], st).value);
    }
  }

  /** If the checked addresses of run `i` are the ones used, then in the list in which it is fused
      every access of its handler is in RAM when they are; and only then, if execution passes
      the handler. */
  lemma FusedAccesses(env: Env, segs: seq<Stretch>, fused: seq<bool>, tail: seq<Insn>, i: nat, st: State, ramSize: nat)
    requires i < |segs| == |fused| && SegsRun(segs, tail) && fused[i] && |segs[i].run| >= 2
    requires
      var t := List(segs, Unfused(|segs|), tail);
      Runs(t) && InList(MarksOf(segs), t) && Checked(env, t, MarksOf(segs), st)
    ensures
      var u, p := List(segs, fused, tail), Start(segs, fused, i);
      && Runs(u) && p < |u| && u[p] == Batched(segs[i].run, |segs[i].run|, RunOp(segs[i].run))
      && HandlerExact(env, u, p, segs[i].run, st, ramSize)
  {
    ListAt(segs, fused, tail, i);
    StartReached(env, segs, fused, tail, i, st);
    BeforeAlike(env, segs, fused, tail, i, st);
    RunStands(segs, tail, i);
    var none := Unfused(|segs|);
    var o := Through(env, Before(segs, none, i), st);
    if o.Some? {
      HandlerAccesses(env, List(segs, none, tail), Before(segs, none, i), segs[i].run, After(segs, none, i, tail),
                      MarksOf(segs), st, o.value, ramSize);
    }
  }

  /** What the addresses of `run`, computed from `st`, say of the handler at `p`. */
  ghost predicate HandlerExact(env: Env, u: seq<Insn>, p: nat, run: seq<Insn>, st: State, ramSize: nat)
    requires Runs(u) && p < |u|
  {
    match Reach(env, u, st, p)
    case None => true
    case Some(now) =>
      && (AllInRam(run, st.X, ramSize) ==> HandlerInRam(env, u[p], now, ramSize))
      && (Passes(env, u, st, p) && HandlerInRam(env, u[p], now, ramSize) ==> AllInRam(run, st.X, ramSize))
  }

  lemma HandlerAccesses(env: Env, t: seq<Insn>, before: seq<Insn>, run: seq<Insn>, after: seq<Insn>,
                        cands: seq<Candidate>, st: State, now: State, ramSize: nat)
    requires RunIn(t, before, run, after, cands) && Checked(env, t, cands, st) && run != []
    requires Through(env, before, st) == Some(now)
    ensures
      var h := Batched(run, |run|, RunOp(run));
      && (AllInRam(run, st.X, ramSize) ==> HandlerInRam(env, h, now, ramSize))
      && (!Exec(env, h, now).Trap? && HandlerInRam(env, h, now, ramSize) ==> AllInRam(run, st.X, ramSize))
  {
    var h := Batched(run, |run|, RunOp(run));
    if AllInRam(run, st.X, ramSize) {
      forall j | 0 <= j < |h.fuse| ensures EntryInRam(env, h, now, j, ramSize) {
        EntryAccess(env, t, before, run, after, cands, j, st, now, ramSize);
      }
    }
    if !Exec(env, h, now).Trap? && HandlerInRam(env, h, now, ramSize) {
      forall j | 0 <= j < |run| ensures AccessInRam(run[j], st.X, ramSize) {
        EffectsPrefix(env, h.fuse, j, now);
        EntryAccess(env, t, before, run, after, cands, j, st, now, ramSize);
      }
    }
  }

  lemma EntryAccess(env: Env, t: seq<Insn>, before: seq<Insn>, run: seq<Insn>, after: seq<Insn>, cands: seq<Candidate>,
                    j: nat, st: State, now: State, ramSize: nat)
    requires RunIn(t, before, run, after, cands) && Checked(env, t, cands, st) && j < |run|
    requires Through(env, before, st) == Some(now)
    ensures
      var h := Batched(run, |run|, RunOp(run));
      && (AccessInRam(run[j], st.X, ramSize) ==> EntryInRam(env, h, now, j, ramSize))
      && (Effects(env, h.fuse[..j], now).Some? && EntryInRam(env, h, now, j, ramSize) ==>
            AccessInRam(run[j], st.X, ramSize))
  {
    var p := |before|;
    ReachMiddle(env, before, run, after, j, st);
    assert t[p + j] == run[j] && InRun(Candidate(p, |run|), p + j);
    assert AddressAt(env, t, st, p + j);
    EntryOfRun(env, run, j, st, now, ramSize);
  }

  lemma EntryOfRun(env: Env, run: seq<Insn>, j: nat, st: State, now: State, ramSize: nat)
    requires Runs(run) && UniformRun(run) && j < |run| && Runs(run[..j])
    requires
      match Through(env, run[..j], now)
      case None => true
      case Some(mid) => Add(mid.X[run[j].rs1], run[j].imm) == Add(st.X[run[j].rs1], run[j].imm)
    ensures
      var h := Batched(run, |run|, RunOp(run));
      && (AccessInRam(run[j], st.X, ramSize) ==> EntryInRam(env, h, now, j, ramSize))
      && (Effects(env, h.fuse[..j], now).Some? && EntryInRam(env, h, now, j, ramSize) ==>
            AccessInRam(run[j], st.X, ramSize))
  {
    RunPrefix(run, j);
    RunThrough(env, run[..j], now);
    assert Entries(run, |run|)[..j] == Entries(run[..j], j);
  }

  // ----- stretches of a marked list

  /** The stretches of `t` from position `from` on, and what follows the last run. */
  ghost function Split(t: seq<Insn>, from: nat, cands: seq<Candidate>): (seq<Stretch>, seq<Insn>)
    requires from <= |t|
    decreases |cands|
  {
    if cands != [] && from <= cands[0].pos && cands[0].pos + cands[0].count <= |t| then
      var c := cands[0];
      var rest := Split(t, c.pos + c.count, cands[1..]);
      ([Stretch(t[from..c.pos], t[c.pos..c.pos + c.count])] + rest.0, rest.1)
    else ([], t[from..])
  }

  /** Marks in order and apart, within what follows `from`. */
  ghost predicate Apart(t: seq<Insn>, from: nat, cands: seq<Candidate>) {
    && (forall a, b :: 0 <= a < b < |cands| ==> cands[a].pos + cands[a].count <= cands[b].pos)
    && (forall c <- cands :: from <= c.pos && c.pos + c.count <= |t| && UniformRun(t[c.pos..c.pos + c.count]))
  }

  /** `r` is the split of `t`; with a detour that keeps the recursive function out of the
      inductions, which go by `SplitsStep`. */
  ghost predicate Splits(t: seq<Insn>, from: nat, cands: seq<Candidate>, r: (seq<Stretch>, seq<Insn>)) {
    forall u :: u == cands ==> SplitsTo(t, from, u, r)
  }

  ghost predicate SplitsTo(t: seq<Insn>, from: nat, cands: seq<Candidate>, r: (seq<Stretch>, seq<Insn>)) {
    from <= |t| && r == Split(t, from, cands)
  }

  lemma SplitsEnd(t: seq<Insn>, from: nat, r: (seq<Stretch>, seq<Insn>))
    requires Splits(t, from, [], r)
    ensures from <= |t| && r == ([], t[from..])
  {
    assert SplitsTo(t, from, [], r);
  }

  lemma ApartRest(t: seq<Insn>, from: nat, cands: seq<Candidate>)
    requires Apart(t, from, cands) && cands != []
    ensures
      var c := cands[0];
      && from <= c.pos && c.pos + c.count <= |t| && UniformRun(t[c.pos..c.pos + c.count])
      && Apart(t, c.pos + c.count, cands[1..])
  {
    var c := cands[0];
    assert c in cands;
    forall k | 0 <= k < |cands[1..]|
      ensures cands[1..][k] == cands[k + 1] && cands[k + 1] in cands && c.pos + c.count <= cands[k + 1].pos
    {
    }
  }

  lemma SplitsStep(t: seq<Insn>, from: nat, cands: seq<Candidate>, r: (seq<Stretch>, seq<Insn>))
    returns (x: Stretch, rest: (seq<Stretch>, seq<Insn>))
    requires Splits(t, from, cands, r) && Apart(t, from, cands) && cands != []
    ensures
      var c := cands[0];
      && from <= c.pos && c.pos + c.count <= |t| && x == Stretch(t[from..c.pos], t[c.pos..c.pos + c.count])
      && UniformRun(x.run) && Apart(t, c.pos + c.count, cands[1..])
      && Splits(t, c.pos + c.count, cands[1..], rest) && r == ([x] + rest.0, rest.1)
  {
    var c := cands[0];
    ApartRest(t, from, cands);
    assert SplitsTo(t, from, cands, r);
    x, rest := Stretch(t[from..c.pos], t[c.pos..c.pos + c.count]), Split(t, c.pos + c.count, cands[1..]);
  }

  lemma SliceRuns(t: seq<Insn>, a: nat, b: nat)
    requires Runs(t) && a <= b <= |t|
    ensures Runs(t[a..b])
  {
    assert forall x <- t[a..b] :: x in t;
  }

  lemma {:induction false} SplitRuns(t: seq<Insn>, from: nat, cands: seq<Candidate>, r: (seq<Stretch>, seq<Insn>))
    requires Splits(t, from, cands, r) && Runs(t) && Apart(t, from, cands)
    ensures |r.0| == |cands| && SegsRun(r.0, r.1)
    decreases |cands|
  {
    if cands == [] {
      SplitsEnd(t, from, r);
      SliceRuns(t, from, |t|);
    } else {
      var c := cands[0];
      var x, rest := SplitsStep(t, from, cands, r);
      SplitRuns(t, c.pos + c.count, cands[1..], rest);
      SliceRuns(t, from, c.pos);
      SliceRuns(t, c.pos, c.pos + c.count);
    }
  }

  lemma Slices<T>(t: seq<T>, a: nat, b: nat, c: nat)
    requires a <= b <= c <= |t|
    ensures t[a..b] + t[b..c] + t[c..] == t[a..]
  {
  }

  lemma ListCons(x: Stretch, segs: seq<Stretch>, tail: seq<Insn>)
    ensures List([x] + segs, Unfused(|segs| + 1), tail) == x.gap + x.run + List(segs, Unfused(|segs|), tail)
  {
    assert ([x] + segs)[1..] == segs && Unfused(|segs| + 1)[1..] == Unfused(|segs|);
  }

  lemma {:induction false} SplitList(t: seq<Insn>, from: nat, cands: seq<Candidate>, r: (seq<Stretch>, seq<Insn>))
    requires Splits(t, from, cands, r) && Apart(t, from, cands)
    ensures from <= |t| && List(r.0, Unfused(|r.0|), r.1) == t[from..]
    decreases |cands|
  {
    if cands == [] {
      SplitsEnd(t, from, r);
    } else {
      var c := cands[0];
      var x, rest := SplitsStep(t, from, cands, r);
      SplitList(t, c.pos + c.count, cands[1..], rest);
      ListCons(x, rest.0, rest.1);
      Slices(t, from, c.pos, c.pos + c.count);
    }
  }

  lemma StartFirst(x: Stretch, rest: seq<Stretch>)
    ensures Start([x] + rest, Unfused(|rest| + 1), 0) == |x.gap|
  {
    var segs := [x] + rest;
    assert segs[..0] == [] && Unfused(|rest| + 1)[..0] == [];
  }

  lemma StartNext(x: Stretch, rest: seq<Stretch>, i: nat)
    requires i < |rest|
    ensures Start([x] + rest, Unfused(|rest| + 1), i + 1) == |x.gap| + |x.run| + Start(rest, Unfused(|rest|), i)
  {
    var segs, none := [x] + rest, Unfused(|rest| + 1);
    assert segs[..i + 1][1..] == rest[..i] && none[..i + 1][1..] == Unfused(|rest|)[..i];
    assert segs[..i + 1][0] == x && !none[..i + 1][0];
  }

  /** Run `i` is the one the mark names, and stands where it says. */
  ghost predicate StretchAt(t: seq<Insn>, from: nat, segs: seq<Stretch>, i: nat, c: Candidate) {
    && i < |segs| && c.pos + c.count <= |t|
    && from + Start(segs, Unfused(|segs|), i) == c.pos && segs[i].run == t[c.pos..c.pos + c.count]
  }

  lemma StretchNext(t: seq<Insn>, from: nat, next: nat, x: Stretch, rest: seq<Stretch>, i: nat, c: Candidate)
    requires StretchAt(t, next, rest, i, c) && next == from + |x.gap| + |x.run|
    ensures StretchAt(t, from, [x] + rest, i + 1, c)
  {
    StartNext(x, rest, i);
  }

  lemma StretchFirst(t: seq<Insn>, from: nat, x: Stretch, rest: seq<Stretch>, c: Candidate)
    requires from + |x.gap| == c.pos && c.pos + c.count <= |t| && x.run == t[c.pos..c.pos + c.count]
    ensures StretchAt(t, from, [x] + rest, 0, c)
  {
    StartFirst(x, rest);
  }

  lemma {:induction false} SplitStarts(t: seq<Insn>, from: nat, cands: seq<Candidate>, i: nat,
                                       r: (seq<Stretch>, seq<Insn>))
    requires Splits(t, from, cands, r) && Apart(t, from, cands) && i < |cands|
    ensures StretchAt(t, from, r.0, i, cands[i])
    decreases |cands|
  {
    var c := cands[0];
    var x, rest := SplitsStep(t, from, cands, r);
    if i > 0 {
      SplitStarts(t, c.pos + c.count, cands[1..], i - 1, rest);
      StretchNext(t, from, c.pos + c.count, x, rest.0, i - 1, cands[i]);
    } else {
      StretchFirst(t, from, x, rest.0, c);
    }
  }

  /** The marked list and its marks, as stretches. */
  lemma SplitMarks(t: seq<Insn>, cands: seq<Candidate>)
    requires Runs(t) && MarksRight(t, cands, 0, {})
    ensures
      var (segs, tail) := Split(t, 0, cands);
      SegsRun(segs, tail) && List(segs, Unfused(|segs|), tail) == t && MarksOf(segs) == cands
  {
    forall c | c in cands ensures c.pos + c.count <= |t| && UniformRun(t[c.pos..c.pos + c.count]) {
      assert MarkFits(t, c, 0);
    }
    var r := Split(t, 0, cands);
    SplitRuns(t, 0, cands, r);
    SplitList(t, 0, cands, r);
    var segs := r.0;
    forall i | 0 <= i < |cands| ensures MarksOf(segs)[i] == cands[i] {
      SplitStarts(t, 0, cands, i, r);
    }
    assert t[0..] == t;
  }

  // ----- the marks of a block

  function Flags(marks: seq<LazyMark>): (f: seq<bool>)
    ensures |f| == |marks| && forall i :: 0 <= i < |f| ==> f[i] == marks[i].verified
  {
    seq(|marks|, i requires 0 <= i < |marks| => marks[i].verified)
  }

  /** Mark `m` points to run `i`. */
  ghost predicate MarkOk(nodes: seq<IrNode>, segs: seq<Stretch>, fused: seq<bool>, m: LazyMark, i: nat)
    requires i < |segs| == |fused|
  {
    var p, run := Start(segs, fused, i), segs[i].run;
    && p < |nodes| && m.ir == nodes[p] && m.count == |run|
    && (m.verified ==> m.count >= 2)
    && (run != [] ==> (m.isLoad <==> run[0].op == LW))
  }

  ghost predicate MarksOk(nodes: seq<IrNode>, segs: seq<Stretch>, marks: seq<LazyMark>) {
    |marks| == |segs| && forall i :: 0 <= i < |marks| ==> MarkOk(nodes, segs, Flags(marks), marks[i], i)
  }

  lemma FusedMark(nodes: seq<IrNode>, segs: seq<Stretch>, fused: seq<bool>, i: nat, j: nat)
    requires i < |segs| == |fused| && j < |segs| && !fused[i] && |segs[i].run| >= 2
    requires Start(segs, fused, i) + |segs[i].run| <= |nodes| && Start(segs, fused, j) < |nodes|
    ensures
      var p, n, q := Start(segs, fused, i), |segs[i].run|, Start(segs, fused[i := true], j);
      q < |nodes| - (n - 1) && Cut(nodes, p, n - 1)[q] == nodes[Start(segs, fused, j)]
  {
    CutAt(nodes, Start(segs, fused, i), |segs[i].run| - 1);
    if i != j {
      StartMoves(segs, fused, i, j);
    } else {
      assert fused[i := true][..i] == fused[..i];
    }
  }

  lemma FailedMark(nodes: seq<IrNode>, segs: seq<Stretch>, marks: seq<LazyMark>, i: nat)
    requires MarksOk(nodes, segs, marks) && i < |marks|
    ensures MarksOk(nodes, segs, marks[i := marks[i].(failed := true)])
  {
    var marks' := marks[i := marks[i].(failed := true)];
    assert Flags(marks') == Flags(marks);
    forall j | 0 <= j < |marks| ensures MarkOk(nodes, segs, Flags(marks'), marks'[j], j) {
      assert MarkOk(nodes, segs, Flags(marks), marks[j], j);
    }
  }

  /** The list is the marked list with the runs of verified marks fused, and every mark points to
      its run.  The detour over `u` keeps this out of the proofs that only pass it on. */
  ghost predicate Marking(nodes: seq<IrNode>, insns: seq<Insn>, segs: seq<Stretch>, tail: seq<Insn>,
                          marks: seq<LazyMark>) {
    forall u :: u == marks ==> MarkingOf(nodes, insns, segs, tail, u)
  }

  ghost predicate MarkingOf(nodes: seq<IrNode>, insns: seq<Insn>, segs: seq<Stretch>, tail: seq<Insn>,
                            marks: seq<LazyMark>) {
    && |nodes| == |insns| && SegsRun(segs, tail)
    && MarksOk(nodes, segs, marks) && insns == List(segs, Flags(marks), tail)
  }

  /** Run `i` stands at position `p`; again with a detour. */
  ghost predicate StandsAt(segs: seq<Stretch>, marks: seq<LazyMark>, i: nat, p: nat) {
    forall u :: u == marks ==> StandsAtOf(segs, u, i, p)
  }

  ghost predicate StandsAtOf(segs: seq<Stretch>, marks: seq<LazyMark>, i: nat, p: nat) {
    i < |segs| == |marks| && p == Start(segs, Flags(marks), i)
  }

  lemma Place(segs: seq<Stretch>, marks: seq<LazyMark>, i: nat) returns (p: nat)
    requires i < |segs| == |marks|
    ensures StandsAt(segs, marks, i, p)
  {
    p := Start(segs, Flags(marks), i);
  }

  /** Run `i` as it stands in the list while it is not fused. */
  lemma MarkingRun(nodes: seq<IrNode>, insns: seq<Insn>, segs: seq<Stretch>, tail: seq<Insn>, marks: seq<LazyMark>,
                   i: nat, p: nat)
    requires Marking(nodes, insns, segs, tail, marks) && |marks| == |segs| && i < |marks| && !marks[i].verified
    requires StandsAt(segs, marks, i, p)
    ensures
      var m, run := marks[i], segs[i].run;
      && p < |nodes| && m.ir == nodes[p] && m.count == |run| && p + |run| <= |nodes| == |insns|
      && insns[p..p + |run|] == run && (run != [] && m.isLoad <==> RunOp(run) == FUSE4)
  {
    assert MarkingOf(nodes, insns, segs, tail, marks) && StandsAtOf(segs, marks, i, p);
    assert MarkOk(nodes, segs, Flags(marks), marks[i], i);
    ListAt(segs, Flags(marks), tail, i);
  }

  lemma BatchedFrom(s: seq<Insn>, run: seq<Insn>, op: Op)
    requires 1 <= |run| <= |s| && s[..|run|] == run
    ensures Batched(s, |run|, op) == Batched(run, |run|, op)
  {
    assert forall k :: 0 <= k < |run| ==> s[k] == run[k];
    assert Entries(s, |run|) == Entries(run, |run|);
  }

  /** When run `i` has been fused, the marks still point to their runs. */
  lemma FusedMarks(nodes: seq<IrNode>, segs: seq<Stretch>, marks: seq<LazyMark>, i: nat, p: nat, n: nat)
    requires MarksOk(nodes, segs, marks) && i < |marks| == |segs| && !marks[i].verified && n == |segs[i].run| >= 2
    requires StandsAt(segs, marks, i, p) && p + n <= |nodes|
    ensures MarksOk(Cut(nodes, p, n - 1), segs, marks[i := marks[i].(verified := true)])
  {
    assert StandsAtOf(segs, marks, i, p);
    var nodes', marks' := Cut(nodes, p, n - 1), marks[i := marks[i].(verified := true)];
    FlagsSet(marks, i);
    forall j | 0 <= j < |marks| ensures MarkOk(nodes', segs, Flags(marks'), marks'[j], j) {
      assert MarkOk(nodes, segs, Flags(marks), marks[j], j);
      FusedMark(nodes, segs, Flags(marks), i, j);
    }
  }

  /** And the list is the one with that run fused. */
  lemma FusedList(insns: seq<Insn>, segs: seq<Stretch>, marks: seq<LazyMark>, tail: seq<Insn>, i: nat, p: nat, n: nat,
                  op: Op)
    requires i < |segs| == |marks| && !marks[i].verified && n == |segs[i].run| >= 2
      && insns == List(segs, Flags(marks), tail)
    requires StandsAt(segs, marks, i, p) && op == RunOp(segs[i].run)
    ensures p + n <= |insns|
    ensures
      List(segs, Flags(marks[i := marks[i].(verified := true)]), tail) ==
      insns[..p] + [Batched(insns[p..], n, op)] + insns[p + n..]
  {
    assert StandsAtOf(segs, marks, i, p);
    FlagsSet(marks, i);
    FuseOne(segs, Flags(marks), tail, i);
    assert insns[p..][..n] == insns[p..p + n];
    BatchedFrom(insns[p..], segs[i].run, op);
  }

  lemma FlagsSet(marks: seq<LazyMark>, i: nat)
    requires i < |marks|
    ensures Flags(marks[i := marks[i].(verified := true)]) == Flags(marks)[i := true]
    ensures Flags(marks[i := marks[i].(failed := true)]) == Flags(marks)
  {
  }

  lemma MarkingBatched(nodes: seq<IrNode>, insns: seq<Insn>, segs: seq<Stretch>, tail: seq<Insn>, marks: seq<LazyMark>,
                       i: nat, p: nat, n: nat, op: Op)
    requires Marking(nodes, insns, segs, tail, marks) && |marks| == |segs| && i < |marks| && !marks[i].verified
    requires StandsAt(segs, marks, i, p) && n == |segs[i].run| >= 2 && op == RunOp(segs[i].run)
    requires p + n <= |nodes| == |insns|
    ensures
      Marking(Cut(nodes, p, n - 1), insns[..p] + [Batched(insns[p..], n, op)] + insns[p + n..], segs, tail,
              marks[i := marks[i].(verified := true)])
  {
    assert MarkingOf(nodes, insns, segs, tail, marks);
    FusedList(insns, segs, marks, tail, i, p, n, op);
    FusedMarks(nodes, segs, marks, i, p, n);
  }

  lemma MarkingFused(nodes: seq<IrNode>, insns: seq<Insn>, segs: seq<Stretch>, tail: seq<Insn>, marks: seq<LazyMark>,
                     i: nat, p: nat)
    requires Marking(nodes, insns, segs, tail, marks) && |marks| == |segs| && i < |marks| && !marks[i].verified
    requires StandsAt(segs, marks, i, p) && marks[i].count >= 2 && p + marks[i].count <= |nodes| == |insns|
    ensures
      var n, op := marks[i].count, if marks[i].isLoad then FUSE4 else FUSE3;
      Marking(Cut(nodes, p, n - 1), insns[..p] + [Batched(insns[p..], n, op)] + insns[p + n..], segs, tail,
              marks[i := marks[i].(verified := true)])
  {
    var n, op := marks[i].count, if marks[i].isLoad then FUSE4 else FUSE3;
    assert n == |segs[i].run| && op == RunOp(segs[i].run) by {
      MarkingRun(nodes, insns, segs, tail, marks, i, p);
    }
    MarkingBatched(nodes, insns, segs, tail, marks, i, p, n, op);
  }

  lemma MarkingFailed(nodes: seq<IrNode>, insns: seq<Insn>, segs: seq<Stretch>, tail: seq<Insn>, marks: seq<LazyMark>,
                      i: nat)
    requires Marking(nodes, insns, segs, tail, marks) && i < |marks|
    ensures Marking(nodes, insns, segs, tail, marks[i := marks[i].(failed := true)])
  {
    assert MarkingOf(nodes, insns, segs, tail, marks);
    FailedMark(nodes, segs, marks, i);
    assert Flags(marks[i := marks[i].(failed := true)]) == Flags(marks);
  }

  /** Marks fresh from the pass. */
  lemma MarkingFresh(nodes: seq<IrNode>, insns: seq<Insn>, marks: seq<LazyMark>, cands: seq<Candidate>,
                     segs: seq<Stretch>, tail: seq<Insn>)
    requires MarksAt(nodes, insns, marks, cands) && insns == List(segs, Unfused(|segs|), tail) && MarksOf(segs) == cands
    requires |nodes| == |insns| && SegsRun(segs, tail)
    ensures |marks| == |segs| && Marking(nodes, insns, segs, tail, marks) && forall m <- marks :: !Final(m)
  {
    forall i | 0 <= i < |marks| ensures !Final(marks[i]) && MarkOk(nodes, segs, Unfused(|segs|), marks[i], i) {
      assert PointsTo(nodes, insns, marks[i], cands[i]);
      ListAt(segs, Unfused(|segs|), tail, i);
    }
    assert Flags(marks) == Unfused(|segs|);
  }

  lemma FreshStretches(nodes: seq<IrNode>, insns: seq<Insn>, marks: seq<LazyMark>, cands: seq<Candidate>)
    returns (segs: seq<Stretch>, tail: seq<Insn>)
    requires MarksAt(nodes, insns, marks, cands) && Runs(insns) && MarksRight(insns, cands, 0, {}) && |nodes| == |insns|
    ensures List(segs, Unfused(|segs|), tail) == insns && MarksOf(segs) == cands
    ensures |marks| == |segs| && Marking(nodes, insns, segs, tail, marks) && forall m <- marks :: !Final(m)
  {
    SplitMarks(insns, cands);
    segs, tail := Split(insns, 0, cands).0, Split(insns, 0, cands).1;
    MarkingFresh(nodes, insns, marks, cands, segs, tail);
  }

  predicate Final(m: LazyMark) {
    m.failed || m.verified
  }

  predicate Fits(m: LazyMark, slot: bool, cfg: Config) {
    1 < m.count <= cfg.maxEntries && slot
  }

  /** What an attempt makes of a mark, given whether its addresses are in RAM and whether its run
      fits a slot that is available. */
  function Tried(m: LazyMark, inRam: bool, fits: bool): LazyMark {
    if Final(m) then m
    else if !inRam then m.(failed := true)
    else if fits then m.(verified := true)
    else m
  }

  /** A block with its marks, for systems with device memory. */
  class LazyBlock {
    const block: Block
    var marks: seq<LazyMark>
    var lazyFusionDone: bool
    ghost var segs: seq<Stretch>
    ghost var tail: seq<Insn>

    ghost predicate Valid()
      reads this, block, block.nodes
    {
      block.Valid() && |marks| == |segs| && Marking(block.nodes, block.insns, segs, tail, marks)
    }

    /** The list as it was marked. */
    ghost function Marked(): seq<Insn>
      reads this
    {
      List(segs, Unfused(|segs|), tail)
    }

    /** Marks a freshly translated block. */
    constructor (block: Block, slot: nat -> bool, cfg: Config)
      requires block.Valid() && Plain(block.insns) && cfg.maxEntries <= 256
      modifies block`irTail, block`nInsn, block`nodes, block`insns, block.nodes`next, block.nodes`insn
      ensures Valid() && this.block == block && !lazyFusionDone && block.Within(old(set n | n in block.nodes))
      ensures (Marked(), MarksOf(segs)) == MarkBlock(old(block.insns), slot, cfg)
      ensures forall m <- marks :: !Final(m)
    {
      MarkedRuns(block.insns, slot, cfg);
      ghost var cands, ss, rest;
      var ms;
      ms, cands := MatchPatternMmio(block, slot, cfg);
      ss, rest := FreshStretches(block.nodes, block.insns, ms, cands);
      this.block, marks, lazyFusionDone := block, ms, false;
      segs, tail := ss, rest;
    }

    /** One undecided mark: checked, and its run fused if it may be. */
    method TryMark(i: nat, X: Regs, ramSize: nat, slot: bool, cfg: Config, ghost all: set<IrNode>) returns (final: bool)
      requires Valid() && block.Within(all) && i < |marks| && !Final(marks[i]) && cfg.maxEntries <= 256
      modifies this`marks, block`irTail, block`nInsn, block`nodes, block`insns, all`next, all`insn
      ensures Valid() && block.Within(all)
      ensures
        var m := old(marks)[i];
        marks == old(marks)[i := Tried(m, AllInRam(segs[i].run, X, ramSize), Fits(m, slot, cfg))]
      ensures final <==> Final(marks[i])
    {
      var m := marks[i];
      ghost var p := Place(segs, marks, i);
      MarkingRun(block.nodes, block.insns, segs, tail, marks, i, p);
      var allRam := VerifyCandidate(block, m.ir, m.count, X, ramSize, p, segs[i].run);
      if !allRam {
        MarkingFailed(block.nodes, block.insns, segs, tail, marks, i);
        marks := marks[i := m.(failed := true)];
        final := true;
      } else {
        final := FuseMark(i, slot, cfg, p, all);
      }
    }

    method FuseMark(i: nat, slot: bool, cfg: Config, ghost p: nat, ghost all: set<IrNode>) returns (fused: bool)
      requires Valid() && block.Within(all) && i < |marks| && !marks[i].verified && cfg.maxEntries <= 256
      requires StandsAt(segs, marks, i, p)
      modifies this`marks, block`irTail, block`nInsn, block`nodes, block`insns, all`next, all`insn
      ensures Valid() && block.Within(all) && fused == Fits(old(marks)[i], slot, cfg)
      ensures marks == if fused then old(marks)[i := old(marks)[i].(verified := true)] else old(marks)
    {
      var m := marks[i];
      ghost var nodes, insns := block.nodes, block.insns;
      MarkingRun(nodes, insns, segs, tail, marks, i, p);
      fused := block.TryFuseSequence(m.ir, m.count, if m.isLoad then FUSE4 else FUSE3, slot, cfg, p, all);
      if fused {
        SetVerified(i, nodes, insns, p);
      }
    }

    method SetVerified(i: nat, ghost nodes: seq<IrNode>, ghost insns: seq<Insn>, ghost p: nat)
      requires |marks| == |segs| && Marking(nodes, insns, segs, tail, marks) && i < |marks| && !marks[i].verified
      requires StandsAt(segs, marks, i, p) && marks[i].count >= 2 && p + marks[i].count <= |nodes| == |insns|
      requires block.Holds(insns, p, Batched(insns[p..], marks[i].count, if marks[i].isLoad then FUSE4 else FUSE3),
                           marks[i].count)
      requires block.nodes == Cut(nodes, p, marks[i].count - 1)
      modifies this`marks
      ensures Valid() && marks == old(marks)[i := old(marks)[i].(verified := true)]
    {
      MarkingFused(nodes, insns, segs, tail, marks, i, p);
      marks := marks[i := marks[i].(verified := true)];
    }

    /** The addresses computed from the registers of `st`, in which the block is entered, are the
        ones its marked runs use.  `LazyFusion.LazyAddressesExact` says when. */
    ghost predicate AddressesHold(env: Env, st: State)
      reads this
    {
      Runs(Marked()) && InList(MarksOf(segs), Marked()) && Checked(env, Marked(), MarksOf(segs), st)
    }

    /** The list as it is runs as the marked list does. */
    ghost predicate RunsAsMarked(env: Env, st: State)
      reads this, block
    {
      Runs(block.insns) && Runs(Marked()) && Run(env, block.insns, st) == Run(env, Marked(), st)
    }

    /** When the block is entered in `st`, the handler of run `i`, which is fused, only accesses
        RAM. */
    ghost predicate FusedInRam(env: Env, st: State, i: nat, ramSize: nat)
      reads this, block
    {
      && i < |segs| == |marks| && marks[i].verified && Runs(block.insns)
      && var p, run := Start(segs, Flags(marks), i), segs[i].run;
         && p < |block.insns| && |run| >= 2 && block.insns[p] == Batched(run, |run|, RunOp(run))
         && match Reach(env, block.insns, st, p)
            case None => true
            case Some(now) => HandlerInRam(env, block.insns[p], now, ramSize)
    }

    /** When the block is entered in `st`, execution passes the handler of run `i`, which is
        fused. */
    ghost predicate FusedPassed(env: Env, st: State, i: nat)
      reads this, block
    {
      && i < |segs| == |marks| && marks[i].verified && Runs(block.insns)
      && Start(segs, Flags(marks), i) < |block.insns| && Passes(env, block.insns, st, Start(segs, Flags(marks), i))
    }

    /** For a block just marked, if nothing writes a base unseen. */
    lemma MarkedAddressesHold(env: Env, st: State, s: seq<Insn>, slot: nat -> bool, cfg: Config,
                              hidden: Hidden)
      requires Plain(s) && (Marked(), MarksOf(segs)) == MarkBlock(s, slot, cfg)
      requires WritesOnly(env, Marked(), hidden) && InList(MarksOf(segs), Marked())
        && BasesSeen(Marked(), MarksOf(segs), hidden) && st.X[0] == 0
      ensures AddressesHold(env, st)
    {
      LazyAddresses(env, s, slot, cfg, st, hidden);
    }

    lemma ListRunsAsMarked(env: Env, st: State)
      requires Valid()
      ensures RunsAsMarked(env, st)
    {
      assert MarkingOf(block.nodes, block.insns, segs, tail, marks);
      ListAlike(env, segs, Flags(marks), tail, st);
    }

    /** In this execution or a later one, in which nothing is checked again: the handler of a
        fused run only accesses RAM if the addresses of the run, computed from the registers the
        block is entered with, are in RAM; and only then, if execution passes the handler. */
    lemma FusedRunExact(env: Env, st: State, i: nat, ramSize: nat)
      requires Valid() && i < |marks| && marks[i].verified && AddressesHold(env, st)
      ensures AllInRam(segs[i].run, st.X, ramSize) ==> FusedInRam(env, st, i, ramSize)
      ensures FusedPassed(env, st, i) ==>
        (FusedInRam(env, st, i, ramSize) <==> AllInRam(segs[i].run, st.X, ramSize))
    {
      assert MarkingOf(block.nodes, block.insns, segs, tail, marks);
      assert MarkOk(block.nodes, segs, Flags(marks), marks[i], i);
      FusedAccesses(env, segs, Flags(marks), tail, i, st, ramSize);
    }

    /** So it is for every fused run and every execution. */
    ghost predicate LaterExact(env: Env, st: State, i: nat, ramSize: nat)
      reads this, block
    {
      AddressesHold(env, st) && FusedPassed(env, st, i) ==>
        (FusedInRam(env, st, i, ramSize) <==> AllInRam(segs[i].run, st.X, ramSize))
    }

    lemma AllExact(env: Env, st: State, i: nat, ramSize: nat)
      requires Valid()
      ensures LaterExact(env, st, i, ramSize)
    {
      if AddressesHold(env, st) && FusedPassed(env, st, i) {
        FusedRunExact(env, st, i, ramSize);
      }
    }

    /** What an attempt makes of mark `i`. */
    ghost predicate Attempted(m: LazyMark, m': LazyMark, i: nat, X: Regs, ramSize: nat, slot: nat -> bool, cfg: Config)
      reads this
    {
      i < |segs| && m' == Tried(m, AllInRam(segs[i].run, X, ramSize), Fits(m, slot(i), cfg))
    }

    /** The loop over the marks. */
    method TryMarks(X: Regs, ramSize: nat, slot: nat -> bool, cfg: Config) returns (allFinal: bool)
      requires Valid() && cfg.maxEntries <= 256
      modifies this`marks, block`irTail, block`nInsn, block`nodes, block`insns, block.nodes`next, block.nodes`insn
      ensures Valid() && |marks| == |old(marks)| && block.Within(old(set n | n in block.nodes))
      ensures forall i :: 0 <= i < |marks| ==> Attempted(old(marks)[i], marks[i], i, X, ramSize, slot, cfg)
      ensures allFinal <==> forall m <- marks :: Final(m)
    {
      allFinal := true;
      ghost var all := set n | n in block.nodes;
      ghost var before := marks;
      for i := 0 to |marks|
        invariant Valid() && block.Within(all) && |marks| == |before|
        invariant forall j :: 0 <= j < i ==> Attempted(before[j], marks[j], j, X, ramSize, slot, cfg)
        invariant forall j :: i <= j < |marks| ==> marks[j] == before[j]
        invariant allFinal <==> forall j :: 0 <= j < i ==> Final(marks[j])
      {
        if !Final(marks[i]) {
          var final := TryMark(i, X, ramSize, slot(i), cfg, all);
          allFinal := allFinal && final;
        }
        assert Attempted(before[i], marks[i], i, X, ramSize, slot, cfg);
      }
    }

    /** The attempt made when the block is entered with registers `X`: unless it is over, or the
        block not hot, or addresses are virtual, every undecided mark is checked, and its run
        fused if all its addresses are in RAM. */
    method Attempt(X: Regs, mmuOn: bool, hot: bool, ramSize: nat, slot: nat -> bool, cfg: Config)
      requires Valid() && cfg.maxEntries <= 256
      modifies this`marks, this`lazyFusionDone
      modifies block`irTail, block`nInsn, block`nodes, block`insns, block.nodes`next, block.nodes`insn
      ensures Valid() && |marks| == |old(marks)| && block.Within(old(set n | n in block.nodes))
      ensures old(lazyFusionDone) || mmuOn || !hot ==> marks == old(marks)
      ensures !old(lazyFusionDone) && !mmuOn && hot ==>
                forall i :: 0 <= i < |marks| ==> Attempted(old(marks)[i], marks[i], i, X, ramSize, slot, cfg)
      ensures lazyFusionDone <==>
        old(lazyFusionDone) || (marks != [] && (mmuOn || (hot && forall m <- marks :: Final(m))))
    {
      if lazyFusionDone || marks == [] {
        return;
      }
      if mmuOn {
        lazyFusionDone := true;
        return;
      }
      if !hot {
        return;
      }
      var allFinal := TryMarks(X, ramSize, slot, cfg);
      if allFinal {
        lazyFusionDone := true;
      }
    }

    /** Whatever it fuses, the list still runs as the marked list does, from every state; and in
        the execution that begins with it, every access of the runs it has fused is in RAM.  In
        any other one their accesses are in RAM exactly if their addresses are. */
    method TryLazyFusion(X: Regs, mmuOn: bool, hot: bool, ramSize: nat, slot: nat -> bool, cfg: Config)
      requires Valid() && cfg.maxEntries <= 256
      modifies this`marks, this`lazyFusionDone
      modifies block`irTail, block`nInsn, block`nodes, block`insns, block.nodes`next, block.nodes`insn
      ensures Valid() && |marks| == |old(marks)| && block.Within(old(set n | n in block.nodes))
      ensures !old(lazyFusionDone) && !mmuOn && hot ==>
                forall i :: 0 <= i < |marks| ==> Attempted(old(marks)[i], marks[i], i, X, ramSize, slot, cfg)
      ensures old(lazyFusionDone) || mmuOn || !hot ==> marks == old(marks)
      ensures lazyFusionDone <==>
        old(lazyFusionDone) || (marks != [] && (mmuOn || (hot && forall m <- marks :: Final(m))))
      ensures forall env, st :: RunsAsMarked(env, st)
      ensures forall env, st: State, i: nat :: st.X == X && AddressesHold(env, st) && NewlyFused(old(marks), i) ==>
                FusedInRam(env, st, i, ramSize)
      ensures forall env, st: State, i: nat, n: nat :: LaterExact(env, st, i, n)
    {
      Attempt(X, mmuOn, hot, ramSize, slot, cfg);
      forall env, st ensures RunsAsMarked(env, st) {
        ListRunsAsMarked(env, st);
      }
      forall env, st: State, i: nat | st.X == X && AddressesHold(env, st) && NewlyFused(old(marks), i)
        ensures FusedInRam(env, st, i, ramSize)
      {
        assert Attempted(old(marks)[i], marks[i], i, X, ramSize, slot, cfg);
        FusedRunExact(env, st, i, ramSize);
      }
      forall env, st: State, i: nat, n: nat ensures LaterExact(env, st, i, n) {
        AllExact(env, st, i, n);
      }
    }

    /** Run `i` has been fused in this attempt. */
    ghost predicate NewlyFused(before: seq<LazyMark>, i: nat)
      reads this
    {
      i < |before| == |marks| && !before[i].verified && marks[i].verified
    }
  }

  // ----- such a run: sw x6, 0(x5); sw x6, 4(x5)

  const BASE: Reg := 5
  const STORES: seq<Insn> := [StoreTo(BASE, 0), StoreTo(BASE, 4)]

  method StoresBlock() returns (block: Block)
    ensures fresh(block) && fresh(block.nodes) && block.Valid() && block.insns == STORES
  {
    var first := new IrNode(StoreTo(BASE, 0));
    var second := new IrNode(StoreTo(BASE, 4));
    first.next := second;
    ghost var nodes := [first, second];
    assert Linked(nodes);
    block := new Block(first, second, 2, nodes, STORES);
  }

  /** The stores are one run, from the start of the block. */
  lemma StoresStretch(segs: seq<Stretch>, tail: seq<Insn>, slot: nat -> bool, cfg: Config)
    requires (List(segs, Unfused(|segs|), tail), MarksOf(segs)) == MarkBlock(STORES, slot, cfg)
    ensures MarkBlock(STORES, slot, cfg) == (STORES, [Candidate(0, 2)])
    ensures |segs| == 1 && segs[0] == Stretch([], STORES) && tail == []
  {
    StoresLeft(STORES[0], STORES[1], 0, {}, slot, cfg);
    var none := Unfused(|segs|);
    assert MarksOf(segs)[0] == Candidate(Start(segs, none, 0), |segs[0].run|);
    ListAt(segs, none, tail, 0);
    assert segs[..0] == [] && segs[1..] == [];
  }

  /** Nothing comes before them, so their addresses hold. */
  lemma StoresHold(env: Env, st: State)
    requires st.X[0] == 0
    ensures Runs(STORES) && InList([Candidate(0, 2)], STORES) && Checked(env, STORES, [Candidate(0, 2)], st)
  {
    forall k: nat | k < 2 ensures AddressAt(env, STORES, st, k) {
      if k == 1 {
        assert Reach(env, STORES, st, 1) ==
          match Exec(env, STORES[0], st) case Next(st') => Reach(env, STORES[1..], st', 0) case _ => None;
      }
    }
  }

  ghost predicate StoresIn(b: LazyBlock)
    reads b
  {
    b.segs == [Stretch([], STORES)] && b.tail == []
  }

  lemma StoresTried(b: LazyBlock, X: Regs, ramSize: nat)
    requires StoresIn(b) && InRam(X[BASE], ramSize) && InRam(Add(X[BASE], 4), ramSize)
    ensures AllInRam(b.segs[0].run, X, ramSize)
  {
    assert b.segs[0].run == STORES;
  }

  lemma StoresList(segs: seq<Stretch>, fused: seq<bool>)
    requires segs == [Stretch([], STORES)] && |fused| == 1
    ensures Start(segs, fused, 0) == 0 && List(segs, fused, []) == Piece(STORES, fused[0])
    ensures !fused[0] ==> List(segs, fused, []) == STORES
  {
    assert segs[..0] == [] && fused[..0] == [] && segs[1..] == [] && fused[1..] == [];
    assert segs[0].gap == [] && segs[0].run == STORES;
  }

  lemma FirstOutside(env: Env, st: State, n: nat)
    requires !InRam(st.X[BASE], n)
    ensures !HandlerInRam(env, Batched(STORES, 2, RunOp(STORES)), st, n)
  {
    var h := Batched(STORES, 2, RunOp(STORES));
    assert h.fuse[..0] == [] && h.fuse[0] == EntryOf(STORES[0]);
    assert !EntryInRam(env, h, st, 0, n);
  }

  lemma StoresOutside(b: LazyBlock, env: Env, st: State, n: nat)
    requires b.Valid() && StoresIn(b) && st.X[0] == 0 && !InRam(st.X[BASE], n)
    ensures b.AddressesHold(env, st) && !b.FusedInRam(env, st, 0, n)
  {
    StoresHold(env, st);
    StoresList(b.segs, Unfused(1));
    assert b.Marked() == STORES && MarksOf(b.segs) == [Candidate(0, 2)];
    StoresCount(b);
    StoresList(b.segs, Flags(b.marks));
    FirstOutside(env, st, n);
  }

  lemma StoresPlain()
    ensures Plain(STORES)
  {
    assert forall i <- STORES :: i == STORES[0] || i == STORES[1];
  }

  lemma StoresMarks(b: LazyBlock, slot: nat -> bool, cfg: Config)
    requires (b.Marked(), MarksOf(b.segs)) == MarkBlock(STORES, slot, cfg)
    ensures StoresIn(b)
  {
    StoresStretch(b.segs, b.tail, slot, cfg);
  }

  lemma StoresAlwaysOutside(b: LazyBlock)
    requires b.Valid() && StoresIn(b)
    ensures forall env, st: State, n: nat :: st.X[0] == 0 && !InRam(st.X[BASE], n) ==>
      b.AddressesHold(env, st) && !b.FusedInRam(env, st, 0, n)
  {
    forall env, st: State, n: nat | st.X[0] == 0 && !InRam(st.X[BASE], n)
      ensures b.AddressesHold(env, st) && !b.FusedInRam(env, st, 0, n)
    {
      StoresOutside(b, env, st, n);
    }
  }

  method StoresMarkedBlock(slot: nat -> bool, cfg: Config) returns (b: LazyBlock)
    requires cfg.maxEntries <= 256
    ensures fresh(b) && fresh(b.block) && fresh(b.block.nodes) && b.Valid() && StoresIn(b)
    ensures !b.lazyFusionDone && forall m <- b.marks :: !Final(m)
  {
    var block := StoresBlock();
    StoresPlain();
    b := new LazyBlock(block, slot, cfg);
    StoresMarks(b, slot, cfg);
  }

  /** The run is fused in an execution in which x5 points into RAM.  In one in which it does not,
      the handler leaves RAM. */
  method FusedThenOutside(X: Regs, ramSize: nat, slot: nat -> bool, cfg: Config) returns (b: LazyBlock)
    requires InRam(X[BASE], ramSize) && InRam(Add(X[BASE], 4), ramSize) && slot(0) && 2 <= cfg.maxEntries <= 256
    ensures fresh(b) && b.Valid() && |b.marks| == 1 && b.marks[0].verified
    ensures forall env, st: State, n: nat :: st.X[0] == 0 && !InRam(st.X[BASE], n) ==>
      b.AddressesHold(env, st) && !b.FusedInRam(env, st, 0, n)
  {
    b := StoresMarkedBlock(slot, cfg);
    StoresTried(b, X, ramSize);
    FuseStores(b, X, ramSize, slot, cfg);
    StoresAlwaysOutside(b);
  }

  method FuseStores(b: LazyBlock, X: Regs, ramSize: nat, slot: nat -> bool, cfg: Config)
    requires b.Valid() && StoresIn(b) && AllInRam(b.segs[0].run, X, ramSize) && slot(0)
    requires 2 <= cfg.maxEntries <= 256 && !b.lazyFusionDone && forall m <- b.marks :: !Final(m)
    modifies b`marks, b`lazyFusionDone
    modifies b.block`irTail, b.block`nInsn, b.block`nodes, b.block`insns, b.block.nodes`next, b.block.nodes`insn
    ensures b.Valid() && StoresIn(b) && |b.marks| == 1 && b.marks[0].verified
  {
    StoresCount(b);
    b.TryLazyFusion(X, false, true, ramSize, slot, cfg);
    assert b.Attempted(old(b.marks)[0], b.marks[0], 0, X, ramSize, slot, cfg);
  }

  lemma StoresCount(b: LazyBlock)
    requires b.Valid() && StoresIn(b)
    ensures |b.marks| == 1 && b.marks[0].count == 2
  {
    assert MarkingOf(b.block.nodes, b.block.insns, b.segs, b.tail, b.marks);
    assert MarkOk(b.block.nodes, b.segs, Flags(b.marks), b.marks[0], 0);
  }
}
