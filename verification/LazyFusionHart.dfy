/** Running a block on a system with device memory: when it is entered, some of its marked runs
    may be fused, and then the hart walks its list. */
module LazyFusionHart {
  import opened Common
  import opened Fusion
  import opened FusionBlock
  import opened FusionHart
  import opened LazyFusion
  import opened LazyFusionBlock
  import opened LazyFusionEntry

  // ----- the marked list

  /** The instructions of `out` can be run by the handlers, and those the model does not look into
      come from `s`. */
  ghost predicate Kept(out: seq<Insn>, s: seq<Insn>) {
    forall x <- out :: WellBatched(x) && (x.op.OTHER? ==> x in s)
  }

  ghost predicate KeptHeads(head: (seq<Insn>, set<nat>, bool, bool) -> Turn) {
    forall s: seq<Insn>, modified, full, slot :: |s| >= 2 && Plain(s) ==> Kept(head(s, modified, full, slot).out, s)
  }

  lemma HeadKept(s: seq<Insn>, modified: set<nat>, full: bool, slot: bool, cfg: Config)
    requires |s| >= 2 && Plain(s)
    ensures Kept(MarkHead(s, modified, full, slot, cfg).out, s)
  {
    assert s[0] in s;
    if Pair(s[0], s[1], cfg).None? {
      if s[0].op in {LW, SW} {
        assert forall k :: 0 <= k < RunLengthAt(s, {s[0].op}) ==> s[k] in s;
      } else if Batch(s[0].op).Some? {
        var (ops, op) := Batch(s[0].op).value;
        RunWellBatched(s, RunLengthAt(s, ops), op, slot, cfg);
      }
    }
  }

  lemma HeadsKept(cfg: Config)
    ensures KeptHeads(Turns(cfg))
  {
    forall s: seq<Insn>, modified, full, slot | |s| >= 2 && Plain(s)
      ensures Kept(Turns(cfg)(s, modified, full, slot).out, s)
    {
      HeadKept(s, modified, full, slot, cfg);
    }
  }

  lemma {:induction false} MarkKept(head: (seq<Insn>, set<nat>, bool, bool) -> Turn, s: seq<Insn>, pos: nat,
                                    modified: set<nat>, cands: nat, slot: nat -> bool, r: (seq<Insn>, seq<Candidate>))
    requires KeptHeads(head) && GoodTurns(head) && Plain(s) && Leaves(head, s, pos, modified, cands, slot, r)
    ensures Kept(r.0, s)
    decreases |s|
  {
    if |s| > 1 {
      var t := head(s, modified, cands >= MAX_LAZY_CANDIDATES, slot(pos));
      OneTurn(head, s, modified, cands >= MAX_LAZY_CANDIDATES, slot(pos));
      PlainSuffix(s, t.used);
      var rest := LeavesTurn(head, s, pos, modified, cands, slot, r, t);
      MarkKept(head, s[t.used..], pos + |t.out|, modified + t.writes,
               if t.marked then cands + 1 else cands, slot, rest);
      assert Kept(t.out, s);
    } else {
      LeavesShort(head, s, pos, modified, cands, slot, r);
    }
  }

  lemma BlockKept(s: seq<Insn>, slot: nat -> bool, cfg: Config)
    requires Plain(s)
    ensures Kept(MarkBlock(s, slot, cfg).0, s)
  {
    HeadsKept(cfg);
    TurnsGood(cfg);
    MarkKept(Turns(cfg), s, 0, {}, 0, slot, MarkBlock(s, slot, cfg));
  }

  /** The marked list does what the decoded block does, from every state with x0 clear, on the
      conditions of `FusePreserves`. */
  lemma MarkPreserves(env: Env, s: seq<Insn>, slot: nat -> bool, cfg: Config, st: State, zero: Insn -> OnZero)
    requires Runnable(env, s, st) && KeepsZero(env, s, zero) && st.X[0] == 0
    requires ZeroSafe(MarkBlock(s, slot, cfg).0, false, ZERO_READERS, zero)
    ensures Runs(MarkBlock(s, slot, cfg).0) && Run(env, MarkBlock(s, slot, cfg).0, st) == Run(env, s, st)
  {
    MarkExact(env, s, slot, cfg, st);
    BlockKept(s, slot, cfg);
    SafeIsHeld(env, MarkBlock(s, slot, cfg).0, false, st, zero);
  }

  // ----- the list with some runs fused

  lemma PieceKept(run: seq<Insn>, fused: bool)
    requires UniformRun(run)
    ensures forall x <- Piece(run, fused) :: WellBatched(x)
  {
    if fused && |run| >= 2 {
      assert run[0] in run;
      assert forall e <- Entries(run, |run|) :: e.op == run[0].op;
    }
  }

  lemma {:induction false} ListKept(segs: seq<Stretch>, fused: seq<bool>, tail: seq<Insn>)
    requires |segs| == |fused| && SegsRun(segs, tail)
    requires forall x <- List(segs, Unfused(|segs|), tail) :: WellBatched(x)
    ensures forall x <- List(segs, fused, tail) :: WellBatched(x)
    decreases |segs|
  {
    if segs != [] {
      assert Unfused(|segs|)[1..] == Unfused(|segs| - 1) && StretchRuns(segs[0]);
      var all := List(segs, Unfused(|segs|), tail);
      assert all == segs[0].gap + segs[0].run + List(segs[1..], Unfused(|segs| - 1), tail);
      assert forall x <- segs[0].gap :: x in all;
      assert forall x <- List(segs[1..], Unfused(|segs| - 1), tail) :: x in all;
      ListKept(segs[1..], fused[1..], tail);
      PieceKept(segs[0].run, fused[0]);
    }
  }

  lemma BlockRuns(b: LazyBlock)
    requires b.Valid() && forall x <- b.Marked() :: WellBatched(x)
    ensures forall x <- b.block.insns :: WellBatched(x) && Executable(x)
  {
    assert MarkingOf(b.block.nodes, b.block.insns, b.segs, b.tail, b.marks);
    ListKept(b.segs, Flags(b.marks), b.tail);
    ListRuns(b.segs, Flags(b.marks), b.tail);
  }

  method RunMarked(hart: Hart, b: LazyBlock) returns (exit: Exit)
    requires hart.Valid() && b.Valid() && Runs(b.Marked()) && b.RunsAsMarked(hart.env, hart.Now())
    requires forall x <- b.Marked() :: WellBatched(x)
    modifies hart, hart.X
    ensures hart.Did(exit, Run(hart.env, b.Marked(), old(hart.Now())))
  {
    BlockRuns(b);
    exit := hart.RunBlock(b.block);
  }

  method EnterMarked(hart: Hart, b: LazyBlock, mmuOn: bool, hot: bool, ramSize: nat, slot: nat -> bool, cfg: Config)
    returns (exit: Exit)
    requires hart.Valid() && b.Valid() && cfg.maxEntries <= 256 && Runs(b.Marked())
    requires forall x <- b.Marked() :: WellBatched(x)
    modifies hart, hart.X, b`marks, b`lazyFusionDone
    modifies b.block`irTail, b.block`nInsn, b.block`nodes, b.block`insns, b.block.nodes`next, b.block.nodes`insn
    ensures b.Valid() && b.Marked() == old(b.Marked()) && hart.Did(exit, Run(hart.env, b.Marked(), old(hart.Now())))
    ensures FusedNow(b, old(b.marks), hart.env, old(hart.Now()), ramSize)
  {
    ghost var st := hart.Now();
    b.TryLazyFusion(hart.X[..], mmuOn, hot, ramSize, slot, cfg);
    assert b.RunsAsMarked(hart.env, st);
    exit := RunMarked(hart, b);
  }

  /** The runs fused since the marks were `before` only access RAM in the execution from `st`, if
      the checked addresses hold. */
  ghost predicate FusedNow(b: LazyBlock, before: seq<LazyMark>, env: Env, st: State, ramSize: nat)
    reads b, b.block
  {
    b.AddressesHold(env, st) ==>
      forall i: nat :: b.NewlyFused(before, i) ==> b.FusedInRam(env, st, i, ramSize)
  }

  /** Enters a marked block: whatever is fused then and was before, the hart is left where running
      the block as it was decoded, from `s`, would have left it, and the runs fused now only
      access RAM. */
  method EnterBlock(hart: Hart, b: LazyBlock, mmuOn: bool, hot: bool, ramSize: nat, slot: nat -> bool, cfg: Config,
                    ghost s: seq<Insn>, ghost slots: nat -> bool, ghost zero: Insn -> OnZero)
    returns (exit: Exit)
    requires hart.Valid() && b.Valid() && cfg.maxEntries <= 256
    requires b.Marked() == MarkBlock(s, slots, cfg).0
    requires Runnable(hart.env, s, hart.Now()) && KeepsZero(hart.env, s, zero) && hart.X[0] == 0
    requires ZeroSafe(b.Marked(), false, ZERO_READERS, zero)
    modifies hart, hart.X, b`marks, b`lazyFusionDone
    modifies b.block`irTail, b.block`nInsn, b.block`nodes, b.block`insns, b.block.nodes`next, b.block.nodes`insn
    ensures b.Valid() && b.Marked() == old(b.Marked()) && hart.Did(exit, Run(hart.env, s, old(hart.Now())))
    ensures FusedNow(b, old(b.marks), hart.env, old(hart.Now()), ramSize)
  {
    MarkPreserves(hart.env, s, slots, cfg, hart.Now(), zero);
    BlockKept(s, slots, cfg);
    exit := EnterMarked(hart, b, mmuOn, hot, ramSize, slot, cfg);
  }
}
