/** Which runs of loads and stores are marked for later fusion. */
module LazyPatterns {
  import opened Fusion
  import opened FusionPatterns
  import opened LazyFusion

  /** The base of instruction `k` is x0, or it has not been written in the block, it is none of a0
      to a7, registers 10 to 17, and for loads it is no earlier destination of the run. */
  ghost predicate BaseSafe(modified: set<nat>, s: seq<Insn>, k: nat, isLoad: bool)
    requires k < |s|
  {
    s[k].rs1 != 0 ==>
      && s[k].rs1 as nat !in modified && !(10 <= s[k].rs1 <= 17)
      && (isLoad ==> forall j :: 0 <= j < k ==> s[k].rs1 != s[j].rd)
  }

  ghost predicate AllBasesSafe(modified: set<nat>, s: seq<Insn>, count: nat, isLoad: bool)
    requires count <= |s|
  {
    forall k :: 0 <= k < count ==> BaseSafe(modified, s, k, isLoad)
  }

  lemma ChaseExact(s: seq<Insn>, k: nat)
    requires k < |s|
    ensures NonZero(s[k].rs1) !! Dests(s, k) <==> (s[k].rs1 != 0 ==> forall j :: 0 <= j < k ==> s[k].rs1 != s[j].rd)
  {
    DestsAre(s, k);
    if s[k].rs1 != 0 && NonZero(s[k].rs1) !! Dests(s, k) {
      forall j | 0 <= j < k ensures s[k].rs1 != s[j].rd {
        assert s[j].rd != 0 ==> s[j].rd as nat in Dests(s, k);
        assert s[k].rs1 as nat in NonZero(s[k].rs1);
      }
    }
  }

  lemma SafeStep(modified: set<nat>, s: seq<Insn>, count: nat, isLoad: bool)
    requires 0 < count <= |s|
    ensures SafeBases(modified, s, count, isLoad) <==>
      SafeBases(modified, s, count - 1, isLoad) && BaseSafe(modified, s, count - 1, isLoad)
  {
    var b := NonZero(s[count - 1].rs1);
    ChaseExact(s, count - 1);
    assert Bases(s, count) !! modified <==> Bases(s, count - 1) !! modified && b !! modified;
    assert Bases(s, count) !! ARG_REGS <==> Bases(s, count - 1) !! ARG_REGS && b !! ARG_REGS;
    assert b !! modified <==> (s[count - 1].rs1 != 0 ==> s[count - 1].rs1 as nat !in modified);
    assert b !! ARG_REGS <==> (s[count - 1].rs1 != 0 ==> !(10 <= s[count - 1].rs1 <= 17));
  }

  /** What the tests of the masks come to. */
  lemma {:induction false} SafeBasesExact(modified: set<nat>, s: seq<Insn>, count: nat, isLoad: bool)
    requires count <= |s|
    ensures SafeBases(modified, s, count, isLoad) <==> AllBasesSafe(modified, s, count, isLoad)
    decreases count
  {
    if count > 0 {
      SafeBasesExact(modified, s, count - 1, isLoad);
      SafeStep(modified, s, count, isLoad);
    }
  }

  /** A run of two or more loads, or of stores, that is not broken up by a pair is marked exactly if
      fewer than eight have been and all its bases are safe. */
  lemma RunsMarked(s: seq<Insn>, n: nat, modified: set<nat>, cands: nat, slot: bool, cfg: Config)
    requires |s| >= 2 && LongestRun(s, n) && s[0].op in {LW, SW}
    ensures
      MarkHead(s, modified, cands >= MAX_LAZY_CANDIDATES, slot, cfg).marked <==>
        Pair(s[0], s[1], cfg).None? && n >= 2 && cands < 8 && AllBasesSafe(modified, s, n, s[0].op == LW)
  {
    RunLengthIs(s, {s[0].op}, n);
    SafeBasesExact(modified, s, n, s[0].op == LW);
  }

  /** A turn that may not mark does not. */
  ghost predicate HeedsFull(head: (seq<Insn>, set<nat>, bool, bool) -> Turn) {
    forall s, modified, slot :: !head(s, modified, true, slot).marked
  }

  lemma FullHeeded(cfg: Config)
    ensures HeedsFull(Turns(cfg))
  {
    forall s, modified, slot ensures !Turns(cfg)(s, modified, true, slot).marked {
      if |s| >= 2 {
        assert !MarkHead(s, modified, true, slot, cfg).marked;
      }
    }
  }

  lemma {:induction false} MarksBounded(head: (seq<Insn>, set<nat>, bool, bool) -> Turn, s: seq<Insn>, pos: nat,
                                        modified: set<nat>, cands: nat, slot: nat -> bool,
                                        r: (seq<Insn>, seq<Candidate>))
    requires Plain(s) && GoodTurns(head) && HeedsFull(head) && Leaves(head, s, pos, modified, cands, slot, r)
    requires cands <= 8
    ensures |r.1| + cands <= 8
    decreases |s|
  {
    if |s| > 1 {
      var t := head(s, modified, cands >= MAX_LAZY_CANDIDATES, slot(pos));
      OneTurn(head, s, modified, cands >= MAX_LAZY_CANDIDATES, slot(pos));
      PlainSuffix(s, t.used);
      var rest := LeavesTurn(head, s, pos, modified, cands, slot, r, t);
      MarksBounded(head, s[t.used..], pos + |t.out|, modified + t.writes, if t.marked then cands + 1 else cands, slot,
                   rest);
    } else {
      LeavesShort(head, s, pos, modified, cands, slot, r);
    }
  }

  /** Never more than eight runs are marked in a block. */
  lemma AtMostEight(s: seq<Insn>, slot: nat -> bool, cfg: Config)
    requires Plain(s)
    ensures |MarkBlock(s, slot, cfg).1| <= 8
  {
    TurnsGood(cfg);
    FullHeeded(cfg);
    MarksBounded(Turns(cfg), s, 0, {}, 0, slot, MarkBlock(s, slot, cfg));
  }
}
