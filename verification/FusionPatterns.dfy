/** Which instructions the rewriting pass fuses. */
module FusionPatterns {
  import opened Common
  import opened Fusion

  /** Exactly these pairs are fused; a7 is register 17, which the reduced register file lacks. */
  lemma PairsFused(i: Insn, n: Insn, cfg: Config)
    ensures Pair(i, n, cfg).Some? <==>
      || (i.op == LUI && n.op == ADD && (n.rs1 == i.rd || n.rs2 == i.rd))
      || (i.op == LUI && n.op == ADDI && n.rd == n.rs1 == i.rd && i.rd != 0)
      || (i.op == LUI && n.op == LW && n.rs1 == i.rd && i.rd != 0)
      || (i.op == LUI && n.op == SW && n.rs1 == i.rd && n.rs2 != i.rd && i.rd != 0)
      || (i.op == LW && n.op == ADDI && n.rd == n.rs1 == i.rs1 && i.rd != i.rs1)
      || (i.op == ADDI && n.op == ECALL && i.rd == 17 && i.rs1 == 0 && !cfg.rv32e)
      || (i.op == ADDI && n.op == BNE && n.rs1 == i.rd && n.rs2 == 0 && i.rd != 0)
  {
  }

  /** The operations that are fused in runs, and which of them go together. */
  ghost predicate Together(a: Op, b: Op) {
    (a == b && a in {LUI, ADDI, LW, SW}) || (a in {SLLI, SRLI, SRAI} && b in {SLLI, SRLI, SRAI})
  }

  /** The first `n` instructions are a run, as long as it can be. */
  ghost predicate LongestRun(s: seq<Insn>, n: nat) {
    && 1 <= n <= |s|
    && (forall k :: 0 <= k < n ==> Together(s[0].op, s[k].op))
    && (n < |s| ==> !Together(s[0].op, s[n].op))
  }

  lemma {:induction false} RunLengthIs(s: seq<Insn>, ops: set<Op>, n: nat)
    requires 1 <= n <= |s| && forall k :: 0 <= k < n ==> s[k].op in ops
    requires n < |s| ==> s[n].op !in ops
    ensures RunLengthAt(s, ops) == n
    decreases n
  {
    if n > 1 {
      assert forall k :: 0 <= k < n - 1 ==> s[1..][k] == s[k + 1];
      RunLengthIs(s[1..], ops, n - 1);
    }
  }

  /** A run of two or more instructions that is not broken up by a pair and fits a slot of the pool
      becomes one instruction that stands for all of it; any other stays. */
  lemma RunsFused(s: seq<Insn>, n: nat, slot: bool, cfg: Config)
    requires |s| >= 2 && Pair(s[0], s[1], cfg).None? && LongestRun(s, n)
    ensures
      var (h, k) := FuseHead(s, slot, cfg);
      if 2 <= n <= cfg.maxEntries && slot
      then k == n == h.imm2 && IsFused(h.op) && h.fuse == Entries(s, n)
      else k == 1 && h == s[0]
  {
    var (ops, op) := Batch(s[0].op).value;
    assert forall k :: 0 <= k < |s| ==> (s[k].op in ops <==> Together(s[0].op, s[k].op));
    RunLengthIs(s, ops, n);
  }

  /** Nothing else is fused. */
  lemma OthersStay(s: seq<Insn>, slot: bool, cfg: Config)
    requires |s| >= 2 && Pair(s[0], s[1], cfg).None? && !Together(s[0].op, s[0].op)
    ensures FuseHead(s, slot, cfg) == (s[0], 1)
  {
  }
}
