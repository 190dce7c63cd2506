/** The pass of src/emulate.c for systems with device memory, over the linked instruction list:
    it rewrites pairs and batches in place and marks runs of loads and stores. */
module LazyFusionBlock {
  import opened Common
  import opened Fusion
  import opened FusionBlock
  import opened LazyFusion

  /** Destinations of the next `count` instructions. */
  method CollectDests(block: Block, start: IrNode, count: nat, ghost p: nat) returns (dests: set<nat>)
    requires block.Valid() && p + count <= |block.nodes| && p < |block.nodes| && start == block.nodes[p]
    ensures dests == Dests(block.insns[p..], count)
  {
    dests := {};
    ghost var s := block.insns[p..];
    var ir: IrNode? := start;
    var i := 0;
    while i < count && ir != null
      invariant i <= count && ir == NodeAt(block.nodes, p + i) && dests == Dests(s, i)
      decreases count - i
    {
      assert ir.insn == s[i];
      dests := dests + NonZero(ir.insn.rd);
      ir := ir.next;
      i := i + 1;
    }
  }

  /** The list `t` is `s` with the turn's output in place of what it used at position `p`. */
  ghost predicate Replaced(s: seq<Insn>, p: nat, turn: Turn, t: seq<Insn>) {
    1 <= turn.used && p + turn.used <= |s| && t == s[..p] + turn.out + s[p + turn.used..]
  }

  lemma KeptRun(s: seq<Insn>, p: nat, count: nat)
    requires p + count <= |s|
    ensures s == s[..p] + s[p..][..count] + s[p + count..]
    ensures count == 1 ==> s == s[..p] + [s[p..][0]] + s[p + 1..]
  {
  }

  /** `t` is the turn of the pass at the head of `s`, and at a run of loads or stores.  The detours
      over `u` keep the definitions out of the methods, which go by the lemmas below. */
  ghost predicate HeadTurn(s: seq<Insn>, modified: set<nat>, full: bool, slot: bool, cfg: Config, t: Turn) {
    forall u :: u == s ==> HeadTurnOf(u, modified, full, slot, cfg, t)
  }

  ghost predicate HeadTurnOf(s: seq<Insn>, modified: set<nat>, full: bool, slot: bool, cfg: Config, t: Turn) {
    |s| >= 2 && t == MarkHead(s, modified, full, slot, cfg)
  }

  ghost predicate RunTurn(s: seq<Insn>, modified: set<nat>, full: bool, t: Turn) {
    forall u :: u == s ==> RunTurnOf(u, modified, full, t)
  }

  ghost predicate RunTurnOf(s: seq<Insn>, modified: set<nat>, full: bool, t: Turn) {
    |s| >= 2 && s[0].op in {LW, SW} && t == MarkRun(s, modified, full)
  }

  lemma HeadOfPair(s: seq<Insn>, modified: set<nat>, full: bool, slot: bool, cfg: Config, t: Turn, h: Insn)
    requires HeadTurn(s, modified, full, slot, cfg, t) && |s| >= 2 && Pair(s[0], s[1], cfg) == Some(h)
    ensures t == Turn([h], 2, PairWrites(s[0], s[1], h), false)
  {
    assert HeadTurnOf(s, modified, full, slot, cfg, t);
  }

  lemma HeadOfRun(s: seq<Insn>, modified: set<nat>, full: bool, slot: bool, cfg: Config, t: Turn)
    requires HeadTurn(s, modified, full, slot, cfg, t) && |s| >= 2 && Pair(s[0], s[1], cfg).None? && s[0].op in {LW, SW}
    ensures RunTurn(s, modified, full, t)
  {
    assert HeadTurnOf(s, modified, full, slot, cfg, t);
  }

  lemma HeadOfBatch(s: seq<Insn>, modified: set<nat>, full: bool, slot: bool, cfg: Config, t: Turn)
    requires HeadTurn(s, modified, full, slot, cfg, t) && |s| >= 2 && Pair(s[0], s[1], cfg).None?
      && s[0].op !in {LW, SW}
    ensures t == BatchTurn(s, slot, cfg)
  {
    assert HeadTurnOf(s, modified, full, slot, cfg, t);
  }

  ghost function RunMask(s: seq<Insn>, count: nat): set<nat>
    requires 0 < count <= |s|
  {
    if s[0].op == LW then Dests(s, count) else NonZero(s[count - 1].rd)
  }

  lemma RunTurnIs(s: seq<Insn>, modified: set<nat>, full: bool, t: Turn, count: nat, safe: bool)
    requires RunTurn(s, modified, full, t) && s != [] && s[0].op in {LW, SW} && count == RunLengthAt(s, {s[0].op})
    requires safe <==> count > 1 && !full && SafeBases(modified, s, count, s[0].op == LW)
    ensures safe ==> t == Turn(s[..count], count, RunMask(s, count), true)
    ensures !safe ==> t == Turn([s[0]], 1, NonZero(s[0].rd), false)
  {
    assert RunTurnOf(s, modified, full, t);
  }

  /** A run of loads or stores is marked or left alone; `skip` instructions are passed. */
  method MarkRunAt(block: Block, ir: IrNode, modified: set<nat>, full: bool, ghost p: nat, ghost s: seq<Insn>,
                   ghost t: Turn)
    returns (writes: set<nat>, skip: nat, marked: bool)
    requires block.Valid() && p + 1 < |block.nodes| && ir == block.nodes[p] && ir.insn.op in {LW, SW}
    requires s == block.insns[p..] && s[0] == ir.insn && RunTurn(s, modified, full, t)
    ensures Took(t, block.insns, p, block.insns, writes, skip, marked)
  {
    var count := block.CountConsecutive(ir, {ir.insn.op}, p);
    marked := false;
    if count > 1 && !full {
      marked := LazyFusionSafeBaseRegs(block, modified, ir, count, ir.insn.op == LW, p);
    }
    RunTurnIs(s, modified, full, t, count, marked);
    KeptRun(block.insns, p, if marked then count else 1);
    if !marked {
      return NonZero(ir.insn.rd), 1, false;
    }
    skip := count;
    writes := RunWrites(block, ir, count, p);
  }

  /** What skipping a marked run adds to the mask. */
  method RunWrites(block: Block, ir: IrNode, count: nat, ghost p: nat) returns (writes: set<nat>)
    requires block.Valid() && 0 < count && p + count <= |block.nodes| && ir == block.nodes[p]
    ensures writes == RunMask(block.insns[p..], count)
  {
    if ir.insn.op == LW {
      writes := CollectDests(block, ir, count, p);
    } else {
      var last := LastOf(block, ir, count, p);
      writes := NonZero(last.insn.rd);
    }
  }

  /** The node `count - 1` links further on. */
  method LastOf(block: Block, start: IrNode, count: nat, ghost p: nat) returns (ir: IrNode)
    requires block.Valid() && 0 < count && p + count <= |block.nodes| && start == block.nodes[p]
    ensures ir == block.nodes[p + count - 1]
  {
    ir := start;
    for i := 1 to count
      invariant ir == block.nodes[p + i - 1]
    {
      ir := ir.next;
    }
  }

  /** What a turn did, and where it left the pass. */
  ghost predicate Took(t: Turn, before: seq<Insn>, p: nat, after: seq<Insn>, writes: set<nat>, skip: nat,
                       marked: bool) {
    Replaced(before, p, t, after) && writes == t.writes && skip == |t.out| && marked == t.marked
  }

  /** One turn of the pass, at an instruction that has a next one. */
  method MarkAt(block: Block, ir: IrNode, slot: bool, cfg: Config, modified: set<nat>, full: bool, ghost p: nat,
                ghost all: set<IrNode>, ghost t: Turn)
    returns (writes: set<nat>, skip: nat, marked: bool)
    requires block.Valid() && block.Within(all) && p + 1 < |block.nodes| && ir == block.nodes[p]
      && cfg.maxEntries <= 256
    requires HeadTurn(block.insns[p..], modified, full, slot, cfg, t)
    modifies block`irTail, block`nInsn, block`nodes, block`insns, ir`next, ir`insn
    ensures block.Valid() && block.Within(all) && p < |block.nodes| && block.nodes[p] == ir
    ensures block.nodes[..p + 1] == old(block.nodes)[..p + 1]
    ensures Took(t, old(block.insns), p, block.insns, writes, skip, marked)
  {
    ghost var s := block.insns[p..];
    assert ir.next.insn == s[1] && ir.insn == s[0];
    match Pair(ir.insn, ir.next.insn, cfg) {
      case Some(h) =>
        HeadOfPair(s, modified, full, slot, cfg, t, h);
        writes, skip, marked := MarkPairAt(block, ir, h, p, all);
      case None =>
        if ir.insn.op in {LW, SW} {
          HeadOfRun(s, modified, full, slot, cfg, t);
          writes, skip, marked := MarkRunAt(block, ir, modified, full, p, s, t);
        } else {
          HeadOfBatch(s, modified, full, slot, cfg, t);
          writes, skip, marked := MarkBatchAt(block, ir, slot, cfg, p, all);
        }
    }
  }

  method MarkPairAt(block: Block, ir: IrNode, h: Insn, ghost p: nat, ghost all: set<IrNode>)
    returns (writes: set<nat>, skip: nat, marked: bool)
    requires block.Valid() && block.Within(all) && p + 1 < |block.nodes| && ir == block.nodes[p]
    modifies block`irTail, block`nInsn, block`nodes, block`insns, ir`next, ir`insn
    ensures block.Valid() && block.Within(all) && p < |block.nodes| && block.nodes[p] == ir
    ensures block.nodes[..p + 1] == old(block.nodes)[..p + 1]
    ensures
      var s := old(block.insns)[p..];
      Took(Turn([h], 2, PairWrites(s[0], s[1], h), false), old(block.insns), p, block.insns, writes, skip, marked)
  {
    writes, skip, marked := PairWrites(ir.insn, ir.next.insn, h), 1, false;
    block.FuseInto(ir, h, 2, p, all);
  }

  ghost function BatchTurn(s: seq<Insn>, slot: bool, cfg: Config): (t: Turn)
    requires |s| >= 2
    ensures |t.out| == 1 && !t.marked
  {
    match Batch(s[0].op)
    case Some((ops, op)) =>
      var count := RunLengthAt(s, ops);
      var (h, k) := FuseRun(s, count, op, slot, cfg);
      Turn([h], k, Dests(s, count), false)
    case None => Turn([s[0]], 1, NonZero(s[0].rd), false)
  }

  lemma BatchTurnShape(s: seq<Insn>, slot: bool, cfg: Config)
    requires |s| >= 2
    ensures var t := BatchTurn(s, slot, cfg); |t.out| == 1 && t.out == [t.out[0]] && !t.marked
  {
  }

  method MarkBatchAt(block: Block, ir: IrNode, slot: bool, cfg: Config, ghost p: nat, ghost all: set<IrNode>)
    returns (writes: set<nat>, skip: nat, marked: bool)
    requires block.Valid() && block.Within(all) && p + 1 < |block.nodes| && ir == block.nodes[p]
      && cfg.maxEntries <= 256
    modifies block`irTail, block`nInsn, block`nodes, block`insns, ir`next, ir`insn
    ensures block.Valid() && block.Within(all) && p < |block.nodes| && block.nodes[p] == ir
    ensures block.nodes[..p + 1] == old(block.nodes)[..p + 1]
    ensures Took(BatchTurn(old(block.insns)[p..], slot, cfg), old(block.insns), p, block.insns, writes, skip, marked)
  {
    BatchTurnShape(block.insns[p..], slot, cfg);
    skip, marked := 1, false;
    writes := BatchAt(block, ir, slot, cfg, p, all);
  }

  /** Batches what belongs together, or leaves the instruction alone. */
  method BatchAt(block: Block, ir: IrNode, slot: bool, cfg: Config, ghost p: nat, ghost all: set<IrNode>)
    returns (writes: set<nat>)
    requires block.Valid() && block.Within(all) && p + 1 < |block.nodes| && ir == block.nodes[p]
      && cfg.maxEntries <= 256
    modifies block`irTail, block`nInsn, block`nodes, block`insns, ir`next, ir`insn
    ensures block.Within(all) && block.nodes[..] != [] && p < |block.nodes| && block.nodes[p] == ir
    ensures block.nodes[..p + 1] == old(block.nodes)[..p + 1]
    ensures
      var t := BatchTurn(old(block.insns)[p..], slot, cfg);
      block.Holds(old(block.insns), p, t.out[0], t.used) && writes == t.writes
  {
    assert ir.insn == block.insns[p..][0];
    match Batch(ir.insn.op) {
      case Some((ops, op)) =>
        var count := block.CountConsecutive(ir, ops, p);
        writes := CollectDests(block, ir, count, p);
        block.FuseRunAt(ir, count, op, slot, cfg, p, all);
      case None =>
        writes := NonZero(ir.insn.rd);
        RewriteNone(block.insns, p);
    }
  }

  /** The state of the pass: the list, the position, the mask and the marks so far. */
  datatype Pass = Pass(insns: seq<Insn>, pos: nat, modified: set<nat>, marks: seq<Candidate>)

  ghost function NextTurn(head: (seq<Insn>, set<nat>, bool, bool) -> Turn, x: Pass, slot: nat -> bool): Turn
    requires x.pos <= |x.insns|
  {
    head(x.insns[x.pos..], x.modified, |x.marks| >= MAX_LAZY_CANDIDATES, slot(x.pos))
  }

  /** Turn `t` of the pass takes the state `x` to `y`. */
  ghost predicate Advances(x: Pass, t: Turn, y: Pass) {
    && x.pos + 1 < |x.insns|
    && Replaced(x.insns, x.pos, t, y.insns)
    && y.pos == x.pos + |t.out|
    && y.modified == x.modified + t.writes
    && y.marks == x.marks + if t.marked then [Candidate(x.pos, t.used % 256)] else []
  }

  /** What the pass will have produced in the end. */
  ghost function Outcome(head: (seq<Insn>, set<nat>, bool, bool) -> Turn, x: Pass, slot: nat -> bool)
    : (seq<Insn>, seq<Candidate>)
    requires x.pos <= |x.insns|
  {
    var r := Mark(head, x.insns[x.pos..], x.pos, x.modified, |x.marks|, slot);
    (x.insns[..x.pos] + r.0, x.marks + r.1)
  }

  lemma Concat<T>(a: seq<T>, b: seq<T>, c: seq<T>)
    ensures a + (b + c) == (a + b) + c
  {
  }

  lemma OutcomeKept(head: (seq<Insn>, set<nat>, bool, bool) -> Turn, x: Pass, slot: nat -> bool, y: Pass)
    requires x.pos <= |x.insns| && Advances(x, NextTurn(head, x, slot), y)
    ensures y.pos <= |y.insns| && Outcome(head, y, slot) == Outcome(head, x, slot)
  {
    var t, s := NextTurn(head, x, slot), x.insns[x.pos..];
    assert y.insns[..y.pos] == x.insns[..x.pos] + t.out && y.insns[y.pos..] == s[t.used..];
    var mine := if t.marked then [Candidate(x.pos, t.used % 256)] else [];
    var r := Mark(head, s, x.pos, x.modified, |x.marks|, slot);
    var rest := LeavesTurn(head, s, x.pos, x.modified, |x.marks|, slot, r, t);
    assert LeavesOf(head, y.insns[y.pos..], y.pos, y.modified, |y.marks|, slot, rest);
    Concat(x.insns[..x.pos], t.out, rest.0);
    Concat(x.marks, mine, rest.1);
  }

  /** The pass, now in state `x`, is on its way to `goal`.  The detour over `u` keeps the
      recursive function out of the proofs that only pass the fact on. */
  ghost predicate OnCourse(head: (seq<Insn>, set<nat>, bool, bool) -> Turn, x: Pass, slot: nat -> bool,
                           goal: (seq<Insn>, seq<Candidate>)) {
    forall u :: u == x ==> Leads(head, u, slot, goal)
  }

  ghost predicate Leads(head: (seq<Insn>, set<nat>, bool, bool) -> Turn, x: Pass, slot: nat -> bool,
                        goal: (seq<Insn>, seq<Candidate>)) {
    x.pos <= |x.insns| && Outcome(head, x, slot) == goal
  }

  lemma CourseStarts(head: (seq<Insn>, set<nat>, bool, bool) -> Turn, s: seq<Insn>, slot: nat -> bool)
    ensures OnCourse(head, Pass(s, 0, {}, []), slot, Mark(head, s, 0, {}, 0, slot))
  {
    assert s[0..] == s && s[..0] == [];
    var r := Mark(head, s, 0, {}, 0, slot);
    assert s[..0] + r.0 == r.0 && [] + r.1 == r.1;
  }

  lemma CourseTurns(head: (seq<Insn>, set<nat>, bool, bool) -> Turn, x: Pass, slot: nat -> bool, y: Pass,
                    goal: (seq<Insn>, seq<Candidate>))
    requires OnCourse(head, x, slot, goal) && x.pos <= |x.insns| && Advances(x, NextTurn(head, x, slot), y)
    ensures OnCourse(head, y, slot, goal)
  {
    assert Leads(head, x, slot, goal);
    OutcomeKept(head, x, slot, y);
  }

  lemma CourseEnds(head: (seq<Insn>, set<nat>, bool, bool) -> Turn, x: Pass, slot: nat -> bool,
                   goal: (seq<Insn>, seq<Candidate>))
    requires OnCourse(head, x, slot, goal) && x.pos + 1 >= |x.insns|
    ensures goal == (x.insns, x.marks)
  {
    assert Leads(head, x, slot, goal);
    assert x.insns[..x.pos] + x.insns[x.pos..] == x.insns && x.marks + [] == x.marks;
  }

  /** `head` is the turn of the pass. */
  ghost predicate HeadIs(head: (seq<Insn>, set<nat>, bool, bool) -> Turn, cfg: Config) {
    forall s, modified, full, slot :: HeadAt(head, cfg, s, modified, full, slot)
  }

  ghost predicate HeadAt(head: (seq<Insn>, set<nat>, bool, bool) -> Turn, cfg: Config, s: seq<Insn>, modified: set<nat>,
                         full: bool, slot: bool) {
    |s| >= 2 ==> head(s, modified, full, slot) == MarkHead(s, modified, full, slot, cfg)
  }

  lemma TurnsAreHeads(cfg: Config)
    ensures HeadIs(Turns(cfg), cfg)
  {
  }

  /** A mark as the block keeps it: the first instruction of the run, its length, and what has
      become of it. */
  datatype LazyMark = LazyMark(ir: IrNode, count: nat, isLoad: bool, verified: bool, failed: bool)

  /** The marks point to the runs `cands` of the list, all still undecided. */
  ghost predicate MarksAt(nodes: seq<IrNode>, insns: seq<Insn>, marks: seq<LazyMark>, cands: seq<Candidate>) {
    |marks| == |cands| && forall j :: 0 <= j < |marks| ==> PointsTo(nodes, insns, marks[j], cands[j])
  }

  ghost predicate PointsTo(nodes: seq<IrNode>, insns: seq<Insn>, m: LazyMark, c: Candidate) {
    && c.pos < |nodes| == |insns|
    && m == LazyMark(nodes[c.pos], c.count, insns[c.pos].op == LW, false, false)
  }

  ghost predicate Below(cands: seq<Candidate>, p: nat) {
    forall c <- cands :: c.pos < p
  }

  /** Marks before position `p` are not disturbed by what happens from there on. */
  lemma MarksStay(nodes: seq<IrNode>, insns: seq<Insn>, marks: seq<LazyMark>, cands: seq<Candidate>, p: nat,
                  nodes': seq<IrNode>, insns': seq<Insn>)
    requires MarksAt(nodes, insns, marks, cands) && Below(cands, p)
    requires p <= |nodes| && p <= |nodes'| && |nodes| == |insns| && |nodes'| == |insns'|
    requires nodes[..p] == nodes'[..p] && insns[..p] == insns'[..p]
    ensures MarksAt(nodes', insns', marks, cands)
  {
    forall j | 0 <= j < |marks| ensures PointsTo(nodes', insns', marks[j], cands[j]) {
      assert PointsTo(nodes, insns, marks[j], cands[j]) && cands[j] in cands;
      var k := cands[j].pos;
      assert nodes[..p][k] == nodes'[..p][k] && insns[..p][k] == insns'[..p][k];
    }
  }

  lemma MarkAdded(nodes: seq<IrNode>, insns: seq<Insn>, marks: seq<LazyMark>, cands: seq<Candidate>, m: LazyMark,
                  c: Candidate)
    requires MarksAt(nodes, insns, marks, cands) && PointsTo(nodes, insns, m, c)
    ensures MarksAt(nodes, insns, marks + [m], cands + [c])
  {
  }

  /** The pass over the whole list: the list and marks of the specification, the marks pointing
      to their runs. */
  method MatchPatternMmio(block: Block, slot: nat -> bool, cfg: Config)
    returns (marks: seq<LazyMark>, ghost cands: seq<Candidate>)
    requires block.Valid() && cfg.maxEntries <= 256
    modifies block`irTail, block`nInsn, block`nodes, block`insns, block.nodes`next, block.nodes`insn
    ensures block.Valid() && (block.insns, cands) == MarkBlock(old(block.insns), slot, cfg)
    ensures MarksAt(block.nodes, block.insns, marks, cands)
    ensures block.Within(old(set n | n in block.nodes))
  {
    ghost var s, head := block.insns, Turns(cfg);
    CourseStarts(head, s, slot);
    TurnsAreHeads(cfg);
    marks, cands := MarkAll(block, slot, cfg, head, Mark(head, s, 0, {}, 0, slot));
  }

  method MarkAll(block: Block, slot: nat -> bool, cfg: Config, ghost head: (seq<Insn>, set<nat>, bool, bool) -> Turn,
                 ghost goal: (seq<Insn>, seq<Candidate>))
    returns (marks: seq<LazyMark>, ghost cands: seq<Candidate>)
    requires block.Valid() && cfg.maxEntries <= 256 && HeadIs(head, cfg)
    requires OnCourse(head, Pass(block.insns, 0, {}, []), slot, goal)
    modifies block`irTail, block`nInsn, block`nodes, block`insns, block.nodes`next, block.nodes`insn
    ensures block.Valid() && goal == (block.insns, cands) && MarksAt(block.nodes, block.insns, marks, cands)
    ensures block.Within(old(set n | n in block.nodes))
  {
    var i := 0;
    var ir: IrNode? := block.irHead;
    var modified: set<nat> := {};
    ghost var all := set n | n in block.nodes;
    marks, cands := [], [];
    while i < block.nInsn - 1
      invariant block.Valid() && i <= block.nInsn && ir == NodeAt(block.nodes, i) && block.Within(all)
      invariant OnCourse(head, Pass(block.insns, i, modified, cands), slot, goal)
      invariant MarksAt(block.nodes, block.insns, marks, cands) && Below(cands, i)
      decreases block.nInsn - i
    {
      ir, i, modified, marks, cands := MarkStep(block, ir, i, slot, cfg, modified, marks, cands, head, goal, all);
    }
    CourseEnds(head, Pass(block.insns, i, modified, cands), slot, goal);
  }

  method MarkStep(block: Block, ir: IrNode, i: nat, slot: nat -> bool, cfg: Config, modified: set<nat>,
                  marks: seq<LazyMark>, ghost cands: seq<Candidate>,
                  ghost head: (seq<Insn>, set<nat>, bool, bool) -> Turn, ghost goal: (seq<Insn>, seq<Candidate>),
                  ghost all: set<IrNode>)
    returns (ir': IrNode?, i': nat, modified': set<nat>, marks': seq<LazyMark>, ghost cands': seq<Candidate>)
    requires block.Valid() && block.Within(all) && i + 1 < |block.nodes| && ir == block.nodes[i]
      && cfg.maxEntries <= 256
    requires OnCourse(head, Pass(block.insns, i, modified, cands), slot, goal) && HeadIs(head, cfg)
    requires MarksAt(block.nodes, block.insns, marks, cands) && Below(cands, i)
    modifies block`irTail, block`nInsn, block`nodes, block`insns, ir`next, ir`insn
    ensures block.Valid() && block.Within(all) && i < i' <= block.nInsn <= old(block.nInsn)
      && ir' == NodeAt(block.nodes, i')
    ensures OnCourse(head, Pass(block.insns, i', modified', cands'), slot, goal)
    ensures MarksAt(block.nodes, block.insns, marks', cands') && Below(cands', i')
  {
    var skip;
    modified', marks', skip, cands' := MarkTurn(block, ir, i, slot, cfg, modified, marks, cands, head, goal, all);
    ir' := Skip(block, ir, skip, i);
    i' := i + skip;
  }

  ghost function AddIf(cands: seq<Candidate>, marked: bool, pos: nat, skip: nat): seq<Candidate> {
    cands + if marked then [Candidate(pos, skip % 256)] else []
  }

  lemma TurnDone(head: (seq<Insn>, set<nat>, bool, bool) -> Turn, slot: nat -> bool, x: Pass, t: Turn, after: seq<Insn>,
                 writes: set<nat>, skip: nat, marked: bool, goal: (seq<Insn>, seq<Candidate>))
    requires OnCourse(head, x, slot, goal) && x.pos + 1 < |x.insns|
    requires t == head(x.insns[x.pos..], x.modified, |x.marks| >= MAX_LAZY_CANDIDATES, slot(x.pos))
    requires Took(t, x.insns, x.pos, after, writes, skip, marked) && (t.marked ==> skip == t.used)
    ensures OnCourse(head, Pass(after, x.pos + skip, x.modified + writes, AddIf(x.marks, marked, x.pos, skip)), slot,
                     goal)
  {
    var y := Pass(after, x.pos + skip, x.modified + writes, AddIf(x.marks, marked, x.pos, skip));
    assert t == NextTurn(head, x, slot);
    assert Advances(x, t, y);
    CourseTurns(head, x, slot, y, goal);
  }

  method MarkTurn(block: Block, ir: IrNode, i: nat, slot: nat -> bool, cfg: Config, modified: set<nat>,
                  marks: seq<LazyMark>, ghost cands: seq<Candidate>,
                  ghost head: (seq<Insn>, set<nat>, bool, bool) -> Turn, ghost goal: (seq<Insn>, seq<Candidate>),
                  ghost all: set<IrNode>)
    returns (modified': set<nat>, marks': seq<LazyMark>, skip: nat, ghost cands': seq<Candidate>)
    requires block.Valid() && block.Within(all) && i + 1 < |block.nodes| && ir == block.nodes[i]
      && cfg.maxEntries <= 256
    requires OnCourse(head, Pass(block.insns, i, modified, cands), slot, goal) && HeadIs(head, cfg)
    requires MarksAt(block.nodes, block.insns, marks, cands) && Below(cands, i)
    modifies block`irTail, block`nInsn, block`nodes, block`insns, ir`next, ir`insn
    ensures block.Valid() && block.Within(all) && i < |block.nodes| && ir == block.nodes[i]
      && block.nInsn <= old(block.nInsn)
    ensures 0 < skip && i + skip <= block.nInsn
    ensures OnCourse(head, Pass(block.insns, i + skip, modified', cands'), slot, goal)
    ensures MarksAt(block.nodes, block.insns, marks', cands') && Below(cands', i + skip)
  {
    var marked;
    modified', skip, marked := TurnOnCourse(block, ir, i, slot, cfg, modified, |marks| >= MAX_LAZY_CANDIDATES, cands,
                                            head, goal, all);
    MarksStay(old(block.nodes), old(block.insns), marks, cands, i, block.nodes, block.insns);
    cands' := AddIf(cands, marked, i, skip);
    marks' := AddMark(block, ir, skip, marked, marks, i, cands);
  }

  method TurnOnCourse(block: Block, ir: IrNode, i: nat, slot: nat -> bool, cfg: Config, modified: set<nat>, full: bool,
                      ghost cands: seq<Candidate>, ghost head: (seq<Insn>, set<nat>, bool, bool) -> Turn,
                      ghost goal: (seq<Insn>, seq<Candidate>), ghost all: set<IrNode>)
    returns (modified': set<nat>, skip: nat, marked: bool)
    requires block.Valid() && block.Within(all) && i + 1 < |block.nodes| && ir == block.nodes[i]
      && cfg.maxEntries <= 256
    requires OnCourse(head, Pass(block.insns, i, modified, cands), slot, goal) && HeadIs(head, cfg)
    requires full == (|cands| >= MAX_LAZY_CANDIDATES)
    modifies block`irTail, block`nInsn, block`nodes, block`insns, ir`next, ir`insn
    ensures block.Valid() && block.Within(all) && i < |block.nodes| && ir == block.nodes[i]
      && block.nInsn <= old(block.nInsn)
    ensures 0 < skip && i + skip <= block.nInsn
    ensures block.nodes[..i] == old(block.nodes)[..i] && block.insns[..i] == old(block.insns)[..i]
    ensures OnCourse(head, Pass(block.insns, i + skip, modified', AddIf(cands, marked, i, skip)), slot, goal)
  {
    var writes;
    ghost var x, t := Pass(block.insns, i, modified, cands), Turn([], 0, {}, false);
    writes, skip, marked, t := TakeTurn(block, ir, slot(i), cfg, modified, full, i, head, all);
    modified' := modified + writes;
    TurnDone(head, slot, x, t, block.insns, writes, skip, marked, goal);
    FrontsStay(old(block.nodes), block.nodes, old(block.insns), i, t, block.insns);
  }

  lemma FrontsStay(nodes: seq<IrNode>, nodes': seq<IrNode>, s: seq<Insn>, p: nat, t: Turn, s': seq<Insn>)
    requires p < |nodes| && p < |nodes'| && nodes[..p + 1] == nodes'[..p + 1] && Replaced(s, p, t, s')
    ensures p <= |s'| && nodes[..p] == nodes'[..p] && s[..p] == s'[..p]
  {
    assert nodes[..p + 1][..p] == nodes[..p] && nodes'[..p + 1][..p] == nodes'[..p];
  }

  method AddMark(block: Block, ir: IrNode, skip: nat, marked: bool, marks: seq<LazyMark>, ghost i: nat,
                 ghost cands: seq<Candidate>)
    returns (marks': seq<LazyMark>)
    requires block.Valid() && i < |block.nodes| && ir == block.nodes[i] && 0 < skip
    requires MarksAt(block.nodes, block.insns, marks, cands) && Below(cands, i)
    ensures MarksAt(block.nodes, block.insns, marks', AddIf(cands, marked, i, skip))
    ensures Below(AddIf(cands, marked, i, skip), i + skip)
  {
    marks' := marks;
    if marked {
      var m := LazyMark(ir, skip % 256, ir.insn.op == LW, false, false);
      MarkAdded(block.nodes, block.insns, marks, cands, m, Candidate(i, skip % 256));
      marks' := marks + [m];
    }
  }

  method TakeTurn(block: Block, ir: IrNode, slot: bool, cfg: Config, modified: set<nat>, full: bool, ghost p: nat,
                  ghost head: (seq<Insn>, set<nat>, bool, bool) -> Turn, ghost all: set<IrNode>)
    returns (writes: set<nat>, skip: nat, marked: bool, ghost t: Turn)
    requires block.Valid() && block.Within(all) && p + 1 < |block.nodes| && ir == block.nodes[p]
      && cfg.maxEntries <= 256
    requires HeadIs(head, cfg)
    modifies block`irTail, block`nInsn, block`nodes, block`insns, ir`next, ir`insn
    ensures block.Valid() && block.Within(all) && p < |block.nodes| && block.nodes[p] == ir
      && block.nInsn <= old(block.nInsn)
    ensures block.nodes[..p + 1] == old(block.nodes)[..p + 1]
    ensures t == head(old(block.insns)[p..], modified, full, slot)
    ensures Took(t, old(block.insns), p, block.insns, writes, skip, marked)
    ensures 0 < skip && p + skip <= block.nInsn && (t.marked ==> skip == t.used)
  {
    ghost var s := block.insns[p..];
    assert HeadAt(head, cfg, s, modified, full, slot);
    t := head(s, modified, full, slot);
    TurnShrinks(s, modified, full, slot, cfg);
    writes, skip, marked := MarkAt(block, ir, slot, cfg, modified, full, p, all, t);
  }

  lemma TurnShrinks(s: seq<Insn>, modified: set<nat>, full: bool, slot: bool, cfg: Config)
    requires |s| >= 2
    ensures
      var t := MarkHead(s, modified, full, slot, cfg);
      0 < |t.out| <= t.used && (t.marked ==> |t.out| == t.used)
  {
  }

  /** Follows `n` links. */
  method Skip(block: Block, start: IrNode, n: nat, ghost p: nat) returns (ir: IrNode?)
    requires block.Valid() && p + n <= |block.nodes| && p < |block.nodes| && start == block.nodes[p]
    ensures ir == NodeAt(block.nodes, p + n)
  {
    ir := start;
    for k := 0 to n
      invariant ir == NodeAt(block.nodes, p + k)
    {
      ir := ir.next;
    }
  }
}
