/** Deferred fusion of loads and stores in src/emulate.c, for systems with device memory: the
    pass only marks runs of LW or SW, and a marked run is fused later, once its addresses,
    computed from the registers at the start of the block, are seen to lie in RAM.

    Sets of registers stand for the 32-bit masks. */
module LazyFusion {
  import opened Common
  import opened Fusion
  import opened FusionBlock

  const MAX_LAZY_CANDIDATES: nat := 8
  const ARG_REGS: set<nat> := {10, 11, 12, 13, 14, 15, 16, 17}

  /** A marked run: its position in the rewritten list and its length, kept in a byte. */
  datatype Candidate = Candidate(pos: nat, count: nat)

  // ----- which runs are marked

  /** The base registers of the first `count` instructions. */
  ghost function Bases(s: seq<Insn>, count: nat): set<nat>
    requires count <= |s|
  {
    if count == 0 then {} else Bases(s, count - 1) + NonZero(s[count - 1].rs1)
  }

  /** Their destinations. */
  ghost function Dests(s: seq<Insn>, count: nat): set<nat>
    requires count <= |s|
  {
    if count == 0 then {} else Dests(s, count - 1) + NonZero(s[count - 1].rd)
  }

  /** No base register is the destination of an earlier instruction of the run. */
  ghost predicate Unchased(s: seq<Insn>, count: nat)
    requires count <= |s|
  {
    count == 0 || (Unchased(s, count - 1) && NonZero(s[count - 1].rs1) !! Dests(s, count - 1))
  }

  /** The base registers hold at the start of the run, and within it, what they held at the
      start of the block; and none of them is an argument register. */
  ghost predicate SafeBases(modified: set<nat>, s: seq<Insn>, count: nat, isLoad: bool)
    requires count <= |s|
  {
    && Bases(s, count) !! modified
    && Bases(s, count) !! ARG_REGS
    && (isLoad ==> Unchased(s, count))
  }

  lemma {:induction false} NoBases(s: seq<Insn>, count: nat)
    requires count <= |s| && Bases(s, count) == {}
    ensures Unchased(s, count)
  {
    if count > 0 {
      assert NonZero(s[count - 1].rs1) == {};
      NoBases(s, count - 1);
    }
  }

  lemma {:induction false} ChasedStays(s: seq<Insn>, i: nat, n: nat)
    requires i <= n <= |s| && !Unchased(s, i)
    ensures !Unchased(s, n)
    decreases n
  {
    if i < n {
      ChasedStays(s, i, n - 1);
    }
  }

  /** What the tests of the masks decide. */
  lemma MasksDecide(modified: set<nat>, s: seq<Insn>, count: nat, isLoad: bool, bases: set<nat>)
    requires count <= |s| && bases == Bases(s, count)
    ensures bases == {} ==> SafeBases(modified, s, count, isLoad)
    ensures bases * ARG_REGS != {} || bases * modified != {} ==> !SafeBases(modified, s, count, isLoad)
    ensures bases * ARG_REGS == {} && bases * modified == {} ==>
      (SafeBases(modified, s, count, isLoad) <==> !isLoad || Unchased(s, count))
  {
    if bases == {} {
      NoBases(s, count);
    }
  }

  /** The check as the source makes it, along the list. */
  method LazyFusionSafeBaseRegs(block: Block, modified: set<nat>, start: IrNode, count: nat, isLoad: bool, ghost p: nat)
    returns (safe: bool)
    requires block.Valid() && p + count <= |block.nodes| && p < |block.nodes| && start == block.nodes[p]
    ensures safe <==> SafeBases(modified, block.insns[p..], count, isLoad)
  {
    ghost var s := block.insns[p..];
    var bases := CollectBases(block, start, count, p, s);
    MasksDecide(modified, s, count, isLoad, bases);
    if bases == {} {
      return true;
    }
    if bases * ARG_REGS != {} {
      return false;
    }
    if bases * modified != {} {
      return false;
    }
    if !isLoad {
      return true;
    }
    safe := NoChasing(block, start, count, p, s);
  }

  method CollectBases(block: Block, start: IrNode, count: nat, ghost p: nat, ghost s: seq<Insn>)
    returns (bases: set<nat>)
    requires block.Valid() && p + count <= |block.nodes| && p < |block.nodes| && start == block.nodes[p]
    requires s == block.insns[p..]
    ensures bases == Bases(s, count)
  {
    bases := {};
    var ir: IrNode? := start;
    var i := 0;
    while i < count && ir != null
      invariant i <= count && ir == NodeAt(block.nodes, p + i) && bases == Bases(s, i)
      decreases count - i
    {
      assert ir.insn == s[i];
      bases := bases + NonZero(ir.insn.rs1);
      ir := ir.next;
      i := i + 1;
    }
  }

  /** The scan has come to instruction `i` of `s`, with `w` for the destinations so far; again with
      a detour. */
  ghost predicate Scanned(s: seq<Insn>, i: nat, w: set<nat>) {
    forall u :: u == s ==> ScannedOf(u, i, w)
  }

  ghost predicate ScannedOf(s: seq<Insn>, i: nat, w: set<nat>) {
    i <= |s| && w == Dests(s, i) && Unchased(s, i)
  }

  lemma ScanStarts(s: seq<Insn>)
    ensures Scanned(s, 0, {})
  {
  }

  lemma ScanNext(s: seq<Insn>, i: nat, w: set<nat>)
    requires Scanned(s, i, w) && i < |s|
    ensures if s[i].rs1 != 0 && s[i].rs1 as nat in w then !Unchased(s, i + 1)
        else Scanned(s, i + 1, w + NonZero(s[i].rd))
  {
    assert ScannedOf(s, i, w);
    assert NonZero(s[i].rs1) !! w <==> !(s[i].rs1 != 0 && s[i].rs1 as nat in w);
  }

  method NoChasing(block: Block, start: IrNode, count: nat, ghost p: nat, ghost s: seq<Insn>) returns (safe: bool)
    requires block.Valid() && p + count <= |block.nodes| && p < |block.nodes| && start == block.nodes[p]
    requires s == block.insns[p..]
    ensures safe <==> Unchased(s, count)
  {
    var written: set<nat> := {};
    var ir: IrNode? := start;
    var i := 0;
    ScanStarts(s);
    while i < count && ir != null
      invariant i <= count && ir == NodeAt(block.nodes, p + i) && Scanned(s, i, written)
      decreases count - i
    {
      assert ir.insn == s[i];
      ScanNext(s, i, written);
      if ir.insn.rs1 != 0 && ir.insn.rs1 as nat in written {
        ChasedStays(s, i + 1, count);
        return false;
      }
      written := written + NonZero(ir.insn.rd);
      ir := ir.next;
      i := i + 1;
    }
    assert ScannedOf(s, count, written);
    safe := true;
  }

  // ----- the marking pass

  /** One turn: the instructions it leaves, how many it looked at, the registers it adds to the
      mask, and whether it marked a run. */
  datatype Turn = Turn(out: seq<Insn>, used: nat, writes: set<nat>, marked: bool)

  function PairWrites(i: Insn, n: Insn, h: Insn): set<nat> {
    match h.op
    case FUSE2 => NonZero(i.rd) + NonZero(n.rd)
    case FUSE9 => NonZero(h.rs2) + NonZero(h.rd)
    case FUSE11 => NonZero(h.rd) + NonZero(h.rs1)
    case _ => NonZero(h.rd)
  }

  ghost function MarkRun(s: seq<Insn>, modified: set<nat>, full: bool): Turn
    requires |s| >= 2 && s[0].op in {LW, SW}
  {
    var count := RunLengthAt(s, {s[0].op});
    if count > 1 && !full && SafeBases(modified, s, count, s[0].op == LW) then
      Turn(s[..count], count, if s[0].op == LW then Dests(s, count) else NonZero(s[count - 1].rd), true)
    else Turn([s[0]], 1, NonZero(s[0].rd), false)
  }

  ghost function MarkHead(s: seq<Insn>, modified: set<nat>, full: bool, slot: bool, cfg: Config): Turn
    requires |s| >= 2
  {
    match Pair(s[0], s[1], cfg)
    case Some(h) => Turn([h], 2, PairWrites(s[0], s[1], h), false)
    case None =>
      if s[0].op in {LW, SW} then MarkRun(s, modified, full)
      else
        match Batch(s[0].op)
        case Some((ops, op)) =>
          var count := RunLengthAt(s, ops);
          var (h, k) := FuseRun(s, count, op, slot, cfg);
          Turn([h], k, Dests(s, count), false)
        case None => Turn([s[0]], 1, NonZero(s[0].rd), false)
  }

  /** The list after the pass and the marked runs, from position `pos` on; `head` says what one
      turn does. */
  ghost function Mark(head: (seq<Insn>, set<nat>, bool, bool) -> Turn, s: seq<Insn>, pos: nat, modified: set<nat>,
                      cands: nat, slot: nat -> bool): (seq<Insn>, seq<Candidate>)
    decreases |s|
  {
    if |s| <= 1 then (s, [])
    else
      var t := head(s, modified, cands >= MAX_LAZY_CANDIDATES, slot(pos));
      if 1 <= t.used <= |s| then
        var rest := Mark(head, s[t.used..], pos + |t.out|, modified + t.writes,
                         if t.marked then cands + 1 else cands, slot);
        (t.out + rest.0, (if t.marked then [Candidate(pos, t.used % 256)] else []) + rest.1)
      else (s, [])
  }

  /** `r` is what the pass leaves of `s`.  The detour over `u` keeps the recursive function out of
      the inductions, which go by `LeavesTurn`. */
  ghost predicate Leaves(head: (seq<Insn>, set<nat>, bool, bool) -> Turn, s: seq<Insn>, pos: nat, modified: set<nat>,
                         cands: nat, slot: nat -> bool, r: (seq<Insn>, seq<Candidate>)) {
    forall u :: u == s ==> LeavesOf(head, u, pos, modified, cands, slot, r)
  }

  ghost predicate LeavesOf(head: (seq<Insn>, set<nat>, bool, bool) -> Turn, s: seq<Insn>, pos: nat, modified: set<nat>,
                           cands: nat, slot: nat -> bool, r: (seq<Insn>, seq<Candidate>)) {
    r == Mark(head, s, pos, modified, cands, slot)
  }

  lemma LeavesShort(head: (seq<Insn>, set<nat>, bool, bool) -> Turn, s: seq<Insn>, pos: nat, modified: set<nat>,
                    cands: nat, slot: nat -> bool, r: (seq<Insn>, seq<Candidate>))
    requires Leaves(head, s, pos, modified, cands, slot, r) && |s| <= 1
    ensures r == (s, [])
  {
    assert LeavesOf(head, s, pos, modified, cands, slot, r);
  }

  lemma LeavesTurn(head: (seq<Insn>, set<nat>, bool, bool) -> Turn, s: seq<Insn>, pos: nat, modified: set<nat>,
                   cands: nat, slot: nat -> bool, r: (seq<Insn>, seq<Candidate>), t: Turn)
    returns (rest: (seq<Insn>, seq<Candidate>))
    requires Leaves(head, s, pos, modified, cands, slot, r) && |s| > 1 && 1 <= t.used <= |s|
    requires t == head(s, modified, cands >= MAX_LAZY_CANDIDATES, slot(pos))
    ensures Leaves(head, s[t.used..], pos + |t.out|, modified + t.writes,
                   if t.marked then cands + 1 else cands, slot, rest)
    ensures r == (t.out + rest.0, (if t.marked then [Candidate(pos, t.used % 256)] else []) + rest.1)
  {
    assert LeavesOf(head, s, pos, modified, cands, slot, r);
    rest := Mark(head, s[t.used..], pos + |t.out|, modified + t.writes, if t.marked then cands + 1 else cands, slot);
  }

  ghost function Turns(cfg: Config): (seq<Insn>, set<nat>, bool, bool) -> Turn {
    (s: seq<Insn>, modified: set<nat>, full: bool, slot: bool) =>
      if |s| >= 2 then MarkHead(s, modified, full, slot, cfg) else Turn(s, 0, {}, false)
  }

  /** The pass of a whole block. */
  ghost function MarkBlock(s: seq<Insn>, slot: nat -> bool, cfg: Config): (seq<Insn>, seq<Candidate>) {
    Mark(Turns(cfg), s, 0, {}, 0, slot)
  }

  // ----- which registers an instruction writes

  /** What the masks do not see of an instruction that the model does not look into: the registers
      it writes besides its destination field, and what it does to x0. */
  datatype Hidden = Hidden(writes: Insn -> set<nat>, zero: Insn -> OnZero)

  /** Whether register `r` may have been left written unseen after `i`. */
  ghost predicate Spoilt(i: Insn, r: Reg, before: bool, hidden: Hidden) {
    if r == 0 then Dirty(i, before, hidden.zero) else before || (i.op.OTHER? && r as nat in hidden.writes(i))
  }

  /** The other instructions of `t` write their destination field and what `hidden` says. */
  ghost predicate WritesOnly(env: Env, t: seq<Insn>, hidden: Hidden) {
    && KeepsZero(env, t, hidden.zero)
    && forall i <- t :: i.op.OTHER? ==> OtherWritesOnly(env, i, NonZero(i.rd) + hidden.writes(i))
  }

  ghost predicate OtherWritesOnly(env: Env, i: Insn, w: set<nat>) {
    forall st: State, r: Reg ::
      env.other(i, st).Next? && r != 0 && r as nat !in w ==> env.other(i, st).st.X[r] == st.X[r]
  }

  lemma OtherKeeps(env: Env, i: Insn, st: State, r: Reg, hidden: Hidden)
    requires i.op.OTHER? && WritesOnly(env, [i], hidden) && r != 0
    requires r as nat !in Fields(i) && r as nat !in hidden.writes(i)
    ensures var o := env.other(i, st); o.Next? ==> o.st.X[r] == st.X[r]
  {
    assert i in [i];
    assert OtherWritesOnly(env, i, NonZero(i.rd) + hidden.writes(i));
  }

  lemma PlainKeeps(env: Env, i: Insn, st: State, r: Reg)
    requires Executable(i) && !i.op.OTHER? && i.op !in {FUSE1, FUSE3, FUSE4, FUSE5, FUSE7}
    requires r != 0 && r as nat !in Fields(i)
    ensures var o := Exec(env, i, st); o.Next? ==> o.st.X[r] == st.X[r]
  {
  }

  /** A register keeps the value `v` through an instruction that does not write it, or brings x0
      back to zero. */
  lemma StepKeeps(env: Env, i: Insn, st: State, r: Reg, v: Word, before: bool, hidden: Hidden)
    requires Executable(i) && AvoidsZero(i) && WritesOnly(env, [i], hidden)
    requires if r == 0 then v == 0 else r as nat !in Fields(i)
    requires (before || st.X[r] == v) && !Spoilt(i, r, before, hidden)
    ensures var o := Exec(env, i, st); o.Next? ==> o.st.X[r] == v
  {
    if r == 0 {
      KeepsClear(env, i, before, st, hidden.zero);
    } else if i.op.OTHER? {
      OtherKeeps(env, i, st, r, hidden);
    } else if i.op in {FUSE1, FUSE3, FUSE4, FUSE5, FUSE7} {
      EffectsKeep(env, i.fuse, st, r);
    } else {
      PlainKeeps(env, i, st, r);
    }
  }

  // ----- the addresses

  /** The state when execution from `st` comes to instruction `k`, if it does. */
  ghost function Reach(env: Env, t: seq<Insn>, st: State, k: nat): Option<State>
    requires k <= |t| && forall i <- t :: Executable(i)
  {
    if k == 0 then Some(st)
    else
      match Exec(env, t[0], st)
      case Next(st') => Reach(env, t[1..], st', k - 1)
      case _ => None
  }

  /** What the pass leaves can be run, and of what the model looks into only loads write x0. */
  ghost predicate Runs(t: seq<Insn>) {
    forall i <- t :: Executable(i) && AvoidsZero(i)
  }

  /** Whether register `r` may be spoilt when execution comes to instruction `k`. */
  ghost predicate SpoiltAt(t: seq<Insn>, k: nat, r: Reg, before: bool, hidden: Hidden)
    requires k <= |t|
  {
    if k == 0 then before else SpoiltAt(t[1..], k - 1, r, Spoilt(t[0], r, before, hidden), hidden)
  }

  lemma {:induction false} ReachKeeps(env: Env, t: seq<Insn>, st: State, k: nat, r: Reg, v: Word, before: bool,
                                      hidden: Hidden)
    requires Runs(t) && k <= |t| && WritesOnly(env, t, hidden)
    requires if r == 0 then v == 0 else forall j :: 0 <= j < k ==> r as nat !in Fields(t[j])
    requires (before || st.X[r] == v) && !SpoiltAt(t, k, r, before, hidden)
    ensures var o := Reach(env, t, st, k); o.Some? ==> o.value.X[r] == v
    decreases k
  {
    if k > 0 {
      assert t[0] in t;
      var spoilt := Spoilt(t[0], r, before, hidden);
      if Exec(env, t[0], st).Next? {
        if !spoilt {
          StepKeeps(env, t[0], st, r, v, before, hidden);
        }
        assert forall j :: 0 <= j < k - 1 ==> t[1..][j] == t[j + 1];
        ReachKeeps(env, t[1..], Exec(env, t[0], st).st, k - 1, r, v, spoilt, hidden);
      }
    }
  }

  /** The checked address of instruction `k` is the one it uses when it is reached. */
  ghost predicate AddressAt(env: Env, t: seq<Insn>, st: State, k: nat)
    requires k < |t| && Runs(t)
  {
    match Reach(env, t, st, k)
    case None => true
    case Some(now) => Add(now.X[t[k].rs1], t[k].imm) == Add(st.X[t[k].rs1], t[k].imm)
  }

  /** Instruction `k` belongs to the run. */
  predicate InRun(c: Candidate, k: nat) {
    c.pos <= k < c.pos + c.count
  }

  ghost predicate InList(cands: seq<Candidate>, t: seq<Insn>) {
    forall c <- cands :: c.pos < |t| && c.pos + c.count <= |t|
  }

  ghost predicate Checked(env: Env, t: seq<Insn>, cands: seq<Candidate>, st: State)
    requires Runs(t) && InList(cands, t)
  {
    forall c, k: nat :: c in cands && InRun(c, k) ==> AddressAt(env, t, st, k)
  }

  // ----- what the masks are right about

  /** The base of instruction `k` is no argument register and no destination field before. */
  ghost predicate MaskRight(t: seq<Insn>, k: nat)
    requires k < |t|
  {
    t[k].rs1 != 0 ==>
      t[k].rs1 as nat !in ARG_REGS && forall j :: 0 <= j < k ==> t[k].rs1 as nat !in Fields(t[j])
  }

  ghost predicate MasksRight(t: seq<Insn>, cands: seq<Candidate>)
    requires InList(cands, t)
  {
    forall c, k: nat :: c in cands && InRun(c, k) ==> MaskRight(t, k)
  }

  /** The base of instruction `k` has not been written unseen before. */
  ghost predicate BaseSeen(t: seq<Insn>, k: nat, hidden: Hidden)
    requires k < |t|
  {
    !SpoiltAt(t, k, t[k].rs1, false, hidden)
  }

  /** No base of a marked instruction has been.  This is what the masks do not guarantee. */
  ghost predicate BasesSeen(t: seq<Insn>, cands: seq<Candidate>, hidden: Hidden)
    requires InList(cands, t)
  {
    forall c, k: nat :: c in cands && InRun(c, k) ==> BaseSeen(t, k, hidden)
  }

  // ----- the pass sees to what the masks are for

  ghost predicate Plain(s: seq<Insn>) {
    forall i <- s :: !IsFused(i.op) && (i.op in COMPUTING ==> i.rd != 0) && Executable(i)
  }

  lemma PlainSuffix(s: seq<Insn>, k: nat)
    requires Plain(s) && k <= |s|
    ensures Plain(s[k..]) && (EndsOnce(s) ==> EndsOnce(s[k..]))
  {
    assert forall i <- s[k..] :: i in s;
    assert forall j :: 0 <= j < |s[k..]| ==> s[k..][j] == s[k + j];
  }

  /** No destination field of the instructions is missing from `w`, x0 apart. */
  ghost predicate FieldsIn(t: seq<Insn>, w: set<nat>) {
    forall i <- t :: forall r: nat :: r in Fields(i) && r != 0 ==> r in w
  }

  lemma {:induction false} DestsAre(s: seq<Insn>, count: nat)
    requires count <= |s|
    ensures forall r: nat :: r in Dests(s, count) <==> r != 0 && exists k :: 0 <= k < count && s[k].rd as nat == r
  {
    if count > 0 {
      DestsAre(s, count - 1);
    }
  }

  /** The bases of the first `count` instructions stay clear of the mask, of the argument
      registers and, for loads, of the destinations before them. */
  ghost predicate RunRight(modified: set<nat>, s: seq<Insn>, count: nat)
    requires count <= |s|
  {
    forall k :: 0 <= k < count && s[k].rs1 != 0 ==>
      && s[k].rs1 as nat !in modified && s[k].rs1 as nat !in ARG_REGS
      && (s[0].op == LW ==> forall j :: 0 <= j < k ==> s[k].rs1 != s[j].rd)
  }

  lemma {:induction false} SafeIsRight(modified: set<nat>, s: seq<Insn>, count: nat)
    requires 0 < count <= |s| && SafeBases(modified, s, count, s[0].op == LW)
    ensures RunRight(modified, s, count)
    decreases count
  {
    if count > 1 {
      SafeIsRight(modified, s, count - 1);
    }
    var k := count - 1;
    DestsAre(s, k);
    if s[k].rs1 != 0 && s[0].op == LW {
      forall j | 0 <= j < k ensures s[k].rs1 != s[j].rd {
        assert s[j].rd != 0 ==> s[j].rd as nat in Dests(s, k);
      }
    }
  }

  /** What the theorem needs of a turn: it leaves what can be run, adds every destination field
      to the mask, and marks only runs of loads or of stores whose bases stay put. */
  ghost predicate GoodTurn(s: seq<Insn>, modified: set<nat>, t: Turn) {
    && 1 <= t.used <= |s| && t.out != [] && Runs(t.out) && FieldsIn(t.out, t.writes)
    && (EndsOnce(s) ==> EndsOnce(t.out) && (t.used < |s| ==> t.out[|t.out| - 1].op !in LEAVING))
    && (t.marked ==> |t.out| == t.used && UniformRun(t.out) && RunRight(modified, t.out, |t.out|))
  }

  ghost predicate UniformRun(run: seq<Insn>) {
    (forall i <- run :: i.op == LW) || (forall i <- run :: i.op == SW)
  }

  ghost predicate GoodTurns(head: (seq<Insn>, set<nat>, bool, bool) -> Turn) {
    forall s, modified, full, slot :: |s| >= 2 && Plain(s) ==> GoodTurn(s, modified, head(s, modified, full, slot))
  }

  lemma OneTurn(head: (seq<Insn>, set<nat>, bool, bool) -> Turn, s: seq<Insn>, modified: set<nat>, full: bool,
                slot: bool)
    requires GoodTurns(head) && |s| >= 2 && Plain(s)
    ensures GoodTurn(s, modified, head(s, modified, full, slot))
  {
  }

  /** A run of `count` loads or of stores, cut off from what follows it. */
  lemma RunCut(s: seq<Insn>, count: nat)
    requires Plain(s) && 1 < count <= |s| && s[0].op in {LW, SW} && forall k :: 0 <= k < count ==> s[k].op == s[0].op
    ensures Runs(s[..count]) && UniformRun(s[..count])
  {
    assert forall k :: 0 <= k < count ==> s[..count][k] == s[k] && s[k] in s;
  }

  lemma MarkedTurn(s: seq<Insn>, modified: set<nat>, full: bool, slot: bool, cfg: Config, count: nat)
    requires |s| >= 2 && Plain(s) && MarkHead(s, modified, full, slot, cfg).marked
    requires s[0].op in {LW, SW} && count == RunLengthAt(s, {s[0].op})
    ensures
      var t := MarkHead(s, modified, full, slot, cfg);
      && 1 < t.used == count && t.out == s[..count] && Runs(t.out) && UniformRun(t.out)
      && (t.out[0].op == LW ==> t.writes == Dests(t.out, count))
      && RunRight(modified, t.out, count)
  {
    var t := s[..count];
    RunCut(s, count);
    PrefixMasks(s, t, count);
    SafeIsRight(modified, t, count);
  }

  lemma {:induction false} PrefixMasks(s: seq<Insn>, t: seq<Insn>, n: nat)
    requires n <= |t| <= |s| && forall k :: 0 <= k < n ==> t[k] == s[k]
    ensures Bases(s, n) == Bases(t, n) && Dests(s, n) == Dests(t, n) && Unchased(s, n) == Unchased(t, n)
  {
    if n > 0 {
      PrefixMasks(s, t, n - 1);
    }
  }

  lemma MarkedTurnGood(s: seq<Insn>, modified: set<nat>, full: bool, slot: bool, cfg: Config)
    requires |s| >= 2 && Plain(s) && MarkHead(s, modified, full, slot, cfg).marked
    ensures GoodTurn(s, modified, MarkHead(s, modified, full, slot, cfg))
  {
    var t, count := MarkHead(s, modified, full, slot, cfg), RunLengthAt(s, {s[0].op});
    MarkedTurn(s, modified, full, slot, cfg, count);
    if t.out[0].op == LW {
      DestsAre(t.out, count);
    }
    forall i, r: nat | i in t.out && r in Fields(i) && r != 0 ensures r in t.writes {
      assert i.op == LW && i.rd as nat == r;
    }
  }

  lemma PairTurnGood(s: seq<Insn>, modified: set<nat>, h: Insn, cfg: Config)
    requires |s| >= 2 && Plain(s) && Pair(s[0], s[1], cfg) == Some(h)
    ensures GoodTurn(s, modified, Turn([h], 2, PairWrites(s[0], s[1], h), false))
  {
    assert s[0] in s && s[1] in s;
    assert FieldsIn([h], PairWrites(s[0], s[1], h));
  }

  lemma SingleTurnGood(s: seq<Insn>, modified: set<nat>, w: set<nat>)
    requires |s| >= 2 && Plain(s) && NonZero(s[0].rd) <= w
    ensures GoodTurn(s, modified, Turn([s[0]], 1, w, false))
  {
    assert s[0] in s;
    assert FieldsIn([s[0]], w);
  }

  lemma BatchFieldsIn(s: seq<Insn>, count: nat, h: Insn)
    requires count <= |s| && h.op in {FUSE1, FUSE5, FUSE7} && h.fuse == Entries(s, count)
    ensures FieldsIn([h], Dests(s, count))
  {
    DestsAre(s, count);
    forall r: nat | r in Fields(h) && r != 0 ensures r in Dests(s, count) {
      var e :| e in h.fuse && e.rd as nat == r;
      var k :| 0 <= k < count && h.fuse[k] == e;
      assert s[k].rd as nat == r;
    }
  }

  lemma BatchAvoidsZero(s: seq<Insn>, count: nat, h: Insn)
    requires Plain(s) && count <= |s| && h.op in {FUSE1, FUSE5, FUSE7} && h.fuse == Entries(s, count) && h.imm2 == count
    requires forall k :: 0 <= k < count ==> s[k].op in COMPUTING
    ensures Runs([h])
  {
    forall e | e in h.fuse ensures e.op in COMPUTING && e.rd != 0 {
      var k :| 0 <= k < count && h.fuse[k] == e;
      assert s[k] in s;
    }
  }

  lemma BatchTurnGood(s: seq<Insn>, modified: set<nat>, ops: set<Op>, op: Op, slot: bool, cfg: Config, count: nat)
    requires |s| >= 2 && Plain(s) && Batch(s[0].op) == Some((ops, op)) && s[0].op !in {LW, SW}
    requires count == RunLengthAt(s, ops)
    ensures var (h, k) := FuseRun(s, count, op, slot, cfg); GoodTurn(s, modified, Turn([h], k, Dests(s, count), false))
  {
    var (h, k) := FuseRun(s, count, op, slot, cfg);
    if k == 1 {
      DestsAre(s, count);
      SingleTurnGood(s, modified, Dests(s, count));
    } else {
      BatchFieldsIn(s, count, h);
      BatchAvoidsZero(s, count, h);
    }
  }

  lemma TurnGood(s: seq<Insn>, modified: set<nat>, full: bool, slot: bool, cfg: Config)
    requires |s| >= 2 && Plain(s)
    ensures GoodTurn(s, modified, MarkHead(s, modified, full, slot, cfg))
  {
    match Pair(s[0], s[1], cfg)
    case Some(h) => PairTurnGood(s, modified, h, cfg);
    case None =>
      if s[0].op in {LW, SW} {
        if MarkRun(s, modified, full).marked {
          MarkedTurnGood(s, modified, full, slot, cfg);
        } else {
          SingleTurnGood(s, modified, NonZero(s[0].rd));
        }
      } else if Batch(s[0].op).Some? {
        var (ops, op) := Batch(s[0].op).value;
        BatchTurnGood(s, modified, ops, op, slot, cfg, RunLengthAt(s, ops));
      } else {
        SingleTurnGood(s, modified, NonZero(s[0].rd));
      }
  }

  lemma TurnsGood(cfg: Config)
    ensures GoodTurns(Turns(cfg))
  {
    forall s: seq<Insn>, modified, full, slot | |s| >= 2 && Plain(s)
      ensures GoodTurn(s, modified, Turns(cfg)(s, modified, full, slot))
    {
      TurnGood(s, modified, full, slot, cfg);
    }
  }

  /** The marks `cands` in the list `t`, which starts at position `pos`: in order, apart, runs of
      loads or of stores, with bases that are no argument registers, not in the mask, and not
      written by a destination field from `pos` on. */
  ghost predicate MarksRight(t: seq<Insn>, cands: seq<Candidate>, pos: nat, modified: set<nat>) {
    && (forall a, b :: 0 <= a < b < |cands| ==> cands[a].pos + cands[a].count <= cands[b].pos)
    && (forall c <- cands :: MarkFits(t, c, pos))
    && (forall c, k: nat :: c in cands && InRun(c, k) ==> BaseRight(t, k, pos, modified))
  }

  ghost predicate MarkFits(t: seq<Insn>, c: Candidate, pos: nat) {
    && pos <= c.pos < pos + |t| && c.pos + c.count <= pos + |t|
    && UniformRun(t[c.pos - pos..c.pos - pos + c.count])
  }

  ghost predicate BaseRight(t: seq<Insn>, k: nat, pos: nat, modified: set<nat>) {
    pos <= k < pos + |t| && (t[k - pos].rs1 != 0 ==>
      && t[k - pos].rs1 as nat !in modified && t[k - pos].rs1 as nat !in ARG_REGS
      && forall j :: 0 <= j < k - pos ==> t[k - pos].rs1 as nat !in Fields(t[j]))
  }

  /** The marks after a turn, seen from before it. */
  lemma RestRight(out: seq<Insn>, t: seq<Insn>, cands: seq<Candidate>, pos: nat, modified: set<nat>, w: set<nat>)
    requires FieldsIn(out, w) && MarksRight(t, cands, pos + |out|, modified + w)
    ensures MarksRight(out + t, cands, pos, modified)
  {
    var all := out + t;
    forall c | c in cands ensures MarkFits(all, c, pos) {
      assert MarkFits(t, c, pos + |out|);
      assert all[c.pos - pos..c.pos - pos + c.count] == t[c.pos - pos - |out|..c.pos - pos - |out| + c.count];
    }
    forall c, k: nat | c in cands && InRun(c, k) ensures BaseRight(all, k, pos, modified) {
      assert BaseRight(t, k, pos + |out|, modified + w);
      assert all[k - pos] == t[k - pos - |out|];
      forall j | 0 <= j < k - pos && all[k - pos].rs1 != 0 ensures all[k - pos].rs1 as nat !in Fields(all[j]) {
        if j < |out| {
          assert all[j] == out[j] && out[j] in out;
        } else {
          assert all[j] == t[j - |out|];
        }
      }
    }
  }

  /** The run a turn marks. */
  lemma RunMarkRight(out: seq<Insn>, t: seq<Insn>, pos: nat, modified: set<nat>)
    requires out != [] && UniformRun(out) && RunRight(modified, out, |out|)
    ensures MarksRight(out + t, [Candidate(pos, |out| % 256)], pos, modified)
  {
    var all, c := out + t, Candidate(pos, |out| % 256);
    assert all[0..c.count] == out[..c.count];
    assert forall k :: 0 <= k < |out| ==> all[k] == out[k];
    forall k: nat | InRun(c, k) ensures BaseRight(all, k, pos, modified) {
      if out[k - pos].rs1 != 0 {
        forall j | 0 <= j < k - pos ensures out[k - pos].rs1 as nat !in Fields(out[j]) {
          assert out[0] in out && out[j] in out;
        }
      }
    }
  }

  lemma MarksJoin(all: seq<Insn>, c: Candidate, cands: seq<Candidate>, pos: nat, modified: set<nat>)
    requires MarksRight(all, [c], pos, modified) && MarksRight(all, cands, pos, modified)
    requires forall d <- cands :: c.pos + c.count <= d.pos
    ensures MarksRight(all, [c] + cands, pos, modified)
  {
    assert c in [c];
  }

  /** What the pass leaves of `s` can be run, and ends as `s` does. */
  ghost predicate ListRight(s: seq<Insn>, t: seq<Insn>) {
    Runs(t) && (EndsOnce(s) ==> EndsOnce(t)) && (s == [] ==> t == [])
  }

  lemma TurnThenList(s: seq<Insn>, out: seq<Insn>, used: nat, rest: seq<Insn>)
    requires 1 <= used <= |s| && out != [] && Runs(out) && ListRight(s[used..], rest)
    requires EndsOnce(s) ==> EndsOnce(out) && (used < |s| ==> out[|out| - 1].op !in LEAVING)
    ensures ListRight(s, out + rest)
  {
    assert forall j :: 0 <= j < |s[used..]| ==> s[used..][j] == s[used + j];
  }

  lemma {:induction false} MarkList(head: (seq<Insn>, set<nat>, bool, bool) -> Turn, s: seq<Insn>, pos: nat,
                                    modified: set<nat>, cands: nat, slot: nat -> bool, r: (seq<Insn>, seq<Candidate>))
    requires Plain(s) && GoodTurns(head) && Leaves(head, s, pos, modified, cands, slot, r)
    ensures ListRight(s, r.0)
    decreases |s|
  {
    if |s| > 1 {
      var t := head(s, modified, cands >= MAX_LAZY_CANDIDATES, slot(pos));
      OneTurn(head, s, modified, cands >= MAX_LAZY_CANDIDATES, slot(pos));
      PlainSuffix(s, t.used);
      var rest := LeavesTurn(head, s, pos, modified, cands, slot, r, t);
      MarkList(head, s[t.used..], pos + |t.out|, modified + t.writes,
               if t.marked then cands + 1 else cands, slot, rest);
      TurnThenList(s, t.out, t.used, rest.0);
    } else {
      LeavesShort(head, s, pos, modified, cands, slot, r);
      PlainRuns(s);
    }
  }

  lemma PlainRuns(s: seq<Insn>)
    requires Plain(s)
    ensures Runs(s)
  {
  }

  /** The marks after a turn that marks a run. */
  lemma RunThenRest(out: seq<Insn>, rest: seq<Insn>, marks: seq<Candidate>, pos: nat, modified: set<nat>)
    requires out != [] && UniformRun(out) && RunRight(modified, out, |out|)
    requires MarksRight(out + rest, marks, pos, modified) && forall d <- marks :: pos + |out| <= d.pos
    ensures MarksRight(out + rest, [Candidate(pos, |out| % 256)] + marks, pos, modified)
  {
    RunMarkRight(out, rest, pos, modified);
    MarksJoin(out + rest, Candidate(pos, |out| % 256), marks, pos, modified);
  }

  ghost predicate PairRight(r: (seq<Insn>, seq<Candidate>), pos: nat, modified: set<nat>) {
    MarksRight(r.0, r.1, pos, modified)
  }

  lemma TurnThenMarks(t: Turn, rest: (seq<Insn>, seq<Candidate>), pos: nat, modified: set<nat>)
    requires t.out != [] && FieldsIn(t.out, t.writes) && PairRight(rest, pos + |t.out|, modified + t.writes)
    requires t.marked ==> |t.out| == t.used && UniformRun(t.out) && RunRight(modified, t.out, |t.out|)
    ensures PairRight((t.out + rest.0, (if t.marked then [Candidate(pos, t.used % 256)] else []) + rest.1), pos,
                      modified)
  {
    RestRight(t.out, rest.0, rest.1, pos, modified, t.writes);
    if t.marked {
      assert forall d <- rest.1 :: MarkFits(rest.0, d, pos + |t.out|);
      RunThenRest(t.out, rest.0, rest.1, pos, modified);
    } else {
      assert [] + rest.1 == rest.1;
    }
  }

  /** The pass makes only marks the masks are right about. */
  lemma {:induction false} MarkRight(head: (seq<Insn>, set<nat>, bool, bool) -> Turn, s: seq<Insn>, pos: nat,
                                     modified: set<nat>, cands: nat, slot: nat -> bool, r: (seq<Insn>, seq<Candidate>))
    requires Plain(s) && GoodTurns(head) && Leaves(head, s, pos, modified, cands, slot, r)
    ensures PairRight(r, pos, modified)
    decreases |s|
  {
    if |s| > 1 {
      var t := head(s, modified, cands >= MAX_LAZY_CANDIDATES, slot(pos));
      OneTurn(head, s, modified, cands >= MAX_LAZY_CANDIDATES, slot(pos));
      PlainSuffix(s, t.used);
      var rest := LeavesTurn(head, s, pos, modified, cands, slot, r, t);
      MarkRight(head, s[t.used..], pos + |t.out|, modified + t.writes,
                if t.marked then cands + 1 else cands, slot, rest);
      TurnThenMarks(t, rest, pos, modified);
    } else {
      LeavesShort(head, s, pos, modified, cands, slot, r);
      NoMarks(s, pos, modified);
    }
  }

  lemma NoMarks(s: seq<Insn>, pos: nat, modified: set<nat>)
    ensures PairRight((s, []), pos, modified)
  {
  }

  /** In the list the pass leaves, marked runs are in order and apart, all loads or all stores,
      and their bases are no argument registers and no destination fields of earlier
      instructions. */
  lemma MarkedRuns(s: seq<Insn>, slot: nat -> bool, cfg: Config)
    requires Plain(s)
    ensures
      var (t, cands) := MarkBlock(s, slot, cfg);
      && Runs(t) && (EndsOnce(s) ==> EndsOnce(t)) && MarksRight(t, cands, 0, {})
      && InList(cands, t) && MasksRight(t, cands)
  {
    TurnsGood(cfg);
    MarkList(Turns(cfg), s, 0, {}, 0, slot, MarkBlock(s, slot, cfg));
    MarkRight(Turns(cfg), s, 0, {}, 0, slot, MarkBlock(s, slot, cfg));
    var (t, cands) := MarkBlock(s, slot, cfg);
    RightMasks(t, cands);
  }

  lemma RightMasks(t: seq<Insn>, cands: seq<Candidate>)
    requires MarksRight(t, cands, 0, {})
    ensures InList(cands, t) && MasksRight(t, cands)
  {
    forall c | c in cands ensures c.pos < |t| && c.pos + c.count <= |t| {
      assert MarkFits(t, c, 0);
    }
    forall c, k: nat | c in cands && InRun(c, k) ensures MaskRight(t, k) {
      assert BaseRight(t, k, 0, {});
    }
  }

  // ----- when the checked addresses are the ones used

  /** If nothing writes a base unseen, then from every entry state with x0 clear, as it is when a
      block is looked up, the addresses computed from it for the marked runs are the ones the
      loads and stores use when execution comes to them. */
  lemma SeenAddresses(env: Env, t: seq<Insn>, cands: seq<Candidate>, st: State, hidden: Hidden)
    requires Runs(t) && InList(cands, t) && MasksRight(t, cands)
    requires WritesOnly(env, t, hidden) && BasesSeen(t, cands, hidden) && st.X[0] == 0
    ensures Checked(env, t, cands, st)
  {
    forall c, k: nat | c in cands && InRun(c, k) ensures AddressAt(env, t, st, k) {
      assert MaskRight(t, k) && BaseSeen(t, k, hidden);
      ReachKeeps(env, t, st, k, t[k].rs1, st.X[t[k].rs1], false, hidden);
    }
  }

  /** Memory that reads 1, no traps, and unseen writes of 1. */
  ghost function Spoiler(hidden: Hidden): Env {
    Env((m: Mem, a: Word) => (1, m), (m: Mem, a: Word, w: Word) => m, (st: State) => st,
        (i: Insn, st: State) => Next(Spoiled(OnlyZero(st, hidden.zero(i), 1), hidden.writes(i))), true, true)
  }

  ghost function Spoiled(st: State, w: set<nat>): (st': State)
    ensures forall r: Reg :: st'.X[r] == if r != 0 && r as nat in w then 1 else st.X[r]
  {
    st.(X := seq(32, r requires 0 <= r < 32 => if r != 0 && r in w then 1 else st.X[r]))
  }

  lemma {:induction false} SpoilerEffects(hidden: Hidden, es: seq<Entry>, st: State, r: Reg)
    requires forall e <- es :: (e.op in COMPUTING ==> e.rd != 0)
    requires r == 0 || r as nat !in EntryFields(es)
    ensures
      var o := Effects(Spoiler(hidden), es, st);
      && o.Some?
      && (st.X[r] == 1 || (r == 0 && exists e <- es :: e.op == LW && e.rd == 0) ==> o.value.X[r] == 1)
    decreases |es|
  {
    if es != [] {
      assert es[0] in es && es == [es[0]] + es[1..];
      SpoilerEffects(hidden, es[1..], Effect(Spoiler(hidden), es[0], st).value, r);
    }
  }

  lemma SpoilerPlainStep(hidden: Hidden, i: Insn, st: State, r: Reg)
    requires Executable(i) && AvoidsZero(i) && (r == 0 || r as nat !in Fields(i))
    requires i.op !in LEAVING && i.op !in {FUSE1, FUSE3, FUSE4, FUSE5, FUSE7}
    ensures
      var o := Exec(Spoiler(hidden), i, st);
      o.Next? && (Spoilt(i, r, st.X[r] == 1, hidden) ==> o.st.X[r] == 1)
  {
    var o := Exec(Spoiler(hidden), i, st);
    match i.op
    case NOP => assert o.Next?;
    case OTHER(_) => assert o == Next(Spoiled(OnlyZero(st, hidden.zero(i), 1), hidden.writes(i)));
    case LUI | ADD | ADDI | SLLI | SRLI | SRAI => assert o.Next?;
    case LW => assert o == Next(Advance(Set(st, i.rd, 1), 1));
    case SW => assert o == Next(Advance(st, 1));
    case FUSE2 => assert o.Next?;
    case FUSE8 => assert o.Next?;
    case FUSE9 => assert o.Next?;
    case FUSE10 => assert o.Next?;
    case FUSE11 => assert o.Next?;
  }

  /** Once a register has been written unseen it stays 1, if nothing else writes it. */
  lemma SpoilerStep(hidden: Hidden, i: Insn, st: State, r: Reg)
    requires Executable(i) && AvoidsZero(i) && i.op !in LEAVING && (r == 0 || r as nat !in Fields(i))
    ensures
      var o := Exec(Spoiler(hidden), i, st);
      o.Next? && (Spoilt(i, r, st.X[r] == 1, hidden) ==> o.st.X[r] == 1)
  {
    if i.op == FUSE4 {
      if WritesZero(i, _ => Keeps) {
        var e :| e in i.fuse && e.rd == 0;
        assert e.op == LW;
      }
      SpoilerEffects(hidden, i.fuse, st, r);
    } else if i.op in {FUSE1, FUSE3, FUSE5, FUSE7} {
      SpoilerEffects(hidden, i.fuse, st, r);
    } else {
      SpoilerPlainStep(hidden, i, st, r);
    }
  }

  lemma {:induction false} SpoilerReach(hidden: Hidden, t: seq<Insn>, st: State, k: nat, r: Reg,
                                        before: bool)
    requires Runs(t) && k <= |t|
    requires forall j :: 0 <= j < k ==> t[j].op !in LEAVING && (r == 0 || r as nat !in Fields(t[j]))
    requires (before ==> st.X[r] == 1) && SpoiltAt(t, k, r, before, hidden)
    ensures var o := Reach(Spoiler(hidden), t, st, k); o.Some? && o.value.X[r] == 1
    decreases k
  {
    if k > 0 {
      assert t[0] in t;
      SpoilerStep(hidden, t[0], st, r);
      assert forall j :: 0 <= j < k - 1 ==> t[1..][j] == t[j + 1];
      SpoilerReach(hidden, t[1..], Exec(Spoiler(hidden), t[0], st).st, k - 1, r, Spoilt(t[0], r, before, hidden));
    }
  }

  /** And if something does, then some address used is not the one checked: the condition is
      exact, block by block. */
  lemma UnseenAddresses(t: seq<Insn>, cands: seq<Candidate>, st: State, hidden: Hidden)
    requires Runs(t) && EndsOnce(t) && InList(cands, t) && MasksRight(t, cands)
    requires !BasesSeen(t, cands, hidden) && forall r: Reg :: st.X[r] == 0
    ensures WritesOnly(Spoiler(hidden), t, hidden) && !Checked(Spoiler(hidden), t, cands, st)
  {
    var c, k: nat :| c in cands && InRun(c, k) && !BaseSeen(t, k, hidden);
    assert MaskRight(t, k);
    SpoilerReach(hidden, t, st, k, t[k].rs1, false);
    assert !AddressAt(Spoiler(hidden), t, st, k);
  }

  /** In the list the pass leaves, if nothing writes a base unseen, the addresses computed at the
      start of the block are the ones used, from every entry state with x0 clear. */
  lemma LazyAddresses(env: Env, s: seq<Insn>, slot: nat -> bool, cfg: Config, st: State, hidden: Hidden)
    requires Plain(s)
    ensures
      var (t, cands) := MarkBlock(s, slot, cfg);
      Runs(t) && InList(cands, t) &&
      (WritesOnly(env, t, hidden) && BasesSeen(t, cands, hidden) && st.X[0] == 0 ==> Checked(env, t, cands, st))
  {
    MarkedRuns(s, slot, cfg);
    var (t, cands) := MarkBlock(s, slot, cfg);
    if WritesOnly(env, t, hidden) && BasesSeen(t, cands, hidden) && st.X[0] == 0 {
      SeenAddresses(env, t, cands, st, hidden);
    }
  }

  /** And if something does, an address used is not the one checked, in an interpreter whose
      other instructions write no more than `hidden` says: the condition is exact, block by
      block. */
  lemma OtherWriteMissed(s: seq<Insn>, slot: nat -> bool, cfg: Config, st: State, hidden: Hidden)
    requires Plain(s) && EndsOnce(s) && forall r: Reg :: st.X[r] == 0
    ensures
      var (t, cands) := MarkBlock(s, slot, cfg);
      Runs(t) && InList(cands, t) &&
      (!BasesSeen(t, cands, hidden) ==>
         WritesOnly(Spoiler(hidden), t, hidden) && !Checked(Spoiler(hidden), t, cands, st))
  {
    MarkedRuns(s, slot, cfg);
    var (t, cands) := MarkBlock(s, slot, cfg);
    if !BasesSeen(t, cands, hidden) {
      UnseenAddresses(t, cands, st, hidden);
    }
  }

  /** Both halves: every interpreter within `hidden` uses the checked addresses from every state
      with x0 clear if and only if no base of a marked run is written unseen before. */
  lemma LazyAddressesExact(s: seq<Insn>, slot: nat -> bool, cfg: Config, zero: State, hidden: Hidden)
    requires Plain(s) && EndsOnce(s) && forall r: Reg :: zero.X[r] == 0
    ensures
      var (t, cands) := MarkBlock(s, slot, cfg);
      Runs(t) && InList(cands, t) &&
      (BasesSeen(t, cands, hidden) <==>
         forall env, st: State :: WritesOnly(env, t, hidden) && st.X[0] == 0 ==> Checked(env, t, cands, st))
  {
    MarkedRuns(s, slot, cfg);
    var (t, cands) := MarkBlock(s, slot, cfg);
    if BasesSeen(t, cands, hidden) {
      forall env, st: State | WritesOnly(env, t, hidden) && st.X[0] == 0 ensures Checked(env, t, cands, st) {
        SeenAddresses(env, t, cands, st, hidden);
      }
    } else {
      UnseenAddresses(t, cands, zero, hidden);
    }
  }

  /** Unseen writes to argument registers do no harm: no marked run has such a base. */
  lemma ArgumentWritesHarmless(s: seq<Insn>, slot: nat -> bool, cfg: Config, hidden: Hidden)
    requires Plain(s)
    ensures
      var (t, cands) := MarkBlock(s, slot, cfg);
      InList(cands, t) && (UnseenWithin(t, hidden, ARG_REGS) ==> BasesSeen(t, cands, hidden))
  {
    MarkedRuns(s, slot, cfg);
    var (t, cands) := MarkBlock(s, slot, cfg);
    if UnseenWithin(t, hidden, ARG_REGS) {
      HarmlessBases(t, cands, hidden);
    }
  }

  ghost predicate UnseenWithin(t: seq<Insn>, hidden: Hidden, w: set<nat>) {
    forall j, r: Reg :: 0 <= j < |t| && r as nat !in w ==> !Spoilt(t[j], r, false, hidden)
  }

  lemma {:induction false} NeverSpoilt(t: seq<Insn>, k: nat, r: Reg, hidden: Hidden)
    requires k <= |t| && forall j :: 0 <= j < k ==> !Spoilt(t[j], r, false, hidden)
    ensures !SpoiltAt(t, k, r, false, hidden)
    decreases k
  {
    if k > 0 {
      assert forall j :: 0 <= j < k - 1 ==> t[1..][j] == t[j + 1];
      NeverSpoilt(t[1..], k - 1, r, hidden);
    }
  }

  lemma HarmlessBases(t: seq<Insn>, cands: seq<Candidate>, hidden: Hidden)
    requires InList(cands, t) && MasksRight(t, cands) && UnseenWithin(t, hidden, ARG_REGS)
    ensures BasesSeen(t, cands, hidden)
  {
    forall c, k: nat | c in cands && InRun(c, k) ensures BaseSeen(t, k, hidden) {
      assert MaskRight(t, k);
      NeverSpoilt(t, k, t[k].rs1, hidden);
    }
  }

  lemma StoresTurn(a: Insn, b: Insn, modified: set<nat>, slot: bool, cfg: Config)
    requires a.op == b.op == SW && a.rs1 == b.rs1 && NonZero(a.rs1) !! modified && NonZero(a.rs1) !! ARG_REGS
    ensures var t := MarkHead([a, b], modified, false, slot, cfg); t.out == [a, b] && t.used == 2 && t.marked
  {
    assert RunLengthAt([a, b], {SW}) == 2;
    assert Bases([a, b], 1) == NonZero(a.rs1) && Bases([a, b], 2) == NonZero(a.rs1);
  }

  lemma StoresLeft(a: Insn, b: Insn, pos: nat, w: set<nat>, slot: nat -> bool, cfg: Config)
    requires a.op == b.op == SW && a.rs1 == b.rs1 && NonZero(a.rs1) !! w && NonZero(a.rs1) !! ARG_REGS
    ensures Mark(Turns(cfg), [a, b], pos, w, 0, slot) == ([a, b], [Candidate(pos, 2)])
  {
    var c := [Candidate(pos, 2)];
    StoresTurn(a, b, w, slot(pos), cfg);
    assert [a, b][2..] == [] && [a, b] + [] == [a, b] && c + [] == c;
  }

  /** Two stores through a register the mask does not know to be written are marked. */
  lemma StoresMarked(slot: nat -> bool, cfg: Config, h: Insn, a: Insn, b: Insn, w: set<nat>)
    requires (h.op == LW || h.op.OTHER?) && w == NonZero(h.rd)
    requires a.op == b.op == SW && a.rs1 == b.rs1 && NonZero(a.rs1) !! w && NonZero(a.rs1) !! ARG_REGS
    ensures MarkBlock([h, a, b], slot, cfg) == ([h, a, b], [Candidate(1, 2)])
  {
    var none: set<nat> := {};
    var s, head, c := [h, a, b], Turns(cfg), [Candidate(1, 2)];
    assert s[1..] == [a, b] && none + w == w;
    assert h.op == LW ==> RunLengthAt(s, {LW}) == 1;
    assert head(s, none, false, slot(0)) == Turn([h], 1, w, false);
    StoresLeft(a, b, 1, w, slot, cfg);
    assert [h] + [a, b] == s && [] + c == c;
  }

  function StoreTo(base: Reg, imm: int): Insn {
    Insn(SW, 0, base, 6, imm, 0, [], None, None)
  }

  /** Unseen writes do reach marked runs: after a load into x0, or after another instruction that
      writes `r` unseen as the compressed shifts do, stores through that register are marked. */
  lemma MissedWriteMarked(slot: nat -> bool, cfg: Config, i: Insn, r: Reg, hidden: Hidden)
    requires Spoilt(i, r, false, hidden) && (i.op == LW || i.op.OTHER?)
    requires NonZero(r) !! NonZero(i.rd) && NonZero(r) !! ARG_REGS
    ensures
      var s := [i, StoreTo(r, 0), StoreTo(r, 4)];
      MarkBlock(s, slot, cfg) == (s, [Candidate(1, 2)]) && InList([Candidate(1, 2)], s) &&
      !BasesSeen(s, [Candidate(1, 2)], hidden)
  {
    var s, c := [i, StoreTo(r, 0), StoreTo(r, 4)], Candidate(1, 2);
    StoresMarked(slot, cfg, i, s[1], s[2], NonZero(i.rd));
    assert SpoiltAt(s[1..], 0, r, Spoilt(i, r, false, hidden), hidden);
    assert c in [c] && InRun(c, 1) && !BaseSeen(s, 1, hidden);
  }

  // ----- the check of the addresses

  /** The macro of the memory header, for an access of four bytes. */
  predicate RamContains(addr: Word, ramSize: nat) {
    addr < ramSize && 4 <= ramSize - addr
  }

  /** The four bytes from `addr` on lie below the end of RAM. */
  ghost predicate InRam(addr: Word, ramSize: nat) {
    addr < ramSize && addr + 1 < ramSize && addr + 2 < ramSize && addr + 3 < ramSize
  }

  ghost predicate AccessInRam(i: Insn, X: Regs, ramSize: nat) {
    InRam((X[i.rs1] + i.imm) % 0x1_0000_0000, ramSize)
  }

  /** The instructions of `run` access RAM, by the registers `X`. */
  ghost predicate AllInRam(run: seq<Insn>, X: Regs, ramSize: nat) {
    forall k :: 0 <= k < |run| ==> AccessInRam(run[k], X, ramSize)
  }

  /** The check at the start of the block, along the list. */
  method VerifyCandidate(block: Block, start: IrNode, count: nat, X: Regs, ramSize: nat, ghost p: nat,
                         ghost run: seq<Insn>)
    returns (allRam: bool)
    requires block.Valid() && p < |block.nodes| && start == block.nodes[p]
    requires |run| == count && p + count <= |block.insns| && run == block.insns[p..p + count]
    ensures allRam <==> forall k :: 0 <= k < |run| ==> (X[run[k].rs1] + run[k].imm) % 0x1_0000_0000 + 3 < ramSize
  {
    var ir: IrNode? := start;
    var j := 0;
    while j < count && ir != null
      invariant j <= count && ir == NodeAt(block.nodes, p + j)
      invariant forall k :: 0 <= k < j ==> AccessInRam(run[k], X, ramSize)
      decreases count - j
    {
      assert ir.insn == block.insns[p + j] == run[j];
      if !RamContains(Add(X[ir.insn.rs1], ir.insn.imm), ramSize) {
        assert !AccessInRam(run[j], X, ramSize);
        return false;
      }
      ir := ir.next;
      j := j + 1;
    }
    allRam := true;
  }

  lemma CheckedAccess(env: Env, t: seq<Insn>, cands: seq<Candidate>, st: State, c: Candidate, k: nat, ramSize: nat)
    requires Runs(t) && InList(cands, t) && Checked(env, t, cands, st) && c in cands && InRun(c, k)
    requires AllInRam(t[c.pos..c.pos + c.count], st.X, ramSize)
    ensures
      k < |t| && match Reach(env, t, st, k)
                 case None => true
                 case Some(now) => AccessInRam(t[k], now.X, ramSize)
  {
    assert AddressAt(env, t, st, k);
    assert AccessInRam(t[c.pos..c.pos + c.count][k - c.pos], st.X, ramSize);
  }

  /** In the marked list, a run that passes the check at the start of the block makes all its
      accesses in RAM in that execution. */
  lemma VerifiedAccesses(env: Env, s: seq<Insn>, slot: nat -> bool, cfg: Config, st: State, hidden: Hidden,
                         c: Candidate, k: nat, ramSize: nat)
    requires Plain(s) && c in MarkBlock(s, slot, cfg).1 && InRun(c, k)
    requires
      var (t, cands) := MarkBlock(s, slot, cfg);
      && WritesOnly(env, t, hidden) && InList(cands, t) && BasesSeen(t, cands, hidden) && st.X[0] == 0
      && AllInRam(t[c.pos..c.pos + c.count], st.X, ramSize)
    ensures
      var t := MarkBlock(s, slot, cfg).0;
      Runs(t) && k < |t| && match Reach(env, t, st, k)
                            case None => true
                            case Some(now) => AccessInRam(t[k], now.X, ramSize)
  {
    LazyAddresses(env, s, slot, cfg, st, hidden);
    var (t, cands) := MarkBlock(s, slot, cfg);
    CheckedAccess(env, t, cands, st, c, k, ramSize);
  }
}
