/** Macro-operation fusion of src/emulate.c on values: what the decoded instructions and the
    fused operations do, which list `match_pattern` produces, and that running it is running
    the original list.  Module FusionBlock ties the linked instruction list to `Fuse`, and
    module FusionHart ties the interpreter's handlers to `Exec`. */
module Fusion {
  import opened Arith
  import opened Common

  type Reg = r: nat | r < 32
  type Regs = x: seq<Word> | |x| == 32 witness seq(32, _ => 0)

  const A7: Reg := 17

  /** The memory system behind the access callbacks; device memory may react to reads. */
  type Mem(!new)

  datatype Op =
    | NOP | LUI | ADD | ADDI | SLLI | SRLI | SRAI | LW | SW | BNE | ECALL
    | OTHER(id: nat)
    | FUSE1 | FUSE2 | FUSE3 | FUSE4 | FUSE5 | FUSE6 | FUSE7 | FUSE8 | FUSE9 | FUSE10 | FUSE11 | FUSE12

  /** The leading part of an instruction, as copied into a fused sequence. */
  datatype Entry = Entry(op: Op, rd: Reg, rs1: Reg, rs2: Reg, imm: int)

  datatype Insn = Insn(op: Op, rd: Reg, rs1: Reg, rs2: Reg, imm: int, imm2: int, fuse: seq<Entry>,
                       taken: Option<nat>, untaken: Option<nat>)

  datatype State = State(X: Regs, mem: Mem, pc: Word, cycle: nat, branchTaken: bool)

  /** Go on with the next instruction; leave the block, possibly for a chained one; or trap. */
  datatype Outcome = Next(st: State) | Leave(st: State, chain: Option<nat>) | Trap

  /** Everything the handlers call into. */
  datatype Env = Env(read: (Mem, Word) -> (Word, Mem), write: (Mem, Word, Word) -> Mem,
                     ecall: State -> State, other: (Insn, State) -> Outcome,
                     allowMisalign: bool, extC: bool)

  /** Build-time settings: entries per fuse slot, and the reduced register file. */
  datatype Config = Config(maxEntries: nat, rv32e: bool)

  function Wrap(x: int): Word {
    x % WORD
  }

  function Add(x: int, y: int): Word {
    Wrap(x + y)
  }

  function Signed(w: Word): int {
    if w < 0x8000_0000 then w else w - WORD
  }

  function Shift(op: Op, x: Word, imm: int): Word {
    var k := Pow2(imm % 32);
    match op
    case SLLI => Wrap(x * k)
    case SRLI => Wrap(x / k)
    case _ => Wrap(Signed(x) / k)  // division by a positive number rounds down
  }

  predicate Misaligned(env: Env, addr: Word) {
    !env.allowMisalign && addr % 4 != 0
  }

  function Advance(st: State, n: nat): State {
    st.(pc := Wrap(st.pc + 4 * n), cycle := st.cycle + n)
  }

  function Set(st: State, rd: Reg, w: Word): State {
    st.(X := st.X[rd := w])
  }

  // ----- the effects shared by plain and fused handlers, without program counter and cycle

  function EntryOf(i: Insn): Entry {
    Entry(i.op, i.rd, i.rs1, i.rs2, i.imm)
  }

  /** One load, store, shift, LUI or ADDI; `None` stands for a misalignment trap. */
  function Effect(env: Env, e: Entry, st: State): Option<State> {
    match e.op
    case LUI => Some(Set(st, e.rd, Wrap(e.imm)))
    case ADDI => Some(Set(st, e.rd, Add(st.X[e.rs1], e.imm)))
    case ADD => Some(Set(st, e.rd, Add(st.X[e.rs1], st.X[e.rs2])))
    case SLLI | SRLI | SRAI => Some(Set(st, e.rd, Shift(e.op, st.X[e.rs1], e.imm)))
    case LW =>
      var addr := Add(st.X[e.rs1], e.imm);
      if Misaligned(env, addr) then None
      else
        var r := env.read(st.mem, addr);
        Some(Set(st, e.rd, r.0).(mem := r.1))
    case SW =>
      var addr := Add(st.X[e.rs1], e.imm);
      if Misaligned(env, addr) then None
      else Some(st.(mem := env.write(st.mem, addr, st.X[e.rs2])))
    case _ => Some(st)
  }

  function Effects(env: Env, es: seq<Entry>, st: State): Option<State> {
    if es == [] then Some(st)
    else
      match Effect(env, es[0], st)
      case None => None
      case Some(st') => Effects(env, es[1..], st')
  }

  function Done(n: nat, r: Option<State>): Outcome {
    if r.Some? then Next(Advance(r.value, n)) else Trap
  }

  function Branch(env: Env, i: Insn, st: State): Outcome {
    if st.X[i.rs1] != st.X[i.rs2] then
      var st' := st.(branchTaken := true, pc := Wrap(st.pc + i.imm), cycle := st.cycle + 1);
      if !env.extC && st'.pc % 4 != 0 then Trap else Leave(st', i.taken)
    else
      var st' := Advance(st.(branchTaken := false), 1);
      if i.untaken.Some? then Leave(st', i.untaken) else Next(st')
  }

  /** The fused handlers, each as written in the source. */
  function ExecFused(env: Env, i: Insn, st: State): Outcome
    requires i.imm2 >= 0 || i.op !in {FUSE1, FUSE3, FUSE4, FUSE5, FUSE7}
  {
    match i.op
    case FUSE1 | FUSE3 | FUSE4 | FUSE5 | FUSE7 => Done(i.imm2, Effects(env, i.fuse, st))
    case FUSE2 =>
      var st' := Set(st, i.rd, Wrap(i.imm));
      Next(Advance(Set(st', i.rs2, Add(st'.X[i.rd], st'.X[i.rs1])), 2))
    case FUSE6 =>
      var st' := Set(st, A7, Wrap(i.imm)).(cycle := st.cycle + 2, pc := Wrap(st.pc + 4));
      Leave(env.ecall(st'), None)
    case FUSE8 => Next(Advance(Set(st, i.rd, Wrap(i.imm + i.imm2)), 2))
    case FUSE9 =>
      var st' := Set(st, i.rd, Wrap(i.imm));
      var addr := Wrap(i.imm + i.imm2);
      if Misaligned(env, addr) then Trap
      else
        var r := env.read(st'.mem, addr);
        Next(Advance(Set(st', i.rs2, r.0).(mem := r.1), 2))
    case FUSE10 =>
      var st' := Set(st, i.rd, Wrap(i.imm));
      var addr := Wrap(i.imm + i.imm2);
      if Misaligned(env, addr) then Trap
      else Next(Advance(st'.(mem := env.write(st'.mem, addr, st'.X[i.rs1])), 2))
    case FUSE11 =>
      var addr := Add(st.X[i.rs1], i.imm);
      if Misaligned(env, addr) then Trap
      else
        var r := env.read(st.mem, addr);
        var st' := Set(st, i.rd, r.0).(mem := r.1);
        Next(Advance(Set(st', i.rs1, Add(st'.X[i.rs1], i.imm2)), 2))
    case FUSE12 =>
      var st' := Set(st, i.rd, Add(st.X[i.rs1], i.imm)).(cycle := st.cycle + 2);
      if st'.X[i.rd] != 0 then
        Leave(st'.(branchTaken := true, pc := Wrap(st.pc + 4 + i.imm2)), i.taken)
      else
        Leave(st'.(branchTaken := false, pc := Wrap(st.pc + 8)), i.untaken)
    case _ => Next(st)
  }

  predicate IsFused(op: Op) {
    op in {FUSE1, FUSE2, FUSE3, FUSE4, FUSE5, FUSE6, FUSE7, FUSE8, FUSE9, FUSE10, FUSE11, FUSE12}
  }

  predicate Executable(i: Insn) {
    i.imm2 >= 0 || i.op !in {FUSE1, FUSE3, FUSE4, FUSE5, FUSE7}
  }

  function Exec(env: Env, i: Insn, st: State): Outcome
    requires Executable(i)
  {
    match i.op
    case NOP => Next(Advance(Set(st, 0, 0), 1))
    case LUI | ADD | ADDI | SLLI | SRLI | SRAI | LW | SW => Done(1, Effect(env, EntryOf(i), st))
    case BNE => Branch(env, i, st)
    case ECALL => Leave(env.ecall(st.(cycle := st.cycle + 1)), None)
    case OTHER(_) => env.other(i, st)
    case _ => ExecFused(env, i, st)
  }

  /** Runs a block from its first instruction until it is left or traps. */
  function Run(env: Env, s: seq<Insn>, st: State): Outcome
    requires forall i <- s :: Executable(i)
  {
    if s == [] then Leave(st, None)
    else
      match Exec(env, s[0], st)
      case Next(st') => Run(env, s[1..], st')
      case o => o
  }

  // ----- the rewriting pass

  const COMPUTING: set<Op> := {LUI, ADD, ADDI, SLLI, SRLI, SRAI}
  const SIMPLE: set<Op> := {LUI, ADD, ADDI, SLLI, SRLI, SRAI, LW, SW}
  const SHIFTS: set<Op> := {SLLI, SRLI, SRAI}

  /** The instruction that stands for the first `count` ones. */
  function Batched(s: seq<Insn>, count: nat, op: Op): Insn
    requires 1 <= count <= |s|
  {
    s[0].(fuse := Entries(s, count), op := op, imm2 := count)
  }

  /** Batches a run of at least two instructions, if it fits a slot and a slot is available. */
  function FuseRun(s: seq<Insn>, count: nat, op: Op, slot: bool, cfg: Config): (Insn, nat)
    requires 1 <= count <= |s|
  {
    if count <= 1 || count > cfg.maxEntries || !slot then (s[0], 1)
    else (Batched(s, count, op), count)
  }

  function RunLengthAt(s: seq<Insn>, ops: set<Op>): (n: nat)
    requires s != [] && s[0].op in ops
    ensures 1 <= n <= |s| && forall k :: 0 <= k < n ==> s[k].op in ops
  {
    1 + (if |s| > 1 && s[1].op in ops then RunLengthAt(s[1..], ops) else 0)
  }

  /** The instruction that replaces `i` and its successor `n`, if they match a pair pattern. */
  function Pair(i: Insn, n: Insn, cfg: Config): Option<Insn> {
    match i.op
    case LUI =>
      (match n.op
       case ADD =>
         if i.rd == n.rs2 || i.rd == n.rs1 then
           Some(i.(op := FUSE2, rs2 := n.rd, rs1 := if i.rd == n.rs2 then n.rs1 else n.rs2))
         else None
       case ADDI =>
         if i.rd != 0 && i.rd == n.rs1 && i.rd == n.rd then Some(i.(imm2 := n.imm, op := FUSE8)) else None
       case LW =>
         if i.rd != 0 && i.rd == n.rs1 then Some(i.(imm2 := n.imm, rs2 := n.rd, op := FUSE9)) else None
       case SW =>
         if i.rd != 0 && i.rd == n.rs1 && i.rd != n.rs2 then Some(i.(imm2 := n.imm, rs1 := n.rs2, op := FUSE10))
         else None
       case _ => None)
    case LW =>
      if n.op == ADDI && i.rs1 == n.rs1 && n.rs1 == n.rd && i.rd != i.rs1 then Some(i.(imm2 := n.imm, op := FUSE11))
      else None
    case ADDI =>
      if !cfg.rv32e && i.rd == A7 && i.rs1 == 0 && n.op == ECALL then Some(i.(op := FUSE6))
      else if n.op == BNE && i.rd != 0 && i.rd == n.rs1 && n.rs2 == 0 then
        Some(i.(imm2 := n.imm, op := FUSE12, taken := n.taken, untaken := n.untaken))
      else None
    case _ => None
  }

  /** The opcodes that are batched together with `op`, and the batched operation. */
  function Batch(op: Op): (r: Option<(set<Op>, Op)>)
    ensures r.Some? ==> op in r.value.0 && r.value.0 <= SIMPLE && r.value.1 in {FUSE1, FUSE3, FUSE4, FUSE5, FUSE7}
  {
    match op
    case LUI => Some(({LUI}, FUSE1))
    case SW => Some(({SW}, FUSE3))
    case LW => Some(({LW}, FUSE4))
    case SLLI | SRLI | SRAI => Some((SHIFTS, FUSE5))
    case ADDI => Some(({ADDI}, FUSE7))
    case _ => None
  }

  /** The rewritten first instruction, and how many instructions it stands for. */
  function FuseHead(s: seq<Insn>, slot: bool, cfg: Config): (Insn, nat)
    requires |s| >= 2
  {
    match Pair(s[0], s[1], cfg)
    case Some(h) => (h, 2)
    case None =>
      match Batch(s[0].op)
      case Some((ops, op)) => FuseRun(s, RunLengthAt(s, ops), op, slot, cfg)
      case None => (s[0], 1)
  }

  /** The list after the pass; `slot(i)` says whether the fuse pool has a slot at turn `i`. */
  function Fuse(s: seq<Insn>, i: nat, slot: nat -> bool, cfg: Config): seq<Insn>
    decreases |s|
  {
    if |s| <= 1 then s
    else
      var (h, k) := FuseHead(s, slot(i), cfg);
      if 1 <= k <= |s| then [h] + Fuse(s[k..], i + 1, slot, cfg) else s
  }

  // ----- what the decoder guarantees

  /** No fused operation yet, no write to x0 but by loads, as computations into x0 are decoded
      as NOP, and a branch only at the end of the block. */
  ghost predicate Decoded(s: seq<Insn>) {
    && (forall i <- s :: !IsFused(i.op))
    && (forall i <- s :: i.op in COMPUTING ==> i.rd != 0)
    && (forall k :: 0 <= k < |s| - 1 ==> s[k].op != BNE)
  }

  /** What an instruction that the model does not look into does to x0: it keeps it clear, clears
      it, or may write it, as byte and halfword loads into x0 do. */
  datatype OnZero = Keeps | Clears | Spoils

  /** The instructions of `s` that the model does not look into do to x0 what `zero` says. */
  ghost predicate KeepsZero(env: Env, s: seq<Insn>, zero: Insn -> OnZero) {
    forall i <- s :: i.op.OTHER? ==>
      match zero(i)
      case Keeps => OtherKeepsZero(env, i)
      case Clears => OtherClearsZero(env, i)
      case Spoils => true
  }

  ghost predicate OtherKeepsZero(env: Env, i: Insn) {
    forall st: State :: st.X[0] == 0 && env.other(i, st).Next? ==> env.other(i, st).st.X[0] == 0
  }

  ghost predicate OtherClearsZero(env: Env, i: Insn) {
    forall st: State :: env.other(i, st).Next? ==> env.other(i, st).st.X[0] == 0
  }

  lemma WrapWrap(x: int, y: int)
    ensures Wrap(Wrap(x) + y) == Wrap(x + y)
  {
  }

  lemma AdvanceTwice(st: State, a: nat, b: nat)
    ensures Advance(Advance(st, a), b) == Advance(st, a + b)
  {
    WrapWrap(st.pc + 4 * a, 4 * b);
    assert st.pc + 4 * a + 4 * b == st.pc + 4 * (a + b);
  }

  lemma EffectAdvance(env: Env, e: Entry, st: State, n: nat)
    ensures Effect(env, e, Advance(st, n)) ==
      match Effect(env, e, st) case None => None case Some(st') => Some(Advance(st', n))
  {
  }

  lemma {:induction false} EffectsAdvance(env: Env, es: seq<Entry>, st: State, n: nat)
    ensures Effects(env, es, Advance(st, n)) ==
      match Effects(env, es, st) case None => None case Some(st') => Some(Advance(st', n))
    decreases |es|
  {
    if es != [] {
      EffectAdvance(env, es[0], st, n);
      if Effect(env, es[0], st).Some? {
        EffectsAdvance(env, es[1..], Effect(env, es[0], st).value, n);
      }
    }
  }

  function Entries(s: seq<Insn>, count: nat): (es: seq<Entry>)
    requires count <= |s|
    ensures |es| == count && forall k :: 0 <= k < count ==> es[k] == EntryOf(s[k])
  {
    seq(count, k requires 0 <= k < count => EntryOf(s[k]))
  }

  /** A run of simple instructions, executed one by one, is the batch of their effects. */
  lemma {:induction false} RunBatch(env: Env, s: seq<Insn>, count: nat, st: State)
    requires (forall i <- s :: Executable(i)) && count <= |s|
    requires forall k :: 0 <= k < count ==> s[k].op in SIMPLE
    requires !Run(env, s, st).Trap?
    ensures
      var r := Effects(env, Entries(s, count), st);
      && r.Some?
      && Run(env, s[count..], Advance(r.value, count)) == Run(env, s, st)
    decreases count
  {
    if count == 0 {
      assert s[0..] == s;
    } else {
      var r := Effect(env, EntryOf(s[0]), st);
      var es := Entries(s, count);
      assert es[1..] == Entries(s[1..], count - 1);
      RunBatch(env, s[1..], count - 1, Advance(r.value, 1));
      EffectsAdvance(env, es[1..], r.value, 1);
      AdvanceTwice(Effects(env, es[1..], r.value).value, 1, count - 1);
      assert s[1..][count - 1..] == s[count..];
    }
  }

  /** The rewritten instruction `h` does, in one turn, what the first `k` instructions do. */
  ghost predicate StandsFor(env: Env, h: Insn, k: nat, s: seq<Insn>, st: State)
    requires Executable(h) && k <= |s| && forall i <- s :: Executable(i)
  {
    match Exec(env, h, st)
    case Next(st') => Run(env, s, st) == Run(env, s[k..], st')
    case o => Run(env, s, st) == o
  }

  lemma TwoSteps(env: Env, s: seq<Insn>, st: State)
    requires |s| >= 2 && forall i <- s :: Executable(i)
    ensures
      match Exec(env, s[0], st)
      case Next(st1) =>
        (match Exec(env, s[1], st1)
         case Next(st2) => Run(env, s, st) == Run(env, s[2..], st2)
         case o => Run(env, s, st) == o)
      case o => Run(env, s, st) == o
  {
    assert s[1..][0] == s[1] && s[1..][1..] == s[2..];
  }

  /** Blocks and states the pass is compared on: decoded, and the run does not trap. */
  ghost predicate Runnable(env: Env, s: seq<Insn>, st: State) {
    && Decoded(s)
    && (forall i <- s :: Executable(i))
    && !Run(env, s, st).Trap?
  }

  lemma UnfusedStandsFor(env: Env, s: seq<Insn>, st: State)
    requires s != [] && Runnable(env, s, st)
    ensures StandsFor(env, s[0], 1, s, st)
  {
    assert s[0] in s;
  }

  lemma BatchExec(env: Env, s: seq<Insn>, count: nat, op: Op, st: State)
    requires 1 <= count <= |s| && op in {FUSE1, FUSE3, FUSE4, FUSE5, FUSE7}
    ensures Exec(env, Batched(s, count, op), st) == Done(count, Effects(env, Entries(s, count), st))
  {
    var h := Batched(s, count, op);
    assert h.op == op && h.imm2 == count && h.fuse == Entries(s, count);
  }

  lemma BatchStandsFor(env: Env, s: seq<Insn>, count: nat, op: Op, st: State)
    requires Runnable(env, s, st) && 1 <= count <= |s| && op in {FUSE1, FUSE3, FUSE4, FUSE5, FUSE7}
    requires forall k :: 0 <= k < count ==> s[k].op in SIMPLE
    ensures StandsFor(env, Batched(s, count, op), count, s, st)
  {
    RunBatch(env, s, count, st);
    BatchExec(env, s, count, op, st);
  }

  lemma RunStandsFor(env: Env, s: seq<Insn>, count: nat, op: Op, slot: bool, cfg: Config, st: State)
    requires Runnable(env, s, st) && 1 <= count <= |s|
    requires forall k :: 0 <= k < count ==> s[k].op in SIMPLE
    requires op in {FUSE1, FUSE3, FUSE4, FUSE5, FUSE7}
    ensures
      var (h, k) := FuseRun(s, count, op, slot, cfg);
      Executable(h) && 1 <= k <= |s| && StandsFor(env, h, k, s, st)
  {
    if count <= 1 || count > cfg.maxEntries || !slot {
      UnfusedStandsFor(env, s, st);
    } else {
      BatchStandsFor(env, s, count, op, st);
    }
  }

  /** One turn of `h` is one turn of `i` and one of `n`, unless that traps. */
  ghost predicate Pairs(env: Env, h: Insn, i: Insn, n: Insn, st: State)
    requires Executable(h) && Executable(i) && Executable(n)
  {
    match Exec(env, i, st)
    case Next(st1) => var o := Exec(env, n, st1); o.Trap? || o == Exec(env, h, st)
    case _ => Exec(env, i, st).Trap?
  }

  lemma PairStandsFor(env: Env, s: seq<Insn>, h: Insn, st: State)
    requires |s| >= 2 && Runnable(env, s, st) && Executable(h) && Executable(s[0]) && Executable(s[1])
    requires Pairs(env, h, s[0], s[1], st)
    ensures StandsFor(env, h, 2, s, st)
  {
    TwoSteps(env, s, st);
  }

  lemma LuiAddPairs(env: Env, i: Insn, n: Insn, st: State)
    requires i.op == LUI && n.op == ADD
    requires i.rd == n.rs2 || i.rd == n.rs1
    ensures Pairs(env, i.(op := FUSE2, rs2 := n.rd, rs1 := if i.rd == n.rs2 then n.rs1 else n.rs2), i, n, st)
  {
    AdvanceTwice(Set(st, i.rd, Wrap(i.imm)), 1, 1);
  }

  lemma LuiAddiPairs(env: Env, i: Insn, n: Insn, st: State)
    requires i.op == LUI && n.op == ADDI
    requires i.rd == n.rs1 && i.rd == n.rd
    ensures Pairs(env, i.(imm2 := n.imm, op := FUSE8), i, n, st)
  {
    WrapWrap(i.imm, n.imm);
    AdvanceTwice(st, 1, 1);
    assert st.X[i.rd := Wrap(i.imm)][i.rd := Wrap(i.imm + n.imm)] == st.X[i.rd := Wrap(i.imm + n.imm)];
  }

  lemma LuiLwPairs(env: Env, i: Insn, n: Insn, st: State)
    requires i.op == LUI && n.op == LW && i.rd == n.rs1
    ensures Pairs(env, i.(imm2 := n.imm, rs2 := n.rd, op := FUSE9), i, n, st)
  {
    WrapWrap(i.imm, n.imm);
    AdvanceTwice(st, 1, 1);
  }

  lemma LuiSwPairs(env: Env, i: Insn, n: Insn, st: State)
    requires i.op == LUI && n.op == SW && i.rd == n.rs1
    ensures Pairs(env, i.(imm2 := n.imm, rs1 := n.rs2, op := FUSE10), i, n, st)
  {
    WrapWrap(i.imm, n.imm);
    AdvanceTwice(st, 1, 1);
  }

  lemma LwAddiPairs(env: Env, i: Insn, n: Insn, st: State)
    requires i.op == LW && n.op == ADDI
    requires i.rs1 == n.rs1 && n.rs1 == n.rd && i.rd != i.rs1
    ensures Pairs(env, i.(imm2 := n.imm, op := FUSE11), i, n, st)
  {
    AdvanceTwice(st, 1, 1);
  }

  /** System calls made in different states have different results. */
  ghost predicate TellsApart(env: Env) {
    forall a, b: State :: env.ecall(a) == env.ecall(b) ==> a == b
  }

  /** Two of the fused operations take x0 to be zero.  This is when that makes no difference:
      x0 is zero, or the counter compares with it as it compares with zero. */
  predicate ZeroHolds(i: Insn, st: State) {
    match i.op
    case FUSE6 => st.X[0] == 0
    case FUSE12 => var v := Add(st.X[i.rs1], i.imm); v == 0 <==> v == st.X[0]
    case _ => true
  }

  /** The state in which the fused operation makes the system call. */
  function CallFused(imm: int, st: State): State {
    Set(st, A7, Wrap(imm)).(cycle := st.cycle + 2, pc := Wrap(st.pc + 4))
  }

  /** And the one in which the two instructions do. */
  function CallPlain(imm: int, st: State): State {
    var st' := Advance(Set(st, A7, Add(st.X[0], imm)), 1);
    st'.(cycle := st'.cycle + 1)
  }

  lemma CallStates(imm: int, st: State)
    ensures CallFused(imm, st) == CallPlain(imm, st) <==> st.X[0] == 0
  {
    var a, b := CallFused(imm, st), CallPlain(imm, st);
    assert a.X[A7] == Wrap(imm) && b.X[A7] == Add(st.X[0], imm);
    AddZero(imm, st.X[0]);
    if st.X[0] != 0 {
      assert a != b;
    }
  }

  lemma AddZero(imm: int, x: Word)
    ensures Add(x, imm) == Wrap(imm) <==> x == 0
  {
  }

  /** The fused system call does what its two instructions do exactly if x0 is zero. */
  lemma EcallStandsFor(env: Env, s: seq<Insn>, st: State)
    requires |s| >= 2 && Runnable(env, s, st)
    requires s[0].op == ADDI && s[0].rd == A7 && s[0].rs1 == 0 && s[1].op == ECALL
    ensures var h := s[0].(op := FUSE6);
            && (ZeroHolds(h, st) ==> StandsFor(env, h, 2, s, st))
            && (TellsApart(env) && StandsFor(env, h, 2, s, st) ==> ZeroHolds(h, st))
  {
    assert s[0] in s && s[1] in s;
    TwoSteps(env, s, st);
    CallStates(s[0].imm, st);
    assert Exec(env, s[0].(op := FUSE6), st) == Leave(env.ecall(CallFused(s[0].imm, st)), None);
    assert Run(env, s, st) == Leave(env.ecall(CallPlain(s[0].imm, st)), None);
  }

  /** The fused counter-and-branch leaves the block as its two instructions do exactly if the
      comparison with x0 is one with zero.  The branch is the last instruction, so falling
      through it also ends the block. */
  lemma LoopCounterStandsFor(env: Env, s: seq<Insn>, st: State)
    requires |s| >= 2 && Runnable(env, s, st)
    requires s[0].op == ADDI && s[1].op == BNE && s[0].rd != 0 && s[0].rd == s[1].rs1 && s[1].rs2 == 0
    ensures var h := s[0].(imm2 := s[1].imm, op := FUSE12, taken := s[1].taken, untaken := s[1].untaken);
            StandsFor(env, h, 2, s, st) <==> ZeroHolds(h, st)
  {
    var i, n := s[0], s[1];
    assert i in s && n in s;
    assert s[2..] == [];
    TwoSteps(env, s, st);
    WrapWrap(st.pc + 4, n.imm);
    WrapWrap(st.pc + 4, 4);
  }

  /** `h` does in one turn what the first `k` instructions do, exactly if x0 is as it expects. */
  ghost predicate StandsExactly(env: Env, h: Insn, k: nat, s: seq<Insn>, st: State)
    requires Executable(h) && k <= |s| && forall i <- s :: Executable(i)
  {
    && (ZeroHolds(h, st) ==> StandsFor(env, h, k, s, st))
    && (TellsApart(env) && StandsFor(env, h, k, s, st) ==> ZeroHolds(h, st))
  }

  lemma PatternStandsFor(env: Env, s: seq<Insn>, cfg: Config, st: State)
    requires |s| >= 2 && Runnable(env, s, st) && Pair(s[0], s[1], cfg).Some?
    ensures var h := Pair(s[0], s[1], cfg).value; Executable(h) && StandsExactly(env, h, 2, s, st)
  {
    var i, n, h := s[0], s[1], Pair(s[0], s[1], cfg).value;
    assert i in s && n in s;
    match h.op {
      case FUSE2 => LuiAddPairs(env, i, n, st);
      case FUSE8 => LuiAddiPairs(env, i, n, st);
      case FUSE9 => LuiLwPairs(env, i, n, st);
      case FUSE10 => LuiSwPairs(env, i, n, st);
      case FUSE11 => LwAddiPairs(env, i, n, st);
      case FUSE6 => EcallStandsFor(env, s, st);
      case FUSE12 => LoopCounterStandsFor(env, s, st);
    }
    if h.op !in {FUSE6, FUSE12} {
      PairStandsFor(env, s, h, st);
    }
  }

  lemma HeadStandsFor(env: Env, s: seq<Insn>, slot: bool, cfg: Config, st: State)
    requires |s| >= 2 && Runnable(env, s, st)
    ensures var (h, k) := FuseHead(s, slot, cfg); Executable(h) && 1 <= k <= |s| && StandsExactly(env, h, k, s, st)
  {
    match Pair(s[0], s[1], cfg)
    case Some(h) => PatternStandsFor(env, s, cfg, st);
    case None =>
      match Batch(s[0].op)
      case Some((ops, op)) => RunStandsFor(env, s, RunLengthAt(s, ops), op, slot, cfg, st);
      case None => UnfusedStandsFor(env, s, st);
  }

  lemma DecodedSuffix(s: seq<Insn>, k: nat)
    requires Decoded(s) && k <= |s|
    ensures Decoded(s[k..])
  {
    assert forall j :: 0 <= j < |s[k..]| ==> s[k..][j] == s[k + j];
  }

  /** The pass yields instructions the interpreter can run. */
  lemma {:induction false} FuseExecutable(s: seq<Insn>, i: nat, slot: nat -> bool, cfg: Config)
    requires forall x <- s :: Executable(x)
    ensures forall x <- Fuse(s, i, slot, cfg) :: Executable(x)
    decreases |s|
  {
    if |s| > 1 {
      var (h, k) := FuseHead(s, slot(i), cfg);
      assert s[0] in s;
      FuseExecutable(s[k..], i + 1, slot, cfg);
    }
  }

  /** Where the run of a fused list comes to an operation that takes x0 to be zero, that makes
      no difference. */
  ghost predicate ZeroHeld(env: Env, f: seq<Insn>, st: State)
    requires forall i <- f :: Executable(i)
  {
    f == [] || (ZeroHolds(f[0], st) &&
                var o := Exec(env, f[0], st); o.Next? ==> ZeroHeld(env, f[1..], o.st))
  }

  /** The fused list does what the original does, that is, ends with the same registers, memory,
      program counter, cycle count and exit, if and only if x0 is as the fused operations
      expect. */
  lemma {:induction false} FuseExact(env: Env, s: seq<Insn>, i: nat, slot: nat -> bool, cfg: Config, st: State)
    requires Runnable(env, s, st)
    ensures
      var f := Fuse(s, i, slot, cfg);
      && (forall x <- f :: Executable(x))
      && (ZeroHeld(env, f, st) ==> Run(env, f, st) == Run(env, s, st))
      && (TellsApart(env) && Run(env, f, st) == Run(env, s, st) ==> ZeroHeld(env, f, st))
    decreases |s|
  {
    FuseExecutable(s, i, slot, cfg);
    var f := Fuse(s, i, slot, cfg);
    if |s| > 1 {
      var (h, k) := FuseHead(s, slot(i), cfg);
      HeadStandsFor(env, s, slot(i), cfg, st);
      assert f[0] == h && f[1..] == Fuse(s[k..], i + 1, slot, cfg);
      if Exec(env, h, st).Next? {
        DecodedSuffix(s, k);
        FuseExact(env, s[k..], i + 1, slot, cfg, Exec(env, h, st).st);
      }
    } else if |s| == 1 {
      assert s[0] in s;
      assert f[1..] == [];
    }
  }

  // ----- when x0 is as expected: writes to x0

  const ZERO_READERS: set<Op> := {FUSE6, FUSE12}

  /** Loads into x0 write it, and so do other instructions, as `zero` says. */
  predicate WritesZero(i: Insn, zero: Insn -> OnZero) {
    match i.op
    case OTHER(_) => zero(i).Spoils?
    case LW | FUSE11 => i.rd == 0
    case FUSE9 => i.rs2 == 0
    case FUSE4 => exists e <- i.fuse :: e.rd == 0
    case _ => false
  }

  predicate ClearsZero(i: Insn, zero: Insn -> OnZero) {
    i.op == NOP || (i.op.OTHER? && zero(i).Clears?)
  }

  /** Whether x0 may have been left written after `i`. */
  predicate Dirty(i: Insn, written: bool, zero: Insn -> OnZero) {
    !ClearsZero(i, zero) && (written || WritesZero(i, zero))
  }

  /** No operation among `ops` comes after a write to x0 that is not undone before it. */
  predicate ZeroSafe(f: seq<Insn>, written: bool, ops: set<Op>, zero: Insn -> OnZero) {
    f == [] || (!(written && f[0].op in ops) && ZeroSafe(f[1..], Dirty(f[0], written, zero), ops, zero))
  }

  /** Of the operations the model looks into, only loads write x0. */
  predicate AvoidsZero(i: Insn) {
    match i.op
    case LUI | ADD | ADDI | SLLI | SRLI | SRAI | FUSE8 | FUSE9 | FUSE10 => i.rd != 0
    case FUSE2 => i.rd != 0 && i.rs2 != 0
    case FUSE11 => i.rs1 != 0
    case FUSE1 | FUSE5 | FUSE7 => forall e <- i.fuse :: e.op in COMPUTING && e.rd != 0
    case FUSE3 => forall e <- i.fuse :: e.op == SW
    case FUSE4 => forall e <- i.fuse :: e.op == LW
    case _ => true
  }

  lemma HeadAvoidsZero(s: seq<Insn>, slot: bool, cfg: Config)
    requires |s| >= 2 && Decoded(s)
    ensures AvoidsZero(FuseHead(s, slot, cfg).0)
  {
    assert s[0] in s && s[1] in s;
    if Pair(s[0], s[1], cfg).None? && Batch(s[0].op).Some? {
      var n := RunLengthAt(s, Batch(s[0].op).value.0);
      assert forall k :: 0 <= k < n ==> s[k] in s;
    }
  }

  lemma {:induction false} FuseAvoidsZero(s: seq<Insn>, i: nat, slot: nat -> bool, cfg: Config)
    requires Decoded(s)
    ensures forall x <- Fuse(s, i, slot, cfg) :: AvoidsZero(x)
    decreases |s|
  {
    if |s| > 1 {
      HeadAvoidsZero(s, slot(i), cfg);
      var k := FuseHead(s, slot(i), cfg).1;
      if 1 <= k <= |s| {
        DecodedSuffix(s, k);
        FuseAvoidsZero(s[k..], i + 1, slot, cfg);
      }
    }
  }

  lemma {:induction false} EffectsAvoidZero(env: Env, es: seq<Entry>, st: State)
    requires forall e <- es :: (e.op in COMPUTING || e.op == LW ==> e.rd != 0)
    ensures var r := Effects(env, es, st); r.Some? ==> r.value.X[0] == st.X[0]
    decreases |es|
  {
    if es != [] && Effect(env, es[0], st).Some? {
      assert es[0] in es;
      EffectsAvoidZero(env, es[1..], Effect(env, es[0], st).value);
    }
  }

  /** The other instructions of the rewritten list are those of the original one. */
  lemma {:induction false} FuseOthers(s: seq<Insn>, i: nat, slot: nat -> bool, cfg: Config)
    ensures forall x <- Fuse(s, i, slot, cfg) :: x.op.OTHER? ==> x in s
    decreases |s|
  {
    if |s| > 1 {
      var (h, k) := FuseHead(s, slot(i), cfg);
      if 1 <= k <= |s| {
        FuseOthers(s[k..], i + 1, slot, cfg);
        assert h.op.OTHER? ==> h == s[0];
      }
    }
  }

  lemma KeepsClear(env: Env, i: Insn, written: bool, st: State, zero: Insn -> OnZero)
    requires Executable(i) && AvoidsZero(i) && KeepsZero(env, [i], zero) && (written || st.X[0] == 0)
    requires !Dirty(i, written, zero)
    ensures Exec(env, i, st).Next? ==> Exec(env, i, st).st.X[0] == 0
  {
    if i.op in {FUSE1, FUSE3, FUSE4, FUSE5, FUSE7} {
      EffectsAvoidZero(env, i.fuse, st);
    } else if i.op.OTHER? {
      assert i in [i];
      assert if zero(i).Clears? then OtherClearsZero(env, i) else OtherKeepsZero(env, i);
    }
  }

  lemma {:induction false} SafeIsHeld(env: Env, f: seq<Insn>, written: bool, st: State, zero: Insn -> OnZero)
    requires (forall x <- f :: Executable(x) && AvoidsZero(x)) && KeepsZero(env, f, zero)
    requires ZeroSafe(f, written, ZERO_READERS, zero) && (written || st.X[0] == 0)
    ensures ZeroHeld(env, f, st)
    decreases |f|
  {
    if f != [] {
      assert f[0] in f;
      var o := Exec(env, f[0], st);
      if o.Next? {
        if !Dirty(f[0], written, zero) {
          KeepsClear(env, f[0], written, st, zero);
        }
        SafeIsHeld(env, f[1..], Dirty(f[0], written, zero), o.st, zero);
      }
    }
  }

  /** The fused list does what the original does, from every state with x0 clear: the same
      registers, memory, program counter, cycle count and exit.  No fused system call or counter
      may come after a load into x0, which the load handlers do write, unless x0 is cleared
      between. */
  lemma FusePreserves(env: Env, s: seq<Insn>, i: nat, slot: nat -> bool, cfg: Config, st: State, zero: Insn -> OnZero)
    requires Runnable(env, s, st) && KeepsZero(env, s, zero) && st.X[0] == 0
    requires ZeroSafe(Fuse(s, i, slot, cfg), false, ZERO_READERS, zero)
    ensures forall x <- Fuse(s, i, slot, cfg) :: Executable(x)
    ensures Run(env, Fuse(s, i, slot, cfg), st) == Run(env, s, st)
  {
    FuseExact(env, s, i, slot, cfg, st);
    FuseAvoidsZero(s, i, slot, cfg);
    FuseOthers(s, i, slot, cfg);
    SafeIsHeld(env, Fuse(s, i, slot, cfg), false, st, zero);
  }

  ghost predicate NoLoadIntoZero(s: seq<Insn>, zero: Insn -> OnZero) {
    forall i <- s :: !WritesZero(i, zero)
  }

  lemma HeadLoadsNoZero(s: seq<Insn>, slot: bool, cfg: Config, zero: Insn -> OnZero)
    requires |s| >= 2 && Decoded(s) && NoLoadIntoZero(s, zero)
    ensures !WritesZero(FuseHead(s, slot, cfg).0, zero)
  {
    assert s[0] in s && s[1] in s;
    if Pair(s[0], s[1], cfg).None? && Batch(s[0].op).Some? {
      var n := RunLengthAt(s, Batch(s[0].op).value.0);
      assert forall k :: 0 <= k < n ==> s[k] in s;
    }
  }

  /** In particular, blocks without a load into x0 are fused safely. */
  lemma {:induction false} NoLoadIntoZeroSafe(s: seq<Insn>, i: nat, slot: nat -> bool, cfg: Config,
                                              zero: Insn -> OnZero)
    requires Decoded(s) && NoLoadIntoZero(s, zero)
    ensures ZeroSafe(Fuse(s, i, slot, cfg), false, ZERO_READERS, zero)
    decreases |s|
  {
    if |s| > 1 {
      var (h, k) := FuseHead(s, slot(i), cfg);
      HeadLoadsNoZero(s, slot(i), cfg, zero);
      DecodedSuffix(s, k);
      NoLoadIntoZeroSafe(s[k..], i + 1, slot, cfg, zero);
      var f := Fuse(s, i, slot, cfg);
      assert f[0] == h && f[1..] == Fuse(s[k..], i + 1, slot, cfg);
    } else if |s| == 1 {
      assert s[0] in s;
      assert ZeroSafe(s[1..], false, ZERO_READERS, zero);
    }
  }

  // ----- and where it is not

  const LEAVING: set<Op> := {BNE, ECALL, FUSE6, FUSE12}

  /** Only the last instruction ends the block. */
  ghost predicate EndsOnce(s: seq<Insn>) {
    forall k :: 0 <= k < |s| - 1 ==> s[k].op !in LEAVING
  }

  lemma EndsOnceSuffix(s: seq<Insn>, k: nat)
    requires EndsOnce(s) && k <= |s|
    ensures EndsOnce(s[k..])
  {
    assert forall j :: 0 <= j < |s[k..]| ==> s[k..][j] == s[k + j];
  }

  lemma EndsOnceAfter(h: Insn, f: seq<Insn>)
    requires EndsOnce(f) && (f != [] ==> h.op !in LEAVING)
    ensures EndsOnce([h] + f)
  {
    assert forall j :: 0 < j <= |f| ==> ([h] + f)[j] == f[j - 1];
  }

  lemma HeadEndsOnce(s: seq<Insn>, slot: bool, cfg: Config)
    requires |s| >= 2 && Decoded(s) && EndsOnce(s)
    ensures var (h, k) := FuseHead(s, slot, cfg); 1 <= k <= |s| && (k < |s| ==> h.op !in LEAVING)
  {
    assert s[0].op !in LEAVING && (|s| > 2 ==> s[1].op !in LEAVING);
  }

  lemma {:induction false} FuseEndsOnce(s: seq<Insn>, i: nat, slot: nat -> bool, cfg: Config)
    requires Decoded(s) && EndsOnce(s)
    ensures EndsOnce(Fuse(s, i, slot, cfg))
    decreases |s|
  {
    if |s| > 1 {
      var (h, k) := FuseHead(s, slot(i), cfg);
      HeadEndsOnce(s, slot(i), cfg);
      DecodedSuffix(s, k);
      EndsOnceSuffix(s, k);
      FuseEndsOnce(s[k..], i + 1, slot, cfg);
      EndsOnceAfter(h, Fuse(s[k..], i + 1, slot, cfg));
    }
  }

  /** Memory that reads `w` everywhere, no traps, and other instructions that do nothing but write
      `w` to x0, or clear it, as `zero` says. */
  ghost function Reading(w: Word, zero: Insn -> OnZero): Env {
    Env((m: Mem, a: Word) => (w, m), (m: Mem, a: Word, v: Word) => m, (st: State) => st,
        (i: Insn, st: State) => Next(OnlyZero(st, zero(i), w)), true, true)
  }

  ghost function OnlyZero(st: State, z: OnZero, w: Word): State {
    match z
    case Keeps => st
    case Clears => Set(st, 0, 0)
    case Spoils => Set(st, 0, w)
  }

  lemma {:induction false} ReadingRuns(s: seq<Insn>, st: State, w: Word, zero: Insn -> OnZero)
    requires forall i <- s :: !IsFused(i.op)
    ensures (forall i <- s :: Executable(i)) && !Run(Reading(w, zero), s, st).Trap?
    decreases |s|
  {
    if s != [] {
      assert s[0] in s;
      var o := Exec(Reading(w, zero), s[0], st);
      if o.Next? {
        ReadingRuns(s[1..], o.st, w, zero);
      }
    }
  }

  lemma {:induction false} ReadingEffects(es: seq<Entry>, st: State, w: Word, zero: Insn -> OnZero)
    requires forall e <- es :: e.op in COMPUTING ==> e.rd != 0
    ensures
      var r := Effects(Reading(w, zero), es, st);
      && r.Some?
      && (st.X[0] == w || (exists e <- es :: e.op == LW && e.rd == 0) ==> r.value.X[0] == w)
    decreases |es|
  {
    if es != [] {
      assert es[0] in es && es == [es[0]] + es[1..];
      ReadingEffects(es[1..], Effect(Reading(w, zero), es[0], st).value, w, zero);
    }
  }

  lemma ReadingPlainStep(i: Insn, written: bool, st: State, w: Word, zero: Insn -> OnZero)
    requires Executable(i) && AvoidsZero(i) && (written ==> st.X[0] == w)
    requires i.op !in LEAVING && i.op !in {FUSE1, FUSE3, FUSE4, FUSE5, FUSE7}
    ensures
      var o := Exec(Reading(w, zero), i, st);
      o.Next? && (Dirty(i, written, zero) ==> o.st.X[0] == w)
  {
    var o := Exec(Reading(w, zero), i, st);
    match i.op
    case NOP => assert o.Next?;
    case OTHER(_) => assert o == Next(OnlyZero(st, zero(i), w));
    case LUI | ADD | ADDI | SLLI | SRLI | SRAI => assert o.Next?;
    case LW => assert o == Next(Advance(Set(st, i.rd, w), 1));
    case SW => assert o == Next(Advance(st, 1));
    case FUSE2 => assert o.Next?;
    case FUSE8 => assert o.Next?;
    case FUSE9 => assert o.Next?;
    case FUSE10 => assert o.Next?;
    case FUSE11 => assert o.Next?;
  }

  /** Once x0 has been written it stays `w` until it is cleared. */
  lemma ReadingStep(i: Insn, written: bool, st: State, w: Word, zero: Insn -> OnZero)
    requires Executable(i) && AvoidsZero(i) && i.op !in LEAVING && (written ==> st.X[0] == w)
    ensures
      var o := Exec(Reading(w, zero), i, st);
      o.Next? && (Dirty(i, written, zero) ==> o.st.X[0] == w)
  {
    if i.op == FUSE4 {
      if WritesZero(i, zero) {
        var e :| e in i.fuse && e.rd == 0;
        assert e.op == LW;
      }
      ReadingEffects(i.fuse, st, w, zero);
    } else if i.op in {FUSE1, FUSE3, FUSE5, FUSE7} {
      ReadingEffects(i.fuse, st, w, zero);
    } else {
      ReadingPlainStep(i, written, st, w, zero);
    }
  }

  lemma {:induction false} UnsafeNotHeld(f: seq<Insn>, written: bool, st: State, w: Word, zero: Insn -> OnZero)
    requires (forall x <- f :: Executable(x) && AvoidsZero(x)) && EndsOnce(f)
    requires !ZeroSafe(f, written, {FUSE6}, zero) && (written ==> st.X[0] == w) && w != 0
    ensures !ZeroHeld(Reading(w, zero), f, st)
    decreases |f|
  {
    assert f[0] in f;
    if !(written && f[0].op == FUSE6) {
      ReadingStep(f[0], written, st, w, zero);
      UnsafeNotHeld(f[1..], Dirty(f[0], written, zero), Exec(Reading(w, zero), f[0], st).st, w, zero);
    }
  }

  /** The condition is needed: every block in which a fused system call comes after a write to
      x0, not cleared between, runs differently before and after the pass, from any state with x0
      clear, on a memory that reads anything but 0. */
  lemma ZeroSafeNeeded(s: seq<Insn>, slot: nat -> bool, cfg: Config, st: State, w: Word, zero: Insn -> OnZero)
    requires Decoded(s) && EndsOnce(s) && st.X[0] == 0 && w != 0
    requires !ZeroSafe(Fuse(s, 0, slot, cfg), false, {FUSE6}, zero)
    ensures Runnable(Reading(w, zero), s, st) && KeepsZero(Reading(w, zero), s, zero)
    ensures forall x <- Fuse(s, 0, slot, cfg) :: Executable(x)
    ensures Run(Reading(w, zero), Fuse(s, 0, slot, cfg), st) != Run(Reading(w, zero), s, st)
  {
    ReadingRuns(s, st, w, zero);
    FuseExact(Reading(w, zero), s, 0, slot, cfg, st);
    FuseAvoidsZero(s, 0, slot, cfg);
    FuseEndsOnce(s, 0, slot, cfg);
    UnsafeNotHeld(Fuse(s, 0, slot, cfg), false, st, w, zero);
  }

  // Such a block: lw x0, 0(x1); addi a7, x0, 5; ecall.
  const LOAD_X0 := Insn(LW, 0, 1, 0, 0, 0, [], None, None)
  const LI_A7 := Insn(ADDI, A7, 0, 0, 5, 0, [], None, None)
  const CALL := Insn(ECALL, 0, 0, 0, 0, 0, [], None, None)

  lemma LoadIntoZeroFused(slot: nat -> bool, cfg: Config)
    requires !cfg.rv32e
    ensures Fuse([LOAD_X0, LI_A7, CALL], 0, slot, cfg) == [LOAD_X0, LI_A7.(op := FUSE6)]
  {
    var s := [LOAD_X0, LI_A7, CALL];
    assert FuseHead(s, slot(0), cfg) == (LOAD_X0, 1);
    assert s[1..] == [LI_A7, CALL] && FuseHead(s[1..], slot(1), cfg) == (LI_A7.(op := FUSE6), 2);
    assert s[1..][2..] == [] && Fuse([], 2, slot, cfg) == [];
  }

  lemma LoadIntoZeroUnsafe(zero: Insn -> OnZero)
    ensures !ZeroSafe([LOAD_X0, LI_A7.(op := FUSE6)], false, {FUSE6}, zero)
  {
    var f := [LOAD_X0, LI_A7.(op := FUSE6)];
    assert f[1..] == [LI_A7.(op := FUSE6)] && WritesZero(f[0], zero);
    assert !ZeroSafe(f[1..], Dirty(f[0], false, zero), {FUSE6}, zero);
  }

  lemma LoadIntoZeroDecoded(s: seq<Insn>)
    requires s == [LOAD_X0, LI_A7, CALL]
    ensures Decoded(s) && EndsOnce(s)
  {
    forall i | i in s ensures !IsFused(i.op) && (i.op in COMPUTING ==> i.rd != 0) {
      assert i == LOAD_X0 || i == LI_A7 || i == CALL;
    }
    assert s[0].op == LW && s[1].op == ADDI;
  }

  /** The block above is fused, and runs differently then. */
  lemma LoadIntoZeroDiffers(slot: nat -> bool, cfg: Config, st: State, w: Word, zero: Insn -> OnZero)
    requires st.X[0] == 0 && !cfg.rv32e && w != 0
    ensures
      var s := [LOAD_X0, LI_A7, CALL];
      (forall x <- s + Fuse(s, 0, slot, cfg) :: Executable(x)) &&
      Run(Reading(w, zero), Fuse(s, 0, slot, cfg), st) != Run(Reading(w, zero), s, st)
  {
    var s := [LOAD_X0, LI_A7, CALL];
    LoadIntoZeroFused(slot, cfg);
    LoadIntoZeroUnsafe(zero);
    LoadIntoZeroDecoded(s);
    ZeroSafeNeeded(s, slot, cfg, st, w, zero);
  }

  // ----- the fused counter after a write to x0

  function NonZero(r: Reg): set<nat> {
    if r != 0 then {r as nat} else {}
  }

  /** The registers named by the destination fields of an instruction of the rewritten list. */
  ghost function Fields(i: Insn): set<nat> {
    match i.op
    case SW | BNE | ECALL | FUSE3 => {}
    case FUSE2 | FUSE9 => {i.rd as nat, i.rs2 as nat}
    case FUSE11 => {i.rd as nat, i.rs1 as nat}
    case FUSE1 | FUSE4 | FUSE5 | FUSE7 => EntryFields(i.fuse)
    case FUSE6 => {A7 as nat}
    case OTHER(_) => NonZero(i.rd)
    case _ => {i.rd as nat}
  }

  ghost function EntryFields(es: seq<Entry>): set<nat> {
    set e | e in es && e.op != SW :: e.rd as nat
  }

  lemma {:induction false} EffectsKeep(env: Env, es: seq<Entry>, st: State, r: Reg)
    requires r as nat !in EntryFields(es)
    ensures var o := Effects(env, es, st); o.Some? ==> o.value.X[r] == st.X[r]
    decreases |es|
  {
    if es != [] && Effect(env, es[0], st).Some? {
      assert es[0] in es;
      EffectsKeep(env, es[1..], Effect(env, es[0], st).value, r);
    }
  }

  /** A register that is no destination field is left alone. */
  lemma ReadingKeeps(i: Insn, st: State, r: Reg, w: Word, zero: Insn -> OnZero)
    requires Executable(i) && AvoidsZero(i) && r != 0 && r as nat !in Fields(i)
    ensures var o := Exec(Reading(w, zero), i, st); o.Next? ==> o.st.X[r] == st.X[r]
  {
    if i.op in {FUSE1, FUSE3, FUSE4, FUSE5, FUSE7} {
      EffectsKeep(Reading(w, zero), i.fuse, st, r);
    } else if i.op.OTHER? {
      assert Exec(Reading(w, zero), i, st) == Next(OnlyZero(st, zero(i), w));
    }
  }

  /** What the counter comes to, if its register is x0, which reads `w`, or is as it was. */
  function CounterAt(h: Insn, st: State, w: Word): Word {
    Add(if h.rs1 == 0 then w else st.X[h.rs1], h.imm)
  }

  /** The counter comes to 0 or to what the memory reads. */
  predicate CounterMisread(h: Insn, st: State, w: Word) {
    CounterAt(h, st, w) == 0 || CounterAt(h, st, w) == w
  }

  /** The last instruction of `f` is a counter whose register no other writes, x0 apart. */
  ghost predicate CounterKept(f: seq<Insn>) {
    f != [] && var r := f[|f| - 1].rs1; r == 0 || forall j :: 0 <= j < |f| - 1 ==> r as nat !in Fields(f[j])
  }

  lemma {:induction false} CounterHeld(f: seq<Insn>, written: bool, st: State, w: Word, zero: Insn -> OnZero)
    requires (forall x <- f :: Executable(x) && AvoidsZero(x)) && EndsOnce(f) && CounterKept(f)
    requires !ZeroSafe(f, written, {FUSE12}, zero) && (written ==> st.X[0] == w) && w != 0
    ensures ZeroHeld(Reading(w, zero), f, st) <==> !CounterMisread(f[|f| - 1], st, w)
    decreases |f|
  {
    assert f[0] in f;
    if |f| == 1 {
      assert f[1..] == [] && ZeroSafe(f[1..], Dirty(f[0], written, zero), {FUSE12}, zero);
      assert f[0].op == FUSE12 && written;
      assert ZeroHolds(f[0], st) <==> !CounterMisread(f[0], st, w);
    } else {
      var h := f[|f| - 1];
      assert f[0].op !in LEAVING && ZeroHolds(f[0], st);
      ReadingStep(f[0], written, st, w, zero);
      if h.rs1 != 0 {
        ReadingKeeps(f[0], st, h.rs1, w, zero);
      }
      assert f[1..][|f| - 2] == h && forall j :: 0 <= j < |f| - 1 ==> f[1..][j] == f[j + 1];
      CounterHeld(f[1..], Dirty(f[0], written, zero), Exec(Reading(w, zero), f[0], st).st, w, zero);
    }
  }

  /** A block whose fused counter comes after a write to x0, not cleared between, with the counter's
      register not written before, runs differently if and only if the counter comes to 0 or to
      what the memory reads. */
  lemma CounterExact(s: seq<Insn>, slot: nat -> bool, cfg: Config, st: State, w: Word, zero: Insn -> OnZero)
    requires Decoded(s) && EndsOnce(s) && st.X[0] == 0 && w != 0
    requires var f := Fuse(s, 0, slot, cfg); !ZeroSafe(f, false, {FUSE12}, zero) && CounterKept(f)
    ensures
      var f, env := Fuse(s, 0, slot, cfg), Reading(w, zero);
      && Runnable(env, s, st) && KeepsZero(env, s, zero) && (forall x <- f :: Executable(x))
      && (Run(env, f, st) != Run(env, s, st) <==> CounterMisread(f[|f| - 1], st, w))
  {
    ReadingRuns(s, st, w, zero);
    FuseExact(Reading(w, zero), s, 0, slot, cfg, st);
    FuseAvoidsZero(s, 0, slot, cfg);
    FuseEndsOnce(s, 0, slot, cfg);
    CounterHeld(Fuse(s, 0, slot, cfg), false, st, w, zero);
  }

  lemma Misreading(h: Insn, st: State) returns (w: Word, st': State)
    requires st.X[0] == 0
    ensures w != 0 && CounterMisread(h, st', w) && st'.X[0] == 0
  {
    if h.rs1 == 0 {
      w, st' := if Wrap(h.imm) != 0 then Wrap(-h.imm) else 1, st;
    } else {
      w, st' := 1, Set(st, h.rs1, Wrap(-h.imm));
    }
    WrapWrap(-h.imm, h.imm);
  }

  /** For every such block there are a memory and a state on which it does. */
  lemma CounterDiffers(s: seq<Insn>, slot: nat -> bool, cfg: Config, st: State, zero: Insn -> OnZero)
    returns (w: Word, st': State)
    requires Decoded(s) && EndsOnce(s) && st.X[0] == 0
    requires var f := Fuse(s, 0, slot, cfg); !ZeroSafe(f, false, {FUSE12}, zero) && CounterKept(f)
    ensures
      var f, env := Fuse(s, 0, slot, cfg), Reading(w, zero);
      && Runnable(env, s, st') && KeepsZero(env, s, zero) && st'.X[0] == 0 && (forall x <- f :: Executable(x))
      && Run(env, f, st') != Run(env, s, st')
  {
    var h := Fuse(s, 0, slot, cfg)[|Fuse(s, 0, slot, cfg)| - 1];
    w, st' := Misreading(h, st);
    CounterExact(s, slot, cfg, st', w, zero);
  }

  // ----- instruction weights

  function Weight(i: Insn): int {
    match i.op
    case FUSE1 | FUSE3 | FUSE4 | FUSE5 | FUSE7 => i.imm2
    case FUSE2 | FUSE6 | FUSE8 | FUSE9 | FUSE10 | FUSE11 | FUSE12 => 2
    case _ => 1
  }

  function Weights(s: seq<Insn>): int {
    if s == [] then 0 else Weight(s[0]) + Weights(s[1..])
  }

  lemma HeadWeight(s: seq<Insn>, slot: bool, cfg: Config)
    requires |s| >= 2 && !IsFused(s[0].op)
    ensures var (h, k) := FuseHead(s, slot, cfg); 1 <= k <= |s| && Weight(h) == k
  {
  }

  /** The weights of the fused list still add up to the length of the original one. */
  lemma {:induction false} FuseWeights(s: seq<Insn>, i: nat, slot: nat -> bool, cfg: Config)
    requires forall x <- s :: !IsFused(x.op)
    ensures Weights(Fuse(s, i, slot, cfg)) == |s|
    decreases |s|
  {
    if |s| > 1 {
      var (h, k) := FuseHead(s, slot(i), cfg);
      assert s[0] in s;
      HeadWeight(s, slot(i), cfg);
      FuseWeights(s[k..], i + 1, slot, cfg);
      assert ([h] + Fuse(s[k..], i + 1, slot, cfg))[1..] == Fuse(s[k..], i + 1, slot, cfg);
    } else if |s| == 1 {
      assert s[0] in s;
      assert Weights(s[1..]) == 0;
    }
  }
}
