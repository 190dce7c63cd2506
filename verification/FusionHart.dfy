/** The interpreter's side of macro-operation fusion: the handlers of src/emulate.c, updating
    the hart's registers, memory, program counter and cycle count in place, and the walk
    along a block's instruction list. */
module FusionHart {
  import opened Arith
  import opened Common
  import opened Fusion
  import opened FusionBlock

  datatype Exit = Continue | Left(chain: Option<nat>) | Trapped

  /** The opcodes a batched operation is made of. */
  function Members(op: Op): set<Op> {
    match op
    case FUSE1 => {LUI}
    case FUSE3 => {SW}
    case FUSE4 => {LW}
    case FUSE5 => SHIFTS
    case FUSE7 => {ADDI}
    case _ => {}
  }

  /** A batched operation carries `imm2` entries of its kind. */
  predicate WellBatched(i: Insn) {
    Members(i.op) != {} ==> |i.fuse| == i.imm2 && forall e <- i.fuse :: e.op in Members(i.op)
  }

  lemma RunWellBatched(s: seq<Insn>, count: nat, op: Op, slot: bool, cfg: Config)
    requires 1 <= count <= |s| && WellBatched(s[0])
    requires forall k :: 0 <= k < count ==> s[k].op in Members(op)
    ensures WellBatched(FuseRun(s, count, op, slot, cfg).0)
  {
  }

  lemma HeadWellBatched(s: seq<Insn>, slot: bool, cfg: Config)
    requires |s| >= 2 && forall x <- s :: !IsFused(x.op)
    ensures var (h, k) := FuseHead(s, slot, cfg); WellBatched(h) && 1 <= k <= |s|
  {
    assert s[0] in s;
    if Pair(s[0], s[1], cfg).None? && Batch(s[0].op).Some? {
      var (ops, op) := Batch(s[0].op).value;
      RunWellBatched(s, RunLengthAt(s, ops), op, slot, cfg);
    }
  }

  /** The rewriting pass only makes batches the handlers can run. */
  lemma {:induction false} FuseWellBatched(s: seq<Insn>, i: nat, slot: nat -> bool, cfg: Config)
    requires forall x <- s :: !IsFused(x.op)
    ensures forall x <- Fuse(s, i, slot, cfg) :: WellBatched(x)
    decreases |s|
  {
    if |s| > 1 {
      HeadWellBatched(s, slot(i), cfg);
      FuseWellBatched(s[FuseHead(s, slot(i), cfg).1..], i + 1, slot, cfg);
    }
  }

  lemma FusedRuns(env: Env, s: seq<Insn>, slot: nat -> bool, cfg: Config, st: State, zero: Insn -> OnZero)
    requires Runnable(env, s, st) && KeepsZero(env, s, zero) && st.X[0] == 0
    requires ZeroSafe(Fuse(s, 0, slot, cfg), false, ZERO_READERS, zero)
    ensures forall x <- Fuse(s, 0, slot, cfg) :: WellBatched(x) && Executable(x)
    ensures Run(env, Fuse(s, 0, slot, cfg), st) == Run(env, s, st)
  {
    FusePreserves(env, s, 0, slot, cfg, st, zero);
    FuseWellBatched(s, 0, slot, cfg);
  }

  lemma EffectsStep(env: Env, es: seq<Entry>, k: nat, st: State)
    requires k < |es|
    ensures Effects(env, es[k..], st) ==
      match Effect(env, es[k], st) case None => None case Some(st') => Effects(env, es[k + 1..], st')
  {
    assert es[k..][1..] == es[k + 1..];
  }

  /** `now` is what the first `i` entries make of `st`. */
  ghost predicate DoneTo(env: Env, es: seq<Entry>, i: nat, st: State, now: State) {
    i <= |es| && Effects(env, es[..i], st) == Some(now)
  }

  /** The entries were carried out up to one that is misaligned. */
  ghost predicate StoppedIn(env: Env, es: seq<Entry>, st: State, now: State) {
    exists i :: 0 <= i < |es| && DoneTo(env, es, i, st, now) && Effect(env, es[i], now).None?
  }

  lemma DoneNext(env: Env, es: seq<Entry>, i: nat, st: State, now: State)
    requires i < |es| && DoneTo(env, es, i, st, now)
    ensures Effect(env, es[i], now).Some? ==> DoneTo(env, es, i + 1, st, Effect(env, es[i], now).value)
  {
    EffectsSnoc(env, es[..i], es[i], st);
    assert es[..i + 1] == es[..i] + [es[i]];
  }

  lemma {:induction false} EffectsSnoc(env: Env, es: seq<Entry>, e: Entry, st: State)
    ensures Effects(env, es + [e], st) ==
      match Effects(env, es, st) case None => None case Some(mid) => Effect(env, e, mid)
    decreases |es|
  {
    if es == [] {
      assert [e][1..] == [];
      assert es + [e] == [e];
    } else {
      assert (es + [e])[0] == es[0] && (es + [e])[1..] == es[1..] + [e];
      if Effect(env, es[0], st).Some? {
        EffectsSnoc(env, es[1..], e, Effect(env, es[0], st).value);
      }
    }
  }

  method ShiftValue(op: Op, x: Word, imm: int) returns (w: Word)
    requires op in SHIFTS
    ensures w == Shift(op, x, imm)
  {
    var k := Pow2(imm % 32);
    if op == SLLI {
      w := Wrap(x * k);
    } else if op == SRLI {
      w := Wrap(x / k);
    } else {
      w := Wrap(Signed(x) / k);
    }
  }

  class Hart {
    const X: array<Word>
    var mem: Mem
    var pc: Word
    var cycle: nat
    var branchTaken: bool
    const env: Env

    ghost predicate Valid() {
      X.Length == 32
    }

    ghost function Now(): State
      requires Valid()
      reads this, X
    {
      State(X[..], mem, pc, cycle, branchTaken)
    }

    constructor (env: Env, mem: Mem)
      ensures Valid() && fresh(X) && this.env == env && Now() == State(seq(32, _ => 0), mem, 0, 0, false)
    {
      X := new Word[32](_ => 0);
      this.env, this.mem, pc, cycle, branchTaken := env, mem, 0, 0, false;
    }

    /** The hart is where `o` leaves it; a trap's state is not modelled. */
    ghost predicate Did(exit: Exit, o: Outcome)
      requires Valid()
      reads this, X
    {
      match o
      case Next(st) => exit == Continue && Now() == st
      case Leave(st, chain) => exit == Left(chain) && Now() == st
      case Trap => exit == Trapped
    }

    /** Takes over the state a call outside the model returns. */
    method Become(st: State)
      requires Valid()
      modifies this, X
      ensures Now() == st
    {
      forall k | 0 <= k < 32 {
        X[k] := st.X[k];
      }
      mem, pc, cycle, branchTaken := st.mem, st.pc, st.cycle, st.branchTaken;
      assert X[..] == st.X;
    }

    /** The common end of a handler. */
    method Finish(n: nat)
      requires Valid()
      modifies this
      ensures Now() == Advance(old(Now()), n)
    {
      cycle := cycle + n;
      pc := Wrap(pc + 4 * n);
    }

    method Load(rd: Reg, addr: Word) returns (ok: bool)
      requires Valid()
      modifies this, X
      ensures ok == !Misaligned(env, addr)
      ensures ok ==> var r := env.read(old(mem), addr); Now() == Set(old(Now()), rd, r.0).(mem := r.1)
      ensures !ok ==> Now() == old(Now())
    {
      if Misaligned(env, addr) {
        return false;
      }
      var r := env.read(mem, addr);
      X[rd] := r.0;
      mem := r.1;
      ok := true;
      assert X[..] == old(X[..])[rd := r.0];
    }

    method Store(addr: Word, value: Word) returns (ok: bool)
      requires Valid()
      modifies this
      ensures ok == !Misaligned(env, addr)
      ensures ok ==> Now() == old(Now()).(mem := env.write(old(mem), addr, value))
      ensures !ok ==> Now() == old(Now())
    {
      ok := !Misaligned(env, addr);
      if ok {
        mem := env.write(mem, addr, value);
      }
    }

    method Put(rd: Reg, w: Word)
      requires Valid()
      modifies X
      ensures Now() == Set(old(Now()), rd, w)
    {
      X[rd] := w;
    }

    method ShiftExec(f: Entry)
      requires Valid() && f.op in SHIFTS
      modifies X
      ensures Now() == Effect(env, f, old(Now())).value
    {
      var w := ShiftValue(f.op, X[f.rs1], f.imm);
      Put(f.rd, w);
    }

    /** multiple LUI */
    method DoFuse1(ir: Insn) returns (exit: Exit)
      requires Valid() && ir.op == FUSE1 && WellBatched(ir)
      modifies this, X
      ensures Did(exit, ExecFused(env, ir, old(Now())))
    {
      var i := 0;
      while i < ir.imm2
        invariant 0 <= i <= ir.imm2
        invariant Effects(env, ir.fuse[i..], Now()) == Effects(env, ir.fuse, old(Now()))
      {
        EffectsStep(env, ir.fuse, i, Now());
        Put(ir.fuse[i].rd, Wrap(ir.fuse[i].imm));
        i := i + 1;
      }
      Finish(ir.imm2);
      exit := Continue;
    }

    /** multiple SW */
    method DoFuse3(ir: Insn) returns (exit: Exit)
      requires Valid() && ir.op == FUSE3 && WellBatched(ir)
      modifies this, X
      ensures Did(exit, ExecFused(env, ir, old(Now())))
      ensures exit.Trapped? ==> StoppedIn(env, ir.fuse, old(Now()), Now())
    {
      var i := 0;
      while i < ir.imm2
        invariant 0 <= i <= ir.imm2
        invariant Effects(env, ir.fuse[i..], Now()) == Effects(env, ir.fuse, old(Now()))
        invariant DoneTo(env, ir.fuse, i, old(Now()), Now())
      {
        EffectsStep(env, ir.fuse, i, Now());
        DoneNext(env, ir.fuse, i, old(Now()), Now());
        var ok := Store(Add(X[ir.fuse[i].rs1], ir.fuse[i].imm), X[ir.fuse[i].rs2]);
        if !ok {
          assert Effect(env, ir.fuse[i], Now()).None?;
          return Trapped;
        }
        i := i + 1;
      }
      Finish(ir.imm2);
      exit := Continue;
    }

    /** multiple LW */
    method DoFuse4(ir: Insn) returns (exit: Exit)
      requires Valid() && ir.op == FUSE4 && WellBatched(ir)
      modifies this, X
      ensures Did(exit, ExecFused(env, ir, old(Now())))
      ensures exit.Trapped? ==> StoppedIn(env, ir.fuse, old(Now()), Now())
    {
      var i := 0;
      while i < ir.imm2
        invariant 0 <= i <= ir.imm2
        invariant Effects(env, ir.fuse[i..], Now()) == Effects(env, ir.fuse, old(Now()))
        invariant DoneTo(env, ir.fuse, i, old(Now()), Now())
      {
        EffectsStep(env, ir.fuse, i, Now());
        DoneNext(env, ir.fuse, i, old(Now()), Now());
        var ok := Load(ir.fuse[i].rd, Add(X[ir.fuse[i].rs1], ir.fuse[i].imm));
        if !ok {
          assert Effect(env, ir.fuse[i], Now()).None?;
          return Trapped;
        }
        i := i + 1;
      }
      Finish(ir.imm2);
      exit := Continue;
    }

    /** multiple shift immediate */
    method DoFuse5(ir: Insn) returns (exit: Exit)
      requires Valid() && ir.op == FUSE5 && WellBatched(ir)
      modifies this, X
      ensures Did(exit, ExecFused(env, ir, old(Now())))
    {
      var i := 0;
      while i < ir.imm2
        invariant 0 <= i <= ir.imm2
        invariant Effects(env, ir.fuse[i..], Now()) == Effects(env, ir.fuse, old(Now()))
      {
        EffectsStep(env, ir.fuse, i, Now());
        ShiftExec(ir.fuse[i]);
        i := i + 1;
      }
      Finish(ir.imm2);
      exit := Continue;
    }

    /** multiple ADDI */
    method DoFuse7(ir: Insn) returns (exit: Exit)
      requires Valid() && ir.op == FUSE7 && WellBatched(ir)
      modifies this, X
      ensures Did(exit, ExecFused(env, ir, old(Now())))
    {
      var i := 0;
      while i < ir.imm2
        invariant 0 <= i <= ir.imm2
        invariant Effects(env, ir.fuse[i..], Now()) == Effects(env, ir.fuse, old(Now()))
      {
        EffectsStep(env, ir.fuse, i, Now());
        Put(ir.fuse[i].rd, Add(X[ir.fuse[i].rs1], ir.fuse[i].imm));
        i := i + 1;
      }
      Finish(ir.imm2);
      exit := Continue;
    }

    /** LUI + ADD */
    method DoFuse2(ir: Insn) returns (exit: Exit)
      requires Valid() && ir.op == FUSE2
      modifies this, X
      ensures Did(exit, ExecFused(env, ir, old(Now())))
    {
      Put(ir.rd, Wrap(ir.imm));
      Put(ir.rs2, Add(X[ir.rd], X[ir.rs1]));
      Finish(2);
      exit := Continue;
    }

    /** LUI + ADDI */
    method DoFuse8(ir: Insn) returns (exit: Exit)
      requires Valid() && ir.op == FUSE8
      modifies this, X
      ensures Did(exit, ExecFused(env, ir, old(Now())))
    {
      Put(ir.rd, Wrap(ir.imm + ir.imm2));
      Finish(2);
      exit := Continue;
    }

    /** LUI + LW */
    method DoFuse9(ir: Insn) returns (exit: Exit)
      requires Valid() && ir.op == FUSE9
      modifies this, X
      ensures Did(exit, ExecFused(env, ir, old(Now())))
    {
      Put(ir.rd, Wrap(ir.imm));
      var ok := Load(ir.rs2, Wrap(ir.imm + ir.imm2));
      if !ok {
        return Trapped;
      }
      Finish(2);
      exit := Continue;
    }

    /** LUI + SW */
    method DoFuse10(ir: Insn) returns (exit: Exit)
      requires Valid() && ir.op == FUSE10
      modifies this, X
      ensures Did(exit, ExecFused(env, ir, old(Now())))
    {
      Put(ir.rd, Wrap(ir.imm));
      var ok := Store(Wrap(ir.imm + ir.imm2), X[ir.rs1]);
      if !ok {
        return Trapped;
      }
      Finish(2);
      exit := Continue;
    }

    /** LW + ADDI */
    method DoFuse11(ir: Insn) returns (exit: Exit)
      requires Valid() && ir.op == FUSE11
      modifies this, X
      ensures Did(exit, ExecFused(env, ir, old(Now())))
    {
      var ok := Load(ir.rd, Add(X[ir.rs1], ir.imm));
      if !ok {
        return Trapped;
      }
      Put(ir.rs1, Add(X[ir.rs1], ir.imm2));
      Finish(2);
      exit := Continue;
    }

    /** LI a7 + ECALL */
    method DoFuse6(ir: Insn) returns (exit: Exit)
      requires Valid() && ir.op == FUSE6
      modifies this, X
      ensures Did(exit, ExecFused(env, ir, old(Now())))
    {
      Put(A7, Wrap(ir.imm));
      cycle, pc := cycle + 2, Wrap(pc + 4);
      Become(env.ecall(State(X[..], mem, pc, cycle, branchTaken)));
      exit := Left(None);
    }

    /** ADDI + BNE */
    method DoFuse12(ir: Insn) returns (exit: Exit)
      requires Valid() && ir.op == FUSE12
      modifies this, X
      ensures Did(exit, ExecFused(env, ir, old(Now())))
    {
      cycle := cycle + 2;
      Put(ir.rd, Add(X[ir.rs1], ir.imm));
      if X[ir.rd] != 0 {
        branchTaken, pc := true, Wrap(pc + 4 + ir.imm2);
        exit := Left(ir.taken);
      } else {
        branchTaken, pc := false, Wrap(pc + 8);
        exit := Left(ir.untaken);
      }
    }

    method DoNop(ir: Insn) returns (exit: Exit)
      requires Valid() && ir.op == NOP
      modifies this, X
      ensures Did(exit, Exec(env, ir, old(Now())))
    {
      Put(0, 0);
      Finish(1);
      exit := Continue;
    }

    /** The handlers of the plain instructions that the pass looks at. */
    method DoSimple(ir: Insn) returns (exit: Exit)
      requires Valid() && ir.op in SIMPLE
      modifies this, X
      ensures Did(exit, Exec(env, ir, old(Now())))
    {
      var ok := true;
      match ir.op {
        case LUI => Put(ir.rd, Wrap(ir.imm));
        case ADDI => Put(ir.rd, Add(X[ir.rs1], ir.imm));
        case ADD => Put(ir.rd, Add(X[ir.rs1], X[ir.rs2]));
        case LW => ok := Load(ir.rd, Add(X[ir.rs1], ir.imm));
        case SW => ok := Store(Add(X[ir.rs1], ir.imm), X[ir.rs2]);
        case SLLI | SRLI | SRAI => ShiftExec(EntryOf(ir));
      }
      if !ok {
        return Trapped;
      }
      Finish(1);
      exit := Continue;
    }

    method DoBne(ir: Insn) returns (exit: Exit)
      requires Valid() && ir.op == BNE
      modifies this
      ensures Did(exit, Exec(env, ir, old(Now())))
    {
      if X[ir.rs1] != X[ir.rs2] {
        branchTaken, pc, cycle := true, Wrap(pc + ir.imm), cycle + 1;
        if !env.extC && pc % 4 != 0 {
          return Trapped;
        }
        exit := Left(ir.taken);
      } else {
        branchTaken := false;
        Finish(1);
        exit := if ir.untaken.Some? then Left(ir.untaken) else Continue;
      }
    }

    /** Instructions whose effect comes from outside the model. */
    method DoOther(ir: Insn) returns (exit: Exit)
      requires Valid() && (ir.op == ECALL || ir.op.OTHER?)
      modifies this, X
      ensures Did(exit, Exec(env, ir, old(Now())))
    {
      if ir.op == ECALL {
        cycle := cycle + 1;
        Become(env.ecall(State(X[..], mem, pc, cycle, branchTaken)));
        return Left(None);
      }
      match env.other(ir, State(X[..], mem, pc, cycle, branchTaken)) {
        case Next(st) =>
          Become(st);
          exit := Continue;
        case Leave(st, chain) =>
          Become(st);
          exit := Left(chain);
        case Trap =>
          exit := Trapped;
      }
    }

    /** Dispatch on the opcode. */
    method Step(ir: Insn) returns (exit: Exit)
      requires Valid() && WellBatched(ir) && Executable(ir)
      modifies this, X
      ensures Did(exit, Exec(env, ir, old(Now())))
    {
      match ir.op {
        case FUSE1 => exit := DoFuse1(ir);
        case FUSE2 => exit := DoFuse2(ir);
        case FUSE3 => exit := DoFuse3(ir);
        case FUSE4 => exit := DoFuse4(ir);
        case FUSE5 => exit := DoFuse5(ir);
        case FUSE6 => exit := DoFuse6(ir);
        case FUSE7 => exit := DoFuse7(ir);
        case FUSE8 => exit := DoFuse8(ir);
        case FUSE9 => exit := DoFuse9(ir);
        case FUSE10 => exit := DoFuse10(ir);
        case FUSE11 => exit := DoFuse11(ir);
        case FUSE12 => exit := DoFuse12(ir);
        case NOP => exit := DoNop(ir);
        case BNE => exit := DoBne(ir);
        case ECALL | OTHER(_) => exit := DoOther(ir);
        case _ => exit := DoSimple(ir);
      }
    }

    /** Runs the instructions of a block along its links. */
    method RunBlock(block: Block) returns (exit: Exit)
      requires Valid() && block.Valid()
      requires forall x <- block.insns :: WellBatched(x) && Executable(x)
      modifies this, X
      ensures Did(exit, Run(env, block.insns, old(Now())))
    {
      ghost var nodes, s := block.nodes, block.insns;
      var ir: IrNode? := block.irHead;
      ghost var k := 0;
      assert s[0..] == s;
      while ir != null
        invariant k <= |nodes| && ir == NodeAt(nodes, k) && Linked(nodes) && Values(nodes, s)
        invariant Run(env, s[k..], Now()) == Run(env, s, old(Now()))
        decreases |nodes| - k
      {
        var insn := ir.insn;
        ir := ir.next;
        assert s[k..][1..] == s[k + 1..];
        exit := Step(insn);
        if !exit.Continue? {
          return;
        }
        k := k + 1;
      }
      exit := Left(None);
    }

    /** Rewriting a block and then running it leaves the hart where running the block as it
        was decoded would have left it. */
    method FuseAndRun(block: Block, slot: nat -> bool, cfg: Config, ghost zero: Insn -> OnZero) returns (exit: Exit)
      requires Valid() && block.Valid() && cfg.maxEntries <= 256
      requires Runnable(env, block.insns, Now()) && KeepsZero(env, block.insns, zero) && X[0] == 0
      requires ZeroSafe(Fuse(block.insns, 0, slot, cfg), false, ZERO_READERS, zero)
      modifies this, X, block, block.nodes
      ensures Did(exit, Run(env, old(block.insns), old(Now())))
    {
      FusedRuns(env, block.insns, slot, cfg, Now(), zero);
      exit := FuseThenRun(block, slot, cfg, Fuse(block.insns, 0, slot, cfg));
    }

    method FuseThenRun(block: Block, slot: nat -> bool, cfg: Config, ghost fused: seq<Insn>) returns (exit: Exit)
      requires Valid() && block.Valid() && cfg.maxEntries <= 256
      requires fused == Fuse(block.insns, 0, slot, cfg) && forall x <- fused :: WellBatched(x) && Executable(x)
      modifies this, X, block, block.nodes
      ensures Did(exit, Run(env, fused, old(Now())))
    {
      ghost var st := Now();
      assert forall n <- block.nodes :: n as object != this && n as object != X;
      block.MatchPattern(slot, cfg);
      assert Now() == st;
      exit := RunBlock(block);
    }
  }
}
