/** What the word operations of the interpreter do, bit by bit. */
module FusionBits {
  import opened Arith
  import opened Common
  import opened Fusion

  ghost predicate Bit(w: nat, j: nat) {
    (w / Pow2(j)) % 2 == 1
  }

  lemma {:induction false} PowAdd(a: nat, b: nat)
    ensures Pow2(a + b) == Pow2(a) * Pow2(b)
  {
    if a > 0 {
      PowAdd(a - 1, b);
      assert Pow2(a) * Pow2(b) == 2 * (Pow2(a - 1) * Pow2(b));
    }
  }

  lemma WordSize()
    ensures WORD == Pow2(32) && 0x8000_0000 == Pow2(31)
  {
    assert Pow2(8) == 0x100;
    PowAdd(8, 8);
    PowAdd(16, 16);
    assert Pow2(32) == 2 * Pow2(31);
  }

  lemma Associate(a: int, b: int, c: int)
    ensures a * (b * c) == (a * b) * c
  {
  }

  lemma Grouped(a: int, b: int, c: int)
    ensures (a * b) * c == b * (a * c)
  {
    Associate(b, a, c);
    assert a * b == b * a;
  }

  lemma AddEven(a: nat, b: nat)
    ensures (2 * a + b) % 2 == b % 2
  {
  }

  lemma BelowProduct(n: nat, m: nat, r: nat, lo: nat)
    requires r < m && lo < n
    ensures n * r + lo < n * m
  {
    MulAtLeast(n, r + 1, m);
    Distribute(n, r, 1);
  }

  lemma QuotientBelow(q: nat, n: nat, r: nat, m: nat)
    requires r < n && n * q + r < n * m
    ensures q < m
  {
    if q >= m {
      MulAtLeast(n, m, q);
    }
  }

  lemma HighQuotient(hi: nat, lo: nat, n: nat, m: nat)
    requires lo < n && m > 0
    ensures n * m > 0 && (n * hi + lo) / (n * m) == hi / m
  {
    DivMod(hi, m);
    var q, r := hi / m, hi % m;
    BelowProduct(n, m, r, lo);
    Distribute(n, m * q, r);
    assert n * (m * q) == (n * m) * q by { Grouped(m, n, q); }
    DivUnique(n * hi + lo, n * m, q, n * r + lo);
  }

  lemma LowQuotient(hi: nat, lo: nat, n: nat, m: nat)
    requires n > 0
    ensures (n * (2 * m) * hi + lo) / n % 2 == lo / n % 2
  {
    DivMod(lo, n);
    var q, r := lo / n, lo % n;
    Grouped(n, 2 * m, hi);
    Distribute(n, 2 * m * hi, q);
    assert n * (2 * m) * hi == n * (2 * m * hi) by { Grouped(2 * m, n, hi); }
    DivUnique(n * (2 * m) * hi + lo, n, 2 * m * hi + q, r);
    assert 2 * m * hi == 2 * (m * hi);
    AddEven(m * hi, q);
  }

  /** The bits of two numbers written one after the other. */
  lemma Joined(hi: nat, lo: nat, n: nat, j: nat)
    requires lo < Pow2(n)
    ensures Bit(Pow2(n) * hi + lo, j) <==> if j < n then Bit(lo, j) else Bit(hi, j - n)
  {
    if j < n {
      PowAdd(j, n - j);
      LowQuotient(hi, lo, Pow2(j), Pow2(n - j - 1));
    } else {
      PowAdd(n, j - n);
      HighQuotient(hi, lo, Pow2(n), Pow2(j - n));
    }
  }

  lemma {:induction false} AllOnes(k: nat, j: nat)
    requires j < k
    ensures Bit(Pow2(k) - 1, j)
  {
    Joined(1, Pow2(k - 1) - 1, k - 1, j);
    if j < k - 1 {
      AllOnes(k - 1, j);
    }
  }

  lemma NoBit(j: nat)
    ensures !Bit(0, j)
  {
    DivUnique(0, Pow2(j), 0, 0);
  }

  lemma Shifted(hi: nat, lo: nat, n: nat, m: nat)
    ensures (n * hi + lo) * m == (n * m) * hi + m * lo
  {
    Distribute(m, n * hi, lo);
    Grouped(m, n, hi);
    assert m * n == n * m;
    assert m * (n * hi) == (m * n) * hi;
  }

  lemma LeftBits(x: nat, n: nat, k: nat, j: nat)
    requires x < Pow2(n + k) && j < n + k
    ensures Bit(x * Pow2(k) % Pow2(n + k), j) <==> j >= k && Bit(x, j - k)
  {
    var hi, lo := Divided(x, Pow2(n));
    PowAdd(n, k);
    Shifted(hi, lo, Pow2(n), Pow2(k));
    BelowProduct(Pow2(k), Pow2(n), lo, 0);
    DivUnique(x * Pow2(k), Pow2(n + k), hi, Pow2(k) * lo);
    Joined(lo, 0, k, j);
    NoBit(j);
    if j >= k {
      Joined(hi, lo, n, j - k);
    }
  }

  lemma Divided(x: nat, n: nat) returns (q: nat, r: nat)
    requires n > 0
    ensures x == n * q + r && r < n && q == x / n
  {
    q, r := x / n, x % n;
    DivMod(x, n);
  }

  lemma PastTheTop(x: nat, n: nat, j: nat)
    requires x < Pow2(n) && j >= n
    ensures !Bit(x, j)
  {
    Joined(0, x, n, j);
    NoBit(j - n);
  }

  lemma {:induction false} PowBelow(a: nat, b: nat)
    requires a < b
    ensures Pow2(a) < Pow2(b)
  {
    PowAdd(a, b - a);
    MulAtLeast(Pow2(a), 2, Pow2(b - a));
  }

  /** Ones written above a number: an arithmetic shift of a negative number. */
  lemma OnesAbove(x: nat, q: nat, r: nat, n: nat, k: nat, j: nat)
    requires n > 0 && Pow2(n + k - 1) <= x < Pow2(n + k) && j < n + k
    requires x == Pow2(k) * q + r && r < Pow2(k) && q < Pow2(n)
    ensures Bit(Pow2(n) * (Pow2(k) - 1) + q, j) <==> Bit(x, if j < n then j + k else n + k - 1)
  {
    Joined(Pow2(k) - 1, q, n, j);
    if j < n {
      Joined(q, r, k, j + k);
    } else {
      AllOnes(k, j - n);
      var lo := x - Pow2(n + k - 1);
      Joined(1, lo, n + k - 1, n + k - 1);
    }
  }

  lemma Floor(t: int, m: nat)
    requires m > 0
    ensures t == m * (t / m) + t % m && 0 <= t % m < m
  {
  }

  lemma LessOne(n: nat, m: nat, q: int)
    ensures n * (m - 1) + q - n * m == q - n
  {
    Distribute(n, m - 1, 1);
  }

  lemma FloorNegative(x: nat, m: nat, q: nat, r: nat, n: nat)
    requires r < m && x == m * q + r
    ensures (x - m * n) / m == q - n
  {
    Distribute(m, q - n, n);
    var t := x - m * n;
    Floor(t, m);
    QuotientUnique(m, t / m, t % m, q - n, r);
  }

  /** SLLI: bit `j` is bit `j - k` of the operand, and the low `k` bits are clear. */
  lemma ShiftLeft(x: Word, imm: int, j: nat)
    requires j < 32
    ensures var k := imm % 32; Bit(Shift(SLLI, x, imm), j) <==> j >= k && Bit(x, j - k)
  {
    var k := imm % 32;
    WordSize();
    LeftBits(x, 32 - k, k, j);
  }

  /** The quotient of a logical shift to the right. */
  lemma RightBits(x: nat, n: nat, k: nat, j: nat) returns (q: nat)
    requires x < Pow2(n + k)
    ensures q == x / Pow2(k) && q <= x
    ensures Bit(q, j) <==> j < n && Bit(x, j + k)
  {
    var r;
    q, r := Divided(x, Pow2(k));
    MulAtLeast(q, 1, Pow2(k));
    Joined(q, r, k, j + k);
    if j >= n {
      PastTheTop(x, n + k, j + k);
    }
  }

  /** The quotient of an arithmetic shift of a negative number, as a word of `n + k` bits. */
  lemma NegativeBits(x: nat, n: nat, k: nat, j: nat) returns (w: nat)
    requires n > 0 && Pow2(n + k - 1) <= x < Pow2(n + k) && j < n + k
    ensures w < Pow2(n + k) && (x - Pow2(n + k)) / Pow2(k) == w - Pow2(n + k)
    ensures Bit(w, j) <==> Bit(x, if j < n then j + k else n + k - 1)
  {
    var q, r := Divided(x, Pow2(k));
    PowAdd(k, n);
    QuotientBelow(q, Pow2(k), r, Pow2(n));
    FloorNegative(x, Pow2(k), q, r, Pow2(n));
    OnesAbove(x, q, r, n, k, j);
    BelowProduct(Pow2(n), Pow2(k), Pow2(k) - 1, q);
    LessOne(Pow2(n), Pow2(k), q);
    w := Pow2(n) * (Pow2(k) - 1) + q;
  }

  lemma WrapWord(w: nat, x: int)
    requires w < WORD && (x == w || x == w - WORD)
    ensures Wrap(x) == w
  {
  }

  lemma PositiveShift(x: Word, n: nat, k: nat, j: nat)
    requires n > 0 && n + k == 32 && j < 32 && x < Pow2(31)
    ensures Bit(Wrap(x / Pow2(k)), j) <==> Bit(x, if j < n then j + k else 31)
  {
    WordSize();
    var q := RightBits(x, n, k, j);
    WrapWord(q, q);
    PastTheTop(x, 31, 31);
  }

  lemma NegativeShift(x: Word, n: nat, k: nat, j: nat)
    requires n > 0 && n + k == 32 && j < 32 && Pow2(31) <= x
    ensures Bit(Wrap((x - WORD) / Pow2(k)), j) <==> Bit(x, if j < n then j + k else 31)
  {
    WordSize();
    var w := NegativeBits(x, n, k, j);
    WrapWord(w, (x - WORD) / Pow2(k));
  }

  /** SRLI: bit `j` is bit `j + k` of the operand, and none is set past its top. */
  lemma ShiftRight(x: Word, imm: int, j: nat)
    ensures var k := imm % 32; Bit(Shift(SRLI, x, imm), j) <==> j + k < 32 && Bit(x, j + k)
  {
    var k := imm % 32;
    WordSize();
    var q := RightBits(x, 32 - k, k, j);
    WrapWord(q, q);
  }

  /** SRAI: the top bit of the operand comes in from above. */
  lemma ShiftArithmetic(x: Word, imm: int, j: nat)
    requires j < 32
    ensures var k := imm % 32; Bit(Shift(SRAI, x, imm), j) <==> Bit(x, if j + k < 32 then j + k else 31)
  {
    var k := imm % 32;
    assert 0x8000_0000 == Pow2(31) by { WordSize(); }
    if x < 0x8000_0000 {
      PositiveShift(x, 32 - k, k, j);
    } else {
      NegativeShift(x, 32 - k, k, j);
    }
  }

  lemma LowBits(w: nat)
    ensures w % 4 != 0 <==> w % 2 == 1 || w / 2 % 2 == 1
  {
  }

  lemma BitZero(w: nat)
    ensures Bit(w, 0) <==> w % 2 == 1
  {
    assert Pow2(0) == 1 && w / 1 == w;
  }

  lemma BitOne(w: nat)
    ensures Bit(w, 1) <==> w / 2 % 2 == 1
  {
    assert Pow2(1) == 2;
  }

  /** An access is misaligned if one of the two low bits of its address is set. */
  lemma MisalignedBits(env: Env, addr: Word)
    ensures Misaligned(env, addr) <==> !env.allowMisalign && (Bit(addr, 0) || Bit(addr, 1))
  {
    LowBits(addr);
    BitZero(addr);
    BitOne(addr);
  }

  /** The registers `X'` are `X` with `w` in register `rd`. */
  ghost predicate OnlySet(X: Regs, X': Regs, rd: Reg, w: int) {
    forall r: nat :: r < 32 ==> X'[r] == if r == rd then w else X[r]
  }

  /** What a plain computation leaves, in numbers. */
  lemma ComputedRegisters(env: Env, i: Insn, st: State)
    requires i.op in {LUI, ADDI, ADD}
    ensures
      var r, x := Exec(env, i, st), st.X[i.rs1];
      && r.Next? && r.st.mem == st.mem && r.st.pc == (st.pc + 4) % 0x1_0000_0000 && r.st.cycle == st.cycle + 1
      && (i.op == LUI ==> OnlySet(st.X, r.st.X, i.rd, i.imm % 0x1_0000_0000))
      && (i.op == ADDI ==> OnlySet(st.X, r.st.X, i.rd, (x + i.imm) % 0x1_0000_0000))
      && (i.op == ADD ==> OnlySet(st.X, r.st.X, i.rd, (x + st.X[i.rs2]) % 0x1_0000_0000))
  {
  }

  /** What a load and a store leave; they trap exactly if the address is misaligned. */
  lemma AccessedMemory(env: Env, i: Insn, st: State)
    requires i.op in {LW, SW}
    ensures
      var r, addr := Exec(env, i, st), (st.X[i.rs1] + i.imm) % 0x1_0000_0000;
      && (r.Trap? <==> Misaligned(env, addr)) && (!r.Trap? ==> r.Next?)
      && (r.Next? ==> r.st.pc == (st.pc + 4) % 0x1_0000_0000 && r.st.cycle == st.cycle + 1)
      && (r.Next? && i.op == LW ==>
            OnlySet(st.X, r.st.X, i.rd, env.read(st.mem, addr).0) && r.st.mem == env.read(st.mem, addr).1)
      && (r.Next? && i.op == SW ==> r.st.X == st.X && r.st.mem == env.write(st.mem, addr, st.X[i.rs2]))
  {
  }

  /** A branch is taken if the registers differ; the block ends unless it falls through unchained. */
  lemma BranchTargets(env: Env, i: Insn, st: State)
    requires i.op == BNE
    ensures
      var taken, target := st.X[i.rs1] != st.X[i.rs2], (st.pc + i.imm) % 0x1_0000_0000;
      match Exec(env, i, st)
      case Trap => taken && !env.extC && (Bit(target, 0) || Bit(target, 1))
      case Leave(now, chain) =>
        now == st.(branchTaken := taken, cycle := st.cycle + 1, pc := if taken then target else now.pc)
        && (!taken ==> now.pc == (st.pc + 4) % 0x1_0000_0000 && i.untaken.Some?)
        && chain == (if taken then i.taken else i.untaken)
      case Next(now) => !taken && i.untaken.None? && now.pc == (st.pc + 4) % 0x1_0000_0000
  {
    var target := Wrap(st.pc + i.imm);
    LowBits(target);
    BitZero(target);
    BitOne(target);
  }
}
