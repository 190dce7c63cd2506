/** The byte-wise AES engine of src/esp32c3.c: the state is an array of sixteen bytes, changed
    in place, and the key schedule an array of bytes. */
module AesC3 {
  import opened Aes

  ghost function ColAt(s: array<Byte>, o: nat): Col
    requires o + 4 <= s.Length
    reads s
  {
    Col(s[o], s[o + 1], s[o + 2], s[o + 3])
  }

  ghost function At(s: array<Byte>, o: nat): Block
    requires o + 16 <= s.Length
    reads s
  {
    Block(ColAt(s, o), ColAt(s, o + 4), ColAt(s, o + 8), ColAt(s, o + 12))
  }

  // ----- field multiplication

  lemma ProductStep(p: Byte, a: Byte, b: Byte, n: nat)
    requires n > 0
    ensures Xor(p, Product(a, b, n)) == Xor(if Odd(b) then Xor(p, a) else p, Product(XTime(a), Half(b), n - 1))
  {
  }

  method Doubled(x: Byte) returns (r: Byte)
    ensures r == XTime(x)
  {
    XTimeBranches(x);
    var hi := x.v & 0x80;
    r := Byte(x.v << 1);
    if hi != 0 {
      r := Byte(r.v ^ 0x1b);
    }
  }

  lemma XorZero(p: Byte)
    ensures Xor(p, O) == p && Xor(O, p) == p
  {
  }

  method Gmul(a: Byte, b: Byte) returns (p: Byte)
    ensures p == Product(a, b, 8)
  {
    p := O;
    XorZero(Product(a, b, 8));
    var x, y := a, b;
    for i := 0 to 8
      invariant Xor(p, Product(x, y, 8 - i)) == Product(a, b, 8)
    {
      p, x, y := GmulStep(p, x, y, 8 - i);
    }
    XorZero(p);
  }

  /** One bit of the multiplier. */
  method GmulStep(p: Byte, x: Byte, y: Byte, ghost n: nat) returns (p': Byte, x': Byte, y': Byte)
    requires n > 0
    ensures Xor(p', Product(x', y', n - 1)) == Xor(p, Product(x, y, n))
  {
    p' := p;
    ProductStep(p, x, y, n);
    if Odd(y) {
      p' := Xor(p, x);
    }
    x' := Doubled(x);
    y' := Half(y);
  }

  lemma {:induction false} ProductOfZero(a: Byte, n: nat)
    ensures Product(a, O, n) == O
    decreases n
  {
    if n > 0 {
      ProductOfZero(XTime(a), n - 1);
    }
  }

  lemma ProductBit(a: Byte, b: Byte, n: nat)
    requires n > 0
    ensures Odd(b) ==> Product(a, b, n) == Xor(a, Product(XTime(a), Half(b), n - 1))
    ensures !Odd(b) ==> Product(a, b, n) == Product(XTime(a), Half(b), n - 1)
  {
    XorZero(Product(XTime(a), Half(b), n - 1));
  }

  lemma ProductsTo3(a: Byte, n: nat)
    requires n >= 2
    ensures Product(a, Byte(1), n) == a && Product(a, Byte(2), n) == XTime(a) && Product(a, Byte(3), n) == Triple(a)
  {
    ProductOfZero(XTime(a), n - 1);
    ProductOfZero(XTime(XTime(a)), n - 2);
    assert Half(Byte(1)) == O && Half(Byte(2)) == Half(Byte(3)) == Byte(1);
  }

  lemma ProductsTo7(a: Byte, n: nat)
    requires n >= 3
    ensures Product(a, Byte(4), n) == XTime(XTime(a)) && Product(a, Byte(5), n) == Xor(a, XTime(XTime(a)))
    ensures Product(a, Byte(6), n) == Triple(XTime(a)) && Product(a, Byte(7), n) == Xor(a, Triple(XTime(a)))
  {
    ProductsTo3(XTime(a), n - 1);
    assert Half(Byte(4)) == Half(Byte(5)) == Byte(2) && Half(Byte(6)) == Half(Byte(7)) == Byte(3);
  }

  lemma XorTurn(p: Byte, q: Byte, r: Byte)
    ensures Xor(p, Xor(q, r)) == Xor(Xor(r, q), p) && Xor(p, r) == Xor(r, p)
  {
  }

  lemma Products9To14(a: Byte)
    ensures Product(a, Byte(9), 8) == Xor(a, Product(XTime(a), Byte(4), 7))
    ensures Product(a, Byte(11), 8) == Xor(a, Product(XTime(a), Byte(5), 7))
    ensures Product(a, Byte(13), 8) == Xor(a, Product(XTime(a), Byte(6), 7))
    ensures Product(a, Byte(14), 8) == Product(XTime(a), Byte(7), 7)
  {
    ProductBit(a, Byte(9), 8);
    ProductBit(a, Byte(11), 8);
    ProductBit(a, Byte(13), 8);
    ProductBit(a, Byte(14), 8);
    assert Half(Byte(9)) == Byte(4) && Half(Byte(11)) == Byte(5) && Half(Byte(13)) == Byte(6)
      && Half(Byte(14)) == Byte(7);
  }

  /** The multiplier constants of MixColumns and its inverse. */
  lemma Products(a: Byte)
    ensures Product(a, Byte(2), 8) == XTime(a) && Product(a, Byte(3), 8) == Triple(a)
    ensures Product(a, Byte(9), 8) == Mul9(a) && Product(a, Byte(11), 8) == Mul11(a)
    ensures Product(a, Byte(13), 8) == Mul13(a) && Product(a, Byte(14), 8) == Mul14(a)
  {
    var a1, a2, a3 := XTime(a), XTime(XTime(a)), XTime(XTime(XTime(a)));
    ProductsTo3(a, 8);
    ProductsTo7(a1, 7);
    Products9To14(a);
    XorTurn(a, a1, a3);
    XorTurn(a, a2, a3);
    XorTurn(a1, a2, a3);
  }

  // ----- the steps of a round, in place

  /** `f` of four products. */
  method Row(p: Byte, m0: Byte, q: Byte, m1: Byte, r: Byte, m2: Byte, s: Byte, m3: Byte) returns (x: Byte)
    ensures x == Sum(Product(p, m0, 8), Product(q, m1, 8), Product(r, m2, 8), Product(s, m3, 8))
  {
    var t0 := Gmul(p, m0);
    var t1 := Gmul(q, m1);
    var t2 := Gmul(r, m2);
    var t3 := Gmul(s, m3);
    x := Xor(Xor(Xor(t0, t1), t2), t3);
  }

  /** Two products and two bytes taken as they are. */
  method Pair(p: Byte, q: Byte) returns (x: Byte, y: Byte)
    ensures x == XTime(p) && y == Triple(q)
  {
    Products(p);
    Products(q);
    x := Gmul(p, Byte(2));
    y := Gmul(q, Byte(3));
  }

  method MixColumn(s0: Byte, s1: Byte, s2: Byte, s3: Byte) returns (x0: Byte, x1: Byte, x2: Byte, x3: Byte)
    ensures Col(x0, x1, x2, x3) == MixCol(Col(s0, s1, s2, s3))
  {
    var p, q := Pair(s0, s1);
    x0 := Xor(Xor(Xor(p, q), s2), s3);
    p, q := Pair(s1, s2);
    x1 := Xor(Xor(Xor(s0, p), q), s3);
    p, q := Pair(s2, s3);
    x2 := Xor(Xor(Xor(s0, s1), p), q);
    p, q := Pair(s3, s0);
    x3 := Xor(Xor(Xor(q, s1), s2), p);
  }

  method InvMixColumn(s0: Byte, s1: Byte, s2: Byte, s3: Byte) returns (x0: Byte, x1: Byte, x2: Byte, x3: Byte)
    ensures Col(x0, x1, x2, x3) == InvMixCol(Col(s0, s1, s2, s3))
  {
    Products(s0);
    Products(s1);
    Products(s2);
    Products(s3);
    x0 := Row(s0, Byte(14), s1, Byte(11), s2, Byte(13), s3, Byte(9));
    x1 := Row(s0, Byte(9), s1, Byte(14), s2, Byte(11), s3, Byte(13));
    x2 := Row(s0, Byte(13), s1, Byte(9), s2, Byte(14), s3, Byte(11));
    x3 := Row(s0, Byte(11), s1, Byte(13), s2, Byte(9), s3, Byte(14));
  }

  ghost function Mixed(s: Col, inv: bool): Col {
    if inv then InvMixCol(s) else MixCol(s)
  }

  method MixOne(s0: Byte, s1: Byte, s2: Byte, s3: Byte, inv: bool) returns (x0: Byte, x1: Byte, x2: Byte, x3: Byte)
    ensures Col(x0, x1, x2, x3) == Mixed(Col(s0, s1, s2, s3), inv)
  {
    if !inv {
      x0, x1, x2, x3 := MixColumn(s0, s1, s2, s3);
    } else {
      x0, x1, x2, x3 := InvMixColumn(s0, s1, s2, s3);
    }
  }

  method MixColumns(s: array<Byte>, inv: bool)
    requires s.Length == 16
    modifies s
    ensures At(s, 0) == if inv then InvMix(old(At(s, 0))) else Mix(old(At(s, 0)))
  {
    for c := 0 to 4
      invariant forall k :: 0 <= k < c ==> ColAt(s, 4 * k) == Mixed(old(ColAt(s, 4 * k)), inv)
      invariant forall k :: c <= k < 4 ==> ColAt(s, 4 * k) == old(ColAt(s, 4 * k))
    {
      var x0, x1, x2, x3 := MixOne(s[4 * c], s[1 + 4 * c], s[2 + 4 * c], s[3 + 4 * c], inv);
      SetCol(s, c, x0, x1, x2, x3);
    }
    assert forall k :: 0 <= k < 4 ==> ColAt(s, 4 * k) == Mixed(old(ColAt(s, 4 * k)), inv);
    assert ColAt(s, 4 * 0) == Mixed(old(ColAt(s, 0)), inv);
    assert ColAt(s, 4 * 1) == Mixed(old(ColAt(s, 4)), inv);
    assert ColAt(s, 4 * 2) == Mixed(old(ColAt(s, 8)), inv);
    assert ColAt(s, 4 * 3) == Mixed(old(ColAt(s, 12)), inv);
  }

  method SetCol(s: array<Byte>, c: nat, x0: Byte, x1: Byte, x2: Byte, x3: Byte)
    requires 4 * c + 4 <= s.Length
    modifies s
    ensures ColAt(s, 4 * c) == Col(x0, x1, x2, x3)
    ensures forall k :: 0 <= k < s.Length && !(4 * c <= k < 4 * c + 4) ==> s[k] == old(s[k])
  {
    s[4 * c] := x0;
    s[1 + 4 * c] := x1;
    s[2 + 4 * c] := x2;
    s[3 + 4 * c] := x3;
  }

  /** Adds the sixteen key bytes from offset `o`. */
  method AddKey(s: array<Byte>, w: array<Byte>, o: nat)
    requires s.Length == 16 && o + 16 <= w.Length && s != w
    modifies s
    ensures At(s, 0) == XorBlock(old(At(s, 0)), At(w, o))
  {
    for i := 0 to 16
      invariant forall k :: 0 <= k < i ==> s[k] == Xor(old(s[k]), w[o + k])
      invariant forall k :: i <= k < 16 ==> s[k] == old(s[k])
    {
      s[i] := Xor(s[i], w[o + i]);
    }
  }

  method SubBytes(s: array<Byte>)
    requires s.Length == 16
    modifies s
    ensures At(s, 0) == Sub(old(At(s, 0)))
  {
    for i := 0 to 16
      invariant forall k :: 0 <= k < i ==> s[k] == Sbox(old(s[k]))
      invariant forall k :: i <= k < 16 ==> s[k] == old(s[k])
    {
      SboxLookup(s[i]);
      s[i] := SboxByte(s[i]);
    }
  }

  method InvSubBytes(s: array<Byte>)
    requires s.Length == 16
    modifies s
    ensures At(s, 0) == InvSub(old(At(s, 0)))
  {
    for i := 0 to 16
      invariant forall k :: 0 <= k < i ==> s[k] == InvSbox(old(s[k]))
      invariant forall k :: i <= k < 16 ==> s[k] == old(s[k])
    {
      SboxLookup(s[i]);
      s[i] := InvSboxByte(s[i]);
    }
  }

  method ShiftRows(s: array<Byte>)
    requires s.Length == 16
    modifies s
    ensures At(s, 0) == Shift(old(At(s, 0)))
  {
    var t := s[1];
    s[1] := s[5];
    s[5] := s[9];
    s[9] := s[13];
    s[13] := t;
    t := s[2];
    s[2] := s[10];
    s[10] := t;
    t := s[6];
    s[6] := s[14];
    s[14] := t;
    t := s[3];
    s[3] := s[15];
    s[15] := s[11];
    s[11] := s[7];
    s[7] := t;
  }

  method InvShiftRows(s: array<Byte>)
    requires s.Length == 16
    modifies s
    ensures At(s, 0) == InvShift(old(At(s, 0)))
  {
    var t := s[3];
    s[3] := s[7];
    s[7] := s[11];
    s[11] := s[15];
    s[15] := t;
    t := s[2];
    s[2] := s[10];
    s[10] := t;
    t := s[6];
    s[6] := s[14];
    s[14] := t;
    t := s[1];
    s[1] := s[13];
    s[13] := s[9];
    s[9] := s[5];
    s[5] := t;
  }

  // ----- key expansion, with a round constant that is doubled each time it is used

  ghost predicate Expanded(w: array<Byte>, key: seq<Byte>, nk: nat, n: nat)
    requires KeyWords(nk) && |key| >= 4 * nk && 4 * n <= w.Length
    reads w
  {
    forall j :: 0 <= j < n ==> ColAt(w, 4 * j) == KeyWord(key, nk, j)
  }

  lemma Multiples(nk: nat, i: nat)
    requires KeyWords(nk) && i >= nk
    ensures i % nk == 0 ==> i / nk == (i - 1) / nk + 1
    ensures i % nk != 0 ==> i / nk == (i - 1) / nk
    ensures i == nk ==> (i - 1) / nk == 0
  {
  }

  method KeyExp(key: array<Byte>, nk: nat, w: array<Byte>)
    requires KeyWords(nk) && key.Length >= 4 * nk && w.Length == 240 && key != w
    modifies w
    ensures Expanded(w, key[..], nk, 4 * (nk + 7))
  {
    ghost var k := key[..];
    CopyKey(key, nk, w);
    var rcon := Byte(1);
    Multiples(nk, nk);
    var i := nk;
    while i < 4 * (nk + 7)
      invariant nk <= i <= 4 * (nk + 7)
      invariant Expanded(w, k, nk, i)
      invariant rcon == Rcon((i - 1) / nk + 1)
    {
      rcon := KeyTurn(w, k, nk, i, rcon);
      i := i + 1;
    }
  }

  /** Word `i` of the schedule; returns the next round constant. */
  method KeyTurn(w: array<Byte>, ghost k: seq<Byte>, nk: nat, i: nat, rcon: Byte) returns (next: Byte)
    requires KeyWords(nk) && |k| >= 4 * nk && nk <= i && 4 * i + 4 <= w.Length
    requires Expanded(w, k, nk, i) && rcon == Rcon((i - 1) / nk + 1)
    modifies w
    ensures Expanded(w, k, nk, i + 1) && next == Rcon(i / nk + 1)
  {
    Multiples(nk, i);
    assert ColAt(w, 4 * (i - 1)) == KeyWord(k, nk, i - 1) && ColAt(w, 4 * (i - nk)) == KeyWord(k, nk, i - nk);
    var t := Term(Col(w[4 * (i - 1)], w[4 * (i - 1) + 1], w[4 * (i - 1) + 2], w[4 * (i - 1) + 3]), nk, i, rcon);
    next := rcon;
    if i % nk == 0 {
      next := Doubled(rcon);
    }
    ExtendKey(w, k, nk, i, t);
  }

  /** The value added to the word `nk` places back. */
  method Term(prev: Col, nk: nat, i: nat, rcon: Byte) returns (t: Col)
    requires KeyWords(nk) && i >= nk && (i % nk == 0 ==> rcon == Rcon(i / nk))
    ensures t == KeyTerm(prev, nk, i)
  {
    t := prev;
    if i % nk == 0 {
      t := Col(t.b, t.c, t.d, t.a);
      t := SubWord(t);
      t := t.(a := Xor(t.a, rcon));
      XorZero(t.b);
      XorZero(t.c);
      XorZero(t.d);
    } else if nk > 6 && i % nk == 4 {
      t := SubWord(t);
    }
  }

  method SubWord(s: Col) returns (t: Col)
    ensures t == SubCol(s)
  {
    SboxLookup(s.a);
    SboxLookup(s.b);
    SboxLookup(s.c);
    SboxLookup(s.d);
    t := Col(SboxByte(s.a), SboxByte(s.b), SboxByte(s.c), SboxByte(s.d));
  }

  method CopyKey(key: array<Byte>, nk: nat, w: array<Byte>)
    requires KeyWords(nk) && key.Length >= 4 * nk && w.Length == 240 && key != w
    modifies w
    ensures Expanded(w, key[..], nk, nk)
  {
    for i := 0 to nk
      invariant Expanded(w, key[..], nk, i)
    {
      SetCol(w, i, key[4 * i], key[4 * i + 1], key[4 * i + 2], key[4 * i + 3]);
    }
  }

  method ExtendKey(w: array<Byte>, ghost key: seq<Byte>, nk: nat, i: nat, t: Col)
    requires KeyWords(nk) && |key| >= 4 * nk && nk <= i && 4 * i + 4 <= w.Length
    requires Expanded(w, key, nk, i) && t == KeyTerm(KeyWord(key, nk, i - 1), nk, i)
    requires ColAt(w, 4 * (i - nk)) == KeyWord(key, nk, i - nk)
    modifies w
    ensures Expanded(w, key, nk, i + 1)
  {
    SetCol(w, i, Xor(w[4 * (i - nk)], t.a), Xor(w[4 * (i - nk) + 1], t.b), Xor(w[4 * (i - nk) + 2], t.c),
           Xor(w[4 * (i - nk) + 3], t.d));
  }

  lemma RoundKeyAt(w: array<Byte>, key: seq<Byte>, nk: nat, r: nat)
    requires KeyWords(nk) && |key| >= 4 * nk && w.Length == 240 && Expanded(w, key, nk, 4 * (nk + 7)) && r < nk + 7
    ensures At(w, 16 * r) == RoundKeys(key, nk)[r]
  {
    assert ColAt(w, 4 * (4 * r)) == KeyWord(key, nk, 4 * r);
    assert ColAt(w, 4 * (4 * r + 1)) == KeyWord(key, nk, 4 * r + 1);
    assert ColAt(w, 4 * (4 * r + 2)) == KeyWord(key, nk, 4 * r + 2);
    assert ColAt(w, 4 * (4 * r + 3)) == KeyWord(key, nk, 4 * r + 3);
  }

  // ----- one block

  ghost predicate Keyed(w: array<Byte>, rk: seq<Block>)
    reads w
  {
    |rk| in {11, 13, 15} && w.Length == 240 && forall r :: 0 <= r < |rk| ==> At(w, 16 * r) == rk[r]
  }

  method DoRound(s: array<Byte>, w: array<Byte>, r: nat, ghost k: Block)
    requires s.Length == 16 && s != w && 16 * r + 16 <= w.Length && At(w, 16 * r) == k
    modifies s
    ensures At(s, 0) == Shift(Sub(XorBlock(old(At(s, 0)), k)))
  {
    AddKey(s, w, r * 16);
    SubBytes(s);
    ShiftRows(s);
  }

  method UndoRound(s: array<Byte>, w: array<Byte>, r: nat, ghost k: Block)
    requires s.Length == 16 && s != w && 16 * r + 16 <= w.Length && At(w, 16 * r) == k
    modifies s
    ensures At(s, 0) == XorBlock(InvSub(InvShift(old(At(s, 0)))), k)
  {
    InvShiftRows(s);
    InvSubBytes(s);
    AddKey(s, w, r * 16);
  }

  /** What the turns before the last key make of the state; the last one mixes no columns. */
  ghost function Turned(s: Block, last: bool): Block {
    if last then Shift(Sub(s)) else Mix(Shift(Sub(s)))
  }

  lemma RoundNext(rk: seq<Block>, x: Block, r: nat)
    requires r + 1 < |rk|
    ensures XorBlock(Turned(Round(rk, x, r), false), rk[r + 1]) == Round(rk, x, r + 1)
  {
  }

  method EncryptTurn(s: array<Byte>, w: array<Byte>, r: nat, nr: nat, ghost rk: seq<Block>)
    requires s.Length == 16 && s != w && Keyed(w, rk) && r < nr && nr + 1 == |rk|
    modifies s
    ensures At(s, 0) == Turned(XorBlock(old(At(s, 0)), rk[r]), r == nr - 1)
  {
    DoRound(s, w, r, rk[r]);
    if r < nr - 1 {
      MixColumns(s, false);
    }
  }

  method Encrypt(s: array<Byte>, w: array<Byte>, nr: nat, ghost rk: seq<Block>)
    requires s.Length == 16 && s != w && Keyed(w, rk) && nr + 1 == |rk|
    modifies s
    ensures At(s, 0) == Cipher(rk, old(At(s, 0)))
  {
    ghost var x := At(s, 0);
    for r := 0 to nr
      invariant Keyed(w, rk)
      invariant r < nr ==> XorBlock(At(s, 0), rk[r]) == Round(rk, x, r)
      invariant r == nr ==> At(s, 0) == Shift(Sub(Round(rk, x, nr - 1)))
    {
      EncryptTurn(s, w, r, nr, rk);
      if r < nr - 1 {
        RoundNext(rk, x, r);
      } else {
        assert r == nr - 1;
      }
    }
    AddKey(s, w, nr * 16);
  }

  lemma UnroundStep(rk: seq<Block>, y: Block, r: nat)
    requires 1 <= r && r + 1 < |rk|
    ensures Unround(rk, y, r) == InvMix(XorBlock(InvSub(InvShift(Unround(rk, y, r + 1))), rk[r]))
  {
  }

  /** One turn of decryption: from round `r + 1` undone to round `r` undone. */
  method DecryptTurn(s: array<Byte>, w: array<Byte>, r: nat, ghost rk: seq<Block>, ghost y: Block)
    requires s.Length == 16 && s != w && Keyed(w, rk) && 1 <= r && r + 1 < |rk|
    requires At(s, 0) == Unround(rk, y, r + 1)
    modifies s
    ensures At(s, 0) == Unround(rk, y, r)
  {
    UnroundStep(rk, y, r);
    UndoRound(s, w, r, rk[r]);
    MixColumns(s, true);
  }

  method Decrypt(s: array<Byte>, w: array<Byte>, nr: nat, ghost rk: seq<Block>)
    requires s.Length == 16 && s != w && Keyed(w, rk) && nr + 1 == |rk|
    modifies s
    ensures At(s, 0) == InvCipher(rk, old(At(s, 0)))
  {
    ghost var y := At(s, 0);
    AddKey(s, w, nr * 16);
    for r := nr downto 1
      invariant Keyed(w, rk)
      invariant At(s, 0) == Unround(rk, y, r)
    {
      DecryptTurn(s, w, r, rk, y);
    }
    UndoRound(s, w, 0, rk[0]);
  }

  ghost function Crypted(decrypt: bool, rk: seq<Block>, x: Block): Block
    requires |rk| >= 2
  {
    if decrypt then InvCipher(rk, x) else Cipher(rk, x)
  }

  method ExpandKey(key: array<Byte>, nk: nat, w: array<Byte>) returns (ghost rk: seq<Block>)
    requires KeyWords(nk) && key.Length >= 4 * nk && w.Length == 240 && w != key
    modifies w
    ensures rk == RoundKeys(key[..], nk) && |rk| == nk + 7 && Keyed(w, rk)
  {
    KeyExp(key, nk, w);
    rk := RoundKeys(key[..], nk);
    forall r | 0 <= r < nk + 7 ensures At(w, 16 * r) == rk[r] {
      RoundKeyAt(w, key[..], nk, r);
    }
  }

  /** One block from `input` at offset `i` to `out` at offset `o`. */
  method AesBlock(input: array<Byte>, i: nat, key: array<Byte>, nk: nat, decrypt: bool, out: array<Byte>, o: nat)
    requires KeyWords(nk) && key.Length >= 4 * nk && i + 16 <= input.Length && o + 16 <= out.Length
    modifies out
    ensures At(out, o) == Crypted(decrypt, RoundKeys(old(key[..]), nk), old(At(input, i)))
    ensures out[..o] == old(out[..o]) && out[o + 16..] == old(out[o + 16..])
  {
    var w, s := new Byte[240](_ => O), new Byte[16](_ => O);
    ghost var rk := ExpandKey(key, nk, w);
    Copy(s, 0, input, i);
    if !decrypt {
      Encrypt(s, w, nk + 6, rk);
    } else {
      Decrypt(s, w, nk + 6, rk);
    }
    Copy(out, o, s, 0);
  }

  /** Copies sixteen bytes. */
  method Copy(dst: array<Byte>, o: nat, src: array<Byte>, i: nat)
    requires o + 16 <= dst.Length && i + 16 <= src.Length && dst != src
    modifies dst
    ensures At(dst, o) == At(src, i)
    ensures dst[..o] == old(dst[..o]) && dst[o + 16..] == old(dst[o + 16..])
  {
    for k := 0 to 16
      invariant forall j :: o <= j < o + k ==> dst[j] == src[i + j - o]
      invariant forall j :: 0 <= j < dst.Length && !(o <= j < o + 16) ==> dst[j] == old(dst[j])
    {
      dst[o + k] := src[i + k];
    }
  }
}
