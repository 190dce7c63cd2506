/** The word-wise AES engine of src/esp32c6.c: the state is an array of four words, each a
    column with row 0 in its high byte, and the key schedule an array of words. */
module AesC6 {
  import opened Aes
  import AesC3

  datatype Word = Word(v: bv32)

  function XorW(x: Word, y: Word): Word {
    Word(x.v ^ y.v)
  }

  // ----- words and columns

  function Row0(x: Word): Byte {
    Byte(((x.v >> 24) & 0xff) as bv8)
  }

  function Row1(x: Word): Byte {
    Byte(((x.v >> 16) & 0xff) as bv8)
  }

  function Row2(x: Word): Byte {
    Byte(((x.v >> 8) & 0xff) as bv8)
  }

  function Row3(x: Word): Byte {
    Byte((x.v & 0xff) as bv8)
  }

  function Unpack(x: Word): Col {
    Col(Row0(x), Row1(x), Row2(x), Row3(x))
  }

  function Pack(a: Byte, b: Byte, c: Byte, d: Byte): Word {
    Word(((a.v as bv32) << 24) | ((b.v as bv32) << 16) | ((c.v as bv32) << 8) | (d.v as bv32))
  }

  function RotL8(x: Word): Word {
    Word((x.v << 8) | (x.v >> 24))
  }

  lemma PackBits(a: bv8, b: bv8, c: bv8, d: bv8)
    ensures
      var x := ((a as bv32) << 24) | ((b as bv32) << 16) | ((c as bv32) << 8) | (d as bv32);
      ((x >> 24) & 0xff) as bv8 == a && ((x >> 16) & 0xff) as bv8 == b && ((x >> 8) & 0xff) as bv8 == c
        && (x & 0xff) as bv8 == d
  {
  }

  lemma UnpackPack(a: Byte, b: Byte, c: Byte, d: Byte)
    ensures Unpack(Pack(a, b, c, d)) == Col(a, b, c, d)
  {
    PackBits(a.v, b.v, c.v, d.v);
  }

  lemma Row0Xor(x: Word, y: Word)
    ensures Row0(XorW(x, y)) == Xor(Row0(x), Row0(y))
  {
  }

  lemma Row1Xor(x: Word, y: Word)
    ensures Row1(XorW(x, y)) == Xor(Row1(x), Row1(y))
  {
  }

  lemma Row2Xor(x: Word, y: Word)
    ensures Row2(XorW(x, y)) == Xor(Row2(x), Row2(y))
  {
  }

  lemma Row3Xor(x: Word, y: Word)
    ensures Row3(XorW(x, y)) == Xor(Row3(x), Row3(y))
  {
  }

  lemma UnpackXor(x: Word, y: Word)
    ensures Unpack(XorW(x, y)) == XorCol(Unpack(x), Unpack(y))
  {
    Row0Xor(x, y);
    Row1Xor(x, y);
    Row2Xor(x, y);
    Row3Xor(x, y);
  }

  lemma UnpackRotate(x: Word)
    ensures Unpack(RotL8(x)) == Col(Row1(x), Row2(x), Row3(x), Row0(x))
  {
  }

  // ----- multiplication on words that hold a byte

  /** The word that holds a byte. */
  function Wide(b: Byte): Word {
    Word(b.v as bv32)
  }

  function Gmul2(x: Word): Word {
    var r := x.v << 1;
    Word((if x.v & 0x80 != 0 then r ^ 0x1b else r) & 0xff)
  }

  function Mul9W(a: Word): Word {
    XorW(Gmul2(Gmul2(Gmul2(a))), a)
  }

  function Mul11W(a: Word): Word {
    XorW(XorW(Gmul2(Gmul2(Gmul2(a))), Gmul2(a)), a)
  }

  function Mul13W(a: Word): Word {
    XorW(XorW(Gmul2(Gmul2(Gmul2(a))), Gmul2(Gmul2(a))), a)
  }

  function Mul14W(a: Word): Word {
    XorW(XorW(Gmul2(Gmul2(Gmul2(a))), Gmul2(Gmul2(a))), Gmul2(a))
  }

  lemma Gmul2Wide(b: Byte)
    ensures Gmul2(Wide(b)) == Wide(XTime(b))
  {
    XTimeBranches(b);
  }

  lemma XorWide(a: Byte, b: Byte)
    ensures XorW(Wide(a), Wide(b)) == Wide(Xor(a, b))
  {
  }

  lemma Row3Wide(b: Byte)
    ensures Row3(Wide(b)) == b
  {
  }

  lemma MulWide(a: Byte)
    ensures Mul9W(Wide(a)) == Wide(Mul9(a)) && Mul11W(Wide(a)) == Wide(Mul11(a))
    ensures Mul13W(Wide(a)) == Wide(Mul13(a)) && Mul14W(Wide(a)) == Wide(Mul14(a))
  {
    var a1, a2, a3 := XTime(a), XTime(XTime(a)), XTime(XTime(XTime(a)));
    Gmul2Wide(a);
    Gmul2Wide(a1);
    Gmul2Wide(a2);
    XorWide(a3, a);
    XorWide(a3, a1);
    XorWide(Xor(a3, a1), a);
    XorWide(a3, a2);
    XorWide(Xor(a3, a2), a);
    XorWide(Xor(a3, a2), a1);
  }

  // ----- the steps of a round, in place

  ghost function At(s: array<Word>, o: nat): Block
    requires o + 4 <= s.Length
    reads s
  {
    Block(Unpack(s[o]), Unpack(s[o + 1]), Unpack(s[o + 2]), Unpack(s[o + 3]))
  }

  /** The low byte of a sum of five words that hold a byte each. */
  function Low5(p: Word, q: Word, r: Word, s: Word, t: Word): Byte {
    Row3(XorW(XorW(XorW(XorW(p, q), r), s), t))
  }

  lemma Low5Wide(p: Byte, q: Byte, r: Byte, s: Byte, t: Byte)
    ensures Low5(Wide(p), Wide(q), Wide(r), Wide(s), Wide(t)) == Xor(Xor(Xor(Xor(p, q), r), s), t)
  {
    XorWide(p, q);
    XorWide(Xor(p, q), r);
    XorWide(Xor(Xor(p, q), r), s);
    XorWide(Xor(Xor(Xor(p, q), r), s), t);
    Row3Wide(Xor(Xor(Xor(Xor(p, q), r), s), t));
  }

  lemma XorAssoc(p: Byte, q: Byte, r: Byte)
    ensures Xor(Xor(p, q), r) == Xor(p, Xor(q, r))
  {
  }

  method MixColumn(a0: Byte, a1: Byte, a2: Byte, a3: Byte) returns (x0: Byte, x1: Byte, x2: Byte, x3: Byte)
    ensures Col(x0, x1, x2, x3) == MixCol(Col(a0, a1, a2, a3))
  {
    var w0, w1, w2, w3 := Wide(a0), Wide(a1), Wide(a2), Wide(a3);
    Gmul2Wide(a0);
    Gmul2Wide(a1);
    Gmul2Wide(a2);
    Gmul2Wide(a3);
    Low5Wide(XTime(a0), XTime(a1), a1, a2, a3);
    Low5Wide(a0, XTime(a1), XTime(a2), a2, a3);
    Low5Wide(a0, a1, XTime(a2), XTime(a3), a3);
    Low5Wide(XTime(a0), a0, a1, a2, XTime(a3));
    x0 := Low5(Gmul2(w0), Gmul2(w1), w1, w2, w3);
    x1 := Low5(w0, Gmul2(w1), Gmul2(w2), w2, w3);
    x2 := Low5(w0, w1, Gmul2(w2), Gmul2(w3), w3);
    x3 := Low5(Gmul2(w0), w0, w1, w2, Gmul2(w3));
    XorAssoc(XTime(a0), XTime(a1), a1);
    XorAssoc(Xor(a0, XTime(a1)), XTime(a2), a2);
    XorAssoc(Xor(Xor(a0, a1), XTime(a2)), XTime(a3), a3);
  }

  method InvMixColumn(a0: Byte, a1: Byte, a2: Byte, a3: Byte) returns (x0: Byte, x1: Byte, x2: Byte, x3: Byte)
    ensures Col(x0, x1, x2, x3) == InvMixCol(Col(a0, a1, a2, a3))
  {
    MulWide(a0);
    MulWide(a1);
    MulWide(a2);
    MulWide(a3);
    var w0, w1, w2, w3 := Wide(a0), Wide(a1), Wide(a2), Wide(a3);
    x0 := Low4(Mul14W(w0), Mul11W(w1), Mul13W(w2), Mul9W(w3));
    x1 := Low4(Mul9W(w0), Mul14W(w1), Mul11W(w2), Mul13W(w3));
    x2 := Low4(Mul13W(w0), Mul9W(w1), Mul14W(w2), Mul11W(w3));
    x3 := Low4(Mul11W(w0), Mul13W(w1), Mul9W(w2), Mul14W(w3));
    Low4Wide(Mul14(a0), Mul11(a1), Mul13(a2), Mul9(a3));
    Low4Wide(Mul9(a0), Mul14(a1), Mul11(a2), Mul13(a3));
    Low4Wide(Mul13(a0), Mul9(a1), Mul14(a2), Mul11(a3));
    Low4Wide(Mul11(a0), Mul13(a1), Mul9(a2), Mul14(a3));
  }

  function Low4(p: Word, q: Word, r: Word, s: Word): Byte {
    Row3(XorW(XorW(XorW(p, q), r), s))
  }

  lemma Low4Wide(p: Byte, q: Byte, r: Byte, s: Byte)
    ensures Low4(Wide(p), Wide(q), Wide(r), Wide(s)) == Sum(p, q, r, s)
  {
    XorWide(p, q);
    XorWide(Xor(p, q), r);
    XorWide(Xor(Xor(p, q), r), s);
    Row3Wide(Sum(p, q, r, s));
  }

  method MixColumns(s: array<Word>)
    requires s.Length == 4
    modifies s
    ensures At(s, 0) == Mix(old(At(s, 0)))
  {
    for c := 0 to 4
      invariant forall k :: 0 <= k < c ==> Unpack(s[k]) == MixCol(Unpack(old(s[k])))
      invariant forall k :: c <= k < 4 ==> s[k] == old(s[k])
    {
      var x0, x1, x2, x3 := MixColumn(Row0(s[c]), Row1(s[c]), Row2(s[c]), Row3(s[c]));
      UnpackPack(x0, x1, x2, x3);
      s[c] := Pack(x0, x1, x2, x3);
    }
  }

  method InvMixColumns(s: array<Word>)
    requires s.Length == 4
    modifies s
    ensures At(s, 0) == InvMix(old(At(s, 0)))
  {
    for c := 0 to 4
      invariant forall k :: 0 <= k < c ==> Unpack(s[k]) == InvMixCol(Unpack(old(s[k])))
      invariant forall k :: c <= k < 4 ==> s[k] == old(s[k])
    {
      var x0, x1, x2, x3 := InvMixColumn(Row0(s[c]), Row1(s[c]), Row2(s[c]), Row3(s[c]));
      UnpackPack(x0, x1, x2, x3);
      s[c] := Pack(x0, x1, x2, x3);
    }
  }

  method AddRoundKey(s: array<Word>, k: array<Word>, o: nat)
    requires s.Length == 4 && o + 4 <= k.Length && s != k
    modifies s
    ensures At(s, 0) == XorBlock(old(At(s, 0)), At(k, o))
  {
    for i := 0 to 4
      invariant forall j :: 0 <= j < i ==> Unpack(s[j]) == XorCol(Unpack(old(s[j])), Unpack(k[o + j]))
      invariant forall j :: i <= j < 4 ==> s[j] == old(s[j])
    {
      UnpackXor(s[i], k[o + i]);
      s[i] := XorW(s[i], k[o + i]);
    }
  }

  /** Each byte of a word through the table. */
  function SubW(w: Word): Word {
    Pack(SboxByte(Row0(w)), SboxByte(Row1(w)), SboxByte(Row2(w)), SboxByte(Row3(w)))
  }

  function InvSubW(w: Word): Word {
    Pack(InvSboxByte(Row0(w)), InvSboxByte(Row1(w)), InvSboxByte(Row2(w)), InvSboxByte(Row3(w)))
  }

  lemma UnpackSubW(w: Word)
    ensures Unpack(SubW(w)) == SubCol(Unpack(w)) && Unpack(InvSubW(w)) == InvSubCol(Unpack(w))
  {
    SboxLookup(Row0(w));
    SboxLookup(Row1(w));
    SboxLookup(Row2(w));
    SboxLookup(Row3(w));
    UnpackPack(Sbox(Row0(w)), Sbox(Row1(w)), Sbox(Row2(w)), Sbox(Row3(w)));
    UnpackPack(InvSbox(Row0(w)), InvSbox(Row1(w)), InvSbox(Row2(w)), InvSbox(Row3(w)));
  }

  method SubBytes(s: array<Word>)
    requires s.Length == 4
    modifies s
    ensures At(s, 0) == Sub(old(At(s, 0)))
  {
    for i := 0 to 4
      invariant forall j :: 0 <= j < i ==> Unpack(s[j]) == SubCol(Unpack(old(s[j])))
      invariant forall j :: i <= j < 4 ==> s[j] == old(s[j])
    {
      UnpackSubW(s[i]);
      s[i] := SubW(s[i]);
    }
  }

  method InvSubBytes(s: array<Word>)
    requires s.Length == 4
    modifies s
    ensures At(s, 0) == InvSub(old(At(s, 0)))
  {
    for i := 0 to 4
      invariant forall j :: 0 <= j < i ==> Unpack(s[j]) == InvSubCol(Unpack(old(s[j])))
      invariant forall j :: i <= j < 4 ==> s[j] == old(s[j])
    {
      UnpackSubW(s[i]);
      s[i] := InvSubW(s[i]);
    }
  }

  /** The byte of row `r` comes from `r` columns to the right. */
  method ShiftRows(s: array<Word>)
    requires s.Length == 4
    modifies s
    ensures At(s, 0) == Shift(old(At(s, 0)))
  {
    var r := new Word[4];
    for c := 0 to 4
      invariant forall k :: 0 <= k < 4 ==> s[k] == old(s[k])
      invariant c > 0 ==> Unpack(r[0]) == Col(Row0(s[0]), Row1(s[1]), Row2(s[2]), Row3(s[3]))
      invariant c > 1 ==> Unpack(r[1]) == Col(Row0(s[1]), Row1(s[2]), Row2(s[3]), Row3(s[0]))
      invariant c > 2 ==> Unpack(r[2]) == Col(Row0(s[2]), Row1(s[3]), Row2(s[0]), Row3(s[1]))
      invariant c > 3 ==> Unpack(r[3]) == Col(Row0(s[3]), Row1(s[0]), Row2(s[1]), Row3(s[2]))
    {
      var b0, b1, b2, b3 := Row0(s[c]), Row1(s[(c + 1) % 4]), Row2(s[(c + 2) % 4]), Row3(s[(c + 3) % 4]);
      UnpackPack(b0, b1, b2, b3);
      r[c] := Pack(b0, b1, b2, b3);
    }
    CopyWords(s, r);
  }

  method InvShiftRows(s: array<Word>)
    requires s.Length == 4
    modifies s
    ensures At(s, 0) == InvShift(old(At(s, 0)))
  {
    var r := new Word[4];
    for c := 0 to 4
      invariant forall k :: 0 <= k < 4 ==> s[k] == old(s[k])
      invariant c > 0 ==> Unpack(r[0]) == Col(Row0(s[0]), Row1(s[3]), Row2(s[2]), Row3(s[1]))
      invariant c > 1 ==> Unpack(r[1]) == Col(Row0(s[1]), Row1(s[0]), Row2(s[3]), Row3(s[2]))
      invariant c > 2 ==> Unpack(r[2]) == Col(Row0(s[2]), Row1(s[1]), Row2(s[0]), Row3(s[3]))
      invariant c > 3 ==> Unpack(r[3]) == Col(Row0(s[3]), Row1(s[2]), Row2(s[1]), Row3(s[0]))
    {
      var b0, b1, b2, b3 := Row0(s[c]), Row1(s[(c - 1) % 4]), Row2(s[(c - 2) % 4]), Row3(s[(c - 3) % 4]);
      UnpackPack(b0, b1, b2, b3);
      r[c] := Pack(b0, b1, b2, b3);
    }
    CopyWords(s, r);
  }

  method CopyWords(s: array<Word>, r: array<Word>)
    requires s.Length == r.Length == 4 && s != r
    modifies s
    ensures forall k :: 0 <= k < 4 ==> s[k] == r[k]
  {
    for c := 0 to 4
      invariant forall k :: 0 <= k < c ==> s[k] == r[k]
    {
      s[c] := r[c];
    }
  }

  // ----- key expansion, with the round constant computed anew each time

  method RconOf(i: nat) returns (r: Word)
    requires i >= 1
    ensures Unpack(r) == Col(Rcon(i), O, O, O)
  {
    var c := Word(1);
    var n := i - 1;
    while n > 0
      invariant c == Wide(Rcon(i - n))
    {
      Gmul2Wide(Rcon(i - n));
      c := Gmul2(c);
      n := n - 1;
    }
    UnpackPack(Rcon(i), O, O, O);
    r := Word(c.v << 24);
    WideAtTop(Rcon(i));
  }

  lemma WideAtTop(b: Byte)
    ensures Word(Wide(b).v << 24) == Pack(b, O, O, O)
  {
  }

  ghost predicate Expanded(out: array<Word>, key: seq<Byte>, nk: nat, n: nat)
    requires KeyWords(nk) && |key| >= 4 * nk && n <= out.Length
    reads out
  {
    forall j :: 0 <= j < n ==> Unpack(out[j]) == KeyWord(key, nk, j)
  }

  method Term(prev: Word, nk: nat, i: nat) returns (t: Word)
    requires KeyWords(nk) && i >= nk
    ensures Unpack(t) == KeyTerm(Unpack(prev), nk, i)
  {
    t := prev;
    if i % nk == 0 {
      UnpackRotate(t);
      UnpackSubW(RotL8(t));
      var c := RconOf(i / nk);
      UnpackXor(SubW(RotL8(t)), c);
      t := XorW(SubW(RotL8(t)), c);
    } else if nk > 6 && i % nk == 4 {
      UnpackSubW(t);
      t := SubW(t);
    }
  }

  method LoadKey(key: array<Byte>, nk: nat, out: array<Word>)
    requires KeyWords(nk) && key.Length >= 4 * nk && out.Length == 60
    modifies out
    ensures Expanded(out, key[..], nk, nk)
  {
    assert forall k :: 0 <= k < key.Length ==> key[k] == key[..][k];
    for i := 0 to nk
      invariant Expanded(out, key[..], nk, i)
    {
      UnpackPack(key[4 * i], key[4 * i + 1], key[4 * i + 2], key[4 * i + 3]);
      out[i] := Pack(key[4 * i], key[4 * i + 1], key[4 * i + 2], key[4 * i + 3]);
    }
  }

  method ExtendKey(key: array<Byte>, nk: nat, i: nat, out: array<Word>)
    requires KeyWords(nk) && key.Length >= 4 * nk && nk <= i < out.Length && Expanded(out, key[..], nk, i)
    modifies out
    ensures Expanded(out, key[..], nk, i + 1)
  {
    var t := Term(out[i - 1], nk, i);
    UnpackXor(out[i - nk], t);
    out[i] := XorW(out[i - nk], t);
  }

  method KeyExp(key: array<Byte>, nk: nat, nr: nat, out: array<Word>)
    requires KeyWords(nk) && nr == nk + 6 && key.Length >= 4 * nk && out.Length == 60
    modifies out
    ensures Expanded(out, key[..], nk, 4 * (nr + 1))
  {
    LoadKey(key, nk, out);
    for i := nk to 4 * (nr + 1)
      invariant Expanded(out, key[..], nk, i)
    {
      ExtendKey(key, nk, i, out);
    }
  }

  // ----- one block

  ghost predicate Keyed(k: array<Word>, rk: seq<Block>)
    reads k
  {
    |rk| in {11, 13, 15} && k.Length == 60 && forall r :: 0 <= r < |rk| ==> At(k, 4 * r) == rk[r]
  }

  /** What one turn of encryption makes of the state; the last one mixes no columns. */
  ghost function Turned(rk: seq<Block>, s: Block, r: nat): Block
    requires r < |rk|
  {
    XorBlock(Scrambled(s, r == |rk| - 1), rk[r])
  }

  ghost function Scrambled(s: Block, last: bool): Block {
    if last then Shift(Sub(s)) else Mix(Shift(Sub(s)))
  }

  lemma TurnedRound(rk: seq<Block>, x: Block, r: nat)
    requires 1 <= r < |rk| - 1
    ensures Turned(rk, Round(rk, x, r - 1), r) == Round(rk, x, r)
  {
  }

  lemma TurnedLast(rk: seq<Block>, x: Block)
    requires |rk| >= 2
    ensures Turned(rk, Round(rk, x, |rk| - 2), |rk| - 1) == Cipher(rk, x)
  {
  }

  method EncryptTurn(w: array<Word>, k: array<Word>, r: nat, nr: nat, ghost rk: seq<Block>)
    requires w.Length == 4 && w != k && Keyed(k, rk) && 1 <= r <= nr && nr + 1 == |rk|
    modifies w
    ensures At(w, 0) == Turned(rk, old(At(w, 0)), r)
  {
    Scramble(w, r == nr);
    AddRoundKey(w, k, r * 4);
  }

  method Scramble(w: array<Word>, last: bool)
    requires w.Length == 4
    modifies w
    ensures At(w, 0) == Scrambled(old(At(w, 0)), last)
  {
    SubBytes(w);
    ShiftRows(w);
    if !last {
      MixColumns(w);
    }
  }

  method Encrypt(w: array<Word>, k: array<Word>, nr: nat, ghost rk: seq<Block>)
    requires w.Length == 4 && w != k && Keyed(k, rk) && nr + 1 == |rk|
    modifies w
    ensures At(w, 0) == Cipher(rk, old(At(w, 0)))
  {
    ghost var x := At(w, 0);
    AddRoundKey(w, k, 0);
    for r := 1 to nr + 1
      invariant Keyed(k, rk)
      invariant At(w, 0) == if r <= nr then Round(rk, x, r - 1) else Cipher(rk, x)
    {
      EncryptTurn(w, k, r, nr, rk);
      if r < nr {
        TurnedRound(rk, x, r);
      } else {
        TurnedLast(rk, x);
      }
    }
  }

  method UndoRound(w: array<Word>, k: array<Word>, r: nat, ghost key: Block)
    requires w.Length == 4 && w != k && 4 * r + 4 <= k.Length && At(k, 4 * r) == key
    modifies w
    ensures At(w, 0) == XorBlock(InvSub(InvShift(old(At(w, 0)))), key)
  {
    InvShiftRows(w);
    InvSubBytes(w);
    AddRoundKey(w, k, r * 4);
  }

  method DecryptTurn(w: array<Word>, k: array<Word>, r: nat, ghost rk: seq<Block>, ghost y: Block)
    requires w.Length == 4 && w != k && Keyed(k, rk) && 1 <= r && r + 1 < |rk|
    requires At(w, 0) == Unround(rk, y, r + 1)
    modifies w
    ensures At(w, 0) == Unround(rk, y, r)
  {
    UndoRound(w, k, r, rk[r]);
    InvMixColumns(w);
  }

  method Decrypt(w: array<Word>, k: array<Word>, nr: nat, ghost rk: seq<Block>)
    requires w.Length == 4 && w != k && Keyed(k, rk) && nr + 1 == |rk|
    modifies w
    ensures At(w, 0) == InvCipher(rk, old(At(w, 0)))
  {
    ghost var y := At(w, 0);
    AddRoundKey(w, k, nr * 4);
    for r := nr downto 1
      invariant Keyed(k, rk)
      invariant At(w, 0) == Unround(rk, y, r)
    {
      DecryptTurn(w, k, r, rk, y);
    }
    UndoRound(w, k, 0, rk[0]);
  }

  lemma RoundKeyAt(k: array<Word>, key: seq<Byte>, nk: nat, r: nat)
    requires KeyWords(nk) && |key| >= 4 * nk && k.Length == 60 && Expanded(k, key, nk, 4 * (nk + 7)) && r < nk + 7
    ensures At(k, 4 * r) == RoundKeys(key, nk)[r]
  {
  }

  method LoadWords(input: array<Byte>) returns (w: array<Word>)
    requires input.Length == 16
    ensures fresh(w) && w.Length == 4 && At(w, 0) == AesC3.At(input, 0)
  {
    w := new Word[4];
    for i := 0 to 4
      invariant forall j :: 0 <= j < i ==> Unpack(w[j]) == AesC3.ColAt(input, 4 * j)
    {
      UnpackPack(input[4 * i], input[4 * i + 1], input[4 * i + 2], input[4 * i + 3]);
      w[i] := Pack(input[4 * i], input[4 * i + 1], input[4 * i + 2], input[4 * i + 3]);
    }
    assert AesC3.ColAt(input, 4 * 0) == Unpack(w[0]) && AesC3.ColAt(input, 4 * 1) == Unpack(w[1]);
    assert AesC3.ColAt(input, 4 * 2) == Unpack(w[2]) && AesC3.ColAt(input, 4 * 3) == Unpack(w[3]);
  }

  method StoreWords(w: array<Word>, out: array<Byte>)
    requires w.Length == 4 && out.Length == 16
    modifies out
    ensures AesC3.At(out, 0) == At(w, 0)
  {
    for i := 0 to 4
      invariant forall j :: 0 <= j < i ==> AesC3.ColAt(out, 4 * j) == Unpack(w[j])
      invariant forall j :: 0 <= j < 4 ==> w[j] == old(w[j])
    {
      AesC3.SetCol(out, i, Row0(w[i]), Row1(w[i]), Row2(w[i]), Row3(w[i]));
    }
    assert AesC3.ColAt(out, 4 * 0) == Unpack(w[0]) && AesC3.ColAt(out, 4 * 1) == Unpack(w[1]);
    assert AesC3.ColAt(out, 4 * 2) == Unpack(w[2]) && AesC3.ColAt(out, 4 * 3) == Unpack(w[3]);
  }

  method ExpandedKey(key: array<Byte>, nk: nat) returns (k: array<Word>)
    requires KeyWords(nk) && key.Length >= 4 * nk
    ensures fresh(k) && Keyed(k, RoundKeys(key[..], nk))
  {
    k := new Word[60];
    KeyExp(key, nk, nk + 6, k);
    forall r | 0 <= r < nk + 7 ensures At(k, 4 * r) == RoundKeys(key[..], nk)[r] {
      RoundKeyAt(k, key[..], nk, r);
    }
  }

  method Crypt(w: array<Word>, k: array<Word>, nr: nat, encrypt: bool, ghost rk: seq<Block>)
    requires w.Length == 4 && w != k && Keyed(k, rk) && nr + 1 == |rk|
    modifies w
    ensures At(w, 0) == AesC3.Crypted(!encrypt, rk, old(At(w, 0)))
  {
    if encrypt {
      Encrypt(w, k, nr, rk);
    } else {
      Decrypt(w, k, nr, rk);
    }
  }

  /** One block. */
  method AesBlock(input: array<Byte>, key: array<Byte>, nk: nat, encrypt: bool, out: array<Byte>)
    requires KeyWords(nk) && key.Length >= 4 * nk && input.Length == 16 && out.Length == 16
    modifies out
    ensures AesC3.At(out, 0) == AesC3.Crypted(!encrypt, RoundKeys(old(key[..]), nk), old(AesC3.At(input, 0)))
  {
    var w := LoadWords(input);
    var k := ExpandedKey(key, nk);
    Crypt(w, k, nk + 6, encrypt, RoundKeys(key[..], nk));
    StoreWords(w, out);
  }

  lemma SameBytes(a: array<Byte>, b: array<Byte>)
    requires a.Length == b.Length == 16 && AesC3.At(a, 0) == AesC3.At(b, 0)
    ensures a[..] == b[..]
  {
  }

  /** The byte-wise and the word-wise engine are the same function, in both directions and for
      every key size, key and block: the reference cipher, or its inverse. */
  method BothEngines(input: array<Byte>, key: array<Byte>, nk: nat, decrypt: bool)
    returns (c3: array<Byte>, c6: array<Byte>)
    requires KeyWords(nk) && key.Length >= 4 * nk && input.Length == 16
    ensures c3[..] == c6[..] && c3.Length == c6.Length == 16
    ensures AesC3.At(c3, 0) == AesC3.Crypted(decrypt, RoundKeys(key[..], nk), AesC3.At(input, 0)) == AesC3.At(c6, 0)
  {
    ghost var y := AesC3.Crypted(decrypt, RoundKeys(key[..], nk), AesC3.At(input, 0));
    c3 := RunC3(input, key, nk, decrypt, y);
    c6 := RunC6(input, key, nk, decrypt, y);
    SameBytes(c3, c6);
  }

  method RunC3(input: array<Byte>, key: array<Byte>, nk: nat, decrypt: bool, ghost y: Block) returns (out: array<Byte>)
    requires KeyWords(nk) && key.Length >= 4 * nk && input.Length == 16
    requires y == AesC3.Crypted(decrypt, RoundKeys(key[..], nk), AesC3.At(input, 0))
    ensures fresh(out) && out.Length == 16 && AesC3.At(out, 0) == y
  {
    out := new Byte[16];
    AesC3.AesBlock(input, 0, key, nk, decrypt, out, 0);
  }

  method RunC6(input: array<Byte>, key: array<Byte>, nk: nat, decrypt: bool, ghost y: Block) returns (out: array<Byte>)
    requires KeyWords(nk) && key.Length >= 4 * nk && input.Length == 16
    requires y == AesC3.Crypted(decrypt, RoundKeys(key[..], nk), AesC3.At(input, 0))
    ensures fresh(out) && out.Length == 16 && AesC3.At(out, 0) == y
  {
    out := new Byte[16];
    AesBlock(input, key, nk, !decrypt, out);
  }
}
