/** The AES peripheral of src/esp32c3.c: key, mode and initial vector in registers, and the
    loop over the blocks of a buffer, electronic code book or cipher block chaining. */
module AesC3Unit {
  import opened Aes
  import opened AesC3

  const MODE: nat := 16
  const IV: nat := 20
  const BLOCK_MODE: nat := 37

  // ----- bytes of a register, least significant first

  function RegByte(r: bv32, k: nat): Byte
    requires k < 4
  {
    match k
    case 0 => Byte((r & 0xff) as bv8)
    case 1 => Byte(((r >> 8) & 0xff) as bv8)
    case 2 => Byte(((r >> 16) & 0xff) as bv8)
    case 3 => Byte(((r >> 24) & 0xff) as bv8)
  }

  function SetRegByte(r: bv32, k: nat, b: Byte): bv32
    requires k < 4
  {
    match k
    case 0 => (r & 0xffffff00) | (b.v as bv32)
    case 1 => (r & 0xffff00ff) | ((b.v as bv32) << 8)
    case 2 => (r & 0xff00ffff) | ((b.v as bv32) << 16)
    case 3 => (r & 0x00ffffff) | ((b.v as bv32) << 24)
  }

  lemma SetThenGet0(r: bv32, b: Byte, j: nat)
    requires j < 4
    ensures RegByte(SetRegByte(r, 0, b), j) == if j == 0 then b else RegByte(r, j)
  {
  }

  lemma SetThenGet1(r: bv32, b: Byte, j: nat)
    requires j < 4
    ensures RegByte(SetRegByte(r, 1, b), j) == if j == 1 then b else RegByte(r, j)
  {
  }

  lemma SetThenGet2(r: bv32, b: Byte, j: nat)
    requires j < 4
    ensures RegByte(SetRegByte(r, 2, b), j) == if j == 2 then b else RegByte(r, j)
  {
  }

  lemma SetThenGet3(r: bv32, b: Byte, j: nat)
    requires j < 4
    ensures RegByte(SetRegByte(r, 3, b), j) == if j == 3 then b else RegByte(r, j)
  {
  }

  lemma SetThenGet(r: bv32, k: nat, b: Byte, j: nat)
    requires k < 4 && j < 4
    ensures RegByte(SetRegByte(r, k, b), j) == if j == k then b else RegByte(r, j)
  {
    match k
    case 0 => SetThenGet0(r, b, j);
    case 1 => SetThenGet1(r, b, j);
    case 2 => SetThenGet2(r, b, j);
    case 3 => SetThenGet3(r, b, j);
  }

  /** A register is its bytes, the first of them lowest. */
  lemma RegisterBytes(r: bv32)
    ensures r == (RegByte(r, 0).v as bv32) | ((RegByte(r, 1).v as bv32) << 8) | ((RegByte(r, 2).v as bv32) << 16)
                 | ((RegByte(r, 3).v as bv32) << 24)
  {
  }

  function RegCol(r: bv32): Col {
    Col(RegByte(r, 0), RegByte(r, 1), RegByte(r, 2), RegByte(r, 3))
  }

  type Registers = r: seq<bv32> | |r| == 64 witness seq(64, _ => 0)

  function IvOf(regs: Registers): Block {
    Block(RegCol(regs[IV]), RegCol(regs[IV + 1]), RegCol(regs[IV + 2]), RegCol(regs[IV + 3]))
  }

  /** Key length in words; the last encoding is not a key length of AES. */
  function KeyLength(mode: bv32): nat {
    match mode & 3
    case 0 => 4
    case 1 => 6
    case 2 => 8
    case _ => 10
  }

  /** The byte offsets of the registers: mode, initial vector and block mode. */
  lemma RegisterOffsets(regs: Registers)
    ensures 4 * MODE == 0x40 && 4 * IV == 0x50 && 4 * BLOCK_MODE == 0x94
    ensures IvOf(regs) == Block(RegCol(regs[0x50 / 4]), RegCol(regs[0x54 / 4]), RegCol(regs[0x58 / 4]),
                                RegCol(regs[0x5c / 4]))
  {
  }

  /** The low two bits of the mode select keys of 128, 192 and 256 bits, and the value left over
      selects no key. */
  lemma KeySizes(mode: bv32)
    ensures KeyWords(KeyLength(mode)) <==> mode & 3 != 3
    ensures KeyWords(KeyLength(mode)) ==>
      32 * KeyLength(mode) == if mode & 3 == 0 then 128 else if mode & 3 == 1 then 192 else 256
    ensures KeyLength(mode) <= 8 <==> mode & 3 != 3
  {
  }

  function KeyOf(regs: Registers): (key: seq<Byte>)
    requires KeyLength(regs[MODE]) <= 8
    ensures |key| == 4 * KeyLength(regs[MODE]) && forall i :: 0 <= i < |key| ==> key[i] == RegByte(regs[i / 4], i % 4)
  {
    seq(4 * KeyLength(regs[MODE]), i requires 0 <= i < 32 => RegByte(regs[i / 4], i % 4))
  }

  /** The round keys depend on the first `nk` words of the key buffer alone. */
  lemma {:induction false} KeyWordOfPrefix(key: seq<Byte>, buf: seq<Byte>, nk: nat, i: nat)
    requires KeyWords(nk) && |key| == 4 * nk <= |buf| && forall j :: 0 <= j < 4 * nk ==> buf[j] == key[j]
    ensures KeyWord(buf, nk, i) == KeyWord(key, nk, i)
  {
    if i >= nk {
      KeyWordOfPrefix(key, buf, nk, i - nk);
      KeyWordOfPrefix(key, buf, nk, i - 1);
    }
  }

  lemma RoundKeysOfPrefix(key: seq<Byte>, buf: seq<Byte>, nk: nat)
    requires KeyWords(nk) && |key| == 4 * nk <= |buf| && forall j :: 0 <= j < 4 * nk ==> buf[j] == key[j]
    ensures RoundKeys(buf, nk) == RoundKeys(key, nk)
  {
    forall r | 0 <= r < nk + 7 ensures RoundKey(buf, nk, r) == RoundKey(key, nk, r) {
      KeyWordOfPrefix(key, buf, nk, 4 * r);
      KeyWordOfPrefix(key, buf, nk, 4 * r + 1);
      KeyWordOfPrefix(key, buf, nk, 4 * r + 2);
      KeyWordOfPrefix(key, buf, nk, 4 * r + 3);
    }
  }

  // ----- a message, in either mode, for any function on blocks

  ghost function Ecb(f: Block -> Block, x: seq<Block>): (y: seq<Block>)
    ensures |y| == |x|
    decreases |x|
  {
    if x == [] then [] else [f(x[0])] + Ecb(f, x[1..])
  }

  ghost function Process(cbc: bool, decrypt: bool, f: Block -> Block, iv: Block, x: seq<Block>): (y: seq<Block>)
    ensures |y| == |x|
  {
    if !cbc then Ecb(f, x)
    else if decrypt then CbcDecrypt(f, iv, x)
    else CbcEncrypt(f, iv, x)
  }

  /** The initial vector after processing `x` into `y`. */
  ghost function IvAfter(cbc: bool, decrypt: bool, iv: Block, x: seq<Block>, y: seq<Block>): Block {
    if !cbc then iv else Chain(iv, if decrypt then x else y)
  }

  ghost function One(cbc: bool, decrypt: bool, f: Block -> Block, iv: Block, x: Block): Block {
    if !cbc then f(x)
    else if decrypt then XorBlock(f(x), iv)
    else f(XorBlock(x, iv))
  }

  lemma {:induction false} EcbAppend(f: Block -> Block, x: seq<Block>, z: Block)
    ensures Ecb(f, x + [z]) == Ecb(f, x) + [f(z)]
    decreases |x|
  {
    if x == [] {
      assert [] + [z] == [z] && [z][1..] == [];
    } else {
      assert (x + [z])[1..] == x[1..] + [z];
      EcbAppend(f, x[1..], z);
    }
  }

  lemma ProcessAppend(cbc: bool, decrypt: bool, f: Block -> Block, iv: Block, x: seq<Block>, z: Block)
    ensures
      var y := Process(cbc, decrypt, f, iv, x);
      Process(cbc, decrypt, f, iv, x + [z]) == y + [One(cbc, decrypt, f, IvAfter(cbc, decrypt, iv, x, y), z)]
  {
    if !cbc {
      EcbAppend(f, x, z);
    } else if decrypt {
      CbcDecryptSplit(f, iv, x, [z]);
      assert [z][1..] == [];
    } else {
      CbcEncryptSplit(f, iv, x, [z]);
      assert [z][1..] == [];
    }
  }

  lemma {:induction false} EcbUndone(f: Block -> Block, g: Block -> Block, x: seq<Block>)
    requires forall b :: g(f(b)) == b
    ensures Ecb(g, Ecb(f, x)) == x
    decreases |x|
  {
    if x != [] {
      EcbUndone(f, g, x[1..]);
      assert Ecb(f, x)[1..] == Ecb(f, x[1..]);
    }
  }

  /** The block function of a direction. */
  ghost function Crypting(decrypt: bool, rk: seq<Block>): Block -> Block
    requires |rk| >= 2
  {
    (b: Block) => Crypted(decrypt, rk, b)
  }

  /** In either mode, decrypting an encrypted message from the same initial vector returns it,
      and both directions leave the same initial vector. */
  lemma ProcessRoundTrip(cbc: bool, rk: seq<Block>, iv: Block, x: seq<Block>)
    requires |rk| >= 2
    ensures
      var y := Process(cbc, false, Crypting(false, rk), iv, x);
      && Process(cbc, true, Crypting(true, rk), iv, y) == x
      && IvAfter(cbc, true, iv, y, x) == IvAfter(cbc, false, iv, x, y)
  {
    var f, g := Crypting(false, rk), Crypting(true, rk);
    forall b ensures g(f(b)) == b {
      DecryptEncrypt(rk, b);
    }
    if cbc {
      CbcUndone(f, g, iv, x);
    } else {
      EcbUndone(f, g, x);
    }
  }

  ghost function BlockOf(s: seq<Byte>): Block
    requires |s| == 16
  {
    Block(Col(s[0], s[1], s[2], s[3]), Col(s[4], s[5], s[6], s[7]), Col(s[8], s[9], s[10], s[11]),
          Col(s[12], s[13], s[14], s[15]))
  }

  /** The first `n` blocks of `a`. */
  ghost function Message(a: array<Byte>, n: nat): (x: seq<Block>)
    requires 16 * n <= a.Length
    reads a
  {
    Blocks(a[..16 * n], n)
  }

  ghost function Blocks(s: seq<Byte>, n: nat): (x: seq<Block>)
    requires |s| == 16 * n
    ensures |x| == n
  {
    if n == 0 then [] else Blocks(s[..16 * (n - 1)], n - 1) + [BlockOf(s[16 * (n - 1)..])]
  }

  class AesUnit {
    var regs: Registers

    constructor ()
      ensures regs == seq(64, _ => 0)
    {
      regs := seq(64, _ => 0);
    }

    /** Runs `nblocks` blocks from `input` to `out`; chaining advances the initial vector. */
    method ProcessBuf(input: array<Byte>, out: array<Byte>, nblocks: nat)
      requires input != out && 16 * nblocks <= input.Length && 16 * nblocks <= out.Length
      requires KeyLength(regs[MODE]) <= 8
      modifies out, this
      ensures
        var cbc, decrypt, nk := old(regs)[BLOCK_MODE] & 0xf == 1, old(regs)[MODE] & 4 != 0, KeyLength(old(regs)[MODE]);
        Processed(cbc, decrypt, Crypting(decrypt, RoundKeys(KeyOf(old(regs)), nk)), IvOf(old(regs)),
                  Message(input, nblocks), Message(out, nblocks), IvOf(regs))
      ensures forall k :: 0 <= k < 64 && !(IV <= k < IV + 4) ==> regs[k] == old(regs)[k]
      ensures out[16 * nblocks..] == old(out[16 * nblocks..])
    {
      var mode := regs[MODE];
      var decrypt := mode & 4 != 0;
      var nk := KeyLength(mode);
      var cbc := regs[BLOCK_MODE] & 0xf == 1;
      ghost var rk, iv0 := RoundKeys(KeyOf(regs), nk), IvOf(regs);
      ghost var f := Crypting(decrypt, rk);
      assert CryptsAs(f, decrypt, rk);
      ProcessFrom(input, out, nblocks, decrypt, nk, cbc, rk, f);
      assert Processed(cbc, decrypt, f, iv0, Message(input, nblocks), Message(out, nblocks), IvOf(regs));
    }

    method ProcessFrom(input: array<Byte>, out: array<Byte>, nblocks: nat, decrypt: bool, nk: nat, cbc: bool,
                       ghost rk: seq<Block>, ghost f: Block -> Block)
      requires input != out && 16 * nblocks <= input.Length && 16 * nblocks <= out.Length
      requires nk == KeyLength(regs[MODE]) <= 8 && rk == RoundKeys(KeyOf(regs), nk) && Crypts(f, decrypt, rk)
      modifies out, this
      ensures Processing(cbc, decrypt, f, old(IvOf(regs)), Message(input, nblocks), Message(out, nblocks), IvOf(regs))
      ensures forall k :: 0 <= k < 64 && !(IV <= k < IV + 4) ==> regs[k] == old(regs)[k]
      ensures out[16 * nblocks..] == old(out[16 * nblocks..])
    {
      var key := ReadKey(nk);
      var iv := ReadIv();
      ghost var iv0 := IvOf(regs);
      ProcessBlocks(input, out, nblocks, cbc, decrypt, key, nk, iv, rk, f, iv0);
      if cbc {
        WriteIv(iv);
      } else {
        IvKept(decrypt, f, iv0, Message(input, nblocks), Message(out, nblocks), At(iv, 0));
      }
    }

    method ReadKey(nk: nat) returns (key: array<Byte>)
      requires nk == KeyLength(regs[MODE]) <= 8
      ensures fresh(key) && key.Length == 32 && RoundKeys(key[..], nk) == RoundKeys(KeyOf(regs), nk)
    {
      key := new Byte[32];
      for i := 0 to 4 * nk
        invariant forall j :: 0 <= j < i ==> key[j] == RegByte(regs[j / 4], j % 4)
      {
        key[i] := RegByte(regs[i / 4], i % 4);
      }
      RoundKeysOfPrefix(KeyOf(regs), key[..], nk);
    }

    method ReadIv() returns (iv: array<Byte>)
      ensures fresh(iv) && iv.Length == 16 && At(iv, 0) == IvOf(regs)
    {
      iv := new Byte[16];
      for i := 0 to 16
        invariant forall j :: 0 <= j < i ==> iv[j] == RegByte(regs[IV + j / 4], j % 4)
      {
        iv[i] := RegByte(regs[IV + i / 4], i % 4);
      }
    }

    method WriteIv(iv: array<Byte>)
      requires iv.Length == 16
      modifies this
      ensures IvOf(regs) == At(iv, 0)
      ensures forall k :: 0 <= k < 64 && !(IV <= k < IV + 4) ==> regs[k] == old(regs)[k]
    {
      for i := 0 to 16
        invariant forall j :: 0 <= j < i ==> RegByte(regs[IV + j / 4], j % 4) == iv[j]
        invariant forall k :: 0 <= k < 64 && !(IV <= k < IV + 4) ==> regs[k] == old(regs)[k]
      {
        SetThenGet(regs[IV + i / 4], i % 4, iv[i], 0);
        SetThenGet(regs[IV + i / 4], i % 4, iv[i], 1);
        SetThenGet(regs[IV + i / 4], i % 4, iv[i], 2);
        SetThenGet(regs[IV + i / 4], i % 4, iv[i], 3);
        regs := regs[IV + i / 4 := SetRegByte(regs[IV + i / 4], i % 4, iv[i])];
      }
    }
  }

  /** `dst` is the sum of the sixteen bytes of `a` at `i` and of `iv`. */
  method AddBlock(dst: array<Byte>, a: array<Byte>, i: nat, iv: array<Byte>)
    requires dst.Length == 16 && iv.Length == 16 && i + 16 <= a.Length && dst !in {a, iv}
    modifies dst
    ensures At(dst, 0) == XorBlock(At(a, i), At(iv, 0))
  {
    for k := 0 to 16
      invariant forall j :: 0 <= j < k ==> dst[j] == Xor(a[i + j], iv[j])
    {
      dst[k] := Xor(a[i + k], iv[k]);
    }
  }

  /** Adds `iv` to the sixteen bytes of `out` at `o`, and replaces it by those of `input`. */
  method Unchain(input: array<Byte>, out: array<Byte>, o: nat, iv: array<Byte>)
    requires input != out && iv !in {input, out} && iv.Length == 16 && o + 16 <= input.Length && o + 16 <= out.Length
    modifies out, iv
    ensures At(out, o) == XorBlock(old(At(out, o)), old(At(iv, 0))) && At(iv, 0) == At(input, o)
    ensures out[..o] == old(out[..o]) && out[o + 16..] == old(out[o + 16..])
  {
    for i := 0 to 16
      invariant forall k :: o <= k < o + i ==> out[k] == Xor(old(out[k]), old(iv[k - o]))
      invariant forall k :: 0 <= k < out.Length && !(o <= k < o + i) ==> out[k] == old(out[k])
      invariant forall j :: 0 <= j < i ==> iv[j] == input[o + j]
      invariant forall j :: i <= j < 16 ==> iv[j] == old(iv[j])
    {
      out[o + i] := Xor(out[o + i], iv[i]);
      iv[i] := input[o + i];
    }
  }

  method CbcEncryptOne(input: array<Byte>, out: array<Byte>, o: nat, key: array<Byte>, nk: nat, iv: array<Byte>)
    requires input != out && key != out && iv !in {input, out, key} && iv.Length == 16
    requires o + 16 <= input.Length && o + 16 <= out.Length && KeyWords(nk) && key.Length >= 4 * nk
    modifies out, iv
    ensures At(out, o) == At(iv, 0) == Cipher(RoundKeys(key[..], nk), XorBlock(At(input, o), old(At(iv, 0))))
    ensures out[..o] == old(out[..o]) && out[o + 16..] == old(out[o + 16..])
  {
    var x := new Byte[16];
    AddBlock(x, input, o, iv);
    AesBlock(x, 0, key, nk, false, out, o);
    Copy(iv, 0, out, o);
  }

  method CbcDecryptOne(input: array<Byte>, out: array<Byte>, o: nat, key: array<Byte>, nk: nat, iv: array<Byte>)
    requires input != out && key != out && iv !in {input, out, key} && iv.Length == 16
    requires o + 16 <= input.Length && o + 16 <= out.Length && KeyWords(nk) && key.Length >= 4 * nk
    modifies out, iv
    ensures At(out, o) == XorBlock(InvCipher(RoundKeys(key[..], nk), At(input, o)), old(At(iv, 0)))
    ensures At(iv, 0) == At(input, o)
    ensures out[..o] == old(out[..o]) && out[o + 16..] == old(out[o + 16..])
  {
    AesBlock(input, o, key, nk, true, out, o);
    Unchain(input, out, o, iv);
  }

  /** `f` is the block function of that direction; with a detour over `u`. */
  ghost predicate Crypts(f: Block -> Block, decrypt: bool, rk: seq<Block>) {
    forall u :: u == decrypt ==> CryptsAs(f, u, rk)
  }

  ghost predicate CryptsAs(f: Block -> Block, decrypt: bool, rk: seq<Block>) {
    |rk| >= 2 && forall b :: f(b) == Crypted(decrypt, rk, b)
  }

  /** The block at offset `o`. */
  method ProcessOne(input: array<Byte>, out: array<Byte>, o: nat, cbc: bool, decrypt: bool,
                    key: array<Byte>, nk: nat, iv: array<Byte>, ghost rk: seq<Block>, ghost f: Block -> Block)
    requires input != out && key != out && iv !in {input, out, key} && iv.Length == 16
    requires o + 16 <= input.Length && o + 16 <= out.Length
    requires KeyWords(nk) && key.Length >= 4 * nk && rk == RoundKeys(key[..], nk) && Crypts(f, decrypt, rk)
    modifies out, iv
    ensures At(out, o) == One(cbc, decrypt, f, old(At(iv, 0)), At(input, o))
    ensures At(iv, 0) == if !cbc then old(At(iv, 0)) else if decrypt then At(input, o) else At(out, o)
    ensures out[..o] == old(out[..o]) && out[o + 16..] == old(out[o + 16..])
  {
    assert CryptsAs(f, decrypt, rk);
    if cbc {
      if !decrypt {
        CbcEncryptOne(input, out, o, key, nk, iv);
      } else {
        CbcDecryptOne(input, out, o, key, nk, iv);
      }
    } else {
      AesBlock(input, o, key, nk, decrypt, out, o);
    }
  }

  /** What has been done when blocks `x` became `y` and the initial vector `v`. */
  ghost predicate Processed(cbc: bool, decrypt: bool, f: Block -> Block, iv: Block, x: seq<Block>, y: seq<Block>,
                            v: Block) {
    y == Process(cbc, decrypt, f, iv, x) && v == IvAfter(cbc, decrypt, iv, x, y)
  }

  lemma ProcessedNext(cbc: bool, decrypt: bool, f: Block -> Block, iv: Block, x: seq<Block>, y: seq<Block>, v: Block,
                      z: Block)
    requires Processed(cbc, decrypt, f, iv, x, y, v)
    ensures
      var w := One(cbc, decrypt, f, v, z);
      Processed(cbc, decrypt, f, iv, x + [z], y + [w], if !cbc then v else if decrypt then z else w)
  {
    ProcessAppend(cbc, decrypt, f, iv, x, z);
  }

  /** The same, with a detour over `u` that keeps the recursive function out of the proofs that
      only pass the fact on. */
  ghost predicate Processing(cbc: bool, decrypt: bool, f: Block -> Block, iv: Block, x: seq<Block>, y: seq<Block>,
                             v: Block) {
    forall u :: u == x ==> Processed(cbc, decrypt, f, iv, u, y, v)
  }

  lemma ProcessingStarts(cbc: bool, decrypt: bool, f: Block -> Block, iv: Block)
    ensures Processing(cbc, decrypt, f, iv, [], [], iv)
  {
  }

  lemma ProcessingNext(cbc: bool, decrypt: bool, f: Block -> Block, iv: Block, x: seq<Block>, y: seq<Block>, v: Block,
                       z: Block)
    requires Processing(cbc, decrypt, f, iv, x, y, v)
    ensures
      var w := One(cbc, decrypt, f, v, z);
      Processing(cbc, decrypt, f, iv, x + [z], y + [w], if !cbc then v else if decrypt then z else w)
  {
    assert Processed(cbc, decrypt, f, iv, x, y, v);
    ProcessedNext(cbc, decrypt, f, iv, x, y, v, z);
  }

  /** Without chaining the initial vector stays. */
  lemma IvKept(decrypt: bool, f: Block -> Block, iv: Block, x: seq<Block>, y: seq<Block>, v: Block)
    requires Processing(false, decrypt, f, iv, x, y, v)
    ensures v == iv
  {
    assert Processed(false, decrypt, f, iv, x, y, v);
  }

  lemma MessageExtends(a: array<Byte>, b: nat)
    requires 16 * b + 16 <= a.Length
    ensures Message(a, b + 1) == Message(a, b) + [At(a, 16 * b)]
  {
    assert a[..16 * b + 16][..16 * b] == a[..16 * b];
  }

  method ProcessNext(input: array<Byte>, out: array<Byte>, b: nat, cbc: bool, decrypt: bool, key: array<Byte>, nk: nat,
                     iv: array<Byte>, ghost rk: seq<Block>, ghost f: Block -> Block) returns (ghost w: Block)
    requires input != out && key != out && iv !in {input, out, key} && iv.Length == 16
    requires 16 * b + 16 <= input.Length && 16 * b + 16 <= out.Length
    requires KeyWords(nk) && key.Length >= 4 * nk && rk == RoundKeys(key[..], nk) && Crypts(f, decrypt, rk)
    modifies out, iv
    ensures w == One(cbc, decrypt, f, old(At(iv, 0)), At(input, 16 * b))
    ensures Message(input, b + 1) == Message(input, b) + [At(input, 16 * b)]
    ensures Message(out, b + 1) == old(Message(out, b)) + [w]
    ensures At(iv, 0) == if !cbc then old(At(iv, 0)) else if decrypt then At(input, 16 * b) else w
    ensures out[16 * b + 16..] == old(out[16 * b + 16..])
  {
    w := One(cbc, decrypt, f, At(iv, 0), At(input, 16 * b));
    ProcessOne(input, out, 16 * b, cbc, decrypt, key, nk, iv, rk, f);
    MessageExtends(input, b);
    MessageExtends(out, b);
  }

  /** Turn `b` of the loop. */
  method ProcessTurn(input: array<Byte>, out: array<Byte>, b: nat, cbc: bool, decrypt: bool, key: array<Byte>, nk: nat,
                     iv: array<Byte>, ghost rk: seq<Block>, ghost f: Block -> Block, ghost iv0: Block)
    requires input != out && key != out && iv !in {input, out, key} && iv.Length == 16
    requires 16 * b + 16 <= input.Length && 16 * b + 16 <= out.Length
    requires KeyWords(nk) && key.Length >= 4 * nk && rk == RoundKeys(key[..], nk) && Crypts(f, decrypt, rk)
    requires Processing(cbc, decrypt, f, iv0, Message(input, b), Message(out, b), At(iv, 0))
    modifies out, iv
    ensures Processing(cbc, decrypt, f, iv0, Message(input, b + 1), Message(out, b + 1), At(iv, 0))
    ensures out[16 * b + 16..] == old(out[16 * b + 16..])
  {
    ghost var x, y, v, z := Message(input, b), Message(out, b), At(iv, 0), At(input, 16 * b);
    ghost var w := ProcessNext(input, out, b, cbc, decrypt, key, nk, iv, rk, f);
    ProcessingNext(cbc, decrypt, f, iv0, x, y, v, z);
  }

  method ProcessBlocks(input: array<Byte>, out: array<Byte>, nblocks: nat, cbc: bool, decrypt: bool, key: array<Byte>,
                       nk: nat, iv: array<Byte>, ghost rk: seq<Block>, ghost f: Block -> Block, ghost iv0: Block)
    requires input != out && key != out && iv !in {input, out, key} && iv.Length == 16
    requires 16 * nblocks <= input.Length && 16 * nblocks <= out.Length
    requires KeyWords(nk) && key.Length >= 4 * nk && rk == RoundKeys(key[..], nk) && Crypts(f, decrypt, rk)
      && iv0 == At(iv, 0)
    modifies out, iv
    ensures Processing(cbc, decrypt, f, iv0, Message(input, nblocks), Message(out, nblocks), At(iv, 0))
    ensures out[16 * nblocks..] == old(out[16 * nblocks..])
  {
    ProcessingStarts(cbc, decrypt, f, iv0);
    for b := 0 to nblocks
      invariant rk == RoundKeys(key[..], nk)
      invariant Processing(cbc, decrypt, f, iv0, Message(input, b), Message(out, b), At(iv, 0))
      invariant out[16 * b..] == old(out[16 * b..])
    {
      ProcessTurn(input, out, b, cbc, decrypt, key, nk, iv, rk, f, iv0);
    }
  }
}
