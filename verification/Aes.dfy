/** The AES block cipher of FIPS-197 on values, and its two laws: decryption undoes encryption
    and encryption undoes decryption, for every key schedule.  Modules AesC3 and AesC6 prove
    the byte-wise engine of src/esp32c3.c and the word-wise one of src/esp32c6.c against it. */
module Aes {

  datatype Byte = Byte(v: bv8)

  /** A column of the state, and a word of the key schedule: rows 0 to 3. */
  datatype Col = Col(a: Byte, b: Byte, c: Byte, d: Byte)

  datatype Block = Block(c0: Col, c1: Col, c2: Col, c3: Col)

  const O: Byte := Byte(0)

  // ----- arithmetic in GF(2^8)

  function Xor(x: Byte, y: Byte): Byte {
    Byte(x.v ^ y.v)
  }

  function Sum(p: Byte, q: Byte, r: Byte, s: Byte): Byte {
    Xor(Xor(Xor(p, q), r), s)
  }

  /** Multiplication by x: the bit that is shifted out comes back as x^4 + x^3 + x + 1. */
  function XTime(a: Byte): Byte {
    var hi := a.v >> 7;
    Byte((a.v << 1) ^ hi ^ (hi << 1) ^ (hi << 3) ^ (hi << 4))
  }

  lemma XTimeBranches(a: Byte)
    ensures XTime(a).v == if a.v & 0x80 != 0 then (a.v << 1) ^ 0x1b else a.v << 1
  {
  }

  lemma XTimeXor(x: Byte, y: Byte)
    ensures XTime(Xor(x, y)) == Xor(XTime(x), XTime(y))
  {
  }

  function Half(b: Byte): Byte {
    Byte(b.v >> 1)
  }

  predicate Odd(b: Byte) {
    b.v & 1 != 0
  }

  /** The product of `a` and the low `n` bits of `b`. */
  function Product(a: Byte, b: Byte, n: nat): Byte
    decreases n
  {
    if n == 0 then O else Xor(if Odd(b) then a else O, Product(XTime(a), Half(b), n - 1))
  }

  function Triple(a: Byte): Byte {
    Xor(XTime(a), a)
  }

  function Mul9(a: Byte): Byte {
    Xor(XTime(XTime(XTime(a))), a)
  }

  function Mul11(a: Byte): Byte {
    Xor(Xor(XTime(XTime(XTime(a))), XTime(a)), a)
  }

  function Mul13(a: Byte): Byte {
    Xor(Xor(XTime(XTime(XTime(a))), XTime(XTime(a))), a)
  }

  function Mul14(a: Byte): Byte {
    Xor(Xor(XTime(XTime(XTime(a))), XTime(XTime(a))), XTime(a))
  }

  // ----- the tables, which are the same in both files

  function SboxOf(x: bv8): bv8 {
    match x >> 4
    case 0 => (match x & 0xf
      case 0 => 0x63 case 1 => 0x7c case 2 => 0x77 case 3 => 0x7b
      case 4 => 0xf2 case 5 => 0x6b case 6 => 0x6f case 7 => 0xc5
      case 8 => 0x30 case 9 => 0x01 case 10 => 0x67 case 11 => 0x2b
      case 12 => 0xfe case 13 => 0xd7 case 14 => 0xab case 15 => 0x76)
    case 1 => (match x & 0xf
      case 0 => 0xca case 1 => 0x82 case 2 => 0xc9 case 3 => 0x7d
      case 4 => 0xfa case 5 => 0x59 case 6 => 0x47 case 7 => 0xf0
      case 8 => 0xad case 9 => 0xd4 case 10 => 0xa2 case 11 => 0xaf
      case 12 => 0x9c case 13 => 0xa4 case 14 => 0x72 case 15 => 0xc0)
    case 2 => (match x & 0xf
      case 0 => 0xb7 case 1 => 0xfd case 2 => 0x93 case 3 => 0x26
      case 4 => 0x36 case 5 => 0x3f case 6 => 0xf7 case 7 => 0xcc
      case 8 => 0x34 case 9 => 0xa5 case 10 => 0xe5 case 11 => 0xf1
      case 12 => 0x71 case 13 => 0xd8 case 14 => 0x31 case 15 => 0x15)
    case 3 => (match x & 0xf
      case 0 => 0x04 case 1 => 0xc7 case 2 => 0x23 case 3 => 0xc3
      case 4 => 0x18 case 5 => 0x96 case 6 => 0x05 case 7 => 0x9a
      case 8 => 0x07 case 9 => 0x12 case 10 => 0x80 case 11 => 0xe2
      case 12 => 0xeb case 13 => 0x27 case 14 => 0xb2 case 15 => 0x75)
    case 4 => (match x & 0xf
      case 0 => 0x09 case 1 => 0x83 case 2 => 0x2c case 3 => 0x1a
      case 4 => 0x1b case 5 => 0x6e case 6 => 0x5a case 7 => 0xa0
      case 8 => 0x52 case 9 => 0x3b case 10 => 0xd6 case 11 => 0xb3
      case 12 => 0x29 case 13 => 0xe3 case 14 => 0x2f case 15 => 0x84)
    case 5 => (match x & 0xf
      case 0 => 0x53 case 1 => 0xd1 case 2 => 0x00 case 3 => 0xed
      case 4 => 0x20 case 5 => 0xfc case 6 => 0xb1 case 7 => 0x5b
      case 8 => 0x6a case 9 => 0xcb case 10 => 0xbe case 11 => 0x39
      case 12 => 0x4a case 13 => 0x4c case 14 => 0x58 case 15 => 0xcf)
    case 6 => (match x & 0xf
      case 0 => 0xd0 case 1 => 0xef case 2 => 0xaa case 3 => 0xfb
      case 4 => 0x43 case 5 => 0x4d case 6 => 0x33 case 7 => 0x85
      case 8 => 0x45 case 9 => 0xf9 case 10 => 0x02 case 11 => 0x7f
      case 12 => 0x50 case 13 => 0x3c case 14 => 0x9f case 15 => 0xa8)
    case 7 => (match x & 0xf
      case 0 => 0x51 case 1 => 0xa3 case 2 => 0x40 case 3 => 0x8f
      case 4 => 0x92 case 5 => 0x9d case 6 => 0x38 case 7 => 0xf5
      case 8 => 0xbc case 9 => 0xb6 case 10 => 0xda case 11 => 0x21
      case 12 => 0x10 case 13 => 0xff case 14 => 0xf3 case 15 => 0xd2)
    case 8 => (match x & 0xf
      case 0 => 0xcd case 1 => 0x0c case 2 => 0x13 case 3 => 0xec
      case 4 => 0x5f case 5 => 0x97 case 6 => 0x44 case 7 => 0x17
      case 8 => 0xc4 case 9 => 0xa7 case 10 => 0x7e case 11 => 0x3d
      case 12 => 0x64 case 13 => 0x5d case 14 => 0x19 case 15 => 0x73)
    case 9 => (match x & 0xf
      case 0 => 0x60 case 1 => 0x81 case 2 => 0x4f case 3 => 0xdc
      case 4 => 0x22 case 5 => 0x2a case 6 => 0x90 case 7 => 0x88
      case 8 => 0x46 case 9 => 0xee case 10 => 0xb8 case 11 => 0x14
      case 12 => 0xde case 13 => 0x5e case 14 => 0x0b case 15 => 0xdb)
    case 10 => (match x & 0xf
      case 0 => 0xe0 case 1 => 0x32 case 2 => 0x3a case 3 => 0x0a
      case 4 => 0x49 case 5 => 0x06 case 6 => 0x24 case 7 => 0x5c
      case 8 => 0xc2 case 9 => 0xd3 case 10 => 0xac case 11 => 0x62
      case 12 => 0x91 case 13 => 0x95 case 14 => 0xe4 case 15 => 0x79)
    case 11 => (match x & 0xf
      case 0 => 0xe7 case 1 => 0xc8 case 2 => 0x37 case 3 => 0x6d
      case 4 => 0x8d case 5 => 0xd5 case 6 => 0x4e case 7 => 0xa9
      case 8 => 0x6c case 9 => 0x56 case 10 => 0xf4 case 11 => 0xea
      case 12 => 0x65 case 13 => 0x7a case 14 => 0xae case 15 => 0x08)
    case 12 => (match x & 0xf
      case 0 => 0xba case 1 => 0x78 case 2 => 0x25 case 3 => 0x2e
      case 4 => 0x1c case 5 => 0xa6 case 6 => 0xb4 case 7 => 0xc6
      case 8 => 0xe8 case 9 => 0xdd case 10 => 0x74 case 11 => 0x1f
      case 12 => 0x4b case 13 => 0xbd case 14 => 0x8b case 15 => 0x8a)
    case 13 => (match x & 0xf
      case 0 => 0x70 case 1 => 0x3e case 2 => 0xb5 case 3 => 0x66
      case 4 => 0x48 case 5 => 0x03 case 6 => 0xf6 case 7 => 0x0e
      case 8 => 0x61 case 9 => 0x35 case 10 => 0x57 case 11 => 0xb9
      case 12 => 0x86 case 13 => 0xc1 case 14 => 0x1d case 15 => 0x9e)
    case 14 => (match x & 0xf
      case 0 => 0xe1 case 1 => 0xf8 case 2 => 0x98 case 3 => 0x11
      case 4 => 0x69 case 5 => 0xd9 case 6 => 0x8e case 7 => 0x94
      case 8 => 0x9b case 9 => 0x1e case 10 => 0x87 case 11 => 0xe9
      case 12 => 0xce case 13 => 0x55 case 14 => 0x28 case 15 => 0xdf)
    case 15 => (match x & 0xf
      case 0 => 0x8c case 1 => 0xa1 case 2 => 0x89 case 3 => 0x0d
      case 4 => 0xbf case 5 => 0xe6 case 6 => 0x42 case 7 => 0x68
      case 8 => 0x41 case 9 => 0x99 case 10 => 0x2d case 11 => 0x0f
      case 12 => 0xb0 case 13 => 0x54 case 14 => 0xbb case 15 => 0x16)
  }

  function InvSboxOf(x: bv8): bv8 {
    match x >> 4
    case 0 => (match x & 0xf
      case 0 => 0x52 case 1 => 0x09 case 2 => 0x6a case 3 => 0xd5
      case 4 => 0x30 case 5 => 0x36 case 6 => 0xa5 case 7 => 0x38
      case 8 => 0xbf case 9 => 0x40 case 10 => 0xa3 case 11 => 0x9e
      case 12 => 0x81 case 13 => 0xf3 case 14 => 0xd7 case 15 => 0xfb)
    case 1 => (match x & 0xf
      case 0 => 0x7c case 1 => 0xe3 case 2 => 0x39 case 3 => 0x82
      case 4 => 0x9b case 5 => 0x2f case 6 => 0xff case 7 => 0x87
      case 8 => 0x34 case 9 => 0x8e case 10 => 0x43 case 11 => 0x44
      case 12 => 0xc4 case 13 => 0xde case 14 => 0xe9 case 15 => 0xcb)
    case 2 => (match x & 0xf
      case 0 => 0x54 case 1 => 0x7b case 2 => 0x94 case 3 => 0x32
      case 4 => 0xa6 case 5 => 0xc2 case 6 => 0x23 case 7 => 0x3d
      case 8 => 0xee case 9 => 0x4c case 10 => 0x95 case 11 => 0x0b
      case 12 => 0x42 case 13 => 0xfa case 14 => 0xc3 case 15 => 0x4e)
    case 3 => (match x & 0xf
      case 0 => 0x08 case 1 => 0x2e case 2 => 0xa1 case 3 => 0x66
      case 4 => 0x28 case 5 => 0xd9 case 6 => 0x24 case 7 => 0xb2
      case 8 => 0x76 case 9 => 0x5b case 10 => 0xa2 case 11 => 0x49
      case 12 => 0x6d case 13 => 0x8b case 14 => 0xd1 case 15 => 0x25)
    case 4 => (match x & 0xf
      case 0 => 0x72 case 1 => 0xf8 case 2 => 0xf6 case 3 => 0x64
      case 4 => 0x86 case 5 => 0x68 case 6 => 0x98 case 7 => 0x16
      case 8 => 0xd4 case 9 => 0xa4 case 10 => 0x5c case 11 => 0xcc
      case 12 => 0x5d case 13 => 0x65 case 14 => 0xb6 case 15 => 0x92)
    case 5 => (match x & 0xf
      case 0 => 0x6c case 1 => 0x70 case 2 => 0x48 case 3 => 0x50
      case 4 => 0xfd case 5 => 0xed case 6 => 0xb9 case 7 => 0xda
      case 8 => 0x5e case 9 => 0x15 case 10 => 0x46 case 11 => 0x57
      case 12 => 0xa7 case 13 => 0x8d case 14 => 0x9d case 15 => 0x84)
    case 6 => (match x & 0xf
      case 0 => 0x90 case 1 => 0xd8 case 2 => 0xab case 3 => 0x00
      case 4 => 0x8c case 5 => 0xbc case 6 => 0xd3 case 7 => 0x0a
      case 8 => 0xf7 case 9 => 0xe4 case 10 => 0x58 case 11 => 0x05
      case 12 => 0xb8 case 13 => 0xb3 case 14 => 0x45 case 15 => 0x06)
    case 7 => (match x & 0xf
      case 0 => 0xd0 case 1 => 0x2c case 2 => 0x1e case 3 => 0x8f
      case 4 => 0xca case 5 => 0x3f case 6 => 0x0f case 7 => 0x02
      case 8 => 0xc1 case 9 => 0xaf case 10 => 0xbd case 11 => 0x03
      case 12 => 0x01 case 13 => 0x13 case 14 => 0x8a case 15 => 0x6b)
    case 8 => (match x & 0xf
      case 0 => 0x3a case 1 => 0x91 case 2 => 0x11 case 3 => 0x41
      case 4 => 0x4f case 5 => 0x67 case 6 => 0xdc case 7 => 0xea
      case 8 => 0x97 case 9 => 0xf2 case 10 => 0xcf case 11 => 0xce
      case 12 => 0xf0 case 13 => 0xb4 case 14 => 0xe6 case 15 => 0x73)
    case 9 => (match x & 0xf
      case 0 => 0x96 case 1 => 0xac case 2 => 0x74 case 3 => 0x22
      case 4 => 0xe7 case 5 => 0xad case 6 => 0x35 case 7 => 0x85
      case 8 => 0xe2 case 9 => 0xf9 case 10 => 0x37 case 11 => 0xe8
      case 12 => 0x1c case 13 => 0x75 case 14 => 0xdf case 15 => 0x6e)
    case 10 => (match x & 0xf
      case 0 => 0x47 case 1 => 0xf1 case 2 => 0x1a case 3 => 0x71
      case 4 => 0x1d case 5 => 0x29 case 6 => 0xc5 case 7 => 0x89
      case 8 => 0x6f case 9 => 0xb7 case 10 => 0x62 case 11 => 0x0e
      case 12 => 0xaa case 13 => 0x18 case 14 => 0xbe case 15 => 0x1b)
    case 11 => (match x & 0xf
      case 0 => 0xfc case 1 => 0x56 case 2 => 0x3e case 3 => 0x4b
      case 4 => 0xc6 case 5 => 0xd2 case 6 => 0x79 case 7 => 0x20
      case 8 => 0x9a case 9 => 0xdb case 10 => 0xc0 case 11 => 0xfe
      case 12 => 0x78 case 13 => 0xcd case 14 => 0x5a case 15 => 0xf4)
    case 12 => (match x & 0xf
      case 0 => 0x1f case 1 => 0xdd case 2 => 0xa8 case 3 => 0x33
      case 4 => 0x88 case 5 => 0x07 case 6 => 0xc7 case 7 => 0x31
      case 8 => 0xb1 case 9 => 0x12 case 10 => 0x10 case 11 => 0x59
      case 12 => 0x27 case 13 => 0x80 case 14 => 0xec case 15 => 0x5f)
    case 13 => (match x & 0xf
      case 0 => 0x60 case 1 => 0x51 case 2 => 0x7f case 3 => 0xa9
      case 4 => 0x19 case 5 => 0xb5 case 6 => 0x4a case 7 => 0x0d
      case 8 => 0x2d case 9 => 0xe5 case 10 => 0x7a case 11 => 0x9f
      case 12 => 0x93 case 13 => 0xc9 case 14 => 0x9c case 15 => 0xef)
    case 14 => (match x & 0xf
      case 0 => 0xa0 case 1 => 0xe0 case 2 => 0x3b case 3 => 0x4d
      case 4 => 0xae case 5 => 0x2a case 6 => 0xf5 case 7 => 0xb0
      case 8 => 0xc8 case 9 => 0xeb case 10 => 0xbb case 11 => 0x3c
      case 12 => 0x83 case 13 => 0x53 case 14 => 0x99 case 15 => 0x61)
    case 15 => (match x & 0xf
      case 0 => 0x17 case 1 => 0x2b case 2 => 0x04 case 3 => 0x7e
      case 4 => 0xba case 5 => 0x77 case 6 => 0xd6 case 7 => 0x26
      case 8 => 0xe1 case 9 => 0x69 case 10 => 0x14 case 11 => 0x63
      case 12 => 0x55 case 13 => 0x21 case 14 => 0x0c case 15 => 0x7d)
  }

  lemma InvSboxSboxOf(x: bv8)
    ensures InvSboxOf(SboxOf(x)) == x
  {
  }

  lemma SboxInvSboxOf(x: bv8)
    ensures SboxOf(InvSboxOf(x)) == x
  {
  }

  /** The source's lookups. */
  function SboxByte(x: Byte): Byte {
    Byte(SboxOf(x.v))
  }

  function InvSboxByte(x: Byte): Byte {
    Byte(InvSboxOf(x.v))
  }

  /** The substitution as the definitions below use it: what `SboxByte` returns, without the table
      that says what that is.  `SboxIs` takes a detour over `u`, so that only `SboxLookup` and
      `SboxInverse` look into the tables. */
  ghost function Sbox(x: Byte): Byte {
    assert SboxIs(x, SboxByte(x));
    var y :| SboxIs(x, y);
    y
  }

  ghost function InvSbox(x: Byte): Byte {
    assert InvSboxIs(x, InvSboxByte(x));
    var y :| InvSboxIs(x, y);
    y
  }

  ghost predicate SboxIs(x: Byte, y: Byte) {
    forall u :: u == x ==> SboxIsAt(u, y)
  }

  ghost predicate SboxIsAt(x: Byte, y: Byte) {
    y == SboxByte(x)
  }

  ghost predicate InvSboxIs(x: Byte, y: Byte) {
    forall u :: u == x ==> InvSboxIsAt(u, y)
  }

  ghost predicate InvSboxIsAt(x: Byte, y: Byte) {
    y == InvSboxByte(x)
  }

  lemma SboxLookup(x: Byte)
    ensures SboxByte(x) == Sbox(x) && InvSboxByte(x) == InvSbox(x)
  {
    assert SboxIsAt(x, Sbox(x)) && InvSboxIsAt(x, InvSbox(x));
  }

  /** The two tables are inverse permutations. */
  lemma SboxInverse(x: Byte)
    ensures InvSbox(Sbox(x)) == x && Sbox(InvSbox(x)) == x
  {
    SboxLookup(x);
    SboxLookup(SboxByte(x));
    SboxLookup(InvSboxByte(x));
    InvSboxSboxOf(x.v);
    SboxInvSboxOf(x.v);
  }

  // ----- the steps of a round

  ghost function XorCol(s: Col, t: Col): Col {
    Col(Xor(s.a, t.a), Xor(s.b, t.b), Xor(s.c, t.c), Xor(s.d, t.d))
  }

  ghost function XorBlock(s: Block, t: Block): Block {
    Block(XorCol(s.c0, t.c0), XorCol(s.c1, t.c1), XorCol(s.c2, t.c2), XorCol(s.c3, t.c3))
  }

  ghost function SubCol(s: Col): Col {
    Col(Sbox(s.a), Sbox(s.b), Sbox(s.c), Sbox(s.d))
  }

  ghost function InvSubCol(s: Col): Col {
    Col(InvSbox(s.a), InvSbox(s.b), InvSbox(s.c), InvSbox(s.d))
  }

  ghost function Sub(s: Block): Block {
    Block(SubCol(s.c0), SubCol(s.c1), SubCol(s.c2), SubCol(s.c3))
  }

  ghost function InvSub(s: Block): Block {
    Block(InvSubCol(s.c0), InvSubCol(s.c1), InvSubCol(s.c2), InvSubCol(s.c3))
  }

  /** Row r moves left by r columns. */
  ghost function Shift(s: Block): Block {
    Block(Col(s.c0.a, s.c1.b, s.c2.c, s.c3.d), Col(s.c1.a, s.c2.b, s.c3.c, s.c0.d),
          Col(s.c2.a, s.c3.b, s.c0.c, s.c1.d), Col(s.c3.a, s.c0.b, s.c1.c, s.c2.d))
  }

  ghost function InvShift(s: Block): Block {
    Block(Col(s.c0.a, s.c3.b, s.c2.c, s.c1.d), Col(s.c1.a, s.c0.b, s.c3.c, s.c2.d),
          Col(s.c2.a, s.c1.b, s.c0.c, s.c3.d), Col(s.c3.a, s.c2.b, s.c1.c, s.c0.d))
  }

  ghost function MixCol(s: Col): Col {
    Col(Sum(XTime(s.a), Triple(s.b), s.c, s.d),
        Sum(s.a, XTime(s.b), Triple(s.c), s.d),
        Sum(s.a, s.b, XTime(s.c), Triple(s.d)),
        Sum(Triple(s.a), s.b, s.c, XTime(s.d)))
  }

  ghost function InvMixCol(s: Col): Col {
    Col(Sum(Mul14(s.a), Mul11(s.b), Mul13(s.c), Mul9(s.d)),
        Sum(Mul9(s.a), Mul14(s.b), Mul11(s.c), Mul13(s.d)),
        Sum(Mul13(s.a), Mul9(s.b), Mul14(s.c), Mul11(s.d)),
        Sum(Mul11(s.a), Mul13(s.b), Mul9(s.c), Mul14(s.d)))
  }

  ghost function Mix(s: Block): Block {
    Block(MixCol(s.c0), MixCol(s.c1), MixCol(s.c2), MixCol(s.c3))
  }

  ghost function InvMix(s: Block): Block {
    Block(InvMixCol(s.c0), InvMixCol(s.c1), InvMixCol(s.c2), InvMixCol(s.c3))
  }

  // ----- MixColumns and its inverse: both are additive, and undo each other on one byte

  lemma Exchange(p: Byte, q: Byte, r: Byte, s: Byte)
    ensures Xor(Xor(p, q), Xor(r, s)) == Xor(Xor(p, r), Xor(q, s))
  {
  }

  lemma ExchangeSum(p: Byte, q: Byte, r: Byte, s: Byte, p': Byte, q': Byte, r': Byte, s': Byte)
    ensures Sum(Xor(p, p'), Xor(q, q'), Xor(r, r'), Xor(s, s')) == Xor(Sum(p, q, r, s), Sum(p', q', r', s'))
  {
    Exchange(p, p', q, q');
    Exchange(Xor(p, q), Xor(p', q'), r, r');
    Exchange(Xor(Xor(p, q), r), Xor(Xor(p', q'), r'), s, s');
  }

  lemma TripleXor(x: Byte, y: Byte)
    ensures Triple(Xor(x, y)) == Xor(Triple(x), Triple(y))
  {
    XTimeXor(x, y);
    Exchange(XTime(x), XTime(y), x, y);
  }

  lemma MulXor(x: Byte, y: Byte)
    ensures Mul9(Xor(x, y)) == Xor(Mul9(x), Mul9(y)) && Mul11(Xor(x, y)) == Xor(Mul11(x), Mul11(y))
    ensures Mul13(Xor(x, y)) == Xor(Mul13(x), Mul13(y)) && Mul14(Xor(x, y)) == Xor(Mul14(x), Mul14(y))
  {
    var x1, y1 := XTime(x), XTime(y);
    var x2, y2 := XTime(x1), XTime(y1);
    var x3, y3 := XTime(x2), XTime(y2);
    XTimeXor(x, y);
    XTimeXor(x1, y1);
    XTimeXor(x2, y2);
    Exchange(x3, y3, x, y);
    Exchange(x3, y3, x1, y1);
    Exchange(Xor(x3, x1), Xor(y3, y1), x, y);
    Exchange(x3, y3, x2, y2);
    Exchange(Xor(x3, x2), Xor(y3, y2), x, y);
    Exchange(Xor(x3, x2), Xor(y3, y2), x1, y1);
  }

  lemma MixColXor(s: Col, t: Col)
    ensures MixCol(XorCol(s, t)) == XorCol(MixCol(s), MixCol(t))
  {
    XTimeXor(s.a, t.a); XTimeXor(s.b, t.b); XTimeXor(s.c, t.c); XTimeXor(s.d, t.d);
    TripleXor(s.a, t.a); TripleXor(s.b, t.b); TripleXor(s.c, t.c); TripleXor(s.d, t.d);
    ExchangeSum(XTime(s.a), Triple(s.b), s.c, s.d, XTime(t.a), Triple(t.b), t.c, t.d);
    ExchangeSum(s.a, XTime(s.b), Triple(s.c), s.d, t.a, XTime(t.b), Triple(t.c), t.d);
    ExchangeSum(s.a, s.b, XTime(s.c), Triple(s.d), t.a, t.b, XTime(t.c), Triple(t.d));
    ExchangeSum(Triple(s.a), s.b, s.c, XTime(s.d), Triple(t.a), t.b, t.c, XTime(t.d));
  }

  lemma InvMixColXor(s: Col, t: Col)
    ensures InvMixCol(XorCol(s, t)) == XorCol(InvMixCol(s), InvMixCol(t))
  {
    MulXor(s.a, t.a); MulXor(s.b, t.b); MulXor(s.c, t.c); MulXor(s.d, t.d);
    ExchangeSum(Mul14(s.a), Mul11(s.b), Mul13(s.c), Mul9(s.d), Mul14(t.a), Mul11(t.b), Mul13(t.c), Mul9(t.d));
    ExchangeSum(Mul9(s.a), Mul14(s.b), Mul11(s.c), Mul13(s.d), Mul9(t.a), Mul14(t.b), Mul11(t.c), Mul13(t.d));
    ExchangeSum(Mul13(s.a), Mul9(s.b), Mul14(s.c), Mul11(s.d), Mul13(t.a), Mul9(t.b), Mul14(t.c), Mul11(t.d));
    ExchangeSum(Mul11(s.a), Mul13(s.b), Mul9(s.c), Mul14(s.d), Mul11(t.a), Mul13(t.b), Mul9(t.c), Mul14(t.d));
  }

  /** Rows move down by one, and around. */
  function Turn(s: Col): Col {
    Col(s.d, s.a, s.b, s.c)
  }

  lemma SumTurn(p: Byte, q: Byte, r: Byte, s: Byte)
    ensures Sum(p, q, r, s) == Sum(q, r, s, p)
  {
  }

  lemma MixTurn(s: Col)
    ensures MixCol(Turn(s)) == Turn(MixCol(s))
  {
    SumTurn(XTime(s.d), Triple(s.a), s.b, s.c);
    SumTurn(s.d, XTime(s.a), Triple(s.b), s.c);
    SumTurn(s.d, s.a, XTime(s.b), Triple(s.c));
    SumTurn(Triple(s.d), s.a, s.b, XTime(s.c));
  }

  lemma InvMixTurn(s: Col)
    ensures InvMixCol(Turn(s)) == Turn(InvMixCol(s))
  {
    SumTurn(Mul14(s.d), Mul11(s.a), Mul13(s.b), Mul9(s.c));
    SumTurn(Mul9(s.d), Mul14(s.a), Mul11(s.b), Mul13(s.c));
    SumTurn(Mul13(s.d), Mul9(s.a), Mul14(s.b), Mul11(s.c));
    SumTurn(Mul11(s.d), Mul13(s.a), Mul9(s.b), Mul14(s.c));
  }

  lemma XorZero(p: Byte)
    ensures Xor(p, O) == p && Xor(O, p) == p
  {
  }

  lemma XTimeZero()
    ensures XTime(O) == O
  {
  }

  lemma MulZero()
    ensures Triple(O) == O && Mul9(O) == O && Mul11(O) == O && Mul13(O) == O && Mul14(O) == O
  {
    XTimeZero();
    XorZero(O);
  }

  lemma SumFirst(p: Byte)
    ensures Sum(p, O, O, O) == p
  {
    XorZero(p);
  }

  lemma MixFirst(x: Byte)
    ensures MixCol(Col(x, O, O, O)) == Col(XTime(x), x, x, Triple(x))
  {
    XTimeZero();
    MulZero();
    SumFirst(XTime(x));
    SumFirst(x);
    SumFirst(Triple(x));
  }

  lemma InvMixFirst(x: Byte)
    ensures InvMixCol(Col(x, O, O, O)) == Col(Mul14(x), Mul9(x), Mul13(x), Mul11(x))
  {
    MulZero();
    SumFirst(Mul14(x));
    SumFirst(Mul9(x));
    SumFirst(Mul13(x));
    SumFirst(Mul11(x));
  }

  lemma XorTwo(p: Byte, q: Byte)
    ensures Xor(p, q).v == p.v ^ q.v
  {
  }

  lemma XorThree(p: Byte, q: Byte, r: Byte)
    ensures Xor(Xor(p, q), r).v == (p.v ^ q.v) ^ r.v
  {
  }

  lemma SumBits(p: Byte, q: Byte, r: Byte, s: Byte, t: Byte)
    requires ((p.v ^ q.v) ^ r.v) ^ s.v == t.v
    ensures Sum(p, q, r, s) == t
  {
  }

  // The sums that come up when the two are composed, row by row, of products of `x` and of `x`
  // doubled, which are sums of what `x` becomes when it is doubled again and again.

  lemma RowBits0(p: bv8, q: bv8, r: bv8, s: bv8, x: bv8, x1: bv8, x2: bv8, x3: bv8, x4: bv8)
    requires p == (x4 ^ x3) ^ x2 && q == (x3 ^ x1) ^ x && r == (x3 ^ x2) ^ x
    requires s == (x4 ^ x1) ^ (x3 ^ x)
    ensures ((p ^ q) ^ r) ^ s == x
  {
  }

  lemma Row0(p: Byte, q: Byte, r: Byte, s: Byte, x: Byte, x1: Byte, x2: Byte, x3: Byte, x4: Byte)
    requires p.v == (x4.v ^ x3.v) ^ x2.v && q.v == (x3.v ^ x1.v) ^ x.v && r.v == (x3.v ^ x2.v) ^ x.v
    requires s.v == (x4.v ^ x1.v) ^ (x3.v ^ x.v)
    ensures Sum(p, q, r, s) == x
  {
    RowBits0(p.v, q.v, r.v, s.v, x.v, x1.v, x2.v, x3.v, x4.v);
    SumBits(p, q, r, s, x);
  }

  lemma RowBits1(p: bv8, q: bv8, r: bv8, s: bv8, x: bv8, x1: bv8, x2: bv8, x3: bv8, x4: bv8)
    requires p == x4 ^ x1 && q == (x3 ^ x2) ^ x1 && r == (x3 ^ x1) ^ x
    requires s == ((x4 ^ x3) ^ x1) ^ ((x3 ^ x2) ^ x)
    ensures ((p ^ q) ^ r) ^ s == 0
  {
  }

  lemma Row1(p: Byte, q: Byte, r: Byte, s: Byte, x: Byte, x1: Byte, x2: Byte, x3: Byte, x4: Byte)
    requires p.v == x4.v ^ x1.v && q.v == (x3.v ^ x2.v) ^ x1.v && r.v == (x3.v ^ x1.v) ^ x.v
    requires s.v == ((x4.v ^ x3.v) ^ x1.v) ^ ((x3.v ^ x2.v) ^ x.v)
    ensures Sum(p, q, r, s) == O
  {
    RowBits1(p.v, q.v, r.v, s.v, x.v, x1.v, x2.v, x3.v, x4.v);
    SumBits(p, q, r, s, O);
  }

  lemma RowBits2(p: bv8, q: bv8, r: bv8, s: bv8, x: bv8, x1: bv8, x2: bv8, x3: bv8, x4: bv8)
    requires p == (x4 ^ x3) ^ x1 && q == x3 ^ x && r == (x3 ^ x2) ^ x1
    requires s == ((x4 ^ x2) ^ x1) ^ ((x3 ^ x1) ^ x)
    ensures ((p ^ q) ^ r) ^ s == 0
  {
  }

  lemma Row2(p: Byte, q: Byte, r: Byte, s: Byte, x: Byte, x1: Byte, x2: Byte, x3: Byte, x4: Byte)
    requires p.v == (x4.v ^ x3.v) ^ x1.v && q.v == x3.v ^ x.v && r.v == (x3.v ^ x2.v) ^ x1.v
    requires s.v == ((x4.v ^ x2.v) ^ x1.v) ^ ((x3.v ^ x1.v) ^ x.v)
    ensures Sum(p, q, r, s) == O
  {
    RowBits2(p.v, q.v, r.v, s.v, x.v, x1.v, x2.v, x3.v, x4.v);
    SumBits(p, q, r, s, O);
  }

  lemma RowBits3(p: bv8, q: bv8, r: bv8, s: bv8, x: bv8, x1: bv8, x2: bv8, x3: bv8, x4: bv8)
    requires p == (x4 ^ x2) ^ x1 && q == (x3 ^ x2) ^ x && r == x3 ^ x
    requires s == ((x4 ^ x3) ^ x2) ^ ((x3 ^ x2) ^ x1)
    ensures ((p ^ q) ^ r) ^ s == 0
  {
  }

  lemma Row3(p: Byte, q: Byte, r: Byte, s: Byte, x: Byte, x1: Byte, x2: Byte, x3: Byte, x4: Byte)
    requires p.v == (x4.v ^ x2.v) ^ x1.v && q.v == (x3.v ^ x2.v) ^ x.v && r.v == x3.v ^ x.v
    requires s.v == ((x4.v ^ x3.v) ^ x2.v) ^ ((x3.v ^ x2.v) ^ x1.v)
    ensures Sum(p, q, r, s) == O
  {
    RowBits3(p.v, q.v, r.v, s.v, x.v, x1.v, x2.v, x3.v, x4.v);
    SumBits(p, q, r, s, O);
  }

  lemma XorFour(p: Byte, q: Byte, r: Byte, s: Byte)
    ensures Xor(Xor(p, q), Xor(r, s)).v == (p.v ^ q.v) ^ (r.v ^ s.v)
  {
  }

  lemma XorSix(p: Byte, q: Byte, r: Byte, s: Byte, t: Byte, u: Byte)
    ensures Xor(Xor(Xor(p, q), r), Xor(Xor(s, t), u)).v == ((p.v ^ q.v) ^ r.v) ^ ((s.v ^ t.v) ^ u.v)
  {
    XorThree(p, q, r);
    XorThree(s, t, u);
  }

  lemma FirstSum0(x: Byte, x1: Byte, x2: Byte, x3: Byte, x4: Byte)
    ensures Sum(Xor(Xor(x4, x3), x2), Xor(Xor(x3, x1), x), Xor(Xor(x3, x2), x), Xor(Xor(x4, x1), Xor(x3, x))) == x
  {
    XorThree(x4, x3, x2);
    XorThree(x3, x1, x);
    XorThree(x3, x2, x);
    XorFour(x4, x1, x3, x);
    Row0(Xor(Xor(x4, x3), x2), Xor(Xor(x3, x1), x), Xor(Xor(x3, x2), x), Xor(Xor(x4, x1), Xor(x3, x)),
         x, x1, x2, x3, x4);
  }

  lemma FirstSum1(x: Byte, x1: Byte, x2: Byte, x3: Byte, x4: Byte)
    ensures Sum(Xor(x4, x1), Xor(Xor(x3, x2), x1), Xor(Xor(x3, x1), x),
          Xor(Xor(Xor(x4, x3), x1), Xor(Xor(x3, x2), x))) == O
  {
    XorTwo(x4, x1);
    XorThree(x3, x2, x1);
    XorThree(x3, x1, x);
    XorSix(x4, x3, x1, x3, x2, x);
    Row1(Xor(x4, x1), Xor(Xor(x3, x2), x1), Xor(Xor(x3, x1), x), Xor(Xor(Xor(x4, x3), x1), Xor(Xor(x3, x2), x)),
         x, x1, x2, x3, x4);
  }

  lemma FirstSum2(x: Byte, x1: Byte, x2: Byte, x3: Byte, x4: Byte)
    ensures Sum(Xor(Xor(x4, x3), x1), Xor(x3, x), Xor(Xor(x3, x2), x1),
          Xor(Xor(Xor(x4, x2), x1), Xor(Xor(x3, x1), x))) == O
  {
    XorThree(x4, x3, x1);
    XorTwo(x3, x);
    XorThree(x3, x2, x1);
    XorSix(x4, x2, x1, x3, x1, x);
    Row2(Xor(Xor(x4, x3), x1), Xor(x3, x), Xor(Xor(x3, x2), x1), Xor(Xor(Xor(x4, x2), x1), Xor(Xor(x3, x1), x)),
         x, x1, x2, x3, x4);
  }

  lemma FirstSum3(x: Byte, x1: Byte, x2: Byte, x3: Byte, x4: Byte)
    ensures Sum(Xor(Xor(x4, x2), x1), Xor(Xor(x3, x2), x), Xor(x3, x),
          Xor(Xor(Xor(x4, x3), x2), Xor(Xor(x3, x2), x1))) == O
  {
    XorThree(x4, x2, x1);
    XorThree(x3, x2, x);
    XorTwo(x3, x);
    XorSix(x4, x3, x2, x3, x2, x1);
    Row3(Xor(Xor(x4, x2), x1), Xor(Xor(x3, x2), x), Xor(x3, x), Xor(Xor(Xor(x4, x3), x2), Xor(Xor(x3, x2), x1)),
         x, x1, x2, x3, x4);
  }

  // The order of the summands does not matter.

  lemma SumFront(p: Byte, q: Byte, r: Byte, s: Byte)
    ensures Sum(p, q, r, s) == Sum(q, p, r, s)
  {
  }

  lemma SumInner(p: Byte, q: Byte, r: Byte, s: Byte)
    ensures Sum(p, q, r, s) == Sum(p, r, q, s)
  {
  }

  lemma SumBack(p: Byte, q: Byte, r: Byte, s: Byte)
    ensures Sum(p, q, r, s) == Sum(p, q, s, r)
  {
  }

  lemma SumPairs(p: Byte, q: Byte, r: Byte, s: Byte)
    ensures Sum(p, q, r, s) == Sum(q, p, s, r)
  {
    SumFront(p, q, r, s);
    SumBack(q, p, r, s);
  }

  lemma SumOdd(p: Byte, q: Byte, r: Byte, s: Byte)
    ensures Sum(p, q, r, s) == Sum(r, q, p, s)
  {
    SumFront(p, q, r, s);
    SumInner(q, p, r, s);
    SumFront(q, r, p, s);
  }

  lemma SumEven(p: Byte, q: Byte, r: Byte, s: Byte)
    ensures Sum(p, q, r, s) == Sum(p, s, r, q)
  {
    SumInner(p, q, r, s);
    SumBack(p, r, q, s);
    SumInner(p, r, s, q);
  }

  lemma SumBackwards(p: Byte, q: Byte, r: Byte, s: Byte)
    ensures Sum(p, q, r, s) == Sum(s, r, q, p)
  {
    SumPairs(p, q, r, s);
    SumOdd(q, p, s, r);
    SumEven(s, p, q, r);
  }

  lemma DecryptFirst(x: Byte)
    ensures InvMixCol(Col(XTime(x), x, x, Triple(x))) == Col(x, O, O, O)
  {
    var x1 := XTime(x);
    var x2 := XTime(x1);
    var x3 := XTime(x2);
    var x4 := XTime(x3);
    MulXor(x1, x);
    FirstSum0(x, x1, x2, x3, x4);
    FirstSum1(x, x1, x2, x3, x4);
    FirstSum2(x, x1, x2, x3, x4);
    FirstSum3(x, x1, x2, x3, x4);
  }

  lemma DoubledProducts(x: Byte)
    ensures
      var x1, x2, x3, x4 := XTime(x), XTime(XTime(x)), XTime(XTime(XTime(x))), XTime(XTime(XTime(XTime(x))));
      && XTime(Mul9(x)) == Xor(x4, x1) && XTime(Mul11(x)) == Xor(Xor(x4, x2), x1)
      && XTime(Mul13(x)) == Xor(Xor(x4, x3), x1) && XTime(Mul14(x)) == Xor(Xor(x4, x3), x2)
  {
    var x1 := XTime(x);
    var x2 := XTime(x1);
    var x3 := XTime(x2);
    XTimeXor(x3, x);
    XTimeXor(x3, x1);
    XTimeXor(x3, x2);
    XTimeXor(Xor(x3, x1), x);
    XTimeXor(Xor(x3, x2), x);
    XTimeXor(Xor(x3, x2), x1);
  }

  lemma EncryptFirst(x: Byte)
    ensures MixCol(Col(Mul14(x), Mul9(x), Mul13(x), Mul11(x))) == Col(x, O, O, O)
  {
    var x1 := XTime(x);
    var x2 := XTime(x1);
    var x3 := XTime(x2);
    var x4 := XTime(x3);
    DoubledProducts(x);
    FirstSum0(x, x1, x2, x3, x4);
    FirstSum1(x, x1, x2, x3, x4);
    FirstSum2(x, x1, x2, x3, x4);
    FirstSum3(x, x1, x2, x3, x4);
    SumEven(XTime(Mul14(x)), Mul11(x), Mul13(x), Triple(Mul9(x)));
    SumPairs(XTime(Mul9(x)), Mul14(x), Mul11(x), Triple(Mul13(x)));
    SumOdd(XTime(Mul13(x)), Mul9(x), Mul14(x), Triple(Mul11(x)));
    SumBackwards(XTime(Mul11(x)), Mul13(x), Mul9(x), Triple(Mul14(x)));
  }

  /** `s` is the sum of four columns with one byte set each. */
  lemma Split(s: Col)
    ensures
      var a, b, c, d := Col(s.a, O, O, O), Col(s.b, O, O, O), Col(s.c, O, O, O), Col(s.d, O, O, O);
      s == XorCol(XorCol(a, Turn(b)), XorCol(Turn(Turn(c)), Turn(Turn(Turn(d)))))
  {
  }

  lemma MixInverse(s: Col)
    ensures InvMixCol(MixCol(s)) == s && MixCol(InvMixCol(s)) == s
  {
    var a, b := Col(s.a, O, O, O), Turn(Col(s.b, O, O, O));
    var c, d := Turn(Turn(Col(s.c, O, O, O))), Turn(Turn(Turn(Col(s.d, O, O, O))));
    Split(s);
    InverseOne(s.a);
    InverseOne(s.b);
    InverseOne(s.c);
    InverseOne(s.d);
    InverseXor(a, b);
    InverseXor(c, d);
    InverseXor(XorCol(a, b), XorCol(c, d));
  }

  ghost predicate Inverse(s: Col) {
    InvMixCol(MixCol(s)) == s && MixCol(InvMixCol(s)) == s
  }

  lemma InverseXor(s: Col, t: Col)
    requires Inverse(s) && Inverse(t)
    ensures Inverse(XorCol(s, t))
  {
    MixColXor(s, t);
    InvMixColXor(s, t);
    MixColXor(InvMixCol(s), InvMixCol(t));
    InvMixColXor(MixCol(s), MixCol(t));
  }

  lemma InverseTurn(s: Col)
    requires Inverse(s)
    ensures Inverse(Turn(s))
  {
    MixTurn(s);
    InvMixTurn(s);
    MixTurn(InvMixCol(s));
    InvMixTurn(MixCol(s));
  }

  lemma InverseOne(x: Byte)
    ensures
      var s := Col(x, O, O, O);
      Inverse(s) && Inverse(Turn(s)) && Inverse(Turn(Turn(s))) && Inverse(Turn(Turn(Turn(s))))
  {
    var s := Col(x, O, O, O);
    MixFirst(x);
    InvMixFirst(x);
    DecryptFirst(x);
    EncryptFirst(x);
    InverseTurn(s);
    InverseTurn(Turn(s));
    InverseTurn(Turn(Turn(s)));
  }

  // ----- the cipher for given round keys, and its inverse

  /** The state after round `r` of encrypting `x`; round 0 only adds the first key. */
  ghost function Round(rk: seq<Block>, x: Block, r: nat): Block
    requires r < |rk|
  {
    if r == 0 then XorBlock(x, rk[0]) else XorBlock(Mix(Shift(Sub(Round(rk, x, r - 1)))), rk[r])
  }

  ghost function Cipher(rk: seq<Block>, x: Block): Block
    requires |rk| >= 2
  {
    XorBlock(Shift(Sub(Round(rk, x, |rk| - 2))), rk[|rk| - 1])
  }

  /** The state of decrypting `y` once round `r` is undone, from the last key downwards. */
  ghost function Unround(rk: seq<Block>, y: Block, r: nat): Block
    requires 1 <= r < |rk|
    decreases |rk| - r
  {
    if r == |rk| - 1 then XorBlock(y, rk[r])
    else InvMix(XorBlock(InvSub(InvShift(Unround(rk, y, r + 1))), rk[r]))
  }

  ghost function InvCipher(rk: seq<Block>, y: Block): Block
    requires |rk| >= 2
  {
    XorBlock(InvSub(InvShift(Unround(rk, y, 1))), rk[0])
  }

  lemma XorColTwice(s: Col, t: Col)
    ensures XorCol(XorCol(s, t), t) == s
  {
  }

  lemma XorTwice(s: Block, t: Block)
    ensures XorBlock(XorBlock(s, t), t) == s
  {
    XorColTwice(s.c0, t.c0);
    XorColTwice(s.c1, t.c1);
    XorColTwice(s.c2, t.c2);
    XorColTwice(s.c3, t.c3);
  }

  lemma SubColInverse(s: Col)
    ensures InvSubCol(SubCol(s)) == s && SubCol(InvSubCol(s)) == s
  {
    SboxInverse(s.a);
    SboxInverse(s.b);
    SboxInverse(s.c);
    SboxInverse(s.d);
  }

  lemma SubShiftInverse(s: Block)
    ensures InvSub(InvShift(Shift(Sub(s)))) == s && Shift(Sub(InvSub(InvShift(s)))) == s
  {
    var t := InvShift(s);
    SubColInverse(s.c0);
    SubColInverse(s.c1);
    SubColInverse(s.c2);
    SubColInverse(s.c3);
    SubColInverse(t.c0);
    SubColInverse(t.c1);
    SubColInverse(t.c2);
    SubColInverse(t.c3);
  }

  lemma MixBlockInverse(s: Block)
    ensures InvMix(Mix(s)) == s && Mix(InvMix(s)) == s
  {
    MixInverse(s.c0);
    MixInverse(s.c1);
    MixInverse(s.c2);
    MixInverse(s.c3);
  }

  lemma UnmixOne(s: Block, k: Block)
    ensures InvMix(XorBlock(XorBlock(Mix(s), k), k)) == s
  {
    XorTwice(Mix(s), k);
    MixBlockInverse(s);
  }

  /** Undoing one round: from the state before its last step back to the state before the first
      steps of it. */
  lemma UndoOne(z: Block, next: Block, s: Block, k: Block)
    requires InvSub(InvShift(z)) == next && next == XorBlock(Mix(s), k)
    ensures InvMix(XorBlock(InvSub(InvShift(z)), k)) == s
  {
    UnmixOne(s, k);
  }

  /** `b` is what round `r` of encrypting `x` leads to before the columns are mixed, and before the
      next key.  The detours over `u` keep the functions out of the induction. */
  ghost predicate BeforeIs(rk: seq<Block>, x: Block, r: nat, b: Block) {
    forall u :: u == x ==> BeforeOf(rk, u, r, b)
  }

  ghost predicate BeforeOf(rk: seq<Block>, x: Block, r: nat, b: Block) {
    r < |rk| && b == Shift(Sub(Round(rk, x, r)))
  }

  ghost predicate UnroundIs(rk: seq<Block>, y: Block, r: nat, z: Block) {
    forall u :: u == y ==> UnroundOf(rk, u, r, z)
  }

  ghost predicate UnroundOf(rk: seq<Block>, y: Block, r: nat, z: Block) {
    1 <= r < |rk| && z == Unround(rk, y, r)
  }

  lemma Before(rk: seq<Block>, x: Block, r: nat) returns (b: Block)
    requires r < |rk|
    ensures BeforeIs(rk, x, r, b)
  {
    b := Shift(Sub(Round(rk, x, r)));
  }

  lemma UnroundLast(rk: seq<Block>, x: Block, b: Block)
    requires |rk| >= 2 && BeforeIs(rk, x, |rk| - 2, b)
    ensures UnroundIs(rk, Cipher(rk, x), |rk| - 1, b)
  {
    assert BeforeOf(rk, x, |rk| - 2, b);
    XorTwice(b, rk[|rk| - 1]);
  }

  lemma RoundUnfold(rk: seq<Block>, x: Block, r: nat, b: Block)
    requires 1 <= r < |rk| && b == Shift(Sub(Round(rk, x, r - 1)))
    ensures Round(rk, x, r) == XorBlock(Mix(b), rk[r])
  {
  }

  lemma UnroundUnfold(rk: seq<Block>, y: Block, r: nat, z: Block)
    requires 1 <= r < |rk| - 1 && UnroundIs(rk, y, r + 1, z)
    ensures UnroundIs(rk, y, r, InvMix(XorBlock(InvSub(InvShift(z)), rk[r])))
  {
    assert UnroundOf(rk, y, r + 1, z);
  }

  lemma UnroundStep(rk: seq<Block>, x: Block, y: Block, r: nat, z: Block, b: Block)
    requires 1 <= r < |rk| - 1 && UnroundIs(rk, y, r + 1, z) && BeforeIs(rk, x, r, z) && BeforeIs(rk, x, r - 1, b)
    ensures UnroundIs(rk, y, r, b)
  {
    assert BeforeOf(rk, x, r, z) && BeforeOf(rk, x, r - 1, b);
    UnroundUnfold(rk, y, r, z);
    SubShiftInverse(Round(rk, x, r));
    RoundUnfold(rk, x, r, b);
    UndoOne(z, Round(rk, x, r), b, rk[r]);
  }

  lemma {:induction false} UnroundAll(rk: seq<Block>, x: Block, y: Block, last: Block, r: nat) returns (b: Block)
    requires 1 <= r < |rk| && BeforeIs(rk, x, |rk| - 2, last) && UnroundIs(rk, y, |rk| - 1, last)
    ensures BeforeIs(rk, x, r - 1, b) && UnroundIs(rk, y, r, b)
    decreases |rk| - r
  {
    if r == |rk| - 1 {
      assert r - 1 == |rk| - 2;
      b := last;
    } else {
      var z := UnroundAll(rk, x, y, last, r + 1);
      b := Before(rk, x, r - 1);
      UnroundStep(rk, x, y, r, z, b);
    }
  }

  /** Decryption undoes encryption, for every key schedule and every block. */
  lemma DecryptEncrypt(rk: seq<Block>, x: Block)
    requires |rk| >= 2
    ensures InvCipher(rk, Cipher(rk, x)) == x
  {
    var last := Before(rk, x, |rk| - 2);
    UnroundLast(rk, x, last);
    var b := UnroundAll(rk, x, Cipher(rk, x), last, 1);
    assert BeforeOf(rk, x, 0, b) && UnroundOf(rk, Cipher(rk, x), 1, b);
    SubShiftInverse(Round(rk, x, 0));
    XorTwice(x, rk[0]);
  }

  lemma {:induction false} RoundOfInvCipher(rk: seq<Block>, y: Block, r: nat)
    requires r + 1 < |rk|
    ensures Shift(Sub(Round(rk, InvCipher(rk, y), r))) == Unround(rk, y, r + 1)
  {
    var after := InvSub(InvShift(Unround(rk, y, r + 1)));
    SubShiftInverse(Unround(rk, y, r + 1));
    XorTwice(after, rk[r]);
    if r > 0 {
      RoundOfInvCipher(rk, y, r - 1);
      MixBlockInverse(XorBlock(after, rk[r]));
    }
  }

  /** Encryption undoes decryption: a key schedule permutes the blocks. */
  lemma EncryptDecrypt(rk: seq<Block>, y: Block)
    requires |rk| >= 2
    ensures Cipher(rk, InvCipher(rk, y)) == y
  {
    RoundOfInvCipher(rk, y, |rk| - 2);
    XorTwice(y, rk[|rk| - 1]);
  }

  // ----- key expansion

  /** Powers of x; `Rcon(1)` is 1. */
  function Rcon(i: nat): Byte {
    if i <= 1 then Byte(1) else XTime(Rcon(i - 1))
  }

  predicate KeyWords(nk: nat) {
    nk == 4 || nk == 6 || nk == 8
  }

  /** What word `i` of the schedule adds to word `i - nk`. */
  ghost function KeyTerm(prev: Col, nk: nat, i: nat): Col
    requires KeyWords(nk)
  {
    if i % nk == 0 then XorCol(SubCol(Col(prev.b, prev.c, prev.d, prev.a)), Col(Rcon(i / nk), O, O, O))
    else if nk > 6 && i % nk == 4 then SubCol(prev)
    else prev
  }

  /** Word `i` of the key schedule. */
  ghost function KeyWord(key: seq<Byte>, nk: nat, i: nat): Col
    requires KeyWords(nk) && |key| >= 4 * nk
  {
    if i < nk then Col(key[4 * i], key[4 * i + 1], key[4 * i + 2], key[4 * i + 3])
    else XorCol(KeyWord(key, nk, i - nk), KeyTerm(KeyWord(key, nk, i - 1), nk, i))
  }

  ghost function RoundKey(key: seq<Byte>, nk: nat, r: nat): Block
    requires KeyWords(nk) && |key| >= 4 * nk
  {
    Block(KeyWord(key, nk, 4 * r), KeyWord(key, nk, 4 * r + 1), KeyWord(key, nk, 4 * r + 2),
          KeyWord(key, nk, 4 * r + 3))
  }

  /** The round keys of a 128, 192 or 256-bit key. */
  ghost function RoundKeys(key: seq<Byte>, nk: nat): (rk: seq<Block>)
    requires KeyWords(nk) && |key| >= 4 * nk
    ensures |rk| == nk + 7 && forall r :: 0 <= r < |rk| ==> rk[r] == RoundKey(key, nk, r)
  {
    seq(nk + 7, r requires 0 <= r => RoundKey(key, nk, r))
  }

  // ----- cipher block chaining, for any function on blocks

  ghost function CbcEncrypt(f: Block -> Block, iv: Block, x: seq<Block>): (y: seq<Block>)
    ensures |y| == |x|
    decreases |x|
  {
    if x == [] then []
    else
      var y := f(XorBlock(x[0], iv));
      [y] + CbcEncrypt(f, y, x[1..])
  }

  ghost function CbcDecrypt(g: Block -> Block, iv: Block, y: seq<Block>): (x: seq<Block>)
    ensures |x| == |y|
    decreases |y|
  {
    if y == [] then [] else [XorBlock(g(y[0]), iv)] + CbcDecrypt(g, y[0], y[1..])
  }

  /** The initial vector for what follows the encrypted message `y`. */
  ghost function Chain(iv: Block, y: seq<Block>): Block {
    if y == [] then iv else y[|y| - 1]
  }

  lemma {:induction false} CbcUndone(f: Block -> Block, g: Block -> Block, iv: Block, x: seq<Block>)
    requires forall b :: g(f(b)) == b
    ensures CbcDecrypt(g, iv, CbcEncrypt(f, iv, x)) == x
    decreases |x|
  {
    if x != [] {
      var y := f(XorBlock(x[0], iv));
      var rest := CbcEncrypt(f, y, x[1..]);
      CbcUndone(f, g, y, x[1..]);
      assert ([y] + rest)[1..] == rest;
      XorTwice(x[0], iv);
    }
  }

  ghost function Encrypting(rk: seq<Block>): Block -> Block
    requires |rk| >= 2
  {
    (b: Block) => Cipher(rk, b)
  }

  ghost function Decrypting(rk: seq<Block>): Block -> Block
    requires |rk| >= 2
  {
    (b: Block) => InvCipher(rk, b)
  }

  /** A message of any length, encrypted and decrypted from the same initial vector, comes
      back. */
  lemma CbcRoundTrip(rk: seq<Block>, iv: Block, x: seq<Block>)
    requires |rk| >= 2
    ensures CbcDecrypt(Decrypting(rk), iv, CbcEncrypt(Encrypting(rk), iv, x)) == x
  {
    forall b ensures Decrypting(rk)(Encrypting(rk)(b)) == b {
      DecryptEncrypt(rk, b);
    }
    CbcUndone(Encrypting(rk), Decrypting(rk), iv, x);
  }

  /** A message encrypted in two calls, the second from the initial vector the first left
      behind, is encrypted as in one. */
  lemma {:induction false} CbcEncryptSplit(f: Block -> Block, iv: Block, m: seq<Block>, n: seq<Block>)
    ensures
      var y := CbcEncrypt(f, iv, m);
      && CbcEncrypt(f, iv, m + n) == y + CbcEncrypt(f, Chain(iv, y), n)
      && Chain(iv, CbcEncrypt(f, iv, m + n)) == Chain(Chain(iv, y), CbcEncrypt(f, Chain(iv, y), n))
    decreases |m|
  {
    if m == [] {
      assert m + n == n;
    } else {
      var y := f(XorBlock(m[0], iv));
      assert (m + n)[1..] == m[1..] + n;
      CbcEncryptSplit(f, y, m[1..], n);
    }
  }

  /** The same for decryption, where the initial vector comes from the input. */
  lemma {:induction false} CbcDecryptSplit(g: Block -> Block, iv: Block, m: seq<Block>, n: seq<Block>)
    ensures CbcDecrypt(g, iv, m + n) == CbcDecrypt(g, iv, m) + CbcDecrypt(g, Chain(iv, m), n)
    ensures Chain(iv, m + n) == Chain(Chain(iv, m), n)
    decreases |m|
  {
    if m == [] {
      assert m + n == n;
    } else {
      assert (m + n)[1..] == m[1..] + n;
      CbcDecryptSplit(g, m[0], m[1..], n);
    }
  }
}
