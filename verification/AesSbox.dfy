/** What the substitution table of AES is (section 5.1.1 of FIPS-197): the multiplicative inverse
    in GF(2^8), zero staying zero, followed by an affine map of the bits. */
module AesSbox {
  import opened Aes

  /** The affine map: the byte plus its rotations by 1 to 4 places, plus 0x63. */
  ghost function Affine(y: bv8): bv8 {
    y ^ ((y << 1) | (y >> 7)) ^ ((y << 2) | (y >> 6)) ^ ((y << 3) | (y >> 5)) ^ ((y << 4) | (y >> 4)) ^ 0x63
  }

  /** Undoes `Affine`. */
  ghost function Unaffine(s: bv8): bv8 {
    ((s << 1) | (s >> 7)) ^ ((s << 3) | (s >> 5)) ^ ((s << 6) | (s >> 2)) ^ 0x05
  }

  lemma AffineUnaffine(s: bv8)
    ensures s == Affine(Unaffine(s))
  {
  }

  // ----- a product, step by step

  /** The eight steps of multiplying `a` by the number with the bits `b` to `b7`: the doublings of
      `a`, and the sums from the last step back to the first. */
  ghost predicate Right(a: bv8, a1: bv8, a2: bv8, a3: bv8, a4: bv8, a5: bv8, a6: bv8, a7: bv8,
                  b: bool, b1: bool, b2: bool, b3: bool, b4: bool, b5: bool, b6: bool, b7: bool,
                  p: bv8, p1: bv8, p2: bv8, p3: bv8, p4: bv8, p5: bv8, p6: bv8, p7: bv8) {
    && a1 == (a << 1) ^ (a >> 7) ^ ((a >> 7) << 1) ^ ((a >> 7) << 3) ^ ((a >> 7) << 4)
    && a2 == (a1 << 1) ^ (a1 >> 7) ^ ((a1 >> 7) << 1) ^ ((a1 >> 7) << 3) ^ ((a1 >> 7) << 4)
    && a3 == (a2 << 1) ^ (a2 >> 7) ^ ((a2 >> 7) << 1) ^ ((a2 >> 7) << 3) ^ ((a2 >> 7) << 4)
    && a4 == (a3 << 1) ^ (a3 >> 7) ^ ((a3 >> 7) << 1) ^ ((a3 >> 7) << 3) ^ ((a3 >> 7) << 4)
    && a5 == (a4 << 1) ^ (a4 >> 7) ^ ((a4 >> 7) << 1) ^ ((a4 >> 7) << 3) ^ ((a4 >> 7) << 4)
    && a6 == (a5 << 1) ^ (a5 >> 7) ^ ((a5 >> 7) << 1) ^ ((a5 >> 7) << 3) ^ ((a5 >> 7) << 4)
    && a7 == (a6 << 1) ^ (a6 >> 7) ^ ((a6 >> 7) << 1) ^ ((a6 >> 7) << 3) ^ ((a6 >> 7) << 4)
    && p == (if b then a else 0) ^ p1
    && p1 == (if b1 then a1 else 0) ^ p2
    && p2 == (if b2 then a2 else 0) ^ p3
    && p3 == (if b3 then a3 else 0) ^ p4
    && p4 == (if b4 then a4 else 0) ^ p5
    && p5 == (if b5 then a5 else 0) ^ p6
    && p6 == (if b6 then a6 else 0) ^ p7
    && p7 == (if b7 then a7 else 0) ^ 0
  }

  ghost predicate Bits(y: bv8, b: bool, b1: bool, b2: bool, b3: bool, b4: bool, b5: bool, b6: bool, b7: bool) {
    && (b <==> y & 0x01 != 0)
    && (b1 <==> y & 0x02 != 0)
    && (b2 <==> y & 0x04 != 0)
    && (b3 <==> y & 0x08 != 0)
    && (b4 <==> y & 0x10 != 0)
    && (b5 <==> y & 0x20 != 0)
    && (b6 <==> y & 0x40 != 0)
    && (b7 <==> y & 0x80 != 0)
  }

  /** `x` times `y` is 1. */
  ghost predicate Inverts(x: bv8, y: bv8) {
    forall a1: bv8, a2: bv8, a3: bv8, a4: bv8, a5: bv8, a6: bv8, a7: bv8,
      b: bool, b1: bool, b2: bool, b3: bool, b4: bool, b5: bool, b6: bool, b7: bool,
      p: bv8, p1: bv8, p2: bv8, p3: bv8, p4: bv8, p5: bv8, p6: bv8, p7: bv8
      | Right(x, a1, a2, a3, a4, a5, a6, a7, b, b1, b2, b3, b4, b5, b6, b7, p, p1, p2, p3, p4, p5, p6, p7) &&
        Bits(y, b, b1, b2, b3, b4, b5, b6, b7) ::
      p == 1
  }

  lemma Doubling(a: bv8) returns (d: bv8)
    ensures d == (a << 1) ^ (a >> 7) ^ ((a >> 7) << 1) ^ ((a >> 7) << 3) ^ ((a >> 7) << 4)
    ensures Byte(d) == XTime(Byte(a))
  {
    d := XTime(Byte(a)).v;
  }

  lemma Halving(y: bv8) returns (h: bv8, b: bool)
    ensures h == y >> 1 && (b <==> y & 1 != 0)
    ensures Byte(h) == Half(Byte(y)) && (b <==> Odd(Byte(y)))
  {
    h, b := y >> 1, Odd(Byte(y));
  }

  lemma HalvingsBits(y: bv8, y1: bv8, y2: bv8, y3: bv8, y4: bv8, y5: bv8, y6: bv8, y7: bv8,
                     b: bool, b1: bool, b2: bool, b3: bool, b4: bool, b5: bool, b6: bool, b7: bool)
    requires y1 == y >> 1 && y2 == y1 >> 1 && y3 == y2 >> 1 && y4 == y3 >> 1
    requires y5 == y4 >> 1 && y6 == y5 >> 1 && y7 == y6 >> 1
    requires (b <==> y & 1 != 0) && (b1 <==> y1 & 1 != 0) && (b2 <==> y2 & 1 != 0) && (b3 <==> y3 & 1 != 0)
    requires (b4 <==> y4 & 1 != 0) && (b5 <==> y5 & 1 != 0) && (b6 <==> y6 & 1 != 0) && (b7 <==> y7 & 1 != 0)
    ensures Bits(y, b, b1, b2, b3, b4, b5, b6, b7)
  {
  }

  lemma XorBits(p: bv8, q: bv8)
    ensures Xor(Byte(p), Byte(q)) == Byte(p ^ q)
  {
  }

  lemma Adding(a: bv8, d: bv8, y: bv8, h: bv8, b: bool, q: bv8, n: nat) returns (p: bv8)
    requires Byte(d) == XTime(Byte(a)) && Byte(h) == Half(Byte(y)) && (b <==> Odd(Byte(y)))
    requires Product(Byte(d), Byte(h), n) == Byte(q)
    ensures p == (if b then a else 0) ^ q
    ensures Product(Byte(a), Byte(y), n + 1) == Byte(p)
  {
    p := (if b then a else 0) ^ q;
    XorBits(if b then a else 0, q);
  }

  /** `Product` takes these steps. */
  lemma Multiply(a: bv8, y: bv8, n: nat)
    returns (a1: bv8, a2: bv8, a3: bv8, a4: bv8, a5: bv8, a6: bv8, a7: bv8,
             b: bool, b1: bool, b2: bool, b3: bool, b4: bool, b5: bool, b6: bool, b7: bool,
             p: bv8, p1: bv8, p2: bv8, p3: bv8, p4: bv8, p5: bv8, p6: bv8, p7: bv8)
    requires n == 0
    ensures Right(a, a1, a2, a3, a4, a5, a6, a7, b, b1, b2, b3, b4, b5, b6, b7, p, p1, p2, p3, p4, p5, p6, p7)
    ensures Bits(y, b, b1, b2, b3, b4, b5, b6, b7)
    ensures Product(Byte(a), Byte(y), n + 1 + 1 + 1 + 1 + 1 + 1 + 1 + 1) == Byte(p)
  {
    a1 := Doubling(a);
    a2 := Doubling(a1);
    a3 := Doubling(a2);
    a4 := Doubling(a3);
    a5 := Doubling(a4);
    a6 := Doubling(a5);
    a7 := Doubling(a6);
    var a8 := Doubling(a7);
    var y1, y2, y3, y4, y5, y6, y7, y8;
    y1, b := Halving(y);
    y2, b1 := Halving(y1);
    y3, b2 := Halving(y2);
    y4, b3 := Halving(y3);
    y5, b4 := Halving(y4);
    y6, b5 := Halving(y5);
    y7, b6 := Halving(y6);
    y8, b7 := Halving(y7);
    HalvingsBits(y, y1, y2, y3, y4, y5, y6, y7, b, b1, b2, b3, b4, b5, b6, b7);
    p7 := Adding(a7, a8, y7, y8, b7, 0, n);
    p6 := Adding(a6, a7, y6, y7, b6, p7, n + 1);
    p5 := Adding(a5, a6, y5, y6, b5, p6, n + 1 + 1);
    p4 := Adding(a4, a5, y4, y5, b4, p5, n + 1 + 1 + 1);
    p3 := Adding(a3, a4, y3, y4, b3, p4, n + 1 + 1 + 1 + 1);
    p2 := Adding(a2, a3, y2, y3, b2, p3, n + 1 + 1 + 1 + 1 + 1);
    p1 := Adding(a1, a2, y1, y2, b1, p2, n + 1 + 1 + 1 + 1 + 1 + 1);
    p := Adding(a, a1, y, y1, b, p1, n + 1 + 1 + 1 + 1 + 1 + 1 + 1);
  }

  lemma InverseProduct(x: bv8, y: bv8, n: nat)
    requires Inverts(x, y)
    requires n == 0
    ensures Product(Byte(x), Byte(y), n + 1 + 1 + 1 + 1 + 1 + 1 + 1 + 1) == Byte(1)
  {
    var a1, a2, a3, a4, a5, a6, a7, b, b1, b2, b3, b4, b5, b6, b7, p, p1, p2, p3, p4, p5, p6, p7 :=
      Multiply(x, y, n);
  }

  lemma EightSteps(x: Byte, y: Byte, n: nat)
    requires Product(x, y, n) == Byte(1)
    requires n == 8
    ensures Product(x, y, 8) == Byte(1)
  {
  }

  lemma InvertsProduct(x: bv8, y: bv8)
    requires Inverts(x, y)
    ensures Product(Byte(x), Byte(y), 8) == Byte(1)
  {
    InverseProduct(x, y, 0);
    EightSteps(Byte(x), Byte(y), 8);
  }

  // ----- the entries, up to thirty-two at a time

  lemma Inverts01(x: bv8)
    requires x >> 3 == 0 && x != 0
    ensures Inverts(x, Unaffine(SboxOf(x)))
  {
  }

  lemma Inverts08(x: bv8)
    requires x >> 3 == 1
    ensures Inverts(x, Unaffine(SboxOf(x)))
  {
  }

  lemma Inverts10(x: bv8)
    requires x >> 4 == 1
    ensures Inverts(x, Unaffine(SboxOf(x)))
  {
  }

  lemma Inverts20(x: bv8)
    requires x >> 5 == 1
    ensures Inverts(x, Unaffine(SboxOf(x)))
  {
  }

  lemma Inverts40(x: bv8)
    requires x >> 5 == 2
    ensures Inverts(x, Unaffine(SboxOf(x)))
  {
  }

  lemma Inverts60(x: bv8)
    requires x >> 5 == 3
    ensures Inverts(x, Unaffine(SboxOf(x)))
  {
  }

  lemma Inverts80(x: bv8)
    requires x >> 5 == 4
    ensures Inverts(x, Unaffine(SboxOf(x)))
  {
  }

  lemma InvertsA0(x: bv8)
    requires x >> 5 == 5
    ensures Inverts(x, Unaffine(SboxOf(x)))
  {
  }

  lemma InvertsC0(x: bv8)
    requires x >> 5 == 6
    ensures Inverts(x, Unaffine(SboxOf(x)))
  {
  }

  lemma InvertsE0(x: bv8)
    requires x >> 5 == 7
    ensures Inverts(x, Unaffine(SboxOf(x)))
  {
  }

  /** The table, with the affine map undone, inverts. */
  lemma EntryInverts(x: bv8)
    requires x != 0
    ensures Inverts(x, Unaffine(SboxOf(x)))
  {
    match x >> 5
    case 0 =>
      if x >> 4 == 1 {
        Inverts10(x);
      } else if x >> 3 == 1 {
        Inverts08(x);
      } else {
        Inverts01(x);
      }
    case 1 => Inverts20(x);
    case 2 => Inverts40(x);
    case 3 => Inverts60(x);
    case 4 => Inverts80(x);
    case 5 => InvertsA0(x);
    case 6 => InvertsC0(x);
    case 7 => InvertsE0(x);
  }

  lemma EntryProduct(x: bv8)
    requires x != 0
    ensures Product(Byte(x), Byte(Unaffine(SboxOf(x))), 8) == Byte(1)
  {
    EntryInverts(x);
    InvertsProduct(x, Unaffine(SboxOf(x)));
  }

  /** Every entry of the table is the affine map of the inverse. */
  lemma SboxMeaning(x: Byte) returns (y: Byte)
    ensures if x == O then y == O else Product(x, y, 8) == Byte(1)
    ensures SboxByte(x).v == Affine(y.v)
  {
    y := Byte(Unaffine(SboxOf(x.v)));
    AffineUnaffine(SboxOf(x.v));
    if x == O {
      assert SboxOf(0) == 0x63;
    } else {
      EntryProduct(x.v);
    }
  }
}
