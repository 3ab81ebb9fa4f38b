/**
 * Bytes as the field GF(2^8) of FIPS-197 section 4.2: every nonzero byte is a power of 3,
 * which gives multiplicative inverses and with them the substitution boxes (section 5.1.1).
 */
module AesBytes {
  import opened AesField
  import opened AesProduct
  import opened AesCipher

  // ----- the field of bytes

  function Bytes(): Field<bv8> {
    Field((x: bv8, y: bv8) => x ^ y, 0, (x: bv8) => Xtime(x))
  }

  lemma XtimeXor(x: bv8, y: bv8)
    ensures Xtime(x ^ y) == Xtime(x) ^ Xtime(y)
  {
    if x & 0x80 != 0 {
      if y & 0x80 != 0 {} else {}
    } else {
      if y & 0x80 != 0 {} else {}
    }
  }

  lemma UnmixFirst(a: bv8)
    ensures var f := Bytes();
            f.add(f.add(Mul14(f, f.xt(a)), Mul11(f, a)), f.add(Mul13(f, a), Mul9(f, Mul3(f, a)))) == a
  {
    if a & 0x80 != 0 {} else {}
  }

  lemma UnmixSecond(a: bv8)
    ensures var f := Bytes();
            f.add(f.add(Mul14(f, Mul3(f, a)), Mul11(f, f.xt(a))), f.add(Mul13(f, a), Mul9(f, a))) == 0
  {
    if a & 0x80 != 0 {} else {}
  }

  lemma UnmixThird(a: bv8)
    ensures var f := Bytes();
            f.add(f.add(Mul14(f, a), Mul11(f, Mul3(f, a))), f.add(Mul13(f, f.xt(a)), Mul9(f, a))) == 0
  {
    if a & 0x80 != 0 {} else {}
  }

  lemma UnmixFourth(a: bv8)
    ensures var f := Bytes();
            f.add(f.add(Mul14(f, a), Mul11(f, a)), f.add(Mul13(f, Mul3(f, a)), Mul9(f, f.xt(a)))) == 0
  {
    if a & 0x80 != 0 {} else {}
  }

  lemma XorLaws(x: bv8, y: bv8, z: bv8)
    ensures x ^ y == y ^ x && (x ^ y) ^ z == x ^ (y ^ z) && x ^ 0 == x && x ^ x == 0
  {
  }

  lemma AddIsXor(x: bv8, y: bv8)
    ensures Bytes().add(x, y) == x ^ y && Bytes().xt(x) == Xtime(x)
  {
  }

  lemma XorGroup(x: bv8, y: bv8, z: bv8)
    ensures GroupAt(Bytes(), x, y, z)
  {
    var f := Bytes();
    var u, v := f.add(x, y), f.add(y, z);
    assert f.add(y, x) == u && f.add(x, 0) == x && f.add(x, x) == 0 by {
      AddIsXor(x, y);
      AddIsXor(y, x);
      AddIsXor(x, 0);
      AddIsXor(x, x);
      XorLaws(x, y, z);
    }
    assert f.add(u, z) == f.add(x, v) by {
      AddIsXor(x, y);
      AddIsXor(y, z);
      AddIsXor(u, z);
      AddIsXor(x, v);
      XorLaws(x, y, z);
    }
  }

  lemma XtimeLinear(x: bv8, y: bv8)
    ensures LinearAt(Bytes(), x, y)
  {
    AddIsXor(x, y);
    AddIsXor(x ^ y, y);
    AddIsXor(y, y);
    AddIsXor(Xtime(x), Xtime(y));
    XtimeXor(x, y);
  }

  lemma Unmixes(a: bv8)
    ensures UnmixAt(Bytes(), a)
  {
    UnmixFirst(a);
    UnmixSecond(a);
    UnmixThird(a);
    UnmixFourth(a);
  }

  lemma BytesReduce(y: bv8)
    ensures ReduceAt(Bytes(), y)
  {
  }

  /** Bytes under exclusive or and XTIME form the field. */
  lemma BytesSound()
    ensures Sound(Bytes()) && Reduces(Bytes())
  {
    forall x: bv8, y: bv8, z: bv8 ensures GroupAt(Bytes(), x, y, z) {
      XorGroup(x, y, z);
    }
    forall x: bv8, y: bv8 ensures LinearAt(Bytes(), x, y) {
      XtimeLinear(x, y);
    }
    forall a: bv8 ensures UnmixAt(Bytes(), a) {
      Unmixes(a);
    }
    forall y: bv8 ensures ReduceAt(Bytes(), y) {
      BytesReduce(y);
    }
  }

  // ----- the generator

  /** Multiplication by 3, the step of the table of powers. */
  function Triple(x: bv8): bv8 { x ^ Xtime(x) }

  /** 3 to the power i. */
  function Power(i: nat): bv8 {
    if i == 0 then 1 else Triple(Power(i - 1))
  }

  /** The product of two bytes in the field. */
  function Product(x: bv8, y: bv8): bv8 { Times(Bytes(), x, y) }

  lemma TripleCancels(x: bv8, y: bv8)
    requires Triple(x) == Triple(y)
    ensures x == y
  {
  }

  lemma TripleIsMul3(x: bv8)
    ensures Mul3(Bytes(), x) == Triple(x)
  {
  }

  lemma TimesTriple<T(!new)>(f: Field<T>, x: bv8, y: T)
    requires Sound(f) && Reduces(f)
    ensures Times(f, Triple(x), y) == Mul3(f, Times(f, x, y))
  {
    TimesXor(f, x, Xtime(x), y);
    TimesXtime(f, x, y);
    Commute(f, Times(f, x, y), f.xt(Times(f, x, y)));
  }

  lemma ProductTriple(x: bv8, y: bv8)
    ensures Product(Triple(x), y) == Triple(Product(x, y))
  {
    BytesSound();
    TimesTriple(Bytes(), x, y);
    TripleIsMul3(Times(Bytes(), x, y));
  }

  lemma ProductOne(y: bv8)
    ensures Product(1, y) == y
  {
    BytesSound();
    TimesOne(Bytes(), y);
  }

  lemma {:induction false} PowerTimes(i: nat, j: nat)
    ensures Product(Power(i), Power(j)) == Power(i + j)
  {
    if i == 0 {
      ProductOne(Power(j));
    } else {
      PowerTimes(i - 1, j);
      ProductTriple(Power(i - 1), Power(j));
    }
  }

  lemma {:induction false} ProductCancels(i: nat, y: bv8, z: bv8)
    requires Product(Power(i), y) == Product(Power(i), z)
    ensures y == z
  {
    if i == 0 {
      ProductOne(y);
      ProductOne(z);
    } else {
      ProductTriple(Power(i - 1), y);
      ProductTriple(Power(i - 1), z);
      TripleCancels(Product(Power(i - 1), y), Product(Power(i - 1), z));
      ProductCancels(i - 1, y, z);
    }
  }

  lemma {:induction false} PowerNonzero(i: nat)
    ensures Power(i) != 0
  {
    if i > 0 {
      PowerNonzero(i - 1);
      if Power(i) == 0 { TripleCancels(Power(i - 1), 0); }
    }
  }

  lemma Next(i: nat, x: bv8)
    requires Power(i) == x
    ensures Power(i + 1) == Triple(x)
  {
  }

  /** The first 25 powers of 3, up to x itself. */
  lemma FirstPowers()
    ensures Power(5) == 0x33 && Power(10) == 0x72 && Power(15) == 0x35 && Power(25) == 0x02
  {
    Next(0, 0x01); Next(1, 0x03); Next(2, 0x05); Next(3, 0x0F); Next(4, 0x11);
    Next(5, 0x33); Next(6, 0x55); Next(7, 0xFF); Next(8, 0x1A); Next(9, 0x2E);
    Next(10, 0x72); Next(11, 0x96); Next(12, 0xA1); Next(13, 0xF8); Next(14, 0x13);
    Next(15, 0x35); Next(16, 0x5F); Next(17, 0xE1); Next(18, 0x38); Next(19, 0x48);
    Next(20, 0xD8); Next(21, 0x73); Next(22, 0x95); Next(23, 0xA4); Next(24, 0xF7);
  }

  /** With x = 3^25, adding 25 to an exponent doubles the power. */
  lemma Double(i: nat, x: bv8)
    requires Power(25) == 0x02 && Power(i) == x
    ensures Power(i + 25) == Xtime(x)
  {
    PowerTimes(25, i);
    BytesSound();
    TimesEven(Bytes(), 0x02, x);
    TimesOne(Bytes(), x);
    AddIsXor(x, x);
  }

  /** 3 has none of the orders 15, 51 and 85, the largest proper divisors of 255, and its
      255th power is 1. */
  lemma KeyPowers()
    ensures Power(15) != 1 && Power(51) != 1 && Power(85) != 1 && Power(255) == 1
  {
    FirstPowers();
    Double(25, 0x02);
    Next(50, 0x04);
    Double(10, 0x72); Double(35, 0xE4); Double(60, 0xD3);
    Double(5, 0x33); Double(30, 0x66); Double(55, 0xCC); Double(80, 0x83); Double(105, 0x1D);
    Double(130, 0x3A); Double(155, 0x74); Double(180, 0xE8); Double(205, 0xCB); Double(230, 0x8D);
  }

  // ----- every nonzero byte is a power of 3

  lemma {:induction false} PowerMultiple(g: nat, j: nat)
    requires Power(g) == 1
    ensures Power(g * j) == 1
  {
    if j > 0 {
      PowerMultiple(g, j - 1);
      PowerTimes(g, g * (j - 1));
      ProductOne(Power(g * (j - 1)));
    }
  }

  /** Two periods have a common divisor that is a period. */
  lemma {:induction false} CommonPeriod(a: nat, b: nat) returns (g: nat, m: nat, n: nat)
    requires a > 0 && b > 0 && Power(a) == 1 && Power(b) == 1
    ensures g > 0 && a == g * m && b == g * n && Power(g) == 1
    decreases a + b
  {
    if a == b {
      g, m, n := a, 1, 1;
    } else if a > b {
      PowerTimes(b, a - b);
      ProductOne(Power(a - b));
      g, m, n := CommonPeriod(a - b, b);
      m := m + n;
    } else {
      PowerTimes(a, b - a);
      ProductOne(Power(b - a));
      g, m, n := CommonPeriod(a, b - a);
      n := n + m;
    }
  }

  /** A proper divisor of 255 divides 85, 51 or 15. */
  lemma ProperDivisor(g: nat, n: nat) returns (j: nat)
    requires g * n == 255 && n > 1
    ensures g * j == 85 || g * j == 51 || g * j == 15
  {
    if n <= 15 {
      Cofactor(g, n);
      j := if n == 3 then 1 else if n == 5 then 1 else 3;
    } else {
      if g >= 16 { Above(g, n); }
      Cofactor(n, g);
      j := if g == 1 then 85 else if g == 3 then 17 else if g == 5 then 17 else 1;
    }
  }

  lemma Cofactor(g: nat, n: nat)
    requires g * n == 255 && n <= 15
    ensures n == 1 || n == 3 || n == 5 || n == 15
  {
    assert n != 0 && n != 2 && n != 4 && n != 6 && n != 7;
    assert n != 8 && n != 9 && n != 10 && n != 11 && n != 12 && n != 13 && n != 14;
  }

  lemma Above(g: nat, n: nat)
    requires g >= 16 && n >= 16
    ensures g * n >= 256
  {
  }

  /** 3 has order 255. */
  lemma NoSmallPeriod(k: nat)
    requires 0 < k < 255
    ensures Power(k) != 1
  {
    if Power(k) == 1 {
      KeyPowers();
      var g, m, n := CommonPeriod(k, 255);
      assert n > 1;
      var j := ProperDivisor(g, n);
      PowerMultiple(g, j);
    }
  }

  lemma PowersDistinct(i: nat, j: nat)
    requires i < j < 255
    ensures Power(i) != Power(j)
  {
    if Power(i) == Power(j) {
      var k, z := j - i, 0;
      PowerTimes(i, k);
      PowerTimes(i, z);
      assert i + k == j && i + z == i;
      ProductCancels(i, Power(k), Power(z));
      NoSmallPeriod(k);
    }
  }

  function UpTo(n: nat): (s: set<int>)
    ensures forall v :: v in s <==> 1 <= v <= n
  {
    if n == 0 then {} else UpTo(n - 1) + {n}
  }

  ghost function FirstN(n: nat): set<int> { set i: nat | i < n :: Power(i) as int }

  lemma {:induction false} FirstNSize(n: nat)
    requires n <= 255
    ensures |FirstN(n)| == n
  {
    if n > 0 {
      FirstNSize(n - 1);
      assert FirstN(n) == FirstN(n - 1) + {Power(n - 1) as int};
      if Power(n - 1) as int in FirstN(n - 1) {
        var i: nat :| i < n - 1 && Power(i) as int == Power(n - 1) as int;
        PowersDistinct(i, n - 1);
      }
    } else {
      assert FirstN(0) == {};
    }
  }

  /** A set of n numbers between 1 and n is all of them. */
  lemma {:induction false} Pigeonhole(a: set<int>, n: nat)
    requires a <= UpTo(n) && |a| >= n
    ensures a == UpTo(n)
  {
    if n > 0 {
      var b := a - {n};
      Pigeonhole(b, n - 1);
      if n !in a {
        SmallerWithin(a, n - 1);
        assert false;
      }
    }
  }

  lemma {:induction false} SmallerWithin(a: set<int>, n: nat)
    requires a <= UpTo(n)
    ensures |a| <= n
  {
    if n > 0 {
      SmallerWithin(a - {n}, n - 1);
    } else {
      assert a == {};
    }
  }

  lemma FirstNWithin()
    ensures FirstN(255) <= UpTo(255)
  {
    forall v | v in FirstN(255) ensures v in UpTo(255) {
      var j: nat :| j < 255 && Power(j) as int == v;
      PowerNonzero(j);
    }
  }

  /** 3 generates the nonzero bytes. */
  lemma EveryPower(x: bv8) returns (i: nat)
    requires x != 0
    ensures i < 255 && Power(i) == x
  {
    FirstNWithin();
    FirstNSize(255);
    Pigeonhole(FirstN(255), 255);
    assert x as int in UpTo(255);
    i :| i < 255 && Power(i) as int == x as int;
  }

  // ----- inverses and the substitution boxes

  /** The multiplicative inverse, and zero for zero. */
  ghost predicate InverseOf(x: bv8, y: bv8) {
    if x == 0 then y == 0 else Product(x, y) == 1
  }

  lemma PowerInverse(x: bv8, i: nat)
    requires i <= 255 && Power(i) == x
    ensures InverseOf(x, Power(255 - i)) && InverseOf(Power(255 - i), x)
  {
    PowerTimes(i, 255 - i);
    PowerTimes(255 - i, i);
    PowerNonzero(i);
    PowerNonzero(255 - i);
    KeyPowers();
  }

  lemma InverseUnique(x: bv8, y: bv8, z: bv8)
    requires InverseOf(x, y) && InverseOf(x, z)
    ensures y == z
  {
    if x != 0 {
      var i := EveryPower(x);
      ProductCancels(i, y, z);
    }
  }

  lemma InverseMutual(x: bv8)
    ensures exists y :: InverseOf(x, y) && InverseOf(y, x)
  {
    if x == 0 {
      assert InverseOf(0, 0);
    } else {
      var i := EveryPower(x);
      PowerInverse(x, i);
    }
  }

  ghost function Inverse(x: bv8): (y: bv8)
    ensures InverseOf(x, y)
  {
    InverseMutual(x);
    var y :| InverseOf(x, y);
    y
  }

  lemma InverseTwice(x: bv8)
    ensures Inverse(Inverse(x)) == x
  {
    InverseMutual(x);
    var y :| InverseOf(x, y) && InverseOf(y, x);
    InverseUnique(x, y, Inverse(x));
    InverseUnique(y, x, Inverse(y));
  }

  function Rotl(x: bv8, k: bv4): bv8
    requires k < 8
  {
    (x << k) | (x >> (8 - k))
  }

  /** The affine transformation of FIPS-197 section 5.1.1: a sum of rotations, plus 63. */
  function Affine(x: bv8): bv8 {
    x ^ Rotl(x, 1) ^ Rotl(x, 2) ^ Rotl(x, 3) ^ Rotl(x, 4) ^ 0x63
  }

  function Low(x: bv8): bv8 { x & 1 }

  /** The same transformation bit by bit, as FIPS-197 equation 5.1 writes it: bit i is the sum
      of bits i, i + 4, i + 5, i + 6 and i + 7 modulo 8, and of bit i of 63. */
  lemma AffineBits(x: bv8)
    ensures Low(Affine(x) >> 0) == Low((x >> 0) ^ (x >> 4) ^ (x >> 5) ^ (x >> 6) ^ (x >> 7) ^ (0x63 >> 0))
    ensures Low(Affine(x) >> 1) == Low((x >> 1) ^ (x >> 5) ^ (x >> 6) ^ (x >> 7) ^ (x >> 0) ^ (0x63 >> 1))
    ensures Low(Affine(x) >> 2) == Low((x >> 2) ^ (x >> 6) ^ (x >> 7) ^ (x >> 0) ^ (x >> 1) ^ (0x63 >> 2))
    ensures Low(Affine(x) >> 3) == Low((x >> 3) ^ (x >> 7) ^ (x >> 0) ^ (x >> 1) ^ (x >> 2) ^ (0x63 >> 3))
    ensures Low(Affine(x) >> 4) == Low((x >> 4) ^ (x >> 0) ^ (x >> 1) ^ (x >> 2) ^ (x >> 3) ^ (0x63 >> 4))
    ensures Low(Affine(x) >> 5) == Low((x >> 5) ^ (x >> 1) ^ (x >> 2) ^ (x >> 3) ^ (x >> 4) ^ (0x63 >> 5))
    ensures Low(Affine(x) >> 6) == Low((x >> 6) ^ (x >> 2) ^ (x >> 3) ^ (x >> 4) ^ (x >> 5) ^ (0x63 >> 6))
    ensures Low(Affine(x) >> 7) == Low((x >> 7) ^ (x >> 3) ^ (x >> 4) ^ (x >> 5) ^ (x >> 6) ^ (0x63 >> 7))
  {
  }

  /** The inverse affine transformation of section 5.3.2. */
  function AffineBack(y: bv8): bv8 {
    Rotl(y, 1) ^ Rotl(y, 3) ^ Rotl(y, 6) ^ 0x05
  }

  lemma AffineUndone(x: bv8)
    ensures AffineBack(Affine(x)) == x && Affine(AffineBack(x)) == x
  {
  }

  ghost function Sbox(x: bv8): bv8 { Affine(Inverse(x)) }

  ghost function InvSbox(y: bv8): bv8 { Inverse(AffineBack(y)) }

  /** The two boxes undo each other. */
  lemma BoxesUndo(x: bv8)
    ensures InvSbox(Sbox(x)) == x && Sbox(InvSbox(x)) == x
  {
    AffineUndone(Inverse(x));
    InverseTwice(x);
    AffineUndone(x);
    InverseTwice(AffineBack(x));
  }

  /** The cipher's field and boxes. */
  ghost function Rijndael(): Suite<bv8> {
    Suite(Bytes(), (x: bv8) => Sbox(x), (x: bv8) => InvSbox(x))
  }

  lemma RijndaelSound()
    ensures SoundSuite(Rijndael())
  {
    BytesSound();
    forall x: bv8 ensures BoxAt(Rijndael(), x) {
      BoxesUndo(x);
    }
  }
}
