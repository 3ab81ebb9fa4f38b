/**
 * Multiplication by a byte (FIPS-197 section 4.2.1): Horner's rule on the bits of the
 * multiplier, over the arbitrary field of bytes of module AesField.
 */
module AesProduct {
  import opened AesField

  /** XTIME(x) & 0xFF in node_main/polarssl/aes.c. */
  function Xtime(x: bv8): bv8 {
    (x << 1) ^ (if x & 0x80 != 0 then 0x1B else 0)
  }

  function LowBit<T>(f: Field<T>, x: bv8, y: T): T {
    if x & 1 == 1 then y else f.zero
  }

  function Times<T>(f: Field<T>, x: bv8, y: T): T
    decreases x
  {
    if x == 0 then f.zero else f.add(LowBit(f, x, y), f.xt(Times(f, x >> 1, y)))
  }

  function Xt4<T>(f: Field<T>, y: T): T { f.xt(f.xt(f.xt(f.xt(y)))) }

  /** The field polynomial: x^8 = x^4 + x^3 + x + 1. */
  ghost predicate ReduceAt<T>(f: Field<T>, y: T) {
    Xt4(f, Xt4(f, y)) == f.add(y, f.xt(f.add(y, f.xt(f.xt(f.add(y, f.xt(y)))))))
  }

  ghost predicate Reduces<T(!new)>(f: Field<T>) {
    forall y: T :: ReduceAt(f, y)
  }

  lemma XtZero<T(!new)>(f: Field<T>)
    requires Sound(f)
    ensures f.xt(f.zero) == f.zero
  {
    assert GroupAt(f, f.zero, f.zero, f.zero) && LinearAt(f, f.zero, f.zero);
    assert GroupAt(f, f.xt(f.zero), f.xt(f.zero), f.zero);
  }

  lemma TimesStep<T(!new)>(f: Field<T>, x: bv8, y: T)
    requires Sound(f)
    ensures Times(f, x, y) == f.add(LowBit(f, x, y), f.xt(Times(f, x >> 1, y)))
  {
    XtZero(f);
    assert GroupAt(f, f.zero, f.zero, f.zero);
  }

  lemma LowBitXor<T(!new)>(f: Field<T>, x: bv8, z: bv8, y: T)
    requires Sound(f)
    ensures LowBit(f, x ^ z, y) == f.add(LowBit(f, x, y), LowBit(f, z, y))
  {
    assert GroupAt(f, y, y, y) && GroupAt(f, f.zero, f.zero, f.zero) && GroupAt(f, f.zero, y, y);
    BitXor(x, z);
  }

  lemma BitXor(x: bv8, z: bv8)
    ensures x & 1 == 0 || x & 1 == 1
    ensures (x ^ z) & 1 == 1 <==> x & 1 != z & 1
  {
  }

  lemma Halves(x: bv8, z: bv8)
    ensures (x ^ z) >> 1 == (x >> 1) ^ (z >> 1)
    ensures x | z != 0 ==> (x >> 1) | (z >> 1) < x | z
    ensures x | z == 0 ==> x == 0 && z == 0 && x ^ z == 0
  {
  }

  /** The product is linear in the multiplier. */
  lemma {:induction false} TimesXor<T(!new)>(f: Field<T>, x: bv8, z: bv8, y: T)
    requires Sound(f)
    ensures Times(f, x ^ z, y) == f.add(Times(f, x, y), Times(f, z, y))
    decreases x | z
  {
    Halves(x, z);
    if x | z != 0 {
      TimesXor(f, x >> 1, z >> 1, y);
      TimesXorStep(f, x, z, y);
    } else {
      assert GroupAt(f, f.zero, f.zero, f.zero);
    }
  }

  lemma TimesXorStep<T(!new)>(f: Field<T>, x: bv8, z: bv8, y: T)
    requires Sound(f)
    requires Times(f, (x ^ z) >> 1, y) == f.add(Times(f, x >> 1, y), Times(f, z >> 1, y))
    ensures Times(f, x ^ z, y) == f.add(Times(f, x, y), Times(f, z, y))
  {
    var p, q := Times(f, x >> 1, y), Times(f, z >> 1, y);
    TimesStep(f, x, y);
    TimesStep(f, z, y);
    TimesStep(f, x ^ z, y);
    LowBitXor(f, x, z, y);
    assert LinearAt(f, p, q);
    Regroup(f, LowBit(f, x, y), LowBit(f, z, y), f.xt(p), f.xt(q));
  }

  /** A multiplier without its low bit. */
  lemma TimesEven<T(!new)>(f: Field<T>, h: bv8, y: T)
    requires Sound(f) && h & 1 == 0
    ensures Times(f, h, y) == f.xt(Times(f, h >> 1, y))
  {
    var r := f.xt(Times(f, h >> 1, y));
    TimesStep(f, h, y);
    assert GroupAt(f, r, f.zero, r) && GroupAt(f, f.zero, r, r);
  }

  /** A multiplier with its low bit. */
  lemma TimesOdd<T(!new)>(f: Field<T>, h: bv8, y: T)
    requires Sound(f) && h & 1 == 1
    ensures Times(f, h, y) == f.add(y, f.xt(Times(f, h >> 1, y)))
  {
    TimesStep(f, h, y);
  }

  lemma TimesOne<T(!new)>(f: Field<T>, y: T)
    requires Sound(f)
    ensures Times(f, 1, y) == y
  {
    TimesOdd(f, 1, y);
    XtZero(f);
    assert GroupAt(f, y, f.zero, y);
  }

  lemma TimesHigh<T(!new)>(f: Field<T>, y: T)
    requires Sound(f)
    ensures f.xt(Times(f, 0x80, y)) == Xt4(f, Xt4(f, y))
  {
    TimesEven(f, 0x80, y);
    TimesEven(f, 0x40, y);
    TimesEven(f, 0x20, y);
    TimesEven(f, 0x10, y);
    TimesEven(f, 0x08, y);
    TimesEven(f, 0x04, y);
    TimesEven(f, 0x02, y);
    TimesOne(f, y);
  }

  lemma TimesPolynomial<T(!new)>(f: Field<T>, y: T)
    requires Sound(f)
    ensures Times(f, 0x1B, y) == f.add(y, f.xt(f.add(y, f.xt(f.xt(f.add(y, f.xt(y)))))))
  {
    TimesOdd(f, 0x1B, y);
    TimesOdd(f, 0x0D, y);
    TimesEven(f, 0x06, y);
    TimesOdd(f, 0x03, y);
    TimesOne(f, y);
  }

  lemma TopAway(x: bv8)
    ensures var h := x & 0x7F;
            && (h << 1) >> 1 == h && (h << 1) & 1 == 0
            && (if x & 0x80 != 0 then x == h ^ 0x80 && Xtime(x) == (h << 1) ^ 0x1B else x == h && Xtime(x) == h << 1)
  {
  }

  /** A factor x comes out of the product. */
  lemma TimesXtime<T(!new)>(f: Field<T>, x: bv8, y: T)
    requires Sound(f) && Reduces(f)
    ensures Times(f, Xtime(x), y) == f.xt(Times(f, x, y))
  {
    var h := x & 0x7F;
    TopAway(x);
    TimesEven(f, h << 1, y);
    if x & 0x80 != 0 {
      TimesXor(f, h << 1, 0x1B, y);
      TimesXor(f, h, 0x80, y);
      TimesHigh(f, y);
      TimesPolynomial(f, y);
      assert ReduceAt(f, y);
      assert LinearAt(f, Times(f, h, y), Times(f, 0x80, y));
    }
  }

  /** The multipliers of the inverse MixColumns matrix. */
  lemma TimesCoefficients<T(!new)>(f: Field<T>, y: T)
    requires Sound(f)
    ensures Times(f, 0x09, y) == Mul9(f, y) && Times(f, 0x0B, y) == Mul11(f, y)
    ensures Times(f, 0x0D, y) == Mul13(f, y) && Times(f, 0x0E, y) == Mul14(f, y)
  {
    var y2 := f.xt(y);
    var y4 := f.xt(y2);
    var y8 := f.xt(y4);
    TimesOne(f, y);
    TimesEven(f, 2, y);
    TimesEven(f, 4, y);
    TimesOdd(f, 3, y);
    TimesOdd(f, 9, y);
    Commute(f, y, y8);
    TimesOdd(f, 5, y);
    TimesEven(f, 6, y);
    TimesOdd(f, 7, y);
    TimesOdd(f, 0x0B, y);
    TimesOdd(f, 0x0D, y);
    TimesEven(f, 0x0E, y);
    LinearUse(f, y, y4);
    LinearUse(f, y, y2);
    LinearUse(f, y2, y4);
    LinearUse(f, y, f.add(y2, y4));
    assert Mul11(f, y) == f.add(y, f.add(y2, y8)) by { Turn(f, y8, y2, y); }
    assert Mul13(f, y) == f.add(y, f.add(y4, y8)) by { Turn(f, y8, y4, y); }
    assert Mul14(f, y) == f.add(y2, f.add(y4, y8)) by { Turn(f, y8, y4, y2); }
  }

  lemma Turn<T(!new)>(f: Field<T>, a: T, b: T, c: T)
    requires Sound(f)
    ensures f.add(a, f.add(b, c)) == f.add(c, f.add(b, a))
  {
    assert GroupAt(f, a, b, c) && GroupAt(f, f.add(a, b), c, c) && GroupAt(f, a, b, a);
  }
}
