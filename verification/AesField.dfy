/**
 * Bytes as elements of GF(2^8) and the two MixColumns matrices (FIPS-197 sections 4.2,
 * 4.3 and 5.1.3). The algebra is developed over an arbitrary carrier with an addition
 * and a multiplication by x, so that it rests on the field laws alone.
 */
module AesField {

  /** Addition, zero, and multiplication by x. */
  datatype Field<!T> = Field(add: (T, T) -> T, zero: T, xt: T -> T)

  // The coefficients of the forward and inverse MixColumns matrices.

  function Mul3<T>(f: Field<T>, x: T): T { f.add(f.xt(x), x) }

  function Mul9<T>(f: Field<T>, x: T): T { f.add(f.xt(f.xt(f.xt(x))), x) }

  function Mul11<T>(f: Field<T>, x: T): T { f.add(f.xt(f.xt(f.xt(x))), f.add(f.xt(x), x)) }

  function Mul13<T>(f: Field<T>, x: T): T { f.add(f.xt(f.xt(f.xt(x))), f.add(f.xt(f.xt(x)), x)) }

  function Mul14<T>(f: Field<T>, x: T): T { f.add(f.xt(f.xt(f.xt(x))), f.add(f.xt(f.xt(x)), f.xt(x))) }

  ghost predicate GroupAt<T>(f: Field<T>, x: T, y: T, z: T) {
    && f.add(x, y) == f.add(y, x)
    && f.add(f.add(x, y), z) == f.add(x, f.add(y, z))
    && f.add(x, f.zero) == x
    && f.add(x, x) == f.zero
  }

  ghost predicate LinearAt<T>(f: Field<T>, x: T, y: T) {
    f.xt(f.add(x, y)) == f.add(f.xt(x), f.xt(y))
  }

  /** A row of the inverse matrix times each of the four columns of the matrix. */
  ghost predicate UnmixAt<T>(f: Field<T>, a: T) {
    && f.add(f.add(Mul14(f, f.xt(a)), Mul11(f, a)), f.add(Mul13(f, a), Mul9(f, Mul3(f, a)))) == a
    && f.add(f.add(Mul14(f, Mul3(f, a)), Mul11(f, f.xt(a))), f.add(Mul13(f, a), Mul9(f, a))) == f.zero
    && f.add(f.add(Mul14(f, a), Mul11(f, Mul3(f, a))), f.add(Mul13(f, f.xt(a)), Mul9(f, a))) == f.zero
    && f.add(f.add(Mul14(f, a), Mul11(f, a)), f.add(Mul13(f, Mul3(f, a)), Mul9(f, f.xt(a)))) == f.zero
  }

  /** The laws of GF(2^8) that the cipher rests on. */
  ghost predicate Sound<T(!new)>(f: Field<T>) {
    && (forall x: T, y: T, z: T :: GroupAt(f, x, y, z))
    && (forall x: T, y: T :: LinearAt(f, x, y))
    && (forall a: T :: UnmixAt(f, a))
  }

  // ----- linear algebra over the bytes

  lemma Regroup<T(!new)>(f: Field<T>, a: T, b: T, c: T, d: T)
    requires Sound(f)
    ensures f.add(f.add(a, b), f.add(c, d)) == f.add(f.add(a, c), f.add(b, d))
  {
    assert GroupAt(f, a, b, f.add(c, d));
    assert GroupAt(f, b, c, d);
    assert GroupAt(f, c, b, d);
    assert GroupAt(f, a, c, f.add(b, d));
  }

  lemma Commute<T(!new)>(f: Field<T>, a: T, b: T)
    requires Sound(f)
    ensures f.add(a, b) == f.add(b, a)
  {
    assert GroupAt(f, a, b, a);
  }

  lemma Cancel<T(!new)>(f: Field<T>, a: T, b: T)
    requires Sound(f)
    ensures f.add(f.add(a, b), b) == a
  {
    assert GroupAt(f, a, b, b);
    assert GroupAt(f, b, b, b);
  }

  lemma LinearUse<T(!new)>(f: Field<T>, x: T, y: T)
    requires Sound(f)
    ensures f.xt(f.add(x, y)) == f.add(f.xt(x), f.xt(y))
    ensures f.xt(f.xt(f.add(x, y))) == f.add(f.xt(f.xt(x)), f.xt(f.xt(y)))
    ensures f.xt(f.xt(f.xt(f.add(x, y)))) == f.add(f.xt(f.xt(f.xt(x))), f.xt(f.xt(f.xt(y))))
  {
    assert LinearAt(f, x, y);
    assert LinearAt(f, f.xt(x), f.xt(y));
    assert LinearAt(f, f.xt(f.xt(x)), f.xt(f.xt(y)));
  }

  /** Each coefficient of the inverse matrix multiplies sums termwise. */
  lemma MulAdd<T(!new)>(f: Field<T>, x: T, y: T)
    requires Sound(f)
    ensures Mul9(f, f.add(x, y)) == f.add(Mul9(f, x), Mul9(f, y))
    ensures Mul11(f, f.add(x, y)) == f.add(Mul11(f, x), Mul11(f, y))
    ensures Mul13(f, f.add(x, y)) == f.add(Mul13(f, x), Mul13(f, y))
    ensures Mul14(f, f.add(x, y)) == f.add(Mul14(f, x), Mul14(f, y))
  {
    LinearUse(f, x, y);
    var x2, y2 := f.xt(x), f.xt(y);
    var x4, y4 := f.xt(x2), f.xt(y2);
    var x8, y8 := f.xt(x4), f.xt(y4);
    Regroup(f, x8, y8, x, y);
    Regroup(f, x2, y2, x, y);
    Regroup(f, x8, y8, f.add(x2, x), f.add(y2, y));
    Regroup(f, x4, y4, x, y);
    Regroup(f, x8, y8, f.add(x4, x), f.add(y4, y));
    Regroup(f, x4, y4, x2, y2);
    Regroup(f, x8, y8, f.add(x4, x2), f.add(y4, y2));
  }

  // ----- columns

  /** Four bytes: a column of the state, or a word of the key schedule. */
  datatype Col<T> = Col(b0: T, b1: T, b2: T, b3: T)

  function AddCol<T>(f: Field<T>, c: Col<T>, k: Col<T>): Col<T> {
    Col(f.add(c.b0, k.b0), f.add(c.b1, k.b1), f.add(c.b2, k.b2), f.add(c.b3, k.b3))
  }

  function MixRow<T>(f: Field<T>, a: T, b: T, c: T, d: T): T {
    f.add(f.add(f.xt(a), Mul3(f, b)), f.add(c, d))
  }

  function MixCol<T>(f: Field<T>, c: Col<T>): Col<T> {
    Col(MixRow(f, c.b0, c.b1, c.b2, c.b3), MixRow(f, c.b1, c.b2, c.b3, c.b0),
        MixRow(f, c.b2, c.b3, c.b0, c.b1), MixRow(f, c.b3, c.b0, c.b1, c.b2))
  }

  function UnmixRow<T>(f: Field<T>, a: T, b: T, c: T, d: T): T {
    f.add(f.add(Mul14(f, a), Mul11(f, b)), f.add(Mul13(f, c), Mul9(f, d)))
  }

  function UnmixCol<T>(f: Field<T>, c: Col<T>): Col<T> {
    Col(UnmixRow(f, c.b0, c.b1, c.b2, c.b3), UnmixRow(f, c.b1, c.b2, c.b3, c.b0),
        UnmixRow(f, c.b2, c.b3, c.b0, c.b1), UnmixRow(f, c.b3, c.b0, c.b1, c.b2))
  }

  lemma UnmixRowAdd<T(!new)>(f: Field<T>, c: Col<T>, k: Col<T>)
    requires Sound(f)
    ensures UnmixRow(f, f.add(c.b0, k.b0), f.add(c.b1, k.b1), f.add(c.b2, k.b2), f.add(c.b3, k.b3))
         == f.add(UnmixRow(f, c.b0, c.b1, c.b2, c.b3), UnmixRow(f, k.b0, k.b1, k.b2, k.b3))
  {
    MulAdd(f, c.b0, k.b0);
    MulAdd(f, c.b1, k.b1);
    MulAdd(f, c.b2, k.b2);
    MulAdd(f, c.b3, k.b3);
    var p, q := Mul14(f, c.b0), Mul14(f, k.b0);
    var r, s := Mul11(f, c.b1), Mul11(f, k.b1);
    var t, u := Mul13(f, c.b2), Mul13(f, k.b2);
    var v, w := Mul9(f, c.b3), Mul9(f, k.b3);
    Regroup(f, p, q, r, s);
    Regroup(f, t, u, v, w);
    Regroup(f, f.add(p, r), f.add(q, s), f.add(t, v), f.add(u, w));
  }

  /** InvMixColumns goes through AddRoundKey (FIPS-197 section 5.3.5). */
  lemma UnmixLinear<T(!new)>(f: Field<T>, c: Col<T>, k: Col<T>)
    requires Sound(f)
    ensures UnmixCol(f, AddCol(f, c, k)) == AddCol(f, UnmixCol(f, c), UnmixCol(f, k))
  {
    UnmixRowAdd(f, c, k);
    UnmixRowAdd(f, Col(c.b1, c.b2, c.b3, c.b0), Col(k.b1, k.b2, k.b3, k.b0));
    UnmixRowAdd(f, Col(c.b2, c.b3, c.b0, c.b1), Col(k.b2, k.b3, k.b0, k.b1));
    UnmixRowAdd(f, Col(c.b3, c.b0, c.b1, c.b2), Col(k.b3, k.b0, k.b1, k.b2));
  }

  /** The four mixed rows, each split into its a-b part and its c-d part. */
  lemma SplitRows<T(!new)>(f: Field<T>, a: T, b: T, c: T, d: T)
    requires Sound(f)
    ensures MixRow(f, b, c, d, a) == f.add(f.add(a, f.xt(b)), f.add(Mul3(f, c), d))
    ensures MixRow(f, c, d, a, b) == f.add(f.add(a, b), f.add(f.xt(c), Mul3(f, d)))
    ensures MixRow(f, d, a, b, c) == f.add(f.add(Mul3(f, a), b), f.add(c, f.xt(d)))
  {
    Regroup(f, f.xt(b), Mul3(f, c), a, d);
    Commute(f, d, a);
    Commute(f, f.xt(b), a);
    Commute(f, f.add(f.xt(c), Mul3(f, d)), f.add(a, b));
    Commute(f, f.xt(d), Mul3(f, a));
    Regroup(f, Mul3(f, a), f.xt(d), b, c);
    Commute(f, f.xt(d), c);
  }

  /** One row of the inverse matrix against the four mixed rows picks out one byte. */
  lemma UnmixOfMix<T(!new)>(f: Field<T>, a: T, b: T, c: T, d: T)
    requires Sound(f)
    ensures UnmixRow(f, MixRow(f, a, b, c, d), MixRow(f, b, c, d, a), MixRow(f, c, d, a, b), MixRow(f, d, a, b, c)) == a
  {
    var a2, b2, c2, d2 := f.xt(a), f.xt(b), f.xt(c), f.xt(d);
    var a3, b3, c3, d3 := Mul3(f, a), Mul3(f, b), Mul3(f, c), Mul3(f, d);
    SplitRows(f, a, b, c, d);
    UnmixRowAdd(f, Col(f.add(a2, b3), f.add(a, b2), f.add(a, b), f.add(a3, b)),
                   Col(f.add(c, d), f.add(c3, d), f.add(c2, d3), f.add(c, d2)));
    UnmixRowAdd(f, Col(a2, a, a, a3), Col(b3, b2, b, b));
    UnmixRowAdd(f, Col(c, c3, c2, c), Col(d, d, d3, d2));
    assert UnmixAt(f, a) && UnmixAt(f, b) && UnmixAt(f, c) && UnmixAt(f, d);
    assert GroupAt(f, a, f.zero, f.zero) && GroupAt(f, f.zero, f.zero, f.zero);
  }

  /** InvMixColumns undoes MixColumns. */
  lemma UnmixUndoesMix<T(!new)>(f: Field<T>, c: Col<T>)
    requires Sound(f)
    ensures UnmixCol(f, MixCol(f, c)) == c
  {
    UnmixOfMix(f, c.b0, c.b1, c.b2, c.b3);
    UnmixOfMix(f, c.b1, c.b2, c.b3, c.b0);
    UnmixOfMix(f, c.b2, c.b3, c.b0, c.b1);
    UnmixOfMix(f, c.b3, c.b0, c.b1, c.b2);
  }
}
