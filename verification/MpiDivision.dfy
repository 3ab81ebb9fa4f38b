/** Normalised long division of bignum.c (HAC 14.20), double-limb branch. */
module MpiDivision {
  import opened Limbs
  import opened MpiCore
  import opened MpiAddSub
  import opened MpiMul
  import opened MpiShift

  // ----- C's truncating division

  ghost function TruncDiv(a: int, b: int): int
    requires b != 0
  {
    var q := Quot(AbsInt(a), AbsInt(b));
    if (a < 0) == (b < 0) then q else -q
  }

  ghost function TruncMod(a: int, b: int): int
    requires b != 0
  {
    var r := Rem(AbsInt(a), AbsInt(b));
    if a < 0 then -r else r
  }

  lemma TruncIdentity(a: int, b: int)
    requires b != 0
    ensures a == b * TruncDiv(a, b) + TruncMod(a, b)
    ensures AbsInt(TruncMod(a, b)) < AbsInt(b)
    ensures TruncMod(a, b) != 0 ==> (TruncMod(a, b) < 0) == (a < 0)
  {
    var q := Quot(AbsInt(a), AbsInt(b));
    NegProduct(b, q);
  }

  lemma NegProduct(b: int, q: int)
    ensures (-b) * q == -(b * q) && b * (-q) == -(b * q) && (-b) * (-q) == b * q
  {
  }

  // ----- one quotient digit, in numbers

  /** The three-limb window of the dividend, zero-extended at the bottom. */
  ghost function Top3(p: seq<Limb>, i: nat): int
    requires 1 <= i < |p|
  {
    (if i < 2 then 0 else p[i - 2]) + BASE * (p[i - 1] + BASE * p[i])
  }

  /** The two-limb window of the divisor. */
  ghost function Top2(p: seq<Limb>, t: nat): int
    requires t < |p|
  {
    (if t < 1 then 0 else p[t - 1]) + BASE * p[t]
  }

  /** A digit that the two-limb refinement leaves: maximal with q * Top2 <= Top3. */
  ghost predicate Refined(q: int, y2: int, x3: int) {
    0 <= q < BASE && y2 * q <= x3 && (q == BASE - 1 || y2 * (q + 1) > x3)
  }

  /** Such a digit is the true one or one too large. */
  lemma DigitBound(u: int, v: int, w: int, x3: int, y2: int, xl: int, yl: int, q: int)
    requires w >= 1 && u == xl + w * x3 && 0 <= xl < w
    requires v == yl + w * y2 && 0 <= yl < w
    requires 4 * y2 >= BASE * BASE && u < BASE * v
    requires Refined(q, y2, x3)
    ensures v > 0 && -v <= u - v * q < v
  {
    BaseFacts();
    // w * y2 covers the error of at most BASE * w
    MulLe(BASE, 4, BASE);
    assert y2 >= BASE;
    MulLe(w, BASE, y2);
    PosMul(w, BASE);
    UpperDigit(u, v, w, x3, y2, xl, yl, q);
    LowerDigit(u, v, w, x3, y2, xl, yl, q);
  }

  lemma UpperDigit(u: int, v: int, w: int, x3: int, y2: int, xl: int, yl: int, q: int)
    requires w >= 1 && u == xl + w * x3 && 0 <= xl < w
    requires v == yl + w * y2 && 0 <= yl < w
    requires u < BASE * v && Refined(q, y2, x3)
    ensures u - v * q < v
  {
    Distr(v, q, 1);
    if q == BASE - 1 {
      Comm(BASE, v);
    } else {
      CarryBound(xl, w, x3, y2 * (q + 1));
      Assoc(w, y2, q + 1);
      MulLe(q + 1, w * y2, v);
      Comm(q + 1, w * y2);
      Comm(q + 1, v);
    }
  }

  lemma LowerDigit(u: int, v: int, w: int, x3: int, y2: int, xl: int, yl: int, q: int)
    requires w >= 1 && u == xl + w * x3 && 0 <= xl < w
    requires v == yl + w * y2 && 0 <= yl < w
    requires Refined(q, y2, x3) && w * BASE <= w * y2
    ensures -v <= u - v * q
  {
    MulLe(w, y2 * q, x3);
    Assoc(w, y2, q);
    Comm(v, q);
    Distr(q, yl, w * y2);
    Comm(q, w * y2);
    MulLe(q, yl, w);
    Comm(q, w);
    MulLe(w, q, BASE);
  }

  /** The first estimate never undershoots the digit. */
  method EstimateDigit(xi: Limb, xi1: Limb, yt: Limb) returns (q: Limb)
    requires yt > 0
    ensures q == BASE - 1 || yt * (q as int + 1) > xi1 + BASE * xi
  {
    BaseFacts();
    if xi >= yt { return BASE - 1; }
    var r := Quot(xi1 + BASE * xi, yt);
    PosMul0(BASE, xi);
    Distr(yt, r, 1);
    if r > BASE - 1 { r := BASE - 1; }
    q := r;
  }

  /** From the one-limb estimate to the two-limb one. */
  lemma EstimateTwo(q: int, yt: int, ylo: int, x1: int, xlo: int)
    requires 0 <= q && 0 <= ylo && 0 <= xlo < BASE && yt * (q + 1) > x1
    ensures (ylo + BASE * yt) * (q + 1) > xlo + BASE * x1
  {
    var y := yt * (q + 1);
    CarryBound(xlo, BASE, x1, y);
    Assoc(BASE, yt, q + 1);
    Comm(ylo + BASE * yt, q + 1);
    Distr(q + 1, ylo, BASE * yt);
    PosMul0(q + 1, ylo);
    Comm(q + 1, BASE * yt);
  }

  // ----- the windows inside the limb buffers

  const SQ: int := BASE * BASE

  lemma Horner3(w: int, a: int, b: int, c: int)
    ensures w * a + (BASE * w) * b + (BASE * (BASE * w)) * c == w * (a + BASE * (b + BASE * c))
  {
    Comm(BASE, w);
    Assoc(w, BASE, b);
    Comm(BASE, w * BASE);
    Assoc(w, BASE, BASE);
    Assoc(w, BASE * BASE, c);
    Assoc(BASE, BASE, c);
    Distr(BASE, b, BASE * c);
    Distr(w, a, BASE * b + BASE * (BASE * c));
    Distr(w, BASE * b, BASE * (BASE * c));
  }

  lemma SqScale(w: int, x: int)
    ensures SQ * (w * x) == (BASE * (BASE * w)) * x
  {
    Assoc(BASE, BASE, w * x);
    Assoc(BASE, w, x);
    Assoc(BASE, BASE * w, x);
  }

  lemma SqBelow(lo: int, w: int)
    requires 0 <= lo < w
    ensures 0 <= SQ * lo < BASE * (BASE * w)
  {
    BaseFacts();
    PosMul(BASE, BASE);
    MulLt(SQ, lo, w);
    PosMul0(SQ, lo);
    Assoc(BASE, BASE, w);
  }

  lemma WindowX(p: seq<Limb>, i: nat) returns (xl: int)
    requires 1 <= i < |p| && Val(p) < W(i + 1)
    ensures 0 <= xl < W(i) && SQ * Val(p) == xl + W(i) * Top3(p, i)
  {
    ValSmall(p, i + 1);
    ValSnoc(p, i);
    ValSnoc(p, i - 1);
    if i < 2 {
      xl := 0;
      WindowXLow(p);
    } else {
      ValSnoc(p, i - 2);
      ValBound(p[..i - 2]);
      WindowScale(Val(p[..i - 2]), W(i - 2), p[i - 2], p[i - 1], p[i]);
      xl := SQ * Val(p[..i - 2]);
    }
  }

  lemma WindowXLow(p: seq<Limb>)
    requires 1 < |p| && Val(p) < W(2)
    ensures W(1) > 0 && SQ * Val(p) == W(1) * Top3(p, 1)
  {
    ValSmall(p, 2);
    ValSnoc(p, 1);
    ValSnoc(p, 0);
    assert p[..0] == [] && W(0) == 1 && W(1) == BASE;
    assert Val(p) == p[0] + BASE * p[1];
    Assoc(BASE, BASE, Val(p));
  }

  lemma WindowScale(lo: int, w: int, a: int, b: int, c: int)
    requires 0 <= lo < w
    ensures SQ * (lo + w * a + (BASE * w) * b + (BASE * (BASE * w)) * c)
         == SQ * lo + (BASE * (BASE * w)) * (a + BASE * (b + BASE * c))
    ensures 0 <= SQ * lo < BASE * (BASE * w)
  {
    var top := a + BASE * (b + BASE * c);
    Horner3(w, a, b, c);
    SqScale(w, top);
    Distr(SQ, lo, w * top);
    SqBelow(lo, w);
  }

  lemma WindowY(p: seq<Limb>, t: nat, i: nat) returns (yl: int)
    requires t < i && t < |p| && Val(p) < W(t + 1)
    ensures 0 <= yl < W(i) && SQ * (W(i - t - 1) * Val(p)) == yl + W(i) * Top2(p, t)
  {
    if t < 1 {
      WindowYLow(p, i);
      yl := 0;
    } else {
      yl := WindowYHigh(p, t, i);
    }
  }

  lemma WindowYLow(p: seq<Limb>, i: nat)
    requires 0 < i && p != [] && Val(p) < W(1)
    ensures W(i) > 0 && SQ * (W(i - 1) * Val(p)) == W(i) * Top2(p, 0)
  {
    ValSmall(p, 1);
    ValSnoc(p, 0);
    var s := W(i - 1);
    assert p[..0] == [];
    SqScale(s, Val(p));
    assert W(i) == BASE * s;
    Comm(BASE, W(i));
    Assoc(W(i), BASE, p[0]);
  }

  lemma WindowYHigh(p: seq<Limb>, t: nat, i: nat) returns (yl: int)
    requires 1 <= t < i && t < |p| && Val(p) < W(t + 1)
    ensures 0 <= yl < W(i) && SQ * (W(i - t - 1) * Val(p)) == yl + W(i) * Top2(p, t)
  {
    var s, w, lo := W(i - t - 1), W(t - 1), Val(p[..t - 1]);
    ValSmall(p, t + 1);
    ValSnoc(p, t);
    ValSnoc(p, t - 1);
    ValBound(p[..t - 1]);
    Horner3(w, p[t - 1], p[t], 0);
    assert Val(p) == lo + w * Top2(p, t);
    WAdd(i - t - 1, t - 1);
    assert W(i) == BASE * (BASE * (s * w));
    yl := WindowRow(lo, w, s, Top2(p, t));
  }

  lemma WindowRow(lo: int, w: int, s: int, top: int) returns (yl: int)
    requires 0 <= lo < w && s >= 1
    ensures 0 <= yl < BASE * (BASE * (s * w))
    ensures SQ * (s * (lo + w * top)) == yl + (BASE * (BASE * (s * w))) * top
  {
    MulLt(s, lo, w);
    PosMul0(s, lo);
    Distr(s, lo, w * top);
    Assoc(s, w, top);
    Distr(SQ, s * lo, (s * w) * top);
    SqScale(s * w, top);
    SqBelow(s * lo, s * w);
    yl := SQ * (s * lo);
  }

  lemma Top2Big(yp: seq<Limb>, t: nat)
    requires t < |yp| && 4 * (yp[t] as int) >= BASE
    ensures 4 * Top2(yp, t) >= BASE * BASE
  {
    BaseFacts();
    MulLe(BASE, BASE, 4 * (yp[t] as int));
    Assoc(BASE, 4, yp[t]);
    Comm(BASE, 4);
    Assoc(4, BASE, yp[t]);
  }

  lemma ScaledBelow(x: int, y: int)
    requires x < BASE * y
    ensures SQ * x < BASE * (SQ * y)
  {
    BaseFacts();
    PosMul(BASE, BASE);
    MulLt(SQ, x, BASE * y);
    Assoc(SQ, BASE, y);
    Comm(SQ, BASE);
    Assoc(BASE, SQ, y);
  }

  lemma ScaledError(x: int, y: int, q: int)
    requires -(SQ * y) <= SQ * x - (SQ * y) * q < SQ * y
    ensures -y <= x - y * q < y
  {
    BaseFacts();
    PosMul(BASE, BASE);
    Assoc(SQ, y, q);
    NegProduct(SQ, y * q);
    Distr(SQ, x, -(y * q));
    Unscale(SQ, x - y * q, y);
  }

  /** After refinement one add-back is enough: X - Y' * q lies in [-Y', Y'). */
  lemma DigitError(xp: seq<Limb>, yp: seq<Limb>, i: nat, t: nat, q: int)
    requires t < i < |xp| && t < |yp|
    requires Val(yp) < W(t + 1) && 4 * (yp[t] as int) >= BASE
    requires Val(xp) < W(i - t) * Val(yp)
    requires Refined(q, Top2(yp, t), Top3(xp, i))
    ensures var y1 := W(i - t - 1) * Val(yp); -y1 <= Val(xp) - y1 * q < y1
  {
    var y1 := W(i - t - 1) * Val(yp);
    WAdd(i - t, t + 1);
    MulLe(W(i - t), Val(yp), W(t + 1));
    var xl := WindowX(xp, i);
    var yl := WindowY(yp, t, i);
    Assoc(BASE, W(i - t - 1), Val(yp));
    ScaledBelow(Val(xp), y1);
    Top2Big(yp, t);
    DigitBound(SQ * Val(xp), SQ * y1, W(i), Top3(xp, i), Top2(yp, t), xl, yl, q);
    ScaledError(Val(xp), y1, q);
  }

  lemma Unscale(c: int, e: int, y: int)
    requires c > 0 && -(c * y) <= c * e < c * y
    ensures -y <= e < y
  {
    if e >= y { MulLe(c, y, e); }
    if e < -y { MulLt(c, e, -y); }
  }

  // ----- the division on objects

  /** `mpi_lset(&T1, 0); T1.p[0] = a; T1.p[1] = b;` */
  method LoadTwo(T: Mpi, a: Limb, b: Limb)
    requires |T.p| >= 2
    modifies T
    ensures |T.p| == old(|T.p|) && T.V() == a + BASE * b
  {
    BaseFacts();
    Lset(T, 0);
    T.p := T.p[0 := a];
    T.p := T.p[1 := b];
    ValTrim(T.p, 2);
    assert T.p[..2] == [a, b] && [a, b][1..] == [b];
    ValSingle(b);
  }

  /** `mpi_lset(&T2, 0); T2.p[0] = a; T2.p[1] = b; T2.p[2] = c;` */
  method LoadThree(T: Mpi, a: Limb, b: Limb, c: Limb)
    requires |T.p| >= 3
    modifies T
    ensures |T.p| == old(|T.p|) && T.V() == a + BASE * (b + BASE * c)
  {
    BaseFacts();
    Lset(T, 0);
    T.p := T.p[0 := a];
    T.p := T.p[1 := b];
    T.p := T.p[2 := c];
    ValTrim(T.p, 3);
    assert T.p[..3] == [a, b, c] && [a, b, c][1..] == [b, c] && [b, c][1..] == [c];
    ValSingle(c);
  }

  /** One evaluation of the do-while condition: does q * Top2 exceed Top3? */
  method TooLarge(X: Mpi, Y: Mpi, T1: Mpi, T2: Mpi, i: nat, t: nat, q: Limb) returns (more: bool)
    requires T1 != X && T1 != Y && T2 != X && T2 != Y && T1 != T2
    requires t < i < |X.p| && t < |Y.p| && |T1.p| >= 2 && |T2.p| >= 3
    modifies T1, T2
    ensures |T1.p| >= 2 && |T2.p| >= 3
    ensures more <==> Top2(Y.p, t) * q > Top3(X.p, i)
  {
    LoadTwo(T1, if t < 1 then 0 else Y.p[t - 1], Y.p[t]);
    MulInt(T1, T1, q);
    LoadThree(T2, if i < 2 then 0 else X.p[i - 2], X.p[i - 1], X.p[i]);
    var r := CmpMpi(T1, T2);
    more := r > 0;
  }

  /** The do-while: the digit is bumped, then lowered until two limbs of the divisor fit three of X. */
  method RefineDigit(X: Mpi, Y: Mpi, Z: Mpi, T1: Mpi, T2: Mpi, i: nat, t: nat)
    requires T1 != X && T1 != Y && T2 != X && T2 != Y && T1 != T2
    requires Z != X && Z != Y && Z != T1 && Z != T2
    requires t < i < |X.p| && t < |Y.p| && i - t - 1 < |Z.p| && |T1.p| >= 2 && |T2.p| >= 3
    requires var q := Z.p[i - t - 1];
      q == BASE - 1 || Top2(Y.p, t) * (q as int + 1) > Top3(X.p, i)
    modifies Z`p, T1, T2
    ensures |T1.p| >= 2 && |T2.p| >= 3 && |Z.p| == old(|Z.p|)
    ensures Z.p == old(Z.p)[i - t - 1 := Z.p[i - t - 1]]
    ensures Refined(Z.p[i - t - 1], Top2(Y.p, t), Top3(X.p, i))
  {
    BaseFacts();
    var j := i - t - 1;
    ghost var q: int := Z.p[j];
    ghost var y2, x3 := Top2(Y.p, t), Top3(X.p, i);
    Top3NonNeg(X.p, i);
    Z.p := Z.p[j := Wrap(Z.p[j] as int + 1)];
    var more := true;
    while more
      invariant |T1.p| >= 2 && |T2.p| >= 3 && |Z.p| == old(|Z.p|)
      invariant Z.p == old(Z.p)[j := Z.p[j]]
      invariant 0 <= q < BASE && (q == BASE - 1 || y2 * (q + 1) > x3)
      invariant if more then Z.p[j] == Wrap(q + 1) else Z.p[j] == q && y2 * q <= x3
      decreases q, more
    {
      Z.p := Z.p[j := Borrow(Z.p[j] as int - 1)];
      assert Z.p[j] == q;
      more := TooLarge(X, Y, T1, T2, i, t, Z.p[j]);
      assert y2 * 0 == 0;
      if more { q := q - 1; }
    }
  }

  lemma Top3NonNeg(p: seq<Limb>, i: nat)
    requires 1 <= i < |p|
    ensures Top3(p, i) >= 0
  {
    BaseFacts();
    PosMul0(BASE, p[i]);
    PosMul0(BASE, p[i - 1] + BASE * p[i]);
  }

  /** X -= (Y * q) << (biL * j). */
  method SubtractRow(X: Mpi, Y: Mpi, T1: Mpi, j: nat, q: Limb)
    requires X != Y && X != T1 && Y != T1 && Y.s == 1
    modifies X, T1
    ensures X.V() == old(X.V()) - (W(j) * Val(Y.p)) * q
    ensures |X.p| >= old(|X.p|) && |T1.p| >= old(|T1.p|)
  {
    MulInt(T1, Y, q);
    PosMul0(Val(Y.p), q);
    PosMul0(LIMB_BITS, j);
    ShiftL(T1, LIMB_BITS * j);
    WIsPow2(j);
    Assoc(W(j), Val(Y.p), q);
    PosMul0(W(j), Val(Y.p) * q);
    SignedScale(T1.s, W(j), Val(Y.p) * q);
    SubMpi(X, X, T1);
  }

  /** A zero with a negative sign is still zero. */
  lemma SignedScale(s: Sign, w: int, v: int)
    requires s == 1 || v == 0
    ensures (if s < 0 then -(w * v) else w * v) == w * v
  {
  }

  /** X += Y << (biL * j). */
  method AddBack(X: Mpi, Y: Mpi, T1: Mpi, j: nat)
    requires X != Y && X != T1 && Y != T1 && Y.s == 1 && Y.p != []
    modifies X, T1
    ensures X.V() == old(X.V()) + W(j) * Val(Y.p)
    ensures |X.p| >= old(|X.p|) && |T1.p| >= old(|T1.p|)
  {
    Copy(T1, Y);
    PosMul0(LIMB_BITS, j);
    ShiftL(T1, LIMB_BITS * j);
    WIsPow2(j);
    AddMpi(X, X, T1);
  }

  /** The objects of one division, and what normalisation established about the divisor. */
  ghost predicate Divisor(Y: Mpi, t: nat)
    reads Y
  {
    Y.s == 1 && t < |Y.p| && Val(Y.p) < W(t + 1) && 4 * (Y.p[t] as int) >= BASE
  }

  ghost predicate Distinct(X: Mpi, Y: Mpi, Z: Mpi, T1: Mpi, T2: Mpi) {
    X != Y && X != Z && X != T1 && X != T2 && Y != Z && Y != T1 && Y != T2 && Z != T1 && Z != T2 && T1 != T2
  }

  /** One pass of the main loop produces one exact quotient digit. */
  method DivStep(X: Mpi, Y: Mpi, Z: Mpi, T1: Mpi, T2: Mpi, i: nat, t: nat)
    requires Distinct(X, Y, Z, T1, T2) && Divisor(Y, t)
    requires t < i < |X.p| && i - t - 1 < |Z.p| && |T1.p| >= 2 && |T2.p| >= 3
    requires 0 <= X.V() < W(i - t) * Val(Y.p)
    modifies X, Z`p, T1, T2
    ensures |X.p| >= old(|X.p|) && |T1.p| >= 2 && |T2.p| >= 3 && |Z.p| == old(|Z.p|)
    ensures Z.p == old(Z.p)[i - t - 1 := Z.p[i - t - 1]]
    ensures var y1 := W(i - t - 1) * Val(Y.p);
      X.V() == old(X.V()) - y1 * Z.p[i - t - 1] && 0 <= X.V() < y1
  {
    BaseFacts();
    var j := i - t - 1;
    assert X.V() == Val(X.p);
    var q := EstimateDigit(X.p[i], X.p[i - 1], Y.p[t]);
    if q < BASE - 1 {
      EstimateTwo(q, Y.p[t], if t < 1 then 0 else Y.p[t - 1],
                  X.p[i - 1] + BASE * X.p[i], if i < 2 then 0 else X.p[i - 2]);
    }
    Z.p := Z.p[j := q];
    RefineDigit(X, Y, Z, T1, T2, i, t);
    DigitError(X.p, Y.p, i, t, Z.p[j]);
    FinishDigit(X, Y, Z, T1, j);
  }

  /** Multiply, subtract, and add back once when the result is negative. */
  method FinishDigit(X: Mpi, Y: Mpi, Z: Mpi, T1: Mpi, j: nat)
    requires X != Y && X != T1 && Y != T1 && Z != X && Z != Y && Z != T1
    requires Y.s == 1 && Y.p != [] && j < |Z.p| && X.V() >= 0
    requires var y1 := W(j) * Val(Y.p); -y1 <= X.V() - y1 * Z.p[j] < y1
    modifies X, Z`p, T1
    ensures |X.p| >= old(|X.p|) && |T1.p| >= old(|T1.p|) && |Z.p| == old(|Z.p|)
    ensures Z.p == old(Z.p)[j := Z.p[j]]
    ensures var y1 := W(j) * Val(Y.p);
      X.V() == old(X.V()) - y1 * Z.p[j] && 0 <= X.V() < y1
  {
    BaseFacts();
    ghost var y1 := W(j) * Val(Y.p);
    ghost var q: int := Z.p[j];
    SubtractRow(X, Y, T1, j, Z.p[j]);
    var r := CmpInt(X, 0);
    if r < 0 {
      AddBack(X, Y, T1, j);
      assert y1 * 0 == 0;
      Z.p := Z.p[j := Borrow(Z.p[j] as int - 1)];
      Distr(y1, q, -1);
    }
  }

  // ----- normalisation

  lemma LimbsForBitsOf(n: nat, i: int)
    requires LIMB_BITS * (n - 1) < i <= LIMB_BITS * n && i >= 0
    ensures LimbsForBits(i) == n
  {
    Distr(LIMB_BITS, n, -1);
    QuotUnique(i + LIMB_BITS - 1, LIMB_BITS, n, i - 1 - LIMB_BITS * (n - 1));
  }

  lemma UsedBits(p: seq<Limb>)
    requires p != [] && Used(p) == |p|
    ensures LimbsForBits(BitLen(Val(p))) == |p|
    ensures LIMB_BITS * (|p| - 1) < BitLen(Val(p)) <= LIMB_BITS * |p|
  {
    UsedValue(p);
    BitLenMin(Val(p), |p| - 1);
    BitLenMax(p);
    LimbsForBitsOf(|p|, BitLen(Val(p)));
  }

  lemma BitLenMin(v: nat, n: nat)
    requires W(n) <= v
    ensures LIMB_BITS * n < BitLen(v)
  {
    WIsPow2(n);
    PosMul0(LIMB_BITS, n);
    BitLenBounds(v);
    if BitLen(v) <= LIMB_BITS * n { Pow2Mono(BitLen(v), LIMB_BITS * n); }
  }

  lemma BitLenShift(v: nat, k: nat)
    requires v > 0
    ensures Pow2(k) * v > 0 && BitLen(Pow2(k) * v) == BitLen(v) + k
  {
    var bl := BitLen(v);
    BitLenBounds(v);
    PosMul(Pow2(k), v);
    Pow2Add(k, bl);
    Pow2Add(k, bl - 1);
    MulLe(Pow2(k), Pow2(bl - 1), v);
    MulLt(Pow2(k), v, Pow2(bl));
    BitLenUnique(Pow2(k) * v, bl + k);
  }

  /** The top limb holds one bit less than a full limb. */
  lemma TopLimbNormal(p: seq<Limb>, m: nat)
    requires |p| == m + 1 && Val(p) > 0 && BitLen(Val(p)) == LIMB_BITS * m + (LIMB_BITS - 1)
    ensures 4 * (p[m] as int) >= BASE
  {
    var c := Pow2(LIMB_BITS - 2);
    PosMul0(LIMB_BITS, m);
    BitLenBounds(Val(p));
    Pow2Add(LIMB_BITS * m, LIMB_BITS - 2);
    WIsPow2(m);
    ValSplit(p, m);
    assert p[m..] == [p[m]];
    ValSingle(p[m]);
    ValBound(p[..m]);
    if p[m] < c {
      CarryBound(Val(p[..m]), W(m), p[m], c);
    }
    QuarterBase();
  }

  lemma QuarterBase()
    ensures BASE == 4 * Pow2(LIMB_BITS - 2)
  {
    assert Pow2(LIMB_BITS) == 2 * Pow2(LIMB_BITS - 1);
    assert Pow2(LIMB_BITS - 1) == 2 * Pow2(LIMB_BITS - 2);
  }

  lemma NormalDivisor(yp: seq<Limb>, np: seq<Limb>, k: nat, m: nat)
    requires yp != [] && Used(yp) == |yp| && BitLen(Val(yp)) + k == LIMB_BITS * m + (LIMB_BITS - 1)
    requires |np| == m + 1 && Val(np) == Pow2(k) * Val(yp)
    ensures 4 * (np[m] as int) >= BASE
  {
    UsedValue(yp);
    BitLenShift(Val(yp), k);
    TopLimbNormal(np, m);
  }

  /** The shift after which a number ends one bit below a limb boundary, above m limbs. */
  method NormalShift(Y: Mpi) returns (k: nat, ghost m: nat)
    requires Y.p != [] && Used(Y.p) == |Y.p|
    ensures k < LIMB_BITS && BitLen(Val(Y.p)) + k == LIMB_BITS * m + (LIMB_BITS - 1)
    ensures Max(|Y.p|, LimbsForBits(BitLen(Val(Y.p)) + k)) == m + 1 && (k == 0 ==> |Y.p| == m + 1)
  {
    var bits := Msb(Y);
    k := Rem(bits, LIMB_BITS);
    m := Quot(bits, LIMB_BITS);
    k := if k < LIMB_BITS - 1 then LIMB_BITS - 1 - k else 0;
    UsedBits(Y.p);
    NormalLength(|Y.p|, bits, k, m);
  }

  method ShiftBoth(X: Mpi, Y: Mpi, k: nat)
    requires X != Y && X.p != [] && Y.p != [] && k < LIMB_BITS
    modifies X`p, Y`p
    ensures Val(X.p) == Pow2(k) * old(Val(X.p)) && Val(Y.p) == Pow2(k) * old(Val(Y.p))
    ensures old(|X.p|) <= |X.p| <= old(|X.p|) + 1
    ensures |Y.p| == if k == 0 then old(|Y.p|) else Max(old(|Y.p|), LimbsForBits(BitLen(old(Val(Y.p))) + k))
  {
    if k > 0 {
      GrowthBound(X.p, k);
      ShiftL(X, k);
      ShiftL(Y, k);
    }
  }

  /** Shift both so that the divisor's top limb has biL - 1 bits. */
  method Normalise(X: Mpi, Y: Mpi) returns (k: nat)
    requires X != Y && X.s == 1 && Y.s == 1 && X.p != [] && Y.p != [] && Used(Y.p) == |Y.p|
    modifies X`p, Y`p
    ensures Val(X.p) == Pow2(k) * old(Val(X.p)) && Val(Y.p) == Pow2(k) * old(Val(Y.p))
    ensures Y.p != [] && Divisor(Y, |Y.p| - 1)
    ensures old(|X.p|) <= |X.p| <= old(|X.p|) + 1
  {
    ghost var yp, m := Y.p, 0;
    k, m := NormalShift(Y);
    ShiftBoth(X, Y, k);
    NormalDivisor(yp, Y.p, k, m);
    ValBound(Y.p);
  }

  lemma BitLenMax(p: seq<Limb>)
    ensures BitLen(Val(p)) <= LIMB_BITS * |p|
  {
    ValBound(p);
    WIsPow2(|p|);
    PosMul0(LIMB_BITS, |p|);
    if Val(p) > 0 {
      BitLenBounds(Val(p));
      if BitLen(Val(p)) > LIMB_BITS * |p| { Pow2Mono(LIMB_BITS * |p|, BitLen(Val(p)) - 1); }
    }
  }

  lemma GrowthBound(p: seq<Limb>, k: nat)
    requires k < LIMB_BITS
    ensures LimbsForBits(BitLen(Val(p)) + k) <= |p| + 1
  {
    BitLenMax(p);
    Distr(LIMB_BITS, |p|, 1);
    GrowEnough(|p| + 1, BitLen(Val(p)) + k);
  }

  lemma NormalLength(len: nat, bits: nat, k: nat, m: nat)
    requires LimbsForBits(bits) == len && LIMB_BITS * (len - 1) < bits
    requires bits + k == LIMB_BITS * m + (LIMB_BITS - 1) && k < LIMB_BITS
    ensures Max(len, LimbsForBits(bits + k)) == m + 1
    ensures k == 0 ==> len == m + 1
  {
    Distr(LIMB_BITS, m, 1);
    LimbsForBitsOf(m + 1, bits + k);
    if len > m + 1 { MulLe(LIMB_BITS, m + 1, len - 1); }
  }

  // ----- the top digit and the digit loop

  lemma DivisorValue(Y: Mpi, t: nat)
    requires Divisor(Y, t)
    ensures 4 * Val(Y.p) >= W(t + 1) && Val(Y.p) > 0
  {
    BaseFacts();
    ValSmall(Y.p, t + 1);
    ValSnoc(Y.p, t);
    MulLe(W(t), BASE, 4 * (Y.p[t] as int));
    Assoc(4, W(t), Y.p[t]);
    Comm(4, W(t));
    Assoc(W(t), 4, Y.p[t]);
    Comm(W(t), BASE);
  }

  /** Only the value decides a limb below the top. */
  lemma SameTopLimb(p: seq<Limb>, q: seq<Limb>, t: nat)
    requires t < |p| && t < |q| && Val(p) == Val(q) < W(t + 1)
    ensures p[t] == q[t]
  {
    ValSmall(p, t + 1);
    ValSmall(q, t + 1);
    ValSnoc(p, t);
    ValSnoc(q, t);
    ValBound(p[..t]);
    ValBound(q[..t]);
    QuotUnique(Val(p), W(t), p[t], Val(p[..t]));
    QuotUnique(Val(q), W(t), q[t], Val(q[..t]));
  }

  /** At most three subtractions: the shifted divisor is at least a quarter of the weight above X. */
  lemma FewSubtractions(x0: int, yy: int, z: int, w: int)
    requires 0 <= z && x0 - yy * z >= yy && x0 < w && 4 * yy >= w && yy > 0
    ensures z < 3
  {
    if z >= 3 {
      MulLe(yy, 3, z);
    }
  }

  lemma ShiftedDivisor(y: int, w: int, t: nat, n: nat)
    requires t <= n && w == W(n - t) && 4 * y >= W(t + 1) && y > 0
    ensures w * y > 0 && 4 * (w * y) >= W(n + 1)
  {
    PosMul(w, y);
    WAdd(n - t, t + 1);
    MulLe(w, W(t + 1), 4 * y);
    Assoc(w, 4, y);
    Comm(w, 4);
    Assoc(4, w, y);
  }

  /** The loop that counts subtractions of the fully shifted divisor. */
  method CountTop(X: Mpi, Y: Mpi, Z: Mpi, n: nat, j: nat)
    requires X != Y && X != Z && Y != Z && X.s == 1 && Y.s == 1
    requires j < |Z.p| && Z.p[j] == 0 && Val(X.p) < W(n + 1) <= 4 * Val(Y.p) && Val(Y.p) > 0
    modifies X, Z`p
    ensures |X.p| >= old(|X.p|) && |Z.p| == old(|Z.p|) && Z.p == old(Z.p)[j := Z.p[j]]
    ensures X.V() == old(X.V()) - Val(Y.p) * Z.p[j] && 0 <= X.V() < Val(Y.p)
  {
    BaseFacts();
    ghost var x0, yy := X.V(), Val(Y.p);
    ghost var z := 0;
    assert yy * 0 == 0;
    var r := CmpMpi(X, Y);
    while r >= 0
      invariant |X.p| >= old(|X.p|) && |Z.p| == old(|Z.p|) && Z.p == old(Z.p)[j := Z.p[j]]
      invariant 0 <= z <= 3 && Z.p[j] == z && X.V() == x0 - yy * z >= 0
      invariant r == Signum(X.V() - Y.V())
      decreases 3 - z
    {
      FewSubtractions(x0, yy, z, W(n + 1));
      Distr(yy, z, 1);
      Z.p := Z.p[j := Wrap(Z.p[j] as int + 1)];
      SubMpi(X, X, Y);
      z := z + 1;
      r := CmpMpi(X, Y);
    }
  }

  /** Shift the divisor to the top, count, and shift it back. */
  method TopDigit(X: Mpi, Y: Mpi, Z: Mpi, n: nat, t: nat)
    requires X != Y && X != Z && Y != Z && X.s == 1 && Divisor(Y, t) && t <= n
    requires n - t < |Z.p| && Z.p[n - t] == 0 && Val(X.p) < W(n + 1)
    modifies X, Y, Z`p
    ensures |X.p| >= old(|X.p|) && |Z.p| == old(|Z.p|) && Z.p == old(Z.p)[n - t := Z.p[n - t]]
    ensures Divisor(Y, t) && Val(Y.p) == old(Val(Y.p))
    ensures X.V() == old(X.V()) - (W(n - t) * Val(Y.p)) * Z.p[n - t]
    ensures 0 <= X.V() < W(n - t) * Val(Y.p)
  {
    ghost var yp := Y.p;
    var sh := LIMB_BITS * (n - t);
    PosMul0(LIMB_BITS, n - t);
    WIsPow2(n - t);
    DivisorValue(Y, t);
    ShiftedDivisor(Val(yp), W(n - t), t, n);
    ShiftL(Y, sh);
    CountTop(X, Y, Z, n, n - t);
    RestoreDivisor(Y, sh, yp, t);
  }

  /** The shift back gives the divisor with its top limb where it was. */
  method RestoreDivisor(Y: Mpi, sh: nat, ghost yp: seq<Limb>, t: nat)
    requires Y.s == 1 && t < |yp| && 0 < Val(yp) < W(t + 1) && 4 * (yp[t] as int) >= BASE
    requires Val(Y.p) == Pow2(sh) * Val(yp) && |Y.p| >= |yp|
    modifies Y
    ensures Divisor(Y, t) && Val(Y.p) == Val(yp)
  {
    QuotUnique(Val(Y.p), Pow2(sh), Val(yp), 0);
    ShiftR(Y, sh);
    SameTopLimb(yp, Y.p, t);
  }

  /** All remaining digits. */
  method DigitLoop(X: Mpi, Y: Mpi, Z: Mpi, T1: Mpi, T2: Mpi, n: nat, t: nat)
    requires Distinct(X, Y, Z, T1, T2) && Divisor(Y, t) && t <= n < |X.p|
    requires n - t < |Z.p| && |T1.p| >= 2 && |T2.p| >= 3
    requires forall k :: 0 <= k < n - t ==> Z.p[k] == 0
    requires 0 <= X.V() < W(n - t) * Val(Y.p)
    modifies X, Z`p, T1, T2
    ensures X.V() + Val(Y.p) * Val(Z.p) == old(X.V()) + Val(Y.p) * old(Val(Z.p))
    ensures 0 <= X.V() < Val(Y.p)
    ensures |X.p| > n && |Z.p| > n - t
  {
    ghost var y, sum := Val(Y.p), X.V() + Val(Y.p) * Val(Z.p);
    var i := n;
    while i > t
      invariant t <= i <= n < |X.p| && n - t < |Z.p| && |T1.p| >= 2 && |T2.p| >= 3
      invariant forall k :: 0 <= k < i - t ==> Z.p[k] == 0
      invariant 0 <= X.V() < W(i - t) * y && X.V() + y * Val(Z.p) == sum
    {
      ghost var zp := Z.p;
      DivStep(X, Y, Z, T1, T2, i, t);
      ghost var j := i - t - 1;
      ValSet(zp, j, Z.p[j]);
      DigitSum(y, W(j), Z.p[j], Val(zp));
      i := i - 1;
    }
  }

  lemma DigitSum(y: int, w: int, q: int, z: int)
    ensures y * (z + w * q) == y * z + (w * y) * q
  {
    Distr(y, z, w * q);
    Assoc(y, w, q);
    Comm(y, w);
  }

  // ----- the whole division

  lemma UnscaleRemainder(a: int, b: int, c: int, z: int, x: int)
    requires c > 0 && b > 0 && c * a == x + (c * b) * z && 0 <= x < c * b
    ensures Quot(x, c) == Rem(a, b) && z == Quot(a, b)
  {
    var r := a - b * z;
    Assoc(c, b, z);
    NegProduct(c, b * z);
    Distr(c, a, -(b * z));
    assert c * r == x;
    if r < 0 { MulLe(c, r, -1); }
    if r >= b { MulLe(c, b, r); }
    QuotUnique(x, c, r, 0);
    QuotUnique(a, b, z, r);
  }

  /** Divide the positive copies: the quotient appears in Z and the remainder in X. */
  method DivPositive(X: Mpi, Y: Mpi, an: nat) returns (Z: Mpi)
    requires X != Y && X.s == 1 && Y.s == 1 && X.p != [] && Y.p != [] && Used(Y.p) == |Y.p|
    requires Val(X.p) >= Val(Y.p) > 0 && |X.p| <= Max(1, an)
    modifies X, Y
    ensures fresh(Z) && Z.s == 1 && Z.p != []
    ensures Val(Z.p) == Quot(old(Val(X.p)), old(Val(Y.p)))
    ensures Val(X.p) == Rem(old(Val(X.p)), old(Val(Y.p))) && X.p != []
  {
    ghost var a, b := Val(X.p), Val(Y.p);
    BaseFacts();
    UsedValue(Y.p);
    Z := new Mpi.Init();
    Grow(Z, an + 2);
    Lset(Z, 0);
    var T1 := new Mpi.Init();
    Grow(T1, 2);
    var T2 := new Mpi.Init();
    Grow(T2, 3);
    var k := Normalise(X, Y);
    var n, t := |X.p| - 1, |Y.p| - 1;
    LengthOrder(X.p, Y.p, a, b, k);
    DivDigits(X, Y, Z, T1, T2, n, t);
    UnscaleRemainder(a, b, Pow2(k), Val(Z.p), X.V());
    ShiftR(X, k);
  }

  lemma LengthOrder(xp: seq<Limb>, yp: seq<Limb>, a: int, b: int, k: nat)
    requires 0 < b <= a && Val(xp) == Pow2(k) * a && Val(yp) == Pow2(k) * b && yp != []
    requires 4 * (yp[|yp| - 1] as int) >= BASE
    ensures |xp| >= |yp|
  {
    BaseFacts();
    ValAtLeast(yp, |yp| - 1);
    MulLe(Pow2(k), b, a);
    ValBound(xp);
    if |xp| < |yp| { WMono(|xp|, |yp| - 1); }
  }

  method DivDigits(X: Mpi, Y: Mpi, Z: Mpi, T1: Mpi, T2: Mpi, n: nat, t: nat)
    requires Distinct(X, Y, Z, T1, T2) && X.s == 1 && Divisor(Y, t) && t <= n && |X.p| == n + 1
    requires n - t < |Z.p| && |T1.p| >= 2 && |T2.p| >= 3 && Z.s == 1
    requires forall k :: 0 <= k < |Z.p| ==> Z.p[k] == 0
    modifies X, Y, Z`p, T1, T2
    ensures X.V() + old(Val(Y.p)) * Val(Z.p) == old(Val(X.p))
    ensures 0 <= X.V() < old(Val(Y.p))
    ensures X.p != [] && Z.p != []
  {
    ghost var y := Val(Y.p);
    ghost var zp := Z.p;
    ValZeros(zp);
    ValBound(X.p);
    TopDigit(X, Y, Z, n, t);
    ValSet(zp, n - t, Z.p[n - t]);
    DigitSum(y, W(n - t), Z.p[n - t], 0);
    DigitLoop(X, Y, Z, T1, T2, n, t);
  }

  lemma UsedFull(p: seq<Limb>)
    requires p != [] && W(|p| - 1) <= Val(p)
    ensures Used(p) == |p|
  {
    UsedValue(p);
    if Used(p) < |p| { WMono(Used(p), |p| - 1); }
  }

  /** mpi_copy into a fresh object, with the sign cleared. */
  method PositiveCopy(A: Mpi) returns (X: Mpi)
    requires Val(A.p) > 0
    ensures fresh(X) && X.s == 1 && Val(X.p) == Val(A.p)
    ensures X.p != [] && |X.p| <= |A.p| && Used(X.p) == |X.p|
  {
    X := new Mpi.Init();
    UsedValue(A.p);
    Copy(X, A);
    X.s := 1;
    UsedFull(X.p);
  }

  /** Store the quotient: the signs are read after Q has been overwritten. */
  method StoreQuotient(Q: Mpi, Z: Mpi, A: Mpi, B: Mpi)
    requires Z.p != [] && Z.s == 1 && Z != Q && Z != A && Z != B
    modifies Q
    ensures Val(Q.p) == Val(Z.p) && Q.p != [] && |Q.p| >= old(|Q.p|)
    ensures Q.s == if (Q != A && old(A.s) < 0) == (Q != B && old(B.s) < 0) then 1 else -1
  {
    Copy(Q, Z);
    Q.s := if (A.s < 0) == (B.s < 0) then 1 else -1;
  }

  method StoreRemainder(R: Mpi, X: Mpi, A: Mpi)
    requires X.p != [] && X != R && X != A
    modifies R, X
    ensures R.V() == old(if A.s < 0 then -Val(X.p) else Val(X.p))
    ensures R.V() == 0 ==> R.s == 1
    ensures R.p != [] && |R.p| >= old(|R.p|)
  {
    BaseFacts();
    X.s := A.s;
    Copy(R, X);
    var r := CmpInt(R, 0);
    if r == 0 { R.s := 1; }
  }

  /** An operand as mpi_div_mpi sees it for the quotient's sign: lost if Q is that operand. */
  ghost function SeenAs(lost: bool, v: int): int {
    if lost then AbsInt(v) else v
  }

  /** The remainder mpi_div_mpi stores: if Q is the dividend, that has by then been overwritten
      by zero or by the quotient, whose sign the remainder takes. */
  ghost function RemainderSeen(lostA: bool, lostB: bool, a: int, b: int): int
    requires b != 0
  {
    if !lostA then TruncMod(a, b)
    else if AbsInt(a) < AbsInt(b) then 0
    else TruncMod(if SeenAs(lostB, b) < 0 then -AbsInt(a) else AbsInt(a), b)
  }

  lemma QuotientZero(a: int, b: int)
    requires b != 0
    ensures Quot(AbsInt(a), AbsInt(b)) == 0 <==> AbsInt(a) < AbsInt(b)
    ensures AbsInt(a) < AbsInt(b) ==> Rem(AbsInt(a), AbsInt(b)) == AbsInt(a)
  {
    if AbsInt(a) < AbsInt(b) { QuotUnique(AbsInt(a), AbsInt(b), 0, AbsInt(a)); }
  }

  /** The quotient is right if and only if it is zero or the sign lost does not matter. */
  lemma AliasedQuotientExact(lostA: bool, lostB: bool, a: int, b: int)
    requires b != 0
    ensures TruncDiv(SeenAs(lostA, a), SeenAs(lostB, b)) == TruncDiv(a, b) <==>
      AbsInt(a) < AbsInt(b) || (lostA && a < 0) == (lostB && b < 0)
  {
    QuotientZero(a, b);
  }

  /** The remainder is right if and only if Q is not the dividend, the division leaves none,
      or the quotient's sign, as stored, is the dividend's. */
  lemma AliasedRemainderExact(lostA: bool, lostB: bool, a: int, b: int)
    requires b != 0
    ensures RemainderSeen(lostA, lostB, a, b) == TruncMod(a, b) <==>
      || !lostA
      || Rem(AbsInt(a), AbsInt(b)) == 0
      || (AbsInt(a) >= AbsInt(b) && (SeenAs(lostB, b) < 0) == (a < 0))
  {
    QuotientZero(a, b);
  }

  /** Dividing -3 by 2 into the dividend itself gives 1 instead of -1, remainder 1 instead of -1. */
  lemma AliasedWitness()
    ensures TruncDiv(-3, 2) == -1 && TruncDiv(SeenAs(true, -3), 2) == 1
    ensures TruncMod(-3, 2) == -1 && RemainderSeen(true, false, -3, 2) == 1
  {
    QuotUnique(3, 2, 1, 1);
  }

  /**
   * A = Q * B + R, truncating toward zero, for any of the objects being one.
   * When Q is A or B, that operand is overwritten before its sign is read; when Q is R, the
   * remainder overwrites the quotient.
   */
  method DivMpi(Q: Mpi?, R: Mpi?, A: Mpi, B: Mpi) returns (ret: Ret)
    modifies Q, R
    ensures ret == if old(B.V()) == 0 then DivisionByZero else Ok
    ensures ret == DivisionByZero && Q != null ==> Q.p == old(Q.p) && Q.s == old(Q.s)
    ensures ret == DivisionByZero && R != null ==> R.p == old(R.p) && R.s == old(R.s)
    ensures ret == Ok && Q != null && Q != R ==>
      Q.p != [] && Q.V() == TruncDiv(SeenAs(Q == A, old(A.V())), SeenAs(Q == B, old(B.V())))
    ensures ret == Ok && R != null ==> R.V() == RemainderSeen(Q == A, Q == B, old(A.V()), old(B.V()))
    ensures ret == Ok && R != null && old(A.p) != [] ==> R.p != [] && |R.p| >= old(|R.p|)
  {
    BaseFacts();
    ghost var a, b := A.V(), B.V();
    var r := CmpInt(B, 0);
    if r == 0 { return DivisionByZero; }
    r := CmpAbs(A, B);
    if r < 0 {
      QuotUnique(AbsInt(a), AbsInt(b), 0, AbsInt(a));
      if Q != null { Lset(Q, 0); }
      if R != null { Copy(R, A); }
    } else {
      DivLarge(Q, R, A, B);
    }
    ret := Ok;
  }

  /** The case |A| >= |B| > 0. */
  method DivLarge(Q: Mpi?, R: Mpi?, A: Mpi, B: Mpi)
    requires Val(A.p) >= Val(B.p) > 0
    modifies Q, R
    ensures Q != null && Q != R ==>
      Q.p != [] && Q.V() == TruncDiv(SeenAs(Q == A, old(A.V())), SeenAs(Q == B, old(B.V())))
    ensures R != null ==> R.V() == RemainderSeen(Q == A, Q == B, old(A.V()), old(B.V()))
    ensures R != null ==> R.p != [] && |R.p| >= old(|R.p|)
  {
    var X := PositiveCopy(A);
    var Y := PositiveCopy(B);
    ghost var a, b := A.V(), B.V();
    var Z := DivPositive(X, Y, |A.p|);
    StoreResults(Q, R, Z, X, A, B);
    QuotientZero(a, b);
  }

  /** The end of mpi_div_mpi: quotient first, then the remainder with the sign A has by then. */
  method StoreResults(Q: Mpi?, R: Mpi?, Z: Mpi, X: Mpi, A: Mpi, B: Mpi)
    requires Z.p != [] && X.p != [] && Z.s == 1 && X != Z
    requires {Z, X} !! {Q, R, A, B}
    modifies Q, R, X
    ensures var a, b, z, x := old(A.s), old(B.s), old(Val(Z.p)), old(Val(X.p));
      var negative := (Q != A && a < 0) != (Q != B && b < 0);
      && (Q != null && Q != R ==> Q.p != [] && Q.V() == if negative then -z else z)
      && (R != null ==> R.p != [] && |R.p| >= old(|R.p|)
                        && R.V() == if (if Q == A then negative else a < 0) then -x else x)
  {
    if Q != null { StoreQuotient(Q, Z, A, B); }
    if R != null { StoreRemainder(R, X, A); }
  }

  method DivInt(Q: Mpi?, R: Mpi?, A: Mpi, z: int) returns (ret: Ret)
    requires AbsInt(z) < BASE
    modifies Q, R
    ensures ret == if z == 0 then DivisionByZero else Ok
    ensures ret == Ok && Q != null && Q != R ==> Q.p != [] && Q.V() == TruncDiv(SeenAs(Q == A, old(A.V())), z)
    ensures ret == Ok && R != null ==> R.V() == RemainderSeen(Q == A, false, old(A.V()), z)
  {
    var B := new Mpi.Init();
    B.p := [AbsInt(z)];
    B.s := if z < 0 then -1 else 1;
    ValSingle(B.p[0]);
    ret := DivMpi(Q, R, A, B);
  }

  /** Euclidean remainder for a positive modulus. */
  ghost function Mod(a: int, m: int): (r: int)
    requires m > 0
    ensures 0 <= r < m
  {
    Rem(a, m)
  }

  lemma ModUnique(a: int, m: int, q: int, r: int)
    requires 0 <= r < m && a == m * q + r
    ensures Mod(a, m) == r
  {
    QuotUnique(a, m, q, r);
  }

  /** Adding a multiple of the modulus changes nothing. */
  lemma ModShift(a: int, m: int, k: int)
    requires m > 0
    ensures Mod(a + m * k, m) == Mod(a, m)
  {
    Distr(m, Quot(a, m), k);
    ModUnique(a + m * k, m, Quot(a, m) + k, Mod(a, m));
  }

  lemma ModFromTrunc(a: int, m: int)
    requires m > 0
    ensures Mod(TruncMod(a, m), m) == Mod(a, m)
  {
    TruncIdentity(a, m);
    ModShift(TruncMod(a, m), m, TruncDiv(a, m));
  }

  /** R = A mod B with 0 <= R < B. */
  method ModMpi(R: Mpi, A: Mpi, B: Mpi) returns (ret: Ret)
    requires R != B
    modifies R
    ensures ret == if B.V() < 0 then NegativeValue else if B.V() == 0 then DivisionByZero else Ok
    ensures ret != Ok ==> R.p == old(R.p) && R.s == old(R.s)
    ensures ret == Ok ==> R.V() == Mod(old(A.V()), B.V())
    ensures ret == Ok && old(A.p) != [] ==> R.p != [] && |R.p| >= old(|R.p|)
  {
    BaseFacts();
    var r := CmpInt(B, 0);
    if r < 0 { return NegativeValue; }
    ret := DivMpi(null, R, A, B);
    if ret != Ok { return; }
    ModFromTrunc(old(A.V()), B.V());
    ModFix(R, B);
  }

  /** The two correction loops of mpi_mod_mpi bring any value into range. */
  method ModFix(R: Mpi, B: Mpi)
    requires R != B && B.V() > 0
    modifies R
    ensures R.V() == Mod(old(R.V()), B.V())
    ensures |R.p| >= old(|R.p|)
  {
    BaseFacts();
    ghost var m := B.V();
    ghost var k := 0;
    assert m * 0 == 0;
    var r := CmpInt(R, 0);
    while r < 0
      invariant r == Signum(R.V()) && |R.p| >= old(|R.p|)
      invariant R.V() == old(R.V()) + m * k
      decreases -R.V()
    {
      AddMpi(R, R, B);
      Distr(m, k, 1);
      k := k + 1;
      r := CmpInt(R, 0);
    }
    r := CmpMpi(R, B);
    while r >= 0
      invariant r == Signum(R.V() - m) && R.V() >= 0 && |R.p| >= old(|R.p|)
      invariant R.V() == old(R.V()) + m * k
      decreases R.V()
    {
      SubMpi(R, R, B);
      Distr(m, k, -1);
      k := k - 1;
      r := CmpMpi(R, B);
    }
    ModShift(old(R.V()), m, k);
    ModUnique(R.V(), m, 0, R.V());
  }
}
