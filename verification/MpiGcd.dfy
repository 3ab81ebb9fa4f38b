/** Binary greatest common divisor of bignum.c (HAC 14.54). */
module MpiGcd {
  import opened Limbs
  import opened MpiCore
  import opened MpiAddSub
  import opened MpiShift

  ghost predicate Divides(d: int, a: int) {
    exists k :: a == d * k
  }

  /** The greatest common divisor: it divides both, and every common divisor divides it. */
  ghost predicate IsGcd(g: int, a: int, b: int) {
    && g >= 0 && Divides(g, a) && Divides(g, b)
    && forall d :: Divides(d, a) && Divides(d, b) ==> Divides(d, g)
  }

  lemma DividesMul(d: int, a: int, k: int)
    requires Divides(d, a)
    ensures Divides(d, a * k)
  {
    var q :| a == d * q;
    Assoc(d, q, k);
    assert a * k == d * (q * k);
  }

  lemma DividesSum(d: int, a: int, b: int)
    requires Divides(d, a) && Divides(d, b)
    ensures Divides(d, a + b) && Divides(d, a - b)
  {
    var p :| a == d * p;
    var q :| b == d * q;
    Distr(d, p, q);
    Distr(d, p, -q);
    assert d * -q == -(d * q);
    assert a + b == d * (p + q) && a - b == d * (p - q);
  }

  /** Same common divisors, same greatest one. */
  ghost predicate SameDivisors(a: int, b: int, c: int, e: int) {
    forall d :: Divides(d, a) && Divides(d, b) <==> Divides(d, c) && Divides(d, e)
  }

  lemma GcdTransfer(g: int, a: int, b: int, c: int, e: int)
    requires IsGcd(g, a, b) && SameDivisors(a, b, c, e)
    ensures IsGcd(g, c, e)
  {
  }

  lemma GcdZero(b: int)
    requires b >= 0
    ensures IsGcd(b, 0, b)
  {
    assert 0 == b * 0 && b == b * 1;
  }

  lemma SubKeepsDivisors(a: int, b: int)
    ensures SameDivisors(a - b, b, a, b)
  {
    forall d | Divides(d, b) ensures Divides(d, a - b) <==> Divides(d, a) {
      if Divides(d, a) { DividesSum(d, a, b); }
      if Divides(d, a - b) { DividesSum(d, a - b, b); }
    }
  }

  lemma DividesOdd(d: int, b: int)
    requires b % 2 == 1 && Divides(d, b)
    ensures d % 2 == 1
  {
    var k :| b == d * k;
    if d % 2 == 0 {
      Assoc(2, d / 2, k);
    }
  }

  /** A common divisor of 2a and an odd b divides a. */
  lemma HalfKeepsDivisors(a: int, b: int)
    requires b % 2 == 1
    ensures SameDivisors(a, b, 2 * a, b)
  {
    forall d | Divides(d, b) ensures Divides(d, a) <==> Divides(d, 2 * a) {
      if Divides(d, a) {
        DividesMul(d, a, 2);
        Comm(a, 2);
      }
      if Divides(d, 2 * a) {
        DividesOdd(d, b);
        var k :| 2 * a == d * k;
        EvenFactor(d, k, a);
        assert a == d * (k / 2);
      }
    }
  }

  lemma {:induction false} OddPartKeepsDivisors(a: nat, b: int)
    requires b % 2 == 1
    ensures SameDivisors(OddPart(a), b, a, b)
  {
    if a != 0 && a % 2 == 0 {
      OddPartKeepsDivisors(a / 2, b);
      HalfKeepsDivisors(a / 2, b);
    }
  }

  /** A common factor two of both numbers is a factor of the result. */
  lemma GcdDouble(g: int, a: int, b: int)
    requires IsGcd(g, a, b)
    ensures IsGcd(2 * g, 2 * a, 2 * b)
  {
    var p :| a == g * p;
    var q :| b == g * q;
    Assoc(2, g, p);
    Assoc(2, g, q);
    assert 2 * a == (2 * g) * p && 2 * b == (2 * g) * q;
    forall d | Divides(d, 2 * a) && Divides(d, 2 * b) ensures Divides(d, 2 * g) {
      DoubleDivisor(d, g, a, b);
    }
  }

  lemma DoubleDivisor(d: int, g: int, a: int, b: int)
    requires IsGcd(g, a, b) && Divides(d, 2 * a) && Divides(d, 2 * b)
    ensures Divides(d, 2 * g)
  {
    var p :| 2 * a == d * p;
    var q :| 2 * b == d * q;
    if d % 2 == 0 {
      var e := d / 2;
      Assoc(2, e, p);
      Assoc(2, e, q);
      assert a == e * p && b == e * q;
      assert Divides(e, a) && Divides(e, b);
      var k :| g == e * k;
      Assoc(2, e, k);
      assert 2 * g == d * k;
    } else {
      EvenFactor(d, p, a);
      EvenFactor(d, q, b);
      assert Divides(d, a) && Divides(d, b);
      DividesMul(d, g, 2);
      Comm(g, 2);
    }
  }

  lemma {:induction false} GcdScale(k: nat, g: int, a: int, b: int)
    requires IsGcd(g, a, b)
    ensures IsGcd(Pow2(k) * g, Pow2(k) * a, Pow2(k) * b)
  {
    if k > 0 {
      GcdScale(k - 1, g, a, b);
      GcdDouble(Pow2(k - 1) * g, Pow2(k - 1) * a, Pow2(k - 1) * b);
      Assoc(2, Pow2(k - 1), g);
      Assoc(2, Pow2(k - 1), a);
      Assoc(2, Pow2(k - 1), b);
    }
  }

  // ----- the loop

  /** What the loop keeps: a nonzero TB, the common divisors, and one odd number. */
  ghost predicate GcdInv(x: int, y: int, a: int, b: int) {
    && x >= 0 && y > 0 && SameDivisors(x, y, a, b)
    && (x > 0 ==> x % 2 == 1 || y % 2 == 1)
  }

  lemma GcdStep(x: int, y: int, a: int, b: int)
    requires GcdInv(x, y, a, b) && x > 0
    ensures var x1, y1 := OddPart(x), OddPart(y);
      && 0 < x1 <= x && 0 < y1 <= y && x1 % 2 == 1 && y1 % 2 == 1
      && (x1 >= y1 ==> GcdInv(Quot(x1 - y1, 2), y1, a, b))
      && (x1 < y1 ==> GcdInv(x1, Quot(y1 - x1, 2), a, b))
  {
    OddPartBounds(x);
    OddPartBounds(y);
    var x1, y1 := OddPart(x), OddPart(y);
    if y % 2 == 1 {
      OddPartKeepsDivisors(x, y);
    } else {
      OddPartKeepsDivisors(y, x);
      SameSwap(y1, x, y, x);
    }
    SameTrans(x1, y1, x, y, a, b);
    if x1 >= y1 {
      GcdHalve(x1, y1, (x1 - y1) / 2, a, b);
    } else {
      SameSwap(x1, y1, a, b);
      GcdHalve(y1, x1, (y1 - x1) / 2, b, a);
      SameSwap((y1 - x1) / 2, x1, b, a);
    }
  }

  /** Replacing the larger of two odd numbers by half the difference. */
  lemma GcdHalve(x: int, y: int, h: int, a: int, b: int)
    requires x % 2 == 1 && y % 2 == 1 && x - y == 2 * h && SameDivisors(x, y, a, b)
    ensures SameDivisors(h, y, a, b)
  {
    HalfKeepsDivisors(h, y);
    SubKeepsDivisors(x, y);
    SameTrans(h, y, x - y, y, x, y);
    SameTrans(h, y, x, y, a, b);
  }

  lemma SameTrans(a: int, b: int, c: int, d: int, e: int, f: int)
    requires SameDivisors(a, b, c, d) && SameDivisors(c, d, e, f)
    ensures SameDivisors(a, b, e, f)
  {
  }

  lemma SameSwap(a: int, b: int, c: int, d: int)
    requires SameDivisors(a, b, c, d)
    ensures SameDivisors(b, a, d, c)
  {
  }

  lemma {:induction false} OddPartBounds(v: nat)
    ensures OddPart(v) <= v && (v > 0 ==> OddPart(v) > 0 && OddPart(v) % 2 == 1)
  {
    if v != 0 && v % 2 == 0 { OddPartBounds(v / 2); }
  }

  /** X >>= mpi_lsb(X). */
  method StripTwos(X: Mpi)
    modifies X
    ensures Val(X.p) == OddPart(old(Val(X.p))) && (X.s == old(X.s) || X.s == 1)
    ensures |X.p| >= old(|X.p|)
  {
    var z := Lsb(X);
    TwosOdd(Val(X.p));
    QuotUnique(Val(X.p), Pow2(z), OddPart(Val(X.p)), 0);
    ShiftR(X, z);
  }

  /** What one pass makes of the two numbers. */
  ghost function Passed(x: nat, y: nat): (int, int) {
    var x1, y1 := OddPart(x), OddPart(y);
    if x1 >= y1 then (Quot(x1 - y1, 2), y1) else (x1, Quot(y1 - x1, 2))
  }

  /** A pass keeps the common divisors and brings the sum down. */
  lemma PassKeeps(x: nat, y: nat, a: int, b: int, p: (int, int))
    requires x > 0 && (y == 0 || GcdInv(x, y, a, b)) && p == Passed(x, y)
    ensures 0 <= p.0 && 0 <= p.1 && p.0 + p.1 < x + y
    ensures if y == 0 then p.1 == 0 else GcdInv(p.0, p.1, a, b)
  {
    OddPartBounds(x);
    OddPartBounds(y);
    if y != 0 { GcdStep(x, y, a, b); }
  }

  /** One pass: strip, compare, subtract, halve. */
  method GcdPass(TA: Mpi, TB: Mpi)
    requires TA != TB && TA.s == 1 && TB.s == 1 && Val(TA.p) > 0
    modifies TA, TB
    ensures TA.s == 1 && TB.s == 1 && |TB.p| >= old(|TB.p|)
    ensures (Val(TA.p), Val(TB.p)) == Passed(old(Val(TA.p)), old(Val(TB.p)))
  {
    StripTwos(TA);
    StripTwos(TB);
    var r := CmpMpi(TA, TB);
    if r >= 0 {
      var _ := SubAbs(TA, TA, TB);
      HalvePositive(TA);
    } else {
      var _ := SubAbs(TB, TB, TA);
      HalvePositive(TB);
    }
  }

  method HalvePositive(X: Mpi)
    requires X.s == 1
    modifies X
    ensures X.s == 1 && Val(X.p) == Quot(old(Val(X.p)), 2) && |X.p| >= old(|X.p|)
  {
    assert Pow2(1) == 2;
    ShiftR(X, 1);
  }

  /** The main loop, for a nonzero second number. */
  method GcdLoop(TA: Mpi, TB: Mpi, ghost a: int, ghost b: int)
    requires TA != TB && TA.s == 1 && TB.s == 1
    requires GcdInv(Val(TA.p), Val(TB.p), a, b) || Val(TB.p) == 0
    modifies TA, TB
    ensures TB.s == 1 && |TB.p| >= old(|TB.p|) && (old(Val(TB.p)) == 0 ==> Val(TB.p) == 0)
    ensures old(Val(TB.p)) != 0 ==> GcdInv(0, Val(TB.p), a, b)
  {
    BaseFacts();
    var r := CmpInt(TA, 0);
    while r != 0
      invariant TA.s == 1 && TB.s == 1 && |TB.p| >= old(|TB.p|) && r == Signum(Val(TA.p))
      invariant if old(Val(TB.p)) == 0 then Val(TB.p) == 0 else GcdInv(Val(TA.p), Val(TB.p), a, b)
      decreases Val(TA.p) + Val(TB.p)
    {
      PassKeeps(Val(TA.p), Val(TB.p), a, b, Passed(Val(TA.p), Val(TB.p)));
      GcdPass(TA, TB);
      r := CmpInt(TA, 0);
    }
  }

  // ----- mpi_gcd

  /** The common power of two and the stripped numbers start the loop. */
  lemma GcdStart(a: nat, b: nat, lz: nat) returns (x: nat, y: nat)
    requires lz == if Twos(b) < Twos(a) then Twos(b) else Twos(a)
    ensures a == Pow2(lz) * x && b == Pow2(lz) * y
    ensures b > 0 ==> GcdInv(x, y, x, y)
    ensures b == 0 ==> lz == 0 && y == 0
  {
    TwosOdd(a);
    TwosOdd(b);
    var u, v := Twos(a) - lz, Twos(b) - lz;
    x, y := Pow2(u) * OddPart(a), Pow2(v) * OddPart(b);
    Pow2Add(lz, u);
    Pow2Add(lz, v);
    Assoc(Pow2(lz), Pow2(u), OddPart(a));
    Assoc(Pow2(lz), Pow2(v), OddPart(b));
    OddPartBounds(a);
    OddPartBounds(b);
    if b > 0 {
      PosMul(Pow2(v), OddPart(b));
      PosMul0(Pow2(u), OddPart(a));
    }
  }

  lemma GcdEnd(g: int, x: int, y: int, lz: nat)
    requires GcdInv(0, g, x, y)
    ensures IsGcd(Pow2(lz) * g, Pow2(lz) * x, Pow2(lz) * y)
  {
    GcdZero(g);
    GcdTransfer(g, 0, g, x, y);
    GcdScale(lz, g, x, y);
  }

  lemma NoGcdZero(a: int)
    requires a != 0
    ensures !IsGcd(0, a, 0)
  {
    forall k ensures a != 0 * k { }
  }

  lemma GcdResult(a: int, b: int, x: int, y: int, lz: nat, g: int)
    requires a == Pow2(lz) * x && b == Pow2(lz) * y && a >= 0 && b >= 0 && g >= 0
    requires if b == 0 then g == 0 else GcdInv(0, g, x, y)
    ensures IsGcd(Pow2(lz) * g, a, b) <==> b != 0 || a == 0
    ensures Pow2(lz) * g == 0 <==> b == 0
  {
    if b == 0 {
      assert Pow2(lz) * 0 == 0;
      if a != 0 { NoGcdZero(a); } else { GcdZero(0); }
    } else {
      PosMul(Pow2(lz), g);
      GcdEnd(g, x, y, lz);
    }
  }

  /** Both numbers shifted right by their common power of two. */
  method StripCommon(TA: Mpi, TB: Mpi) returns (lz: nat, ghost x: nat, ghost y: nat)
    requires TA != TB && TB.p != []
    modifies TA, TB
    ensures TB.p != [] && Val(TA.p) == x && Val(TB.p) == y
    ensures old(Val(TA.p)) == Pow2(lz) * x && old(Val(TB.p)) == Pow2(lz) * y
    ensures if old(Val(TB.p)) > 0 then GcdInv(x, y, x, y) else lz == 0 && y == 0
  {
    ghost var a, b := Val(TA.p), Val(TB.p);
    lz := Lsb(TA);
    var lzt := Lsb(TB);
    if lzt < lz { lz := lzt; }
    x, y := GcdStart(a, b, lz);
    QuotUnique(a, Pow2(lz), x, 0);
    QuotUnique(b, Pow2(lz), y, 0);
    ShiftR(TA, lz);
    ShiftR(TB, lz);
  }

  /** G = gcd(|A|, |B|) exactly when B is not zero or A is; gcd(A, 0) comes out as 0. */
  method Gcd(G: Mpi, A: Mpi, B: Mpi)
    requires B.p != []
    modifies G
    ensures IsGcd(G.V(), AbsInt(old(A.V())), AbsInt(old(B.V()))) <==> old(B.V()) != 0 || old(A.V()) == 0
    ensures old(B.V()) == 0 ==> G.V() == 0
    ensures old(B.V()) != 0 ==> G.V() > 0
  {
    ghost var a, b := Val(A.p), Val(B.p);
    var TA := new Mpi.Init();
    var TB := new Mpi.Init();
    Copy(TA, A);
    Copy(TB, B);
    var lz, x, y := StripCommon(TA, TB);
    TA.s, TB.s := 1, 1;
    GcdOfStripped(TA, TB, lz, x, y);
    GcdResult(a, b, x, y, lz, Quot(Val(TB.p), Pow2(lz)));
    Copy(G, TB);
  }

  /** The loop, and the common power of two put back. */
  method GcdOfStripped(TA: Mpi, TB: Mpi, lz: nat, ghost x: int, ghost y: int)
    requires TA != TB && TA.s == 1 && TB.s == 1 && TB.p != []
    requires GcdInv(Val(TA.p), Val(TB.p), x, y) || Val(TB.p) == 0
    modifies TA, TB
    ensures TB.s == 1 && TB.p != []
    ensures var g := Quot(Val(TB.p), Pow2(lz));
      && Val(TB.p) == Pow2(lz) * g && g >= 0
      && if old(Val(TB.p)) == 0 then g == 0 else GcdInv(0, g, x, y)
  {
    GcdLoop(TA, TB, x, y);
    QuotUnique(Pow2(lz) * Val(TB.p), Pow2(lz), Val(TB.p), 0);
    ShiftL(TB, lz);
  }
}
