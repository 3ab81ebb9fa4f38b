/** Modular inverse of bignum.c by the extended binary method (HAC 14.61 / 14.64). */
module MpiInvMod {
  import opened Limbs
  import opened MpiCore
  import opened MpiAddSub
  import opened MpiShift
  import opened MpiDivision
  import opened MpiGcd

  ghost predicate Coprime(x: int, y: int) {
    forall d :: Divides(d, x) && Divides(d, y) ==> Divides(d, 1)
  }

  lemma DividesOne(d: int)
    requires d >= 0 && Divides(d, 1)
    ensures d == 1
  {
    var k :| 1 == d * k;
    if k >= 1 && d > 1 { MulLe(d, 1, k); }
    if k < 0 { MulLe(d, k, 0); }
  }

  lemma ParityMul(x: int, y: int)
    ensures (x * y) % 2 == if x % 2 == 0 then 0 else y % 2
  {
    var a := x / 2;
    Assoc(2, a, y);
    if x % 2 == 0 {
      EvenPlus(x * y, a * y, 0);
    } else {
      Comm(x, y);
      Distr(y, 2 * a, 1);
      Comm(y, 2 * a);
      EvenPlus(x * y, a * y, y);
    }
  }

  /** Which factors can be odd when p + q is even, p = u1 * a and q = u2 * b, and not both a and b are even. */
  lemma ParityCases(u1: int, u2: int, a: int, b: int, p: int, q: int)
    requires (p + q) % 2 == 0 && (a % 2 == 1 || b % 2 == 1)
    requires p % 2 == (if u1 % 2 == 0 then 0 else a % 2) && q % 2 == (if u2 % 2 == 0 then 0 else b % 2)
    ensures u1 % 2 != 0 || u2 % 2 != 0 ==> (u1 + b) % 2 == 0 && (u2 - a) % 2 == 0
  {
  }

  /** The Bezout relation of one row. */
  ghost predicate Row(t: int, u1: int, u2: int, a: int, b: int) {
    t == u1 * a + u2 * b
  }

  /** Halving is exact, also when one of the two moduli is even. */
  lemma HalveRow(t: int, u1: int, u2: int, a: int, b: int)
    requires Row(t, u1, u2, a, b) && t % 2 == 0 && (a % 2 == 1 || b % 2 == 1)
    ensures u1 % 2 == 0 && u2 % 2 == 0 ==> Row(t / 2, u1 / 2, u2 / 2, a, b)
    ensures u1 % 2 != 0 || u2 % 2 != 0 ==>
      (u1 + b) % 2 == 0 && (u2 - a) % 2 == 0 && Row(t / 2, (u1 + b) / 2, (u2 - a) / 2, a, b)
  {
    ParityMul(u1, a);
    ParityMul(u2, b);
    ParityCases(u1, u2, a, b, u1 * a, u2 * b);
    if u1 % 2 == 0 && u2 % 2 == 0 {
      HalfRow(t, u1, u2, a, b);
    } else {
      CrossShift(u1, u2, a, b);
      HalfRow(t, u1 + b, u2 - a, a, b);
    }
  }

  lemma HalfRow(t: int, u1: int, u2: int, a: int, b: int)
    requires Row(t, u1, u2, a, b) && u1 % 2 == 0 && u2 % 2 == 0
    ensures Row(t / 2, u1 / 2, u2 / 2, a, b)
  {
    var u, v := u1 / 2, u2 / 2;
    Assoc(2, u, a);
    Assoc(2, v, b);
    HalfOfTwice(t, u * a + v * b);
  }

  lemma HalfOfTwice(t: int, w: int)
    requires t == 2 * w
    ensures t / 2 == w
  {
  }

  /** Adding B to one factor and taking A from the other keeps the combination. */
  lemma CrossShift(u1: int, u2: int, a: int, b: int)
    ensures (u1 + b) * a + (u2 - a) * b == u1 * a + u2 * b
  {
  }

  lemma SubtractRows(t: int, u1: int, u2: int, s: int, v1: int, v2: int, a: int, b: int)
    requires Row(t, u1, u2, a, b) && Row(s, v1, v2, a, b)
    ensures Row(t - s, u1 - v1, u2 - v2, a, b)
  {
    Comm(u1 - v1, a);
    Distr(a, u1, -v1);
    NegProduct(a, v1);
    Comm(u2 - v2, b);
    Distr(b, u2, -v2);
    NegProduct(b, v2);
    Comm(a, u1);
    Comm(a, v1);
    Comm(b, u2);
    Comm(b, v2);
  }

  /** X >>= 1 for an even value of either sign. */
  method HalveEven(X: Mpi)
    requires X.V() % 2 == 0 && X.p != []
    modifies X
    ensures X.V() == old(X.V()) / 2 && |X.p| >= old(|X.p|)
    ensures old(X.s) == 1 ==> X.s == 1
  {
    assert Pow2(1) == 2;
    QuotUnique(Val(X.p), 2, Val(X.p) / 2, 0);
    ShiftR(X, 1);
  }

  method IsOdd(X: Mpi) returns (odd: bool)
    requires X.p != []
    ensures odd <==> X.V() % 2 != 0
  {
    ValParity(X.p);
    NegParity(Val(X.p));
    odd := X.p[0] % 2 != 0;
  }

  lemma NegParity(x: int)
    ensures (-x) % 2 == x % 2
  {
    EvenPlus(-x, -x, x);
  }

  /** One pass of an inner loop. */
  method HalvePass(T: Mpi, C1: Mpi, C2: Mpi, TA: Mpi, TB: Mpi)
    requires T != C1 && T != C2 && C1 != C2 && {T, C1, C2} !! {TA, TB}
    requires T.s == 1 && T.p != [] && C1.p != [] && C2.p != []
    requires T.V() % 2 == 0 && (TA.V() % 2 == 1 || TB.V() % 2 == 1)
    requires Row(T.V(), C1.V(), C2.V(), TA.V(), TB.V())
    modifies T, C1, C2
    ensures T.s == 1 && T.p != [] && C1.p != [] && C2.p != []
    ensures T.V() == old(T.V()) / 2
    ensures Row(T.V(), C1.V(), C2.V(), TA.V(), TB.V())
  {
    HalveRow(T.V(), C1.V(), C2.V(), TA.V(), TB.V());
    HalveEven(T);
    var o1 := IsOdd(C1);
    var o2 := IsOdd(C2);
    if o1 || o2 {
      AddMpi(C1, C1, TB);
      SubMpi(C2, C2, TA);
    }
    HalveEven(C1);
    HalveEven(C2);
  }

  /** One inner loop: halve the row until its number is odd. */
  method HalveLoop(T: Mpi, C1: Mpi, C2: Mpi, TA: Mpi, TB: Mpi, ghost other: int)
    requires T != C1 && T != C2 && C1 != C2 && {T, C1, C2} !! {TA, TB}
    requires T.s == 1 && T.p != [] && C1.p != [] && C2.p != []
    requires T.V() > 0 && (TA.V() % 2 == 1 || TB.V() % 2 == 1) && Coprime(T.V(), other)
    requires Row(T.V(), C1.V(), C2.V(), TA.V(), TB.V())
    modifies T, C1, C2
    ensures T.s == 1 && T.p != [] && C1.p != [] && C2.p != []
    ensures 0 < T.V() <= old(T.V()) && T.V() % 2 == 1 && Coprime(T.V(), other)
    ensures Row(T.V(), C1.V(), C2.V(), TA.V(), TB.V())
  {
    var odd := IsOdd(T);
    while !odd
      invariant T.s == 1 && T.p != [] && C1.p != [] && C2.p != []
      invariant 0 < T.V() <= old(T.V()) && Coprime(T.V(), other) && (odd <==> T.V() % 2 != 0)
      invariant Row(T.V(), C1.V(), C2.V(), TA.V(), TB.V())
      decreases T.V()
    {
      HalveCoprime(T.V(), other);
      HalvePass(T, C1, C2, TA, TB);
      odd := IsOdd(T);
    }
  }

  lemma HalveCoprime(x: int, y: int)
    requires Coprime(x, y) && x % 2 == 0
    ensures Coprime(x / 2, y)
  {
    forall d | Divides(d, x / 2) && Divides(d, y) ensures Divides(d, 1) {
      DividesMul(d, x / 2, 2);
    }
  }

  lemma SubCoprime(x: int, y: int)
    requires Coprime(x, y)
    ensures Coprime(x - y, y) && Coprime(x, y - x)
  {
    SubKeepsDivisors(x, y);
    SubKeepsDivisors(y, x);
  }

  lemma CoprimeSwap(x: int, y: int)
    requires Coprime(x, y)
    ensures Coprime(y, x)
  {
  }

  // ----- the two rows together

  ghost predicate Apart(TU: Mpi, U1: Mpi, U2: Mpi, TV: Mpi, V1: Mpi, V2: Mpi, TA: Mpi, TB: Mpi) {
    && TU != U1 && TU != U2 && U1 != U2 && TV != V1 && TV != V2 && V1 != V2
    && {TU, U1, U2} !! {TV, V1, V2} && {TU, U1, U2} !! {TA, TB} && {TV, V1, V2} !! {TA, TB}
  }

  /** One row in memory. */
  ghost predicate RowOk(T: Mpi, C1: Mpi, C2: Mpi, a: int, b: int)
    reads T, C1, C2
  {
    T.p != [] && C1.p != [] && C2.p != [] && Row(T.V(), C1.V(), C2.V(), a, b)
  }

  /** Subtract one row from another. */
  method SubtractRow(T: Mpi, C1: Mpi, C2: Mpi, S: Mpi, D1: Mpi, D2: Mpi, ghost a: int, ghost b: int)
    requires T != C1 && T != C2 && C1 != C2 && {T, C1, C2} !! {S, D1, D2}
    requires RowOk(T, C1, C2, a, b) && RowOk(S, D1, D2, a, b)
    modifies T, C1, C2
    ensures RowOk(T, C1, C2, a, b) && T.V() == old(T.V()) - S.V()
  {
    SubtractRows(T.V(), C1.V(), C2.V(), S.V(), D1.V(), D2.V(), a, b);
    SubMpi(T, T, S);
    SubMpi(C1, C1, D1);
    SubMpi(C2, C2, D2);
  }

  /** The body of the do-while. */
  method InvPass(TU: Mpi, U1: Mpi, U2: Mpi, TV: Mpi, V1: Mpi, V2: Mpi, TA: Mpi, TB: Mpi)
    requires Apart(TU, U1, U2, TV, V1, V2, TA, TB) && TU.s == 1 && TV.s == 1
    requires TA.V() % 2 == 1 || TB.V() % 2 == 1
    requires RowOk(TU, U1, U2, TA.V(), TB.V()) && RowOk(TV, V1, V2, TA.V(), TB.V())
    requires TU.V() > 0 && TV.V() > 0 && Coprime(TU.V(), TV.V())
    modifies TU, U1, U2, TV, V1, V2
    ensures RowOk(TU, U1, U2, TA.V(), TB.V()) && RowOk(TV, V1, V2, TA.V(), TB.V())
    ensures TU.V() >= 0 && TV.V() > 0 && Coprime(TU.V(), TV.V())
    ensures TU.V() + TV.V() < old(TU.V() + TV.V())
  {
    HalveLoop(TU, U1, U2, TA, TB, TV.V());
    CoprimeSwap(TU.V(), TV.V());
    HalveLoop(TV, V1, V2, TA, TB, TU.V());
    CoprimeSwap(TV.V(), TU.V());
    SubCoprime(TU.V(), TV.V());
    var r := CmpMpi(TU, TV);
    if r >= 0 {
      SubtractRow(TU, U1, U2, TV, V1, V2, TA.V(), TB.V());
    } else {
      SubtractRow(TV, V1, V2, TU, U1, U2, TA.V(), TB.V());
    }
  }

  /** The do-while ends with TV = 1 = V1 * TA + V2 * TB. */
  method InvLoop(TU: Mpi, U1: Mpi, U2: Mpi, TV: Mpi, V1: Mpi, V2: Mpi, TA: Mpi, TB: Mpi)
    requires Apart(TU, U1, U2, TV, V1, V2, TA, TB) && TU.s == 1 && TV.s == 1
    requires TA.V() % 2 == 1 || TB.V() % 2 == 1
    requires RowOk(TU, U1, U2, TA.V(), TB.V()) && RowOk(TV, V1, V2, TA.V(), TB.V())
    requires TU.V() > 0 && TV.V() > 0 && Coprime(TU.V(), TV.V())
    modifies TU, U1, U2, TV, V1, V2
    ensures V1.p != [] && Row(1, V1.V(), V2.V(), TA.V(), TB.V())
  {
    BaseFacts();
    var more := true;
    while more
      invariant RowOk(TU, U1, U2, TA.V(), TB.V()) && RowOk(TV, V1, V2, TA.V(), TB.V())
      invariant TU.V() >= 0 && TV.V() > 0 && Coprime(TU.V(), TV.V()) && (more <==> TU.V() != 0)
      invariant more ==> TU.s == 1
      invariant TV.s == 1
      decreases TU.V() + TV.V()
    {
      InvPass(TU, U1, U2, TV, V1, V2, TA, TB);
      var r := CmpInt(TU, 0);
      more := r != 0;
    }
    assert 0 == TV.V() * 0 && TV.V() == TV.V() * 1;
    DividesOne(TV.V());
  }

  // ----- mpi_inv_mod

  /** With gcd(|A|, N) = 1 the residue of A is positive and coprime to N. */
  lemma ResidueCoprime(a: int, n: int)
    requires n > 1 && IsGcd(1, AbsInt(a), n)
    ensures Mod(a, n) > 0 && Coprime(Mod(a, n), n)
  {
    var q, r := Quot(a, n), Mod(a, n);
    forall d | Divides(d, r) && Divides(d, n) ensures Divides(d, 1) {
      DividesMul(d, n, q);
      DividesSum(d, n * q, r);
      DividesAbs(d, a);
    }
    if r == 0 {
      assert Divides(n, 0) by { assert 0 == n * 0; }
      assert Divides(n, n) by { assert n == n * 1; }
      DividesOne(n);
    }
  }

  lemma DividesAbs(d: int, a: int)
    requires Divides(d, a)
    ensures Divides(d, AbsInt(a))
  {
    var k :| a == d * k;
    NegProduct(d, k);
    assert -a == d * -k;
  }

  lemma CoprimeParity(a: int, b: int)
    requires Coprime(a, b)
    ensures a % 2 == 1 || b % 2 == 1
  {
    if a % 2 == 0 && b % 2 == 0 {
      assert a == 2 * (a / 2) && b == 2 * (b / 2);
      DividesOne(2);
    }
  }

  /** The Bezout coefficient, reduced, is the inverse. */
  lemma InverseFromRow(a: int, n: int, v1: int, v2: int)
    requires n > 1 && Row(1, v1, v2, Mod(a, n), n)
    ensures Mod(a * Mod(v1, n), n) == 1 && 0 < Mod(v1, n) < n
  {
    var r, x := Mod(a, n), Mod(v1, n);
    ModAddMulProduct(a, v1, n);
    Comm(v2, n);
    Comm(v1, r);
    NegProduct(n, v2);
    assert r * v1 == 1 + n * -v2;
    ModShift(1, n, -v2);
    ModUnique(1, n, 0, 1);
    if x == 0 {
      assert a * 0 == 0;
      ModUnique(0, n, 0, 0);
    }
  }

  lemma ModAddMulProduct(a: int, b: int, n: int)
    requires n > 0
    ensures Mod(a * Mod(b, n), n) == Mod(Mod(a, n) * b, n)
  {
    var p, q, r, x := Quot(a, n), Quot(b, n), Mod(a, n), Mod(b, n);
    Comm(a, x);
    Distr(x, n * p, r);
    Assoc(x, n, p);
    Comm(x, n);
    Assoc(n, x, p);
    ModShift(x * r, n, x * p);
    Distr(r, n * q, x);
    Assoc(r, n, q);
    Comm(r, n);
    Assoc(n, r, q);
    ModShift(r * x, n, r * q);
    Comm(r, x);
  }

  /** What k turns of the inner loop leave of a number that stays even. */
  ghost function Halvings(t: int, k: nat): int {
    if k == 0 then t else Quot(Halvings(t, k - 1), 2)
  }

  /** For N = 1 the test for a common divisor passes whatever A is, and the inner loop then
      starts at a number that after any number of turns is still even, so it never ends. */
  lemma {:induction false} NoExitForOne(a: int, k: nat)
    ensures IsGcd(1, AbsInt(a), 1)
    ensures Halvings(Mod(a, 1), k) == 0 && Halvings(Mod(a, 1), k) % 2 == 0
  {
    assert AbsInt(a) == 1 * AbsInt(a) && 1 == 1 * 1;
    QuotUnique(a, 1, a, 0);
    if k > 0 {
      NoExitForOne(a, k - 1);
      QuotUnique(0, 2, 0, 0);
    }
  }

  /** `mpi_init; mpi_copy` and `mpi_init; mpi_lset`. */
  method NewCopy(Y: Mpi) returns (X: Mpi)
    requires Y.p != [] && Y.V() > 0
    ensures fresh(X) && X.p != [] && X.V() == Y.V() && X.s == 1
  {
    X := new Mpi.Init();
    Copy(X, Y);
  }

  method NewSmall(z: int) returns (X: Mpi)
    requires 0 <= z <= 1
    ensures fresh(X) && X.p != [] && X.V() == z
  {
    BaseFacts();
    X := new Mpi.Init();
    Lset(X, z);
  }

  /** The computation once gcd(A, N) = 1 is known; V1 ends as the reduced coefficient. */
  method BezoutCoefficient(A: Mpi, N: Mpi) returns (V1: Mpi)
    requires N.V() > 1 && N.p != [] && A.p != [] && IsGcd(1, AbsInt(A.V()), N.V())
    ensures fresh(V1) && V1.p != [] && 0 < V1.V() < N.V()
    ensures Mod(A.V() * V1.V(), N.V()) == 1
  {
    ResidueCoprime(A.V(), N.V());
    CoprimeParity(Mod(A.V(), N.V()), N.V());
    var TA := new Mpi.Init();
    var _ := ModMpi(TA, A, N);
    var TB := NewCopy(N);
    ghost var v2;
    V1, v2 := SolveRows(TA, TB);
    InverseFromRow(A.V(), N.V(), V1.V(), v2);
    ModFix(V1, N);
  }

  /** The two starting rows, and the loop. */
  method SolveRows(TA: Mpi, TB: Mpi) returns (V1: Mpi, ghost v2: int)
    requires TA.p != [] && TB.p != [] && TA.V() > 0 && TB.V() > 0
    requires (TA.V() % 2 == 1 || TB.V() % 2 == 1) && Coprime(TA.V(), TB.V())
    ensures fresh(V1) && V1.p != [] && Row(1, V1.V(), v2, TA.V(), TB.V())
  {
    var TU := NewCopy(TA);
    var TV := NewCopy(TB);
    var U1 := NewSmall(1);
    var U2 := NewSmall(0);
    V1 := NewSmall(0);
    var V2 := NewSmall(1);
    InvLoop(TU, U1, U2, TV, V1, V2, TA, TB);
    v2 := V2.V();
  }

  /** X = A^-1 mod N. */
  method InvMod(X: Mpi, A: Mpi, N: Mpi) returns (ret: Ret)
    requires N.V() != 1 && N.p != []
    modifies X
    ensures ret == if old(N.V()) <= 0 then BadInputData
                   else if IsGcd(1, AbsInt(old(A.V())), old(N.V())) then Ok else NotAcceptable
    ensures ret != Ok ==> X.p == old(X.p) && X.s == old(X.s)
    ensures ret == Ok ==> 0 < X.V() < old(N.V()) && Mod(old(A.V()) * X.V(), old(N.V())) == 1
  {
    BaseFacts();
    var r := CmpInt(N, 0);
    if r <= 0 { return BadInputData; }
    var G := new Mpi.Init();
    Gcd(G, A, N);
    r := CmpInt(G, 1);
    GcdIsOne(G.V(), AbsInt(A.V()), N.V());
    if r != 0 { return NotAcceptable; }
    NonZeroNumber(A, N);
    var V1 := BezoutCoefficient(A, N);
    Copy(X, V1);
    ret := Ok;
  }

  lemma GcdIsOne(g: int, a: int, b: int)
    requires IsGcd(g, a, b)
    ensures g == 1 <==> IsGcd(1, a, b)
  {
    if IsGcd(1, a, b) { DividesOne(g); }
  }

  lemma NonZeroNumber(A: Mpi, N: Mpi)
    requires N.V() > 1 && IsGcd(1, AbsInt(A.V()), N.V())
    ensures A.p != []
  {
    if A.p == [] {
      ResidueCoprime(0, N.V());
      ModUnique(0, N.V(), 0, 0);
    }
  }
}
