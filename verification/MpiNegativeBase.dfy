/** When mpi_exp_mod is right for a negative base, by conditions known before the call. */
module MpiNegativeBase {
  import opened Limbs
  import opened MpiShift
  import opened MpiDivision
  import opened MpiGcd
  import opened MpiExpMod

  // ----- factors of products

  /** The greatest common divisor of two natural numbers as a combination of them. */
  lemma {:induction false} Bezout(a: int, n: int) returns (g: int, x: int, y: int)
    requires a >= 0 && n > 0
    ensures g > 0 && g == a * x + n * y && Divides(g, a) && Divides(g, n)
    decreases a + n
  {
    if a == 0 {
      g, x, y := n, 0, 1;
      assert 0 == n * 0 && n == n * 1;
    } else if a >= n {
      g, x, y := Bezout(a - n, n);
      Distr(x, a, -n);
      Comm(a - n, x);
      Comm(a, x);
      Comm(n, x);
      Distr(n, y, -x);
      DividesSum(g, a - n, n);
      y := y - x;
    } else {
      g, x, y := Bezout(a, n - a);
      Distr(y, n, -a);
      Comm(n - a, y);
      Comm(n, y);
      Comm(a, y);
      Distr(a, x, -y);
      DividesSum(g, n - a, a);
      x := x - y;
    }
  }

  /** What divides a product with something coprime to it divides the other factor. */
  lemma CoprimeFactor(n: int, a: int, x: int, y: int, z: int)
    requires a * x + n * y == 1 && Divides(n, a * z)
    ensures Divides(n, z)
  {
    DividesMul(n, a * z, x);
    assert Divides(n, n * (y * z)) by { assert n * (y * z) == n * (y * z); }
    DividesSum(n, a * z * x, n * (y * z));
    assert a * z * x + n * (y * z) == z by {
      Assoc(a, z, x);
      Comm(z, x);
      Assoc(a, x, z);
      Assoc(n, y, z);
      Comm(a * x + n * y, z);
      Distr(z, a * x, n * y);
      Comm(z, a * x);
      Comm(z, n * y);
    }
  }

  lemma DividesScaled(g: int, n: int, z: int)
    requires Divides(n, z)
    ensures Divides(g * n, g * z)
  {
    var k :| z == n * k;
    Assoc(g, n, k);
    assert g * z == g * n * k;
  }

  lemma DividesUnscaled(g: int, n: int, z: int)
    requires g > 0 && Divides(g * n, g * z)
    ensures Divides(n, z)
  {
    var k :| g * z == g * n * k;
    Assoc(g, n, k);
    Distr(g, z, -(n * k));
    NegProduct(g, n * k);
    assert g * (z - n * k) == 0;
    if z - n * k >= 1 { MulLe(g, 1, z - n * k); }
    if z - n * k <= -1 { MulLe(g, z - n * k, -1); }
    assert z == n * k;
  }

  lemma OneDivides(x: int)
    ensures Divides(1, x)
  {
    assert x == 1 * x;
  }

  lemma {:induction false} CoprimePower(n: int, a: int, x: int, y: int, e: nat)
    requires a * x + n * y == 1 && Divides(n, Pow(a, e))
    ensures Divides(n, 1)
  {
    if e > 0 {
      CoprimeFactor(n, a, x, y, Pow(a, e - 1));
      CoprimePower(n, a, x, y, e - 1);
    }
  }

  /** The cofactors of a Bezout combination are coprime. */
  lemma Cofactors(g: int, a: int, n: int, x: int, y: int, a': int, n': int)
    requires g > 0 && g == a * x + n * y && a == g * a' && n == g * n'
    ensures a' * x + n' * y == 1
  {
    Assoc(g, a', x);
    Assoc(g, n', y);
    Distr(g, a' * x, n' * y);
    Distr(g, a' * x + n' * y, -1);
    var d := a' * x + n' * y - 1;
    assert g * d == 0;
    if d >= 1 { MulLe(g, 1, d); }
    if d <= -1 { MulLe(g, d, -1); }
  }

  lemma Halved(g: int, n': int, h: int)
    requires g >= 2 && n' >= 1 && g * n' <= 2 * h
    ensures n' <= h
  {
    Comm(g, n');
    MulLe(n', 2, g);
  }

  lemma PositiveCofactor(g: int, n: int, k: int)
    requires g > 0 && n > 0 && n == g * k
    ensures k >= 1
  {
    if k <= 0 { MulLe(g, k, 0); }
  }

  /** A number of at most k bits that divides some power of a divides the k-th. */
  lemma {:induction false} PowerBound(n: int, a: int, e: nat, k: nat)
    requires a >= 0 && 0 < n <= Pow2(k) && k <= e && Divides(n, Pow(a, e))
    ensures Divides(n, Pow(a, k))
  {
    if k == 0 {
      OneDivides(1);
    } else {
      var g, x, y := Bezout(a, n);
      var a' :| a == g * a';
      var n' :| n == g * n';
      PositiveCofactor(g, n, n');
      Cofactors(g, a, n, x, y, a', n');
      if g == 1 {
        CoprimePower(n, a, x, y, e);
        DividesMul(n, 1, Pow(a, k));
      } else {
        var p := Pow(a, e - 1);
        Assoc(g, a', p);
        DividesUnscaled(g, n', a' * p);
        CoprimeFactor(n', a', x, y, p);
        Halved(g, n', Pow2(k - 1));
        PowerBound(n', a, e - 1, k - 1);
        DividesScaled(g, n', Pow(a, k - 1));
        DividesMul(n, g * Pow(a, k - 1), a');
        FactorIn(g, a', Pow(a, k - 1));
      }
    }
  }

  lemma FactorIn(g: int, a: int, p: int)
    ensures g * p * a == g * a * p
  {
    Assoc(g, p, a);
    Comm(p, a);
    Assoc(g, a, p);
  }

  // ----- the negative base

  lemma ModZero(v: int, n: int)
    requires n > 0
    ensures Mod(v, n) == 0 <==> Divides(n, v)
  {
    if Mod(v, n) == 0 { assert v == n * Quot(v, n); }
    if Divides(n, v) {
      var k :| v == n * k;
      ModUnique(v, n, k, 0);
    }
  }

  function Min(x: nat, y: nat): nat { if x < y then x else y }

  /** Whether n divides a power of a is settled by an exponent of at most n's bit length. */
  lemma DividesPowerBounded(a: int, e: nat, n: int)
    requires a >= 0 && n > 0
    ensures Divides(n, Pow(a, e)) <==> Divides(n, Pow(a, Min(e, BitLen(n))))
  {
    var k := Min(e, BitLen(n));
    if k < e {
      if Divides(n, Pow(a, e)) {
        BitLenBounds(n);
        PowerBound(n, a, e, k);
      }
      if Divides(n, Pow(a, k)) {
        PowAdd(a, k, e - k);
        DividesMul(n, Pow(a, k), Pow(a, e - k));
      }
    }
  }

  /** The base -a gives the true residue if and only if the exponent is odd and n does not
      divide a power of a with an exponent no larger than n's bit length. */
  lemma NegativeBaseBounded(a: int, e: nat, n: int)
    requires a >= 0 && n > 0 && n % 2 == 1
    ensures n - Mod(Pow(a, e), n) == Mod(Pow(-a, e), n)
            <==> e % 2 == 1 && Mod(Pow(a, Min(e, BitLen(n))), n) != 0
  {
    NegativeBaseExact(a, e, n);
    DividesPowerBounded(a, e, n);
    ModZero(Pow(a, e), n);
    ModZero(Pow(a, Min(e, BitLen(n))), n);
  }

  /** A base coprime to a modulus above 1 is right if and only if the exponent is odd. */
  lemma NegativeBaseCoprime(a: int, e: nat, n: int)
    requires a >= 0 && n > 1 && n % 2 == 1 && IsGcd(1, a, n)
    ensures n - Mod(Pow(a, e), n) == Mod(Pow(-a, e), n) <==> e % 2 == 1
  {
    NegativeBaseExact(a, e, n);
    ModZero(Pow(a, e), n);
    if Divides(n, Pow(a, e)) {
      var g, x, y := Bezout(a, n);
      assert Divides(g, 1);
      PositiveDivisorOfOne(g);
      CoprimePower(n, a, x, y, e);
      PositiveDivisorOfOne(n);
    }
  }

  lemma PositiveDivisorOfOne(d: int)
    requires d > 0 && Divides(d, 1)
    ensures d == 1
  {
    var k :| 1 == d * k;
    if k >= 1 && d > 1 { MulLe(d, 1, k); }
    if k <= 0 { MulLe(d, k, 0); }
  }

  /** Modulo 1 it never is: the result is 1, and the residue 0. */
  lemma NegativeBaseOne(a: int, e: nat)
    ensures 1 - Mod(Pow(a, e), 1) == 1 && Mod(Pow(-a, e), 1) == 0
  {
  }

  /** Modulo 7, the base -2 squared: the source's result is 3 and the residue 4. */
  lemma NegativeBaseWitness()
    ensures 7 - Mod(Pow(2, 2), 7) == 3 && Mod(Pow(-2, 2), 7) == 4
  {
    assert Pow(2, 2) == 4 && Pow(-2, 2) == 4;
    QuotUnique(4, 7, 0, 4);
  }
}
