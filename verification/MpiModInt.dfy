/** Remainder by a machine integer in half-limb steps, bignum.c. */
module MpiModInt {
  import opened Limbs
  import opened MpiCore
  import opened MpiDivision

  /** `biH`: half a limb. */
  const HALF_BITS: nat := 4 * LIMB_BYTES

  const HALF: int := Pow2(HALF_BITS)

  lemma HalfFacts()
    ensures HALF * HALF == BASE && HALF >= 16
  {
    Pow2Add(HALF_BITS, HALF_BITS);
    Pow2Mono(4, HALF_BITS);
    assert Pow2(4) == 16;
  }

  /** `y = (y << biH) | h; z = y / b; y -= z * b;` with the bits above the limb lost. */
  function HalfStep(y: int, h: int, m: int): (r: int)
    requires m > 0
    ensures 0 <= r < m
  {
    Rem(Rem(HALF * y, BASE) + h, m)
  }

  /** Both halves of one limb. */
  function LimbStep(y: int, x: Limb, m: int): (r: int)
    requires m > 0
    ensures 0 <= r < m
  {
    HalfStep(HalfStep(y, Quot(x, HALF), m), Quot(Rem(HALF * x, BASE), HALF), m)
  }

  /** The whole loop of mpi_mod_int, top limb first. */
  ghost function ModLimbs(p: seq<Limb>, m: int): (r: int)
    requires m > 0
    ensures 0 <= r < m
    decreases |p|
  {
    if p == [] then 0 else LimbStep(ModLimbs(p[1..], m), p[0], m)
  }

  /** The divisors for which no bit that matters is shifted out. */
  predicate SafeDivisor(m: int)
    requires m > 0
  {
    m <= HALF || Rem(BASE, m) == 0
  }

  lemma HalfStepMod(y: int, h: int, m: int)
    requires m > 0 && SafeDivisor(m) && 0 <= y < m
    ensures HalfStep(y, h, m) == Mod(HALF * y + h, m)
  {
    HalfFacts();
    if m <= HALF {
      MulLe(HALF, y, HALF - 1);
      Distr(HALF, HALF, -1);
      PosMul0(HALF, y);
      QuotUnique(HALF * y, BASE, 0, HALF * y);
    } else {
      var q, k := Quot(HALF * y, BASE), Quot(BASE, m);
      Assoc(m, k, q);
      ModShift(Rem(HALF * y, BASE) + h, m, k * q);
    }
  }

  lemma LowHalf(x: Limb)
    ensures Quot(Rem(HALF * x, BASE), HALF) == Rem(x, HALF)
    ensures x == HALF * Quot(x, HALF) + Rem(x, HALF)
  {
    HalfFacts();
    var hi, lo := Quot(x, HALF), Rem(x, HALF);
    Distr(HALF, HALF * hi, lo);
    Assoc(HALF, HALF, hi);
    MulLe(HALF, lo, HALF - 1);
    Distr(HALF, HALF, -1);
    PosMul0(HALF, lo);
    QuotUnique(HALF * x, BASE, hi, HALF * lo);
    QuotUnique(HALF * lo, HALF, lo, 0);
  }

  lemma ModAddMul(c: int, y: int, h: int, m: int)
    requires m > 0
    ensures Mod(c * Mod(y, m) + h, m) == Mod(c * y + h, m)
  {
    var q := Quot(y, m);
    Distr(c, m * q, Mod(y, m));
    Assoc(c, m, q);
    Comm(c, m);
    Assoc(m, c, q);
    ModShift(c * Mod(y, m) + h, m, c * q);
  }

  lemma LimbStepMod(y: int, x: Limb, m: int)
    requires m > 0 && SafeDivisor(m)
    ensures LimbStep(Mod(y, m), x, m) == Mod(x + BASE * y, m)
  {
    HalfFacts();
    LowHalf(x);
    var hi, lo, r := Quot(x, HALF), Rem(x, HALF), Mod(y, m);
    HalfStepMod(r, hi, m);
    HalfStepMod(Mod(HALF * r + hi, m), lo, m);
    ModAddMul(HALF, HALF * r + hi, lo, m);
    Distr(HALF, HALF * r, hi);
    Assoc(HALF, HALF, r);
    ModAddMul(BASE, y, x, m);
  }

  lemma {:induction false} ModLimbsCorrect(p: seq<Limb>, m: int)
    requires m > 0 && SafeDivisor(m)
    ensures ModLimbs(p, m) == Mod(Val(p), m)
    decreases |p|
  {
    if p == [] {
      ModUnique(0, m, 0, 0);
    } else {
      ModLimbsCorrect(p[1..], m);
      LimbStepMod(Val(p[1..]), p[0], m);
    }
  }

  /** Only powers of two divide a power of two. */
  lemma {:induction false} PowerDivisor(m: int, q: int, k: nat) returns (j: nat)
    requires m > 0 && m * q == Pow2(k)
    ensures j <= k && m == Pow2(j)
  {
    if q <= 0 { MulLe(m, q, 0); }
    if k == 0 {
      if m > 1 { MulLe(m, 1, q); }
      j := 0;
    } else if m % 2 == 0 {
      Assoc(2, m / 2, q);
      j := PowerDivisor(m / 2, q, k - 1);
      j := j + 1;
    } else {
      EvenFactor(m, q, Pow2(k - 1));
      j := PowerDivisor(m, q / 2, k - 1);
    }
  }

  /** A two-limb number on which every other divisor goes wrong. */
  lemma UnsafeWitness(m: int) returns (p: seq<Limb>)
    requires 0 < m < BASE && !SafeDivisor(m)
    ensures ModLimbs(p, m) != Mod(Val(p), m)
  {
    HalfFacts();
    p := [0, HALF];
    assert p[1..] == [HALF] && p[1..][1..] == [];
    ValSingle(HALF);
    LowHalf(HALF);
    LowHalf(0);
    QuotUnique(HALF, HALF, 1, 0);
    QuotUnique(0, HALF, 0, 0);
    assert HALF * 0 == 0;
    QuotUnique(0, BASE, 0, 0);
    QuotUnique(BASE, BASE, 1, 0);
    QuotUnique(0, m, 0, 0);
    QuotUnique(1, m, 0, 1);
    QuotUnique(HALF, BASE, 0, HALF);
    QuotUnique(HALF, m, 0, HALF);
    assert ModLimbs([], m) == 0;
    assert HalfStep(0, 1, m) == 1;
    assert HalfStep(1, 0, m) == HALF;
    assert HalfStep(HALF, 0, m) == 0;
    assert HalfStep(0, 0, m) == 0;
    if Mod(BASE * HALF, m) == 0 {
      Pow2Add(LIMB_BITS, HALF_BITS);
      var j := PowerDivisor(m, Quot(BASE * HALF, m), LIMB_BITS + HALF_BITS);
      if j >= LIMB_BITS { Pow2Mono(LIMB_BITS, j); }
      Pow2Add(j, LIMB_BITS - j);
      QuotUnique(BASE, m, Pow2(LIMB_BITS - j), 0);
    }
  }

  lemma NegativeRemainder(v: int, m: int)
    requires m > 0
    ensures Mod(-v, m) == if Mod(v, m) == 0 then 0 else m - Mod(v, m)
  {
    var q, y := Quot(v, m), Mod(v, m);
    NegProduct(m, q);
    Distr(m, -q, -1);
    if y == 0 { ModUnique(-v, m, -q, 0); } else { ModUnique(-v, m, -q - 1, m - y); }
  }

  /** The sign fix after the loop. */
  function Folded(s: Sign, y: int, m: int): int {
    if s < 0 && y != 0 then m - y else y
  }

  /** mpi_mod_int's loop is right for every number exactly when the divisor fits in half a limb or divides the base. */
  lemma ModIntExact(m: int)
    requires 0 < m < BASE
    ensures (forall p :: ModLimbs(p, m) == Mod(Val(p), m)) <==> SafeDivisor(m)
  {
    if SafeDivisor(m) {
      forall p ensures ModLimbs(p, m) == Mod(Val(p), m) { ModLimbsCorrect(p, m); }
    } else {
      var p := UnsafeWitness(m);
    }
  }

  /** The number with a sign and a magnitude. */
  function Signed(s: Sign, v: int): int {
    if s < 0 then -v else v
  }

  /** The fix is right whenever the loop is. */
  lemma FoldedMod(s: Sign, y: int, v: int, m: int)
    requires m > 0 && y == Mod(v, m)
    ensures Folded(s, y, m) == Mod(Signed(s, v), m)
  {
    NegativeRemainder(v, m);
  }

  ghost predicate RightFor(s: Sign, p: seq<Limb>, m: int)
    requires m > 0
  {
    Folded(s, ModLimbs(p, m), m) == Mod(Signed(s, Val(p)), m)
  }

  /** The whole function is right for every signed number exactly for the same divisors. */
  lemma ModIntSignedExact(m: int)
    requires 0 < m < BASE
    ensures (forall s: Sign, p :: RightFor(s, p, m)) <==> SafeDivisor(m)
  {
    if SafeDivisor(m) {
      forall s: Sign, p ensures RightFor(s, p, m) {
        ModLimbsCorrect(p, m);
        FoldedMod(s, ModLimbs(p, m), Val(p), m);
      }
    } else {
      var p := UnsafeWitness(m);
      assert !RightFor(1, p, m);
    }
  }

  /** `y = (y << biH) | h; z = y / b; y -= z * b;` */
  method HalfDivide(y: int, h: int, m: int) returns (r: int)
    requires m > 0
    ensures r == HalfStep(y, h, m)
  {
    r := Rem(HALF * y, BASE) + h;
    var z := Quot(r, m);
    r := r - m * z;
  }

  method ModIntLoop(p: seq<Limb>, m: int) returns (y: int)
    requires m > 0
    ensures y == ModLimbs(p, m)
  {
    var i := |p|;
    y := 0;
    while i > 0
      invariant 0 <= i <= |p| && y == ModLimbs(p[i..], m)
    {
      y := HalfDivide(y, Quot(p[i - 1], HALF), m);
      var x := Rem(HALF * p[i - 1], BASE);
      y := HalfDivide(y, Quot(x, HALF), m);
      assert p[i - 1..][1..] == p[i..];
      i := i - 1;
    }
    assert p[0..] == p;
  }

  lemma SmallDivisors(p: seq<Limb>)
    requires p != []
    ensures SafeDivisor(1) && ModLimbs(p, 1) == 0
    ensures SafeDivisor(2) && ModLimbs(p, 2) == p[0] % 2
  {
    HalfFacts();
    ModLimbsCorrect(p, 2);
    ValParity(p);
    ModUnique(Val(p), 2, Val(p) / 2, Val(p) % 2);
  }

  /** r = A mod z. */
  method ModInt(A: Mpi, z: int) returns (ret: Ret, r: int)
    requires AbsInt(z) < BASE && A.p != []
    ensures ret == if z == 0 then DivisionByZero else if z < 0 then NegativeValue else Ok
    ensures ret == Ok ==> 0 <= r < z && r == Folded(A.s, ModLimbs(A.p, z), z)
    ensures ret == Ok && SafeDivisor(z) ==> r == Mod(A.V(), z)
  {
    r := 0;
    if z == 0 { return DivisionByZero, 0; }
    if z < 0 { return NegativeValue, 0; }
    ret := Ok;
    if SafeDivisor(z) {
      ModLimbsCorrect(A.p, z);
      FoldedMod(A.s, ModLimbs(A.p, z), Val(A.p), z);
    }
    SmallDivisors(A.p);
    assert A.V() == Signed(A.s, Val(A.p));
    if z == 1 {
      return;
    }
    if z == 2 {
      r := A.p[0] % 2;
      return;
    }
    r := ModIntLoop(A.p, z);
    if A.s < 0 && r != 0 { r := z - r; }
  }
}
