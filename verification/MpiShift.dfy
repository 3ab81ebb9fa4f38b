/** Bit lengths and shifts of bignum.c. */
module MpiShift {
  import opened Limbs
  import opened MpiCore

  // ----- bits of natural numbers

  ghost function BitLen(v: nat): nat {
    if v == 0 then 0 else 1 + BitLen(v / 2)
  }

  lemma {:induction false} BitLenBounds(v: nat)
    requires v > 0
    ensures BitLen(v) > 0 && Pow2(BitLen(v) - 1) <= v < Pow2(BitLen(v))
  {
    if v > 1 { BitLenBounds(v / 2); }
  }

  lemma BitLenUnique(v: nat, n: nat)
    requires n > 0 && Pow2(n - 1) <= v < Pow2(n)
    ensures BitLen(v) == n
  {
    BitLenBounds(v);
    if n < BitLen(v) { Pow2Mono(n, BitLen(v) - 1); }
    if BitLen(v) < n { Pow2Mono(BitLen(v), n - 1); }
  }

  /** Number of trailing zero bits; 0 for 0, as mpi_lsb has it. */
  ghost function Twos(v: nat): nat {
    if v == 0 || v % 2 == 1 then 0 else 1 + Twos(v / 2)
  }

  /** What is left when every factor two is divided out. */
  ghost function OddPart(v: nat): nat {
    if v == 0 || v % 2 == 1 then v else OddPart(v / 2)
  }

  lemma {:induction false} TwosOdd(v: nat)
    ensures v == Pow2(Twos(v)) * OddPart(v)
    ensures v > 0 ==> OddPart(v) % 2 == 1
  {
    if v != 0 && v % 2 == 0 {
      TwosOdd(v / 2);
      Assoc(2, Pow2(Twos(v / 2)), OddPart(v / 2));
    }
  }

  lemma {:induction false} TwosUnique(r: nat, q: nat)
    requires q % 2 == 1
    ensures Pow2(r) * q > 0 && Twos(Pow2(r) * q) == r && OddPart(Pow2(r) * q) == q
  {
    if r > 0 {
      TwosUnique(r - 1, q);
      Assoc(2, Pow2(r - 1), q);
    }
  }

  lemma QuotQuot(x: int, c: int, d: int)
    requires c > 0 && d > 0
    ensures c * d > 0 && Quot(Quot(x, c), d) == Quot(x, c * d)
  {
    PosMul(c, d);
    var q := Quot(x, c);
    var e := Quot(q, d);
    NestedQuot(c, d, e, Rem(q, d), Rem(x, c));
    CarryBound(Rem(x, c), c, Rem(q, d), d);
    PosMul0(c, Rem(q, d));
    QuotUnique(x, c * d, e, c * Rem(q, d) + Rem(x, c));
  }

  lemma NestedQuot(c: int, d: int, e: int, r: int, s: int)
    ensures c * (d * e + r) + s == (c * d) * e + (c * r + s)
  {
    Distr(c, d * e, r);
    Assoc(c, d, e);
  }

  // ----- bit positions

  method Msb(X: Mpi) returns (r: nat)
    requires X.p != []
    ensures r == BitLen(Val(X.p))
  {
    var i := |X.p| - 1;
    while i > 0 && X.p[i] == 0
      invariant 0 <= i < |X.p| && forall k :: i < k < |X.p| ==> X.p[k] == 0
    {
      i := i - 1;
    }
    var j := LIMB_BITS;
    while j > 0 && Quot(X.p[i], Pow2(j - 1)) % 2 == 0
      invariant 0 <= j <= LIMB_BITS && X.p[i] < Pow2(j)
    {
      if X.p[i] >= Pow2(j - 1) { QuotUnique(X.p[i], Pow2(j - 1), 1, X.p[i] as int - Pow2(j - 1)); }
      j := j - 1;
    }
    if j > 0 && X.p[i] < Pow2(j - 1) { QuotUnique(X.p[i], Pow2(j - 1), 0, X.p[i]); }
    MsbValue(X.p, i, j);
    r := LIMB_BITS * i + j;
  }

  lemma MsbValue(p: seq<Limb>, i: nat, j: nat)
    requires i < |p| && forall k :: i < k < |p| ==> p[k] == 0
    requires p[i] < Pow2(j) && (if j == 0 then i == 0 || p[i] != 0 else Pow2(j - 1) <= p[i])
    ensures LIMB_BITS * i + j == BitLen(Val(p))
  {
    ValTrim(p, i + 1);
    ValSnoc(p, i);
    ValBound(p[..i]);
    WIsPow2(i);
    if j > 0 {
      var n := LIMB_BITS * i + j;
      Pow2Add(LIMB_BITS * i, j);
      Pow2Add(LIMB_BITS * i, j - 1);
      MulLe(W(i), Pow2(j - 1), p[i]);
      CarryBound(Val(p[..i]), W(i), p[i], Pow2(j));
      BitLenUnique(Val(p), n);
    } else {
      assert p[..0] == [];
    }
  }

  method Lsb(X: Mpi) returns (count: nat)
    ensures count == Twos(Val(X.p))
  {
    var i := 0;
    count := 0;
    while i < |X.p|
      invariant 0 <= i <= |X.p| && count == LIMB_BITS * i
      invariant forall k :: 0 <= k < i ==> X.p[k] == 0
    {
      var j := 0;
      while j < LIMB_BITS
        invariant 0 <= j <= LIMB_BITS && count == LIMB_BITS * i + j
        invariant Rem(X.p[i], Pow2(j)) == 0
      {
        if Quot(X.p[i], Pow2(j)) % 2 != 0 {
          LsbValue(X.p, i, j);
          return;
        }
        LsbStep(X.p[i], j);
        j := j + 1;
        count := count + 1;
      }
      if X.p[i] != 0 { QuotUnique(X.p[i], BASE, 0, X.p[i]); }
      Distr(LIMB_BITS, i, 1);
      i := i + 1;
    }
    ValZeros(X.p);
    count := 0;
  }

  lemma LsbStep(x: int, j: nat)
    requires Rem(x, Pow2(j)) == 0 && Quot(x, Pow2(j)) % 2 == 0
    ensures Rem(x, Pow2(j + 1)) == 0
  {
    var m := Quot(x, Pow2(j));
    assert m == 2 * (m / 2);
    Comm(2, Pow2(j));
    Assoc(Pow2(j), 2, m / 2);
    QuotUnique(x, Pow2(j + 1), m / 2, 0);
  }

  lemma LsbValue(p: seq<Limb>, i: nat, j: nat)
    requires i < |p| && j < LIMB_BITS && forall k :: 0 <= k < i ==> p[k] == 0
    requires Rem(p[i], Pow2(j)) == 0 && Quot(p[i], Pow2(j)) % 2 != 0
    ensures Twos(Val(p)) == LIMB_BITS * i + j
  {
    ValSplit(p, i);
    ValZeros(p[..i]);
    assert p[i..][1..] == p[i + 1..];
    var odd := LowBits(p[i], Val(p[i + 1..]), j);
    WIsPow2(i);
    PosMul0(LIMB_BITS, i);
    Pow2Add(LIMB_BITS * i, j);
    Assoc(W(i), Pow2(j), odd);
    TwosUnique(LIMB_BITS * i + j, odd);
  }

  lemma LowBits(x: Limb, rest: nat, j: nat) returns (odd: nat)
    requires j < LIMB_BITS && Rem(x, Pow2(j)) == 0 && Quot(x, Pow2(j)) % 2 != 0
    ensures odd % 2 == 1 && x + BASE * rest == Pow2(j) * odd
  {
    var m := Quot(x, Pow2(j));
    Pow2Add(j, LIMB_BITS - j);
    var half := Pow2(LIMB_BITS - j - 1);
    PosMul0(half, rest);
    odd := m + 2 * (half * rest);
    FactorLow(m, Pow2(j), half, rest);
  }

  lemma FactorLow(m: int, t: int, half: int, rest: int)
    ensures t * m + (t * (2 * half)) * rest == t * (m + 2 * (half * rest))
  {
    Assoc(t, 2 * half, rest);
    Assoc(2, half, rest);
    Distr(t, m, 2 * (half * rest));
  }

  // ----- left shift

  function LimbsForBits(n: nat): nat {
    Quot(n + LIMB_BITS - 1, LIMB_BITS)
  }

  /** Move the limbs up by `v0` and clear the low ones. */
  method ShiftLimbsL(X: Mpi, v0: nat)
    requires v0 <= |X.p|
    modifies X`p
    ensures X.p == Zeros(v0) + old(X.p[..|X.p| - v0])
  {
    ghost var x0 := X.p;
    var i := |X.p|;
    while i > v0
      invariant v0 <= i <= |X.p| == |x0|
      invariant forall k :: 0 <= k < i ==> X.p[k] == x0[k]
      invariant forall k :: i <= k < |x0| ==> X.p[k] == x0[k - v0]
    {
      X.p := X.p[i - 1 := X.p[i - v0 - 1]];
      i := i - 1;
    }
    while i > 0
      invariant 0 <= i <= v0 <= |X.p| == |x0|
      invariant forall k :: i <= k < v0 ==> X.p[k] == 0
      invariant forall k :: v0 <= k < |x0| ==> X.p[k] == x0[k - v0]
    {
      X.p := X.p[i - 1 := 0];
      i := i - 1;
    }
  }

  lemma ScaleSplit(x: int, hi: int, d: int, lo: int, t: int)
    requires x == d * hi + lo
    ensures t * x == (t * d) * hi + t * lo
  {
    Distr(t, d * hi, lo);
    Assoc(t, d, hi);
  }

  /** One limb of the bit shift: `r1 = x >> (biL - t); x <<= t; x |= r0`. */
  method ShiftLimbL(x: Limb, t: nat, r0: int) returns (y: Limb, r1: int)
    requires 0 < t < LIMB_BITS && 0 <= r0 < Pow2(t)
    ensures 0 <= r1 < Pow2(t) && y + BASE * r1 == Pow2(t) * x + r0
  {
    var up := Pow2(LIMB_BITS - t);
    Pow2Add(t, LIMB_BITS - t);
    r1 := Quot(x, up);
    ShiftedLimb(x, Pow2(t), up);
    var shifted: int := Rem(Pow2(t) * x, BASE);
    CarryBound(r0, Pow2(t), Rem(x, up), up);
    y := shifted + r0;
  }

  /** A limb times `t`, cut at the limb boundary. */
  lemma ShiftedLimb(x: Limb, t: int, up: int)
    requires t >= 1 && up >= 1 && t * up == BASE
    ensures 0 <= Quot(x, up) < t
    ensures Rem(t * x, BASE) == t * Rem(x, up) >= 0
    ensures t * x == BASE * Quot(x, up) + t * Rem(x, up)
  {
    var hi, lo := Quot(x, up), Rem(x, up);
    if hi >= t {
      MulLe(up, t, hi);
      Comm(t, up);
    }
    ScaleSplit(x, hi, up, lo, t);
    CarryBound(0, t, lo, up);
    PosMul0(t, lo);
    QuotUnique(t * x, BASE, hi, t * lo);
  }

  /** Shift the limbs from `v0` up by `t` bits; nothing falls off the top. */
  method ShiftBitsL(X: Mpi, v0: nat, t: nat)
    requires 0 < t < LIMB_BITS && v0 <= |X.p|
    requires forall k :: 0 <= k < v0 ==> X.p[k] == 0
    requires Pow2(t) * Val(X.p) < W(|X.p|)
    modifies X`p
    ensures |X.p| == old(|X.p|) && Val(X.p) == Pow2(t) * old(Val(X.p))
  {
    ghost var x0 := X.p;
    var i, r0 := v0, 0;
    ValZeros(x0[..v0]);
    while i < |X.p|
      invariant v0 <= i <= |X.p| == |x0| && 0 <= r0 < Pow2(t) && X.p[i..] == x0[i..]
      invariant Val(X.p[..i]) + W(i) * r0 == Pow2(t) * Val(x0[..i])
    {
      ghost var q, rOld := X.p, r0;
      assert q[i] == q[i..][0] == x0[i];
      var y;
      y, r0 := ShiftLimbL(X.p[i], t, r0);
      X.p := X.p[i := y];
      ValSnoc(X.p, i);
      ValSnoc(x0, i);
      assert X.p[..i] == q[..i] && X.p[i + 1..] == q[i..][1..] == x0[i + 1..];
      ShiftStep(Val(q[..i]), rOld, W(i), Val(x0[..i]), x0[i], Pow2(t), y, r0);
      i := i + 1;
    }
    assert X.p[..i] == X.p && x0[..i] == x0;
    if r0 > 0 { MulLe(W(i), 1, r0); }
    assert r0 == 0;
  }

  lemma ShiftStep(v: int, r: int, w: int, v0: int, x: int, t: int, y: int, r1: int)
    requires v + w * r == t * v0 && y + BASE * r1 == t * x + r
    ensures (v + w * y) + (BASE * w) * r1 == t * (v0 + w * x)
  {
    calc {
      (v + w * y) + (BASE * w) * r1;
      { Comm(BASE, w); Assoc(w, BASE, r1); Distr(w, y, BASE * r1); }
      v + w * (t * x + r);
      { Distr(w, t * x, r); Assoc(w, t, x); Comm(w, t); Assoc(t, w, x); Distr(t, v0, w * x); }
      t * (v0 + w * x);
    }
  }

  /** X <<= count. */
  method ShiftL(X: Mpi, count: nat)
    requires X.p != []
    modifies X`p
    ensures Val(X.p) == Pow2(count) * old(Val(X.p))
    ensures |X.p| == Max(old(|X.p|), LimbsForBits(BitLen(old(Val(X.p))) + count))
  {
    var i := Msb(X);
    i := i + count;
    GrowEnough(|X.p|, i);
    if LIMB_BITS * |X.p| < i { Grow(X, LimbsForBits(i)); }
    ShiftInPlace(X, count);
  }

  /** The two moves of mpi_shift_l, once the buffer is long enough. */
  method ShiftInPlace(X: Mpi, count: nat)
    requires BitLen(Val(X.p)) + count <= LIMB_BITS * |X.p|
    modifies X`p
    ensures |X.p| == old(|X.p|) && Val(X.p) == Pow2(count) * old(Val(X.p))
  {
    var v0, t1 := Quot(count, LIMB_BITS), Rem(count, LIMB_BITS);
    ghost var x := Val(X.p);
    ShiftFits(X.p, count);
    if v0 > 0 { ShiftLimbsL(X, v0); } else { assert X.p == Zeros(0) + X.p[..|X.p| - 0]; }
    Assoc(Pow2(t1), W(v0), x);
    if t1 > 0 { ShiftBitsL(X, v0, t1); }
  }

  lemma GrowEnough(n: nat, i: nat)
    ensures LIMB_BITS * n < i <==> n < LimbsForBits(i)
    ensures LIMB_BITS * LimbsForBits(i) >= i
  {
    var k := LimbsForBits(i);
    if n < k { MulLe(LIMB_BITS, n, k - 1); Distr(LIMB_BITS, k, -1); } else { MulLe(LIMB_BITS, k, n); }
  }

  /** The limb move keeps every significant limb, and the bit move fits. */
  lemma ShiftFits(p: seq<Limb>, count: nat)
    requires BitLen(Val(p)) + count <= LIMB_BITS * |p|
    ensures var v0, t1 := Quot(count, LIMB_BITS), Rem(count, LIMB_BITS);
      && v0 <= |p|
      && Pow2(count) == Pow2(t1) * W(v0)
      && Pow2(count) * Val(p) < W(|p|)
      && Val(Zeros(v0) + p[..|p| - v0]) == W(v0) * Val(p)
  {
    var v0 := Quot(count, LIMB_BITS);
    CountSplit(count);
    if v0 > |p| {
      MulLe(LIMB_BITS, |p| + 1, v0);
      Distr(LIMB_BITS, |p|, 1);
    }
    ProductFits(p, count);
    TopLimbsClear(p, v0, BitLen(Val(p)));
    ValSmall(p, |p| - v0);
    ValAppend(Zeros(v0), p[..|p| - v0]);
    ValZeros(Zeros(v0));
  }

  lemma CountSplit(count: nat)
    ensures Pow2(count) == Pow2(Rem(count, LIMB_BITS)) * W(Quot(count, LIMB_BITS))
  {
    var v0, t1 := Quot(count, LIMB_BITS), Rem(count, LIMB_BITS);
    PosMul0(LIMB_BITS, v0);
    WIsPow2(v0);
    Pow2Add(t1, LIMB_BITS * v0);
  }

  lemma ProductFits(p: seq<Limb>, count: nat)
    requires BitLen(Val(p)) + count <= LIMB_BITS * |p|
    ensures Pow2(count) * Val(p) < W(|p|)
  {
    var bl := BitLen(Val(p));
    if Val(p) > 0 { BitLenBounds(Val(p)); }
    MulLt(Pow2(count), Val(p), Pow2(bl));
    Pow2Add(count, bl);
    WIsPow2(|p|);
    Pow2Mono(count + bl, LIMB_BITS * |p|);
  }

  lemma TopLimbsClear(p: seq<Limb>, v0: nat, bl: nat)
    requires v0 <= |p| && bl == BitLen(Val(p)) && bl + LIMB_BITS * v0 <= LIMB_BITS * |p|
    ensures Val(p) < W(|p| - v0)
  {
    if Val(p) > 0 { BitLenBounds(Val(p)); }
    WIsPow2(|p| - v0);
    Distr(LIMB_BITS, |p|, 0 - (v0 as int));
    Pow2Mono(bl, LIMB_BITS * (|p| - v0));
  }

  // ----- right shift

  method ShiftLimbsR(X: Mpi, v0: nat)
    requires v0 <= |X.p|
    modifies X`p
    ensures X.p == old(X.p[v0..]) + Zeros(v0)
  {
    ghost var x0 := X.p;
    var i := 0;
    while i < |X.p| - v0
      invariant 0 <= i <= |X.p| - v0 && |X.p| == |x0|
      invariant forall k :: 0 <= k < i ==> X.p[k] == x0[k + v0]
      invariant forall k :: i <= k < |x0| ==> X.p[k] == x0[k]
    {
      X.p := X.p[i := X.p[i + v0]];
      i := i + 1;
    }
    while i < |X.p|
      invariant |x0| - v0 <= i <= |X.p| == |x0|
      invariant forall k :: 0 <= k < |x0| - v0 ==> X.p[k] == x0[k + v0]
      invariant forall k :: |x0| - v0 <= k < i ==> X.p[k] == 0
    {
      X.p := X.p[i := 0];
      i := i + 1;
    }
  }

  /** One limb of the bit shift: `r1 = x << (biL - v); x >>= v; x |= r0`. */
  method ShiftLimbR(x: Limb, v: nat, r0: Limb, ghost rr: int) returns (y: Limb, r1: Limb, ghost lo: int)
    requires 0 < v < LIMB_BITS && 0 <= rr < Pow2(v) && r0 == Pow2(LIMB_BITS - v) * rr
    ensures 0 <= lo < Pow2(v) && r1 == Pow2(LIMB_BITS - v) * lo
    ensures Pow2(v) * y + lo == x + BASE * rr
  {
    var up := Pow2(LIMB_BITS - v);
    Pow2Add(v, LIMB_BITS - v);
    var hi := Quot(x, Pow2(v));
    lo := Rem(x, Pow2(v));
    if hi >= up { MulLe(Pow2(v), up, hi); }
    CarryBound(hi, up, rr, Pow2(v));
    CarryBound(0, up, lo, Pow2(v));
    PosMul0(up, lo);
    ScaleSplit(x, hi, Pow2(v), lo, up);
    Comm(Pow2(v), up);
    QuotUnique(up * x, BASE, hi, up * lo);
    r1 := Rem(up * x, BASE);
    y := hi + r0;
    ScaleSplit(y, rr, up, hi, Pow2(v));
  }

  method ShiftBitsR(X: Mpi, v: nat)
    requires 0 < v < LIMB_BITS
    modifies X`p
    ensures |X.p| == old(|X.p|) && Val(X.p) == Quot(old(Val(X.p)), Pow2(v))
  {
    ghost var x0 := X.p;
    var i, r0: Limb := |X.p|, 0;
    ghost var rr := 0;
    while i > 0
      invariant 0 <= i <= |X.p| == |x0| && 0 <= rr < Pow2(v) && r0 == Pow2(LIMB_BITS - v) * rr
      invariant X.p[..i] == x0[..i] && Val(x0[i..]) == Pow2(v) * Val(X.p[i..]) + rr
    {
      ghost var q, rOld := X.p, rr;
      assert q[i - 1] == q[..i][i - 1] == x0[i - 1];
      var y;
      y, r0, rr := ShiftLimbR(X.p[i - 1], v, r0, rr);
      X.p := X.p[i - 1 := y];
      assert X.p[i - 1..][1..] == q[i..] && x0[i - 1..][1..] == x0[i..];
      assert X.p[..i - 1] == q[..i][..i - 1];
      HalveStep(y, rr, x0[i - 1], rOld, Pow2(v), Val(q[i..]));
      i := i - 1;
    }
    assert X.p[0..] == X.p && x0[0..] == x0;
    QuotUnique(Val(x0), Pow2(v), Val(X.p), rr);
  }

  lemma HalveStep(y: int, lo: int, x: int, rr: int, t: int, hi: int)
    requires t * y + lo == x + BASE * rr
    ensures x + BASE * (t * hi + rr) == t * (y + BASE * hi) + lo
  {
    Distr(BASE, t * hi, rr);
    Distr(t, y, BASE * hi);
    Assoc(BASE, t, hi);
    Comm(BASE, t);
    Assoc(t, BASE, hi);
  }

  /** X >>= count. */
  method ShiftR(X: Mpi, count: nat)
    modifies X
    ensures Val(X.p) == Quot(old(Val(X.p)), Pow2(count))
    ensures X.s == old(X.s) || (X.s == 1 && Val(X.p) == 0)
    ensures |X.p| == if count > 0 then Max(old(|X.p|), 1) else old(|X.p|)
  {
    var v0, v1 := Quot(count, LIMB_BITS), Rem(count, LIMB_BITS);
    ghost var x := Val(X.p);
    assert count == LIMB_BITS * v0 + v1;
    WIsPow2(v0);
    PosMul0(LIMB_BITS, v0);
    Pow2Add(LIMB_BITS * v0, v1);
    if v0 > |X.p| || (v0 == |X.p| && v1 > 0) {
      ValBound(X.p);
      WMono(|X.p|, v0);
      MulLe(W(v0), 1, Pow2(v1));
      QuotUnique(x, Pow2(count), 0, x);
      BaseFacts();
      Lset(X, 0);
      return;
    }
    QuotQuot(x, W(v0), Pow2(v1));
    Comm(W(v0), Pow2(v1));
    ShiftDown(X, v0, v1);
  }

  /** The two moves of mpi_shift_r. */
  method ShiftDown(X: Mpi, v0: nat, v1: nat)
    requires v0 <= |X.p| && v1 < LIMB_BITS
    modifies X`p
    ensures |X.p| == old(|X.p|) && Val(X.p) == Quot(Quot(old(Val(X.p)), W(v0)), Pow2(v1))
  {
    DropLimbs(X.p, v0);
    if v0 > 0 { ShiftLimbsR(X, v0); } else { assert X.p == X.p[0..] + Zeros(0); }
    if v1 > 0 { ShiftBitsR(X, v1); } else { QuotUnique(Val(X.p), 1, Val(X.p), 0); }
  }

  lemma DropLimbs(p: seq<Limb>, v0: nat)
    requires v0 <= |p|
    ensures Val(p[v0..] + Zeros(v0)) == Quot(Val(p), W(v0))
  {
    ValTrim(p[v0..] + Zeros(v0), |p| - v0);
    assert (p[v0..] + Zeros(v0))[..|p| - v0] == p[v0..];
    ValSplit(p, v0);
    ValBound(p[..v0]);
    var q, r := Val(p[v0..]), Val(p[..v0]);
    QuotUnique(Val(p), W(v0), q, r);
  }
}
