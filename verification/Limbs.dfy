/** Limb sequences: the little-endian base-BASE numbers that bignum.c stores in `mpi.p`. */
module Limbs {

  /** `sizeof(t_uint)`: every width bignum.h can select. */
  type LimbBytes = n: nat | n == 1 || n == 2 || n == 4 || n == 8 witness 4

  /** Left unspecified, so that every result holds for each of the four widths. */
  const LIMB_BYTES: LimbBytes

  const LIMB_BITS: nat := 8 * LIMB_BYTES

  function Pow(x: int, n: nat): int
    decreases n
  {
    if n == 0 then 1 else x * Pow(x, n - 1)
  }

  function Pow2(n: nat): (r: int)
    ensures r >= 1
  {
    if n == 0 then 1 else 2 * Pow2(n - 1)
  }

  const BASE: int := Pow2(LIMB_BITS)

  type Limb = x: int | 0 <= x < BASE witness 0

  /** The weight of limb `n`. */
  ghost function W(n: nat): (r: int)
    ensures r >= 1
  {
    if n == 0 then 1 else PosMul(BASE, W(n - 1)); BASE * W(n - 1)
  }

  /** The number a limb sequence stands for. */
  ghost function Val(p: seq<Limb>): (v: int)
    ensures v >= 0
    decreases |p|
  {
    if p == [] then 0 else PosMul0(BASE, Val(p[1..])); p[0] + BASE * Val(p[1..])
  }

  // ----- arithmetic helpers

  lemma PosMul(x: int, y: int)
    requires x >= 1 && y >= 1
    ensures x * y >= 1
  {
  }

  lemma PosMul0(x: int, y: int)
    requires x >= 0 && y >= 0
    ensures x * y >= 0
  {
  }

  lemma MulLe(a: int, x: int, y: int)
    requires 0 <= a && x <= y
    ensures a * x <= a * y
  {
  }

  lemma MulLt(a: int, x: int, y: int)
    requires 0 < a && x < y
    ensures a * x < a * y
  {
  }

  lemma Comm(x: int, y: int)
    ensures x * y == y * x
  {
  }

  lemma Assoc(x: int, y: int, z: int)
    ensures x * y * z == x * (y * z)
  {
  }

  lemma Distr(x: int, y: int, z: int)
    ensures x * (y + z) == x * y + x * z
  {
  }

  /** `r + d * q` stays below `d * m` when `r < d` and `q < m`. */
  lemma CarryBound(r: int, d: int, q: int, m: int)
    requires r < d && q < m && 0 <= d
    ensures r + d * q < d * m
  {
    MulLe(d, q + 1, m);
    Distr(d, q, 1);
  }

  function Quot(x: int, d: int): (q: int)
    requires d > 0
    ensures d * q + Rem(x, d) == x
    ensures x >= 0 ==> q >= 0
  {
    x / d
  }

  function Rem(x: int, d: int): (r: int)
    requires d > 0
    ensures 0 <= r < d
  {
    x % d
  }

  /** Quotient and remainder are unique. */
  lemma QuotUnique(x: int, d: int, q: int, r: int)
    requires d > 0 && x == d * q + r && 0 <= r < d
    ensures Quot(x, d) == q && Rem(x, d) == r
  {
    var q1, r1 := Quot(x, d), Rem(x, d);
    assert d * (q1 - q) == r - r1;
    if q1 > q { MulLe(d, 1, q1 - q); }
    if q1 < q { MulLe(d, q1 - q, -1); }
  }

  /** An odd factor of an even product leaves the two to the other factor. */
  lemma EvenFactor(n: int, k: int, d: int)
    requires n % 2 == 1 && n * k == 2 * d
    ensures k % 2 == 0 && d == n * (k / 2)
  {
    var h := n / 2;
    Distr(k, 2 * h, 1);
    Comm(n, k);
    Comm(k, 2 * h);
    Assoc(2, h, k);
    assert k == 2 * (d - h * k);
    Assoc(n, 2, k / 2);
    Comm(n, 2);
    Assoc(2, n, k / 2);
  }

  lemma EvenPlus(z: int, w: int, y: int)
    requires z == 2 * w + y
    ensures z % 2 == y % 2
  {
  }

  lemma {:induction false} Pow2Add(m: nat, n: nat)
    ensures Pow2(m + n) == Pow2(m) * Pow2(n)
  {
    if m != 0 {
      Pow2Add(m - 1, n);
      Assoc(2, Pow2(m - 1), Pow2(n));
    }
  }

  lemma {:induction false} Pow2Mono(m: nat, n: nat)
    requires m <= n
    ensures Pow2(m) <= Pow2(n)
    decreases n
  {
    if m < n { Pow2Mono(m, n - 1); }
  }

  /** The base is a multiple of 256. */
  lemma BaseFacts()
    ensures BASE >= 256 && BASE % 16 == 0 && BASE == 256 * Pow2(LIMB_BITS - 8)
  {
    assert Pow2(8) == 256;
    Pow2Add(8, LIMB_BITS - 8);
  }

  lemma {:induction false} WIsPow2(n: nat)
    ensures W(n) == Pow2(LIMB_BITS * n)
  {
    if n != 0 {
      WIsPow2(n - 1);
      Distr(LIMB_BITS, n - 1, 1);
      Pow2Add(LIMB_BITS, LIMB_BITS * (n - 1));
    }
  }

  lemma {:induction false} WAdd(m: nat, n: nat)
    ensures W(m + n) == W(m) * W(n)
  {
    if m != 0 {
      WAdd(m - 1, n);
      Assoc(BASE, W(m - 1), W(n));
    }
  }

  lemma {:induction false} WMono(m: nat, n: nat)
    requires m <= n
    ensures W(m) <= W(n)
    decreases n
  {
    if m < n {
      WMono(m, n - 1);
      BaseFacts();
      MulLe(W(n - 1), 1, BASE);
    }
  }

  // ----- values of concatenations, prefixes and updates

  lemma {:induction false} ValAppend(p: seq<Limb>, q: seq<Limb>)
    ensures Val(p + q) == Val(p) + W(|p|) * Val(q)
    decreases |p|
  {
    if p == [] {
      assert p + q == q;
    } else {
      assert (p + q)[1..] == p[1..] + q;
      ValAppend(p[1..], q);
      Distr(BASE, Val(p[1..]), W(|p| - 1) * Val(q));
      Assoc(BASE, W(|p| - 1), Val(q));
    }
  }

  lemma ValSplit(p: seq<Limb>, i: nat)
    requires i <= |p|
    ensures Val(p) == Val(p[..i]) + W(i) * Val(p[i..])
  {
    assert p == p[..i] + p[i..];
    ValAppend(p[..i], p[i..]);
  }

  lemma ValSingle(x: Limb)
    ensures Val([x]) == x
  {
    assert [x][1..] == [];
  }

  lemma ValSnoc(p: seq<Limb>, i: nat)
    requires i < |p|
    ensures Val(p[..i + 1]) == Val(p[..i]) + W(i) * p[i]
  {
    assert p[..i + 1] == p[..i] + [p[i]];
    ValAppend(p[..i], [p[i]]);
    ValSingle(p[i]);
  }

  /** What one store does to the value. */
  lemma ValSet(p: seq<Limb>, i: nat, x: Limb)
    requires i < |p|
    ensures Val(p[i := x]) == Val(p) + W(i) * (x - p[i])
  {
    ValSplit(p, i + 1);
    ValSplit(p[i := x], i + 1);
    assert p[i := x][i + 1..] == p[i + 1..];
    ValSnoc(p, i);
    ValSnoc(p[i := x], i);
    assert p[i := x][..i] == p[..i];
    Distr(W(i), x - p[i], p[i]);
  }

  lemma {:induction false} ValBound(p: seq<Limb>)
    ensures Val(p) < W(|p|)
    decreases |p|
  {
    if p != [] {
      ValBound(p[1..]);
      CarryBound(p[0], BASE, Val(p[1..]), W(|p| - 1));
    }
  }

  lemma {:induction false} ValZeros(p: seq<Limb>)
    requires forall k :: 0 <= k < |p| ==> p[k] == 0
    ensures Val(p) == 0
    decreases |p|
  {
    if p != [] { ValZeros(p[1..]); }
  }

  /** Zero limbs at the top do not count. */
  lemma ValTrim(p: seq<Limb>, i: nat)
    requires i <= |p| && forall k :: i <= k < |p| ==> p[k] == 0
    ensures Val(p) == Val(p[..i])
  {
    ValSplit(p, i);
    ValZeros(p[i..]);
  }

  /** A limb that is not zero shows in the value. */
  lemma ValAtLeast(p: seq<Limb>, i: nat)
    requires i < |p| && p[i] != 0
    ensures Val(p) >= W(i)
  {
    ValSplit(p, i + 1);
    ValSnoc(p, i);
    MulLe(W(i), 1, p[i]);
    PosMul0(W(i + 1), Val(p[i + 1..]));
  }

  /** A small value has no limb at or above its weight. */
  lemma ValSmall(p: seq<Limb>, i: nat)
    requires i <= |p| && Val(p) < W(i)
    ensures Val(p) == Val(p[..i]) && forall k :: i <= k < |p| ==> p[k] == 0
  {
    forall k | i <= k < |p| ensures p[k] == 0 {
      if p[k] != 0 {
        ValAtLeast(p, k);
        WMono(i, k);
        assert false;
      }
    }
    ValTrim(p, i);
  }

  /** Comparing the highest differing limb compares the values. */
  lemma ValCompare(p: seq<Limb>, q: seq<Limb>, i: nat)
    requires i < |p| && i < |q| && p[i] < q[i]
    requires Val(p[i + 1..]) == Val(q[i + 1..])
    ensures Val(p) < Val(q)
  {
    ValSplit(p, i + 1);
    ValSplit(q, i + 1);
    ValSnoc(p, i);
    ValSnoc(q, i);
    ValBound(p[..i]);
    CarryBound(Val(p[..i]), W(i), p[i], q[i]);
    var hi := W(i + 1) * Val(p[i + 1..]);
    assert Val(p) == Val(p[..i]) + W(i) * p[i] + hi;
    assert Val(q) == Val(q[..i]) + W(i) * q[i] + hi;
  }

  lemma ValParity(p: seq<Limb>)
    requires p != []
    ensures Val(p) % 2 == p[0] % 2
  {
    BaseFacts();
    var k := Val(p[1..]);
    assert BASE * k == 2 * ((128 * Pow2(LIMB_BITS - 8)) * k);
  }

  function Zeros(n: nat): (z: seq<Limb>)
    ensures |z| == n && forall k :: 0 <= k < n ==> z[k] == 0
  {
    seq(n, _ => 0)
  }
}
