/** Schoolbook multiplication of bignum.c. */
module MpiMul {
  import opened Limbs
  import opened MpiCore
  import opened MpiAddSub

  /** MULADDC_CORE: a double-limb product whose two additions never overflow the high half. */
  method MulAddC(s: Limb, b: Limb, c: Limb, d: Limb) returns (lo: Limb, hi: Limb)
    ensures lo + hi * BASE == s * b + c + d
  {
    var r0, r1 := MulWide(s, b);
    var carry;
    lo, carry := AddTwo(r0, c, d);
    ProductBound(s, b);
    var h: int := r1 + carry;
    Distr(BASE, r1, carry);
    Comm(BASE, r1);
    Comm(BASE, carry);
    Comm(BASE, h);
    HighHalfFits(BASE, lo, h, s as int * b, c as int + d);
    hi := h;
  }

  /** `r0 += c; r1 += (r0 < c); r0 += *d; r1 += (r0 < *d);` */
  method AddTwo(r0: Limb, c: Limb, d: Limb) returns (lo: Limb, carry: int)
    ensures 0 <= carry <= 2 && lo + carry * BASE == r0 as int + c + d
  {
    lo := Wrap(r0 as int + c);
    carry := if lo < c then 1 else 0;
    lo := Wrap(lo as int + d);
    carry := carry + if lo < d then 1 else 0;
  }

  /** The double-limb product, cut in two. */
  method MulWide(s: Limb, b: Limb) returns (r0: Limb, r1: Limb)
    ensures r0 + r1 * BASE == s * b
  {
    ProductBound(s, b);
    var r: int := s as int * b;
    var lo, hi := Rem(r, BASE), Quot(r, BASE);
    Comm(BASE, hi);
    HighHalfFits(BASE, lo, hi, r, 0);
    r0, r1 := lo, hi;
  }

  lemma ProductBound(s: Limb, b: Limb)
    ensures 0 <= s as int * b <= (BASE - 1) * (BASE - 1)
  {
    MulLe(s, b, BASE - 1);
    MulLe(BASE - 1, s, BASE - 1);
    PosMul0(s, b);
  }

  lemma HighHalfFits(b: int, lo: int, hi: int, prod: int, extra: int)
    requires b > 0 && lo >= 0 && lo + hi * b == prod + extra
    requires prod <= (b - 1) * (b - 1) && extra <= 2 * (b - 1)
    ensures hi < b
  {
    if hi >= b { MulLe(b, b, hi); }
  }

  /** Value change of one multiply-accumulate store. */
  lemma MulStepValue(q: seq<Limb>, r: seq<Limb>, k: nat, c0: int, c1: int, prod: int)
    requires k < |q| == |r|
    requires r == q[k := r[k]] && r[k] + c1 * BASE == prod + c0 + q[k]
    ensures Val(r) + c1 * W(k + 1) == Val(q) + c0 * W(k) + W(k) * prod
  {
    ValSet(q, k, r[k]);
    CarryShift(W(k), BASE, r[k] as int - q[k], prod + c0, c1);
    Distr(W(k), prod, c0);
  }

  /** `d[off..] += s[..n] * b`, with the carry run to its end inside the buffer. */
  method MulHlp(n: nat, s: seq<Limb>, D: Mpi, off: nat, b: Limb)
    requires n <= |s| && off + n < |D.p|
    requires Val(D.p) + W(off) * (Val(s[..n]) * b) < W(|D.p|)
    modifies D`p
    ensures |D.p| == old(|D.p|) && D.p[..off] == old(D.p[..off])
    ensures Val(D.p) == old(Val(D.p)) + W(off) * (Val(s[..n]) * b)
  {
    ghost var d0 := D.p;
    var k, c: Limb := 0, 0;
    assert s[..0] == [];
    while k < n
      invariant 0 <= k <= n && |D.p| == |d0| && D.p[..off] == d0[..off]
      invariant Val(D.p) + c * W(off + k) == Val(d0) + W(off) * (Val(s[..k]) * b)
    {
      ghost var q, c0 := D.p, c;
      var lo;
      lo, c := MulAddC(s[k], b, c, D.p[off + k]);
      D.p := D.p[off + k := lo];
      MulStepValue(q, D.p, off + k, c0, c, s[k] * b);
      ProdSnoc(s, k, off, b);
      k := k + 1;
    }
    MulCarry(D, off + n, c);
  }

  lemma ProdSnoc(s: seq<Limb>, k: nat, off: nat, b: Limb)
    requires k < |s|
    ensures W(off) * (Val(s[..k + 1]) * b) == W(off) * (Val(s[..k]) * b) + W(off + k) * (s[k] * b)
  {
    ValSnoc(s, k);
    WAdd(off, k);
    ProdSplit(W(off), Val(s[..k]), W(k), s[k], b);
  }

  lemma ProdSplit(u: int, v: int, w: int, x: int, b: int)
    ensures u * ((v + w * x) * b) == u * (v * b) + (u * w) * (x * b)
  {
    calc {
      u * ((v + w * x) * b);
      { Distr(b, v, w * x); Assoc(w, x, b); }
      u * (v * b + w * (x * b));
      { Distr(u, v * b, w * (x * b)); Assoc(u, w, x * b); }
      u * (v * b) + (u * w) * (x * b);
    }
  }

  /** The do-while of mpi_mul_hlp: it runs at least once and stops inside the buffer. */
  method MulCarry(D: Mpi, k0: nat, c0: Limb)
    requires k0 < |D.p| && Val(D.p) + c0 * W(k0) < W(|D.p|)
    modifies D`p
    ensures |D.p| == old(|D.p|) && D.p[..k0] == old(D.p[..k0])
    ensures Val(D.p) == old(Val(D.p)) + c0 * W(k0)
  {
    ghost var d0 := D.p;
    var k := k0;
    var c: Limb := c0;
    var first := true;
    while first || c != 0
      invariant k0 <= k <= |D.p| == |d0| && D.p[..k0] == d0[..k0]
      invariant first ==> k == k0
      invariant Val(D.p) + c * W(k) == Val(d0) + c0 * W(k0)
      decreases |D.p| - k
    {
      if k == |D.p| { MulLe(W(k), 1, c); }
      ghost var q, cOld := D.p, c;
      var x := Wrap(D.p[k] as int + c);
      c := if x < c then 1 else 0;
      D.p := D.p[k := x];
      MulStepValue(q, D.p, k, cOld, c, 0);
      first := false;
      k := k + 1;
    }
  }

  lemma SignProduct(s: Sign, a: int, t: Sign, b: int)
    ensures (if s < 0 then -a else a) * (if t < 0 then -b else b)
         == if s == t then a * b else -(a * b)
  {
  }

  /** X = A * B. */
  method MulMpi(X: Mpi, A0: Mpi, B0: Mpi)
    modifies X
    ensures X.V() == old(A0.V()) * old(B0.V())
    ensures old(A0.p) != [] && old(B0.p) != [] ==> X.s == if old(A0.s) == old(B0.s) then 1 else -1
    ensures |X.p| >= Max(1, old(|X.p|))
  {
    var A, B := A0, B0;
    if X == A {
      A := new Mpi.Init();
      Copy(A, A0);
    }
    if X == B {
      B := new Mpi.Init();
      Copy(B, B0);
    }
    MulCore(X, A, B);
  }

  method MulCore(X: Mpi, A: Mpi, B: Mpi)
    requires X != A && X != B
    modifies X
    ensures X.V() == A.V() * B.V() && X.s == if A.s == B.s then 1 else -1
    ensures |X.p| >= Max(1, old(|X.p|))
  {
    var i := UsedLimbs(A.p);
    var j := UsedLimbs(B.p);
    UsedValue(A.p);
    UsedValue(B.p);
    Grow(X, i + j);
    Lset(X, 0);
    MulRows(X, A.p[..i], B.p[..j]);
    X.s := if A.s == B.s then 1 else -1;
    SignProduct(A.s, Val(A.p), B.s, Val(B.p));
  }

  /** The rows of the product, top row first. */
  method MulRows(X: Mpi, a: seq<Limb>, b: seq<Limb>)
    requires |a| + |b| <= |X.p| && Val(X.p) == 0
    modifies X`p
    ensures |X.p| == old(|X.p|) && Val(X.p) == Val(a) * Val(b)
  {
    var j := |b|;
    assert b[j..] == [];
    while j > 0
      invariant 0 <= j <= |b| && |X.p| == old(|X.p|)
      invariant Val(X.p) == Val(a) * (W(j) * Val(b[j..]))
    {
      RowFits(a, b, j, |X.p|);
      assert a[..|a|] == a;
      MulHlp(|a|, a, X, j - 1, b[j - 1]);
      j := j - 1;
    }
    assert b[0..] == b;
  }

  lemma RowFits(a: seq<Limb>, b: seq<Limb>, j: nat, n: nat)
    requires 0 < j <= |b| && |a| + |b| <= n
    ensures Val(a) * (W(j) * Val(b[j..])) + W(j - 1) * (Val(a) * b[j - 1])
         == Val(a) * (W(j - 1) * Val(b[j - 1..])) < W(n)
  {
    var hi, x, w := Val(b[j..]), b[j - 1] as int, W(j - 1);
    assert b[j - 1..][1..] == b[j..];
    calc {
      w * Val(b[j - 1..]);
      w * (x + BASE * hi);
      { Distr(w, x, BASE * hi); Assoc(w, BASE, hi); }
      w * x + W(j) * hi;
    }
    calc {
      Val(a) * (W(j) * hi + w * x);
      { Distr(Val(a), W(j) * hi, w * x); Assoc(Val(a), w, x); Assoc(w, Val(a), x); }
      Val(a) * (W(j) * hi) + w * (Val(a) * x);
    }
    ValSplit(b, j - 1);
    ValBound(a);
    ValBound(b);
    WAdd(|a|, |b|);
    WMono(|a| + |b|, n);
    var u := w * Val(b[j - 1..]);
    PosMul0(w, Val(b[j - 1..]));
    MulLe(Val(a), u, W(|b|));
    MulLt(W(|b|), Val(a), W(|a|));
  }

  /** X = A * b for an unsigned limb. */
  method MulInt(X: Mpi, A: Mpi, b: Limb)
    modifies X
    ensures X.V() == old(A.V()) * b && (old(A.p) != [] ==> X.s == old(A.s))
    ensures |X.p| >= Max(1, old(|X.p|))
  {
    var B := new Mpi.Init();
    B.p := [b];
    ValSingle(b);
    MulMpi(X, A, B);
  }
}
