/** Montgomery multiplication of bignum.c (HAC 14.36). */
module MpiMontgomery {
  import opened Limbs
  import opened MpiCore
  import opened MpiAddSub
  import opened MpiMul
  import opened MpiDivision

  // ----- mpi_montg_init

  /** `m * x` is 1 modulo 2^e, with `k` as the witness. */
  ghost predicate InverseBits(m: int, x: int, e: nat, k: int) {
    m * x == 1 + Pow2(e) * k
  }

  /** The bit trick gives an inverse modulo 16 of every odd limb. */
  lemma SeedInverse(m: int, x: int) returns (k: int)
    requires m % 2 == 1 && x == m + 8 * ((m + 2) / 4 % 2)
    ensures InverseBits(m, x, 4, k)
  {
    var a, r := m / 16, m % 16;
    SeedBits(m, a, r);
    var c := x - m;
    var k0 := SeedTable(r, c);
    k := a * (16 * a + (r + c)) + r * a + k0;
    SquareExpand(a, r, r + c);
    assert Pow2(4) == 16;
  }

  lemma SeedBits(m: int, a: int, r: int)
    requires m == 16 * a + r && 0 <= r < 16
    ensures (m + 2) / 4 % 2 == (r + 2) / 4 % 2 && m % 2 == r % 2
  {
    var q, t := (r + 2) / 4, (r + 2) % 4;
    QuotUnique(m + 2, 4, 4 * a + q, t);
    EvenPlus(4 * a + q, 2 * a, q);
    EvenPlus(m, 8 * a, r);
  }

  lemma SquareExpand(a: int, r: int, s: int)
    ensures (16 * a + r) * (16 * a + s) == 16 * (a * (16 * a + s) + r * a) + r * s
  {
    var x := 16 * a + s;
    calc {
      (16 * a + r) * x;
      { Comm(16 * a + r, x); Distr(x, 16 * a, r); Comm(x, 16 * a); Comm(x, r); }
      (16 * a) * x + r * x;
      { Assoc(16, a, x); Distr(r, 16 * a, s); Comm(r, 16 * a); Assoc(16, a, r); Comm(a, r); }
      16 * (a * x) + 16 * (r * a) + r * s;
    }
  }

  lemma SeedTable(r: int, c: int) returns (k: int)
    requires 0 <= r < 16 && r % 2 == 1 && c == 8 * ((r + 2) / 4 % 2)
    ensures r * (r + c) == 1 + 16 * k
  {
    match r
    case 1 => k := 0;
    case 3 => k := 2;
    case 5 => k := 4;
    case 7 => k := 3;
    case 9 => k := 5;
    case 11 => k := 13;
    case 13 => k := 17;
    case _ => k := 14;
  }

  /** One Newton step doubles the number of correct bits. */
  lemma NewtonDoubles(m: int, x: int, e: nat, k: int, y: int) returns (k1: int)
    requires InverseBits(m, x, e, k) && 2 * e <= LIMB_BITS
    requires y == Rem(x * (2 - m * x), BASE)
    ensures InverseBits(m, y, 2 * e, k1)
  {
    var M, z := Pow2(e), x * (2 - m * x);
    Pow2Add(e, e);
    Pow2Add(2 * e, LIMB_BITS - 2 * e);
    var c, j := Pow2(LIMB_BITS - 2 * e), Quot(z, BASE);
    k1 := -(k * k) - c * (m * j);
    calc {
      m * y;
      m * (z - BASE * j);
      { Distr(m, z, -(BASE * j)); NegProduct(m, BASE * j); }
      m * z - m * (BASE * j);
      { NewtonSquare(m, x, M, k); Assoc(m, BASE, j); Comm(m, BASE); Assoc(BASE, m, j); Assoc(M * M, c, m * j); }
      1 - (M * M) * (k * k) - (M * M) * (c * (m * j));
      { Distr(M * M, -(k * k), -(c * (m * j))); NegProduct(M * M, k * k); NegProduct(M * M, c * (m * j)); }
      1 + (M * M) * k1;
    }
  }

  lemma NewtonSquare(m: int, x: int, M: int, k: int)
    requires m * x == 1 + M * k
    ensures m * (x * (2 - m * x)) == 1 - (M * M) * (k * k)
  {
    var t := M * k;
    calc {
      m * (x * (2 - m * x));
      { Assoc(m, x, 2 - m * x); }
      (1 + t) * (1 - t);
      { Distr(1 + t, 1, -t); Comm(1 + t, -t); Distr(-t, 1, t); NegProduct(t, t); }
      1 - t * t;
      { Assoc(M, k, t); Comm(k, t); Assoc(M, k, k); Assoc(M, M, k * k); }
      1 - (M * M) * (k * k);
    }
  }

  /** mm = -N^-1 modulo the limb base, for every odd low limb and every limb width. */
  method MontgInit(N: Mpi) returns (mm: Limb)
    requires N.p != [] && N.p[0] % 2 == 1
    ensures Rem(N.p[0] * mm + 1, BASE) == 0
  {
    BaseFacts();
    var m0: int := N.p[0];
    var x: int := Rem(m0 + 8 * ((m0 + 2) / 4 % 2), BASE);
    ghost var e := 4;
    ghost var k := SeedInverse(m0, m0 + 8 * ((m0 + 2) / 4 % 2));
    k := WrapInverse(m0, m0 + 8 * ((m0 + 2) / 4 % 2), x, k);
    var i := LIMB_BITS;
    while i >= 8
      invariant || (i == 64 && 16 * e == LIMB_BITS) || (i == 32 && 8 * e == LIMB_BITS)
                || (i == 16 && 4 * e == LIMB_BITS) || (i == 8 && 2 * e == LIMB_BITS)
                || (i == 4 && e == LIMB_BITS)
      invariant 0 <= x < BASE && InverseBits(m0, x, e, k)
    {
      k := NewtonDoubles(m0, x, e, k, Rem(x * (2 - m0 * x), BASE));
      x := Rem(x * (2 - m0 * x), BASE);
      i := i / 2;
      e := 2 * e;
    }
    mm := if x == 0 then 0 else BASE - x;
    NegInverse(m0, x, mm, k);
  }

  /** Unsigned wrap-around keeps an inverse modulo 16. */
  lemma WrapInverse(m: int, x: int, y: int, k: int) returns (k1: int)
    requires InverseBits(m, x, 4, k) && y == Rem(x, BASE)
    ensures InverseBits(m, y, 4, k1)
  {
    BaseFacts();
    var c, j := 16 * Pow2(LIMB_BITS - 8), Quot(x, BASE);
    assert Pow2(4) == 16 && BASE == 16 * c;
    k1 := k - c * (m * j);
    Distr(m, x, -(BASE * j));
    NegProduct(m, BASE * j);
    Assoc(m, BASE, j);
    Comm(m, BASE);
    Assoc(BASE, m, j);
    Assoc(16, c, m * j);
  }

  lemma NegInverse(m: int, x: int, mm: int, k: int)
    requires InverseBits(m, x, LIMB_BITS, k) && 0 <= x < BASE
    requires mm == if x == 0 then 0 else BASE - x
    ensures Rem(m * mm + 1, BASE) == 0
  {
    BaseFacts();
    if x == 0 {
      assert m * 0 == 0;
      if k >= 0 { PosMul0(BASE, k); } else { MulLe(BASE, k, -1); }
    } else {
      Distr(m, BASE, -x);
      NegProduct(m, x);
      Comm(m, BASE);
      Distr(BASE, m, -k);
      NegProduct(BASE, k);
      QuotUnique(m * mm + 1, BASE, m - k, 0);
    }
  }

  // ----- mpi_montmul

  /** The chosen multiple of N clears the lowest limb. */
  lemma ClearsLow(d: int, dh: int, u0: int, b: int, bh: int, u1: int, n: int, nh: int, mm: int)
    requires Rem(n * mm + 1, BASE) == 0
    requires u1 == Rem((d + u0 * b) * mm, BASE)
    ensures exists h :: (d + BASE * dh) + (b + BASE * bh) * u0 + (n + BASE * nh) * u1 == BASE * h
  {
    var s, g, q := d + u0 * b, Quot(n * mm + 1, BASE), Quot((d + u0 * b) * mm, BASE);
    // u1 = s * mm - BASE * q and n * mm = BASE * g - 1
    var h := dh + bh * u0 + nh * u1 + s * g - n * q;
    calc {
      s + n * u1;
      s + n * (s * mm - BASE * q);
      { Distr(n, s * mm, -(BASE * q)); NegProduct(n, BASE * q); Assoc(n, s, mm); Comm(n, s); Assoc(s, n, mm); }
      s + s * (n * mm) - n * (BASE * q);
      { Distr(s, n * mm, 1); Assoc(n, BASE, q); Comm(n, BASE); Assoc(BASE, n, q); }
      s * (BASE * g) - BASE * (n * q);
      { Assoc(s, BASE, g); Comm(s, BASE); Assoc(BASE, s, g); }
      BASE * (s * g) - BASE * (n * q);
    }
    calc {
      (d + BASE * dh) + (b + BASE * bh) * u0 + (n + BASE * nh) * u1;
      { Comm(b + BASE * bh, u0); Distr(u0, b, BASE * bh); Comm(u0, BASE * bh); Assoc(BASE, bh, u0);
        Comm(n + BASE * nh, u1); Distr(u1, n, BASE * nh); Comm(u1, BASE * nh); Assoc(BASE, nh, u1); Comm(u1, n); }
      s + n * u1 + BASE * dh + BASE * (bh * u0) + BASE * (nh * u1);
      { FiveTerms(dh, bh * u0, nh * u1, s * g, n * q); }
      BASE * h;
    }
  }

  lemma FiveTerms(a: int, b: int, c: int, d: int, e: int)
    ensures BASE * a + BASE * b + BASE * c + BASE * d - BASE * e == BASE * (a + b + c + d - e)
  {
    NegProduct(BASE, e);
    Distr(BASE, a, b);
    Distr(BASE, a + b, c);
    Distr(BASE, a + b + c, d);
    Distr(BASE, a + b + c + d, -e);
  }

  lemma LowLimbZero(p: seq<Limb>, h: int)
    requires p != [] && Val(p) == BASE * h
    ensures p[0] == 0 && Val(p[1..]) == h
  {
    BaseFacts();
    QuotUnique(Val(p), BASE, h, 0);
    QuotUnique(Val(p), BASE, Val(p[1..]), p[0]);
  }

  /** What the accumulator above limb `i` of T holds after `i` rounds. */
  ghost predicate Accumulated(acc: int, w: int, a: int, b: int, n: int, q: int) {
    0 <= q < w && w * acc == a * b + n * q
  }

  /** The accumulator never reaches 2N. */
  lemma AccBound(acc: int, w: int, a: int, b: int, n: int, q: int)
    requires w > 0 && Accumulated(acc, w, a, b, n, q) && 0 <= a < w && 0 <= b <= n && n > 0
    ensures acc < 2 * n
  {
    MulLt(n, q, w);
    Comm(n, w);
    MulLe(b, a, w);
    Comm(a, b);
    Comm(b, w);
    MulLe(w, b, n);
    if acc >= 2 * n {
      MulLe(w, n + n, acc);
      Distr(w, n, n);
    }
  }

  lemma AccStep(acc: int, acc2: int, w: int, a: int, b: int, n: int, q: int, u0: int, u1: int)
    requires w > 0 && Accumulated(acc, w, a, b, n, q) && 0 <= u1 < BASE
    requires BASE * acc2 == acc + b * u0 + n * u1
    ensures Accumulated(acc2, BASE * w, a + w * u0, b, n, q + w * u1)
  {
    CarryBound(q, w, u1, BASE);
    PosMul0(w, u1);
    Comm(BASE, w);
    calc {
      (BASE * w) * acc2;
      { Assoc(w, BASE, acc2); }
      w * (acc + b * u0 + n * u1);
      { Distr(w, acc + b * u0, n * u1); Distr(w, acc, b * u0); }
      w * acc + w * (b * u0) + w * (n * u1);
      { Assoc(w, b, u0); Comm(w, b); Assoc(b, w, u0); Comm(b, w * u0);
        Assoc(w, n, u1); Comm(w, n); Assoc(n, w, u1); }
      a * b + n * q + (w * u0) * b + n * (w * u1);
      { Distr(n, q, w * u1); Comm(a + w * u0, b); Distr(b, a, w * u0); Comm(b, a); Comm(b, w * u0); }
      (a + w * u0) * b + n * (q + w * u1);
    }
  }

  /** Two rows added to the accumulator stay within two limbs above N. */
  lemma RowBound(acc: int, b: int, u0: int, n: int, u1: int, limbs: nat)
    requires 0 <= acc < 2 * n && 0 <= b <= n < W(limbs) && 0 <= u0 < BASE && 0 <= u1 < BASE
    ensures b * u0 >= 0 && n * u1 >= 0 && acc + b * u0 + n * u1 < W(limbs + 2)
  {
    BaseFacts();
    PosMul0(b, u0);
    PosMul0(n, u1);
    MulLe(u0, b, n);
    Comm(u0, b);
    Comm(u0, n);
    MulLe(n, u0, BASE - 1);
    MulLe(n, u1, BASE - 1);
    Distr(n, BASE, -1);
    assert W(limbs + 2) == BASE * W(limbs + 1) && W(limbs + 1) == BASE * W(limbs);
    MulLe(W(limbs + 1), 2, BASE);
    Comm(BASE, W(limbs + 1));
    MulLt(BASE, n, W(limbs));
    Comm(BASE, n);
  }

  lemma RowRoom(low: int, acc: int, i: nat, n: nat, len: nat)
    requires 0 <= low < W(i) && acc < W(n + 2) && i + n + 2 <= len
    ensures low + W(i) * acc < W(len)
  {
    CarryBound(low, W(i), acc, W(n + 2));
    WAdd(i, n + 2);
    WMono(i + n + 2, len);
  }

  /** A row lands on the part of T above limb `i`. */
  method AddRow(n: nat, s: seq<Limb>, T: Mpi, i: nat, u: Limb, ghost limbs: nat)
    requires n <= |s| && n <= limbs && i + limbs + 2 <= |T.p|
    requires 0 <= Val(T.p[i..]) + Val(s[..n]) * u < W(limbs + 2)
    modifies T`p
    ensures |T.p| == old(|T.p|) && T.p[..i] == old(T.p[..i])
    ensures Val(T.p[i..]) == old(Val(T.p[i..])) + Val(s[..n]) * u
  {
    ghost var low, acc, add := Val(T.p[..i]), Val(T.p[i..]), Val(s[..n]) * u;
    ValSplit(T.p, i);
    ValBound(T.p[..i]);
    RowRoom(low, acc + add, i, limbs, |T.p|);
    Distr(W(i), acc, add);
    MulHlp(n, s, T, i, u);
    ValSplit(T.p, i);
    if Val(T.p[i..]) < acc + add { MulLt(W(i), Val(T.p[i..]), acc + add); }
    if Val(T.p[i..]) > acc + add { MulLt(W(i), acc + add, Val(T.p[i..])); }
  }

  ghost predicate MontReady(A: Mpi, B: Mpi, N: Mpi, mm: Limb, T: Mpi)
    reads A, B, N, T
  {
    && T != A && T != B && T != N && A != N
    && N.p != [] && B.p != [] && Rem(N.p[0] * mm + 1, BASE) == 0
    && |A.p| >= |N.p| + 1 && |T.p| >= 2 * |N.p| + 2
    && Val(B.p) <= Val(N.p) && 0 < Val(N.p) && Val(A.p) < W(|N.p|)
  }

  lemma MontBounds(A: Mpi, B: Mpi, N: Mpi, mm: Limb, T: Mpi, i: nat, q: int, u0: Limb, u1: Limb)
    requires MontReady(A, B, N, mm, T) && i < |N.p|
    requires Accumulated(Val(T.p[i..]), W(i), Val(A.p[..i]), Val(B.p), Val(N.p), q)
    ensures var m := if |B.p| < |N.p| then |B.p| else |N.p|;
      Val(B.p[..m]) == Val(B.p)
    ensures var b, n := Val(B.p) * u0, Val(N.p) * u1;
      b >= 0 && n >= 0 && Val(T.p[i..]) + b + n < W(|N.p| + 2)
  {
    ValBound(N.p);
    ValBound(A.p[..i]);
    if |B.p| < |N.p| { assert B.p[..|B.p|] == B.p; } else { ValSmall(B.p, |N.p|); }
    AccBound(Val(T.p[i..]), W(i), Val(A.p[..i]), Val(B.p), Val(N.p), q);
    RowBound(Val(T.p[i..]), Val(B.p), u0, Val(N.p), u1, |N.p|);
  }

  /** `*d++ = u0; d[n + 1] = 0;` where the cleared limb was already zero. */
  method StoreDigit(T: Mpi, i: nat, n: nat, u0: Limb, ghost nv: int)
    requires i + n + 2 < |T.p| && Val(T.p[i + 1..]) < 2 * nv && nv < W(n)
    modifies T`p
    ensures |T.p| == old(|T.p|) && T.p[..i + 1] == old(T.p[..i]) + [u0]
    ensures T.p[i + 1..] == old(T.p[i + 1..])
  {
    BaseFacts();
    ghost var hi := T.p[i + 1..];
    MulLe(W(n), 2, BASE);
    Comm(W(n), BASE);
    assert W(n + 1) == BASE * W(n);
    ValSmall(hi, n + 1);
    T.p := T.p[i := u0];
    assert T.p[i + n + 2] == hi[n + 1];
    T.p := T.p[i + n + 2 := 0];
  }

  /** One limb of A: the body of the loop in mpi_montmul. */
  method MontRound(A: Mpi, B: Mpi, N: Mpi, mm: Limb, T: Mpi, i: nat, ghost q: int) returns (ghost q1: int)
    requires MontReady(A, B, N, mm, T) && i < |N.p|
    requires T.p[..i] == A.p[..i]
    requires Accumulated(Val(T.p[i..]), W(i), Val(A.p[..i]), Val(B.p), Val(N.p), q)
    modifies T`p
    ensures |T.p| == old(|T.p|) && T.p[..i + 1] == A.p[..i + 1]
    ensures Accumulated(Val(T.p[i + 1..]), W(i + 1), Val(A.p[..i + 1]), Val(B.p), Val(N.p), q1)
  {
    var n := |N.p|;
    var m := if |B.p| < n then |B.p| else n;
    ghost var acc, bv, nv, a0, a1 := Val(T.p[i..]), Val(B.p), Val(N.p), Val(A.p[..i]), Val(A.p[..i + 1]);
    var u0 := A.p[i];
    ValSnoc(A.p, i);
    assert A.p[..i + 1] == A.p[..i] + [u0] && a1 == a0 + W(i) * u0;
    var u1 := Rem((T.p[i] + u0 * B.p[0]) * mm, BASE);
    MontBounds(A, B, N, mm, T, i, q, u0, u1);
    ClearsLow(T.p[i], Val(T.p[i..][1..]), u0, B.p[0], Val(B.p[1..]), u1, N.p[0], Val(N.p[1..]), mm);
    ghost var h :| acc + bv * u0 + nv * u1 == BASE * h;
    AddRow(m, B.p, T, i, u0, n);
    assert N.p[..n] == N.p;
    AddRow(n, N.p, T, i, u1, n);
    LowLimbZero(T.p[i..], h);
    q1 := q + W(i) * u1;
    ValBound(A.p[..i + 1]);
    ValBound(N.p);
    AccOn(acc, h, W(i), a0, a1, bv, nv, q, q1, u0, u1);
    assert T.p[i..][1..] == T.p[i + 1..];
    StoreDigit(T, i, n, u0, nv);
  }

  /** The accumulator after one more limb, and its bound. */
  lemma AccOn(acc: int, h: int, w: int, a0: int, a1: int, b: int, n: int, q: int, q1: int, u0: int, u1: int)
    requires w > 0 && Accumulated(acc, w, a0, b, n, q) && 0 <= u1 < BASE && BASE * h == acc + b * u0 + n * u1
    requires a1 == a0 + w * u0 && q1 == q + w * u1 && 0 <= a1 < BASE * w && 0 <= b <= n && n > 0
    ensures Accumulated(h, BASE * w, a1, b, n, q1) && h < 2 * n
  {
    AccStep(acc, h, w, a0, b, n, q, u0, u1);
    PosMul(BASE, w);
    AccBound(h, BASE * w, a1, b, n, q1);
  }

  /** The limb loop: afterwards T holds A's limbs below the reduced accumulator. */
  method MontLoop(A: Mpi, B: Mpi, N: Mpi, mm: Limb, T: Mpi) returns (ghost q: int)
    requires MontReady(A, B, N, mm, T)
    modifies T`p
    ensures |T.p| == old(|T.p|) && T.p[..|N.p|] == A.p[..|N.p|]
    ensures Accumulated(Val(T.p[|N.p|..]), W(|N.p|), Val(A.p), Val(B.p), Val(N.p), q)
    ensures Val(T.p[|N.p|..]) < 2 * Val(N.p)
  {
    var n := |N.p|;
    T.p := Zeros(|T.p|);
    ValZeros(T.p[0..]);
    assert A.p[..0] == [];
    q := 0;
    var i := 0;
    while i < n
      invariant 0 <= i <= n && |T.p| == old(|T.p|) && T.p[..i] == A.p[..i]
      invariant Accumulated(Val(T.p[i..]), W(i), Val(A.p[..i]), Val(B.p), Val(N.p), q)
    {
      q := MontRound(A, B, N, mm, T, i, q);
      i := i + 1;
    }
    ValSmall(A.p, n);
    ValBound(A.p[..n]);
    AccBound(Val(T.p[n..]), W(n), Val(A.p), Val(B.p), Val(N.p), q);
  }

  /** `memcpy(A->p, d, n + 1)`. */
  method CopyBack(A: Mpi, T: Mpi, n: nat, ghost nv: int)
    requires A != T && |A.p| >= n + 1 && |T.p| >= 2 * n + 2
    requires Val(A.p) < W(n) && Val(T.p[n..]) < 2 * nv && nv < W(n)
    modifies A`p
    ensures |A.p| == old(|A.p|) && Val(A.p) == Val(T.p[n..])
  {
    BaseFacts();
    ghost var d := T.p[n..];
    MulLe(W(n), 2, BASE);
    Comm(W(n), BASE);
    assert W(n + 1) == BASE * W(n);
    ValSmall(d, n + 1);
    ValSmall(A.p, n);
    assert d[..n + 1] == T.p[n..2 * n + 1];
    A.p := T.p[n..2 * n + 1] + A.p[n + 1..];
    ValTrim(A.p, n + 1);
    assert A.p[..n + 1] == d[..n + 1];
  }

  /** A = A * B * R^-1 mod N, with R = BASE^n and A below R. */
  method MontMul(A: Mpi, B: Mpi, N: Mpi, mm: Limb, T: Mpi)
    requires MontReady(A, B, N, mm, T)
    modifies A`p, T`p
    ensures |A.p| == old(|A.p|) && |T.p| == old(|T.p|)
    ensures 0 <= Val(A.p) < Val(N.p)
    ensures Mod(W(|N.p|) * Val(A.p), Val(N.p)) == Mod(old(Val(A.p)) * old(Val(B.p)), Val(N.p))
  {
    var n := |N.p|;
    ghost var a, b, nv := Val(A.p), Val(B.p), Val(N.p);
    ghost var q := MontLoop(A, B, N, mm, T);
    ghost var acc := Val(T.p[n..]);
    ValBound(N.p);
    CopyBack(A, T, n, nv);
    assert N.p[..n] == N.p;
    ModShift(a * b, nv, q);
    var r := CmpAbs(A, N);
    if r >= 0 {
      SubHlp(n, N.p, A);
      SubModulus(W(n), acc, nv);
    } else {
      BalanceRoom(A.p, T.p, n);
      SubHlp(n, A.p, T);
    }
  }

  lemma SubModulus(w: int, acc: int, n: int)
    requires n > 0
    ensures Mod(w * (acc - n), n) == Mod(w * acc, n)
  {
    Distr(w, acc, -n);
    NegProduct(w, n);
    NegProduct(n, w);
    Comm(w, n);
    ModShift(w * acc, n, -w);
  }

  /** The timing-balance subtraction cannot borrow out of T, which ends in the accumulator. */
  lemma BalanceRoom(ap: seq<Limb>, tp: seq<Limb>, n: nat)
    requires n <= |ap| && n <= |tp| && Val(ap) == Val(tp[n..])
    ensures Val(ap[..n]) <= Val(tp)
  {
    ValSplit(ap, n);
    PosMul0(W(n), Val(ap[n..]));
    ValSplit(tp, n);
    MulLe(Val(ap), 1, W(n));
    Comm(Val(ap), W(n));
  }

  /** A = A * R^-1 mod N. */
  method MontRed(A: Mpi, N: Mpi, mm: Limb, T: Mpi)
    requires A != N && T != A && T != N
    requires N.p != [] && Rem(N.p[0] * mm + 1, BASE) == 0
    requires |A.p| >= |N.p| + 1 && |T.p| >= 2 * |N.p| + 2 && 0 < Val(N.p) && Val(A.p) < W(|N.p|)
    modifies A`p, T`p
    ensures |A.p| == old(|A.p|) && |T.p| == old(|T.p|)
    ensures 0 <= Val(A.p) < Val(N.p)
    ensures Mod(W(|N.p|) * Val(A.p), Val(N.p)) == Mod(old(Val(A.p)), Val(N.p))
  {
    BaseFacts();
    var U := new Mpi.Init();
    U.p := [1];
    ValSingle(1);
    MontMul(A, U, N, mm, T);
  }
}
