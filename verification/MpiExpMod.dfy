/** Sliding-window modular exponentiation of bignum.c (HAC 14.85). */
module MpiExpMod {
  import opened Limbs
  import opened MpiCore
  import opened MpiAddSub
  import opened MpiShift
  import opened MpiDivision
  import opened MpiMontgomery

  // ----- residues

  lemma {:induction false} PowAdd(a: int, m: nat, n: nat)
    ensures Pow(a, m + n) == Pow(a, m) * Pow(a, n)
  {
    if m != 0 {
      PowAdd(a, m - 1, n);
      Assoc(a, Pow(a, m - 1), Pow(a, n));
    }
  }

  /** Residues may be taken of a factor. */
  lemma ModFactor(a: int, b: int, n: int)
    requires n > 0
    ensures Mod(a * b, n) == Mod(Mod(a, n) * b, n)
  {
    var q := Quot(a, n);
    Comm(a, b);
    Distr(b, n * q, Mod(a, n));
    Assoc(b, n, q);
    Comm(b, n);
    Assoc(n, b, q);
    Comm(b, Mod(a, n));
    ModShift(Mod(a, n) * b, n, b * q);
  }

  lemma ModProduct(a: int, b: int, n: int)
    requires n > 0
    ensures Mod(a * b, n) == Mod(Mod(a, n) * Mod(b, n), n)
  {
    ModFactor(a, b, n);
    Comm(Mod(a, n), b);
    ModFactor(b, Mod(a, n), n);
    Comm(Mod(a, n), Mod(b, n));
  }

  lemma ModIdem(x: int, n: int)
    requires 0 <= x < n
    ensures Mod(x, n) == x
  {
    ModUnique(x, n, 0, x);
  }

  lemma SameMod(a: int, b: int, n: int)
    requires n > 0 && Mod(a, n) == Mod(b, n)
    ensures a - b == n * (Quot(a, n) - Quot(b, n))
  {
    Distr(n, Quot(a, n), -Quot(b, n));
    NegProduct(n, Quot(b, n));
  }

  /** Two is invertible modulo an odd number. */
  lemma CancelTwo(a: int, b: int, n: int)
    requires n > 0 && n % 2 == 1 && Mod(2 * a, n) == Mod(2 * b, n)
    ensures Mod(a, n) == Mod(b, n)
  {
    SameMod(2 * a, 2 * b, n);
    var k := Quot(2 * a, n) - Quot(2 * b, n);
    EvenFactor(n, k, a - b);
    ModShift(b, n, k / 2);
  }

  lemma {:induction false} CancelPow2(k: nat, a: int, b: int, n: int)
    requires n > 0 && n % 2 == 1 && Mod(Pow2(k) * a, n) == Mod(Pow2(k) * b, n)
    ensures Mod(a, n) == Mod(b, n)
  {
    if k > 0 {
      Assoc(2, Pow2(k - 1), a);
      Assoc(2, Pow2(k - 1), b);
      CancelTwo(Pow2(k - 1) * a, Pow2(k - 1) * b, n);
      CancelPow2(k - 1, a, b, n);
    }
  }

  // ----- Montgomery representation of powers

  /** One exponentiation: base, odd modulus, and the modulus's limb count. */
  datatype Ctx = Ctx(a: int, n: int, limbs: nat)

  ghost predicate CtxOk(c: Ctx) {
    c.n > 0 && c.n % 2 == 1
  }

  /** `x` is the Montgomery form of a^e. */
  ghost predicate Represents(x: int, e: nat, c: Ctx)
    requires c.n > 0
  {
    x == Mod(W(c.limbs) * Pow(c.a, e), c.n)
  }

  lemma RepresentsFrom(x: int, y: int, e: nat, c: Ctx)
    requires CtxOk(c) && 0 <= x < c.n
    requires Mod(W(c.limbs) * x, c.n) == Mod(W(c.limbs) * y, c.n)
    requires Mod(y, c.n) == Mod(W(c.limbs) * Pow(c.a, e), c.n)
    ensures Represents(x, e, c)
  {
    WIsPow2(c.limbs);
    PosMul0(LIMB_BITS, c.limbs);
    CancelPow2(LIMB_BITS * c.limbs, x, y, c.n);
    ModIdem(x, c.n);
  }

  /** Montgomery products add exponents. */
  lemma MontAddsExponents(x1: int, e1: nat, x2: int, e2: nat, x: int, c: Ctx)
    requires CtxOk(c) && Represents(x1, e1, c) && Represents(x2, e2, c) && 0 <= x < c.n
    requires Mod(W(c.limbs) * x, c.n) == Mod(x1 * x2, c.n)
    ensures Represents(x, e1 + e2, c)
  {
    var r, p1, p2 := W(c.limbs), Pow(c.a, e1), Pow(c.a, e2);
    ModProduct(r * p1, r * p2, c.n);
    PowAdd(c.a, e1, e2);
    calc {
      (r * p1) * (r * p2);
      { Assoc(r, p1, r * p2); Assoc(p1, r, p2); Comm(p1, r); Assoc(r, p1, p2); }
      r * (r * (p1 * p2));
    }
    RepresentsFrom(x, r * (p1 * p2), e1 + e2, c);
  }

  /** Everything mpi_montmul needs of the target, the modulus and the scratch number. */
  ghost predicate Ready(X: Mpi, N: Mpi, mm: Limb, T: Mpi, c: Ctx)
    reads X, N, T
  {
    && X != N && X != T && N != T && CtxOk(c)
    && N.p != [] && Rem(N.p[0] * mm + 1, BASE) == 0
    && |X.p| >= |N.p| + 1 && |T.p| >= 2 * |N.p| + 2
    && Val(N.p) == c.n && |N.p| == c.limbs
  }

  ghost predicate Holds(M: Mpi, e: nat, c: Ctx)
    reads M
    requires c.n > 0
  {
    M.p != [] && 0 <= Val(M.p) < c.n && Represents(Val(M.p), e, c)
  }

  /** X := X * Y on exponents. */
  method Times(X: Mpi, Y: Mpi, N: Mpi, mm: Limb, T: Mpi, ghost e1: nat, ghost e2: nat, ghost c: Ctx)
    requires Ready(X, N, mm, T, c) && Y != T && Holds(X, e1, c) && Holds(Y, e2, c)
    modifies X`p, T`p
    ensures Ready(X, N, mm, T, c) && Holds(X, e1 + e2, c)
    ensures |X.p| == old(|X.p|)
  {
    ghost var x1, x2 := Val(X.p), Val(Y.p);
    ValBound(N.p);
    MontMul(X, Y, N, mm, T);
    MontAddsExponents(x1, e1, x2, e2, Val(X.p), c);
  }

  /** X := X^(2^k). */
  method SquareTimes(X: Mpi, k: nat, N: Mpi, mm: Limb, T: Mpi, ghost e: nat, ghost c: Ctx)
    requires Ready(X, N, mm, T, c) && Holds(X, e, c)
    modifies X`p, T`p
    ensures Ready(X, N, mm, T, c) && Pow2(k) * e >= 0 && Holds(X, Pow2(k) * e, c)
    ensures |X.p| == old(|X.p|)
  {
    var i := 0;
    ghost var f: nat := e;
    while i < k
      invariant 0 <= i <= k && f == Pow2(i) * e && |X.p| == old(|X.p|)
      invariant Ready(X, N, mm, T, c) && Holds(X, f, c)
    {
      Times(X, X, N, mm, T, f, f, c);
      Assoc(2, Pow2(i), e);
      f := f + f;
      i := i + 1;
    }
  }

  // ----- reading the exponent bit by bit

  /** The exponent without its low `k` bits. */
  ghost function Prefix(v: int, k: nat): int {
    Quot(v, Pow2(k))
  }

  lemma PrefixStep(v: int, k: nat)
    ensures Prefix(v, k) == 2 * Prefix(v, k + 1) + Prefix(v, k) % 2
  {
    QuotQuot(v, Pow2(k), 2);
    Comm(Pow2(k), 2);
  }

  /** A bit of a limb is the corresponding bit of the value. */
  lemma LimbBit(p: seq<Limb>, i: nat, j: nat)
    requires i < |p| && j < LIMB_BITS
    ensures LIMB_BITS * i + j >= 0
    ensures Quot(p[i], Pow2(j)) % 2 == Prefix(Val(p), LIMB_BITS * i + j) % 2
  {
    PrefixAtLimb(p, i, j);
    assert p[i..][1..] == p[i + 1..];
    BitAbove(p[i], Val(p[i + 1..]), j);
  }

  lemma BitAbove(x: Limb, rest: nat, j: nat)
    requires j < LIMB_BITS
    ensures Quot(x + BASE * rest, Pow2(j)) % 2 == Quot(x, Pow2(j)) % 2
  {
    var q, half := Quot(x, Pow2(j)), Pow2(LIMB_BITS - j - 1);
    HigherLimbs(x, q, Rem(x, Pow2(j)), Pow2(j), half, rest, j);
    QuotUnique(x + BASE * rest, Pow2(j), q + 2 * (half * rest), Rem(x, Pow2(j)));
    EvenPlus(q + 2 * (half * rest), half * rest, q);
  }

  lemma PrefixAtLimb(p: seq<Limb>, i: nat, j: nat)
    requires i < |p|
    ensures LIMB_BITS * i + j >= 0
    ensures Prefix(Val(p), LIMB_BITS * i + j) == Quot(Val(p[i..]), Pow2(j))
  {
    LimbsAbove(p, i);
    BitWeight(i, j);
    QuotQuot(Val(p), W(i), Pow2(j));
  }

  lemma LimbsAbove(p: seq<Limb>, i: nat)
    requires i <= |p|
    ensures Quot(Val(p), W(i)) == Val(p[i..])
  {
    ValSplit(p, i);
    ValBound(p[..i]);
    QuotUnique(Val(p), W(i), Val(p[i..]), Val(p[..i]));
  }

  lemma BitWeight(i: nat, j: nat)
    ensures LIMB_BITS * i + j >= 0 && Pow2(LIMB_BITS * i + j) == W(i) * Pow2(j)
  {
    PosMul0(LIMB_BITS, i);
    WIsPow2(i);
    Pow2Add(LIMB_BITS * i, j);
  }

  lemma HigherLimbs(x: int, q: int, r: int, t: int, half: int, rest: int, j: nat)
    requires j < LIMB_BITS && t == Pow2(j) && half == Pow2(LIMB_BITS - j - 1) && x == t * q + r
    ensures x + BASE * rest == t * (q + 2 * (half * rest)) + r
  {
    Pow2Add(j, LIMB_BITS - j);
    FactorLow(q, t, half, rest);
  }

  /** Above the top limb there is nothing. */
  lemma PrefixTop(p: seq<Limb>)
    ensures LIMB_BITS * |p| >= 0 && Prefix(Val(p), LIMB_BITS * |p|) == 0
  {
    PosMul0(LIMB_BITS, |p|);
    WIsPow2(|p|);
    ValBound(p);
    QuotUnique(Val(p), W(|p|), 0, Val(p));
  }

  // ----- the window scanner

  /** The loop variables of the scan; `state` is 0 before the first 1, 1 between windows, 2 inside one. */
  datatype Scan = Scan(state: nat, nbits: nat, wbits: int)

  /**
   * `prefix` is what has been read: the exponent `done` already in X, followed by
   * the `nbits` pending bits `pend`, which sit at the top of the window word.
   */
  ghost predicate ScanOk(sc: Scan, wsize: nat, prefix: int, done: nat, pend: int) {
    && sc.nbits < wsize
    && 0 <= pend < Pow2(sc.nbits)
    && sc.wbits == Pow2(wsize - sc.nbits) * pend
    && prefix == Pow2(sc.nbits) * done + pend
    && (sc.state == 0 ==> sc.nbits == 0 && done == 0)
    && (sc.state == 1 ==> sc.nbits == 0)
    && (sc.state == 2 ==> sc.nbits > 0 && Pow2(sc.nbits - 1) <= pend)
    && sc.state <= 2
  }

  /** The precomputed odd half of the table: entry k holds a^k; entry 1 is always present. */
  ghost predicate TableOk(tab: seq<Mpi?>, wsize: nat, X: Mpi, T: Mpi, c: Ctx)
    reads set k | 0 <= k < |tab| && tab[k] != null :: tab[k]
    requires c.n > 0
  {
    && 1 <= wsize && |tab| >= Pow2(wsize)
    && EntryOk(tab[1], 1, X, T, c)
    && forall k :: Pow2(wsize - 1) <= k < Pow2(wsize) ==> EntryOk(tab[k], k, X, T, c)
  }

  ghost predicate EntryOk(M: Mpi?, e: nat, X: Mpi, T: Mpi, c: Ctx)
    reads M
    requires c.n > 0
  {
    M != null && M != X && M != T && Holds(M, e, c)
  }

  /** Add one bit to the window; a full window is the table index. */
  lemma WindowGrows(sc: Scan, wsize: nat, prefix: int, done: nat, pend: int, ei: int)
    requires ScanOk(sc, wsize, prefix, done, pend) && 0 <= ei <= 1 && (ei == 1 || sc.state == 2)
    ensures var p1, n1, w1 := 2 * pend + ei, sc.nbits + 1, sc.wbits + Pow2(wsize - sc.nbits - 1) * ei;
      && (n1 < wsize ==> ScanOk(Scan(2, n1, w1), wsize, 2 * prefix + ei, done, p1))
      && (n1 == wsize ==> Pow2(wsize - 1) <= w1 < Pow2(wsize) && 2 * prefix + ei == Pow2(wsize) * done + w1)
  {
    var n1 := sc.nbits + 1;
    var t := Pow2(wsize - n1);
    Assoc(2, t, pend);
    Comm(2, t);
    Assoc(t, 2, pend);
    Distr(t, 2 * pend, ei);
    Assoc(2, Pow2(sc.nbits), done);
  }

  /** A full window: square `wsize` times, multiply by the table entry. */
  method CloseWindow(X: Mpi, tab: seq<Mpi?>, wsize: nat, wbits: int, N: Mpi, mm: Limb, T: Mpi,
                     ghost done: nat, ghost c: Ctx)
    requires Ready(X, N, mm, T, c) && Holds(X, done, c) && TableOk(tab, wsize, X, T, c)
    requires Pow2(wsize - 1) <= wbits < Pow2(wsize)
    modifies X`p, T`p
    ensures Ready(X, N, mm, T, c) && TableOk(tab, wsize, X, T, c) && |X.p| == old(|X.p|)
    ensures Pow2(wsize) * done >= 0 && Holds(X, Pow2(wsize) * done + wbits, c)
    ensures ScanOk(Scan(1, 0, 0), wsize, Pow2(wsize) * done + wbits, Pow2(wsize) * done + wbits, 0)
  {
    SquareTimes(X, wsize, N, mm, T, done, c);
    assert EntryOk(tab[wbits], wbits, X, T, c);
    Times(X, tab[wbits], N, mm, T, Pow2(wsize) * done, wbits, c);
  }

  /** One bit of the exponent goes through the three-state machine. */
  method ScanStep(X: Mpi, tab: seq<Mpi?>, wsize: nat, sc: Scan, ei: int, N: Mpi, mm: Limb, T: Mpi,
                  ghost prefix: int, ghost done: nat, ghost pend: int, ghost c: Ctx)
    returns (sc1: Scan, ghost done1: nat, ghost pend1: int)
    requires 0 <= ei <= 1 && ScanOk(sc, wsize, prefix, done, pend)
    requires Ready(X, N, mm, T, c) && Holds(X, done, c) && TableOk(tab, wsize, X, T, c)
    modifies X`p, T`p
    ensures Ready(X, N, mm, T, c) && Holds(X, done1, c) && TableOk(tab, wsize, X, T, c)
    ensures ScanOk(sc1, wsize, 2 * prefix + ei, done1, pend1) && |X.p| == old(|X.p|)
  {
    sc1, done1, pend1 := sc, done, pend;
    if ei == 0 && sc.state == 0 { return; }
    if ei == 0 && sc.state == 1 {
      Times(X, X, N, mm, T, done, done, c);
      done1 := done + done;
      return;
    }
    sc1, done1, pend1 := AddBit(X, tab, wsize, sc, ei, N, mm, T, prefix, done, pend, c);
  }

  /** The tail of the loop body: the bit joins the window, which closes when it is full. */
  method AddBit(X: Mpi, tab: seq<Mpi?>, wsize: nat, sc: Scan, ei: int, N: Mpi, mm: Limb, T: Mpi,
                ghost prefix: int, ghost done: nat, ghost pend: int, ghost c: Ctx)
    returns (sc1: Scan, ghost done1: nat, ghost pend1: int)
    requires 0 <= ei <= 1 && (ei == 1 || sc.state == 2) && ScanOk(sc, wsize, prefix, done, pend)
    requires Ready(X, N, mm, T, c) && Holds(X, done, c) && TableOk(tab, wsize, X, T, c)
    modifies X`p, T`p
    ensures Ready(X, N, mm, T, c) && Holds(X, done1, c) && TableOk(tab, wsize, X, T, c)
    ensures ScanOk(sc1, wsize, 2 * prefix + ei, done1, pend1) && |X.p| == old(|X.p|)
  {
    var nbits := sc.nbits + 1;
    var wbits := sc.wbits + Pow2(wsize - nbits) * ei;
    WindowGrows(sc, wsize, prefix, done, pend, ei);
    if nbits == wsize {
      CloseWindow(X, tab, wsize, wbits, N, mm, T, done, c);
      done1, pend1 := Pow2(wsize) * done + wbits, 0;
      sc1 := Scan(1, 0, 0);
    } else {
      done1, pend1 := done, 2 * pend + ei;
      sc1 := Scan(2, nbits, wbits);
    }
  }

  /** How many exponent bits are still unread. */
  ghost function BitsLeft(nblimbs: nat, bufsize: nat): nat {
    PosMul0(LIMB_BITS, nblimbs);
    LIMB_BITS * nblimbs + bufsize
  }

  /** Refill from the next limb when the buffer is empty, and take the top unread bit. */
  method NextBit(e: seq<Limb>, nblimbs: nat, bufsize: nat) returns (nb: nat, bs: nat, ei: int)
    requires nblimbs <= |e| && bufsize < LIMB_BITS && (bufsize > 0 ==> nblimbs < |e|)
    requires bufsize > 0 || nblimbs > 0
    ensures bs < LIMB_BITS && nb < |e| && 0 <= ei <= 1
    ensures BitsLeft(nb, bs) + 1 == BitsLeft(nblimbs, bufsize)
    ensures Prefix(Val(e), BitsLeft(nb, bs)) == 2 * Prefix(Val(e), BitsLeft(nblimbs, bufsize)) + ei
  {
    nb, bs := nblimbs, bufsize;
    if bs == 0 {
      Distr(LIMB_BITS, nb, -1);
      nb := nb - 1;
      bs := LIMB_BITS;
    }
    bs := bs - 1;
    ei := Quot(e[nb], Pow2(bs)) % 2;
    LimbBit(e, nb, bs);
    PrefixStep(Val(e), BitsLeft(nb, bs));
  }

  /** The scan loop, from the top limb down to the last bit. */
  method ScanLoop(X: Mpi, tab: seq<Mpi?>, wsize: nat, E: Mpi, N: Mpi, mm: Limb, T: Mpi, ghost c: Ctx)
    returns (sc: Scan, ghost done: nat, ghost pend: int)
    requires E != X && E != T
    requires Ready(X, N, mm, T, c) && Holds(X, 0, c) && TableOk(tab, wsize, X, T, c)
    modifies X`p, T`p
    ensures Ready(X, N, mm, T, c) && Holds(X, done, c) && TableOk(tab, wsize, X, T, c)
    ensures ScanOk(sc, wsize, Val(E.p), done, pend) && |X.p| == old(|X.p|)
  {
    var nblimbs, bufsize := |E.p|, 0;
    ghost var v := Val(E.p);
    PrefixTop(E.p);
    sc, done, pend := Scan(0, 0, 0), 0, 0;
    while bufsize != 0 || nblimbs != 0
      invariant E.p == old(E.p) && |X.p| == old(|X.p|)
      invariant 0 <= nblimbs <= |E.p| && 0 <= bufsize < LIMB_BITS && (bufsize > 0 ==> nblimbs < |E.p|)
      invariant Ready(X, N, mm, T, c) && Holds(X, done, c) && TableOk(tab, wsize, X, T, c)
      invariant ScanOk(sc, wsize, Prefix(v, BitsLeft(nblimbs, bufsize)), done, pend)
      decreases BitsLeft(nblimbs, bufsize)
    {
      ghost var prefix := Prefix(v, BitsLeft(nblimbs, bufsize));
      var ei;
      nblimbs, bufsize, ei := NextBit(E.p, nblimbs, bufsize);
      sc, done, pend := ScanStep(X, tab, wsize, sc, ei, N, mm, T, prefix, done, pend, c);
    }
    QuotUnique(v, 1, v, 0);
  }

  lemma ScaleQuot(c: int, x: int, d: int)
    requires c > 0 && d > 0
    ensures c * d > 0 && Quot(c * x, c * d) == Quot(x, d)
  {
    var q, r := Quot(x, d), Rem(x, d);
    PosMul(c, d);
    Distr(c, d * q, r);
    Assoc(c, d, q);
    MulLt(c, r, d);
    PosMul0(c, r);
    QuotUnique(c * x, c * d, q, c * r);
  }

  /** The next bit of an unfinished window is the top bit of the doubled window word. */
  lemma TopBitNext(pend: int, done: nat, i: nat, m: nat, wsize: nat, wbits: int, e: nat)
    requires i + m + 1 <= wsize && wbits == Pow2(wsize - m - 1) * pend && e == Pow2(i) * done + Prefix(pend, m + 1)
    ensures 2 * wbits == Pow2(wsize - m) * pend
    ensures 2 * e + Quot(2 * wbits, Pow2(wsize)) % 2 == Pow2(i + 1) * done + Prefix(pend, m)
  {
    PrefixStep(pend, m);
    Assoc(2, Pow2(wsize - m - 1), pend);
    Assoc(2, Pow2(i), done);
    Pow2Add(wsize - m, m);
    ScaleQuot(Pow2(wsize - m), pend, Pow2(m));
  }

  /** One bit of an unfinished window. */
  method LeftoverBit(X: Mpi, w1: Mpi, w: int, wsize: nat, N: Mpi, mm: Limb, T: Mpi, ghost e: nat, ghost c: Ctx)
    returns (wbits: int, ghost e1: nat)
    requires Ready(X, N, mm, T, c) && Holds(X, e, c) && EntryOk(w1, 1, X, T, c)
    modifies X`p, T`p
    ensures Ready(X, N, mm, T, c) && Holds(X, e1, c) && EntryOk(w1, 1, X, T, c) && |X.p| == old(|X.p|)
    ensures wbits == 2 * w && e1 == 2 * e + Quot(2 * w, Pow2(wsize)) % 2
  {
    Times(X, X, N, mm, T, e, e, c);
    wbits := 2 * w;
    e1 := e + e;
    if Quot(wbits, Pow2(wsize)) % 2 != 0 {
      Times(X, w1, N, mm, T, e1, 1, c);
      e1 := e1 + 1;
    }
  }

  /** The bits of an unfinished window, taken one by one from the top of the window word. */
  method Leftover(X: Mpi, tab: seq<Mpi?>, wsize: nat, sc: Scan, N: Mpi, mm: Limb, T: Mpi,
                  ghost prefix: nat, ghost done: nat, ghost pend: int, ghost c: Ctx)
    requires ScanOk(sc, wsize, prefix, done, pend)
    requires Ready(X, N, mm, T, c) && Holds(X, done, c) && TableOk(tab, wsize, X, T, c)
    modifies X`p, T`p
    ensures Ready(X, N, mm, T, c) && Holds(X, prefix, c) && |X.p| == old(|X.p|)
  {
    var i, wbits := 0, sc.wbits;
    ghost var e: nat := done;
    QuotUnique(pend, Pow2(sc.nbits), 0, pend);
    assert Pow2(0) * done == done;
    while i < sc.nbits
      invariant 0 <= i <= sc.nbits && |X.p| == old(|X.p|)
      invariant Ready(X, N, mm, T, c) && Holds(X, e, c) && EntryOk(tab[1], 1, X, T, c)
      invariant wbits == Pow2(wsize - sc.nbits + i) * pend
      invariant e == Pow2(i) * done + Prefix(pend, sc.nbits - i)
    {
      TopBitNext(pend, done, i, sc.nbits - i - 1, wsize, wbits, e);
      wbits, e := LeftoverBit(X, tab[1], wbits, wsize, N, mm, T, e, c);
      i := i + 1;
    }
    QuotUnique(pend, 1, pend, 0);
  }

  // ----- the table and the conversions

  /** A grown copy of an entry, as `mpi_grow; mpi_copy` makes it. */
  method CloneEntry(Y: Mpi, limbs: nat) returns (M: Mpi)
    requires Y.p != []
    ensures fresh(M) && |M.p| >= limbs && M.p != [] && Val(M.p) == Val(Y.p)
  {
    M := new Mpi.Init();
    Grow(M, limbs);
    Copy(M, Y);
  }

  /** W[1] and W[2^(wsize-1)] .. W[2^wsize - 1]. */
  method BuildTable(W1: Mpi, wsize: nat, N: Mpi, mm: Limb, T: Mpi, X: Mpi, ghost c: Ctx)
    returns (tab: seq<Mpi?>)
    requires 1 <= wsize <= 6 && Ready(W1, N, mm, T, c) && Holds(W1, 1, c)
    requires X != W1 && X != T && X != N
    modifies T`p
    ensures TableOk(tab, wsize, X, T, c) && Ready(W1, N, mm, T, c)
  {
    var j := Pow2(wsize - 1);
    Pow2Mono(wsize, 6);
    assert Pow2(6) == 64;
    tab := seq(128, _ => null);
    tab := tab[1 := W1];
    if wsize > 1 {
      var M := CloneEntry(W1, |N.p| + 1);
      SquareTimes(M, wsize - 1, N, mm, T, 1, c);
      tab := tab[j := M];
      var i := j + 1;
      while i < Pow2(wsize)
        invariant j < i <= Pow2(wsize) && |tab| == 128 && tab[1] == W1
        invariant Ready(W1, N, mm, T, c) && Holds(W1, 1, c)
        invariant forall k :: j <= k < i ==> EntryOk(tab[k], k, X, T, c)
      {
        M := NextEntry(tab[i - 1], W1, i - 1, N, mm, T, X, c);
        tab := tab[i := M];
        i := i + 1;
      }
    }
  }

  /** W[i] = W[i - 1] * W[1]. */
  method NextEntry(Prev: Mpi?, W1: Mpi, e: nat, N: Mpi, mm: Limb, T: Mpi, X: Mpi, ghost c: Ctx) returns (M: Mpi)
    requires Ready(W1, N, mm, T, c) && Holds(W1, 1, c) && EntryOk(Prev, e, X, T, c)
    modifies T`p
    ensures fresh(M) && Ready(W1, N, mm, T, c) && Holds(M, e + 1, c)
  {
    M := CloneEntry(Prev, |N.p| + 1);
    Times(M, W1, N, mm, T, e, 1, c);
  }

  /** R^2 mod N, computed on the first call and cached for the next. */
  method PrepareRR(cache: Mpi?, N: Mpi) returns (RR: Mpi)
    requires cache != N && N.V() > 0
    requires cache != null && cache.p != [] ==> Val(cache.p) == Mod(W(|N.p|) * W(|N.p|), N.V()) && cache.s == 1
    modifies cache
    ensures fresh(RR) && RR.p != [] && (Val(RR.p) > 0 ==> RR.s == 1)
    ensures Val(RR.p) == Mod(W(|N.p|) * W(|N.p|), N.V())
    ensures cache != null ==> cache.s == RR.s && cache.p == RR.p
  {
    BaseFacts();
    RR := new Mpi.Init();
    if cache == null || cache.p == [] {
      Lset(RR, 1);
      SquareWeight(|N.p|);
      ShiftL(RR, 2 * |N.p| * LIMB_BITS);
      var _ := ModMpi(RR, RR, N);
      if cache != null { cache.s, cache.p := RR.s, RR.p; }
    } else {
      RR.s, RR.p := cache.s, cache.p;
    }
  }

  lemma SquareWeight(n: nat)
    ensures 2 * n * LIMB_BITS >= 0 && Pow2(2 * n * LIMB_BITS) == W(n) * W(n)
  {
    PosMul0(LIMB_BITS, n);
    Comm(n, LIMB_BITS);
    Assoc(2, n, LIMB_BITS);
    WIsPow2(n);
    Pow2Add(LIMB_BITS * n, LIMB_BITS * n);
  }

  /** W[1] = A * R mod N. */
  method ToMontgomery(W1: Mpi, A: Mpi, RR: Mpi, N: Mpi, mm: Limb, T: Mpi, ghost c: Ctx)
    requires Ready(W1, N, mm, T, c) && A != W1 && A != T && RR != W1 && RR != T && RR != N
    requires A.p != [] && A.V() == c.a >= 0 && RR.p != [] && N.s == 1
    requires Val(RR.p) == Mod(W(c.limbs) * W(c.limbs), c.n)
    modifies W1, T`p
    ensures Ready(W1, N, mm, T, c) && Holds(W1, 1, c)
  {
    ghost var r := W(c.limbs);
    var cmp := CmpMpi(A, N);
    if cmp >= 0 {
      var _ := ModMpi(W1, A, N);
    } else {
      Copy(W1, A);
      ModIdem(c.a, c.n);
    }
    ghost var x := Val(W1.p);
    assert x == Mod(c.a, c.n);
    ValBound(N.p);
    MontMul(W1, RR, N, mm, T);
    OneFactor(Val(W1.p), x, Val(RR.p), r, c);
  }

  lemma OneFactor(v: int, x: int, rr: int, r: int, c: Ctx)
    requires CtxOk(c) && r == W(c.limbs) && 0 <= v < c.n
    requires x == Mod(c.a, c.n) && rr == Mod(r * r, c.n) && Mod(r * v, c.n) == Mod(x * rr, c.n)
    ensures Represents(v, 1, c)
  {
    ModProduct(c.a, r * r, c.n);
    Comm(c.a, r * r);
    Assoc(r, r, c.a);
    assert Pow(c.a, 1) == c.a * Pow(c.a, 0);
    RepresentsFrom(v, r * c.a, 1, c);
  }

  /** X = R mod N, the Montgomery form of 1. */
  method StartAtOne(X: Mpi, RR: Mpi, N: Mpi, mm: Limb, T: Mpi, ghost c: Ctx)
    requires Ready(X, N, mm, T, c) && RR != X && RR != T && RR.p != []
    requires Val(RR.p) == Mod(W(c.limbs) * W(c.limbs), c.n)
    modifies X, T`p
    ensures Ready(X, N, mm, T, c) && Holds(X, 0, c) && X.s == old(RR.s)
  {
    ghost var r := W(c.limbs);
    ValBound(N.p);
    Copy(X, RR);
    MontRed(X, N, mm, T);
    ModIdem(Mod(r * r, c.n), c.n);
    RepresentsFrom(Val(X.p), r, 0, c);
  }

  /** Out of Montgomery form. */
  method FromMontgomery(X: Mpi, N: Mpi, mm: Limb, T: Mpi, ghost e: nat, ghost c: Ctx)
    requires Ready(X, N, mm, T, c) && Holds(X, e, c)
    modifies X`p, T`p
    ensures Val(X.p) == Mod(Pow(c.a, e), c.n) && |X.p| == old(|X.p|)
  {
    ValBound(N.p);
    ghost var x := Val(X.p);
    MontRed(X, N, mm, T);
    ModIdem(x, c.n);
    WIsPow2(c.limbs);
    PosMul0(LIMB_BITS, c.limbs);
    CancelPow2(LIMB_BITS * c.limbs, Val(X.p), Pow(c.a, e), c.n);
    ModIdem(Val(X.p), c.n);
  }

  // ----- mpi_exp_mod

  type WindowMax = n: nat | 1 <= n <= 6 witness 6

  /** The build-time limit, left unspecified within the range bignum.h allows. */
  const MPI_WINDOW_SIZE: WindowMax

  method WindowSize(bits: nat) returns (wsize: nat)
    ensures 1 <= wsize <= 6
  {
    wsize := if bits > 671 then 6 else if bits > 239 then 5 else if bits > 79 then 4 else if bits > 23 then 3 else 1;
    if wsize > MPI_WINDOW_SIZE { wsize := MPI_WINDOW_SIZE; }
  }

  /** R^2 is a multiple of N only for N = 1. */
  lemma SquareNonZero(limbs: nat, n: int)
    requires n > 0 && n % 2 == 1 && Mod(W(limbs) * W(limbs), n) == 0
    ensures n == 1
  {
    SquareWeight(limbs);
    var k := 2 * limbs * LIMB_BITS;
    ModIdem(0, n);
    assert Pow2(k) * 1 == Pow2(k) && Pow2(k) * 0 == 0;
    CancelPow2(k, 1, 0, n);
    if n > 1 { ModIdem(1, n); }
  }

  /** The exponentiation proper, for a base that is not negative. */
  method Exponentiate(X: Mpi, A: Mpi, E: Mpi, N: Mpi, mm: Limb, cache: Mpi?, wsize: nat)
    requires X != E && X != N && cache != X && cache != A && cache != E && cache != N
    requires A.p != [] && N.p != [] && |X.p| >= |N.p| + 1 && 1 <= wsize <= 6
    requires N.s == 1 && Val(N.p) % 2 == 1 && Rem(N.p[0] * mm + 1, BASE) == 0 && A.V() >= 0
    requires cache != null && cache.p != [] ==> Val(cache.p) == Mod(W(|N.p|) * W(|N.p|), N.V()) && cache.s == 1
    modifies X, cache
    ensures X.V() == Val(X.p) == Mod(Pow(old(A.V()), Val(E.p)), N.V())
    ensures cache != null ==> Val(cache.p) == Mod(W(|N.p|) * W(|N.p|), N.V())
  {
    ghost var c := Ctx(A.V(), Val(N.p), |N.p|);
    var W1 := new Mpi.Init();
    Grow(W1, |N.p| + 1);
    var T := new Mpi.Init();
    Grow(T, (|N.p| + 1) * 2);
    var RR := PrepareRR(cache, N);
    if Val(RR.p) == 0 { SquareNonZero(|N.p|, c.n); }
    ToMontgomery(W1, A, RR, N, mm, T, c);
    StartAtOne(X, RR, N, mm, T, c);
    var tab := BuildTable(W1, wsize, N, mm, T, X, c);
    Evaluate(X, tab, wsize, E, N, mm, T, c);
  }

  /** Scan, leftover bits, and the final conversion. */
  method Evaluate(X: Mpi, tab: seq<Mpi?>, wsize: nat, E: Mpi, N: Mpi, mm: Limb, T: Mpi, ghost c: Ctx)
    requires E != X && E != T
    requires Ready(X, N, mm, T, c) && Holds(X, 0, c) && TableOk(tab, wsize, X, T, c)
    modifies X`p, T`p
    ensures Val(X.p) == Mod(Pow(c.a, Val(E.p)), c.n)
  {
    var sc, done, pend := ScanLoop(X, tab, wsize, E, N, mm, T, c);
    Leftover(X, tab, wsize, sc, N, mm, T, Val(E.p), done, pend, c);
    FromMontgomery(X, N, mm, T, Val(E.p), c);
  }

  /**
   * X = A^E mod N. A negative base gives N - (|A|^E mod N) whatever the parity of E:
   * see NegativeBaseExact.
   */
  method ExpMod(X: Mpi, A: Mpi, E: Mpi, N: Mpi, cache: Mpi?) returns (ret: Ret)
    requires X != E && X != N && cache != X && cache != A && cache != E && cache != N
    requires A.p != [] && E.p != [] && N.p != []
    requires cache != null && cache.p != [] ==>
      N.V() > 0 && Val(cache.p) == Mod(W(|N.p|) * W(|N.p|), N.V()) && cache.s == 1
    modifies X, cache
    ensures ret == if N.V() < 0 || N.V() % 2 == 0 || E.V() < 0 then BadInputData else Ok
    ensures ret == BadInputData ==> X.p == old(X.p) && X.s == old(X.s)
    ensures ret == Ok && old(A.s) == 1 ==> X.V() == Mod(Pow(old(A.V()), E.V()), N.V())
    ensures ret == Ok && old(A.s) == -1 ==> X.V() == N.V() - Mod(Pow(-old(A.V()), E.V()), N.V())
    ensures ret == Ok && cache != null ==> Val(cache.p) == Mod(W(|N.p|) * W(|N.p|), N.V())
  {
    BaseFacts();
    ValParity(N.p);
    var r := CmpInt(N, 0);
    if r < 0 || N.p[0] % 2 == 0 { return BadInputData; }
    r := CmpInt(E, 0);
    if r < 0 { return BadInputData; }
    var mm := MontgInit(N);
    var i := Msb(E);
    var wsize := WindowSize(i);
    Grow(X, |N.p| + 1);
    var neg := A.s == -1;
    var A1 := A;
    if neg {
      A1 := new Mpi.Init();
      Copy(A1, A);
      A1.s := 1;
    }
    Exponentiate(X, A1, E, N, mm, cache, wsize);
    if neg { SignBack(X, N); }
    ret := Ok;
  }

  /** X->s = -1 and X = N + X. */
  method SignBack(X: Mpi, N: Mpi)
    requires X != N && X.V() == Val(X.p) && N.p != []
    modifies X
    ensures X.V() == N.V() - old(X.V())
  {
    X.s := -1;
    assert X.V() == -old(X.V());
    AddMpi(X, N, X);
  }

  // ----- when a negative base is handled correctly

  lemma {:induction false} PowNeg(a: int, e: nat)
    ensures Pow(-a, e) == if e % 2 == 0 then Pow(a, e) else -Pow(a, e)
  {
    if e > 0 {
      PowNeg(a, e - 1);
      NegProduct(a, Pow(a, e - 1));
    }
  }

  /**
   * For a negative base -a the result N - (a^E mod N) is the true residue exactly when
   * E is odd and N does not divide a^E.
   */
  lemma NegativeBaseExact(a: int, e: nat, n: int)
    requires a >= 0 && n > 0 && n % 2 == 1
    ensures n - Mod(Pow(a, e), n) == Mod(Pow(-a, e), n) <==> e % 2 == 1 && Mod(Pow(a, e), n) != 0
  {
    PowNeg(a, e);
    var p, y := Pow(a, e), Mod(Pow(a, e), n);
    if e % 2 == 1 {
      if y != 0 {
        Distr(n, -Quot(p, n), -1);
        NegProduct(n, Quot(p, n));
        ModUnique(-p, n, -Quot(p, n) - 1, n - y);
      }
    }
  }
}
