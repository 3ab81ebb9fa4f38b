/** Addition and subtraction of bignum.c, limb by limb. */
module MpiAddSub {
  import opened Limbs
  import opened MpiCore

  // ----- unsigned addition

  /** Limb-wise doubling with every carry thrown away. */
  ghost function Doubled(p: seq<Limb>): (q: seq<Limb>)
    ensures |q| == |p| && forall k :: 0 <= k < |p| ==> q[k] == TwiceWrapped(p[k])
  {
    seq(|p|, k requires 0 <= k < |p| => TwiceWrapped(p[k]))
  }

  ghost function TwiceWrapped(x: Limb): Limb {
    Wrap(x as int + x)
  }

  /** Unsigned overflow of a sum of two limbs. */
  function Wrap(x: int): (r: Limb)
    requires 0 <= x < 2 * BASE
    ensures r == if x < BASE then x else x - BASE
    ensures r == x % BASE
  {
    if x < BASE then QuotUnique(x, BASE, 0, x); x else QuotUnique(x, BASE, 1, x - BASE); x - BASE
  }

  /** The carry loop of mpi_add_abs, growing X when the carry leaves the top limb. */
  method AddCarry(X: Mpi, i0: nat, c0: int)
    requires 0 <= c0 <= 1 && i0 <= |X.p|
    modifies X`p
    ensures Val(X.p) == old(Val(X.p)) + c0 * W(i0)
    ensures |X.p| >= old(|X.p|)
  {
    var i, c := i0, c0;
    BaseFacts();
    while c != 0
      invariant 0 <= c <= 1 && 0 <= i <= |X.p| && |X.p| >= old(|X.p|)
      invariant Val(X.p) + c * W(i) == old(Val(X.p)) + c0 * W(i0)
      decreases c, |X.p| - i
    {
      if i >= |X.p| { Grow(X, i + 1); }
      ghost var q, c0 := X.p, c;
      X.p := X.p[i := Wrap(X.p[i] + c)];
      c := if X.p[i] < c then 1 else 0;
      AddStepValue(q, X.p, i, c0, c, 0);
      i := i + 1;
    }
  }

  /** `*p += c; c = (*p < c); *p += *o; c += (*p < *o);` with `o` read through B, which may be X. */
  method AddLimb(X: Mpi, B: Mpi, i: nat, c: int) returns (c1: int)
    requires i < |X.p| && i < |B.p| && 0 <= c <= 1
    modifies X`p
    ensures |X.p| == old(|X.p|) && 0 <= c1 <= 1 && X.p == old(X.p)[i := X.p[i]]
    ensures X != B ==> X.p[i] + c1 * BASE == old(X.p[i]) + c + B.p[i]
    ensures X == B && c == 0 ==> c1 == 0 && X.p[i] == TwiceWrapped(old(X.p[i]))
  {
    BaseFacts();
    X.p := X.p[i := Wrap(X.p[i] + c)];
    c1 := if X.p[i] < c then 1 else 0;
    X.p := X.p[i := Wrap(X.p[i] as int + B.p[i])];
    c1 := c1 + if X.p[i] < B.p[i] then 1 else 0;
  }

  /** The limb loop of mpi_add_abs. */
  method AddLimbs(X: Mpi, B: Mpi, j: nat) returns (c: int)
    requires j <= |X.p| && j <= |B.p|
    modifies X`p
    ensures |X.p| == old(|X.p|) && 0 <= c <= 1
    ensures X != B ==> Val(X.p) + c * W(j) == old(Val(X.p)) + Val(B.p[..j])
    ensures X == B ==> c == 0 && X.p == Doubled(old(X.p[..j])) + old(X.p[j..])
  {
    ghost var x0 := X.p;
    c := 0;
    var i := 0;
    assert B.p[..0] == [];
    while i < j
      invariant 0 <= i <= j && |X.p| == |x0| && 0 <= c <= 1
      invariant X != B ==> Val(X.p) + c * W(i) == Val(x0) + Val(B.p[..i])
      invariant X == B ==> c == 0 && X.p == Doubled(x0[..i]) + x0[i..]
    {
      ghost var q, c0 := X.p, c;
      c := AddLimb(X, B, i, c);
      if X != B {
        AddStepValue(q, X.p, i, c0, c, B.p[i]);
        ValSnoc(B.p, i);
      } else {
        DoubledSnoc(x0, i);
      }
      i := i + 1;
    }
  }

  lemma DoubledSnoc(p: seq<Limb>, i: nat)
    requires i < |p|
    ensures (Doubled(p[..i]) + p[i..])[i] == p[i]
    ensures (Doubled(p[..i]) + p[i..])[i := TwiceWrapped(p[i])] == Doubled(p[..i + 1]) + p[i + 1..]
  {
  }

  lemma AddStepValue(q: seq<Limb>, r: seq<Limb>, i: nat, c0: int, c1: int, o: Limb)
    requires i < |q| == |r| && 0 <= c0 <= 1 && 0 <= c1 <= 1
    requires r == q[i := r[i]] && r[i] + c1 * BASE == q[i] + c0 + o
    ensures Val(r) + c1 * W(i + 1) == Val(q) + c0 * W(i) + W(i) * o
  {
    ValSet(q, i, r[i]);
    CarryShift(W(i), BASE, r[i] as int - q[i], c0 + o, c1);
    Distr(W(i), c0, o);
  }

  /** A carry `c` out of a digit is `c` at the next weight. */
  lemma CarryShift(w: int, b: int, delta: int, add: int, c: int)
    requires delta + c * b == add
    ensures w * delta + c * (b * w) == w * add
  {
    calc {
      w * add;
      w * (delta + c * b);
      { Distr(w, delta, c * b); }
      w * delta + w * (c * b);
      { Assoc(w, c, b); Assoc(c, b, w); Assoc(c, w, b); }
      w * delta + c * (b * w);
    }
  }

  /** A borrow `c` out of a digit is `c` at the next weight. */
  lemma BorrowShift(w: int, b: int, delta: int, sub: int, c: int)
    requires delta - c * b == -sub
    ensures w * delta - c * (b * w) == -(w * sub)
  {
    calc {
      w * delta - c * (b * w);
      { Assoc(w, c, b); Assoc(c, b, w); Assoc(c, w, b); }
      w * delta - w * (c * b);
      { Distr(w, delta, -(c * b)); }
      w * (delta - c * b);
      w * -sub;
    }
  }

  lemma DoubledUsed(p: seq<Limb>, j: nat)
    requires j <= |p| && forall k :: j <= k < |p| ==> p[k] == 0
    ensures Doubled(p[..j]) + p[j..] == Doubled(p)
  {
  }

  /** X = |X| + |B|, limb loop and carry loop. */
  method AddMagnitude(X: Mpi, B: Mpi)
    modifies X`p
    ensures |X.p| >= old(|X.p|)
    ensures X != B ==> Val(X.p) == old(Val(X.p)) + Val(B.p)
    ensures X == B ==> X.p == Doubled(old(X.p))
  {
    var j := UsedLimbs(B.p);
    UsedValue(B.p);
    if X == B { DoubledUsed(X.p, j); }
    Grow(X, j);
    var c := AddLimbs(X, B, j);
    if c != 0 { AddCarry(X, j, c); }
  }

  /** X = |A| + |B|; with all three pointers equal the limb carries are lost. */
  method AddAbs(X: Mpi, A0: Mpi, B0: Mpi)
    modifies X
    ensures X.s == 1 && (X == A0 || old(|A0.p|) > 0 ==> |X.p| >= old(|X.p|))
    ensures !(X == A0 && X == B0) ==> Val(X.p) == old(Val(A0.p)) + old(Val(B0.p))
    ensures X == A0 && X == B0 ==> X.p == Doubled(old(X.p))
  {
    var A, B := A0, B0;
    if X == B { A, B := B, A; }
    if X != A { Copy(X, A); }
    X.s := 1;
    AddMagnitude(X, B);
  }

  ghost predicate TopBitsClear(p: seq<Limb>) {
    forall k :: 0 <= k < |p| ==> p[k] as int + p[k] < BASE
  }

  lemma TopBitsCons(p: seq<Limb>)
    requires p != []
    ensures TopBitsClear(p) <==> p[0] as int + p[0] < BASE && TopBitsClear(p[1..])
  {
    assert p == [p[0]] + p[1..];
    if p[0] as int + p[0] < BASE && TopBitsClear(p[1..]) {
      forall k | 0 <= k < |p| ensures p[k] as int + p[k] < BASE {
        if k > 0 { assert p[k] == p[1..][k - 1]; }
      }
    }
  }

  /** mpi_add_abs(X, X, X) doubles X exactly when no limb of X has its top bit set. */
  lemma {:induction false} SelfAddExact(p: seq<Limb>)
    ensures Val(Doubled(p)) <= 2 * Val(p)
    ensures Val(Doubled(p)) == 2 * Val(p) <==> TopBitsClear(p)
    decreases |p|
  {
    if p != [] {
      SelfAddExact(p[1..]);
      TopBitsCons(p);
      assert Doubled(p)[1..] == Doubled(p[1..]);
      var lo, hi := Val(Doubled(p[1..])), 2 * Val(p[1..]);
      MulLe(BASE, lo, hi);
      if lo < hi { MulLt(BASE, lo, hi); }
      assert Val(Doubled(p)) == TwiceWrapped(p[0]) + BASE * lo;
      Assoc(BASE, Val(p[1..]), 2);
      assert 2 * Val(p) == 2 * (p[0] as int) + BASE * hi;
    }
  }

  /** One limb of ones: doubling it drops the carry, which is the whole limb's weight. */
  lemma SelfAddWitness()
    ensures Val(Doubled([BASE - 1])) == 2 * Val([BASE - 1]) - BASE
  {
    BaseFacts();
    assert Doubled([BASE - 1]) == [BASE - 2];
    ValSingle(BASE - 1);
    ValSingle(BASE - 2);
  }

  /** The borrow-out value of one limb of mpi_sub_hlp. */
  lemma SubStepValue(q: seq<Limb>, r: seq<Limb>, i: nat, c0: int, c1: int, o: Limb)
    requires i < |q| == |r| && 0 <= c0 <= 1 && 0 <= c1 <= 1
    requires r == q[i := r[i]] && r[i] - c1 * BASE == q[i] - c0 - o
    ensures Val(r) - c1 * W(i + 1) == Val(q) - c0 * W(i) - W(i) * o
  {
    ValSet(q, i, r[i]);
    BorrowShift(W(i), BASE, r[i] as int - q[i], c0 + o, c1);
    Distr(W(i), c0, o);
  }

  /** Unsigned wrap of a difference of two limbs. */
  function Borrow(x: int): (r: Limb)
    requires -BASE <= x < BASE
    ensures r == if x < 0 then x + BASE else x
    ensures r == x % BASE
  {
    if x < 0 then QuotUnique(x, BASE, -1, x + BASE); x + BASE else QuotUnique(x, BASE, 0, x); x
  }

  /** `z = (*d < c); *d -= c; c = (*d < *s) + z; *d -= *s;` */
  method SubStep(d: Limb, o: Limb, c: int) returns (d1: Limb, c1: int)
    requires 0 <= c <= 1
    ensures 0 <= c1 <= 1 && d1 - c1 * BASE == d - c - o
  {
    BaseFacts();
    var z := if d < c then 1 else 0;
    d1 := Borrow(d - c);
    c1 := (if d1 < o then 1 else 0) + z;
    d1 := Borrow(d1 as int - o);
  }

  /** Subtract the low `n` limbs of `s` in place; the borrow never leaves the buffer. */
  method SubHlp(n: nat, s: seq<Limb>, D: Mpi)
    requires n <= |s| && n <= |D.p| && Val(s[..n]) <= Val(D.p)
    modifies D`p
    ensures |D.p| == old(|D.p|) && Val(D.p) == old(Val(D.p)) - Val(s[..n])
  {
    ghost var d0 := D.p;
    var i, c: int := 0, 0;
    assert s[..0] == [];
    while i < n
      invariant 0 <= i <= n && |D.p| == |d0| && 0 <= c <= 1
      invariant Val(D.p) - c * W(i) == Val(d0) - Val(s[..i])
    {
      ghost var q, c0 := D.p, c;
      var d;
      d, c := SubStep(D.p[i], s[i], c);
      D.p := D.p[i := d];
      SubStepValue(q, D.p, i, c0, c, s[i]);
      ValSnoc(s, i);
      i := i + 1;
    }
    SubBorrow(D, i, c);
  }

  /** The borrow loop of mpi_sub_hlp. */
  method SubBorrow(D: Mpi, i0: nat, c0: int)
    requires 0 <= c0 <= 1 && i0 <= |D.p| && Val(D.p) - c0 * W(i0) >= 0
    modifies D`p
    ensures |D.p| == old(|D.p|) && Val(D.p) == old(Val(D.p)) - c0 * W(i0)
  {
    ghost var d0 := D.p;
    var i, c: int := i0, c0;
    while c != 0
      invariant 0 <= i <= |D.p| == |d0| && 0 <= c <= 1
      invariant Val(D.p) - c * W(i) == Val(d0) - c0 * W(i0)
      decreases |D.p| - i
    {
      ValBound(D.p);
      ghost var q, cOld := D.p, c;
      var d;
      d, c := SubStep(D.p[i], 0, c);
      D.p := D.p[i := d];
      SubStepValue(q, D.p, i, cOld, c, 0);
      i := i + 1;
    }
  }

  /** X = |X| - |B|. */
  method SubMagnitude(X: Mpi, B: Mpi)
    requires X != B && Val(B.p) <= Val(X.p)
    modifies X`p
    ensures |X.p| == old(|X.p|) && Val(X.p) == old(Val(X.p)) - Val(B.p)
  {
    var n := UsedLimbs(B.p);
    UsedValue(B.p);
    if n > |X.p| {
      WMono(|X.p|, n - 1);
      ValBound(X.p);
    }
    SubHlp(n, B.p, X);
  }

  /** X = |A| - |B|. */
  method SubAbs(X: Mpi, A: Mpi, B0: Mpi) returns (ret: Ret)
    modifies X
    ensures ret == if old(Val(A.p)) < old(Val(B0.p)) then NegativeValue else Ok
    ensures ret == NegativeValue ==> X.p == old(X.p) && X.s == old(X.s)
    ensures ret == Ok ==> Val(X.p) == old(Val(A.p)) - old(Val(B0.p)) && X.s == 1
    ensures X == A || old(|A.p|) > 0 ==> |X.p| >= old(|X.p|)
  {
    var B := B0;
    var r := CmpAbs(A, B);
    if r < 0 { return NegativeValue; }
    if X == B {
      B := new Mpi.Init();
      Copy(B, B0);
    }
    if X != A { Copy(X, A); }
    X.s := 1;
    SubMagnitude(X, B);
    ret := Ok;
  }

  /** X = A + B. */
  method AddMpi(X: Mpi, A: Mpi, B: Mpi)
    modifies X
    ensures !(X == A && X == B) ==> X.V() == old(A.V()) + old(B.V())
    ensures X == A && X == B ==> X.p == Doubled(old(X.p)) && X.s == old(X.s)
    ensures old(A.s) == old(B.s) ==> X.s == old(A.s)
    ensures X == A || old(|A.p|) > 0 ==> |X.p| >= old(|X.p|)
  {
    var s := A.s;
    if (A.s < 0) != (B.s < 0) {
      SignedSub(X, A, B, s);
    } else {
      AddAbs(X, A, B);
      X.s := s;
    }
  }

  /** X = A - B. */
  method SubMpi(X: Mpi, A: Mpi, B: Mpi)
    modifies X
    ensures X.V() == old(A.V()) - old(B.V())
    ensures old(A.s) != old(B.s) ==> X.s == old(A.s)
    ensures X == A || old(|A.p|) > 0 ==> |X.p| >= old(|X.p|)
  {
    var s := A.s;
    if (A.s < 0) == (B.s < 0) {
      SignedSub(X, A, B, s);
    } else {
      AddAbs(X, A, B);
      X.s := s;
    }
  }

  /** The branch shared by both: the difference of magnitudes with the larger one's sign. */
  method SignedSub(X: Mpi, A: Mpi, B: Mpi, s: Sign)
    modifies X
    ensures X.V() == (old(Val(A.p)) - old(Val(B.p))) * s
    ensures X == A || old(|A.p|) > 0 ==> |X.p| >= old(|X.p|)
  {
    var r := CmpAbs(A, B);
    if r >= 0 {
      var _ := SubAbs(X, A, B);
      X.s := s;
    } else {
      var _ := SubAbs(X, B, A);
      X.s := -(s as int);
    }
  }

  method AddInt(X: Mpi, A: Mpi, z: int)
    requires AbsInt(z) < BASE
    modifies X
    ensures X.V() == old(A.V()) + z
    ensures X == A || old(|A.p|) > 0 ==> |X.p| >= old(|X.p|)
    ensures old(A.s) == (if z < 0 then -1 else 1) ==> X.s == old(A.s)
  {
    var B := new Mpi.Init();
    B.p := [AbsInt(z)];
    B.s := if z < 0 then -1 else 1;
    ValSingle(B.p[0]);
    AddMpi(X, A, B);
  }

  method SubInt(X: Mpi, A: Mpi, z: int)
    requires AbsInt(z) < BASE
    modifies X
    ensures X.V() == old(A.V()) - z
    ensures X == A || old(|A.p|) > 0 ==> |X.p| >= old(|X.p|)
    ensures old(A.s) != (if z < 0 then -1 else 1) ==> X.s == old(A.s)
  {
    var B := new Mpi.Init();
    B.p := [AbsInt(z)];
    B.s := if z < 0 then -1 else 1;
    ValSingle(B.p[0]);
    SubMpi(X, A, B);
  }
}
