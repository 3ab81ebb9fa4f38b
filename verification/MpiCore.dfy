/** The `mpi` object of bignum.c and its linear-time operations. */
module MpiCore {
  import opened Limbs

  /** Return codes; malloc failure is not modelled. */
  datatype Ret =
    | Ok
    | BadInputData
    | InvalidCharacter
    | BufferTooSmall
    | NegativeValue
    | DivisionByZero
    | NotAcceptable

  type Sign = s: int | s == 1 || s == -1 witness 1

  /** A sign and a limb buffer. The buffer is reallocated to grow, so it is a sequence field. */
  class Mpi {
    var s: Sign
    var p: seq<Limb>

    constructor Init()
      ensures s == 1 && p == []
    {
      s, p := 1, [];
    }

    ghost function V(): int
      reads this
    {
      if s < 0 then -Val(p) else Val(p)
    }
  }

  function AbsInt(x: int): (r: int)
    ensures r >= 0
  {
    if x < 0 then -x else x
  }

  ghost function Signum(x: int): int {
    if x < 0 then -1 else if x == 0 then 0 else 1
  }

  function Max(x: nat, y: nat): nat {
    if x < y then y else x
  }

  // ----- significant limbs

  /** Number of limbs up to the highest one that is not zero. */
  ghost function Used(p: seq<Limb>): (n: nat)
    ensures n <= |p| && (n > 0 ==> p[n - 1] != 0)
    ensures forall k :: n <= k < |p| ==> p[k] == 0
    decreases |p|
  {
    if p == [] then 0 else if p[|p| - 1] != 0 then |p| else Used(p[..|p| - 1])
  }

  lemma UsedValue(p: seq<Limb>)
    ensures Val(p) == Val(p[..Used(p)]) < W(Used(p))
    ensures Used(p) == 0 <==> Val(p) == 0
    ensures Used(p) > 0 ==> W(Used(p) - 1) <= Val(p)
  {
    ValTrim(p, Used(p));
    ValBound(p[..Used(p)]);
    if Used(p) > 0 { ValAtLeast(p, Used(p) - 1); }
  }

  lemma UsedOrder(p: seq<Limb>, q: seq<Limb>)
    requires Used(p) < Used(q)
    ensures Val(p) < Val(q)
  {
    var i, j := Used(p), Used(q);
    assert Val(p) < W(i) by { UsedValue(p); }
    assert W(j - 1) <= Val(q) by { UsedValue(q); }
    WMono(i, j - 1);
  }

  /** The scan every operation starts with. */
  method UsedLimbs(p: seq<Limb>) returns (i: nat)
    ensures i == Used(p)
  {
    i := |p|;
    while i > 0 && p[i - 1] == 0
      invariant 0 <= i <= |p| && Used(p) == Used(p[..i])
    {
      assert p[..i][..i - 1] == p[..i - 1];
      i := i - 1;
    }
    assert i > 0 ==> p[..i][i - 1] == p[i - 1];
  }

  // ----- growing, copying, setting

  method Grow(X: Mpi, nblimbs: nat)
    modifies X`p
    ensures |X.p| == Max(old(|X.p|), nblimbs) && X.p == old(X.p) + Zeros(|X.p| - old(|X.p|))
    ensures Val(X.p) == old(Val(X.p))
  {
    var n := |X.p|;
    if n < nblimbs {
      X.p := X.p + Zeros(nblimbs - n);
      assert X.p[..n] == old(X.p);
      ValTrim(X.p, n);
    } else {
      assert X.p == X.p + Zeros(0);
    }
  }

  method Copy(X: Mpi, Y: Mpi)
    modifies X
    ensures X == Y ==> X.p == old(X.p) && X.s == old(X.s)
    ensures Val(X.p) == old(Val(Y.p)) && (old(|Y.p|) > 0 ==> X.s == old(Y.s))
    ensures X != Y && Y.p == [] ==> X.p == [] && X.s == 1
    ensures X != Y && Y.p != [] ==> |X.p| == Max(old(|X.p|), Max(1, Used(Y.p)))
  {
    if X == Y { return; }
    if Y.p == [] {
      X.s, X.p := 1, [];
      return;
    }
    var i := |Y.p| - 1;
    while i > 0 && Y.p[i] == 0
      invariant 0 <= i < |Y.p| && forall k :: i < k < |Y.p| ==> Y.p[k] == 0
    {
      i := i - 1;
    }
    i := i + 1;
    X.s := Y.s;
    Grow(X, i);
    X.p := Y.p[..i] + Zeros(|X.p| - i);
    assert X.p[..i] == Y.p[..i];
    ValTrim(X.p, i);
    ValTrim(Y.p, i);
  }

  method Lset(X: Mpi, z: int)
    requires -BASE < z < BASE
    modifies X
    ensures Val(X.p) == AbsInt(z) && X.s == (if z < 0 then -1 else 1)
    ensures |X.p| == Max(old(|X.p|), 1)
    ensures X.p == [AbsInt(z)] + Zeros(|X.p| - 1)
  {
    Grow(X, 1);
    X.p := [AbsInt(z)] + Zeros(|X.p| - 1);
    X.s := if z < 0 then -1 else 1;
    ValTrim(X.p, 1);
    assert X.p[..1] == [X.p[0]];
    ValSingle(X.p[0]);
  }

  // ----- comparing

  /** The limb-by-limb scan shared by both comparisons. */
  method CmpLimbs(p: seq<Limb>, q: seq<Limb>, n: nat) returns (r: int)
    requires Used(p) == Used(q) == n
    ensures r == Signum(Val(p) - Val(q))
  {
    var i := n;
    ValTrim(p, n);
    ValTrim(q, n);
    ValZeros(p[n..]);
    ValZeros(q[n..]);
    while i > 0
      invariant 0 <= i <= n && Val(p[i..]) == Val(q[i..])
    {
      if p[i - 1] > q[i - 1] {
        ValCompare(q, p, i - 1);
        return 1;
      }
      if p[i - 1] < q[i - 1] {
        ValCompare(p, q, i - 1);
        return -1;
      }
      assert p[i - 1..][1..] == p[i..] && q[i - 1..][1..] == q[i..];
      i := i - 1;
    }
    assert p[0..] == p && q[0..] == q;
    return 0;
  }

  method CmpAbs(X: Mpi, Y: Mpi) returns (r: int)
    ensures r == Signum(Val(X.p) - Val(Y.p))
  {
    var i := UsedLimbs(X.p);
    var j := UsedLimbs(Y.p);
    UsedValue(X.p);
    UsedValue(Y.p);
    if i == 0 && j == 0 { return 0; }
    if i > j {
      UsedOrder(Y.p, X.p);
      return 1;
    }
    if j > i {
      UsedOrder(X.p, Y.p);
      return -1;
    }
    r := CmpLimbs(X.p, Y.p, i);
  }

  method CmpMpi(X: Mpi, Y: Mpi) returns (r: int)
    ensures r == Signum(X.V() - Y.V())
  {
    var i := UsedLimbs(X.p);
    var j := UsedLimbs(Y.p);
    UsedValue(X.p);
    UsedValue(Y.p);
    if i == 0 && j == 0 { return 0; }
    if i > j {
      UsedOrder(Y.p, X.p);
      return X.s;
    }
    if j > i {
      UsedOrder(X.p, Y.p);
      return -(Y.s as int);
    }
    if X.s > 0 && Y.s < 0 { return 1; }
    if Y.s > 0 && X.s < 0 { return -1; }
    r := CmpLimbs(X.p, Y.p, i);
    r := if X.s > 0 then r else -r;
  }

  method CmpInt(X: Mpi, z: int) returns (r: int)
    requires -BASE < z < BASE
    ensures r == Signum(X.V() - z)
  {
    var Y := new Mpi.Init();
    Y.p := [AbsInt(z)];
    Y.s := if z < 0 then -1 else 1;
    ValSingle(Y.p[0]);
    r := CmpMpi(X, Y);
  }
}
