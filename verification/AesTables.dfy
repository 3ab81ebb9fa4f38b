/**
 * Little-endian words, and the tables that aes_gen_tables() fills on first use
 * (node_main/polarssl/aes.c, built without POLARSSL_AES_ROM_TABLES).
 */
module AesTables {
  import opened AesField
  import opened AesProduct
  import opened AesCipher
  import opened AesBytes

  // ----- words

  /** GET_UINT32_LE. */
  function Pack(c: Col<bv8>): bv32 {
    (c.b0 as bv32) | ((c.b1 as bv32) << 8) | ((c.b2 as bv32) << 16) | ((c.b3 as bv32) << 24)
  }

  /** PUT_UINT32_LE, and the four bytes the rounds cut from a word. */
  function Unpack(w: bv32): Col<bv8> {
    Col((w & 0xFF) as bv8, ((w >> 8) & 0xFF) as bv8, ((w >> 16) & 0xFF) as bv8, ((w >> 24) & 0xFF) as bv8)
  }

  lemma WordRoundTrip(c: Col<bv8>, w: bv32)
    ensures Unpack(Pack(c)) == c && Pack(Unpack(w)) == w
  {
  }

  lemma UnpackXor(w: bv32, v: bv32)
    ensures var c, d := Unpack(w), Unpack(v); Unpack(w ^ v) == Col(c.b0 ^ d.b0, c.b1 ^ d.b1, c.b2 ^ d.b2, c.b3 ^ d.b3)
  {
  }

  /** Adding words adds their columns. */
  lemma UnpackAdd(w: bv32, v: bv32)
    ensures Unpack(w ^ v) == AddCol(Bytes(), Unpack(w), Unpack(v))
  {
    UnpackXor(w, v);
    var c, d := Unpack(w), Unpack(v);
    AddIsXor(c.b0, d.b0);
    AddIsXor(c.b1, d.b1);
    AddIsXor(c.b2, d.b2);
    AddIsXor(c.b3, d.b3);
  }

  function Rotl8(w: bv32): bv32 {
    ((w << 8) & 0xFFFFFFFF) | (w >> 24)
  }

  function TurnCol<T>(c: Col<T>): Col<T> { Col(c.b3, c.b0, c.b1, c.b2) }

  lemma UnpackRotl8(w: bv32)
    ensures Unpack(Rotl8(w)) == TurnCol(Unpack(w))
  {
  }

  // ----- the tables

  datatype Tables = Tables(
    fsb: seq<bv8>, ft0: seq<bv32>, ft1: seq<bv32>, ft2: seq<bv32>, ft3: seq<bv32>,
    rsb: seq<bv8>, rt0: seq<bv32>, rt1: seq<bv32>, rt2: seq<bv32>, rt3: seq<bv32>,
    rcon: seq<bv32>)

  predicate Sized(t: Tables) {
    && |t.fsb| == |t.ft0| == |t.ft1| == |t.ft2| == |t.ft3| == 256
    && |t.rsb| == |t.rt0| == |t.rt1| == |t.rt2| == |t.rt3| == 256
    && |t.rcon| == 10
  }

  /** A byte through the forward box, times the first column of MixColumns. */
  function ForwardCol<T>(f: Field<T>, s: T): Col<T> { Col(f.xt(s), s, s, Mul3(f, s)) }

  /** A byte times the first column of InvMixColumns. */
  function ReverseCol<T>(f: Field<T>, r: T): Col<T> { Col(Mul14(f, r), Mul9(f, r), Mul13(f, r), Mul11(f, r)) }

  ghost predicate WordAt(w0: bv32, w1: bv32, w2: bv32, w3: bv32, c: Col<bv8>) {
    && Unpack(w0) == c && Unpack(w1) == TurnCol(c)
    && Unpack(w2) == TurnCol(TurnCol(c)) && Unpack(w3) == TurnCol(TurnCol(TurnCol(c)))
  }

  ghost predicate GoodAt(t: Tables, i: nat)
    requires Sized(t) && i < 256
  {
    && t.fsb[i] == Sbox(i as bv8)
    && t.rsb[i] == InvSbox(i as bv8)
    && WordAt(t.ft0[i], t.ft1[i], t.ft2[i], t.ft3[i], ForwardCol(Bytes(), Sbox(i as bv8)))
    && WordAt(t.rt0[i], t.rt1[i], t.rt2[i], t.rt3[i], ReverseCol(Bytes(), InvSbox(i as bv8)))
  }

  /** The tables hold what FIPS-197 prescribes. */
  ghost predicate Good(t: Tables) {
    && Sized(t)
    && (forall i: nat :: i < 256 ==> GoodAt(t, i))
    && (forall i: nat :: i < 10 ==> Unpack(t.rcon[i]) == Rcon(Bytes(), 1, i))
  }

  // ----- their generation

  /** What the table of logarithms knows of a byte. */
  ghost predicate LogAt(log: seq<nat>, x: bv8)
    requires |log| == 256
  {
    log[x as int] <= 255 && Power(log[x as int]) == x
  }

  ghost predicate PowLog(pow: seq<bv8>, log: seq<nat>) {
    && |pow| == 256 && |log| == 256
    && (forall j: nat :: j < 256 ==> pow[j] == Power(j))
    && (forall x: bv8 :: x != 0 ==> LogAt(log, x))
  }

  ghost predicate LogTo(log: seq<nat>, i: nat)
    requires |log| == 256
  {
    forall j: nat :: j < i ==> LogAt(log, Power(j))
  }

  /** Entering a logarithm keeps the others right, whichever byte it is for. */
  lemma LogGrows(log: seq<nat>, i: nat)
    requires |log| == 256 && i < 256 && LogTo(log, i)
    ensures LogTo(log[Power(i) as int := i], i + 1)
  {
    var next := log[Power(i) as int := i];
    forall j: nat | j < i + 1 ensures LogAt(next, Power(j)) {
      if j < i {
        assert LogAt(log, Power(j));
        if Power(j) != Power(i) { BytesApart(Power(j), Power(i)); }
      }
    }
  }

  lemma LogFull(log: seq<nat>)
    requires |log| == 256 && LogTo(log, 256)
    ensures forall x: bv8 :: x != 0 ==> LogAt(log, x)
  {
    forall x: bv8 | x != 0 ensures LogAt(log, x) {
      var i := EveryPower(x);
      assert LogAt(log, Power(i));
    }
  }

  ghost predicate PowTo(pow: seq<bv8>, i: nat)
    requires |pow| == 256 && i <= 256
  {
    forall j: nat :: j < i ==> pow[j] == Power(j)
  }

  lemma PowerStep(i: nat, x: bv8)
    requires x == Power(i)
    ensures x ^ Xtime(x) == Power(i + 1)
  {
  }

  method GenPowLog() returns (powers: seq<bv8>, logs: seq<nat>)
    ensures PowLog(powers, logs)
  {
    var pow := new bv8[256];
    var log := new nat[256];
    var x: bv8 := 1;
    for i := 0 to 256
      invariant x == Power(i)
      invariant PowTo(pow[..], i)
      invariant LogTo(log[..], i)
    {
      ghost var pow0, log0 := pow[..], log[..];
      LogGrows(log0, i);
      PowerStep(i, x);
      pow[i] := x;
      assert pow[..] == pow0[i := x];
      log[x as int] := i;
      assert log[..] == log0[x as int := i];
      x := x ^ Xtime(x);
    }
    powers, logs := pow[..], log[..];
    LogFull(logs);
  }

  lemma BytesApart(x: bv8, y: bv8)
    requires x != y
    ensures x as int != y as int
  {
    assert (x as int) as bv8 == x;
    assert (y as int) as bv8 == y;
  }

  /** The round constants. */
  method GenRcon(rcon: array<bv32>)
    requires rcon.Length == 10
    modifies rcon
    ensures forall i: nat :: i < 10 ==> Unpack(rcon[i]) == Rcon(Bytes(), 1, i)
  {
    var x: bv8 := 1;
    for i := 0 to 10
      invariant x == PowX(Bytes(), 1, i)
      invariant forall j: nat :: j < i ==> Unpack(rcon[j]) == Rcon(Bytes(), 1, j)
    {
      rcon[i] := x as bv32;
      LowWord(x);
      AddIsXor(x, x);
      x := Xtime(x);
    }
  }

  lemma LowWord(x: bv8)
    ensures Unpack(x as bv32) == Col(x, 0, 0, 0)
  {
  }

  /** The affine transformation as the source rotates it up. */
  method AffineSteps(b: bv8) returns (x: bv8)
    ensures x == Affine(b)
  {
    x := b;
    var y := x;
    y := (y << 1) | (y >> 7);
    x := x ^ y;
    y := (y << 1) | (y >> 7);
    x := x ^ y;
    y := (y << 1) | (y >> 7);
    x := x ^ y;
    y := (y << 1) | (y >> 7);
    x := x ^ y ^ 0x63;
  }

  /** The box as a list, and what is filled of both boxes once FSb[0..i] is. */
  ghost function BoxList(): (box: seq<bv8>)
    ensures |box| == 256
  {
    seq(256, (i: nat) requires i < 256 => Sbox(i as bv8))
  }

  ghost predicate BoxesTo(box: seq<bv8>, fsb: seq<bv8>, rsb: seq<bv8>, i: nat)
    requires |box| == 256 && |fsb| == 256 && |rsb| == 256 && i <= 256
  {
    forall j: nat :: j < i ==> fsb[j] == box[j] && rsb[box[j] as int] == j as bv8
  }

  lemma SboxApart(x: bv8, y: bv8)
    requires x != y
    ensures Sbox(x) as int != Sbox(y) as int
  {
    BoxesUndo(x);
    BoxesUndo(y);
    BytesApart(Sbox(x), Sbox(y));
  }

  lemma ByteUp(x: bv8)
    ensures if x + 1 != 0 then (x + 1) as int == x as int + 1 else x as int == 255
  {
  }

  lemma IndexOfByte(x: bv8)
    ensures (x as int) as bv8 == x
  {
  }

  /** Some byte has each value: counting up reaches it. */
  lemma {:induction false} ByteWithValue(i: nat) returns (x: bv8)
    requires i < 256
    ensures x as int == i
  {
    if i == 0 {
      x := 0;
    } else {
      var y := ByteWithValue(i - 1);
      ByteUp(y);
      x := y + 1;
    }
  }

  lemma ByteOfIndex(i: nat)
    requires i < 256
    ensures (i as bv8) as int == i
  {
    var x := ByteWithValue(i);
    IndexOfByte(x);
  }

  lemma IndexApart(i: nat, j: nat)
    requires i < 256 && j < 256 && i != j
    ensures i as bv8 != j as bv8
  {
    ByteOfIndex(i);
    ByteOfIndex(j);
  }

  lemma BoxSpots(i: nat, j: nat)
    requires i < 256 && j < 256 && i != j
    ensures Sbox(j as bv8) as int != Sbox(i as bv8) as int
  {
    IndexApart(i, j);
    SboxApart(i as bv8, j as bv8);
  }

  lemma BoxesGrow(fsb: seq<bv8>, rsb: seq<bv8>, i: nat, x: bv8)
    requires |fsb| == 256 && |rsb| == 256 && i < 256 && BoxesTo(BoxList(), fsb, rsb, i) && x == Sbox(i as bv8)
    ensures BoxesTo(BoxList(), fsb[i := x], rsb[x as int := i as bv8], i + 1)
  {
    var box := BoxList();
    assert box[i] == x;
    forall j: nat | j < i ensures box[j] as int != x as int {
      BoxSpots(i, j);
    }
    BoxesEnter(box, fsb, rsb, i);
  }

  lemma BoxesEnter(box: seq<bv8>, fsb: seq<bv8>, rsb: seq<bv8>, i: nat)
    requires |box| == 256 && |fsb| == 256 && |rsb| == 256 && i < 256 && BoxesTo(box, fsb, rsb, i)
    requires forall j: nat :: j < i ==> box[j] as int != box[i] as int
    ensures BoxesTo(box, fsb[i := box[i]], rsb[box[i] as int := i as bv8], i + 1)
  {
  }

  /** The inverse that the source looks up. */
  lemma LookedUpInverse(pow: seq<bv8>, log: seq<nat>, i: nat)
    requires PowLog(pow, log) && 0 < i < 256
    ensures log[i] <= 255 && pow[255 - log[i]] == Inverse(i as bv8)
  {
    var x := i as bv8;
    ByteOfIndex(i);
    assert LogAt(log, x);
    PowerInverse(x, log[i]);
    InverseUnique(x, Power(255 - log[i]), Inverse(x));
  }

  lemma BoxesFull(fsb: seq<bv8>, rsb: seq<bv8>, j: nat)
    requires |fsb| == 256 && |rsb| == 256 && BoxesTo(BoxList(), fsb, rsb, 256) && j < 256
    ensures rsb[j] == InvSbox(j as bv8)
  {
    var x := InvSbox(j as bv8);
    BoxesUndo(j as bv8);
    IndexOfByte(x);
    ByteOfIndex(j);
    var k := x as int;
    assert BoxList()[k] == Sbox(k as bv8) && rsb[BoxList()[k] as int] == k as bv8;
  }

  method GenBoxes(pow: seq<bv8>, log: seq<nat>, fsb: array<bv8>, rsb: array<bv8>)
    requires PowLog(pow, log)
    requires fsb.Length == 256 && rsb.Length == 256 && fsb != rsb
    modifies fsb, rsb
    ensures forall j: nat :: j < 256 ==> fsb[j] == Sbox(j as bv8) && rsb[j] == InvSbox(j as bv8)
  {
    SboxOfZero();
    fsb[0] := 0x63;
    rsb[0x63] := 0;
    for i := 1 to 256
      invariant BoxesTo(BoxList(), fsb[..], rsb[..], i)
    {
      LookedUpInverse(pow, log, i);
      var x := AffineSteps(pow[255 - log[i]]);
      BoxesGrow(fsb[..], rsb[..], i, x);
      fsb[i] := x;
      rsb[x as int] := i as bv8;
    }
    forall j: nat | j < 256 ensures rsb[j] == InvSbox(j as bv8) {
      BoxesFull(fsb[..], rsb[..], j);
    }
  }

  lemma SboxOfZero()
    ensures Sbox(0) == 0x63
  {
    assert Inverse(0) == 0;
  }

  lemma PowerPeriod(n: nat)
    ensures Power(n % 255) == Power(n)
  {
    var q := n / 255;
    KeyPowers();
    PowerMultiple(255, q);
    PowerTimes(255 * q, n % 255);
    ProductOne(Power(n % 255));
  }

  lemma ProductZero(a: bv8, x: bv8)
    requires a == 0 || x == 0
    ensures Product(a, x) == 0
  {
    if a != 0 {
      var i := EveryPower(a);
      PowerOfZero(i);
    }
  }

  lemma {:induction false} PowerOfZero(i: nat)
    ensures Product(Power(i), 0) == 0
  {
    if i == 0 {
      ProductOne(0);
    } else {
      PowerOfZero(i - 1);
      ProductTriple(Power(i - 1), 0);
    }
  }

  /** MUL(a, x): the product by logarithms. */
  method Mul(pow: seq<bv8>, log: seq<nat>, a: bv8, x: bv8) returns (r: bv8)
    requires PowLog(pow, log)
    ensures r == Product(a, x)
  {
    if a == 0 || x == 0 {
      ProductZero(a, x);
      return 0;
    }
    assert LogAt(log, a) && LogAt(log, x);
    PowerTimes(log[a as int], log[x as int]);
    PowerPeriod(log[a as int] + log[x as int]);
    r := pow[(log[a as int] + log[x as int]) % 255];
  }

  ghost predicate ReverseList(cs: seq<Col<bv8>>, rsb: seq<bv8>) {
    |cs| == |rsb| && forall i: nat :: i < |rsb| ==> ReverseEntry(cs, rsb, i)
  }

  ghost predicate ReverseEntry(cs: seq<Col<bv8>>, rsb: seq<bv8>, i: nat)
    requires i < |rsb| == |cs|
  {
    cs[i] == ReverseCol(Bytes(), rsb[i])
  }

  ghost predicate ForwardList(cs: seq<Col<bv8>>, fsb: seq<bv8>) {
    |cs| == |fsb| && forall i: nat :: i < |fsb| ==> ForwardEntry(cs, fsb, i)
  }

  ghost predicate ForwardEntry(cs: seq<Col<bv8>>, fsb: seq<bv8>, i: nat)
    requires i < |fsb| == |cs|
  {
    cs[i] == ForwardCol(Bytes(), fsb[i])
  }

  /** Four bytes put together by exclusive or. */
  function Assemble(c: Col<bv8>): (w: bv32)
    ensures Unpack(w) == c
  {
    (c.b0 as bv32) ^ ((c.b1 as bv32) << 8) ^ ((c.b2 as bv32) << 16) ^ ((c.b3 as bv32) << 24)
  }

  /** The word of FT0 for one byte of the box. */
  method ForwardWord(fsb: seq<bv8>, i: nat, ghost cs: seq<Col<bv8>>) returns (w: bv32)
    requires i < |fsb| && ForwardList(cs, fsb)
    ensures Unpack(w) == cs[i]
  {
    var x := fsb[i];
    var y := Xtime(x);
    var z := y ^ x;
    AddIsXor(y, x);
    AddIsXor(x, x);
    assert ForwardEntry(cs, fsb, i);
    w := Assemble(Col(y, x, x, z));
  }

  /** The word of RT0 for one byte of the reverse box. */
  method ReverseWord(pow: seq<bv8>, log: seq<nat>, rsb: seq<bv8>, i: nat, ghost cs: seq<Col<bv8>>) returns (w: bv32)
    requires PowLog(pow, log) && i < |rsb| && ReverseList(cs, rsb)
    ensures Unpack(w) == cs[i]
  {
    var x := rsb[i];
    BytesSound();
    TimesCoefficients(Bytes(), x);
    var e := Mul(pow, log, 0x0E, x);
    var n := Mul(pow, log, 0x09, x);
    var d := Mul(pow, log, 0x0D, x);
    var b := Mul(pow, log, 0x0B, x);
    assert ReverseEntry(cs, rsb, i);
    w := Assemble(Col(e, n, d, b));
  }

  /** Rows of four word tables, filled below i from the columns cs. */
  ghost predicate WordsTo(w0: seq<bv32>, w1: seq<bv32>, w2: seq<bv32>, w3: seq<bv32>, cs: seq<Col<bv8>>, i: nat)
    requires |w0| == |w1| == |w2| == |w3| == |cs| == 256 && i <= 256
  {
    forall j: nat :: j < i ==> WordAt(w0[j], w1[j], w2[j], w3[j], cs[j])
  }

  /** Three rotations of a table word. */
  method Rotations(w: bv32) returns (w1: bv32, w2: bv32, w3: bv32)
    ensures WordAt(w, w1, w2, w3, Unpack(w))
  {
    w1 := Rotl8(w);
    w2 := Rotl8(w1);
    w3 := Rotl8(w2);
    UnpackRotl8(w);
    UnpackRotl8(w1);
    UnpackRotl8(w2);
  }

  lemma WordsGrow(w0: seq<bv32>, w1: seq<bv32>, w2: seq<bv32>, w3: seq<bv32>, cs: seq<Col<bv8>>, i: nat,
                  a: bv32, b: bv32, c: bv32, d: bv32)
    requires |w0| == |w1| == |w2| == |w3| == |cs| == 256 && i < 256
    requires WordsTo(w0, w1, w2, w3, cs, i) && WordAt(a, b, c, d, cs[i])
    ensures WordsTo(w0[i := a], w1[i := b], w2[i := c], w3[i := d], cs, i + 1)
  {
  }

  /** The words of row i, from the first of them. */
  method PutRow(w0: array<bv32>, w1: array<bv32>, w2: array<bv32>, w3: array<bv32>, i: nat, w: bv32,
                ghost cs: seq<Col<bv8>>)
    requires w0.Length == w1.Length == w2.Length == w3.Length == |cs| == 256 && i < 256
    requires w0 != w1 && w0 != w2 && w0 != w3 && w1 != w2 && w1 != w3 && w2 != w3
    requires WordsTo(w0[..], w1[..], w2[..], w3[..], cs, i) && Unpack(w) == cs[i]
    modifies w0, w1, w2, w3
    ensures WordsTo(w0[..], w1[..], w2[..], w3[..], cs, i + 1)
  {
    ghost var v0, v1, v2, v3 := w0[..], w1[..], w2[..], w3[..];
    var a, b, c := Rotations(w);
    w0[i], w1[i], w2[i], w3[i] := w, a, b, c;
    WordsGrow(v0, v1, v2, v3, cs, i, w, a, b, c);
    assert w0[..] == v0[i := w] && w1[..] == v1[i := a] && w2[..] == v2[i := b] && w3[..] == v3[i := c];
  }

  method GenForward(fsb: seq<bv8>, ghost cs: seq<Col<bv8>>)
    returns (ft0: seq<bv32>, ft1: seq<bv32>, ft2: seq<bv32>, ft3: seq<bv32>)
    requires |fsb| == 256 && ForwardList(cs, fsb)
    ensures |ft0| == |ft1| == |ft2| == |ft3| == 256
    ensures WordsTo(ft0, ft1, ft2, ft3, cs, 256)
  {
    var w0, w1, w2, w3 := new bv32[256], new bv32[256], new bv32[256], new bv32[256];
    for i := 0 to 256
      invariant WordsTo(w0[..], w1[..], w2[..], w3[..], cs, i)
    {
      var w := ForwardWord(fsb, i, cs);
      PutRow(w0, w1, w2, w3, i, w, cs);
    }
    return w0[..], w1[..], w2[..], w3[..];
  }

  method GenReverse(pow: seq<bv8>, log: seq<nat>, rsb: seq<bv8>, ghost cs: seq<Col<bv8>>)
    returns (rt0: seq<bv32>, rt1: seq<bv32>, rt2: seq<bv32>, rt3: seq<bv32>)
    requires PowLog(pow, log) && |rsb| == 256 && ReverseList(cs, rsb)
    ensures |rt0| == |rt1| == |rt2| == |rt3| == 256
    ensures WordsTo(rt0, rt1, rt2, rt3, cs, 256)
  {
    var w0, w1, w2, w3 := new bv32[256], new bv32[256], new bv32[256], new bv32[256];
    for i := 0 to 256
      invariant WordsTo(w0[..], w1[..], w2[..], w3[..], cs, i)
    {
      var w := ReverseWord(pow, log, rsb, i, cs);
      PutRow(w0, w1, w2, w3, i, w, cs);
    }
    return w0[..], w1[..], w2[..], w3[..];
  }

  ghost function ForwardCols(box: seq<bv8>): (cs: seq<Col<bv8>>)
    ensures ForwardList(cs, box)
  {
    seq(|box|, (i: nat) requires i < |box| => ForwardCol(Bytes(), box[i]))
  }

  ghost function ReverseCols(box: seq<bv8>): (cs: seq<Col<bv8>>)
    ensures ReverseList(cs, box)
  {
    seq(|box|, (i: nat) requires i < |box| => ReverseCol(Bytes(), box[i]))
  }

  /** The whole generation, which needs no table to start from. */
  method GenTables() returns (t: Tables)
    ensures Good(t)
  {
    var pow, log := GenPowLog();
    var rcon := new bv32[10];
    GenRcon(rcon);
    var fsb, rsb := new bv8[256], new bv8[256];
    GenBoxes(pow, log, fsb, rsb);
    ghost var fcs, rcs := ForwardCols(fsb[..]), ReverseCols(rsb[..]);
    var ft0, ft1, ft2, ft3 := GenForward(fsb[..], fcs);
    var rt0, rt1, rt2, rt3 := GenReverse(pow, log, rsb[..], rcs);
    t := Tables(fsb[..], ft0, ft1, ft2, ft3, rsb[..], rt0, rt1, rt2, rt3, rcon[..]);
    forall i: nat | i < 256 ensures GoodAt(t, i) {
      assert ForwardEntry(fcs, t.fsb, i);
      assert ReverseEntry(rcs, t.rsb, i);
    }
  }
}
