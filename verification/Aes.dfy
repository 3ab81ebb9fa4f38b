/**
 * The AES key schedules and the block cipher by table look-up
 * (node_main/polarssl/aes.c, FIPS-197 section 5).
 */
module Aes {
  import opened AesField
  import opened AesRounds
  import opened AesCipher
  import opened AesBytes
  import opened AesTables
  import Sequences

  datatype Mode = Encrypt | Decrypt

  const ERR_INVALID_KEY_LENGTH: int := -0x0020
  const ERR_INVALID_INPUT_LENGTH: int := -0x0022

  type Word = Col<bv8>

  // ----- the specification over blocks and key bytes

  type Block = b: seq<bv8> | |b| == 16 witness seq(16, _ => 0)

  function ColAt(b: seq<bv8>, i: nat): Word
    requires i + 4 <= |b|
  {
    Col(b[i], b[i + 1], b[i + 2], b[i + 3])
  }

  function ToState(b: Block): State<bv8> {
    State(ColAt(b, 0), ColAt(b, 4), ColAt(b, 8), ColAt(b, 12))
  }

  function ColBytes(c: Word): seq<bv8> { [c.b0, c.b1, c.b2, c.b3] }

  function FromState(s: State<bv8>): Block {
    ColBytes(s.c0) + ColBytes(s.c1) + ColBytes(s.c2) + ColBytes(s.c3)
  }

  lemma StateRoundTrip(b: Block, s: State<bv8>)
    ensures FromState(ToState(b)) == b && ToState(FromState(s)) == s
  {
  }

  ghost function Layer(): Layers<State<bv8>> { LayersOf(Rijndael()) }

  ghost function EncryptBlock(rk: seq<State<bv8>>, b: Block): Block
    requires |rk| >= 2
  {
    FromState(Cipher(Layer(), rk, ToState(b)))
  }

  /** What the source computes in decrypt mode: the equivalent inverse over a schedule dk. */
  ghost function DecryptBlock(dk: seq<State<bv8>>, b: Block): Block
    requires |dk| >= 2
  {
    FromState(EqInvCipher(Layer(), dk, ToState(b)))
  }

  /** Decrypting under the inverse of a schedule undoes encrypting under it. */
  lemma DecryptUndoesEncrypt(rk: seq<State<bv8>>, dk: seq<State<bv8>>, b: Block)
    requires InverseSchedule(Layer(), rk, dk)
    ensures DecryptBlock(dk, EncryptBlock(rk, b)) == b
  {
    RijndaelSound();
    LayersLawful(Rijndael());
    var s := ToState(b);
    StateRoundTrip(b, Cipher(Layer(), rk, s));
    EqInvIsInv(Layer(), rk, dk, Cipher(Layer(), rk, s));
    InvUndoesCipher(Layer(), rk, s);
  }

  function KeyWords(key: seq<bv8>, nk: nat): (kc: seq<Word>)
    requires 4 * nk <= |key|
    ensures |kc| == nk
  {
    seq(nk, (i: nat) requires i < nk => ColAt(key, 4 * i))
  }

  // ----- words seen through an interpretation

  /** How the rounds read a word as a column, with the cipher's field and boxes. The proofs
      below use only the laws of Faithful, never the bits of a word. */
  datatype Reading = Reading(g: Suite<bv8>, l: Layers<State<bv8>>, cols: bv32 -> Word)

  ghost predicate SumAt(m: Reading, v: bv32, w: bv32) {
    m.cols(v ^ w) == AddCol(m.g.f, m.cols(v), m.cols(w))
  }

  ghost predicate TablesAt(m: Reading, t: Tables, x: bv8)
    requires Sized(t)
  {
    var i := x as int;
    var s, r := ForwardCol(m.g.f, m.g.sb(x)), ReverseCol(m.g.f, m.g.rsb(x));
    && t.fsb[i] == m.g.sb(x) && t.rsb[i] == m.g.rsb(x)
    && m.cols(t.ft0[i]) == s && m.cols(t.ft1[i]) == TurnCol(s)
    && m.cols(t.ft2[i]) == TurnCol(TurnCol(s)) && m.cols(t.ft3[i]) == TurnCol(TurnCol(TurnCol(s)))
    && m.cols(t.rt0[i]) == r && m.cols(t.rt1[i]) == TurnCol(r)
    && m.cols(t.rt2[i]) == TurnCol(TurnCol(r)) && m.cols(t.rt3[i]) == TurnCol(TurnCol(TurnCol(r)))
  }

  ghost predicate PutsTogether(m: Reading, c: Word) {
    m.cols(Assemble(c)) == c && m.cols(Pack(c)) == c
  }

  /** The layers are the four transformations of the state and their inverses. */
  ghost predicate LayersAt(m: Reading, s: State<bv8>, k: State<bv8>) {
    && m.l.sub(s) == MapState(m.g.sb, s) && m.l.unsub(s) == MapState(m.g.rsb, s)
    && m.l.shift(s) == ShiftRows(s) && m.l.unshift(s) == InvShiftRows(s)
    && m.l.mix(s) == MixColumns(m.g.f, s) && m.l.unmix(s) == InvMixColumns(m.g.f, s)
    && m.l.add(s, k) == AddRoundKey(m.g.f, s, k)
  }

  ghost predicate Faithful(m: Reading, t: Tables) {
    && Sized(t)
    && SoundSuite(m.g)
    && (forall s: State<bv8>, k: State<bv8> :: LayersAt(m, s, k))
    && (forall v: bv32, w: bv32 :: SumAt(m, v, w))
    && (forall x: bv8 :: TablesAt(m, t, x))
    && (forall c: Word :: PutsTogether(m, c))
    && (forall w: bv32 :: CutsAt(m, w))
    && (forall i: nat :: i < 10 ==> m.cols(t.rcon[i]) == Rcon(m.g.f, 1, i))
  }

  ghost predicate CutsAt(m: Reading, w: bv32) {
    m.cols(w) == Unpack(w)
  }

  ghost function Standard(): Reading { Reading(Rijndael(), Layer(), (w: bv32) => Unpack(w)) }

  lemma TablesRead(t: Tables, x: bv8)
    requires Good(t)
    ensures TablesAt(Standard(), t, x)
  {
    IndexOfByte(x);
    assert GoodAt(t, x as int);
  }

  /** The generated tables read as FIPS-197 prescribes. */
  lemma StandardFaithful(t: Tables)
    requires Good(t)
    ensures Faithful(Standard(), t)
  {
    RijndaelSound();
    forall v: bv32, w: bv32 ensures SumAt(Standard(), v, w) {
      UnpackAdd(v, w);
    }
    forall x: bv8 ensures TablesAt(Standard(), t, x) {
      TablesRead(t, x);
    }
    forall c: Word ensures PutsTogether(Standard(), c) {
      WordRoundTrip(c, 0);
    }
  }

  // ----- key expansion

  /** The first n words of the key expansion (FIPS-197 section 5.2). */
  ghost function Schedule(g: Suite<bv8>, kc: seq<Word>, n: nat): (ws: seq<Word>)
    requires |kc| > 0
    ensures |ws| == n && forall j: nat :: j < n ==> ws[j] == KeyWord(g, 1, kc, j)
  {
    seq(n, (j: nat) => KeyWord(g, 1, kc, j))
  }

  /** The first n words of a buffer are those of the expansion ws. */
  ghost predicate ExpandedTo(m: Reading, w: seq<bv32>, ws: seq<Word>, n: nat) {
    n <= |w| && n <= |ws| && forall j: nat :: j < n ==> m.cols(w[j]) == ws[j]
  }

  // the three forms of a word of the expansion

  ghost predicate PlainAt(g: Suite<bv8>, ws: seq<Word>, nk: nat, j: nat)
    requires 0 < nk <= j < |ws|
  {
    ws[j] == AddCol(g.f, ws[j - nk], ws[j - 1])
  }

  ghost predicate RotatedAt(g: Suite<bv8>, ws: seq<Word>, nk: nat, j: nat, i: nat)
    requires 0 < nk <= j < |ws|
  {
    ws[j] == AddCol(g.f, ws[j - nk], AddCol(g.f, MapCol(g.sb, RotWord(ws[j - 1])), Rcon(g.f, 1, i)))
  }

  ghost predicate SubstitutedAt(g: Suite<bv8>, ws: seq<Word>, nk: nat, j: nat)
    requires 0 < nk <= j < |ws|
  {
    ws[j] == AddCol(g.f, ws[j - nk], MapCol(g.sb, ws[j - 1]))
  }

  ghost predicate FormAt(g: Suite<bv8>, ws: seq<Word>, nk: nat, j: nat)
    requires 0 < nk <= j < |ws|
  {
    if j % nk == 0 then j / nk >= 1 && RotatedAt(g, ws, nk, j, j / nk - 1)
    else if nk > 6 && j % nk == 4 then SubstitutedAt(g, ws, nk, j)
    else PlainAt(g, ws, nk, j)
  }

  ghost predicate Follows(g: Suite<bv8>, ws: seq<Word>, nk: nat)
    requires nk > 0
  {
    forall j: nat :: nk <= j < |ws| ==> FormAt(g, ws, nk, j)
  }

  lemma ScheduleAt(g: Suite<bv8>, kc: seq<Word>, n: nat, j: nat)
    requires 4 <= |kc| <= j < n
    ensures FormAt(g, Schedule(g, kc, n), |kc|, j)
  {
    Quotient(|kc|, j);
  }

  lemma ScheduleFollows(g: Suite<bv8>, kc: seq<Word>, n: nat)
    requires 4 <= |kc|
    ensures Follows(g, Schedule(g, kc, n), |kc|)
  {
    forall j: nat | |kc| <= j < n ensures FormAt(g, Schedule(g, kc, n), |kc|, j) {
      ScheduleAt(g, kc, n, j);
    }
  }

  lemma Quotient(n: nat, j: nat)
    requires 0 < n <= j
    ensures j / n >= 1
  {
  }

  /** The exclusive or of two words adds their columns. */
  method Xor(t: Tables, v: bv32, w: bv32, ghost m: Reading) returns (x: bv32)
    requires Faithful(m, t)
    ensures m.cols(x) == AddCol(m.g.f, m.cols(v), m.cols(w))
  {
    x := v ^ w;
    assert SumAt(m, v, w);
  }

  /** The four bytes of a word. */
  method Cut(t: Tables, w: bv32, ghost m: Reading) returns (c: Word)
    requires Faithful(m, t)
    ensures c == m.cols(w)
  {
    c := Unpack(w);
    assert CutsAt(m, w);
  }

  /** The word with the given bytes. */
  method Join(t: Tables, c: Word, ghost m: Reading) returns (w: bv32)
    requires Faithful(m, t)
    ensures m.cols(w) == c
  {
    w := Assemble(c);
    assert PutsTogether(m, c);
  }

  /** SubWord of a word, by the box. */
  method SubWord(t: Tables, c: Word, ghost m: Reading) returns (w: bv32)
    requires Faithful(m, t)
    ensures m.cols(w) == MapCol(m.g.sb, c)
  {
    assert TablesAt(m, t, c.b0) && TablesAt(m, t, c.b1) && TablesAt(m, t, c.b2) && TablesAt(m, t, c.b3);
    w := Join(t, Col(t.fsb[c.b0 as int], t.fsb[c.b1 as int], t.fsb[c.b2 as int], t.fsb[c.b3 as int]), m);
  }

  /** RK[j] = RK[j - nk] ^ RK[j - 1]. */
  method PlainWord(t: Tables, rk: array<bv32>, j: nat, nk: nat, ghost m: Reading, ghost ws: seq<Word>)
    requires Faithful(m, t)
    requires 0 < nk <= j < rk.Length && j < |ws| && PlainAt(m.g, ws, nk, j)
    requires ExpandedTo(m, rk[..], ws, j)
    modifies rk
    ensures ExpandedTo(m, rk[..], ws, j + 1)
  {
    var x := Xor(t, rk[j - nk], rk[j - 1], m);
    EnterWord(rk, j, x, m, ws);
  }

  /** RK[j] from the rotated, substituted previous word and a round constant. */
  method RotatedWord(t: Tables, rk: array<bv32>, i: nat, j: nat, nk: nat, ghost m: Reading, ghost ws: seq<Word>)
    requires Faithful(m, t) && i < 10
    requires 0 < nk <= j < rk.Length && j < |ws| && RotatedAt(m.g, ws, nk, j, i)
    requires ExpandedTo(m, rk[..], ws, j)
    modifies rk
    ensures ExpandedTo(m, rk[..], ws, j + 1)
  {
    var c := Cut(t, rk[j - 1], m);
    var w := SubWord(t, RotWord(c), m);
    var x := Xor(t, rk[j - nk], t.rcon[i], m);
    x := Xor(t, x, w, m);
    AddColSwap(m.g.f, ws[j - nk], m.cols(t.rcon[i]), m.cols(w));
    EnterWord(rk, j, x, m, ws);
  }

  lemma AddColSwap(f: Field<bv8>, a: Word, b: Word, c: Word)
    requires Sound(f)
    ensures AddCol(f, AddCol(f, a, b), c) == AddCol(f, a, AddCol(f, c, b))
  {
    forall x: bv8, y: bv8, z: bv8 ensures f.add(f.add(x, y), z) == f.add(x, f.add(z, y)) {
      assert GroupAt(f, x, y, z) && GroupAt(f, y, z, z);
    }
  }

  /** RK[j] from the substituted previous word, for 256-bit keys. */
  method SubstitutedWord(t: Tables, rk: array<bv32>, j: nat, nk: nat, ghost m: Reading, ghost ws: seq<Word>)
    requires Faithful(m, t)
    requires 0 < nk <= j < rk.Length && j < |ws| && SubstitutedAt(m.g, ws, nk, j)
    requires ExpandedTo(m, rk[..], ws, j)
    modifies rk
    ensures ExpandedTo(m, rk[..], ws, j + 1)
  {
    var c := Cut(t, rk[j - 1], m);
    var w := SubWord(t, c, m);
    var x := Xor(t, rk[j - nk], w, m);
    EnterWord(rk, j, x, m, ws);
  }

  method EnterWord(rk: array<bv32>, j: nat, w: bv32, ghost m: Reading, ghost ws: seq<Word>)
    requires j < rk.Length && j < |ws| && ExpandedTo(m, rk[..], ws, j) && m.cols(w) == ws[j]
    modifies rk
    ensures ExpandedTo(m, rk[..], ws, j + 1)
  {
    ghost var before := rk[..];
    rk[j] := w;
    assert rk[..] == before[j := w];
  }

  /** No index in the span starts a row or, for 256-bit keys, is the middle of one. */
  ghost predicate PlainSpan(nk: nat, lo: nat, hi: nat)
    requires nk > 0
  {
    forall j: nat :: lo <= j < hi ==> j % nk != 0 && !(nk > 6 && j % nk == 4)
  }

  lemma Span(nk: nat, q: nat, lo: nat, hi: nat)
    requires nk == 4 || nk == 6 || nk == 8
    requires nk * q < lo && hi <= nk * q + nk && (nk == 8 ==> hi <= nk * q + 4 || lo > nk * q + 4)
    ensures PlainSpan(nk, lo, hi)
  {
    if nk == 4 {
      forall j: nat | lo <= j < hi ensures j % 4 != 0 { assert j % 4 == j - 4 * q; }
    } else if nk == 6 {
      forall j: nat | lo <= j < hi ensures j % 6 != 0 { assert j % 6 == j - 6 * q; }
    } else {
      forall j: nat | lo <= j < hi ensures j % 8 != 0 && j % 8 != 4 { assert j % 8 == j - 8 * q; }
    }
  }

  /** A rotated word and the plain words after it. */
  method Row(t: Tables, rk: array<bv32>, i: nat, j: nat, nk: nat, len: nat, ghost m: Reading, ghost ws: seq<Word>)
    requires Faithful(m, t) && i < 10 && 0 < nk <= j && j % nk == 0 && j / nk - 1 == i
    requires 0 < len && j + len <= |ws| && j + len <= rk.Length
    requires Follows(m.g, ws, nk) && PlainSpan(nk, j + 1, j + len)
    requires ExpandedTo(m, rk[..], ws, j)
    modifies rk
    ensures ExpandedTo(m, rk[..], ws, j + len)
  {
    assert FormAt(m.g, ws, nk, j);
    RotatedWord(t, rk, i, j, nk, m, ws);
    PlainRun(t, rk, j + 1, j + len, nk, m, ws);
  }

  /** The second half of a row of a 256-bit key. */
  method HalfRow(t: Tables, rk: array<bv32>, j: nat, ghost m: Reading, ghost ws: seq<Word>)
    requires Faithful(m, t) && 8 <= j && j % 8 == 4
    requires j + 4 <= |ws| && j + 4 <= rk.Length
    requires Follows(m.g, ws, 8) && PlainSpan(8, j + 1, j + 4)
    requires ExpandedTo(m, rk[..], ws, j)
    modifies rk
    ensures ExpandedTo(m, rk[..], ws, j + 4)
  {
    assert FormAt(m.g, ws, 8, j);
    SubstitutedWord(t, rk, j, 8, m, ws);
    PlainRun(t, rk, j + 1, j + 4, 8, m, ws);
  }

  method Expand128(t: Tables, rk: array<bv32>, ghost m: Reading, ghost ws: seq<Word>)
    requires Faithful(m, t) && Follows(m.g, ws, 4) && |ws| == 44
    requires rk.Length >= 44 && ExpandedTo(m, rk[..], ws, 4)
    modifies rk
    ensures ExpandedTo(m, rk[..], ws, 44)
  {
    for i := 0 to 10
      invariant ExpandedTo(m, rk[..], ws, 4 + 4 * i)
    {
      Span(4, i + 1, 4 * i + 5, 4 * i + 8);
      Row(t, rk, i, 4 * i + 4, 4, 4, m, ws);
    }
  }

  method Expand192(t: Tables, rk: array<bv32>, ghost m: Reading, ghost ws: seq<Word>)
    requires Faithful(m, t) && Follows(m.g, ws, 6) && |ws| == 54
    requires rk.Length >= 54 && ExpandedTo(m, rk[..], ws, 6)
    modifies rk
    ensures ExpandedTo(m, rk[..], ws, 54)
  {
    for i := 0 to 8
      invariant ExpandedTo(m, rk[..], ws, 6 + 6 * i)
    {
      Span(6, i + 1, 6 * i + 7, 6 * i + 12);
      Row(t, rk, i, 6 * i + 6, 6, 6, m, ws);
    }
  }

  method Expand256(t: Tables, rk: array<bv32>, ghost m: Reading, ghost ws: seq<Word>)
    requires Faithful(m, t) && Follows(m.g, ws, 8) && |ws| == 64
    requires rk.Length >= 64 && ExpandedTo(m, rk[..], ws, 8)
    modifies rk
    ensures ExpandedTo(m, rk[..], ws, 64)
  {
    for i := 0 to 7
      invariant ExpandedTo(m, rk[..], ws, 8 + 8 * i)
    {
      Span(8, i + 1, 8 * i + 9, 8 * i + 12);
      Row(t, rk, i, 8 * i + 8, 8, 4, m, ws);
      Span(8, i + 1, 8 * i + 13, 8 * i + 16);
      HalfRow(t, rk, 8 * i + 12, m, ws);
    }
  }

  /** The unrolled assignments RK[lo] .. RK[hi - 1] between two special words. */
  method PlainRun(t: Tables, rk: array<bv32>, lo: nat, hi: nat, nk: nat, ghost m: Reading, ghost ws: seq<Word>)
    requires Faithful(m, t) && 0 < nk <= lo <= hi <= rk.Length && hi <= |ws|
    requires Follows(m.g, ws, nk)
    requires PlainSpan(nk, lo, hi)
    requires ExpandedTo(m, rk[..], ws, lo)
    modifies rk
    ensures ExpandedTo(m, rk[..], ws, hi)
  {
    for j := lo to hi
      invariant ExpandedTo(m, rk[..], ws, j)
    {
      assert FormAt(m.g, ws, nk, j);
      PlainWord(t, rk, j, nk, m, ws);
    }
  }

  // ----- rounds

  ghost function WordState(m: Reading, x0: bv32, x1: bv32, x2: bv32, x3: bv32): State<bv8> {
    State(m.cols(x0), m.cols(x1), m.cols(x2), m.cols(x3))
  }

  /** Row r of a schedule: the round key of round r. */
  ghost function RowState(m: Reading, w: seq<bv32>, r: nat): State<bv8>
    requires 4 * r + 3 < |w|
  {
    WordState(m, w[4 * r], w[4 * r + 1], w[4 * r + 2], w[4 * r + 3])
  }

  /** One output word of AES_FROUND. */
  method ForwardWordOf(t: Tables, k: bv32, a: bv32, b: bv32, c: bv32, d: bv32, ghost m: Reading) returns (x: bv32)
    requires Faithful(m, t)
    ensures m.cols(x)
         == AddCol(m.g.f,
              MixCol(m.g.f,
                Col(m.g.sb(m.cols(a).b0), m.g.sb(m.cols(b).b1), m.g.sb(m.cols(c).b2), m.g.sb(m.cols(d).b3))),
              m.cols(k))
  {
    var p := Cut(t, a, m);
    var q := Cut(t, b, m);
    var r := Cut(t, c, m);
    var s := Cut(t, d, m);
    assert TablesAt(m, t, p.b0) && TablesAt(m, t, q.b1) && TablesAt(m, t, r.b2) && TablesAt(m, t, s.b3);
    x := Xor(t, k, t.ft0[p.b0 as int], m);
    x := Xor(t, x, t.ft1[q.b1 as int], m);
    x := Xor(t, x, t.ft2[r.b2 as int], m);
    x := Xor(t, x, t.ft3[s.b3 as int], m);
    MixByTables(m.g.f, m.cols(k), m.g.sb(p.b0), m.g.sb(q.b1), m.g.sb(r.b2), m.g.sb(s.b3));
  }

  /** One output word of AES_RROUND. */
  method ReverseWordOf(t: Tables, k: bv32, a: bv32, b: bv32, c: bv32, d: bv32, ghost m: Reading) returns (x: bv32)
    requires Faithful(m, t)
    ensures m.cols(x)
         == AddCol(m.g.f,
              UnmixCol(m.g.f,
                Col(m.g.rsb(m.cols(a).b0), m.g.rsb(m.cols(b).b1), m.g.rsb(m.cols(c).b2), m.g.rsb(m.cols(d).b3))),
              m.cols(k))
  {
    var p := Cut(t, a, m);
    var q := Cut(t, b, m);
    var r := Cut(t, c, m);
    var s := Cut(t, d, m);
    assert TablesAt(m, t, p.b0) && TablesAt(m, t, q.b1) && TablesAt(m, t, r.b2) && TablesAt(m, t, s.b3);
    x := Xor(t, k, t.rt0[p.b0 as int], m);
    x := Xor(t, x, t.rt1[q.b1 as int], m);
    x := Xor(t, x, t.rt2[r.b2 as int], m);
    x := Xor(t, x, t.rt3[s.b3 as int], m);
    UnmixByTables(m.g.f, m.cols(k), m.g.rsb(p.b0), m.g.rsb(q.b1), m.g.rsb(r.b2), m.g.rsb(s.b3));
  }

  lemma ForwardLayers(m: Reading, t: Tables, s: State<bv8>, k: State<bv8>)
    requires Faithful(m, t)
    ensures m.l.add(m.l.mix(m.l.shift(m.l.sub(s))), k)
            == AddRoundKey(m.g.f, MixColumns(m.g.f, ShiftRows(MapState(m.g.sb, s))), k)
  {
    var u := MapState(m.g.sb, s);
    var v := ShiftRows(u);
    assert LayersAt(m, s, k) && LayersAt(m, u, k) && LayersAt(m, v, k) && LayersAt(m, MixColumns(m.g.f, v), k);
  }

  lemma ReverseLayers(m: Reading, t: Tables, s: State<bv8>, k: State<bv8>)
    requires Faithful(m, t)
    ensures m.l.add(m.l.unmix(m.l.unshift(m.l.unsub(s))), k)
            == AddRoundKey(m.g.f, InvMixColumns(m.g.f, InvShiftRows(MapState(m.g.rsb, s))), k)
  {
    var u := MapState(m.g.rsb, s);
    var v := InvShiftRows(u);
    assert LayersAt(m, s, k) && LayersAt(m, u, k) && LayersAt(m, v, k) && LayersAt(m, InvMixColumns(m.g.f, v), k);
  }

  /** AES_FROUND is SubBytes, ShiftRows, MixColumns and AddRoundKey (FIPS-197 section 5.1). */
  method ForwardRound(t: Tables, rk: array<bv32>, r: nat, y0: bv32, y1: bv32, y2: bv32, y3: bv32, ghost m: Reading)
    returns (x0: bv32, x1: bv32, x2: bv32, x3: bv32)
    requires Faithful(m, t) && 4 * r + 3 < rk.Length
    ensures WordState(m, x0, x1, x2, x3)
         == m.l.add(m.l.mix(m.l.shift(m.l.sub(WordState(m, y0, y1, y2, y3)))), RowState(m, rk[..], r))
  {
    ForwardLayers(m, t, WordState(m, y0, y1, y2, y3), RowState(m, rk[..], r));
    x0 := ForwardWordOf(t, rk[4 * r], y0, y1, y2, y3, m);
    x1 := ForwardWordOf(t, rk[4 * r + 1], y1, y2, y3, y0, m);
    x2 := ForwardWordOf(t, rk[4 * r + 2], y2, y3, y0, y1, m);
    x3 := ForwardWordOf(t, rk[4 * r + 3], y3, y0, y1, y2, m);
  }

  /** AES_RROUND is a round of the equivalent inverse (FIPS-197 section 5.3.5). */
  method ReverseRound(t: Tables, rk: array<bv32>, r: nat, y0: bv32, y1: bv32, y2: bv32, y3: bv32, ghost m: Reading)
    returns (x0: bv32, x1: bv32, x2: bv32, x3: bv32)
    requires Faithful(m, t) && 4 * r + 3 < rk.Length
    ensures WordState(m, x0, x1, x2, x3)
         == m.l.add(m.l.unmix(m.l.unshift(m.l.unsub(WordState(m, y0, y1, y2, y3)))), RowState(m, rk[..], r))
  {
    ReverseLayers(m, t, WordState(m, y0, y1, y2, y3), RowState(m, rk[..], r));
    x0 := ReverseWordOf(t, rk[4 * r], y0, y3, y2, y1, m);
    x1 := ReverseWordOf(t, rk[4 * r + 1], y1, y0, y3, y2, m);
    x2 := ReverseWordOf(t, rk[4 * r + 2], y2, y1, y0, y3, m);
    x3 := ReverseWordOf(t, rk[4 * r + 3], y3, y2, y1, y0, m);
  }

  /** One output word of the last round in encrypt mode. */
  method LastForwardWord(t: Tables, k: bv32, a: bv32, b: bv32, c: bv32, d: bv32, ghost m: Reading) returns (x: bv32)
    requires Faithful(m, t)
    ensures m.cols(x)
         == AddCol(m.g.f,
              Col(m.g.sb(m.cols(a).b0), m.g.sb(m.cols(b).b1), m.g.sb(m.cols(c).b2), m.g.sb(m.cols(d).b3)),
              m.cols(k))
  {
    var p := Cut(t, a, m);
    var q := Cut(t, b, m);
    var r := Cut(t, c, m);
    var s := Cut(t, d, m);
    assert TablesAt(m, t, p.b0) && TablesAt(m, t, q.b1) && TablesAt(m, t, r.b2) && TablesAt(m, t, s.b3);
    var e := Join(t, Col(t.fsb[p.b0 as int], t.fsb[q.b1 as int], t.fsb[r.b2 as int], t.fsb[s.b3 as int]), m);
    x := Xor(t, k, e, m);
    AddColCommutes(m.g.f, m.cols(k), m.cols(e));
  }

  /** One output word of the last round in decrypt mode. */
  method LastReverseWord(t: Tables, k: bv32, a: bv32, b: bv32, c: bv32, d: bv32, ghost m: Reading) returns (x: bv32)
    requires Faithful(m, t)
    ensures m.cols(x)
         == AddCol(m.g.f,
              Col(m.g.rsb(m.cols(a).b0), m.g.rsb(m.cols(b).b1), m.g.rsb(m.cols(c).b2), m.g.rsb(m.cols(d).b3)),
              m.cols(k))
  {
    var p := Cut(t, a, m);
    var q := Cut(t, b, m);
    var r := Cut(t, c, m);
    var s := Cut(t, d, m);
    assert TablesAt(m, t, p.b0) && TablesAt(m, t, q.b1) && TablesAt(m, t, r.b2) && TablesAt(m, t, s.b3);
    var e := Join(t, Col(t.rsb[p.b0 as int], t.rsb[q.b1 as int], t.rsb[r.b2 as int], t.rsb[s.b3 as int]), m);
    x := Xor(t, k, e, m);
    AddColCommutes(m.g.f, m.cols(k), m.cols(e));
  }

  lemma AddColCommutes(f: Field<bv8>, c: Word, d: Word)
    requires Sound(f)
    ensures AddCol(f, c, d) == AddCol(f, d, c)
  {
    Commute(f, c.b0, d.b0);
    Commute(f, c.b1, d.b1);
    Commute(f, c.b2, d.b2);
    Commute(f, c.b3, d.b3);
  }

  lemma LastForwardLayers(m: Reading, t: Tables, s: State<bv8>, k: State<bv8>)
    requires Faithful(m, t)
    ensures m.l.add(m.l.shift(m.l.sub(s)), k) == AddRoundKey(m.g.f, ShiftRows(MapState(m.g.sb, s)), k)
  {
    var u := MapState(m.g.sb, s);
    assert LayersAt(m, s, k) && LayersAt(m, u, k) && LayersAt(m, ShiftRows(u), k);
  }

  lemma LastReverseLayers(m: Reading, t: Tables, s: State<bv8>, k: State<bv8>)
    requires Faithful(m, t)
    ensures m.l.add(m.l.unshift(m.l.unsub(s)), k) == AddRoundKey(m.g.f, InvShiftRows(MapState(m.g.rsb, s)), k)
  {
    var u := MapState(m.g.rsb, s);
    assert LayersAt(m, s, k) && LayersAt(m, u, k) && LayersAt(m, InvShiftRows(u), k);
  }

  method LastForward(t: Tables, rk: array<bv32>, r: nat, y0: bv32, y1: bv32, y2: bv32, y3: bv32, ghost m: Reading)
    returns (x0: bv32, x1: bv32, x2: bv32, x3: bv32)
    requires Faithful(m, t) && 4 * r + 3 < rk.Length
    ensures WordState(m, x0, x1, x2, x3)
         == m.l.add(m.l.shift(m.l.sub(WordState(m, y0, y1, y2, y3))), RowState(m, rk[..], r))
  {
    x0 := LastForwardWord(t, rk[4 * r], y0, y1, y2, y3, m);
    x1 := LastForwardWord(t, rk[4 * r + 1], y1, y2, y3, y0, m);
    x2 := LastForwardWord(t, rk[4 * r + 2], y2, y3, y0, y1, m);
    x3 := LastForwardWord(t, rk[4 * r + 3], y3, y0, y1, y2, m);
    LastForwardLayers(m, t, WordState(m, y0, y1, y2, y3), RowState(m, rk[..], r));
  }

  method LastReverse(t: Tables, rk: array<bv32>, r: nat, y0: bv32, y1: bv32, y2: bv32, y3: bv32, ghost m: Reading)
    returns (x0: bv32, x1: bv32, x2: bv32, x3: bv32)
    requires Faithful(m, t) && 4 * r + 3 < rk.Length
    ensures WordState(m, x0, x1, x2, x3)
         == m.l.add(m.l.unshift(m.l.unsub(WordState(m, y0, y1, y2, y3))), RowState(m, rk[..], r))
  {
    x0 := LastReverseWord(t, rk[4 * r], y0, y3, y2, y1, m);
    x1 := LastReverseWord(t, rk[4 * r + 1], y1, y0, y3, y2, m);
    x2 := LastReverseWord(t, rk[4 * r + 2], y2, y1, y0, y3, m);
    x3 := LastReverseWord(t, rk[4 * r + 3], y3, y2, y1, y0, m);
    LastReverseLayers(m, t, WordState(m, y0, y1, y2, y3), RowState(m, rk[..], r));
  }

  /** The round keys held in the first 4 * (nr + 1) words of a buffer. */
  ghost function KeysIn(m: Reading, w: seq<bv32>, nr: nat): (rk: seq<State<bv8>>)
    requires 4 * nr + 4 <= |w|
    ensures |rk| == nr + 1 && forall r: nat :: r <= nr ==> rk[r] == RowState(m, w, r)
  {
    seq(nr + 1, (r: nat) requires r <= nr => RowState(m, w, r))
  }

  /** The state after the first key is added. */
  method AddFirstKey(t: Tables, rk: array<bv32>, y0: bv32, y1: bv32, y2: bv32, y3: bv32, ghost m: Reading)
    returns (x0: bv32, x1: bv32, x2: bv32, x3: bv32)
    requires Faithful(m, t) && rk.Length >= 4
    ensures WordState(m, x0, x1, x2, x3) == m.l.add(WordState(m, y0, y1, y2, y3), RowState(m, rk[..], 0))
  {
    x0 := Xor(t, y0, rk[0], m);
    x1 := Xor(t, y1, rk[1], m);
    x2 := Xor(t, y2, rk[2], m);
    x3 := Xor(t, y3, rk[3], m);
    AddLayer(m, t, WordState(m, y0, y1, y2, y3), RowState(m, rk[..], 0));
  }

  lemma AddLayer(m: Reading, t: Tables, s: State<bv8>, k: State<bv8>)
    requires Faithful(m, t)
    ensures m.l.add(s, k) == AddRoundKey(m.g.f, s, k)
  {
    assert LayersAt(m, s, k);
  }

  lemma FirstRound<S>(l: Layers<S>, rk: seq<S>, s: S, u: S)
    requires rk != [] && u == l.add(s, rk[0])
    ensures u == Rounds(l, rk, s, 0) == EqRounds(l, rk, s, 0)
  {
  }

  lemma RoundsOn<S>(l: Layers<S>, rk: seq<S>, s: S, r: nat, u: S, w: S)
    requires r + 1 < |rk| && u == Rounds(l, rk, s, r) && w == l.add(l.mix(l.shift(l.sub(u))), rk[r + 1])
    ensures w == Rounds(l, rk, s, r + 1)
  {
  }

  lemma EqRoundsOn<S>(l: Layers<S>, dk: seq<S>, s: S, r: nat, u: S, w: S)
    requires r + 1 < |dk| && u == EqRounds(l, dk, s, r) && w == l.add(l.unmix(l.unshift(l.unsub(u))), dk[r + 1])
    ensures w == EqRounds(l, dk, s, r + 1)
  {
  }

  /** One round on from r, as the round structure counts them. */
  method NextForward(t: Tables, rk: array<bv32>, nr: nat, r: nat, x0: bv32, x1: bv32, x2: bv32, x3: bv32,
                     ghost m: Reading, ghost s: State<bv8>)
    returns (y0: bv32, y1: bv32, y2: bv32, y3: bv32)
    requires Faithful(m, t) && 4 * nr + 4 <= rk.Length && r < nr
    requires WordState(m, x0, x1, x2, x3) == Rounds(m.l, KeysIn(m, rk[..], nr), s, r)
    ensures WordState(m, y0, y1, y2, y3) == Rounds(m.l, KeysIn(m, rk[..], nr), s, r + 1)
  {
    y0, y1, y2, y3 := ForwardRound(t, rk, r + 1, x0, x1, x2, x3, m);
    RoundsOn(m.l, KeysIn(m, rk[..], nr), s, r, WordState(m, x0, x1, x2, x3), WordState(m, y0, y1, y2, y3));
  }

  method NextReverse(t: Tables, rk: array<bv32>, nr: nat, r: nat, x0: bv32, x1: bv32, x2: bv32, x3: bv32,
                     ghost m: Reading, ghost s: State<bv8>)
    returns (y0: bv32, y1: bv32, y2: bv32, y3: bv32)
    requires Faithful(m, t) && 4 * nr + 4 <= rk.Length && r < nr
    requires WordState(m, x0, x1, x2, x3) == EqRounds(m.l, KeysIn(m, rk[..], nr), s, r)
    ensures WordState(m, y0, y1, y2, y3) == EqRounds(m.l, KeysIn(m, rk[..], nr), s, r + 1)
  {
    y0, y1, y2, y3 := ReverseRound(t, rk, r + 1, x0, x1, x2, x3, m);
    EqRoundsOn(m.l, KeysIn(m, rk[..], nr), s, r, WordState(m, x0, x1, x2, x3), WordState(m, y0, y1, y2, y3));
  }

  /** The rounds before the last, in encrypt mode: pairs of rounds, then a single one. */
  method ForwardRounds(t: Tables, rk: array<bv32>, nr: nat, a0: bv32, a1: bv32, a2: bv32, a3: bv32, ghost m: Reading,
                       ghost s: State<bv8>)
    returns (x0: bv32, x1: bv32, x2: bv32, x3: bv32)
    requires Faithful(m, t) && nr % 2 == 0 && nr >= 2 && 4 * nr + 4 <= rk.Length
    requires WordState(m, a0, a1, a2, a3) == Rounds(m.l, KeysIn(m, rk[..], nr), s, 0)
    ensures WordState(m, x0, x1, x2, x3) == Rounds(m.l, KeysIn(m, rk[..], nr), s, nr - 1)
  {
    x0, x1, x2, x3 := a0, a1, a2, a3;
    var r := 0;
    for i := nr / 2 - 1 downto 0
      invariant r == nr - 2 - 2 * i
      invariant WordState(m, x0, x1, x2, x3) == Rounds(m.l, KeysIn(m, rk[..], nr), s, r)
    {
      var y0, y1, y2, y3 := NextForward(t, rk, nr, r, x0, x1, x2, x3, m, s);
      x0, x1, x2, x3 := NextForward(t, rk, nr, r + 1, y0, y1, y2, y3, m, s);
      r := r + 2;
    }
    x0, x1, x2, x3 := NextForward(t, rk, nr, r, x0, x1, x2, x3, m, s);
  }

  /** All the rounds, in encrypt mode. */
  method EncryptWords(t: Tables, rk: array<bv32>, nr: nat, a0: bv32, a1: bv32, a2: bv32, a3: bv32, ghost m: Reading)
    returns (x0: bv32, x1: bv32, x2: bv32, x3: bv32)
    requires Faithful(m, t) && nr % 2 == 0 && nr >= 2 && 4 * nr + 4 <= rk.Length
    ensures WordState(m, x0, x1, x2, x3) == Cipher(m.l, KeysIn(m, rk[..], nr), WordState(m, a0, a1, a2, a3))
  {
    ghost var s := WordState(m, a0, a1, a2, a3);
    x0, x1, x2, x3 := AddFirstKey(t, rk, a0, a1, a2, a3, m);
    FirstRound(m.l, KeysIn(m, rk[..], nr), s, WordState(m, x0, x1, x2, x3));
    var y0, y1, y2, y3 := ForwardRounds(t, rk, nr, x0, x1, x2, x3, m, s);
    x0, x1, x2, x3 := LastForward(t, rk, nr, y0, y1, y2, y3, m);
    CipherEnds(m.l, KeysIn(m, rk[..], nr), s, WordState(m, y0, y1, y2, y3), WordState(m, x0, x1, x2, x3));
  }

  lemma CipherEnds<S>(l: Layers<S>, rk: seq<S>, s: S, u: S, w: S)
    requires |rk| >= 2 && u == Rounds(l, rk, s, |rk| - 2) && w == l.add(l.shift(l.sub(u)), rk[|rk| - 1])
    ensures w == Cipher(l, rk, s)
  {
  }

  lemma EqInvCipherEnds<S>(l: Layers<S>, dk: seq<S>, s: S, u: S, w: S)
    requires |dk| >= 2 && u == EqRounds(l, dk, s, |dk| - 2) && w == l.add(l.unshift(l.unsub(u)), dk[|dk| - 1])
    ensures w == EqInvCipher(l, dk, s)
  {
  }

  /** The rounds before the last, in decrypt mode: pairs of rounds, then a single one. */
  method ReverseRounds(t: Tables, rk: array<bv32>, nr: nat, a0: bv32, a1: bv32, a2: bv32, a3: bv32, ghost m: Reading,
                       ghost s: State<bv8>)
    returns (x0: bv32, x1: bv32, x2: bv32, x3: bv32)
    requires Faithful(m, t) && nr % 2 == 0 && nr >= 2 && 4 * nr + 4 <= rk.Length
    requires WordState(m, a0, a1, a2, a3) == EqRounds(m.l, KeysIn(m, rk[..], nr), s, 0)
    ensures WordState(m, x0, x1, x2, x3) == EqRounds(m.l, KeysIn(m, rk[..], nr), s, nr - 1)
  {
    x0, x1, x2, x3 := a0, a1, a2, a3;
    var r := 0;
    for i := nr / 2 - 1 downto 0
      invariant r == nr - 2 - 2 * i
      invariant WordState(m, x0, x1, x2, x3) == EqRounds(m.l, KeysIn(m, rk[..], nr), s, r)
    {
      var y0, y1, y2, y3 := NextReverse(t, rk, nr, r, x0, x1, x2, x3, m, s);
      x0, x1, x2, x3 := NextReverse(t, rk, nr, r + 1, y0, y1, y2, y3, m, s);
      r := r + 2;
    }
    x0, x1, x2, x3 := NextReverse(t, rk, nr, r, x0, x1, x2, x3, m, s);
  }

  /** All the rounds, in decrypt mode. */
  method DecryptWords(t: Tables, rk: array<bv32>, nr: nat, a0: bv32, a1: bv32, a2: bv32, a3: bv32, ghost m: Reading)
    returns (x0: bv32, x1: bv32, x2: bv32, x3: bv32)
    requires Faithful(m, t) && nr % 2 == 0 && nr >= 2 && 4 * nr + 4 <= rk.Length
    ensures WordState(m, x0, x1, x2, x3) == EqInvCipher(m.l, KeysIn(m, rk[..], nr), WordState(m, a0, a1, a2, a3))
  {
    ghost var s := WordState(m, a0, a1, a2, a3);
    x0, x1, x2, x3 := AddFirstKey(t, rk, a0, a1, a2, a3, m);
    FirstRound(m.l, KeysIn(m, rk[..], nr), s, WordState(m, x0, x1, x2, x3));
    var y0, y1, y2, y3 := ReverseRounds(t, rk, nr, x0, x1, x2, x3, m, s);
    x0, x1, x2, x3 := LastReverse(t, rk, nr, y0, y1, y2, y3, m);
    EqInvCipherEnds(m.l, KeysIn(m, rk[..], nr), s, WordState(m, y0, y1, y2, y3), WordState(m, x0, x1, x2, x3));
  }

  // ----- the decryption schedule

  /** RT0[FSb[..]] ^ RT1[FSb[..]] ^ RT2[FSb[..]] ^ RT3[FSb[..]]: a word through InvMixColumns. */
  method UnmixWord(t: Tables, w: bv32, ghost m: Reading) returns (x: bv32)
    requires Faithful(m, t)
    ensures m.cols(x) == UnmixCol(m.g.f, m.cols(w))
  {
    var c := Cut(t, w, m);
    assert TablesAt(m, t, c.b0) && TablesAt(m, t, c.b1) && TablesAt(m, t, c.b2) && TablesAt(m, t, c.b3);
    var p, q, r, s := t.fsb[c.b0 as int], t.fsb[c.b1 as int], t.fsb[c.b2 as int], t.fsb[c.b3 as int];
    assert TablesAt(m, t, p) && TablesAt(m, t, q) && TablesAt(m, t, r) && TablesAt(m, t, s);
    assert BoxAt(m.g, c.b0) && BoxAt(m.g, c.b1) && BoxAt(m.g, c.b2) && BoxAt(m.g, c.b3);
    x := Xor(t, t.rt0[p as int], t.rt1[q as int], m);
    x := Xor(t, x, t.rt2[r as int], m);
    x := Xor(t, x, t.rt3[s as int], m);
    UnmixWithoutKey(m.g.f, c);
  }

  lemma UnmixWithoutKey(f: Field<bv8>, c: Word)
    requires Sound(f)
    ensures AddCol(f, AddCol(f, AddCol(f, ReverseCol(f, c.b0), TurnCol(ReverseCol(f, c.b1))),
              TurnCol(TurnCol(ReverseCol(f, c.b2)))), TurnCol(TurnCol(TurnCol(ReverseCol(f, c.b3)))))
         == UnmixCol(f, c)
  {
    var z := Col(f.zero, f.zero, f.zero, f.zero);
    UnmixByTables(f, z, c.b0, c.b1, c.b2, c.b3);
    AddZeroCol(f, ReverseCol(f, c.b0), z);
    AddZeroCol(f, UnmixCol(f, c), z);
  }

  lemma AddZeroCol(f: Field<bv8>, c: Word, z: Word)
    requires Sound(f) && z == Col(f.zero, f.zero, f.zero, f.zero)
    ensures AddCol(f, c, z) == c && AddCol(f, z, c) == c
  {
    AddColCommutes(f, c, z);
    assert GroupAt(f, c.b0, c.b0, c.b0) && GroupAt(f, c.b1, c.b1, c.b1);
    assert GroupAt(f, c.b2, c.b2, c.b2) && GroupAt(f, c.b3, c.b3, c.b3);
  }

  /** The first n rows of rk are those of the decryption schedule dk. */
  ghost predicate RowsTo(m: Reading, rk: seq<bv32>, dk: seq<State<bv8>>, n: nat) {
    4 * n <= |rk| && n <= |dk| && forall r: nat :: r < n ==> RowState(m, rk, r) == dk[r]
  }

  lemma RowsKept(m: Reading, rk: seq<bv32>, rk1: seq<bv32>, dk: seq<State<bv8>>, n: nat)
    requires RowsTo(m, rk, dk, n) && |rk1| == |rk| && rk1[..4 * n] == rk[..4 * n]
    ensures RowsTo(m, rk1, dk, n)
  {
    forall r: nat | r < n ensures RowState(m, rk1, r) == dk[r] {
      assert RowState(m, rk, r) == dk[r];
      var a, b := rk[..4 * n], rk1[..4 * n];
      assert a[4 * r] == b[4 * r] && a[4 * r + 1] == b[4 * r + 1];
      assert a[4 * r + 2] == b[4 * r + 2] && a[4 * r + 3] == b[4 * r + 3];
    }
  }

  /** *RK++ = *SK++, four times: row i copied to row r. */
  method CopyRow(rk: array<bv32>, sk: array<bv32>, r: nat, i: nat, ghost m: Reading, ghost dk: seq<State<bv8>>)
    requires rk != sk && 4 * r + 4 <= rk.Length && 4 * i + 4 <= sk.Length
    requires RowsTo(m, rk[..], dk, r) && r < |dk| && dk[r] == RowState(m, sk[..], i)
    modifies rk
    ensures RowsTo(m, rk[..], dk, r + 1)
  {
    ghost var before := rk[..];
    rk[4 * r] := sk[4 * i];
    rk[4 * r + 1] := sk[4 * i + 1];
    rk[4 * r + 2] := sk[4 * i + 2];
    rk[4 * r + 3] := sk[4 * i + 3];
    RowsKept(m, before, rk[..], dk, r);
  }

  /** u is row i of sk with every word unmixed. */
  ghost predicate UnmixedRow(m: Reading, sk: seq<bv32>, i: nat, u: State<bv8>)
    requires 4 * i + 4 <= |sk|
  {
    u == InvMixColumns(m.g.f, RowState(m, sk, i))
  }

  method UnmixWords(t: Tables, sk: array<bv32>, i: nat, ghost m: Reading, ghost u: State<bv8>)
    returns (x0: bv32, x1: bv32, x2: bv32, x3: bv32)
    requires Faithful(m, t) && 4 * i + 4 <= sk.Length && UnmixedRow(m, sk[..], i, u)
    ensures m.cols(x0) == u.c0 && m.cols(x1) == u.c1 && m.cols(x2) == u.c2 && m.cols(x3) == u.c3
  {
    x0 := UnmixWord(t, sk[4 * i], m);
    x1 := UnmixWord(t, sk[4 * i + 1], m);
    x2 := UnmixWord(t, sk[4 * i + 2], m);
    x3 := UnmixWord(t, sk[4 * i + 3], m);
  }

  /** Row i through InvMixColumns to row r. */
  method UnmixRowInto(t: Tables, rk: array<bv32>, sk: array<bv32>, r: nat, i: nat, ghost m: Reading,
                      ghost dk: seq<State<bv8>>)
    requires Faithful(m, t)
    requires rk != sk && 4 * r + 4 <= rk.Length && 4 * i + 4 <= sk.Length
    requires RowsTo(m, rk[..], dk, r) && r < |dk| && dk[r] == m.l.unmix(RowState(m, sk[..], i))
    modifies rk
    ensures RowsTo(m, rk[..], dk, r + 1)
  {
    ghost var before := rk[..];
    assert UnmixedRow(m, sk[..], i, dk[r]) by {
      assert LayersAt(m, RowState(m, sk[..], i), RowState(m, sk[..], i));
    }
    var x0, x1, x2, x3 := UnmixWords(t, sk, i, m, dk[r]);
    rk[4 * r] := x0;
    rk[4 * r + 1] := x1;
    rk[4 * r + 2] := x2;
    rk[4 * r + 3] := x3;
    RowsKept(m, before, rk[..], dk, r);
  }

  /** The schedule reversed, with the inner rows unmixed. */
  ghost function ReversedKeys(l: Layers<State<bv8>>, ks: seq<State<bv8>>): (dk: seq<State<bv8>>)
    requires |ks| >= 2
    ensures InverseSchedule(l, ks, dk)
  {
    seq(|ks|, (r: nat) requires r < |ks| =>
      if r == 0 || r == |ks| - 1 then ks[|ks| - 1 - r] else l.unmix(ks[|ks| - 1 - r]))
  }

  method ReverseSchedule(t: Tables, rk: array<bv32>, sk: array<bv32>, nr: nat, ghost m: Reading)
    requires Faithful(m, t) && rk != sk && nr >= 1
    requires 4 * nr + 4 <= rk.Length && 4 * nr + 4 <= sk.Length
    modifies rk
    ensures KeysIn(m, rk[..], nr) == ReversedKeys(m.l, KeysIn(m, sk[..], nr))
  {
    ghost var dk := ReversedKeys(m.l, KeysIn(m, sk[..], nr));
    CopyRow(rk, sk, 0, nr, m, dk);
    for i := nr downto 1
      invariant RowsTo(m, rk[..], dk, nr - i + 1)
    {
      UnmixRowInto(t, rk, sk, nr - i, i, m, dk);
    }
    CopyRow(rk, sk, nr, 0, m, dk);
    AllRows(m, rk[..], dk, nr);
  }

  lemma AllRows(m: Reading, w: seq<bv32>, dk: seq<State<bv8>>, nr: nat)
    requires 4 * nr + 4 <= |w| && |dk| == nr + 1 && RowsTo(m, w, dk, nr + 1)
    ensures KeysIn(m, w, nr) == dk
  {
  }

  // ----- the context

  /** Words of the expansion for a key size of 32 * nk bits. */
  ghost function KeyExpansion(g: Suite<bv8>, key: seq<bv8>, nk: nat): (ws: seq<Word>)
    requires 0 < nk && 4 * nk <= |key|
    ensures |ws| == 4 * (nk + 7)
  {
    Schedule(g, KeyWords(key, nk), 4 * (nk + 7))
  }

  /** The round keys that FIPS-197 section 5.2 prescribes for a key: nk + 6 rounds. */
  ghost function EncryptionKeys(key: seq<bv8>, nk: nat): (rk: seq<State<bv8>>)
    requires 0 < nk && 4 * nk <= |key|
    ensures |rk| == nk + 7
  {
    RoundKeys(KeyExpansion(Rijndael(), key, nk))
  }

  predicate ValidKeySize(keysize: nat) {
    keysize == 128 || keysize == 192 || keysize == 256
  }

  /** Loading the key words, then expanding them, gives the whole schedule. */
  method ExpandKey(t: Tables, rk: array<bv32>, key: seq<bv8>, nk: nat, ghost m: Reading)
    requires Faithful(m, t) && (nk == 4 || nk == 6 || nk == 8) && 4 * nk <= |key| && rk.Length == 68
    modifies rk
    ensures ExpandedTo(m, rk[..], Schedule(m.g, KeyWords(key, nk), if nk == 4 then 44 else if nk == 6 then 54 else 64),
                       4 * (nk + 7))
  {
    ghost var kc := KeyWords(key, nk);
    var n := if nk == 4 then 44 else if nk == 6 then 54 else 64;
    ghost var ws := Schedule(m.g, kc, n);
    for i := 0 to nk
      invariant ExpandedTo(m, rk[..], ws, i)
    {
      var w := Load(t, key, 4 * i, m);
      KeyWordAt(m.g, key, nk, i);
      EnterWord(rk, i, w, m, ws);
    }
    ScheduleFollows(m.g, kc, n);
    if nk == 4 {
      Expand128(t, rk, m, ws);
    } else if nk == 6 {
      Expand192(t, rk, m, ws);
    } else {
      Expand256(t, rk, m, ws);
    }
  }

  lemma KeyWordAt(g: Suite<bv8>, key: seq<bv8>, nk: nat, i: nat)
    requires i < nk && 4 * nk <= |key|
    ensures KeyWord(g, 1, KeyWords(key, nk), i) == ColAt(key, 4 * i)
  {
  }

  /** GET_UINT32_LE. */
  method Load(t: Tables, b: seq<bv8>, i: nat, ghost m: Reading) returns (w: bv32)
    requires Faithful(m, t) && i + 4 <= |b|
    ensures m.cols(w) == ColAt(b, i)
  {
    w := Pack(ColAt(b, i));
    assert PutsTogether(m, ColAt(b, i));
  }

  /** A buffer holding the expansion holds its round keys. */
  lemma KeysFromWords(m: Reading, w: seq<bv32>, ws: seq<Word>, ws0: seq<Word>, nr: nat)
    requires 4 * nr + 4 == |ws0| <= |ws| && ws0 == ws[..|ws0|] && ExpandedTo(m, w, ws, 4 * nr + 4)
    ensures KeysIn(m, w, nr) == RoundKeys(ws0)
  {
    var ks := RoundKeys(ws0);
    forall r: nat | r <= nr ensures ks[r] == RowState(m, w, r) {
      assert ks[r] == State(ws0[4 * r], ws0[4 * r + 1], ws0[4 * r + 2], ws0[4 * r + 3]);
    }
  }

  class AesContext {
    var nr: nat
    const buf: array<bv32>

    ghost predicate Valid()
      reads this
    {
      buf.Length == 68
    }

    /** A key has been set up: the round count is one of the three and the schedule fits. */
    ghost predicate Ready()
      reads this
    {
      Valid() && (nr == 10 || nr == 12 || nr == 14)
    }

    /** The round keys held. */
    ghost function Keys(): (rk: seq<State<bv8>>)
      requires Ready()
      reads this, buf
      ensures |rk| == nr + 1
    {
      KeysIn(Standard(), buf[..], nr)
    }

    constructor ()
      ensures Valid() && nr == 0 && fresh(buf)
    {
      nr := 0;
      buf := new bv32[68](_ => 0);
    }

    /** aes_setkey_enc: any size but the three is refused, with nothing changed. */
    method SetKeyEnc(t: Tables, key: seq<bv8>, keysize: nat) returns (ret: int)
      requires Good(t) && Valid() && (ValidKeySize(keysize) ==> keysize <= 8 * |key|)
      modifies this`nr, buf
      ensures ret == if ValidKeySize(keysize) then 0 else ERR_INVALID_KEY_LENGTH
      ensures ret == 0 ==> Ready() && nr == keysize / 32 + 6 && Keys() == EncryptionKeys(key, keysize / 32)
      ensures ret != 0 ==> nr == old(nr) && buf[..] == old(buf[..])
    {
      match keysize {
        case 128 => nr := 10;
        case 192 => nr := 12;
        case 256 => nr := 14;
        case _ => return ERR_INVALID_KEY_LENGTH;
      }
      ghost var m := Standard();
      StandardFaithful(t);
      ExpandKey(t, buf, key, keysize / 32, m);
      SchedulePrefix(m, buf[..], key, keysize / 32);
      ret := 0;
    }

    /** aes_setkey_dec: the schedule of the equivalent inverse. */
    method SetKeyDec(t: Tables, key: seq<bv8>, keysize: nat) returns (ret: int)
      requires Good(t) && Valid() && (ValidKeySize(keysize) ==> keysize <= 8 * |key|)
      modifies this`nr, buf
      ensures ret == if ValidKeySize(keysize) then 0 else ERR_INVALID_KEY_LENGTH
      ensures ret == 0 ==> Ready() && nr == keysize / 32 + 6
                           && InverseSchedule(Layer(), EncryptionKeys(key, keysize / 32), Keys())
      ensures ret != 0 ==> nr == old(nr) && buf[..] == old(buf[..])
    {
      var cty := new AesContext();
      ret := cty.SetKeyEnc(t, key, keysize);
      if ret != 0 {
        return;
      }
      nr := cty.nr;
      StandardFaithful(t);
      ReverseSchedule(t, buf, cty.buf, nr, Standard());
    }

    /** The block function of the context in either mode. */
    ghost function Transform(mode: Mode, b: Block): Block
      requires Ready()
      reads this, buf
    {
      if mode == Encrypt then EncryptBlock(Keys(), b) else DecryptBlock(Keys(), b)
    }

    /** e is the block cipher of the context in encrypt mode. */
    ghost predicate Computes(e: Block -> Block)
      requires Ready()
      reads this, buf
    {
      forall b: Block :: ComputesAt(e, b)
    }

    ghost predicate ComputesAt(e: Block -> Block, b: Block)
      requires Ready()
      reads this, buf
    {
      e(b) == Transform(Encrypt, b)
    }

    /** A block put together from the words that the rounds end in. */
    lemma BlockOut(mode: Mode, s: State<bv8>, b: Block)
      requires Ready()
      requires s == if mode == Encrypt then Cipher(Layer(), Keys(), ToState(b))
                    else EqInvCipher(Layer(), Keys(), ToState(b))
      ensures FromState(s) == Transform(mode, b)
    {
    }

    /** The words of a block through all the rounds of a mode. */
    method TransformWords(t: Tables, mode: Mode, y0: bv32, y1: bv32, y2: bv32, y3: bv32, ghost m: Reading,
                          ghost b: Block)
      returns (x0: bv32, x1: bv32, x2: bv32, x3: bv32)
      requires Good(t) && Ready() && m == Standard() && WordState(m, y0, y1, y2, y3) == ToState(b)
      ensures FromState(WordState(m, x0, x1, x2, x3)) == Transform(mode, b)
    {
      StandardFaithful(t);
      if mode == Decrypt {
        x0, x1, x2, x3 := DecryptWords(t, buf, nr, y0, y1, y2, y3, m);
      } else {
        x0, x1, x2, x3 := EncryptWords(t, buf, nr, y0, y1, y2, y3, m);
      }
      BlockOut(mode, WordState(m, x0, x1, x2, x3), b);
    }

    /** aes_crypt_ecb: one block at input + i to output + o, which may overlap in any way. */
    method CryptEcb(t: Tables, mode: Mode, input: array<bv8>, i: nat, output: array<bv8>, o: nat)
      requires Good(t) && Ready() && i + 16 <= input.Length && o + 16 <= output.Length
      modifies output
      ensures output[o..o + 16] == old(Transform(mode, input[i..i + 16]))
      ensures output[..o] == old(output[..o]) && output[o + 16..] == old(output[o + 16..])
    {
      ghost var m := Standard();
      StandardFaithful(t);
      ghost var b: Block := input[i..i + 16];
      ghost var r := Transform(mode, b);
      var y0, y1, y2, y3 := LoadBlock(t, input, i, m);
      var x0, x1, x2, x3 := TransformWords(t, mode, y0, y1, y2, y3, m, b);
      assert FromState(WordState(m, x0, x1, x2, x3)) == r;
      StoreBlock(t, x0, x1, x2, x3, output, o, m);
    }
  }

  method LoadBlock(t: Tables, input: array<bv8>, i: nat, ghost m: Reading)
    returns (x0: bv32, x1: bv32, x2: bv32, x3: bv32)
    requires Faithful(m, t) && i + 16 <= input.Length
    ensures WordState(m, x0, x1, x2, x3) == ToState(input[i..i + 16])
  {
    var b := input[i..i + 16];
    x0 := Load(t, b, 0, m);
    x1 := Load(t, b, 4, m);
    x2 := Load(t, b, 8, m);
    x3 := Load(t, b, 12, m);
  }

  /** PUT_UINT32_LE. */
  method StoreWord(t: Tables, w: bv32, output: array<bv8>, o: nat, ghost m: Reading)
    requires Faithful(m, t) && o + 4 <= output.Length
    modifies output
    ensures output[..] == old(output[..o]) + ColBytes(m.cols(w)) + old(output[o + 4..])
  {
    var c := Cut(t, w, m);
    output[o], output[o + 1], output[o + 2], output[o + 3] := c.b0, c.b1, c.b2, c.b3;
  }

  method StoreBlock(t: Tables, x0: bv32, x1: bv32, x2: bv32, x3: bv32, output: array<bv8>, o: nat, ghost m: Reading)
    requires Faithful(m, t) && o + 16 <= output.Length
    modifies output
    ensures output[o..o + 16] == FromState(WordState(m, x0, x1, x2, x3))
    ensures output[..o] == old(output[..o]) && output[o + 16..] == old(output[o + 16..])
  {
    ghost var c0, c1, c2, c3 := ColBytes(m.cols(x0)), ColBytes(m.cols(x1)), ColBytes(m.cols(x2)), ColBytes(m.cols(x3));
    ghost var was := output[..];
    StoreWords(t, x0, x1, output, o, m, c0, c1);
    ghost var mid := output[..];
    StoreWords(t, x2, x3, output, o + 8, m, c2, c3);
    StoredAll(was, mid, output[..], o, c0 + c1, c2 + c3);
    Sequences.Regroup(c0 + c1, c2, c3);
  }

  method StoreWords(t: Tables, v: bv32, w: bv32, output: array<bv8>, o: nat, ghost m: Reading,
                    ghost c: seq<bv8>, ghost d: seq<bv8>)
    requires Faithful(m, t) && o + 8 <= output.Length && c == ColBytes(m.cols(v)) && d == ColBytes(m.cols(w))
    modifies output
    ensures output[..] == old(output[..o]) + (c + d) + old(output[o + 8..])
  {
    ghost var was := output[..];
    StoreWord(t, v, output, o, m);
    ghost var mid := output[..];
    StoreWord(t, w, output, o + 4, m);
    StoredTwice(was, mid, output[..], o, c, d);
  }

  lemma StoredTwice<T>(was: seq<T>, mid: seq<T>, now: seq<T>, o: nat, c: seq<T>, d: seq<T>)
    requires |c| == 4 && |d| == 4 && o + 8 <= |was|
    requires mid == was[..o] + c + was[o + 4..] && now == mid[..o + 4] + d + mid[o + 8..]
    ensures now == was[..o] + (c + d) + was[o + 8..]
  {
    assert mid[..o + 4] == was[..o] + c && mid[o + 8..] == was[o + 8..];
  }

  lemma StoredAll<T>(was: seq<T>, mid: seq<T>, now: seq<T>, o: nat, c: seq<T>, d: seq<T>)
    requires |c| == 8 && |d| == 8 && o + 16 <= |was|
    requires mid == was[..o] + c + was[o + 8..] && now == mid[..o + 8] + d + mid[o + 16..]
    ensures now[o..o + 16] == c + d && now[..o] == was[..o] && now[o + 16..] == was[o + 16..]
  {
    assert mid[..o + 8] == was[..o] + c && mid[o + 16..] == was[o + 16..];
  }

  lemma SchedulePrefix(m: Reading, w: seq<bv32>, key: seq<bv8>, nk: nat)
    requires (nk == 4 || nk == 6 || nk == 8) && 4 * nk <= |key| && m == Standard()
    requires ExpandedTo(m, w, Schedule(m.g, KeyWords(key, nk), if nk == 4 then 44 else if nk == 6 then 54 else 64),
                        4 * (nk + 7))
    ensures KeysIn(m, w, nk + 6) == EncryptionKeys(key, nk)
  {
    var n := if nk == 4 then 44 else if nk == 6 then 54 else 64;
    var ws, ws0 := Schedule(m.g, KeyWords(key, nk), n), KeyExpansion(m.g, key, nk);
    assert ws0 == ws[..|ws0|];
    KeysFromWords(m, w, ws, ws0, nk + 6);
  }

  /** The context set up for decryption undoes, on every block, the context set up for
      encryption with the same key. */
  lemma SameKeyRoundTrip(key: seq<bv8>, keysize: nat, dk: seq<State<bv8>>, b: Block)
    requires ValidKeySize(keysize) && keysize <= 8 * |key|
    requires InverseSchedule(Layer(), EncryptionKeys(key, keysize / 32), dk)
    ensures DecryptBlock(dk, EncryptBlock(EncryptionKeys(key, keysize / 32), b)) == b
  {
    DecryptUndoesEncrypt(EncryptionKeys(key, keysize / 32), dk, b);
  }

  /** Both key set-ups on one key. */
  method SetBothKeys(t: Tables, enc: AesContext, dec: AesContext, key: seq<bv8>, keysize: nat)
    requires Good(t) && enc.Valid() && dec.Valid() && enc != dec && enc.buf != dec.buf
    requires ValidKeySize(keysize) && keysize <= 8 * |key|
    modifies enc`nr, enc.buf, dec`nr, dec.buf
    ensures enc.Ready() && dec.Ready() && InverseSchedule(Layer(), enc.Keys(), dec.Keys())
  {
    ghost var rk := EncryptionKeys(key, keysize / 32);
    var ret := enc.SetKeyEnc(t, key, keysize);
    assert enc.Keys() == rk;
    label Enc:
    ret := dec.SetKeyDec(t, key, keysize);
    assert unchanged@Enc(enc, enc.buf);
  }
}
