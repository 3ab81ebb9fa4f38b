/**
 * The textbook cipher's state transformations and key expansion, over an arbitrary field of
 * bytes and pair of substitution boxes (FIPS-197 section 5).
 */
module AesCipher {
  import opened AesField
  import opened AesRounds

  /** The field the bytes live in, with the forward and reverse substitution boxes. */
  datatype Suite<!T> = Suite(f: Field<T>, sb: T -> T, rsb: T -> T)

  ghost predicate BoxAt<T>(g: Suite<T>, x: T) {
    g.rsb(g.sb(x)) == x
  }

  ghost predicate SoundSuite<T(!new)>(g: Suite<T>) {
    && Sound(g.f)
    && (forall x: T :: BoxAt(g, x))
  }

  /** The four columns of the state. */
  datatype State<T> = State(c0: Col<T>, c1: Col<T>, c2: Col<T>, c3: Col<T>)

  function MapCol<T>(h: T -> T, c: Col<T>): Col<T> {
    Col(h(c.b0), h(c.b1), h(c.b2), h(c.b3))
  }

  function MapState<T>(h: T -> T, s: State<T>): State<T> {
    State(MapCol(h, s.c0), MapCol(h, s.c1), MapCol(h, s.c2), MapCol(h, s.c3))
  }

  /** Row r of the state rotated left by r columns. */
  function ShiftRows<T>(s: State<T>): State<T> {
    State(Col(s.c0.b0, s.c1.b1, s.c2.b2, s.c3.b3), Col(s.c1.b0, s.c2.b1, s.c3.b2, s.c0.b3),
          Col(s.c2.b0, s.c3.b1, s.c0.b2, s.c1.b3), Col(s.c3.b0, s.c0.b1, s.c1.b2, s.c2.b3))
  }

  function InvShiftRows<T>(s: State<T>): State<T> {
    State(Col(s.c0.b0, s.c3.b1, s.c2.b2, s.c1.b3), Col(s.c1.b0, s.c0.b1, s.c3.b2, s.c2.b3),
          Col(s.c2.b0, s.c1.b1, s.c0.b2, s.c3.b3), Col(s.c3.b0, s.c2.b1, s.c1.b2, s.c0.b3))
  }

  function MixColumns<T>(f: Field<T>, s: State<T>): State<T> {
    State(MixCol(f, s.c0), MixCol(f, s.c1), MixCol(f, s.c2), MixCol(f, s.c3))
  }

  function InvMixColumns<T>(f: Field<T>, s: State<T>): State<T> {
    State(UnmixCol(f, s.c0), UnmixCol(f, s.c1), UnmixCol(f, s.c2), UnmixCol(f, s.c3))
  }

  function AddRoundKey<T>(f: Field<T>, s: State<T>, k: State<T>): State<T> {
    State(AddCol(f, s.c0, k.c0), AddCol(f, s.c1, k.c1), AddCol(f, s.c2, k.c2), AddCol(f, s.c3, k.c3))
  }

  lemma RowsBack<T>(s: State<T>)
    ensures InvShiftRows(ShiftRows(s)) == s
  {
  }

  lemma BoxesBack<T(!new)>(g: Suite<T>, s: State<T>)
    requires SoundSuite(g)
    ensures MapState(g.rsb, MapState(g.sb, s)) == s
  {
    forall c: Col<T> ensures MapCol(g.rsb, MapCol(g.sb, c)) == c {
      assert BoxAt(g, c.b0) && BoxAt(g, c.b1) && BoxAt(g, c.b2) && BoxAt(g, c.b3);
    }
  }

  lemma KeyBack<T(!new)>(f: Field<T>, s: State<T>, k: State<T>)
    requires Sound(f)
    ensures AddRoundKey(f, AddRoundKey(f, s, k), k) == s
  {
    forall c: Col<T>, d: Col<T> ensures AddCol(f, AddCol(f, c, d), d) == c {
      Cancel(f, c.b0, d.b0);
      Cancel(f, c.b1, d.b1);
      Cancel(f, c.b2, d.b2);
      Cancel(f, c.b3, d.b3);
    }
  }

  lemma MixBack<T(!new)>(f: Field<T>, s: State<T>)
    requires Sound(f)
    ensures InvMixColumns(f, MixColumns(f, s)) == s
  {
    UnmixUndoesMix(f, s.c0);
    UnmixUndoesMix(f, s.c1);
    UnmixUndoesMix(f, s.c2);
    UnmixUndoesMix(f, s.c3);
  }

  lemma MixThroughKey<T(!new)>(f: Field<T>, s: State<T>, k: State<T>)
    requires Sound(f)
    ensures InvMixColumns(f, AddRoundKey(f, s, k)) == AddRoundKey(f, InvMixColumns(f, s), InvMixColumns(f, k))
  {
    UnmixLinear(f, s.c0, k.c0);
    UnmixLinear(f, s.c1, k.c1);
    UnmixLinear(f, s.c2, k.c2);
    UnmixLinear(f, s.c3, k.c3);
  }

  /** The transformations as the layers of the round structure. */
  function LayersOf<T>(g: Suite<T>): Layers<State<T>> {
    Layers(
      (s: State<T>) => MapState(g.sb, s), (s: State<T>) => ShiftRows(s), (s: State<T>) => MixColumns(g.f, s),
      (s: State<T>) => MapState(g.rsb, s), (s: State<T>) => InvShiftRows(s), (s: State<T>) => InvMixColumns(g.f, s),
      (s: State<T>, k: State<T>) => AddRoundKey(g.f, s, k))
  }

  lemma LayersLawful<T(!new)>(g: Suite<T>)
    requires SoundSuite(g)
    ensures Lawful(LayersOf(g))
  {
    var l := LayersOf(g);
    forall s: State<T>, k: State<T> ensures UndoneAt(l, s, k) {
      BoxesBack(g, s);
      RowsBack(s);
      MixBack(g.f, s);
      KeyBack(g.f, s, k);
    }
    forall s: State<T>, k: State<T> ensures ExchangeAt(l, s, k) {
      MixThroughKey(g.f, s, k);
    }
  }

  // ----- key expansion (FIPS-197 section 5.2)

  function RotWord<T>(c: Col<T>): Col<T> {
    Col(c.b1, c.b2, c.b3, c.b0)
  }

  /** x multiplied j times by the field's generator of the round constants. */
  function PowX<T>(f: Field<T>, x: T, j: nat): T {
    if j == 0 then x else f.xt(PowX(f, x, j - 1))
  }

  function Rcon<T>(f: Field<T>, one: T, j: nat): Col<T> {
    Col(PowX(f, one, j), f.zero, f.zero, f.zero)
  }

  /** Word i of the schedule grown from the key words. */
  function KeyWord<T>(g: Suite<T>, one: T, key: seq<Col<T>>, i: nat): Col<T>
    requires |key| > 0
  {
    var nk := |key|;
    if i < nk then key[i]
    else
      var prev := KeyWord(g, one, key, i - 1);
      var temp := if i % nk == 0 then AddCol(g.f, MapCol(g.sb, RotWord(prev)), Rcon(g.f, one, i / nk - 1))
                  else if nk > 6 && i % nk == 4 then MapCol(g.sb, prev)
                  else prev;
      AddCol(g.f, KeyWord(g, one, key, i - nk), temp)
  }

  /** Round keys from the words of a schedule, four words each. */
  function RoundKeys<T>(w: seq<Col<T>>): (rk: seq<State<T>>)
    ensures |rk| == |w| / 4
  {
    seq(|w| / 4, (r: nat) requires 4 * r + 3 < |w| => State(w[4 * r], w[4 * r + 1], w[4 * r + 2], w[4 * r + 3]))
  }

  // ----- rounds by table look-up

  /** Four table columns, each already mixed, added to a round-key word. */
  lemma MixByTables<T(!new)>(f: Field<T>, k: Col<T>, a: T, b: T, c: T, d: T)
    requires Sound(f)
    ensures AddCol(f, AddCol(f, AddCol(f, AddCol(f, k,
                Col(f.xt(a), a, a, Mul3(f, a))), Col(Mul3(f, b), f.xt(b), b, b)),
                Col(c, Mul3(f, c), f.xt(c), c)), Col(d, d, Mul3(f, d), f.xt(d)))
         == AddCol(f, MixCol(f, Col(a, b, c, d)), k)
  {
    ChainRow(f, k.b0, f.xt(a), Mul3(f, b), c, d);
    ChainRow(f, k.b1, a, f.xt(b), Mul3(f, c), d);
    ChainRow(f, k.b2, a, b, f.xt(c), Mul3(f, d));
    ChainRow(f, k.b3, Mul3(f, a), b, c, f.xt(d));
    SplitRows(f, a, b, c, d);
  }

  lemma UnmixByTables<T(!new)>(f: Field<T>, k: Col<T>, a: T, b: T, c: T, d: T)
    requires Sound(f)
    ensures AddCol(f, AddCol(f, AddCol(f, AddCol(f, k,
                Col(Mul14(f, a), Mul9(f, a), Mul13(f, a), Mul11(f, a))),
                Col(Mul11(f, b), Mul14(f, b), Mul9(f, b), Mul13(f, b))),
                Col(Mul13(f, c), Mul11(f, c), Mul14(f, c), Mul9(f, c))),
                Col(Mul9(f, d), Mul13(f, d), Mul11(f, d), Mul14(f, d)))
         == AddCol(f, UnmixCol(f, Col(a, b, c, d)), k)
  {
    ChainRow(f, k.b0, Mul14(f, a), Mul11(f, b), Mul13(f, c), Mul9(f, d));
    ChainRow(f, k.b1, Mul9(f, a), Mul14(f, b), Mul11(f, c), Mul13(f, d));
    Rotate(f, Mul14(f, b), Mul11(f, c), Mul13(f, d), Mul9(f, a));
    ChainRow(f, k.b2, Mul13(f, a), Mul9(f, b), Mul14(f, c), Mul11(f, d));
    Commute(f, f.add(Mul13(f, a), Mul9(f, b)), f.add(Mul14(f, c), Mul11(f, d)));
    ChainRow(f, k.b3, Mul11(f, a), Mul13(f, b), Mul9(f, c), Mul14(f, d));
    Rotate(f, Mul11(f, a), Mul13(f, b), Mul9(f, c), Mul14(f, d));
  }

  lemma ChainRow<T(!new)>(f: Field<T>, k: T, p: T, q: T, r: T, s: T)
    requires Sound(f)
    ensures f.add(f.add(f.add(f.add(k, p), q), r), s) == f.add(f.add(f.add(p, q), f.add(r, s)), k)
  {
    assert GroupAt(f, f.add(f.add(k, p), q), r, s);
    assert GroupAt(f, k, p, q);
    assert GroupAt(f, k, f.add(p, q), f.add(r, s));
    Commute(f, k, f.add(f.add(p, q), f.add(r, s)));
  }

  lemma Rotate<T(!new)>(f: Field<T>, p: T, q: T, r: T, s: T)
    requires Sound(f)
    ensures f.add(f.add(p, q), f.add(r, s)) == f.add(f.add(s, p), f.add(q, r))
  {
    Commute(f, r, s);
    Regroup(f, p, q, s, r);
    Commute(f, p, s);
  }
}
