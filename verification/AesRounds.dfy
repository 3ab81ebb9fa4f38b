/**
 * The round structure of the cipher and of its two inverses (FIPS-197 sections 5.1, 5.3
 * and 5.3.5), over arbitrary state transformations that satisfy the laws below.
 */
module AesRounds {

  /** SubBytes, ShiftRows, MixColumns with their inverses, and AddRoundKey. */
  datatype Layers<!S> = Layers(
    sub: S -> S, shift: S -> S, mix: S -> S,
    unsub: S -> S, unshift: S -> S, unmix: S -> S,
    add: (S, S) -> S)

  /** Each transformation is undone by its inverse, and adding a key undoes itself. */
  ghost predicate UndoneAt<S>(l: Layers<S>, s: S, k: S) {
    && l.unsub(l.sub(s)) == s
    && l.unshift(l.shift(s)) == s
    && l.unmix(l.mix(s)) == s
    && l.add(l.add(s, k), k) == s
  }

  /** The two exchanges that the equivalent inverse rests on. */
  ghost predicate ExchangeAt<S>(l: Layers<S>, s: S, k: S) {
    && l.unshift(l.unsub(s)) == l.unsub(l.unshift(s))
    && l.unmix(l.add(s, k)) == l.add(l.unmix(s), l.unmix(k))
  }

  ghost predicate Lawful<S(!new)>(l: Layers<S>) {
    && (forall s: S, k: S :: UndoneAt(l, s, k))
    && (forall s: S, k: S :: ExchangeAt(l, s, k))
  }

  /** Rounds 1..r of the cipher, over round keys rk[0..nr]. */
  function Rounds<S>(l: Layers<S>, rk: seq<S>, s: S, r: nat): S
    requires r < |rk|
  {
    if r == 0 then l.add(s, rk[0])
    else l.add(l.mix(l.shift(l.sub(Rounds(l, rk, s, r - 1)))), rk[r])
  }

  function Cipher<S>(l: Layers<S>, rk: seq<S>, s: S): S
    requires |rk| >= 2
  {
    l.add(l.shift(l.sub(Rounds(l, rk, s, |rk| - 2))), rk[|rk| - 1])
  }

  /** The first i rounds of the straightforward inverse. */
  function InvRounds<S>(l: Layers<S>, rk: seq<S>, s: S, i: nat): S
    requires i < |rk|
  {
    if i == 0 then l.add(s, rk[|rk| - 1])
    else l.unmix(l.add(l.unsub(l.unshift(InvRounds(l, rk, s, i - 1))), rk[|rk| - 1 - i]))
  }

  function InvCipher<S>(l: Layers<S>, rk: seq<S>, s: S): S
    requires |rk| >= 2
  {
    l.add(l.unsub(l.unshift(InvRounds(l, rk, s, |rk| - 2))), rk[0])
  }

  /** The first i rounds of the equivalent inverse: the cipher's own round order, over a
      transformed schedule dk. */
  function EqRounds<S>(l: Layers<S>, dk: seq<S>, s: S, i: nat): S
    requires i < |dk|
  {
    if i == 0 then l.add(s, dk[0])
    else l.add(l.unmix(l.unshift(l.unsub(EqRounds(l, dk, s, i - 1)))), dk[i])
  }

  function EqInvCipher<S>(l: Layers<S>, dk: seq<S>, s: S): S
    requires |dk| >= 2
  {
    l.add(l.unshift(l.unsub(EqRounds(l, dk, s, |dk| - 2))), dk[|dk| - 1])
  }

  /** The decryption schedule: the round keys backwards, the inner ones unmixed. */
  ghost predicate InverseSchedule<S>(l: Layers<S>, rk: seq<S>, dk: seq<S>) {
    && |rk| == |dk| >= 2
    && dk[0] == rk[|rk| - 1]
    && dk[|rk| - 1] == rk[0]
    && forall i :: 0 < i < |rk| - 1 ==> dk[i] == l.unmix(rk[|rk| - 1 - i])
  }

  lemma {:induction false} EqRoundsAgree<S(!new)>(l: Layers<S>, rk: seq<S>, dk: seq<S>, s: S, i: nat)
    requires Lawful(l) && InverseSchedule(l, rk, dk) && i < |rk| - 1
    ensures EqRounds(l, dk, s, i) == InvRounds(l, rk, s, i)
  {
    if i > 0 {
      EqRoundsAgree(l, rk, dk, s, i - 1);
      var t := InvRounds(l, rk, s, i - 1);
      assert ExchangeAt(l, t, t);
      assert ExchangeAt(l, l.unsub(l.unshift(t)), rk[|rk| - 1 - i]);
    }
  }

  /** The equivalent inverse is the inverse cipher, on every block. */
  lemma EqInvIsInv<S(!new)>(l: Layers<S>, rk: seq<S>, dk: seq<S>, s: S)
    requires Lawful(l) && InverseSchedule(l, rk, dk)
    ensures EqInvCipher(l, dk, s) == InvCipher(l, rk, s)
  {
    EqRoundsAgree(l, rk, dk, s, |rk| - 2);
    var t := InvRounds(l, rk, s, |rk| - 2);
    assert ExchangeAt(l, t, t);
    LastAgrees(l, rk, dk, s, t);
  }

  lemma LastAgrees<S(!new)>(l: Layers<S>, rk: seq<S>, dk: seq<S>, s: S, t: S)
    requires ExchangeAt(l, t, t) && |rk| == |dk| >= 2 && dk[|rk| - 1] == rk[0]
    requires t == InvRounds(l, rk, s, |rk| - 2) == EqRounds(l, dk, s, |rk| - 2)
    ensures EqInvCipher(l, dk, s) == InvCipher(l, rk, s)
  {
    var u := l.unshift(l.unsub(t));
    assert EqInvCipher(l, dk, s) == l.add(u, rk[0]);
    assert InvCipher(l, rk, s) == l.add(u, rk[0]);
  }

  /** One inverse round against one round. */
  lemma UndoRound<S(!new)>(l: Layers<S>, u: S, k: S)
    requires Lawful(l)
    ensures var e := l.add(l.mix(u), k); l.unmix(l.add(l.unsub(l.unshift(l.shift(l.sub(e)))), k)) == u
  {
    var e := l.add(l.mix(u), k);
    assert UndoneAt(l, e, e) && UndoneAt(l, l.sub(e), e);
    assert UndoneAt(l, l.mix(u), k) && UndoneAt(l, u, u);
  }

  /** After i inverse rounds of c the state is what entered the MixColumns of round j + 1 of s. */
  ghost predicate Meet<S>(l: Layers<S>, rk: seq<S>, s: S, c: S, i: nat, j: nat)
    requires i < |rk| && j < |rk|
  {
    InvRounds(l, rk, c, i) == l.shift(l.sub(Rounds(l, rk, s, j)))
  }

  lemma FirstMeet<S(!new)>(l: Layers<S>, rk: seq<S>, s: S)
    requires Lawful(l) && |rk| >= 2
    ensures Meet(l, rk, s, Cipher(l, rk, s), 0, |rk| - 2)
  {
    assert UndoneAt(l, l.shift(l.sub(Rounds(l, rk, s, |rk| - 2))), rk[|rk| - 1]);
  }

  lemma NextMeet<S(!new)>(l: Layers<S>, rk: seq<S>, s: S, c: S, i: nat, j: nat)
    requires Lawful(l) && i + j + 3 == |rk| && Meet(l, rk, s, c, i, j + 1)
    ensures Meet(l, rk, s, c, i + 1, j)
  {
    UndoRound(l, l.shift(l.sub(Rounds(l, rk, s, j))), rk[j + 1]);
  }

  lemma {:induction false} InvRoundsMeet<S(!new)>(l: Layers<S>, rk: seq<S>, s: S, c: S, i: nat, j: nat)
    requires Lawful(l) && i + j + 2 == |rk| && Meet(l, rk, s, c, 0, |rk| - 2)
    ensures Meet(l, rk, s, c, i, j)
  {
    if i > 0 {
      InvRoundsMeet(l, rk, s, c, i - 1, j + 1);
      NextMeet(l, rk, s, c, i - 1, j);
    }
  }

  lemma LastUndone<S(!new)>(l: Layers<S>, rk: seq<S>, s: S, c: S, t: S)
    requires Lawful(l) && |rk| >= 2 && t == InvRounds(l, rk, c, |rk| - 2) == l.shift(l.sub(l.add(s, rk[0])))
    ensures InvCipher(l, rk, c) == s
  {
    var e := l.add(s, rk[0]);
    assert UndoneAt(l, e, e) && UndoneAt(l, l.sub(e), e) && UndoneAt(l, s, rk[0]);
  }

  /** The inverse cipher undoes the cipher. */
  lemma InvUndoesCipher<S(!new)>(l: Layers<S>, rk: seq<S>, s: S)
    requires Lawful(l) && |rk| >= 2
    ensures InvCipher(l, rk, Cipher(l, rk, s)) == s
  {
    var c := Cipher(l, rk, s);
    FirstMeet(l, rk, s);
    InvRoundsMeet(l, rk, s, c, |rk| - 2, 0);
    LastUndone(l, rk, s, c, InvRounds(l, rk, c, |rk| - 2));
  }
}
