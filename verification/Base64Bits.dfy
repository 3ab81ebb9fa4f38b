/**
 * Base64 read bit by bit (RFC 1521 section 5.2): the alphabet as that section prints it,
 * and every character and every decoded byte by the bits it carries.
 */
module Base64Bits {
  import opened Sequences
  import opened Base64

  const CAPITALS: string := "ABCDEFGHIJKLMNOPQRSTUVWXYZ"
  const SMALLS: string := "abcdefghijklmnopqrstuvwxyz"
  const OTHERS: string := "0123456789+/"
  const ALPHABET: string := CAPITALS + SMALLS + OTHERS

  // ----- the alphabet

  /** The letter with each value. */
  lemma LetterOf(v: nat)
    requires v < 64
    ensures |ALPHABET| == 64 && EncMap(v) == ALPHABET[v] as int && DecMap(ALPHABET[v] as int) == v
  {
    CapitalLetter(if v < 26 then v else 0);
    SmallLetter(if 26 <= v < 52 then v - 26 else 0);
    OtherLetter(if v >= 52 then v - 52 else 0);
  }

  lemma CapitalLetter(i: nat)
    requires i < 26
    ensures |CAPITALS| == 26 && EncMap(i) == CAPITALS[i] as int
  {
    if i == 0 {} else if i == 1 {} else if i == 2 {} else if i == 3 {} else if i == 4 {}
    else if i == 5 {} else if i == 6 {} else if i == 7 {} else if i == 8 {} else if i == 9 {}
    else if i == 10 {} else if i == 11 {} else if i == 12 {} else if i == 13 {} else if i == 14 {}
    else if i == 15 {} else if i == 16 {} else if i == 17 {} else if i == 18 {} else if i == 19 {}
    else if i == 20 {} else if i == 21 {} else if i == 22 {} else if i == 23 {} else if i == 24 {}
    else {}
  }

  lemma SmallLetter(i: nat)
    requires i < 26
    ensures |SMALLS| == 26 && EncMap(26 + i) == SMALLS[i] as int
  {
    if i == 0 {} else if i == 1 {} else if i == 2 {} else if i == 3 {} else if i == 4 {}
    else if i == 5 {} else if i == 6 {} else if i == 7 {} else if i == 8 {} else if i == 9 {}
    else if i == 10 {} else if i == 11 {} else if i == 12 {} else if i == 13 {} else if i == 14 {}
    else if i == 15 {} else if i == 16 {} else if i == 17 {} else if i == 18 {} else if i == 19 {}
    else if i == 20 {} else if i == 21 {} else if i == 22 {} else if i == 23 {} else if i == 24 {}
    else {}
  }

  lemma OtherLetter(i: nat)
    requires i < 12
    ensures |OTHERS| == 12 && EncMap(52 + i) == OTHERS[i] as int
  {
    if i == 0 {} else if i == 1 {} else if i == 2 {} else if i == 3 {} else if i == 4 {}
    else if i == 5 {} else if i == 6 {} else if i == 7 {} else if i == 8 {} else if i == 9 {}
    else if i == 10 {} else {}
  }

  /** Nothing else is a letter. */
  lemma OnlyLetters(c: byte)
    ensures IsLetter(c) <==> exists v :: 0 <= v < 64 && ALPHABET[v] as int == c
  {
    if IsLetter(c) {
      LetterOf(DecMap(c));
      assert EncMap(DecMap(c)) == c;
    }
    forall v | 0 <= v < 64 && ALPHABET[v] as int == c ensures IsLetter(c) {
      LetterOf(v);
    }
  }

  /** The blanks and the pad. */
  lemma OtherCharacters(c: byte)
    ensures IsBlank(c) <==> c as char in {' ', '\r', '\n'}
    ensures c == EQUALS <==> c as char == '='
  {
  }

  // ----- bits

  /** The n low bits of a number, the highest first. */
  function BitsOf(v: nat, n: nat): (b: seq<nat>)
    ensures |b| == n
    decreases n, v
  {
    if n == 0 then [] else BitsOf(v / 2, n - 1) + [v % 2]
  }

  /** The bits of a string of bytes. */
  function AllBits(s: seq<byte>): (b: seq<nat>)
    ensures |b| == 8 * |s|
  {
    if s == [] then [] else BitsOf(s[0], 8) + AllBits(s[1..])
  }

  /** The bits of a text, six to a letter, and six zeros to a pad. */
  function TextBits(t: seq<byte>): (b: seq<nat>)
    ensures |b| == 6 * |t|
  {
    if t == [] then [] else BitsOf(Value(t[0]), 6) + TextBits(t[1..])
  }

  function Power(k: nat): nat { if k == 0 then 1 else 2 * Power(k - 1) }

  lemma {:induction false} BitsJoin(q: nat, r: nat, n: nat, k: nat, p: nat, v: nat)
    requires p == Power(k) && r < p && v == q * p + r
    ensures BitsOf(v, n + k) == BitsOf(q, n) + BitsOf(r, k)
  {
    if k == 0 {
      NothingAfter(BitsOf(q, n));
    } else {
      TwiceOf(q, Power(k - 1), q * Power(k - 1));
      HalfOf(q * Power(k - 1), r);
      BitsJoin(q, r / 2, n, k - 1, Power(k - 1), v / 2);
      Regroup(BitsOf(q, n), BitsOf(r / 2, k - 1), [r % 2]);
    }
  }

  lemma TwiceOf(q: nat, p: nat, h: nat)
    requires h == q * p
    ensures q * (2 * p) == 2 * h
  {
  }

  lemma HalfOf(h: nat, r: nat)
    ensures (2 * h + r) / 2 == h + r / 2 && (2 * h + r) % 2 == r % 2
  {
  }

  lemma Powers()
    ensures Power(2) == 4 && Power(4) == 16 && Power(6) == 64
  {
    assert Power(1) == 2;
    assert Power(3) == 8;
    assert Power(5) == 32;
  }

  /** Three bytes and four six-bit values cut from the same 24 bits. */
  ghost predicate SameTwentyFour(a: nat, b: nat, c: nat, v0: nat, v1: nat, v2: nat, v3: nat) {
    && v0 < 64 && v1 < 64 && v2 < 64 && v3 < 64
    && a == v0 * 4 + v1 / 16 && b == v1 % 16 * 16 + v2 / 4 && c == v2 % 4 * 64 + v3
  }

  /** The two cuts of them spell the same bits. */
  lemma TwentyFour(a: nat, b: nat, c: nat, v0: nat, v1: nat, v2: nat, v3: nat,
                   two: nat, four: nat, six: nat, eight: nat)
    requires SameTwentyFour(a, b, c, v0, v1, v2, v3)
    requires Power(two) == 4 && Power(four) == 16 && Power(six) == 64
    requires four == two + two && six == four + two && eight == four + four
    ensures BitsOf(a, eight) + BitsOf(b, eight) + BitsOf(c, eight)
         == BitsOf(v0, six) + BitsOf(v1, six) + BitsOf(v2, six) + BitsOf(v3, six)
  {
    var p, q, r, o := v1 / 16, v1 % 16, v2 / 4, v2 % 4;
    Cut(a, v0, p, six, two, eight, 4);
    Cut(v1, p, q, two, four, six, 16);
    Cut(b, q, r, four, four, eight, 16);
    Cut(v2, r, o, four, two, six, 4);
    Cut(c, o, v3, two, six, eight, 64);
    Recut(BitsOf(a, eight), BitsOf(b, eight), BitsOf(c, eight), BitsOf(v1, six), BitsOf(v2, six),
          BitsOf(v0, six), BitsOf(p, two), BitsOf(q, four), BitsOf(r, four), BitsOf(o, two), BitsOf(v3, six));
  }

  lemma Cut(b: nat, q: nat, r: nat, n: nat, k: nat, w: nat, p: nat)
    requires w == n + k && p == Power(k) && r < p && b == q * p + r
    ensures BitsOf(b, w) == BitsOf(q, n) + BitsOf(r, k)
  {
    BitsJoin(q, r, n, k, p, b);
  }

  lemma Recut<T>(a: seq<T>, b: seq<T>, c: seq<T>, x: seq<T>, y: seq<T>,
                 u: seq<T>, p: seq<T>, q: seq<T>, r: seq<T>, o: seq<T>, w: seq<T>)
    requires a == u + p && b == q + r && c == o + w && x == p + q && y == r + o
    ensures a + b + c == u + x + y + w
  {
  }

  lemma {:induction false} TextJoins(x: seq<byte>, y: seq<byte>)
    ensures TextBits(x + y) == TextBits(x) + TextBits(y)
  {
    if x == [] {
      assert x + y == y;
    } else {
      TextJoins(x[1..], y);
      SlicesOfFirst(x, y, 1);
      Regroup(BitsOf(Value(x[0]), 6), TextBits(x[1..]), TextBits(y));
    }
  }

  lemma OneLetter(c: byte)
    ensures TextBits([c]) == BitsOf(Value(c), 6)
  {
    assert [c][1..] == [];
    NothingAfter(BitsOf(Value(c), 6));
  }

  lemma FourLetters(a: byte, b: byte, c: byte, d: byte)
    ensures TextBits([a, b, c, d])
         == BitsOf(Value(a), 6) + BitsOf(Value(b), 6) + BitsOf(Value(c), 6) + BitsOf(Value(d), 6)
  {
    ThreeLetters(a, b, c);
    TextJoins([a, b, c], [d]);
    OneLetter(d);
    assert [a, b, c] + [d] == [a, b, c, d];
  }

  lemma ThreeLetters(a: byte, b: byte, c: byte)
    ensures TextBits([a, b, c]) == BitsOf(Value(a), 6) + BitsOf(Value(b), 6) + BitsOf(Value(c), 6)
  {
    TwoLetters(a, b);
    TextJoins([a, b], [c]);
    OneLetter(c);
    assert [a, b] + [c] == [a, b, c];
  }

  lemma TwoLetters(a: byte, b: byte)
    ensures TextBits([a, b]) == BitsOf(Value(a), 6) + BitsOf(Value(b), 6)
  {
    TextJoins([a], [b]);
    OneLetter(a);
    OneLetter(b);
    assert [a] + [b] == [a, b];
  }

  lemma TwentyFourBits(a: byte, b: byte, c: byte, v0: nat, v1: nat, v2: nat, v3: nat)
    requires SameTwentyFour(a, b, c, v0, v1, v2, v3)
    ensures BitsOf(a, 8) + BitsOf(b, 8) + BitsOf(c, 8)
         == BitsOf(v0, 6) + BitsOf(v1, 6) + BitsOf(v2, 6) + BitsOf(v3, 6)
  {
    Powers();
    TwentyFour(a, b, c, v0, v1, v2, v3, 2, 4, 6, 8);
  }

  // ----- encoding

  lemma CutOf(a: byte, b: byte, c: byte)
    ensures SameTwentyFour(a, b, c, a / 4, a % 4 * 16 + b / 16, b % 16 * 4 + c / 64, c % 64)
  {
  }

  /** Four characters with the values of three bytes carry their bits. */
  lemma Spelled(a: byte, b: byte, c: byte, k0: byte, k1: byte, k2: byte, k3: byte)
    requires Value(k0) == a / 4 && Value(k1) == a % 4 * 16 + b / 16
    requires Value(k2) == b % 16 * 4 + c / 64 && Value(k3) == c % 64
    ensures TextBits([k0, k1, k2, k3]) == BitsOf(a, 8) + BitsOf(b, 8) + BitsOf(c, 8)
  {
    CutOf(a, b, c);
    FourLetters(k0, k1, k2, k3);
    TwentyFourBits(a, b, c, a / 4, a % 4 * 16 + b / 16, b % 16 * 4 + c / 64, c % 64);
  }

  lemma ThreeSpelled(a: byte, b: byte, c: byte)
    ensures TextBits(EncodeThree(a, b, c)) == BitsOf(a, 8) + BitsOf(b, 8) + BitsOf(c, 8)
  {
    MapsInverse(a / 4);
    MapsInverse(a % 4 * 16 + b / 16);
    MapsInverse(b % 16 * 4 + c / 64);
    MapsInverse(c % 64);
    var t := EncodeThree(a, b, c);
    Spelled(a, b, c, t[0], t[1], t[2], t[3]);
  }

  lemma TailSpelled(s: seq<byte>)
    requires 0 < |s| < 3
    ensures TextBits(EncodeTail(s)) == BitsOf(s[0], 8) + BitsOf(if |s| == 2 then s[1] else 0, 8) + BitsOf(0, 8)
  {
    var a, b := s[0], if |s| == 2 then s[1] else 0;
    MapsInverse(a / 4);
    MapsInverse(a % 4 * 16 + b / 16);
    MapsInverse(b % 16 * 4);
    var t := EncodeTail(s);
    Spelled(a, b, 0, t[0], t[1], t[2], t[3]);
  }

  function Zeros(n: nat): (z: seq<nat>)
    ensures |z| == n && forall i :: 0 <= i < n ==> z[i] == 0
  {
    seq(n, _ => 0)
  }

  lemma {:induction false} ZeroBits(n: nat)
    ensures BitsOf(0, n) == Zeros(n)
  {
    if n > 0 { ZeroBits(n - 1); }
  }

  lemma OneByte(a: byte)
    ensures AllBits([a]) == BitsOf(a, 8)
  {
    assert [a][1..] == [];
    NothingAfter(BitsOf(a, 8));
  }

  lemma TwoBytes(a: byte, b: byte)
    ensures AllBits([a, b]) == BitsOf(a, 8) + BitsOf(b, 8)
  {
    assert [a, b][1..] == [b];
    OneByte(b);
  }

  lemma {:induction false} BytesJoin(x: seq<byte>, y: seq<byte>)
    ensures AllBits(x + y) == AllBits(x) + AllBits(y)
  {
    if x == [] {
      assert x + y == y;
    } else {
      BytesJoin(x[1..], y);
      SlicesOfFirst(x, y, 1);
      Regroup(BitsOf(x[0], 8), AllBits(x[1..]), AllBits(y));
    }
  }

  lemma ThreeBytes(a: byte, b: byte, c: byte)
    ensures AllBits([a, b, c]) == BitsOf(a, 8) + BitsOf(b, 8) + BitsOf(c, 8)
  {
    TwoBytes(a, b);
    OneByte(c);
    BytesJoin([a, b], [c]);
    assert [a, b] + [c] == [a, b, c];
  }

  lemma TailOfOne(s: seq<byte>, a: byte, n: nat)
    requires s == [a] && n == 16
    ensures TextBits(EncodeTail(s)) == AllBits(s) + Zeros(n)
  {
    TailSpelled(s);
    ZeroBits(8);
    OneByte(a);
    Regroup(AllBits([a]), Zeros(8), Zeros(8));
    ZerosJoin(8, 8);
  }

  lemma TailOfTwo(s: seq<byte>, a: byte, b: byte, n: nat)
    requires s == [a, b] && n == 8
    ensures TextBits(EncodeTail(s)) == AllBits(s) + Zeros(n)
  {
    TailSpelled(s);
    ZeroBits(8);
    TwoBytes(a, b);
  }

  lemma TailBits(s: seq<byte>, n: nat)
    requires 0 < |s| < 3 && n == 8 * Pads(|s|)
    ensures TextBits(EncodeTail(s)) == AllBits(s) + Zeros(n)
  {
    PadsOfTail(|s|);
    if |s| == 1 {
      TailOfOne(s, s[0], n);
    } else {
      TailOfTwo(s, s[0], s[1], n);
    }
  }

  lemma PadsOfTail(n: nat)
    requires 0 < n < 3
    ensures Pads(n) == 3 - n
  {
  }

  lemma ZerosJoin(m: nat, n: nat)
    ensures Zeros(m) + Zeros(n) == Zeros(m + n)
  {
  }

  /** The bits of an encoding, pads counting as zeros, are those of what was encoded, with
      eight zeros for each byte that is missing to a group of three. */
  lemma {:induction false} EncodedBits(s: seq<byte>)
    ensures TextBits(Encoded(s)) == AllBits(s) + Zeros(8 * Pads(|s|))
  {
    if s == [] {
    } else if |s| < 3 {
      TailBits(s, 8 * Pads(|s|));
    } else {
      EncodedBits(s[3..]);
      ThreeSpelled(s[0], s[1], s[2]);
      FirstThree(s);
      TextJoins(EncodeThree(s[0], s[1], s[2]), Encoded(s[3..]));
      SamePads(|s|);
      Regroup(BitsOf(s[0], 8) + BitsOf(s[1], 8) + BitsOf(s[2], 8), AllBits(s[3..]), Zeros(8 * Pads(|s|)));
    }
  }

  lemma SamePads(n: nat)
    requires n >= 3
    ensures Pads(n - 3) == Pads(n)
  {
  }

  lemma ThreeOn<T>(s: seq<T>)
    requires |s| >= 3
    ensures s == [s[0], s[1], s[2]] + s[3..]
  {
  }

  lemma FirstThree(s: seq<byte>)
    requires |s| >= 3
    ensures AllBits(s) == BitsOf(s[0], 8) + BitsOf(s[1], 8) + BitsOf(s[2], 8) + AllBits(s[3..])
  {
    ThreeOn(s);
    BytesJoin([s[0], s[1], s[2]], s[3..]);
    ThreeBytes(s[0], s[1], s[2]);
  }

  // ----- decoding

  lemma CutBack(x: int, v0: nat, v1: nat, v2: nat, v3: nat)
    requires v0 < 64 && v1 < 64 && v2 < 64 && v3 < 64 && x == v0 * 262144 + v1 * 4096 + v2 * 64 + v3
    ensures SameTwentyFour(x / 65536 % 256, x / 256 % 256, x % 256, v0, v1, v2, v3)
  {
    var p, q, r, o := v1 / 16, v1 % 16, v2 / 4, v2 % 4;
    Base64.Bytes(x, 4 * v0 + p, 16 * q + r, 64 * o + v3);
  }

  lemma Firsts<T>(x: seq<T>, y: seq<T>, z: seq<T>)
    ensures x <= x + y + z && x + y <= x + y + z
  {
  }

  lemma ThreeDecoded(a: byte, b: byte, c: byte, d: byte, u: byte, v: byte, w: byte)
    requires SameTwentyFour(u, v, w, Value(a), Value(b), Value(c), Value(d))
    ensures var t := TextBits([a, b, c, d]);
            AllBits([u]) <= t && AllBits([u, v]) <= t && AllBits([u, v, w]) == t
  {
    TwentyFourBits(u, v, w, Value(a), Value(b), Value(c), Value(d));
    FourLetters(a, b, c, d);
    ThreeBytes(u, v, w);
    TwoBytes(u, v);
    OneByte(u);
    Firsts(BitsOf(u, 8), BitsOf(v, 8), BitsOf(w, 8));
  }

  /** The bytes that four characters spell, and which of them are decoded. */
  lemma BytesOfFour(a: byte, b: byte, c: byte, d: byte) returns (u: byte, v: byte, w: byte)
    ensures SameTwentyFour(u, v, w, Value(a), Value(b), Value(c), Value(d))
    ensures DecodeFour(a, b, c, d) == if d != EQUALS then [u, v, w] else if c == EQUALS then [u] else [u, v]
  {
    var x := Value(a) * 262144 + Value(b) * 4096 + Value(c) * 64 + Value(d);
    u, v, w := x / 65536 % 256, x / 256 % 256, x % 256;
    CutBack(x, Value(a), Value(b), Value(c), Value(d));
    FourIs(a, b, c, d, x, u, v, w);
  }

  lemma FourIs(a: byte, b: byte, c: byte, d: byte, x: nat, u: byte, v: byte, w: byte)
    requires x == Value(a) * 262144 + Value(b) * 4096 + Value(c) * 64 + Value(d)
    requires u == x / 65536 % 256 && v == x / 256 % 256 && w == x % 256
    ensures DecodeFour(a, b, c, d) == if d != EQUALS then [u, v, w] else if c == EQUALS then [u] else [u, v]
  {
    assert [u, v, w][..1] == [u] && [u, v, w][..2] == [u, v];
  }

  /** Four characters decode to the first bytes of the 24 bits they carry. */
  lemma FourDecoded(a: byte, b: byte, c: byte, d: byte)
    ensures AllBits(DecodeFour(a, b, c, d)) <= TextBits([a, b, c, d])
    ensures d != EQUALS ==> AllBits(DecodeFour(a, b, c, d)) == TextBits([a, b, c, d])
  {
    var u, v, w := BytesOfFour(a, b, c, d);
    ThreeDecoded(a, b, c, d, u, v, w);
  }

  lemma PrefixOfSum<T>(x: seq<T>, y: seq<T>, z: seq<T>)
    requires y <= z
    ensures x + y <= x + z
  {
  }

  lemma FourOn<T>(t: seq<T>)
    requires |t| >= 4
    ensures t == [t[0], t[1], t[2], t[3]] + t[4..]
  {
  }

  lemma TextStep(t: seq<byte>)
    requires |t| >= 4
    ensures TextBits(t) == TextBits([t[0], t[1], t[2], t[3]]) + TextBits(t[4..])
  {
    FourOn(t);
    TextJoins([t[0], t[1], t[2], t[3]], t[4..]);
  }

  /** Every bit of what a padded text decodes to is the bit of the text in the same place. */
  lemma {:induction false} DecodedBits(t: seq<byte>, p: nat)
    requires p <= 2 && p <= |t| && PaddedBy(t, p)
    ensures AllBits(Decoded(t)) <= TextBits(t)
  {
    if |t| >= 4 {
      var more := t[4..];
      var u, w := AllBits(DecodeFour(t[0], t[1], t[2], t[3])), TextBits([t[0], t[1], t[2], t[3]]);
      FourDecoded(t[0], t[1], t[2], t[3]);
      TextStep(t);
      BytesJoin(DecodeFour(t[0], t[1], t[2], t[3]), Decoded(more));
      if |t| - p >= 4 {
        DecodedBits(more, p);
        PrefixOfSum(u, AllBits(Decoded(more)), TextBits(more));
      } else {
        NothingAfter(u);
        Begins(w, TextBits(more));
      }
    }
  }

  // ----- known texts

  /** "Man" is "TWFu", and three zero bytes are "AAAA". */
  lemma KnownTexts()
    ensures Encoded([77, 97, 110]) == [84, 87, 70, 117]
    ensures Encoded([0, 0, 0]) == [65, 65, 65, 65]
    ensures Decoded([84, 87, 70, 117]) == [77, 97, 110]
  {
    KnownThree(77, 97, 110);
    KnownThree(0, 0, 0);
    KnownBack([77, 97, 110], [84, 87, 70, 117]);
  }

  /** Line ends and spaces at their ends are passed over: "TW", a space, CRLF, "Fu". */
  lemma KnownAccepted()
    ensures Acceptable([84, 87, 32, 13, 10, 70, 117])
    ensures Significant([84, 87, 32, 13, 10, 70, 117]) == [84, 87, 70, 117]
  {
    KnownSignificant();
    var s: seq<byte> := [84, 87, 32, 13, 10, 70, 117];
    assert PaddedBy([84, 87, 70, 117], 0);
    assert WellSpaced(s);
  }

  lemma KnownSignificant()
    ensures Significant([84, 87, 32, 13, 10, 70, 117]) == [84, 87, 70, 117]
  {
    NothingBlank([84, 87]);
    OneMoreOf([84, 87], 32, [84, 87, 32]);
    OneMoreOf([84, 87, 32], 13, [84, 87, 32, 13]);
    OneMoreOf([84, 87, 32, 13], 10, [84, 87, 32, 13, 10]);
    OneMoreOf([84, 87, 32, 13, 10], 70, [84, 87, 32, 13, 10, 70]);
    OneMoreOf([84, 87, 32, 13, 10, 70], 117, [84, 87, 32, 13, 10, 70, 117]);
  }

  /** One more character. */
  lemma OneMoreOf(s: seq<byte>, c: byte, t: seq<byte>)
    requires t == s + [c]
    ensures Significant(t) == if IsBlank(c) then Significant(s) else Significant(s) + [c]
  {
    assert t[..|t| - 1] == s;
  }

  /** A space or a lone CR inside a line, and a letter after a pad, are refused. */
  lemma KnownRefused()
    ensures !Acceptable([84, 87, 32, 70, 117]) && !Acceptable([84, 87, 13, 70, 117]) && !Acceptable([84, 61, 70, 117])
  {
    var a: seq<byte> := [84, 87, 32, 70, 117];
    assert a[2] == SPACE && a[3] == 70;
    assert !WellSpaced(a);
    var b: seq<byte> := [84, 87, 13, 70, 117];
    assert b[2] == CR && b[3] == 70;
    assert !WellSpaced(b);
    var c: seq<byte> := [84, 61, 70, 117];
    NotPadded(c);
    NothingBlank(c);
    assert !Acceptable(a) && !Acceptable(b) && !Acceptable(c);
  }

  lemma NotPadded(t: seq<byte>)
    requires t == [84, 61, 70, 117]
    ensures !WellPadded(t)
  {
    forall p: nat | p <= 2 ensures !PaddedBy(t, p) {
      if p == 0 { assert !IsLetter(t[1]); } else { assert t[3] != EQUALS; }
    }
  }

  lemma KnownBack(s: seq<byte>, t: seq<byte>)
    requires Encoded(s) == t
    ensures Decoded(t) == s
  {
    DecodesBack(s);
  }

  lemma KnownThree(a: byte, b: byte, c: byte)
    ensures Encoded([a, b, c]) == EncodeThree(a, b, c)
  {
    assert [a, b, c][3..] == [];
    NothingAfter(EncodeThree(a, b, c));
  }
}
