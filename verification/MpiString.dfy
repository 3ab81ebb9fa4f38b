/** Conversion of numbers to and from text, bignum.c. */
module MpiString {
  import opened Limbs
  import opened MpiCore
  import opened MpiAddSub
  import opened MpiMul
  import opened MpiShift
  import opened MpiDivision
  import opened MpiModInt
  import opened MpiExpMod

  // ----- digits

  const UPPER: string := "0123456789ABCDEF"

  function DigitChar(d: int): (c: char)
    requires 0 <= d < 16
  {
    UPPER[d]
  }

  /** mpi_get_digit before its range test; 255 for anything that is no hexadecimal digit. */
  function DigitVal(c: char): (d: int)
    ensures 0 <= d <= 255
  {
    if '0' <= c <= '9' then c as int - 0x30
    else if 'A' <= c <= 'F' then c as int - 0x37
    else if 'a' <= c <= 'f' then c as int - 0x57
    else 255
  }

  lemma DigitRoundTrip(d: int)
    requires 0 <= d < 16
    ensures DigitVal(DigitChar(d)) == d && DigitChar(d) != '-'
  {
  }

  /** A character has value d exactly if it stands at place d, in either case. */
  lemma DigitValExact(c: char, d: int)
    requires 0 <= d < 16
    ensures DigitVal(c) == d <==> c == "0123456789ABCDEF"[d] || c == "0123456789abcdef"[d]
  {
    if d == 0 {} else if d == 1 {} else if d == 2 {} else if d == 3 {} else if d == 4 {} else if d == 5 {}
    else if d == 6 {} else if d == 7 {} else if d == 8 {} else if d == 9 {} else if d == 10 {} else if d == 11 {}
    else if d == 12 {} else if d == 13 {} else if d == 14 {} else {}
  }

  /** Every character is a digit of the radix. */
  ghost predicate Numeral(s: string, radix: int) {
    forall k :: 0 <= k < |s| ==> DigitVal(s[k]) < radix
  }

  /** The number a digit string stands for. */
  ghost function Horner(s: string, radix: int): (v: int)
    requires radix >= 0
    ensures v >= 0
    decreases |s|
  {
    if s == [] then 0
    else PosMul0(radix, Horner(s[..|s| - 1], radix)); radix * Horner(s[..|s| - 1], radix) + DigitVal(s[|s| - 1])
  }

  /** The digits of a number, most significant first, without leading zeros. */
  ghost function Digits(v: nat, radix: int): (s: string)
    requires 2 <= radix <= 16
    decreases v
  {
    if v < radix then [DigitChar(v)]
    else
      QuotSmaller(v, radix);
      Digits(Quot(v, radix), radix) + [DigitChar(Rem(v, radix))]
  }

  lemma QuotSmaller(v: int, radix: int)
    requires radix >= 2 && v >= radix
    ensures 0 < Quot(v, radix) < v
  {
    var q := Quot(v, radix);
    if q <= 0 { MulLe(radix, q, 0); }
    MulLe(q, 2, radix);
    Comm(q, radix);
  }

  lemma {:induction false} DigitsRoundTrip(v: nat, radix: int)
    requires 2 <= radix <= 16
    ensures Reads(Digits(v, radix), radix, v)
    decreases v
  {
    if v < radix {
      DigitRoundTrip(v);
      assert [DigitChar(v)][..0] == [];
      assert radix * 0 == 0;
    } else {
      QuotSmaller(v, radix);
      var hi, d := Digits(Quot(v, radix), radix), Rem(v, radix);
      DigitsRoundTrip(Quot(v, radix), radix);
      DigitRoundTrip(d);
      assert (hi + [DigitChar(d)])[..|hi|] == hi;
    }
  }

  /** The hexadecimal writer emits whole bytes: two digits each, high digit first. */
  function BytePair(c: int): (s: string)
    requires 0 <= c < 256
    ensures |s| == 2
  {
    [DigitChar(c / 16), DigitChar(c % 16)]
  }

  ghost function HexPairs(v: nat): (s: string) {
    if v < 256 then BytePair(v) else HexPairs(v / 256) + BytePair(v % 256)
  }

  /** A digit string with a value, and no sign in front. */
  ghost predicate Reads(s: string, radix: int, v: int)
    requires radix >= 0
  {
    Numeral(s, radix) && Horner(s, radix) == v && s != [] && s[0] != '-'
  }

  lemma {:induction false} HexPairsRoundTrip(v: nat)
    ensures Reads(HexPairs(v), 16, v)
  {
    if v < 256 {
      AppendPair([], v);
      assert [] + BytePair(v) == BytePair(v);
    } else {
      HexPairsRoundTrip(v / 256);
      ReadsPair(HexPairs(v / 256), v / 256, v % 256);
    }
  }

  lemma ReadsPair(s: string, v: int, c: int)
    requires 0 <= c < 256 && Reads(s, 16, v)
    ensures Reads(s + BytePair(c), 16, 256 * v + c)
  {
    AppendPair(s, c);
  }

  lemma AppendPair(s: string, c: int)
    requires 0 <= c < 256 && Numeral(s, 16)
    ensures Horner(s + BytePair(c), 16) == 256 * Horner(s, 16) + c
    ensures Numeral(s + BytePair(c), 16) && (s == [] ==> (s + BytePair(c))[0] != '-')
  {
    DigitRoundTrip(c / 16);
    DigitRoundTrip(c % 16);
    var t := s + BytePair(c);
    assert t[..|t| - 1] == s + [DigitChar(c / 16)];
    assert (s + [DigitChar(c / 16)])[..|s|] == s;
  }

  // ----- how many characters

  lemma {:induction false} DigitsLength(v: nat, radix: int)
    requires 2 <= radix <= 16
    ensures |Digits(v, radix)| <= Max(1, BitLen(v))
    ensures radix >= 4 ==> |Digits(v, radix)| <= BitLen(v) / 2 + 1
    decreases v
  {
    if v >= radix {
      QuotSmaller(v, radix);
      DigitsLength(Quot(v, radix), radix);
      BitLenQuot(v, radix);
    }
  }

  /** Dividing by at least 2 drops a bit; dividing by at least 4 drops two. */
  lemma BitLenQuot(v: nat, radix: int)
    requires 2 <= radix <= v
    ensures Quot(v, radix) > 0 && BitLen(Quot(v, radix)) + 1 <= BitLen(v)
    ensures radix >= 4 ==> BitLen(Quot(v, radix)) + 2 <= BitLen(v)
  {
    QuotSmaller(v, radix);
    var q := Quot(v, radix);
    BitLenBounds(q);
    BitLenBounds(v);
    Comm(radix, q);
    MulLe(q, 2, radix);
    var half := Pow2(BitLen(q) - 1);
    assert Pow2(BitLen(q)) == 2 * half && Pow2(BitLen(q) + 1) == 4 * half;
    if BitLen(v) <= BitLen(q) { Pow2Mono(BitLen(v), BitLen(q)); }
    if radix >= 4 {
      MulLe(q, 4, radix);
      if BitLen(v) == BitLen(q) + 1 { assert false; }
    }
  }

  lemma {:induction false} HexPairsLength(v: nat)
    ensures |HexPairs(v)| == 2 * Max(1, (BitLen(v) + 7) / 8)
  {
    if v >= 256 {
      HexPairsLength(v / 256);
      BitLenByte(v);
      BitLenBounds(v / 256);
      PairCount(BitLen(v / 256));
    } else {
      SmallBitLen(v);
    }
  }

  lemma SmallBitLen(v: nat)
    requires v < 256
    ensures BitLen(v) <= 8 && Max(1, (BitLen(v) + 7) / 8) == 1
  {
    assert Pow2(8) == 256;
    if v > 0 { BitLenBounds(v); }
    if BitLen(v) > 8 { Pow2Mono(8, BitLen(v) - 1); }
  }

  lemma PairCount(m: nat)
    requires m > 0
    ensures 2 * Max(1, (m + 8 + 7) / 8) == 2 * Max(1, (m + 7) / 8) + 2
  {
  }

  lemma BitLenByte(v: nat)
    requires v >= 256
    ensures BitLen(v) == BitLen(v / 256) + 8
  {
    assert v / 2 / 2 == v / 4;
    assert v / 4 / 2 == v / 8;
    assert v / 8 / 2 == v / 16;
    assert v / 16 / 2 == v / 32;
    assert v / 32 / 2 == v / 64;
    assert v / 64 / 2 == v / 128;
    assert v / 128 / 2 == v / 256;
    BitLenHalf(v);
    BitLenHalf(v / 2);
    BitLenHalf(v / 4);
    BitLenHalf(v / 8);
    BitLenHalf(v / 16);
    BitLenHalf(v / 32);
    BitLenHalf(v / 64);
    BitLenHalf(v / 128);
  }

  lemma BitLenHalf(v: nat)
    requires v > 0
    ensures BitLen(v) == 1 + BitLen(v / 2)
  {
  }

  /** The text of a number: sign, body, terminator. */
  ghost function Text(s: Sign, v: nat, radix: int): (t: string)
    requires 2 <= radix <= 16
  {
    (if s == -1 then "-" else "") + (if radix == 16 then HexPairs(v) else Digits(v, radix)) + ['\0']
  }

  /** Only zero's text begins with a zero. */
  lemma {:induction false} NoLeadingZero(v: nat, radix: int)
    requires 2 <= radix <= 16 && v > 0
    ensures Digits(v, radix) != [] && Digits(v, radix)[0] != '0'
    decreases v
  {
    if v < radix {
      DigitValExact(DigitChar(v), 0);
      DigitRoundTrip(v);
    } else {
      QuotSmaller(v, radix);
      NoLeadingZero(Quot(v, radix), radix);
    }
  }

  /** 10 in radix 10, and 171 and 0 in radix 16. */
  lemma KnownTexts()
    ensures Text(-1, 10, 10) == "-10" + ['\0'] && Text(1, 171, 16) == "AB" + ['\0'] && Text(1, 0, 16) == "00" + ['\0']
  {
    KnownDigits();
    assert HexPairs(171) == BytePair(171) == "AB";
    assert HexPairs(0) == BytePair(0) == "00";
  }

  lemma KnownDigits()
    ensures Digits(10, 10) == "10"
  {
    QuotUnique(10, 10, 1, 0);
    assert Digits(1, 10) == "1";
  }

  /** The size the writer asks for. */
  function NeededSize(bits: nat, radix: int): nat {
    var n := if radix >= 4 then bits / 2 else bits;
    (if radix >= 16 then n / 2 else n) + 3
  }

  /**
   * The size test covers the text, except for a negative number in radix 16 whose bit
   * length is 0, 1, 2 or 3 modulo 8 with at least one bit, or 0 itself: then it is one short.
   */
  lemma SizeExact(s: Sign, v: nat, radix: int)
    requires 2 <= radix <= 16
    ensures |Text(s, v, radix)| <= NeededSize(BitLen(v), radix) + 1
    ensures |Text(s, v, radix)| <= NeededSize(BitLen(v), radix) <==>
      s == 1 || radix != 16 || (v != 0 && BitLen(v) % 8 !in {1, 2, 3})
  {
    var m := BitLen(v);
    if v > 0 { BitLenBounds(v); }
    if radix == 16 {
      HexPairsLength(v);
      HexSize(m);
    } else {
      DigitsLength(v, radix);
    }
  }

  lemma HexSize(m: nat)
    ensures NeededSize(m, 16) == m / 4 + 3
    ensures m > 0 ==> var len := 2 * ((m + 7) / 8);
      len + 1 <= m / 4 + 3 && (len + 2 <= m / 4 + 3 <==> m % 8 !in {1, 2, 3}) && len + 2 <= m / 4 + 4
  {
    assert m / 2 / 2 == m / 4;
    var q, r := m / 8, m % 8;
    assert m == 8 * q + r;
    if r == 0 { assert (m + 7) / 8 == q; } else { assert (m + 7) / 8 == q + 1; }
  }

  // ----- writing

  /** `t` has been written from `p0` on, and nothing else has changed. */
  ghost predicate Wrote(now: seq<char>, before: seq<char>, p0: nat, t: string) {
    p0 + |t| <= |before| && now == before[..p0] + t + before[p0 + |t|..]
  }

  lemma WroteNothing(s: seq<char>, p: nat)
    requires p <= |s|
    ensures Wrote(s, s, p, "")
  {
    assert s == s[..p] + "" + s[p..];
  }

  lemma WroteMore(now: seq<char>, next: seq<char>, before: seq<char>, p0: nat, t: string, u: string)
    requires Wrote(now, before, p0, t) && Wrote(next, now, p0 + |t|, u)
    ensures Wrote(next, before, p0, t + u)
  {
    var p1 := p0 + |t|;
    assert now[..p1] == before[..p0] + t;
    assert now[p1 + |u|..] == before[p1 + |u|..];
  }

  /** `*p++ = c` after `t` has been written. */
  method AppendChar(s: array<char>, p0: nat, p: nat, c: char, ghost before: seq<char>, ghost t: string)
    returns (p1: nat)
    requires Wrote(s[..], before, p0, t) && p == p0 + |t| < s.Length
    modifies s
    ensures p1 == p + 1 && Wrote(s[..], before, p0, t + [c])
  {
    ghost var now := s[..];
    s[p] := c;
    p1 := p + 1;
    assert s[..] == now[..p] + [c] + now[p + 1..];
    WroteMore(now, s[..], before, p0, t, [c]);
  }

  /** mpi_write_hlp: high digits first, by recursion on the quotient. */
  method WriteHlp(X: Mpi, radix: int, s: array<char>, p: nat) returns (p1: nat)
    requires 2 <= radix <= 16 && X.p != [] && X.V() >= 0
    requires p + |Digits(X.V(), radix)| <= s.Length
    modifies X, s
    ensures p1 == p + |Digits(old(X.V()), radix)| && Wrote(s[..], old(s[..]), p, Digits(old(X.V()), radix))
    decreases X.V()
  {
    BaseFacts();
    ghost var v, before := X.V(), s[..];
    var r := LowDigit(X, radix);
    p1 := p;
    ghost var hi := "";
    var c := CmpInt(X, 0);
    if c != 0 {
      DigitsStep(v, radix);
      hi := Digits(X.V(), radix);
      p1 := WriteHlp(X, radix, s, p);
    } else {
      DigitsBase(v, radix);
      WroteNothing(before, p);
    }
    var ch := if r < 10 then (r + 0x30) as char else (r + 0x37) as char;
    p1 := AppendChar(s, p, p1, ch, before, hi);
    assert Digits(v, radix) == hi + [ch];
  }

  /** `r = X mod radix; X = X / radix;` */
  method LowDigit(X: Mpi, radix: int) returns (r: int)
    requires 2 <= radix <= 16 && X.p != [] && X.V() >= 0
    modifies X
    ensures r == Rem(old(X.V()), radix) && X.V() == Quot(old(X.V()), radix) && X.p != []
  {
    BaseFacts();
    HalfFacts();
    var ret;
    ret, r := ModInt(X, radix);
    ret := DivInt(X, null, X, radix);
  }

  lemma DigitsStep(v: int, radix: int)
    requires 2 <= radix <= 16 && v >= 0 && Quot(v, radix) != 0
    ensures v >= radix && 0 < Quot(v, radix) < v
    ensures Digits(v, radix) == Digits(Quot(v, radix), radix) + [DigitChar(Rem(v, radix))]
  {
    if v < radix { QuotUnique(v, radix, 0, v); }
    QuotSmaller(v, radix);
  }

  lemma DigitsBase(v: int, radix: int)
    requires 2 <= radix <= 16 && v >= 0 && Quot(v, radix) == 0
    ensures Digits(v, radix) == [DigitChar(Rem(v, radix))]
  {
    if v >= radix { QuotSmaller(v, radix); }
    QuotUnique(v, radix, 0, v);
  }

  // ----- the hexadecimal writer

  /** A byte of a limb is the corresponding byte of the value. */
  lemma LimbByte(p: seq<Limb>, i: nat, j: nat)
    requires i < |p| && j < LIMB_BYTES
    ensures LIMB_BITS * i + 8 * j >= 0
    ensures Prefix(Val(p), LIMB_BITS * i + 8 * j)
         == 256 * Prefix(Val(p), LIMB_BITS * i + 8 * j + 8) + Quot(p[i], Pow2(8 * j)) % 256
  {
    var k, v, x, rest := LIMB_BITS * i + 8 * j, Val(p), p[i], Val(p[i + 1..]);
    PrefixAtLimb(p, i, 8 * j);
    LimbFirst(p, i);
    LowByte(v, k, x, rest, j);
  }

  lemma LimbFirst(p: seq<Limb>, i: nat)
    requires i < |p|
    ensures Val(p[i..]) == p[i] + BASE * Val(p[i + 1..])
  {
    assert p[i..][1..] == p[i + 1..];
  }

  lemma LowByte(v: int, k: nat, x: Limb, rest: nat, j: nat)
    requires j < LIMB_BYTES && Prefix(v, k) == Quot(x + BASE * rest, Pow2(8 * j))
    ensures Prefix(v, k) == 256 * Prefix(v, k + 8) + Quot(x, Pow2(8 * j)) % 256
  {
    ByteAbove(x, rest, j);
    PrefixByte(v, k);
  }

  lemma ByteAbove(x: Limb, rest: nat, j: nat)
    requires j < LIMB_BYTES
    ensures Quot(x + BASE * rest, Pow2(8 * j)) % 256 == Quot(x, Pow2(8 * j)) % 256
  {
    var s, q, t := Pow2(8 * j), Quot(x, Pow2(8 * j)), Pow2(LIMB_BITS - 8 * j - 8);
    Pow2Add(8 * j, LIMB_BITS - 8 * j);
    Pow2Add(8, LIMB_BITS - 8 * j - 8);
    assert Pow2(8) == 256;
    Assoc(256, t, rest);
    Assoc(s, 256 * t, rest);
    Distr(s, q, 256 * (t * rest));
    QuotUnique(x + BASE * rest, s, q + 256 * (t * rest), Rem(x, s));
    ByteOf(q, t * rest);
  }

  lemma PrefixByte(v: int, k: nat)
    ensures Prefix(v, k) == 256 * Prefix(v, k + 8) + Prefix(v, k) % 256
  {
    Pow2Add(k, 8);
    assert Pow2(8) == 256;
    QuotQuot(v, Pow2(k), 256);
  }

  lemma ByteOf(q: int, up: int)
    ensures (q + 256 * up) % 256 == q % 256
  {
  }

  /** What the hexadecimal writer has emitted for a prefix of the number. */
  ghost function Emitted(v: nat): string {
    if v == 0 then "" else HexPairs(v)
  }

  lemma EmittedStep(v: nat, c: int, last: bool)
    requires 0 <= c < 256
    ensures var w := 256 * v + c;
      if v == 0 && c == 0 && !last then Emitted(w) == Emitted(v)
      else Emitted(v) + BytePair(c) == if w == 0 then HexPairs(0) else Emitted(w)
  {
    var w := 256 * v + c;
    assert w / 256 == v && w % 256 == c;
    if v == 0 { assert "" + BytePair(c) == BytePair(c); }
  }

  /** The text written when `idx` bytes are still to come; the last byte is always written. */
  ghost function Sofar(v: nat, idx: nat): string {
    if idx == 0 then HexPairs(v) else Emitted(Prefix(v, 8 * idx))
  }

  lemma SofarStep(v: nat, idx: nat, c: int)
    requires idx > 0 && 0 <= c < 256
    requires Prefix(v, 8 * (idx - 1)) == 256 * Prefix(v, 8 * idx) + c
    ensures if Sofar(v, idx) == "" && c == 0 && idx != 1 then Sofar(v, idx - 1) == Sofar(v, idx)
            else Sofar(v, idx - 1) == Sofar(v, idx) + BytePair(c)
  {
    var above := Prefix(v, 8 * idx);
    EmittedEmpty(above);
    EmittedStep(above, c, idx == 1);
    if idx == 1 { WholePrefix(v); }
  }

  lemma EmittedEmpty(v: nat)
    ensures Emitted(v) == "" <==> v == 0
  {
    HexPairsRoundTrip(v);
  }

  lemma WholePrefix(v: nat)
    ensures Prefix(v, 0) == v
  {
    QuotUnique(v, 1, v, 0);
  }

  lemma {:induction false} SofarFits(v: nat, idx: nat)
    ensures |Sofar(v, idx)| <= |HexPairs(v)|
  {
    if idx > 0 {
      SofarFits(v, idx - 1);
      PrefixByte(v, 8 * (idx - 1));
      SofarStep(v, idx, Prefix(v, 8 * (idx - 1)) % 256);
    }
  }

  /** The two stores for one byte. */
  method EmitByte(s: array<char>, p: nat, c: int) returns (p1: nat)
    requires 0 <= c < 256 && p + 2 <= s.Length
    modifies s
    ensures p1 == p + 2 && Wrote(s[..], old(s[..]), p, BytePair(c))
  {
    ghost var before := s[..];
    s[p] := UPPER[c / 16];
    s[p + 1] := UPPER[c % 16];
    assert s[..] == before[..p] + BytePair(c) + before[p + 2..];
    p1 := p + 2;
  }

  /** One byte: skipped while only zero bytes have been seen (`k == 0`), unless it is the last one. */
  method WriteByte(s: array<char>, p0: nat, p: nat, c: int, last: bool, ghost before: seq<char>, ghost v: nat,
                   ghost idx: nat)
    returns (p1: nat)
    requires 0 <= c < 256 && idx > 0 && (last <==> idx == 1) && p0 + |HexPairs(v)| <= s.Length
    requires Prefix(v, 8 * (idx - 1)) == 256 * Prefix(v, 8 * idx) + c
    requires Wrote(s[..], before, p0, Sofar(v, idx)) && p == p0 + |Sofar(v, idx)|
    modifies s
    ensures Wrote(s[..], before, p0, Sofar(v, idx - 1)) && p1 == p0 + |Sofar(v, idx - 1)|
  {
    SofarStep(v, idx, c);
    SofarFits(v, idx - 1);
    p1 := p;
    if !(c == 0 && p == p0 && !last) {
      ghost var now := s[..];
      p1 := EmitByte(s, p, c);
      WroteMore(now, s[..], before, p0, Sofar(v, idx), BytePair(c));
    }
  }

  /** The writer has emitted what belongs there when `idx` bytes are still to come. */
  ghost predicate Progress(now: seq<char>, before: seq<char>, p0: nat, p: nat, v: nat, idx: nat) {
    Wrote(now, before, p0, Sofar(v, idx)) && p == p0 + |Sofar(v, idx)|
  }

  /** Byte `j` of limb `i - 1`. */
  method WriteByteOf(q: seq<Limb>, i: nat, j: nat, s: array<char>, p0: nat, p: nat, ghost before: seq<char>,
                     ghost idx: nat)
    returns (p1: nat)
    requires 0 < i <= |q| && 0 < j <= LIMB_BYTES && idx == LIMB_BYTES * (i - 1) + j
    requires p0 + |HexPairs(Val(q))| <= s.Length && Progress(s[..], before, p0, p, Val(q), idx)
    modifies s
    ensures idx > 0 && Progress(s[..], before, p0, p1, Val(q), idx - 1)
  {
    ByteAt(q, i, j);
    var c := Quot(q[i - 1], Pow2(8 * (j - 1))) % 256;
    p1 := WriteByte(s, p0, p, c, i + j == 2, before, Val(q), idx);
  }

  /** The bytes of one limb, high byte first. */
  method WriteLimb(q: seq<Limb>, i: nat, s: array<char>, p0: nat, p: nat, ghost before: seq<char>, ghost low: nat)
    returns (p1: nat)
    requires 0 < i <= |q| && low == LIMB_BYTES * (i - 1) && p0 + |HexPairs(Val(q))| <= s.Length
    requires Progress(s[..], before, p0, p, Val(q), low + LIMB_BYTES)
    modifies s
    ensures Progress(s[..], before, p0, p1, Val(q), low)
  {
    p1 := p;
    var j := LIMB_BYTES;
    ghost var idx, v := low + LIMB_BYTES, Val(q);
    while j > 0
      invariant 0 <= j <= LIMB_BYTES && idx == low + j && Progress(s[..], before, p0, p1, v, idx)
    {
      p1 := WriteByteOf(q, i, j, s, p0, p1, before, idx);
      j := j - 1;
      idx := idx - 1;
    }
  }

  /** Bytes below limb `i - 1` and byte `j`, counted in bits. */
  lemma ByteIndex(i: nat, j: nat)
    requires i > 0 && j <= LIMB_BYTES
    ensures var idx := LIMB_BYTES * (i - 1) + j;
      && LIMB_BYTES * i == LIMB_BYTES * (i - 1) + LIMB_BYTES
      && LIMB_BYTES * (i - 1) >= 0
      && 8 * idx == LIMB_BITS * (i - 1) + 8 * j
      && (j > 0 ==> (idx == 1 <==> i + j == 2))
  {
    Distr(LIMB_BYTES, i, -1);
    PosMul0(LIMB_BYTES, i - 1);
    Assoc(8, LIMB_BYTES, i - 1);
    if i > 1 { MulLe(LIMB_BYTES, 1, i - 1); }
  }

  lemma ByteAt(q: seq<Limb>, i: nat, j: nat)
    requires 0 < i <= |q| && 0 < j <= LIMB_BYTES
    ensures var idx := LIMB_BYTES * (i - 1) + j;
      && idx > 0 && (idx == 1 <==> i + j == 2)
      && Prefix(Val(q), 8 * (idx - 1)) == 256 * Prefix(Val(q), 8 * idx) + Quot(q[i - 1], Pow2(8 * (j - 1))) % 256
  {
    ByteIndex(i, j);
    LimbByte(q, i - 1, j - 1);
    var idx := LIMB_BYTES * (i - 1) + j;
    assert 8 * (idx - 1) == LIMB_BITS * (i - 1) + 8 * (j - 1);
    assert 8 * idx == LIMB_BITS * (i - 1) + 8 * (j - 1) + 8;
  }

  lemma LimbDown(i: nat)
    requires i > 0
    ensures LIMB_BYTES * (i - 1) >= 0 && LIMB_BYTES * i == LIMB_BYTES * (i - 1) + LIMB_BYTES
  {
    ByteIndex(i, LIMB_BYTES);
  }

  lemma NothingSofar(s: seq<char>, p0: nat, q: seq<Limb>, idx: int)
    requires q != [] && p0 <= |s| && idx == LIMB_BYTES * |q|
    ensures idx >= 0 && Progress(s, s, p0, p0, Val(q), idx)
  {
    PosMul0(LIMB_BYTES, |q|);
    Assoc(8, LIMB_BYTES, |q|);
    PrefixTop(q);
    MulLe(LIMB_BYTES, 1, |q|);
    WroteNothing(s, p0);
  }

  /** All limbs, top limb first. */
  method WriteHex(q: seq<Limb>, s: array<char>, p0: nat) returns (p1: nat)
    requires q != [] && p0 + |HexPairs(Val(q))| <= s.Length
    modifies s
    ensures Wrote(s[..], old(s[..]), p0, HexPairs(Val(q))) && p1 == p0 + |HexPairs(Val(q))|
  {
    ghost var before, v := s[..], Val(q);
    p1 := p0;
    var i := |q|;
    ghost var idx := LIMB_BYTES * i;
    NothingSofar(before, p0, q, idx);
    while i > 0
      invariant 0 <= i <= |q| && idx == LIMB_BYTES * i && idx >= 0
      invariant Progress(s[..], before, p0, p1, v, idx)
    {
      LimbDown(i);
      idx := LIMB_BYTES * (i - 1);
      p1 := WriteLimb(q, i, s, p0, p1, before, idx);
      i := i - 1;
    }
    assert idx == 0;
  }

  // ----- mpi_write_string

  /**
   * Write X in the radix. `slen` is the buffer size the caller states. When the size test
   * passes, the buffer must hold the text, which it does except in the cases of SizeExact.
   */
  method WriteString(X: Mpi, radix: int, s: array<char>, slen: nat) returns (ret: Ret, olen: nat)
    requires X.p != [] && slen <= s.Length
    requires 2 <= radix <= 16 && slen >= NeededSize(BitLen(Val(X.p)), radix) ==>
      |Text(X.s, Val(X.p), radix)| <= s.Length
    modifies s
    ensures ret == if radix < 2 || radix > 16 then BadInputData
                   else if slen < NeededSize(BitLen(Val(X.p)), radix) then BufferTooSmall else Ok
    ensures ret == BadInputData ==> olen == slen
    ensures ret == BufferTooSmall ==> olen == NeededSize(BitLen(Val(X.p)), radix)
    ensures ret != Ok ==> s[..] == old(s[..])
    ensures ret == Ok ==>
              olen == |Text(X.s, Val(X.p), radix)| && Wrote(s[..], old(s[..]), 0, Text(X.s, Val(X.p), radix))
  {
    if radix < 2 || radix > 16 { return BadInputData, slen; }
    var n := Msb(X);
    if radix >= 4 { n := n / 2; }
    if radix >= 16 { n := n / 2; }
    n := n + 3;
    if slen < n { return BufferTooSmall, n; }
    olen := WriteText(X, radix, s);
    ret := Ok;
  }

  /** Sign, body and terminator. */
  method WriteText(X: Mpi, radix: int, s: array<char>) returns (p: nat)
    requires X.p != [] && 2 <= radix <= 16 && |Text(X.s, Val(X.p), radix)| <= s.Length
    modifies s
    ensures p == |Text(X.s, Val(X.p), radix)| && Wrote(s[..], old(s[..]), 0, Text(X.s, Val(X.p), radix))
  {
    ghost var before, sign := s[..], if X.s == -1 then "-" else "";
    ghost var body := if radix == 16 then HexPairs(Val(X.p)) else Digits(Val(X.p), radix);
    p := WriteSign(X.s, s);
    ghost var now := s[..];
    p := WriteBody(X, radix, s, p);
    WroteMore(now, s[..], before, 0, sign, body);
    p := AppendChar(s, 0, p, '\0', before, sign + body);
  }

  method WriteSign(sign: int, s: array<char>) returns (p: nat)
    requires s.Length > 0
    modifies s
    ensures var t := if sign == -1 then "-" else ""; Wrote(s[..], old(s[..]), 0, t) && p == |t|
  {
    p := 0;
    WroteNothing(s[..], 0);
    if sign == -1 {
      p := AppendChar(s, 0, p, '-', s[..], "");
      assert "" + ['-'] == "-";
    }
  }

  method WriteBody(X: Mpi, radix: int, s: array<char>, p: nat) returns (p1: nat)
    requires X.p != [] && 2 <= radix <= 16
    requires p + |if radix == 16 then HexPairs(Val(X.p)) else Digits(Val(X.p), radix)| <= s.Length
    modifies s
    ensures var body := if radix == 16 then HexPairs(Val(X.p)) else Digits(Val(X.p), radix);
      p1 == p + |body| && Wrote(s[..], old(s[..]), p, body)
  {
    if radix == 16 {
      p1 := WriteHex(X.p, s, p);
    } else {
      var T := new Mpi.Init();
      Copy(T, X);
      if T.s == -1 { T.s := 1; }
      p1 := WriteHlp(T, radix, s, p);
    }
  }

  // ----- mpi_read_string

  /** A text with an optional sign in front of digits. */
  ghost predicate WellFormed(t: string, radix: int) {
    Numeral(Body(t), radix)
  }

  ghost function Body(t: string): string {
    if t != [] && t[0] == '-' then t[1..] else t
  }

  ghost function Parsed(t: string, radix: int): int
    requires radix >= 0
  {
    var v := Horner(Body(t), radix);
    if t != [] && t[0] == '-' then -v else v
  }

  lemma HornerSnoc(t: string, k: nat, radix: int)
    requires k < |t| && radix >= 0
    ensures Horner(t[..k + 1], radix) == radix * Horner(t[..k], radix) + DigitVal(t[k])
  {
    assert t[..k + 1][..k] == t[..k];
  }

  /** The branch for radices other than 16: multiply and add, or subtract below zero. */
  method ReadDigits(X: Mpi, radix: int, s: string) returns (ret: Ret)
    requires 2 <= radix < 16
    modifies X
    ensures ret == if WellFormed(s, radix) then Ok else InvalidCharacter
    ensures ret == Ok ==> X.V() == Parsed(s, radix)
  {
    BaseFacts();
    var T := new Mpi.Init();
    Lset(X, 0);
    ghost var neg := s != [] && s[0] == '-';
    ghost var first := if neg then 1 else 0;
    var i := 0;
    if 0 < |s| && s[0] == '-' {
      X.s := -1;
      i := 1;
    }
    ghost var body := Body(s);
    assert body[..0] == [];
    while i < |s|
      invariant first <= i <= |s| && X.p != [] && X.s == if neg then -1 else 1
      invariant Val(X.p) == Horner(body[..i - first], radix)
      invariant forall k :: 0 <= k < i - first ==> DigitVal(body[k]) < radix
    {
      var d := DigitVal(s[i]);
      assert s[i] == body[i - first];
      if d >= radix { return InvalidCharacter; }
      HornerSnoc(body, i - first, radix);
      ReadDigit(X, T, radix, d);
      i := i + 1;
    }
    assert body[..|body|] == body;
    ret := Ok;
  }

  /** `T = X * radix; X = T + d` or `X = T - d`. */
  method ReadDigit(X: Mpi, T: Mpi, radix: int, d: int)
    requires X != T && 2 <= radix < 16 && 0 <= d < radix && X.p != []
    modifies X, T
    ensures X.p != [] && X.s == old(X.s) && Val(X.p) == radix * old(Val(X.p)) + d
  {
    BaseFacts();
    Comm(radix, Val(X.p));
    NegProduct(radix, Val(X.p));
    Comm(-Val(X.p), radix);
    MulInt(T, X, radix);
    if X.s == 1 {
      AddInt(X, T, d);
    } else {
      SubInt(X, T, d);
    }
  }

  // ----- the hexadecimal reader, last digit first

  const LIMB_DIGITS: nat := 2 * LIMB_BYTES

  lemma {:induction false} HornerFront(c: char, t: string)
    ensures 4 * |t| >= 0 && Horner([c] + t, 16) == Pow2(4 * |t|) * DigitVal(c) + Horner(t, 16)
    decreases |t|
  {
    var s := [c] + t;
    if t == [] {
      assert s[..0] == [];
    } else {
      var u := t[..|t| - 1];
      assert s[..|s| - 1] == [c] + u;
      HornerFront(c, u);
      Pow2Add(4, 4 * |u|);
      assert Pow2(4) == 16;
      Assoc(16, Pow2(4 * |u|), DigitVal(c));
    }
  }

  lemma {:induction false} HornerBound(t: string)
    requires Numeral(t, 16)
    ensures Horner(t, 16) < Pow2(4 * |t|)
    decreases |t|
  {
    if t != [] {
      HornerBound(t[..|t| - 1]);
      Pow2Add(4, 4 * (|t| - 1));
      assert Pow2(4) == 16;
    }
  }

  /** Digit `j` falls into limb `j / 2ciL`, above everything read so far. */
  lemma DigitPlace(p: seq<Limb>, j: nat, d: int)
    requires 0 <= d < 16 && Val(p) < Pow2(4 * j) && 4 * j < LIMB_BITS * |p|
    ensures var k, m := Quot(j, LIMB_DIGITS), Rem(j, LIMB_DIGITS);
      && 0 <= k < |p| && 0 <= p[k] + Pow2(4 * m) * d < BASE
      && Val(p[k := p[k] + Pow2(4 * m) * d]) == Val(p) + Pow2(4 * j) * d
  {
    var k, m := Quot(j, LIMB_DIGITS), Rem(j, LIMB_DIGITS);
    DigitIndex(j, k, m, |p|);
    LimbBelow(p, k, Pow2(4 * m));
    DigitFits(p[k], m, d);
    ValSet(p, k, p[k] + Pow2(4 * m) * d);
    Assoc(W(k), Pow2(4 * m), d);
  }

  lemma DigitIndex(j: nat, k: int, m: int, n: nat)
    requires 4 * j < LIMB_BITS * n && j == LIMB_DIGITS * k + m && 0 <= m && 0 <= k
    ensures k < n && Pow2(4 * j) == W(k) * Pow2(4 * m)
  {
    Assoc(4, LIMB_DIGITS, k);
    PosMul0(LIMB_BITS, k);
    if k >= n { MulLe(LIMB_BITS, n, k); }
    WIsPow2(k);
    Pow2Add(LIMB_BITS * k, 4 * m);
  }

  lemma LimbBelow(p: seq<Limb>, k: nat, t: int)
    requires k < |p| && Val(p) < W(k) * t
    ensures p[k] < t
  {
    ValSplit(p, k + 1);
    ValSnoc(p, k);
    PosMul0(W(k + 1), Val(p[k + 1..]));
    if p[k] >= t { MulLe(W(k), t, p[k]); }
  }

  lemma DigitFits(x: Limb, m: nat, d: int)
    requires x < Pow2(4 * m) && m < LIMB_DIGITS && 0 <= d < 16
    ensures 0 <= x + Pow2(4 * m) * d < BASE
  {
    CarryBound(x, Pow2(4 * m), d, 16);
    PosMul0(Pow2(4 * m), d);
    Pow2Add(4 * m, 4);
    assert Pow2(4) == 16;
    Pow2Mono(4 * m + 4, LIMB_BITS);
  }

  lemma FrontDigit(s: string, i: nat)
    requires 0 < i <= |s| && DigitVal(s[i - 1]) < 16 && Numeral(s[i..], 16)
    ensures Numeral(s[i - 1..], 16)
    ensures Horner(s[i - 1..], 16) == Pow2(4 * |s[i..]|) * DigitVal(s[i - 1]) + Horner(s[i..], 16)
  {
    assert s[i - 1..] == [s[i - 1]] + s[i..];
    HornerFront(s[i - 1], s[i..]);
  }

  /** Zero, in a buffer with room for n bits. */
  method ZeroBits(X: Mpi, n: nat)
    modifies X
    ensures X.s == 1 && Val(X.p) == 0 && n <= LIMB_BITS * |X.p|
  {
    BaseFacts();
    GrowEnough(0, n);
    Grow(X, LimbsForBits(n));
    Lset(X, 0);
    MulLe(LIMB_BITS, LimbsForBits(n), |X.p|);
  }

  /** The branch for radix 16: digits are or-ed into the limbs from the end of the text. */
  method ReadHex(X: Mpi, s: string) returns (ret: Ret)
    modifies X
    ensures ret == if WellFormed(s, 16) then Ok else InvalidCharacter
    ensures ret == Ok ==> X.V() == Parsed(s, 16)
  {
    ZeroBits(X, 4 * |s|);
    var i, j := |s|, 0;
    assert s[|s|..] == [];
    while i > 0
      invariant 0 <= i <= |s| && j == |s| - i && X.s == 1 && 4 * |s| <= LIMB_BITS * |X.p|
      invariant Numeral(s[i..], 16) && Val(X.p) == Horner(s[i..], 16)
    {
      if i == 1 && s[i - 1] == '-' {
        X.s := -1;
        assert s[1..] == Body(s);
        return Ok;
      }
      var d := DigitVal(s[i - 1]);
      if d >= 16 {
        NotNumeral(s, i - 1);
        return InvalidCharacter;
      }
      OrDigit(X, j, d, s[i..]);
      FrontDigit(s, i);
      i, j := i - 1, j + 1;
    }
    assert s[0..] == s;
    NoSign(s);
    ret := Ok;
  }

  /** `X->p[j / (2 * ciL)] |= d << ((j % (2 * ciL)) << 2)`. */
  method OrDigit(X: Mpi, j: nat, d: int, ghost t: string)
    requires 0 <= d < 16 && Numeral(t, 16) && Val(X.p) == Horner(t, 16)
    requires j == |t| && 4 * j < LIMB_BITS * |X.p|
    modifies X`p
    ensures |X.p| == old(|X.p|) && Val(X.p) == Pow2(4 * |t|) * d + Horner(t, 16)
  {
    HornerBound(t);
    DigitPlace(X.p, j, d);
    var k, m := Quot(j, LIMB_DIGITS), Rem(j, LIMB_DIGITS);
    X.p := X.p[k := X.p[k] + Pow2(4 * m) * d];
  }

  lemma NotNumeral(s: string, i: nat)
    requires i < |s| && DigitVal(s[i]) >= 16 && !(i == 0 && s[i] == '-')
    ensures !WellFormed(s, 16)
  {
    var b := Body(s);
    if s[0] == '-' { assert b[i - 1] == s[i]; } else { assert b[i] == s[i]; }
  }

  lemma NoSign(s: string)
    requires Numeral(s, 16)
    ensures WellFormed(s, 16) && Parsed(s, 16) == Horner(s, 16)
  {
    assert DigitVal('-') == 255;
  }

  /** X becomes the number the text stands for. */
  method ReadString(X: Mpi, radix: int, s: string) returns (ret: Ret)
    modifies X
    ensures ret == if radix < 2 || radix > 16 then BadInputData
                   else if WellFormed(s, radix) then Ok else InvalidCharacter
    ensures ret == BadInputData ==> X.p == old(X.p) && X.s == old(X.s)
    ensures ret == Ok ==> X.V() == Parsed(s, radix)
  {
    if radix < 2 || radix > 16 { return BadInputData; }
    if radix == 16 {
      ret := ReadHex(X, s);
    } else {
      ret := ReadDigits(X, radix, s);
    }
  }

  /** Reading back what was written gives the number, for every number and every radix. */
  lemma TextRoundTrip(s: Sign, v: nat, radix: int)
    requires 2 <= radix <= 16
    ensures var t := Text(s, v, radix);
      var read := t[..|t| - 1]; // without the terminator
      '\0' !in read && WellFormed(read, radix) && Parsed(read, radix) == if s == -1 then -(v as int) else v
  {
    var body := if radix == 16 then HexPairs(v) else Digits(v, radix);
    if radix == 16 { HexPairsRoundTrip(v); } else { DigitsRoundTrip(v, radix); }
    var t := Text(s, v, radix);
    assert t[..|t| - 1] == (if s == -1 then "-" else "") + body;
    SignedBody(s, body, radix);
  }

  lemma SignedBody(s: Sign, body: string, radix: int)
    requires radix >= 0 && Numeral(body, radix) && body != [] && body[0] != '-' && radix <= 16
    ensures var read := (if s == -1 then "-" else "") + body;
      && '\0' !in read && WellFormed(read, radix)
      && Parsed(read, radix) == if s == -1 then -Horner(body, radix) else Horner(body, radix)
  {
    var read := (if s == -1 then "-" else "") + body;
    assert Body(read) == body;
    forall k | 0 <= k < |body| ensures body[k] != '\0' { assert DigitVal(body[k]) < radix; }
  }
}
