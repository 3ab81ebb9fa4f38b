/**
 * What strtol and strtoul make of a text taken apart as the C standard describes it (sections
 * 7.22.1.4 of C11): white space, a sign, a prefix, digits, and the rest.
 */
module StrtolTexts {
  import opened Strtol

  const LOWER: string := "0123456789abcdefghijklmnopqrstuvwxyz"
  const UPPER: string := "0123456789ABCDEFGHIJKLMNOPQRSTUVWXYZ"

  // ----- the characters

  /** A character is a digit of value d exactly if it stands at place d, in either case. */
  lemma DigitsAre(c: byte, d: nat)
    requires d < 36
    ensures |LOWER| == 36 && |UPPER| == 36
    ensures IsAlnum(c) ==> Digit(c) < 36
    ensures IsAlnum(c) && Digit(c) == d <==> c as char == LOWER[d] || c as char == UPPER[d]
  {
    LowDigit(if d < 10 then d else 0);
    if 10 <= d < 23 { FirstLetters(d - 10); } else if d >= 23 { LastLetters(d - 23); }
  }

  lemma LowDigit(d: nat)
    requires d < 10
    ensures |LOWER| == 36 && |UPPER| == 36
    ensures LOWER[d] as int == 48 + d && UPPER[d] as int == 48 + d
  {
    if d == 0 {} else if d == 1 {} else if d == 2 {} else if d == 3 {} else if d == 4 {}
    else if d == 5 {} else if d == 6 {} else if d == 7 {} else if d == 8 {} else {}
  }

  lemma FirstLetters(i: nat)
    requires i < 13
    ensures LOWER[10 + i] as int == 97 + i && UPPER[10 + i] as int == 65 + i
  {
    if i == 0 {} else if i == 1 {} else if i == 2 {} else if i == 3 {} else if i == 4 {} else if i == 5 {}
    else if i == 6 {} else if i == 7 {} else if i == 8 {} else if i == 9 {} else if i == 10 {}
    else if i == 11 {} else {}
  }

  lemma LastLetters(i: nat)
    requires i < 13
    ensures LOWER[23 + i] as int == 110 + i && UPPER[23 + i] as int == 78 + i
  {
    if i == 0 {} else if i == 1 {} else if i == 2 {} else if i == 3 {} else if i == 4 {} else if i == 5 {}
    else if i == 6 {} else if i == 7 {} else if i == 8 {} else if i == 9 {} else if i == 10 {}
    else if i == 11 {} else {}
  }

  /** White space: the space, and the tab up to the carriage return. */
  ghost predicate Blank(c: byte) { c as char == ' ' || 9 <= c <= 13 }

  ghost predicate Blanks(s: seq<byte>) { forall i :: 0 <= i < |s| ==> Blank(s[i]) }

  ghost predicate Sign(s: seq<byte>) { s == [] || s == ['-' as byte] || s == ['+' as byte] }

  ghost predicate HexPrefix(s: seq<byte>) { s == ['0' as byte, 'x' as byte] || s == ['0' as byte, 'X' as byte] }

  ghost predicate AllDigits(ds: seq<byte>, b: int) { forall i :: 0 <= i < |ds| ==> IsDigit(ds[i], b) }

  /** What is left of a text does not go on with a digit of the base, and ends the string. */
  ghost predicate Ends(rest: seq<byte>, b: int) {
    rest != [] && rest[|rest| - 1] == 0 && !IsDigit(rest[0], b)
  }

  lemma {:induction false} OverBlanks(s: seq<byte>, i: nat, j: nat)
    requires Terminated(s) && i <= j < |s| && !IsSpace(s[j]) && forall k :: i <= k < j ==> IsSpace(s[k])
    ensures SpaceEnd(s, i) == j
    decreases j - i
  {
    if i < j { OverBlanks(s, i + 1, j); }
  }

  /** The header of a text after white space and a sign. */
  lemma HeaderIs(s: seq<byte>, sp: seq<byte>, sg: seq<byte>, t: seq<byte>, base: c_int, f: nat)
    requires Terminated(t) && s == sp + sg + t && f == |sp| + |sg|
    requires Blanks(sp) && Sign(sg) && (sg == [] ==> !Blank(t[0]) && t[0] != 45 && t[0] != 43)
    ensures Terminated(s) && f < |s|
    ensures (base == 0 || base == 16) && |t| >= 2 && HexPrefix(t[..2]) ==>
              HeaderOf(s, base) == Header(sg == ['-' as byte], 16, f + 2)
    ensures !((base == 0 || base == 16) && |t| >= 2 && HexPrefix(t[..2])) ==>
              HeaderOf(s, base)
              == Header(sg == ['-' as byte], if base != 0 then base else if t[0] == '0' as byte then 8 else 10, f)
  {
    var i := |sp|;
    forall k | 0 <= k < i ensures IsSpace(s[k]) {
      assert s[k] == sp[k];
    }
    assert s[i] == if sg == [] then t[0] else sg[0];
    OverBlanks(s, 0, i);
    assert s[f] == t[0];
    if t[0] == ZERO { assert s[f + 1] == t[1]; }
  }

  /** The digits a header leads to. */
  lemma RunIs(s: seq<byte>, front: seq<byte>, ds: seq<byte>, rest: seq<byte>, b: int)
    requires s == front + ds + rest && AllDigits(ds, b) && Ends(rest, b)
    ensures RunEnd(s, |front|, b) == |front| + |ds| && s[|front|..|front| + |ds|] == ds
  {
    forall k | |front| <= k < |front| + |ds| ensures IsDigit(s[k], b) {
      assert s[k] == ds[k - |front|];
    }
    RunOver(s, |front|, |front| + |ds|, b);
  }

  function Within(v: int, lo: int, hi: int): (r: int)
    requires lo <= hi
    ensures lo <= r <= hi && (lo <= v <= hi ==> r == v) && (v < lo ==> r == lo) && (v > hi ==> r == hi)
  {
    if v < lo then lo else if v > hi then hi else v
  }

  /** White space, a sign, a prefix where the base allows one, the digits and the rest. */
  ghost predicate TextOf(s: seq<byte>, sp: seq<byte>, sg: seq<byte>, pre: seq<byte>, ds: seq<byte>, rest: seq<byte>,
                         base: c_int, b: int) {
    && s == sp + sg + (pre + (ds + rest)) && Blanks(sp) && Sign(sg) && AllDigits(ds, b) && Ends(rest, b)
    && (if pre != [] then HexPrefix(pre) && (base == 0 || base == 16) && b == 16
        else PlainBase(ds + rest, base, b))
    && (sg + pre + ds == [] ==> !Blank(rest[0]) && rest[0] != '-' as byte && rest[0] != '+' as byte)
  }

  /** Without a prefix the base is the one asked for, or 8 after a leading zero and else 10. */
  ghost predicate PlainBase(t: seq<byte>, base: c_int, b: int)
    requires t != []
  {
    && !((base == 0 || base == 16) && |t| >= 2 && HexPrefix(t[..2]))
    && b == (if base != 0 then base else if t[0] == '0' as byte then 8 else 10)
  }

  lemma HeaderOfText(s: seq<byte>, sp: seq<byte>, sg: seq<byte>, pre: seq<byte>, ds: seq<byte>, rest: seq<byte>,
                     base: c_int, b: int)
    requires TextOf(s, sp, sg, pre, ds, rest, base, b)
    ensures Terminated(s) && HeaderOf(s, base) == Header(sg == ['-' as byte], b, |sp| + |sg| + |pre|)
  {
    var t := pre + (ds + rest);
    assert t[|t| - 1] == rest[|rest| - 1];
    assert t[0] == if pre != [] then pre[0] else if ds != [] then ds[0] else rest[0];
    if pre != [] { assert t[..2] == pre; } else { assert t == ds + rest; }
    HeaderIs(s, sp, sg, t, base, |sp| + |sg|);
  }

  lemma DigitsOfText(s: seq<byte>, sp: seq<byte>, sg: seq<byte>, pre: seq<byte>, ds: seq<byte>, rest: seq<byte>,
                     base: c_int, b: int)
    requires TextOf(s, sp, sg, pre, ds, rest, base, b)
    ensures Terminated(s) && (ds != [] ==> b > 0)
    ensures var h := HeaderOf(s, base);
            && h.neg == (sg == ['-' as byte]) && h.base == b && h.first == |s| - |ds + rest|
            && RunEnd(s, h.first, b) == h.first + |ds| && s[h.first..h.first + |ds|] == ds
  {
    HeaderOfText(s, sp, sg, pre, ds, rest, base, b);
    var front := sp + sg + pre;
    assert s == front + ds + rest;
    if ds != [] { assert IsDigit(ds[0], b); }
    RunIs(s, front, ds, rest, b);
  }

  /** The result is the number the digits denote, with the sign, within the range of the type;
      the end is just past the digits, or the start of the text if there are none. */
  lemma NumberOfText(s: seq<byte>, sp: seq<byte>, sg: seq<byte>, pre: seq<byte>, ds: seq<byte>, rest: seq<byte>,
                     base: c_int, b: int)
    requires TextOf(s, sp, sg, pre, ds, rest, base, b)
    ensures Terminated(s) && (ds != [] ==> b > 0)
    ensures var v: int := Value(ds, b);
            && LongOf(s, base) == Within(if sg == ['-' as byte] then -v else v, -0x8000_0000, 0x7FFF_FFFF)
            && UlongOf(s, base) == (if v > 0xFFFF_FFFF then 0xFFFF_FFFF
                                    else if sg == ['-' as byte] && v > 0 then 0x1_0000_0000 - v else v)
            && EndOf(s, base) == if ds != [] then |s| - |rest| else 0
  {
    DigitsOfText(s, sp, sg, pre, ds, rest, base, b);
    if Value(ds, b) <= 0xFFFF_FFFF { Negated(Value(ds, b)); }
  }

  lemma Negated(v: nat)
    requires v <= 0xFFFF_FFFF
    ensures -(v as int) % 0x1_0000_0000 == if v > 0 then 0x1_0000_0000 - v else 0
  {
  }

  // ----- known numbers

  lemma KnownValue(a: byte, b: byte, c: byte, base: int)
    requires base > 0
    ensures Value([a], base) == Digit(a) && Value([a, b], base) == Digit(a) * base + Digit(b)
    ensures Value([a, b, c], base) == (Digit(a) * base + Digit(b)) * base + Digit(c)
  {
    assert [a][..0] == [];
    assert [a, b][..1] == [a];
    assert [a, b, c][..2] == [a, b];
  }

  /** "123" in base 10, "fF" in base 16 and "20" in base 8. */
  lemma KnownNumbers()
    ensures Value([49, 50, 51], 10) == 123 && Value([102, 70], 16) == 255 && Value([50, 48], 8) == 16
  {
    KnownValue(49, 50, 51, 10);
    KnownValue(102, 70, 0, 16);
    KnownValue(50, 48, 0, 8);
  }

  // ----- written numbers

  /** ltoa and ultoa write digits in lower case. */
  lemma WrittenDigit(d: nat)
    requires d < 16
    ensures |LOWER| == 36 && DigitChar(d) as char == LOWER[d]
  {
    LowDigit(if d < 10 then d else 0);
    if d >= 10 { FirstLetters(d - 10); }
  }

  /** The first digit is a zero only in the text of zero, which is that one digit. */
  lemma FirstWritten(v: nat, base: nat)
    requires 2 <= base <= 16
    ensures Rendered(v, base)[0] == '0' as byte ==> v == 0
    ensures v == 0 ==> Rendered(v, base) == ['0' as byte]
  {
    if v > 0 { NoZeroFirst(v, base); }
  }

  lemma {:induction false} NoZeroFirst(v: nat, base: nat)
    requires 2 <= base <= 16 && v > 0
    ensures Digits(v, base) != [] && Digits(v, base)[0] != '0' as byte
    decreases v
  {
    if Quot(v, base) == 0 {
      assert v == Rem(v, base);
      assert Digits(v, base) == [] + [DigitChar(v)];
    } else {
      NoZeroFirst(Quot(v, base), base);
    }
  }

  /** "-10". */
  lemma KnownText()
    ensures SignedText(-10, 10) == ['-' as byte, '1' as byte, '0' as byte]
  {
    assert Quot(10, 10) == 1 && Rem(10, 10) == 0 && Quot(1, 10) == 0 && Rem(1, 10) == 1;
    assert Digits(1, 10) == [] + [DigitChar(1)];
    assert Digits(10, 10) == Digits(1, 10) + [DigitChar(0)];
  }
}
