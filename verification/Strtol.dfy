/**
 * Numbers as text: strtol and strtoul (esp8266_arduino/libc_replacements.c) and ltoa and
 * ultoa (esp8266_arduino/core_esp8266_noniso.c). A long has 32 bits.
 */
module Strtol {

  type byte = x: int | 0 <= x < 256
  type c_int = x: int | -0x8000_0000 <= x < 0x8000_0000

  const LONG_MAX: int := 0x7FFF_FFFF
  const LONG_MIN: int := -0x8000_0000
  const ULONG_MAX: int := 0xFFFF_FFFF
  const WORD: int := 0x1_0000_0000

  const MINUS: byte := 45
  const PLUS: byte := 43
  const ZERO: byte := 48

  /** A C string: its first NUL ends it. */
  ghost predicate Terminated(s: seq<byte>) {
    s != [] && s[|s| - 1] == 0
  }

  predicate IsSpace(c: byte) { c == 32 || 9 <= c <= 13 }

  predicate IsX(c: byte) { c == 120 || c == 88 }

  predicate IsAlnum(c: byte) { 48 <= c <= 57 || 65 <= c <= 90 || 97 <= c <= 122 }

  /** The value of a digit or letter. */
  function Digit(c: byte): nat {
    if 48 <= c <= 57 then c - 48
    else if 65 <= c <= 90 then c - 55
    else if 97 <= c <= 122 then c - 87
    else 0
  }

  /** The character is a digit of the base; no character is one of a base below 1. */
  predicate IsDigit(c: byte, base: int) { IsAlnum(c) && Digit(c) < base }

  // ----- the specification

  /** The first position from i on that is not a space. */
  function SpaceEnd(s: seq<byte>, i: nat): (j: nat)
    requires i < |s| && Terminated(s)
    ensures i <= j < |s| && !IsSpace(s[j]) && forall k :: i <= k < j ==> IsSpace(s[k])
    decreases |s| - i
  {
    if IsSpace(s[i]) then SpaceEnd(s, i + 1) else i
  }

  /** The end of the run of digits of the base that begins at i. */
  function RunEnd(s: seq<byte>, i: nat, base: int): (j: nat)
    requires i <= |s|
    ensures i <= j <= |s| && (j > i ==> base > 0)
    ensures forall k :: i <= k < j ==> IsDigit(s[k], base)
    ensures j < |s| ==> !IsDigit(s[j], base)
    decreases |s| - i
  {
    if i < |s| && IsDigit(s[i], base) then RunEnd(s, i + 1, base) else i
  }

  /** The number a run of digits denotes. */
  function Value(ds: seq<byte>, base: int): nat
    requires ds != [] ==> base > 0
  {
    if ds == [] then 0 else Value(ds[..|ds| - 1], base) * base + Digit(ds[|ds| - 1])
  }

  /** Sign, effective base, and where the digits begin. */
  datatype Header = Header(neg: bool, base: c_int, first: nat)

  /** Spaces, an optional sign, and for bases 0 and 16 an optional 0x; base 0 then means 8
      after a leading zero, and otherwise 10. */
  function HeaderOf(s: seq<byte>, base: c_int): (h: Header)
    requires Terminated(s)
    ensures h.first < |s| && h.base != 0
  {
    var i := SpaceEnd(s, 0);
    var neg := s[i] == MINUS;
    var d := if s[i] == MINUS || s[i] == PLUS then i + 1 else i;
    if (base == 0 || base == 16) && s[d] == ZERO && IsX(s[d + 1]) then Header(neg, 16, d + 2)
    else Header(neg, if base != 0 then base else if s[d] == ZERO then 8 else 10, d)
  }

  /** The magnitude of the longest run of digits, and where it ends. */
  function Magnitude(s: seq<byte>, h: Header): nat
    requires h.first <= |s|
  {
    Value(s[h.first..RunEnd(s, h.first, h.base)], h.base)
  }

  function Clamp(v: int, lo: int, hi: int): int {
    if v < lo then lo else if v > hi then hi else v
  }

  /** The result of strtol: the number, clamped to the range of a long. */
  function LongOf(s: seq<byte>, base: c_int): int
    requires Terminated(s)
  {
    var h := HeaderOf(s, base);
    Clamp(if h.neg then -(Magnitude(s, h) as int) else Magnitude(s, h), LONG_MIN, LONG_MAX)
  }

  /** The result of strtoul: clamped from above, and negated modulo 2^32 after a minus. */
  function UlongOf(s: seq<byte>, base: c_int): int
    requires Terminated(s)
  {
    var h := HeaderOf(s, base);
    var m := Magnitude(s, h);
    if m > ULONG_MAX then ULONG_MAX else if h.neg then -(m as int) % WORD else m
  }

  /** *endptr: just past the digits, or the whole text when there are none. */
  function EndOf(s: seq<byte>, base: c_int): nat
    requires Terminated(s)
  {
    var h := HeaderOf(s, base);
    var j := RunEnd(s, h.first, h.base);
    if j > h.first then j else 0
  }

  // ----- the digit loop

  /** The cut-off test: one more digit takes the number past the limit. */
  lemma CutOff(acc: nat, c: nat, base: nat, cutoff: nat, cutlim: nat, limit: nat)
    requires limit == cutoff * base + cutlim && cutlim < base && c < base
    ensures acc > cutoff || (acc == cutoff && c > cutlim) <==> acc * base + c > limit
  {
    if acc > cutoff {
      Multiplies(cutoff + 1, acc, base);
    } else if acc < cutoff {
      Multiplies(acc + 1, cutoff, base);
    }
  }

  lemma Multiplies(a: nat, b: nat, base: nat)
    requires a <= b
    ensures a * base <= b * base
  {
  }

  lemma Grows(v: nat, c: nat, base: nat, limit: nat)
    requires v > limit && base >= 1
    ensures v * base + c > limit
  {
    Multiplies(1, base, v);
  }

  lemma Split(limit: nat, base: nat)
    requires base > 0
    ensures limit == limit / base * base + limit % base && limit % base < base
  {
  }

  lemma ValueStep(s: seq<byte>, i: nat, k: nat, base: int)
    requires i <= k < |s| && base > 0
    ensures Value(s[i..k + 1], base) == Value(s[i..k], base) * base + Digit(s[k])
  {
    assert s[i..k + 1][..k - i] == s[i..k];
  }

  /** Quotient and remainder of a number by a base. */
  function Quot(v: nat, base: nat): (q: nat)
    requires base >= 2
    ensures v > 0 ==> q < v
  {
    Split(v, base);
    v / base
  }

  function Rem(v: nat, base: nat): (r: nat)
    requires base >= 2
    ensures r < base && v == Quot(v, base) * base + r
  {
    Split(v, base);
    v % base
  }

  /** The limit cut into the quotient and remainder the source compares with: by the base as
      an unsigned long. */
  ghost predicate IsCut(limit: nat, base: nat, cutoff: nat, cutlim: nat) {
    limit == cutoff * base + cutlim && cutlim < base
  }

  method CutLimit(limit: nat, base: c_int) returns (cutoff: nat, cutlim: nat)
    requires base != 0
    ensures base > 0 ==> IsCut(limit, base, cutoff, cutlim)
  {
    var divisor: nat := if base < 0 then base as int + WORD else base;
    Split(limit, divisor);
    cutoff, cutlim := limit / divisor, limit % divisor;
  }

  /** The number so far and the flag that says whether it has passed the limit. */
  ghost predicate Tracks(acc: nat, any: int, v: nat, limit: nat) {
    (any < 0 <==> v > limit) && (any >= 0 ==> acc == v) && acc <= limit
  }

  /** One digit: any says whether digits have been seen, negative once the limit is passed. */
  method AddDigit(acc: nat, any: int, c: nat, base: nat, cutoff: nat, cutlim: nat, ghost limit: nat, ghost v: nat)
    returns (acc': nat, any': int)
    requires base >= 1 && IsCut(limit, base, cutoff, cutlim) && c < base && Tracks(acc, any, v, limit)
    ensures any' != 0 && Tracks(acc', any', v * base + c, limit)
  {
    if any < 0 {
      Grows(v, c, base, limit);
    } else {
      CutOff(acc, c, base, cutoff, cutlim, limit);
    }
    acc' := acc;
    if any < 0 || acc > cutoff || (acc == cutoff && c > cutlim) {
      any' := -1;
    } else {
      any' := 1;
      acc' := acc' * base;
      acc' := acc' + c;
    }
  }

  /** The loop shared by both functions: accumulate until the run of digits ends, saturating
      at the limit without the accumulator ever passing it. */
  method Accumulate(s: seq<byte>, i: nat, base: c_int, limit: nat) returns (acc: nat, any: int, j: nat)
    requires Terminated(s) && i < |s| && base != 0
    ensures j == RunEnd(s, i, base) < |s|
    ensures any == 0 <==> j == i
    ensures any < 0 <==> Value(s[i..j], base) > limit
    ensures any >= 0 ==> acc == Value(s[i..j], base)
    ensures acc <= limit
  {
    var cutoff, cutlim := CutLimit(limit, base);
    acc, any, j := 0, 0, i;
    ghost var v := 0;
    assert s[i..i] == [];
    while true
      invariant i <= j < |s| && (j > i ==> base > 0) && RunEnd(s, i, base) == RunEnd(s, j, base)
      invariant any == 0 <==> j == i
      invariant v == Value(s[i..j], base)
      invariant Tracks(acc, any, v, limit)
      decreases |s| - j
    {
      if !IsAlnum(s[j]) {
        break;
      }
      var c := Digit(s[j]);
      if c >= base {
        break;
      }
      ValueStep(s, i, j, base);
      acc, any := AddDigit(acc, any, c, base, cutoff, cutlim, limit, v);
      v := v * base + c;
      j := j + 1;
    }
  }

  /** Spaces, sign and prefix, as both functions read them. */
  method ReadHeader(s: seq<byte>, base: c_int) returns (neg: bool, base': c_int, i: nat)
    requires Terminated(s)
    ensures Header(neg, base', i) == HeaderOf(s, base)
  {
    i := 0;
    while IsSpace(s[i])
      invariant i < |s| && SpaceEnd(s, 0) == SpaceEnd(s, i)
      decreases |s| - i
    {
      i := i + 1;
    }
    neg, base' := false, base;
    if s[i] == MINUS {
      neg := true;
      i := i + 1;
    } else if s[i] == PLUS {
      i := i + 1;
    }
    if (base' == 0 || base' == 16) && s[i] == ZERO && IsX(s[i + 1]) {
      i := i + 2;
      base' := 16;
    }
    if base' == 0 {
      base' := if s[i] == ZERO then 8 else 10;
    }
  }

  /** strtol: the clamped number, where it ends, and whether errno is set to ERANGE. */
  method Strtol(s: seq<byte>, base: c_int) returns (value: int, end: nat, erange: bool)
    requires Terminated(s)
    ensures value == LongOf(s, base) && end == EndOf(s, base)
    ensures erange <==> var h := HeaderOf(s, base); Magnitude(s, h) > if h.neg then -LONG_MIN else LONG_MAX
  {
    var neg, base', i := ReadHeader(s, base);
    var acc, any, j := Accumulate(s, i, base', if neg then -LONG_MIN else LONG_MAX);
    erange := any < 0;
    if any < 0 {
      value := if neg then LONG_MIN else LONG_MAX;
    } else {
      value := if neg then -(acc as int) else acc;
    }
    end := if any != 0 then j else 0;
  }

  /** strtoul. */
  method Strtoul(s: seq<byte>, base: c_int) returns (value: int, end: nat, erange: bool)
    requires Terminated(s)
    ensures value == UlongOf(s, base) && end == EndOf(s, base)
    ensures erange <==> Magnitude(s, HeaderOf(s, base)) > ULONG_MAX
  {
    var neg, base', i := ReadHeader(s, base);
    var acc, any, j := Accumulate(s, i, base', ULONG_MAX);
    erange := any < 0;
    if any < 0 {
      value := ULONG_MAX;
    } else {
      value := if neg then -(acc as int) % WORD else acc;
    }
    end := if any != 0 then j else 0;
  }

  // ----- writing numbers

  /** "0123456789abcdef"[d]. */
  function DigitChar(d: nat): (c: byte)
    requires d < 16
    ensures Digit(c) == d && IsAlnum(c) && !IsSpace(c) && !IsX(c) && c != MINUS && c != PLUS && c != 0
    ensures c == ZERO <==> d == 0
  {
    if d < 10 then 48 + d else 87 + d
  }

  /** The digits of a number, most significant first, with none for zero itself. */
  function Digits(v: nat, base: nat): seq<byte>
    requires 2 <= base <= 16
    decreases v
  {
    if v == 0 then [] else Digits(Quot(v, base), base) + [DigitChar(Rem(v, base))]
  }

  /** The text of a number: at least one digit. */
  function Rendered(v: nat, base: nat): (t: seq<byte>)
    requires 2 <= base <= 16
    ensures t != []
  {
    if v == 0 then [ZERO] else Digits(v, base)
  }

  function SignedText(v: int, base: nat): seq<byte>
    requires 2 <= base <= 16
  {
    if v < 0 then [MINUS] + Rendered(-v, base) else Rendered(v, base)
  }

  lemma {:induction false} DigitsValue(v: nat, base: nat)
    requires 2 <= base <= 16
    ensures Value(Digits(v, base), base) == v
    ensures forall i :: 0 <= i < |Digits(v, base)| ==>
              IsDigit(Digits(v, base)[i], base) && IsDigitChar(Digits(v, base)[i])
    decreases v
  {
    if v > 0 {
      DigitsValue(Quot(v, base), base);
      var t := Digits(v, base);
      assert t[..|t| - 1] == Digits(Quot(v, base), base);
    }
  }

  predicate IsDigitChar(c: byte) {
    Digit(c) < 16 && !IsSpace(c) && !IsX(c) && c != MINUS && c != PLUS && c != 0
  }

  /** A text of digits of the base that mean nothing else. */
  ghost predicate PlainDigits(t: seq<byte>, base: int) {
    t != [] && forall i :: 0 <= i < |t| ==> IsDigit(t[i], base) && IsDigitChar(t[i])
  }

  lemma RenderedValue(v: nat, base: nat)
    requires 2 <= base <= 16
    ensures Value(Rendered(v, base), base) == v
    ensures PlainDigits(Rendered(v, base), base)
  {
    DigitsValue(v, base);
    assert [ZERO][..0] == [];
  }

  lemma {:induction false} RunOver(s: seq<byte>, i: nat, j: nat, base: int)
    requires i <= j < |s| && !IsDigit(s[j], base) && forall k :: i <= k < j ==> IsDigit(s[k], base)
    ensures RunEnd(s, i, base) == j
    decreases j - i
  {
    if i < j { RunOver(s, i + 1, j, base); }
  }

  lemma HeaderBack(s: seq<byte>, t: seq<byte>, neg: bool, base: c_int)
    requires s == (if neg then [MINUS] else []) + t + [0] && PlainDigits(t, base)
    ensures Terminated(s) && HeaderOf(s, base) == Header(neg, base, if neg then 1 else 0)
  {
    var f := if neg then 1 else 0;
    assert s[f] == t[0];
    assert s[f + 1] == if |t| > 1 then t[1] else 0;
    assert SpaceEnd(s, 0) == 0;
  }

  lemma RunBack(s: seq<byte>, t: seq<byte>, f: nat, base: int)
    requires f + |t| + 1 == |s| && s[f..|s| - 1] == t && s[|s| - 1] == 0 && PlainDigits(t, base)
    ensures RunEnd(s, f, base) == |s| - 1
  {
    forall k | f <= k < |s| - 1 ensures IsDigit(s[k], base) {
      assert s[k] == t[k - f];
    }
    RunOver(s, f, |s| - 1, base);
  }

  /** Reading back a text with a sign and digits: nothing but the digits is consumed. */
  lemma ReadsBack(t: seq<byte>, neg: bool, v: nat, base: nat)
    requires 2 <= base <= 16 && t == Rendered(v, base)
    ensures var s := (if neg then [MINUS] else []) + t + [0];
            Terminated(s) && HeaderOf(s, base) == Header(neg, base, if neg then 1 else 0)
            && Magnitude(s, HeaderOf(s, base)) == v && EndOf(s, base) == |s| - 1
  {
    var s, f := (if neg then [MINUS] else []) + t + [0], if neg then 1 else 0;
    RenderedValue(v, base);
    HeaderBack(s, t, neg, base);
    assert s[f..|s| - 1] == t;
    RunBack(s, t, f, base);
  }

  /** strtol undoes ltoa, for every long and every base it writes. */
  lemma LongRoundTrip(v: int, base: nat)
    requires LONG_MIN <= v <= LONG_MAX && 2 <= base <= 16
    ensures LongOf(SignedText(v, base) + [0], base) == v
  {
    var m := if v < 0 then -v else v;
    ReadsBack(Rendered(m, base), v < 0, m, base);
    assert SignedText(v, base) + [0] == (if v < 0 then [MINUS] else []) + Rendered(m, base) + [0];
  }

  /** strtoul undoes ultoa. */
  lemma UlongRoundTrip(v: nat, base: nat)
    requires v <= ULONG_MAX && 2 <= base <= 16
    ensures UlongOf(Rendered(v, base) + [0], base) == v
  {
    ReadsBack(Rendered(v, base), false, v, base);
    assert Rendered(v, base) + [0] == [] + Rendered(v, base) + [0];
  }

  // ----- ltoa and ultoa

  function Reversed(s: seq<byte>): (r: seq<byte>)
    ensures |r| == |s| && forall i :: 0 <= i < |s| ==> r[i] == s[|s| - 1 - i]
  {
    seq(|s|, (i: nat) requires i < |s| => s[|s| - 1 - i])
  }

  /** reverse(begin, end), in place. */
  method Reverse(a: array<byte>, end: nat)
    requires end <= a.Length
    modifies a
    ensures a[..] == Reversed(old(a[..end])) + old(a[end..])
  {
    var lo, hi := 0, end - 1;
    while lo < hi
      invariant 0 <= lo && hi == end - 1 - lo && lo <= hi + 2
      invariant forall k :: 0 <= k < lo || hi < k < end ==> a[k] == old(a[end - 1 - k])
      invariant forall k :: lo <= k <= hi ==> a[k] == old(a[k])
      invariant a[end..] == old(a[end..])
    {
      var tmp := a[hi];
      a[hi] := a[lo];
      a[lo] := tmp;
      lo := lo + 1;
      hi := hi - 1;
    }
    assert a[..end] == Reversed(old(a[..end]));
  }

  lemma DigitLeft(q: nat, base: nat, tmp: nat)
    requires 2 <= base <= 16 && tmp == Quot(q, base)
    ensures q - tmp * base == Rem(q, base)
  {
  }

  lemma ReversedSnoc(s: seq<byte>, c: byte)
    ensures Reversed([c] + s) == Reversed(s) + [c]
    ensures Reversed(s + [c]) == [c] + Reversed(s)
  {
  }

  lemma ReversedTwice(s: seq<byte>)
    ensures Reversed(Reversed(s)) == s
  {
  }

  /** The digits out so far are the low ones, backwards; quotient has the rest. */
  ghost predicate LowDigits(value: nat, base: nat, quotient: nat, done: seq<byte>)
    requires 2 <= base <= 16
  {
    Rendered(value, base) == Digits(quotient, base) + Reversed(done)
  }

  lemma MoveDigit(high: seq<byte>, c: byte, done: seq<byte>)
    ensures (high + [c]) + Reversed(done) == high + Reversed(done + [c])
  {
    ReversedSnoc(done, c);
    assert (high + [c]) + Reversed(done) == high + ([c] + Reversed(done));
  }

  lemma FirstDigit(value: nat, base: nat)
    requires 2 <= base <= 16
    ensures LowDigits(value, base, Quot(value, base), [DigitChar(Rem(value, base))]) && |Rendered(value, base)| >= 1
  {
    MoveDigit(Digits(Quot(value, base), base), DigitChar(Rem(value, base)), []);
    assert [] + [DigitChar(Rem(value, base))] == [DigitChar(Rem(value, base))];
    if value == 0 {
      assert Digits(0, base) == [] && Rendered(0, base) == [DigitChar(0)];
    } else {
      assert Digits(value, base) + Reversed([]) == Digits(value, base);
    }
  }

  lemma NextDigit(value: nat, base: nat, q: nat, done: seq<byte>)
    requires 2 <= base <= 16 && q > 0 && LowDigits(value, base, q, done)
    ensures LowDigits(value, base, Quot(q, base), done + [DigitChar(Rem(q, base))]) && |done| < |Rendered(value, base)|
  {
    var c, rest := DigitChar(Rem(q, base)), Digits(Quot(q, base), base);
    assert Digits(q, base) == rest + [c];
    MoveDigit(rest, c, done);
  }

  method StoreDigit(result: array<byte>, out: nat, c: byte)
    requires out < result.Length
    modifies result
    ensures result[..out + 1] == old(result[..out]) + [c] && result[out + 1..] == old(result[out + 1..])
  {
    result[out] := c;
  }

  lemma Behind(now: seq<byte>, was: seq<byte>, out: nat)
    requires out < |now| == |was| && now[out..] == was[out..]
    ensures now[out + 1..] == was[out + 1..]
  {
    assert now[out + 1..] == now[out..][1..] && was[out + 1..] == was[out..][1..];
  }

  /** The digit loop: least significant first. */
  method WriteDigits(result: array<byte>, value: nat, base: nat) returns (out: nat)
    requires 2 <= base <= 16 && |Rendered(value, base)| <= result.Length
    modifies result
    ensures out == |Rendered(value, base)| && result[..out] == Reversed(Rendered(value, base))
    ensures result[out..] == old(result[out..])
  {
    ghost var was := result[..];
    FirstDigit(value, base);
    var quotient: nat := Quot(value, base);
    DigitLeft(value, base, quotient);
    StoreDigit(result, 0, DigitChar(value - quotient * base));
    out := 1;
    assert result[..1] == [DigitChar(Rem(value, base))];
    while quotient != 0
      invariant out <= |Rendered(value, base)| && LowDigits(value, base, quotient, result[..out])
      invariant result[out..] == was[out..]
    {
      NextDigit(value, base, quotient, result[..out]);
      Behind(result[..], was, out);
      var tmp := Quot(quotient, base);
      DigitLeft(quotient, base, tmp);
      StoreDigit(result, out, DigitChar(quotient - tmp * base));
      out := out + 1;
      quotient := tmp;
    }
    assert Rendered(value, base) == [] + Reversed(result[..out]);
    ReversedTwice(result[..out]);
  }

  /** Turning round what is written and ending it. */
  method Finish(result: array<byte>, out: nat, ghost t: seq<byte>)
    requires out < result.Length && result[..out] == Reversed(t)
    modifies result
    ensures result[..] == t + [0] + old(result[out + 1..])
  {
    ghost var tail := result[out..];
    assert tail[1..] == result[out + 1..];
    Reverse(result, out);
    ReversedTwice(t);
    assert result[..] == t + tail;
    result[out] := 0;
  }

  /** ltoa, for a long whose absolute value is a long. */
  method Ltoa(value: int, result: array<byte>, base: c_int)
    requires LONG_MIN < value <= LONG_MAX && result.Length > 0
    requires 2 <= base <= 16 ==> |SignedText(value, base)| < result.Length
    modifies result
    ensures 2 <= base <= 16 ==>
              result[..] == SignedText(value, base) + [0] + old(result[|SignedText(value, base)| + 1..])
    ensures !(2 <= base <= 16) ==> result[..] == [0] + old(result[1..])
  {
    ghost var was := result[..];
    if base < 2 || base > 16 {
      result[0] := 0;
      return;
    }
    var quotient := if value < 0 then -value else value;
    var out := WriteDigits(result, quotient, base);
    if value < 0 {
      ReversedSnoc(Rendered(quotient, base), MINUS);
      Behind(result[..], was, out);
      StoreDigit(result, out, MINUS);
      out := out + 1;
    }
    Behind(result[..], was, out);
    Finish(result, out, SignedText(value, base));
  }

  /** ultoa. */
  method Ultoa(value: nat, result: array<byte>, base: c_int)
    requires value <= ULONG_MAX && result.Length > 0
    requires 2 <= base <= 16 ==> |Rendered(value, base)| < result.Length
    modifies result
    ensures 2 <= base <= 16 ==>
              result[..] == Rendered(value, base) + [0] + old(result[|Rendered(value, base)| + 1..])
    ensures !(2 <= base <= 16) ==> result[..] == [0] + old(result[1..])
  {
    ghost var was := result[..];
    if base < 2 || base > 16 {
      result[0] := 0;
      return;
    }
    var out := WriteDigits(result, value, base);
    Behind(result[..], was, out);
    Finish(result, out, Rendered(value, base));
  }
}
