/**
 * Base64 (node_main/polarssl/base64.c, RFC 1521 section 5.2): what the encoder writes, what
 * the decoder accepts, and the two inverse to each other.
 */
module Base64 {

  type byte = x: int | 0 <= x < 256

  const SPACE: byte := 32
  const CR: byte := 13
  const LF: byte := 10
  const EQUALS: byte := 61

  const ERR_BUFFER_TOO_SMALL: int := -0x002A
  const ERR_INVALID_CHARACTER: int := -0x002C

  // ----- the alphabet

  /** base64_enc_map. */
  function EncMap(v: nat): (c: byte)
    requires v < 64
  {
    if v < 26 then 65 + v
    else if v < 52 then 71 + v
    else if v < 62 then v - 4
    else if v == 62 then 43 else 47
  }

  /** base64_dec_map: the value of a letter, 64 for the pad, 127 for anything else. */
  function DecMap(c: nat): (v: byte)
    requires c < 128
  {
    if 65 <= c <= 90 then c - 65
    else if 97 <= c <= 122 then c - 71
    else if 48 <= c <= 57 then c + 4
    else if c == 43 then 62
    else if c == 47 then 63
    else if c == EQUALS then 64
    else 127
  }

  predicate IsLetter(c: byte) { c < 128 && DecMap(c) < 64 }

  predicate IsBlank(c: byte) { c == SPACE || c == CR || c == LF }

  lemma MapsInverse(v: nat)
    requires v < 64
    ensures IsLetter(EncMap(v)) && DecMap(EncMap(v)) == v && !IsBlank(EncMap(v)) && EncMap(v) != EQUALS
  {
  }

  // ----- encoding

  function EncodeThree(a: byte, b: byte, c: byte): seq<byte> {
    [EncMap(a / 4), EncMap(a % 4 * 16 + b / 16), EncMap(b % 16 * 4 + c / 64), EncMap(c % 64)]
  }

  /** The last one or two bytes, padded. */
  function EncodeTail(s: seq<byte>): seq<byte>
    requires 0 < |s| < 3
  {
    var a, b := s[0], if |s| == 2 then s[1] else 0;
    [EncMap(a / 4), EncMap(a % 4 * 16 + b / 16), if |s| == 2 then EncMap(b % 16 * 4) else EQUALS, EQUALS]
  }

  function Encoded(s: seq<byte>): (t: seq<byte>)
    ensures |t| == (|s| + 2) / 3 * 4
  {
    if s == [] then []
    else if |s| < 3 then EncodeTail(s)
    else EncodeThree(s[0], s[1], s[2]) + Encoded(s[3..])
  }

  // ----- decoding

  /** The characters that carry data or padding. */
  function Significant(s: seq<byte>): (t: seq<byte>)
    ensures |t| <= |s|
  {
    if s == [] then []
    else
      var front := Significant(s[..|s| - 1]);
      if IsBlank(s[|s| - 1]) then front else front + [s[|s| - 1]]
  }

  /** Carriage returns only before line feeds, and spaces only before line ends or the end. */
  ghost predicate WellSpaced(s: seq<byte>) {
    && (forall i :: 0 <= i < |s| && s[i] == CR ==> i + 1 < |s| && s[i + 1] == LF)
    && (forall i :: 0 <= i < |s| && s[i] == SPACE ==> i + 1 == |s| || IsBlank(s[i + 1]))
  }

  /** Letters, then at most two pads. */
  ghost predicate WellPadded(t: seq<byte>) {
    exists p: nat :: p <= 2 && p <= |t| && PaddedBy(t, p)
  }

  ghost predicate PaddedBy(t: seq<byte>, p: nat)
    requires p <= |t|
  {
    && (forall i :: 0 <= i < |t| - p ==> IsLetter(t[i]))
    && (forall i :: |t| - p <= i < |t| ==> t[i] == EQUALS)
  }

  /** What the first pass accepts. */
  ghost predicate Acceptable(s: seq<byte>) {
    WellSpaced(s) && WellPadded(Significant(s))
  }

  function Value(c: byte): nat {
    if IsLetter(c) then DecMap(c) else 0
  }

  /** The bytes of four characters: three, less one for each pad. */
  function DecodeFour(a: byte, b: byte, c: byte, d: byte): (s: seq<byte>)
    ensures |s| <= 3
  {
    var x := Value(a) * 262144 + Value(b) * 4096 + Value(c) * 64 + Value(d);
    var all := [x / 65536 % 256, x / 256 % 256, x % 256];
    if d == EQUALS then if c == EQUALS then all[..1] else all[..2] else all
  }

  /** The bytes of the complete groups of four. */
  function Decoded(t: seq<byte>): (s: seq<byte>) {
    if |t| < 4 then []
    else DecodeFour(t[0], t[1], t[2], t[3]) + Decoded(t[4..])
  }

  // ----- the round trip

  /** Three bytes cut into four six-bit values and put together again. */
  lemma Rejoined(a: int, b: int, c: int)
    requires 0 <= a < 256 && 0 <= b < 256 && 0 <= c < 256
    ensures a / 4 * 262144 + (a % 4 * 16 + b / 16) * 4096 + (b % 16 * 4 + c / 64) * 64 + c % 64
            == a * 65536 + b * 256 + c
  {
    assert a == 4 * (a / 4) + a % 4;
    assert b == 16 * (b / 16) + b % 16;
    assert c == 64 * (c / 64) + c % 64;
  }

  lemma Bytes(x: int, a: int, b: int, c: int)
    requires 0 <= a < 256 && 0 <= b < 256 && 0 <= c < 256 && x == a * 65536 + b * 256 + c
    ensures x / 65536 % 256 == a && x / 256 % 256 == b && x % 256 == c
  {
    assert x / 65536 == a;
    assert x / 256 == a * 256 + b;
  }

  lemma FourBack(a: byte, b: byte, c: byte)
    ensures var t := EncodeThree(a, b, c); DecodeFour(t[0], t[1], t[2], t[3]) == [a, b, c]
  {
    MapsInverse(a / 4);
    MapsInverse(a % 4 * 16 + b / 16);
    MapsInverse(b % 16 * 4 + c / 64);
    MapsInverse(c % 64);
    Rejoined(a, b, c);
    Bytes(a as int * 65536 + b as int * 256 + c as int, a, b, c);
  }

  lemma TailBack(s: seq<byte>)
    requires 0 < |s| < 3
    ensures var t := EncodeTail(s); DecodeFour(t[0], t[1], t[2], t[3]) == s
  {
    var a, b := s[0], if |s| == 2 then s[1] else 0;
    MapsInverse(a / 4);
    MapsInverse(a % 4 * 16 + b / 16);
    MapsInverse(b % 16 * 4);
    Rejoined(a, b, 0);
    Bytes(a as int * 65536 + b as int * 256, a, b, 0);
  }

  /** Decoding undoes encoding. */
  lemma {:induction false} DecodesBack(s: seq<byte>)
    ensures Decoded(Encoded(s)) == s
  {
    if s == [] {
    } else if |s| < 3 {
      TailBack(s);
      assert Encoded(s)[4..] == [];
      assert s + [] == s;
    } else {
      FourBack(s[0], s[1], s[2]);
      DecodesBack(s[3..]);
      assert Encoded(s)[4..] == Encoded(s[3..]);
      assert s == [s[0], s[1], s[2]] + s[3..];
    }
  }

  /** The encoder's output has no blanks, and its letters come before at most two pads. */
  lemma {:induction false} EncodedShape(s: seq<byte>)
    ensures var t, p := Encoded(s), Pads(|s|);
            p <= |t| && PaddedBy(t, p) && forall i :: 0 <= i < |t| ==> !IsBlank(t[i])
  {
    if s == [] {
    } else if |s| < 3 {
      TailShape(s);
    } else {
      EncodedShape(s[3..]);
      ThreeShape(s[0], s[1], s[2]);
      assert Pads(|s| - 3) == Pads(|s|);
      Prepended(EncodeThree(s[0], s[1], s[2]), Encoded(s[3..]), Pads(|s|));
    }
  }

  /** Pads in the encoding of n bytes. */
  function Pads(n: nat): nat { (3 - n % 3) % 3 }

  lemma Prepended(h: seq<byte>, t: seq<byte>, p: nat)
    requires |h| == 4 && p <= |t| && PaddedBy(t, p) && forall i :: 0 <= i < |t| ==> !IsBlank(t[i])
    requires forall i :: 0 <= i < 4 ==> IsLetter(h[i]) && !IsBlank(h[i])
    ensures PaddedBy(h + t, p) && forall i :: 0 <= i < |h + t| ==> !IsBlank((h + t)[i])
  {
  }

  lemma ThreeShape(a: byte, b: byte, c: byte)
    ensures forall i :: 0 <= i < 4 ==> IsLetter(EncodeThree(a, b, c)[i]) && !IsBlank(EncodeThree(a, b, c)[i])
  {
    MapsInverse(a / 4);
    MapsInverse(a % 4 * 16 + b / 16);
    MapsInverse(b % 16 * 4 + c / 64);
    MapsInverse(c % 64);
  }

  lemma TailShape(s: seq<byte>)
    requires 0 < |s| < 3
    ensures PaddedBy(EncodeTail(s), 3 - |s|) && forall i :: 0 <= i < 4 ==> !IsBlank(EncodeTail(s)[i])
  {
    var a, b := s[0], if |s| == 2 then s[1] else 0;
    MapsInverse(a / 4);
    MapsInverse(a % 4 * 16 + b / 16);
    MapsInverse(b % 16 * 4);
  }

  lemma {:induction false} NothingBlank(t: seq<byte>)
    requires forall i :: 0 <= i < |t| ==> !IsBlank(t[i])
    ensures Significant(t) == t
  {
    if t != [] {
      NothingBlank(t[..|t| - 1]);
      assert t == t[..|t| - 1] + [t[|t| - 1]];
    }
  }

  /** The decoder accepts every output of the encoder and gives back what went in. */
  lemma EncodeDecode(s: seq<byte>)
    ensures Acceptable(Encoded(s)) && Decoded(Significant(Encoded(s))) == s
  {
    EncodedShape(s);
    NothingBlank(Encoded(s));
    DecodesBack(s);
  }

  // ----- the length promised by the first pass

  /** ((n * 6 + 7) >> 3) - j for n significant characters, j of them pads. */
  function Needed(n: nat, j: nat): int { (n * 6 + 7) / 8 - j }

  /** How many bytes n letters and p pads decode to. */
  function Yield(d: nat, p: nat): nat {
    d / 4 * 3 + if d % 4 != 0 && p >= 4 - d % 4 then d % 4 - 1 else 0
  }

  lemma YieldStep(d: nat, p: nat)
    requires d >= 4
    ensures Yield(d, p) == Yield(d - 4, p) + 3
  {
    assert d / 4 == (d - 4) / 4 + 1 && d % 4 == (d - 4) % 4;
  }

  lemma YieldFits(d: nat, p: nat)
    requires p <= 2
    ensures Yield(d, p) <= Needed(d + p, p)
  {
    var q, r := d / 4, d % 4;
    assert d == 4 * q + r;
  }

  lemma {:induction false} DecodedLength(t: seq<byte>, p: nat)
    requires p <= 2 && p <= |t| && PaddedBy(t, p)
    ensures |Decoded(t)| == Yield(|t| - p, p)
  {
    if |t| >= 4 {
      var d := |t| - p;
      if d >= 4 {
        assert t[3] != EQUALS;
        DecodedLength(t[4..], p);
        YieldStep(d, p);
      } else {
        var rest := t[4..];
        assert |rest| < 4;
      }
    }
  }

  /** The second pass never writes more than the first pass counted. */
  lemma DecodedFits(t: seq<byte>, p: nat)
    requires p <= 2 && p <= |t| && PaddedBy(t, p)
    ensures |Decoded(t)| <= Needed(|t|, p)
  {
    DecodedLength(t, p);
    YieldFits(|t| - p, p);
  }

  // ----- the encoder

  /** The encoder's count of output characters. */
  lemma CountedLength(slen: nat, n: nat, r: nat)
    requires n == slen * 8 / 6 && r == slen * 8 - n * 6
    ensures r == 0 || r == 2 || r == 4
    ensures (if r == 2 then n + 3 else if r == 4 then n + 2 else n) == (slen + 2) / 3 * 4
  {
    var q, m := slen / 3, slen % 3;
    assert slen == 3 * q + m;
    assert slen * 8 == 6 * (4 * q) + 8 * m;
    if m == 0 { assert n == 4 * q; } else if m == 1 { assert n == 4 * q + 1; } else { assert n == 4 * q + 2; }
  }

  lemma Store(before: seq<byte>, now: seq<byte>, p: nat, four: seq<byte>)
    requires |four| == 4 && p + 4 <= |before| == |now|
    requires now == before[p := four[0]][p + 1 := four[1]][p + 2 := four[2]][p + 3 := four[3]]
    ensures now[..p + 4] == before[..p] + four && now[p + 4..] == before[p + 4..]
  {
  }

  /** Four characters written at p. */
  method Put(dst: array<byte>, p: nat, a: byte, b: byte, c: byte, d: byte)
    requires p + 4 <= dst.Length
    modifies dst
    ensures dst[..p + 4] == old(dst[..p]) + [a, b, c, d] && dst[p + 4..] == old(dst[p + 4..])
  {
    ghost var before := dst[..];
    dst[p] := a;
    dst[p + 1] := b;
    dst[p + 2] := c;
    dst[p + 3] := d;
    Store(before, dst[..], p, [a, b, c, d]);
  }

  /** The number of output characters, rounded up from whole six-bit units. */
  method OutputLength(slen: nat) returns (n: nat)
    ensures n == (slen + 2) / 3 * 4
  {
    n := slen * 8 / 6;
    CountedLength(slen, n, slen * 8 - n * 6);
    match slen * 8 - n * 6 {
      case 2 => n := n + 3;
      case 4 => n := n + 2;
      case _ =>
    }
  }

  /** base64_encode into a separate buffer: the text and a terminating zero, or the size needed. */
  method Encode(dst: array<byte>, dlen: nat, src: array<byte>, slen: nat) returns (ret: int, dlen': nat)
    requires dlen <= dst.Length && slen <= src.Length && dst != src
    modifies dst
    ensures slen == 0 ==> ret == 0 && dlen' == 0 && dst[..] == old(dst[..])
    ensures slen > 0 && dlen < |Encoded(src[..slen])| + 1 ==>
              ret == ERR_BUFFER_TOO_SMALL && dlen' == |Encoded(src[..slen])| + 1 && dst[..] == old(dst[..])
    ensures slen > 0 && dlen >= |Encoded(src[..slen])| + 1 ==>
              && ret == 0 && dlen' == |Encoded(src[..slen])| < dlen
              && dst[..dlen' + 1] == Encoded(src[..slen]) + [0] && dst[dlen' + 1..] == old(dst[dlen' + 1..])
  {
    if slen == 0 {
      return 0, 0;
    }
    var n := OutputLength(slen);
    if dlen < n + 1 {
      return ERR_BUFFER_TOO_SMALL, n + 1;
    }
    ghost var was := dst[..];
    var p := EncodeText(dst, src, slen);
    ret, dlen' := 0, p;
    ghost var mid := dst[..];
    dst[p] := 0;
    assert dst[..] == mid[p := 0];
    Closed(was, mid, p, 0);
  }

  /** The groups of three, and what is left over. */
  method EncodeText(dst: array<byte>, src: array<byte>, slen: nat) returns (p: nat)
    requires dst != src && 0 < slen <= src.Length && (slen + 2) / 3 * 4 <= dst.Length
    modifies dst
    ensures p <= dst.Length && dst[..p] == Encoded(src[..slen]) && dst[p..] == old(dst[p..])
  {
    ghost var s, g := src[..slen], slen / 3;
    var n := slen / 3 * 3;
    GroupsBound(slen, g);
    p := EncodeGroups(dst, src, slen, n, s, g);
    assert dst[..][..p] == dst[..p];
    if n < slen {
      p := EncodeRest(dst, src, slen, n, p, s);
    } else {
      assert s[n..] == [];
    }
  }

  lemma Closed<T>(was: seq<T>, mid: seq<T>, p: nat, z: T)
    requires p < |was| == |mid| && mid[p..] == was[p..]
    ensures mid[p := z][..p + 1] == mid[..p] + [z] && mid[p := z][p + 1..] == was[p + 1..]
  {
    assert mid[p + 1..] == mid[p..][1..] && was[p + 1..] == was[p..][1..];
  }

  /** Whole groups of three, and nothing beyond their text. */
  ghost predicate GroupsIn(s: seq<byte>, k: nat, was: seq<byte>, now: seq<byte>) {
    && 3 * k <= |s| && 4 * k <= |now| == |was|
    && GroupsDone(s, 3 * k, now[..4 * k]) && now[4 * k..] == was[4 * k..]
  }

  /** The loop over whole groups of three. */
  method EncodeGroups(dst: array<byte>, src: array<byte>, slen: nat, n: nat, ghost s: seq<byte>, ghost g: nat)
    returns (p: nat)
    requires dst != src && slen <= src.Length && s == src[..slen]
    requires n == 3 * g <= slen && 4 * g <= dst.Length
    modifies dst
    ensures p == 4 * g && GroupsIn(s, g, old(dst[..]), dst[..])
  {
    ghost var k, was := 0, dst[..];
    var i := 0;
    p := 0;
    NoneDone(s, was);
    while i < n
      invariant i == 3 * k && p == 4 * k && k <= g
      invariant GroupsIn(s, k, was, dst[..])
    {
      RoomForOne(k, g);
      NextGroup(dst, p, src, i, slen, s, was, k);
      p := p + 4;
      i := i + 3;
      k := k + 1;
    }
    assert k == g;
  }

  lemma TailKept<T>(was: seq<T>, mid: seq<T>, now: seq<T>, p: nat, n: nat)
    requires p + n <= |was| == |mid| == |now| && mid[p..] == was[p..] && now[p + n..] == mid[p + n..]
    ensures now[p + n..] == was[p + n..]
  {
    assert was[p + n..] == was[p..][n..] && mid[p + n..] == mid[p..][n..];
  }

  lemma NoneDone(s: seq<byte>, was: seq<byte>)
    ensures GroupsIn(s, 0, was, was)
  {
    assert s[0..] == s && [] + Encoded(s) == Encoded(s);
  }

  lemma RoomForOne(k: nat, g: nat)
    requires 3 * k < 3 * g
    ensures k + 1 <= g && 3 * k + 3 <= 3 * g && 4 * k + 4 <= 4 * g
  {
  }

  method NextGroup(dst: array<byte>, p: nat, src: array<byte>, i: nat, slen: nat, ghost s: seq<byte>,
                   ghost was: seq<byte>, ghost k: nat)
    requires dst != src && p + 4 <= dst.Length && i + 3 <= slen <= src.Length && s == src[..slen]
    requires i == 3 * k && p == 4 * k && GroupsIn(s, k, was, dst[..])
    modifies dst
    ensures GroupsIn(s, k + 1, was, dst[..])
  {
    ghost var mid := dst[..];
    assert src[i] == s[i] && src[i + 1] == s[i + 1] && src[i + 2] == s[i + 2];
    EncodeGroup(dst, p, src[i], src[i + 1], src[i + 2], s, i);
    TailKept(was, mid, dst[..], p, 4);
    assert dst[..][..p + 4] == dst[..p + 4];
  }

  /** One group of three. */
  method EncodeGroup(dst: array<byte>, p: nat, c1: byte, c2: byte, c3: byte, ghost s: seq<byte>, ghost i: nat)
    requires p + 4 <= dst.Length && i + 3 <= |s| && c1 == s[i] && c2 == s[i + 1] && c3 == s[i + 2]
    requires GroupsDone(s, i, dst[..p])
    modifies dst
    ensures GroupsDone(s, i + 3, dst[..p + 4]) && dst[p + 4..] == old(dst[p + 4..])
  {
    EncodeOneGroup(s, i, dst[..p]);
    Put(dst, p, EncMap(c1 / 4), EncMap(c1 % 4 * 16 + c2 / 16), EncMap(c2 % 16 * 4 + c3 / 64), EncMap(c3 % 64));
  }

  /** The last one or two bytes. */
  method EncodeRest(dst: array<byte>, src: array<byte>, slen: nat, i: nat, p0: nat, ghost s: seq<byte>) returns (p: nat)
    requires dst != src && i < slen <= src.Length && slen < i + 3 && p0 + 4 <= dst.Length && s == src[..slen]
    requires GroupsDone(s, i, dst[..p0])
    modifies dst
    ensures p == p0 + 4 && dst[..p] == Encoded(s) && dst[p..] == old(dst[p..])
  {
    ghost var u := s[i..];
    var c1 := src[i];
    var c2 := if i + 1 < slen then src[i + 1] else 0;
    var third := if i + 1 < slen then EncMap(c2 % 16 * 4) else EQUALS;
    Put(dst, p0, EncMap(c1 / 4), EncMap(c1 % 4 * 16 + c2 / 16), third, EQUALS);
    assert EncodeTail(u) == Encoded(u);
    p := p0 + 4;
  }

  /** The output so far is what the first i bytes encode to. */
  ghost predicate GroupsDone(s: seq<byte>, i: nat, done: seq<byte>) {
    i <= |s| && done + Encoded(s[i..]) == Encoded(s)
  }

  lemma EncodeOneGroup(s: seq<byte>, i: nat, done: seq<byte>)
    requires i + 3 <= |s| && GroupsDone(s, i, done)
    ensures GroupsDone(s, i + 3, done + EncodeThree(s[i], s[i + 1], s[i + 2]))
  {
    assert s[i..][3..] == s[i + 3..];
    assert (done + EncodeThree(s[i], s[i + 1], s[i + 2])) + Encoded(s[i + 3..])
        == done + (EncodeThree(s[i], s[i + 1], s[i + 2]) + Encoded(s[i + 3..]));
  }

  lemma GroupsBound(slen: nat, g: nat)
    requires g == slen / 3
    ensures 3 * g == slen / 3 * 3 <= slen < 3 * g + 3
    ensures (slen + 2) / 3 * 4 == if 3 * g < slen then 4 * g + 4 else 4 * g
  {
  }

  // ----- the decoder's first pass

  lemma {:induction false} SignificantPrefix(s: seq<byte>, m: nat)
    requires m <= |s|
    ensures Significant(s[..m]) <= Significant(s)
  {
    if m < |s| {
      SignificantPrefix(s[..|s| - 1], m);
      assert s[..|s| - 1][..m] == s[..m];
    } else {
      assert s[..m] == s;
    }
  }

  lemma SignificantStep(s: seq<byte>, i: nat)
    requires i < |s|
    ensures Significant(s[..i + 1]) == if IsBlank(s[i]) then Significant(s[..i]) else Significant(s[..i]) + [s[i]]
  {
    assert s[..i + 1][..i] == s[..i];
  }

  function CountPads(t: seq<byte>): nat {
    if t == [] then 0 else CountPads(t[..|t| - 1]) + if t[|t| - 1] == EQUALS then 1 else 0
  }

  lemma {:induction false} PadsCounted(t: seq<byte>, p: nat)
    requires p <= |t| && PaddedBy(t, p)
    ensures CountPads(t) == p
  {
    if t != [] {
      assert PaddedBy(t[..|t| - 1], if p == 0 then 0 else p - 1);
      PadsCounted(t[..|t| - 1], if p == 0 then 0 else p - 1);
    }
  }

  lemma PadsUnique(t: seq<byte>, p: nat, q: nat)
    requires p <= |t| && q <= |t| && PaddedBy(t, p) && PaddedBy(t, q)
    ensures p == q
  {
    PadsCounted(t, p);
    PadsCounted(t, q);
  }

  /** A prefix of an acceptable text is acceptable, with the pads it has. */
  lemma PaddedPrefix(t: seq<byte>, u: seq<byte>)
    requires u <= t && WellPadded(t)
    ensures WellPadded(u)
  {
    var p: nat :| p <= 2 && p <= |t| && PaddedBy(t, p);
    var q := if p <= |t| - |u| then 0 else p - (|t| - |u|);
    assert PaddedBy(u, q);
  }

  /** The three ways in which the next significant character ends the first pass. */
  lemma Rejected(s: seq<byte>, i: nat, j: nat)
    requires i < |s| && !IsBlank(s[i])
    requires var t := Significant(s[..i]); j <= |t| && PaddedBy(t, j)
    requires (s[i] == EQUALS && j + 1 > 2) || (s[i] != EQUALS && !IsLetter(s[i])) || (IsLetter(s[i]) && j != 0)
    ensures !WellPadded(Significant(s))
  {
    var t := Significant(s[..i]);
    var u := t + [s[i]];
    SignificantStep(s, i);
    SignificantPrefix(s, i + 1);
    if WellPadded(Significant(s)) {
      PaddedPrefix(Significant(s), u);
      var q: nat :| q <= 2 && q <= |u| && PaddedBy(u, q);
      if q > 0 {
        OneFewer(t, s[i], q);
        PadsUnique(t, j, q - 1);
      } else {
        NoPadBefore(t, s[i], j);
      }
    }
  }

  lemma NoPadBefore(t: seq<byte>, c: byte, j: nat)
    requires j <= |t| && PaddedBy(t, j) && PaddedBy(t + [c], 0)
    ensures j == 0 && IsLetter(c)
  {
    var u := t + [c];
    assert u[|t|] == c && u[..|t|] == t;
    PadsCounted(t, j);
    PadsCounted(u, 0);
  }

  lemma OneFewer(t: seq<byte>, c: byte, q: nat)
    requires 0 < q <= |t| + 1 && PaddedBy(t + [c], q)
    ensures PaddedBy(t, q - 1) && c == EQUALS
  {
    var u := t + [c];
    assert u[|t|] == c;
    forall i | 0 <= i < |t| - (q - 1) ensures IsLetter(t[i]) { assert u[i] == t[i]; }
    forall i | |t| - (q - 1) <= i < |t| ensures t[i] == EQUALS { assert u[i] == t[i]; }
  }

  lemma OneMorePad(t: seq<byte>, j: nat)
    requires j <= |t| && PaddedBy(t, j)
    ensures PaddedBy(t + [EQUALS], j + 1)
  {
  }

  lemma OneMoreLetter(t: seq<byte>, c: byte)
    requires PaddedBy(t, 0) && IsLetter(c)
    ensures PaddedBy(t + [c], 0)
  {
  }

  /** Spacing is right at every position below i. */
  ghost predicate SpacedTo(s: seq<byte>, i: nat)
    requires i <= |s|
  {
    && (forall k :: 0 <= k < i && s[k] == CR ==> k + 1 < |s| && s[k + 1] == LF)
    && (forall k :: 0 <= k < i && s[k] == SPACE ==> k + 1 == |s| || IsBlank(s[k + 1]))
  }

  /** The state of the first pass with i characters behind it. */
  ghost predicate Scanned(s: seq<byte>, i: nat, n: nat, j: nat)
    requires i <= |s|
  {
    var t := Significant(s[..i]);
    SpacedTo(s, i) && n == |t| && j <= 2 && j <= n && PaddedBy(t, j)
  }

  /** A run of spaces passed over. */
  method SkipSpaces(src: array<byte>, slen: nat, i0: nat) returns (i: nat, x: nat)
    requires i0 <= slen <= src.Length
    ensures i0 <= i <= slen && x == i - i0
    ensures forall k :: i0 <= k < i ==> src[k] == SPACE
    ensures i < slen ==> src[i] != SPACE
  {
    i, x := i0, 0;
    while i < slen && src[i] == SPACE
      invariant i0 <= i <= slen && x == i - i0
      invariant forall k :: i0 <= k < i ==> src[k] == SPACE
    {
      i, x := i + 1, x + 1;
    }
  }

  lemma {:induction false} SpacesAddNothing(s: seq<byte>, i: nat, m: nat)
    requires i <= m <= |s| && forall k :: i <= k < m ==> s[k] == SPACE
    ensures Significant(s[..m]) == Significant(s[..i])
  {
    if i < m {
      SpacesAddNothing(s, i, m - 1);
      SignificantStep(s, m - 1);
    }
  }

  /** Spaces, then a line end: on to the next character. */
  lemma OverLineEnd(s: seq<byte>, i0: nat, i: nat, n: nat, j: nat)
    requires i0 <= i < |s| && Scanned(s, i0, n, j) && forall k :: i0 <= k < i ==> s[k] == SPACE
    requires s[i] == LF || (s[i] == CR && i + 1 < |s| && s[i + 1] == LF)
    ensures Scanned(s, i + 1, n, j)
  {
    SpacesAddNothing(s, i0, i);
    SignificantStep(s, i);
  }

  lemma OverLastSpaces(s: seq<byte>, i0: nat, n: nat, j: nat)
    requires i0 <= |s| && Scanned(s, i0, n, j) && forall k :: i0 <= k < |s| ==> s[k] == SPACE
    ensures Scanned(s, |s|, n, j)
  {
    SpacesAddNothing(s, i0, |s|);
  }

  lemma OverCharacter(s: seq<byte>, i: nat, n: nat, j: nat)
    requires i < |s| && Scanned(s, i, n, j) && !IsBlank(s[i])
    requires if s[i] == EQUALS then j < 2 else IsLetter(s[i]) && j == 0
    ensures Scanned(s, i + 1, n + 1, if s[i] == EQUALS then j + 1 else j)
  {
    SignificantStep(s, i);
    if s[i] == EQUALS { OneMorePad(Significant(s[..i]), j); } else { OneMoreLetter(Significant(s[..i]), s[i]); }
  }

  /** The checks on one character outside line ends: whether it may stand there. */
  method Judge(c: byte, j: nat) returns (ok: bool, j': nat)
    ensures ok <==> if c == EQUALS then j < 2 else IsLetter(c) && j == 0
    ensures ok ==> j' == if c == EQUALS then j + 1 else j
  {
    j' := j;
    if c == EQUALS {
      j' := j' + 1;
      if j' > 2 {
        return false, j';
      }
    }
    if c > 127 || DecMap(c) == 127 {
      return false, j';
    }
    if DecMap(c) < 64 && j' != 0 {
      return false, j';
    }
    ok := true;
  }

  lemma JudgedBad(s: seq<byte>, i: nat, n: nat, j: nat)
    requires i < |s| && Scanned(s, i, n, j) && s[i] != SPACE && s[i] != LF
    requires s[i] == CR ==> !(i + 1 < |s| && s[i + 1] == LF)
    requires !(if s[i] == EQUALS then j < 2 else IsLetter(s[i]) && j == 0)
    ensures !Acceptable(s)
  {
    if s[i] != CR {
      Rejected(s, i, j);
    }
  }

  /** The first pass: accept or reject, with the counts of characters and pads. */
  method Scan(src: array<byte>, slen: nat) returns (ok: bool, n: nat, j: nat)
    requires slen <= src.Length
    ensures ok <==> Acceptable(src[..slen])
    ensures ok ==> j <= 2 && j <= n && n == |Significant(src[..slen])| && PaddedBy(Significant(src[..slen]), j)
  {
    ghost var s := src[..slen];
    var i := 0;
    n, j := 0, 0;
    while i < slen
      invariant i <= slen && Scanned(s, i, n, j)
      decreases slen - i
    {
      ghost var i0 := i;
      var x;
      i, x := SkipSpaces(src, slen, i);
      assert forall k :: i0 <= k < i ==> s[k] == SPACE;
      if i == slen {
        OverLastSpaces(s, i0, n, j);
        break;
      }
      assert src[i] == s[i] && (i + 1 < slen ==> src[i + 1] == s[i + 1]);
      if (slen - i >= 2 && src[i] == CR && src[i + 1] == LF) || src[i] == LF {
        OverLineEnd(s, i0, i, n, j);
        i := i + 1;
        continue;
      }
      if x != 0 {
        assert s[i - 1] == SPACE;
        return false, n, j;
      }
      var fine, j' := Judge(src[i], j);
      if !fine {
        JudgedBad(s, i, n, j);
        return false, n, j;
      }
      OverCharacter(s, i, n, j);
      j := j';
      n := n + 1;
      i := i + 1;
    }
    assert s[..slen] == s;
    ok := true;
  }

  // ----- the decoder's second pass

  lemma DecodedFront(t: seq<byte>, f: seq<byte>)
    requires |t| >= 4 && f == DecodeFour(t[0], t[1], t[2], t[3])
    ensures Decoded(t) == f + Decoded(t[4..])
  {
  }

  lemma {:induction false} DecodedJoins(t: seq<byte>, u: seq<byte>, m: nat)
    requires |t| == 4 * m
    ensures Decoded(t + u) == Decoded(t) + Decoded(u)
  {
    if m == 0 {
      assert t + u == u;
    } else {
      var h, f, s := t[4..], DecodeFour(t[0], t[1], t[2], t[3]), t + u;
      assert s[0] == t[0] && s[1] == t[1] && s[2] == t[2] && s[3] == t[3] && s[4..] == h + u;
      DecodedJoins(h, u, m - 1);
      DecodedFront(t, f);
      DecodedFront(s, f);
      Associate(f, Decoded(h), Decoded(u));
    }
  }

  lemma Associate(a: seq<byte>, b: seq<byte>, c: seq<byte>)
    ensures a + (b + c) == (a + b) + c
  {
  }

  /** Six bits a character, most significant first. */
  function Bits(u: seq<byte>): nat {
    if u == [] then 0 else Bits(u[..|u| - 1]) * 64 + Value(u[|u| - 1])
  }

  lemma BitsStep(u: seq<byte>, c: byte)
    ensures Bits(u + [c]) == Bits(u) * 64 + Value(c)
  {
    assert (u + [c])[..|u|] == u;
  }

  lemma BitsOfThree(u: seq<byte>)
    requires |u| == 3
    ensures Bits(u) == Value(u[0]) * 4096 + Value(u[1]) * 64 + Value(u[2])
  {
    BitsStep([], u[0]);
    BitsStep([u[0]], u[1]);
    BitsStep([u[0], u[1]], u[2]);
    assert [] + [u[0]] == [u[0]] && [u[0]] + [u[1]] == [u[0], u[1]] && [u[0], u[1]] + [u[2]] == u;
  }

  /** 64 to the n, for the n a group reaches. */
  function Scale(n: nat): (p: nat)
    requires n <= 4
    ensures p > 0
  {
    if n == 0 then 1 else if n == 1 then 64 else if n == 2 then 4096 else if n == 3 then 262144 else 16777216
  }

  const WORD: nat := 0x1_0000_0000

  function Shift(x: nat, v: nat): nat { x * 64 % WORD + v }

  lemma ShiftSplits(x: nat)
    requires x < WORD
    ensures x * 64 % WORD == 64 * (x % 67108864)
  {
    var q, r := x / 67108864, x % 67108864;
    assert x == 67108864 * q + r;
    assert x * 64 == WORD * q + 64 * r;
  }

  lemma ShiftOne(r: nat, v: nat)
    requires v < 64
    ensures (64 * r + v) % 64 == v && (64 * r + v) % 4096 == 64 * (r % 64) + v
  {
    assert 64 * r + v == 4096 * (r / 64) + (64 * (r % 64) + v);
  }

  lemma ShiftTwo(r: nat, v: nat)
    requires v < 64
    ensures (64 * r + v) % 262144 == 64 * (r % 4096) + v
  {
    assert 64 * r + v == 262144 * (r / 4096) + (64 * (r % 4096) + v);
  }

  lemma ShiftThree(r: nat, v: nat)
    requires v < 64
    ensures (64 * r + v) % 16777216 == 64 * (r % 262144) + v
  {
    assert 64 * r + v == 16777216 * (r / 262144) + (64 * (r % 262144) + v);
  }

  lemma LowPart(x: nat)
    ensures var r := x % 67108864; r % 64 == x % 64 && r % 4096 == x % 4096 && r % 262144 == x % 262144
  {
    var q, r := x / 67108864, x % 67108864;
    assert x == 67108864 * q + r;
    SameLow(x, r, 1048576 * q, 64);
    SameLow(x, r, 16384 * q, 4096);
    SameLow(x, r, 256 * q, 262144);
  }

  lemma SameLow(x: nat, r: nat, k: nat, m: nat)
    requires m == 64 || m == 4096 || m == 262144
    requires x == m * k + r
    ensures r % m == x % m
  {
    if m == 64 {
      assert x == 64 * (k + r / 64) + r % 64;
    } else if m == 4096 {
      assert x == 4096 * (k + r / 4096) + r % 4096;
    } else {
      assert x == 262144 * (k + r / 262144) + r % 262144;
    }
  }

  /** Shifting a 32-bit accumulator by six bits keeps its low bits those of the group. */
  lemma Shifted(x: nat, v: nat, n: nat)
    requires n < 4 && x < WORD && v < 64
    ensures Shift(x, v) % Scale(n + 1) == 64 * (x % Scale(n)) + v && Shift(x, v) < WORD
  {
    ShiftSplits(x);
    LowPart(x);
    var r := x % 67108864;
    if n == 0 || n == 1 { ShiftOne(r, v); } else if n == 2 { ShiftTwo(r, v); } else { ShiftThree(r, v); }
  }

  /** The three bytes at the bottom of the accumulator. */
  lemma LowBytes(x: nat, y: nat)
    requires x % 16777216 == y
    ensures x / 65536 % 256 == y / 65536 % 256 && x / 256 % 256 == y / 256 % 256 && x % 256 == y % 256
  {
    var q := x / 16777216;
    assert x == 16777216 * q + y;
    assert x / 65536 == 256 * q + y / 65536;
    assert x / 256 == 65536 * q + y / 256;
  }

  /** The state of the second pass: groups g done, characters u of the next one taken in. */
  ghost predicate Passed(g: seq<byte>, u: seq<byte>, m: nat, j: int, x: nat, out: seq<byte>) {
    && |g| == 4 * m && |u| < 4
    && j == 3 - CountPads(g + u)
    && x < WORD && x % Scale(|u|) == Bits(u)
    && out == Decoded(g)
  }

  /** base64_dec_map[c] & 0x3F, and whether c is the pad. */
  lemma MapMasked(c: byte)
    requires IsLetter(c) || c == EQUALS
    ensures c < 128 && DecMap(c) % 64 == Value(c) && (DecMap(c) == 64 <==> c == EQUALS)
  {
  }

  lemma CountStep(t: seq<byte>, c: byte)
    ensures CountPads(t + [c]) == CountPads(t) + if c == EQUALS then 1 else 0
  {
    assert (t + [c])[..|t|] == t;
  }

  /** The bytes a complete group adds, given its pads so far. */
  function Emitted(j: int, x: nat): (s: seq<byte>)
    ensures |s| <= 3
  {
    (if j > 0 then [x / 65536 % 256] else []) + (if j > 1 then [x / 256 % 256] else [])
      + (if j > 2 then [x % 256] else [])
  }

  /** The last character of a group of four. */
  lemma GroupDone(u: seq<byte>, c: byte, p: nat, x: nat)
    requires |u| == 3 && p <= 2 && x % 16777216 == Bits(u) * 64 + Value(c)
    requires (c == EQUALS <==> p >= 1) && (u[2] == EQUALS <==> p == 2)
    ensures Emitted(3 - p, x) == DecodeFour(u[0], u[1], u[2], c)
  {
    BitsOfThree(u);
    LowBytes(x, Bits(u) * 64 + Value(c));
  }

  /** Among the last four characters of a text with at most two pads, only the last two can be
      pads, and the fourth is if any is. */
  lemma GroupPads(g: seq<byte>, u: seq<byte>, c: byte, p: nat)
    requires p <= 2 && |u| == 3 && PaddedBy((g + u) + [c], p)
    ensures (c == EQUALS <==> p >= 1) && (u[2] == EQUALS <==> p == 2)
  {
    var t := (g + u) + [c];
    assert t[|t| - 1] == c && t[|t| - 2] == u[2];
  }

  /** A character that does not complete a group. */
  lemma PassWithin(g: seq<byte>, u: seq<byte>, m: nat, j: int, x: nat, out: seq<byte>, c: byte)
    requires Passed(g, u, m, j, x, out) && |u| < 3 && (IsLetter(c) || c == EQUALS)
    ensures Passed(g, u + [c], m, j - (if c == EQUALS then 1 else 0), Shift(x, Value(c)), out)
  {
    CountStep(g + u, c);
    assert (g + u) + [c] == g + (u + [c]);
    BitsStep(u, c);
    Shifted(x, Value(c), |u|);
  }

  /** A character that does. */
  lemma PassGroup(g: seq<byte>, u: seq<byte>, m: nat, j: int, x: nat, out: seq<byte>, c: byte, p: nat)
    requires Passed(g, u, m, j, x, out) && |u| == 3 && (IsLetter(c) || c == EQUALS)
    requires p <= 2 && p <= |g| + 4 && PaddedBy((g + u) + [c], p)
    ensures var j', x' := j - (if c == EQUALS then 1 else 0), Shift(x, Value(c));
            Passed(g + (u + [c]), [], m + 1, j', x', out + Emitted(j', x'))
  {
    CountStep(g + u, c);
    var four := u + [c];
    assert (g + u) + [c] == g + four == g + four + [];
    PadsCounted((g + u) + [c], p);
    Shifted(x, Value(c), 3);
    GroupPads(g, u, c, p);
    GroupDone(u, c, p, Shift(x, Value(c)));
    DecodedJoins(g, four, m);
    assert Decoded(four) == DecodeFour(u[0], u[1], u[2], c) + Decoded(four[4..]);
    assert four[4..] == [];
  }

  /** The bytes of a completed group, written at w. */
  method Emit(dst: array<byte>, w: nat, j: int, x: nat) returns (w': nat)
    requires w + |Emitted(j, x)| <= dst.Length
    modifies dst
    ensures w' == w + |Emitted(j, x)|
    ensures dst[..] == old(dst[..w]) + Emitted(j, x) + old(dst[w'..])
  {
    w' := w;
    if j > 0 {
      dst[w'] := x / 65536 % 256;
      w' := w' + 1;
    }
    if j > 1 {
      dst[w'] := x / 256 % 256;
      w' := w' + 1;
    }
    if j > 2 {
      dst[w'] := x % 256;
      w' := w' + 1;
    }
  }

  lemma {:induction false} DecodedShort(t: seq<byte>, m: nat)
    requires |t| == 4 * m
    ensures |Decoded(t)| <= 3 * m
  {
    if m > 0 { DecodedShort(t[4..], m - 1); }
  }

  lemma DecodedPrefix(g: seq<byte>, t: seq<byte>, m: nat)
    requires g <= t && |g| == 4 * m
    ensures |Decoded(g)| <= |Decoded(t)|
  {
    assert t == g + t[|g|..];
    DecodedJoins(g, t[|g|..], m);
  }

  /** The buffers of the second pass with k characters read and out written: dst may be src. */
  ghost predicate Buffers(dst: seq<byte>, was: seq<byte>, src: seq<byte>, s: seq<byte>, k: nat, out: seq<byte>) {
    && k <= |s| <= |src| && |out| <= |was|
    && dst == out + was[|out|..]
    && src[k..|s|] == s[k..]
  }

  /** Writing a group's bytes no further on than the reading position. */
  lemma Written(dst: seq<byte>, was: seq<byte>, src: seq<byte>, s: seq<byte>, k: nat, out: seq<byte>,
                e: seq<byte>, dst': seq<byte>, src': seq<byte>)
    requires Buffers(dst, was, src, s, k, out) && k < |s| && |out| + |e| <= |was|
    requires dst' == dst[..|out|] + e + dst[|out| + |e|..]
    requires src' == src || (src == dst && src' == dst' && |out| + |e| <= k + 1)
    ensures Buffers(dst', was, src', s, k + 1, out + e)
  {
    assert dst[|out| + |e|..] == was[|out| + |e|..];
    forall q | k + 1 <= q < |s| ensures src'[q] == s[q] {
      assert src[k..|s|][q - k] == s[k..][q - k];
    }
  }

  lemma WrittenNothing(dst: seq<byte>, was: seq<byte>, src: seq<byte>, s: seq<byte>, k: nat, out: seq<byte>)
    requires Buffers(dst, was, src, s, k, out) && k < |s|
    ensures Buffers(dst, was, src, s, k + 1, out)
  {
    assert src[k..|s|][1..] == src[k + 1..|s|] && s[k..][1..] == s[k + 1..];
  }

  lemma BuffersFirst(dst: seq<byte>, src: seq<byte>, s: seq<byte>)
    requires |s| <= |src| && s == src[..|s|]
    ensures Buffers(dst, dst, src, s, 0, []) && Significant(s[..0]) == []
  {
    assert src[0..|s|] == s[0..] && [] + dst[0..] == dst;
  }

  /** Facts about the next character of an acceptable text that is not blank. */
  lemma NextCharacter(s: seq<byte>, k: nat, p: nat) returns (q: nat)
    requires k < |s| && p <= 2 && p <= |Significant(s)| && PaddedBy(Significant(s), p) && !IsBlank(s[k])
    ensures var t := Significant(s[..k]) + [s[k]];
            && t == Significant(s[..k + 1]) && t <= Significant(s) && (IsLetter(s[k]) || s[k] == EQUALS)
            && q <= 2 && q <= |t| && PaddedBy(t, q)
  {
    SignificantStep(s, k);
    SignificantPrefix(s, k + 1);
    var t := Significant(s[..k + 1]);
    PaddedPrefix(Significant(s), t);
    assert t[|t| - 1] == Significant(s)[|t| - 1];
    q :| q <= 2 && q <= |t| && PaddedBy(t, q);
  }

  lemma {:induction false} SignificantShort(s: seq<byte>, k: nat)
    requires k <= |s|
    ensures |Significant(s[..k])| <= k
  {
  }

  /** A completed group: its bytes, and room for them. */
  lemma GroupRoom(g: seq<byte>, u: seq<byte>, m: nat, j: int, x: nat, out: seq<byte>, c: byte, q: nat, all: seq<byte>)
    returns (e: seq<byte>)
    requires Passed(g, u, m, j, x, out) && |u| == 3 && (IsLetter(c) || c == EQUALS)
    requires q <= 2 && q <= |g + u| + 1 && PaddedBy((g + u) + [c], q) && (g + u) + [c] <= all
    ensures e == Emitted(j - (if c == EQUALS then 1 else 0), Shift(x, Value(c)))
    ensures Passed(g + (u + [c]), [], m + 1, j - (if c == EQUALS then 1 else 0), Shift(x, Value(c)), out + e)
    ensures |out| + |e| <= |Decoded(all)| && |out| + |e| <= |g| + 4
    ensures g + (u + [c]) + [] == (g + u) + [c]
  {
    PassGroup(g, u, m, j, x, out, c, q);
    e := Emitted(j - (if c == EQUALS then 1 else 0), Shift(x, Value(c)));
    var g' := g + (u + [c]);
    assert g' == (g + u) + [c];
    DecodedShort(g', m + 1);
    DecodedPrefix(g', all, m + 1);
    assert |out + e| == |out| + |e|;
  }

  /** The pad count and the accumulator at a character that is not blank. */
  method ShiftIn(j: int, x: nat, c: byte) returns (j': int, x': nat)
    requires IsLetter(c) || c == EQUALS
    ensures j' == j - (if c == EQUALS then 1 else 0) && x' == Shift(x, Value(c))
  {
    MapMasked(c);
    j' := j - if DecMap(c) == 64 then 1 else 0;
    x' := x * 64 % WORD + DecMap(c) % 64;
  }

  /** The accumulator at a character that is not blank, and the bytes of a group once it is
      complete. */
  method TakeCharacter(dst: array<byte>, w: nat, n: nat, j: int, x: nat, c: byte,
                       ghost g: seq<byte>, ghost u: seq<byte>, ghost m: nat, ghost out: seq<byte>, ghost q: nat,
                       ghost all: seq<byte>)
    returns (w': nat, n': nat, j': int, x': nat, ghost g': seq<byte>, ghost u': seq<byte>, ghost m': nat,
             ghost e: seq<byte>)
    requires Passed(g, u, m, j, x, out) && n == |u| && w == |out| && (IsLetter(c) || c == EQUALS)
    requires (g + u) + [c] <= all && |Decoded(all)| <= dst.Length
    requires q <= 2 && q <= |g + u| + 1 && PaddedBy((g + u) + [c], q)
    modifies dst
    ensures Passed(g', u', m', j', x', out + e) && n' == |u'| && w' == w + |e| && g' + u' == (g + u) + [c]
    ensures w' <= dst.Length && w' <= |g| + |u| + 1
    ensures dst[..] == old(dst[..w]) + e + old(dst[w'..])
  {
    j', x' := ShiftIn(j, x, c);
    n' := n + 1;
    if n' == 4 {
      n' := 0;
      e := GroupRoom(g, u, m, j, x, out, c, q, all);
      g', u', m' := g + (u + [c]), [], m + 1;
      w' := Emit(dst, w, j', x');
    } else {
      PassWithin(g, u, m, j, x, out, c);
      WithinRoom(g, u, m, j, x, out, c, all);
      g', u', m', e := g, u + [c], m, [];
      w' := w;
    }
  }

  lemma WithinRoom(g: seq<byte>, u: seq<byte>, m: nat, j: int, x: nat, out: seq<byte>, c: byte, all: seq<byte>)
    requires Passed(g, u, m, j, x, out) && (g + u) + [c] <= all
    ensures |out| <= |Decoded(all)| && |out| <= |g|
    ensures g + (u + [c]) == (g + u) + [c] && out + [] == out
  {
    DecodedShort(g, m);
    assert g <= all by { assert g == ((g + u) + [c])[..|g|]; }
    DecodedPrefix(g, all, m);
  }

  /** One turn of the second pass at a character that is not blank. */
  method Turn(dst: array<byte>, src: array<byte>, k: nat, w: nat, n: nat, j: int, x: nat,
              ghost s: seq<byte>, ghost was: seq<byte>, ghost p: nat, ghost g: seq<byte>, ghost u: seq<byte>,
              ghost m: nat, ghost out: seq<byte>)
    returns (w': nat, n': nat, j': int, x': nat, ghost g': seq<byte>, ghost u': seq<byte>, ghost m': nat,
             ghost e: seq<byte>)
    requires k < |s| <= src.Length && |was| == dst.Length && src[k] == s[k] && !IsBlank(s[k])
    requires p <= 2 && p <= |Significant(s)| && PaddedBy(Significant(s), p) && |Decoded(Significant(s))| <= dst.Length
    requires Passed(g, u, m, j, x, out) && n == |u| && w == |out| && g + u == Significant(s[..k])
    requires Buffers(dst[..], was, src[..], s, k, out)
    modifies dst
    ensures Passed(g', u', m', j', x', out + e) && n' == |u'| && w' == |out + e| && g' + u' == Significant(s[..k + 1])
    ensures Buffers(dst[..], was, src[..], s, k + 1, out + e)
  {
    ghost var src0, dst0 := src[..], dst[..];
    ghost var q := NextCharacter(s, k, p);
    SignificantShort(s, k);
    assert |g| + |u| == |Significant(s[..k])|;
    w', n', j', x', g', u', m', e := TakeCharacter(dst, w, n, j, x, src[k], g, u, m, out, q, Significant(s));
    Written(dst0, was, src0, s, k, out, e, dst[..], src[..]);
  }

  /** The second pass with k characters read. */
  ghost predicate PassState(dst: seq<byte>, was: seq<byte>, src: seq<byte>, s: seq<byte>, k: nat, w: nat, n: nat,
                            j: int, x: nat, g: seq<byte>, u: seq<byte>, m: nat, out: seq<byte>) {
    && k <= |s| && n == |u| && w == |out| && Passed(g, u, m, j, x, out)
    && g + u == Significant(s[..k])
    && Buffers(dst, was, src, s, k, out)
  }

  /** One turn of the second pass. */
  method NextTurn(dst: array<byte>, src: array<byte>, k: nat, w: nat, n: nat, j: int, x: nat,
                  ghost s: seq<byte>, ghost was: seq<byte>, ghost p: nat, ghost g: seq<byte>, ghost u: seq<byte>,
                  ghost m: nat, ghost out: seq<byte>)
    returns (w': nat, n': nat, j': int, x': nat, ghost g': seq<byte>, ghost u': seq<byte>, ghost m': nat,
             ghost out': seq<byte>)
    requires k < |s| <= src.Length && |was| == dst.Length
    requires p <= 2 && p <= |Significant(s)| && PaddedBy(Significant(s), p) && |Decoded(Significant(s))| <= dst.Length
    requires PassState(dst[..], was, src[..], s, k, w, n, j, x, g, u, m, out)
    modifies dst
    ensures PassState(dst[..], was, src[..], s, k + 1, w', n', j', x', g', u', m', out')
  {
    assert src[k] == s[k] by { assert src[..][k..|s|][0] == s[k..][0]; }
    SignificantStep(s, k);
    if src[k] == CR || src[k] == LF || src[k] == SPACE {
      WrittenNothing(dst[..], was, src[..], s, k, out);
      w', n', j', x', g', u', m', out' := w, n, j, x, g, u, m, out;
    } else {
      ghost var e;
      w', n', j', x', g', u', m', e := Turn(dst, src, k, w, n, j, x, s, was, p, g, u, m, out);
      out' := out + e;
    }
  }

  /** The second pass. */
  method Transform(dst: array<byte>, src: array<byte>, slen: nat, ghost p: nat) returns (w: nat)
    requires slen <= src.Length
    requires var t := Significant(src[..slen]); p <= 2 && p <= |t| && PaddedBy(t, p) && |Decoded(t)| <= dst.Length
    modifies dst
    ensures w == |Decoded(Significant(old(src[..slen])))|
    ensures dst[..] == Decoded(Significant(old(src[..slen]))) + old(dst[w..])
  {
    ghost var s, was := src[..slen], dst[..];
    ghost var g, u, m, out := [], [], 0, [];
    var j, n, x := 3, 0, 0;
    w := 0;
    assert g + u == [];
    BuffersFirst(was, src[..], s);
    for k := 0 to slen
      invariant PassState(dst[..], was, src[..], s, k, w, n, j, x, g, u, m, out)
    {
      w, n, j, x, g, u, m, out := NextTurn(dst, src, k, w, n, j, x, s, was, p, g, u, m, out);
    }
    TransformDone(dst[..], was, src[..], s, g, u, m, j, x, out);
  }

  lemma TransformDone(dst: seq<byte>, was: seq<byte>, src: seq<byte>, s: seq<byte>,
                      g: seq<byte>, u: seq<byte>, m: nat, j: int, x: nat, out: seq<byte>)
    requires Buffers(dst, was, src, s, |s|, out) && Passed(g, u, m, j, x, out) && g + u == Significant(s[..|s|])
    ensures out == Decoded(Significant(s)) && dst == out + was[|out|..]
  {
    assert s[..|s|] == s;
    DecodedJoins(g, u, m);
    assert Decoded(u) == [] && Decoded(g) + [] == Decoded(g);
  }

  /** base64_decode. The destination may be absent, or the source itself. */
  method Decode(dst: array?<byte>, dlen: nat, src: array<byte>, slen: nat) returns (ret: int, dlen': nat)
    requires slen <= src.Length && (dst != null ==> dlen <= dst.Length)
    modifies dst
    ensures var s := old(src[..slen]);
            if !Acceptable(s) then ret == ERR_INVALID_CHARACTER && dlen' == dlen
            else if Significant(s) == [] then ret == 0 && dlen' == dlen
            else exists p: nat :: p <= 2 && p <= |Significant(s)| && PaddedBy(Significant(s), p)
                   && (if dst == null || dlen < Needed(|Significant(s)|, p)
                       then ret == ERR_BUFFER_TOO_SMALL && dlen' == Needed(|Significant(s)|, p)
                       else ret == 0 && dlen' == |Decoded(Significant(s))|)
    ensures ret == 0 && Significant(old(src[..slen])) != [] ==>
              dst != null && dlen' <= dlen && dst[..] == Decoded(Significant(old(src[..slen]))) + old(dst[dlen'..])
    ensures dst != null && (ret != 0 || Significant(old(src[..slen])) == []) ==> dst[..] == old(dst[..])
  {
    dlen' := dlen;
    var ok, n, j := Scan(src, slen);
    if !ok {
      return ERR_INVALID_CHARACTER, dlen;
    }
    if n == 0 {
      return 0, dlen;
    }
    ghost var t := Significant(src[..slen]);
    DecodedFits(t, j);
    n := (n * 6 + 7) / 8;
    n := n - j;
    if dst == null || dlen < n {
      return ERR_BUFFER_TOO_SMALL, n;
    }
    ret := 0;
    dlen' := Transform(dst, src, slen, j);
  }
}
