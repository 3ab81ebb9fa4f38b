/**
 * What the server's line splitting means, held against texts written out as lines: where a
 * line ends, what is taken off it, and which lines have been handed on (server.py).
 */
module UplinkLines {
  import opened Sequences
  import opened Aes
  import opened Uplink

  /** No carriage return in s is followed by a line feed. */
  ghost predicate NoCrlf(s: seq<bv8>) {
    forall i :: 0 <= i < |s| - 1 ==> !(s[i] == 13 && s[i + 1] == 10)
  }

  /** Carriage returns and line feeds only. */
  ghost predicate AllEnds(s: seq<bv8>) {
    forall i :: 0 <= i < |s| ==> s[i] == 13 || s[i] == 10
  }

  /** Neither end is a carriage return or a line feed. */
  ghost predicate Trimmed(s: seq<bv8>) {
    s == [] || (s[0] != 13 && s[0] != 10 && s[|s| - 1] != 13 && s[|s| - 1] != 10)
  }

  lemma NoneFound(s: seq<bv8>)
    requires NoCrlf(s)
    ensures FindCrlf(s) == -1
  {
    if FindCrlf(s) >= 0 { FindCrlfFirst(s, FindCrlf(s)); }
  }

  /** The end of the first line of a text. */
  lemma LineEnd(p: seq<bv8>, t: seq<bv8>)
    requires NoCrlf(p + [13])
    ensures FindCrlf((p + [13, 10]) + t) == |p|
  {
    var s := (p + [13, 10]) + t;
    FindCrlfFirst(s, |p|);
    var i := FindCrlf(s);
    FindCrlfFirst(s, i);
    if i < |p| { NotBefore(p, t, i); }
  }

  lemma NotBefore(p: seq<bv8>, t: seq<bv8>, i: nat)
    requires NoCrlf(p + [13]) && i < |p|
    ensures var s := (p + [13, 10]) + t; !(s[i] == 13 && s[i + 1] == 10)
  {
    var s, c := (p + [13, 10]) + t, p + [13];
    assert c[i] == s[i] && c[i + 1] == s[i + 1];
  }

  lemma {:induction false} FrontOff(a: seq<bv8>, s: seq<bv8>)
    requires AllEnds(a)
    ensures Strip(a + s) == Strip(s)
  {
    if a == [] {
      assert a + s == s;
    } else {
      SlicesOfFirst(a, s, 1);
      FrontOff(a[1..], s);
    }
  }

  lemma {:induction false} BackOff(s: seq<bv8>, b: seq<bv8>)
    requires AllEnds(b) && Trimmed(s)
    ensures Strip(s + b) == s
    decreases |b|
  {
    if s == [] {
      FrontOff(b, []);
      NothingAfter(b);
      assert s + b == b;
    } else if b == [] {
      NothingAfter(s);
    } else {
      SlicesOfSum(s, b, |b| - 1);
      BackOff(s, b[..|b| - 1]);
    }
  }

  /** The first line of a text: what its end characters, at both ends, leave of the text up
      to the first CRLF. */
  lemma FirstLine(a: seq<bv8>, q: seq<bv8>, b: seq<bv8>, t: seq<bv8>)
    requires AllEnds(a) && Trimmed(q) && AllEnds(b) && NoCrlf(a + (q + b) + [13])
    ensures Lines(a + (q + b) + [13, 10] + t) == [q] + Lines(t)
    ensures Rest(a + (q + b) + [13, 10] + t) == Rest(t)
  {
    var p := a + (q + b);
    LineEnd(p, t);
    SlicesOfFirst(p + [13, 10], t, |p| + 2);
    NothingAfter(p + [13, 10]);
    StripsTo(a, q, b);
  }

  lemma StripsTo(a: seq<bv8>, q: seq<bv8>, b: seq<bv8>)
    requires AllEnds(a) && Trimmed(q) && AllEnds(b)
    ensures Strip(a + (q + b) + [13, 10]) == q
  {
    Regroup(a, q + b, [13, 10]);
    Regroup(q, b, [13, 10]);
    FrontOff(a, q + (b + [13, 10]));
    BackOff(q, b + [13, 10]);
  }

  /** Every text has such ends. */
  lemma {:induction false} EndsOf(s: seq<bv8>) returns (a: seq<bv8>, q: seq<bv8>, b: seq<bv8>)
    ensures s == a + (q + b) && AllEnds(a) && Trimmed(q) && AllEnds(b)
    decreases |s|
  {
    if s == [] {
      a, q, b := [], [], [];
    } else if s[0] == 13 || s[0] == 10 {
      a, q, b := EndsOf(s[1..]);
      a := [s[0]] + a;
    } else if s[|s| - 1] == 13 || s[|s| - 1] == 10 {
      a, q, b := EndsOf(s[..|s| - 1]);
      b := b + [s[|s| - 1]];
    } else {
      a, q, b := [], s, [];
    }
  }

  /** A text without CRLF has no line. */
  lemma NoLine(s: seq<bv8>)
    requires NoCrlf(s)
    ensures Lines(s) == [] && Rest(s) == s
  {
    NoneFound(s);
  }

  // ----- a text written line by line

  /** A line as a device sends it. */
  ghost predicate PlainLine(p: seq<bv8>) {
    Trimmed(p) && NoCrlf(p + [13])
  }

  ghost predicate PlainLines(ls: seq<seq<bv8>>) {
    forall i :: 0 <= i < |ls| ==> PlainLine(ls[i])
  }

  /** The lines, each with its CRLF. */
  function Written(ls: seq<seq<bv8>>): seq<bv8> {
    if ls == [] then [] else ls[0] + [13, 10] + Written(ls[1..])
  }

  /** Lines come out as they were written. */
  lemma {:induction false} LinesOfWritten(ls: seq<seq<bv8>>, t: seq<bv8>)
    requires PlainLines(ls) && NoCrlf(t)
    ensures Lines(Written(ls) + t) == ls && Rest(Written(ls) + t) == t
  {
    if ls == [] {
      NoLine(t);
      assert Written(ls) + t == t;
    } else {
      var p, more := ls[0], ls[1..];
      LinesOfWritten(more, t);
      Regroup(p + [13, 10], Written(more), t);
      FirstPlain(p, Written(more) + t);
      FirstOn(ls);
    }
  }

  lemma FirstOn<T>(s: seq<T>)
    requires s != []
    ensures s == [s[0]] + s[1..]
  {
  }

  /** One line without end characters around it. */
  lemma FirstPlain(p: seq<bv8>, t: seq<bv8>)
    requires PlainLine(p)
    ensures Lines(p + [13, 10] + t) == [p] + Lines(t) && Rest(p + [13, 10] + t) == Rest(t)
  {
    assert p == [] + (p + []);
    FirstLine([], p, [], t);
  }

  /** The text "x" and its CRLF is the line "x". */
  lemma KnownLine()
    ensures Lines([120, 13, 10]) == [[120]]
  {
    var p: seq<bv8> := [120];
    assert [120, 13, 10] == p + [13, 10] + [];
    NoLine([]);
    FirstPlain(p, []);
  }

  // ----- over runs

  lemma LinesGrow(s: seq<bv8>, t: seq<bv8>)
    requires s <= t
    ensures Lines(s) <= Lines(t)
  {
    PrefixTail(s, t);
    LinesIncremental(s, t[|s|..]);
    Begins(Lines(s), Lines(Rest(s) + t[|s|..]));
  }

  lemma TextIsPrefix(u: Setup, iv: Block, evs: seq<Event>)
    requires NulFreeWrites(evs)
    ensures var l := Run(u, iv, evs);
            l.reader.text <= l.entered && Uplink.Cut(u.bad, l.reader)
  {
    UplinkSafe(u, iv, evs);
    UplinkText(u, iv, evs);
  }

  /** If what was written is NUL-free lines, then in every reachable state the lines handed on
      are the first of these, unchanged and in order. */
  lemma HandledInOrder(u: Setup, iv: Block, evs: seq<Event>, ls: seq<seq<bv8>>, t: seq<bv8>)
    requires NulFreeWrites(evs) && PlainLines(ls) && NoCrlf(t) && Run(u, iv, evs).entered == Written(ls) + t
    ensures Run(u, iv, evs).reader.handled <= ls
  {
    var r := Run(u, iv, evs).reader;
    TextIsPrefix(u, iv, evs);
    LinesOfWritten(ls, t);
    LinesGrow(r.text, Written(ls) + t);
    assert r.handled <= Lines(r.text);
  }

  /** And once nothing waits or is in flight every one has been handed on, unless the last one
      handed on could not be decoded. */
  lemma HandledAll(u: Setup, iv: Block, evs: seq<Event>, ls: seq<seq<bv8>>, t: seq<bv8>)
    requires NulFreeWrites(evs) && PlainLines(ls) && NoCrlf(t) && Run(u, iv, evs).entered == Written(ls) + t
    requires var l := Run(u, iv, evs); l.node.ring == [] && l.pos == |l.wire|
    ensures var r := Run(u, iv, evs).reader;
            || (r.handled == ls && r.line == t)
            || (r.handled != [] && r.handled <= ls && u.bad(r.handled[|r.handled| - 1]))
  {
    var r := Run(u, iv, evs).reader;
    HandledInOrder(u, iv, evs, ls, t);
    UplinkSafe(u, iv, evs);
    UplinkText(u, iv, evs);
    LinesOfWritten(ls, t);
    if Lines(r.line) == [] {
      NothingAfter(r.handled);
      NoLinesLeft(r.line);
    }
  }

  lemma NoLinesLeft(s: seq<bv8>)
    requires Lines(s) == []
    ensures Rest(s) == s
  {
  }
}
