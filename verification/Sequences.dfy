/**
 * Facts about sequences that hold for any element type, stated apart so that proofs over
 * bytes and words need not look inside the elements.
 */
module Sequences {

  lemma Regroup<T>(a: seq<T>, b: seq<T>, c: seq<T>)
    ensures (a + b) + c == a + (b + c)
  {
  }

  lemma NothingAfter<T>(s: seq<T>)
    ensures s + [] == s
  {
  }

  lemma SplitAt<T>(s: seq<T>, k: nat)
    requires k <= |s|
    ensures s == s[..k] + s[k..]
  {
  }

  lemma LastOff<T>(s: seq<T>)
    requires s != []
    ensures s == s[..|s| - 1] + [s[|s| - 1]]
  {
  }

  /** Taking and dropping inside the second part of a sum. */
  lemma SlicesOfSum<T>(p: seq<T>, q: seq<T>, k: nat)
    requires k <= |q|
    ensures (p + q)[..|p| + k] == p + q[..k] && (p + q)[|p| + k..] == q[k..]
  {
  }

  /** Taking and dropping inside the first part of a sum. */
  lemma SlicesOfFirst<T>(p: seq<T>, q: seq<T>, k: nat)
    requires k <= |p|
    ensures (p + q)[..k] == p[..k] && (p + q)[k..] == p[k..] + q
  {
  }

  lemma SamePrefix<T>(s: seq<T>, t: seq<T>, k: nat)
    requires s <= t && k <= |s|
    ensures s[..k] == t[..k]
  {
  }

  lemma TakeTwice<T>(s: seq<T>, j: nat, k: nat)
    requires j <= k <= |s|
    ensures s[..k] == s[..j] + s[j..k] && s[..k][..j] == s[..j] && s[..k][j..] == s[j..k]
  {
  }

  lemma SameTail<T>(a: seq<T>, x: seq<T>, y: seq<T>)
    requires a + x == a + y
    ensures x == y
  {
    assert x == (a + x)[|a|..] && y == (a + y)[|a|..];
  }

  lemma PrefixTail<T>(s: seq<T>, t: seq<T>)
    requires s <= t
    ensures t == s + t[|s|..]
  {
  }

  lemma Begins<T>(a: seq<T>, b: seq<T>)
    ensures a <= a + b
  {
  }
}
