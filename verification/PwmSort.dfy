/** The in-place sort and de-duplication of esp8266_arduino/core_esp8266_wiring_pwm.c. */
module PwmSort {

  ghost predicate Sorted(s: seq<nat>) {
    forall i, j :: 0 <= i < j < |s| ==> s[i] <= s[j]
  }

  ghost predicate Increasing(s: seq<nat>) {
    forall i, j :: 0 <= i < j < |s| ==> s[i] < s[j]
  }

  ghost predicate SameValues(s: seq<nat>, t: seq<nat>) {
    forall v :: v in t <==> v in s
  }

  /** t is the strictly increasing list of the values in s. */
  ghost predicate DistinctValues(s: seq<nat>, t: seq<nat>) {
    Increasing(t) && SameValues(s, t)
  }

  /** There is only one such list. */
  lemma DistinctValuesUnique(s: seq<nat>, t: seq<nat>, u: seq<nat>)
    requires DistinctValues(s, t) && DistinctValues(s, u)
    ensures t == u
  {
    assert SameValues(t, u);
    IncreasingUnique(t, u);
  }

  lemma {:induction false} IncreasingUnique(t: seq<nat>, u: seq<nat>)
    requires Increasing(t) && Increasing(u) && SameValues(t, u)
    ensures t == u
    decreases |t|
  {
    assert |u| > 0 ==> u[0] in u;
    assert |t| > 0 ==> t[0] in t;
    if t != [] {
      SameLast(t, u);
      assert t == t[..|t| - 1] + [t[|t| - 1]] && u == u[..|u| - 1] + [u[|u| - 1]];
      IncreasingUnique(t[..|t| - 1], u[..|u| - 1]);
    }
  }

  lemma SameLast(t: seq<nat>, u: seq<nat>)
    requires Increasing(t) && Increasing(u) && SameValues(t, u) && t != [] && u != []
    ensures t[|t| - 1] == u[|u| - 1] && SameValues(t[..|t| - 1], u[..|u| - 1])
  {
    LastIsLargest(t);
    LastIsLargest(u);
    assert t[|t| - 1] in t && u[|u| - 1] in u;
    WithoutLast(t);
    WithoutLast(u);
    var t', u' := t[..|t| - 1], u[..|u| - 1];
    assert forall v :: v in t' ==> v in t && v in u && v in u';
    assert forall v :: v in u' ==> v in u && v in t && v in t';
  }

  lemma LastIsLargest(t: seq<nat>)
    requires Increasing(t) && t != []
    ensures forall v :: v in t ==> v <= t[|t| - 1]
  {
  }

  lemma WithoutLast(t: seq<nat>)
    requires Increasing(t) && t != []
    ensures Increasing(t[..|t| - 1]) && forall v :: v in t[..|t| - 1] <==> v in t && v != t[|t| - 1]
  {
    assert t == t[..|t| - 1] + [t[|t| - 1]];
  }

  /** A value dropped into a sorted list at its place. */
  lemma SortedInsert(s: seq<nat>, j: nat, x: nat)
    requires Sorted(s) && j <= |s|
    requires forall k :: 0 <= k < j ==> s[k] <= x
    requires forall k :: j <= k < |s| ==> x < s[k]
    ensures Sorted(s[..j] + [x] + s[j..])
    ensures forall v :: v in s[..j] + [x] + s[j..] <==> v in s || v == x
  {
    assert s == s[..j] + s[j..];
  }

  /** The inner loop: entries above tmp move up one place. */
  method ShiftUp(a: array<nat>, i: nat, tmp: nat) returns (j: nat)
    requires 1 <= i < a.Length && Sorted(a[..i]) && tmp == a[i]
    modifies a
    ensures j <= i && a[..j] == old(a[..j]) && a[j + 1..i + 1] == old(a[j..i]) && a[i + 1..] == old(a[i + 1..])
    ensures j > 0 ==> old(a[j - 1]) <= tmp
    ensures forall k :: j <= k < i ==> tmp < old(a[k])
  {
    j := i;
    while j >= 1 && tmp < a[j - 1]
      invariant 0 <= j <= i
      invariant forall k :: 0 <= k < j ==> a[k] == old(a[k])
      invariant forall k :: j < k <= i ==> a[k] == old(a[k - 1])
      invariant forall k :: i < k < a.Length ==> a[k] == old(a[k])
      invariant forall k :: j <= k < i ==> tmp < old(a[k])
    {
      a[j] := a[j - 1];
      j := j - 1;
    }
  }

  lemma Around(now: seq<nat>, was: seq<nat>, s: seq<nat>, i: nat, j: nat, tmp: nat)
    requires j <= i < |now| == |was| && s == was[..i]
    requires now[..j] == was[..j] && now[j + 1..i + 1] == was[j..i] && now[j] == tmp
    ensures now[..i + 1] == s[..j] + [tmp] + s[j..]
  {
    assert now[..i + 1] == now[..j] + [now[j]] + now[j + 1..i + 1];
  }

  /** One outer turn: a[i] moved down into the sorted part before it. */
  method InsertAt(a: array<nat>, i: nat)
    requires 1 <= i < a.Length && Sorted(a[..i])
    modifies a
    ensures Sorted(a[..i + 1]) && a[i + 1..] == old(a[i + 1..])
    ensures SameValues(old(a[..i + 1]), a[..i + 1])
  {
    ghost var s, was := a[..i], a[..];
    var tmp := a[i];
    var j := ShiftUp(a, i, tmp);
    ghost var mid := a[..];
    a[j] := tmp;
    assert a[..j] == mid[..j] && a[j + 1..i + 1] == mid[j + 1..i + 1] && a[i + 1..] == mid[i + 1..];
    Around(a[..], was, s, i, j, tmp);
    assert j > 0 ==> s[j - 1] <= tmp;
    SortedInsert(s, j, tmp);
    assert was[..i + 1] == s + [tmp];
  }

  method InsertionSort(a: array<nat>, al: nat)
    requires al <= a.Length
    modifies a
    ensures Sorted(a[..al]) && a[al..] == old(a[al..])
    ensures SameValues(old(a[..al]), a[..al])
  {
    ghost var was := a[..];
    var i := 1;
    while i < al
      invariant 1 <= i && (i <= al || al == 0)
      invariant al > 0 ==> Sorted(a[..i]) && a[i..] == was[i..] && SameValues(was[..i], a[..i])
      invariant al == 0 ==> a[..] == was
    {
      ghost var before := a[..];
      assert before[..i + 1] == before[..i] + [before[i]] && was[..i + 1] == was[..i] + [was[i]];
      assert before[i] == before[i..][0] == was[i..][0];
      InsertAt(a, i);
      assert before[i + 1..] == before[i..][1..] && was[i + 1..] == was[i..][1..];
      i := i + 1;
    }
  }

  /** The de-duplicated prefix b of the first i entries of a sorted list s. */
  ghost predicate Collected(s: seq<nat>, i: nat, b: seq<nat>) {
    && 1 <= i <= |s| && b != []
    && Increasing(b) && b[|b| - 1] == s[i - 1]
    && SameValues(s[..i], b)
  }

  lemma CollectNext(s: seq<nat>, i: nat, b: seq<nat>)
    requires Sorted(s) && Collected(s, i, b) && i < |s|
    ensures s[i] != s[i - 1] ==> Collected(s, i + 1, b + [s[i]])
    ensures s[i] == s[i - 1] ==> Collected(s, i + 1, b)
  {
    assert s[..i + 1] == s[..i] + [s[i]];
    assert s[i - 1] in s[..i] by { assert s[..i][i - 1] == s[i - 1]; }
  }

  method Dedupe(a: array<nat>, al: nat) returns (bl: nat)
    requires 1 <= al <= a.Length && Sorted(a[..al])
    modifies a
    ensures 1 <= bl <= al && a[al..] == old(a[al..])
    ensures DistinctValues(old(a[..al]), a[..bl])
  {
    ghost var s, tail := a[..al], a[al..];
    bl := 1;
    assert s[..1] == [s[0]] && a[..1] == [s[0]];
    for i := 1 to al
      invariant 1 <= bl <= i && a[i..al] == s[i..] && a[al..] == tail
      invariant bl < i ==> a[i - 1] == s[i - 1]
      invariant Collected(s, i, a[..bl])
    {
      CollectNext(s, i, a[..bl]);
      assert a[i] == a[i..al][0] == s[i];
      assert bl == i ==> a[i - 1] == a[..bl][bl - 1];
      ghost var before := a[..];
      if a[i] != a[i - 1] {
        a[bl] := a[i];
        bl := bl + 1;
        assert a[..bl] == before[..bl - 1] + [s[i]];
      }
      assert a[i + 1..al] == before[i..al][1..] && s[i + 1..] == s[i..][1..];
    }
    assert s[..al] == s;
  }

  /** pwm_sort_array: the strictly increasing distinct values, and how many; for an empty
      array the count is still 1. */
  method SortArray(a: array<nat>, al: nat) returns (bl: nat)
    requires al <= a.Length
    modifies a
    ensures a[al..] == old(a[al..])
    ensures al > 0 ==> 1 <= bl <= al && DistinctValues(old(a[..al]), a[..bl])
    ensures al == 0 ==> bl == 1
  {
    InsertionSort(a, al);
    if al == 0 {
      return 1;
    }
    bl := Dedupe(a, al);
  }
}
