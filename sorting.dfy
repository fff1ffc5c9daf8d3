/**
 * The two uses of Python's `sorted` in the normalisers: on a list of strings
 * (duplicates kept) and on a set of integers (no duplicates, so the result
 * strictly increases). Each is defined here by insertion, and each comes with
 * a lemma that the sorted arrangement is unique, so the result does not depend
 * on which sorting algorithm produced it.
 */
module Sorting {
  import opened Collation

  predicate Sorted(s: seq<string>) {
    forall i, j :: 0 <= i < j < |s| ==> LessEq(s[i], s[j])
  }

  /** `h` is at most every element of `t`. */
  predicate Below(h: string, t: seq<string>) {
    forall y :: y in t ==> LessEq(h, y)
  }

  lemma SortedCons(h: string, t: seq<string>)
    requires Sorted(t) && Below(h, t)
    ensures Sorted([h] + t)
  {
    forall i, j | 0 <= i < j < |[h] + t| ensures LessEq(([h] + t)[i], ([h] + t)[j]) {
      if i > 0 { assert ([h] + t)[i] == t[i - 1]; }
      assert ([h] + t)[j] == t[j - 1] && t[j - 1] in t;
    }
  }

  lemma SortedHeadBelow(s: seq<string>)
    requires Sorted(s) && s != []
    ensures Below(s[0], s[1..])
  {
    forall y | y in s[1..] ensures LessEq(s[0], y) {
      var k :| 0 <= k < |s[1..]| && s[1..][k] == y;
      assert s[k + 1] == y;
    }
  }

  lemma BelowTransitive(x: string, h: string, t: seq<string>)
    requires LessEq(x, h) && Below(h, t)
    ensures Below(x, t)
  {
    forall y | y in t ensures LessEq(x, y) { LessEqTransitive(x, h, y); }
  }

  lemma BelowSameElements(h: string, t: seq<string>, u: seq<string>, x: string)
    requires Below(h, u) && LessEq(h, x)
    requires multiset(t) == multiset(u) + multiset{x}
    ensures Below(h, t)
  {
    forall y | y in t ensures LessEq(h, y) {
      assert y in multiset(t);
      if y != x { assert y in multiset(u); }
    }
  }

  /** Puts `x` into the sorted list `s` before the first element it does not exceed. */
  function Insert(x: string, s: seq<string>): (r: seq<string>)
    requires Sorted(s)
    ensures Sorted(r)
    ensures multiset(r) == multiset(s) + multiset{x}
  {
    if s == [] then
      [x]
    else if LessEq(x, s[0]) then
      SortedHeadBelow(s);
      BelowTransitive(x, s[0], s[1..]);
      assert s == [s[0]] + s[1..];
      assert Below(x, s);
      SortedCons(x, s);
      [x] + s
    else
      SortedHeadBelow(s);
      var t := Insert(x, s[1..]);
      LessTotal(x, s[0]);
      BelowSameElements(s[0], t, s[1..], x);
      SortedCons(s[0], t);
      assert s == [s[0]] + s[1..];
      [s[0]] + t
  }

  /** `sorted(s)` for a list of strings. */
  function Sort(s: seq<string>): (r: seq<string>)
    ensures Sorted(r)
    ensures multiset(r) == multiset(s)
  {
    if s == [] then [] else
      assert s == [s[0]] + s[1..];
      Insert(s[0], Sort(s[1..]))
  }

  /** The head of a sorted list is at most every string the list holds. */
  lemma SortedHeadAtMost(a: seq<string>, x: string)
    requires Sorted(a) && x in multiset(a)
    ensures LessEq(a[0], x)
  {
    var j :| 0 <= j < |a| && a[j] == x;
    if j > 0 { assert LessEq(a[0], a[j]); }
  }

  /** Two sorted lists holding the same strings the same number of times are equal. */
  lemma {:induction false} SortedUnique(a: seq<string>, b: seq<string>)
    requires Sorted(a) && Sorted(b)
    requires multiset(a) == multiset(b)
    ensures a == b
  {
    if a != [] {
      assert b != [] by { assert a[0] in multiset(b); }
      SortedHeadAtMost(a, b[0]);
      SortedHeadAtMost(b, a[0]);
      LessEqAntisymmetric(a[0], b[0]);
      assert a == [a[0]] + a[1..] && b == [b[0]] + b[1..];
      assert multiset(a) == multiset{a[0]} + multiset(a[1..]);
      assert multiset(b) == multiset{b[0]} + multiset(b[1..]);
      assert multiset(a[1..]) == multiset(a) - multiset{a[0]};
      assert multiset(b[1..]) == multiset(b) - multiset{b[0]};
      SortedUnique(a[1..], b[1..]);
    }
  }

  predicate Increasing(s: seq<int>) {
    forall i, j :: 0 <= i < j < |s| ==> s[i] < s[j]
  }

  lemma IncreasingCons(h: int, t: seq<int>)
    requires Increasing(t)
    requires forall y :: y in t ==> h < y
    ensures Increasing([h] + t)
  {
    forall i, j | 0 <= i < j < |[h] + t| ensures ([h] + t)[i] < ([h] + t)[j] {
      assert ([h] + t)[j] == t[j - 1] && t[j - 1] in t;
      if i > 0 { assert ([h] + t)[i] == t[i - 1]; }
    }
  }

  lemma IncreasingHeadBelow(s: seq<int>)
    requires Increasing(s) && s != []
    ensures forall y :: y in s[1..] ==> s[0] < y
  {
    forall y | y in s[1..] ensures s[0] < y {
      var k :| 0 <= k < |s[1..]| && s[1..][k] == y;
      assert s[k + 1] == y;
    }
  }

  /** Puts `x` into the strictly increasing list `s` unless it is there already. */
  function InsertNew(x: int, s: seq<int>): (r: seq<int>)
    requires Increasing(s)
    ensures Increasing(r)
    ensures forall y :: y in r <==> y == x || y in s
  {
    if s == [] then
      [x]
    else if x < s[0] then
      IncreasingHeadBelow(s);
      assert forall y :: y in s ==> y == s[0] || y in s[1..];
      IncreasingCons(x, s);
      [x] + s
    else if x == s[0] then
      s
    else
      IncreasingHeadBelow(s);
      var t := InsertNew(x, s[1..]);
      IncreasingCons(s[0], t);
      assert forall y :: y in s <==> y == s[0] || y in s[1..];
      [s[0]] + t
  }

  /** `sorted(set(s))` for a list of integers: each value once, in increasing order. */
  function SortedSet(s: seq<int>): (r: seq<int>)
    ensures Increasing(r)
    ensures forall y :: y in r <==> y in s
  {
    if s == [] then [] else
      assert forall y :: y in s <==> y == s[0] || y in s[1..];
      InsertNew(s[0], SortedSet(s[1..]))
  }

  /** Two strictly increasing lists holding the same integers are equal. */
  lemma {:induction false} IncreasingUnique(a: seq<int>, b: seq<int>)
    requires Increasing(a) && Increasing(b)
    requires forall y :: y in a <==> y in b
    ensures a == b
  {
    if b != [] { assert b[0] in b; }
    if a != [] {
      assert a[0] in a && a[0] in b;
      assert b[0] in b && b[0] in a;
      IncreasingHeadBelow(a);
      IncreasingHeadBelow(b);
      assert a[0] == b[0] by {
        assert a == [a[0]] + a[1..] && b == [b[0]] + b[1..];
      }
      assert forall y :: y in a[1..] <==> y in b[1..] by {
        assert forall y :: y in a <==> y == a[0] || y in a[1..];
        assert forall y :: y in b <==> y == b[0] || y in b[1..];
      }
      IncreasingUnique(a[1..], b[1..]);
    }
  }

}
