/** Python's `sorted` on a list of strings, as insertion sort. */
module Sorting {
  import opened Strings

  /** Every element is at most every later one. */
  predicate Sorted(s: seq<string>) {
    forall i, j :: 0 <= i < j < |s| ==> LessEq(s[i], s[j])
  }

  /** `y` is at most every element of `s`. */
  predicate LowerBound(y: string, s: seq<string>) {
    forall j :: 0 <= j < |s| ==> LessEq(y, s[j])
  }

  /** Puts `x` into `s` before the first element it does not exceed. */
  function Insert(x: string, s: seq<string>): (r: seq<string>)
    ensures |r| == |s| + 1
  {
    if s == [] then [x]
    else if LessEq(x, s[0]) then [x] + s
    else [s[0]] + Insert(x, s[1..])
  }

  /** Inserting adds exactly one copy of `x` and loses nothing. */
  lemma {:induction false} InsertPermutes(x: string, s: seq<string>)
    ensures multiset(Insert(x, s)) == multiset(s) + multiset{x}
  {
    if s != [] && !LessEq(x, s[0]) {
      InsertPermutes(x, s[1..]);
      assert s == [s[0]] + s[1..];
    }
  }

  /** A lower bound of `s` that is also at most `x` stays a lower bound after inserting `x`. */
  lemma {:induction false} InsertLowerBound(y: string, x: string, s: seq<string>)
    requires LowerBound(y, s) && LessEq(y, x)
    ensures LowerBound(y, Insert(x, s))
  {
    if s != [] && !LessEq(x, s[0]) {
      InsertLowerBound(y, x, s[1..]);
      var r := Insert(x, s);
      assert r == [s[0]] + Insert(x, s[1..]);
      forall j | 0 <= j < |r| ensures LessEq(y, r[j]) {
        if j > 0 { assert r[j] == Insert(x, s[1..])[j - 1]; }
      }
    }
  }

  /** A lower bound put in front of a sorted list gives a sorted list. */
  lemma ConsSorted(y: string, t: seq<string>)
    requires LowerBound(y, t) && Sorted(t)
    ensures Sorted([y] + t)
  {
    var r := [y] + t;
    forall i, j | 0 <= i < j < |r| ensures LessEq(r[i], r[j]) {
      assert r[j] == t[j - 1];
      if i > 0 { assert r[i] == t[i - 1]; }
    }
  }

  /** Inserting into a sorted list keeps it sorted. */
  lemma {:induction false} InsertSorted(x: string, s: seq<string>)
    requires Sorted(s)
    ensures Sorted(Insert(x, s))
  {
    if s == [] {
    } else if LessEq(x, s[0]) {
      forall j | 0 <= j < |s| ensures LessEq(x, s[j]) {
        if j > 0 { LessEqTransitive(x, s[0], s[j]); }
      }
      ConsSorted(x, s);
    } else {
      LessEqTotal(x, s[0]);
      var t := s[1..];
      SortedTail(s);
      assert LowerBound(s[0], t) by {
        forall j | 0 <= j < |t| ensures LessEq(s[0], t[j]) {
          assert t[j] == s[j + 1];
        }
      }
      InsertSorted(x, t);
      InsertLowerBound(s[0], x, t);
      ConsSorted(s[0], Insert(x, t));
    }
  }

  /** `sorted(s)`: the elements of `s` in ascending order. */
  function SortStrings(s: seq<string>): (r: seq<string>)
    ensures Sorted(r)
    ensures multiset(r) == multiset(s)
  {
    if s == [] then []
    else
      var rest := SortStrings(s[1..]);
      InsertSorted(s[0], rest);
      InsertPermutes(s[0], rest);
      assert s == [s[0]] + s[1..];
      Insert(s[0], rest)
  }

  /** Sorting keeps exactly the strings there were. */
  lemma SortKeepsMembers(s: seq<string>, x: string)
    ensures x in SortStrings(s) <==> x in s
  {
    assert x in SortStrings(s) <==> x in multiset(SortStrings(s));
  }

  /** The first element of a sorted list is at most every element of it. */
  lemma HeadIsLeast(s: seq<string>, e: string)
    requires Sorted(s) && e in s
    ensures LessEq(s[0], e)
  {
    var k :| 0 <= k < |s| && s[k] == e;
    if k == 0 { LessEqReflexive(e); }
  }

  /** Dropping the first element of a sorted list leaves it sorted. */
  lemma SortedTail(s: seq<string>)
    requires Sorted(s) && s != []
    ensures Sorted(s[1..])
  {
    var t := s[1..];
    forall i, j | 0 <= i < j < |t| ensures LessEq(t[i], t[j]) {
      assert t[i] == s[i + 1] && t[j] == s[j + 1];
    }
  }

  lemma MultisetTail(s: seq<string>)
    requires s != []
    ensures multiset(s[1..]) == multiset(s) - multiset{s[0]}
  {
    assert s == [s[0]] + s[1..];
  }

  /** Two sorted lists with the same elements are the same list. */
  lemma {:induction false} SortedUnique(a: seq<string>, b: seq<string>)
    requires Sorted(a) && Sorted(b) && multiset(a) == multiset(b)
    ensures a == b
  {
    assert |a| == |multiset(a)| == |multiset(b)| == |b|;
    if a != [] {
      assert a[0] in a && b[0] in b;
      assert a[0] in multiset(b) && b[0] in multiset(a);
      HeadIsLeast(a, b[0]);
      HeadIsLeast(b, a[0]);
      LessEqAntisymmetric(a[0], b[0]);
      var ta, tb := a[1..], b[1..];
      MultisetTail(a);
      MultisetTail(b);
      SortedTail(a);
      SortedTail(b);
      SortedUnique(ta, tb);
    }
  }

  /** The sorted result depends only on which strings there are, not on the order they came in. */
  lemma SortIgnoresInputOrder(a: seq<string>, b: seq<string>)
    requires multiset(a) == multiset(b)
    ensures SortStrings(a) == SortStrings(b)
  {
    SortedUnique(SortStrings(a), SortStrings(b));
  }
}
