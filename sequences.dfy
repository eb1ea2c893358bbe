/** Selecting the elements of a sequence that satisfy a predicate, by index, and mapping them. */
module Sequences {

  /** Every element of `r` is smaller than the next: no index is repeated and order is kept. */
  predicate StrictlyIncreasing(r: seq<nat>) {
    forall j, k :: 0 <= j < k < |r| ==> r[j] < r[k]
  }

  /** The indices of the elements of `s` that `keep` accepts, in increasing order. */
  function KeptIndices<T>(keep: T -> bool, s: seq<T>): (r: seq<nat>)
    ensures |r| <= |s|
    ensures forall k :: 0 <= k < |r| ==> r[k] < |s| && keep(s[r[k]])
  {
    if |s| == 0 then []
    else KeptIndices(keep, s[..|s| - 1]) + (if keep(s[|s| - 1]) then [|s| - 1] else [])
  }

  /** The kept indices are exactly the positions whose element is accepted, each once, in order. */
  lemma {:induction false} KeptIndicesExact<T>(keep: T -> bool, s: seq<T>)
    ensures StrictlyIncreasing(KeptIndices(keep, s))
    ensures forall i :: 0 <= i < |s| ==> (keep(s[i]) <==> i in KeptIndices(keep, s))
  {
    if |s| > 0 {
      var init := s[..|s| - 1];
      KeptIndicesExact(keep, init);
      var r0, r := KeptIndices(keep, init), KeptIndices(keep, s);
      var tail := if keep(s[|s| - 1]) then [|s| - 1] else [];
      assert r == r0 + tail;
      forall j, k | 0 <= j < k < |r| ensures r[j] < r[k] {
        if k >= |r0| {
          assert r[k] == |s| - 1;
          if j < |r0| { assert r[j] == r0[j] < |init|; }
        } else {
          assert r[j] == r0[j] && r[k] == r0[k];
        }
      }
      forall i | 0 <= i < |s| ensures keep(s[i]) <==> i in r {
        if i < |init| {
          assert init[i] == s[i];
          assert i in r0 <==> i in r by {
            assert i !in tail;
          }
        }
      }
    }
  }

  /** `[f(x) for x in s if keep(x)]`. */
  function MapKept<T, U>(keep: T -> bool, f: T -> U, s: seq<T>): (r: seq<U>)
    ensures |r| <= |s|
  {
    if |s| == 0 then []
    else MapKept(keep, f, s[..|s| - 1]) + (if keep(s[|s| - 1]) then [f(s[|s| - 1])] else [])
  }

  /** The k-th result is `f` of the k-th accepted element. */
  lemma {:induction false} MapKeptIsSelection<T, U>(keep: T -> bool, f: T -> U, s: seq<T>)
    ensures |MapKept(keep, f, s)| == |KeptIndices(keep, s)|
    ensures forall k :: 0 <= k < |MapKept(keep, f, s)| ==>
      MapKept(keep, f, s)[k] == f(s[KeptIndices(keep, s)[k]])
  {
    if |s| > 0 {
      var init := s[..|s| - 1];
      MapKeptIsSelection(keep, f, init);
      var p0, q0 := MapKept(keep, f, init), KeptIndices(keep, init);
      var p, q := MapKept(keep, f, s), KeptIndices(keep, s);
      forall k | 0 <= k < |p| ensures p[k] == f(s[q[k]]) {
        if k < |p0| {
          assert p[k] == p0[k] && q[k] == q0[k];
          assert init[q0[k]] == s[q0[k]];
        }
      }
    }
  }

  /** Selecting and mapping commutes with splitting the input. */
  lemma {:induction false} MapKeptAppend<T, U>(keep: T -> bool, f: T -> U, a: seq<T>, b: seq<T>)
    ensures MapKept(keep, f, a + b) == MapKept(keep, f, a) + MapKept(keep, f, b)
    decreases |b|
  {
    if |b| > 0 {
      var b' := b[..|b| - 1];
      MapKeptAppend(keep, f, a, b');
      assert (a + b)[..|a + b| - 1] == a + b';
    } else {
      assert a + b == a;
    }
  }

  lemma ConcatAssociative<T>(a: seq<T>, b: seq<T>, c: seq<T>)
    ensures a + (b + c) == (a + b) + c
  {
  }

  /** `x` is a result exactly when it is `f` of some accepted element. */
  lemma {:induction false} MapKeptMember<T, U>(keep: T -> bool, f: T -> U, s: seq<T>, x: U)
    ensures x in MapKept(keep, f, s) <==> exists i :: 0 <= i < |s| && keep(s[i]) && f(s[i]) == x
  {
    if |s| > 0 {
      var init := s[..|s| - 1];
      var last := s[|s| - 1];
      MapKeptMember(keep, f, init, x);
      assert MapKept(keep, f, s) == MapKept(keep, f, init) + (if keep(last) then [f(last)] else []);
      if x in MapKept(keep, f, init) {
        var i :| 0 <= i < |init| && keep(init[i]) && f(init[i]) == x;
        assert init[i] == s[i];
      }
      if i :| 0 <= i < |s| && keep(s[i]) && f(s[i]) == x {
        if i < |init| {
          assert init[i] == s[i];
        }
      }
    }
  }
}
