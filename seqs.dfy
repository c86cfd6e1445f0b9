/** Order-preserving filtering over sequences, the shape of every list
    comprehension over a dictionary's values. */
module Seqs {

  /** No element occurs twice. */
  predicate NoDup<T(==)>(s: seq<T>) {
    forall i, j :: 0 <= i < j < |s| ==> s[i] != s[j]
  }

  /** The elements of `s`, as a set. */
  function Elems<T>(s: seq<T>): set<T> {
    set x | x in s
  }

  /** `[x for x in s if p(x)]`: the elements of `s` that satisfy `p`, in
      the order of `s`. */
  function Filter<T>(s: seq<T>, p: T -> bool): seq<T> {
    if s == [] then []
    else (if p(s[0]) then [s[0]] else []) + Filter(s[1..], p)
  }

  /** `s` with every occurrence of `x` taken out, the rest in order. */
  function Without<T(==)>(s: seq<T>, x: T): seq<T> {
    Filter(s, Differs(x))
  }

  /** The test `y != x`, as a function of `y`. */
  function Differs<T(==)>(x: T): T -> bool {
    y => y != x
  }

  /** `r` is obtained from `s` by deleting elements, keeping the order of
      the others: a reference definition, independent of `Filter`. */
  predicate IsSubsequence<T(==)>(r: seq<T>, s: seq<T>)
    decreases |s|
  {
    if r == [] then true
    else if s == [] then false
    else if r[0] == s[0] then IsSubsequence(r[1..], s[1..])
    else IsSubsequence(r, s[1..])
  }

  /** An element of `Filter(s, p)` is exactly an element of `s` that
      satisfies `p`. */
  lemma {:induction false} FilterMembers<T>(s: seq<T>, p: T -> bool)
    ensures forall x :: x in Filter(s, p) <==> x in s && p(x)
  {
    if s != [] {
      FilterMembers(s[1..], p);
      assert s == [s[0]] + s[1..];
    }
  }

  /** Filtering never reorders: the result is a subsequence. */
  lemma {:induction false} FilterIsSubsequence<T>(s: seq<T>, p: T -> bool)
    ensures IsSubsequence(Filter(s, p), s)
  {
    if s != [] {
      FilterIsSubsequence(s[1..], p);
      var r := Filter(s, p);
      if p(s[0]) {
        assert r[0] == s[0] && r[1..] == Filter(s[1..], p);
      } else {
        assert r == Filter(s[1..], p);
        assert s == [s[0]] + s[1..];
        SubsequenceCons(r, s[0], s[1..]);
      }
    }
  }

  /** Dropping the first element of a subsequence leaves a subsequence. */
  lemma {:induction false} SubsequenceTail<T>(r: seq<T>, s: seq<T>)
    requires r != [] && IsSubsequence(r, s)
    ensures IsSubsequence(r[1..], s)
    decreases |s|, 0
  {
    if r[0] == s[0] {
      SubsequenceCons(r[1..], s[0], s[1..]);
      assert s == [s[0]] + s[1..];
    } else {
      SubsequenceTail(r, s[1..]);
      SubsequenceCons(r[1..], s[0], s[1..]);
      assert s == [s[0]] + s[1..];
    }
  }

  /** A subsequence of `t` stays one when an element is put in front of `t`. */
  lemma {:induction false} SubsequenceCons<T>(r: seq<T>, a: T, t: seq<T>)
    requires IsSubsequence(r, t)
    ensures IsSubsequence(r, [a] + t)
    decreases |t|, 1
  {
    var s := [a] + t;
    assert s[1..] == t;
    if r != [] && r[0] == a {
      SubsequenceTail(r, t);
    }
  }

  /** A filter that every element passes returns its input unchanged. */
  lemma {:induction false} FilterAll<T>(s: seq<T>, p: T -> bool)
    requires forall i :: 0 <= i < |s| ==> p(s[i])
    ensures Filter(s, p) == s
  {
    if s != [] {
      FilterAll(s[1..], p);
      assert s == [s[0]] + s[1..];
    }
  }

  /** Filtering a sequence without duplicates gives one without duplicates. */
  lemma {:induction false} FilterNoDup<T>(s: seq<T>, p: T -> bool)
    requires NoDup(s)
    ensures NoDup(Filter(s, p))
  {
    if s != [] {
      var t := s[1..];
      assert NoDup(t) by {
        forall i, j | 0 <= i < j < |t| ensures t[i] != t[j] {
          assert t[i] == s[i + 1] && t[j] == s[j + 1];
        }
      }
      FilterNoDup(t, p);
      FilterMembers(t, p);
      assert s[0] !in t;
      var head: seq<T> := if p(s[0]) then [s[0]] else [];
      var r := head + Filter(t, p);
      forall i, j | 0 <= i < j < |r| ensures r[i] != r[j] {
        if i < |head| {
          assert r[i] == s[0] && r[j] in Filter(t, p);
        } else {
          assert r[i] == Filter(t, p)[i - |head|] && r[j] == Filter(t, p)[j - |head|];
        }
      }
    }
  }

  /** Every element of a subsequence is an element of the whole. */
  lemma {:induction false} SubsequenceMembers<T>(r: seq<T>, s: seq<T>, x: T)
    requires IsSubsequence(r, s) && x in r
    ensures x in s
    decreases |s|
  {
    if r[0] == s[0] {
      if x != r[0] {
        assert x in r[1..];
        SubsequenceMembers(r[1..], s[1..], x);
      }
    } else {
      SubsequenceMembers(r, s[1..], x);
    }
  }

  /** Over a sequence without duplicates, the order-preserving selection of
      exactly the elements that satisfy `p` is unique: it is `Filter(s, p)`. */
  lemma {:induction false} FilterUnique<T>(r: seq<T>, s: seq<T>, p: T -> bool)
    requires NoDup(s)
    requires IsSubsequence(r, s)
    requires forall x :: x in r <==> x in s && p(x)
    ensures r == Filter(s, p)
    decreases |s|
  {
    if s == [] {
    } else {
      var a, t := s[0], s[1..];
      assert NoDup(t) by {
        forall i, j | 0 <= i < j < |t| ensures t[i] != t[j] {
          assert t[i] == s[i + 1] && t[j] == s[j + 1];
        }
      }
      assert a !in t;
      assert forall x :: x in s <==> x == a || x in t by {
        assert s == [a] + t;
      }
      if r != [] && r[0] == a {
        var r' := r[1..];
        assert IsSubsequence(r', t);
        assert a !in r' by {
          if a in r' {
            SubsequenceMembers(r', t, a);
          }
        }
        assert r == [a] + r';
        forall x ensures x in r' <==> x in t && p(x) {
          assert x in r <==> x == a || x in r';
        }
        FilterUnique(r', t, p);
      } else {
        assert IsSubsequence(r, t);
        assert a !in r by {
          if a in r {
            SubsequenceMembers(r, t, a);
          }
        }
        assert !p(a);
        FilterUnique(r, t, p);
      }
    }
  }

  /** Taking out an element that occurs exactly once shortens by one. */
  lemma {:induction false} WithoutLength<T>(s: seq<T>, x: T)
    requires NoDup(s) && x in s
    ensures |Without(s, x)| == |s| - 1
  {
    var t := s[1..];
    assert NoDup(t) by {
      forall i, j | 0 <= i < j < |t| ensures t[i] != t[j] {
        assert t[i] == s[i + 1] && t[j] == s[j + 1];
      }
    }
    assert s == [s[0]] + t;
    if s[0] == x {
      assert x !in t;
      FilterAll(t, Differs(x));
    } else {
      WithoutLength(t, x);
    }
  }

  /** A sequence without duplicates has as many distinct elements as it
      has positions. */
  lemma {:induction false} ElemsCard<T>(s: seq<T>)
    requires NoDup(s)
    ensures |Elems(s)| == |s|
  {
    if s != [] {
      var t := s[1..];
      assert NoDup(t) by {
        forall i, j | 0 <= i < j < |t| ensures t[i] != t[j] {
          assert t[i] == s[i + 1] && t[j] == s[j + 1];
        }
      }
      ElemsCard(t);
      assert s == [s[0]] + t;
      assert Elems(s) == {s[0]} + Elems(t);
      assert s[0] !in Elems(t);
    }
  }

  /** Taking out `x` keeps the sequence free of duplicates and deletes `x`
      and nothing else. */
  lemma WithoutMembers<T>(s: seq<T>, x: T)
    requires NoDup(s)
    ensures NoDup(Without(s, x))
    ensures forall y :: y in Without(s, x) <==> y in s && y != x
  {
    FilterNoDup(s, Differs(x));
    FilterMembers(s, Differs(x));
  }

  /** Two order-preserving selections from a sequence without duplicates
      that pick the same elements are the same sequence. */
  lemma SelectionUnique<T>(r1: seq<T>, r2: seq<T>, s: seq<T>)
    requires NoDup(s)
    requires IsSubsequence(r1, s) && IsSubsequence(r2, s)
    requires forall x :: x in r1 <==> x in r2
    ensures r1 == r2
  {
    forall x | x in r1 ensures x in s {
      SubsequenceMembers(r1, s, x);
    }
    var p := (x: T) => x in r1;
    FilterUnique(r1, s, p);
    FilterUnique(r2, s, p);
  }
}
