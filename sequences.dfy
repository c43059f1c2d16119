/** Order-preserving filtering of sequences: the array operations the handlers rely on
    (Mongoose's `pull` on a document array, and `populate` dropping missing references). */
module Sequences {

  /** The elements of `s` that satisfy `p`, in their original order. */
  function Filter<T(==,!new)>(s: seq<T>, p: T -> bool): (r: seq<T>)
    ensures |r| <= |s|
    ensures forall x :: x in r <==> x in s && p(x)
  {
    if s == [] then []
    else (if p(s[0]) then [s[0]] else []) + Filter(s[1..], p)
  }

  /** `r` can be obtained from `s` by deleting elements: the relative order of what is
      kept is the order in `s`. */
  ghost predicate SubsequenceOf<T>(r: seq<T>, s: seq<T>)
    decreases |s|
  {
    r == [] || (s != [] && ((r[0] == s[0] && SubsequenceOf(r[1..], s[1..])) || SubsequenceOf(r, s[1..])))
  }

  /** No element occurs twice. */
  ghost predicate Distinct<T>(s: seq<T>)
  {
    forall i, j :: 0 <= i < j < |s| ==> s[i] != s[j]
  }

  lemma {:induction false} FilterIsSubsequence<T(!new)>(s: seq<T>, p: T -> bool)
    ensures SubsequenceOf(Filter(s, p), s)
  {
    if s != [] {
      FilterIsSubsequence(s[1..], p);
      var r := Filter(s, p);
      if p(s[0]) {
        assert r[0] == s[0] && r[1..] == Filter(s[1..], p);
      } else {
        assert r == Filter(s[1..], p);
      }
    }
  }

  /** Filtering with a predicate every element satisfies changes nothing. */
  lemma {:induction false} FilterKeepsAll<T(!new)>(s: seq<T>, p: T -> bool)
    requires forall x :: x in s ==> p(x)
    ensures Filter(s, p) == s
  {
    if s != [] {
      assert s[0] in s;
      assert forall x :: x in s[1..] ==> x in s;
      FilterKeepsAll(s[1..], p);
      assert [s[0]] + s[1..] == s;
    }
  }

  /** Filtering out an element that occurs makes the sequence strictly shorter. */
  lemma {:induction false} FilterShorter<T(!new)>(s: seq<T>, p: T -> bool, x: T)
    requires x in s && !p(x)
    ensures |Filter(s, p)| < |s|
  {
    if s[0] != x {
      FilterShorter(s[1..], p, x);
    }
  }

  /** Filtering distributes over concatenation. */
  lemma {:induction false} FilterConcat<T(!new)>(a: seq<T>, b: seq<T>, p: T -> bool)
    ensures Filter(a + b, p) == Filter(a, p) + Filter(b, p)
  {
    if a == [] {
      assert a + b == b;
    } else {
      assert (a + b)[0] == a[0] && (a + b)[1..] == a[1..] + b;
      FilterConcat(a[1..], b, p);
    }
  }

  lemma {:induction false} FilterDistinct<T(!new)>(s: seq<T>, p: T -> bool)
    requires Distinct(s)
    ensures Distinct(Filter(s, p))
  {
    if s != [] {
      var tail := s[1..];
      assert Distinct(tail) by {
        forall i, j | 0 <= i < j < |tail| ensures tail[i] != tail[j] {
          assert tail[i] == s[i + 1] && tail[j] == s[j + 1];
        }
      }
      FilterDistinct(tail, p);
      var ft := Filter(tail, p);
      if p(s[0]) {
        assert s[0] !in tail by {
          forall j | 0 <= j < |tail| ensures tail[j] != s[0] {
            assert tail[j] == s[j + 1];
          }
        }
        assert s[0] !in ft;
        var r := [s[0]] + ft;
        assert r == Filter(s, p);
        forall i, j | 0 <= i < j < |r| ensures r[i] != r[j] {
          if i == 0 {
            assert r[j] == ft[j - 1];
            assert r[j] in ft;
          } else {
            assert r[i] == ft[i - 1] && r[j] == ft[j - 1];
          }
        }
      } else {
        assert Filter(s, p) == ft;
      }
    }
  }

  /** Filtering keeps every copy of an element that passes the test and no copy of one
      that fails it. */
  lemma {:induction false} FilterCount<T(!new)>(s: seq<T>, p: T -> bool, y: T)
    ensures multiset(Filter(s, p))[y] == if p(y) then multiset(s)[y] else 0
  {
    if s != [] {
      FilterCount(s[1..], p, y);
      assert s == [s[0]] + s[1..];
      assert multiset(s) == multiset([s[0]]) + multiset(s[1..]);
      var head := if p(s[0]) then [s[0]] else [];
      assert multiset(Filter(s, p)) == multiset(head) + multiset(Filter(s[1..], p));
    }
  }

  /** Two filterings in a row depend only on which elements pass both tests. */
  lemma {:induction false} FilterFilter<T(!new)>(s: seq<T>, p1: T -> bool, q1: T -> bool, p2: T -> bool, q2: T -> bool)
    requires forall x :: (p1(x) && q1(x)) == (p2(x) && q2(x))
    ensures Filter(Filter(s, p1), q1) == Filter(Filter(s, p2), q2)
  {
    if s != [] {
      FilterFilter(s[1..], p1, q1, p2, q2);
      FilterConcat(if p1(s[0]) then [s[0]] else [], Filter(s[1..], p1), q1);
      FilterConcat(if p2(s[0]) then [s[0]] else [], Filter(s[1..], p2), q2);
    }
  }

  /** Mongoose's `pull(x)` on a document array: every occurrence of `x` is removed and
      the other elements keep their order (`PullCounts`: every copy of them is kept). */
  function Pull<T(==,!new)>(s: seq<T>, x: T): (r: seq<T>)
    ensures x !in r
    ensures forall y :: y != x ==> (y in r <==> y in s)
    ensures |r| <= |s|
    ensures SubsequenceOf(r, s)
    ensures x !in s ==> r == s
  {
    FilterIsSubsequence(s, Except(x));
    if x !in s then FilterKeepsAll(s, Except(x)); Filter(s, Except(x)) else Filter(s, Except(x))
  }

  /** The predicate "differs from `x`" that `Pull` filters with. */
  function Except<T(==,!new)>(x: T): T -> bool
  {
    y => y != x
  }

  /** Pulling keeps every copy of every other element: as a multiset, the result is the
      input with the count of `x` set to zero. */
  lemma PullCounts<T(!new)>(s: seq<T>, x: T)
    ensures multiset(Pull(s, x)) == multiset(s)[x := 0]
  {
    forall y ensures multiset(Pull(s, x))[y] == multiset(s)[x := 0][y] {
      FilterCount(s, Except(x), y);
    }
  }

  lemma PullIdempotent<T(!new)>(s: seq<T>, x: T)
    ensures Pull(Pull(s, x), x) == Pull(s, x)
  {
  }

  lemma PullDistinct<T(!new)>(s: seq<T>, x: T)
    requires Distinct(s)
    ensures Distinct(Pull(s, x))
  {
    FilterDistinct(s, Except(x));
  }

  /** Appending an element that is not yet present keeps a sequence free of duplicates. */
  lemma AppendDistinct<T>(s: seq<T>, x: T)
    requires Distinct(s) && x !in s
    ensures Distinct(s + [x])
  {
    var r := s + [x];
    forall i, j | 0 <= i < j < |r| ensures r[i] != r[j] {
      if j == |s| {
        assert r[i] == s[i];
      } else {
        assert r[i] == s[i] && r[j] == s[j];
      }
    }
  }
}
