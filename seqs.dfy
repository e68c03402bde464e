/** List comprehensions and the set/list facts the reconciliation relies on. */
module Seqs {

  /** Python's `[x for x in s if p(x)]`: keeps, in order, the elements satisfying `p`. */
  function Filter<T(!new)>(p: T -> bool, s: seq<T>): (r: seq<T>)
    ensures |r| <= |s|
    ensures forall i :: 0 <= i < |r| ==> r[i] in s && p(r[i])
    ensures forall i :: 0 <= i < |s| && p(s[i]) ==> s[i] in r
    ensures forall x :: multiset(r)[x] == if p(x) then multiset(s)[x] else 0
  {
    if s == [] then []
    else
      var head := if p(s[0]) then [s[0]] else [];
      var rest := Filter(p, s[1..]);
      FilterStep(p, s, s[1..], head, rest);
      head + rest
  }

  /** The facts `Filter` states, carried from the tail of `s` to `s`. */
  lemma FilterStep<T(!new)>(p: T -> bool, s: seq<T>, tail: seq<T>, head: seq<T>, rest: seq<T>)
    requires s != [] && tail == s[1..] && head == (if p(s[0]) then [s[0]] else [])
    requires |rest| <= |tail|
    requires forall i :: 0 <= i < |rest| ==> rest[i] in tail && p(rest[i])
    requires forall i :: 0 <= i < |tail| && p(tail[i]) ==> tail[i] in rest
    requires forall x :: multiset(rest)[x] == if p(x) then multiset(tail)[x] else 0
    ensures |head + rest| <= |s|
    ensures forall i :: 0 <= i < |head + rest| ==> (head + rest)[i] in s && p((head + rest)[i])
    ensures forall i :: 0 <= i < |s| && p(s[i]) ==> s[i] in head + rest
    ensures forall x :: multiset(head + rest)[x] == if p(x) then multiset(s)[x] else 0
  {
    assert s == [s[0]] + tail;
    assert multiset(s) == multiset([s[0]]) + multiset(tail);
    forall i | 0 <= i < |s| && p(s[i]) ensures s[i] in head + rest {
      if i > 0 {
        assert s[i] == tail[i - 1];
      }
    }
  }

  /** The elements a comprehension keeps and the ones it drops make up the whole list. */
  lemma {:induction false} FilterSplit<T(!new)>(p: T -> bool, q: T -> bool, s: seq<T>)
    requires forall x :: q(x) == !p(x)
    ensures |Filter(p, s)| + |Filter(q, s)| == |s|
  {
    if s != [] {
      FilterSplit(p, q, s[1..]);
    }
  }

  /** Filtering commutes with concatenation, so the comprehension keeps source order. */
  lemma {:induction false} FilterAppend<T(!new)>(p: T -> bool, a: seq<T>, b: seq<T>)
    ensures Filter(p, a + b) == Filter(p, a) + Filter(p, b)
  {
    if a == [] {
      assert a + b == b;
    } else {
      var kept := if p(a[0]) then [a[0]] else [];
      ConcatTail(a, b);
      FilterAppend(p, a[1..], b);
      ConcatAssoc(kept, Filter(p, a[1..]), Filter(p, b));
    }
  }

  /** The tail of `a + b`, for a non-empty `a`, is the tail of `a` followed by `b`. */
  lemma ConcatTail<T>(a: seq<T>, b: seq<T>)
    requires a != []
    ensures a + b != [] && (a + b)[0] == a[0] && (a + b)[1..] == a[1..] + b
  {
  }

  /** Concatenation is associative. */
  lemma ConcatAssoc<T>(x: seq<T>, y: seq<T>, z: seq<T>)
    ensures x + (y + z) == (x + y) + z
  {
  }

  /** A comprehension whose condition holds of no element is empty. */
  lemma FilterNone<T(!new)>(p: T -> bool, s: seq<T>)
    requires forall i :: 0 <= i < |s| ==> !p(s[i])
    ensures Filter(p, s) == []
  {
  }

  /** A comprehension whose condition holds of every element keeps the whole list. */
  lemma {:induction false} FilterAll<T(!new)>(p: T -> bool, s: seq<T>)
    requires forall i :: 0 <= i < |s| ==> p(s[i])
    ensures Filter(p, s) == s
  {
    if s != [] {
      FilterAll(p, s[1..]);
    }
  }

  /** Python's `set(s)`. */
  function Elems<T>(s: seq<T>): set<T> {
    set x | x in s
  }

  /** No element occurs twice. */
  predicate Distinct<T(==)>(s: seq<T>) {
    forall i, j :: 0 <= i < j < |s| ==> s[i] != s[j]
  }

  /** A list without duplicates has as many distinct elements as entries. */
  lemma {:induction false} DistinctCard<T>(s: seq<T>)
    requires Distinct(s)
    ensures |Elems(s)| == |s|
  {
    if s != [] {
      assert Distinct(s[1..]) by {
        forall i, j | 0 <= i < j < |s[1..]| ensures s[1..][i] != s[1..][j] {
          assert s[1..][i] == s[i + 1] && s[1..][j] == s[j + 1];
        }
      }
      DistinctCard(s[1..]);
      assert Elems(s) == {s[0]} + Elems(s[1..]);
      assert s[0] !in Elems(s[1..]) by {
        forall k | 0 <= k < |s[1..]| ensures s[1..][k] != s[0] {
          assert s[1..][k] == s[k + 1];
        }
      }
    }
  }

  /** A list has no duplicates exactly when no element occurs in it more than once. */
  lemma DistinctMultiplicity<T(!new)>(s: seq<T>)
    ensures Distinct(s) <==> forall x :: multiset(s)[x] <= 1
  {
    if Distinct(s) {
      forall x ensures multiset(s)[x] <= 1 {
        DistinctAtMostOnce(s, x);
      }
    } else {
      var i, j :| 0 <= i < j < |s| && s[i] == s[j];
      assert s == s[..j] + s[j..];
      assert s[..j][i] == s[i] && s[j..][0] == s[j];
      assert multiset(s) == multiset(s[..j]) + multiset(s[j..]);
      assert multiset(s[..j])[s[i]] >= 1 && multiset(s[j..])[s[i]] >= 1;
      assert multiset(s)[s[i]] >= 2;
    }
  }

  lemma {:induction false} DistinctAtMostOnce<T>(s: seq<T>, x: T)
    requires Distinct(s)
    ensures multiset(s)[x] <= 1
  {
    if s != [] {
      assert s == [s[0]] + s[1..];
      assert Distinct(s[1..]) by {
        forall i, j | 0 <= i < j < |s[1..]| ensures s[1..][i] != s[1..][j] {
          assert s[1..][i] == s[i + 1] && s[1..][j] == s[j + 1];
        }
      }
      DistinctAtMostOnce(s[1..], x);
      if x == s[0] {
        assert x !in s[1..] by {
          forall k | 0 <= k < |s[1..]| ensures s[1..][k] != x {
            assert s[1..][k] == s[k + 1];
          }
        }
      }
    }
  }

  /** Filtering a list without duplicates yields a list without duplicates. */
  lemma FilterDistinct<T(!new)>(p: T -> bool, s: seq<T>)
    requires Distinct(s)
    ensures Distinct(Filter(p, s))
  {
    DistinctMultiplicity(s);
    DistinctMultiplicity(Filter(p, s));
  }
}
