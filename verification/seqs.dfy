/** Sequence helpers shared by the grid and the window enumeration. */
module Seqs {

  function Elems<T>(s: seq<T>): set<T> {
    set x | x in s
  }

  predicate Distinct<T(==)>(s: seq<T>) {
    forall i, j :: 0 <= i < j < |s| ==> s[i] != s[j]
  }

  /** `s` is strictly ordered by `before` when every earlier element precedes every later one. */
  predicate Ordered<T>(s: seq<T>, before: (T, T) -> bool) {
    forall i, j :: 0 <= i < j < |s| ==> before(s[i], s[j])
  }

  /** The position at which `x` first occurs in `s`. */
  function FirstIndex<T(==)>(s: seq<T>, x: T): (k: nat)
    requires x in s
    ensures k < |s| && s[k] == x
    ensures forall i :: 0 <= i < k ==> s[i] != x
  {
    if s[0] == x then 0 else 1 + FirstIndex(s[1..], x)
  }

  /** The elements of `r`, all of which occur in `s`, are listed in the order
      of their first occurrence in `s`. */
  predicate FirstAppearanceOrder<T(==)>(r: seq<T>, s: seq<T>)
    requires forall i :: 0 <= i < |r| ==> r[i] in s
  {
    forall i, j :: 0 <= i < j < |r| ==> FirstIndex(s, r[i]) < FirstIndex(s, r[j])
  }

  /** Elements of the tail that differ from the head keep their relative
      first-occurrence order in the whole sequence, and the head comes
      first of all. */
  lemma FirstAppearanceCons<T>(s: seq<T>, r: seq<T>)
    requires s != []
    requires forall i :: 0 <= i < |r| ==> r[i] in s[1..] && r[i] != s[0]
    requires FirstAppearanceOrder(r, s[1..])
    ensures FirstAppearanceOrder(r, s)
    ensures FirstAppearanceOrder([s[0]] + r, s)
  {
    forall i | 0 <= i < |r|
      ensures FirstIndex(s, r[i]) == 1 + FirstIndex(s[1..], r[i])
    {
    }
    var r' := [s[0]] + r;
    forall i, j | 0 <= i < j < |r'|
      ensures FirstIndex(s, r'[i]) < FirstIndex(s, r'[j])
    {
      assert r'[j] == r[j - 1];
      if i > 0 {
        assert r'[i] == r[i - 1];
      }
    }
  }

  /** The elements of `s` that `keep` accepts, in their original order. */
  function Filter<T(!new)>(s: seq<T>, keep: T -> bool): (r: seq<T>)
    ensures forall x :: x in r <==> x in s && keep(x)
    ensures |r| <= |s|
  {
    if s == [] then []
    else if keep(s[0]) then [s[0]] + Filter(s[1..], keep)
    else Filter(s[1..], keep)
  }

  /** A filter that accepts every element returns the sequence itself. */
  lemma {:induction false} FilterAll<T(!new)>(s: seq<T>, keep: T -> bool)
    requires forall i :: 0 <= i < |s| ==> keep(s[i])
    ensures Filter(s, keep) == s
  {
    if s != [] {
      assert keep(s[0]);
      assert forall i :: 0 <= i < |s[1..]| ==> keep(s[1..][i]) by {
        forall i | 0 <= i < |s[1..]|
          ensures keep(s[1..][i])
        {
          assert s[1..][i] == s[i + 1];
        }
      }
      FilterAll(s[1..], keep);
      assert s == [s[0]] + s[1..];
    }
  }

  /** Filtering keeps each accepted element as often as it occurs and drops
      every other element entirely. */
  lemma {:induction false} FilterCount<T(!new)>(s: seq<T>, keep: T -> bool, x: T)
    ensures multiset(Filter(s, keep))[x] == if keep(x) then multiset(s)[x] else 0
  {
    if s != [] {
      FilterCount(s[1..], keep, x);
      assert s == [s[0]] + s[1..];
    }
  }

  /** Filtering a concatenation filters each part and concatenates: the
      survivors of `s` come before those of `t`. */
  lemma {:induction false} FilterConcat<T(!new)>(s: seq<T>, t: seq<T>, keep: T -> bool)
    ensures Filter(s + t, keep) == Filter(s, keep) + Filter(t, keep)
  {
    if s != [] {
      assert (s + t)[1..] == s[1..] + t;
      FilterConcat(s[1..], t, keep);
    } else {
      assert s + t == t;
    }
  }

  /** Two filters that agree on every element select the same subsequence. */
  lemma {:induction false} FilterSame<T(!new)>(s: seq<T>, keep: T -> bool, keep': T -> bool)
    requires forall x :: keep(x) == keep'(x)
    ensures Filter(s, keep) == Filter(s, keep')
  {
    if s != [] {
      FilterSame(s[1..], keep, keep');
    }
  }

  /** Filtering keeps the relative order of the survivors. */
  lemma {:induction false} FilterOrdered<T(!new)>(s: seq<T>, keep: T -> bool, before: (T, T) -> bool)
    requires Ordered(s, before)
    ensures Ordered(Filter(s, keep), before)
  {
    if s != [] {
      assert Ordered(s[1..], before) by {
        forall i, j | 0 <= i < j < |s[1..]|
          ensures before(s[1..][i], s[1..][j])
        {
          assert s[1..][i] == s[i + 1] && s[1..][j] == s[j + 1];
        }
      }
      FilterOrdered(s[1..], keep, before);
      var rest := Filter(s[1..], keep);
      if keep(s[0]) {
        forall y | y in rest
          ensures before(s[0], y)
        {
          var k :| 0 <= k < |s[1..]| && s[1..][k] == y;
          assert s[k + 1] == y;
        }
        OrderedCons(s[0], rest, before);
      }
    }
  }

  lemma OrderedCons<T>(x: T, s: seq<T>, before: (T, T) -> bool)
    requires Ordered(s, before)
    requires forall y :: y in s ==> before(x, y)
    ensures Ordered([x] + s, before)
  {
    var t := [x] + s;
    forall i, j | 0 <= i < j < |t|
      ensures before(t[i], t[j])
    {
      assert t[j] == s[j - 1];
      if i > 0 {
        assert t[i] == s[i - 1];
      }
    }
  }

  lemma OrderedConcat<T>(s: seq<T>, t: seq<T>, before: (T, T) -> bool)
    requires Ordered(s, before) && Ordered(t, before)
    requires forall a, b :: a in s && b in t ==> before(a, b)
    ensures Ordered(s + t, before)
  {
    var u := s + t;
    forall i, j | 0 <= i < j < |u|
      ensures before(u[i], u[j])
    {
      if j < |s| {
        assert u[i] == s[i] && u[j] == s[j];
      } else if i < |s| {
        assert u[i] == s[i] && u[j] == t[j - |s|];
      } else {
        assert u[i] == t[i - |s|] && u[j] == t[j - |s|];
      }
    }
  }

  /** A sequence ordered by an irreflexive relation holds no element twice. */
  lemma OrderedDistinct<T>(s: seq<T>, before: (T, T) -> bool)
    requires Ordered(s, before)
    requires forall x :: x in s ==> !before(x, x)
    ensures Distinct(s)
  {
    forall i, j | 0 <= i < j < |s|
      ensures s[i] != s[j]
    {
      assert before(s[i], s[j]);
      assert !before(s[i], s[i]);
    }
  }

  /** Every element of `s` has a last occurrence: an index after which it
      does not appear again. */
  lemma {:induction false} LastOccurrence<T>(s: seq<T>, x: T) returns (i: nat)
    requires x in s
    ensures i < |s| && s[i] == x && x !in s[i + 1..]
    decreases |s|
  {
    var n := |s| - 1;
    if s[n] == x {
      i := n;
      assert s[n + 1..] == [];
    } else {
      var front := s[..n];
      assert s == front + [s[n]];
      assert x in front;
      i := LastOccurrence(front, x);
      assert s[i + 1..] == front[i + 1..] + [s[n]];
    }
  }
}
