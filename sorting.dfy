/** A stable sort: the behaviour `Array.prototype.sort` has had to have since
    ECMAScript 2019, stated for any "goes strictly before" relation `lt`, with
    the in-place insertion sort that realises it on an array. */
module Sorting {
  import opened Seqs

  /** Irreflexive, asymmetric and negatively transitive: the relation a
      consistent comparator's `< 0` answers give. */
  ghost predicate StrictWeakOrder<T(!new)>(lt: (T, T) -> bool) {
    && (forall a :: !lt(a, a))
    && (forall a, b :: lt(a, b) ==> !lt(b, a))
    && (forall a, b, c :: lt(a, c) ==> lt(a, b) || lt(b, c))
  }

  predicate Sorted<T>(lt: (T, T) -> bool, s: seq<T>) {
    forall i, j :: 0 <= i < j < |s| ==> !lt(s[j], s[i])
  }

  /** Inserts `x` into `s` after every element it does not go strictly before,
      scanning from the right. */
  function Insert<T>(lt: (T, T) -> bool, s: seq<T>, x: T): (r: seq<T>)
    ensures |r| == |s| + 1
  {
    if s == [] || !lt(x, s[|s| - 1]) then s + [x]
    else
      assert s == s[..|s| - 1] + [s[|s| - 1]];
      Insert(lt, s[..|s| - 1], x) + [s[|s| - 1]]
  }

  /** Insertion sort from the left. */
  function SortBy<T>(lt: (T, T) -> bool, s: seq<T>): (r: seq<T>)
    ensures |r| == |s|
  {
    if s == [] then []
    else
      assert s == s[..|s| - 1] + [s[|s| - 1]];
      Insert(lt, SortBy(lt, s[..|s| - 1]), s[|s| - 1])
  }

  /** Where `Insert` puts `x`: after a prefix of `s`, and before a suffix whose
      every element `x` goes strictly before. */
  lemma {:induction false} InsertShape<T>(lt: (T, T) -> bool, s: seq<T>, x: T) returns (m: nat)
    ensures m <= |s| && Insert(lt, s, x) == s[..m] + [x] + s[m..]
    ensures forall k :: m <= k < |s| ==> lt(x, s[k])
    ensures m > 0 ==> !lt(x, s[m - 1])
  {
    if s == [] || !lt(x, s[|s| - 1]) {
      m := |s|;
    } else {
      var init := s[..|s| - 1];
      m := InsertShape(lt, init, x);
      var r, t := Insert(lt, s, x), s[..m] + [x] + s[m..];
      assert r == Insert(lt, init, x) + [s[|s| - 1]];
      forall k | 0 <= k < |r| ensures r[k] == t[k] {
        if k < |r| - 1 {
          assert r[k] == Insert(lt, init, x)[k];
        }
      }
    }
  }

  /** Inserting adds exactly `x`. */
  lemma {:induction false} InsertPermutation<T>(lt: (T, T) -> bool, s: seq<T>, x: T)
    ensures multiset(Insert(lt, s, x)) == multiset(s) + multiset{x}
  {
    var m := InsertShape(lt, s, x);
    assert s == s[..m] + s[m..];
  }

  /** The sort's output is a permutation of its input. */
  lemma {:induction false} SortByPermutation<T>(lt: (T, T) -> bool, s: seq<T>)
    ensures multiset(SortBy(lt, s)) == multiset(s)
  {
    if s != [] {
      var init := s[..|s| - 1];
      assert s == init + [s[|s| - 1]];
      SortByPermutation(lt, init);
      InsertPermutation(lt, SortBy(lt, init), s[|s| - 1]);
    }
  }

  lemma {:induction false} InsertSorted<T(!new)>(lt: (T, T) -> bool, s: seq<T>, x: T)
    requires StrictWeakOrder(lt) && Sorted(lt, s)
    ensures Sorted(lt, Insert(lt, s, x))
  {
    var m := InsertShape(lt, s, x);
    var r := Insert(lt, s, x);
    forall i, j | 0 <= i < j < |r| ensures !lt(r[j], r[i]) {
      if j < m {
        assert r[i] == s[i] && r[j] == s[j];
      } else if j == m {
        assert r[i] == s[i] && r[j] == x;
        assert !lt(s[m - 1], s[i]) || i == m - 1;
      } else if i == m {
        assert r[i] == x && r[j] == s[j - 1] && lt(x, s[j - 1]);
      } else if i < m {
        assert r[i] == s[i] && r[j] == s[j - 1];
      } else {
        assert r[i] == s[i - 1] && r[j] == s[j - 1];
      }
    }
  }

  /** The sort's output is ordered. */
  lemma {:induction false} SortBySorted<T(!new)>(lt: (T, T) -> bool, s: seq<T>)
    requires StrictWeakOrder(lt)
    ensures Sorted(lt, SortBy(lt, s))
  {
    if s != [] {
      SortBySorted(lt, s[..|s| - 1]);
      InsertSorted(lt, SortBy(lt, s[..|s| - 1]), s[|s| - 1]);
    }
  }

  /** Inserting an element keeps the order among the elements of a set of
      mutually unordered elements, and puts `x`, when it belongs to the set,
      after all of them. */
  lemma {:induction false} InsertFilter<T(!new)>(lt: (T, T) -> bool, s: seq<T>, x: T, p: T -> bool)
    requires forall a, b :: p(a) && p(b) ==> !lt(a, b)
    ensures Filter(p, Insert(lt, s, x)) == Filter(p, s) + Filter(p, [x])
  {
    if s == [] || !lt(x, s[|s| - 1]) {
      FilterConcat(p, s, [x]);
    } else {
      var init, last := s[..|s| - 1], s[|s| - 1];
      assert s == init + [last];
      InsertFilter(lt, init, x, p);
      FilterConcat(p, Insert(lt, init, x), [last]);
      FilterConcat(p, init, [last]);
      ghost var fi, fx, fl := Filter(p, init), Filter(p, [x]), Filter(p, [last]);
      assert Filter(p, Insert(lt, s, x)) == fi + fx + fl;
      assert Filter(p, s) + fx == fi + fl + fx;
      if !p(x) {
        assert fx == [];
      } else {
        assert !p(last);
        assert fl == [];
      }
    }
  }

  /** The sort is stable: the elements of any set of mutually unordered
      elements come out in the order they went in. */
  lemma {:induction false} SortByStable<T(!new)>(lt: (T, T) -> bool, s: seq<T>, p: T -> bool)
    requires forall a, b :: p(a) && p(b) ==> !lt(a, b)
    ensures Filter(p, SortBy(lt, s)) == Filter(p, s)
  {
    if s != [] {
      var init, x := s[..|s| - 1], s[|s| - 1];
      assert s == init + [x];
      SortByStable(lt, init, p);
      InsertFilter(lt, SortBy(lt, init), x, p);
      FilterConcat(p, init, [x]);
    }
  }

  /** Sorting one more element of a prefix inserts it into the sorted prefix. */
  lemma SortByPrefix<T>(lt: (T, T) -> bool, s: seq<T>, i: int)
    requires 0 <= i < |s|
    ensures SortBy(lt, s[..i + 1]) == Insert(lt, SortBy(lt, s[..i]), s[i])
  {
    assert s[..i + 1][..i] == s[..i];
  }

  /** One step of the insertion loop: moving `x` past `s[j - 1]`, which it goes
      strictly before, does not change where it ends up. */
  lemma InsertStep<T>(lt: (T, T) -> bool, s: seq<T>, x: T, j: int)
    requires 0 < j <= |s| && lt(x, s[j - 1])
    ensures Insert(lt, s[..j], x) + s[j..] == Insert(lt, s[..j - 1], x) + s[j - 1..]
  {
    assert s[..j][..j - 1] == s[..j - 1];
    assert s[j - 1..] == [s[j - 1]] + s[j..];
  }

  /** Moves `a[i]` left past the elements of the sorted prefix `a[..i]` that it
      goes strictly before. */
  method InsertInPlace<T>(a: array<T>, lt: (T, T) -> bool, i: nat)
    requires i < a.Length
    modifies a
    ensures a[..i + 1] == Insert(lt, old(a[..i]), old(a[i]))
    ensures a[i + 1..] == old(a[i + 1..])
  {
    var x := a[i];
    ghost var sorted := a[..i];
    var j := i;
    assert sorted[..j] == sorted && sorted[j..] == [];
    while j > 0 && lt(x, a[j - 1])
      invariant 0 <= j <= i
      invariant forall k :: 0 <= k < j ==> a[k] == sorted[k]
      invariant forall k :: j < k <= i ==> a[k] == sorted[k - 1]
      invariant forall k :: i < k < a.Length ==> a[k] == old(a[k])
      invariant Insert(lt, sorted, x) == Insert(lt, sorted[..j], x) + sorted[j..]
    {
      InsertStep(lt, sorted, x, j);
      a[j] := a[j - 1];
      j := j - 1;
    }
    assert Insert(lt, sorted[..j], x) == sorted[..j] + [x];
    a[j] := x;
    assert a[..i + 1] == sorted[..j] + [x] + sorted[j..];
  }

  /** Sorts `a` in place by insertion: each element moves left only past the
      elements it goes strictly before, so equal elements keep their order. */
  method SortInPlace<T>(a: array<T>, lt: (T, T) -> bool)
    modifies a
    ensures a[..] == SortBy(lt, old(a[..]))
  {
    ghost var orig := a[..];
    var i := 0;
    while i < a.Length
      invariant 0 <= i <= a.Length
      invariant a[..i] == SortBy(lt, orig[..i])
      invariant a[i..] == orig[i..]
    {
      assert a[i] == orig[i];
      InsertInPlace(a, lt, i);
      SortByPrefix(lt, orig, i);
      assert a[i + 1..] == orig[i + 1..];
      i := i + 1;
    }
    assert a[..] == a[..a.Length];
    assert orig[..a.Length] == orig;
  }
}
