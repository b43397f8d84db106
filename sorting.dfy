/**
 * Python's `list.sort()` and `sorted()`, which order elements with `<`
 * (`__lt__`), modelled by a stable insertion sort. `SortedUnique` shows that
 * the choice of algorithm does not matter: over elements that `lt` orders
 * totally, a sorted permutation is unique.
 */
module Sorting {

  /** No element is less than itself. */
  ghost predicate Irreflexive<T(!new)>(lt: (T, T) -> bool)
  {
    forall a :: !lt(a, a)
  }

  /** `lt` is irreflexive and transitive. */
  ghost predicate StrictOrder<T(!new)>(lt: (T, T) -> bool)
  {
    && Irreflexive(lt)
    && (forall a, b, c :: lt(a, b) && lt(b, c) ==> lt(a, c))
  }

  /** No element is less than one before it. */
  predicate Sorted<T>(s: seq<T>, lt: (T, T) -> bool)
  {
    forall i, j :: 0 <= i < j < |s| ==> !lt(s[j], s[i])
  }

  /** Places `x` after every element of `s` that is not greater than it. */
  function Insert<T>(x: T, s: seq<T>, lt: (T, T) -> bool): (r: seq<T>)
    ensures multiset(r) == multiset(s) + multiset{x}
    ensures |r| == |s| + 1
  {
    if s == [] then [x]
    else if lt(x, s[0]) then [x] + s
    else
      assert s == [s[0]] + s[1..];
      [s[0]] + Insert(x, s[1..], lt)
  }

  function Sort<T>(s: seq<T>, lt: (T, T) -> bool): (r: seq<T>)
    ensures multiset(r) == multiset(s)
    ensures |r| == |s|
  {
    if s == [] then []
    else
      assert s == s[..|s| - 1] + [s[|s| - 1]];
      Insert(s[|s| - 1], Sort(s[..|s| - 1], lt), lt)
  }

  lemma {:induction false} InsertSorted<T(!new)>(x: T, s: seq<T>, lt: (T, T) -> bool)
    requires StrictOrder(lt) && Sorted(s, lt)
    ensures Sorted(Insert(x, s, lt), lt)
  {
    if s == [] {
    } else if lt(x, s[0]) {
      var r := [x] + s;
      forall j | 0 < j < |r|
        ensures !lt(r[j], x)
      {
        if j > 1 {
          assert !lt(s[j - 1], s[0]);
        }
      }
    } else {
      var rest := Insert(x, s[1..], lt);
      InsertSorted(x, s[1..], lt);
      var r := [s[0]] + rest;
      forall j | 0 < j < |r|
        ensures !lt(r[j], s[0])
      {
        assert r[j] in multiset(rest);
        if r[j] != x {
          assert r[j] in s[1..];
        }
      }
    }
  }

  /** The result of `Sort` is sorted and, by its contract, a permutation of its input. */
  lemma {:induction false} SortSorted<T(!new)>(s: seq<T>, lt: (T, T) -> bool)
    requires StrictOrder(lt)
    ensures Sorted(Sort(s, lt), lt)
  {
    if s != [] {
      SortSorted(s[..|s| - 1], lt);
      InsertSorted(s[|s| - 1], Sort(s[..|s| - 1], lt), lt);
    }
  }

  lemma SortedTail<T>(s: seq<T>, lt: (T, T) -> bool)
    requires Sorted(s, lt) && s != []
    ensures Sorted(s[1..], lt)
  {
    forall i, j | 0 <= i < j < |s| - 1
      ensures !lt(s[1..][j], s[1..][i])
    {
      assert s[1..][j] == s[j + 1] && s[1..][i] == s[i + 1];
    }
  }

  /** Two sorted sequences with the same elements start with the same element. */
  lemma SortedSameHead<T(!new)>(s: seq<T>, t: seq<T>, lt: (T, T) -> bool)
    requires Irreflexive(lt)
    requires Sorted(s, lt) && Sorted(t, lt)
    requires multiset(s) == multiset(t) && s != []
    requires s[0] != t[0] ==> lt(s[0], t[0]) || lt(t[0], s[0])
    ensures s[0] == t[0]
  {
    assert s[0] in multiset(s);
    assert t != [];
    assert t[0] in multiset(t);
    var m :| 0 <= m < |t| && t[m] == s[0];
    var n :| 0 <= n < |s| && s[n] == t[0];
    assert !lt(s[0], t[0]) by {
      if m > 0 {
        assert !lt(t[m], t[0]);
      }
    }
    assert !lt(t[0], s[0]) by {
      if n > 0 {
        assert !lt(s[n], s[0]);
      }
    }
  }

  /** Sequences with the same elements hold each other's first element. */
  lemma HeadsShared<T>(s: seq<T>, t: seq<T>)
    requires multiset(s) == multiset(t) && s != []
    ensures t != [] && t[0] in s && s[0] in t
  {
    assert s[0] in multiset(s);
    assert |t| == |s|;
    assert t[0] in multiset(t);
  }

  lemma SameHeadTail<T>(s: seq<T>, t: seq<T>)
    requires s != [] && t != [] && s[0] == t[0] && s[1..] == t[1..]
    ensures s == t
  {
    assert s == [s[0]] + s[1..] && t == [t[0]] + t[1..];
  }

  lemma TailMultiset<T>(s: seq<T>)
    requires s != []
    ensures multiset(s[1..]) == multiset(s) - multiset{s[0]}
  {
    assert s == [s[0]] + s[1..];
  }

  /** `lt` orders any two different elements of `s`. */
  ghost predicate TotalOn<T>(s: seq<T>, lt: (T, T) -> bool)
  {
    forall a, b :: a in s && b in s && a != b ==> lt(a, b) || lt(b, a)
  }

  /** Totality on the elements of `s` holds on those of its tail. */
  lemma TotalTail<T>(s: seq<T>, lt: (T, T) -> bool)
    requires s != [] && TotalOn(s, lt)
    ensures TotalOn(s[1..], lt)
  {
    forall a, b | a in s[1..] && b in s[1..] && a != b
      ensures lt(a, b) || lt(b, a)
    {
      assert a in s && b in s;
    }
  }

  /**
   * Two sorted sequences with the same elements are equal, when `lt` orders
   * any two different elements: whichever algorithm the sort uses, its
   * result is the one `Sort` computes.
   */
  lemma {:induction false} SortedUnique<T(!new)>(s: seq<T>, t: seq<T>, lt: (T, T) -> bool)
    requires Irreflexive(lt)
    requires Sorted(s, lt) && Sorted(t, lt)
    requires multiset(s) == multiset(t)
    requires TotalOn(s, lt)
    ensures s == t
  {
    if s != [] {
      HeadsShared(s, t);
      assert s[0] != t[0] ==> lt(s[0], t[0]) || lt(t[0], s[0]);
      SortedSameHead(s, t, lt);
      TailMultiset(s);
      TailMultiset(t);
      SortedTail(s, lt);
      SortedTail(t, lt);
      TotalTail(s, lt);
      SortedUnique(s[1..], t[1..], lt);
      SameHeadTail(s, t);
    }
  }
}
