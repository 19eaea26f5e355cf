/**
 * `Array.prototype.sort` with a comparator of the form
 * `(a, b) => key(a) - key(b)`, which ECMAScript 2019 requires to be
 * stable. Its result is determined: sorted by key, and within one key
 * in input order. `SortBy` is that result, built by insertion;
 * `SortInPlace` computes it in place on an array.
 */
module StableSort {

  ghost predicate SortedBy<T>(s: seq<T>, key: T -> int) {
    forall i, j :: 0 <= i < j < |s| ==> key(s[i]) <= key(s[j])
  }

  /** The elements of `s` whose key is `k`, in their order in `s`. */
  function WithKey<T>(s: seq<T>, key: T -> int, k: int): seq<T> {
    if s == [] then [] else WithKey(s[..|s| - 1], key, k) + (if key(s[|s| - 1]) == k then [s[|s| - 1]] else [])
  }

  /** Puts `x` after every element whose key is at most `key(x)`, scanning from the end. */
  function Insert<T>(s: seq<T>, x: T, key: T -> int): seq<T>
    decreases |s|
  {
    if s == [] || key(s[|s| - 1]) <= key(x) then s + [x]
    else Insert(s[..|s| - 1], x, key) + [s[|s| - 1]]
  }

  /** The stable sort of `s` by `key`. */
  function SortBy<T>(s: seq<T>, key: T -> int): seq<T> {
    if s == [] then [] else Insert(SortBy(s[..|s| - 1], key), s[|s| - 1], key)
  }

  lemma WithKeyAppend<T>(s: seq<T>, x: T, key: T -> int, k: int)
    ensures WithKey(s + [x], key, k) == WithKey(s, key, k) + (if key(x) == k then [x] else [])
  {
    assert (s + [x])[..|s|] == s;
  }

  /** Every element `WithKey` selects has that key. */
  lemma {:induction false} WithKeyMembers<T>(s: seq<T>, key: T -> int, k: int)
    ensures forall x :: x in WithKey(s, key, k) ==> x in s && key(x) == k
  {
    if s != [] {
      WithKeyMembers(s[..|s| - 1], key, k);
      assert s == s[..|s| - 1] + [s[|s| - 1]];
    }
  }

  /** When no element has key `k`, nothing is selected for `k`. */
  lemma {:induction false} WithKeyNone<T>(s: seq<T>, key: T -> int, k: int)
    requires forall i :: 0 <= i < |s| ==> key(s[i]) != k
    ensures WithKey(s, key, k) == []
  {
    if s != [] {
      WithKeyNone(s[..|s| - 1], key, k);
    }
  }

  /** A list sorted by a key that takes only two values is its low class followed by its high class. */
  lemma {:induction false} SortedTwoKeys<T>(s: seq<T>, key: T -> int, lo: int, hi: int)
    requires lo < hi
    requires forall i :: 0 <= i < |s| ==> key(s[i]) == lo || key(s[i]) == hi
    requires SortedBy(s, key)
    ensures s == WithKey(s, key, lo) + WithKey(s, key, hi)
  {
    if s != [] {
      var init := s[..|s| - 1];
      var last := s[|s| - 1];
      assert s == init + [last];
      assert SortedBy(init, key) by {
        forall i, j | 0 <= i < j < |init| ensures key(init[i]) <= key(init[j]) {
          assert init[i] == s[i] && init[j] == s[j];
        }
      }
      SortedTwoKeys(init, key, lo, hi);
      WithKeyAppend(init, last, key, lo);
      WithKeyAppend(init, last, key, hi);
      if key(last) == lo {
        forall i | 0 <= i < |init| ensures key(init[i]) != hi {
          assert key(s[i]) <= key(s[|s| - 1]);
        }
        WithKeyNone(init, key, hi);
        calc {
          WithKey(s, key, lo) + WithKey(s, key, hi);
          (WithKey(init, key, lo) + [last]) + WithKey(init, key, hi);
          init + [last];
        }
      } else {
        calc {
          WithKey(s, key, lo) + WithKey(s, key, hi);
          WithKey(init, key, lo) + (WithKey(init, key, hi) + [last]);
          (WithKey(init, key, lo) + WithKey(init, key, hi)) + [last];
          init + [last];
        }
      }
    }
  }

  /** Where the insertion point is known, `Insert` puts `x` there. */
  lemma {:induction false} InsertAt<T>(p: seq<T>, x: T, key: T -> int, j: nat)
    requires j <= |p|
    requires j == 0 || key(p[j - 1]) <= key(x)
    requires forall m :: j <= m < |p| ==> key(p[m]) > key(x)
    ensures Insert(p, x, key) == p[..j] + [x] + p[j..]
    decreases |p| - j
  {
    if j < |p| {
      var init := p[..|p| - 1];
      InsertAt(init, x, key, j);
      assert init[..j] == p[..j];
      assert init[j..] + [p[|p| - 1]] == p[j..];
    }
  }

  /** Inserting adds exactly `x`. */
  lemma {:induction false} InsertPermutes<T>(s: seq<T>, x: T, key: T -> int)
    ensures multiset(Insert(s, x, key)) == multiset(s) + multiset{x}
    decreases |s|
  {
    if !(s == [] || key(s[|s| - 1]) <= key(x)) {
      InsertPermutes(s[..|s| - 1], x, key);
      assert s == s[..|s| - 1] + [s[|s| - 1]];
    }
  }

  /** Inserting into a sorted list keeps it sorted. */
  lemma {:induction false} InsertSorted<T>(s: seq<T>, x: T, key: T -> int)
    requires SortedBy(s, key)
    ensures SortedBy(Insert(s, x, key), key)
    decreases |s|
  {
    if !(s == [] || key(s[|s| - 1]) <= key(x)) {
      var init := s[..|s| - 1];
      var last := s[|s| - 1];
      InsertSorted(init, x, key);
      InsertPermutes(init, x, key);
      var ins := Insert(init, x, key);
      forall i | 0 <= i < |ins| ensures key(ins[i]) <= key(last) {
        assert ins[i] in multiset(ins);
        if ins[i] != x {
          assert ins[i] in multiset(init);
          var m :| 0 <= m < |init| && init[m] == ins[i];
          assert s[m] == init[m];
        }
      }
    }
  }

  /** Inserting appends `x` to the elements sharing its key and leaves the other keys alone. */
  lemma {:induction false} InsertWithKey<T>(s: seq<T>, x: T, key: T -> int, k: int)
    ensures WithKey(Insert(s, x, key), key, k) == WithKey(s, key, k) + (if key(x) == k then [x] else [])
    decreases |s|
  {
    if s == [] || key(s[|s| - 1]) <= key(x) {
      WithKeyAppend(s, x, key, k);
    } else {
      var init := s[..|s| - 1];
      var last := s[|s| - 1];
      assert s == init + [last];
      var ins := Insert(init, x, key);
      assert Insert(s, x, key) == ins + [last];
      InsertWithKey(init, x, key, k);
      WithKeyAppend(ins, last, key, k);
      WithKeyAppend(init, last, key, k);
      var here := if key(x) == k then [x] else [];
      var other := if key(last) == k then [last] else [];
      assert WithKey(Insert(s, x, key), key, k) == WithKey(init, key, k) + here + other;
      assert WithKey(s, key, k) == WithKey(init, key, k) + other;
      if key(last) == k {
        assert here == [];
      } else {
        assert other == [];
      }
    }
  }

  /** The stable sort is sorted, is a permutation of its input, and keeps the input order within each key. */
  lemma {:induction false} SortByFacts<T>(s: seq<T>, key: T -> int)
    ensures SortedBy(SortBy(s, key), key)
    ensures multiset(SortBy(s, key)) == multiset(s)
    ensures forall k :: WithKey(SortBy(s, key), key, k) == WithKey(s, key, k)
  {
    if s != [] {
      var init := s[..|s| - 1];
      var last := s[|s| - 1];
      assert s == init + [last];
      SortByFacts(init, key);
      InsertSorted(SortBy(init, key), last, key);
      InsertPermutes(SortBy(init, key), last, key);
      forall k ensures WithKey(SortBy(s, key), key, k) == WithKey(s, key, k) {
        InsertWithKey(SortBy(init, key), last, key, k);
        WithKeyAppend(init, last, key, k);
      }
    }
  }

  /** The stable sort holds the same elements as its input. */
  lemma SortByMembers<T>(s: seq<T>, key: T -> int)
    ensures forall x :: x in SortBy(s, key) <==> x in s
  {
    SortByFacts(s, key);
    forall x ensures x in SortBy(s, key) <==> x in s {
      assert x in SortBy(s, key) <==> x in multiset(SortBy(s, key));
      assert x in s <==> x in multiset(s);
    }
  }

  /**
   * The first element of the sorted list that satisfies `p` has the least key
   * among all elements of the input that satisfy `p`.
   */
  lemma FirstInSortedOrder<T>(s: seq<T>, key: T -> int, p: T -> bool, i0: nat)
    requires i0 < |SortBy(s, key)| && p(SortBy(s, key)[i0])
    requires forall k :: 0 <= k < i0 ==> !p(SortBy(s, key)[k])
    ensures exists i :: 0 <= i < |s| && s[i] == SortBy(s, key)[i0]
    ensures forall k :: 0 <= k < |s| && p(s[k]) ==> key(SortBy(s, key)[i0]) <= key(s[k])
  {
    var o := SortBy(s, key);
    SortByFacts(s, key);
    SortByMembers(s, key);
    var x := o[i0];
    assert x in multiset(o);
    assert x in s by { assert x in multiset(s); }
    forall k | 0 <= k < |s| && p(s[k]) ensures key(o[i0]) <= key(s[k]) {
      assert s[k] in o;
      var m :| 0 <= m < |o| && o[m] == s[k];
      assert i0 <= m;
    }
  }

  /** One step of insertion sort: `a[i]` is moved back into the prefix `a[..i]`, shifting larger keys up by one. */
  method InsertInPlace<T>(a: array<T>, i: nat, key: T -> int)
    requires i < a.Length
    modifies a
    ensures a[..i + 1] == Insert(old(a[..i]), old(a[i]), key)
    ensures a[i + 1..] == old(a[i + 1..])
  {
    var x := a[i];
    ghost var p := a[..i];
    ghost var rest := a[i + 1..];
    var j := i;
    while j > 0 && key(a[j - 1]) > key(x)
      invariant 0 <= j <= i
      invariant forall m :: 0 <= m < j ==> a[m] == p[m]
      invariant forall m :: j < m <= i ==> a[m] == p[m - 1]
      invariant a[i + 1..] == rest
      invariant forall m :: j <= m < i ==> key(p[m]) > key(x)
    {
      a[j] := a[j - 1];
      j := j - 1;
    }
    a[j] := x;
    InsertAt(p, x, key, j);
    assert a[..i + 1] == p[..j] + [x] + p[j..];
  }

  /** Insertion sort in place; the array ends up holding `SortBy` of its old contents. */
  method SortInPlace<T>(a: array<T>, key: T -> int)
    modifies a
    ensures a[..] == SortBy(old(a[..]), key)
  {
    ghost var orig := a[..];
    var i := 0;
    while i < a.Length
      invariant 0 <= i <= a.Length
      invariant a[..i] == SortBy(orig[..i], key)
      invariant a[i..] == orig[i..]
    {
      assert a[i] == orig[i];
      InsertInPlace(a, i, key);
      assert orig[..i + 1][..i] == orig[..i];
      i := i + 1;
    }
    assert orig[..a.Length] == orig;
  }
}
