/**
 * Deduplication by key with a running `seen` set, as `ensureByQuery` does it
 * for ISSN candidates (js/jufo.js lines 224-228, and again inside the
 * container-title harvest) and for container titles (line 197, where the key
 * is the title itself). An element whose key is empty is dropped; otherwise it
 * is kept when its key is not yet seen, and its key becomes seen.
 */
module Dedup {

  /** The result of one pass: the kept elements and the updated `seen` set. */
  function DedupFrom<T>(s: seq<T>, key: T -> string, seen: set<string>): (r: (seq<T>, set<string>))
    ensures |r.0| <= |s|
  {
    if s == [] then ([], seen)
    else
      var (kept, seen1) := DedupFrom(s[..|s| - 1], key, seen);
      var x := s[|s| - 1];
      if key(x) != "" && key(x) !in seen1 then (kept + [x], seen1 + {key(x)}) else (kept, seen1)
  }

  /** The keys of a list. */
  ghost function Keys<T>(s: seq<T>, key: T -> string): set<string> {
    set i | 0 <= i < |s| :: key(s[i])
  }

  /** The non-empty keys of a list. */
  ghost function NonEmptyKeys<T>(s: seq<T>, key: T -> string): set<string> {
    set i | 0 <= i < |s| && key(s[i]) != "" :: key(s[i])
  }

  lemma KeysAppend<T>(s: seq<T>, x: T, key: T -> string)
    ensures Keys(s + [x], key) == Keys(s, key) + {key(x)}
    ensures NonEmptyKeys(s + [x], key) == NonEmptyKeys(s, key) + (if key(x) != "" then {key(x)} else {})
  {
    var t := s + [x];
    assert forall i :: 0 <= i < |s| ==> t[i] == s[i];
    assert t[|s|] == x;
  }

  /**
   * What is kept is fresh and pairwise distinct by key, it comes from the
   * input, and the new `seen` set is the old one plus exactly the kept keys,
   * which are all the non-empty keys of the input.
   */
  lemma {:induction false} DedupSound<T>(s: seq<T>, key: T -> string, seen: set<string>)
    ensures var (r, seen') := DedupFrom(s, key, seen);
      && (forall i :: 0 <= i < |r| ==> key(r[i]) != "" && key(r[i]) !in seen && r[i] in s)
      && (forall i, j :: 0 <= i < j < |r| ==> key(r[i]) != key(r[j]))
      && seen' == seen + Keys(r, key)
      && seen' == seen + NonEmptyKeys(s, key)
  {
    if s != [] {
      var init := s[..|s| - 1];
      var x := s[|s| - 1];
      assert s == init + [x];
      DedupSound(init, key, seen);
      var (kept, seen1) := DedupFrom(init, key, seen);
      KeysAppend(init, x, key);
      if key(x) != "" && key(x) !in seen1 {
        KeysAppend(kept, x, key);
        assert forall i :: 0 <= i < |kept| ==> key(kept[i]) in seen1;
      }
    }
  }

  /** `s[p]` is the first element of `s` with its key, and that key is non-empty and not seen before. */
  ghost predicate IsFirst<T>(s: seq<T>, p: nat, key: T -> string, seen: set<string>)
    requires p < |s|
  {
    key(s[p]) != "" && key(s[p]) !in seen && forall q :: 0 <= q < p ==> key(s[q]) != key(s[p])
  }

  /** Reference definition: the elements that are the first of their key, in input order. */
  ghost function FirstOccurrences<T>(s: seq<T>, key: T -> string, seen: set<string>): seq<T> {
    if s == [] then []
    else FirstOccurrences(s[..|s| - 1], key, seen) + (if IsFirst(s, |s| - 1, key, seen) then [s[|s| - 1]] else [])
  }

  /** Dedup keeps exactly the first element of every new non-empty key, in input order. */
  lemma {:induction false} DedupKeepsFirst<T>(s: seq<T>, key: T -> string, seen: set<string>)
    ensures DedupFrom(s, key, seen).0 == FirstOccurrences(s, key, seen)
  {
    if s != [] {
      var init := s[..|s| - 1];
      var x := s[|s| - 1];
      DedupKeepsFirst(init, key, seen);
      DedupSound(init, key, seen);
      var seen1 := DedupFrom(init, key, seen).1;
      assert seen1 == seen + NonEmptyKeys(init, key);
      if key(x) != "" && key(x) in NonEmptyKeys(init, key) {
        var q :| 0 <= q < |init| && key(init[q]) != "" && key(init[q]) == key(x);
        assert s[q] == init[q];
        assert !IsFirst(s, |s| - 1, key, seen);
      }
      if !(key(x) != "" && key(x) in NonEmptyKeys(init, key)) {
        assert forall q :: 0 <= q < |s| - 1 ==> s[q] == init[q];
      }
    }
  }

  /** Running the pass over `a + b` is running it over `a` and then over `b` with the `seen` set `a` left behind. */
  lemma {:induction false} DedupConcat<T>(a: seq<T>, b: seq<T>, key: T -> string, seen: set<string>)
    ensures var (ra, sa) := DedupFrom(a, key, seen);
      var (rb, sb) := DedupFrom(b, key, sa);
      DedupFrom(a + b, key, seen) == (ra + rb, sb)
    decreases |b|
  {
    if b == [] {
      assert a + b == a;
      var (ra, sa) := DedupFrom(a, key, seen);
      assert DedupFrom(b, key, sa) == ([], sa);
      assert ra + [] == ra;
    } else {
      var binit := b[..|b| - 1];
      var x := b[|b| - 1];
      DedupConcat(a, binit, key, seen);
      assert (a + b)[..|a + b| - 1] == a + binit;
      assert (a + b)[|a + b| - 1] == x;
      var (ra, sa) := DedupFrom(a, key, seen);
      var (ri, si) := DedupFrom(binit, key, sa);
      assert DedupFrom(a + binit, key, seen) == (ra + ri, si);
      if key(x) != "" && key(x) !in si {
        assert DedupFrom(b, key, sa) == (ri + [x], si + {key(x)});
        assert ra + ri + [x] == ra + (ri + [x]);
      } else {
        assert DedupFrom(b, key, sa) == (ri, si);
      }
    }
  }

  /** The key of container titles: the title itself. */
  function Itself(s: string): string { s }

  /** With the identity key, the `seen` set of a pass from nothing is the set of kept titles. */
  lemma SeenIsKept(s: seq<string>)
    ensures DedupFrom(s, Itself, {}).1 == set t | t in DedupFrom(s, Itself, {}).0
  {
    DedupSound(s, Itself, {});
    var r := DedupFrom(s, Itself, {}).0;
    assert Keys(r, Itself) == set t | t in r by {
      forall t | t in r ensures t in Keys(r, Itself) {
        var i :| 0 <= i < |r| && r[i] == t;
      }
    }
  }
}
