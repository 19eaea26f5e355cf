/**
 * The two orderings js/jufo.js applies to JUFO search results before
 * scanning them: exact-ISSN matches first (lines 50-56, on a copy of the
 * list), and name-search rows by how far the length of their normalised name
 * is from that of the query (lines 104-106, in place on the payload's array).
 * Both comparators are key differences, so both sorts are `SortBy`.
 */
module Ordering {
  import opened JsText
  import opened Issn
  import opened Records
  import opened Levels
  import opened StableSort

  const IssnFields: seq<string> := ["ISSN", "issn"]

  /** `String(a.ISSN || a.issn || "").replace(/[^0-9Xx]/g, "")` */
  function IssnOfRow(row: Row): string {
    Strip(TruthyText(row, IssnFields))
  }

  /** The comparator key of line 53: -1 for a row whose stripped ISSN equals the stripped query, 1 otherwise. */
  function ExactKey(digitsQ: string): Row -> int {
    (row: Row) => if IssnOfRow(row) == digitsQ then -1 else 1
  }

  /** `list.slice().sort(...)` at line 52: the search results with exact ISSN matches moved to the front. */
  function PreferExact(list: seq<Row>, query: string): seq<Row> {
    SortBy(list, ExactKey(Strip(query)))
  }

  /**
   * The exact-match ordering is a permutation that lists the matching rows,
   * in their original order, followed by the other rows, in their original
   * order; no non-matching row precedes a matching one.
   */
  lemma PreferExactPartition(list: seq<Row>, query: string)
    ensures var r := PreferExact(list, query);
      var k := ExactKey(Strip(query));
      && multiset(r) == multiset(list)
      && r == WithKey(list, k, -1) + WithKey(list, k, 1)
      && forall i, j :: 0 <= i < j < |r| && IssnOfRow(r[j]) == Strip(query) ==> IssnOfRow(r[i]) == Strip(query)
  {
    var k := ExactKey(Strip(query));
    var r := SortBy(list, k);
    SortByFacts(list, k);
    SortedTwoKeys(r, k, -1, 1);
  }

  /** The exact-match test compares the stripped strings as they are: a lower-case check character `x` does not match `X`. */
  lemma ExactMatchIsCaseSensitive(row: Row, digits: string)
    requires TruthyText(row, IssnFields) == digits + "X"
    ensures IssnOfRow(row) != Strip(digits + "x")
    ensures IssnOfRow(row) == Strip(digits) + "X"
  {
    StripConcat(digits, "X");
    StripConcat(digits, "x");
    assert Strip("X") == "X" && Strip("x") == "x";
    var a := Strip(digits) + "X";
    var b := Strip(digits) + "x";
    assert a[|a| - 1] != b[|b| - 1];
  }

  const NameFields: seq<string> := ["Nimi", "nimi", "Name", "name"]

  predicate IsNameChar(c: char) { 'a' <= c <= 'z' || IsDigit(c) || c == ' ' }

  /** `s.replace(/[^a-z0-9 ]/g, '')` */
  function KeepNameChars(s: string): (r: string)
    ensures |r| <= |s|
    ensures forall i :: 0 <= i < |r| ==> IsNameChar(r[i])
  {
    if s == [] then [] else (if IsNameChar(s[0]) then [s[0]] else []) + KeepNameChars(s[1..])
  }

  /** A single character is kept exactly when it is a small ASCII letter, a digit or a space. */
  lemma KeepNameCharsOne(c: char)
    ensures KeepNameChars([c]) == if IsNameChar(c) then [c] else []
  {
    assert [c][1..] == [];
  }

  /** The filter distributes over concatenation. */
  lemma {:induction false} KeepNameCharsConcat(a: string, b: string)
    ensures KeepNameChars(a + b) == KeepNameChars(a) + KeepNameChars(b)
  {
    if a == [] {
      assert a + b == b;
    } else {
      var h := if IsNameChar(a[0]) then [a[0]] else [];
      calc {
        KeepNameChars(a + b);
      ==  { assert (a + b)[0] == a[0] && (a + b)[1..] == a[1..] + b; }
        h + KeepNameChars(a[1..] + b);
      ==  { KeepNameCharsConcat(a[1..], b); }
        h + (KeepNameChars(a[1..]) + KeepNameChars(b));
      ==
        (h + KeepNameChars(a[1..])) + KeepNameChars(b);
      }
    }
  }

  /** A string of `[a-z0-9 ]` characters only is kept whole. */
  lemma {:induction false} KeepNameCharsKeepsClean(s: string)
    requires forall i :: 0 <= i < |s| ==> IsNameChar(s[i])
    ensures KeepNameChars(s) == s
  {
    if s != [] {
      KeepNameCharsKeepsClean(s[1..]);
    }
  }

  /** Any other character is dropped, not replaced: the rest is filtered around it. */
  lemma KeepNameCharsDropsOther(a: string, c: char, b: string)
    requires !IsNameChar(c)
    ensures KeepNameChars(a + [c] + b) == KeepNameChars(a) + KeepNameChars(b)
  {
    KeepNameCharsConcat(a + [c], b);
    KeepNameCharsConcat(a, [c]);
    KeepNameCharsOne(c);
  }

  /** `norm` of `extractLevel`: lower-cased, restricted to `[a-z0-9 ]`, trimmed. */
  function NameNorm(s: string): string {
    Trim(KeepNameChars(Lower(s)))
  }

  /** `a.Nimi || a.nimi || a.Name || a.name` */
  function NameOfRow(row: Row): string {
    TruthyText(row, NameFields)
  }

  /** `Math.abs(an.length - qn.length)` for a row, given the length of the normalised query. */
  function Distance(row: Row, queryLength: nat): nat {
    var n := |NameNorm(NameOfRow(row))|;
    if n >= queryLength then n - queryLength else queryLength - n
  }

  function NameKey(queryLength: nat): Row -> int {
    (row: Row) => Distance(row, queryLength) as int
  }

  /** The order `arr.sort` leaves the name-search rows in. */
  function NameOrder(rows: seq<Row>, name: string): seq<Row> {
    SortBy(rows, NameKey(|NameNorm(name)|))
  }

  /** The result of `extractLevel` for the rows of a payload and the queried name. */
  function NameLevel(rows: seq<Row>, name: string): Option<string> {
    FirstLevel(NameOrder(rows, name))
  }

  /** The name ordering is a permutation, ascending in distance, and keeps input order among rows at the same distance. */
  lemma NameOrderFacts(rows: seq<Row>, name: string)
    ensures var o := NameOrder(rows, name);
      var q := |NameNorm(name)|;
      && multiset(o) == multiset(rows)
      && (forall i, j :: 0 <= i < j < |o| ==> Distance(o[i], q) <= Distance(o[j], q))
      && forall d :: WithKey(o, NameKey(q), d) == WithKey(rows, NameKey(q), d)
  {
    SortByFacts(rows, NameKey(|NameNorm(name)|));
  }

  /**
   * For any per-row level function: when `i0` is the first position of the
   * sorted list with a level, there is none anywhere exactly when `i0` is past
   * the end, and otherwise the row at `i0` comes from the input and has the
   * least key among the input rows that have a level.
   */
  lemma FirstWithLevelIsClosest<T>(rows: seq<T>, key: T -> int, lv: T -> Option<string>, i0: nat)
    requires i0 <= |SortBy(rows, key)|
    requires forall k :: 0 <= k < i0 ==> lv(SortBy(rows, key)[k]).None?
    requires i0 < |SortBy(rows, key)| ==> lv(SortBy(rows, key)[i0]).Some?
    ensures i0 == |SortBy(rows, key)| <==> forall k :: 0 <= k < |rows| ==> lv(rows[k]).None?
    ensures i0 < |SortBy(rows, key)| ==>
      exists i :: 0 <= i < |rows| && rows[i] == SortBy(rows, key)[i0]
        && forall k :: 0 <= k < |rows| && lv(rows[k]).Some? ==> key(rows[i]) <= key(rows[k])
  {
    var o := SortBy(rows, key);
    SortByMembers(rows, key);
    if i0 == |o| {
      forall k | 0 <= k < |rows| ensures lv(rows[k]).None? {
        assert rows[k] in o;
      }
    } else {
      var hasLevel := (x: T) => lv(x).Some?;
      FirstInSortedOrder(rows, key, hasLevel, i0);
    }
  }

  /** No row with a level is closer in name length than `rows[i]`. */
  ghost predicate Closest(rows: seq<Row>, i: nat, name: string)
    requires i < |rows|
  {
    forall k :: 0 <= k < |rows| && LevelOfRow(rows[k]).Some? ==> Distance(rows[i], |NameNorm(name)|) <= Distance(rows[k], |NameNorm(name)|)
  }

  /**
   * `extractLevel` answers null exactly when no row has a valid level;
   * otherwise it answers the level of a row that is closest in name length
   * among all rows that have a level.
   */
  lemma NameLevelClosest(rows: seq<Row>, name: string)
    ensures var r := NameLevel(rows, name);
      && (r.None? <==> forall k :: 0 <= k < |rows| ==> LevelOfRow(rows[k]).None?)
      && (r.Some? ==> exists i :: 0 <= i < |rows| && LevelOfRow(rows[i]) == r && Closest(rows, i, name))
  {
    var q := |NameNorm(name)|;
    var key := NameKey(q);
    var o := NameOrder(rows, name);
    var i0 := FirstLevelIndex(o);
    FirstWithLevelIsClosest(rows, key, LevelOfRow, i0);
    if i0 < |o| {
      ScanStopIsClosest(rows, name, i0);
    }
  }

  /**
   * The row the scan stops at, being least in the name key among the rows
   * with a level, is a closest such row, and it gives the level
   * `extractLevel` returns.
   */
  lemma ScanStopIsClosest(rows: seq<Row>, name: string, i0: nat)
    requires i0 < |NameOrder(rows, name)| && i0 == FirstLevelIndex(NameOrder(rows, name))
    requires
      exists i :: 0 <= i < |rows| && rows[i] == NameOrder(rows, name)[i0]
        && forall k :: 0 <= k < |rows| && LevelOfRow(rows[k]).Some? ==>
             NameKey(|NameNorm(name)|)(rows[i]) <= NameKey(|NameNorm(name)|)(rows[k])
    ensures exists i :: 0 <= i < |rows| && LevelOfRow(rows[i]) == NameLevel(rows, name) && Closest(rows, i, name)
  {
    var i :| 0 <= i < |rows| && rows[i] == NameOrder(rows, name)[i0]
      && forall k :: 0 <= k < |rows| && LevelOfRow(rows[k]).Some? ==>
           NameKey(|NameNorm(name)|)(rows[i]) <= NameKey(|NameNorm(name)|)(rows[k]);
    LeastKeyIsClosest(rows, name, i);
    ScanStopLevel(rows, name, i0, i);
  }

  /** The row the scan stops at gives the level `extractLevel` returns. */
  lemma ScanStopLevel(rows: seq<Row>, name: string, i0: nat, i: nat)
    requires i0 < |NameOrder(rows, name)| && i0 == FirstLevelIndex(NameOrder(rows, name))
    requires i < |rows| && rows[i] == NameOrder(rows, name)[i0]
    ensures LevelOfRow(rows[i]) == NameLevel(rows, name)
  {
  }

  /** Least in the name key among the rows with a level means closest in name length. */
  lemma LeastKeyIsClosest(rows: seq<Row>, name: string, i: nat)
    requires i < |rows|
    requires forall k :: 0 <= k < |rows| && LevelOfRow(rows[k]).Some? ==>
      NameKey(|NameNorm(name)|)(rows[i]) <= NameKey(|NameNorm(name)|)(rows[k])
    ensures Closest(rows, i, name)
  {
  }

  /** The scan of `extractLevel` (lines 107-111): the level of the first row that has a valid one. */
  method FirstLevelOf(arr: array<Row>) returns (level: Option<string>)
    ensures level == FirstLevel(arr[..])
  {
    ghost var rows := arr[..];
    var i := 0;
    while i < arr.Length
      invariant 0 <= i <= arr.Length
      invariant forall k :: 0 <= k < i ==> LevelOfRow(rows[k]).None?
    {
      var l := LevelOfRow(arr[i]);
      assert rows[i] == arr[i];
      if l.Some? {
        FirstLevelAt(rows, i);
        return l;
      }
      i := i + 1;
    }
    FirstLevelAt(rows, i);
    return None;
  }

  /**
   * `extractLevel` (lines 100-113) on the payload's own array: sorts it in
   * place, then returns the level of the first row in the new order that has
   * a valid one.
   */
  method ExtractLevel(arr: array<Row>, name: string) returns (level: Option<string>)
    modifies arr
    ensures arr[..] == NameOrder(old(arr[..]), name)
    ensures level == NameLevel(old(arr[..]), name)
  {
    if arr.Length == 0 {
      return None;
    }
    var qn := NameNorm(name);
    SortInPlace(arr, NameKey(|qn|));
    level := FirstLevelOf(arr);
  }
}
