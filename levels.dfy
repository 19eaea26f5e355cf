/**
 * Reading a JUFO level out of a record (js/jufo.js lines 32-39 and
 * 107-111): the first present alias among `Level`, `level`,
 * `Julkaisufoorumitaso`, `taso`, its leading digit run, and the decimal
 * text of that number when it is positive.
 */
module Levels {
  import opened JsText
  import opened Records

  const LevelAliases: seq<string> := ["Level", "level", "Julkaisufoorumitaso", "taso"]

  predicate AllDigits(s: string) { forall i :: 0 <= i < |s| ==> IsDigit(s[i]) }

  /** A decimal numeral as `String(n)` writes a positive integer: digits only, no leading zero. */
  predicate IsCanonicalDecimal(s: string) { s != [] && AllDigits(s) && s[0] != '0' }

  function DigitValue(c: char): nat
    requires IsDigit(c)
  {
    c as int - '0' as int
  }

  function DigitChar(d: nat): (c: char)
    requires d < 10
    ensures IsDigit(c) && DigitValue(c) == d
  {
    ('0' as int + d) as char
  }

  /** The number a run of decimal digits denotes (`Number(ds)` for a digit string). */
  function ValueOf(ds: string): nat
    requires AllDigits(ds)
  {
    if ds == [] then 0 else ValueOf(ds[..|ds| - 1]) * 10 + DigitValue(ds[|ds| - 1])
  }

  /** `String(n)`: its decimal numeral denotes `n`, and has no leading zero unless `n` is 0. */
  function Decimal(n: nat): (r: string)
    ensures r != [] && AllDigits(r) && ValueOf(r) == n
    ensures n > 0 ==> IsCanonicalDecimal(r)
  {
    if n < 10 then [DigitChar(n)]
    else
      var r := Decimal(n / 10) + [DigitChar(n % 10)];
      assert r[..|r| - 1] == Decimal(n / 10);
      r
  }

  /** A canonical numeral is the decimal text of the number it denotes. */
  lemma {:induction false} DecimalOfValue(s: string)
    requires IsCanonicalDecimal(s)
    ensures Decimal(ValueOf(s)) == s
    decreases |s|
  {
    var init := s[..|s| - 1];
    if init == [] {
      assert s == [s[0]];
    } else {
      assert IsCanonicalDecimal(init);
      DecimalOfValue(init);
      ValuePositive(init);
      assert ValueOf(s) / 10 == ValueOf(init);
      assert ValueOf(s) % 10 == DigitValue(s[|s| - 1]);
      assert s == init + [s[|s| - 1]];
    }
  }

  lemma {:induction false} ValuePositive(s: string)
    requires IsCanonicalDecimal(s)
    ensures ValueOf(s) >= 1
    decreases |s|
  {
    if |s| > 1 {
      var init := s[..|s| - 1];
      assert IsCanonicalDecimal(init);
      ValuePositive(init);
    }
  }

  /** `(s.match(/^[0-9]+/) || [""])[0]`: the longest prefix made of digits. */
  function LeadingDigits(s: string): (r: string)
    ensures AllDigits(r) && |r| <= |s| && r == s[..|r|]
    ensures |r| == |s| || !IsDigit(s[|r|])
  {
    if s != [] && IsDigit(s[0]) then
      var r := [s[0]] + LeadingDigits(s[1..]);
      assert r[1..] == LeadingDigits(s[1..]);
      r
    else []
  }

  /**
   * `Number(String(raw).match(/^[0-9]+/)?.[0])` kept when it is positive,
   * as `String(n)`; otherwise null.
   */
  function ParseLevel(raw: string): (r: Option<string>)
    ensures r.Some? <==> ValueOf(LeadingDigits(raw)) > 0
    ensures r.Some? ==> IsCanonicalDecimal(r.value) && ValueOf(r.value) == ValueOf(LeadingDigits(raw))
  {
    var ds := LeadingDigits(raw);
    if ds != [] && ValueOf(ds) > 0 then Some(Decimal(ValueOf(ds))) else None
  }

  /** A positive number written out and followed by anything but a digit parses back to itself. */
  lemma {:induction false} ParseLevelRoundTrip(n: nat, rest: string)
    requires n > 0
    requires rest == [] || !IsDigit(rest[0])
    ensures ParseLevel(Decimal(n) + rest) == Some(Decimal(n))
  {
    var d := Decimal(n);
    LeadingDigitsOfNumeral(d, rest);
  }

  lemma {:induction false} LeadingDigitsOfNumeral(d: string, rest: string)
    requires AllDigits(d)
    requires rest == [] || !IsDigit(rest[0])
    ensures LeadingDigits(d + rest) == d
    decreases |d|
  {
    if d == [] {
      assert d + rest == rest;
    } else {
      LeadingDigitsOfNumeral(d[1..], rest);
      assert (d + rest)[1..] == d[1..] + rest;
    }
  }

  /** Worked cases: a trailing remark is ignored; `N/A`, `0` and an empty field give no level. */
  lemma ParseLevelExamples()
    ensures ParseLevel("2 (old: 1)") == Some("2")
    ensures ParseLevel("N/A") == None
    ensures ParseLevel("0") == None
    ensures ParseLevel("") == None
  {
    ParseLevelRoundTrip(2, " (old: 1)");
    assert Decimal(2) == "2";
    assert "2" + " (old: 1)" == "2 (old: 1)";
    assert LeadingDigits("0") == "0" by { assert "0"[1..] == []; }
    assert ValueOf("0") == 0 by { assert "0"[..0] == []; }
  }

  /** `row?.Level ?? row?.level ?? row?.Julkaisufoorumitaso ?? row?.taso`, parsed. */
  function LevelOfRow(row: Row): Option<string> {
    ParseLevel(DefinedText(row, LevelAliases))
  }

  /** A level is read from the first alias that is present, whatever the later aliases hold. */
  lemma LevelFromFirstAlias(row: Row, i: nat)
    requires i < |LevelAliases| && Defined(row, LevelAliases[i])
    requires forall k :: 0 <= k < i ==> !Defined(row, LevelAliases[k])
    ensures LevelOfRow(row) == ParseLevel(row[LevelAliases[i]].s)
  {
    DefinedTextIsFirstDefined(row, LevelAliases, i);
  }

  /** `getLevelFromKanava`: the level of the first row of a detail payload. */
  function LevelFromKanava(p: Payload): (r: Option<string>)
    ensures RowList(p) == [] ==> r.None?
    ensures RowList(p) != [] ==> r == LevelOfRow(RowList(p)[0])
  {
    var rows := RowList(p);
    if rows == [] then None else LevelOfRow(rows[0])
  }

  /** `getLevelFromKanava` looks at the first row only: payloads agreeing on it agree on the level. */
  lemma KanavaReadsFirstRowOnly(p: Payload, q: Payload)
    requires RowList(p) != [] && RowList(q) != []
    requires RowList(p)[0] == RowList(q)[0]
    ensures LevelFromKanava(p) == LevelFromKanava(q)
  {
  }

  /** The position of the first element that satisfies `p`, or the length of the list when there is none. */
  function FirstWith<T>(s: seq<T>, p: T -> bool): (i: nat)
    ensures i <= |s|
    ensures forall k :: 0 <= k < i ==> !p(s[k])
    ensures i < |s| ==> p(s[i])
  {
    if s == [] || p(s[0]) then 0 else 1 + FirstWith(s[1..], p)
  }

  /** The position of the first row with a valid level, or the length of the list when there is none. */
  function FirstLevelIndex(rows: seq<Row>): (i: nat)
    ensures i <= |rows|
    ensures forall k :: 0 <= k < i ==> LevelOfRow(rows[k]).None?
    ensures i < |rows| ==> LevelOfRow(rows[i]).Some?
  {
    FirstWith(rows, (row: Row) => LevelOfRow(row).Some?)
  }

  /** The scan of `extractLevel`: the level of the first row that has a valid one, or null. */
  function FirstLevel(rows: seq<Row>): (r: Option<string>)
    ensures r.None? <==> forall k :: 0 <= k < |rows| ==> LevelOfRow(rows[k]).None?
    ensures r.Some? ==> exists i :: 0 <= i < |rows| && r == LevelOfRow(rows[i])
  {
    var i := FirstLevelIndex(rows);
    if i < |rows| then LevelOfRow(rows[i]) else None
  }

  /** A scan that finds no level before `i`, and one at `i` if `i` is in range, answers the level at `i`. */
  lemma FirstLevelAt(rows: seq<Row>, i: nat)
    requires i <= |rows|
    requires forall k :: 0 <= k < i ==> LevelOfRow(rows[k]).None?
    requires i < |rows| ==> LevelOfRow(rows[i]).Some?
    ensures FirstLevelIndex(rows) == i
    ensures FirstLevel(rows) == if i < |rows| then LevelOfRow(rows[i]) else None
  {
  }
}
