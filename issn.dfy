/**
 * ISSN normalisation (js/jufo.js): the `[^0-9Xx]` strip used for comparing
 * a search result with its query, the upper-cased dedup key, the
 * `[^0-9Xx-]` clean-up of a publication's own ISSNs, the hyphenated
 * 8-character form, and the order in which `fetchJufoByIssn` tries its
 * query variants.
 */
module Issn {
  import opened JsText

  predicate IsIssnChar(c: char) { IsDigit(c) || c == 'X' || c == 'x' }

  predicate IsKeyChar(c: char) { IsDigit(c) || c == 'X' }

  /** `String(s).replace(/[^0-9Xx]/g, '')` */
  function Strip(s: string): (r: string)
    ensures |r| <= |s|
    ensures forall i :: 0 <= i < |r| ==> IsIssnChar(r[i])
  {
    if s == [] then [] else (if IsIssnChar(s[0]) then [s[0]] else []) + Strip(s[1..])
  }

  /** A string of digits and `x`/`X` only is left unchanged. */
  lemma {:induction false} StripKeepsClean(s: string)
    requires forall i :: 0 <= i < |s| ==> IsIssnChar(s[i])
    ensures Strip(s) == s
  {
    if s != [] {
      StripKeepsClean(s[1..]);
    }
  }

  /** A single character is kept exactly when it is a digit, `x` or `X`. */
  lemma StripOne(c: char)
    ensures Strip([c]) == if IsIssnChar(c) then [c] else []
  {
    assert [c][1..] == [];
  }

  /** Any other character is dropped, not replaced: the rest of the string is stripped around it. */
  lemma StripDropsOther(a: string, c: char, b: string)
    requires !IsIssnChar(c)
    ensures Strip(a + [c] + b) == Strip(a) + Strip(b)
  {
    StripConcat(a + [c], b);
    StripConcat(a, [c]);
    StripOne(c);
  }

  /** Stripping distributes over concatenation. */
  lemma {:induction false} StripConcat(a: string, b: string)
    ensures Strip(a + b) == Strip(a) + Strip(b)
  {
    if a == [] {
      assert a + b == b;
    } else {
      var h := if IsIssnChar(a[0]) then [a[0]] else [];
      calc {
        Strip(a + b);
      ==  { assert (a + b)[0] == a[0] && (a + b)[1..] == a[1..] + b; }
        h + Strip(a[1..] + b);
      ==  { StripConcat(a[1..], b); }
        h + (Strip(a[1..]) + Strip(b));
      ==
        (h + Strip(a[1..])) + Strip(b);
      }
    }
  }

  /** Stripping is idempotent. */
  lemma StripIdempotent(s: string)
    ensures Strip(Strip(s)) == Strip(s)
  {
    StripKeepsClean(Strip(s));
  }

  /**
   * The dedup key of `ensureByQuery`:
   * `String(x).replace(/[^0-9Xx]/g, '').toUpperCase()`. It holds only digits and `X`.
   */
  function Key(s: string): (r: string)
    ensures |r| == |Strip(s)|
    ensures forall i :: 0 <= i < |r| ==> IsKeyChar(r[i])
  {
    var t := Strip(s);
    var r := Upper(t);
    UpperOfIssnChars(t);
    r
  }

  lemma {:induction false} UpperOfIssnChars(t: string)
    requires forall i :: 0 <= i < |t| ==> IsIssnChar(t[i])
    ensures forall i :: 0 <= i < |Upper(t)| ==> IsKeyChar(Upper(t)[i])
    ensures (forall i :: 0 <= i < |t| ==> IsKeyChar(t[i])) ==> Upper(t) == t
  {
    if t != [] {
      UpperOfIssnChars(t[1..]);
      assert Upper(t) == [UpperChar(t[0])] + Upper(t[1..]);
    }
  }

  /** The dedup key is idempotent: a key is its own key. */
  lemma KeyIdempotent(s: string)
    ensures Key(Key(s)) == Key(s)
  {
    var k := Key(s);
    assert forall i :: 0 <= i < |k| ==> IsIssnChar(k[i]);
    StripKeepsClean(k);
    UpperOfIssnChars(k);
  }

  /** Keys of concatenations are concatenations of keys. */
  lemma {:induction false} UpperConcat(a: string, b: string)
    ensures Upper(a + b) == Upper(a) + Upper(b)
  {
    if a == [] {
      assert a + b == b;
    } else {
      calc {
        Upper(a + b);
      ==  { assert (a + b)[0] == a[0] && (a + b)[1..] == a[1..] + b; }
        [UpperChar(a[0])] + Upper(a[1..] + b);
      ==  { UpperConcat(a[1..], b); }
        [UpperChar(a[0])] + (Upper(a[1..]) + Upper(b));
      ==
        ([UpperChar(a[0])] + Upper(a[1..])) + Upper(b);
      }
    }
  }

  /** The key ignores hyphens and blanks: `1758-4078`, `17584078` and `1758-4078 ` share one key. */
  lemma HyphenAndBlankIgnored(a: string, b: string)
    ensures Key(a + "-" + b) == Key(a + b) == Key(a + b + " ")
  {
    StripConcat(a + "-", b);
    StripConcat(a, "-");
    StripConcat(a, b);
    StripConcat(a + b, " ");
    assert Strip("-") == [] && Strip(" ") == [];
    assert Strip(a + "-" + b) == Strip(a + b) == Strip(a + b + " ");
  }

  /** The key does not distinguish a lower-case check character `x` from `X`. */
  lemma CheckCharacterCaseIgnored(a: string, b: string)
    ensures Key(a + "x" + b) == Key(a + "X" + b)
  {
    StripConcat(a + "x", b);
    StripConcat(a, "x");
    StripConcat(a + "X", b);
    StripConcat(a, "X");
    assert Strip("x") == "x" && Strip("X") == "X";
    UpperConcat(Strip(a) + "x", Strip(b));
    UpperConcat(Strip(a), "x");
    UpperConcat(Strip(a) + "X", Strip(b));
    UpperConcat(Strip(a), "X");
    assert Upper("x") == "X" && Upper("X") == "X";
  }

  predicate IsIssnOrHyphen(c: char) { IsIssnChar(c) || c == '-' }

  /** `String(raw).replace(/[^0-9Xx-]/g, '')`, applied by `getRankSpan` before each lookup. */
  function KeepIssnAndHyphen(s: string): (r: string)
    ensures |r| <= |s|
    ensures forall i :: 0 <= i < |r| ==> IsIssnOrHyphen(r[i])
  {
    if s == [] then [] else (if IsIssnOrHyphen(s[0]) then [s[0]] else []) + KeepIssnAndHyphen(s[1..])
  }

  /** The clean-up of `getRankSpan` never changes which digits a candidate carries. */
  lemma {:induction false} KeepIssnAndHyphenKeepsDigits(s: string)
    ensures Strip(KeepIssnAndHyphen(s)) == Strip(s)
  {
    if s != [] {
      KeepIssnAndHyphenKeepsDigits(s[1..]);
      var head := if IsIssnOrHyphen(s[0]) then [s[0]] else [];
      StripConcat(head, KeepIssnAndHyphen(s[1..]));
    }
  }

  /** `digits.length === 8 ? `${digits.slice(0,4)}-${digits.slice(4)}` : String(issn)` */
  function Hyphenated(issn: string): (r: string)
    ensures |Strip(issn)| == 8 ==> |r| == 9 && r[4] == '-' && r[..4] + r[5..] == Strip(issn)
    ensures |Strip(issn)| == 8 ==> Strip(r) == Strip(issn)
    ensures |Strip(issn)| != 8 ==> r == issn
  {
    var digits := Strip(issn);
    if |digits| == 8 then
      var r := digits[..4] + "-" + digits[4..];
      StripConcat(digits[..4] + "-", digits[4..]);
      StripConcat(digits[..4], "-");
      assert digits[..4] + digits[4..] == digits;
      StripKeepsClean(digits);
      StripKeepsClean(digits[..4]);
      StripKeepsClean(digits[4..]);
      assert Strip("-") == [];
      r
    else issn
  }

  /**
   * The queries `fetchJufoByIssn` may send, in the order it sends them:
   * the raw value, then the hyphenated form if it differs, then the
   * stripped digits if they are non-empty and differ from both.
   */
  function QueryPlan(issn: string): (plan: seq<string>)
    ensures 1 <= |plan| <= 3 && plan[0] == issn
    ensures forall i, j :: 0 <= i < j < |plan| ==> plan[i] != plan[j]
    ensures forall i :: 0 <= i < |plan| ==> plan[i] in {issn, Hyphenated(issn), Strip(issn)}
    ensures Hyphenated(issn) in plan
    ensures Strip(issn) != "" ==> Strip(issn) in plan
    ensures Hyphenated(issn) != issn ==> plan[1] == Hyphenated(issn)
    ensures Strip(issn) != "" && Strip(issn) != issn && Strip(issn) != Hyphenated(issn) ==> plan[|plan| - 1] == Strip(issn)
    ensures |plan| == 1 + (if Hyphenated(issn) != issn then 1 else 0)
      + (if Strip(issn) != "" && Strip(issn) != issn && Strip(issn) != Hyphenated(issn) then 1 else 0)
  {
    var hyphenated := Hyphenated(issn);
    var digits := Strip(issn);
    [issn]
    + (if hyphenated != issn then [hyphenated] else [])
    + (if digits != "" && digits != issn && digits != hyphenated then [digits] else [])
  }
}
