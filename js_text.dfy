/**
 * The JavaScript string operations the resolution pipeline relies on:
 * `trim`, the `\s` character class, ASCII case mapping, the
 * whitespace-collapsing title clean-up and the `\b\d{4}\b` year strip.
 */
module JsText {

  datatype Option<+T> = None | Some(value: T)

  /** ECMAScript WhiteSpace and LineTerminator code points: what `\s` and `trim` treat as blank. */
  predicate IsSpace(c: char) {
    c == ' ' || ('\t' <= c <= '\r') || c == '\U{A0}' || c == '\U{1680}' || ('\U{2000}' <= c <= '\U{200A}')
    || c == '\U{2028}' || c == '\U{2029}' || c == '\U{202F}' || c == '\U{205F}' || c == '\U{3000}'
    || c == '\U{FEFF}'
  }

  predicate IsDigit(c: char) { '0' <= c <= '9' }

  /** The characters `\w` and `\b` consider part of a word (no `u` flag). */
  predicate IsWordChar(c: char) { 'a' <= c <= 'z' || 'A' <= c <= 'Z' || IsDigit(c) || c == '_' }

  /** True when every character of `s` is blank (`!/\S/.test(s)`). */
  predicate Blank(s: string) { forall i :: 0 <= i < |s| ==> IsSpace(s[i]) }

  /** What is left of `s` once its leading characters that satisfy `p` are dropped: a suffix of `s`. */
  function DropLeading(s: string, p: char -> bool): (r: string)
    ensures |r| <= |s| && r == s[|s| - |r|..]
  {
    if s != [] && p(s[0]) then DropLeading(s[1..], p) else s
  }

  /** Every dropped character satisfies `p`, and the first one kept does not. */
  lemma {:induction false} DropLeadingFacts(s: string, p: char -> bool)
    ensures var r := DropLeading(s, p);
      && (forall i :: 0 <= i < |s| - |r| ==> p(s[i]))
      && (r == [] || !p(r[0]))
    decreases |s|
  {
    if s != [] && p(s[0]) {
      DropLeadingFacts(s[1..], p);
      var r := DropLeading(s, p);
      forall i | 1 <= i < |s| - |r| ensures p(s[i]) {
        assert s[i] == s[1..][i - 1];
      }
    }
  }

  /** Dropping from a run of characters that satisfy `p` up to one that does not leaves exactly the rest. */
  lemma {:induction false} DropLeadingRun(w: string, y: string, p: char -> bool)
    requires forall i :: 0 <= i < |w| ==> p(w[i])
    requires y == [] || !p(y[0])
    ensures DropLeading(w + y, p) == y
  {
    if w != [] {
      assert (w + y)[0] == w[0] && (w + y)[1..] == w[1..] + y;
      DropLeadingRun(w[1..], y, p);
    } else {
      assert w + y == y;
    }
  }

  /** When `a` ends with a character outside `p`, dropping from `a + b` stops inside `a`. */
  lemma {:induction false} DropLeadingConcat(a: string, b: string, p: char -> bool)
    requires a != [] && !p(a[|a| - 1])
    ensures DropLeading(a + b, p) == DropLeading(a, p) + b
  {
    assert (a + b)[0] == a[0];
    if p(a[0]) {
      assert |a| > 1;
      assert (a + b)[1..] == a[1..] + b;
      DropLeadingConcat(a[1..], b, p);
    }
  }

  /** What is left of `s` once its trailing characters that satisfy `p` are dropped: a prefix of `s`. */
  function DropTrailing(s: string, p: char -> bool): (r: string)
    ensures |r| <= |s| && r == s[..|r|]
  {
    if s != [] && p(s[|s| - 1]) then DropTrailing(s[..|s| - 1], p) else s
  }

  /** Every dropped character satisfies `p`, and the last one kept does not. */
  lemma {:induction false} DropTrailingFacts(s: string, p: char -> bool)
    ensures var r := DropTrailing(s, p);
      && (forall i :: |r| <= i < |s| ==> p(s[i]))
      && (r == [] || !p(r[|r| - 1]))
    decreases |s|
  {
    if s != [] && p(s[|s| - 1]) {
      DropTrailingFacts(s[..|s| - 1], p);
      var r := DropTrailing(s, p);
      forall i | |r| <= i < |s| - 1 ensures p(s[i]) {
        assert s[i] == s[..|s| - 1][i];
      }
    }
  }

  /** Dropping from both ends leaves nothing exactly when every character satisfies `p`; otherwise what is left starts and ends with characters that do not. */
  lemma DropBothFacts(s: string, p: char -> bool)
    ensures var r := DropTrailing(DropLeading(s, p), p);
      && (r == [] <==> forall i :: 0 <= i < |s| ==> p(s[i]))
      && (r == [] || (!p(r[0]) && !p(r[|r| - 1])))
  {
    var t := DropLeading(s, p);
    var r := DropTrailing(t, p);
    DropLeadingFacts(s, p);
    DropTrailingFacts(t, p);
    var i := |s| - |t|;
    if r == [] {
      assert t == [];
    } else {
      assert s[i] == t[0] == r[0];
    }
  }

  /** `s.replace(/^\s+/, '')` */
  function TrimStart(s: string): string {
    DropLeading(s, IsSpace)
  }

  /** Everything `TrimStart` removes is white space, and what it leaves does not start with any. */
  lemma TrimStartFacts(s: string)
    ensures var r := TrimStart(s);
      && |r| <= |s| && r == s[|s| - |r|..]
      && (forall i :: 0 <= i < |s| - |r| ==> IsSpace(s[i]))
      && (r == [] || !IsSpace(r[0]))
  {
    DropLeadingFacts(s, IsSpace);
  }

  /** `s.replace(/\s+$/, '')` */
  function TrimEnd(s: string): string {
    DropTrailing(s, IsSpace)
  }

  /** `String.prototype.trim`: the slice of `s` between its blank prefix and its blank suffix. */
  function Trim(s: string): string {
    TrimEnd(TrimStart(s))
  }

  /** The trimmed string has no white space at either end, and it is empty exactly when `s` is blank. */
  lemma TrimFacts(s: string)
    ensures var r := Trim(s);
      && (r == [] || (!IsSpace(r[0]) && !IsSpace(r[|r| - 1])))
      && (r == [] <==> Blank(s))
  {
    DropBothFacts(s, IsSpace);
  }

  /** The trimmed string is the slice of `s` that starts after the blank prefix. */
  lemma TrimSlice(s: string)
    ensures |s| - |TrimStart(s)| + |Trim(s)| <= |s|
    ensures forall k :: 0 <= k < |Trim(s)| ==> Trim(s)[k] == s[|s| - |TrimStart(s)| + k]
  {
    var t := TrimStart(s);
    assert Trim(s) == t[..|Trim(s)|];
  }

  /** Trimming leaves a string without blank ends unchanged. */
  lemma TrimKeepsClean(s: string)
    requires s == [] || (!IsSpace(s[0]) && !IsSpace(s[|s| - 1]))
    ensures Trim(s) == s
  {
  }

  /** ASCII case mapping (the only case mapping this model needs to be exact). */
  /** An ASCII capital becomes its small letter; every other character is kept. */
  function LowerChar(c: char): (r: char)
    ensures 'A' <= c <= 'Z' ==> 'a' <= r <= 'z' && UpperChar(r) == c
    ensures !('A' <= c <= 'Z') ==> r == c
  {
    if 'A' <= c <= 'Z' then (c as int + 32) as char else c
  }

  /** An ASCII small letter becomes its capital; every other character is kept. */
  function UpperChar(c: char): (r: char)
    ensures 'a' <= c <= 'z' ==> 'A' <= r <= 'Z' && (r as int + 32) as char == c
    ensures !('a' <= c <= 'z') ==> r == c
  {
    if 'a' <= c <= 'z' then (c as int - 32) as char else c
  }

  /** `toLowerCase`, on the ASCII letters. */
  function Lower(s: string): (r: string)
    ensures |r| == |s|
    ensures forall i :: 0 <= i < |s| ==> r[i] == LowerChar(s[i])
  {
    if s == [] then [] else [LowerChar(s[0])] + Lower(s[1..])
  }

  /** `toUpperCase`, on the ASCII letters. */
  function Upper(s: string): (r: string)
    ensures |r| == |s|
    ensures forall i :: 0 <= i < |s| ==> r[i] == UpperChar(s[i])
  {
    if s == [] then [] else [UpperChar(s[0])] + Upper(s[1..])
  }

  /** Every maximal run of characters that satisfy `p` becomes one space. */
  function CollapseRuns(s: string, p: char -> bool): (r: string)
    ensures |r| <= |s|
    decreases |s|
  {
    if s == [] then []
    else if p(s[0]) then [' '] + CollapseRuns(DropLeading(s, p), p)
    else [s[0]] + CollapseRuns(s[1..], p)
  }

  /** `s.replace(/\s+/g, ' ')`: every maximal blank run becomes one space. */
  function Collapse(s: string): (r: string)
    ensures |r| <= |s|
    ensures r != [] ==> (IsSpace(r[0]) <==> IsSpace(s[0]))
  {
    CollapseRuns(s, IsSpace)
  }

  /** A string without white space is left as it is. */
  lemma {:induction false} CollapseKeepsClean(s: string)
    requires forall i :: 0 <= i < |s| ==> !IsSpace(s[i])
    ensures Collapse(s) == s
  {
    if s != [] {
      CollapseStep(s);
      CollapseKeepsClean(s[1..]);
    }
  }

  /** Dropping a leading run from a string that ends outside the class leaves a shorter, non-empty suffix. */
  lemma DropLeadingShorter(a: string, p: char -> bool)
    requires a != [] && p(a[0]) && !p(a[|a| - 1])
    ensures var t := DropLeading(a, p); 0 < |t| < |a| && t[|t| - 1] == a[|a| - 1]
  {
    assert DropLeading(a, p) == DropLeading(a[1..], p);
    DropLeadingFacts(a, p);
  }

  lemma AppendAssoc<T>(a: seq<T>, b: seq<T>, c: seq<T>)
    ensures a + (b + c) == a + b + c
  {
  }

  lemma CollapseRunsUnfold(s: string, p: char -> bool)
    requires s != []
    ensures p(s[0]) ==> CollapseRuns(s, p) == [' '] + CollapseRuns(DropLeading(s, p), p)
    ensures !p(s[0]) ==> CollapseRuns(s, p) == [s[0]] + CollapseRuns(s[1..], p)
  {
  }

  /** The step of `CollapseRunsConcat` for an `a` that starts with a run. */
  lemma CollapseRunsRunStep(a: string, b: string, p: char -> bool)
    requires a != [] && p(a[0]) && !p(a[|a| - 1])
    requires var t := DropLeading(a, p); CollapseRuns(t + b, p) == CollapseRuns(t, p) + CollapseRuns(b, p)
    ensures CollapseRuns(a + b, p) == CollapseRuns(a, p) + CollapseRuns(b, p)
  {
    var t := DropLeading(a, p);
    assert (a + b)[0] == a[0];
    CollapseRunsUnfold(a + b, p);
    CollapseRunsUnfold(a, p);
    DropLeadingConcat(a, b, p);
    AppendAssoc([' '], CollapseRuns(t, p), CollapseRuns(b, p));
  }

  /** The step of `CollapseRunsConcat` for an `a` that starts outside the class. */
  lemma CollapseRunsOtherStep(a: string, b: string, p: char -> bool)
    requires a != [] && !p(a[0])
    requires CollapseRuns(a[1..] + b, p) == CollapseRuns(a[1..], p) + CollapseRuns(b, p)
    ensures CollapseRuns(a + b, p) == CollapseRuns(a, p) + CollapseRuns(b, p)
  {
    assert (a + b)[0] == a[0] && (a + b)[1..] == a[1..] + b;
    CollapseRunsUnfold(a + b, p);
    CollapseRunsUnfold(a, p);
    AppendAssoc([a[0]], CollapseRuns(a[1..], p), CollapseRuns(b, p));
  }

  /** When `a` does not end inside a run, collapsing `a + b` collapses `a` and `b` apart. */
  lemma {:induction false} CollapseRunsConcat(a: string, b: string, p: char -> bool)
    requires a == [] || !p(a[|a| - 1])
    ensures CollapseRuns(a + b, p) == CollapseRuns(a, p) + CollapseRuns(b, p)
    decreases |a|
  {
    if a == [] {
      assert a + b == b;
    } else if p(a[0]) {
      DropLeadingShorter(a, p);
      CollapseRunsConcat(DropLeading(a, p), b, p);
      CollapseRunsRunStep(a, b, p);
    } else {
      CollapseRunsConcat(a[1..], b, p);
      CollapseRunsOtherStep(a, b, p);
    }
  }

  /** A run at the start becomes one space. */
  lemma CollapseRunsLeading(w: string, y: string, p: char -> bool)
    requires w != [] && forall i :: 0 <= i < |w| ==> p(w[i])
    requires y == [] || !p(y[0])
    ensures CollapseRuns(w + y, p) == " " + CollapseRuns(y, p)
  {
    assert (w + y)[0] == w[0];
    DropLeadingRun(w, y, p);
  }

  /**
   * A maximal run of white space between `x` and `y` becomes exactly one
   * space: the rest of the string collapses on either side of it.
   */
  lemma CollapseRun(x: string, w: string, y: string)
    requires w != [] && Blank(w)
    requires x == [] || !IsSpace(x[|x| - 1])
    requires y == [] || !IsSpace(y[0])
    ensures Collapse(x + w + y) == Collapse(x) + " " + Collapse(y)
  {
    CollapseRunsConcat(x, w + y, IsSpace);
    CollapseRunsLeading(w, y, IsSpace);
    AppendAssoc(x, w, y);
    AppendAssoc(Collapse(x), " ", Collapse(y));
  }

  /** One step of collapsing: a leading blank run becomes a space, any other first character stays. */
  lemma CollapseStep(s: string)
    requires s != []
    ensures IsSpace(s[0]) ==> Collapse(s) == [' '] + Collapse(TrimStart(s))
    ensures !IsSpace(s[0]) ==> Collapse(s) == [s[0]] + Collapse(s[1..])
  {
  }

  /** After collapsing, the only blank character is the space, and no two blanks are adjacent. */
  lemma {:induction false} CollapseSpaces(s: string)
    ensures forall i :: 0 <= i < |Collapse(s)| && IsSpace(Collapse(s)[i]) ==> Collapse(s)[i] == ' '
    ensures forall i :: 0 <= i < |Collapse(s)| - 1 ==> !IsSpace(Collapse(s)[i]) || !IsSpace(Collapse(s)[i + 1])
    decreases |s|
  {
    if s == [] {
    } else if IsSpace(s[0]) {
      CollapseStep(s);
      TrimStartFacts(s);
      CollapseSpaces(TrimStart(s));
    } else {
      CollapseStep(s);
      CollapseSpaces(s[1..]);
    }
  }

  /** Collapsing never turns a blank string into a non-blank one or back. */
  lemma {:induction false} CollapseBlank(s: string)
    ensures Blank(Collapse(s)) <==> Blank(s)
    decreases |s|
  {
    if s == [] {
    } else if IsSpace(s[0]) {
      CollapseStep(s);
      var t := TrimStart(s);
      TrimStartFacts(s);
      CollapseBlank(t);
      assert Blank(s) <==> t == [] by {
        if t == [] {
          assert forall j :: 0 <= j < |s| ==> IsSpace(s[j]);
        } else {
          assert s[|s| - |t|] == t[0];
        }
      }
      var c := Collapse(t);
      assert Blank(c) <==> c == [] by { if c != [] { assert !IsSpace(c[0]); } }
      assert Blank([' '] + c) <==> c == [] by { if c != [] { assert ([' '] + c)[1] == c[0]; } }
      assert c == [] <==> t == [];
    } else {
      CollapseStep(s);
      assert !Blank(s) by { assert !IsSpace(s[0]); }
      assert Collapse(s)[0] == s[0];
    }
  }

  /** `String(title).replace(/\s+/g, ' ').trim()` (the title clean-up before a name lookup). */
  function CleanTitle(title: string): string {
    Trim(Collapse(title))
  }

  /** The cleaned title is non-empty exactly when the title is not blank, and has no white space at its ends. */
  lemma CleanTitleFacts(title: string)
    ensures var r := CleanTitle(title);
      && (r != [] <==> !Blank(title))
      && (r == [] || (!IsSpace(r[0]) && !IsSpace(r[|r| - 1])))
  {
    CollapseBlank(title);
    TrimFacts(Collapse(title));
  }

  /** The characters of `s` that are not white space, in order. */
  function NonSpace(s: string): string {
    if s == [] then [] else (if IsSpace(s[0]) then [] else [s[0]]) + NonSpace(s[1..])
  }

  lemma {:induction false} NonSpaceConcat(a: string, b: string)
    ensures NonSpace(a + b) == NonSpace(a) + NonSpace(b)
  {
    if a == [] {
      assert a + b == b;
    } else {
      var h := if IsSpace(a[0]) then [] else [a[0]];
      calc {
        NonSpace(a + b);
      ==  { assert (a + b)[0] == a[0] && (a + b)[1..] == a[1..] + b; }
        h + NonSpace(a[1..] + b);
      ==  { NonSpaceConcat(a[1..], b); }
        h + (NonSpace(a[1..]) + NonSpace(b));
      ==
        (h + NonSpace(a[1..])) + NonSpace(b);
      }
    }
  }

  /** Dropping leading white space keeps every other character. */
  lemma {:induction false} TrimStartKeepsText(s: string)
    ensures NonSpace(TrimStart(s)) == NonSpace(s)
    decreases |s|
  {
    if s != [] && IsSpace(s[0]) {
      assert TrimStart(s) == TrimStart(s[1..]);
      TrimStartKeepsText(s[1..]);
    }
  }

  /** Dropping trailing white space keeps every other character. */
  lemma {:induction false} TrimEndKeepsText(s: string)
    ensures NonSpace(TrimEnd(s)) == NonSpace(s)
    decreases |s|
  {
    if s != [] && IsSpace(s[|s| - 1]) {
      var init := s[..|s| - 1];
      assert TrimEnd(s) == TrimEnd(init);
      TrimEndKeepsText(init);
      assert s == init + [s[|s| - 1]];
      NonSpaceConcat(init, [s[|s| - 1]]);
      assert NonSpace([s[|s| - 1]]) == [];
    }
  }

  /** Trimming removes white space only: the other characters stay, in order. */
  lemma TrimKeepsText(s: string)
    ensures NonSpace(Trim(s)) == NonSpace(s)
  {
    TrimStartKeepsText(s);
    TrimEndKeepsText(TrimStart(s));
  }

  /** Collapsing white-space runs keeps every other character, in order. */
  lemma {:induction false} CollapseKeepsText(s: string)
    ensures NonSpace(Collapse(s)) == NonSpace(s)
    decreases |s|
  {
    if s == [] {
    } else if IsSpace(s[0]) {
      CollapseStep(s);
      var t := TrimStart(s);
      CollapseKeepsText(t);
      NonSpaceConcat([' '], Collapse(t));
      TrimStartKeepsText(s);
    } else {
      CollapseStep(s);
      CollapseKeepsText(s[1..]);
      NonSpaceConcat([s[0]], Collapse(s[1..]));
      assert NonSpace(s) == [s[0]] + NonSpace(s[1..]);
    }
  }

  /** The cleaned title keeps every character of the title that is not white space, in order. */
  lemma CleanTitleKeepsText(title: string)
    ensures NonSpace(CleanTitle(title)) == NonSpace(title)
  {
    CollapseKeepsText(title);
    TrimKeepsText(Collapse(title));
  }

  /** In a cleaned title every blank is a plain space and no two spaces are adjacent. */
  lemma CleanTitleSpaces(title: string)
    ensures var r := CleanTitle(title);
      (forall i :: 0 <= i < |r| && IsSpace(r[i]) ==> r[i] == ' ')
      && (forall i :: 0 <= i < |r| - 1 ==> !IsSpace(r[i]) || !IsSpace(r[i + 1]))
  {
    var c := Collapse(title);
    CollapseSpaces(title);
    TrimSlice(c);
  }

  /** The text starts with `p`, compared case-insensitively (ASCII). */
  predicate StartsWithIgnoringCase(t: string, p: string) {
    |p| <= |t| && forall k :: 0 <= k < |p| ==> UpperChar(t[k]) == UpperChar(p[k])
  }

  /** `/p/i.test(t)` for a pattern `p` made of literal characters. */
  predicate ContainsIgnoringCase(t: string, p: string)
    decreases |t|
  {
    StartsWithIgnoringCase(t, p) || (t != [] && ContainsIgnoringCase(t[1..], p))
  }

  /** A `\b\d{4}\b` match starts here: no word character before it, four digits, no word character after. */
  predicate YearAt(s: string, afterWord: bool) {
    !afterWord && |s| >= 4 && IsDigit(s[0]) && IsDigit(s[1]) && IsDigit(s[2]) && IsDigit(s[3])
    && (|s| == 4 || !IsWordChar(s[4]))
  }

  /** The global replace scan of `\b\d{4}\b` by '' over `s`, where `afterWord` says whether the character before `s` is a word character. */
  function StripYearsFrom(s: string, afterWord: bool): (r: string)
    decreases |s|
  {
    if s == [] then []
    else if YearAt(s, afterWord) then StripYearsFrom(s[4..], true)
    else [s[0]] + StripYearsFrom(s[1..], IsWordChar(s[0]))
  }

  /** `String(ct).replace(/\b\d{4}\b/g, '')` */
  function StripYears(s: string): string {
    StripYearsFrom(s, false)
  }

  /** The characters of `s` that are not digits, in order. */
  function NonDigits(s: string): string {
    if s == [] then [] else (if IsDigit(s[0]) then [] else [s[0]]) + NonDigits(s[1..])
  }

  lemma NonDigitsSkipsDigit(s: string)
    requires s != [] && IsDigit(s[0])
    ensures NonDigits(s) == NonDigits(s[1..])
  {
  }

  /** The year strip keeps every character that is not a digit, in order. */
  lemma {:induction false} StripYearsKeepsNonDigits(s: string, afterWord: bool)
    ensures NonDigits(StripYearsFrom(s, afterWord)) == NonDigits(s)
    decreases |s|
  {
    if s == [] {
    } else if YearAt(s, afterWord) {
      StripYearsKeepsNonDigits(s[4..], true);
      NonDigitsSkipsDigit(s);
      NonDigitsSkipsDigit(s[1..]);
      assert s[1..][1..] == s[2..];
      NonDigitsSkipsDigit(s[2..]);
      assert s[2..][1..] == s[3..];
      NonDigitsSkipsDigit(s[3..]);
      assert s[3..][1..] == s[4..];
    } else {
      StripYearsKeepsNonDigits(s[1..], IsWordChar(s[0]));
      var r := StripYearsFrom(s[1..], IsWordChar(s[0]));
      assert ([s[0]] + r)[1..] == r;
    }
  }

  /** The year strip removes characters in groups of four: whole years. */
  lemma {:induction false} StripYearsLength(s: string, afterWord: bool)
    ensures |StripYearsFrom(s, afterWord)| <= |s|
    ensures (|s| - |StripYearsFrom(s, afterWord)|) % 4 == 0
    decreases |s|
  {
    if s == [] {
    } else if YearAt(s, afterWord) {
      StripYearsLength(s[4..], true);
    } else {
      StripYearsLength(s[1..], IsWordChar(s[0]));
    }
  }

  /** A title made of words and a stand-alone year loses the year. */
  lemma StripYearsExample()
    ensures StripYears("CHI 2023") == "CHI "
  {
    assert "CHI 2023"[1..] == "HI 2023";
    assert "HI 2023"[1..] == "I 2023";
    assert "I 2023"[1..] == " 2023";
    assert " 2023"[1..] == "2023";
    assert YearAt("2023", false);
    assert "2023"[4..] == [];
  }

  /** Four digits glued to a word are not a year. */
  lemma StripYearsGluedExample()
    ensures StripYears("X2023") == "X2023"
  {
    assert "X2023"[1..] == "2023";
    assert "2023"[1..] == "023";
    assert "023"[1..] == "23";
    assert "23"[1..] == "3";
    assert "3"[1..] == [];
  }
}
