/**
 * Hint rules of `ensureByQuery` (js/jufo.js lines 201-221): each usable hint
 * whose pattern matches a text among `[title, compl, ...containerTitles]`
 * contributes its ISSN once per matching text. The user's hints come first;
 * the built-in CHI hint, mapping CHI proceedings to the PACMHCI ISSN
 * `2573-0142`, is always last. A pattern string that fails to compile
 * throws, and the surrounding `try` then skips every remaining hint,
 * the CHI hint included.
 */
module Hints {
  import opened JsText

  /** A regular expression object: the built-in CHI pattern, or one the engine produced. */
  datatype RegExp = ChiPattern | UserRegExp(id: nat)

  /** `hint.pattern`: missing or falsy, a `RegExp` object, or a pattern string. */
  datatype Pattern = NoPattern | RegExpObject(re: RegExp) | PatternText(src: string)

  /** An entry of the hint list; `NullHint` is a falsy entry. */
  datatype Hint = NullHint | Hint(pattern: Pattern, issn: string)

  /**
   * The regular-expression engine for user patterns: `compile` turns a
   * pattern string into a `RegExp` or fails (throws), `test` is `re.test(txt)`.
   */
  datatype Engine = Engine(compile: string -> Option<RegExp>, test: (RegExp, string) -> bool)

  const ChiIssn: string := "2573-0142"

  /** The hint appended at line 204. */
  const ChiHint: Hint := Hint(RegExpObject(ChiPattern), ChiIssn)

  /** `re.test(txt)`; the CHI pattern is `/CHI Conference|Human Factors in Computing Systems/i`. */
  predicate Test(e: Engine, re: RegExp, txt: string) {
    match re
    case ChiPattern =>
      ContainsIgnoringCase(txt, "CHI Conference") || ContainsIgnoringCase(txt, "Human Factors in Computing Systems")
    case UserRegExp(_) => e.test(re, txt)
  }

  /** `!(!hint || !hint.pattern || !hint.issn)` */
  predicate Usable(h: Hint) {
    h.Hint? && !h.pattern.NoPattern? && !(h.pattern.PatternText? && h.pattern.src == "") && h.issn != ""
  }

  /** The regular expression a usable hint's pattern stands for, or `None` when compiling it throws. */
  function Compile(e: Engine, p: Pattern): Option<RegExp> {
    match p
    case NoPattern => None
    case RegExpObject(re) => Some(re)
    case PatternText(src) => e.compile(src)
  }

  /** A usable hint in this list fails to compile. */
  predicate Aborts(e: Engine, hints: seq<Hint>) {
    exists i :: 0 <= i < |hints| && Usable(hints[i]) && Compile(e, hints[i].pattern).None?
  }

  /** The inner loop of lines 217-219: `issn` once for every non-empty text the pattern matches. */
  function Matching(e: Engine, re: RegExp, texts: seq<string>, issn: string): (r: seq<string>)
    ensures |r| <= |texts|
    ensures forall i :: 0 <= i < |r| ==> r[i] == issn
    ensures r != [] <==> exists i :: 0 <= i < |texts| && texts[i] != "" && Test(e, re, texts[i])
  {
    if texts == [] then []
    else
      var init := texts[..|texts| - 1];
      var t := texts[|texts| - 1];
      var r := Matching(e, re, init, issn) + (if t != "" && Test(e, re, t) then [issn] else []);
      assert forall i :: 0 <= i < |init| ==> texts[i] == init[i];
      r
  }

  /** The positions of the elements of `s` that satisfy `p`. */
  ghost function Positions<T>(s: seq<T>, p: T -> bool): set<int> {
    set i | 0 <= i < |s| && p(s[i])
  }

  /** Adding one element adds its position exactly when it satisfies `p`. */
  lemma PositionsLast<T>(s: seq<T>, p: T -> bool)
    requires s != []
    ensures var n := |s| - 1;
      && Positions(s, p) == Positions(s[..n], p) + (if p(s[n]) then {n} else {})
      && n !in Positions(s[..n], p)
  {
    var n := |s| - 1;
    forall i | 0 <= i < n ensures s[i] == s[..n][i] {}
  }

  /** The positions of the non-empty texts the pattern matches. */
  ghost function MatchIndices(e: Engine, re: RegExp, texts: seq<string>): set<int> {
    Positions(texts, (t: string) => t != "" && Test(e, re, t))
  }

  /** The inner loop pushes the ISSN exactly once for every non-empty text the pattern matches. */
  lemma {:induction false} MatchingCount(e: Engine, re: RegExp, texts: seq<string>, issn: string)
    ensures |Matching(e, re, texts, issn)| == |MatchIndices(e, re, texts)|
  {
    if texts != [] {
      var n := |texts| - 1;
      MatchingCount(e, re, texts[..n], issn);
      PositionsLast(texts, (t: string) => t != "" && Test(e, re, t));
    }
  }

  /** The ISSNs the hint loop pushes, in order, stopping for good at the first hint that fails to compile. */
  function HintIssns(e: Engine, hints: seq<Hint>, texts: seq<string>): seq<string> {
    if hints == [] then []
    else if !Usable(hints[0]) then HintIssns(e, hints[1..], texts)
    else
      match Compile(e, hints[0].pattern)
      case None => []
      case Some(re) => Matching(e, re, texts, hints[0].issn) + HintIssns(e, hints[1..], texts)
  }

  /** Every pushed ISSN is the ISSN of a usable hint: the hint loop never invents or removes candidates. */
  lemma {:induction false} HintIssnsFromHints(e: Engine, hints: seq<Hint>, texts: seq<string>)
    ensures forall x :: x in HintIssns(e, hints, texts) ==> exists i :: 0 <= i < |hints| && Usable(hints[i]) && hints[i].issn == x
  {
    if hints != [] {
      HintIssnsFromHints(e, hints[1..], texts);
      forall x | x in HintIssns(e, hints, texts)
        ensures exists i :: 0 <= i < |hints| && Usable(hints[i]) && hints[i].issn == x
      {
        if x in HintIssns(e, hints[1..], texts) {
          var i :| 0 <= i < |hints[1..]| && Usable(hints[1..][i]) && hints[1..][i].issn == x;
          assert hints[i + 1] == hints[1..][i];
        } else {
          assert Usable(hints[0]) && hints[0].issn == x;
        }
      }
    }
  }

  /**
   * Hints run in sequence: when no hint of `a` fails to compile, the ISSNs of
   * `a + b` are those of `a` followed by those of `b`; when one does, `b` is
   * never reached.
   */
  lemma {:induction false} HintIssnsAppend(e: Engine, a: seq<Hint>, b: seq<Hint>, texts: seq<string>)
    ensures !Aborts(e, a) ==> HintIssns(e, a + b, texts) == HintIssns(e, a, texts) + HintIssns(e, b, texts)
    ensures Aborts(e, a) ==> HintIssns(e, a + b, texts) == HintIssns(e, a, texts)
  {
    if a == [] {
      assert a + b == b;
    } else {
      assert (a + b)[0] == a[0];
      assert (a + b)[1..] == a[1..] + b;
      HintIssnsAppend(e, a[1..], b, texts);
      assert Aborts(e, a[1..]) ==> Aborts(e, a) by {
        if Aborts(e, a[1..]) {
          var i :| 0 <= i < |a[1..]| && Usable(a[1..][i]) && Compile(e, a[1..][i].pattern).None?;
          assert a[i + 1] == a[1..][i];
        }
      }
      if Usable(a[0]) && Compile(e, a[0].pattern).Some? {
        assert Aborts(e, a) ==> Aborts(e, a[1..]) by {
          if Aborts(e, a) {
            var i :| 0 <= i < |a| && Usable(a[i]) && Compile(e, a[i].pattern).None?;
            assert a[1..][i - 1] == a[i];
          }
        }
      } else if !Usable(a[0]) {
        assert Aborts(e, a) ==> Aborts(e, a[1..]) by {
          if Aborts(e, a) {
            var i :| 0 <= i < |a| && Usable(a[i]) && Compile(e, a[i].pattern).None?;
            assert a[1..][i - 1] == a[i];
          }
        }
      } else {
        assert Aborts(e, a);
      }
    }
  }

  /** The hint list `ensureByQuery` uses: the user's hints, then the CHI hint. */
  function HintList(custom: seq<Hint>): (hints: seq<Hint>)
    ensures |hints| == |custom| + 1 && hints[..|custom|] == custom && hints[|custom|] == ChiHint
  {
    custom + [ChiHint]
  }

  /**
   * The CHI hint is always applied unless a user pattern fails to compile:
   * it then adds `2573-0142` once for each non-empty text that names a CHI
   * conference, after whatever the user's hints added.
   */
  lemma ChiHintApplied(e: Engine, custom: seq<Hint>, texts: seq<string>)
    requires !Aborts(e, custom)
    ensures HintIssns(e, HintList(custom), texts) == HintIssns(e, custom, texts) + Matching(e, ChiPattern, texts, ChiIssn)
    ensures (exists i :: 0 <= i < |texts| && texts[i] != "" && Test(e, ChiPattern, texts[i])) ==> ChiIssn in HintIssns(e, HintList(custom), texts)
    ensures |HintIssns(e, HintList(custom), texts)| == |HintIssns(e, custom, texts)| + |MatchIndices(e, ChiPattern, texts)|
  {
    MatchingCount(e, ChiPattern, texts, ChiIssn);
    HintIssnsAppend(e, custom, [ChiHint], texts);
    assert [ChiHint][1..] == [];
    var m := Matching(e, ChiPattern, texts, ChiIssn);
    assert HintIssns(e, [ChiHint], texts) == m + [];
    if exists i :: 0 <= i < |texts| && texts[i] != "" && Test(e, ChiPattern, texts[i]) {
      var h := HintIssns(e, custom, texts);
      assert (h + m)[|h|] == ChiIssn;
    }
  }

  /** A user pattern that fails to compile switches the CHI hint off too. */
  lemma BadPatternSkipsChiHint(e: Engine, custom: seq<Hint>, texts: seq<string>)
    requires Aborts(e, custom)
    ensures HintIssns(e, HintList(custom), texts) == HintIssns(e, custom, texts)
  {
    HintIssnsAppend(e, custom, [ChiHint], texts);
  }

  /** The hint loop of lines 209-220, leaving the `try` at the first pattern that fails to compile. */
  method ApplyHints(e: Engine, hints: seq<Hint>, texts: seq<string>) returns (pushed: seq<string>)
    ensures pushed == HintIssns(e, hints, texts)
  {
    pushed := [];
    var i := 0;
    while i < |hints|
      invariant 0 <= i <= |hints|
      invariant pushed + HintIssns(e, hints[i..], texts) == HintIssns(e, hints, texts)
    {
      var hint := hints[i];
      assert hints[i..][1..] == hints[i + 1..];
      if Usable(hint) {
        var re := Compile(e, hint.pattern);
        if re.None? {
          assert pushed == HintIssns(e, hints, texts);
          return;
        }
        var j := 0;
        var matched := [];
        while j < |texts|
          invariant 0 <= j <= |texts|
          invariant matched == Matching(e, re.value, texts[..j], hint.issn)
        {
          assert texts[..j + 1][..j] == texts[..j];
          if texts[j] != "" && Test(e, re.value, texts[j]) {
            matched := matched + [hint.issn];
          }
          j := j + 1;
        }
        assert texts[..j] == texts;
        pushed := pushed + matched;
      }
      i := i + 1;
    }
  }
}
