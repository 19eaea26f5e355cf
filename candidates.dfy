/**
 * The first pass of `ensureByQuery` over the Crossref bibliographic answer
 * (js/jufo.js lines 189-228): every item's ISSNs, the distinct non-empty
 * container titles in first-seen order, the hint ISSNs, and the
 * deduplication of all candidates by their normalised ISSN.
 */
module Candidates {
  import opened JsText
  import opened Issn
  import opened Network
  import opened Hints
  import opened Dedup

  /** `Array.isArray(v) ? v : (v ? [v] : [])` */
  function AsList(v: Values): (r: seq<string>)
    ensures v.Many? ==> r == v.values
    ensures v.One? ==> (r == [] <==> v.value == "")
    ensures v.One? && v.value != "" ==> r == [v.value]
    ensures v.Absent? ==> r == []
  {
    match v
    case Absent => []
    case One(s) => if s == "" then [] else [s]
    case Many(xs) => xs
  }

  /** All ISSN values of the items, item by item, in order. */
  function AllIssns(items: seq<Item>): seq<string> {
    if items == [] then [] else AllIssns(items[..|items| - 1]) + AsList(items[|items| - 1].issn)
  }

  /** All container-title values of the items, item by item, in order. */
  function AllTitles(items: seq<Item>): seq<string> {
    if items == [] then [] else AllTitles(items[..|items| - 1]) + AsList(items[|items| - 1].containerTitle)
  }

  /** `containerTitles`: the non-empty container titles, each once, in the order first seen. */
  function Titles(items: seq<Item>): seq<string> {
    DedupFrom(AllTitles(items), Itself, {}).0
  }

  /**
   * The container titles are non-empty and pairwise distinct, each comes from
   * an item, every non-empty title of an item is among them, and each is
   * listed where it first occurred.
   */
  lemma TitlesFacts(items: seq<Item>)
    ensures var ts := Titles(items);
      && (forall i :: 0 <= i < |ts| ==> ts[i] != "" && ts[i] in AllTitles(items))
      && (forall i, j :: 0 <= i < j < |ts| ==> ts[i] != ts[j])
      && (forall t :: t in AllTitles(items) && t != "" ==> t in ts)
      && ts == FirstOccurrences(AllTitles(items), Itself, {})
  {
    var all := AllTitles(items);
    DedupSound(all, Itself, {});
    DedupKeepsFirst(all, Itself, {});
    var (ts, seen) := DedupFrom(all, Itself, {});
    forall t | t in all && t != "" ensures t in ts {
      var i :| 0 <= i < |all| && all[i] == t;
      assert t in NonEmptyKeys(all, Itself);
      assert t in Keys(ts, Itself);
    }
  }

  /** The texts the hints are tested against: `[title, compl || ""].concat(containerTitles)`. */
  function HintTexts(title: string, compl: string, titles: seq<string>): (texts: seq<string>)
    ensures |texts| == |titles| + 2 && texts[0] == title && texts[1] == compl && texts[2..] == titles
  {
    [title, compl] + titles
  }

  /**
   * The candidate list after the first pass, with its `seen` set: the items'
   * ISSNs followed by the hint ISSNs, deduplicated by normalised ISSN.
   */
  function FirstCandidates(e: Engine, custom: seq<Hint>, title: string, compl: string, items: seq<Item>): (r: (seq<string>, set<string>))
    ensures |r.0| <= |AllIssns(items)| + |HintIssns(e, HintList(custom), HintTexts(title, compl, Titles(items)))|
  {
    var raw := AllIssns(items) + HintIssns(e, HintList(custom), HintTexts(title, compl, Titles(items)));
    DedupFrom(raw, Key, {})
  }

  /**
   * The first-pass candidates (item ISSNs, then hint ISSNs, deduplicated) have
   * pairwise distinct non-empty keys, which make up the `seen` set; each is
   * the first raw candidate with its key; and the deduplicated item ISSNs
   * come first, so an item ISSN is never pushed aside by a hint ISSN with the
   * same key.
   */
  lemma CandidateDedupFacts(itemIssns: seq<string>, hintIssns: seq<string>)
    ensures var (cand, seen) := DedupFrom(itemIssns + hintIssns, Key, {});
      && (forall i :: 0 <= i < |cand| ==> Key(cand[i]) != "" && cand[i] in itemIssns + hintIssns)
      && (forall i, j :: 0 <= i < j < |cand| ==> Key(cand[i]) != Key(cand[j]))
      && seen == Keys(cand, Key)
      && seen == NonEmptyKeys(itemIssns + hintIssns, Key)
      && cand == FirstOccurrences(itemIssns + hintIssns, Key, {})
      && var fromItems := DedupFrom(itemIssns, Key, {}).0;
        |fromItems| <= |cand| && cand[..|fromItems|] == fromItems
  {
    var raw := itemIssns + hintIssns;
    DedupSound(raw, Key, {});
    DedupKeepsFirst(raw, Key, {});
    DedupConcat(itemIssns, hintIssns, Key, {});
    var fromItems := DedupFrom(itemIssns, Key, {}).0;
    var rest := DedupFrom(hintIssns, Key, DedupFrom(itemIssns, Key, {}).1).0;
    assert (fromItems + rest)[..|fromItems|] == fromItems;
  }

  /** One more title is listed exactly when it is non-empty and not yet listed. */
  lemma TitleStep(xs: seq<string>, ct: string)
    ensures var ts := DedupFrom(xs, Itself, {}).0;
      DedupFrom(xs + [ct], Itself, {}).0 == ts + (if ct != "" && ct !in ts then [ct] else [])
  {
    SeenIsKept(xs);
    assert (xs + [ct])[..|xs + [ct]| - 1] == xs;
  }

  /** Lines 196-198: each container title of one item that is non-empty and not yet listed is appended. */
  method AddTitles(titles0: seq<string>, cts: seq<string>, ghost before: seq<string>) returns (titles: seq<string>)
    requires titles0 == DedupFrom(before, Itself, {}).0
    ensures titles == DedupFrom(before + cts, Itself, {}).0
  {
    titles := titles0;
    var m := 0;
    assert before + cts[..0] == before;
    while m < |cts|
      invariant 0 <= m <= |cts|
      invariant titles == DedupFrom(before + cts[..m], Itself, {}).0
    {
      var ct := cts[m];
      assert before + cts[..m + 1] == (before + cts[..m]) + [ct];
      TitleStep(before + cts[..m], ct);
      if ct != "" && ct !in titles {
        titles := titles + [ct];
      }
      m := m + 1;
    }
    assert cts[..m] == cts;
  }

  /** Lines 190-200: the ISSNs of every item, in order, and the distinct container titles. */
  method CollectFirstPass(items: seq<Item>) returns (cand: seq<string>, titles: seq<string>)
    ensures cand == AllIssns(items)
    ensures titles == Titles(items)
  {
    cand := [];
    titles := [];
    var k := 0;
    while k < |items|
      invariant 0 <= k <= |items|
      invariant cand == AllIssns(items[..k])
      invariant titles == DedupFrom(AllTitles(items[..k]), Itself, {}).0
    {
      assert items[..k + 1][..k] == items[..k];
      cand := cand + AsList(items[k].issn);
      var cts := AsList(items[k].containerTitle);
      titles := AddTitles(titles, cts, AllTitles(items[..k]));
      assert AllTitles(items[..k + 1]) == AllTitles(items[..k]) + cts;
      k := k + 1;
    }
    assert items[..k] == items;
  }

  /**
   * The `seen`-set loop over candidate ISSNs, starting from a given `seen` set:
   * over the raw candidates from nothing (lines 224-228), and over the ISSNs of
   * one container-title answer in the harvest (lines 241-244).
   */
  method DedupInto(raw: seq<string>, seen0: set<string>) returns (kept: seq<string>, seen: set<string>)
    ensures (kept, seen) == DedupFrom(raw, Key, seen0)
  {
    kept := [];
    seen := seen0;
    var i := 0;
    while i < |raw|
      invariant 0 <= i <= |raw|
      invariant (kept, seen) == DedupFrom(raw[..i], Key, seen0)
    {
      assert raw[..i + 1][..i] == raw[..i];
      var n := Key(raw[i]);
      if n != "" && n !in seen {
        seen := seen + {n};
        kept := kept + [raw[i]];
      }
      i := i + 1;
    }
    assert raw[..i] == raw;
  }
}
