/**
 * The two entry points of js/jufo.js as functions of the services and the
 * cache state. `ensureByQuery` (lines 176-311) runs a Crossref bibliographic
 * search, then a cascade: a container-title harvest when there is no
 * candidate, the ISSN probes, one harvest-and-retry on newly found ISSNs, a
 * name lookup on the cleaned title, and name lookups on the year-stripped
 * container titles. `getRankSpan` (lines 133-174) probes ISSN1 and ISSN2 and
 * falls back to the element's text. Both end in a badge.
 */
module Cascade {
  import opened JsText
  import opened Issn
  import opened Network
  import opened Hints
  import opened Dedup
  import opened Candidates
  import opened Lookup

  /**
   * The settings read: `JUFO === true`, `Number(JUFO_MAX_CROSSREF_ROWS)` (0
   * standing for a falsy or NaN value), `JUFO_CUSTOM_HINTS` when it is an
   * array, and the regular-expression engine the hints are compiled with.
   */
  datatype Settings = Settings(enabled: bool, maxRows: int, customHints: seq<Hint>, engine: Engine)

  /** `Number(settings.JUFO_MAX_CROSSREF_ROWS) || 8` */
  function RowsParam(configured: int): (rows: int)
    ensures configured != 0 ==> rows == configured
    ensures configured == 0 ==> rows == 8
  {
    if configured == 0 then 8 else configured
  }

  /** The items of a Crossref answer whose `message.items` is an array; none otherwise. */
  function ResponseItems(resp: Response): seq<Item> {
    if resp.Parsed? && resp.message.Items? then resp.message.items else []
  }

  /**
   * `harvestFromContainerTitles` (lines 232-250): one container-title query
   * per non-empty title; the answer's ISSNs whose key is not yet seen are
   * kept (and their keys become seen); the first title that yields any ends
   * the harvest. Returns the new ISSNs, the new `seen` set and the state.
   */
  function Harvest(w: Services, st: State, titles: seq<string>, seen: set<string>): (seq<string>, set<string>, State)
    decreases |titles|
  {
    if titles == [] then ([], seen, st)
    else if titles[0] == "" then Harvest(w, st, titles[1..], seen)
    else
      var req := ContainerTitleQuery(titles[0]);
      var st1 := SentCrossref(st, req);
      var (found, seen1) := DedupFrom(AllIssns(ResponseItems(w.crossref(req))), Key, seen);
      if found != [] then (found, seen1, st1) else Harvest(w, st1, titles[1..], seen1)
  }

  /**
   * The harvest adds only ISSNs whose keys are new and pairwise distinct, and
   * records exactly those keys; a harvest that finds nothing leaves `seen`
   * as it was. It sends only container-title queries, at most one per title,
   * and touches neither cache.
   */
  lemma {:induction false} HarvestFacts(w: Services, st: State, titles: seq<string>, seen: set<string>)
    ensures var (found, seen', st') := Harvest(w, st, titles, seen);
      && (forall i :: 0 <= i < |found| ==> Key(found[i]) != "" && Key(found[i]) !in seen)
      && (forall i, j :: 0 <= i < j < |found| ==> Key(found[i]) != Key(found[j]))
      && seen' == seen + Keys(found, Key)
      && st'.issnCache == st.issnCache && st'.nameCache == st.nameCache
      && st.trace <= st'.trace && |st'.trace| - |st.trace| <= |titles|
      && (forall i :: |st.trace| <= i < |st'.trace| ==> st'.trace[i].ToCrossref? && st'.trace[i].crossref.ContainerTitleQuery?)
    decreases |titles|
  {
    if titles != [] {
      if titles[0] == "" {
        HarvestFacts(w, st, titles[1..], seen);
      } else {
        var req := ContainerTitleQuery(titles[0]);
        var st1 := SentCrossref(st, req);
        var issns := AllIssns(ResponseItems(w.crossref(req)));
        DedupSound(issns, Key, seen);
        var (found, seen1) := DedupFrom(issns, Key, seen);
        if found == [] {
          assert Keys(found, Key) == {};
          HarvestFacts(w, st1, titles[1..], seen1);
        }
      }
    }
  }

  /** The harvest stops at the first title that yields new ISSNs: later titles are never queried. */
  lemma {:induction false} HarvestStopsEarly(w: Services, st: State, titles: seq<string>, more: seq<string>, seen: set<string>)
    requires Harvest(w, st, titles, seen).0 != []
    ensures Harvest(w, st, titles + more, seen) == Harvest(w, st, titles, seen)
    decreases |titles|
  {
    assert titles != [];
    assert (titles + more)[0] == titles[0];
    assert (titles + more)[1..] == titles[1..] + more;
    if titles[0] == "" {
      HarvestStopsEarly(w, st, titles[1..], more, seen);
    } else {
      var req := ContainerTitleQuery(titles[0]);
      var (found, seen1) := DedupFrom(AllIssns(ResponseItems(w.crossref(req))), Key, seen);
      if found == [] {
        HarvestStopsEarly(w, SentCrossref(st, req), titles[1..], more, seen1);
      }
    }
  }

  /** `cand.filter(x => beforeRetry.indexOf(x) === -1)` */
  function NotIn(xs: seq<string>, ys: seq<string>): (r: seq<string>)
    ensures forall i :: 0 <= i < |r| ==> r[i] in xs && r[i] !in ys
  {
    if xs == [] then []
    else
      var r := NotIn(xs[..|xs| - 1], ys) + (if xs[|xs| - 1] !in ys then [xs[|xs| - 1]] else []);
      assert forall x :: x in xs[..|xs| - 1] ==> x in xs;
      r
  }

  lemma {:induction false} NotInAppend(xs: seq<string>, n: seq<string>, ys: seq<string>)
    ensures NotIn(xs + n, ys) == NotIn(xs, ys) + NotIn(n, ys)
    decreases |n|
  {
    if n == [] {
      assert xs + n == xs;
    } else {
      NotInAppend(xs, n[..|n| - 1], ys);
      assert (xs + n)[..|xs + n| - 1] == xs + n[..|n| - 1];
    }
  }

  lemma {:induction false} NotInAll(xs: seq<string>, ys: seq<string>)
    requires forall x :: x in xs ==> x in ys
    ensures NotIn(xs, ys) == []
  {
    if xs != [] {
      NotInAll(xs[..|xs| - 1], ys);
    }
  }

  lemma {:induction false} NotInNone(xs: seq<string>, ys: seq<string>)
    requires forall x :: x in xs ==> x !in ys
    ensures NotIn(xs, ys) == xs
  {
    if xs != [] {
      NotInNone(xs[..|xs| - 1], ys);
      assert xs == xs[..|xs| - 1] + [xs[|xs| - 1]];
    }
  }

  /**
   * Lines 263-274: harvest again (sharing `seen`), append what it found to
   * the candidates, and probe the candidates that were not there before.
   * Returns the level, the new candidate list and the state.
   */
  function Retry(w: Services, st: State, titles: seq<string>, cand: seq<string>, seen: set<string>): (Option<string>, seq<string>, State) {
    var beforeRetry := cand;
    var (found, _, st1) := Harvest(w, st, titles, seen);
    var cand' := cand + found;
    var added := NotIn(cand', beforeRetry);
    var (level, st2) := ProbeIssns(w, st1, added);
    (level, cand', st2)
  }

  /**
   * When every candidate's key is already seen, the candidates the retry
   * filters out as new are exactly the ISSNs the second harvest found, in
   * the order found: the retry probes nothing twice.
   */
  lemma RetryProbesOnlyNew(w: Services, st: State, titles: seq<string>, cand: seq<string>, seen: set<string>)
    requires forall i :: 0 <= i < |cand| ==> Key(cand[i]) in seen
    ensures var (found, _, st1) := Harvest(w, st, titles, seen);
      && NotIn(cand + found, cand) == found
      && Retry(w, st, titles, cand, seen) == (ProbeIssns(w, st1, found).0, cand + found, ProbeIssns(w, st1, found).1)
  {
    HarvestFacts(w, st, titles, seen);
    var (found, _, st1) := Harvest(w, st, titles, seen);
    NotInAppend(cand, found, cand);
    NotInAll(cand, cand);
    forall x | x in found ensures x !in cand {
      var i :| 0 <= i < |found| && found[i] == x;
      assert Key(x) !in seen;
    }
    NotInNone(found, cand);
  }

  /** `String(title).replace(/\s+/g, ' ').trim()` looked up by name when it is non-empty (lines 277-282). */
  function TitleFallback(w: Services, st: State, title: string): (Option<string>, State) {
    var t := CleanTitle(title);
    if t != "" then FetchByName(w, st, t) else (None, st)
  }

  /** The outcome of `ensureByQuery`: it stopped before the cascade, or it placed a badge for a level with its candidate list. */
  datatype Outcome = NotRun | Resolved(level: Option<string>, candidates: seq<string>)

  /** Lines 252-253: harvest only when there is no candidate yet. Returns the candidates, `seen` and the state. */
  function FirstHarvest(w: Services, st: State, titles: seq<string>, cand: seq<string>, seen: set<string>): (seq<string>, set<string>, State) {
    if cand == [] then
      var (found, seen', st') := Harvest(w, st, titles, seen);
      (cand + found, seen', st')
    else (cand, seen, st)
  }

  /** Lines 276-291: the cleaned title by name, then each year-stripped container title, until a level is found. */
  function NameFallbacks(w: Services, st: State, title: string, titles: seq<string>): (Option<string>, State) {
    var (level, st1) := TitleFallback(w, st, title);
    if level.Some? then (level, st1) else ProbeVenues(w, st1, titles)
  }

  /**
   * The cascade of lines 230-291 after the first pass: harvest when there is
   * no candidate, probe, retry on new ISSNs, then the name fallbacks, each
   * step only while no level has been found.
   */
  function RunCascade(w: Services, st: State, title: string, titles: seq<string>, cand: seq<string>, seen: set<string>): (Outcome, State) {
    var (cand1, seen1, st1) := FirstHarvest(w, st, titles, cand, seen);
    var (level1, st2) := ProbeIssns(w, st1, cand1);
    var (level2, cand2, st3) := if level1.Some? then (level1, cand1, st2) else Retry(w, st2, titles, cand1, seen1);
    if level2.Some? then (Resolved(level2, cand2), st3)
    else
      var (level3, st4) := NameFallbacks(w, st3, title, titles);
      (Resolved(level3, cand2), st4)
  }

  /** The Crossref search `ensureByQuery` starts with. */
  function BibliographicRequest(s: Settings, title: string, compl: string): CrossrefRequest {
    Bibliographic(title + " " + compl, RowsParam(s.maxRows))
  }

  /**
   * `ensureByQuery(node, title, compl, …, settings)`, with `compl` already
   * `compl || ""`: nothing unless enabled and given a title; an answer that
   * does not parse ends it; otherwise the first pass and the cascade.
   */
  function EnsureByQuery(w: Services, st: State, s: Settings, title: string, compl: string): (Outcome, State) {
    if !s.enabled || title == "" then (NotRun, st)
    else
      var req := BibliographicRequest(s, title, compl);
      var st1 := SentCrossref(st, req);
      match w.crossref(req)
      case Unparsable => (NotRun, st1)
      case Parsed(m) =>
        var items := if m.Items? then m.items else [];
        var (cand, seen) := FirstCandidates(s.engine, s.customHints, title, compl, items);
        RunCascade(w, st1, title, Titles(items), cand, seen)
  }

  /** Disabled, or without a title, `ensureByQuery` does nothing at all. */
  lemma EnsureByQueryInactive(w: Services, st: State, s: Settings, title: string, compl: string)
    requires !s.enabled || title == ""
    ensures EnsureByQuery(w, st, s, title, compl) == (NotRun, st)
  {
  }

  /**
   * Otherwise its first request is the bibliographic search for the title
   * followed by a space and `compl`, with the configured row count.
   */
  lemma EnsureByQueryStartsWithSearch(w: Services, st: State, s: Settings, title: string, compl: string)
    requires s.enabled && title != ""
    ensures var st' := EnsureByQuery(w, st, s, title, compl).1;
      |st'.trace| > |st.trace| && st.trace <= st'.trace
      && st'.trace[|st.trace|] == ToCrossref(Bibliographic(title + " " + compl, RowsParam(s.maxRows)))
  {
    var req := BibliographicRequest(s, title, compl);
    var st1 := SentCrossref(st, req);
    if w.crossref(req).Parsed? {
      var m := w.crossref(req).message;
      var items := if m.Items? then m.items else [];
      var (cand, seen) := FirstCandidates(s.engine, s.customHints, title, compl, items);
      CascadeExtendsTrace(w, st1, title, Titles(items), cand, seen);
    }
  }

  /** The cascade only ever appends requests. */
  lemma CascadeExtendsTrace(w: Services, st: State, title: string, titles: seq<string>, cand: seq<string>, seen: set<string>)
    ensures st.trace <= RunCascade(w, st, title, titles, cand, seen).1.trace
  {
    HarvestFacts(w, st, titles, seen);
    var (cand1, seen1, st1) := FirstHarvest(w, st, titles, cand, seen);
    assert st.trace <= st1.trace;
    ProbeExtendsTrace(w, st1, cand1);
    var (level1, st2) := ProbeIssns(w, st1, cand1);
    var (level2, cand2, st3) := if level1.Some? then (level1, cand1, st2) else Retry(w, st2, titles, cand1, seen1);
    if level1.None? {
      RetryExtendsTrace(w, st2, titles, cand1, seen1);
    }
    assert st.trace <= st3.trace;
    if level2.None? {
      NameFallbacksExtendTrace(w, st3, title, titles);
    }
  }

  lemma RetryExtendsTrace(w: Services, st: State, titles: seq<string>, cand: seq<string>, seen: set<string>)
    ensures st.trace <= Retry(w, st, titles, cand, seen).2.trace
  {
    HarvestFacts(w, st, titles, seen);
    var (found, _, st1) := Harvest(w, st, titles, seen);
    ProbeExtendsTrace(w, st1, NotIn(cand + found, cand));
  }

  lemma NameFallbacksExtendTrace(w: Services, st: State, title: string, titles: seq<string>)
    ensures st.trace <= NameFallbacks(w, st, title, titles).1.trace
  {
    TitleFallbackExtendsTrace(w, st, title);
    var (level, st1) := TitleFallback(w, st, title);
    if level.None? {
      ProbeVenuesFacts(w, st1, titles);
    }
  }

  lemma TitleFallbackExtendsTrace(w: Services, st: State, title: string)
    ensures st.trace <= TitleFallback(w, st, title).1.trace
  {
    var t := CleanTitle(title);
    if t != "" {
      FetchByNameRequests(w, st, t);
    }
  }

  lemma {:induction false} ProbeExtendsTrace(w: Services, st: State, issns: seq<string>)
    ensures st.trace <= ProbeIssns(w, st, issns).1.trace
    decreases |issns|
  {
    if issns != [] {
      FetchByIssnEffect(w, st, issns[0]);
      var (l, s1) := FetchByIssn(w, st, issns[0]);
      if l.None? {
        ProbeExtendsTrace(w, s1, issns[1..]);
      }
    }
  }

  /** A level found by the first ISSN probes is the answer: no harvest retry and no name lookup follows. */
  lemma DirectHitEndsCascade(w: Services, st: State, title: string, titles: seq<string>, cand: seq<string>, seen: set<string>)
    requires cand != [] && ProbeIssns(w, st, cand).0.Some?
    ensures RunCascade(w, st, title, titles, cand, seen) == (Resolved(ProbeIssns(w, st, cand).0, cand), ProbeIssns(w, st, cand).1)
  {
  }

  /**
   * More generally, a level found by the first probe, whether or not a
   * harvest ran first, ends the cascade there (lines 256-260).
   */
  lemma ProbeHitEndsCascade(w: Services, st: State, title: string, titles: seq<string>, cand: seq<string>, seen: set<string>)
    ensures var (cand1, _, st1) := FirstHarvest(w, st, titles, cand, seen);
      var (level1, st2) := ProbeIssns(w, st1, cand1);
      level1.Some? ==> RunCascade(w, st, title, titles, cand, seen) == (Resolved(level1, cand1), st2)
  {
  }

  /** A level found by the retry's probe ends the cascade: no name lookup follows (lines 268-274). */
  lemma RetryHitEndsCascade(w: Services, st: State, title: string, titles: seq<string>, cand: seq<string>, seen: set<string>)
    ensures var (cand1, seen1, st1) := FirstHarvest(w, st, titles, cand, seen);
      var (level1, st2) := ProbeIssns(w, st1, cand1);
      var (level2, cand2, st3) := Retry(w, st2, titles, cand1, seen1);
      level1.None? && level2.Some? ==> RunCascade(w, st, title, titles, cand, seen) == (Resolved(level2, cand2), st3)
  {
  }

  /** A level found for the cleaned title ends the name fallbacks: no container title is looked up (lines 280-284). */
  lemma TitleHitSkipsVenues(w: Services, st: State, title: string, titles: seq<string>)
    ensures TitleFallback(w, st, title).0.Some? ==> NameFallbacks(w, st, title, titles) == TitleFallback(w, st, title)
  {
  }

  /** No request in `reqs` is a search by name. */
  ghost predicate NoNameSearch(reqs: seq<Request>) {
    forall i :: 0 <= i < |reqs| ==> !(reqs[i].ToJufo? && reqs[i].jufo.NameSearch?)
  }

  lemma NoNameSearchJoin(a: seq<Request>, b: seq<Request>, c: seq<Request>)
    requires a <= b <= c && NoNameSearch(b[|a|..]) && NoNameSearch(c[|b|..])
    ensures NoNameSearch(c[|a|..])
  {
    forall i | 0 <= i < |c| - |a| ensures !(c[|a|..][i].ToJufo? && c[|a|..][i].jufo.NameSearch?) {
      if |a| + i < |b| {
        assert c[|a|..][i] == b[|a|..][i];
      } else {
        assert c[|a|..][i] == c[|b|..][|a| + i - |b|];
      }
    }
  }

  /** The ISSN probes send ISSN searches and detail fetches only. */
  lemma {:induction false} ProbeSendsNoNameSearch(w: Services, st: State, issns: seq<string>)
    ensures var st' := ProbeIssns(w, st, issns).1;
      st.trace <= st'.trace && NoNameSearch(st'.trace[|st.trace|..])
    decreases |issns|
  {
    if issns != [] {
      FetchByIssnEffect(w, st, issns[0]);
      var (l, s1) := FetchByIssn(w, st, issns[0]);
      if l.None? {
        ProbeSendsNoNameSearch(w, s1, issns[1..]);
        NoNameSearchJoin(st.trace, s1.trace, ProbeIssns(w, s1, issns[1..]).1.trace);
      }
    }
  }

  /** A harvest sends Crossref container-title queries only. */
  lemma HarvestSendsNoNameSearch(w: Services, st: State, titles: seq<string>, seen: set<string>)
    ensures var st' := Harvest(w, st, titles, seen).2;
      st.trace <= st'.trace && NoNameSearch(st'.trace[|st.trace|..])
  {
    HarvestFacts(w, st, titles, seen);
    var st' := Harvest(w, st, titles, seen).2;
    forall i | 0 <= i < |st'.trace| - |st.trace| ensures !(st'.trace[|st.trace|..][i].ToJufo? && st'.trace[|st.trace|..][i].jufo.NameSearch?) {
      assert st'.trace[|st.trace|..][i] == st'.trace[|st.trace| + i];
    }
  }

  /** The retry, a harvest and then a probe, sends no name search. */
  lemma RetrySendsNoNameSearch(w: Services, st: State, titles: seq<string>, cand: seq<string>, seen: set<string>)
    ensures var st' := Retry(w, st, titles, cand, seen).2;
      st.trace <= st'.trace && NoNameSearch(st'.trace[|st.trace|..])
  {
    HarvestSendsNoNameSearch(w, st, titles, seen);
    var (found, _, st1) := Harvest(w, st, titles, seen);
    var added := NotIn(cand + found, cand);
    ProbeSendsNoNameSearch(w, st1, added);
    NoNameSearchJoin(st.trace, st1.trace, ProbeIssns(w, st1, added).1.trace);
  }

  /**
   * Name lookups run only when every ISSN probe returned null: when the first
   * probe or the retry's probe finds a level, the cascade sends no search by
   * name at all (lines 256-276).
   */
  lemma NameSearchOnlyAfterIssnsFail(w: Services, st: State, title: string, titles: seq<string>, cand: seq<string>, seen: set<string>)
    ensures var (cand1, seen1, st1) := FirstHarvest(w, st, titles, cand, seen);
      var (level1, st2) := ProbeIssns(w, st1, cand1);
      var st' := RunCascade(w, st, title, titles, cand, seen).1;
      (level1.Some? || Retry(w, st2, titles, cand1, seen1).0.Some?) ==>
        st.trace <= st'.trace && NoNameSearch(st'.trace[|st.trace|..])
  {
    var (cand1, seen1, st1) := FirstHarvest(w, st, titles, cand, seen);
    var (level1, st2) := ProbeIssns(w, st1, cand1);
    if cand == [] {
      HarvestSendsNoNameSearch(w, st, titles, seen);
    } else {
      assert NoNameSearch(st1.trace[|st.trace|..]);
    }
    ProbeSendsNoNameSearch(w, st1, cand1);
    NoNameSearchJoin(st.trace, st1.trace, st2.trace);
    if level1.None? {
      RetrySendsNoNameSearch(w, st2, titles, cand1, seen1);
      NoNameSearchJoin(st.trace, st2.trace, Retry(w, st2, titles, cand1, seen1).2.trace);
    }
  }

  /** Candidates whose keys are non-empty, pairwise distinct and all in `seen`. */
  ghost predicate DistinctSeen(cand: seq<string>, seen: set<string>) {
    && (forall i :: 0 <= i < |cand| ==> Key(cand[i]) != "" && Key(cand[i]) in seen)
    && (forall i, j :: 0 <= i < j < |cand| ==> Key(cand[i]) != Key(cand[j]))
  }

  /** A harvest keeps the candidates distinct by key and their keys seen, and only appends. */
  lemma HarvestKeepsDistinct(w: Services, st: State, titles: seq<string>, cand: seq<string>, seen: set<string>)
    requires DistinctSeen(cand, seen)
    ensures var (found, seen', _) := Harvest(w, st, titles, seen);
      DistinctSeen(cand + found, seen')
  {
    HarvestFacts(w, st, titles, seen);
    var (found, seen', _) := Harvest(w, st, titles, seen);
    AppendDistinct(cand, found, seen);
    forall i | 0 <= i < |cand + found| ensures Key((cand + found)[i]) in seen' {
      if i >= |cand| {
        assert (cand + found)[i] == found[i - |cand|];
        assert Key(found[i - |cand|]) in Keys(found, Key);
      }
    }
  }

  lemma FirstHarvestKeepsDistinct(w: Services, st: State, titles: seq<string>, cand: seq<string>, seen: set<string>)
    requires DistinctSeen(cand, seen)
    ensures var (cand1, seen1, _) := FirstHarvest(w, st, titles, cand, seen);
      DistinctSeen(cand1, seen1) && |cand| <= |cand1| && cand1[..|cand|] == cand
  {
    HarvestKeepsDistinct(w, st, titles, cand, seen);
  }

  lemma RetryKeepsDistinct(w: Services, st: State, titles: seq<string>, cand: seq<string>, seen: set<string>)
    requires DistinctSeen(cand, seen)
    ensures var c := Retry(w, st, titles, cand, seen).1;
      && (forall i :: 0 <= i < |c| ==> Key(c[i]) != "")
      && (forall i, j :: 0 <= i < j < |c| ==> Key(c[i]) != Key(c[j]))
      && |cand| <= |c| && c[..|cand|] == cand
  {
    HarvestKeepsDistinct(w, st, titles, cand, seen);
    var found := Harvest(w, st, titles, seen).0;
    assert Retry(w, st, titles, cand, seen).1 == cand + found;
    assert (cand + found)[..|cand|] == cand;
  }

  /**
   * With candidates whose keys are distinct and all seen, the cascade records
   * a candidate list with pairwise distinct non-empty keys that starts with
   * the candidates it was given.
   */
  lemma CascadeCandidatesDistinct(w: Services, st: State, title: string, titles: seq<string>, cand: seq<string>, seen: set<string>)
    requires DistinctSeen(cand, seen)
    ensures var out := RunCascade(w, st, title, titles, cand, seen).0;
      && out.Resolved?
      && |cand| <= |out.candidates| && out.candidates[..|cand|] == cand
      && (forall i :: 0 <= i < |out.candidates| ==> Key(out.candidates[i]) != "")
      && (forall i, j :: 0 <= i < j < |out.candidates| ==> Key(out.candidates[i]) != Key(out.candidates[j]))
  {
    FirstHarvestKeepsDistinct(w, st, titles, cand, seen);
    var (cand1, seen1, st1) := FirstHarvest(w, st, titles, cand, seen);
    var (level1, st2) := ProbeIssns(w, st1, cand1);
    var cand2 := if level1.Some? then cand1 else Retry(w, st2, titles, cand1, seen1).1;
    assert RunCascade(w, st, title, titles, cand, seen).0.candidates == cand2;
    if level1.None? {
      RetryKeepsDistinct(w, st2, titles, cand1, seen1);
      assert cand2[..|cand1|][..|cand|] == cand2[..|cand|];
    }
  }

  lemma AppendDistinct(a: seq<string>, b: seq<string>, seen: set<string>)
    requires forall i :: 0 <= i < |a| ==> Key(a[i]) != "" && Key(a[i]) in seen
    requires forall i, j :: 0 <= i < j < |a| ==> Key(a[i]) != Key(a[j])
    requires forall i :: 0 <= i < |b| ==> Key(b[i]) != "" && Key(b[i]) !in seen
    requires forall i, j :: 0 <= i < j < |b| ==> Key(b[i]) != Key(b[j])
    ensures forall i :: 0 <= i < |a + b| ==> Key((a + b)[i]) != ""
    ensures forall i, j :: 0 <= i < j < |a + b| ==> Key((a + b)[i]) != Key((a + b)[j])
  {
    var c := a + b;
    forall i, j | 0 <= i < j < |c| ensures Key(c[i]) != Key(c[j]) {
      if j >= |a| && i < |a| {
        assert c[j] == b[j - |a|];
      } else if i >= |a| {
        assert c[i] == b[i - |a|] && c[j] == b[j - |a|];
      }
    }
  }

  /**
   * The first-pass candidates meet the cascade's requirement, so the list
   * `ensureByQuery` records on the badge never holds two ISSNs with the same key.
   */
  lemma EnsureByQueryCandidatesDistinct(w: Services, st: State, s: Settings, title: string, compl: string)
    ensures var out := EnsureByQuery(w, st, s, title, compl).0;
      out.Resolved? ==>
        && (forall i :: 0 <= i < |out.candidates| ==> Key(out.candidates[i]) != "")
        && (forall i, j :: 0 <= i < j < |out.candidates| ==> Key(out.candidates[i]) != Key(out.candidates[j]))
  {
    if s.enabled && title != "" {
      var req := BibliographicRequest(s, title, compl);
      if w.crossref(req).Parsed? {
        var m := w.crossref(req).message;
        var items := if m.Items? then m.items else [];
        var texts := HintTexts(title, compl, Titles(items));
        CandidateDedupFacts(AllIssns(items), HintIssns(s.engine, HintList(s.customHints), texts));
        var (cand, seen) := FirstCandidates(s.engine, s.customHints, title, compl, items);
        forall i | 0 <= i < |cand| ensures Key(cand[i]) in seen {
          assert Key(cand[i]) in Keys(cand, Key);
        }
        assert DistinctSeen(cand, seen);
        CascadeCandidatesDistinct(w, SentCrossref(st, req), title, Titles(items), cand, seen);
      }
    }
  }

  /** The badge: its text, its `JUFO_…` class and its tooltip. */
  datatype Badge = Badge(text: string, cssClass: string, tooltip: string)

  /** `getJufoBadge(level)`: the level itself, or `NA` when there is none. */
  function BadgeFor(level: Option<string>): (b: Badge)
    ensures level.Some? && level.value != "" ==> b.text == level.value
    ensures level.None? || level.value == "" ==> b.text == "NA"
    ensures b.cssClass == "JUFO_" + Lower(b.text) && b.tooltip == "JUFO: " + b.text
  {
    if level.None? || level.value == "" then
      assert Lower("NA") == "na" by { assert "NA"[1..] == "A"; assert "A"[1..] == []; }
      Badge("NA", "JUFO_na", "JUFO: NA")
    else Badge(level.value, "JUFO_" + Lower(level.value), "JUFO: " + level.value)
  }

  /** The ISSN candidates of `getRankSpan`: ISSN1 then ISSN2, each when non-empty. */
  function RankCandidates(issn1: string, issn2: string): (c: seq<string>)
    ensures |c| == (if issn1 != "" then 1 else 0) + (if issn2 != "" then 1 else 0)
    ensures forall i :: 0 <= i < |c| ==> c[i] != ""
    ensures issn1 != "" ==> c[0] == issn1
    ensures issn2 != "" ==> c[|c| - 1] == issn2
  {
    (if issn1 != "" then [issn1] else []) + (if issn2 != "" then [issn2] else [])
  }

  /** Each candidate cleaned with `[^0-9Xx-]` removed, as looked up. */
  function CleanedIssns(raw: seq<string>): (r: seq<string>)
    ensures |r| == |raw| && forall i :: 0 <= i < |r| ==> r[i] == KeepIssnAndHyphen(raw[i])
  {
    if raw == [] then [] else [KeepIssnAndHyphen(raw[0])] + CleanedIssns(raw[1..])
  }

  /**
   * `getRankSpan` with the element's text (`None` when there is no element
   * id): no badge when disabled; the NA placeholder and nothing else when
   * there is no ISSN; otherwise the ISSN probes, then a name lookup on the
   * trimmed element text, and the badge for whatever was found.
   */
  function RankSpan(w: Services, st: State, s: Settings, issn1: string, issn2: string, element: Option<string>): (Option<Badge>, State) {
    if !s.enabled then (None, st)
    else
      var cands := RankCandidates(issn1, issn2);
      if cands == [] then (Some(BadgeFor(None)), st)
      else
        var (level, st1) := ProbeIssns(w, st, CleanedIssns(cands));
        var (level2, st2) :=
          if level.None? && element.Some? && Trim(element.value) != "" then FetchByName(w, st1, Trim(element.value))
          else (level, st1);
        (Some(BadgeFor(level2)), st2)
  }

  /** A level for ISSN1 decides the badge: ISSN2 and the element text are never looked up. */
  lemma RankSpanFirstIssnWins(w: Services, st: State, s: Settings, issn1: string, issn2: string, element: Option<string>)
    requires s.enabled && issn1 != ""
    requires FetchByIssn(w, st, KeepIssnAndHyphen(issn1)).0.Some?
    ensures RankSpan(w, st, s, issn1, issn2, element)
      == (Some(BadgeFor(FetchByIssn(w, st, KeepIssnAndHyphen(issn1)).0)), FetchByIssn(w, st, KeepIssnAndHyphen(issn1)).1)
  {
    var cands := RankCandidates(issn1, issn2);
    assert CleanedIssns(cands)[0] == KeepIssnAndHyphen(issn1);
  }

  /** Without ISSNs, `getRankSpan` shows the NA placeholder and sends nothing, element text or not. */
  lemma RankSpanWithoutIssns(w: Services, st: State, s: Settings, element: Option<string>)
    requires s.enabled
    ensures RankSpan(w, st, s, "", "", element) == (Some(Badge("NA", "JUFO_na", "JUFO: NA")), st)
  {
    assert BadgeFor(None).text == "NA";
  }

  /** The name fallback runs only after every ISSN failed, and only on non-blank element text. */
  lemma RankSpanNameFallback(w: Services, st: State, s: Settings, issn1: string, issn2: string, element: Option<string>)
    requires s.enabled && RankCandidates(issn1, issn2) != []
    ensures var (level, st1) := ProbeIssns(w, st, CleanedIssns(RankCandidates(issn1, issn2)));
      RankSpan(w, st, s, issn1, issn2, element).1
        == if level.None? && element.Some? && !Blank(element.value) then FetchByName(w, st1, Trim(element.value)).1 else st1
  {
    if element.Some? {
      TrimFacts(element.value);
    }
  }
}
