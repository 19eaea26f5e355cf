/**
 * The JUFO lookups of js/jufo.js as functions of the services and the cache
 * state: `fetchJufoByIssn` (lines 7-78) with its query variants, exact-match
 * ordering, detail-record scan and negative caching; `fetchJufoByName`
 * (lines 81-121); and the first-success probe loops built on them.
 */
module Lookup {
  import opened JsText
  import opened Issn
  import opened Records
  import opened Levels
  import opened Ordering
  import opened Network

  const KanavaUrl: string := "https://jufo-rest.csc.fi/v1.1/kanava/"

  /** `item.Link || item.link || (item.Jufo_ID ? <kanava URL of the id> : null)` */
  function DetailLink(row: Row): (r: Option<string>)
    ensures Truthy(row, "Link") ==> r == Some(row["Link"].s)
    ensures !Truthy(row, "Link") && Truthy(row, "link") ==> r == Some(row["link"].s)
    ensures !Truthy(row, "Link") && !Truthy(row, "link") && Truthy(row, "Jufo_ID") ==> r == Some(KanavaUrl + row["Jufo_ID"].s)
    ensures r.None? <==> !Truthy(row, "Link") && !Truthy(row, "link") && !Truthy(row, "Jufo_ID")
  {
    var link := TruthyText(row, ["Link", "link"]);
    assert Truthy(row, "Link") ==> link == row["Link"].s by {
      if Truthy(row, "Link") { TruthyTextIsFirstTruthy(row, ["Link", "link"], 0); }
    }
    assert !Truthy(row, "Link") && Truthy(row, "link") ==> link == row["link"].s by {
      if !Truthy(row, "Link") && Truthy(row, "link") { TruthyTextIsFirstTruthy(row, ["Link", "link"], 1); }
    }
    if link != "" then Some(link)
    else if Truthy(row, "Jufo_ID") then Some(KanavaUrl + row["Jufo_ID"].s)
    else None
  }

  /** Every request is a search by ISSN or a detail-record fetch: the only requests an ISSN lookup sends. */
  ghost predicate IssnLookupRequests(reqs: seq<Request>) {
    forall i :: 0 <= i < |reqs| ==> reqs[i].ToJufo? && !reqs[i].jufo.NameSearch?
  }

  /** `after` extends `before` with requests an ISSN lookup may send, and the caches are as before. */
  ghost predicate IssnRequestsOnly(before: State, after: State) {
    && after.issnCache == before.issnCache && after.nameCache == before.nameCache
    && before.trace <= after.trace && IssnLookupRequests(after.trace[|before.trace|..])
  }

  lemma IssnRequestsOnlyTrans(a: State, b: State, c: State)
    requires IssnRequestsOnly(a, b) && IssnRequestsOnly(b, c)
    ensures IssnRequestsOnly(a, c)
  {
    assert c.trace[|a.trace|..] == b.trace[|a.trace|..] + c.trace[|b.trace|..];
  }

  /**
   * The loop of lines 58-64 over the ordered search results: rows without a
   * link are skipped, each linked detail record is fetched, and the first
   * level found ends the scan.
   */
  function ScanItems(w: Services, ordered: seq<Row>, st: State): (Option<string>, State) {
    if ordered == [] then (None, st)
    else
      match DetailLink(ordered[0])
      case None => ScanItems(w, ordered[1..], st)
      case Some(url) =>
        var st1 := SentJufo(st, Detail(url));
        var level := LevelFromKanava(w.jufo(Detail(url)));
        if level.Some? then (level, st1) else ScanItems(w, ordered[1..], st1)
  }

  /** The scan only fetches detail records, at most one per row, and touches no cache. */
  lemma {:induction false} ScanItemsRequests(w: Services, ordered: seq<Row>, st: State)
    ensures var st' := ScanItems(w, ordered, st).1;
      IssnRequestsOnly(st, st') && |st'.trace| - |st.trace| <= |ordered|
  {
    if ordered != [] {
      var link := DetailLink(ordered[0]);
      match link
      case None =>
        ScanItemsRequests(w, ordered[1..], st);
      case Some(url) =>
        var st1 := SentJufo(st, Detail(url));
        assert IssnRequestsOnly(st, st1) by {
          assert st1.trace[|st.trace|..] == [ToJufo(Detail(url))];
        }
        ScanItemsRequests(w, ordered[1..], st1);
        IssnRequestsOnlyTrans(st, st1, ScanItems(w, ordered[1..], st1).1);
    }
  }

  /** `level` is what the detail record of `row` gives, and `row` has a link. */
  ghost predicate DetailLevel(w: Services, row: Row, level: Option<string>) {
    DetailLink(row).Some? && level == LevelFromKanava(w.jufo(Detail(DetailLink(row).value)))
  }

  /** A level the scan returns is the level of the detail record of one of the linked rows. */
  lemma {:induction false} ScanItemsLevel(w: Services, ordered: seq<Row>, st: State)
    ensures var r := ScanItems(w, ordered, st).0;
      r.Some? ==> exists i :: 0 <= i < |ordered| && DetailLevel(w, ordered[i], r)
  {
    if ordered != [] {
      var link := DetailLink(ordered[0]);
      var st1 := if link.Some? then SentJufo(st, Detail(link.value)) else st;
      if link.None? || LevelFromKanava(w.jufo(Detail(link.value))).None? {
        ScanItemsLevel(w, ordered[1..], st1);
        var r := ScanItems(w, ordered[1..], st1).0;
        assert ScanItems(w, ordered, st).0 == r;
        if r.Some? {
          var i :| 0 <= i < |ordered[1..]| && DetailLevel(w, ordered[1..][i], r);
          assert ordered[i + 1] == ordered[1..][i];
        }
      } else {
        assert DetailLevel(w, ordered[0], ScanItems(w, ordered, st).0);
      }
    }
  }

  /** The level the detail record of `row` gives, or none when the row has no link. */
  function RowDetail(w: Services, row: Row): Option<string> {
    match DetailLink(row)
    case None => None
    case Some(url) => LevelFromKanava(w.jufo(Detail(url)))
  }

  /**
   * The level of the first row whose detail record has one, or null when no
   * row's has: what the scan is meant to answer.
   */
  function FirstDetail(w: Services, ordered: seq<Row>): (r: Option<string>)
    ensures r.None? <==> forall k :: 0 <= k < |ordered| ==> RowDetail(w, ordered[k]).None?
    ensures r.Some? ==>
      exists i :: 0 <= i < |ordered| && r == RowDetail(w, ordered[i])
        && forall k :: 0 <= k < i ==> RowDetail(w, ordered[k]).None?
  {
    var i := FirstWith(ordered, (row: Row) => RowDetail(w, row).Some?);
    if i < |ordered| then RowDetail(w, ordered[i]) else None
  }

  /** The scan answers exactly the level of the first row whose detail record has one, and null when there is none. */
  lemma {:induction false} ScanItemsFirst(w: Services, ordered: seq<Row>, st: State)
    ensures ScanItems(w, ordered, st).0 == FirstDetail(w, ordered)
  {
    if ordered != [] {
      var link := DetailLink(ordered[0]);
      var st1 := if link.Some? then SentJufo(st, Detail(link.value)) else st;
      var rest := ordered[1..];
      var p := (row: Row) => RowDetail(w, row).Some?;
      if RowDetail(w, ordered[0]).None? {
        ScanItemsFirst(w, rest, st1);
        assert ScanItems(w, ordered, st).0 == ScanItems(w, rest, st1).0;
        assert FirstWith(ordered, p) == 1 + FirstWith(rest, p);
        assert forall k :: 0 <= k < |rest| ==> rest[k] == ordered[k + 1];
      }
    }
  }

  /** The scan stops at the first level: rows after a successful prefix are never looked at. */
  lemma {:induction false} ScanItemsStopsEarly(w: Services, xs: seq<Row>, ys: seq<Row>, st: State)
    requires ScanItems(w, xs, st).0.Some?
    ensures ScanItems(w, xs + ys, st) == ScanItems(w, xs, st)
  {
    assert xs != [];
    assert (xs + ys)[0] == xs[0];
    assert (xs + ys)[1..] == xs[1..] + ys;
    match DetailLink(xs[0])
    case None => ScanItemsStopsEarly(w, xs[1..], ys, st);
    case Some(url) =>
      if LevelFromKanava(w.jufo(Detail(url))).None? {
        ScanItemsStopsEarly(w, xs[1..], ys, SentJufo(st, Detail(url)));
      }
  }

  /** `tryIssnQuery` (lines 45-66): search by ISSN, put exact matches first, scan their detail records. */
  function TryIssnQuery(w: Services, query: string, st: State): (Option<string>, State) {
    var st1 := SentJufo(st, IssnSearch(query));
    var list := RowList(w.jufo(IssnSearch(query)));
    if list == [] then (None, st1) else ScanItems(w, PreferExact(list, query), st1)
  }

  /** A query sends its search first and then only detail fetches, at most one per search result. */
  lemma TryIssnQueryFacts(w: Services, query: string, st: State)
    ensures var (r, st') := TryIssnQuery(w, query, st);
      && IssnRequestsOnly(st, st')
      && |st'.trace| > |st.trace| && st'.trace[|st.trace|] == ToJufo(IssnSearch(query))
      && |st'.trace| - |st.trace| <= 1 + |RowList(w.jufo(IssnSearch(query)))|
      && (RowList(w.jufo(IssnSearch(query))) == [] ==> r.None?)
  {
    var st1 := SentJufo(st, IssnSearch(query));
    assert st1.trace[|st.trace|..] == [ToJufo(IssnSearch(query))];
    var list := RowList(w.jufo(IssnSearch(query)));
    if list != [] {
      PreferExactPartition(list, query);
      assert |PreferExact(list, query)| == |list| by {
        assert |multiset(PreferExact(list, query))| == |multiset(list)|;
      }
      ScanItemsRequests(w, PreferExact(list, query), st1);
      var st' := ScanItems(w, PreferExact(list, query), st1).1;
      IssnRequestsOnlyTrans(st, st1, st');
    }
  }

  /** A per-query lookup: a query and a state to an outcome and a new state. */
  type Attempt = (string, State) -> (Option<string>, State)

  /** The per-query lookup of `fetchJufoByIssn`. */
  function QueryAttempt(w: Services): Attempt {
    (q: string, s: State) => TryIssnQuery(w, q, s)
  }

  /** Lines 71-73 as written: the raw value, then the hyphenated form, then the digits, each only while nothing was found. */
  function IssnAttempts(attempt: Attempt, issn: string, st: State): (Option<string>, State) {
    var digits := Strip(issn);
    var hyphenated := Hyphenated(issn);
    var (out1, st1) := attempt(issn, st);
    var (out2, st2) := if out1.None? && hyphenated != issn then attempt(hyphenated, st1) else (out1, st1);
    if out2.None? && digits != "" && digits != issn && digits != hyphenated then attempt(digits, st2)
    else (out2, st2)
  }

  /** Try the queries in order and stop at the first one that yields a level. */
  function TryQueries(attempt: Attempt, queries: seq<string>, st: State): (Option<string>, State)
    decreases |queries|
  {
    if queries == [] then (None, st)
    else
      var (out, st1) := attempt(queries[0], st);
      if out.Some? then (out, st1) else TryQueries(attempt, queries[1..], st1)
  }

  /** The three conditional attempts of lines 71-73 are exactly a first-success run over the query plan. */
  lemma IssnAttemptsFollowPlan(attempt: Attempt, issn: string, st: State)
    ensures IssnAttempts(attempt, issn, st) == TryQueries(attempt, QueryPlan(issn), st)
  {
    var plan := QueryPlan(issn);
    var hyphenated := Hyphenated(issn);
    var digits := Strip(issn);
    var third := digits != "" && digits != issn && digits != hyphenated;
    var (o1, s1) := attempt(issn, st);
    assert TryQueries(attempt, plan, st) == if o1.Some? then (o1, s1) else TryQueries(attempt, plan[1..], s1);
    if hyphenated != issn {
      var (o2, s2) := attempt(hyphenated, s1);
      assert plan[1..][0] == hyphenated;
      assert TryQueries(attempt, plan[1..], s1) == if o2.Some? then (o2, s2) else TryQueries(attempt, plan[2..], s2) by {
        assert plan[1..][1..] == plan[2..];
      }
      if third {
        assert plan[2..] == [digits];
        LastQuery(attempt, digits, s2);
      } else {
        assert plan[2..] == [];
      }
    } else if third {
      assert plan[1..] == [digits];
      LastQuery(attempt, digits, s1);
    } else {
      assert plan[1..] == [];
    }
  }

  lemma LastQuery(attempt: Attempt, q: string, st: State)
    ensures TryQueries(attempt, [q], st) == attempt(q, st)
  {
    assert [q][1..] == [];
  }

  /** A first-success run over `xs + ys` is the run over `xs`, followed, only if it found nothing, by the run over `ys`. */
  lemma {:induction false} TryQueriesAppend(attempt: Attempt, xs: seq<string>, ys: seq<string>, st: State)
    ensures var (out, st1) := TryQueries(attempt, xs, st);
      TryQueries(attempt, xs + ys, st) == if out.Some? then (out, st1) else TryQueries(attempt, ys, st1)
    decreases |xs|
  {
    if xs == [] {
      assert xs + ys == ys;
    } else {
      assert (xs + ys)[0] == xs[0];
      assert (xs + ys)[1..] == xs[1..] + ys;
      var (o, s1) := attempt(xs[0], st);
      if o.None? {
        TryQueriesAppend(attempt, xs[1..], ys, s1);
      }
    }
  }

  /** Running queries sends only ISSN searches and detail fetches, and leaves both caches alone. */
  lemma {:induction false} TryQueriesFacts(w: Services, queries: seq<string>, st: State)
    ensures IssnRequestsOnly(st, TryQueries(QueryAttempt(w), queries, st).1)
    decreases |queries|
  {
    if queries != [] {
      TryIssnQueryFacts(w, queries[0], st);
      var (out, st1) := TryIssnQuery(w, queries[0], st);
      if out.None? {
        TryQueriesFacts(w, queries[1..], st1);
        IssnRequestsOnlyTrans(st, st1, TryQueries(QueryAttempt(w), queries[1..], st1).1);
      }
    }
  }

  /**
   * `fetchJufoByIssn`: the cache is consulted first, under the raw value; an
   * empty value gives null; otherwise the attempts run and their outcome,
   * null included, is stored under the raw value.
   */
  function FetchByIssn(w: Services, st: State, issn: string): (Option<string>, State) {
    if issn in st.issnCache then (st.issnCache[issn], st)
    else if issn == "" then (None, st)
    else
      var (out, st1) := IssnAttempts(QueryAttempt(w), issn, st);
      (out, st1.(issnCache := st1.issnCache[issn := out]))
  }

  /** A cached value, null included, is returned as it is, without any request. */
  lemma FetchByIssnCacheHit(w: Services, st: State, issn: string)
    requires issn in st.issnCache
    ensures FetchByIssn(w, st, issn) == (st.issnCache[issn], st)
  {
  }

  /**
   * After an ISSN lookup the ISSN cache holds its outcome under the raw value
   * (unless the value was empty, which changes nothing), the name cache is
   * untouched, and the only requests sent are ISSN searches and detail fetches,
   * with at most three searches, over the query plan in order.
   */
  lemma FetchByIssnEffect(w: Services, st: State, issn: string)
    ensures var (r, st') := FetchByIssn(w, st, issn);
      && st'.nameCache == st.nameCache
      && (issn == "" && issn !in st.issnCache ==> r.None? && st' == st)
      && (issn != "" || issn in st.issnCache ==> st'.issnCache == st.issnCache[issn := r])
      && st.trace <= st'.trace && IssnLookupRequests(st'.trace[|st.trace|..])
      && (issn !in st.issnCache && issn != "" ==>
            var (r0, st0) := TryQueries(QueryAttempt(w), QueryPlan(issn), st);
            r == r0 && st'.trace == st0.trace)
  {
    if issn !in st.issnCache && issn != "" {
      IssnAttemptsFollowPlan(QueryAttempt(w), issn, st);
      TryQueriesFacts(w, QueryPlan(issn), st);
    }
  }

  /** Asking for the same ISSN again gives the same answer and sends nothing. */
  lemma FetchByIssnIdempotent(w: Services, st: State, issn: string)
    ensures var (r, st') := FetchByIssn(w, st, issn);
      FetchByIssn(w, st', issn) == (r, st')
  {
    FetchByIssnEffect(w, st, issn);
  }

  /** An ISSN lookup only adds an entry: every entry already in the ISSN cache keeps its value. */
  lemma FetchByIssnKeepsEntries(w: Services, st: State, issn: string)
    ensures var st' := FetchByIssn(w, st, issn).1;
      forall k :: k in st.issnCache ==> k in st'.issnCache && st'.issnCache[k] == st.issnCache[k]
  {
    FetchByIssnEffect(w, st, issn);
  }

  /** The name cache key: `name.toLowerCase().trim()`. */
  function NameCacheKey(name: string): string {
    Trim(Lower(name))
  }

  /**
   * `fetchJufoByName`: an empty name gives null at once; a cached key
   * returns its value; otherwise one search by the name as given, whose
   * `extractLevel` result, null included, is stored under the key.
   */
  function FetchByName(w: Services, st: State, name: string): (Option<string>, State) {
    if name == "" then (None, st)
    else
      var key := NameCacheKey(name);
      if key in st.nameCache then (st.nameCache[key], st)
      else
        var req := NameSearch(name);
        var level := NameLevel(RowList(w.jufo(req)), name);
        (level, SentJufo(st, req).(nameCache := st.nameCache[key := level]))
  }

  /**
   * A name lookup never touches the ISSN cache; an empty name changes nothing;
   * otherwise the name cache holds the outcome under the lower-cased trimmed
   * name, and at most the one search by that name was sent.
   */
  lemma FetchByNameEffect(w: Services, st: State, name: string)
    ensures var (r, st') := FetchByName(w, st, name);
      && st'.issnCache == st.issnCache
      && (name == "" ==> r.None? && st' == st)
      && (name != "" ==> st'.nameCache == st.nameCache[NameCacheKey(name) := r])
      && (name != "" && NameCacheKey(name) in st.nameCache ==> r == st.nameCache[NameCacheKey(name)] && st' == st)
      && (name != "" && NameCacheKey(name) !in st.nameCache ==>
            st'.trace == st.trace + [ToJufo(NameSearch(name))] && r == NameLevel(RowList(w.jufo(NameSearch(name))), name))
  {
    if name != "" && NameCacheKey(name) !in st.nameCache {
      var req := NameSearch(name);
      var level := NameLevel(RowList(w.jufo(req)), name);
      assert FetchByName(w, st, name) == (level, SentJufo(st, req).(nameCache := st.nameCache[NameCacheKey(name) := level]));
    }
  }

  /** Names that differ only in letter case or surrounding blanks share one cache entry: the second makes no request. */
  lemma FetchByNameSharesKey(w: Services, st: State, a: string, b: string)
    requires a != "" && b != "" && NameCacheKey(a) == NameCacheKey(b)
    ensures var (r, st') := FetchByName(w, st, a);
      FetchByName(w, st', b) == (r, st')
  {
  }

  /** One step of the ISSN probe loop: the ISSN lookup of a candidate. */
  function ProbeAttempt(w: Services): Attempt {
    (issn: string, s: State) => FetchByIssn(w, s, issn)
  }

  /** The probe loop over ISSN candidates: the first non-null level ends it. */
  function ProbeIssns(w: Services, st: State, issns: seq<string>): (Option<string>, State) {
    TryQueries(ProbeAttempt(w), issns, st)
  }

  /** Probing `xs + ys` is probing `xs`, and probing `ys` only if that found nothing. */
  lemma {:induction false} ProbeIssnsAppend(w: Services, st: State, xs: seq<string>, ys: seq<string>)
    ensures var (level, st1) := ProbeIssns(w, st, xs);
      ProbeIssns(w, st, xs + ys) == if level.Some? then (level, st1) else ProbeIssns(w, st1, ys)
  {
    TryQueriesAppend(ProbeAttempt(w), xs, ys, st);
  }

  /**
   * A probe run that finds nothing leaves every probed non-empty ISSN in the
   * cache as null and keeps every earlier entry; probing the same list again
   * then finds nothing and sends nothing.
   */
  lemma {:induction false} ProbeIssnsNegativeCache(w: Services, st: State, issns: seq<string>)
    ensures var (level, st') := ProbeIssns(w, st, issns);
      && st'.nameCache == st.nameCache
      && (forall k :: k in st.issnCache ==> k in st'.issnCache && st'.issnCache[k] == st.issnCache[k])
      && ("" in st'.issnCache ==> "" in st.issnCache)
      && (level.None? ==> forall i :: 0 <= i < |issns| ==> CachedAsNull(st', issns[i]))
      && (level.None? ==> ProbeIssns(w, st', issns) == (None, st'))
    decreases |issns|
  {
    if issns != [] {
      var (l, s1) := FetchByIssn(w, st, issns[0]);
      FetchByIssnEffect(w, st, issns[0]);
      FetchByIssnKeepsEntries(w, st, issns[0]);
      if l.None? {
        ProbeIssnsNegativeCache(w, s1, issns[1..]);
        var (level, st') := ProbeIssns(w, s1, issns[1..]);
        if level.None? {
          forall i | 0 <= i < |issns| ensures CachedAsNull(st', issns[i]) {
            if i > 0 { assert issns[i] == issns[1..][i - 1]; }
          }
          RepeatedProbeFindsNothing(w, st', issns);
        }
      }
    }
  }

  /** An ISSN lookup of this value answers null without a request: it is cached as null, or it is empty and not cached. */
  ghost predicate CachedAsNull(st: State, issn: string) {
    if issn in st.issnCache then st.issnCache[issn].None? else issn == ""
  }

  /** When every ISSN of the list is cached as null or empty, a probe run finds nothing and sends nothing. */
  lemma {:induction false} RepeatedProbeFindsNothing(w: Services, st: State, issns: seq<string>)
    requires forall i :: 0 <= i < |issns| ==> CachedAsNull(st, issns[i])
    ensures ProbeIssns(w, st, issns) == (None, st)
    decreases |issns|
  {
    if issns != [] {
      RepeatedProbeFindsNothing(w, st, issns[1..]);
    }
  }

  /** `String(ct).replace(/\b\d{4}\b/g, '').trim()`: the name a container title is looked up under. */
  function VenueName(ct: string): string {
    Trim(StripYears(ct))
  }

  /** One step of the container-title loop: the name lookup of a year-stripped title. */
  function VenueAttempt(w: Services): Attempt {
    (ct: string, s: State) => FetchByName(w, s, VenueName(ct))
  }

  /** The loop of lines 284-290: a name lookup per container title, year-stripped, until one yields a level. */
  function ProbeVenues(w: Services, st: State, titles: seq<string>): (Option<string>, State) {
    TryQueries(VenueAttempt(w), titles, st)
  }

  /** Looking up `xs + ys` by name is looking up `xs`, and `ys` only if that found nothing. */
  lemma {:induction false} ProbeVenuesAppend(w: Services, st: State, xs: seq<string>, ys: seq<string>)
    ensures var (level, st1) := ProbeVenues(w, st, xs);
      ProbeVenues(w, st, xs + ys) == if level.Some? then (level, st1) else ProbeVenues(w, st1, ys)
  {
    TryQueriesAppend(VenueAttempt(w), xs, ys, st);
  }

  /** `after` extends `before` with name searches only, and the ISSN cache is as before. */
  ghost predicate NameRequestsOnly(before: State, after: State) {
    && after.issnCache == before.issnCache
    && before.trace <= after.trace
    && forall i :: |before.trace| <= i < |after.trace| ==> after.trace[i].ToJufo? && after.trace[i].jufo.NameSearch?
  }

  lemma NameRequestsOnlyTrans(a: State, b: State, c: State)
    requires NameRequestsOnly(a, b) && NameRequestsOnly(b, c)
    ensures NameRequestsOnly(a, c)
  {
  }

  /** A name lookup sends at most one request, a name search, and leaves the ISSN cache alone. */
  lemma FetchByNameRequests(w: Services, st: State, name: string)
    ensures var st' := FetchByName(w, st, name).1;
      NameRequestsOnly(st, st') && |st'.trace| <= |st.trace| + 1
  {
    FetchByNameEffect(w, st, name);
  }

  /** A first-success run of an attempt that sends at most one name search sends at most one per query. */
  lemma {:induction false} NameOnlyRun(attempt: Attempt, queries: seq<string>, st: State)
    requires forall q, s :: NameRequestsOnly(s, attempt(q, s).1) && |attempt(q, s).1.trace| <= |s.trace| + 1
    ensures var st' := TryQueries(attempt, queries, st).1;
      NameRequestsOnly(st, st') && |st'.trace| - |st.trace| <= |queries|
    decreases |queries|
  {
    if queries != [] {
      var (out, st1) := attempt(queries[0], st);
      if out.None? {
        NameOnlyRun(attempt, queries[1..], st1);
        NameRequestsOnlyTrans(st, st1, TryQueries(attempt, queries[1..], st1).1);
      }
    }
  }

  /** Container-title lookups never touch the ISSN cache and send at most one name search per title. */
  lemma ProbeVenuesFacts(w: Services, st: State, titles: seq<string>)
    ensures var st' := ProbeVenues(w, st, titles).1;
      NameRequestsOnly(st, st') && |st'.trace| - |st.trace| <= |titles|
  {
    forall q, s ensures NameRequestsOnly(s, VenueAttempt(w)(q, s).1) && |VenueAttempt(w)(q, s).1.trace| <= |s.trace| + 1 {
      FetchByNameRequests(w, s, VenueName(q));
    }
    NameOnlyRun(VenueAttempt(w), titles, st);
  }
}
