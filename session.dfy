/**
 * The page-wide lookup state of js/jufo.js and the operations that use it,
 * written as the loops they are. A `Session` holds the two caches
 * (`window.__jufoCache` and `window.__jufoNameCache`) and the services; every
 * method computes what the functions of `Lookup` and `Cascade` say, from the
 * state it starts in to the state it leaves.
 */
module Sessions {
  import opened JsText
  import opened Issn
  import opened Records
  import opened Levels
  import opened Ordering
  import opened Network
  import opened Hints
  import opened Dedup
  import opened Candidates
  import Lookup
  import Cascade

  class Session {
    const world: Services
    var issnCache: map<string, Option<string>>
    var nameCache: map<string, Option<string>>
    ghost var trace: seq<Request>

    /** The caches and the requests sent so far, as a value. */
    ghost function Snapshot(): State
      reads this
    {
      State(issnCache, nameCache, trace)
    }

    /** A page starts with empty caches and nothing sent. */
    constructor (world: Services)
      ensures this.world == world && Snapshot() == State(map[], map[], [])
    {
      this.world := world;
      issnCache := map[];
      nameCache := map[];
      trace := [];
    }

    /** `getJSON` against the JUFO API: the parsed answer, or the null payload. */
    method GetJufo(req: JufoRequest) returns (p: Payload)
      modifies this
      ensures p == world.jufo(req) && Snapshot() == SentJufo(old(Snapshot()), req)
    {
      p := world.jufo(req);
      trace := trace + [ToJufo(req)];
    }

    /** One Crossref request: the parsed `message`, or a body that did not parse. */
    method GetCrossref(req: CrossrefRequest) returns (r: Response)
      modifies this
      ensures r == world.crossref(req) && Snapshot() == SentCrossref(old(Snapshot()), req)
    {
      r := world.crossref(req);
      trace := trace + [ToCrossref(req)];
    }

    /** Lines 58-64: fetch the detail record of each linked row until one has a level. */
    method ScanItems(ordered: seq<Row>) returns (level: Option<string>)
      modifies this
      ensures (level, Snapshot()) == Lookup.ScanItems(world, ordered, old(Snapshot()))
    {
      var i := 0;
      while i < |ordered|
        invariant 0 <= i <= |ordered|
        invariant Lookup.ScanItems(world, ordered, old(Snapshot())) == Lookup.ScanItems(world, ordered[i..], Snapshot())
      {
        assert ordered[i..][0] == ordered[i] && ordered[i..][1..] == ordered[i + 1..];
        var link := Lookup.DetailLink(ordered[i]);
        if link.Some? {
          var details := GetJufo(Detail(link.value));
          level := LevelFromKanava(details);
          if level.Some? {
            return;
          }
        }
        i := i + 1;
      }
      level := None;
    }

    /** `tryIssnQuery` (lines 45-66). */
    method TryIssnQuery(query: string) returns (level: Option<string>)
      modifies this
      ensures (level, Snapshot()) == Lookup.TryIssnQuery(world, query, old(Snapshot()))
    {
      var found := GetJufo(IssnSearch(query));
      var list := RowList(found);
      if list == [] {
        return None;
      }
      var ordered := PreferExact(list, query);
      level := ScanItems(ordered);
    }

    /** `fetchJufoByIssn` (lines 7-78). */
    method FetchByIssn(issn: string) returns (level: Option<string>)
      modifies this
      ensures (level, Snapshot()) == Lookup.FetchByIssn(world, old(Snapshot()), issn)
    {
      if issn in issnCache {
        return issnCache[issn];
      }
      if issn == "" {
        return None;
      }
      var digits := Strip(issn);
      var hyphenated := Hyphenated(issn);
      var out := TryIssnQuery(issn);
      if out.None? && hyphenated != issn {
        out := TryIssnQuery(hyphenated);
      }
      if out.None? && digits != "" && digits != issn && digits != hyphenated {
        out := TryIssnQuery(digits);
      }
      issnCache := issnCache[issn := out];
      level := out;
    }

    /** `fetchJufoByName` (lines 81-121); `extractLevel` sorts the payload's own array. */
    method FetchByName(name: string) returns (level: Option<string>)
      modifies this
      ensures (level, Snapshot()) == Lookup.FetchByName(world, old(Snapshot()), name)
    {
      if name == "" {
        return None;
      }
      var key := Lookup.NameCacheKey(name);
      if key in nameCache {
        return nameCache[key];
      }
      var data := GetJufo(NameSearch(name));
      level := LevelOfPayload(data, name);
      nameCache := nameCache[key := level];
    }

    /** Lines 99-113: the payload's row array, sorted in place by `extractLevel`, gives the level. */
    static method LevelOfPayload(data: Payload, name: string) returns (level: Option<string>)
      ensures level == NameLevel(RowList(data), name)
    {
      var rows := RowList(data);
      var arr := new Row[|rows|](i requires 0 <= i < |rows| => rows[i]);
      assert arr[..] == rows;
      level := ExtractLevel(arr, name);
    }

    /** The ISSN probe loop of lines 256-260 (and of the retry, lines 268-272). */
    method ProbeIssns(issns: seq<string>) returns (level: Option<string>)
      modifies this
      ensures (level, Snapshot()) == Lookup.ProbeIssns(world, old(Snapshot()), issns)
    {
      var i := 0;
      while i < |issns|
        invariant 0 <= i <= |issns|
        invariant Lookup.ProbeIssns(world, old(Snapshot()), issns) == Lookup.ProbeIssns(world, Snapshot(), issns[i..])
      {
        assert issns[i..][0] == issns[i] && issns[i..][1..] == issns[i + 1..];
        level := FetchByIssn(issns[i]);
        if level.Some? {
          return;
        }
        i := i + 1;
      }
      level := None;
    }

    /** The container-title name lookups of lines 284-290. */
    method ProbeVenues(titles: seq<string>) returns (level: Option<string>)
      modifies this
      ensures (level, Snapshot()) == Lookup.ProbeVenues(world, old(Snapshot()), titles)
    {
      var i := 0;
      while i < |titles|
        invariant 0 <= i <= |titles|
        invariant Lookup.ProbeVenues(world, old(Snapshot()), titles) == Lookup.ProbeVenues(world, Snapshot(), titles[i..])
      {
        assert titles[i..][0] == titles[i] && titles[i..][1..] == titles[i + 1..];
        var cleaned := Lookup.VenueName(titles[i]);
        level := FetchByName(cleaned);
        if level.Some? {
          return;
        }
        i := i + 1;
      }
      level := None;
    }

    /** The ISSNs of one container-title answer not yet seen, recorded in `seen` (lines 240-245). */
    static method CollectNew(items: seq<Item>, seen0: set<string>) returns (found: seq<string>, seen: set<string>)
      ensures (found, seen) == DedupFrom(AllIssns(items), Key, seen0)
    {
      found, seen := [], seen0;
      var k := 0;
      while k < |items|
        invariant 0 <= k <= |items|
        invariant (found, seen) == DedupFrom(AllIssns(items[..k]), Key, seen0)
      {
        assert items[..k + 1][..k] == items[..k];
        var issns := AsList(items[k].issn);
        DedupConcat(AllIssns(items[..k]), issns, Key, seen0);
        assert AllIssns(items[..k + 1]) == AllIssns(items[..k]) + issns;
        var more;
        more, seen := DedupInto(issns, seen);
        found := found + more;
        k := k + 1;
      }
      assert items[..k] == items;
    }

    /** `harvestFromContainerTitles` (lines 232-250), returning the ISSNs it would push and the new `seen` set. */
    method Harvest(titles: seq<string>, seen0: set<string>) returns (found: seq<string>, seen: set<string>)
      modifies this
      ensures (found, seen, Snapshot()) == Cascade.Harvest(world, old(Snapshot()), titles, seen0)
    {
      found, seen := [], seen0;
      var i := 0;
      while i < |titles|
        invariant 0 <= i <= |titles|
        invariant found == []
        invariant Cascade.Harvest(world, old(Snapshot()), titles, seen0) == Cascade.Harvest(world, Snapshot(), titles[i..], seen)
      {
        assert titles[i..][0] == titles[i] && titles[i..][1..] == titles[i + 1..];
        var ct := titles[i];
        if ct != "" {
          var r := GetCrossref(ContainerTitleQuery(ct));
          found, seen := CollectNew(Cascade.ResponseItems(r), seen);
          if found != [] {
            return;
          }
        }
        i := i + 1;
      }
    }

    /** Lines 230-291: the cascade after the first pass, over the first-pass candidates and their `seen` set. */
    method RunCascade(title: string, titles: seq<string>, cand0: seq<string>, seen0: set<string>) returns (out: Cascade.Outcome)
      modifies this
      ensures (out, Snapshot()) == Cascade.RunCascade(world, old(Snapshot()), title, titles, cand0, seen0)
    {
      var cand, seen := cand0, seen0;
      if cand == [] {
        var found;
        found, seen := Harvest(titles, seen);
        cand := cand + found;
      }
      ghost var afterFirst := Snapshot();
      assert (cand, seen, afterFirst) == Cascade.FirstHarvest(world, old(Snapshot()), titles, cand0, seen0);
      var level := ProbeIssns(cand);
      if level.None? {
        ghost var st2 := Snapshot();
        var beforeRetry := cand;
        var found;
        found, seen := Harvest(titles, seen);
        cand := cand + found;
        var added := Cascade.NotIn(cand, beforeRetry);
        if added != [] {
          level := ProbeIssns(added);
        }
        assert (level, cand, Snapshot()) == Cascade.Retry(world, st2, titles, beforeRetry, Cascade.FirstHarvest(world, old(Snapshot()), titles, cand0, seen0).1);
      }
      if level.None? {
        ghost var st3 := Snapshot();
        var titleClean := CleanTitle(title);
        if titleClean != "" {
          var nameLevel := FetchByName(titleClean);
          if nameLevel.Some? {
            level := nameLevel;
          }
        }
        assert (level, Snapshot()) == Cascade.TitleFallback(world, st3, title);
        if level.None? {
          level := ProbeVenues(titles);
        }
        assert (level, Snapshot()) == Cascade.NameFallbacks(world, st3, title, titles);
      }
      out := Cascade.Resolved(level, cand);
    }

    /** `ensureByQuery` (lines 176-311), with `compl` already `compl || ""`. */
    method EnsureByQuery(s: Cascade.Settings, title: string, compl: string) returns (out: Cascade.Outcome)
      modifies this
      ensures (out, Snapshot()) == Cascade.EnsureByQuery(world, old(Snapshot()), s, title, compl)
    {
      if !s.enabled || title == "" {
        return Cascade.NotRun;
      }
      var resp := GetCrossref(Cascade.BibliographicRequest(s, title, compl));
      if resp.Unparsable? {
        return Cascade.NotRun;
      }
      var items := if resp.message.Items? then resp.message.items else [];
      var cand, titles := CollectFirstPass(items);
      var hints := HintList(s.customHints);
      var texts := HintTexts(title, compl, titles);
      var pushed := ApplyHints(s.engine, hints, texts);
      var unique, seen := DedupInto(cand + pushed, {});
      assert (unique, seen) == FirstCandidates(s.engine, s.customHints, title, compl, items);
      out := RunCascade(title, titles, unique, seen);
    }

    /** `getRankSpan` (lines 133-174), given the element's text (`None` without an element id). */
    method RankSpan(s: Cascade.Settings, issn1: string, issn2: string, element: Option<string>) returns (badge: Option<Cascade.Badge>)
      modifies this
      ensures (badge, Snapshot()) == Cascade.RankSpan(world, old(Snapshot()), s, issn1, issn2, element)
    {
      if !s.enabled {
        return None;
      }
      var candidates := [];
      if issn1 != "" {
        candidates := candidates + [issn1];
      }
      if issn2 != "" {
        candidates := candidates + [issn2];
      }
      if candidates == [] {
        return Some(Cascade.BadgeFor(None));
      }
      assert candidates == Cascade.RankCandidates(issn1, issn2);
      var level := ProbeCleaned(candidates);
      if level.None? && element.Some? {
        var t := Trim(element.value);
        if t != "" {
          level := FetchByName(t);
        }
      }
      badge := Some(Cascade.BadgeFor(level));
    }

    /** Lines 151-158: each candidate, filtered by `[^0-9Xx-]`, is looked up by ISSN until one gives a level. */
    method ProbeCleaned(candidates: seq<string>) returns (level: Option<string>)
      modifies this
      ensures (level, Snapshot()) == Lookup.ProbeIssns(world, old(Snapshot()), Cascade.CleanedIssns(candidates))
    {
      ghost var cleaned := Cascade.CleanedIssns(candidates);
      level := None;
      var i := 0;
      while i < |candidates|
        invariant 0 <= i <= |candidates|
        invariant Lookup.ProbeIssns(world, old(Snapshot()), cleaned) == Lookup.ProbeIssns(world, Snapshot(), cleaned[i..])
        invariant level.None?
      {
        assert cleaned[i..][0] == KeepIssnAndHyphen(candidates[i]) && cleaned[i..][1..] == cleaned[i + 1..];
        var normalized := KeepIssnAndHyphen(candidates[i]);
        level := FetchByIssn(normalized);
        if level.Some? {
          return;
        }
        i := i + 1;
      }
    }
  }
}
