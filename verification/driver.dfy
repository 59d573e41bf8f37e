/** The incremental run of `main`: the URLs already present in the previous
    player data are not scraped again, the seasons from the first requested
    year up to the last (but no later than the current year) are scraped in
    ascending order, and the new rows are appended to the previous ones. */
module Driver {
  import opened Wrappers
  import opened Text
  import opened Season

  // ---------------------------------------------------------------------
  // The years of a run
  // ---------------------------------------------------------------------

  /** Python's `range(lo, hi)`. */
  function Range(lo: int, hi: int): (r: seq<int>)
    ensures |r| == if lo < hi then hi - lo else 0
    ensures forall i :: 0 <= i < |r| ==> r[i] == lo + i
    decreases hi - lo
  {
    if lo >= hi then [] else [lo] + Range(lo + 1, hi)
  }

  function Min(a: int, b: int): int {
    if a < b then a else b
  }

  /** The seasons `main` visits: `range(from_year, min(now + 1, to_year + 1))`. */
  function Years(fromYear: int, toYear: int, now: int): (r: seq<int>)
    ensures forall y :: y in r <==> fromYear <= y <= Min(toYear, now)
    ensures forall i, j :: 0 <= i < j < |r| ==> r[i] < r[j]
    ensures |r| > 0 ==> r[0] == fromYear
  {
    var r := Range(fromYear, Min(now + 1, toYear + 1));
    forall y | fromYear <= y <= Min(toYear, now)
      ensures y in r
    {
      assert r[y - fromYear] == y;
    }
    r
  }

  // ---------------------------------------------------------------------
  // Frames
  // ---------------------------------------------------------------------

  /** A player frame and a match frame, each a sequence of rows. */
  datatype Tables<PR, MR> = Tables(players: seq<PR>, matches: seq<MR>)

  function Append<PR(!new), MR(!new)>(a: Tables<PR, MR>, b: Tables<PR, MR>): Tables<PR, MR> {
    Tables(a.players + b.players, a.matches + b.matches)
  }

  /** `pd.concat(frames, ignore_index=True)` on both kinds of frame. */
  function Concat<PR(!new), MR(!new)>(frames: seq<Tables<PR, MR>>): (r: Tables<PR, MR>)
    ensures forall p :: p in r.players <==> exists k :: 0 <= k < |frames| && p in frames[k].players
    ensures forall m :: m in r.matches <==> exists k :: 0 <= k < |frames| && m in frames[k].matches
  {
    if |frames| == 0 then Tables([], [])
    else
      var rest := Concat(frames[1..]);
      assert forall k :: 0 < k < |frames| ==> frames[k] == frames[1..][k - 1];
      Append(frames[0], rest)
  }

  /** Concatenating two lists of frames is concatenating their
      concatenations: the rows keep their order and their number. */
  lemma {:induction false} ConcatAppend<PR(!new), MR(!new)>(f: seq<Tables<PR, MR>>, g: seq<Tables<PR, MR>>)
    ensures Concat(f + g) == Append(Concat(f), Concat(g))
  {
    if |f| == 0 {
      assert f + g == g;
      assert Append(Tables([], []), Concat(g)) == Concat(g);
    } else {
      assert (f + g)[0] == f[0] && (f + g)[1..] == f[1..] + g;
      ConcatAppend(f[1..], g);
      var a, b, c := f[0], Concat(f[1..]), Concat(g);
      assert Append(a, Append(b, c)) == Append(Append(a, b), c);
    }
  }

  /** A single frame concatenates to itself. */
  lemma ConcatSingle<PR(!new), MR(!new)>(t: Tables<PR, MR>)
    ensures Concat([t]) == t
  {
    assert [t][1..] == [];
    assert t.players + [] == t.players && t.matches + [] == t.matches;
  }

  /** The frames `extract_season_data` gathers: one per match page of the
      season, in the season's order; `scrape` stands for everything one
      match page yields (its player rows and its single match row). */
  function SeasonFrames<PR(!new), MR(!new)>(s: Season, scrape: (String, int) -> Tables<PR, MR>): (r: seq<Tables<PR, MR>>)
    ensures |r| == |s.urls|
    ensures forall i :: 0 <= i < |r| ==> r[i] == scrape(s.urls[i], s.year)
  {
    seq(|s.urls|, i requires 0 <= i < |s.urls| => scrape(s.urls[i], s.year))
  }

  // ---------------------------------------------------------------------
  // The loop over seasons
  // ---------------------------------------------------------------------

  /** The season of year `y` is built and has no match page to scrape. */
  predicate EmptySeason(y: int, now: int, page: int -> seq<Anchor>, known: seq<String>) {
    var s := NewSeason(IntYear(y), now, page, known);
    s.Success? && |s.value.urls| == 0
  }

  /** The loop of `main` over `years`: each year becomes a season (a rejected
      year ends the run with its error), and a season with match pages adds
      one concatenated frame; a season without any adds nothing. */
  function ScrapeSeasons<PR(!new), MR(!new)>(years: seq<int>, now: int, page: int -> seq<Anchor>, known: seq<String>,
                                 scrape: (String, int) -> Tables<PR, MR>): (r: Result<seq<Tables<PR, MR>>, SeasonError>)
    ensures r.Success? ==> |r.value| <= |years|
  {
    if |years| == 0 then Success([])
    else
      match NewSeason(IntYear(years[0]), now, page, known)
      case Failure(e) => Failure(e)
      case Success(s) =>
        match ScrapeSeasons(years[1..], now, page, known, scrape)
        case Failure(e) => Failure(e)
        case Success(rest) =>
          if |s.urls| == 0 then Success(rest)
          else Success([Concat(SeasonFrames(s, scrape))] + rest)
  }

  /** The loop fails exactly when a year lies outside the seasons the
      constructor accepts; when no year is later than the current one, the
      failure is an early year. */
  lemma {:induction false} ScrapeSeasonsFails<PR(!new), MR(!new)>(years: seq<int>, now: int, page: int -> seq<Anchor>,
                                                      known: seq<String>, scrape: (String, int) -> Tables<PR, MR>)
    ensures ScrapeSeasons(years, now, page, known, scrape).Failure?
      <==> exists i :: 0 <= i < |years| && !(FirstSeason <= years[i] <= now)
    ensures ScrapeSeasons(years, now, page, known, scrape).Failure? && (forall i :: 0 <= i < |years| ==> years[i] <= now)
      ==> ScrapeSeasons(years, now, page, known, scrape).error == YearBefore2000
  {
    if |years| > 0 {
      ScrapeSeasonsFails(years[1..], now, page, known, scrape);
      assert forall i :: 0 < i < |years| ==> years[i] == years[1..][i - 1];
      if exists i :: 0 <= i < |years[1..]| && !(FirstSeason <= years[1..][i] <= now) {
        var i :| 0 <= i < |years[1..]| && !(FirstSeason <= years[1..][i] <= now);
        assert years[i + 1] == years[1..][i];
      }
    }
  }

  /** The loop adds nothing exactly when every year makes a season without
      match pages. */
  lemma {:induction false} ScrapeSeasonsEmpty<PR(!new), MR(!new)>(years: seq<int>, now: int, page: int -> seq<Anchor>,
                                                      known: seq<String>, scrape: (String, int) -> Tables<PR, MR>)
    ensures ScrapeSeasons(years, now, page, known, scrape) == Success([])
      <==> forall i :: 0 <= i < |years| ==> EmptySeason(years[i], now, page, known)
  {
    if |years| > 0 {
      ScrapeSeasonsEmpty(years[1..], now, page, known, scrape);
      assert forall i :: 0 < i < |years| ==> years[i] == years[1..][i - 1];
    }
  }

  /** The rows of a run written directly: for every year in order, the rows
      of every match page of its season in order. */
  ghost function Gathered<PR(!new), MR(!new)>(years: seq<int>, now: int, page: int -> seq<Anchor>, known: seq<String>,
                                  scrape: (String, int) -> Tables<PR, MR>): Tables<PR, MR>
  {
    if |years| == 0 then Tables([], [])
    else
      var first := match NewSeason(IntYear(years[0]), now, page, known)
        case Success(s) => Concat(SeasonFrames(s, scrape))
        case Failure(_) => Tables([], []);
      Append(first, Gathered(years[1..], now, page, known, scrape))
  }

  /** Skipping the seasons without match pages loses no rows: the
      concatenated frames are exactly the rows gathered over every year. */
  lemma {:induction false} SkippedSeasonsAddNothing<PR(!new), MR(!new)>(years: seq<int>, now: int, page: int -> seq<Anchor>,
                                                            known: seq<String>, scrape: (String, int) -> Tables<PR, MR>)
    requires ScrapeSeasons(years, now, page, known, scrape).Success?
    ensures Concat(ScrapeSeasons(years, now, page, known, scrape).value) == Gathered(years, now, page, known, scrape)
  {
    if |years| > 0 {
      SkippedSeasonsAddNothing(years[1..], now, page, known, scrape);
      var s := NewSeason(IntYear(years[0]), now, page, known).value;
      var rest := ScrapeSeasons(years[1..], now, page, known, scrape).value;
      if |s.urls| == 0 {
        assert Concat(SeasonFrames(s, scrape)) == Tables([], []);
        assert Append(Tables([], []), Concat(rest)) == Concat(rest);
      } else {
        var frames := [Concat(SeasonFrames(s, scrape))] + rest;
        assert frames[1..] == rest;
      }
    }
  }

  /** Every gathered player row comes from a match page of one of the
      years, and that page was not known. */
  lemma {:induction false} GatheredFromNewPages<PR(!new), MR(!new)>(years: seq<int>, now: int, page: int -> seq<Anchor>,
                                                        known: seq<String>, scrape: (String, int) -> Tables<PR, MR>, p: PR)
    requires p in Gathered(years, now, page, known, scrape).players
    ensures exists y, u :: y in years && u !in known && StartsWith(u, StatsPrefix) && p in scrape(u, y).players
  {
    if |years| > 0 {
      var y := years[0];
      match NewSeason(IntYear(y), now, page, known)
      case Success(s) =>
        var frames := SeasonFrames(s, scrape);
        if p in Concat(frames).players {
          var k :| 0 <= k < |frames| && p in frames[k].players;
          assert s.urls[k] in s.urls;
          assert p in scrape(s.urls[k], y).players;
        } else {
          GatheredFromNewPages(years[1..], now, page, known, scrape, p);
          var y', u :| y' in years[1..] && u !in known && StartsWith(u, StatsPrefix) && p in scrape(u, y').players;
          assert y' in years;
        }
      case Failure(_) =>
        GatheredFromNewPages(years[1..], now, page, known, scrape, p);
        var y', u :| y' in years[1..] && u !in known && StartsWith(u, StatsPrefix) && p in scrape(u, y').players;
        assert y' in years;
    }
  }

  // ---------------------------------------------------------------------
  // The run
  // ---------------------------------------------------------------------

  /** Python's `url` column of a frame. */
  function Urls<PR(!new)>(rows: seq<PR>, urlOf: PR -> String): (r: seq<String>)
    ensures |r| == |rows|
    ensures forall i :: 0 <= i < |rows| ==> r[i] == urlOf(rows[i])
  {
    seq(|rows|, i requires 0 <= i < |rows| => urlOf(rows[i]))
  }

  /** pandas' `unique()`: each value once, in order of first appearance. */
  function Unique<T(==,!new)>(s: seq<T>): (r: seq<T>)
    ensures forall x :: x in r <==> x in s
    ensures forall i, j :: 0 <= i < j < |r| ==> r[i] != r[j]
  {
    if |s| == 0 then []
    else
      var rest := Unique(s[..|s| - 1]);
      assert forall x :: x in s ==> x in s[..|s| - 1] || x == s[|s| - 1];
      if s[|s| - 1] in rest then rest else rest + [s[|s| - 1]]
  }

  /** The URLs of the previous player data, or none when there is none. */
  function KnownUrls<PR(!new), MR(!new)>(existing: Option<Tables<PR, MR>>, urlOf: PR -> String): (r: seq<String>)
    ensures existing.None? ==> r == []
    ensures existing.Some? ==> forall u :: u in r <==> exists q :: q in existing.value.players && urlOf(q) == u
  {
    match existing
    case None => []
    case Some(e) =>
      var urls := Urls(e.players, urlOf);
      assert forall q :: q in e.players ==> urlOf(q) in urls;
      Unique(urls)
  }

  /** How a run ends: a year the season constructor rejects aborts it,
      nothing is written when no season had a match page, otherwise the
      two frames are written. */
  datatype Outcome<PR, MR> = Aborted(error: SeasonError) | NothingScraped | Written(output: Tables<PR, MR>)

  /** `main`: `existing` is the previous data when both files exist, `now`
      the current year, `page` the season index pages, and `scrape` the
      rows of one match page. */
  function Run<PR(!new), MR(!new)>(fromYear: int, toYear: int, now: int, existing: Option<Tables<PR, MR>>,
                       urlOf: PR -> String, page: int -> seq<Anchor>,
                       scrape: (String, int) -> Tables<PR, MR>): (r: Outcome<PR, MR>)
    ensures r.Written? && existing.Some? && |existing.value.players| > 0 ==>
      existing.value.players <= r.output.players && existing.value.matches <= r.output.matches
    ensures r.Written? && (existing.None? || |existing.value.players| == 0) ==>
      var all := ScrapeSeasons(Years(fromYear, toYear, now), now, page, [], scrape);
      all.Success? && r.output == Concat(all.value)
  {
    var known := KnownUrls(existing, urlOf);
    assert existing.Some? && |existing.value.players| > 0 ==> |known| != 0 by {
      if existing.Some? && |existing.value.players| > 0 {
        assert urlOf(existing.value.players[0]) in known;
      }
    }
    assert existing.None? || |existing.value.players| == 0 ==> known == [] by {
      assert |known| == 0 || known[0] in known;
    }
    match ScrapeSeasons(Years(fromYear, toYear, now), now, page, known, scrape)
    case Failure(e) => Aborted(e)
    case Success(seasons) =>
      if |seasons| == 0 then NothingScraped
      else
        var newRows := Concat(seasons);
        if |known| != 0 then Written(Append(existing.value, newRows)) else Written(newRows)
  }

  /** A run aborts exactly when it has a year to visit and starts before
      2000, and then because of that. */
  lemma RunAborts<PR(!new), MR(!new)>(fromYear: int, toYear: int, now: int, existing: Option<Tables<PR, MR>>,
                          urlOf: PR -> String, page: int -> seq<Anchor>, scrape: (String, int) -> Tables<PR, MR>)
    ensures Run(fromYear, toYear, now, existing, urlOf, page, scrape).Aborted?
      <==> fromYear <= Min(toYear, now) && fromYear < FirstSeason
    ensures Run(fromYear, toYear, now, existing, urlOf, page, scrape).Aborted?
      ==> Run(fromYear, toYear, now, existing, urlOf, page, scrape).error == YearBefore2000
  {
    var years := Years(fromYear, toYear, now);
    ScrapeSeasonsFails(years, now, page, KnownUrls(existing, urlOf), scrape);
    if fromYear <= Min(toYear, now) {
      assert years[0] == fromYear;
    }
  }

  /** Nothing is written exactly when every visited year makes a season
      without match pages. */
  lemma NothingScrapedWhenEverySeasonEmpty<PR(!new), MR(!new)>(fromYear: int, toYear: int, now: int,
                                                   existing: Option<Tables<PR, MR>>, urlOf: PR -> String,
                                                   page: int -> seq<Anchor>, scrape: (String, int) -> Tables<PR, MR>)
    ensures Run(fromYear, toYear, now, existing, urlOf, page, scrape).NothingScraped? <==>
      forall y :: fromYear <= y <= Min(toYear, now) ==> EmptySeason(y, now, page, KnownUrls(existing, urlOf))
  {
    var years := Years(fromYear, toYear, now);
    var known := KnownUrls(existing, urlOf);
    var outcome := ScrapeSeasons(years, now, page, known, scrape);
    ScrapeSeasonsEmpty(years, now, page, known, scrape);
    assert Run(fromYear, toYear, now, existing, urlOf, page, scrape).NothingScraped? <==> outcome == Success([]) by {
      match outcome
      case Failure(_) =>
      case Success(seasons) =>
    }
    if forall y :: fromYear <= y <= Min(toYear, now) ==> EmptySeason(y, now, page, known) {
      forall i | 0 <= i < |years|
        ensures EmptySeason(years[i], now, page, known)
      {
        assert years[i] in years;
      }
    } else {
      var y :| fromYear <= y <= Min(toYear, now) && !EmptySeason(y, now, page, known);
      assert y in years;
      var i :| 0 <= i < |years| && years[i] == y;
      assert !EmptySeason(years[i], now, page, known);
    }
  }

  /** What a run writes: the rows gathered over the visited years, after
      the previous rows when the previous player data named any URL. The
      previous rows are kept as they are and nothing is removed from
      either side: no row is deduplicated. */
  lemma RunWrites<PR(!new), MR(!new)>(fromYear: int, toYear: int, now: int, existing: Option<Tables<PR, MR>>,
                          urlOf: PR -> String, page: int -> seq<Anchor>, scrape: (String, int) -> Tables<PR, MR>)
    requires Run(fromYear, toYear, now, existing, urlOf, page, scrape).Written?
    ensures var out := Run(fromYear, toYear, now, existing, urlOf, page, scrape).output;
      var newRows := Gathered(Years(fromYear, toYear, now), now, page, KnownUrls(existing, urlOf), scrape);
      if existing.Some? && |existing.value.players| > 0 then
        && out == Append(existing.value, newRows)
        && multiset(out.players) == multiset(existing.value.players) + multiset(newRows.players)
        && multiset(out.matches) == multiset(existing.value.matches) + multiset(newRows.matches)
      else out == newRows
  {
    var years := Years(fromYear, toYear, now);
    var known := KnownUrls(existing, urlOf);
    SkippedSeasonsAddNothing(years, now, page, known, scrape);
    if existing.Some? && |existing.value.players| > 0 {
      assert existing.value.players[0] in existing.value.players;
      assert urlOf(existing.value.players[0]) in known;
    }
  }

  /** Since every player row carries the URL of its page, no new player row
      has the URL of a previous one: the append never repeats a match page
      even though it does not deduplicate. */
  lemma NoPageScrapedTwice<PR(!new), MR(!new)>(fromYear: int, toYear: int, now: int, existing: Option<Tables<PR, MR>>,
                                   urlOf: PR -> String, page: int -> seq<Anchor>,
                                   scrape: (String, int) -> Tables<PR, MR>, p: PR, q: PR)
    requires forall u, y, x :: x in scrape(u, y).players ==> urlOf(x) == u
    requires existing.Some? && q in existing.value.players
    requires p in Gathered(Years(fromYear, toYear, now), now, page, KnownUrls(existing, urlOf), scrape).players
    ensures urlOf(p) != urlOf(q)
    ensures StartsWith(urlOf(p), StatsPrefix)
  {
    GatheredFromNewPages(Years(fromYear, toYear, now), now, page, KnownUrls(existing, urlOf), scrape, p);
  }
}
