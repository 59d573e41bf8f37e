/** Construction of a season (`afl_season.__init__`): the year is checked,
    the season index page's links to match pages are rewritten into
    absolute URLs, and URLs already scraped are dropped. */
module Season {
  import opened Wrappers
  import opened Text

  /** One `<a>` element of the season index page: its markup as `str(e)`
      renders it, and its `href` attribute. */
  datatype Anchor = Anchor(markup: String, href: String)

  /** The dynamically typed `year` argument: only a Python `int` passes the
      type check. */
  datatype YearInput = IntYear(value: int) | NonIntYear

  /** Which of the three year checks rejected the argument. */
  datatype SeasonError = YearNotInteger | YearBefore2000 | YearAfterCurrent

  /** A constructed season: its year and the match pages still to scrape. */
  datatype Season = Season(year: int, urls: seq<String>)

  const FirstSeason: int := 2000

  /** Absolute location of the statistics pages. */
  const StatsPrefix: String := "http://afltables.com/afl/stats/"

  /** Text whose presence in an anchor's markup marks a match link. */
  const GamesMarker: String := "../stats/games"

  /** The relative directory the page's links are written against. */
  const RelativeStats: String := "../stats/"

  /** The assertions on `year`, checked in the constructor's order. */
  function CheckYear(year: YearInput, currentYear: int): (r: Result<int, SeasonError>)
    ensures r.Success? <==> year.IntYear? && FirstSeason <= year.value <= currentYear
    ensures r.Success? ==> r.value == year.value
    ensures year.NonIntYear? ==> r == Failure(YearNotInteger)
    ensures year.IntYear? && year.value < FirstSeason ==> r == Failure(YearBefore2000)
  {
    match year
    case NonIntYear => Failure(YearNotInteger)
    case IntYear(y) =>
      if y < FirstSeason then Failure(YearBefore2000)
      else if y > currentYear then Failure(YearAfterCurrent)
      else Success(y)
  }

  /** The absolute URL of a match link. */
  function MatchUrl(href: String): (r: String)
    ensures StartsWith(r, StatsPrefix)
  {
    var r := StatsPrefix + ReplaceAll(href, RelativeStats, "");
    assert r[0..|StatsPrefix|] == StatsPrefix;
    r
  }

  /** A link written relative to the statistics directory becomes the same
      path under the absolute prefix. */
  lemma MatchUrlOfRelative(rest: String)
    requires !Contains(rest, RelativeStats)
    ensures MatchUrl(RelativeStats + rest) == StatsPrefix + rest
  {
    ReplaceAllLeading(RelativeStats, "", rest);
  }

  predicate IsGameAnchor(a: Anchor) {
    Contains(a.markup, GamesMarker)
  }

  /** The list comprehension over the page's anchors: the match links, in
      page order, rewritten into absolute URLs. */
  function GameLinks(anchors: seq<Anchor>): (r: seq<String>)
    ensures |r| <= |anchors|
    ensures forall i :: 0 <= i < |r| ==> StartsWith(r[i], StatsPrefix)
    ensures forall u :: u in r <==> exists a :: a in anchors && IsGameAnchor(a) && MatchUrl(a.href) == u
  {
    if |anchors| == 0 then []
    else
      var rest := GameLinks(anchors[1..]);
      assert forall a :: a in anchors[1..] ==> a in anchors;
      assert forall a :: a in anchors ==> a == anchors[0] || a in anchors[1..];
      if IsGameAnchor(anchors[0]) then [MatchUrl(anchors[0].href)] + rest
      else rest
  }

  /** The comprehension works anchor by anchor in page order: the links of
      two stretches of the page are those of the first, then those of the
      second. */
  lemma {:induction false} GameLinksAppend(a: seq<Anchor>, b: seq<Anchor>)
    ensures GameLinks(a + b) == GameLinks(a) + GameLinks(b)
  {
    if |a| == 0 {
      assert a + b == b;
    } else {
      assert (a + b)[0] == a[0] && (a + b)[1..] == a[1..] + b;
      GameLinksAppend(a[1..], b);
    }
  }

  /** One anchor yields its rewritten link exactly when it is a match
      link. */
  lemma GameLinksSingle(a: Anchor)
    ensures GameLinks([a]) == if IsGameAnchor(a) then [MatchUrl(a.href)] else []
  {
    assert [a][1..] == [];
  }

  /** The URLs not in `known`, in their original order: exactly the
      constructor's filtering comprehension, characterised by what it keeps. */
  function DropKnown(urls: seq<String>, known: seq<String>): (r: seq<String>)
    ensures IsSubsequence(r, urls)
    ensures forall u :: u in r <==> u in urls && u !in known
    ensures forall u :: u !in known ==> multiset(r)[u] == multiset(urls)[u]
  {
    if |urls| == 0 then []
    else
      var rest := DropKnown(urls[1..], known);
      assert urls == [urls[0]] + urls[1..];
      if urls[0] !in known then
        var r := [urls[0]] + rest;
        assert r[1..] == rest;
        r
      else
        assert rest == [] || rest[0] != urls[0];
        rest
  }

  /** `afl_season(year, game_not_to_scrape)`: `page` stands for the season
      index page the constructor fetches for a year, given as its anchors. */
  function NewSeason(year: YearInput, currentYear: int, page: int -> seq<Anchor>,
                     known: seq<String>): (r: Result<Season, SeasonError>)
    ensures r.Success? <==> year.IntYear? && FirstSeason <= year.value <= currentYear
    ensures r.Failure? ==> r.error == CheckYear(year, currentYear).error
    ensures r.Success? ==> r.value.year == year.value
    ensures r.Success? ==> forall u :: u in r.value.urls ==> StartsWith(u, StatsPrefix) && u !in known
    ensures r.Success? ==> IsSubsequence(r.value.urls, GameLinks(page(year.value)))
    ensures r.Success? ==> forall u :: u !in known ==>
      multiset(r.value.urls)[u] == multiset(GameLinks(page(year.value)))[u]
  {
    var y :- CheckYear(year, currentYear);
    var links := GameLinks(page(y));
    var urls := DropKnown(links, known);
    assert forall u :: u in urls ==> u in links;
    Success(Season(y, urls))
  }

  /** A rejected year is rejected before the page is fetched: the outcome
      does not depend on the page at all. */
  lemma RejectedBeforeFetch(year: YearInput, currentYear: int, page1: int -> seq<Anchor>,
                            page2: int -> seq<Anchor>, known: seq<String>)
    requires NewSeason(year, currentYear, page1, known).Failure?
    ensures NewSeason(year, currentYear, page1, known) == NewSeason(year, currentYear, page2, known)
  {
  }

  /** A season's list keeps every new match link the page has, as often as
      the page has it, and none of the known ones. */
  lemma {:induction false} SeasonKeepsNewLinks(year: int, currentYear: int, page: int -> seq<Anchor>,
                                               known: seq<String>, a: Anchor)
    requires FirstSeason <= year <= currentYear
    requires a in page(year) && IsGameAnchor(a) && MatchUrl(a.href) !in known
    ensures MatchUrl(a.href) in NewSeason(IntYear(year), currentYear, page, known).value.urls
    ensures multiset(NewSeason(IntYear(year), currentYear, page, known).value.urls)[MatchUrl(a.href)]
            == multiset(GameLinks(page(year)))[MatchUrl(a.href)]
  {
    var links := GameLinks(page(year));
    assert MatchUrl(a.href) in links;
  }
}
