# AFL tables scraper: the parsing and merging core in Dafny

This project models the pure core of `scrape_afl_data.py`. The script
scrapes football match statistics season by season from afltables.com and
appends them to the match and player data of earlier runs. The core consists of:

- **The header field parser** (`afl_match.extract_elements`). It cuts one of
  `Round`, `Venue`, `Date` or `Attendance` out of a match page's free-text
  header. It builds the regular expression `label(.*)nextLabel` over the fixed
  label list `["Round:", "Venue:", "Date:", "Attendance:", ""]`, and returns:
  - the stripped capture;
  - `"Not Found"` when the pattern does not match;
  - `"Invalid Element"` for any other field name.

  Module `FieldParser`. `re.search` is modelled exactly for these literal
  labels:
  - the leftmost start wins;
  - for that start, the greedy `.*` takes the longest capture;
  - `.` does not match a newline.

  So the model needs no assumption that the header is a single line. The
  single-line case is proved as a corollary: the value lies between the first
  label and the last later successor.
- **The season's list of match pages** (`afl_season.__init__`), in module
  `Season`. The year is checked first. Then every anchor whose markup contains
  `../stats/games` is rewritten into an absolute `http://afltables.com/afl/stats/`
  URL. Then the URLs already known are dropped, and the page order is kept.
- **The match record** (`get_meta_data` and `create_match_info_csv`), in module
  `MatchMeta`. The teams, umpires and header fields are read from the first
  table of the page. The scores are the third `.`-separated component of the
  `goals.behinds.total` cells, and the margin is home minus away.
- **The player table selection** (`process_player_data`), in module
  `PlayerTables`. It finds the tables whose top header contains the title. It
  returns two empty results unless exactly two tables match; otherwise it
  returns the first and the second match, each cut to 22 rows.
- **The incremental run** (`main`), in module `Driver`:
  - The URLs of the previous player data are collected and are not scraped again.
  - The years from `from_year` to `min(to_year, now)` are visited in
    ascending order.
  - Seasons without match pages add nothing.
  - Nothing is written when every season was empty.
  - Otherwise the new rows are appended after the previous rows, and only when
    the previous player data named at least one URL.
  - There is no deduplication. Since every player row carries the URL of its
    page, `Driver.NoPageScrapedTwice` shows that the new player rows never
    repeat a previous row's page.

Module `Text` holds Python's string built-ins used by the core: `strip`,
`split` (with `join` as its inverse for the proofs), `replace`, substring
search, and the line ends that limit the regular expression's `.`. The script is
Python 2, and its cell texts are unicode, so `strip()` removes Python 2.7's
unicode whitespace set. `Wrappers` holds the `Option` and `Result` types.

Fetching is not modelled; its results are inputs:
- a season's index page is a function from year to anchors;
- a match page's first table is a grid of cells;
- its other tables are a list of labelled tables;
- everything one match page yields in `main` is a function from URL and year
  to rows.

The current year is a parameter.

Two details of the final merge in `main` are easy to misread:
- The merge is a plain append, not a union keyed by URL.
  `Driver.RunWrites` states the append, multiplicities included.
- It happens only when the previous player data names at least one URL.
  With an empty previous player file, the previous match rows are not
  written back (`Driver.RunWrites`).

## Model

| member | source | states |
|---|---|---|
| `Text.Strip` | scrape_afl_data.py:387 | the result is the input with leading and trailing whitespace removed: a slice flanked only by whitespace, with no whitespace at either end |
| `Text.StripUnique` | scrape_afl_data.py:387 | at most one string is the stripped form of a given string, so the stripped value is well defined |
| `Text.JoinSplit` | scrape_afl_data.py:285-286 | joining the parts of `split('.')` back with '.' gives the original cell |
| `Text.SplitJoin` | scrape_afl_data.py:285-286 | splitting a '.'-joined list of parts that contain no '.' gives the parts back |
| `Text.Contains` | scrape_afl_data.py:174 | Python's `pat in s` holds exactly when the pattern occurs somewhere in the string |
| `Text.Split` | scrape_afl_data.py:285-286 | `split` yields at least one part and no part contains the separator |
| `Text.ReplaceAll` | scrape_afl_data.py:174 | `replace` leaves a string without occurrences unchanged and never lengthens it when deleting |
| `Text.ReplaceAllFirst` | scrape_afl_data.py:174 | the leftmost occurrence is replaced first: the text before it is kept, and the scan resumes just after it |
| `Text.ReplaceAllLeading` | scrape_afl_data.py:174 | a leading occurrence of the pattern is replaced first, whatever follows it |
| `FieldParser.SearchFrom` | scrape_afl_data.py:381 | the matcher finds a match exactly when one exists, with the leftmost start and, for it, the longest capture on one line |
| `FieldParser.SearchMatchUnique` | scrape_afl_data.py:381 | the match `re.search` reports is unique |
| `FieldParser.FirstTitleContaining` | scrape_afl_data.py:374-377 | `id_met[0]` is the first title that contains the field name |
| `FieldParser.TitleMembership` | scrape_afl_data.py:367-371 | the validity test accepts exactly `Round`, `Venue`, `Date` and `Attendance`, and no other name, including the empty name and other casings |
| `FieldParser.TitlesOfField` | scrape_afl_data.py:374-378 | for a valid name, the first title containing it is its own label and the next title is the label that follows it in the page layout |
| `FieldParser.SearchLabels` | scrape_afl_data.py:367-378 | the labels searched between are the field's own label and the label after it in the page layout, and there are none exactly for names outside the four |
| `FieldParser.CaptureValueUnique` | scrape_afl_data.py:381-387 | the stripped capture of a search is unique |
| `FieldParser.SearchCapture` | scrape_afl_data.py:381-387 | there is no capture exactly when the pattern matches nowhere; otherwise the result is the stripped capture of the search match |
| `FieldParser.ExtractField` | scrape_afl_data.py:365-387 | invalid exactly for names outside the four; not found exactly when no label-then-successor match exists on one line; otherwise the stripped capture of the search match |
| `FieldParser.ExtractElements` | scrape_afl_data.py:365-387 | returns the `"Invalid Element"` and `"Not Found"` sentinels in those cases and otherwise the field's value |
| `FieldParser.FieldValueUnique` | scrape_afl_data.py:381-387 | a field of a header has at most one value |
| `FieldParser.ExtractFieldComplete` | scrape_afl_data.py:381-387 | every value meeting the reference definition is the one the parser returns |
| `FieldParser.SearchMatchValue` | scrape_afl_data.py:381-387 | the parser returns the stripped text between the label and the successor of the reported match |
| `FieldParser.ElementsOfFound` | scrape_afl_data.py:387 | a found value is returned unchanged |
| `FieldParser.NewlineFreePatternMatch` | scrape_afl_data.py:381 | on a single-line string, the pattern matches exactly when some label is followed, at or after its end, by the successor |
| `FieldParser.NewlineFreeSearchMatch` | scrape_afl_data.py:381 | on a single-line string, the search match is the first label and the last later successor |
| `FieldParser.EmptySuccessorMatch` | scrape_afl_data.py:378-381 | with the empty closing title, the search match runs from the first label to the end of its line |
| `FieldParser.NewlineFreeNotFound` | scrape_afl_data.py:381-385 | on a single-line header, the field is missing exactly when no occurrence of its label is followed by an occurrence of its successor |
| `FieldParser.NewlineFreeValue` | scrape_afl_data.py:381-387 | on a single-line header, the value lies between the first occurrence of the label and the last later occurrence of the successor |
| `FieldParser.AttendanceRunsToLineEnd` | scrape_afl_data.py:367-387 | the last field, closed by the empty title, runs from its first label to the end of that line |
| `FieldParser.AttendanceMissing` | scrape_afl_data.py:381-385 | without the `Attendance:` label, the last field is not found |
| `FieldParser.ValueAfterLeadingLabel` | scrape_afl_data.py:381-387 | a single-line header starting with the label holds the value between the label and the last successor |
| `FieldParser.ExampleRound` | scrape_afl_data.py:365-387 | the `Round` field of "Round: 5 Venue: MCG" is "5" |
| `FieldParser.ExampleRoundMissing` | scrape_afl_data.py:381-385 | the `Round` field of "Venue: MCG" is not found |
| `FieldParser.ExampleInvalid` | scrape_afl_data.py:370-371 | "Score", "round" and the empty name are invalid whatever the header |
| `Season.CheckYear` | scrape_afl_data.py:162-164 | only an integer year from 2000 up to the current year passes; non-integers and early years are reported by the first check that fails |
| `Season.MatchUrl` | scrape_afl_data.py:174 | every rewritten link starts with the absolute statistics prefix |
| `Season.MatchUrlOfRelative` | scrape_afl_data.py:174 | a link under `../stats/` becomes the same path under the absolute prefix |
| `Season.GameLinks` | scrape_afl_data.py:173-174 | the list holds exactly the rewritten links of the anchors whose markup names a games page; it is no longer than the anchor list, and each link carries the prefix |
| `Season.GameLinksAppend` | scrape_afl_data.py:173-174 | the links of two stretches of the page are those of the first, then those of the second, so page order and repeats are kept |
| `Season.GameLinksSingle` | scrape_afl_data.py:173-174 | one anchor gives its rewritten link exactly when its markup names a games page, and nothing otherwise |
| `Season.DropKnown` | scrape_afl_data.py:177 | the filtered list is an order-preserving subsequence that keeps exactly the unknown URLs, each as many times as before |
| `Season.NewSeason` | scrape_afl_data.py:162-177 | a season is built exactly for valid years, with the year's check error otherwise; its URLs are prefixed, unknown, and an ordered subsequence of the page's match links, each unknown link kept as often as the page lists it |
| `Season.RejectedBeforeFetch` | scrape_afl_data.py:162-171 | a rejected year does not depend on the season page, so it is rejected before any fetch |
| `Season.SeasonKeepsNewLinks` | scrape_afl_data.py:173-177 | every unknown match link on a season's page is in the season's list, as often as the page has it |
| `MatchMeta.FormatNat` | scrape_afl_data.py:285-286 | the decimal rendering of a number is a non-empty string of digits |
| `MatchMeta.ParseInt` | scrape_afl_data.py:285-286 | `int()` of a non-empty string of ASCII digits is its decimal value |
| `MatchMeta.ParseIntGrammar` | scrape_afl_data.py:285-286 | `int()` succeeds exactly on whitespace, an optional sign, whitespace only after a sign, one or more digits and whitespace, with the value that text denotes; every other text raises ValueError |
| `MatchMeta.ParseIntText` | scrape_afl_data.py:285-286 | every text `int()` reads can be cut into those pieces, with the value read |
| `MatchMeta.IntTextReads` | scrape_afl_data.py:285-286 | every text cut into those pieces is read as the value it denotes |
| `MatchMeta.SpaceAfterSign` | scrape_afl_data.py:285-286 | like Python 2's `int()`, whitespace between the sign and the digits is allowed: `"- 72"` reads as -72 |
| `MatchMeta.ParseFormatInt` | scrape_afl_data.py:285-286 | `int(str(n)) == n` for every integer |
| `MatchMeta.ParseScore` | scrape_afl_data.py:285-286 | the score is missing exactly when the cell has fewer than three '.'-separated parts, and not an integer exactly when there are three or more and `int()` rejects the third; otherwise it is the integer value of the third part |
| `MatchMeta.ParseScoreCell` | scrape_afl_data.py:285-286 | the score read from a "goals.behinds.total" cell is the total |
| `MatchMeta.BuildMatch` | scrape_afl_data.py:275-287 | a record is built exactly when the cells exist and both scores parse; the margin is home minus away, and each field comes from its cell or from the header parser |
| `MatchMeta.MarginOfScoreCells` | scrape_afl_data.py:285-287 | with "g.b.t" score cells, a record is built and its margin is the difference of the totals |
| `PlayerTables.MatchingIndices` | scrape_afl_data.py:344 | the indices of exactly the tables whose heading contains the title, in ascending order |
| `PlayerTables.Truncate` | scrape_afl_data.py:354-359 | a team's frame keeps the stat columns and a prefix of at most 22 rows |
| `PlayerTables.ProcessPlayerData` | scrape_afl_data.py:331-362 | fails exactly for titles other than the two; returns no tables unless exactly two tables match; otherwise the first match is home and the second away |
| `PlayerTables.TwoIndices` | scrape_afl_data.py:344-347 | when exactly the tables `i < j` carry the title, the matching indices are `[i, j]` |
| `PlayerTables.IndicesExactlyTwo` | scrape_afl_data.py:344-347 | two matching indices mean that exactly those two tables carry the title |
| `PlayerTables.SelectsTheTwoTables` | scrape_afl_data.py:341-362 | with exactly two labelled tables, home is the first and away is the second, each cut to a roster |
| `PlayerTables.NoTablesUnlessTwo` | scrape_afl_data.py:341-351 | the empty result comes back exactly when the number of labelled tables is not two |
| `Driver.Range` | scrape_afl_data.py:425 | `range(lo, hi)` is the consecutive integers from `lo` below `hi` |
| `Driver.Years` | scrape_afl_data.py:425 | the years visited are exactly those from `from_year` to `min(to_year, now)`, ascending and starting at `from_year` |
| `Driver.Concat` | scrape_afl_data.py:441-442 | the concatenated frames hold exactly the rows of the frames |
| `Driver.ConcatAppend` | scrape_afl_data.py:441-442 | concatenating two lists of frames is appending their concatenations, so rows keep their order and multiplicity |
| `Driver.ConcatSingle` | scrape_afl_data.py:441-442 | concatenating a single frame gives that frame |
| `Driver.SeasonFrames` | scrape_afl_data.py:199-222 | a season yields one frame per match page, in the season's order, each scraped with the season's year |
| `Driver.ScrapeSeasons` | scrape_afl_data.py:425-432 | the loop adds at most one frame per year |
| `Driver.ScrapeSeasonsFails` | scrape_afl_data.py:425-426 | the loop fails exactly when a visited year is outside 2000 to now, and with the early-year error when no year is later than now |
| `Driver.ScrapeSeasonsEmpty` | scrape_afl_data.py:425-432 | the loop adds nothing exactly when every year builds a season with no match pages |
| `Driver.SkippedSeasonsAddNothing` | scrape_afl_data.py:429-432 | skipping seasons without match pages loses no rows: the result equals the rows gathered over every year |
| `Driver.GatheredFromNewPages` | scrape_afl_data.py:425-432 | every gathered player row comes from a prefixed, previously unknown match page of a visited year |
| `Driver.Unique` | scrape_afl_data.py:414 | `unique()` keeps every value and none twice |
| `Driver.KnownUrls` | scrape_afl_data.py:409-416 | the known URLs are exactly those of the previous player rows, or none without previous data |
| `Driver.RunAborts` | scrape_afl_data.py:425-426 | a run aborts exactly when it has a year to visit and starts before 2000, and then with the early-year error |
| `Driver.NothingScrapedWhenEverySeasonEmpty` | scrape_afl_data.py:429-438 | nothing is written exactly when every visited year builds a season without match pages |
| `Driver.Run` | scrape_afl_data.py:409-447 | a written output starts with the previous rows when the previous player data had a row, and is otherwise exactly the concatenation of the gathered frames |
| `Driver.RunWrites` | scrape_afl_data.py:440-447 | the output is the gathered rows, after the previous rows exactly when the previous player data had a row; every row of both sides is kept, with no deduplication |
| `Driver.NoPageScrapedTwice` | scrape_afl_data.py:425-447 | when player rows carry their page's URL, no new player row shares a URL with a previous one, and each new row's URL has the absolute prefix |

## Left out

- Fetching and HTML parsing are not modelled: `requests.get`, BeautifulSoup and `pd.read_html`. Their results are inputs:
  - the season page is a function from year to anchors;
  - the match page is a grid and a list of labelled tables;
  - the per-page rows of `main` are a function of URL and year.
- The salted `bcrypt` match id is not modelled. It is a foreign and nondeterministic call.
- Logging, argument parsing, `time.sleep` and CSV reading and writing are not modelled; they are I/O and configuration.
  - The `choices` restriction on `to_year` is among them.
  - So is the test that both previous files exist, which becomes the `Option` of previous data.
- `handler.py` and `test.py` are not part of this model. `handler.py` runs the same scrape over the years from 2000 to the current one and uploads the result to storage; `test.py` reads one CSV file from storage and uploads it again.
- The pandas column bookkeeping of `create_player_csv` is not modelled. This covers the status and url columns, the append of home and away, and dropping the first column. A match's player rows are the abstract output of the per-page function. `Driver.NoPageScrapedTwice` takes as an assumption that each row carries its page's URL.
- Exceptions other than the year checks are not modelled: network errors, missing cells while building the player frame, and errors from `create_player_csv` on the empty results. `MatchMeta.BuildMatch` returns its missing-cell and bad-score errors as values, but `Driver.Run` takes the per-page function as total.
- `Season.CheckYear` reports which check rejected the year, not which exception is raised. On a year after the current one, the message is built from a string and an integer, which raises a TypeError instead of the assertion's AssertionError.
- The current year comes from one clock reading. The source reads the clock separately in `main` and in each season, so the two readings can differ at a year boundary.
- Cells are strings. Non-string and missing (NaN) cells of a table are not modelled.
- `MatchMeta.ParseInt` accepts only ASCII digits. Python's `int()` also accepts other Unicode decimal digits.
- `Text.ReplaceAll` requires a non-empty pattern. The only pattern the source uses is `../stats/`.
- The data frames of `main` are reduced to row sequences. Column alignment when frames with different columns are concatenated is not modelled.
