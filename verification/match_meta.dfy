/** The match record of `afl_match.get_meta_data` and
    `afl_match.create_match_info_csv`: teams, umpires and the header fields
    read from the match page's first table, and the final scores parsed from
    its "goals.behinds.total" cells. */
module MatchMeta {
  import opened Wrappers
  import opened Text
  import FieldParser

  // ---------------------------------------------------------------------
  // Python's int() on a string, and its inverse str()
  // ---------------------------------------------------------------------

  predicate IsDigit(c: char) {
    '0' <= c <= '9'
  }

  predicate AllDigits(s: String) {
    forall k :: 0 <= k < |s| ==> IsDigit(s[k])
  }

  /** The value of a string of decimal digits, most significant first. */
  function DigitsValue(ds: String): nat
    requires AllDigits(ds)
  {
    if |ds| == 0 then 0
    else DigitsValue(ds[..|ds| - 1]) * 10 + (ds[|ds| - 1] as int - '0' as int)
  }

  predicate IsSign(c: char) {
    c == '+' || c == '-'
  }

  /** One or more decimal digits, read as a number. */
  function Unsigned(u: String): (r: Option<nat>)
    ensures r.Some? <==> |u| >= 1 && AllDigits(u)
  {
    if |u| >= 1 && AllDigits(u) then Some(DigitsValue(u)) else None
  }

  /** Python 2's `int(s)` on a unicode string: optional surrounding
      whitespace, an optional sign, optional whitespace after the sign, then
      one or more decimal digits; anything else raises ValueError, which is
      `None` here. */
  function ParseInt(s: String): (r: Option<int>)
    ensures |s| >= 1 && AllDigits(s) ==> r == Some(DigitsValue(s))
  {
    if |s| >= 1 && AllDigits(s) then
      assert Strip(s) == s by {
        DigitNotSpace(s[0]);
        DigitNotSpace(s[|s| - 1]);
        StripBare(s);
      }
      ParseStripped(s)
    else ParseStripped(Strip(s))
  }

  lemma DigitNotSpace(c: char)
    requires IsDigit(c)
    ensures !IsSpace(c)
  {
  }

  /** `int()` on text with no surrounding whitespace. */
  function ParseStripped(t: String): (r: Option<int>)
  {
    match Unsigned(t)
    case Some(v) => Some(v)
    case None =>
      if |t| >= 1 && IsSign(t[0]) then
        match Unsigned(LStrip(t[1..]))
        case None => None
        case Some(v) => Some(if t[0] == '-' then -(v as int) else v)
      else None
  }

  /** Text without surrounding whitespace is read as it stands. */
  lemma ParseBare(s: String)
    requires Strip(s) == s
    ensures ParseInt(s) == ParseStripped(s)
  {
  }

  /** Whitespace between the sign and the digits is skipped. */
  lemma SpaceAfterSign(s: String)
    requires s == "- 72"
    ensures ParseInt(s) == Some(-72)
  {
    ExampleReadsBare(s);
    ExampleMagnitude(s);
    ParseSigned(s, 72);
  }

  lemma ExampleReadsBare(s: String)
    requires s == "- 72"
    ensures ParseInt(s) == ParseStripped(s)
  {
    assert !IsSpace(s[0]) && !IsSpace(s[|s| - 1]);
    StripBare(s);
    ParseBare(s);
  }

  lemma ExampleMagnitude(s: String)
    requires s == "- 72"
    ensures |s| >= 1 && s[0] == '-' && Unsigned(LStrip(s[1..])) == Some(72)
  {
    var digits := s[2..];
    assert digits == FormatNat(72) by {
      assert FormatNat(72) == FormatNat(7) + "2";
    }
    assert LStrip(s[1..]) == digits by {
      assert IsSpace(s[1..][0]) && s[1..][1..] == digits;
      LStripBare(digits);
    }
    DigitsOfFormat(72);
  }

  /** Decimal digits of `n`, most significant first, no leading zero. */
  function FormatNat(n: nat): (r: String)
    ensures |r| >= 1 && AllDigits(r)
  {
    var d := ['0' + (n % 10) as char];
    if n < 10 then d else FormatNat(n / 10) + d
  }

  /** Python's `str(n)` for an integer. */
  function FormatInt(n: int): String {
    if n < 0 then "-" + FormatNat(-n) else FormatNat(n)
  }

  lemma {:induction false} DigitsOfFormat(n: nat)
    ensures DigitsValue(FormatNat(n)) == n
  {
    var d := ['0' + (n % 10) as char];
    if n >= 10 {
      DigitsOfFormat(n / 10);
      var s := FormatNat(n / 10) + d;
      assert s[..|s| - 1] == FormatNat(n / 10);
    }
  }

  /** `str(n)` has no whitespace to strip. */
  lemma FormatIntBare(n: int)
    ensures Bare(FormatInt(n))
  {
    var s := FormatInt(n);
    var f := FormatNat(if n < 0 then -n else n);
    assert IsDigit(f[0]) && IsDigit(f[|f| - 1]);
    if n < 0 {
      assert s[|s| - 1] == f[|f| - 1];
    }
  }

  /** `int(str(n)) == n`. */
  lemma ParseFormatInt(n: int)
    ensures ParseInt(FormatInt(n)) == Some(n)
  {
    if n < 0 {
      ParseFormatNegative(n);
    } else {
      DigitsOfFormat(n);
    }
  }

  lemma ParseFormatNegative(n: int)
    requires n < 0
    ensures ParseInt(FormatInt(n)) == Some(n)
  {
    FormatIntReadsBare(n);
    NegativeReads(n);
  }

  lemma NegativeReads(n: int)
    requires n < 0
    ensures ParseStripped(FormatInt(n)) == Some(n)
  {
    NegativeMagnitude(n);
    ParseSigned(FormatInt(n), -n);
  }

  /** `str(n)` is read as it stands. */
  lemma FormatIntReadsBare(n: int)
    ensures ParseInt(FormatInt(n)) == ParseStripped(FormatInt(n))
  {
    FormatIntBare(n);
    StripBare(FormatInt(n));
    ParseBare(FormatInt(n));
  }

  /** After its minus sign, `str(n)` holds the digits of `-n`. */
  lemma NegativeMagnitude(n: int)
    requires n < 0
    ensures |FormatInt(n)| >= 1 && FormatInt(n)[0] == '-'
    ensures Unsigned(LStrip(FormatInt(n)[1..])) == Some(-n)
  {
    var s := FormatInt(n);
    var digits := FormatNat(-n);
    assert s[1..] == digits;
    DigitNotSpace(digits[0]);
    LStripBare(digits);
    DigitsOfFormat(-n);
  }

  /** A minus sign followed, after any whitespace, by the digits of `m`
      reads as `-m`. */
  lemma ParseSigned(t: String, m: nat)
    requires |t| >= 1 && t[0] == '-' && Unsigned(LStrip(t[1..])) == Some(m)
    ensures ParseStripped(t) == Some(-(m as int))
  {
    assert Unsigned(t) == None by {
      assert !IsDigit(t[0]);
    }
  }

  // ---------------------------------------------------------------------
  // The texts int() accepts, spelled out
  // ---------------------------------------------------------------------

  /** A sign, whitespace, then digits, read as `n`: the sign is empty, `+`
      or `-`, and whitespace may follow only a sign. */
  predicate SignedDigits(sign: String, gap: String, ds: String, n: int) {
    && (sign == [] || sign == "+" || sign == "-")
    && AllSpace(gap) && (sign == [] ==> gap == [])
    && |ds| >= 1 && AllDigits(ds)
    && n == if sign == "-" then -(DigitsValue(ds) as int) else DigitsValue(ds)
  }

  /** `s` is text Python 2's `int()` reads as `n`, cut into its pieces:
      leading whitespace, an optional sign, whitespace allowed only after a
      sign, one or more decimal digits, trailing whitespace. */
  predicate IntText(s: String, lead: String, sign: String, gap: String, ds: String, trail: String, n: int) {
    && s == lead + sign + gap + ds + trail
    && AllSpace(lead) && AllSpace(trail)
    && SignedDigits(sign, gap, ds, n)
  }

  /** `int()` succeeds exactly on the texts `IntText` describes, with the
      value they denote; on every other text it raises ValueError. */
  lemma ParseIntGrammar(s: String)
    ensures ParseInt(s).Some? ==>
      exists lead, sign, gap, ds, trail :: IntText(s, lead, sign, gap, ds, trail, ParseInt(s).value)
    ensures forall lead, sign, gap, ds, trail, n ::
      IntText(s, lead, sign, gap, ds, trail, n) ==> ParseInt(s) == Some(n)
  {
    if ParseInt(s).Some? {
      ParseIntText(s);
    }
    forall lead, sign, gap, ds, trail, n | IntText(s, lead, sign, gap, ds, trail, n)
      ensures ParseInt(s) == Some(n)
    {
      IntTextReads(s, lead, sign, gap, ds, trail, n);
    }
  }

  /** `int()` reads its text through `strip()`. */
  lemma ParseViaStrip(s: String)
    ensures ParseInt(s) == ParseStripped(Strip(s))
  {
    if |s| >= 1 && AllDigits(s) {
      DigitNotSpace(s[0]);
      DigitNotSpace(s[|s| - 1]);
      StripBare(s);
    }
  }

  /** Every text `int()` reads has the shape `IntText` describes. */
  lemma ParseIntText(s: String)
    requires ParseInt(s).Some?
    ensures exists lead, sign, gap, ds, trail :: IntText(s, lead, sign, gap, ds, trail, ParseInt(s).value)
  {
    ParseViaStrip(s);
    var t := Strip(s);
    var lead, trail := StripPieces(s);
    var sign, gap, ds := StrippedParts(t);
    IntTextOfPieces(s, lead, t, trail, sign, gap, ds, ParseStripped(t).value);
  }

  /** The whitespace `strip()` removes on either side. */
  lemma StripPieces(s: String) returns (lead: String, trail: String)
    ensures s == lead + Strip(s) + trail && AllSpace(lead) && AllSpace(trail)
  {
    var t := Strip(s);
    var i :| StrippedAt(s, t, i);
    lead, trail := s[..i], s[i + |t|..];
    assert s == lead + t + trail;
  }

  lemma IntTextOfPieces(s: String, lead: String, t: String, trail: String,
                        sign: String, gap: String, ds: String, n: int)
    requires s == lead + t + trail && AllSpace(lead) && AllSpace(trail)
    requires t == sign + gap + ds && SignedDigits(sign, gap, ds, n)
    ensures IntText(s, lead, sign, gap, ds, trail, n)
  {
    assert s == lead + sign + gap + ds + trail;
  }

  /** The pieces of a stripped text `int()` reads. */
  lemma StrippedParts(t: String) returns (sign: String, gap: String, ds: String)
    requires ParseStripped(t).Some?
    ensures t == sign + gap + ds && SignedDigits(sign, gap, ds, ParseStripped(t).value)
  {
    if Unsigned(t).Some? {
      sign, gap, ds := [], [], t;
      assert t == sign + gap + ds;
    } else {
      var rest := t[1..];
      ds := LStrip(rest);
      LStripRemovesSpace(rest);
      sign, gap := [t[0]], rest[..|rest| - |ds|];
      assert rest == gap + ds;
      assert t == sign + gap + ds;
    }
  }

  /** Every text of the shape `IntText` describes is read as its value. */
  lemma IntTextReads(s: String, lead: String, sign: String, gap: String, ds: String, trail: String, n: int)
    requires IntText(s, lead, sign, gap, ds, trail, n)
    ensures ParseInt(s) == Some(n)
  {
    var t := sign + gap + ds;
    assert s == lead + t + trail;
    assert t[0] == if sign == [] then ds[0] else sign[0];
    assert t[|t| - 1] == ds[|ds| - 1];
    IntTextStrips(s, lead, t, trail);
    ParseViaStrip(s);
    StrippedReads(sign, gap, ds, n);
  }

  /** A sign, whitespace and digits are read as their value. */
  lemma StrippedReads(sign: String, gap: String, ds: String, n: int)
    requires SignedDigits(sign, gap, ds, n)
    ensures ParseStripped(sign + gap + ds) == Some(n)
  {
    var t := sign + gap + ds;
    if sign == [] {
      assert t == ds;
    } else {
      assert t[0] == sign[0] && !IsDigit(t[0]);
      assert t[1..] == gap + ds;
      DigitNotSpace(ds[0]);
      LStripSpace(gap, ds);
    }
  }

  /** The middle of whitespace, a bare text and whitespace is the strip. */
  lemma IntTextStrips(s: String, lead: String, t: String, trail: String)
    requires s == lead + t + trail && AllSpace(lead) && AllSpace(trail)
    requires |t| >= 1 && (IsSign(t[0]) || IsDigit(t[0])) && IsDigit(t[|t| - 1])
    ensures Strip(s) == t
  {
    DigitNotSpace(t[|t| - 1]);
    assert s[..|lead|] == lead && s[|lead|..|lead| + |t|] == t && s[|lead| + |t|..] == trail;
    assert StrippedAt(s, t, |lead|);
    StripUnique(s, t, Strip(s));
  }

  /** `lstrip()` removes exactly a whitespace run in front of text that
      starts with something else. */
  lemma {:induction false} LStripSpace(w: String, x: String)
    requires AllSpace(w) && (x == [] || !IsSpace(x[0]))
    ensures LStrip(w + x) == x
  {
    if |w| == 0 {
      assert w + x == x;
      LStripBare(x);
    } else {
      assert (w + x)[0] == w[0] && (w + x)[1..] == w[1..] + x;
      LStripSpace(w[1..], x);
    }
  }

  // ---------------------------------------------------------------------
  // Scores
  // ---------------------------------------------------------------------

  /** Why a score cell could not be read. */
  datatype ScoreError =
    | MissingTotal      // fewer than three '.'-separated parts: IndexError
    | TotalNotInteger   // the third part is not an integer: ValueError

  /** `int(cell.split('.')[2])`: the total of a "goals.behinds.total"
      cell. */
  function ParseScore(cell: String): (r: Result<int, ScoreError>)
    ensures r == Failure(MissingTotal) <==> |Split(cell, '.')| < 3
    ensures r == Failure(TotalNotInteger) <==> |Split(cell, '.')| >= 3 && ParseInt(Split(cell, '.')[2]).None?
    ensures r.Success? ==> ParseInt(Split(cell, '.')[2]) == Some(r.value)
  {
    var parts := Split(cell, '.');
    if |parts| < 3 then Failure(MissingTotal)
    else
      match ParseInt(parts[2])
      case None => Failure(TotalNotInteger)
      case Some(t) => Success(t)
  }

  /** How the page writes a final score: goals, behinds and total. */
  function ScoreCell(goals: nat, behinds: nat, total: int): String {
    FormatNat(goals) + "." + FormatNat(behinds) + "." + FormatInt(total)
  }

  /** The score read from a "g.b.t" cell is its total `t`. */
  lemma ParseScoreCell(goals: nat, behinds: nat, total: int)
    ensures ParseScore(ScoreCell(goals, behinds, total)) == Success(total)
  {
    var g, b, t := FormatNat(goals), FormatNat(behinds), FormatInt(total);
    assert '.' !in g && '.' !in b;
    assert '.' !in t by {
      var f := FormatNat(if total < 0 then -total else total);
      assert forall k :: 0 <= k < |t| ==> t[k] == '-' || t[k] in f;
    }
    var parts := [g, b, t];
    assert Join(parts, '.') == ScoreCell(goals, behinds, total) by {
      assert Join(parts[1..], '.') == b + "." + t by {
        assert parts[1..][1..] == [t];
      }
    }
    SplitJoin(parts, '.');
    ParseFormatInt(total);
  }

  // ---------------------------------------------------------------------
  // The match record
  // ---------------------------------------------------------------------

  /** The first table of a match page, cell by cell (`iloc[row, col]`). */
  type Grid = seq<seq<String>>

  /** `grid.iloc[row, col]`, or `None` where pandas raises IndexError. */
  function Cell(grid: Grid, row: nat, col: nat): (r: Option<String>)
    ensures r.Some? <==> row < |grid| && col < |grid[row]|
    ensures r.Some? ==> r.value == grid[row][col]
  {
    if row < |grid| && col < |grid[row]| then Some(grid[row][col]) else None
  }

  /** Why a match record could not be built. */
  datatype MatchError = MissingCell(row: nat, col: nat) | BadScore(row: nat, reason: ScoreError)

  /** One row of the match table. */
  datatype MatchRow = MatchRow(
    homeTeam: String, awayTeam: String, umpires: String,
    round: String, attendance: String, venue: String, date: String,
    season: int, margin: int, homeScore: int, awayScore: int, url: String)

  function Require(grid: Grid, row: nat, col: nat): Result<String, MatchError> {
    match Cell(grid, row, col)
    case None => Failure(MissingCell(row, col))
    case Some(v) => Success(v)
  }

  function ScoreAt(grid: Grid, row: nat): Result<int, MatchError> {
    var cell :- Require(grid, row, 5);
    match ParseScore(cell)
    case Failure(e) => Failure(BadScore(row, e))
    case Success(t) => Success(t)
  }

  /** The cells `get_meta_data` reads all exist. */
  predicate HasMetaCells(grid: Grid) {
    |grid| > 5 && |grid[0]| > 1 && |grid[1]| > 5 && |grid[2]| > 5 && |grid[5]| > 2
  }

  /** `get_meta_data` followed by `create_match_info_csv` for the page at
      `url` of season `season`. */
  function BuildMatch(url: String, season: int, grid: Grid): (r: Result<MatchRow, MatchError>)
    ensures r.Success? <==> (HasMetaCells(grid)
      && ParseScore(grid[1][5]).Success? && ParseScore(grid[2][5]).Success?)
    ensures r.Success? ==> r.value.margin == r.value.homeScore - r.value.awayScore
    ensures r.Success? ==> (Success(r.value.homeScore) == ParseScore(grid[1][5])
      && Success(r.value.awayScore) == ParseScore(grid[2][5]))
    ensures r.Success? ==> (r.value.homeTeam == grid[1][1] && r.value.awayTeam == grid[2][1]
      && r.value.umpires == grid[5][2] && r.value.season == season && r.value.url == url)
    ensures r.Success? ==>
      && r.value.date == FieldParser.ExtractElements(grid[0][1], "Date")
      && r.value.venue == FieldParser.ExtractElements(grid[0][1], "Venue")
      && r.value.round == FieldParser.ExtractElements(grid[0][1], "Round")
      && r.value.attendance == FieldParser.ExtractElements(grid[0][1], "Attendance")
  {
    var home :- Require(grid, 1, 1);
    var away :- Require(grid, 2, 1);
    var umpires :- Require(grid, 5, 2);
    var header :- Require(grid, 0, 1);
    var date := FieldParser.ExtractElements(header, "Date");
    var venue := FieldParser.ExtractElements(header, "Venue");
    var round := FieldParser.ExtractElements(header, "Round");
    var attendance := FieldParser.ExtractElements(header, "Attendance");
    var homeScore :- ScoreAt(grid, 1);
    var awayScore :- ScoreAt(grid, 2);
    Success(MatchRow(home, away, umpires, round, attendance, venue, date,
                     season, homeScore - awayScore, homeScore, awayScore, url))
  }

  /** With "g.b.t" score cells the margin is the difference of the totals. */
  lemma MarginOfScoreCells(url: String, season: int, grid: Grid,
                           g1: nat, b1: nat, t1: int, g2: nat, b2: nat, t2: int)
    requires HasMetaCells(grid)
    requires grid[1][5] == ScoreCell(g1, b1, t1) && grid[2][5] == ScoreCell(g2, b2, t2)
    ensures BuildMatch(url, season, grid).Success?
    ensures BuildMatch(url, season, grid).value.margin == t1 - t2
  {
    ParseScoreCell(g1, b1, t1);
    ParseScoreCell(g2, b2, t2);
  }
}
