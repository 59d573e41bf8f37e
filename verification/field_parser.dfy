/** The positional field parser `afl_match.extract_elements`: one labelled
    field is cut out of a match's free-text header such as
    "Round: 5 Venue: M.C.G. Date: Sat, 30-Mar-2019 Attendance: 81231". */
module FieldParser {
  import opened Wrappers
  import opened Text

  /** The header labels in the order the page prints them, closed by an
      empty sentinel that stands for "the rest of the line". */
  const Titles: seq<String> := ["Round:", "Venue:", "Date:", "Attendance:", ""]

  /** The in-band sentinels the parser returns instead of a value. */
  const InvalidElementText: String := "Invalid Element"
  const NotFoundText: String := "Not Found"

  /** The field names the parser accepts (case-sensitive). */
  const FieldNames: set<String> := {"Round", "Venue", "Date", "Attendance"}

  /** The label a field's value is read after. */
  function Label(element: String): String {
    element + ":"
  }

  /** The label that closes a field's value, stated directly from the page
      layout: the next label in the header, or nothing for the last field. */
  function Successor(element: String): String
    requires element in FieldNames
  {
    if element == "Round" then "Venue:"
    else if element == "Venue" then "Date:"
    else if element == "Date" then "Attendance:"
    else ""
  }

  /** What the parser found, with the two sentinels kept apart from values. */
  datatype Field = Found(value: String) | NotFound | InvalidElement

  // ---------------------------------------------------------------------
  // Semantics of `re.search(s1 + '(.*)' + s2, s)` for literal s1, s2
  // ---------------------------------------------------------------------

  /** The pattern matches with `s1` at `p` and `s2` at `q`: the captured
      text between them lies on one line, because `.` does not match a
      newline. */
  predicate PatternMatch(s: String, s1: String, s2: String, p: int, q: int) {
    OccursAt(s, s1, p) && p + |s1| <= q && OccursAt(s, s2, q)
    && '\n' !in s[p + |s1|..q]
  }

  /** The match `re.search` reports: the leftmost start, and for it the
      longest capture, since `.*` is greedy. */
  ghost predicate IsSearchMatch(s: String, s1: String, s2: String, p: int, q: int) {
    && PatternMatch(s, s1, s2, p, q)
    && (forall p', q' :: 0 <= p' < p ==> !PatternMatch(s, s1, s2, p', q'))
    && (forall q' :: q < q' ==> !PatternMatch(s, s1, s2, p, q'))
  }

  /** `re.search` has at most one answer. */
  lemma SearchMatchUnique(s: String, s1: String, s2: String, p1: int, q1: int, p2: int, q2: int)
    requires IsSearchMatch(s, s1, s2, p1, q1) && IsSearchMatch(s, s1, s2, p2, q2)
    ensures p1 == p2 && q1 == q2
  {
  }

  /** No match of `s1` at `p` reaches past the end of the line. */
  lemma NoMatchPastLine(s: String, s1: String, s2: String, p: nat)
    requires OccursAt(s, s1, p)
    ensures forall q :: LineEnd(s, p + |s1|) < q ==> !PatternMatch(s, s1, s2, p, q)
  {
    var start := p + |s1|;
    forall q | LineEnd(s, start) < q
      ensures !PatternMatch(s, s1, s2, p, q)
    {
      if q <= |s| { LineEndBlocks(s, start, q); }
    }
  }

  /** The first `s1` from `from` with its last `s2` on the same line is the
      search match from `from`. */
  lemma MatchOnLine(s: String, s1: String, s2: String, from: nat, p: nat, q: nat)
    requires IndexOf(s, s1, from) == Some(p)
    requires LastIndexIn(s, s2, p + |s1|, LineEnd(s, p + |s1|)) == Some(q)
    ensures PatternMatch(s, s1, s2, p, q)
    ensures forall p', q' :: from <= p' < p ==> !PatternMatch(s, s1, s2, p', q')
    ensures forall q' :: q < q' ==> !PatternMatch(s, s1, s2, p, q')
  {
    NoMatchPastLine(s, s1, s2, p);
    NoNewlinePrefix(s, p + |s1|, q, LineEnd(s, p + |s1|));
  }

  /** When the first `s1` from `from` has no `s2` on its line, nothing
      matches from `from` up to and including that `s1`. */
  lemma NoMatchUpTo(s: String, s1: String, s2: String, from: nat, p: nat)
    requires IndexOf(s, s1, from) == Some(p)
    requires LastIndexIn(s, s2, p + |s1|, LineEnd(s, p + |s1|)).None?
    ensures forall p', q' :: from <= p' <= p ==> !PatternMatch(s, s1, s2, p', q')
  {
    NoMatchPastLine(s, s1, s2, p);
  }

  /** The matcher, scanning start positions from `from` rightwards; for each
      occurrence of `s1` it takes the last `s2` on the same line. */
  function SearchFrom(s: String, s1: String, s2: String, from: nat): (r: Option<(nat, nat)>)
    ensures r.Some? ==> from <= r.value.0 && PatternMatch(s, s1, s2, r.value.0, r.value.1)
    ensures r.Some? ==> forall p', q' :: from <= p' < r.value.0 ==> !PatternMatch(s, s1, s2, p', q')
    ensures r.Some? ==> forall q' :: r.value.1 < q' ==> !PatternMatch(s, s1, s2, r.value.0, q')
    ensures r.None? ==> forall p, q :: from <= p ==> !PatternMatch(s, s1, s2, p, q)
    decreases |s| + 1 - from
  {
    if from > |s| then None
    else
      match IndexOf(s, s1, from)
      case None => None
      case Some(p) =>
        var lineEnd := LineEnd(s, p + |s1|);
        match LastIndexIn(s, s2, p + |s1|, lineEnd)
        case Some(q) =>
          MatchOnLine(s, s1, s2, from, p, q);
          Some((p, q))
        case None =>
          NoMatchUpTo(s, s1, s2, from, p);
          SearchFrom(s, s1, s2, p + 1)
  }

  // ---------------------------------------------------------------------
  // Label bookkeeping of extract_elements
  // ---------------------------------------------------------------------

  /** `id_met[0]`: the index of the first title that contains `element`. */
  function FirstTitleContaining(element: String, from: nat): (k: nat)
    requires from <= |Titles|
    ensures from <= k <= |Titles|
    ensures k < |Titles| ==> Contains(Titles[k], element)
    ensures forall j :: from <= j < k ==> !Contains(Titles[j], element)
    decreases |Titles| - from
  {
    if from == |Titles| then from
    else if Contains(Titles[from], element) then from
    else FirstTitleContaining(element, from + 1)
  }

  lemma ContainsOwnPrefix(element: String)
    ensures Contains(Label(element), element)
  {
    assert Label(element)[0..|element|] == element;
    assert OccursAt(Label(element), element, 0);
  }

  /** A pattern whose first character is absent does not occur. */
  lemma AbsentFirstChar(s: String, pat: String)
    requires |pat| > 0 && pat[0] !in s
    ensures IndexOf(s, pat, 0) == None
  {
    forall k
      ensures !OccursAt(s, pat, k)
    {
      if 0 <= k && k + |pat| <= |s| {
        assert s[k..k + |pat|][0] == s[k];
      }
    }
  }

  /** A slice of a single-line string is single-line. */
  lemma NoNewlineSlice(s: String, i: int, j: int)
    requires '\n' !in s && 0 <= i <= j <= |s|
    ensures '\n' !in s[i..j]
  {
    forall k | 0 <= k < j - i
      ensures s[i..j][k] != '\n'
    {
      assert s[i..j][k] == s[i + k];
    }
  }

  /** A prefix of a single-line slice is single-line. */
  lemma NoNewlinePrefix(s: String, i: int, j: int, k: int)
    requires 0 <= i <= j <= k <= |s| && '\n' !in s[i..k]
    ensures '\n' !in s[i..j]
  {
    assert s[i..j] == s[i..k][..j - i];
  }

  /** `id_met[0]` is `j` when title `j` is the first to contain `element`. */
  lemma FirstTitleIs(element: String, j: nat)
    requires j < |Titles| && Contains(Titles[j], element)
    requires forall i :: 0 <= i < j ==> !Contains(Titles[i], element)
    ensures FirstTitleContaining(element, 0) == j
  {
  }

  /** The membership test `element + ":" in Titles` (and `element != ""`)
      accepts exactly the four field names. */
  lemma TitleMembership(element: String)
    ensures (Label(element) in Titles && element != "") <==> element in FieldNames
  {
    if Label(element) in Titles && element != "" {
      var t := Label(element);
      assert element == t[..|t| - 1];
      assert t == "Round:" || t == "Venue:" || t == "Date:" || t == "Attendance:";
      assert "Round:"[..5] == "Round";
      assert "Venue:"[..5] == "Venue";
      assert "Date:"[..4] == "Date";
      assert "Attendance:"[..10] == "Attendance";
    }
    if element in FieldNames {
      assert Label("Round") == Titles[0];
      assert Label("Venue") == Titles[1];
      assert Label("Date") == Titles[2];
      assert Label("Attendance") == Titles[3];
    }
  }

  lemma FirstTitleOfRound(element: String)
    requires element == "Round"
    ensures FirstTitleContaining(element, 0) == 0
    ensures Titles[0] == Label(element) && Titles[1] == Successor(element)
  {
    ContainsOwnPrefix("Round");
    assert Titles[0] == Label("Round");
    FirstTitleIs("Round", 0);
  }

  lemma FirstTitleOfVenue(element: String)
    requires element == "Venue"
    ensures FirstTitleContaining(element, 0) == 1
    ensures Titles[1] == Label(element) && Titles[2] == Successor(element)
  {
    ContainsOwnPrefix("Venue");
    assert Titles[1] == Label("Venue");
    AbsentFirstChar(Titles[0], "Venue");
    FirstTitleIs("Venue", 1);
  }

  lemma FirstTitleOfDate(element: String)
    requires element == "Date"
    ensures FirstTitleContaining(element, 0) == 2
    ensures Titles[2] == Label(element) && Titles[3] == Successor(element)
  {
    ContainsOwnPrefix("Date");
    assert Titles[2] == Label("Date");
    AbsentFirstChar(Titles[0], "Date");
    AbsentFirstChar(Titles[1], "Date");
    FirstTitleIs("Date", 2);
  }

  lemma FirstTitleOfAttendance(element: String)
    requires element == "Attendance"
    ensures FirstTitleContaining(element, 0) == 3
    ensures Titles[3] == Label(element) && Titles[4] == Successor(element)
  {
    ContainsOwnPrefix("Attendance");
    assert Titles[3] == Label("Attendance");
    AbsentFirstChar(Titles[0], "Attendance");
    AbsentFirstChar(Titles[1], "Attendance");
    AbsentFirstChar(Titles[2], "Attendance");
    FirstTitleIs("Attendance", 3);
  }

  /** For a field name the substring lookup of `extract_elements` lands on the field's
      own label, and the label after it is the field's successor. */
  lemma TitlesOfField(element: String)
    requires element in FieldNames
    ensures FirstTitleContaining(element, 0) + 1 < |Titles|
    ensures Titles[FirstTitleContaining(element, 0)] == Label(element)
    ensures Titles[FirstTitleContaining(element, 0) + 1] == Successor(element)
  {
    if element == "Round" {
      FirstTitleOfRound(element);
    } else if element == "Venue" {
      FirstTitleOfVenue(element);
    } else if element == "Date" {
      FirstTitleOfDate(element);
    } else {
      assert element == "Attendance";
      FirstTitleOfAttendance(element);
    }
  }

  // ---------------------------------------------------------------------
  // The parser
  // ---------------------------------------------------------------------

  /** `v` is the whitespace-stripped text that `re.search(s1 + '(.*)' + s2, s)`
      captures. */
  ghost predicate IsCaptureValue(s: String, s1: String, s2: String, v: String) {
    exists p, q :: IsSearchMatch(s, s1, s2, p, q) && IsStripOf(s[p + |s1|..q], v)
  }

  /** The stripped capture is unique. */
  lemma CaptureValueUnique(s: String, s1: String, s2: String, v1: String, v2: String)
    requires IsCaptureValue(s, s1, s2, v1) && IsCaptureValue(s, s1, s2, v2)
    ensures v1 == v2
  {
    var p1, q1 :| IsSearchMatch(s, s1, s2, p1, q1) && IsStripOf(s[p1 + |s1|..q1], v1);
    var p2, q2 :| IsSearchMatch(s, s1, s2, p2, q2) && IsStripOf(s[p2 + |s1|..q2], v2);
    SearchMatchUnique(s, s1, s2, p1, q1, p2, q2);
    StripUnique(s[p1 + |s1|..q1], v1, v2);
  }

  /** `v` is the value of field `element` in `header`: the whitespace-
      stripped text captured by `re.search` between the field's label and
      its successor. */
  ghost predicate IsFieldValue(header: String, element: String, v: String)
    requires element in FieldNames
  {
    IsCaptureValue(header, Label(element), Successor(element), v)
  }

  /** A field has at most one value. */
  lemma FieldValueUnique(header: String, element: String, v1: String, v2: String)
    requires element in FieldNames
    requires IsFieldValue(header, element, v1) && IsFieldValue(header, element, v2)
    ensures v1 == v2
  {
    CaptureValueUnique(header, Label(element), Successor(element), v1, v2);
  }

  /** The two labels `extract_elements` searches between: `Titles[id_met[0]]` and
      the title after it, or nothing when the validity test refuses the
      name. */
  function SearchLabels(element: String): (r: Option<(String, String)>)
    ensures r.None? <==> element !in FieldNames
    ensures r.Some? ==> r.value == (Label(element), Successor(element))
  {
    TitleMembership(element);
    if !(element + ":" in Titles) || element == "" then None
    else
      TitlesOfField(element);
      var k := FirstTitleContaining(element, 0);
      Some((Titles[k], Titles[k + 1]))
  }

  /** The stripped capture of the search from the start of `s`, if any. */
  function SearchCapture(s: String, s1: String, s2: String): (r: Option<String>)
    ensures r.None? <==> forall p, q :: !PatternMatch(s, s1, s2, p, q)
    ensures r.Some? ==> IsCaptureValue(s, s1, s2, r.value)
  {
    match SearchFrom(s, s1, s2, 0)
    case None => None
    case Some(m) =>
      var v := Strip(s[m.0 + |s1|..m.1]);
      assert IsSearchMatch(s, s1, s2, m.0, m.1);
      Some(v)
  }

  /** `extract_elements` with its outcome kept apart from values. */
  function ExtractField(header: String, element: String): (r: Field)
    ensures r.InvalidElement? <==> element !in FieldNames
    ensures r.NotFound? <==> (element in FieldNames
      && forall p, q :: !PatternMatch(header, Label(element), Successor(element), p, q))
    ensures r.Found? ==> element in FieldNames && IsFieldValue(header, element, r.value)
  {
    match SearchLabels(element)
    case None => InvalidElement
    case Some(labels) =>
      match SearchCapture(header, labels.0, labels.1)
      case None => NotFound
      case Some(v) => Found(v)
  }

  /** `extract_elements` exactly as the script returns it: the value, or one
      of the two sentinel strings. */
  function ExtractElements(header: String, element: String): (r: String)
    ensures element !in FieldNames ==> r == InvalidElementText
    ensures element in FieldNames
      && (forall p, q :: !PatternMatch(header, Label(element), Successor(element), p, q))
      ==> r == NotFoundText
    ensures element in FieldNames
      && (exists p, q :: PatternMatch(header, Label(element), Successor(element), p, q))
      ==> IsFieldValue(header, element, r)
  {
    match ExtractField(header, element)
    case Found(v) => v
    case NotFound => NotFoundText
    case InvalidElement => InvalidElementText
  }

  /** Any value satisfying the reference definition is what the parser
      returns: together with `ExtractField`'s contract this makes the
      parser and `IsFieldValue` agree in both directions. */
  lemma ExtractFieldComplete(header: String, element: String, v: String)
    requires element in FieldNames && IsFieldValue(header, element, v)
    ensures ExtractField(header, element) == Found(v)
  {
    var l, n := Label(element), Successor(element);
    var p, q :| IsSearchMatch(header, l, n, p, q) && IsStripOf(header[p + |l|..q], v);
    var r := ExtractField(header, element);
    assert !r.NotFound?;
    FieldValueUnique(header, element, r.value, v);
  }

  /** The parser returns the stripped capture of `re.search`'s match. */
  lemma SearchMatchValue(header: String, element: String, p: int, q: int)
    requires element in FieldNames
    requires IsSearchMatch(header, Label(element), Successor(element), p, q)
    ensures ExtractField(header, element) == Found(Strip(header[p + |Label(element)|..q]))
  {
    var v := Strip(header[p + |Label(element)|..q]);
    assert IsFieldValue(header, element, v);
    ExtractFieldComplete(header, element, v);
  }

  /** A found value is returned as it is. */
  lemma ElementsOfFound(header: String, element: String, v: String)
    requires ExtractField(header, element) == Found(v)
    ensures ExtractElements(header, element) == v
  {
  }

  // ---------------------------------------------------------------------
  // Consequences for single-line headers and for the last field
  // ---------------------------------------------------------------------

  /** On a string without newlines, `s1(.*)s2` matches exactly when some
      `s1` is followed, at or after its end, by an `s2`. */
  lemma NewlineFreePatternMatch(s: String, s1: String, s2: String)
    requires '\n' !in s
    ensures (forall p, q :: !PatternMatch(s, s1, s2, p, q))
      <==> forall p, q :: OccursAt(s, s1, p) && OccursAt(s, s2, q) ==> q < p + |s1|
  {
    forall p, q | OccursAt(s, s1, p) && OccursAt(s, s2, q) && p + |s1| <= q
      ensures PatternMatch(s, s1, s2, p, q)
    {
      NoNewlineSlice(s, p + |s1|, q);
    }
  }

  /** On a header without newlines a field is missing exactly when its label
      is never followed, at or after the label's end, by its successor. */
  lemma NewlineFreeNotFound(header: String, element: String)
    requires '\n' !in header && element in FieldNames
    ensures ExtractField(header, element).NotFound? <==>
      forall p, q :: OccursAt(header, Label(element), p) && OccursAt(header, Successor(element), q)
        ==> q < p + |Label(element)|
  {
    NewlineFreePatternMatch(header, Label(element), Successor(element));
  }

  /** On a string without newlines the search match is the first `s1` and
      the last `s2` at or after its end. */
  lemma NewlineFreeSearchMatch(s: String, s1: String, s2: String, p: nat, q: nat)
    requires '\n' !in s
    requires IndexOf(s, s1, 0) == Some(p)
    requires OccursAt(s, s2, q) && p + |s1| <= q
    requires forall q' :: q < q' ==> !OccursAt(s, s2, q')
    ensures IsSearchMatch(s, s1, s2, p, q)
  {
    NoNewlineSlice(s, p + |s1|, q);
    forall p', q' | 0 <= p' < p
      ensures !PatternMatch(s, s1, s2, p', q')
    {
      assert !OccursAt(s, s1, p');
    }
  }

  /** On a header without newlines the value is read between the FIRST
      occurrence of the label and the LAST later occurrence of the
      successor. */
  lemma NewlineFreeValue(header: String, element: String, p: nat, q: nat)
    requires '\n' !in header && element in FieldNames
    requires IndexOf(header, Label(element), 0) == Some(p)
    requires OccursAt(header, Successor(element), q) && p + |Label(element)| <= q
    requires forall q' :: q < q' ==> !OccursAt(header, Successor(element), q')
    ensures ExtractField(header, element) == Found(Strip(header[p + |Label(element)|..q]))
  {
    assert IsSearchMatch(header, Label(element), Successor(element), p, q) by {
      NewlineFreeSearchMatch(header, Label(element), Successor(element), p, q);
    }
    SearchMatchValue(header, element, p, q);
  }

  /** With an empty `s2`, the search match runs from the first `s1` to the
      end of its line. */
  lemma EmptySuccessorMatch(s: String, s1: String, p: nat)
    requires IndexOf(s, s1, 0) == Some(p)
    ensures IsSearchMatch(s, s1, "", p, LineEnd(s, p + |s1|))
  {
    var e := LineEnd(s, p + |s1|);
    assert OccursAt(s, "", e);
    NoMatchPastLine(s, s1, "", p);
    forall p', q' | 0 <= p' < p
      ensures !PatternMatch(s, s1, "", p', q')
    {
      assert !OccursAt(s, s1, p');
    }
  }

  /** The last field is closed by the empty sentinel, so it is found whenever
      its label occurs at all, and it runs to the end of that line. */
  lemma AttendanceRunsToLineEnd(header: String, element: String, p: nat)
    requires element == "Attendance"
    requires IndexOf(header, Label(element), 0) == Some(p)
    ensures ExtractField(header, element)
      == Found(Strip(header[p + 11..LineEnd(header, p + 11)]))
  {
    assert |Label(element)| == 11 && Successor(element) == "";
    assert IsSearchMatch(header, Label(element), Successor(element), p, LineEnd(header, p + 11)) by {
      EmptySuccessorMatch(header, Label(element), p);
    }
    SearchMatchValue(header, element, p, LineEnd(header, p + 11));
  }

  /** Without its label anywhere, the last field is not found. */
  lemma AttendanceMissing(header: String, element: String)
    requires element == "Attendance"
    requires IndexOf(header, Label(element), 0) == None
    ensures ExtractElements(header, element) == NotFoundText
  {
    assert element in FieldNames && Successor(element) == "";
  }

  // ---------------------------------------------------------------------
  // Worked examples
  // ---------------------------------------------------------------------

  lemma ExampleRoundLabels(h: String, element: String)
    requires h == "Round: 5 Venue: MCG" && element == "Round"
    ensures IndexOf(h, Label(element), 0) == Some(0)
    ensures OccursAt(h, Successor(element), 9)
    ensures forall q' :: 9 < q' ==> !OccursAt(h, Successor(element), q')
  {
    assert h[0..6] == Label(element);
    assert h[9..15] == Successor(element);
    assert 'V' !in h[10..] by { assert h[10..] == "enue: MCG"; }
    forall q' | 9 < q'
      ensures !OccursAt(h, Successor(element), q')
    {
      if q' + 6 <= |h| {
        assert h[q'..q' + 6][0] == h[10..][q' - 10];
      }
    }
  }

  lemma ExampleStrip(t: String)
    requires t == " 5 "
    ensures Strip(t) == "5"
  {
    assert IsSpace(' ') && !IsSpace('5');
    assert StrippedAt(t, "5", 1) by {
      assert t[1..2] == "5";
      assert t[..1] == " ";
      assert t[2..] == " ";
    }
    assert IsStripOf(t, "5");
    StripUnique(t, "5", Strip(t));
  }

  /** A single-line header that starts with the label and whose last
      successor is at `q` holds the field's value between the two. */
  lemma ValueAfterLeadingLabel(h: String, element: String, q: nat)
    requires element in FieldNames && '\n' !in h
    requires IndexOf(h, Label(element), 0) == Some(0)
    requires OccursAt(h, Successor(element), q) && |Label(element)| <= q
    requires forall q' :: q < q' ==> !OccursAt(h, Successor(element), q')
    ensures ExtractField(h, element) == Found(Strip(h[|Label(element)|..q]))
  {
    LeadingSearchMatch(h, Label(element), Successor(element), q);
    SearchMatchValue(h, element, 0, q);
  }

  /** `NewlineFreeSearchMatch` with the label at the very start. */
  lemma LeadingSearchMatch(h: String, s1: String, s2: String, q: nat)
    requires '\n' !in h
    requires IndexOf(h, s1, 0) == Some(0)
    requires OccursAt(h, s2, q) && |s1| <= q
    requires forall q' :: q < q' ==> !OccursAt(h, s2, q')
    ensures IsSearchMatch(h, s1, s2, 0, q)
  {
    NewlineFreeSearchMatch(h, s1, s2, 0, q);
  }

  lemma ExampleRoundValue(h: String)
    requires h == "Round: 5 Venue: MCG"
    ensures Strip(h[6..9]) == "5"
  {
    ExampleStrip(h[6..9]);
  }

  /** `extract_elements("Round: 5 Venue: MCG", "Round")` is "5". */
  lemma ExampleRound(h: String, element: String)
    requires h == "Round: 5 Venue: MCG" && element == "Round"
    ensures ExtractElements(h, element) == "5"
  {
    ExampleRoundLabels(h, element);
    assert element in FieldNames && '\n' !in h && |Label(element)| == 6;
    ValueAfterLeadingLabel(h, element, 9);
    ExampleRoundValue(h);
    ElementsOfFound(h, element, "5");
  }

  /** `extract_elements("Venue: MCG", "Round")` is "Not Found". */
  lemma ExampleRoundMissing(h: String, element: String)
    requires h == "Venue: MCG" && element == "Round"
    ensures ExtractElements(h, element) == NotFoundText
  {
    AbsentFirstChar(h, Label(element));
    assert element in FieldNames;
  }

  /** Names other than the four (other spellings, other casing, the empty
      name) are refused whatever the header. */
  lemma ExampleInvalid(header: String, element: String)
    requires element == "Score" || element == "round" || element == ""
    ensures ExtractElements(header, element) == InvalidElementText
  {
    assert element !in FieldNames;
  }
}
