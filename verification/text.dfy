/** String primitives used by the scraper's core: substring search, Python's
    `str.strip()`, `str.split(sep)` and `str.replace(old, new)`, each given a
    characterisation independent of the way it is computed. */
module Text {
  import opened Wrappers

  type String = seq<char>

  // ---------------------------------------------------------------------
  // Occurrences
  // ---------------------------------------------------------------------

  /** `pat` occurs in `s` starting at index `i`. */
  predicate OccursAt(s: String, pat: String, i: int) {
    0 <= i && i + |pat| <= |s| && s[i..i + |pat|] == pat
  }


  /** `s` begins with `prefix`. */
  predicate StartsWith(s: String, prefix: String) {
    OccursAt(s, prefix, 0)
  }

  /** The first occurrence of `pat` in `s` at or after `from`. */
  function IndexOf(s: String, pat: String, from: nat): (r: Option<nat>)
    ensures r.Some? ==> from <= r.value && OccursAt(s, pat, r.value)
    ensures r.Some? ==> forall k :: from <= k < r.value ==> !OccursAt(s, pat, k)
    ensures r.None? ==> forall k :: from <= k ==> !OccursAt(s, pat, k)
    decreases |s| - from
  {
    if from + |pat| > |s| then None
    else if s[from..from + |pat|] == pat then Some(from)
    else IndexOf(s, pat, from + 1)
  }

  /** Python's `pat in s` on strings. */
  predicate Contains(s: String, pat: String): (b: bool)
    ensures b <==> exists i :: OccursAt(s, pat, i)
  {
    IndexOf(s, pat, 0).Some?
  }

  /** The last occurrence of `pat` in `s` that starts within `[lo, hi]`. */
  function LastIndexIn(s: String, pat: String, lo: nat, hi: int): (r: Option<nat>)
    ensures r.Some? ==> lo <= r.value <= hi && OccursAt(s, pat, r.value)
    ensures r.Some? ==> forall k :: r.value < k <= hi ==> !OccursAt(s, pat, k)
    ensures r.None? ==> forall k :: lo <= k <= hi ==> !OccursAt(s, pat, k)
    decreases hi - lo
  {
    if hi < lo then None
    else if OccursAt(s, pat, hi) then Some(hi)
    else LastIndexIn(s, pat, lo, hi - 1)
  }

  /** The end of the line that contains index `i`: the first newline at or
      after `i`, or the end of `s`. */
  function LineEnd(s: String, i: nat): (r: nat)
    requires i <= |s|
    ensures i <= r <= |s|
    ensures '\n' !in s[i..r]
    ensures r < |s| ==> s[r] == '\n'
    decreases |s| - i
  {
    if i == |s| || s[i] == '\n' then i
    else
      var r := LineEnd(s, i + 1);
      assert s[i..r] == [s[i]] + s[i + 1..r];
      r
  }

  /** A span reaching past the end of its line contains the newline. */
  lemma LineEndBlocks(s: String, i: nat, j: int)
    requires i <= |s| && LineEnd(s, i) < j <= |s|
    ensures '\n' in s[i..j]
  {
    var e := LineEnd(s, i);
    assert s[i..j][e - i] == s[e];
  }

  // ---------------------------------------------------------------------
  // Whitespace and strip()
  // ---------------------------------------------------------------------

  /** Python 2.7's `unicode.isspace()`: the characters `strip()` removes. */
  predicate IsSpace(c: char) {
    || ('\t' <= c <= '\r')
    || ('\U{1C}' <= c <= '\U{1F}')
    || c == ' '
    || c == '\U{85}'
    || c == '\U{A0}'
    || c == '\U{1680}'
    || c == '\U{180E}'
    || ('\U{2000}' <= c <= '\U{200A}')
    || c == '\U{2028}'
    || c == '\U{2029}'
    || c == '\U{202F}'
    || c == '\U{205F}'
    || c == '\U{3000}'
  }

  predicate AllSpace(s: String) {
    forall k :: 0 <= k < |s| ==> IsSpace(s[k])
  }

  /** Neither end of `s` is whitespace. */
  predicate Bare(s: String) {
    s == [] || (!IsSpace(s[0]) && !IsSpace(s[|s| - 1]))
  }

  /** `r` is the slice of `s` at `i`, flanked only by whitespace and not
      itself starting or ending with whitespace. */
  predicate StrippedAt(s: String, r: String, i: int) {
    0 <= i && i + |r| <= |s| && s[i..i + |r|] == r
    && AllSpace(s[..i]) && AllSpace(s[i + |r|..]) && Bare(r)
  }

  /** `r` is `s` with its leading and trailing whitespace removed. This pins
      `r` down uniquely (see `StripUnique`). */
  ghost predicate IsStripOf(s: String, r: String) {
    exists i :: StrippedAt(s, r, i)
  }

  /** Python's `s.lstrip()`; `LStripRemovesSpace` states what it
      removes. */
  function LStrip(s: String): String {
    if |s| > 0 && IsSpace(s[0]) then LStrip(s[1..]) else s
  }

  /** `lstrip()` removes a run of whitespace from the front and stops at
      the first other character. */
  lemma {:induction false} LStripRemovesSpace(s: String)
    ensures |LStrip(s)| <= |s| && LStrip(s) == s[|s| - |LStrip(s)|..]
    ensures AllSpace(s[..|s| - |LStrip(s)|])
    ensures LStrip(s) == [] || !IsSpace(LStrip(s)[0])
  {
    if |s| > 0 && IsSpace(s[0]) {
      var r := LStrip(s[1..]);
      LStripRemovesSpace(s[1..]);
      assert s[..|s| - |r|] == [s[0]] + s[1..][..|s[1..]| - |r|];
    }
  }

  /** A string that starts with no whitespace is its own `lstrip()`. */
  lemma LStripBare(s: String)
    requires s == [] || !IsSpace(s[0])
    ensures LStrip(s) == s
  {
  }

  /** Python's `s.rstrip()`. */
  function RStrip(s: String): (r: String)
    ensures |r| <= |s| && r == s[..|r|]
    ensures AllSpace(s[|r|..])
    ensures r == [] || !IsSpace(r[|r| - 1])
  {
    if |s| > 0 && IsSpace(s[|s| - 1]) then
      var r := RStrip(s[..|s| - 1]);
      assert s[|r|..] == s[..|s| - 1][|r|..] + [s[|s| - 1]];
      r
    else s
  }

  /** Python's `s.strip()`. */
  function Strip(s: String): (r: String)
    ensures |r| <= |s|
    ensures IsStripOf(s, r)
  {
    var l := LStrip(s);
    var r := RStrip(l);
    LStripRemovesSpace(s);
    StripOfParts(s, l, r);
    r
  }

  /** Stripping the left end and then the right end leaves the stripped
      slice at the left end's length. */
  lemma StripOfParts(s: String, l: String, r: String)
    requires |l| <= |s| && l == s[|s| - |l|..] && AllSpace(s[..|s| - |l|])
    requires l == [] || !IsSpace(l[0])
    requires |r| <= |l| && r == l[..|r|] && AllSpace(l[|r|..])
    requires r == [] || !IsSpace(r[|r| - 1])
    ensures StrippedAt(s, r, |s| - |l|)
  {
    var i := |s| - |l|;
    assert s[i..i + |r|] == r;
    assert s[i + |r|..] == l[|r|..];
    if r != [] {
      assert r[0] == l[0];
    }
  }

  lemma SpaceBefore(s: String, i: int, j: int)
    requires 0 <= i < j <= |s| && AllSpace(s[..j])
    ensures IsSpace(s[i])
  {
    assert s[..j][i] == s[i];
  }

  lemma SpaceFrom(s: String, i: int, j: int)
    requires 0 <= j <= i < |s| && AllSpace(s[j..])
    ensures IsSpace(s[i])
  {
    assert s[j..][i - j] == s[i];
  }

  /** Two stripped slices of one string are the same slice. */
  lemma StrippedAtUnique(s: String, r1: String, i1: int, r2: String, i2: int)
    requires StrippedAt(s, r1, i1) && StrippedAt(s, r2, i2)
    ensures r1 == r2
  {
    if r1 != [] {
      assert s[i1] == r1[0] && s[i1 + |r1| - 1] == r1[|r1| - 1];
    }
    if r2 != [] {
      assert s[i2] == r2[0] && s[i2 + |r2| - 1] == r2[|r2| - 1];
    }
    if r1 != [] && r2 == [] {
      if i1 < i2 { SpaceBefore(s, i1, i2); } else { SpaceFrom(s, i1, i2); }
    } else if r1 == [] && r2 != [] {
      if i2 < i1 { SpaceBefore(s, i2, i1); } else { SpaceFrom(s, i2, i1); }
    } else if r1 != [] && r2 != [] {
      if i1 < i2 { SpaceBefore(s, i1, i2); }
      if i2 < i1 { SpaceBefore(s, i2, i1); }
      var e1 := i1 + |r1|;
      var e2 := i2 + |r2|;
      if e1 < e2 { SpaceFrom(s, e2 - 1, e1); }
      if e2 < e1 { SpaceFrom(s, e1 - 1, e2); }
    }
  }

  /** Whitespace-stripping has exactly one answer. */
  lemma StripUnique(s: String, r1: String, r2: String)
    requires IsStripOf(s, r1) && IsStripOf(s, r2)
    ensures r1 == r2
  {
    var i1 :| StrippedAt(s, r1, i1);
    var i2 :| StrippedAt(s, r2, i2);
    StrippedAtUnique(s, r1, i1, r2, i2);
  }

  /** A string with no whitespace at either end strips to itself. */
  lemma StripBare(s: String)
    requires Bare(s)
    ensures Strip(s) == s
  {
    assert s[0..0 + |s|] == s;
    assert s[..0] == [] && s[|s|..] == [];
    assert StrippedAt(s, s, 0);
    StripUnique(s, s, Strip(s));
  }

  // ---------------------------------------------------------------------
  // split() and its inverse join()
  // ---------------------------------------------------------------------

  /** Python's `s.split(sep)` for a one-character separator. */
  function Split(s: String, sep: char): (r: seq<String>)
    ensures |r| >= 1
    ensures forall k :: 0 <= k < |r| ==> sep !in r[k]
  {
    if |s| == 0 then [[]]
    else if s[0] == sep then [[]] + Split(s[1..], sep)
    else
      var rest := Split(s[1..], sep);
      [[s[0]] + rest[0]] + rest[1..]
  }

  /** Python's `sep.join(parts)`. */
  function Join(parts: seq<String>, sep: char): String
    requires |parts| >= 1
  {
    if |parts| == 1 then parts[0]
    else parts[0] + [sep] + Join(parts[1..], sep)
  }

  lemma {:induction false} JoinSplit(s: String, sep: char)
    ensures Join(Split(s, sep), sep) == s
  {
    if |s| == 0 {
    } else if s[0] == sep {
      JoinSplit(s[1..], sep);
      assert Split(s, sep)[1..] == Split(s[1..], sep);
    } else {
      var rest := Split(s[1..], sep);
      JoinSplit(s[1..], sep);
      var r := Split(s, sep);
      if |rest| == 1 {
        assert r == [[s[0]] + rest[0]];
      } else {
        assert r[1..] == rest[1..];
        assert Join(rest, sep) == rest[0] + [sep] + Join(rest[1..], sep);
      }
    }
  }

  lemma {:induction false} SplitJoin(parts: seq<String>, sep: char)
    requires |parts| >= 1
    requires forall k :: 0 <= k < |parts| ==> sep !in parts[k]
    ensures Split(Join(parts, sep), sep) == parts
    decreases |parts|, |parts[0]|
  {
    var s := Join(parts, sep);
    if |parts[0]| == 0 {
      if |parts| == 1 {
      } else {
        assert s == [sep] + Join(parts[1..], sep);
        assert s[1..] == Join(parts[1..], sep);
        SplitJoin(parts[1..], sep);
      }
    } else {
      var shorter := [parts[0][1..]] + parts[1..];
      assert forall k :: 0 <= k < |shorter| ==> sep !in shorter[k] by {
        forall k | 0 <= k < |shorter|
          ensures sep !in shorter[k]
        {
          if k == 0 {
            assert forall c :: c in parts[0][1..] ==> c in parts[0];
          } else {
            assert shorter[k] == parts[k];
          }
        }
      }
      SplitJoin(shorter, sep);
      assert shorter[1..] == parts[1..];
      assert parts[0][0] != sep by { assert parts[0][0] in parts[0]; }
      if |parts| == 1 {
        assert s == parts[0];
        assert s[1..] == Join(shorter, sep);
      } else {
        assert s == [parts[0][0]] + (parts[0][1..] + [sep] + Join(parts[1..], sep));
        assert s[1..] == Join(shorter, sep);
      }
      assert [parts[0][0]] + parts[0][1..] == parts[0];
      assert [[parts[0][0]] + parts[0][1..]] + parts[1..] == parts;
    }
  }

  // ---------------------------------------------------------------------
  // replace()
  // ---------------------------------------------------------------------

  /** Python's `s.replace(pat, repl)`: every occurrence of `pat`, found left
      to right without overlap, is replaced by `repl`. */
  function ReplaceAll(s: String, pat: String, repl: String): (r: String)
    requires |pat| > 0
    ensures (forall i :: !OccursAt(s, pat, i)) ==> r == s
    ensures |repl| == 0 ==> |r| <= |s|
    decreases |s|
  {
    if |s| < |pat| then s
    else if s[..|pat|] == pat then
      assert OccursAt(s, pat, 0);
      repl + ReplaceAll(s[|pat|..], pat, repl)
    else
      var rest := ReplaceAll(s[1..], pat, repl);
      assert forall i :: OccursAt(s[1..], pat, i) ==> OccursAt(s, pat, i + 1) by {
        forall i | OccursAt(s[1..], pat, i)
          ensures OccursAt(s, pat, i + 1)
        {
          assert s[1..][i..i + |pat|] == s[i + 1..i + 1 + |pat|];
        }
      }
      [s[0]] + rest
  }

  /** `pat` occurs at `i + 1` in `s` exactly when it occurs at `i` in the
      tail of `s`. */
  lemma OccursInTail(s: String, pat: String, i: int)
    requires |s| > 0 && 0 <= i
    ensures OccursAt(s[1..], pat, i) <==> OccursAt(s, pat, i + 1)
  {
    if i + 1 + |pat| <= |s| {
      assert s[1..][i..i + |pat|] == s[i + 1..i + 1 + |pat|];
    }
  }

  /** The leftmost occurrence is the first one replaced, and the scan
      resumes just after it: what precedes it is kept, and the rest is
      replaced on its own. */
  lemma ReplaceAllFirst(s: String, pat: String, repl: String, i: nat)
    requires |pat| > 0
    requires IndexOf(s, pat, 0) == Some(i)
    ensures ReplaceAll(s, pat, repl) == s[..i] + repl + ReplaceAll(s[i + |pat|..], pat, repl)
  {
    ReplaceAllBefore(s, pat, repl, i, s[i + |pat|..]);
  }

  /** `ReplaceAllFirst`, with the leftmost occurrence given by its
      defining properties and the text after it named `after`. */
  lemma {:induction false} ReplaceAllBefore(s: String, pat: String, repl: String, i: nat, after: String)
    requires |pat| > 0
    requires OccursAt(s, pat, i)
    requires forall k :: 0 <= k < i ==> !OccursAt(s, pat, k)
    requires after == s[i + |pat|..]
    ensures ReplaceAll(s, pat, repl) == s[..i] + repl + ReplaceAll(after, pat, repl)
    decreases i
  {
    if i == 0 {
      ReplaceAllFront(s, pat, repl, after);
      assert s[..0] + repl == repl;
    } else {
      var t := s[1..];
      ReplaceAllSkip(s, pat, repl);
      NoEarlierInTail(s, pat, i);
      assert after == t[i - 1 + |pat|..];
      ReplaceAllBefore(t, pat, repl, i - 1, after);
      HeadAndTail(s, i);
      ConsAssoc(s[0], t[..i - 1], repl, ReplaceAll(after, pat, repl));
    }
  }

  /** An occurrence at the front is replaced, and the scan moves past it. */
  lemma ReplaceAllFront(s: String, pat: String, repl: String, after: String)
    requires |pat| > 0 && OccursAt(s, pat, 0) && after == s[|pat|..]
    ensures ReplaceAll(s, pat, repl) == repl + ReplaceAll(after, pat, repl)
  {
    assert s[..|pat|] == pat;
  }

  lemma HeadAndTail(s: String, i: nat)
    requires 0 < i <= |s|
    ensures [s[0]] + s[1..][..i - 1] == s[..i]
  {
  }

  lemma ConsAssoc(c: char, a: String, b: String, d: String)
    ensures [c] + (a + b + d) == ([c] + a) + b + d
  {
  }

  /** Without an occurrence at the front, the first character is kept and
      the scan moves on by one. */
  lemma ReplaceAllSkip(s: String, pat: String, repl: String)
    requires |pat| > 0 && |s| >= |pat| && !OccursAt(s, pat, 0)
    ensures ReplaceAll(s, pat, repl) == [s[0]] + ReplaceAll(s[1..], pat, repl)
  {
  }

  /** The first occurrence in `s` at `i > 0` is the first occurrence in
      its tail at `i - 1`. */
  lemma NoEarlierInTail(s: String, pat: String, i: nat)
    requires 0 < i && OccursAt(s, pat, i)
    requires forall k :: 0 <= k < i ==> !OccursAt(s, pat, k)
    ensures OccursAt(s[1..], pat, i - 1)
    ensures forall k :: 0 <= k < i - 1 ==> !OccursAt(s[1..], pat, k)
  {
    OccursInTail(s, pat, i - 1);
    forall k | 0 <= k < i - 1
      ensures !OccursAt(s[1..], pat, k)
    {
      OccursInTail(s, pat, k);
    }
  }

  /** A leading occurrence is consumed first, whatever follows it. */
  lemma ReplaceAllLeading(pat: String, repl: String, t: String)
    requires |pat| > 0
    ensures ReplaceAll(pat + t, pat, repl) == repl + ReplaceAll(t, pat, repl)
  {
    var s := pat + t;
    assert s[..|pat|] == pat;
    assert s[|pat|..] == t;
  }

  // ---------------------------------------------------------------------
  // Subsequences
  // ---------------------------------------------------------------------

  /** `a` is `b` with some elements deleted and the rest kept in order. */
  predicate IsSubsequence<T(==)>(a: seq<T>, b: seq<T>)
    decreases |b|
  {
    if |a| == 0 then true
    else if |b| == 0 then false
    else if a[0] == b[0] then IsSubsequence(a[1..], b[1..])
    else IsSubsequence(a, b[1..])
  }
}
