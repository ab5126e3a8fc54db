/** Version-string normalisation: `clean_version` (the regular expression
    `\d+\.\d+(?:\.\d+)?` searched in the lowered, stripped text) and
    `extract_major_minor` (the expression `(\d+)\.(\d+)` searched in the raw
    text). Both are modelled as a leftmost search over end positions, and
    both are proved to return the leftmost-longest occurrence of a shape that
    is defined without any reference to the search. */
module Versions {
  import opened Wrappers
  import opened Text

  /** The two regular expressions of the module. */
  datatype Pattern =
    | MajorMinor   // (\d+)\.(\d+)
    | FullVersion  // \d+\.\d+(?:\.\d+)?

  // ---------------------------------------------------------------------
  // The shapes, stated on positions of a string.
  // ---------------------------------------------------------------------

  /** `s[a..b]` is a non-empty run of digits. */
  predicate DigitsBetween(s: string, a: int, b: int) {
    0 <= a < b <= |s| && forall k :: a <= k < b ==> IsDigit(s[k])
  }

  /** `s[i..j]` reads digits, the dot at `p`, digits. */
  predicate MajorMinorSplit(s: string, i: int, p: int, j: int) {
    DigitsBetween(s, i, p) && DigitsBetween(s, p + 1, j) && s[p] == '.'
  }

  ghost predicate MajorMinorIn(s: string, i: int, j: int) {
    exists p :: MajorMinorSplit(s, i, p, j)
  }

  /** `s[i..j]` is a major.minor text followed by a dot at `q` and digits. */
  ghost predicate PatchSplit(s: string, i: int, q: int, j: int) {
    0 <= q && DigitsBetween(s, q + 1, j) && s[q] == '.' && MajorMinorIn(s, i, q)
  }

  /** `s[i..j]` is a text the pattern matches as a whole. */
  ghost predicate Occurs(pat: Pattern, s: string, i: int, j: int) {
    match pat
    case MajorMinor => MajorMinorIn(s, i, j)
    case FullVersion => MajorMinorIn(s, i, j) || exists q :: PatchSplit(s, i, q, j)
  }

  /** The occurrence `re.search` reports: nothing starts further left, and
      nothing starting at the same place reaches further right. */
  ghost predicate LeftmostLongest(pat: Pattern, s: string, i: int, j: int) {
    && Occurs(pat, s, i, j)
    && (forall i', j' :: Occurs(pat, s, i', j') ==> i <= i')
    && (forall j' :: Occurs(pat, s, i, j') ==> j' <= j)
  }

  // ---------------------------------------------------------------------
  // The search, as the regular-expression engine runs it.
  // ---------------------------------------------------------------------

  /** The end of the greedy `\d+`-style run of digits starting at `i`. */
  function DigitRunEnd(s: string, i: nat): (e: nat)
    requires i <= |s|
    ensures i <= e <= |s|
    ensures forall k :: i <= k < e ==> IsDigit(s[k])
    ensures e == |s| || !IsDigit(s[e])
    decreases |s| - i
  {
    if i < |s| && IsDigit(s[i]) then DigitRunEnd(s, i + 1) else i
  }

  /** Where a match attempt at `i` ends, if it succeeds. Greedy `\d+` takes
      the whole run of digits and never gives any back, since a shorter run
      is followed by a digit and not by the dot; the optional third group is
      taken whenever it can be. */
  function MatchEnd(pat: Pattern, s: string, i: nat): (e: Option<nat>)
    requires i <= |s|
    ensures e.Some? ==> i < e.value <= |s|
  {
    if i < |s| && IsDigit(s[i]) then
      var e1 := DigitRunEnd(s, i);
      if e1 + 1 < |s| && s[e1] == '.' && IsDigit(s[e1 + 1]) then
        var e2 := DigitRunEnd(s, e1 + 1);
        if pat == FullVersion && e2 + 1 < |s| && s[e2] == '.' && IsDigit(s[e2 + 1]) then
          Some(DigitRunEnd(s, e2 + 1))
        else Some(e2)
      else None
    else None
  }

  /** The first position at or after `from` where a match attempt succeeds. */
  function Search(pat: Pattern, s: string, from: nat): (r: Option<nat>)
    requires from <= |s|
    ensures r.Some? ==> from <= r.value < |s| && MatchEnd(pat, s, r.value).Some?
    ensures r.Some? ==> forall k :: from <= k < r.value ==> MatchEnd(pat, s, k).None?
    ensures r.None? ==> forall k :: from <= k <= |s| ==> MatchEnd(pat, s, k).None?
    decreases |s| - from
  {
    if from == |s| then None
    else if MatchEnd(pat, s, from).Some? then Some(from)
    else Search(pat, s, from + 1)
  }

  /** `re.search(pattern, s)`: the span of the match, or `None`. */
  function Span(pat: Pattern, s: string): (r: Option<(nat, nat)>)
    ensures r.Some? ==> r.value.0 < r.value.1 <= |s|
  {
    match Search(pat, s, 0)
    case None => None
    case Some(i) => Some((i, MatchEnd(pat, s, i).value))
  }

  // ---------------------------------------------------------------------
  // The search finds exactly the leftmost-longest occurrence.
  // ---------------------------------------------------------------------

  /** A run of digits ending before a non-digit is the greedy run. */
  lemma {:induction false} DigitRunEndExact(s: string, a: nat, b: nat)
    requires a <= b <= |s|
    requires forall k :: a <= k < b ==> IsDigit(s[k])
    requires b == |s| || !IsDigit(s[b])
    ensures DigitRunEnd(s, a) == b
    decreases b - a
  {
    if a < b {
      DigitRunEndExact(s, a + 1, b);
    }
  }

  /** Greedy runs reach at least as far as any run of digits. */
  lemma {:induction false} DigitRunEndCovers(s: string, a: nat, b: nat)
    requires a <= b <= |s|
    requires forall k :: a <= k < b ==> IsDigit(s[k])
    ensures b <= DigitRunEnd(s, a)
    decreases b - a
  {
    if a < b {
      DigitRunEndCovers(s, a + 1, b);
    }
  }

  /** A successful match attempt covers an occurrence. */
  lemma MatchEndOccurs(pat: Pattern, s: string, i: nat)
    requires i <= |s| && MatchEnd(pat, s, i).Some?
    ensures Occurs(pat, s, i, MatchEnd(pat, s, i).value)
  {
    var e1 := DigitRunEnd(s, i);
    var e2 := DigitRunEnd(s, e1 + 1);
    assert MajorMinorSplit(s, i, e1, e2);
    if MatchEnd(pat, s, i).value != e2 {
      assert PatchSplit(s, i, e2, MatchEnd(pat, s, i).value);
    }
  }

  /** Every occurrence starting at `i` is covered by the match attempt at `i`. */
  lemma MajorMinorCovered(pat: Pattern, s: string, i: nat, p: int, j: int)
    requires MajorMinorSplit(s, i, p, j)
    ensures MatchEnd(pat, s, i).Some? && j <= MatchEnd(pat, s, i).value
    ensures DigitRunEnd(s, i) == p
  {
    DigitRunEndExact(s, i, p);
    DigitRunEndCovers(s, p + 1, j);
  }

  lemma OccursCovered(pat: Pattern, s: string, i: nat, j: int)
    requires i <= |s| && Occurs(pat, s, i, j)
    ensures MatchEnd(pat, s, i).Some? && j <= MatchEnd(pat, s, i).value
  {
    if MajorMinorIn(s, i, j) {
      var p :| MajorMinorSplit(s, i, p, j);
      MajorMinorCovered(pat, s, i, p, j);
    } else {
      var q :| PatchSplit(s, i, q, j);
      var p :| MajorMinorSplit(s, i, p, q);
      MajorMinorCovered(pat, s, i, p, q);
      DigitRunEndExact(s, p + 1, q);
      DigitRunEndCovers(s, q + 1, j);
    }
  }

  /** No occurrence starts where the match attempt fails. */
  lemma NoOccurrenceAt(pat: Pattern, s: string, i: nat, j: int)
    requires i <= |s| && MatchEnd(pat, s, i).None?
    ensures !Occurs(pat, s, i, j)
  {
    if Occurs(pat, s, i, j) {
      OccursCovered(pat, s, i, j);
    }
  }

  /** The span `re.search` returns is the leftmost-longest occurrence, and
      there is no span exactly when there is no occurrence. */
  lemma SpanIsLeftmostLongest(pat: Pattern, s: string)
    ensures Span(pat, s).Some? ==> LeftmostLongest(pat, s, Span(pat, s).value.0, Span(pat, s).value.1)
    ensures Span(pat, s).None? <==> forall i, j :: !Occurs(pat, s, i, j)
  {
    var r := Search(pat, s, 0);
    forall i: int, j: int | Occurs(pat, s, i, j)
      ensures r.Some? && r.value <= i
    {
      assert 0 <= i <= |s|;
      if r.None? || i < r.value {
        NoOccurrenceAt(pat, s, i, j);
      }
    }
    if r.Some? {
      var i := r.value;
      MatchEndOccurs(pat, s, i);
      forall j' | Occurs(pat, s, i, j') ensures j' <= MatchEnd(pat, s, i).value {
        OccursCovered(pat, s, i, j');
      }
    }
  }

  /** The leftmost-longest occurrence is unique, so it determines the span. */
  lemma SpanCharacterised(pat: Pattern, s: string, i: int, j: int)
    ensures LeftmostLongest(pat, s, i, j) <==> Span(pat, s) == Some((i, j))
  {
    SpanIsLeftmostLongest(pat, s);
    if LeftmostLongest(pat, s, i, j) {
      var (i', j') := Span(pat, s).value;
      assert i <= i' && i' <= i;
    }
  }

  // ---------------------------------------------------------------------
  // The two functions of the source.
  // ---------------------------------------------------------------------

  /** The text `clean_version` searches: `str(v).lower().strip()`. */
  function Normalize(v: string): (t: string)
    ensures Stripped(t)
  {
    Strip(Lower(v))
  }

  /** `clean_version(v)`: the version number found in the normalised text,
      or the normalised text itself when there is none. */
  function CleanVersion(v: string): (r: string)
    ensures Stripped(r)
  {
    var t := Normalize(v);
    VersionInStripped(t);
    VersionIn(t)
  }

  /** The search step of `clean_version` on already normalised text. */
  function VersionIn(t: string): (r: string)
  {
    match Span(FullVersion, t)
    case Some((i, j)) => t[i..j]
    case None => t
  }

  /** `extract_major_minor(version)`: the first major.minor number of the
      raw text, or `None`. Joining the two groups with a dot gives back the
      matched text itself. */
  function ExtractMajorMinor(v: string): (r: Option<string>)
  {
    match Span(MajorMinor, v)
    case Some((i, j)) => Some(v[i..j])
    case None => None
  }

  // ---------------------------------------------------------------------
  // Properties of the two functions.
  // ---------------------------------------------------------------------

  /** A version text is made of digits and dots and starts and ends with a digit. */
  lemma OccursChars(pat: Pattern, s: string, i: int, j: int)
    requires Occurs(pat, s, i, j)
    ensures 0 <= i < j <= |s| && i + 3 <= j
    ensures forall k :: i <= k < j ==> IsDigit(s[k]) || s[k] == '.'
    ensures IsDigit(s[i]) && IsDigit(s[j - 1])
  {
    if !MajorMinorIn(s, i, j) {
      var q :| PatchSplit(s, i, q, j);
      var p :| MajorMinorSplit(s, i, p, q);
    }
  }

  /** A version number found in the text starts and ends with a digit, so
      the search never leaves outer whitespace behind. */
  lemma VersionInStripped(t: string)
    requires Stripped(t)
    ensures Stripped(VersionIn(t))
  {
    if Span(FullVersion, t).Some? {
      var (i, j) := Span(FullVersion, t).value;
      SpanIsLeftmostLongest(FullVersion, t);
      OccursChars(FullVersion, t, i, j);
      assert !IsSpace(t[i]) && !IsSpace(t[j - 1]);
    }
  }

  /** An occurrence, cut out of its string, is an occurrence of its own. */
  lemma OccursSlice(pat: Pattern, s: string, i: int, j: int)
    requires Occurs(pat, s, i, j)
    ensures 0 <= i <= j <= |s| && Occurs(pat, s[i..j], 0, j - i)
  {
    OccursChars(pat, s, i, j);
    var w := s[i..j];
    assert forall k :: 0 <= k < j - i ==> w[k] == s[i + k];
    if MajorMinorIn(s, i, j) {
      var p :| MajorMinorSplit(s, i, p, j);
      assert MajorMinorSplit(w, 0, p - i, j - i);
    } else {
      var q :| PatchSplit(s, i, q, j);
      var p :| MajorMinorSplit(s, i, p, q);
      assert MajorMinorSplit(w, 0, p - i, q - i);
      assert PatchSplit(w, 0, q - i, j - i);
    }
  }

  /** A whole string that the pattern matches is its own leftmost-longest
      occurrence. */
  lemma WholeOccurrence(pat: Pattern, w: string)
    requires Occurs(pat, w, 0, |w|)
    ensures Span(pat, w) == Some((0, |w|))
  {
    forall i, j | Occurs(pat, w, i, j) ensures 0 <= i && j <= |w| {
      OccursChars(pat, w, i, j);
    }
    SpanCharacterised(pat, w, 0, |w|);
  }

  /** Digits and dots are left alone by lowercasing and stripping. */
  lemma VersionTextNormal(pat: Pattern, w: string)
    requires Occurs(pat, w, 0, |w|)
    ensures Normalize(w) == w
  {
    OccursChars(pat, w, 0, |w|);
    assert Lower(w) == w;
    StripStripped(w);
  }

  /** Normalising is idempotent. */
  lemma NormalizeIdempotent(v: string)
    ensures Normalize(Normalize(v)) == Normalize(v)
  {
    LowerStrip(Lower(v));
    LowerIdempotent(v);
    StripIdempotent(Lower(v));
  }

  /** `clean_version` returns the leftmost-longest version number of the
      lowered, stripped text, and that text itself when it holds none. */
  lemma CleanVersionSpec(v: string)
    ensures var t := Normalize(v);
      (forall i, j :: !Occurs(FullVersion, t, i, j)) ==> CleanVersion(v) == t
    ensures var t := Normalize(v);
      forall i, j :: 0 <= i <= j <= |t| && LeftmostLongest(FullVersion, t, i, j) ==> CleanVersion(v) == t[i..j]
    ensures var t := Normalize(v);
      (exists i, j :: Occurs(FullVersion, t, i, j)) ==>
        exists i, j :: 0 <= i <= j <= |t| && LeftmostLongest(FullVersion, t, i, j) && CleanVersion(v) == t[i..j]
  {
    var t := Normalize(v);
    SpanIsLeftmostLongest(FullVersion, t);
    forall i, j | 0 <= i <= j <= |t| && LeftmostLongest(FullVersion, t, i, j)
      ensures CleanVersion(v) == t[i..j]
    {
      SpanCharacterised(FullVersion, t, i, j);
    }
  }

  /** The span found is an occurrence, also once cut out of its string. */
  lemma SpanOccurs(pat: Pattern, t: string)
    requires Span(pat, t).Some?
    ensures var (i, j) := Span(pat, t).value;
      Occurs(pat, t, i, j) && Occurs(pat, t[i..j], 0, j - i)
  {
    var i := Span(pat, t).value.0;
    MatchEndOccurs(pat, t, i);
    OccursSlice(pat, t, i, Span(pat, t).value.1);
  }

  lemma CleanVersionFound(v: string)
    requires Span(FullVersion, Normalize(v)).Some?
    ensures Occurs(FullVersion, CleanVersion(v), 0, |CleanVersion(v)|)
  {
    VersionInFound(Normalize(v));
  }

  lemma VersionInFound(t: string)
    requires Span(FullVersion, t).Some?
    ensures Occurs(FullVersion, VersionIn(t), 0, |VersionIn(t)|)
  {
    SpanOccurs(FullVersion, t);
  }

  lemma CleanVersionNotFound(v: string)
    requires Span(FullVersion, Normalize(v)).None?
    ensures CleanVersion(v) == Normalize(v)
    ensures forall i, j :: !Occurs(FullVersion, CleanVersion(v), i, j)
  {
    SpanIsLeftmostLongest(FullVersion, Normalize(v));
  }

  /** What `clean_version` returns is either a version number matched as a
      whole, or text that holds no version number at all. */
  lemma CleanVersionShape(v: string)
    ensures var r := CleanVersion(v);
      Occurs(FullVersion, r, 0, |r|) || (r == Normalize(v) && forall i, j :: !Occurs(FullVersion, r, i, j))
  {
    if Span(FullVersion, Normalize(v)).Some? {
      CleanVersionFound(v);
    } else {
      CleanVersionNotFound(v);
    }
  }

  /** Cleaning an already cleaned version changes nothing. */
  lemma CleanVersionIdempotent(v: string)
    ensures CleanVersion(CleanVersion(v)) == CleanVersion(v)
  {
    var r := CleanVersion(v);
    CleanVersionShape(v);
    if Occurs(FullVersion, r, 0, |r|) {
      VersionTextNormal(FullVersion, r);
      WholeOccurrence(FullVersion, r);
      assert r[0..|r|] == r;
    } else {
      NormalizeIdempotent(v);
      SpanIsLeftmostLongest(FullVersion, r);
    }
  }

  /** `extract_major_minor` returns the leftmost-longest major.minor number
      of the raw text, and `None` exactly when the text holds none. */
  lemma ExtractMajorMinorSpec(v: string)
    ensures ExtractMajorMinor(v).None? <==> forall i, j :: !Occurs(MajorMinor, v, i, j)
    ensures forall i, j :: 0 <= i <= j <= |v| && LeftmostLongest(MajorMinor, v, i, j) ==> ExtractMajorMinor(v) == Some(v[i..j])
    ensures ExtractMajorMinor(v).Some? ==> Occurs(MajorMinor, ExtractMajorMinor(v).value, 0, |ExtractMajorMinor(v).value|)
  {
    SpanIsLeftmostLongest(MajorMinor, v);
    forall i, j | 0 <= i <= j <= |v| && LeftmostLongest(MajorMinor, v, i, j)
      ensures ExtractMajorMinor(v) == Some(v[i..j])
    {
      SpanCharacterised(MajorMinor, v, i, j);
    }
    if Span(MajorMinor, v).Some? {
      var (i, j) := Span(MajorMinor, v).value;
      OccursSlice(MajorMinor, v, i, j);
    }
  }

  /** On the same text, the major.minor number starts where the full version
      number starts and is a prefix of it: the two patterns find the same
      number, the first without its patch part. */
  lemma MajorMinorPrefixOfVersion(v: string)
    ensures var t := Normalize(v);
      ExtractMajorMinor(t).None? ==> CleanVersion(v) == t
    ensures var t := Normalize(v);
      ExtractMajorMinor(t).Some? ==>
        && |ExtractMajorMinor(t).value| <= |CleanVersion(v)|
        && CleanVersion(v)[..|ExtractMajorMinor(t).value|] == ExtractMajorMinor(t).value
  {
    MajorMinorPrefixOfVersionIn(Normalize(v));
  }

  lemma MajorMinorPrefixOfVersionIn(t: string)
    ensures ExtractMajorMinor(t).None? ==> VersionIn(t) == t
    ensures ExtractMajorMinor(t).Some? ==>
      && |ExtractMajorMinor(t).value| <= |VersionIn(t)|
      && VersionIn(t)[..|ExtractMajorMinor(t).value|] == ExtractMajorMinor(t).value
  {
    SameStarts(t, 0);
    if Search(MajorMinor, t, 0).Some? {
      var i := Search(MajorMinor, t, 0).value;
      var short := MatchEnd(MajorMinor, t, i).value;
      var long := MatchEnd(FullVersion, t, i).value;
      assert ExtractMajorMinor(t) == Some(t[i..short]);
      assert VersionIn(t) == t[i..long];
      assert t[i..long][..short - i] == t[i..short];
    } else {
      assert Span(FullVersion, t).None?;
    }
  }

  /** Both patterns succeed at the same positions, and the full version
      number reaches at least as far. */
  lemma {:induction false} SameStarts(s: string, from: nat)
    requires from <= |s|
    ensures Search(MajorMinor, s, from) == Search(FullVersion, s, from)
    ensures Search(MajorMinor, s, from).Some? ==>
      var i := Search(MajorMinor, s, from).value;
      MatchEnd(MajorMinor, s, i).value <= MatchEnd(FullVersion, s, i).value
    decreases |s| - from
  {
    if from < |s| {
      SameStarts(s, from + 1);
    }
  }

  // ---------------------------------------------------------------------
  // Worked examples.
  // ---------------------------------------------------------------------

  /** An occurrence with no digit before it and neither a digit nor a dot
      after it is what `clean_version` returns, once the text is already
      lowered and stripped. */
  lemma CleanVersionFinds(v: string, i: int, j: int)
    requires Normalize(v) == v
    requires Occurs(FullVersion, v, i, j)
    requires forall k :: 0 <= k < i ==> !IsDigit(v[k])
    requires j == |v| || (v[j] != '.' && !IsDigit(v[j]))
    ensures 0 <= i <= j <= |v| && CleanVersion(v) == v[i..j]
  {
    OccursChars(FullVersion, v, i, j);
    forall i', j' | Occurs(FullVersion, v, i', j') ensures i <= i' {
      OccursChars(FullVersion, v, i', j');
    }
    forall j' | Occurs(FullVersion, v, i, j') ensures j' <= j {
      OccursChars(FullVersion, v, i, j');
    }
    SpanCharacterised(FullVersion, v, i, j);
  }

  lemma NormalizeUnchanged(v: string)
    requires forall k :: 0 <= k < |v| ==> LowerChar(v[k]) == v[k]
    requires Stripped(v)
    ensures Normalize(v) == v
  {
    assert Lower(v) == v;
    StripStripped(v);
  }

  /** The docstring example of `clean_version`, and the same example as
      spelled in the copy of the function in the dashboard script. */
  lemma CleanVersionDocExample(v: string)
    requires v == "version 51.01 (4306)" || v == "verrsion 51.01 (4306)"
    ensures CleanVersion(v) == "51.01"
  {
    var n := |v| - 12;
    if v == "version 51.01 (4306)" {
      DocTextPlain(v);
      DocTextDigits(v);
      DocTextNumber(v);
    } else {
      DashboardTextPlain(v);
      DashboardTextDigits(v);
      DashboardTextNumber(v);
    }
    NormalizeUnchanged(v);
    CleanVersionFinds(v, n, n + 5);
  }

  lemma DocTextPlain(v: string)
    requires v == "version 51.01 (4306)"
    ensures forall k :: 0 <= k < |v| ==> LowerChar(v[k]) == v[k]
    ensures Stripped(v)
  {
  }

  lemma DocTextDigits(v: string)
    requires v == "version 51.01 (4306)"
    ensures forall k :: 0 <= k < 8 ==> !IsDigit(v[k])
  {
    assert v[..8] == "version ";
    forall k | 0 <= k < 8 ensures !IsDigit(v[k]) {
      assert v[k] == v[..8][k];
    }
  }

  lemma DocTextNumber(v: string)
    requires v == "version 51.01 (4306)"
    ensures MajorMinorSplit(v, 8, 10, 13) && v[13] == ' '
    ensures v[8..13] == "51.01"
  {
  }

  lemma DashboardTextPlain(v: string)
    requires v == "verrsion 51.01 (4306)"
    ensures forall k :: 0 <= k < |v| ==> LowerChar(v[k]) == v[k]
    ensures Stripped(v)
  {
  }

  lemma DashboardTextDigits(v: string)
    requires v == "verrsion 51.01 (4306)"
    ensures forall k :: 0 <= k < 9 ==> !IsDigit(v[k])
  {
    assert v[..9] == "verrsion ";
    forall k | 0 <= k < 9 ensures !IsDigit(v[k]) {
      assert v[k] == v[..9][k];
    }
  }

  lemma DashboardTextNumber(v: string)
    requires v == "verrsion 51.01 (4306)"
    ensures MajorMinorSplit(v, 9, 11, 14) && v[14] == ' '
    ensures v[9..14] == "51.01"
  {
  }

  /** A three-part release number: `clean_version` keeps all of it, while
      `extract_major_minor` keeps only the first two parts. A Webex review
      tagged "98.0.1" is therefore grouped under "98.0", a key the release
      table, cleaned with `clean_version`, never produces for that release. */
  lemma PatchVersionKeys(v: string)
    requires v == "98.0.1"
    ensures CleanVersion(v) == "98.0.1"
    ensures ExtractMajorMinor(v) == Some("98.0")
  {
    NormalizeUnchanged(v);
    assert MajorMinorSplit(v, 0, 2, 4);
    assert PatchSplit(v, 0, 4, 6);
    CleanVersionFinds(v, 0, 6);
    assert v[0..6] == v;
    PatchMajorMinor(v);
  }

  lemma PatchMajorMinor(v: string)
    requires v == "98.0.1"
    ensures ExtractMajorMinor(v) == Some("98.0")
  {
    DigitRunEndExact(v, 0, 2);
    DigitRunEndExact(v, 3, 4);
    assert MatchEnd(MajorMinor, v, 0) == Some(4);
    assert v[0..4] == "98.0";
  }

  /** With four dotted parts only the first three are kept. */
  lemma FourPartVersionExample(v: string)
    requires v == "1.2.3.4"
    ensures CleanVersion(v) == "1.2.3"
  {
    FourPartPlain(v);
    NormalizeUnchanged(v);
    assert MajorMinorSplit(v, 0, 1, 3);
    assert PatchSplit(v, 0, 3, 5);
    forall i', j' | Occurs(FullVersion, v, i', j') ensures 0 <= i' {
      OccursChars(FullVersion, v, i', j');
    }
    forall j' | Occurs(FullVersion, v, 0, j') ensures j' <= 5 {
      OccursChars(FullVersion, v, 0, j');
      if j' > 5 {
        FourPartNoLongerMatch(v, j');
      }
    }
    SpanCharacterised(FullVersion, v, 0, 5);
  }

  lemma FourPartPlain(v: string)
    requires v == "1.2.3.4"
    ensures forall k :: 0 <= k < |v| ==> LowerChar(v[k]) == v[k]
    ensures Stripped(v)
    ensures v[0..5] == "1.2.3"
    ensures v[1] == v[3] == v[5] == '.' && !IsDigit(v[1]) && !IsDigit(v[3]) && !IsDigit(v[5])
  {
  }

  /** No version text starting at the front of "1.2.3.4" runs past "1.2.3":
      all four parts would need a pattern of at most three. */
  lemma FourPartNoLongerMatch(v: string, j: int)
    requires v == "1.2.3.4" && 5 < j <= |v|
    ensures !Occurs(FullVersion, v, 0, j)
  {
    FourPartPlain(v);
    forall p | MajorMinorSplit(v, 0, p, j) ensures false {
    }
    forall q | PatchSplit(v, 0, q, j) ensures false {
    }
  }

  /** Text without a version number comes back lowered and stripped from
      `clean_version` and as `None` from `extract_major_minor`. */
  lemma NoVersionExample(v: string)
    requires v == " Beta "
    ensures CleanVersion(v) == "beta"
    ensures ExtractMajorMinor(v) == None
  {
    BetaNormal(v);
    NoDigitNoVersion("beta");
    NoDigitNoVersion(v);
  }

  lemma BetaNormal(v: string)
    requires v == " Beta "
    ensures Normalize(v) == "beta"
    ensures forall k :: 0 <= k < |v| ==> !IsDigit(v[k])
  {
    BetaLower(v);
    BetaStrip(Lower(v));
  }

  lemma BetaLower(v: string)
    requires v == " Beta "
    ensures Lower(v) == " beta "
    ensures forall k :: 0 <= k < |v| ==> !IsDigit(v[k])
  {
  }

  lemma BetaStrip(w: string)
    requires w == " beta "
    ensures Strip(w) == "beta"
  {
    StripFormula(w);
    RunLengthUnique(w, Space, 1);
    assert w[1..] == "beta ";
    TrailingLengthUnique("beta ", Space, 1);
  }

  /** Text without a digit holds no version number of either shape. */
  lemma NoDigitNoVersion(t: string)
    requires forall k :: 0 <= k < |t| ==> !IsDigit(t[k])
    ensures VersionIn(t) == t
    ensures ExtractMajorMinor(t) == None
  {
    forall i, j ensures !Occurs(FullVersion, t, i, j) && !Occurs(MajorMinor, t, i, j) {
      if Occurs(FullVersion, t, i, j) { OccursChars(FullVersion, t, i, j); }
      if Occurs(MajorMinor, t, i, j) { OccursChars(MajorMinor, t, i, j); }
    }
    SpanIsLeftmostLongest(FullVersion, t);
    SpanIsLeftmostLongest(MajorMinor, t);
  }

  /** Text without any digit has no version number: `clean_version` gives
      the text back and `extract_major_minor` gives `None`. */
  lemma NoDigitsExample(v: string)
    requires v == "no version"
    ensures CleanVersion(v) == "no version"
    ensures ExtractMajorMinor(v) == None
  {
    NoDigitsPlain(v);
    NormalizeUnchanged(v);
    NoDigitNoVersion(v);
  }

  lemma NoDigitsPlain(v: string)
    requires v == "no version"
    ensures forall k :: 0 <= k < |v| ==> LowerChar(v[k]) == v[k] && !IsDigit(v[k])
    ensures Stripped(v)
  {
  }
}
