/** Character classes and the Python `str` primitives the pipeline relies
    on: `isspace`, `lower`, `strip`, `split()` and the maximal-run matching
    behind the regular expressions `\w+` and `\d+`. */
module Text {
  import opened Seqs

  /** The characters Python's `str.isspace()` (and hence `strip()` and
      `split()`) treats as whitespace. */
  predicate IsSpace(c: char) {
    || c == ' ' || '\t' <= c <= '\r' || '\U{1C}' <= c <= '\U{1F}'
    || c == '\U{85}' || c == '\U{A0}' || c == '\U{1680}'
    || '\U{2000}' <= c <= '\U{200A}' || c == '\U{2028}' || c == '\U{2029}'
    || c == '\U{202F}' || c == '\U{205F}' || c == '\U{3000}'
  }

  /** ASCII digits: what `\d` matches on the version strings of interest. */
  predicate IsDigit(c: char) {
    '0' <= c <= '9'
  }

  predicate IsAsciiLetter(c: char) {
    'a' <= c <= 'z' || 'A' <= c <= 'Z'
  }

  /** `\w`, restricted to ASCII: letters, digits and the underscore. */
  predicate IsWordChar(c: char) {
    IsAsciiLetter(c) || IsDigit(c) || c == '_'
  }

  /** `str.lower()` on one character: the ASCII capitals and the Latin-1
      capitals U+00C0..U+00DE (except the multiplication sign U+00D7) move
      up by 32; every other character is unchanged. */
  function LowerChar(c: char): char {
    if 'A' <= c <= 'Z' || ('\U{C0}' <= c <= '\U{DE}' && c != '\U{D7}') then (c as int + 32) as char
    else c
  }

  function Lower(s: string): (r: string)
    ensures |r| == |s|
    ensures forall k :: 0 <= k < |s| ==> r[k] == LowerChar(s[k])
  {
    seq(|s|, k requires 0 <= k < |s| => LowerChar(s[k]))
  }

  /** Lowercasing never creates or removes whitespace, digits or dots. */
  lemma LowerCharKeepsClass(c: char)
    ensures IsSpace(LowerChar(c)) == IsSpace(c)
    ensures IsDigit(LowerChar(c)) == IsDigit(c)
    ensures IsWordChar(LowerChar(c)) == IsWordChar(c)
    ensures (LowerChar(c) == '.') == (c == '.')
    ensures LowerChar(LowerChar(c)) == LowerChar(c)
  {
  }

  lemma LowerIdempotent(s: string)
    ensures Lower(Lower(s)) == Lower(s)
  {
    forall k | 0 <= k < |s| ensures Lower(Lower(s))[k] == Lower(s)[k] {
      LowerCharKeepsClass(s[k]);
    }
  }

  lemma LowerSlice(s: string, i: nat, j: nat)
    requires i <= j <= |s|
    ensures Lower(s[i..j]) == Lower(s)[i..j]
  {
  }

  lemma LowerAppend(a: string, b: string)
    ensures Lower(a + b) == Lower(a) + Lower(b)
  {
  }

  /** Lowercasing is applied character by character, so it preserves the
      subsequence relation. */
  lemma {:induction false} LowerSubseq(a: string, b: string)
    requires IsSubseq(a, b)
    ensures IsSubseq(Lower(a), Lower(b))
    decreases |b|
  {
    if |a| > 0 {
      assert Lower(a)[1..] == Lower(a[1..]);
      assert Lower(b)[1..] == Lower(b[1..]);
      if a[0] == b[0] && IsSubseq(a[1..], b[1..]) {
        LowerSubseq(a[1..], b[1..]);
      } else {
        LowerSubseq(a, b[1..]);
      }
    }
  }

  /** The character classes that maximal runs are taken over. */
  datatype CharClass = Space | NonSpace | WordChar | Digit

  predicate In(cls: CharClass, c: char) {
    match cls
    case Space => IsSpace(c)
    case NonSpace => !IsSpace(c)
    case WordChar => IsWordChar(c)
    case Digit => IsDigit(c)
  }

  predicate AllIn(cls: CharClass, s: string) {
    forall k :: 0 <= k < |s| ==> In(cls, s[k])
  }

  /** Length of the longest prefix of `s` inside `cls`. */
  function RunLength(s: string, cls: CharClass): (n: nat)
    ensures n <= |s|
    ensures n < |s| ==> !In(cls, s[n])
  {
    if |s| == 0 || !In(cls, s[0]) then 0 else 1 + RunLength(s[1..], cls)
  }

  /** Every character of the run is inside the class. */
  lemma {:induction false} RunLengthAllIn(s: string, cls: CharClass)
    ensures AllIn(cls, s[..RunLength(s, cls)])
    decreases |s|
  {
    if |s| > 0 && In(cls, s[0]) {
      RunLengthAllIn(s[1..], cls);
      var n := RunLength(s, cls);
      var run := s[..n];
      assert run == [s[0]] + s[1..][..n - 1];
    }
  }

  /** The run length is the only prefix length that is all inside `cls`
      and is not followed by another character of `cls`. */
  lemma {:induction false} RunLengthUnique(s: string, cls: CharClass, n: nat)
    requires n <= |s|
    requires forall k :: 0 <= k < n ==> In(cls, s[k])
    requires n < |s| ==> !In(cls, s[n])
    ensures RunLength(s, cls) == n
    decreases n
  {
    if n > 0 {
      RunLengthUnique(s[1..], cls, n - 1);
    }
  }

  /** Length of the longest suffix of `s` inside `cls`. */
  function TrailingLength(s: string, cls: CharClass): (n: nat)
    ensures n <= |s|
    ensures n < |s| ==> !In(cls, s[|s| - n - 1])
  {
    if |s| == 0 || !In(cls, s[|s| - 1]) then 0 else 1 + TrailingLength(s[..|s| - 1], cls)
  }

  lemma {:induction false} TrailingLengthAllIn(s: string, cls: CharClass)
    ensures AllIn(cls, s[|s| - TrailingLength(s, cls)..])
    decreases |s|
  {
    if |s| > 0 && In(cls, s[|s| - 1]) {
      var init := s[..|s| - 1];
      TrailingLengthAllIn(init, cls);
      var n := TrailingLength(s, cls);
      var run := s[|s| - n..];
      assert run == init[|init| - (n - 1)..] + [s[|s| - 1]];
    }
  }

  lemma {:induction false} TrailingLengthUnique(s: string, cls: CharClass, n: nat)
    requires n <= |s|
    requires forall k :: |s| - n <= k < |s| ==> In(cls, s[k])
    requires n < |s| ==> !In(cls, s[|s| - n - 1])
    ensures TrailingLength(s, cls) == n
    decreases n
  {
    if n > 0 {
      TrailingLengthUnique(s[..|s| - 1], cls, n - 1);
    }
  }

  /** No whitespace at either end. */
  predicate Stripped(s: string) {
    |s| == 0 || (!IsSpace(s[0]) && !IsSpace(s[|s| - 1]))
  }

  /** `str.strip()`: the slice left after removing the leading and the
      trailing whitespace. */
  function Strip(s: string): (r: string)
    ensures Stripped(r)
  {
    var a := RunLength(s, Space);
    var t := s[a..];
    var n := TrailingLength(t, Space);
    t[..|t| - n]
  }

  /** Stripping a string that has no outer whitespace changes nothing;
      in particular stripping is idempotent. */
  lemma StripStripped(s: string)
    requires Stripped(s)
    ensures Strip(s) == s
  {
    RunLengthUnique(s, Space, 0);
    assert s[0..] == s;
    TrailingLengthUnique(s, Space, 0);
  }

  lemma StripIdempotent(s: string)
    ensures Strip(Strip(s)) == Strip(s)
  {
    StripStripped(Strip(s));
  }

  /** Where `strip()` cuts: after the leading whitespace and before the
      trailing whitespace. */
  lemma StripFormula(s: string)
    ensures var a := RunLength(s, Space); var t := s[a..];
      Strip(s) == t[..|t| - TrailingLength(t, Space)]
  {
  }

  lemma SliceSlice<T>(s: seq<T>, a: nat, m: nat)
    requires a + m <= |s|
    ensures s[a..][..m] == s[a..a + m]
  {
  }

  lemma StripBody(s: string)
    ensures var a := RunLength(s, Space); var r := Strip(s);
      a + |r| <= |s| && r == s[a..a + |r|]
  {
    var a := RunLength(s, Space);
    var t := s[a..];
    StripFormula(s);
    SliceSlice(s, a, |t| - TrailingLength(t, Space));
  }

  lemma StripTail(s: string)
    ensures var a := RunLength(s, Space); var r := Strip(s);
      a + |r| <= |s| && AllIn(Space, s[a + |r|..])
  {
    var a := RunLength(s, Space);
    var t := s[a..];
    var n := TrailingLength(t, Space);
    StripFormula(s);
    assert |Strip(s)| == |t| - n;
    TrailingLengthAllIn(t, Space);
    AllInShift(s, a, |t| - n, Space);
  }

  lemma AllInShift(s: string, a: nat, j: nat, cls: CharClass)
    requires a + j <= |s| && AllIn(cls, s[a..][j..])
    ensures AllIn(cls, s[a + j..])
  {
    assert s[a..][j..] == s[a + j..];
  }

  /** What `strip()` removes is whitespace at the two ends, nothing else. */
  lemma StripRemovesOnlyOuterSpace(s: string)
    ensures var a := RunLength(s, Space); var r := Strip(s);
      && a + |r| <= |s| && r == s[a..a + |r|]
      && AllIn(Space, s[..a]) && AllIn(Space, s[a + |r|..])
  {
    StripBody(s);
    RunLengthAllIn(s, Space);
    StripTail(s);
  }

  lemma StripIsSubseq(s: string)
    ensures IsSubseq(Strip(s), s)
  {
    StripRemovesOnlyOuterSpace(s);
    var a := RunLength(s, Space);
    SliceIsSubseq(s, a, a + |Strip(s)|);
  }

  /** `s` and `t` agree on membership in `cls` position by position. */
  predicate SameClass(s: string, t: string, cls: CharClass) {
    |s| == |t| && forall k :: 0 <= k < |s| ==> In(cls, s[k]) == In(cls, t[k])
  }

  lemma LowerSameClass(s: string, cls: CharClass)
    ensures SameClass(s, Lower(s), cls)
  {
    forall k | 0 <= k < |s| ensures In(cls, s[k]) == In(cls, Lower(s)[k]) {
      LowerCharKeepsClass(s[k]);
    }
  }

  lemma SameClassRunLength(s: string, t: string, cls: CharClass)
    requires SameClass(s, t, cls)
    ensures RunLength(s, cls) == RunLength(t, cls)
  {
    var n := RunLength(s, cls);
    RunLengthAllIn(s, cls);
    assert forall k :: 0 <= k < n ==> s[..n][k] == s[k];
    RunLengthUnique(t, cls, n);
  }

  lemma SameClassTrailing(s: string, t: string, cls: CharClass)
    requires SameClass(s, t, cls)
    ensures TrailingLength(s, cls) == TrailingLength(t, cls)
  {
    var n := TrailingLength(s, cls);
    TrailingLengthAllIn(s, cls);
    assert forall k :: |s| - n <= k < |s| ==> s[|s| - n..][k - (|s| - n)] == s[k];
    TrailingLengthUnique(t, cls, n);
  }

  lemma SameClassSuffix(s: string, t: string, cls: CharClass, i: nat)
    requires SameClass(s, t, cls) && i <= |s|
    ensures SameClass(s[i..], t[i..], cls)
  {
    assert forall k :: 0 <= k < |s| - i ==> s[i..][k] == s[i + k] && t[i..][k] == t[i + k];
  }

  /** Lowercasing and stripping commute, because lowercasing maps
      whitespace to whitespace and nothing else to whitespace. */
  lemma LowerStrip(s: string)
    ensures Strip(Lower(s)) == Lower(Strip(s))
  {
    var l := Lower(s);
    LowerSameClass(s, Space);
    SameClassRunLength(s, l, Space);
    var a := RunLength(s, Space);
    SameClassSuffix(s, l, Space, a);
    SameClassTrailing(s[a..], l[a..], Space);
    var n := TrailingLength(s[a..], Space);
    StripFormula(s);
    StripFormula(l);
    SliceSlice(s, a, |s| - a - n);
    SliceSlice(l, a, |s| - a - n);
    LowerSlice(s, a, |s| - n);
  }

  /** How many characters of `s` lie outside the class. */
  function OutsideCount(s: string, cls: CharClass): (n: nat)
    ensures n <= |s|
  {
    if |s| == 0 then 0
    else (if In(cls, s[0]) then 0 else 1) + OutsideCount(s[1..], cls)
  }

  lemma {:induction false} OutsideCountAppend(a: string, b: string, cls: CharClass)
    ensures OutsideCount(a + b, cls) == OutsideCount(a, cls) + OutsideCount(b, cls)
    decreases |a|
  {
    if |a| > 0 {
      assert (a + b)[1..] == a[1..] + b;
      OutsideCountAppend(a[1..], b, cls);
    } else {
      assert a + b == b;
    }
  }

  /** A slice has no more outside characters than the whole. */
  lemma OutsideCountSlice(s: string, i: nat, j: nat, cls: CharClass)
    requires i <= j <= |s|
    ensures OutsideCount(s[i..j], cls) <= OutsideCount(s, cls)
  {
    assert s == s[..i] + (s[i..j] + s[j..]);
    OutsideCountAppend(s[..i], s[i..j] + s[j..], cls);
    OutsideCountAppend(s[i..j], s[j..], cls);
  }

  lemma {:induction false} OutsideCountSameClass(s: string, t: string, cls: CharClass)
    requires SameClass(s, t, cls)
    ensures OutsideCount(s, cls) == OutsideCount(t, cls)
    decreases |s|
  {
    if |s| > 0 {
      SameClassSuffix(s, t, cls, 1);
      OutsideCountSameClass(s[1..], t[1..], cls);
    }
  }

  /** Maximal runs of characters inside `cls`, left to right: `split()` for
      `NonSpace`, `re.findall(r'\w+', ..)` for `WordChar`. */
  function Runs(s: string, cls: CharClass): (r: seq<string>)
    ensures forall k :: 0 <= k < |r| ==> |r[k]| > 0 && AllIn(cls, r[k])
    decreases |s|
  {
    if |s| == 0 then []
    else if !In(cls, s[0]) then Runs(s[1..], cls)
    else
      var n := RunLength(s, cls);
      RunLengthAllIn(s, cls);
      [s[..n]] + Runs(s[n..], cls)
  }

  /** Runs of a string that starts inside the class: the leading run, then
      the runs of the rest. */
  lemma RunsHead(s: string, cls: CharClass)
    requires |s| > 0 && In(cls, s[0])
    ensures var n := RunLength(s, cls);
      Runs(s, cls) == [s[..n]] + Runs(s[n..], cls)
  {
  }

  /** The leading run of `a + [c] + b` lies within `a` when `c` is outside
      the class. */
  lemma RunLengthBeforeSeparator(a: string, c: char, b: string, cls: CharClass)
    requires !In(cls, c)
    ensures var s := a + [c] + b; var m := RunLength(a, cls);
      RunLength(s, cls) == m && s[..m] == a[..m] && s[m..] == a[m..] + [c] + b
  {
    var s := a + [c] + b;
    var m := RunLength(a, cls);
    RunLengthAllIn(a, cls);
    forall k | 0 <= k < m ensures In(cls, s[k]) {
      assert s[k] == a[..m][k];
    }
    assert !In(cls, s[m]) by {
      if m < |a| { assert s[m] == a[m]; } else { assert s[m] == c; }
    }
    RunLengthUnique(s, cls, m);
    assert s[..m] == a[..m];
    assert s[m..] == a[m..] + [c] + b;
  }

  /** A character outside the class separates the runs before it from the
      runs after it. */
  lemma {:induction false} RunsAcrossSeparator(a: string, c: char, b: string, cls: CharClass)
    requires !In(cls, c)
    ensures Runs(a + [c] + b, cls) == Runs(a, cls) + Runs(b, cls)
    decreases |a|
  {
    var s := a + [c] + b;
    if |a| == 0 {
      assert s == [c] + b;
      assert s[1..] == b;
    } else if !In(cls, a[0]) {
      assert s[0] == a[0];
      assert s[1..] == a[1..] + [c] + b;
      RunsAcrossSeparator(a[1..], c, b, cls);
    } else {
      var m := RunLength(a, cls);
      assert s[0] == a[0];
      RunLengthBeforeSeparator(a, c, b, cls);
      assert 0 < m;
      RunsAcrossSeparator(a[m..], c, b, cls);
      RunsHead(s, cls);
      RunsHead(a, cls);
      var head := [a[..m]];
      assert Runs(s, cls) == head + (Runs(a[m..], cls) + Runs(b, cls));
      assert Runs(a, cls) == head + Runs(a[m..], cls);
    }
  }

  /** A non-empty string entirely inside the class is a single run. */
  lemma RunsWhole(w: string, cls: CharClass)
    requires |w| > 0 && AllIn(cls, w)
    ensures Runs(w, cls) == [w]
  {
    RunLengthUnique(w, cls, |w|);
    assert w[..|w|] == w;
    assert w[|w|..] == [];
  }

  /** A string with no character of the class has no runs. */
  lemma {:induction false} RunsNone(s: string, cls: CharClass)
    requires forall k :: 0 <= k < |s| ==> !In(cls, s[k])
    ensures Runs(s, cls) == []
    decreases |s|
  {
    if |s| > 0 {
      RunsNone(s[1..], cls);
    }
  }

  /** Runs are separated by outside characters, so there is at most one
      more run than there are outside characters. */
  lemma {:induction false} RunsBound(s: string, cls: CharClass)
    ensures |Runs(s, cls)| <= OutsideCount(s, cls) + 1
    decreases |s|
  {
    if |s| > 0 {
      if !In(cls, s[0]) {
        RunsBound(s[1..], cls);
      } else {
        var n := RunLength(s, cls);
        RunsHead(s, cls);
        assert s == s[..n] + s[n..];
        OutsideCountAppend(s[..n], s[n..], cls);
        if n < |s| {
          var rest := s[n..];
          assert !In(cls, rest[0]);
          assert rest[1..] == s[n + 1..];
          RunsBound(s[n + 1..], cls);
        }
      }
    }
  }

  lemma {:induction false} OutsideCountAllIn(s: string, cls: CharClass)
    requires AllIn(cls, s)
    ensures OutsideCount(s, cls) == 0
    decreases |s|
  {
    if |s| > 0 {
      OutsideCountAllIn(s[1..], cls);
    }
  }

  /** Every run holds at least one inside character. */
  lemma {:induction false} RunsInsideBound(s: string, cls: CharClass)
    ensures |Runs(s, cls)| + OutsideCount(s, cls) <= |s|
    decreases |s|
  {
    if |s| > 0 {
      if !In(cls, s[0]) {
        RunsInsideBound(s[1..], cls);
      } else {
        var n := RunLength(s, cls);
        RunsHead(s, cls);
        RunLengthAllIn(s, cls);
        OutsideCountAllIn(s[..n], cls);
        assert s == s[..n] + s[n..];
        OutsideCountAppend(s[..n], s[n..], cls);
        RunsInsideBound(s[n..], cls);
      }
    }
  }

  /** Every character of a run comes from the string. */
  lemma {:induction false} RunsMembers(s: string, cls: CharClass, i: nat)
    requires i < |Runs(s, cls)|
    ensures forall c :: c in Runs(s, cls)[i] ==> c in s
    decreases |s|
  {
    if !In(cls, s[0]) {
      RunsMembers(s[1..], cls, i);
    } else {
      var n := RunLength(s, cls);
      RunsHead(s, cls);
      if i > 0 {
        RunsMembers(s[n..], cls, i - 1);
      }
    }
  }

  /** `str.split()` with no argument. */
  function Words(s: string): (ws: seq<string>)
    ensures forall k :: 0 <= k < |ws| ==> IsWord(ws[k])
  {
    Runs(s, NonSpace)
  }

  /** A token `split()` can return: non-empty, no whitespace. */
  predicate IsWord(w: string) {
    |w| > 0 && AllIn(NonSpace, w)
  }

  /** `" ".join(ws)`. */
  function Unwords(ws: seq<string>): string {
    if |ws| == 0 then ""
    else if |ws| == 1 then ws[0]
    else ws[0] + " " + Unwords(ws[1..])
  }

  /** Splitting undoes joining with single spaces. */
  lemma {:induction false} WordsUnwords(ws: seq<string>)
    requires forall k :: 0 <= k < |ws| ==> IsWord(ws[k])
    ensures Words(Unwords(ws)) == ws
    decreases |ws|
  {
    if |ws| == 1 {
      RunsWhole(ws[0], NonSpace);
    } else if |ws| > 1 {
      WordsUnwords(ws[1..]);
      RunsAcrossSeparator(ws[0], ' ', Unwords(ws[1..]), NonSpace);
      RunsWhole(ws[0], NonSpace);
    }
  }

  /** Joined words have no outer whitespace. */
  lemma {:induction false} UnwordsStripped(ws: seq<string>)
    requires forall k :: 0 <= k < |ws| ==> IsWord(ws[k])
    ensures Stripped(Unwords(ws))
    ensures |ws| > 0 ==> |Unwords(ws)| > 0
    decreases |ws|
  {
    if |ws| > 1 {
      UnwordsStripped(ws[1..]);
    }
  }

  lemma {:induction false} LowerUnwords(ws: seq<string>)
    ensures Lower(Unwords(ws)) == Unwords(seq(|ws|, k requires 0 <= k < |ws| => Lower(ws[k])))
    decreases |ws|
  {
    var lws := seq(|ws|, k requires 0 <= k < |ws| => Lower(ws[k]));
    if |ws| > 1 {
      LowerUnwords(ws[1..]);
      assert lws[1..] == seq(|ws[1..]|, k requires 0 <= k < |ws[1..]| => Lower(ws[1..][k]));
      LowerAppend(ws[0] + " ", Unwords(ws[1..]));
      LowerAppend(ws[0], " ");
    }
  }
}
