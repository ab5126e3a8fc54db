/** Review-text cleaning: `clean_text`, the informativeness test
    `is_informative` and the stock phrases of `BORING_REVIEWS`. */
module Cleaning {
  import opened Wrappers
  import opened Seqs
  import opened Text

  // ---------------------------------------------------------------------
  // is_informative and the stock phrases
  // ---------------------------------------------------------------------

  /** Stock phrases that say nothing about a specific feature. */
  const Boring: set<string> := {
    "good", "bad", "nice", "great", "ok", "okay", "fine", "works", "cool",
    "love it", "hate it", "very good app", "wow", "happy", "gud", "excellent",
    "fantastic", "best", "super", "amazing", "terrible"
  }

  /** The whitespace tokens `is_informative` counts: the text is stripped,
      lowered and split. */
  function Tokens(text: string): seq<string> {
    Words(Lower(Strip(text)))
  }

  function Distinct(ws: seq<string>): set<string> {
    set w | w in ws
  }

  /** `is_informative`: at least five tokens, at least three of them distinct. */
  predicate IsInformative(text: string) {
    var ws := Tokens(text);
    |ws| >= 5 && |Distinct(ws)| >= 3
  }

  /** Stripping and lowering commute, so lowering the text first changes
      nothing. */
  lemma TokensIgnoreCase(text: string)
    ensures Tokens(Lower(text)) == Tokens(text)
  {
    LowerStrip(text);
    LowerIdempotent(Strip(text));
  }

  lemma TokensIgnoreOuterSpace(text: string)
    ensures Tokens(Strip(text)) == Tokens(text)
  {
    StripIdempotent(text);
  }

  /** The verdict does not depend on letter case or outer whitespace. */
  lemma InformativeIgnoresCaseAndOuterSpace(text: string)
    ensures IsInformative(Lower(text)) == IsInformative(text)
    ensures IsInformative(Strip(text)) == IsInformative(text)
  {
    TokensIgnoreCase(text);
    TokensIgnoreOuterSpace(text);
  }

  /** Stripping and lowering neither add characters nor whitespace. */
  lemma NormalizedNoLarger(text: string)
    ensures |Lower(Strip(text))| <= |text|
    ensures OutsideCount(Lower(Strip(text)), NonSpace) <= OutsideCount(text, NonSpace)
  {
    var s := Strip(text);
    StripRemovesOnlyOuterSpace(text);
    var a := RunLength(text, Space);
    OutsideCountSlice(text, a, a + |s|, NonSpace);
    LowerSameClass(s, NonSpace);
    OutsideCountSameClass(s, Lower(s), NonSpace);
  }

  /** There is at most one more token than there are whitespace characters,
      and every token but the last takes a character and a separator. */
  lemma TokenCountBound(text: string)
    ensures |Tokens(text)| <= OutsideCount(text, NonSpace) + 1
    ensures 2 * |Tokens(text)| <= |text| + 1
  {
    var l := Lower(Strip(text));
    NormalizedNoLarger(text);
    RunsBound(l, NonSpace);
    RunsInsideBound(l, NonSpace);
  }

  /** Fewer than nine characters can never hold five tokens. */
  lemma ShortTextNotInformative(text: string)
    requires |text| < 9
    ensures !IsInformative(text)
  {
    TokenCountBound(text);
  }

  /** A text with no whitespace at all is a single token at most. */
  lemma OneWordNotInformative(text: string)
    requires forall k :: 0 <= k < |text| ==> !IsSpace(text[k])
    ensures !IsInformative(text)
  {
    assert AllIn(NonSpace, text);
    OutsideCountAllIn(text, NonSpace);
    TokenCountBound(text);
  }

  lemma JoinedLowerWords(ws: seq<string>)
    requires forall k :: 0 <= k < |ws| ==> Lower(ws[k]) == ws[k]
    ensures Lower(Unwords(ws)) == Unwords(ws)
  {
    LowerUnwords(ws);
    assert seq(|ws|, k requires 0 <= k < |ws| => Lower(ws[k])) == ws;
  }

  /** Lower-case words joined by single spaces are tokenised back into
      exactly those words. */
  lemma TokensOfJoinedWords(ws: seq<string>)
    requires forall k :: 0 <= k < |ws| ==> IsWord(ws[k]) && Lower(ws[k]) == ws[k]
    ensures Tokens(Unwords(ws)) == ws
  {
    UnwordsStripped(ws);
    StripStripped(Unwords(ws));
    JoinedLowerWords(ws);
    WordsUnwords(ws);
  }

  /** Five or more lower-case words, the first three distinct, joined by
      single spaces, make an informative text. */
  lemma JoinedWordsInformative(ws: seq<string>)
    requires forall k :: 0 <= k < |ws| ==> IsWord(ws[k]) && Lower(ws[k]) == ws[k]
    requires |ws| >= 5 && ws[0] != ws[1] && ws[1] != ws[2] && ws[0] != ws[2]
    ensures IsInformative(Unwords(ws))
  {
    TokensOfJoinedWords(ws);
    ThreeDistinct(ws);
  }

  /** Three different leading words give `set(words)` at least three
      elements; used by `JoinedWordsInformative`. */
  lemma ThreeDistinct(ws: seq<string>)
    requires |ws| >= 3 && ws[0] != ws[1] && ws[1] != ws[2] && ws[0] != ws[2]
    ensures |Distinct(ws)| >= 3
  {
    var d := {ws[0], ws[1], ws[2]};
    var rest := Distinct(ws) - d;
    assert |d| == 3;
    assert Distinct(ws) == d + rest;
    assert d * rest == {};
  }

  lemma VeryGoodAppWords(b: string)
    requires b == "very good app"
    ensures b == Unwords(["very", "good", "app"])
  {
    var ws := ["very", "good", "app"];
    assert ws[1..] == ["good", "app"];
    assert ws[2..] == ["app"];
  }

  /** Every stock phrase has at most three words, so none of them is
      informative. */
  lemma BoringNotInformative(b: string)
    requires b in Boring
    ensures !IsInformative(b)
  {
    if b == "excellent" || b == "fantastic" {
      OneWordNotInformative(b);
    } else if b == "very good app" {
      var ws := ["very", "good", "app"];
      VeryGoodAppWords(b);
      assert forall k :: 0 <= k < |ws| ==> IsWord(ws[k]) && Lower(ws[k]) == ws[k];
      TokensOfJoinedWords(ws);
    } else {
      ShortTextNotInformative(b);
    }
  }

  lemma RepeatedWordJoined(text: string)
    requires text == "good good good good good"
    ensures text == Unwords(["good", "good", "good", "good", "good"])
  {
    var g := "good";
    var ws := [g, g, g, g, g];
    assert ws[1..] == [g, g, g, g];
    assert ws[2..] == [g, g, g];
    assert ws[3..] == [g, g];
    assert ws[4..] == [g];
  }

  /** Five tokens are not enough when they repeat one word. */
  lemma RepeatedWordNotInformative(text: string)
    requires text == "good good good good good"
    ensures !IsInformative(text)
  {
    var g := "good";
    var ws := [g, g, g, g, g];
    RepeatedWordJoined(text);
    assert IsWord(g) && Lower(g) == g;
    TokensOfJoinedWords(ws);
    assert Distinct(ws) == {g};
  }

  lemma DetailedTextJoined(text: string)
    requires text == "app freezes on every call"
    ensures text == Unwords(["app", "freezes", "on", "every", "call"])
  {
    var ws := ["app", "freezes", "on", "every", "call"];
    assert ws[1..] == ["freezes", "on", "every", "call"];
    assert ws[2..] == ["on", "every", "call"];
    assert ws[3..] == ["every", "call"];
    assert ws[4..] == ["call"];
  }

  lemma DetailedTextWords(ws: seq<string>)
    requires ws == ["app", "freezes", "on", "every", "call"]
    ensures forall k :: 0 <= k < |ws| ==> IsWord(ws[k]) && Lower(ws[k]) == ws[k]
  {
  }

  /** A text of five distinct words passes. */
  lemma DetailedTextInformative(text: string)
    requires text == "app freezes on every call"
    ensures IsInformative(text)
  {
    var ws := ["app", "freezes", "on", "every", "call"];
    DetailedTextJoined(text);
    DetailedTextWords(ws);
    JoinedWordsInformative(ws);
  }

  // ---------------------------------------------------------------------
  // clean_text
  // ---------------------------------------------------------------------

  /** The two characters of the mojibake sequence `Ãƒ` the cleaner deletes. */
  const MojibakeFirst: char := '\U{C3}'
  const MojibakeSecond: char := '\U{192}'

  /** The mojibake pair occurs nowhere in `s`. */
  predicate NoMojibake(s: string) {
    forall k :: 0 <= k < |s| - 1 ==> !(s[k] == MojibakeFirst && s[k + 1] == MojibakeSecond)
  }

  /** Text without the pair's first character holds no pair. */
  lemma NoMojibakeWithoutFirst(s: string)
    requires MojibakeFirst !in s
    ensures NoMojibake(s)
  {
    forall k | 0 <= k < |s| - 1 ensures s[k] != MojibakeFirst {
      assert s[k] in s;
    }
  }

  /** `re.sub('Ãƒ', '', s)`: one left-to-right pass deleting non-overlapping
      occurrences. */
  function RemoveMojibake(s: string): (r: string)
    ensures |r| <= |s|
    decreases |s|
  {
    if |s| >= 2 && s[0] == MojibakeFirst && s[1] == MojibakeSecond then RemoveMojibake(s[2..])
    else if |s| == 0 then ""
    else [s[0]] + RemoveMojibake(s[1..])
  }

  /** The code points the emoji pattern deletes. The last range of the
      character class, U+24C2..U+1F251, is far wider than its neighbours and
      swallows most of them, including every CJK ideograph. */
  predicate InRemovedRange(c: char) {
    || '\U{1F600}' <= c <= '\U{1F64F}'
    || '\U{1F300}' <= c <= '\U{1F5FF}'
    || '\U{1F680}' <= c <= '\U{1F6FF}'
    || '\U{1F1E0}' <= c <= '\U{1F1FF}'
    || '\U{2700}' <= c <= '\U{27BF}'
    || '\U{24C2}' <= c <= '\U{1F251}'
  }

  predicate Kept(c: char) {
    !InRemovedRange(c)
  }

  /** `emoji_pattern.sub('', s)`: every character of the class goes. */
  function RemoveRanges(s: string): (r: string)
    ensures forall c :: c in r <==> c in s && !InRemovedRange(c)
  {
    Filter(s, Kept)
  }

  /** `clean_text`: a missing value (anything that is not a string) becomes
      the empty string; otherwise the mojibake is deleted, the text is
      lowered and stripped, and then the listed code points are deleted. */
  function CleanText(text: Option<string>): (r: string)
    ensures text.None? ==> r == ""
    ensures forall c :: c in r ==> !InRemovedRange(c)
  {
    match text
    case None => ""
    case Some(t) => RemoveRanges(Strip(Lower(RemoveMojibake(t))))
  }

  lemma {:induction false} RemoveMojibakeIsSubseq(s: string)
    ensures IsSubseq(RemoveMojibake(s), s)
    decreases |s|
  {
    if |s| >= 2 && s[0] == MojibakeFirst && s[1] == MojibakeSecond {
      RemoveMojibakeIsSubseq(s[2..]);
      SuffixIsSubseq(s, 2);
      SubseqTrans(RemoveMojibake(s[2..]), s[2..], s);
    } else if |s| > 0 {
      RemoveMojibakeIsSubseq(s[1..]);
      assert s == [s[0]] + s[1..];
    }
  }

  lemma NoMojibakeTail(s: string)
    requires |s| > 0 && NoMojibake(s)
    ensures NoMojibake(s[1..])
  {
    forall k | 0 <= k < |s[1..]| - 1 ensures !(s[1..][k] == MojibakeFirst && s[1..][k + 1] == MojibakeSecond) {
      assert s[1..][k] == s[k + 1] && s[1..][k + 1] == s[k + 2];
    }
  }

  /** Text in which `Ã` is never followed by `ƒ` passes the mojibake step
      unchanged. */
  lemma {:induction false} RemoveMojibakeNoop(s: string)
    requires NoMojibake(s)
    ensures RemoveMojibake(s) == s
    decreases |s|
  {
    if |s| > 0 {
      NoMojibakeTail(s);
      RemoveMojibakeNoop(s[1..]);
      assert s == [s[0]] + s[1..];
    }
  }

  lemma RemoveMojibakeKeepsHead(s: string)
    requires |s| >= 2 && !(s[0] == MojibakeFirst && s[1] == MojibakeSecond)
    ensures RemoveMojibake(s) == [s[0]] + RemoveMojibake(s[1..])
  {
  }

  /** An occurrence of the pair is deleted: text `p` that holds no pair and
      does not end in `Ã` is kept, the pair after it goes, and the scan
      carries on over `q`. */
  lemma {:induction false} RemoveMojibakeDeletesPair(p: string, q: string)
    requires NoMojibake(p) && (|p| == 0 || p[|p| - 1] != MojibakeFirst)
    ensures RemoveMojibake(p + [MojibakeFirst, MojibakeSecond] + q) == p + RemoveMojibake(q)
    decreases |p|
  {
    var s := p + [MojibakeFirst, MojibakeSecond] + q;
    if |p| == 0 {
      assert s[2..] == q;
    } else {
      assert !(s[0] == MojibakeFirst && s[1] == MojibakeSecond) by {
        if |p| == 1 {
          assert s[1] == MojibakeFirst;
        } else {
          assert s[0] == p[0] && s[1] == p[1];
        }
      }
      NoMojibakeTail(p);
      calc {
        RemoveMojibake(s);
        == { RemoveMojibakeKeepsHead(s); }
        [p[0]] + RemoveMojibake(s[1..]);
        == { assert s[1..] == p[1..] + [MojibakeFirst, MojibakeSecond] + q;
             RemoveMojibakeDeletesPair(p[1..], q); }
        [p[0]] + (p[1..] + RemoveMojibake(q));
        == { assert p == [p[0]] + p[1..]; }
        p + RemoveMojibake(q);
      }
    }
  }

  /** The cleaned text only deletes characters from the lowered input: it is
      a subsequence of it. */
  lemma CleanTextDeletesOnly(t: string)
    ensures IsSubseq(CleanText(Some(t)), Lower(t))
  {
    var m := RemoveMojibake(t);
    var l := Lower(m);
    var s := Strip(l);
    RemoveMojibakeIsSubseq(t);
    LowerSubseq(m, t);
    StripIsSubseq(l);
    FilterIsSubseq(s, Kept);
    SubseqTrans(s, l, Lower(t));
    SubseqTrans(RemoveRanges(s), s, Lower(t));
  }

  /** Every character of the cleaned text is already lower case. */
  lemma CleanTextIsLower(t: string)
    ensures Lower(CleanText(Some(t))) == CleanText(Some(t))
  {
    var l := Lower(RemoveMojibake(t));
    var r := CleanText(Some(t));
    CleanTextDeletesOnly(t);
    StripIsSubseq(l);
    forall k | 0 <= k < |r| ensures LowerChar(r[k]) == r[k] {
      assert r[k] in Strip(l);
      SubseqMember(Strip(l), l, r[k]);
      var i :| 0 <= i < |l| && l[i] == r[k];
      LowerCharKeepsClass(RemoveMojibake(t)[i]);
    }
  }

  /** Text that is already clean comes back unchanged. */
  lemma CleanTextFixedPoint(t: string)
    requires NoMojibake(t)
    requires Lower(t) == t && Stripped(t)
    requires forall k :: 0 <= k < |t| ==> !InRemovedRange(t[k])
    ensures CleanText(Some(t)) == t
  {
    RemoveMojibakeNoop(t);
    StripStripped(t);
    FilterAll(t, Kept);
  }

  /** On text with no mojibake, no capitals and no outer whitespace only
      the emoji deletion does anything. */
  lemma CleanTextOfNormalText(t: string)
    requires NoMojibake(t) && Lower(t) == t && Stripped(t)
    ensures CleanText(Some(t)) == RemoveRanges(t)
  {
    RemoveMojibakeNoop(t);
    StripStripped(t);
  }

  /** Stripping happens before the emoji are deleted: a removed character
      at the end of an otherwise clean text goes, and whatever whitespace
      stood before it stays. */
  lemma TrailingRemovedChar(p: string, e: char)
    requires MojibakeFirst !in p && Lower(p) == p
    requires forall c :: c in p ==> !InRemovedRange(c)
    requires |p| > 0 && !IsSpace(p[0]) && InRemovedRange(e) && !IsSpace(e)
    ensures CleanText(Some(p + [e])) == p
  {
    var t := p + [e];
    LowerAppend(p, [e]);
    assert Lower([e]) == [e];
    NoMojibakeWithoutFirst(t);
    CleanTextOfNormalText(t);
    FilterAppend(p, [e], Kept);
    FilterAll(p, Kept);
  }

  /** "great " followed by a grinning face cleans to "great " with its
      trailing space. */
  lemma TrailingEmojiLeavesSpace(t: string)
    requires t == "great \U{1F600}"
    ensures CleanText(Some(t)) == "great "
  {
    var p := "great ";
    assert t == p + ['\U{1F600}'];
    assert forall c :: c in p ==> !InRemovedRange(c) && c != MojibakeFirst && LowerChar(c) == c;
    assert Lower(p) == p;
    TrailingRemovedChar(p, '\U{1F600}');
  }

  /** The mojibake pass is a single pass: deleting the inner `Ãƒ` of
      `ÃÃƒƒ` joins an outer one that stays (and is then lowered). */
  lemma MojibakeSinglePass(t: string)
    requires t == [MojibakeFirst, MojibakeFirst, MojibakeSecond, MojibakeSecond]
    ensures RemoveMojibake(t) == [MojibakeFirst, MojibakeSecond]
    ensures CleanText(Some(t)) == ['\U{E3}', MojibakeSecond]
  {
    var m := [MojibakeFirst, MojibakeSecond];
    assert t[1..][2..] == [MojibakeSecond];
    assert RemoveMojibake([MojibakeSecond]) == [MojibakeSecond];
    assert RemoveMojibake(t[1..]) == [MojibakeSecond];
    assert RemoveMojibake(t) == m;
    var l := ['\U{E3}', MojibakeSecond];
    assert Lower(m) == l;
    StripStripped(l);
    FilterAll(l, Kept);
  }
}
