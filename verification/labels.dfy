/** Cluster labels: the top terms joined with ", " and the sanity check
    `is_valid_label`, which asks that a large enough share of the label's
    `\w+` tokens be dictionary words. */
module Labels {
  import opened Seqs
  import opened Text

  /** `re.findall(r'\w+', label)`. */
  function LabelTokens(phrase: string): seq<string> {
    Runs(phrase, WordChar)
  }

  /** `str.isalpha()` on a `\w+` token: non-empty and letters only, so a
      token holding a digit or an underscore fails. */
  predicate IsAlpha(w: string) {
    |w| > 0 && forall k :: 0 <= k < |w| ==> IsAsciiLetter(w[k])
  }

  /** A token counts as valid when it is alphabetic and in the dictionary. */
  predicate IsDictionaryWord(w: string, english: set<string>) {
    IsAlpha(w) && w in english
  }

  /** How many tokens are valid. */
  function ValidCount(tokens: seq<string>, english: set<string>): (n: nat)
    ensures n <= |tokens|
  {
    if |tokens| == 0 then 0
    else (if IsDictionaryWord(tokens[0], english) then 1 else 0) + ValidCount(tokens[1..], english)
  }

  /** The default threshold of `is_valid_label`. */
  const DefaultThreshold: real := 0.3

  /** `is_valid_label(label, threshold)`: no tokens means invalid; otherwise
      the share of valid tokens must reach the threshold. */
  predicate IsValidLabel(phrase: string, english: set<string>, threshold: real) {
    var ts := LabelTokens(phrase);
    |ts| > 0 && (ValidCount(ts, english) as real) / (|ts| as real) >= threshold
  }

  /** `", ".join(terms)`. */
  function JoinTerms(terms: seq<string>): string {
    if |terms| == 0 then ""
    else if |terms| == 1 then terms[0]
    else terms[0] + ", " + JoinTerms(terms[1..])
  }

  /** The tokens of every term, in order. */
  function TermsTokens(terms: seq<string>): seq<string> {
    if |terms| == 0 then [] else LabelTokens(terms[0]) + TermsTokens(terms[1..])
  }

  // ---------------------------------------------------------------------
  // Properties of the check.
  // ---------------------------------------------------------------------

  /** Dividing by a positive count and comparing is comparing the
      cross-multiplied values. */
  lemma RatioAtLeast(v: real, n: real, threshold: real)
    requires n > 0.0
    ensures v / n >= threshold <==> v >= threshold * n
  {
    assert v / n * n == v;
    if v / n >= threshold {
      assert v / n * n >= threshold * n;
    } else {
      assert v / n * n < threshold * n;
    }
  }

  /** The ratio test is the cross-multiplied comparison: the denominator is
      the number of all tokens, numeric ones included. */
  lemma ValidLabelCounts(phrase: string, english: set<string>, threshold: real)
    ensures var ts := LabelTokens(phrase);
      IsValidLabel(phrase, english, threshold) <==>
        |ts| > 0 && ValidCount(ts, english) as real >= threshold * (|ts| as real)
  {
    var ts := LabelTokens(phrase);
    if |ts| > 0 {
      RatioAtLeast(ValidCount(ts, english) as real, |ts| as real, threshold);
    }
  }

  /** With the default threshold the test is `10 * valid >= 3 * tokens`. */
  lemma DefaultThresholdTenths(phrase: string, english: set<string>)
    ensures var ts := LabelTokens(phrase);
      IsValidLabel(phrase, english, DefaultThreshold) <==>
        |ts| > 0 && 10 * ValidCount(ts, english) >= 3 * |ts|
  {
    ValidLabelCounts(phrase, english, DefaultThreshold);
  }

  /** The comparison is "at least", not "exceeds": a label whose share of
      valid tokens is exactly three in ten passes. */
  lemma ExactShareAccepted(phrase: string, english: set<string>)
    requires |LabelTokens(phrase)| > 0
    requires 10 * ValidCount(LabelTokens(phrase), english) == 3 * |LabelTokens(phrase)|
    ensures IsValidLabel(phrase, english, DefaultThreshold)
  {
    DefaultThresholdTenths(phrase, english);
  }

  /** A label without a single word character is rejected, whatever the
      threshold and the dictionary. */
  lemma NoWordCharRejected(phrase: string, english: set<string>, threshold: real)
    requires forall k :: 0 <= k < |phrase| ==> !IsWordChar(phrase[k])
    ensures !IsValidLabel(phrase, english, threshold)
  {
    RunsNone(phrase, WordChar);
  }

  /** Lowering the threshold never turns an accepted label into a rejected one. */
  lemma ThresholdMonotone(phrase: string, english: set<string>, low: real, high: real)
    requires low <= high && IsValidLabel(phrase, english, high)
    ensures IsValidLabel(phrase, english, low)
  {
  }

  lemma {:induction false} ValidCountMonotone(tokens: seq<string>, small: set<string>, large: set<string>)
    requires small <= large
    ensures ValidCount(tokens, small) <= ValidCount(tokens, large)
    decreases |tokens|
  {
    if |tokens| > 0 {
      ValidCountMonotone(tokens[1..], small, large);
    }
  }

  /** A larger dictionary never turns an accepted label into a rejected one. */
  lemma DictionaryMonotone(phrase: string, small: set<string>, large: set<string>, threshold: real)
    requires small <= large && IsValidLabel(phrase, small, threshold)
    ensures IsValidLabel(phrase, large, threshold)
  {
    var ts := LabelTokens(phrase);
    ValidCountMonotone(ts, small, large);
    ValidLabelCounts(phrase, small, threshold);
    ValidLabelCounts(phrase, large, threshold);
    var a := ValidCount(ts, small) as real;
    var b := ValidCount(ts, large) as real;
    var n := |ts| as real;
    assert a <= b;
  }

  /** The real arithmetic behind `ThresholdExtremes`: a share between 0
      and 1 stays below a threshold above 1 and reaches one at or below 0. */
  lemma ProductBounds(v: real, n: real, threshold: real)
    requires 0.0 <= v <= n
    ensures threshold > 1.0 && n > 0.0 ==> v < threshold * n
    ensures threshold <= 0.0 ==> threshold * n <= v
  {
    if threshold > 1.0 && n > 0.0 {
      assert (threshold - 1.0) * n > 0.0;
    }
    if threshold <= 0.0 {
      assert threshold * n <= 0.0;
    }
  }

  /** Above one nothing passes; at or below zero every label with a token passes. */
  lemma ThresholdExtremes(phrase: string, english: set<string>, threshold: real)
    ensures threshold > 1.0 ==> !IsValidLabel(phrase, english, threshold)
    ensures threshold <= 0.0 ==> (IsValidLabel(phrase, english, threshold) <==> |LabelTokens(phrase)| > 0)
  {
    ValidLabelCounts(phrase, english, threshold);
    var ts := LabelTokens(phrase);
    ProductBounds(ValidCount(ts, english) as real, |ts| as real, threshold);
  }

  // ---------------------------------------------------------------------
  // The label as built from the top terms.
  // ---------------------------------------------------------------------

  /** The ", " separator contributes no token: the label's tokens are the
      terms' tokens, in order. */
  lemma {:induction false} JoinTermsTokens(terms: seq<string>)
    ensures LabelTokens(JoinTerms(terms)) == TermsTokens(terms)
    decreases |terms|
  {
    if |terms| == 1 {
      assert TermsTokens(terms[1..]) == [];
    } else if |terms| > 1 {
      var a := terms[0];
      var b := JoinTerms(terms[1..]);
      JoinTermsTokens(terms[1..]);
      assert a + ", " + b == (a + [',']) + [' '] + b;
      RunsAcrossSeparator(a + [','], ' ', b, WordChar);
      assert a + [','] == a + [','] + [];
      RunsAcrossSeparator(a, ',', [], WordChar);
    }
  }

  /** No top terms give the empty label, which is rejected. */
  lemma NoTermsRejected(english: set<string>, threshold: real)
    ensures JoinTerms([]) == ""
    ensures !IsValidLabel(JoinTerms([]), english, threshold)
  {
  }

  // ---------------------------------------------------------------------
  // Numeric tokens count in the denominator.
  // ---------------------------------------------------------------------

  lemma {:induction false} ValidCountAppend(a: seq<string>, b: seq<string>, english: set<string>)
    ensures ValidCount(a + b, english) == ValidCount(a, english) + ValidCount(b, english)
    decreases |a|
  {
    if |a| > 0 {
      assert (a + b)[1..] == a[1..] + b;
      ValidCountAppend(a[1..], b, english);
    } else {
      assert a + b == b;
    }
  }

  lemma ValidCountNoLetters(s: string, english: set<string>)
    requires forall k :: 0 <= k < |s| ==> !IsAsciiLetter(s[k])
    ensures ValidCount(LabelTokens(s), english) == 0
  {
    var ts := LabelTokens(s);
    forall i | 0 <= i < |ts| ensures !IsAlpha(ts[i]) {
      RunsMembers(s, WordChar, i);
      assert ts[i][0] in ts[i];
    }
    ValidCountNone(ts, english);
  }

  lemma {:induction false} ValidCountNone(ts: seq<string>, english: set<string>)
    requires forall i :: 0 <= i < |ts| ==> !IsAlpha(ts[i])
    ensures ValidCount(ts, english) == 0
    decreases |ts|
  {
    if |ts| > 0 {
      ValidCountNone(ts[1..], english);
    }
  }

  /** Appending letter-free text (numbers, say) after a space adds its tokens
      to the denominator and nothing to the count of valid tokens. */
  lemma LetterFreeTokensDilute(phrase: string, numbers: string, english: set<string>)
    requires forall k :: 0 <= k < |numbers| ==> !IsAsciiLetter(numbers[k])
    ensures var ts := LabelTokens(phrase + " " + numbers);
      && |ts| == |LabelTokens(phrase)| + |LabelTokens(numbers)|
      && ValidCount(ts, english) == ValidCount(LabelTokens(phrase), english)
  {
    assert phrase + " " + numbers == phrase + [' '] + numbers;
    RunsAcrossSeparator(phrase, ' ', numbers, WordChar);
    ValidCountAppend(LabelTokens(phrase), LabelTokens(numbers), english);
    ValidCountNoLetters(numbers, english);
  }

  /** One dictionary word alone passes the default test; followed by three
      or more numeric tokens it fails. */
  lemma NumericTokensDilute(word: string, numbers: string, english: set<string>)
    requires IsAlpha(word) && word in english
    requires forall k :: 0 <= k < |numbers| ==> !IsAsciiLetter(numbers[k])
    requires |LabelTokens(numbers)| >= 3
    ensures IsValidLabel(word, english, DefaultThreshold)
    ensures !IsValidLabel(word + " " + numbers, english, DefaultThreshold)
  {
    RunsWhole(word, WordChar);
    assert ValidCount([word], english) == 1;
    DefaultThresholdTenths(word, english);
    LetterFreeTokensDilute(word, numbers, english);
    DefaultThresholdTenths(word + " " + numbers, english);
  }
}
