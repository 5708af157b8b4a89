/** The placeholder classifier `predict_text`: a case-insensitive search for
    the word "fake", answered with a fixed label and a fixed confidence. */
module Classifier {
  import opened PyStr

  /** A verdict ("fake" or "real") together with the confidence reported for it. */
  datatype Prediction = Prediction(verdict: string, confidence: real)

  const FakePrediction := Prediction("fake", 0.95)
  const RealPrediction := Prediction("real", 0.90)

  /** `c` is a character that lower-cases to the ASCII lower-case letter `l`:
      `l` itself, its upper-case form, or for `k` also the Kelvin sign. */
  predicate Spells(c: char, l: char)
    requires 'a' <= l <= 'z'
  {
    c == l || c as int == l as int - 32 || (l == 'k' && c == KelvinSign)
  }

  /** "fake", in any mixture of cases, starts at index `i` of `s`. */
  predicate FakeAt(s: string, i: int) {
    && 0 <= i && i + 4 <= |s|
    && Spells(s[i], 'f')
    && Spells(s[i + 1], 'a')
    && Spells(s[i + 2], 'k')
    && Spells(s[i + 3], 'e')
  }

  /** `s` mentions "fake" in some spelling of its case. */
  predicate MentionsFake(s: string) {
    exists i :: 0 <= i < |s| && FakeAt(s, i)
  }

  /** The classifier `predict_text(text)`: the verdict "fake" with confidence 0.95
      when the text mentions "fake" in any case, and the verdict "real" with
      confidence 0.90 otherwise. It is defined for every string. */
  function PredictText(text: string): (r: Prediction)
    ensures MentionsFake(text) ==> r == FakePrediction
    ensures !MentionsFake(text) ==> r == RealPrediction
  {
    LowerSearchMatchesMention(text);
    if Contains(Lower(text), "fake") then FakePrediction else RealPrediction
  }

  /** A character lower-cases to a lower-case letter exactly when it spells it. */
  lemma LowerCharSpells(c: char, l: char)
    requires 'a' <= l <= 'z'
    ensures LowerChar(c) == l <==> Spells(c, l)
  {
  }

  /** Searching the lower-cased text for "fake" finds it exactly when the
      original text mentions "fake" in some case. */
  lemma LowerSearchMatchesMention(s: string)
    ensures Contains(Lower(s), "fake") <==> MentionsFake(s)
  {
    var low := Lower(s);
    ContainsIffOccurs(low, "fake");
    if MentionsFake(s) {
      var i :| 0 <= i < |s| && FakeAt(s, i);
      FakeAtLowersToFake(s, i);
      assert OccursAt(low, "fake", i);
    }
    if i :| OccursAt(low, "fake", i) {
      FakeAtLowersToFake(s, i);
      assert FakeAt(s, i);
    }
  }

  /** At a given position, the lower-cased text reads "fake" exactly when the
      original text spells "fake" there. */
  lemma FakeAtLowersToFake(s: string, i: int)
    requires 0 <= i && i + 4 <= |s|
    ensures OccursAt(Lower(s), "fake", i) <==> FakeAt(s, i)
  {
    var w := Lower(s)[i..i + 4];
    assert OccursAt(Lower(s), "fake", i) == (w == "fake");
    LowerCharSpells(s[i], 'f');
    LowerCharSpells(s[i + 1], 'a');
    LowerCharSpells(s[i + 2], 'k');
    LowerCharSpells(s[i + 3], 'e');
    assert (w[0] == 'f') == Spells(s[i], 'f');
    assert (w[1] == 'a') == Spells(s[i + 1], 'a');
    assert (w[2] == 'k') == Spells(s[i + 2], 'k');
    assert (w[3] == 'e') == Spells(s[i + 3], 'e');
    ReadsFake(w);
  }

  /** A four-character string is "fake" exactly when its characters are. */
  lemma ReadsFake(w: string)
    requires |w| == 4
    ensures w == "fake" <==> (w[0] == 'f' && w[1] == 'a' && w[2] == 'k' && w[3] == 'e')
  {
  }

  /** `c` and `d` are the same character up to the case of an ASCII letter,
      counting the Kelvin sign as one more upper-case form of `k`. */
  predicate SameUpToCase(c: char, d: char) {
    || c == d
    || (IsAsciiUpper(c) && d as int == c as int + 32)
    || (IsAsciiUpper(d) && c as int == d as int + 32)
    || (c == KelvinSign && (d == 'k' || d == 'K'))
    || (d == KelvinSign && (c == 'k' || c == 'K'))
  }

  /** `t` is `s` with the case of some of its letters changed. */
  predicate CaseVariant(s: string, t: string) {
    |s| == |t| && forall k :: 0 <= k < |s| ==> SameUpToCase(s[k], t[k])
  }

  /** Changing the case of any ASCII letters, or writing `k` as the Kelvin
      sign, leaves the classification unchanged. */
  lemma PredictTextIgnoresCase(s: string, t: string)
    requires CaseVariant(s, t)
    ensures PredictText(s) == PredictText(t)
  {
    assert Lower(s) == Lower(t);
  }

  /** The empty string is classified as real. */
  lemma EmptyTextIsReal()
    ensures PredictText("") == RealPrediction
  {
  }

  /** Sample texts: every spelling of "fake", also inside a longer word, is
      caught. */
  lemma FakeSamples()
    ensures PredictText("Fake News Alert") == FakePrediction
    ensures PredictText("FAKE") == FakePrediction
    ensures PredictText("this is fakeness") == FakePrediction
  {
    assert FakeAt("Fake News Alert", 0);
    assert FakeAt("FAKE", 0);
    assert FakeAt("this is fakeness", 8);
  }

  /** A sample text with no "f" in any case cannot mention "fake", so it is
      real. */
  lemma RealSample(text: string)
    // The sample arrives as a parameter so that the solver does not unfold
    // the recursive search over a literal argument.
    requires text == "Breaking news"
    ensures PredictText(text) == RealPrediction
  {
  }
}
