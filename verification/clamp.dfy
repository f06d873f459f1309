/** main.py's `clamp_text`: whitespace is normalised to single spaces and an over-long
    text is cut and marked with an ellipsis. The pipeline never calls it. */
module Clamp {
  import opened Text

  /** The mark appended to a cut text. */
  const Ellipsis: char := '…'

  /** Every whitespace character is a plain space and no two are adjacent. */
  predicate SingleSpaced(s: string) {
    && (forall i :: 0 <= i < |s| && IsSpace(s[i]) ==> s[i] == ' ')
    && (forall i :: 0 <= i < |s| - 1 ==> !(IsSpace(s[i]) && IsSpace(s[i + 1])))
  }

  /** Single spacing survives taking a slice. */
  lemma SingleSpacedSlice(s: string, lo: nat, hi: nat)
    requires lo <= hi <= |s|
    requires SingleSpaced(s)
    ensures SingleSpaced(s[lo..hi])
  {
    assert forall i :: 0 <= i < hi - lo ==> s[lo..hi][i] == s[lo + i];
  }

  /** `re.sub(r"\s+", " ", text).strip()`: runs of whitespace become one space and the
      ends are trimmed. What is not whitespace is kept, in order. */
  function NormalizeSpace(text: string): (r: string)
    ensures SingleSpaced(r)
    ensures |r| > 0 ==> !IsSpace(r[0]) && !IsSpace(r[|r| - 1])
    ensures Remove(r, Space) == Remove(text, Space)
    ensures |r| <= |text|
  {
    NormalizedIsSingleSpaced(text);
    NormalizedKeepsContent(text);
    StripSpace(CollapseRuns(text, Space, ' '))
  }

  lemma NormalizedIsSingleSpaced(text: string)
    ensures SingleSpaced(StripSpace(CollapseRuns(text, Space, ' ')))
  {
    var collapsed := CollapseRuns(text, Space, ' ');
    var r := StripSpace(collapsed);
    CollapsedIsSingleSpaced(text);
    SingleSpacedSlice(collapsed, LeadLen(collapsed, Space), LeadLen(collapsed, Space) + |r|);
  }

  lemma CollapsedIsSingleSpaced(text: string)
    ensures SingleSpaced(CollapseRuns(text, Space, ' '))
  {
    var collapsed := CollapseRuns(text, Space, ' ');
    forall i | 0 <= i < |collapsed|
      ensures IsSpace(collapsed[i]) ==> collapsed[i] == ' '
      ensures i < |collapsed| - 1 ==> !(IsSpace(collapsed[i]) && IsSpace(collapsed[i + 1]))
    {
      assert In(collapsed[i], Space) == IsSpace(collapsed[i]);
      if i < |collapsed| - 1 {
        assert In(collapsed[i + 1], Space) == IsSpace(collapsed[i + 1]);
      }
    }
  }

  lemma NormalizedKeepsContent(text: string)
    ensures Remove(StripSpace(CollapseRuns(text, Space, ' ')), Space) == Remove(text, Space)
  {
    CollapseRunsKeepsContent(text, Space, ' ');
    RemoveStrip(CollapseRuns(text, Space, ' '), Space);
  }

  /** The normalised text in terms of the position-wise reading of the substitution:
      each whitespace run kept as one space in its place, then stripped. */
  lemma NormalizeSpaceByReference(text: string)
    ensures NormalizeSpace(text) == StripSpace(CollapseRef(text, Space, ' '))
  {
    CollapseRunsMatchesReference(text, Space, ' ');
  }

  /** Two words separated by any run of whitespace come out joined by exactly one
      space. */
  lemma NormalizeSpaceSeparates(w1: string, run: string, w2: string)
    requires |w1| > 0 && forall i :: 0 <= i < |w1| ==> !IsSpace(w1[i])
    requires |w2| > 0 && forall i :: 0 <= i < |w2| ==> !IsSpace(w2[i])
    requires |run| > 0 && forall i :: 0 <= i < |run| ==> IsSpace(run[i])
    ensures NormalizeSpace(w1 + run + w2) == w1 + " " + w2
  {
    assert forall i :: 0 <= i < |w1| ==> !In(w1[i], Space);
    assert forall i :: 0 <= i < |w2| ==> !In(w2[i], Space);
    assert forall i :: 0 <= i < |run| ==> In(run[i], Space);
    CollapseRunsSeparates(w1, run, w2, Space, ' ');
    var joined := w1 + " " + w2;
    assert joined[0] == w1[0] && joined[|joined| - 1] == w2[|w2| - 1];
    StripFixed(joined, Space);
  }

  /** A text that is already single-spaced and trimmed is left as it is. */
  lemma NormalizeSpaceFixed(text: string)
    requires SingleSpaced(text)
    requires |text| > 0 ==> !IsSpace(text[0]) && !IsSpace(text[|text| - 1])
    ensures NormalizeSpace(text) == text
  {
    CollapseRunsFixed(text, Space, ' ');
    StripFixed(text, Space);
  }

  lemma NormalizeSpaceIdempotent(text: string)
    ensures NormalizeSpace(NormalizeSpace(text)) == NormalizeSpace(text)
  {
    NormalizeSpaceFixed(NormalizeSpace(text));
  }

  /** `clamp_text`: the normalised text when it has at most `maxChars` characters,
      otherwise its first `maxChars` characters (Python's `[:maxChars]`, so a negative
      bound drops characters from the end) followed by the ellipsis. */
  function ClampText(text: string, maxChars: int): (r: string)
    ensures |NormalizeSpace(text)| <= maxChars ==> r == NormalizeSpace(text)
    ensures |NormalizeSpace(text)| > maxChars ==>
              && |r| > 0 && r[|r| - 1] == Ellipsis
              && IsPrefix(r[..|r| - 1], NormalizeSpace(text))
    ensures maxChars >= 0 ==> |r| <= maxChars + 1
    ensures |NormalizeSpace(text)| > maxChars ==>
              |r| - 1 == if maxChars >= 0 then maxChars else Max(0, |NormalizeSpace(text)| + maxChars)
    ensures SingleSpaced(r)
    ensures |r| > 0 ==> !IsSpace(r[0])
  {
    var t := NormalizeSpace(text);
    if |t| <= maxChars then t
    else
      var cut := Prefix(t, maxChars);
      CutIsSingleSpaced(t, maxChars);
      var r := cut + [Ellipsis];
      assert r[..|r| - 1] == cut;
      r
  }

  /** The cut text with the ellipsis appended is still single-spaced and does not start
      with a space. */
  lemma CutIsSingleSpaced(t: string, n: int)
    requires SingleSpaced(t)
    requires |t| > 0 ==> !IsSpace(t[0])
    ensures var r := Prefix(t, n) + [Ellipsis];
            SingleSpaced(r) && !IsSpace(r[0])
  {
    var cut := Prefix(t, n);
    var r := cut + [Ellipsis];
    SingleSpacedSlice(t, 0, |cut|);
    assert !IsSpace(Ellipsis);
    if |cut| > 0 {
      assert r[0] == t[0];
    }
  }

  /** A short, already normalised text passes through unchanged. */
  lemma ClampTextFits(text: string, maxChars: int)
    requires SingleSpaced(text)
    requires |text| > 0 ==> !IsSpace(text[0]) && !IsSpace(text[|text| - 1])
    requires |text| <= maxChars
    ensures ClampText(text, maxChars) == text
  {
    NormalizeSpaceFixed(text);
  }
}
