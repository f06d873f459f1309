/** The feed entries both pipelines start from, and the rewrite of an entry's
    abstract-page locator into the locator of its PDF (main.py and paper_voice_bot.py
    alike). */
module Arxiv {
  import opened Text

  /** A feed entry: its title and its abstract-page locator (`entry.id`). */
  datatype Paper = Paper(title: string, id: string)

  const AbsSegment := "abs"
  const PdfSegment := "pdf"
  const PdfSuffix := ".pdf"

  /** `entry.id.replace("abs", "pdf") + ".pdf"`: every `abs` becomes `pdf` and the
      suffix is added. Same-length replacement, so the locator grows by exactly the
      suffix; a locator without `abs` is only suffixed. */
  function PdfUrl(id: string): (url: string)
    ensures EndsWith(url, PdfSuffix)
    ensures |url| == |id| + |PdfSuffix|
    ensures !Contains(id, AbsSegment) ==> url == id + PdfSuffix
  {
    ReplaceAbsent(id, AbsSegment, PdfSegment);
    var url := Replace(id, AbsSegment, PdfSegment) + PdfSuffix;
    assert url[|url| - |PdfSuffix|..] == PdfSuffix;
    url
  }

  /** An abstract-page locator whose only `abs` is the path segment becomes the PDF
      locator: that segment reads `pdf` and the rest is kept. */
  lemma AbsLocatorBecomesPdf(a: string, b: string)
    requires forall i :: 0 <= i < |a| ==> !OccursAt(a + AbsSegment + b, AbsSegment, i)
    requires !Contains(b, AbsSegment)
    ensures PdfUrl(a + AbsSegment + b) == a + PdfSegment + b + PdfSuffix
  {
    var s := a + AbsSegment + b;
    assert OccursAt(s, AbsSegment, |a|) by {
      assert s[|a|..|a| + |AbsSegment|] == AbsSegment;
    }
    ReplaceFirstAt(s, AbsSegment, PdfSegment, |a|);
    assert s[..|a|] == a;
    assert s[|a| + |AbsSegment|..] == b;
    ReplaceAbsent(b, AbsSegment, PdfSegment);
  }
}
