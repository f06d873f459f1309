/** The text side of the slides (main.py `build_slide_scripts` and the slide-text list of
    `build_slides`): bullets are pulled out of the summary, padded to three, and laid
    out as five entries. Image rendering is not part of this module. */
module Slides {
  import opened Text

  /** The characters `strip(" -・")` removes from both ends of a bullet line. */
  const Markers: CharClass := Chars({' ', '-', '・'})

  /** How many bullets the five-entry layout shows. */
  const PointCount := 3

  /** Padding for the narration scripts and for the slide texts. */
  const ScriptFiller := ""
  const SlideFiller := "（要点なし）"

  const ScriptIntro := "本日の論文紹介です。"
  const ScriptClosing := "以上で紹介を終わります。"
  const ScriptLabels := ["ポイント1。", "ポイント2。", "ポイント3。"]
  const SentenceEnd := "。"

  const SlideTitleHeader := "TITLE\n"
  const SlideClosing := "END\nありがとうございました"
  const SlideLabels := ["POINT 1\n", "POINT 2\n", "POINT 3\n"]

  /** `[s.strip(" -・") for s in lines if s.strip()]`, built up line by line. */
  function KeepBullets(lines: seq<string>): (bs: seq<string>)
    ensures |bs| <= |lines|
    decreases |lines|
  {
    if |lines| == 0 then []
    else
      var last := lines[|lines| - 1];
      var init := KeepBullets(lines[..|lines| - 1]);
      if Blank(last) then init else init + [Strip(last, Markers)]
  }

  /** An independent account of which lines survive: the positions of the non-blank
      lines, in increasing order. */
  function NonblankPositions(lines: seq<string>): (ps: seq<nat>)
    ensures forall k :: 0 <= k < |ps| ==> ps[k] < |lines| && !Blank(lines[ps[k]])
    ensures forall k, l :: 0 <= k < l < |ps| ==> ps[k] < ps[l]
    ensures forall i :: 0 <= i < |lines| && !Blank(lines[i]) ==> i in ps
    decreases |lines|
  {
    if |lines| == 0 then []
    else
      var n := |lines| - 1;
      var init := NonblankPositions(lines[..n]);
      assert forall k :: 0 <= k < |init| ==> lines[..n][init[k]] == lines[init[k]];
      assert forall i :: 0 <= i < n ==> lines[..n][i] == lines[i];
      if Blank(lines[n]) then init else init + [n]
  }

  /** Bullet extraction drops exactly the blank lines, keeps the order of the others,
      and strips the marker characters off both ends of each. */
  lemma {:induction false} BulletsAreStrippedNonblankLines(lines: seq<string>)
    ensures var bs := KeepBullets(lines);
            var ps := NonblankPositions(lines);
            |bs| == |ps| && forall k :: 0 <= k < |bs| ==> bs[k] == Strip(lines[ps[k]], Markers)
    decreases |lines|
  {
    if |lines| > 0 {
      var n := |lines| - 1;
      BulletsAreStrippedNonblankLines(lines[..n]);
      BulletsStep(lines, KeepBullets(lines[..n]), NonblankPositions(lines[..n]));
    }
  }

  /** One step of the induction above: appending a line keeps the correspondence. */
  lemma BulletsStep(lines: seq<string>, bs0: seq<string>, ps0: seq<nat>)
    requires |lines| > 0
    requires bs0 == KeepBullets(lines[..|lines| - 1]) && ps0 == NonblankPositions(lines[..|lines| - 1])
    requires |bs0| == |ps0| && forall k :: 0 <= k < |bs0| ==> bs0[k] == Strip(lines[..|lines| - 1][ps0[k]], Markers)
    ensures var bs := KeepBullets(lines);
            var ps := NonblankPositions(lines);
            |bs| == |ps| && forall k :: 0 <= k < |bs| ==> bs[k] == Strip(lines[ps[k]], Markers)
  {
    var n := |lines| - 1;
    var bs, ps := KeepBullets(lines), NonblankPositions(lines);
    assert bs == if Blank(lines[n]) then bs0 else bs0 + [Strip(lines[n], Markers)];
    assert ps == if Blank(lines[n]) then ps0 else ps0 + [n];
    forall k | 0 <= k < |bs|
      ensures bs[k] == Strip(lines[ps[k]], Markers)
    {
      if k < |bs0| {
        assert bs[k] == bs0[k] && ps[k] == ps0[k];
        assert lines[..n][ps0[k]] == lines[ps0[k]];
      }
    }
  }

  /** The bullets of a summary: one for each non-blank `"\n"`-separated line, in order,
      with the marker characters stripped off both ends. */
  function ExtractBullets(summary: string): (r: seq<string>)
    ensures |r| == |NonblankPositions(Split(summary, '\n'))|
    ensures forall k :: 0 <= k < |r| ==>
              r[k] == Strip(Split(summary, '\n')[NonblankPositions(Split(summary, '\n'))[k]], Markers)
  {
    BulletsAreStrippedNonblankLines(Split(summary, '\n'));
    KeepBullets(Split(summary, '\n'))
  }

  /** `while len(bullets) < 3: bullets.append(filler)`: the bullets are kept as they are
      and followed by as many fillers as it takes to reach three. */
  function PadBullets(bs: seq<string>, filler: string): (r: seq<string>)
    ensures |r| == Max(|bs|, PointCount)
    ensures r[..|bs|] == bs
    ensures forall k :: |bs| <= k < |r| ==> r[k] == filler
    decreases PointCount - |bs|
  {
    if |bs| >= PointCount then bs
    else
      var r := PadBullets(bs + [filler], filler);
      assert r[..|bs|] == r[..|bs| + 1][..|bs|];
      r
  }

  /** Bullet `k` when there is one, the filler otherwise. */
  function BulletOr(bs: seq<string>, k: nat, filler: string): string
  {
    if k < |bs| then bs[k] else filler
  }

  lemma PaddedBullet(bs: seq<string>, filler: string, k: nat)
    requires k < PointCount
    ensures PadBullets(bs, filler)[k] == BulletOr(bs, k, filler)
  {
  }

  /** `build_slide_scripts`: five narration scripts. The first names the title, the
      last is the fixed closing, and the middle three speak bullets 1 to 3 of the
      summary, with an empty point where the summary has fewer. */
  function SlideScripts(title: string, summary: string): (r: seq<string>)
    ensures |r| == 5
    ensures r[0] == ScriptIntro + title + SentenceEnd
    ensures r[4] == ScriptClosing
    ensures forall k :: 1 <= k <= PointCount ==>
              r[k] == ScriptLabels[k - 1] + BulletOr(ExtractBullets(summary), k - 1, ScriptFiller) + SentenceEnd
  {
    ScriptsOf(title, ExtractBullets(summary))
  }

  /** The scripts for a list of bullets. */
  function ScriptsOf(title: string, bullets: seq<string>): (r: seq<string>)
    ensures |r| == 5
    ensures r[0] == ScriptIntro + title + SentenceEnd
    ensures r[4] == ScriptClosing
    ensures forall k :: 1 <= k <= PointCount ==>
              r[k] == ScriptLabels[k - 1] + BulletOr(bullets, k - 1, ScriptFiller) + SentenceEnd
  {
    var bs := PadBullets(bullets, ScriptFiller);
    PaddedBullet(bullets, ScriptFiller, 0);
    PaddedBullet(bullets, ScriptFiller, 1);
    PaddedBullet(bullets, ScriptFiller, 2);
    [ScriptIntro + title + SentenceEnd,
     ScriptLabels[0] + bs[0] + SentenceEnd,
     ScriptLabels[1] + bs[1] + SentenceEnd,
     ScriptLabels[2] + bs[2] + SentenceEnd,
     ScriptClosing]
  }

  /** The slide-text list of `build_slides`: five texts. The first carries the title,
      the last is the fixed closing, and the middle three show bullets 1 to 3 of the
      summary, with the placeholder where the summary has fewer. */
  function SlideTexts(title: string, summary: string): (r: seq<string>)
    ensures |r| == 5
    ensures r[0] == SlideTitleHeader + title
    ensures r[4] == SlideClosing
    ensures forall k :: 1 <= k <= PointCount ==>
              r[k] == SlideLabels[k - 1] + BulletOr(ExtractBullets(summary), k - 1, SlideFiller)
  {
    TextsOf(title, ExtractBullets(summary))
  }

  /** The slide texts for a list of bullets. */
  function TextsOf(title: string, bullets: seq<string>): (r: seq<string>)
    ensures |r| == 5
    ensures r[0] == SlideTitleHeader + title
    ensures r[4] == SlideClosing
    ensures forall k :: 1 <= k <= PointCount ==>
              r[k] == SlideLabels[k - 1] + BulletOr(bullets, k - 1, SlideFiller)
  {
    var bs := PadBullets(bullets, SlideFiller);
    PaddedBullet(bullets, SlideFiller, 0);
    PaddedBullet(bullets, SlideFiller, 1);
    PaddedBullet(bullets, SlideFiller, 2);
    [SlideTitleHeader + title,
     SlideLabels[0] + bs[0],
     SlideLabels[1] + bs[1],
     SlideLabels[2] + bs[2],
     SlideClosing]
  }

  /** Bullets past the third are ignored: two summaries whose first three bullets agree
      give the same scripts and the same slide texts. */
  lemma OnlyFirstThreeBulletsMatter(title: string, s1: string, s2: string)
    requires |ExtractBullets(s1)| >= PointCount && |ExtractBullets(s2)| >= PointCount
    requires ExtractBullets(s1)[..PointCount] == ExtractBullets(s2)[..PointCount]
    ensures SlideScripts(title, s1) == SlideScripts(title, s2)
    ensures SlideTexts(title, s1) == SlideTexts(title, s2)
  {
    var b1, b2 := ExtractBullets(s1), ExtractBullets(s2);
    assert forall k :: 0 <= k < PointCount ==> b1[k] == b1[..PointCount][k] == b2[k];
  }

  /** A summary of two bullet lines gives those two lines, stripped, and a third slide
      showing the placeholder; the scripts leave the third point empty. */
  lemma TwoLineSummary(title: string, l1: string, l2: string)
    requires '\n' !in l1 && '\n' !in l2
    requires !Blank(l1) && !Blank(l2)
    ensures ExtractBullets(l1 + "\n" + l2) == [Strip(l1, Markers), Strip(l2, Markers)]
    ensures SlideTexts(title, l1 + "\n" + l2)[3] == SlideLabels[2] + SlideFiller
    ensures SlideScripts(title, l1 + "\n" + l2)[3] == ScriptLabels[2] + SentenceEnd
  {
    TwoLineBullets(l1, l2);
    assert ScriptLabels[2] + ScriptFiller + SentenceEnd == ScriptLabels[2] + SentenceEnd;
  }

  lemma TwoLineBullets(l1: string, l2: string)
    requires '\n' !in l1 && '\n' !in l2
    requires !Blank(l1) && !Blank(l2)
    ensures ExtractBullets(l1 + "\n" + l2) == [Strip(l1, Markers), Strip(l2, Markers)]
  {
    assert Join([l1, l2], '\n') == l1 + "\n" + l2 by {
      assert Join([l2], '\n') == l2;
    }
    SplitJoin([l1, l2], '\n');
    var lines := [l1, l2];
    assert lines[..1] == [l1];
    assert [l1][..0] == [];
    assert KeepBullets([l1]) == [Strip(l1, Markers)];
  }

  /** A line made only of marker characters is not blank, so it is kept, and stripping
      leaves an empty bullet: the slide shows an empty point, not the placeholder. */
  lemma MarkerOnlyLineGivesEmptyBullet(title: string, line: string)
    requires '\n' !in line
    requires |line| > 0 && forall i :: 0 <= i < |line| ==> line[i] == '-'
    ensures ExtractBullets(line) == [""]
    ensures SlideTexts(title, line)[1] == SlideLabels[0]
    ensures SlideTexts(title, line)[2] == SlideLabels[1] + SlideFiller
  {
    assert !IsSpace(line[0]);
    assert Split(line, '\n') == [line];
    assert [line][..0] == [];
    StripEmptyIff(line, Markers);
    assert SlideLabels[0] + "" == SlideLabels[0];
  }
}
