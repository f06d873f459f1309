/** paper_voice_bot.py, the earlier variant of the pipeline: every paper of the feed is
    summarised, the first readable one is turned into five `KEY: value` slides shown 4
    seconds each under one synthesised narration.

    The outside world is a parameter: `fetch` gives the pages of the PDF behind a
    locator, `summarize` is the model's answer to the summary prompt for an excerpt,
    `structure` its answer to the slide prompt for a title and summary, and `speakers`
    the voice engine's speaker list. Files are identified by what they show or say. */
module LegacyBot {
  import opened Wrappers
  import opened Text
  import opened Filenames
  import opened Timing
  import opened Arxiv

  // ---------------------------------------------------------------------------
  // summary excerpt
  // ---------------------------------------------------------------------------

  /** How much of the paper text goes into the summary prompt. */
  const ExcerptLength := 10000

  /** `if len(text) > 10000: text = text[:10000]`. */
  function Excerpt(text: string): (r: string)
    ensures IsPrefix(r, text)
    ensures |r| == Min(ExcerptLength, |text|)
  {
    if |text| > ExcerptLength then text[..ExcerptLength] else text
  }

  /** Short texts pass whole, long texts are cut to exactly the limit, and cutting
      again changes nothing. */
  lemma ExcerptCases(text: string)
    ensures |text| <= ExcerptLength ==> Excerpt(text) == text
    ensures |text| > ExcerptLength ==> |Excerpt(text)| == ExcerptLength && Excerpt(text) == text[..ExcerptLength]
    ensures Excerpt(Excerpt(text)) == Excerpt(text)
  {
  }

  // ---------------------------------------------------------------------------
  // speaker lookup
  // ---------------------------------------------------------------------------

  /** A voice style of a speaker and the id the engine synthesises it under. */
  datatype Style = Style(name: string, id: int)

  /** A speaker of the voice engine and its styles, in the engine's order. */
  datatype Speaker = Speaker(name: string, styles: seq<Style>)

  const DefaultSpeaker := "四国めたん"
  const DefaultStyle := "ノーマル"

  /** Does speaker `i`, style `j` match the requested names? */
  predicate Matches(speakers: seq<Speaker>, name: string, style: string, i: int, j: int) {
    && 0 <= i < |speakers| && speakers[i].name == name
    && 0 <= j < |speakers[i].styles| && speakers[i].styles[j].name == style
  }

  /** The inner loop of `get_speaker_id`: the first style with the requested name. */
  function FindStyle(styles: seq<Style>, style: string): (r: Option<int>)
    ensures r.None? <==> forall j :: 0 <= j < |styles| ==> styles[j].name != style
    ensures r.Some? ==> exists j :: 0 <= j < |styles| && styles[j].name == style && styles[j].id == r.value
                                    && forall j' :: 0 <= j' < j ==> styles[j'].name != style
  {
    if |styles| == 0 then None
    else if styles[0].name == style then
      assert styles[0].name == style;
      Some(styles[0].id)
    else
      var r := FindStyle(styles[1..], style);
      assert forall j :: 1 <= j < |styles| ==> styles[j] == styles[1..][j - 1];
      if r.Some? then
        var j :| 0 <= j < |styles[1..]| && styles[1..][j].name == style && styles[1..][j].id == r.value
                 && forall j' :: 0 <= j' < j ==> styles[1..][j'].name != style;
        assert styles[j + 1].name == style && styles[j + 1].id == r.value;
        r
      else r
  }

  /** `get_speaker_id`: speakers are scanned in order and, for each one with the
      requested name, its styles in order; the id of the first matching style is
      returned, so a same-named speaker without the style is passed over for a later
      one. None exactly when no speaker of that name has that style. */
  function GetSpeakerId(speakers: seq<Speaker>, name: string, style: string): (r: Option<int>)
    ensures SpeakerResult(speakers, name, style, r)
  {
    if |speakers| == 0 then None
    else
      var found := if speakers[0].name == name then FindStyle(speakers[0].styles, style) else None;
      if found.Some? then
        FoundInFirst(speakers, name, style, found);
        found
      else
        var r := GetSpeakerId(speakers[1..], name, style);
        FoundLater(speakers, name, style, r);
        r
  }

  /** What `get_speaker_id` promises of its answer `r`: None exactly when no speaker of
      that name has that style; otherwise the id of the first matching style of a
      speaker before which no same-named speaker has the style. */
  ghost predicate SpeakerResult(speakers: seq<Speaker>, name: string, style: string, r: Option<int>) {
    && (r.None? <==> forall i, j :: !Matches(speakers, name, style, i, j))
    && (r.Some? ==> exists i, j :: Matches(speakers, name, style, i, j)
                                   && speakers[i].styles[j].id == r.value
                                   && (forall j' :: 0 <= j' < j ==> speakers[i].styles[j'].name != style)
                                   && (forall i' :: 0 <= i' < i ==> FindStyle(speakers[i'].styles, style).None?
                                                                     || speakers[i'].name != name))
  }

  /** The first speaker has the requested name and style. */
  lemma FoundInFirst(speakers: seq<Speaker>, name: string, style: string, found: Option<int>)
    requires |speakers| > 0 && speakers[0].name == name
    requires found == FindStyle(speakers[0].styles, style) && found.Some?
    ensures SpeakerResult(speakers, name, style, found)
  {
    var j :| 0 <= j < |speakers[0].styles| && speakers[0].styles[j].name == style
             && speakers[0].styles[j].id == found.value
             && forall j' :: 0 <= j' < j ==> speakers[0].styles[j'].name != style;
    assert Matches(speakers, name, style, 0, j);
  }

  /** The first speaker does not answer, so the answer `r` for the rest stands. */
  lemma FoundLater(speakers: seq<Speaker>, name: string, style: string, r: Option<int>)
    requires |speakers| > 0
    requires speakers[0].name != name || FindStyle(speakers[0].styles, style).None?
    requires SpeakerResult(speakers[1..], name, style, r)
    ensures SpeakerResult(speakers, name, style, r)
  {
    ShiftMatches(speakers, name, style);
    if r.Some? {
      var i, j :| Matches(speakers[1..], name, style, i, j)
                  && speakers[1..][i].styles[j].id == r.value
                  && (forall j' :: 0 <= j' < j ==> speakers[1..][i].styles[j'].name != style)
                  && (forall i' :: 0 <= i' < i ==> FindStyle(speakers[1..][i'].styles, style).None?
                                                   || speakers[1..][i'].name != name);
      FoundLaterAt(speakers, name, style, i, j);
    } else {
      assert forall j :: !Matches(speakers, name, style, 0, j);
    }
  }

  /** A first match at `(i, j)` in the tail is a first match at `(i + 1, j)` in the
      whole list when the head speaker does not match. */
  lemma FoundLaterAt(speakers: seq<Speaker>, name: string, style: string, i: nat, j: nat)
    requires |speakers| > 0
    requires speakers[0].name != name || FindStyle(speakers[0].styles, style).None?
    requires Matches(speakers[1..], name, style, i, j)
    requires forall j' :: 0 <= j' < j ==> speakers[1..][i].styles[j'].name != style
    requires forall i' :: 0 <= i' < i ==> FindStyle(speakers[1..][i'].styles, style).None?
                                          || speakers[1..][i'].name != name
    ensures Matches(speakers, name, style, i + 1, j)
    ensures speakers[i + 1] == speakers[1..][i]
    ensures forall i' :: 0 <= i' < i + 1 ==>
              (FindStyle(speakers[i'].styles, style).None? || speakers[i'].name != name)
  {
    assert speakers[i + 1] == speakers[1..][i];
    assert forall i' :: 1 <= i' < i + 1 ==> speakers[i'] == speakers[1..][i' - 1];
  }

  /** Matches in the tail are matches in the whole list, one position later. */
  lemma ShiftMatches(speakers: seq<Speaker>, name: string, style: string)
    requires |speakers| > 0
    ensures forall i, j :: 1 <= i ==> (Matches(speakers, name, style, i, j) <==> Matches(speakers[1..], name, style, i - 1, j))
  {
    forall i, j | 1 <= i
      ensures Matches(speakers, name, style, i, j) <==> Matches(speakers[1..], name, style, i - 1, j)
    {
      if i < |speakers| {
        assert speakers[1..][i - 1] == speakers[i];
      }
    }
  }

  /** A speaker carrying the requested name but not the style is skipped, and a later
      speaker of the same name supplies the id. */
  lemma LaterSameNamedSpeakerFound(name: string, style: string, other: seq<Style>, id: int)
    requires forall j :: 0 <= j < |other| ==> other[j].name != style
    ensures GetSpeakerId([Speaker(name, other), Speaker(name, [Style(style, id)])], name, style) == Some(id)
  {
    var speakers := [Speaker(name, other), Speaker(name, [Style(style, id)])];
    assert FindStyle(other, style).None?;
    assert FindStyle([Style(style, id)], style) == Some(id);
    assert speakers[1..] == [Speaker(name, [Style(style, id)])];
    assert GetSpeakerId(speakers[1..], name, style) == Some(id);
  }

  /** Styles are scanned in order: of two styles with the requested name, the first
      one's id is returned. */
  lemma FirstOfTwoStylesWins(name: string, style: string, a: int, b: int)
    ensures GetSpeakerId([Speaker(name, [Style(style, a), Style(style, b)])], name, style) == Some(a)
  {
    var speakers := [Speaker(name, [Style(style, a), Style(style, b)])];
    assert FindStyle(speakers[0].styles, style) == Some(a);
  }

  // ---------------------------------------------------------------------------
  // narration text
  // ---------------------------------------------------------------------------

  /** `text.replace("**", "").replace("_", "")`: bold markers and underscores are
      deleted before synthesis; every other character is spoken, in order. */
  function CleanNarration(text: string): (r: string)
    ensures '_' !in r
    ensures |r| <= |text|
    ensures Remove(r, Markup) == Remove(text, Markup)
  {
    var unbolded := Replace(text, "**", "");
    ReplaceCharByNothing(unbolded, '_');
    ReplaceShrinks(text, "**");
    ReplaceKeepsContent(text, "**", Markup);
    ReplaceKeepsContent(unbolded, "_", Markup);
    Replace(unbolded, "_", "")
  }

  /** The characters the clean-up may delete. */
  const Markup: CharClass := Chars({'*', '_'})

  /** Deleting an occurrence never lengthens the text. */
  lemma {:induction false} ReplaceShrinks(s: string, target: string)
    requires |target| > 0
    ensures |Replace(s, target, "")| <= |s|
    decreases |s|
  {
    if |s| >= |target| {
      ReplaceShrinks(s[1..], target);
      ReplaceShrinks(s[|target|..], target);
    }
  }

  /** Text without markers or underscores is spoken as it is. */
  lemma CleanNarrationKeepsPlainText(text: string)
    requires !Contains(text, "**") && '_' !in text
    ensures CleanNarration(text) == text
  {
    ReplaceAbsent(text, "**", "");
    ReplaceCharByNothing(text, '_');
    WithoutAbsent(text, '_');
  }

  lemma {:induction false} WithoutAbsent(s: string, c: char)
    requires c !in s
    ensures Without(s, c) == s
    decreases |s|
  {
    if |s| > 0 {
      assert c !in s[1..];
      WithoutAbsent(s[1..], c);
    }
  }

  /** The clean-up runs bold removal first, so an underscore between two single stars
      leaves a bold marker behind. */
  lemma CleaningCanLeaveBoldMarker()
    ensures CleanNarration("*_*") == "**"
  {
    var s := "*_*";
    assert s[..2][1] != "**"[1];
    assert s[1..][..2][0] != "**"[0];
    assert Replace(s, "**", "") == s;
    ReplaceCharByNothing(s, '_');
    assert s[1..] == "_*" && s[2..] == "*";
  }

  // ---------------------------------------------------------------------------
  // slide structure
  // ---------------------------------------------------------------------------

  /** `line.split(":", 1)` on a line that has a colon: the text before the first colon
      and the text after it. */
  function SplitAtColon(line: string): (kv: (string, string))
    requires ':' in line
    ensures ':' !in kv.0
    ensures kv.0 + [':'] + kv.1 == line
  {
    var k := IndexOf(line, ':');
    assert line == line[..k] + [':'] + line[k + 1..];
    (line[..k], line[k + 1..])
  }

  /** Splitting is undone by joining with a colon, and a key without a colon is
      recovered whatever the value contains. */
  lemma SplitAtColonRoundTrip(key: string, value: string)
    requires ':' !in key
    ensures SplitAtColon(key + [':'] + value) == (key, value)
  {
    IndexOfAfter(key, ':', value);
    var line := key + [':'] + value;
    assert line[..|key|] == key;
    assert line[|key| + 1..] == value;
  }

  /** A `key: value` line, both sides stripped. */
  datatype Assignment = Assignment(key: string, value: string)

  /** What one reply line contributes: an assignment when it has a colon, nothing
      otherwise. */
  function LineAssignment(line: string): (a: Option<Assignment>)
    ensures a.Some? <==> ':' in line
    ensures a.Some? ==> ':' !in a.value.key
    ensures a.Some? ==> exists k, v :: && ':' !in k && line == k + [':'] + v
                                       && a.value == Assignment(StripSpace(k), StripSpace(v))
    ensures a.Some? ==> StripSpace(a.value.key) == a.value.key && StripSpace(a.value.value) == a.value.value
  {
    if ':' in line then
      var kv := SplitAtColon(line);
      StripKeepsAbsence(kv.0, Space, {':'}, ':');
      StripIdempotent(kv.0, Space);
      StripIdempotent(kv.1, Space);
      Some(Assignment(StripSpace(kv.0), StripSpace(kv.1)))
    else None
  }

  /** The dictionary updates of the loop, in order: `slides[key] = value` for each
      assignment, later ones overwriting earlier ones. */
  function Apply(assignments: seq<Option<Assignment>>): (r: map<string, string>)
    ensures forall key :: key in r ==>
              exists i :: 0 <= i < |assignments| && assignments[i] == Some(Assignment(key, r[key]))
    decreases |assignments|
  {
    if |assignments| == 0 then map[]
    else
      assert forall i :: 0 <= i < |assignments| - 1 ==> assignments[..|assignments| - 1][i] == assignments[i];
      var m := Apply(assignments[..|assignments| - 1]);
      match assignments[|assignments| - 1]
      case None => m
      case Some(a) => m[a.key := a.value]
  }

  /** Position `i` holds the last assignment to its key. */
  predicate LastSetter(assignments: seq<Option<Assignment>>, i: int) {
    && 0 <= i < |assignments| && assignments[i].Some?
    && forall j :: i < j < |assignments| && assignments[j].Some? ==>
         assignments[j].value.key != assignments[i].value.key
  }

  /** Some position assigns `key`. */
  predicate Assigns(assignments: seq<Option<Assignment>>, key: string) {
    exists i :: 0 <= i < |assignments| && assignments[i].Some? && assignments[i].value.key == key
  }

  /** Last write wins: the keys are exactly those assigned somewhere, and each maps to
      the value of its last assignment. */
  lemma ApplyLastWins(assignments: seq<Option<Assignment>>)
    ensures forall key :: key in Apply(assignments) <==> Assigns(assignments, key)
    ensures forall i :: LastSetter(assignments, i) ==>
              && assignments[i].value.key in Apply(assignments)
              && Apply(assignments)[assignments[i].value.key] == assignments[i].value.value
  {
    ApplyKeys(assignments);
    ApplyLastValue(assignments);
  }

  lemma {:induction false} ApplyKeys(assignments: seq<Option<Assignment>>)
    ensures forall key :: key in Apply(assignments) <==> Assigns(assignments, key)
    decreases |assignments|
  {
    if |assignments| > 0 {
      ApplyKeys(assignments[..|assignments| - 1]);
      ApplyKeysStep(assignments);
    }
  }

  lemma ApplyKeysStep(assignments: seq<Option<Assignment>>)
    requires |assignments| > 0
    requires var init := assignments[..|assignments| - 1];
             forall key :: key in Apply(init) <==> Assigns(init, key)
    ensures forall key :: key in Apply(assignments) <==> Assigns(assignments, key)
  {
    var n := |assignments| - 1;
    var init := assignments[..n];
    forall key
      ensures key in Apply(assignments) <==> Assigns(assignments, key)
    {
      if Assigns(init, key) {
        var i :| 0 <= i < |init| && init[i].Some? && init[i].value.key == key;
        assert assignments[i] == init[i];
      }
      if Assigns(assignments, key) && !(assignments[n].Some? && assignments[n].value.key == key) {
        var i :| 0 <= i < |assignments| && assignments[i].Some? && assignments[i].value.key == key;
        assert init[i] == assignments[i];
      }
    }
  }

  lemma {:induction false} ApplyLastValue(assignments: seq<Option<Assignment>>)
    ensures forall i :: LastSetter(assignments, i) ==>
              && assignments[i].value.key in Apply(assignments)
              && Apply(assignments)[assignments[i].value.key] == assignments[i].value.value
    decreases |assignments|
  {
    if |assignments| > 0 {
      ApplyLastValue(assignments[..|assignments| - 1]);
      ApplyLastValueStep(assignments);
    }
  }

  lemma ApplyLastValueStep(assignments: seq<Option<Assignment>>)
    requires |assignments| > 0
    requires var init := assignments[..|assignments| - 1];
             forall i :: LastSetter(init, i) ==>
               && init[i].value.key in Apply(init)
               && Apply(init)[init[i].value.key] == init[i].value.value
    ensures forall i :: LastSetter(assignments, i) ==>
              && assignments[i].value.key in Apply(assignments)
              && Apply(assignments)[assignments[i].value.key] == assignments[i].value.value
  {
    var n := |assignments| - 1;
    var init := assignments[..n];
    forall i | LastSetter(assignments, i)
      ensures && assignments[i].value.key in Apply(assignments)
              && Apply(assignments)[assignments[i].value.key] == assignments[i].value.value
    {
      if i < n {
        assert init[i] == assignments[i];
        assert forall j :: i < j < n ==> init[j] == assignments[j];
        assert LastSetter(init, i);
      }
    }
  }

  /** The assignments of the lines, in order; each is stripped and has no colon in
      its key. */
  function LineAssignments(lines: seq<string>): (r: seq<Option<Assignment>>)
    ensures |r| == |lines| && forall i :: 0 <= i < |lines| ==> r[i] == LineAssignment(lines[i])
    ensures forall i :: 0 <= i < |r| ==> CleanAssignment(r[i])
  {
    seq(|lines|, i requires 0 <= i < |lines| => LineAssignment(lines[i]))
  }

  predicate CleanAssignment(a: Option<Assignment>) {
    a.Some? ==> ':' !in a.value.key && StripSpace(a.value.key) == a.value.key
                && StripSpace(a.value.value) == a.value.value
  }

  /** Every entry of the dictionary is one of the assignments, so clean assignments
      give a clean dictionary. */
  lemma ApplyKeepsClean(assignments: seq<Option<Assignment>>)
    requires forall i :: 0 <= i < |assignments| ==> CleanAssignment(assignments[i])
    ensures forall key :: key in Apply(assignments) ==> CleanAssignment(Some(Assignment(key, Apply(assignments)[key])))
  {
  }

  /** The loop of `slide_structure_from_summary` over the reply's lines: the keys are
      exactly those some line with a colon assigns, each maps to the value on the last
      line assigning it, and keys and values are stripped, keys without a colon. */
  function ParseLines(lines: seq<string>): (r: map<string, string>)
    ensures forall key :: key in r <==> Assigns(LineAssignments(lines), key)
    ensures forall i :: LastSetter(LineAssignments(lines), i) ==>
              && LineAssignment(lines[i]).value.key in r
              && r[LineAssignment(lines[i]).value.key] == LineAssignment(lines[i]).value.value
    ensures forall key :: key in r ==> CleanAssignment(Some(Assignment(key, r[key])))
  {
    var asg := LineAssignments(lines);
    ApplyLastWins(asg);
    ApplyKeepsClean(asg);
    Apply(asg)
  }

  /** `slide_structure_from_summary` after the model has answered: every key and value
      is stripped, and no key holds a colon. */
  function ParseSlides(reply: string): (r: map<string, string>)
    ensures forall key :: key in r ==> ':' !in key && StripSpace(key) == key && StripSpace(r[key]) == r[key]
  {
    ParseLines(Split(reply, '\n'))
  }

  /** The five slides of the legacy video, in order. */
  const SlideKeys := ["TITLE", "PURPOSE", "METHOD", "RESULT", "CONCLUSION"]

  const KeyBodySeparator := "\n\n"

  /** The slide loop of `main`: for each of the five keys, the key, a blank line and
      the parsed value (empty when the model gave none). */
  function AssembleSlides(parsed: map<string, string>): (texts: seq<string>)
    ensures |texts| == |SlideKeys| == 5
    ensures forall i :: 0 <= i < 5 ==>
              texts[i] == SlideKeys[i] + KeyBodySeparator + (if SlideKeys[i] in parsed then parsed[SlideKeys[i]] else "")
  {
    seq(5, i requires 0 <= i < 5 =>
      SlideKeys[i] + KeyBodySeparator + (if SlideKeys[i] in parsed then parsed[SlideKeys[i]] else ""))
  }

  /** Only the five keys matter: replies that agree on them give the same slides,
      whatever else they contain. */
  lemma OnlySlideKeysMatter(a: map<string, string>, b: map<string, string>)
    requires forall i :: 0 <= i < 5 ==> (SlideKeys[i] in a <==> SlideKeys[i] in b)
    requires forall i :: 0 <= i < 5 && SlideKeys[i] in a ==> a[SlideKeys[i]] == b[SlideKeys[i]]
    ensures AssembleSlides(a) == AssembleSlides(b)
  {
  }

  /** The reply's last line for a key decides that slide, and a key no line assigns
      gives an empty slide body. */
  lemma SlideShowsLastValue(reply: string, k: nat)
    requires k < 5
    ensures var slide := AssembleSlides(ParseSlides(reply))[k];
            var asg := LineAssignments(Split(reply, '\n'));
            && (forall i :: LastSetter(asg, i) && asg[i].value.key == SlideKeys[k] ==>
                  slide == SlideKeys[k] + KeyBodySeparator + asg[i].value.value)
            && ((forall i :: 0 <= i < |asg| && asg[i].Some? ==> asg[i].value.key != SlideKeys[k]) ==>
                  slide == SlideKeys[k] + KeyBodySeparator)
  {
    var asg := LineAssignments(Split(reply, '\n'));
    assert ParseSlides(reply) == Apply(asg);
    ApplyLastWins(asg);
    SlideFromAssignments(ParseSlides(reply), asg, k);
  }

  /** The slide for key `k` of a dictionary built by last-write-wins. */
  lemma SlideFromAssignments(m: map<string, string>, asg: seq<Option<Assignment>>, k: nat)
    requires k < 5
    requires forall key :: key in m <==> Assigns(asg, key)
    requires forall i :: LastSetter(asg, i) ==> asg[i].value.key in m && m[asg[i].value.key] == asg[i].value.value
    ensures var slide := AssembleSlides(m)[k];
            && (forall i :: LastSetter(asg, i) && asg[i].value.key == SlideKeys[k] ==>
                  slide == SlideKeys[k] + KeyBodySeparator + asg[i].value.value)
            && ((forall i :: 0 <= i < |asg| && asg[i].Some? ==> asg[i].value.key != SlideKeys[k]) ==>
                  slide == SlideKeys[k] + KeyBodySeparator)
  {
    assert SlideKeys[k] + KeyBodySeparator + "" == SlideKeys[k] + KeyBodySeparator;
  }

  // ---------------------------------------------------------------------------
  // paper loop and run
  // ---------------------------------------------------------------------------

  /** A collected summary: the raw title, the PDF's file name and the summary. */
  datatype Collected = Collected(title: string, pdfName: string, summary: string)

  /** `extract_text_from_pdf` of this variant: the pages' texts concatenated without a
      separator, or the empty text when there is no document. The text is empty
      exactly when there is no document or every page is empty. */
  function ExtractText(pdf: Option<seq<string>>): (r: string)
    ensures r == "" <==> pdf.None? || forall i :: 0 <= i < |pdf.value| ==> pdf.value[i] == ""
    ensures pdf.Some? ==> r == Concat(pdf.value)
    ensures pdf.Some? ==> |r| == TotalLength(pdf.value)
    ensures pdf.Some? && |pdf.value| > 0 ==> IsPrefix(pdf.value[0], r)
  {
    match pdf
    case None => ""
    case Some(pages) => ConcatEmptyIff(pages); Concat(pages)
  }

  /** The text of a paper's PDF. */
  function PaperText(p: Paper, fetch: string -> Option<seq<string>>): string
  {
    ExtractText(fetch(PdfUrl(p.id)))
  }

  predicate Readable(p: Paper, fetch: string -> Option<seq<string>>) {
    PaperText(p, fetch) != ""
  }

  /** The paper loop of `main`: papers whose PDF yields no text are skipped; every
      other paper, in feed order, contributes its raw title, file name and the
      summary of its first 10000 characters. */
  function CollectSummaries(papers: seq<Paper>, fetch: string -> Option<seq<string>>,
                            summarize: string -> string): (r: seq<Collected>)
    ensures |r| <= |papers|
    ensures |r| == 0 <==> forall i :: 0 <= i < |papers| ==> !Readable(papers[i], fetch)
    decreases |papers|
  {
    if |papers| == 0 then []
    else
      var rest := CollectSummaries(papers[1..], fetch, summarize);
      assert forall i :: 1 <= i < |papers| ==> papers[i] == papers[1..][i - 1];
      var p := papers[0];
      var text := PaperText(p, fetch);
      if text == "" then rest
      else [CollectedOf(p, fetch, summarize)] + rest
  }

  /** The entry a readable paper contributes. */
  function CollectedOf(p: Paper, fetch: string -> Option<seq<string>>, summarize: string -> string): Collected
  {
    Collected(p.title, SafeFilenameUncapped(Replace(p.title, " ", "_")) + PdfSuffix,
              summarize(Excerpt(PaperText(p, fetch))))
  }

  /** One paper on its own: collected when its PDF yields text, skipped otherwise. */
  lemma CollectSingle(p: Paper, fetch: string -> Option<seq<string>>, summarize: string -> string)
    ensures CollectSummaries([p], fetch, summarize) ==
              if Readable(p, fetch) then [CollectedOf(p, fetch, summarize)] else []
  {
    assert [p][1..] == [];
  }

  /** One turn of the loop: the first paper's contribution, then the rest's. */
  lemma CollectCons(papers: seq<Paper>, fetch: string -> Option<seq<string>>, summarize: string -> string)
    requires |papers| > 0
    ensures CollectSummaries(papers, fetch, summarize) ==
              CollectSummaries([papers[0]], fetch, summarize) + CollectSummaries(papers[1..], fetch, summarize)
  {
    CollectSingle(papers[0], fetch, summarize);
  }

  /** The loop handles papers independently and in feed order: the summaries of a
      feed are those of its first part followed by those of the rest. */
  lemma {:induction false} CollectAppend(a: seq<Paper>, b: seq<Paper>, fetch: string -> Option<seq<string>>,
                                         summarize: string -> string)
    ensures CollectSummaries(a + b, fetch, summarize) ==
              CollectSummaries(a, fetch, summarize) + CollectSummaries(b, fetch, summarize)
    decreases |a|
  {
    if |a| == 0 {
      assert a + b == b;
    } else {
      CollectAppend(a[1..], b, fetch, summarize);
      CollectAppendStep(a, b, fetch, summarize);
    }
  }

  /** The inductive step of `CollectAppend`: the law for `a[1..]` gives it for `a`. */
  lemma CollectAppendStep(a: seq<Paper>, b: seq<Paper>, fetch: string -> Option<seq<string>>,
                          summarize: string -> string)
    requires |a| > 0
    requires CollectSummaries(a[1..] + b, fetch, summarize) ==
               CollectSummaries(a[1..], fetch, summarize) + CollectSummaries(b, fetch, summarize)
    ensures CollectSummaries(a + b, fetch, summarize) ==
              CollectSummaries(a, fetch, summarize) + CollectSummaries(b, fetch, summarize)
  {
    CollectConsAppend(a, b, fetch, summarize);
    CollectCons(a, fetch, summarize);
    AppendAssoc(CollectSummaries([a[0]], fetch, summarize), CollectSummaries(a[1..], fetch, summarize),
                CollectSummaries(b, fetch, summarize));
  }

  /** `CollectCons` on a feed that starts with the non-empty `a`. */
  lemma CollectConsAppend(a: seq<Paper>, b: seq<Paper>, fetch: string -> Option<seq<string>>,
                          summarize: string -> string)
    requires |a| > 0
    ensures CollectSummaries(a + b, fetch, summarize) ==
              CollectSummaries([a[0]], fetch, summarize) + CollectSummaries(a[1..] + b, fetch, summarize)
  {
    CollectCons(a + b, fetch, summarize);
    assert (a + b)[0] == a[0];
    assert (a + b)[1..] == a[1..] + b;
  }

  lemma AppendAssoc(x: seq<Collected>, y: seq<Collected>, z: seq<Collected>)
    ensures x + (y + z) == (x + y) + z
  {
  }

  /** The position of the first paper whose PDF yields text (`|papers|` when none). */
  function FirstReadable(papers: seq<Paper>, fetch: string -> Option<seq<string>>): (k: nat)
    ensures k <= |papers|
    ensures k < |papers| ==> Readable(papers[k], fetch)
    ensures forall j :: 0 <= j < k ==> !Readable(papers[j], fetch)
  {
    if |papers| == 0 then 0
    else if Readable(papers[0], fetch) then 0
    else 1 + FirstReadable(papers[1..], fetch)
  }

  /** The video is made from the first readable paper: the first collected summary is
      that paper's. */
  lemma {:induction false} FirstCollectedIsFirstReadable(papers: seq<Paper>, fetch: string -> Option<seq<string>>,
                                                         summarize: string -> string)
    requires FirstReadable(papers, fetch) < |papers|
    ensures var r := CollectSummaries(papers, fetch, summarize);
            var k := FirstReadable(papers, fetch);
            |r| > 0 && r[0].title == papers[k].title
            && r[0].summary == summarize(Excerpt(PaperText(papers[k], fetch)))
    decreases |papers|
  {
    if !Readable(papers[0], fetch) {
      FirstCollectedIsFirstReadable(papers[1..], fetch, summarize);
    }
  }

  /** The narration request: the cleaned text, the speaker id and the speed factor. */
  datatype Narration = Narration(text: string, speaker: int, speed: real)

  const VoiceSpeed: real := 1.1

  /** How the legacy `main` ends: nothing readable in the feed, the default voice
      missing from the engine (raised in the source), or a video. */
  datatype LegacyOutcome =
    | NoSummaries
    | SpeakerMissing
    | Made(slides: seq<string>, narration: Narration, video: LegacyVideo)

  /** The legacy `main`. */
  function LegacyRun(papers: seq<Paper>, fetch: string -> Option<seq<string>>,
                     summarize: string -> string, structure: (string, string) -> string,
                     speakers: seq<Speaker>): (r: LegacyOutcome)
    ensures r.NoSummaries? <==> forall i :: 0 <= i < |papers| ==> !Readable(papers[i], fetch)
    ensures r.SpeakerMissing? <==>
              !r.NoSummaries? && GetSpeakerId(speakers, DefaultSpeaker, DefaultStyle).None?
    ensures r.Made? ==>
              && |r.slides| == 5
              && '_' !in r.narration.text
              && r.narration.speed == VoiceSpeed
              && |r.video.clips| == 5
              && TotalDuration(r.video.clips) == LegacySlideSeconds * 5.0
              && r.video.narration == r.narration.text
              && r.narration.speaker == GetSpeakerId(speakers, DefaultSpeaker, DefaultStyle).value
              && forall i :: 0 <= i < 5 ==>
                   r.video.clips[i].image == r.slides[i] && r.video.clips[i].audio.None?
                   && r.video.clips[i].duration == LegacySlideSeconds
  {
    var collected := CollectSummaries(papers, fetch, summarize);
    if |collected| == 0 then NoSummaries
    else
      var first := collected[0];
      var slides := AssembleSlides(ParseSlides(structure(first.title, first.summary)));
      match GetSpeakerId(speakers, DefaultSpeaker, DefaultStyle)
      case None => SpeakerMissing
      case Some(id) =>
        var narration := Narration(CleanNarration(first.summary), id, VoiceSpeed);
        Made(slides, narration, LegacyVideoOf(slides, narration.text))
  }

  /** With a readable paper and the default speaker available, a video is made, and it
      shows the first readable paper, with its summary as narration. */
  lemma LegacyRunUsesFirstReadable(papers: seq<Paper>, fetch: string -> Option<seq<string>>,
                                   summarize: string -> string, structure: (string, string) -> string,
                                   speakers: seq<Speaker>)
    requires exists i :: 0 <= i < |papers| && Readable(papers[i], fetch)
    requires GetSpeakerId(speakers, DefaultSpeaker, DefaultStyle).Some?
    ensures var k := FirstReadable(papers, fetch);
            var r := LegacyRun(papers, fetch, summarize, structure, speakers);
            && k < |papers|
            && r.Made?
            && var summary := summarize(Excerpt(PaperText(papers[k], fetch)));
            && r.slides == AssembleSlides(ParseSlides(structure(papers[k].title, summary)))
            && r.narration.text == CleanNarration(summary)
  {
    FirstCollectedIsFirstReadable(papers, fetch, summarize);
  }
}
