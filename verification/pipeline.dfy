/** The stage flow of main.py's `main`: take the first paper of the feed, derive its
    PDF locator and file name, extract its text, summarise it, lay out five slides and
    five narrations, and pair them into clips.

    Everything that talks to the outside is a parameter: the feed entries, `fetch`
    (the pages of the PDF behind a locator, None when download or opening fails), the
    credential, the preferred model, the model list, the reply to the generation
    request, and `tts` (the length of the narration of a script). Files are
    identified by what they show or say: a slide image by its text, a narration by
    its script. */
module Pipeline {
  import opened Wrappers
  import opened Text
  import opened Filenames
  import opened ModelResolver
  import opened Gemini
  import opened Slides
  import opened Timing
  import opened Arxiv

  /** `safe_filename(title.replace(" ", "_"))`: the base of the PDF's file name. */
  function PdfBaseName(title: string): (r: string)
    ensures |r| <= MaxNameLength
    ensures forall i :: 0 <= i < |r| ==> r[i] != ' ' && r[i] !in Forbidden
    ensures forall i :: 0 <= i < |r| - 1 ==> !(r[i] == '_' && r[i + 1] == '_')
  {
    var underscored := Replace(title, " ", "_");
    ReplaceCharByChar(title, ' ', '_');
    SafeFilenameKeepsAbsent(underscored, ' ');
    SafeFilename(underscored)
  }

  /** `extract_text_from_pdf`: the pages' texts joined by newlines, or the empty text
      when there is no document. Pages without line breaks of their own are given
      back, one per line, by splitting the text at newlines. */
  function ExtractText(pdf: Option<seq<string>>): (r: string)
    ensures pdf.None? ==> r == ""
    ensures pdf.Some? ==> r == Join(pdf.value, '\n')
    ensures pdf.Some? && |pdf.value| > 0 ==> |r| == TotalLength(pdf.value) + |pdf.value| - 1
    ensures pdf.Some? && |pdf.value| > 0 && (forall i :: 0 <= i < |pdf.value| ==> '\n' !in pdf.value[i])
            ==> Split(r, '\n') == pdf.value
  {
    match pdf
    case None => ""
    case Some(pages) =>
      if |pages| > 0 && forall i :: 0 <= i < |pages| ==> '\n' !in pages[i] then
        SplitJoin(pages, '\n');
        Join(pages, '\n')
      else
        Join(pages, '\n')
  }

  /** The extracted text is empty exactly when there is no document, it has no pages,
      or its only page is empty; a later empty page still contributes its newline. */
  lemma ExtractTextEmptyIff(pdf: Option<seq<string>>)
    ensures ExtractText(pdf) == "" <==>
              pdf.None? || |pdf.value| == 0 || (|pdf.value| == 1 && pdf.value[0] == "")
  {
    if pdf.Some? {
      JoinEmptyIff(pdf.value, '\n');
    }
  }

  /** What a run produced: the paper's stripped title, the PDF file name, the summary,
      the five slide texts, the five narration scripts and the clips of the video. */
  datatype Video = Video(title: string, pdfName: string, summary: Summary,
                         slides: seq<string>, scripts: seq<string>, clips: seq<Clip>)

  /** How `main` ends: no paper in the feed, no text in the first paper's PDF, a
      summarisation error (raised in the source), or a video. `main` only prints a
      warning when there is no text; the locator carried by `NoText` is added by the
      model to say which PDF it was. */
  datatype Outcome =
    | NoPapers
    | NoText(pdfUrl: string)
    | SummaryFailed(error: GeminiError)
    | Produced(video: Video)

  /** `generate_slide_audios`: one narration per script, in order. */
  function Narrate(scripts: seq<string>, tts: string -> real): (audios: seq<Audio>)
    ensures |audios| == |scripts|
    ensures forall i :: 0 <= i < |scripts| ==> audios[i] == Audio(scripts[i], tts(scripts[i]))
  {
    seq(|scripts|, i requires 0 <= i < |scripts| => Audio(scripts[i], tts(scripts[i])))
  }

  /** The video stage of `main` for a summarised paper: slides and scripts from the
      summary, narrations from the scripts, clips pairing them. */
  function MakeVideo(title: string, pdfName: string, summary: Summary, tts: string -> real): (v: Video)
    ensures v.title == title && v.pdfName == pdfName && v.summary == summary
    ensures v.slides == SlideTexts(title, summary.text)
    ensures v.scripts == SlideScripts(title, summary.text)
    ensures |v.clips| == 5
    ensures forall i :: 0 <= i < 5 ==>
              v.clips[i] == Clip(v.slides[i], Some(v.scripts[i]), tts(v.scripts[i]) + Padding)
    ensures TotalDuration(v.clips) == Sum(AudioDurations(Narrate(v.scripts, tts))) + 1.0
  {
    var slides := SlideTexts(title, summary.text);
    var scripts := SlideScripts(title, summary.text);
    var audios := Narrate(scripts, tts);
    FiveSlidesTotal(slides, audios);
    Video(title, pdfName, summary, slides, scripts, PairClips(slides, audios))
  }

  /** The text of the first paper's PDF. */
  function FirstText(papers: seq<Paper>, fetch: string -> Option<seq<string>>): string
    requires |papers| > 0
  {
    ExtractText(fetch(PdfUrl(papers[0].id)))
  }

  /** The summarisation of the first paper's text under its stripped title. */
  function FirstSummary(papers: seq<Paper>, fetch: string -> Option<seq<string>>, apiKey: string,
                        preferred: string, models: seq<ModelEntry>, reply: Response): Result<Summary, GeminiError>
    requires |papers| > 0
  {
    SummarizeJa(FirstText(papers, fetch), StripSpace(papers[0].title), apiKey, preferred, models, reply)
  }

  /** `main`: only the first paper is processed. No paper stops the run; so does a PDF
      without text; a summarisation error ends it, carrying that error; otherwise a
      five-clip video is made from the summary, each clip lasting its narration plus
      0.2 seconds. */
  function Run(papers: seq<Paper>, fetch: string -> Option<seq<string>>, apiKey: string,
               preferred: string, models: seq<ModelEntry>, reply: Response,
               tts: string -> real): (r: Outcome)
    ensures r == NoPapers <==> |papers| == 0
    ensures |papers| > 0 ==> (r.NoText? <==> FirstText(papers, fetch) == "")
    ensures r.NoText? ==> r.pdfUrl == PdfUrl(papers[0].id)
    ensures r.SummaryFailed? <==>
              |papers| > 0 && FirstText(papers, fetch) != ""
              && FirstSummary(papers, fetch, apiKey, preferred, models, reply).Err?
    ensures r.SummaryFailed? ==> r.error == FirstSummary(papers, fetch, apiKey, preferred, models, reply).error
    ensures r.Produced? ==>
              && |papers| > 0
              && FirstSummary(papers, fetch, apiKey, preferred, models, reply).Ok?
              && ProducedFrom(r.video, papers[0], FirstText(papers, fetch),
                              FirstSummary(papers, fetch, apiKey, preferred, models, reply).value, tts)
  {
    if |papers| == 0 then NoPapers
    else
      var entry := papers[0];
      var title := StripSpace(entry.title);
      var pdfName := PdfBaseName(title) + PdfSuffix;
      var url := PdfUrl(entry.id);
      var text := ExtractText(fetch(url));
      if text == "" then NoText(url)
      else
        var summarised := SummarizeJa(text, title, apiKey, preferred, models, reply);
        if summarised.Err? then SummaryFailed(summarised.error)
        else
          assert summarised.value.prompt == BuildPrompt(text, title);
          MakeVideoProduces(entry, text, summarised.value, tts);
          Produced(MakeVideo(title, pdfName, summarised.value, tts))
  }

  lemma MakeVideoProduces(paper: Paper, text: string, summary: Summary, tts: string -> real)
    requires summary.prompt == BuildPrompt(text, StripSpace(paper.title))
    ensures var title := StripSpace(paper.title);
            ProducedFrom(MakeVideo(title, PdfBaseName(title) + PdfSuffix, summary, tts), paper, text, summary, tts)
  {
  }

  /** The video `v` is the one made for `paper`, whose PDF text is `text` and whose
      summary is `summary`: the stripped title, the sanitised PDF name, the summary
      itself, five slides and five scripts laid out from it, and five clips pairing
      them, each lasting its narration plus the padding. */
  ghost predicate ProducedFrom(v: Video, paper: Paper, text: string, summary: Summary, tts: string -> real) {
    && v.title == StripSpace(paper.title)
    && v.pdfName == PdfBaseName(v.title) + PdfSuffix
    && v.summary == summary
    && summary.prompt == BuildPrompt(text, v.title)
    && |v.slides| == 5 && |v.scripts| == 5 && |v.clips| == 5
    && v.slides == SlideTexts(v.title, summary.text)
    && v.scripts == SlideScripts(v.title, summary.text)
    && forall i :: 0 <= i < 5 ==> v.clips[i] == Clip(v.slides[i], Some(v.scripts[i]), tts(v.scripts[i]) + Padding)
  }

  /** Papers after the first never influence the run. */
  lemma OnlyFirstPaperMatters(first: Paper, rest1: seq<Paper>, rest2: seq<Paper>,
                              fetch: string -> Option<seq<string>>, apiKey: string,
                              preferred: string, models: seq<ModelEntry>, reply: Response,
                              tts: string -> real)
    ensures Run([first] + rest1, fetch, apiKey, preferred, models, reply, tts)
         == Run([first] + rest2, fetch, apiKey, preferred, models, reply, tts)
  {
    assert ([first] + rest1)[0] == first == ([first] + rest2)[0];
  }

  /** With a credential, a capable named model and a 200 reply, a paper whose PDF has
      text always yields a video. */
  lemma HappyPathProducesVideo(papers: seq<Paper>, fetch: string -> Option<seq<string>>, apiKey: string,
                               preferred: string, models: seq<ModelEntry>, reply: Response,
                               tts: string -> real)
    requires |papers| > 0 && ExtractText(fetch(PdfUrl(papers[0].id))) != ""
    requires apiKey != "" && reply.status == 200
    requires exists i :: 0 <= i < |models| && CanGenerate(models[i]) && models[i].name.Some?
    requires forall i :: 0 <= i < |models| ==> models[i].name.Some?
    ensures Run(papers, fetch, apiKey, preferred, models, reply, tts).Produced?
  {
    var p := PickWorkingModel(preferred, models);
    assert p.Ok?;
    assert p.value.Some?;
  }

  /** The PDF file name has no space, no forbidden character and ends in `.pdf`. */
  lemma PdfNameIsClean(title: string)
    ensures var name := PdfBaseName(StripSpace(title)) + PdfSuffix;
            && EndsWith(name, PdfSuffix)
            && |name| <= MaxNameLength + |PdfSuffix|
            && forall i :: 0 <= i < |name| ==> name[i] != ' ' && name[i] !in Forbidden
  {
    var base := PdfBaseName(StripSpace(title));
    var name := base + PdfSuffix;
    assert name[|name| - |PdfSuffix|..] == PdfSuffix;
    SuffixIsClean();
    forall i | 0 <= i < |name|
      ensures name[i] != ' ' && name[i] !in Forbidden
    {
      if i >= |base| {
        assert name[i] == PdfSuffix[i - |base|];
      }
    }
  }

  lemma SuffixIsClean()
    ensures forall i :: 0 <= i < |PdfSuffix| ==> PdfSuffix[i] != ' ' && PdfSuffix[i] !in Forbidden
  {
  }
}
