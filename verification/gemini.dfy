/** Talking to the generative-language service (main.py `gemini_generate_content` and
    `gemini_summarize_ja`). The HTTP exchange is replaced by its outcome: the model
    list and the reply to the generation request are parameters. */
module Gemini {
  import opened Wrappers
  import opened Text
  import opened ModelResolver

  /** How much of an error body is reported (`r.text[:800]`). */
  const ErrorBodyLimit := 800

  /** How much of the JSON rendering is returned for an unexpected reply shape. */
  const DumpLimit := 800

  /** How much of the paper text goes into the prompt (`paper_text[:12000]`). */
  const ExcerptLimit := 12000

  /** The body reported when reading the error response's text fails. */
  const NoBody := "<no body>"

  /** The HTTP reply to a generation request: its status, its body as text (None when
      reading it raises), the text at `candidates[0].content.parts[0].text` (None when
      that path is missing), and `json.dumps` of the decoded body. */
  datatype Response = Response(status: int, body: Option<string>, candidateText: Option<string>, dump: string)

  /** The ways summarisation stops: no credential, no usable model, a chosen model
      record without a name, or a non-200 reply with its status and truncated body. */
  datatype GeminiError =
    | MissingApiKey
    | NoModel
    | UnnamedModel
    | RestError(status: int, body: string)

  /** `gemini_generate_content` after the request is sent. A missing credential fails
      first. A non-200 status fails, carrying the status and at most 800 characters of
      the body. A 200 never fails: it yields the first candidate's text, or, when the
      reply has an unexpected shape, at most 800 characters of its JSON rendering. */
  function GenerateContent(apiKey: string, reply: Response): (r: Result<string, GeminiError>)
    ensures apiKey == "" ==> r == Err(MissingApiKey)
    ensures apiKey != "" ==> (r.Ok? <==> reply.status == 200)
    ensures apiKey != "" && reply.status != 200 ==>
              && r.Err? && r.error.RestError?
              && r.error.status == reply.status
              && |r.error.body| <= ErrorBodyLimit
              && (reply.body.Some? ==> IsPrefix(r.error.body, reply.body.value)
                                       && |r.error.body| == Min(ErrorBodyLimit, |reply.body.value|))
              && (reply.body.None? ==> r.error.body == NoBody)
    ensures r.Ok? && reply.candidateText.Some? ==> r.value == reply.candidateText.value
    ensures r.Ok? && reply.candidateText.None? ==>
              |r.value| == Min(DumpLimit, |reply.dump|) && IsPrefix(r.value, reply.dump)
  {
    if apiKey == "" then Err(MissingApiKey)
    else if reply.status != 200 then
      var body := match reply.body
        case Some(text) => Prefix(text, ErrorBodyLimit)
        case None => NoBody;
      Err(RestError(reply.status, body))
    else
      match reply.candidateText
      case Some(text) => Ok(text)
      case None => Ok(Prefix(reply.dump, DumpLimit))
  }

  /** The prompt, abstracted to what varies between calls: the title and the excerpt
      of the paper text; the fixed instruction wording is not modelled. */
  datatype Prompt = Prompt(title: string, excerpt: string)

  /** The start of `gemini_summarize_ja`: cut the text to 12000 characters and build the
      prompt from the title and that excerpt. Short texts go in whole. */
  function BuildPrompt(paperText: string, title: string): (p: Prompt)
    ensures p.title == title
    ensures IsPrefix(p.excerpt, paperText)
    ensures |p.excerpt| == Min(ExcerptLimit, |paperText|)
    ensures |paperText| <= ExcerptLimit ==> p.excerpt == paperText
  {
    Prompt(title, Prefix(paperText, ExcerptLimit))
  }

  /** A successful summarisation: the normalised model addressed, the prompt sent and
      the whitespace-stripped reply text. */
  datatype Summary = Summary(model: string, prompt: Prompt, text: string)

  /** `gemini_summarize_ja`: build the prompt, pick a model (listing models needs the
      credential), send the prompt and strip the answer. It succeeds exactly when the
      credential is set, some model can generate, the chosen record has a name and the
      reply is a 200; the summary is then addressed to a canonical `models/` name and
      has no surrounding whitespace. */
  function SummarizeJa(paperText: string, title: string, apiKey: string, preferred: string,
                       models: seq<ModelEntry>, reply: Response): (r: Result<Summary, GeminiError>)
    ensures apiKey == "" ==> r == Err(MissingApiKey)
    ensures apiKey != "" && PickWorkingModel(preferred, models).Err? ==> r == Err(NoModel)
    ensures r.Ok? <==>
              && apiKey != ""
              && PickWorkingModel(preferred, models).Ok?
              && PickWorkingModel(preferred, models).value.Some?
              && reply.status == 200
    ensures apiKey != "" && PickWorkingModel(preferred, models) == Ok(None) ==> r == Err(UnnamedModel)
    ensures apiKey != "" && PickWorkingModel(preferred, models).Ok? && PickWorkingModel(preferred, models).value.Some?
            && reply.status != 200 ==>
              r == Err(GenerateContent(apiKey, reply).error)
    ensures r.Ok? ==>
              && IsPrefix(ModelsPrefix, r.value.model)
              && r.value.model == NormalizeModelName(PickWorkingModel(preferred, models).value.value)
              && r.value.prompt == BuildPrompt(paperText, title)
              && r.value.text == StripSpace(GenerateContent(apiKey, reply).value)
              && StripSpace(r.value.text) == r.value.text
  {
    var prompt := BuildPrompt(paperText, title);
    if apiKey == "" then Err(MissingApiKey)
    else
      match PickWorkingModel(preferred, models)
      case Err(_) => Err(NoModel)
      case Ok(None) => Err(UnnamedModel)
      case Ok(Some(chosen)) =>
        match GenerateContent(apiKey, reply)
        case Err(e) => Err(e)
        case Ok(text) =>
          StripIdempotent(text, Space);
          Ok(Summary(NormalizeModelName(chosen), prompt, StripSpace(text)))
  }
}
