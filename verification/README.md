# paper_movie_bot in Dafny

paper_movie_bot turns the newest AI paper on arXiv into a short narrated Japanese
video. It fetches the feed and downloads the first paper's PDF. It extracts the text,
asks a Gemini model for a bullet-point summary, and lays the summary out as five
slides with one narration each. Each slide is then shown for as long as its
narration lasts, plus 0.2 seconds. `paper_voice_bot.py` is an earlier variant:
- it summarises every paper whose PDF yields text, skipping the others;
- it builds five `KEY: value` slides from a second model answer;
- it shows each slide for 4 seconds under one VOICEVOX narration.

This project models the decisions underneath that I/O as pure Dafny functions over
immutable datatypes, and proves their contracts. The decisions are:
- model selection and the handling of the service's reply;
- file-name sanitising and locator rewriting;
- bullet extraction and the five-slide layout;
- clip timing;
- the stage flow of both `main` functions.

Everything external is a parameter:
- the feed entries;
- the PDF pages behind a locator;
- the credential;
- the model list and the HTTP reply;
- the model's text answers;
- the speaker list;
- the narration length of a script;
- the ffmpeg exit code.

Files are identified by what they show or say: a slide image by its text, a
narration by its script.

Modules:
- `Wrappers`: `Option` and `Result`.
- `Text`: the Python `str`/`re` operations the code relies on:
  - `IsSpace` is `str.isspace`;
  - `strip`/`strip(chars)`;
  - `[:n]`, including negative `n`;
  - `split("\n")` and `join`;
  - `replace`;
  - the run-collapsing `re.sub`.
- `Filenames`: both `safe_filename` variants.
- `ModelResolver`: `normalize_model_name` and `pick_working_model`.
- `Gemini`: `gemini_generate_content` and `gemini_summarize_ja`.
- `Slides`: `build_slide_scripts` and the text list of `build_slides`.
- `Clamp`: `clamp_text`.
- `Timing`: the speed clamp, the clip timing of both `generate_video`s, and durations.
- `Arxiv`: feed entries and the PDF locator rewrite.
- `Pipeline`: main.py's `main`.
- `LegacyBot`: paper_voice_bot.py.

## Model

| member | source | states |
|---|---|---|
| Text.Prefix | main.py:172 | Python `s[:n]`: a prefix of `s` of length `min(n, len(s))`, or `len(s)+n` clipped at 0 for negative `n` |
| Text.Strip | main.py:242 | `s.strip(chars)`: the result is the slice after the leading class characters; everything cut off is in the class; neither end of the result is in the class |
| Text.StripIdempotent | main.py:125 | stripping twice is stripping once |
| Text.StripEmptyIff | main.py:242 | `s.strip()` is empty exactly when every character is whitespace (the `if s.strip()` filter) |
| Text.Split | main.py:242 | `split("\n")` never yields an empty list, no piece contains the separator, and joining the pieces restores the text |
| Text.SplitJoin | main.py:242 | splitting a join of separator-free pieces gives back exactly those pieces |
| Text.Join | main.py:109 | `"\n".join(parts)`: as long as the pieces together plus one separator between neighbours, starting with the first piece and then the separator |
| Text.JoinSingle | main.py:109 | joining a single piece gives that piece |
| Text.JoinAppend | main.py:109 | joining two non-empty lists of pieces is joining each with one separator between, so every piece appears in order separated by `"\n"` |
| Text.JoinEmptyIff | main.py:109 | `"\n".join(chunks)` is empty exactly when there are no chunks or the only chunk is empty |
| Text.Concat | paper_voice_bot.py:84-86 | `text += page.get_text()` over the pages: as long as the pages together, starting with the first page |
| Text.ConcatSingle | paper_voice_bot.py:84-86 | concatenating a single page gives that page |
| Text.ConcatAppend | paper_voice_bot.py:84-86 | concatenating an appended list is concatenating each part, so every page appears in order with nothing between |
| Text.ConcatEmptyIff | paper_voice_bot.py:84-88 | the concatenation is empty exactly when every page is empty |
| Text.StripSpace | main.py:125 | argument-less `strip()`: the result is the slice after the leading whitespace, everything cut off after it is whitespace, and neither of its ends is whitespace |
| Text.CollapseRuns | main.py:45 | `re.sub(r"_+", "_", s)`: no two neighbouring class characters remain, the only class character left is the replacement, and a leading class character stays exactly when the input had one |
| Text.CollapseRunsKeepsContent | main.py:45 | collapsing runs keeps the characters outside the class, in order |
| Text.CollapseRunsDrawsFrom | main.py:45 | collapsing invents nothing: every character of the result is the replacement or occurs in the input |
| Text.CollapseRunsMatchesReference | main.py:45 | agrees on every input with a position-wise reference: a character survives exactly when it is outside the class or the first of its run, and a surviving class character becomes the replacement, so each maximal run becomes one replacement in its place |
| Text.CollapseRunsSeparates | main.py:45 | two class-free words around a non-empty run come out joined by exactly one replacement |
| Text.Replace | main.py:341 | `replace` with a target and replacement of the same length keeps the length |
| Text.ReplaceAbsent | main.py:344 | `replace` leaves a text without an occurrence unchanged |
| Text.ReplaceFirstAt | main.py:344 | text before the first occurrence is kept, the occurrence is replaced, and scanning resumes after it |
| Text.ReplaceCharByChar | main.py:341 | replacing one character by another rewrites exactly the matching positions |
| Text.ReplaceCharByNothing | paper_voice_bot.py:149 | deleting a one-character target removes every occurrence of it and keeps the rest in order |
| Text.ReplaceKeepsContent | paper_voice_bot.py:149 | deleting every occurrence of a target made only of class characters keeps every character outside the class, in order |
| Filenames.MaskForbidden | main.py:44 | each of `<>:"/\|?*\r\n` becomes `_`, every other character is kept, and none of them remains |
| Filenames.SafeFilenameUncapped | paper_voice_bot.py:28-31 | no forbidden character, no `__`, no `_` at either end, never longer than the input |
| Filenames.SafeFilenameKeepsContent | paper_voice_bot.py:29-31 | sanitising only touches separators: the characters that are neither forbidden nor `_` survive, in order |
| Filenames.SafeFilenameByReference | paper_voice_bot.py:28-31 | the uncapped result is the masked name with each maximal run of `_` turned into one `_` in place (the position-wise reference), then stripped of `_` |
| Filenames.SafeFilenameSeparates | paper_voice_bot.py:28-31 | two clean words around any run of forbidden characters and `_` come out as the words joined by one `_` |
| Filenames.SafeFilenameUncappedIdempotent | paper_voice_bot.py:28-31 | the uncapped variant is idempotent |
| Filenames.SafeNameFixed | paper_voice_bot.py:28-31 | a name that already meets the guarantees is returned unchanged |
| Filenames.SafeFilename | main.py:43-46 | at most 120 characters, a prefix of the uncapped result, no forbidden character, no `__`, no leading `_` |
| Filenames.SafeFilenameKeepsAbsent | main.py:43-46 | sanitising introduces no character except `_`: a character missing from the input is missing from the result |
| Filenames.SafeFilenameIdempotentIff | main.py:46 | the capped variant is idempotent exactly when its result does not end with `_` |
| Filenames.SafeFilenameCutExposesUnderscore | main.py:46 | the cut to 120 can expose a trailing `_`: 119 letters then `_b` give a 120-character name ending in `_` that a second pass shortens |
| ModelResolver.NormalizeModelName | main.py:123-128 | the result starts with `models/`, has no surrounding whitespace and ends with the stripped input |
| ModelResolver.NormalizeStripsFirst | main.py:123-125 | a padded name normalises as its stripped form, so with the fixed-point and bare-name lemmas the result is fixed for every input, padded or empty |
| ModelResolver.NormalizeFixedIff | main.py:123-128 | the fixed points of normalisation are exactly the stripped names starting with `models/` |
| ModelResolver.NormalizeIdempotent | main.py:123-128 | normalising twice is normalising once |
| ModelResolver.NormalizeBareName | main.py:125-128 | a name without surrounding whitespace that lacks the prefix just gains `models/` (the empty name gives `models/`) |
| ModelResolver.NormalizeExample | main.py:123-128 | the default setting `gemini-2.5-flash` normalises to `models/gemini-2.5-flash` |
| ModelResolver.HasCapableNamed | main.py:135-139 | true exactly when some entry carries the name and supports `generateContent` |
| ModelResolver.FirstCapable | main.py:142-145 | the position of the first entry supporting `generateContent`, with none before it |
| ModelResolver.PickWorkingModel | main.py:130-147 | the preferred normalised name wins if any capable entry carries it; otherwise the name of the first capable entry is returned; the error occurs exactly when no entry is capable; any returned name belongs to a capable entry |
| ModelResolver.PreferredWinsAnywhere | main.py:135-139 | the preferred capable entry is chosen whatever entries precede it |
| ModelResolver.PreferredWithoutGenerationFallsBack | main.py:135-145 | a preferred entry lacking `generateContent` is passed over for the first capable entry |
| Gemini.GenerateContent | main.py:149-182 | an empty key fails first; with a key, the call succeeds exactly on status 200; an error carries the status and exactly the first `min(800, len)` characters of the body (or `<no body>`); a 200 returns the candidate text, or the JSON dump cut to 800 characters when the path is missing |
| Gemini.BuildPrompt | main.py:186 | the prompt's excerpt is the first `min(12000, len)` characters of the text, and the whole text when it is short |
| Gemini.SummarizeJa | main.py:184-209 | success exactly when the key is set, a model is capable and named, and the reply is 200; an empty key, no capable model, an unnamed pick and a non-200 reply each give their own error, the last one the error of the call; on success the model is the normalised picked name, the prompt is built from the 12000-character excerpt and the title, and the summary is the stripped reply text |
| Slides.KeepBullets | main.py:242 | never more bullets than lines |
| Slides.NonblankPositions | main.py:242 | reference account: the increasing positions of exactly the non-blank lines |
| Slides.BulletsAreStrippedNonblankLines | main.py:242 | bullet `k` is the `" -・"`-stripped line at the `k`-th non-blank position: blank lines are dropped and order is kept |
| Slides.ExtractBullets | main.py:242 | one bullet per non-blank line of the summary, in order, each the line stripped of `" -・"` at both ends |
| Slides.PadBullets | main.py:243-244 | padding keeps the bullets and appends fillers up to three |
| Slides.SlideScripts | main.py:241-252 | always five scripts: title intro, points 1-3 from bullets 0-2 (empty when missing), fixed closing |
| Slides.SlideTexts | main.py:287-299 | always five slide texts: `TITLE` with the title, points 1-3 from bullets 0-2 (`（要点なし）` when missing), fixed closing |
| Slides.OnlyFirstThreeBulletsMatter | main.py:246-252 | summaries agreeing on their first three bullets give the same scripts and slide texts |
| Slides.TwoLineSummary | main.py:289-299 | a two-line summary yields those two stripped bullets and a placeholder third slide |
| Slides.MarkerOnlyLineGivesEmptyBullet | main.py:289-294 | a line of dashes is kept (it is not blank) and strips to an empty point, not the placeholder |
| Clamp.NormalizeSpace | main.py:55 | the result is single-spaced and trimmed, and keeps every non-whitespace character in order |
| Clamp.NormalizeSpaceByReference | main.py:55 | normalising is the position-wise collapse of each maximal whitespace run to one space, in place, then stripping |
| Clamp.NormalizeSpaceSeparates | main.py:55 | two whitespace-free words around any non-empty whitespace run come out joined by one space |
| Clamp.NormalizeSpaceIdempotent | main.py:55 | normalising whitespace twice is normalising once |
| Clamp.ClampText | main.py:54-58 | a text that fits is returned normalised; otherwise a prefix of the normalised text of exactly `max_chars` characters (for negative `max_chars`, `len + max_chars` clipped at 0) plus `…`, still single-spaced |
| Clamp.ClampTextFits | main.py:54-57 | an already normalised short text passes through unchanged |
| Timing.ClampSpeed | main.py:222 | the tempo lies in [0.5, 2.0], equals the input inside that range, and is the nearer bound outside it |
| Timing.ClampSpeedMonotone | main.py:222 | clamping keeps the order of speeds |
| Timing.SpeedUpAudio | main.py:220-227 | ffmpeg gets the clamped tempo; exit 0 returns the sped-up file; any other exit code warns and keeps the original |
| Timing.PairClips | main.py:312-321 | slide `i` is paired with narration `i` up to the shorter list, and each clip lasts its narration plus 0.2 |
| Timing.PairedTotal | main.py:312-323 | the paired video lasts the used narrations' total plus 0.2 per clip |
| Timing.FiveSlidesTotal | main.py:309-323 | five slides with five narrations give five clips lasting the narration total plus 1 second |
| Timing.Gapless | main.py:323 | the clips play back to back: the first starts at 0, each starts where the previous ends, and the last ends at the total |
| Timing.TotalDuration | main.py:323 | no clips last 0 seconds; when no clip has a negative duration, the total is non-negative and at least each clip's duration |
| Timing.FixedClips | paper_voice_bot.py:230 | one clip per slide, in order, each silent and 4 seconds long |
| Timing.FixedTotal | paper_voice_bot.py:230-232 | the legacy video lasts 4 seconds per slide |
| Timing.LegacyVideoOf | paper_voice_bot.py:228-235 | one silent 4-second clip per slide, in order, and the single narration laid over the whole video |
| Arxiv.PdfUrl | main.py:344 | the locator ends in `.pdf`, grows by exactly that suffix, and is only suffixed when it has no `abs` |
| Arxiv.AbsLocatorBecomesPdf | main.py:344 | an abstract locator whose only `abs` is its path segment becomes the PDF locator with `pdf` in its place |
| Pipeline.PdfBaseName | main.py:341 | the PDF's base name has no space, no forbidden character, no `__` and at most 120 characters |
| Pipeline.PdfNameIsClean | main.py:341-345 | the PDF file name ends in `.pdf` and has no space or forbidden character |
| Pipeline.ExtractText | main.py:97-109 | no document gives the empty text; otherwise it is the newline join of the pages (every page in order, `JoinAppend`), so it is as long as the pages together plus one newline between pages, and splitting it at newlines gives back pages that have no newline of their own |
| Pipeline.ExtractTextEmptyIff | main.py:97-109 | the extracted text is empty exactly when there is no document, no page, or one empty page |
| Pipeline.Narrate | main.py:230-235 | one narration per script, in order |
| Pipeline.MakeVideo | main.py:356-369 | the slides and scripts come from the summary; five clips each last their script's narration plus 0.2 |
| Pipeline.Run | main.py:331-369 | it stops on no papers exactly when the feed is empty, and on no text exactly when the first paper's text is empty (the outcome carries that paper's PDF locator, which `main` does not print); it fails exactly when summarising the first paper's text fails, with that error; a video carries the first paper's stripped title and cleaned file name, the summary of its text with the prompt built from that text and title, the five slides and scripts drawn from the summary, and clip `i` showing slide `i` with script `i` for its narration length plus 0.2 |
| Pipeline.OnlyFirstPaperMatters | main.py:339 | papers after the first never influence the run |
| Pipeline.HappyPathProducesVideo | main.py:331-369 | with a key, a model list whose entries are all named and one of which is capable, and a 200 reply, a first paper with text always yields a video |
| LegacyBot.Excerpt | paper_voice_bot.py:96-97 | the first `min(10000, len)` characters |
| LegacyBot.ExcerptCases | paper_voice_bot.py:96-97 | short texts are unchanged, long ones cut to exactly 10000, and the cut is idempotent |
| LegacyBot.FindStyle | paper_voice_bot.py:126-128 | the id of the first style with the name; None exactly when there is none |
| LegacyBot.GetSpeakerId | paper_voice_bot.py:121-130 | None exactly when no speaker of that name has that style; otherwise the id of the first style of that name of the first same-named speaker that has it |
| LegacyBot.LaterSameNamedSpeakerFound | paper_voice_bot.py:124-128 | a same-named speaker without the style is passed over for a later one that has it |
| LegacyBot.FirstOfTwoStylesWins | paper_voice_bot.py:126-128 | of two styles with the requested name, the first one's id is returned |
| LegacyBot.CleanNarration | paper_voice_bot.py:149 | the cleaned text contains no `_`, is no longer than the input, and every character other than `*` and `_` is kept, in order |
| LegacyBot.CleanNarrationKeepsPlainText | paper_voice_bot.py:149 | text without `**` or `_` is spoken unchanged |
| LegacyBot.CleaningCanLeaveBoldMarker | paper_voice_bot.py:149 | `*_*` cleans to `**`: bold removal runs before underscore removal |
| LegacyBot.SplitAtColon | paper_voice_bot.py:204 | the key has no colon and key + `:` + value is the line |
| LegacyBot.SplitAtColonRoundTrip | paper_voice_bot.py:204 | splitting a colon-free key joined to any value gives them back |
| LegacyBot.LineAssignment | paper_voice_bot.py:203-205 | a line contributes an assignment exactly when it has a colon; the line is then `k + ":" + v` with a colon-free `k`, and the assignment is `(k.strip(), v.strip())`, both already stripped |
| LegacyBot.Apply | paper_voice_bot.py:201-205 | every entry of the dictionary is the key and value of one of the assignments |
| LegacyBot.ApplyLastWins | paper_voice_bot.py:201-205 | the keys are exactly those assigned, and each maps to the value of its last assignment |
| LegacyBot.ParseLines | paper_voice_bot.py:201-205 | the keys are exactly those of the lines with a colon; each maps to the value on the last line that assigns it; keys and values are stripped and keys hold no colon |
| LegacyBot.ParseSlides | paper_voice_bot.py:201-207 | for the reply's `"\n"`-separated lines, every key and value is stripped and no key holds a colon |
| LegacyBot.AssembleSlides | paper_voice_bot.py:280-282 | five slides in the order TITLE, PURPOSE, METHOD, RESULT, CONCLUSION, each key + blank line + value, with an empty value for a missing key |
| LegacyBot.OnlySlideKeysMatter | paper_voice_bot.py:281-282 | replies that agree on the five keys give the same slides |
| LegacyBot.SlideShowsLastValue | paper_voice_bot.py:201-205 | a slide shows the value of the reply's last line for its key, and an empty body when no line sets it |
| LegacyBot.ExtractText | paper_voice_bot.py:74-88 | no document gives the empty text; otherwise it is the concatenation of the pages (every page in order, `ConcatAppend`); the text is empty exactly when there is no document or every page is empty; otherwise it is as long as the pages together and starts with the first page |
| LegacyBot.CollectSummaries | paper_voice_bot.py:250-265 | never more summaries than papers, and none exactly when no paper yields text; its content is fixed by `CollectSingle` and `CollectAppend` |
| LegacyBot.CollectSingle | paper_voice_bot.py:259-265 | one paper alone gives its title, file name and summary when its PDF yields text, and nothing otherwise |
| LegacyBot.CollectAppend | paper_voice_bot.py:250-265 | the summaries of a feed are those of its first part followed by those of the rest: every readable paper is collected, in feed order, with the others skipped |
| LegacyBot.FirstReadable | paper_voice_bot.py:259-261 | the position of the first paper with text, with none before it |
| LegacyBot.FirstCollectedIsFirstReadable | paper_voice_bot.py:267-274 | the first collected summary belongs to the first paper with text |
| LegacyBot.LegacyRun | paper_voice_bot.py:244-300 | it stops exactly when no paper has text; it fails exactly when the default voice is missing; otherwise five slides, a narration without `_` at speed 1.1 in the default voice's id, and a 20-second video whose clip `i` shows slide `i` silently for 4 seconds, under that narration |
| LegacyBot.LegacyRunUsesFirstReadable | paper_voice_bot.py:271-295 | with some paper that has text and the default speaker available, a video is made, and its slides and narration come from the first paper with text |

## Left out

- Network and feed access, PDF download and parsing, Gemini and VOICEVOX calls, gTTS, image rendering, ffmpeg and moviepy encoding are external. Their results are parameters: pages per locator, model list, HTTP reply, model answers, speaker list, narration lengths and exit codes.
- The wording of the prompts is not modelled. The main.py prompt is abstracted to its title and excerpt.
- main.py:188-205 is dedented out of `gemini_summarize_ja`, so the file does not parse as written. The model follows the evident intent: cut the text to 12000 characters, then build the prompt inside the function.
- A 200 reply whose body is not JSON makes `r.json()` raise. It is not modelled; the reply record always carries a dump.
- Exceptions from the network and library calls are not modelled. The modelled error paths are: missing key, no capable model, unnamed model, non-200 status, missing speaker.
- Gemini.GenerateContent: the credential is taken as already stripped, as main.py:24 reads it.
- File paths under `outputs/` and the date-stamped output names are not modelled. Images and narrations are identified by their text.
- `build_script` (main.py:254-257) is not used by `main` and is not modelled. Neither is the unused `SLIDE_SECONDS` setting.
- `textwrap.wrap` layout and the title/body split inside `create_slide_image` are rendering, not modelled.
- `speedup_audio_ffmpeg` is modelled but `main` never calls it. `clamp_text` is modelled but never called.
- Durations are mathematical reals. Float rounding in moviepy is not modelled.
- Text.Replace: requires a non-empty target. Every call in the source uses a non-empty one.
- main.py's `generate_video` pairs slides and narrations with `zip`, so surplus slides or narrations are dropped without an error (`Timing.PairClips`).
- The summary's whitespace is never collapsed: `main` does not call `clamp_text`, so the pipeline model does not apply it.
