# YouTube summarizer: video-id extraction and prompt construction

This project models the self-contained logic of a Streamlit app that summarises YouTube
videos. The app gets a transcript and has a language model summarise it. Three pieces
of that app do their own computation, and these are what the model covers:

- **Video-id extraction** (`extract_video_id`). The app strips whitespace from the URL the
  user typed. It then tries five regular expressions in a fixed order and returns the
  first capture, an 11-character id over `[0-9A-Za-z_-]`. When no pattern matches it
  raises `ValueError`. The model writes each pattern as a hand-made matcher with
  `re.search` semantics: the leftmost start index where the pattern matches wins, and
  group 1 is returned. The failure is the `Err(ValueError(...))` variant of a result
  type (module `VideoId`, file `video_id.dfy`).
- **Summary prompts** (`get_available_languages`, `create_summary_prompt`). The model holds
  the twelve selectable languages in display order and the two header vocabularies
  (`en`, `de`). Any other code falls back to English. It builds the system prompt and the
  user prompt character for character, including the emoji section markers and the
  indentation inside the triple-quoted f-strings (module `SummaryPrompt`, file
  `summary_prompt.dfy`).
- **Chunk prefix** (`" ".join(texts[:4])` in `summarize_with_langchain_and_openai`). The
  splitter's output is taken as an opaque sequence of chunks. The text that gets
  summarised is the first four chunks or fewer, joined by single spaces.

Python's `str.strip()` and `str.join` are modelled in module `PyStr` (file `pystr.dfy`).
The `Option` type shared by the modules is in module `Wrappers` (file `wrappers.dfy`).
The results about the four canonical address shapes are in modules `UrlShapes` and
`CanonicalUrls` (file `url_shapes.dfy`).
`strip()` removes exactly the characters for which `str.isspace()` holds.

Main results:

- Every returned id has 11 id characters and is a contiguous part of the input.
- Surrounding whitespace never changes the outcome.
- Extraction succeeds exactly when the stripped input has `v=` or `/` followed by 11 id
  characters, or is itself 11 id characters.
- The embed, `youtu.be` and shorts patterns (lines 38-40) can never decide the result.
  Each of their markers ends in `/`, so the first pattern's `/` alternative always
  matches first.
- A bare id is returned unchanged.
- The four canonical URL shapes give back their id, whatever follows it.
- The user prompt shows the five section markers in order, then the text verbatim.
  The prompt pair determines the text.
- Chunks after the fourth never reach the prompt.

Three details of the code are worth stating outright:

- `.` is not an id character. The class is `[0-9A-Za-z_-]`.
- The embed, short-link and shorts shapes are already covered by the first pattern's `/`
  alternative, so the five patterns do not act as five separate matchers with their own
  priority.
- The failure is `ValueError("Could not extract video ID from URL")`.

## Model

| member | source | states |
|---|---|---|
| PyStr.IsSpace | app.py:44 | defines the characters `str.strip()` removes: exactly those for which `str.isspace()` holds; `StripStart` and `StripEnd` are stated in terms of it |
| PyStr.StripStart | app.py:44 | `lstrip` removes a blank prefix and nothing else; what remains does not start with whitespace |
| PyStr.StripEnd | app.py:44 | `rstrip` removes a blank suffix and nothing else; what remains does not end with whitespace |
| PyStr.Strip | app.py:44 | `strip()` gives a string no longer than its input that neither starts nor ends with whitespace; `StripSplits`, `StripOf` and `StripIgnoresPadding` pin it down fully |
| PyStr.StripSplits | app.py:44 | `strip()` output is a contiguous slice of its input with only whitespace on either side, and neither starts nor ends with whitespace |
| PyStr.StripIgnoresPadding | app.py:44 | adding whitespace before or after a string does not change what `strip()` returns |
| PyStr.StripIdempotent | app.py:44 | stripping twice gives the same string as stripping once |
| PyStr.StripOf | app.py:44 | a string that neither starts nor ends with whitespace, padded with whitespace on both sides, is exactly what `strip()` gives back |
| PyStr.StripKeepsPrefix | app.py:44 | a non-empty string that neither starts nor ends with whitespace, followed by anything, is kept whole by `strip()`, which only trims the tail |
| PyStr.StripIsInfix | app.py:44 | `strip()` output is a contiguous part of its input |
| PyStr.Join | app.py:235 | defines `sep.join(parts)`: nothing for no parts, the part itself for one; `JoinKeepsParts`, `JoinLength` and `JoinAppend` carry its properties |
| PyStr.JoinAppend | app.py:235 | joining one more part appends exactly the separator and that part, so the separator is what lies between neighbouring parts |
| PyStr.JoinKeepsParts | app.py:235 | every part given to `" ".join` appears in the result, in order and without overlap |
| PyStr.JoinLength | app.py:235 | the joined length is the parts' total length plus one separator between each neighbouring pair |
| VideoId.Patterns | app.py:36-42 | defines the five patterns in the order the loop tries them: standard-or-shared, embed, short link, shorts, bare id; `FirstMatchPicks` and `MiddlePatternsNeverDecide` are about this order |
| VideoId.MatchesAt | app.py:37-41 | defines where each pattern can start a match: `v=` or `/`, or the embed, `youtu.be` or shorts marker, followed by 11 id characters, or, for `^...$`, the whole string, with `$` also matching before a final newline; `SearchFails`, `MarkerMatchIsSlashMatch` and `BareIdMatchOnStripped` are stated with it |
| VideoId.CaptureStart | app.py:37-41 | group 1 begins at an index where 11 id characters follow |
| VideoId.Capture | app.py:37-41 | a match's group 1 is 11 id characters taken from the string where the pattern's capture starts |
| VideoId.Leftmost | app.py:47 | the scan reports an index where the pattern matches with no match before it, or reports none only when the pattern matches nowhere |
| VideoId.Search | app.py:47-49 | a successful `re.search` yields a valid 11-character id that occurs in the searched string |
| VideoId.SearchFindsLeftmost | app.py:47 | if the pattern matches at k and nowhere before k, the search returns the capture at k |
| VideoId.SearchFails | app.py:47-48 | the search comes back empty exactly when the pattern matches at no index |
| VideoId.FirstMatch | app.py:46-49 | whatever the pattern loop returns is a valid id occurring in the stripped input |
| VideoId.FirstMatchPicks | app.py:46-49 | the first pattern in list order that matches decides the result, even if a later pattern would also match |
| VideoId.FirstMatchFails | app.py:46-51 | the loop falls through to the error exactly when every pattern fails |
| VideoId.ExtractVideoId | app.py:34-51 | a success is 11 id characters occurring in the stripped input; a failure is `ValueError("Could not extract video ID from URL")` |
| VideoId.ExtractIgnoresPadding | app.py:44 | leading and trailing whitespace never changes the outcome, success or failure |
| VideoId.ExtractedIdIsInfix | app.py:44-49 | the returned id is a contiguous part of the input exactly as typed |
| VideoId.MarkerMatchIsSlashMatch | app.py:37-40 | a match of `embed/`, `youtu.be/` or `shorts/` is also a match of the first pattern at the marker's final `/` |
| VideoId.MarkerSearchImpliesStandard | app.py:37-40 | if the embed, short-link or shorts pattern finds anything, the first pattern finds something too |
| VideoId.MiddlePatternsNeverDecide | app.py:36-49 | the five-pattern list gives the same result as the first pattern followed by the bare-id pattern alone |
| VideoId.BareIdMatchOnStripped | app.py:41-44 | on stripped input, which cannot end in a newline, `^...$` matches exactly when the input is 11 id characters |
| VideoId.ExtractSucceedsIff | app.py:36-51 | extraction succeeds iff the stripped input has `v=` or `/` followed by 11 id characters somewhere, or is itself 11 id characters |
| VideoId.LeftmostStandardMatchDecides | app.py:37-49 | the leftmost `v=` or `/` followed by 11 id characters determines the id (longer runs are cut to their first 11) |
| VideoId.BareIdReturnedUnchanged | app.py:41-49 | an id of 11 id characters comes back unchanged, with any whitespace padding around it |
| UrlShapes.ShapeDecides | app.py:37-49 | a prefix that starts with a non-blank character and ends in `v=` or `/`, with no earlier place in the prefix and id where the first pattern can match, followed by an id and anything else, yields that id |
| UrlShapes.ShapeYieldsId | app.py:37-49 | a prefix that starts with a non-blank character, ends in `v=` or `/`, has no `v` before that final `v=` or `/`, and has every earlier `/` followed within eleven characters by a non-id character of the prefix, followed by an id and anything else, yields that id |
| CanonicalUrls.WatchUrlYieldsId | app.py:37 | `https://www.youtube.com/watch?v=` followed by an id and anything else yields that id |
| CanonicalUrls.ShortLinkUrlYieldsId | app.py:37-39 | `https://youtu.be/` followed by an id and anything else yields that id |
| CanonicalUrls.EmbedUrlYieldsId | app.py:37-38 | `https://www.youtube.com/embed/` followed by an id and anything else yields that id |
| CanonicalUrls.ShortsUrlYieldsId | app.py:37-40 | `https://www.youtube.com/shorts/` followed by an id and anything else yields that id |
| SummaryPrompt.AvailableLanguages | app.py:158-171 | defines the twelve display names and codes in the order the dictionary lists them; `CodeOf`, `NamesDistinct` and `CodeOfListedName` are about it |
| SummaryPrompt.LookUp | app.py:158-171 | a dictionary lookup finds a value iff the key is listed, and the value is one listed with that key |
| SummaryPrompt.CodeOf | app.py:321 | `languages[target_language]` on the table of `get_available_languages` (lines 156-171) finds a code iff the display name is one of the twelve listed; the `KeyError` an unlisted name raises is modelled as `None` |
| SummaryPrompt.NamesDistinct | app.py:158-171 | no display name and no language code is listed twice |
| SummaryPrompt.CodeOfListedName | app.py:158-171 | each selectable display name maps to the code listed beside it |
| SummaryPrompt.EnglishHeaders | app.py:176-182 | defines the English vocabulary `TITLE`, `OVERVIEW`, `KEY POINTS`, `MAIN TAKEAWAYS`, `CONTEXT & IMPLICATIONS`; `HeadersChoice` is about it |
| SummaryPrompt.GermanHeaders | app.py:183-189 | defines the German vocabulary `TITEL`, `ÜBERBLICK`, `KERNPUNKTE`, `HAUPTERKENNTNISSE`, `KONTEXT & AUSWIRKUNGEN`; `HeadersChoice` is about it |
| SummaryPrompt.LanguagePrompts | app.py:175-191 | defines the vocabularies that exist: `en` and `de` only; `HeadersFor` and `SelectableLanguagesHeaders` are stated with it |
| SummaryPrompt.HeadersFor | app.py:175-194 | a code with its own vocabulary gets that vocabulary; any other code gets the English one |
| SummaryPrompt.HeadersChoice | app.py:175-194 | the headers are German iff the code is `de`, and English iff it is not |
| SummaryPrompt.SelectableLanguagesHeaders | app.py:158-194 | of the twelve selectable codes only `en` and `de` have their own vocabulary; all except `de` get the English headers |
| SummaryPrompt.SystemPrompt | app.py:196-198 | defines the system prompt; `SystemPromptNamesLanguage` states that it names the language at a fixed offset and ignores the text |
| SummaryPrompt.PromptHead | app.py:200-220 | defines the user prompt up to the text's label, which depends only on the language and its vocabulary; `MarkersInOrder` states its markers' order |
| SummaryPrompt.UserPrompt | app.py:200-223 | defines the user prompt as that head, the label, the text and the closing sentence; `UserPromptLayout` and `PromptDeterminesText` carry its properties |
| SummaryPrompt.CreateSummaryPrompt | app.py:173-225 | defines the returned pair of system and user prompt, with the vocabulary chosen by `HeadersFor`; `UserPromptLayout`, `PromptDeterminesText` and `SystemPromptNamesLanguage` carry its properties, and `TextPosition` is stated about its user prompt |
| SummaryPrompt.SystemPromptNamesLanguage | app.py:196-198 | the system prompt names the target language and does not depend on the text |
| SummaryPrompt.MarkersInOrder | app.py:200-220 | for any vocabulary, the part of the user prompt before the text shows its markers title, overview, key points, takeaways, context in that order |
| SummaryPrompt.TextPosition | app.py:200-223 | for any vocabulary, the user prompt starts with a part that depends only on the language and vocabulary, ending in the label `Text to summarize: `; the text follows verbatim; the prompt ends with the fixed closing sentence; and it holds nothing else |
| SummaryPrompt.UserPromptLayout | app.py:200-223 | the five section markers occur in order in the user prompt, followed by the labelled text |
| SummaryPrompt.PromptDeterminesText | app.py:221 | two texts give the same prompt pair for a language only if they are equal |
| SummaryPrompt.FirstChunks | app.py:235 | `texts[:4]` is the leading part of the chunks, of length four or all of them when there are fewer |
| SummaryPrompt.TextToSummarize | app.py:235 | defines `" ".join(texts[:4])`; `SelectedChunks` and `NextChunkAfterSpace` carry its properties |
| SummaryPrompt.NextChunkAfterSpace | app.py:235 | from one chunk on and below the limit of four, one more chunk appears in the summarised text after exactly one space |
| SummaryPrompt.SelectedChunks | app.py:235 | the summarised text holds at most the first four chunks, each verbatim and in order, and its length is their total plus the separating spaces |
| SummaryPrompt.ChunksAfterLimitIgnored | app.py:235-237 | once there are four chunks, appending more leaves both prompts unchanged |
| SummaryPrompt.PromptsForChunks | app.py:235-237 | defines the prompts sent for a chunked transcript; `ChunksAfterLimitIgnored` and `PromptCarriesChunks` carry its properties |
| SummaryPrompt.PromptCarriesChunks | app.py:200-237 | the user prompt shows the section markers in order and then the selected chunks in order |

## Left out

- `get_transcript` (app.py:53-106) is not modelled. It calls the captions API, the Whisper
  transcription backend and the file system, and uses exceptions to pick the fallback path.
  This includes the manual-then-first caption preference and the default language `'en'`.
- `get_transcript_with_selenium` (app.py:108-154) is not modelled: it is browser
  automation, and it is never called.
- `download_audio` (app.py:256-297) is not modelled: it is pytube streaming and an
  `ffmpeg` subprocess.
- The chat-completion call in `summarize_with_langchain_and_openai` (app.py:239-254) is not
  modelled: it is an external API with a floating-point temperature.
- `RecursiveCharacterTextSplitter` (app.py:229-234) is not modelled because its library
  code is not available. Its output is a parameter: the sequence of chunks.
- The Streamlit UI (`main`, app.py:299-353) is not modelled, apart from the
  display-name lookup that `CodeOf` models. Environment loading and client construction
  (app.py:11-32) are left out too.
- The regular-expression engine is modelled only for the five fixed patterns. Each is a
  hand-written matcher, and there is no general regex semantics.
