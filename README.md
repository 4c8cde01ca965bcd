# robolearn-cloud AI layer in Dafny

This project models the AI part of a FastAPI back end that sits in front of
Google Gemini:

- **the service** (`app/services/ai_service.py`):
  - chooses one of three tone sentences from the user's emotion;
  - assembles the six-line research system prompt and the
    `Query:`/`Emotion:` user turn;
  - sends the stripped content for summarisation and forces the summary to
    start with "This article states that";
  - opens image bytes with PIL before asking the model about them.
- **the router** (`app/api/routers/ai_processing.py`):
  - `/research` and `/summarize` turn the service's outcome into
    `{"answer": ...}` or a 500;
  - `/analyze-image` takes a base64 `data:` URL (section 3 of RFC 2397) and:
    - splits it on the first comma;
    - finds the MIME type with the unanchored pattern `data:([\w/]+);base64`;
    - decodes the payload with Python's default `base64.b64decode` (the
      alphabet of section 4 of RFC 4648, with non-alphabet characters
      skipped);
    - maps every exception to a 400 or a 500.

Everything is written as pure functions over datatypes, as the source is:

- The Gemini client is a parameter `gemini: Request -> Reply`. A reply is the
  text or the exception the call raised.
- PIL's `Image.open` is a parameter `openImage: seq<byte> -> ImageOpen`.
- An HTTP outcome is `Success(body)` or `HttpError(status, detail)`.
- Python's exceptions are a datatype, and `PyErrors.Str` gives `str(e)` for
  each. Starlette prints an `HTTPException` as "<status>: <detail>".
- `base64.b64decode` is CPython's `a2b_base64` decoding loop: the quad
  position, left-over bits, pad count and early stop. It is proved against
  a reference encoder (`Base64.Encode`).
- The regex is given its meaning as a predicate (`RegexMatch`). A greedy
  matcher is proved to find exactly the leftmost match.

Files:

- common.dfy: Option, Result, byte
- pystr.dfy: the `str` methods used
- pyerrors.dfy: exceptions and `str(e)`
- gemini.dfy: request and reply shapes
- schemas.dfy: request bodies
- prompts.dfy: prompt sentences
- base64.dfy: the decoder
- ai_service.dfy: the service
- ai_processing.dfy: the router

## Model

| member | source | states |
|---|---|---|
| Schemas.ResearchQueryAttribute | app/models/schemas.py:4-6 | `query.question` and `query.emotion` are the two declared fields; reading a name that is neither a field nor a member of pydantic's `BaseModel` (such as `level`) raises `AttributeError` "'ResearchQuery' object has no attribute ..." |
| AiService.ClassifyEmotion | app/services/ai_service.py:21-26 | total three-way classification ignoring case: "neutral"/"sad" is the calm-or-low branch, "happy"/"excited"/"joy" the good branch, every other string (the empty one included) the default branch |
| PyStr.LowerEqualsWord | app/services/ai_service.py:21-23 | comparing `emotion.lower()` with a lower-case word is comparing the two ignoring case |
| AiService.EmotionInstruction | app/services/ai_service.py:21-26 | the instruction is one of the three fixed sentences and contains no newline |
| AiService.InstructionInjective | app/services/ai_service.py:22-26 | the three sentences are pairwise different, so the sentence identifies the branch |
| AiService.EmotionInstructionIgnoresCase | app/services/ai_service.py:21-23 | emotions equal up to case get the same instruction |
| PyStr.SplitSixLines | app/services/ai_service.py:28-35 | six newline-free lines joined by newlines split back into exactly those six lines |
| PyStr.JoinSplitAll | app/services/ai_service.py:28-35 | splitting on a separator loses nothing: joining the pieces gives the string back |
| AiService.ResearchPromptLines | app/services/ai_service.py:28-35 | the research system prompt is exactly six lines in fixed order, the fifth being the emotion instruction, with no trailing newline |
| AiService.ResearchPromptDependsOnlyOnMood | app/services/ai_service.py:21-35 | two emotions give the same system prompt if and only if they fall in the same branch |
| AiService.ResearchUserTurnLines | app/services/ai_service.py:37 | for a question and an emotion without newlines, the user turn is the two lines "Query: q" and "Emotion: e" |
| AiService.ResearchUserTurnEndsWithEmotion | app/services/ai_service.py:37 | for every question and emotion, the user turn ends with the emotion exactly as given |
| AiService.EmotionCasingKeptInUserTurn | app/services/ai_service.py:21-37 | any two different emotions that are equal up to case share the system prompt but give different user turns (the emotion is not lower-cased there) |
| AiService.GenerateResearchResponse | app/services/ai_service.py:39-53 | the result is the reply text unchanged when the model answers, and otherwise the exception it raised |
| PyStr.Strip | app/services/ai_service.py:70 | `strip()` returns a trimmed slice of the input with only whitespace before and after it |
| PyStr.StripPadded | app/services/ai_service.py:70 | a trimmed text padded with whitespace strips back to itself |
| PyStr.StripIdempotent | app/services/ai_service.py:77 | stripping twice is stripping once |
| AiService.SummaryUserTextIgnoresPadding | app/services/ai_service.py:70 | the text sent is "Content to summarize: " and the content without surrounding whitespace |
| AiService.NormalizeSummary | app/services/ai_service.py:77-79 | the normalised summary always starts, ignoring case, with "this article states that" |
| AiService.NormalizeSummaryCases | app/services/ai_service.py:77-79 | a stripped reply that has the prefix in any casing is returned as is; otherwise the result is "This article states that " + the stripped reply, 25 characters longer |
| AiService.NormalizeSummaryKeepsCasing | app/services/ai_service.py:77-79 | a reply starting "THIS ARTICLE STATES THAT ..." keeps its upper-case prefix and is only stripped |
| AiService.NormalizedIsTrimmed | app/services/ai_service.py:77-79 | the normalised summary of a reply that is not blank has no surrounding whitespace |
| AiService.NormalizeSummaryIdempotent | app/services/ai_service.py:77-79 | normalising twice is normalising once for every reply that is not blank |
| AiService.NormalizeSummaryBlank | app/services/ai_service.py:77-79 | a blank reply gives "This article states that " (trailing space), which normalises again to "This article states that" |
| AiService.GenerateSummary | app/services/ai_service.py:55-81 | the summary exists exactly when the model answers and then carries the prefix; otherwise the model's exception is passed on |
| AiService.AnalyzeImage | app/services/ai_service.py:83-105 | bytes PIL cannot open raise `ValueError("Could not process image bytes: " + reason)`; the result is the reply text exactly when PIL opens the bytes and the model answers; when PIL opens them and the model raises, that exception is passed on unchanged |
| AiService.AnalyzeImageIgnoresMimeType | app/services/ai_service.py:83 | the MIME type argument has no effect |
| AiProcessing.ResearchEndpointAlwaysFails | app/api/routers/ai_processing.py:14-24 | every query gives 500 "'ResearchQuery' object has no attribute 'level'" |
| AiProcessing.ResearchIntendedContract | app/api/routers/ai_processing.py:14-24 | with the `level` argument removed, the answer is the model's text exactly when the model answers, and otherwise 500 with `str(e)` |
| AiProcessing.SummarizeContract | app/api/routers/ai_processing.py:26-32 | success exactly when the model answers, with the normalised, prefixed summary as the answer; otherwise 500 with `str(e)` |
| PyStr.SplitOnce | app/api/routers/ai_processing.py:41 | `split(',', 1)` gives one part when there is no comma, otherwise a comma-free head and a tail that rejoin to the input |
| AiProcessing.SplitAtFirstComma | app/api/routers/ai_processing.py:41 | a comma-free header, a comma and any payload (commas included) split into exactly header and payload |
| AiProcessing.MimeRun | app/api/routers/ai_processing.py:44 | the greedy `[\w/]+` run: all characters before it are in the class and the next one is not |
| AiProcessing.GreedyMatchSound | app/api/routers/ai_processing.py:44 | what the greedy matcher finds at a position is a match of the pattern |
| AiProcessing.GreedyMatchComplete | app/api/routers/ai_processing.py:44 | every match at a position is the greedy one, so there is at most one |
| AiProcessing.MatchAt | app/api/routers/ai_processing.py:44 | the match at a position, found exactly when the pattern matches there |
| AiProcessing.SearchFrom | app/api/routers/ai_processing.py:44 | the result is a match at or after the start and no match starts before it |
| AiProcessing.LeftmostMatchUnique | app/api/routers/ai_processing.py:44-47 | the leftmost match and its group are unique |
| AiProcessing.SearchMime | app/api/routers/ai_processing.py:44-47 | there is no group exactly when the pattern matches nowhere; otherwise the group is that of the leftmost match |
| AiProcessing.DataUrlHeaderMatches | app/api/routers/ai_processing.py:44 | "data:<type>;base64" matches at 0 for every `[\w/]+` type and has no comma |
| AiProcessing.NoDataAfterStart | app/api/routers/ai_processing.py:44 | a header with no ':' after its first five characters has "data:" nowhere after its start, so no match can start there |
| AiProcessing.SearchMimeFindsType | app/api/routers/ai_processing.py:44-47 | unanchored search: after any text without a 'd', the group is exactly the type, whether or not it is an image type |
| AiProcessing.NoMatchAtStart | app/api/routers/ai_processing.py:44 | for every `[\w/]` run and every rest not starting with ";base64" or a `[\w/]` character (a '+', '-', '.' or parameter), "data:" + run + rest has no match at position 0 |
| AiProcessing.SearchMimeRejects | app/api/routers/ai_processing.py:44-45 | such a header has no match anywhere when "data:" does not occur in it again after position 0, as `re.search` would otherwise try there |
| AiProcessing.OtherTypesRejected | app/api/routers/ai_processing.py:44-45 | "data:image/svg+xml;base64" and "data:audio/x-wav;base64" do not match |
| Base64.Step | app/api/routers/ai_processing.py:50 | one decoding step keeps the decoder's bit invariant and only appends at most one byte |
| Base64.Run | app/api/routers/ai_processing.py:50 | the decoding loop keeps the invariant and never changes bytes already written |
| Base64.B64Decode | app/api/routers/ai_processing.py:50 | a non-ASCII string, and only such a string, fails as non-ASCII |
| Base64.DecodeEncode | app/api/routers/ai_processing.py:50 | `b64decode(b64encode(bs)) == bs` for every byte string |
| Base64.EncodeLength | app/api/routers/ai_processing.py:50 | the reference encoding of n bytes has 4 * ceil(n / 3) characters |
| Base64.DecodeIgnoresSkipped | app/api/routers/ai_processing.py:50 | characters outside the alphabet other than '=' do not change the decoding of an ASCII payload |
| Base64.DecodeIgnoresAfterPadding | app/api/routers/ai_processing.py:50 | anything after the padding of an encoding is ignored |
| Base64.RunEncodeWhole | app/api/routers/ai_processing.py:50 | decoding the encoding of a multiple of three bytes appends exactly those bytes and leaves the decoder at a quad boundary, unfinished |
| Base64.StrayDataCharacter | app/api/routers/ai_processing.py:50 | complete quads followed by one alphabet character fail with "number of data characters (n) cannot be 1 more than a multiple of 4", n being the input's length |
| Base64.MissingTwoPads | app/api/routers/ai_processing.py:50 | complete quads followed by two alphabet characters and no pads fail with "Incorrect padding" |
| Base64.MissingSecondPad | app/api/routers/ai_processing.py:50 | complete quads followed by two alphabet characters and one pad fail with "Incorrect padding" |
| Base64.MissingOnePad | app/api/routers/ai_processing.py:50 | complete quads followed by three alphabet characters and no pad fail with "Incorrect padding" |
| Base64.IncompleteQuadFails | app/api/routers/ai_processing.py:50 | any ASCII tail after complete quads that leaves two or three data characters of a quad unpadded fails with "Incorrect padding" |
| AiProcessing.DecodeException | app/api/routers/ai_processing.py:50 | every decoding failure is a `ValueError` whose text is the decoder's message |
| AiProcessing.AnalyzeImageEndpoint | app/api/routers/ai_processing.py:36-62 | every failure is a 400 or a 500, and every 400 detail starts with "Invalid Base64 data: " |
| AiProcessing.NoCommaIs400 | app/api/routers/ai_processing.py:41-60 | a URL without a comma gives 400 "Invalid Base64 data: not enough values to unpack (expected 2, got 1)" |
| AiProcessing.BadHeaderIs500 | app/api/routers/ai_processing.py:45-62 | a header the pattern does not match gives 500 "400: Invalid Base64 data URL format" |
| AiProcessing.DecodeErrorIs400 | app/api/routers/ai_processing.py:50-60 | a payload that does not decode gives 400 with the decoder's message after the prefix |
| AiProcessing.OpenFailureIs400 | app/api/routers/ai_processing.py:53-60 | bytes PIL cannot open give 400 "Invalid Base64 data: Could not process image bytes: ..." |
| AiProcessing.ModelErrorMapping | app/api/routers/ai_processing.py:53-62 | an exception from the model call is a 400 if it is a `ValueError`, otherwise a 500 with `str(e)` |
| AiProcessing.AnalyzeImageSuccess | app/api/routers/ai_processing.py:41-58 | success if and only if there is a comma, the header matches, the payload decodes, PIL opens the bytes and the model answers; the body is then filename "image.png" with the model's text |
| AiProcessing.PayloadCommasSkipped | app/api/routers/ai_processing.py:41-50 | commas after the first stay in the payload, where decoding skips them |
| AiProcessing.DataUrlDecodeErrorIs400 | app/api/routers/ai_processing.py:41-60 | a data URL with a matching header and a payload that fails to decode is a 400 with the decoder's message |
| AiProcessing.MissingPaddingIs400 | app/api/routers/ai_processing.py:41-60 | a data URL whose payload is complete quads and two unpadded data characters is a 400 "Invalid Base64 data: Incorrect padding" |
| AiProcessing.EncodedImageRoundTrip | app/api/routers/ai_processing.py:36-58 | a data URL built from any bytes and any `[\w/]+` type gives "image.png" and the model's answer about exactly those bytes |
| AiProcessing.IntendedBadHeaderIs400 | app/api/routers/ai_processing.py:45-62 | with an `HTTPException` passed through, a bad header gives 400 "Invalid Base64 data URL format", and nothing else changes |

## Left out

- The Gemini SDK:
  - `genai.configure` and the client are not modelled (app/services/ai_service.py:9-13).
  - Each call is the parameter `gemini`.
  - The generation settings (temperature, top_p, max_output_tokens) are constants placed in the request; nothing is proved about them.
- PIL's `Image.open` is the parameter `openImage`; decoding images is foreign code.
- `async`/`await`: every handler is a sequential function, since there is no concurrency logic.
- `/gen_keywords` (app/api/routers/ai_processing.py:64-83): it calls `ai_service.generate_image_urls`, which the service module does not define, so there is nothing to model.
- The audio, file-upload and external-search services and routers, `app/main.py`, `app/api/deps.py` and `app/core/config.py`: these are SDK and HTTP pass-through and application wiring.
- `research_endpoint` passes `level=query.level` (app/api/routers/ai_processing.py:20), but neither `ResearchQuery` nor the service has a level. The research prompt asks for 1000-1200 words for every query.
- Schemas.ResearchQueryAttribute: only the two declared fields and names that are not members of pydantic's `BaseModel` are modelled. `BaseModel`'s own members (`dict`, `json`, `copy`, `model_dump`, `model_fields` and the rest) exist on every model, and the contract's "every other name fails" does not hold for them. The router reads none of them.
- Starlette's text for an `HTTPException` is taken as "<status>: <detail>", as its `HTTPException.__str__` gives it. Older Starlette releases without that method give "" for `str(e)`, so AiProcessing.BadHeaderIs500's detail assumes a release that has it.
- AiService.ClassifyEmotion: `str.lower()` is modelled over ASCII only (only 'A'..'Z' change). Non-ASCII letters whose lower case is one of the five words are not covered.
- AiProcessing.SearchMime: `\w` is modelled as ASCII letters, digits and underscore. Python's `re` also accepts Unicode letters and digits in a `str` pattern.
- PyStr.Strip: whitespace is the fixed list of code points that `str.isspace()` accepts. It is not derived from a Unicode database.
- Base64.B64Decode:
  - The error texts are those of CPython 3.7 and later.
  - The count in "number of data characters" is taken from the bytes written so far, as `binascii` computes it.
  - `validate=True` is not modelled, since the router never passes it.
- AiService.GenerateResearchResponse, AiService.GenerateSummary and AiService.AnalyzeImage: the exception raised when `response.text` is read (a blocked reply) is folded into the reply's `Raised` case.

## Findings

| source | as written | input that shows it | evidently intended | confidence | as-written member | corrected member |
|---|---|---|---|---|---|---|
| app/api/routers/ai_processing.py:45-62 | the `HTTPException(400, "Invalid Base64 data URL format")` raised inside the `try` is caught by `except Exception` and re-raised as 500 with detail "400: Invalid Base64 data URL format" | `{"image_data": "data:image/svg+xml;base64,AAAA"}` | status 400 with detail "Invalid Base64 data URL format" | not executed | AiProcessing.BadHeaderIs500 | AiProcessing.IntendedBadHeaderIs400 |
| app/api/routers/ai_processing.py:14-24 | the handler reads `query.level`, which `ResearchQuery` does not declare, so every request fails with 500 "'ResearchQuery' object has no attribute 'level'". The service would also reject the `level=` keyword. | `{"question": "What is DNA?", "emotion": "happy"}` | the service called with question and emotion; the model's answer, or 500 on a model error | not executed | AiProcessing.ResearchEndpointAlwaysFails | AiProcessing.ResearchIntendedContract |
