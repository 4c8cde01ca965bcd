/**
 * The three AI endpoints of the router: how each turns the service's
 * outcome, or the exception raised on the way, into an HTTP response.
 *
 * `/analyze-image` takes a base64 `data:` URL (section 3 of RFC 2397): it
 * splits it on the first comma, reads the MIME type from the part before it
 * with the unanchored pattern `data:([\w/]+);base64`, base64-decodes the
 * part after it and hands the bytes to the service. `\w` is taken as ASCII
 * letters, digits and underscore.
 */
module AiProcessing {
  import opened Common
  import opened PyStr
  import opened PyErrors
  import opened Gemini
  import opened Schemas
  import opened Base64
  import opened AiService

  /** What a handler gives back: the JSON body, or an `HTTPException` that
      FastAPI turns into a response with that status and detail. */
  datatype HttpResult<T> = Success(body: T) | HttpError(status: nat, detail: string)

  /** `{"answer": …}` */
  datatype AnswerBody = AnswerBody(answer: string)

  /** `{"filename": …, "response": …}` */
  datatype ImageAnalysisBody = ImageAnalysisBody(filename: string, response: string)

  // ---------------------------------------------------------------------
  // /research
  // ---------------------------------------------------------------------

  const UnexpectedLevelMessage :=
    "generate_research_response_with_gemini() got an unexpected keyword argument 'level'"

  /** `research_endpoint` as written: the arguments `query.question`,
      `query.emotion` and `query.level` are read in that order, and the call
      would pass a `level=` keyword the service does not take. Every
      exception becomes a 500 with `str(e)`. */
  function ResearchEndpoint(query: ResearchQuery, gemini: Request -> Reply): HttpResult<AnswerBody> {
    match ResearchQueryAttribute(query, "question")
    case Err(e) => HttpError(500, Str(e))
    case Ok(question) =>
      match ResearchQueryAttribute(query, "emotion")
      case Err(e) => HttpError(500, Str(e))
      case Ok(emotion) =>
        match ResearchQueryAttribute(query, "level")
        case Err(e) => HttpError(500, Str(e))
        case Ok(level) => HttpError(500, Str(TypeError(UnexpectedLevelMessage)))
  }

  /** `/research` never succeeds: reading `query.level` raises
      `AttributeError` for every query, whatever the model would answer. */
  lemma ResearchEndpointAlwaysFails(query: ResearchQuery, gemini: Request -> Reply)
    ensures ResearchEndpoint(query, gemini) == HttpError(500, "'ResearchQuery' object has no attribute 'level'")
  {
    assert ResearchQueryAttribute(query, "level")
        == Err(AttributeError("'ResearchQuery' object has no attribute '" + "level" + "'"));
  }

  /** `research_endpoint` as evidently intended: the service is called with
      the question and the emotion only. */
  function ResearchEndpointIntended(query: ResearchQuery, gemini: Request -> Reply): HttpResult<AnswerBody> {
    match GenerateResearchResponse(query.question, query.emotion, gemini)
    case Ok(answer) => Success(AnswerBody(answer))
    case Err(e) => HttpError(500, Str(e))
  }

  /** The intended `/research` answers with the model's text whenever the
      model answers, and otherwise fails with 500 and the exception's text. */
  lemma ResearchIntendedContract(query: ResearchQuery, gemini: Request -> Reply)
    ensures var reply := gemini(ResearchRequest(query.question, query.emotion));
      var r := ResearchEndpointIntended(query, gemini);
      (r.Success? <==> reply.Text?)
      && (r.Success? ==> r.body == AnswerBody(reply.text))
      && (r.HttpError? ==> r.status == 500 && r.detail == Str(reply.error))
  {
  }

  // ---------------------------------------------------------------------
  // /summarize
  // ---------------------------------------------------------------------

  /** `summarize_endpoint`: the normalised summary, or 500 with `str(e)`. */
  function SummarizeEndpoint(request: SummarizeRequest, gemini: Request -> Reply): HttpResult<AnswerBody> {
    match GenerateSummary(request.content, gemini)
    case Ok(summary) => Success(AnswerBody(summary))
    case Err(e) => HttpError(500, Str(e))
  }

  /** `/summarize` succeeds exactly when the model answers, and then the
      answer carries the prefix; any exception is a 500 with its text. */
  lemma SummarizeContract(request: SummarizeRequest, gemini: Request -> Reply)
    ensures var reply := gemini(SummaryRequest(request.content));
      var r := SummarizeEndpoint(request, gemini);
      (r.Success? <==> reply.Text?)
      && (r.Success? ==> r.body == AnswerBody(NormalizeSummary(reply.text)) && HasSummaryPrefix(r.body.answer))
      && (r.HttpError? ==> r.status == 500 && r.detail == Str(reply.error))
  {
  }

  // ---------------------------------------------------------------------
  // The MIME type pattern `data:(?P<mime_type>[\w/]+);base64`
  // ---------------------------------------------------------------------

  /** `\w` (over ASCII) or `/`. */
  predicate IsMimeChar(c: char) {
    ('A' <= c <= 'Z') || ('a' <= c <= 'z') || ('0' <= c <= '9') || c == '_' || c == '/'
  }

  /** The pattern matches `header` at position `p` with `mime` as its
      group: "data:", then `mime` (one or more `[\w/]` characters), then
      ";base64". This is what the pattern means, whatever way a matcher
      finds it. */
  ghost predicate RegexMatch(header: string, p: int, mime: string) {
    0 <= p && p + 12 + |mime| <= |header| && |mime| >= 1
    && header[p..p + 5] == "data:"
    && header[p + 5..p + 5 + |mime|] == mime
    && (forall i :: 0 <= i < |mime| ==> IsMimeChar(mime[i]))
    && header[p + 5 + |mime|..p + 12 + |mime|] == ";base64"
  }

  /** The length of the longest run of `[\w/]` characters at the start of
      `s`: how far the greedy `+` reaches. */
  function MimeRun(s: string): (n: nat)
    ensures n <= |s|
    ensures forall i :: 0 <= i < n ==> IsMimeChar(s[i])
    ensures n < |s| ==> !IsMimeChar(s[n])
  {
    if |s| > 0 && IsMimeChar(s[0]) then 1 + MimeRun(s[1..]) else 0
  }

  /** Since ';' is not a `[\w/]` character, a match's group is the whole
      greedy run: backtracking never gives a shorter group, so there is at
      most one match at each position. */
  lemma MatchIsGreedyRun(header: string, p: int, mime: string)
    requires RegexMatch(header, p, mime)
    ensures MimeRun(header[p + 5..]) == |mime| && mime == header[p + 5..p + 5 + |mime|]
  {
    var t := header[p + 5..];
    assert t[|mime|] == header[p + 5 + |mime|..p + 12 + |mime|][0];
    assert !IsMimeChar(t[|mime|]);
    assert forall i :: 0 <= i < |mime| ==> t[i] == mime[i];
  }

  /** What a greedy matcher finds at `p`: "data:", a run of at least one
      `[\w/]` character, and ";base64" right after the run. */
  predicate GreedyMatchAt(header: string, p: nat) {
    p + 5 <= |header| && header[p..p + 5] == "data:"
    && var n := MimeRun(header[p + 5..]);
       n >= 1 && p + 12 + n <= |header| && header[p + 5 + n..p + 12 + n] == ";base64"
  }

  /** The group a greedy matcher captures at `p`. */
  function GreedyGroup(header: string, p: nat): string
    requires p + 5 <= |header|
  {
    header[p + 5..p + 5 + MimeRun(header[p + 5..])]
  }

  /** What the greedy matcher finds is a match of the pattern. */
  lemma GreedyMatchSound(header: string, p: nat)
    ensures GreedyMatchAt(header, p) ==> RegexMatch(header, p, GreedyGroup(header, p))
  {
    if GreedyMatchAt(header, p) {
      var t := header[p + 5..];
      var mime := GreedyGroup(header, p);
      forall i | 0 <= i < |mime| ensures IsMimeChar(mime[i]) {
        assert mime[i] == t[i];
      }
    }
  }

  /** Every match of the pattern at `p` is the one the greedy matcher finds:
      there is at most one match at each position. */
  lemma GreedyMatchComplete(header: string, p: nat)
    ensures forall mime :: RegexMatch(header, p, mime) ==> GreedyMatchAt(header, p) && mime == GreedyGroup(header, p)
  {
    forall mime | RegexMatch(header, p, mime)
      ensures GreedyMatchAt(header, p) && mime == GreedyGroup(header, p)
    {
      MatchIsGreedyRun(header, p, mime);
      assert header[p..p + 5] == "data:";
    }
  }

  /** The match at position `p`, if there is one; there is at most one. */
  function MatchAt(header: string, p: nat): (r: Option<string>)
    requires p <= |header|
    ensures r.Some? ==> RegexMatch(header, p, r.value)
    ensures forall mime :: RegexMatch(header, p, mime) ==> r == Some(mime)
  {
    GreedyMatchSound(header, p);
    GreedyMatchComplete(header, p);
    if GreedyMatchAt(header, p) then Some(GreedyGroup(header, p)) else None
  }

  /** `re.search` from position `p` on: the leftmost match at or after `p`,
      with its position. */
  function SearchFrom(header: string, p: nat): (r: Option<(nat, string)>)
    requires p <= |header|
    ensures r.Some? ==> p <= r.value.0 && RegexMatch(header, r.value.0, r.value.1)
    ensures forall q, mime :: p <= q && RegexMatch(header, q, mime) ==> r.Some? && r.value.0 <= q
    decreases |header| - p
  {
    match MatchAt(header, p)
    case Some(mime) => Some((p, mime))
    case None => if p == |header| then None else SearchFrom(header, p + 1)
  }

  /** `mime` is the group of the leftmost match, at position `p`. */
  ghost predicate LeftmostMatch(header: string, p: int, mime: string) {
    RegexMatch(header, p, mime) && forall q, other :: 0 <= q < p ==> !RegexMatch(header, q, other)
  }

  /** There is only one leftmost match. */
  lemma LeftmostMatchUnique(header: string, p1: int, mime1: string, p2: int, mime2: string)
    requires LeftmostMatch(header, p1, mime1) && LeftmostMatch(header, p2, mime2)
    ensures p1 == p2 && mime1 == mime2
  {
    assert !(p1 < p2) && !(p2 < p1);
    MatchIsGreedyRun(header, p1, mime1);
    MatchIsGreedyRun(header, p1, mime2);
  }

  /** `re.search(pattern, header)` and `match.group('mime_type')`: the group
      of the leftmost match, or `None` when the pattern matches nowhere. */
  function SearchMime(header: string): (r: Option<string>)
    ensures r.None? <==> forall p, mime :: !RegexMatch(header, p, mime)
    ensures r.Some? ==> exists p :: LeftmostMatch(header, p, r.value)
  {
    match SearchFrom(header, 0)
    case None => None
    case Some(found) =>
      assert LeftmostMatch(header, found.0, found.1);
      Some(found.1)
  }

  /** "data:<type>;base64" matches at its start for every type made of
      `[\w/]` characters. */
  lemma DataUrlHeaderMatches(mimeType: string)
    requires |mimeType| >= 1 && forall i :: 0 <= i < |mimeType| ==> IsMimeChar(mimeType[i])
    ensures RegexMatch("data:" + mimeType + ";base64", 0, mimeType)
    ensures ',' !in "data:" + mimeType + ";base64"
  {
    var header := "data:" + mimeType + ";base64";
    assert header[0..5] == "data:";
    assert header[5..5 + |mimeType|] == mimeType;
    assert header[5 + |mimeType|..12 + |mimeType|] == ";base64";
    assert forall i :: 0 <= i < |mimeType| ==> mimeType[i] != ',';
  }

  /** The pattern is not anchored and does not require an image type: after
      any text without a 'd' (where no match can start), "data:<type>;base64"
      gives exactly `<type>`, for every type made of `[\w/]` characters. */
  lemma SearchMimeFindsType(prefix: string, mimeType: string)
    requires 'd' !in prefix
    requires |mimeType| >= 1 && forall i :: 0 <= i < |mimeType| ==> IsMimeChar(mimeType[i])
    ensures SearchMime(prefix + ("data:" + mimeType + ";base64")) == Some(mimeType)
  {
    var header := "data:" + mimeType + ";base64";
    var h := prefix + header;
    var k := |prefix|;
    DataUrlHeaderMatches(mimeType);
    assert h[k..k + 5] == header[0..5];
    assert h[k + 5..k + 5 + |mimeType|] == header[5..5 + |mimeType|];
    assert h[k + 5 + |mimeType|..k + 12 + |mimeType|] == header[5 + |mimeType|..12 + |mimeType|];
    assert RegexMatch(h, k, mimeType);
    forall q, other | 0 <= q < k ensures !RegexMatch(h, q, other) {
      assert h[q] == prefix[q];
      if q + 5 <= |h| {
        assert h[q..q + 5][0] == h[q];
      }
    }
    var r := SearchMime(h);
    var p :| LeftmostMatch(h, p, r.value);
    LeftmostMatchUnique(h, p, r.value, k, mimeType);
  }

  /** "data:" starts at position `q` of `header`. */
  predicate DataAt(header: string, q: int) {
    0 <= q && q + 5 <= |header| && header[q..q + 5] == "data:"
  }

  /** A header with no ':' after its first five characters has "data:"
      nowhere after its start. */
  lemma NoDataAfterStart(h: string)
    requires |h| >= 5 && ':' !in h[5..]
    ensures forall q :: 0 < q ==> !DataAt(h, q)
  {
    forall q | 0 < q ensures !DataAt(h, q) {
      if q + 5 <= |h| {
        assert h[q..q + 5][4] == h[5..][q - 1];
      }
    }
  }

  /** After "data:", a run of `[\w/]` characters that ";base64" does not
      follow gives no match at the start, whatever the run and the rest are:
      a type with '+', '-' or '.', or a parameter before ";base64", is
      rejected there. */
  lemma NoMatchAtStart(run: string, rest: string)
    requires forall i :: 0 <= i < |run| ==> IsMimeChar(run[i])
    requires |rest| == 0 || !IsMimeChar(rest[0])
    requires !StartsWith(rest, ";base64")
    ensures forall mime :: !RegexMatch("data:" + run + rest, 0, mime)
  {
    var h := "data:" + run + rest;
    var t := h[5..];
    assert t == run + rest;
    assert forall i :: 0 <= i < |run| ==> t[i] == run[i];
    if |rest| > 0 {
      assert t[|run|] == rest[0];
    }
    assert MimeRun(t) == |run|;
    if 12 + |run| <= |h| {
      assert h[5 + |run|..12 + |run|] == rest[..7];
    }
    assert !GreedyMatchAt(h, 0);
    GreedyMatchComplete(h, 0);
  }

  /** Such a header is rejected by the unanchored search too, unless
      "data:" occurs again later in it (where a match could start). */
  lemma SearchMimeRejects(run: string, rest: string)
    requires forall i :: 0 <= i < |run| ==> IsMimeChar(run[i])
    requires |rest| == 0 || !IsMimeChar(rest[0])
    requires !StartsWith(rest, ";base64")
    requires forall q :: 0 < q ==> !DataAt("data:" + run + rest, q)
    ensures SearchMime("data:" + run + rest) == None
  {
    var h := "data:" + run + rest;
    NoMatchAtStart(run, rest);
    forall q, mime | 0 < q ensures !RegexMatch(h, q, mime) {
      assert !DataAt(h, q);
    }
  }

  /** "image/svg+xml" is rejected, and so is a type with a '-' such as
      "audio/x-wav". */
  lemma OtherTypesRejected()
    ensures SearchMime("data:" + "image/svg" + "+xml;base64") == None
    ensures SearchMime("data:" + "audio/x" + "-wav;base64") == None
  {
    var h1 := "data:" + "image/svg" + "+xml;base64";
    assert h1[5..] == "image/svg" + "+xml;base64";
    NoDataAfterStart(h1);
    SearchMimeRejects("image/svg", "+xml;base64");
    var h2 := "data:" + "audio/x" + "-wav;base64";
    assert h2[5..] == "audio/x" + "-wav;base64";
    NoDataAfterStart(h2);
    SearchMimeRejects("audio/x", "-wav;base64");
  }

  // ---------------------------------------------------------------------
  // /analyze-image
  // ---------------------------------------------------------------------

  const UnpackMessage := "not enough values to unpack (expected 2, got 1)"
  const BadUrlDetail := "Invalid Base64 data URL format"
  const BadDataPrefix := "Invalid Base64 data: "
  const ResponseFilename := "image.png"

  /** The exception `b64decode` raises: a plain `ValueError` for a non-ASCII
      string, `binascii.Error` for the decoder's own errors. */
  function DecodeException(e: DecodeError): (x: Exception)
    ensures IsValueError(x) && Str(x) == ErrorMessage(e)
  {
    if e.NonAscii? then ValueError(ErrorMessage(e)) else BinasciiError(ErrorMessage(e))
  }

  /** The body of the `try` block: the response body, or the exception that
      leaves it. */
  function AnalyzeImageTry(imageData: string, openImage: seq<byte> -> ImageOpen,
                           gemini: Request -> Reply): Result<ImageAnalysisBody, Exception>
  {
    var parts := SplitOnce(imageData, ',');
    if |parts| != 2 then Err(ValueError(UnpackMessage))
    else
      match SearchMime(parts[0])
      case None => Err(HTTPException(400, BadUrlDetail))
      case Some(mimeType) =>
        match B64Decode(parts[1])
        case Err(d) => Err(DecodeException(d))
        case Ok(imageBytes) =>
          match AnalyzeImage(imageBytes, mimeType, openImage, gemini)
          case Err(e) => Err(e)
          case Ok(output) => Ok(ImageAnalysisBody(ResponseFilename, output))
  }

  /** The two `except` clauses: a `ValueError` (`binascii.Error` included)
      is a 400 with "Invalid Base64 data: " in front of its text; any other
      exception, an `HTTPException` included, is a 500 with its text. */
  function AnalyzeImageFailure(e: Exception): HttpResult<ImageAnalysisBody> {
    if IsValueError(e) then HttpError(400, BadDataPrefix + Str(e)) else HttpError(500, Str(e))
  }

  /** `analyze_image_endpoint` as written. Every failure is a 400 or a 500,
      and every 400 carries the "Invalid Base64 data: " prefix. */
  function AnalyzeImageEndpoint(payload: ImagePayload, openImage: seq<byte> -> ImageOpen,
                                gemini: Request -> Reply): (r: HttpResult<ImageAnalysisBody>)
    ensures r.HttpError? ==> r.status == 400 || r.status == 500
    ensures r.HttpError? && r.status == 400 ==> StartsWith(r.detail, BadDataPrefix)
  {
    match AnalyzeImageTry(payload.imageData, openImage, gemini)
    case Ok(body) => Success(body)
    case Err(e) => AnalyzeImageFailure(e)
  }

  /** A URL without a comma fails the tuple unpacking: a 400. */
  lemma NoCommaIs400(payload: ImagePayload, openImage: seq<byte> -> ImageOpen, gemini: Request -> Reply)
    requires ',' !in payload.imageData
    ensures AnalyzeImageEndpoint(payload, openImage, gemini) == HttpError(400, BadDataPrefix + UnpackMessage)
  {
  }

  /** A header the pattern does not match raises `HTTPException(400)` inside
      the `try`; the catch-all turns it into a 500 whose detail is the
      exception's text, "400: Invalid Base64 data URL format". */
  lemma BadHeaderIs500(payload: ImagePayload, openImage: seq<byte> -> ImageOpen, gemini: Request -> Reply)
    requires ',' in payload.imageData
    requires SearchMime(SplitOnce(payload.imageData, ',')[0]).None?
    ensures AnalyzeImageEndpoint(payload, openImage, gemini) == HttpError(500, "400: " + BadUrlDetail)
  {
    assert NatToDecimal(400) == "400";
  }

  /** A payload that does not decode is a 400 with the decoder's message. */
  lemma DecodeErrorIs400(payload: ImagePayload, openImage: seq<byte> -> ImageOpen, gemini: Request -> Reply)
    requires ',' in payload.imageData
    requires SearchMime(SplitOnce(payload.imageData, ',')[0]).Some?
    requires B64Decode(SplitOnce(payload.imageData, ',')[1]).Err?
    ensures AnalyzeImageEndpoint(payload, openImage, gemini)
         == HttpError(400, BadDataPrefix + ErrorMessage(B64Decode(SplitOnce(payload.imageData, ',')[1]).error))
  {
  }

  /** Bytes that PIL cannot open are reported as bad base64 data: the
      service's `ValueError` falls into the first `except` clause. */
  lemma OpenFailureIs400(payload: ImagePayload, openImage: seq<byte> -> ImageOpen, gemini: Request -> Reply)
    requires ',' in payload.imageData
    requires SearchMime(SplitOnce(payload.imageData, ',')[0]).Some?
    requires B64Decode(SplitOnce(payload.imageData, ',')[1]).Ok?
    requires openImage(B64Decode(SplitOnce(payload.imageData, ',')[1]).value).OpenFailed?
    ensures var reason := openImage(B64Decode(SplitOnce(payload.imageData, ',')[1]).value).reason;
      AnalyzeImageEndpoint(payload, openImage, gemini) == HttpError(400, BadDataPrefix + ImageOpenPrefix + reason)
  {
    var parts := SplitOnce(payload.imageData, ',');
    var imageBytes := B64Decode(parts[1]).value;
    var e := ValueError(ImageOpenPrefix + openImage(imageBytes).reason);
    assert AnalyzeImage(imageBytes, SearchMime(parts[0]).value, openImage, gemini) == Err(e);
    assert AnalyzeImageTry(payload.imageData, openImage, gemini) == Err(e);
  }

  /** An exception from the model call is a 400 when it is a `ValueError`
      and a 500 otherwise. */
  lemma ModelErrorMapping(payload: ImagePayload, openImage: seq<byte> -> ImageOpen, gemini: Request -> Reply)
    requires ',' in payload.imageData
    requires SearchMime(SplitOnce(payload.imageData, ',')[0]).Some?
    requires B64Decode(SplitOnce(payload.imageData, ',')[1]).Ok?
    requires openImage(B64Decode(SplitOnce(payload.imageData, ',')[1]).value).Opened?
    requires gemini(ImageRequest(B64Decode(SplitOnce(payload.imageData, ',')[1]).value)).Raised?
    ensures var e := gemini(ImageRequest(B64Decode(SplitOnce(payload.imageData, ',')[1]).value)).error;
      AnalyzeImageEndpoint(payload, openImage, gemini)
      == (if IsValueError(e) then HttpError(400, BadDataPrefix + Str(e)) else HttpError(500, Str(e)))
  {
  }

  /** The endpoint answers exactly when the URL has a comma, its header
      matches, its payload decodes, PIL opens the bytes and the model
      answers; the answer is the model's text under the fixed file name
      "image.png", whatever the MIME type. */
  lemma AnalyzeImageSuccess(payload: ImagePayload, openImage: seq<byte> -> ImageOpen, gemini: Request -> Reply)
    ensures var r := AnalyzeImageEndpoint(payload, openImage, gemini);
      var parts := SplitOnce(payload.imageData, ',');
      r.Success? <==>
        |parts| == 2 && SearchMime(parts[0]).Some? && B64Decode(parts[1]).Ok?
        && openImage(B64Decode(parts[1]).value).Opened?
        && gemini(ImageRequest(B64Decode(parts[1]).value)).Text?
    ensures var r := AnalyzeImageEndpoint(payload, openImage, gemini);
      var parts := SplitOnce(payload.imageData, ',');
      r.Success? ==> r.body == ImageAnalysisBody("image.png", gemini(ImageRequest(B64Decode(parts[1]).value)).text)
  {
  }

  /** Splitting on the first comma: a comma-free header and everything
      after the comma, commas included. */
  lemma SplitAtFirstComma(header: string, payload: string)
    requires ',' !in header
    ensures SplitOnce(header + "," + payload, ',') == [header, payload]
  {
    FindAfterPrefix(header, ',', payload);
    var s := header + "," + payload;
    assert s[..|header|] == header;
    assert s[|header| + 1..] == payload;
  }

  /** Commas after the first belong to the payload, where the decoder skips
      them like every other character outside the alphabet. */
  lemma PayloadCommasSkipped(header: string, payload: string)
    requires ',' !in header && IsAscii(payload)
    ensures SplitOnce(header + "," + payload, ',') == [header, payload]
    ensures B64Decode(payload) == B64Decode(WithoutSkipped(payload))
  {
    SplitAtFirstComma(header, payload);
    DecodeIgnoresSkipped(payload);
  }

  /** A data URL built from any bytes with a matching header yields the
      model's answer about exactly those bytes. */
  lemma EncodedImageRoundTrip(mimeType: string, imageBytes: seq<byte>,
                              openImage: seq<byte> -> ImageOpen, gemini: Request -> Reply)
    requires |mimeType| >= 1 && forall i :: 0 <= i < |mimeType| ==> IsMimeChar(mimeType[i])
    requires openImage(imageBytes).Opened? && gemini(ImageRequest(imageBytes)).Text?
    ensures var url := "data:" + mimeType + ";base64," + Encode(imageBytes);
      AnalyzeImageEndpoint(ImagePayload(url), openImage, gemini)
      == Success(ImageAnalysisBody("image.png", gemini(ImageRequest(imageBytes)).text))
  {
    var header := "data:" + mimeType + ";base64";
    var url := "data:" + mimeType + ";base64," + Encode(imageBytes);
    assert url == header + "," + Encode(imageBytes);
    DataUrlHeaderMatches(mimeType);
    SplitAtFirstComma(header, Encode(imageBytes));
    assert SearchMime(header).Some?;
    DecodeEncode(imageBytes);
  }

  /** A data URL with a matching header whose payload does not decode is a
      400 with the decoder's message. */
  lemma DataUrlDecodeErrorIs400(mimeType: string, payload: string, err: DecodeError,
                                openImage: seq<byte> -> ImageOpen, gemini: Request -> Reply)
    requires |mimeType| >= 1 && forall i :: 0 <= i < |mimeType| ==> IsMimeChar(mimeType[i])
    requires B64Decode(payload) == Err(err)
    ensures AnalyzeImageEndpoint(ImagePayload("data:" + mimeType + ";base64," + payload), openImage, gemini)
         == HttpError(400, BadDataPrefix + ErrorMessage(err))
  {
    var header := "data:" + mimeType + ";base64";
    var url := "data:" + mimeType + ";base64," + payload;
    assert url == header + "," + payload;
    DataUrlHeaderMatches(mimeType);
    SplitAtFirstComma(header, payload);
    assert SearchMime(header).Some?;
  }

  /** A data URL whose payload ends in two data characters without their
      pads ("...YQ" where "...YQ==" was meant) is a 400 "Incorrect padding",
      whatever the bytes before them. */
  lemma MissingPaddingIs400(mimeType: string, bs: seq<byte>, c0: char, c1: char,
                            openImage: seq<byte> -> ImageOpen, gemini: Request -> Reply)
    requires |mimeType| >= 1 && forall i :: 0 <= i < |mimeType| ==> IsMimeChar(mimeType[i])
    requires |bs| % 3 == 0 && SextetOf(c0) >= 0 && SextetOf(c1) >= 0
    ensures AnalyzeImageEndpoint(ImagePayload("data:" + mimeType + ";base64," + (Encode(bs) + [c0, c1])), openImage, gemini)
         == HttpError(400, BadDataPrefix + "Incorrect padding")
  {
    assert ErrorMessage(IncorrectPadding) == "Incorrect padding";
    MissingTwoPads(bs, c0, c1);
    DataUrlDecodeErrorIs400(mimeType, Encode(bs) + [c0, c1], IncorrectPadding, openImage, gemini);
  }

  // ---------------------------------------------------------------------
  // /analyze-image as evidently intended
  // ---------------------------------------------------------------------

  /** The `except` clauses as evidently intended: an `HTTPException` raised
      inside the `try` keeps its own status and detail. */
  function AnalyzeImageFailureIntended(e: Exception): HttpResult<ImageAnalysisBody> {
    if e.HTTPException? then HttpError(e.statusCode, e.detail) else AnalyzeImageFailure(e)
  }

  function AnalyzeImageEndpointIntended(payload: ImagePayload, openImage: seq<byte> -> ImageOpen,
                                        gemini: Request -> Reply): HttpResult<ImageAnalysisBody>
  {
    match AnalyzeImageTry(payload.imageData, openImage, gemini)
    case Ok(body) => Success(body)
    case Err(e) => AnalyzeImageFailureIntended(e)
  }

  /** With the intended mapping a header the pattern does not match is the
      400 the handler raises; the two mappings differ on nothing but an
      `HTTPException`. */
  lemma IntendedBadHeaderIs400(payload: ImagePayload, openImage: seq<byte> -> ImageOpen, gemini: Request -> Reply)
    ensures var parts := SplitOnce(payload.imageData, ',');
      |parts| == 2 && SearchMime(parts[0]).None? ==>
        AnalyzeImageEndpointIntended(payload, openImage, gemini) == HttpError(400, BadUrlDetail)
    ensures var t := AnalyzeImageTry(payload.imageData, openImage, gemini);
      t.Ok? || !t.error.HTTPException? ==>
        AnalyzeImageEndpointIntended(payload, openImage, gemini) == AnalyzeImageEndpoint(payload, openImage, gemini)
  {
  }
}
