/**
 * The service layer in front of Gemini: the emotion-dependent research
 * prompt, the summary prompt with the normalisation of the reply, and the
 * image analysis with its image-open failure.
 *
 * The Gemini client is the parameter `gemini`, which maps a request to the
 * reply text or to the exception the call raised; PIL's `Image.open` is the
 * parameter `openImage`.
 */
module AiService {
  import opened Common
  import opened PyStr
  import opened PyErrors
  import opened Gemini
  import opened Prompts

  const ModelId := "gemini-flash-latest"

  // ---------------------------------------------------------------------
  // Research: emotion classification and the two prompts
  // ---------------------------------------------------------------------

  /** The three branches of the `if`/`elif`/`else` on `emotion.lower()`. */
  datatype Mood = CalmOrLow | Good | Unlisted

  /** Classifies an emotion ignoring (ASCII) case: "neutral" and "sad" are a
      calm or low mood, "happy", "excited" and "joy" a good mood, and every
      other string, the empty one included, falls to the last branch. */
  function ClassifyEmotion(emotion: string): (m: Mood)
    ensures m == CalmOrLow <==> EqualsIgnoringCase(emotion, "neutral") || EqualsIgnoringCase(emotion, "sad")
    ensures m == Good <==>
      EqualsIgnoringCase(emotion, "happy") || EqualsIgnoringCase(emotion, "excited") || EqualsIgnoringCase(emotion, "joy")
  {
    LowerEqualsWord(emotion, "neutral");
    LowerEqualsWord(emotion, "sad");
    LowerEqualsWord(emotion, "happy");
    LowerEqualsWord(emotion, "excited");
    LowerEqualsWord(emotion, "joy");
    var e := Lower(emotion);
    if e in ["neutral", "sad"] then CalmOrLow
    else if e in ["happy", "excited", "joy"] then Good
    else Unlisted
  }

  function Instruction(m: Mood): string {
    match m
    case CalmOrLow => CalmInstruction
    case Good => GoodInstruction
    case Unlisted => DefaultInstruction
  }

  /** The instruction sentence chosen for an emotion: one of three fixed
      one-line sentences. */
  function EmotionInstruction(emotion: string): (r: string)
    ensures r == CalmInstruction || r == GoodInstruction || r == DefaultInstruction
    ensures '\n' !in r
  {
    CalmInstructionOneLine();
    GoodInstructionOneLine();
    DefaultInstructionOneLine();
    Instruction(ClassifyEmotion(emotion))
  }

  /** The three sentences differ, so the sentence tells the mood back. */
  lemma InstructionInjective(m1: Mood, m2: Mood)
    ensures Instruction(m1) == Instruction(m2) <==> m1 == m2
  {
    assert |CalmInstruction| == 109 && |GoodInstruction| == 102 && |DefaultInstruction| == 83;
  }

  /** Two emotions that differ only in case get the same instruction. */
  lemma EmotionInstructionIgnoresCase(a: string, b: string)
    requires EqualsIgnoringCase(a, b)
    ensures EmotionInstruction(a) == EmotionInstruction(b)
  {
    assert Lower(a) == Lower(b);
  }


  /** The research system prompt, as the source concatenates it. */
  function ResearchSystemPrompt(emotion: string): string {
    ResearchLine1 + "\n" + ResearchLine2 + "\n" + ResearchLine3 + "\n" + ResearchLine4 + "\n"
    + EmotionInstruction(emotion) + "\n" + ResearchLine6
  }

  /** The research system prompt is exactly six lines in a fixed order; the
      fifth is the emotion's instruction and the other five are constant.
      Its last character is not a newline. */
  lemma ResearchPromptLines(emotion: string)
    ensures SplitAll(ResearchSystemPrompt(emotion), '\n')
         == [ResearchLine1, ResearchLine2, ResearchLine3, ResearchLine4, EmotionInstruction(emotion), ResearchLine6]
    ensures ResearchSystemPrompt(emotion)[|ResearchSystemPrompt(emotion)| - 1] != '\n'
  {
    ResearchLine1OneLine();
    ResearchLine2OneLine();
    ResearchLine3OneLine();
    ResearchLine4OneLine();
    ResearchLine6OneLine();
    SplitSixLines(ResearchLine1, ResearchLine2, ResearchLine3, ResearchLine4, EmotionInstruction(emotion), ResearchLine6, '\n');
  }

  /** Nothing in the research system prompt depends on the emotion except
      its mood: two emotions give the same prompt exactly when they fall in
      the same branch. */
  lemma ResearchPromptDependsOnlyOnMood(a: string, b: string)
    ensures ResearchSystemPrompt(a) == ResearchSystemPrompt(b) <==> ClassifyEmotion(a) == ClassifyEmotion(b)
  {
    FifthLineDecides(ResearchLine1, ResearchLine2, ResearchLine3, ResearchLine4,
                     EmotionInstruction(a), EmotionInstruction(b), ResearchLine6, '\n');
    InstructionInjective(ClassifyEmotion(a), ClassifyEmotion(b));
  }

  /** The user turn of the research request. */
  function ResearchUserTurn(question: string, emotion: string): string {
    "Query: " + question + "\nEmotion: " + emotion
  }

  /** The user turn is the two lines "Query: <question>" and
      "Emotion: <emotion>" when neither value contains a newline. */
  lemma ResearchUserTurnLines(question: string, emotion: string)
    requires '\n' !in question && '\n' !in emotion
    ensures SplitAll(ResearchUserTurn(question, emotion), '\n') == ["Query: " + question, "Emotion: " + emotion]
  {
    var first := "Query: " + question;
    var second := "Emotion: " + emotion;
    assert '\n' !in "Query: " && '\n' !in "Emotion: ";
    SplitAllOneLine(first, '\n');
    SplitAllAppendLine(first, second, '\n');
    assert ResearchUserTurn(question, emotion) == first + ['\n'] + second;
  }

  /** The user turn ends with the emotion exactly as given, not lower-cased,
      whatever the question and the emotion. */
  lemma ResearchUserTurnEndsWithEmotion(question: string, emotion: string)
    ensures var u := ResearchUserTurn(question, emotion); |emotion| <= |u| && u[|u| - |emotion|..] == emotion
  {
    var u := ResearchUserTurn(question, emotion);
    assert u == ("Query: " + question + "\nEmotion: ") + emotion;
  }

  /** Emotions that differ only in casing share the system prompt but not
      the user turn. */
  lemma EmotionCasingKeptInUserTurn(question: string, a: string, b: string)
    requires a != b && EqualsIgnoringCase(a, b)
    ensures ResearchSystemPrompt(a) == ResearchSystemPrompt(b)
    ensures ResearchUserTurn(question, a) != ResearchUserTurn(question, b)
  {
    EmotionInstructionIgnoresCase(a, b);
    var u := ResearchUserTurn(question, a);
    var v := ResearchUserTurn(question, b);
    ResearchUserTurnEndsWithEmotion(question, a);
    ResearchUserTurnEndsWithEmotion(question, b);
    assert |a| == |b|;
    assert |u| == |v|;
  }

  const ResearchConfig := GenerationConfig(0.7, Some(0.9), 4096)

  function ResearchRequest(question: string, emotion: string): Request {
    Request(ModelId, Some(ResearchSystemPrompt(emotion)), Prompt(ResearchUserTurn(question, emotion)), ResearchConfig)
  }

  /** `generate_research_response_with_gemini`: the reply text unchanged
      (not stripped), or the exception the client raised. */
  function GenerateResearchResponse(question: string, emotion: string, gemini: Request -> Reply): (r: Result<string, Exception>)
    ensures r.Ok? <==> gemini(ResearchRequest(question, emotion)).Text?
    ensures r.Ok? ==> r.value == gemini(ResearchRequest(question, emotion)).text
    ensures r.Err? ==> r.error == gemini(ResearchRequest(question, emotion)).error
  {
    match gemini(ResearchRequest(question, emotion))
    case Text(t) => Ok(t)
    case Raised(e) => Err(e)
  }

  // ---------------------------------------------------------------------
  // Summary
  // ---------------------------------------------------------------------

  /** The summary system prompt: a constant, whatever the content. */
  const SummarySystemPrompt :=
    "You are an expert academic assistant.\nSummarize the given content in about 50 words.\n"
    + "The summary must start with: 'This article states that'.\n"
    + "Write clearly and professionally. Do not add notes, opinions, or extra commentary, and do not use markdown formatting like bold text."

  const SummaryLabel := "Content to summarize: "

  /** The text sent for summarisation: the label and the stripped content. */
  function SummaryUserText(content: string): string {
    SummaryLabel + Strip(content)
  }

  /** Whitespace around the content never reaches the model: padding a
      trimmed text with whitespace on either side sends the same text. */
  lemma SummaryUserTextIgnoresPadding(before: string, text: string, after: string)
    requires AllSpace(before) && AllSpace(after) && Trimmed(text)
    ensures SummaryUserText(before + text + after) == SummaryLabel + text
  {
    StripPadded(before, text, after);
  }

  const SummaryConfig := GenerationConfig(0.2, None, 200)

  function SummaryRequest(content: string): Request {
    Request(ModelId, Some(SummarySystemPrompt), Prompt(SummaryUserText(content)), SummaryConfig)
  }

  const SummaryPrefix := "This article states that"

  /** The summary starts, ignoring case, with "this article states that". */
  predicate HasSummaryPrefix(s: string) {
    StartsWith(Lower(s), "this article states that")
  }

  lemma LowerSummaryPrefix()
    ensures Lower(SummaryPrefix) == "this article states that"
  {
  }

  /** Putting the prefix and a space in front of any text gives a text with
      the prefix. */
  lemma PrefixedHasSummaryPrefix(s: string)
    ensures HasSummaryPrefix(SummaryPrefix + " " + s)
  {
    LowerAppend(SummaryPrefix + " ", s);
    LowerAppend(SummaryPrefix, " ");
    LowerSummaryPrefix();
    assert Lower(SummaryPrefix + " " + s) == "this article states that" + (Lower(" ") + Lower(s));
  }

  /** The reply is stripped; unless it already starts with the prefix in
      some casing, "This article states that " is put in front. The result
      always starts with the prefix, ignoring case. */
  function NormalizeSummary(text: string): (r: string)
    ensures HasSummaryPrefix(r)
  {
    var summary := Strip(text);
    if !HasSummaryPrefix(summary) then
      PrefixedHasSummaryPrefix(summary);
      SummaryPrefix + " " + summary
    else summary
  }

  /** The two outcomes of the normalisation: a stripped reply that already
      has the prefix is returned as it is, in the model's own casing;
      otherwise the result is the prefix, a space and the stripped reply,
      25 characters longer than it. */
  lemma NormalizeSummaryCases(text: string)
    ensures HasSummaryPrefix(Strip(text)) ==> NormalizeSummary(text) == Strip(text)
    ensures !HasSummaryPrefix(Strip(text)) ==>
      NormalizeSummary(text) == "This article states that " + Strip(text)
      && |NormalizeSummary(text)| == |Strip(text)| + 25
  {
  }

  const UpperSummaryPrefix := "THIS ARTICLE STATES THAT "

  lemma LowerUpperSummaryPrefix(rest: string)
    ensures HasSummaryPrefix(UpperSummaryPrefix + rest)
  {
    LowerAppend(UpperSummaryPrefix, rest);
    assert Lower(UpperSummaryPrefix) == "this article states that ";
    StartsWithAppend(Lower(UpperSummaryPrefix), Lower(rest), "this article states that");
  }

  /** A reply whose prefix is in upper case keeps its casing: it is only
      stripped. */
  lemma NormalizeSummaryKeepsCasing(before: string, rest: string, after: string)
    requires AllSpace(before) && AllSpace(after) && Trimmed(rest) && rest != []
    ensures NormalizeSummary(before + UpperSummaryPrefix + rest + after) == UpperSummaryPrefix + rest
  {
    var t := UpperSummaryPrefix + rest;
    assert Strip(before + UpperSummaryPrefix + rest + after) == t by {
      assert t[0] == 'T';
      assert t[|t| - 1] == rest[|rest| - 1];
      StripPadded(before, t, after);
      assert before + UpperSummaryPrefix + rest + after == before + t + after;
    }
    LowerUpperSummaryPrefix(rest);
  }

  /** A stripped text that is not empty and starts with a non-space
      character stays trimmed when something trimmed is put in front. */
  lemma NormalizedIsTrimmed(text: string)
    requires Strip(text) != []
    ensures Trimmed(NormalizeSummary(text))
  {
    var s := Strip(text);
    if !HasSummaryPrefix(s) {
      var r := SummaryPrefix + " " + s;
      assert r[0] == SummaryPrefix[0];
      assert r[|r| - 1] == s[|s| - 1];
    }
  }

  /** Normalising twice is normalising once, for every reply that is not
      empty after stripping. */
  lemma NormalizeSummaryIdempotent(text: string)
    requires Strip(text) != []
    ensures NormalizeSummary(NormalizeSummary(text)) == NormalizeSummary(text)
  {
    var r := NormalizeSummary(text);
    assert Strip(r) == r by {
      NormalizedIsTrimmed(text);
      StripPadded([], r, []);
      assert [] + r + [] == r;
    }
  }

  /** For a blank reply the normalisation is not idempotent: the first pass
      gives the prefix with a trailing space, which the second pass strips. */
  lemma NormalizeSummaryBlank(text: string)
    requires AllSpace(text)
    ensures NormalizeSummary(text) == "This article states that "
    ensures NormalizeSummary(NormalizeSummary(text)) == "This article states that"
  {
    var once := SummaryPrefix + " ";
    assert Strip(text) == [] by {
      StripPadded(text, [], []);
      assert text + [] + [] == text;
    }
    assert NormalizeSummary(text) == once by {
      assert SummaryPrefix + " " + [] == once;
    }
    assert Strip(once) == SummaryPrefix by {
      assert SummaryPrefix[0] == 'T' && SummaryPrefix[23] == 't';
      StripPadded([], SummaryPrefix, " ");
      assert [] + SummaryPrefix + " " == once;
    }
    assert HasSummaryPrefix(SummaryPrefix) by {
      LowerSummaryPrefix();
    }
  }

  /** `generate_summary_with_gemini`: the normalised reply, or the exception
      the client raised. A returned summary always carries the prefix. */
  function GenerateSummary(content: string, gemini: Request -> Reply): (r: Result<string, Exception>)
    ensures r.Ok? <==> gemini(SummaryRequest(content)).Text?
    ensures r.Ok? ==> HasSummaryPrefix(r.value)
    ensures r.Err? ==> r.error == gemini(SummaryRequest(content)).error
  {
    match gemini(SummaryRequest(content))
    case Text(t) => Ok(NormalizeSummary(t))
    case Raised(e) => Err(e)
  }

  // ---------------------------------------------------------------------
  // Image analysis
  // ---------------------------------------------------------------------

  const ImageInstruction := "Answer the question shown in the image."

  const ImageConfig := GenerationConfig(0.4, Some(1.0), 2048)

  /** The image request: no system instruction, the instruction followed by
      the opened image. */
  function ImageRequest(imageBytes: seq<byte>): Request {
    Request(ModelId, None, InstructionAndImage(ImageInstruction, imageBytes), ImageConfig)
  }

  const ImageOpenPrefix := "Could not process image bytes: "

  /** `analyze_image_with_gemini`: bytes PIL cannot open raise `ValueError`
      with the reason after "Could not process image bytes: "; otherwise the
      reply text, or the exception the client raised. */
  function AnalyzeImage(imageBytes: seq<byte>, mimeType: string, openImage: seq<byte> -> ImageOpen,
                        gemini: Request -> Reply): (r: Result<string, Exception>)
    ensures openImage(imageBytes).OpenFailed? ==>
      r == Err(ValueError(ImageOpenPrefix + openImage(imageBytes).reason))
    ensures r.Ok? <==> openImage(imageBytes).Opened? && gemini(ImageRequest(imageBytes)).Text?
    ensures r.Ok? ==> r.value == gemini(ImageRequest(imageBytes)).text
    ensures openImage(imageBytes).Opened? && gemini(ImageRequest(imageBytes)).Raised? ==>
      r == Err(gemini(ImageRequest(imageBytes)).error)
  {
    match openImage(imageBytes)
    case OpenFailed(reason) => Err(ValueError(ImageOpenPrefix + reason))
    case Opened =>
      match gemini(ImageRequest(imageBytes))
      case Text(t) => Ok(t)
      case Raised(e) => Err(e)
  }

  /** The MIME type argument is never used. */
  lemma AnalyzeImageIgnoresMimeType(imageBytes: seq<byte>, m1: string, m2: string,
                                    openImage: seq<byte> -> ImageOpen, gemini: Request -> Reply)
    ensures AnalyzeImage(imageBytes, m1, openImage, gemini) == AnalyzeImage(imageBytes, m2, openImage, gemini)
  {
  }
}
