/**
 * The shape of a request to the Gemini client and of its reply. The client
 * itself (and PIL's `Image.open`, whose result is passed to it) are foreign
 * code: the service functions take them as parameters.
 */
module Gemini {
  import opened Common
  import opened PyErrors


  /** `genai.types.GenerationConfig`; `topP` is `None` where the source does
      not set it. */
  datatype GenerationConfig = GenerationConfig(temperature: real, topP: Option<real>, maxOutputTokens: nat)

  /** What `generate_content_async` is given: a text prompt, or an
      instruction followed by the image opened from some bytes. */
  datatype Contents =
    | Prompt(text: string)
    | InstructionAndImage(instruction: string, image: seq<byte>)

  /** `GenerativeModel(model, system_instruction=…)` together with the
      arguments of `generate_content_async`. */
  datatype Request = Request(model: string, systemInstruction: Option<string>, contents: Contents, config: GenerationConfig)

  /** What reading `response.text` gives: the text, or the exception the call
      (or the read) raised. */
  datatype Reply = Text(text: string) | Raised(error: Exception)

  /** The outcome of `Image.open(io.BytesIO(bytes))`; `reason` is `str(e)` of
      the exception PIL raised. */
  datatype ImageOpen = Opened | OpenFailed(reason: string)
}
