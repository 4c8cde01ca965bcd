/**
 * The request bodies of the three endpoints (pydantic models).
 */
module Schemas {
  import opened Common
  import opened PyErrors
  import opened PyStr

  datatype ResearchQuery = ResearchQuery(question: string, emotion: string)

  datatype SummarizeRequest = SummarizeRequest(content: string)

  /** `image_data` holds a base64 `data:` URL. */
  datatype ImagePayload = ImagePayload(imageData: string)

  /** `query.<name>` on a `ResearchQuery`: its two declared fields, and the
      `AttributeError` pydantic raises for a name that is neither a field
      nor a member of `BaseModel` (such as `level`). `BaseModel`'s own
      members are not modelled. */
  function ResearchQueryAttribute(q: ResearchQuery, name: string): (r: Result<string, Exception>)
    ensures r.Ok? <==> name == "question" || name == "emotion"
    ensures r.Err? ==> r.error.AttributeError? && StartsWith(r.error.message, "'ResearchQuery' object has no attribute")
  {
    if name == "question" then Ok(q.question)
    else if name == "emotion" then Ok(q.emotion)
    else Err(AttributeError("'ResearchQuery' object has no attribute '" + name + "'"))
  }
}
