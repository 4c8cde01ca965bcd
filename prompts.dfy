/**
 * The fixed sentences of the research system prompt: the three
 * emotion-dependent instructions and the five constant lines. Each has
 * exactly the text that `app/services/ai_service.py` uses, written as short
 * literals cut between words so that the verifier can check each piece for
 * line breaks; each lemma states that a sentence is a single line.
 */
module Prompts {

  const CalmInstruction :=
    "The user is in "
    + "a calm or low "
    + "mood, so "
    + "explain the "
    + "topic "
    + "thoroughly but "
    + "in a gentle and "
    + "easy-to-follow "
    + "manner."
  const GoodInstruction :=
    "The user is in "
    + "a good mood, so "
    + "you can explain "
    + "the topic with "
    + "enthusiasm, "
    + "depth, and "
    + "engaging "
    + "details."
  const DefaultInstruction :=
    "Adjust your "
    + "response tone "
    + "to suit the "
    + "user's emotion. "
    + "Prioritize "
    + "clarity and "
    + "depth."

  lemma CalmInstructionOneLine() ensures '\n' !in CalmInstruction {}
  lemma GoodInstructionOneLine() ensures '\n' !in GoodInstruction {}
  lemma DefaultInstructionOneLine() ensures '\n' !in DefaultInstruction {}

  const ResearchLine1 :=
    "You are a "
    + "knowledgeable, "
    + "friendly "
    + "teacher who "
    + "explains topics "
    + "thoroughly."
  const ResearchLine2 :=
    "Always respond "
    + "with a "
    + "detailed, "
    + "structured "
    + "explanation of "
    + "about 1000-1200 "
    + "words."
  const ResearchLine3 :=
    "Break the "
    + "content into "
    + "clear sections "
    + "or paragraphs, "
    + "and use "
    + "examples when "
    + "appropriate."
  const ResearchLine4 :=
    "If the query is "
    + "vague, ask for "
    + "clarification "
    + "before "
    + "explaining."
  const ResearchLine6 :=
    "Your tone "
    + "should remain "
    + "helpful, "
    + "supportive, "
    + "engaging, and "
    + "educational."

  lemma ResearchLine1OneLine() ensures '\n' !in ResearchLine1 {}
  lemma ResearchLine2OneLine() ensures '\n' !in ResearchLine2 {}
  lemma ResearchLine3OneLine() ensures '\n' !in ResearchLine3 {}
  lemma ResearchLine4OneLine() ensures '\n' !in ResearchLine4 {}
  lemma ResearchLine6OneLine() ensures '\n' !in ResearchLine6 {}
}
