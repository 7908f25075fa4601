/**
 * The request and message records the chat approach works on. Only the
 * fields the modelled code reads are kept; a field lookup on a record is a
 * field of the datatype.
 */
module Models {
  import opened Wrappers

  /** One turn of a conversation: what the user asked and, once answered, the reply. */
  datatype ChatHistory = ChatHistory(user: string, bot: Option<string>)

  /**
   * The caller's search options. `top` is passed on to the search service
   * unchanged, and the sampling temperature is not modelled.
   */
  datatype Overrides = Overrides(
    semanticRanker: bool,
    semanticCaptions: bool,
    excludeCategory: Option<string>,
    top: Option<int>,
    suggestFollowupQuestions: bool)

  /** The defaults the record declares. */
  const DEFAULT_OVERRIDES: Overrides := Overrides(false, false, None, Some(3), true)

  datatype Role = System | User | Assistant

  /** One chat message as sent to the completion service. */
  datatype MessagePrompt = MessagePrompt(role: Role, content: Option<string>, name: string)
}
