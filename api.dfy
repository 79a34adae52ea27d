/** What the two handlers send back and what they log. */
module Api {
  import opened Wrappers

  /** The JSON body; a field that JavaScript leaves `undefined` is `None` (it is not serialised). */
  datatype Response = Response(summary: string, link: string, source: Option<string>, note: Option<string>)

  /** One row of the `queries` table. */
  datatype QueryLog = QueryLog(query: string, source: string, link: string)

  /** HTTP status, JSON body, and the row inserted into `queries`, if any. */
  datatype Outcome = Outcome(status: nat, body: Response, logged: Option<QueryLog>)

  /**
   * The result of the chat-completion call, which the model takes as input:
   * the call threw, or it returned a message whose content may be null.
   */
  datatype Completion = CallFailed | Replied(content: Option<string>)

  const ErrorSummary: string := "\U{274C} Sorry, something went wrong fetching the government link."

  /** The 500 reply both handlers send from their `catch` block. */
  const ErrorOutcome: Outcome := Outcome(500, Response(ErrorSummary, "", None, None), None)
}
