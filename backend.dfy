/** The records the client receives from the backend's REST API. */
module Backend {

  /** A JSON value that may be null or missing. */
  datatype Option<+T> = None | Some(value: T)

  /** JavaScript truthiness of an optional string: present and non-empty. */
  predicate Truthy(s: Option<string>) {
    s.Some? && s.value != ""
  }

  /** A stored conversation: the questions asked, the answers given (an answer
      may be null), and the label of the model that answered. The id and the
      timestamp are not modelled. */
  datatype Conversation = Conversation(
    modelName: Option<string>,
    messages: Option<seq<string>>,
    responses: Option<seq<Option<string>>>)

  /** One page of `/ai/history`. */
  datatype HistoryPage = HistoryPage(content: seq<Conversation>, totalPages: int)
}
