/**
 Messages as a peer reads them.

 What the protocol promises is stated on the members a message has, in the words of
 JSON-RPC 2.0 and MCP: nothing here is shared with the dispatcher.
 */
module Messages {
  import opened Wrappers
  import opened Json

  predicate Has(j: Json, key: string) {
    j.Obj? && key in j.fields
  }

  /** The member is there and is this string. */
  predicate Says(j: Json, key: string, text: string) {
    Has(j, key) && j.fields[key] == Str(text)
  }

  predicate HasText(j: Json, key: string) {
    Has(j, key) && j.fields[key].Str?
  }

  /** A member, with null standing for its absence. */
  function MemberOrNull(j: Json, key: string): Json {
    if Has(j, key) then j.fields[key] else Null
  }

  // ----- What a client sends -----

  /** An object that claims JSON-RPC 2.0, or claims no version that is a string. */
  predicate IsCurrent(message: Json) {
    message.Obj? && (HasText(message, "jsonrpc") ==> Says(message, "jsonrpc", "2.0"))
  }

  predicate HasMethod(message: Json) {
    HasText(message, "method")
  }

  /** A message that asks for `verb` in a version the server speaks. */
  predicate Asks(message: Json, verb: string) {
    IsCurrent(message) && Says(message, "method", verb)
  }

  predicate IsRequest(message: Json) {
    Has(message, "id")
  }

  function Id(message: Json): Json {
    MemberOrNull(message, "id")
  }

  function Params(message: Json): Json {
    MemberOrNull(message, "params")
  }

  /** A tool call that names its tool. */
  predicate CallsTool(message: Json) {
    Asks(message, "tools/call") && HasText(Params(message), "name")
  }

  function ToolName(message: Json): string
    requires CallsTool(message)
  {
    Params(message).fields["name"].s
  }

  function ToolArguments(message: Json): Json {
    MemberOrNull(Params(message), "arguments")
  }

  /** The two spellings of the acknowledgement that ends the handshake. */
  predicate IsAcknowledgement(message: Json) {
    Asks(message, "initialized") || Asks(message, "notifications/initialized")
  }

  predicate Opens(message: Json) {
    Asks(message, "initialize") || IsAcknowledgement(message)
  }

  predicate Closes(message: Json) {
    Asks(message, "shutdown")
  }

  const METHODS: set<string> :=
    {"initialize", "notifications/initialized", "initialized", "ping", "tools/list", "tools/call", "shutdown"}

  // ----- What a server sends (JSON-RPC 2.0, sections 4.1, 5 and 5.1) -----

  function ResultMessage(id: Json, result: Json): Json {
    Obj(map["jsonrpc" := Str("2.0"), "id" := id, "result" := result])
  }

  function ErrorMessage(id: Json, code: int, text: string): Json {
    Obj(map["jsonrpc" := Str("2.0"), "id" := id, "error" := Obj(map["code" := Int(code), "message" := Str(text)])])
  }

  function ListChangedMessage(): Json {
    Obj(map["jsonrpc" := Str("2.0"), "method" := Str("notifications/tools/list_changed")])
  }

  /** A response object to `id`: a result or an error with a code and a message, never both. */
  ghost predicate IsResponse(r: Json, id: Json) {
    (exists result :: r == ResultMessage(id, result)) || (exists code, text :: r == ErrorMessage(id, code, text))
  }

  predicate IsErrorWith(r: Json, code: int) {
    Has(r, "error") && Has(r.fields["error"], "code") && r.fields["error"].fields["code"] == Int(code)
  }

  lemma ResponsesDiffer(id: Json, result: Json, code: int, text: string)
    ensures ResultMessage(id, result) != ErrorMessage(id, code, text)
    ensures ResultMessage(id, result) != ListChangedMessage() && ErrorMessage(id, code, text) != ListChangedMessage()
  {
    assert Has(ResultMessage(id, result), "result") && !Has(ErrorMessage(id, code, text), "result");
    assert Has(ResultMessage(id, result), "id") && Has(ErrorMessage(id, code, text), "id");
    assert !Has(ListChangedMessage(), "id");
  }
}
