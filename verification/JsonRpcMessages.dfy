/** What the JSON-RPC client can see of a message, and how it judges a response
    (helpers/WebSockets/JsonRpc/Response.cpp, and the two functions of
    JsonRpcInterface.h that look inside a message). */
module JsonRpcMessages {
  import opened Options

  const WRAP: nat := 0x1_0000_0000
  type uint32 = n: nat | n < WRAP

  /** A JSON value read with getBoolParameter: a JSON boolean, or anything else by its text. */
  datatype Variant = Boolean(b: bool) | Other(text: string)

  datatype IdField = Number(n: int) | NotNumber

  datatype ErrorField = ErrorField(codeSet: bool, textSet: bool)

  /** `id` is the label onMessage inspects; `responseId` is what the Response object reads from
      the same text. `result` is the Result member; inside it, the "success" label if there is one. */
  datatype Message =
    | Malformed
    | Json(id: Option<IdField>, hasMethod: bool, version: Option<string>, responseId: Option<uint32>,
           result: Option<Option<Variant>>, error: Option<ErrorField>)

  /** onMessage: the id a message is handed to handleResponse under, if it is handed on at all.
      The number is narrowed to 32 bits by the call. */
  function Route(m: Message): Option<uint32> {
    match m
    case Malformed => None
    case Json(None, _, _, _, _, _) => None
    case Json(Some(field), hasMethod, _, _, _, _) =>
      if hasMethod then None
      else match field
        case NotNumber => None
        case Number(n) => Some(n % WRAP)
  }

  /** A message the receiver takes for the response to the request with this id: it has no "method", and its id
      is a number that agrees with the request's in the lower 32 bits. */
  predicate RespondsTo(m: Message, id: uint32) {
    m.Json? && !m.hasMethod && m.id.Some? && m.id.value.Number? && m.id.value.n % 0x1_0000_0000 == id
  }

  predicate IsValid(m: Message) {
    if m.Malformed? then false
    else if m.version != Some("2.0") then false
    else if m.responseId.None? then false
    else if m.result.None? && m.error.None? then false
    else if m.result.Some? && m.error.Some? then false
    else if m.error.Some? && (!m.error.value.codeSet || !m.error.value.textSet) then false
    else true
  }

  function GetId(m: Message): uint32 {
    if m.Json? && m.responseId.Some? then m.responseId.value else 0
  }

  function GetBoolParameter(v: Variant): bool {
    match v
    case Boolean(b) => b
    case Other(text) => text == "true" || text == "1"
  }

  /** processResponse: what sendRequest returns for the response text m. */
  function ProcessResponse(id: uint32, m: Message): bool {
    if IsValid(m) && GetId(m) == id then
      if m.result.Some? && m.result.value.Some? then GetBoolParameter(m.result.value.value) else false
    else
      false
  }

  /** A response object as section 5 of the JSON-RPC 2.0 Specification defines it: version "2.0", an id,
      exactly one of result and error, and an error object with both code and message (section 5.1). */
  ghost predicate ConformsToSection5(m: Message) {
    && m.Json?
    && m.version == Some("2.0")
    && m.responseId.Some?
    && (m.result.Some? <==> m.error.None?)
    && (m.error.Some? ==> m.error.value == ErrorField(true, true))
  }

  /** The answer sendRequest reports as success for the request with this id. */
  ghost predicate IsSuccessFor(id: uint32, m: Message) {
    && ConformsToSection5(m)
    && m.responseId == Some(id)
    && m.result.Some?
    && m.result.value in {Some(Boolean(true)), Some(Other("true")), Some(Other("1"))}
  }

  lemma ProcessResponseMeaning(id: uint32, m: Message)
    ensures ProcessResponse(id, m) <==> IsSuccessFor(id, m)
  {
    if m.Json? && m.error.Some? {
      assert m.error.value == ErrorField(m.error.value.codeSet, m.error.value.textSet);
    }
  }
}
