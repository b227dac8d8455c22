/**
 * The two request-body schemas, `participantSchema` and `messageSchema`,
 * as predicates over the fields a parsed JSON body carries.
 */
module Schemas {
  import opened Room

  /** One property of a parsed JSON body: absent, a string, or a value of
      any other JSON type (number, boolean, object, array, null). */
  datatype Field = Missing | Str(s: string) | NonString

  /** `joi.string().empty(' ').required()`: a string is required; the empty
      string is refused by `string()` and a single space counts as absent.
      No trimming happens, so two spaces pass. */
  predicate PresentString(f: Field) {
    f.Str? && f.s != "" && f.s != " "
  }

  /** The outcome of a schema validation: the accepted value, or the key
      whose check failed first (joi stops at the first error and checks
      keys in the order the schema declares them). */
  datatype Verdict<T> = Accepted(value: T) | Rejected(key: string)

  /** `participantSchema.validate({ name })`. */
  function CheckParticipant(name: Field): (r: Verdict<string>)
    ensures r.Accepted? <==> PresentString(name)
    ensures r.Accepted? ==> name == Str(r.value)
    ensures r.Rejected? ==> r.key == "name"
  {
    if PresentString(name) then Accepted(name.s) else Rejected("name")
  }

  /** `joi.valid('message', 'private_message').required()` on `type`. */
  function CheckType(kind: Field): (r: Verdict<MessageType>)
    ensures r.Accepted? <==> kind == Str("message") || kind == Str("private_message")
    ensures r.Accepted? ==> r.value != Status && kind == Str(r.value.Wire())
  {
    if kind == Str("message") then Accepted(Broadcast)
    else if kind == Str("private_message") then Accepted(Private)
    else Rejected("type")
  }

  /** The fields of a message body that passed `messageSchema`. */
  datatype MessageBody = MessageBody(to: string, text: string, kind: MessageType)

  /** `messageSchema.validate({ to, text, type })`. */
  function CheckMessage(to: Field, text: Field, kind: Field): (r: Verdict<MessageBody>)
    ensures r.Accepted? <==>
      PresentString(to) && PresentString(text) && (kind == Str("message") || kind == Str("private_message"))
    ensures r.Accepted? ==>
      to == Str(r.value.to) && text == Str(r.value.text) && kind == Str(r.value.kind.Wire()) && r.value.kind != Status
    ensures r.Rejected? ==> r.key == (if !PresentString(to) then "to" else if !PresentString(text) then "text" else "type")
  {
    if !PresentString(to) then Rejected("to")
    else if !PresentString(text) then Rejected("text")
    else match CheckType(kind)
      case Rejected(key) => Rejected(key)
      case Accepted(k) => Accepted(MessageBody(to.s, text.s, k))
  }
}
