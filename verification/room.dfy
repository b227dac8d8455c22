/**
 * The room's two collections, `participants` and `messages`, held as
 * sequences in the store's natural order (insertion order), together with
 * the store queries the route handlers issue against them.
 */
module Room {

  /** A `participants` document: the name a client joined with and the
      millisecond timestamp of its join or of its latest status refresh. */
  datatype Participant = Participant(name: string, lastStatus: int)

  /** The values a stored message's `type` field takes. */
  datatype MessageType = Broadcast | Private | Status {
    /** The string the document holds in its `type` field. */
    function Wire(): string {
      match this
      case Broadcast => "message"
      case Private => "private_message"
      case Status => "status"
    }
  }

  /** A `messages` document; `time` is the `HH:mm:ss` wall-clock string
      captured when it was inserted. */
  datatype Message = Message(from: string, to: string, text: string, kind: MessageType, time: string)

  datatype State = State(participants: seq<Participant>, messages: seq<Message>)

  /** The room state before anyone has joined. */
  const EmptyRoom: State := State([], [])

  /** The broadcast recipient every join notice is addressed to. */
  const Everyone: string := "Todos"

  /** The fixed text of a join notice. */
  const JoinText: string := "entra na sala..."

  /** The notice a successful join appends to `messages`. */
  function JoinNotice(name: string, time: string): Message {
    Message(name, Everyone, JoinText, Status, time)
  }

  /** Whether some participant carries exactly this name. */
  predicate HasName(ps: seq<Participant>, name: string) {
    exists i :: 0 <= i < |ps| && ps[i].name == name
  }

  /** No two participants share a name. */
  predicate NamesUnique(ps: seq<Participant>) {
    forall i, j :: 0 <= i < j < |ps| ==> ps[i].name != ps[j].name
  }

  /** The outcome of `findOne({ name })`: where the first match sits, if any. */
  datatype Lookup = Absent | FoundAt(index: nat)

  /** `findOne({ name })` on `participants`: the first document in natural
      order whose name is exactly `name`. */
  function FindByName(ps: seq<Participant>, name: string): (r: Lookup)
    ensures r.Absent? <==> !HasName(ps, name)
    ensures r.FoundAt? ==> r.index < |ps| && ps[r.index].name == name
    ensures r.FoundAt? ==> forall j :: 0 <= j < r.index ==> ps[j].name != name
  {
    if |ps| == 0 then Absent
    else if ps[0].name == name then FoundAt(0)
    else match FindByName(ps[1..], name)
      case Absent => Absent
      case FoundAt(i) => FoundAt(i + 1)
  }

  /** `updateOne({ name }, { $set: { lastStatus: now } })`: the first
      document named `name` gets the new timestamp, every other document
      and every other field stays as it was. */
  function SetLastStatus(ps: seq<Participant>, name: string, now: int): (r: seq<Participant>)
    ensures |r| == |ps|
    ensures forall j :: 0 <= j < |ps| ==> r[j].name == ps[j].name
    ensures forall j :: 0 <= j < |ps| && FindByName(ps, name) != FoundAt(j) ==> r[j] == ps[j]
    ensures FindByName(ps, name).FoundAt? ==> r[FindByName(ps, name).index].lastStatus == now
  {
    if |ps| == 0 then []
    else if ps[0].name == name then [ps[0].(lastStatus := now)] + ps[1..]
    else [ps[0]] + SetLastStatus(ps[1..], name, now)
  }

  /** The read filter: broadcasts reach everyone, any other message only
      the requester it is addressed to or sent from. */
  predicate VisibleTo(m: Message, user: string) {
    m.kind == Broadcast || m.to == user || m.from == user
  }

  /** The stored messages `user` may read, in insertion order. */
  function Visible(ms: seq<Message>, user: string): (r: seq<Message>)
    ensures |r| <= |ms|
    ensures forall m :: m in r <==> m in ms && VisibleTo(m, user)
  {
    if |ms| == 0 then []
    else (if VisibleTo(ms[0], user) then [ms[0]] else []) + Visible(ms[1..], user)
  }
}
