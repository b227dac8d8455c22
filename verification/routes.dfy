/**
 * The five route handlers as pure transitions: each takes the room state
 * and the request's inputs (the clock readings `now` and `time` passed in)
 * and yields the status code, the response body and the next state.
 */
module Routes {
  import opened Js
  import opened Room
  import opened Schemas

  /** What a handler sends back. `StatusOnly` is `sendStatus`, whose body
      is just the status code's reason phrase. */
  datatype Body =
    | StatusOnly
    | ValidationError(key: string)
    | ParticipantList(participants: seq<Participant>)
    | MessageList(messages: seq<Message>)

  datatype Reply = Reply(code: int, body: Body, next: State)

  /** POST /participants: validate the name, refuse a name already taken,
      otherwise append the participant and then its join notice. */
  function Join(s: State, name: Field, now: int, time: string): (r: Reply)
    ensures r.code in {201, 409, 422}
    ensures r.code == 422 <==> !PresentString(name)
    ensures r.code == 422 ==> r.body == ValidationError("name")
    ensures r.code == 409 <==> PresentString(name) && HasName(s.participants, name.s)
    ensures r.code != 201 ==> r.next == s
    ensures r.code == 201 ==>
      && r.next.participants == s.participants + [Participant(name.s, now)]
      && r.next.messages == s.messages + [Message(name.s, "Todos", "entra na sala...", Status, time)]
  {
    match CheckParticipant(name)
    case Rejected(key) => Reply(422, ValidationError(key), s)
    case Accepted(n) =>
      if FindByName(s.participants, n).FoundAt? then Reply(409, StatusOnly, s)
      else Reply(201, StatusOnly, State(s.participants + [Participant(n, now)], s.messages + [JoinNotice(n, time)]))
  }

  /** GET /participants: every participant document in store order. */
  function ListParticipants(s: State): (r: Reply)
    ensures r.code == 200 && r.next == s
    ensures r.body.ParticipantList? && r.body.participants == s.participants
  {
    Reply(200, ParticipantList(s.participants), s)
  }

  /** POST /messages: validate the body, then append one message sent
      from the `user` header, which is not checked against the room. */
  function Post(s: State, user: string, to: Field, text: Field, kind: Field, time: string): (r: Reply)
    ensures r.code in {201, 422}
    ensures r.code == 201 <==>
      PresentString(to) && PresentString(text) && (kind == Str("message") || kind == Str("private_message"))
    ensures r.code == 422 ==> r.next == s
    ensures r.code == 422 ==>
      r.body == ValidationError(if !PresentString(to) then "to" else if !PresentString(text) then "text" else "type")
    ensures r.next.participants == s.participants
    ensures r.code == 201 ==>
      && |r.next.messages| == |s.messages| + 1
      && r.next.messages[..|s.messages|] == s.messages
      && var m := r.next.messages[|s.messages|];
         m.from == user && to == Str(m.to) && text == Str(m.text) && kind == Str(m.kind.Wire()) && m.time == time
  {
    match CheckMessage(to, text, kind)
    case Rejected(key) => Reply(422, ValidationError(key), s)
    case Accepted(b) =>
      Reply(201, StatusOnly, s.(messages := s.messages + [Message(user, b.to, b.text, b.kind, time)]))
  }

  /** GET /messages: the messages `user` may read, cut by `slice(-limit)`.
      The `limit === false` test compares a number with a boolean, so the
      branch it guards is never taken. */
  function ListMessages(s: State, user: string, limit: Number): (r: Reply)
    ensures r.code == 200 && r.next == s && r.body.MessageList?
    ensures var all := Visible(s.messages, user);
      && (limit.NaN? || limit == Int(0) ==> r.body.messages == all)
      && (limit.Int? && limit.value > 0 ==> r.body.messages == all[|all| - Min(limit.value, |all|)..])
      && (limit.Int? && limit.value < 0 ==> r.body.messages == all[Min(-limit.value, |all|)..])
  {
    var all := Visible(s.messages, user);
    if StrictEquals(Num(limit), Bool(false)) then Reply(200, MessageList(all), s)
    else Reply(200, MessageList(SliceFrom(all, Negate(limit))), s)
  }

  /** POST /status: 404 when no participant carries the `user` header's
      name, otherwise refresh the first match's `lastStatus`. */
  function RefreshStatus(s: State, user: string, now: int): (r: Reply)
    ensures r.code in {200, 404}
    ensures r.code == 404 <==> !HasName(s.participants, user)
    ensures r.code == 404 ==> r.next == s
    ensures r.next.messages == s.messages
    ensures |r.next.participants| == |s.participants|
    ensures r.code == 200 ==>
      var i := FindByName(s.participants, user).index;
      && r.next.participants[i] == Participant(user, now)
      && forall j :: 0 <= j < |s.participants| && j != i ==> r.next.participants[j] == s.participants[j]
  {
    if FindByName(s.participants, user).Absent? then Reply(404, StatusOnly, s)
    else Reply(200, StatusOnly, s.(participants := SetLastStatus(s.participants, user, now)))
  }

  /** One request to the room, with the clock readings it is served at. */
  datatype Request =
    | JoinRequest(name: Field, now: int, time: string)
    | ListParticipantsRequest
    | PostRequest(user: string, to: Field, text: Field, kind: Field, time: string)
    | ListMessagesRequest(user: string, limit: Number)
    | StatusRequest(user: string, now: int)

  /** Routes a request to its handler. */
  function Handle(s: State, req: Request): Reply {
    match req
    case JoinRequest(name, now, time) => Join(s, name, now, time)
    case ListParticipantsRequest => ListParticipants(s)
    case PostRequest(user, to, text, kind, time) => Post(s, user, to, text, kind, time)
    case ListMessagesRequest(user, limit) => ListMessages(s, user, limit)
    case StatusRequest(user, now) => RefreshStatus(s, user, now)
  }

  /** The state after serving `reqs` one after another. */
  function Run(s: State, reqs: seq<Request>): State
    decreases |reqs|
  {
    if |reqs| == 0 then s else Run(Handle(s, reqs[0]).next, reqs[1..])
  }
}
