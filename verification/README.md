# Chat room request logic, modelled in Dafny

The chat API keeps two document collections: `participants`, one record
`{name, lastStatus}` per client that joined, and `messages`, records
`{from, to, text, type, time}` in insertion order. Five route handlers work on
them:

- `POST /participants` joins the room. The name is validated (422), a name
  already present is refused (409), and otherwise the participant is inserted
  and a `status` notice "entra na sala..." to `Todos` is appended (201).
- `GET /participants` lists every participant.
- `POST /messages` validates `{to, text, type}` (422) and appends a message
  sent from the `user` header (201).
- `GET /messages` returns the messages the `user` header may read:
  broadcasts, and anything addressed to or sent by the user. The list is then
  cut with `slice(-limit)`.
- `POST /status` refreshes the user's `lastStatus` (200), or answers 404 for
  an unknown user.

The model treats the room as an immutable `State` of two sequences. Each
handler is a pure function from the state, the request's inputs and the clock
readings (`now` in milliseconds, `time` as the `HH:mm:ss` string) to a `Reply`
of status code, body and next state. Store queries become sequence
operations:

- `findOne` is the first match (`Room.FindByName`).
- `insertOne` is append.
- `find().toArray()` is the whole sequence.
- `updateOne` changes the first match (`Room.SetLastStatus`).

Files:

- `js.dfy` (module `Js`): the JavaScript semantics the handlers depend on. It
  models the number `parseInt` yields (`NaN` or an integer), strict equality
  `===`, and `Array.prototype.slice(start)` as ECMA-262 defines it.
- `room.dfy` (module `Room`): the documents, the room state and the store
  queries, including the read filter `Visible`.
- `schemas.dfy` (module `Schemas`): the two joi schemas as predicates over
  body fields. A field is `Missing`, a string, or some other JSON value.
- `routes.dfy` (module `Routes`): the five handlers, a `Request` type,
  `Handle` to dispatch a request, and `Run` to serve a sequence of requests.
  `Handle` stands for the route table (the five `app.post`/`app.get`
  registrations) and, with `Run`, is the request dispatcher the invariant
  lemmas quantify over; neither carries a contract of its own.
- `properties.dfy` (module `Properties`): lemmas that relate several calls.

Three behaviours of the code a reader may not expect:

- A name, `to` or `text` is refused only when it is missing, not a string,
  `""` or exactly `" "`. joi does not trim here, so a value of two spaces is
  accepted.
- `limit` is not limited to positive integers. `0` and NaN return the whole
  list. A negative `-k` drops the first `k` visible messages instead of keeping
  the last ones.
- `type: 'status'` messages pass the read filter only for their sender, or for
  a requester literally named `Todos`. Only `type === 'message'` counts as a
  broadcast, so other participants never see join notices.

## Model

| member | source | states |
|---|---|---|
| `Js.StrictEquals` | assets/javascript/app.js:124 | `a === b` holds exactly when both operands are the same primitive and it is not NaN, so a number is never `=== false` |
| `Js.SliceFrom` | assets/javascript/app.js:127 | `slice(start)` always returns a suffix of the list. NaN and 0 keep everything, a negative `-k` keeps the last `min(k, n)`, a positive `k` drops the first `min(k, n)` |
| `Room.FindByName` | assets/javascript/app.js:24-27 | `findOne({ name })` finds nothing exactly when no participant has the name; otherwise it returns the first position holding that name |
| `Room.SetLastStatus` | assets/javascript/app.js:146-148 | `updateOne` sets `lastStatus` to `now` on the first participant with the name; every name and every other participant is unchanged |
| `Room.Visible` | assets/javascript/app.js:123 | a message is in the read list exactly when it is stored and is a broadcast, addressed to the requester or sent by them |
| `Schemas.CheckParticipant` | assets/javascript/app.js:20-22 | the participant schema accepts exactly a present string other than `""` and `" "`, returns it unchanged, and otherwise reports key `name` |
| `Schemas.CheckType` | assets/javascript/app.js:85 | `type` is accepted exactly for `'message'` and `'private_message'`; the accepted kind is never `status` and maps back to the same string |
| `Schemas.CheckMessage` | assets/javascript/app.js:82-86 | the message schema accepts exactly valid `to`, `text` and `type`, copies them verbatim, and otherwise reports the first failing key in the order `to`, `text`, `type` |
| `Routes.Join` | assets/javascript/app.js:30-60 | an invalid name gives 422 and a taken name gives 409, both with the state unchanged. A fresh valid name gives 201, appending the participant with `lastStatus = now` and then the `status` notice to `Todos` |
| `Routes.ListParticipants` | assets/javascript/app.js:70-74 | answers 200 with every participant in store order and leaves the state unchanged |
| `Routes.Post` | assets/javascript/app.js:89-108 | 201 exactly for a valid body, otherwise 422 with no write, reporting the first failing key in the order `to`, `text`, `type`. On success, exactly one message is appended, from the header user, with `to`, `text` and `type` as sent and the given time. Participants never change |
| `Routes.ListMessages` | assets/javascript/app.js:117-129 | answers 200 with no state change. NaN and 0 give the whole visible list; `k > 0` gives its last `min(k, n)`; `-k` drops its first `min(k, n)` |
| `Routes.RefreshStatus` | assets/javascript/app.js:138-150 | an unknown user gets 404 and nothing changes. Otherwise 200: the first participant with the name gets `lastStatus = now`, and every other participant and all messages stay the same |
| `Properties.VisibleAppend` | assets/javascript/app.js:123 | filtering distributes over concatenation, so the read list keeps insertion order |
| `Properties.VisibleAppendOne` | assets/javascript/app.js:122-123 | appending one message extends each reader's list by that message exactly when the filter admits it |
| `Properties.VisibleCount` | assets/javascript/app.js:123 | a visible message occurs in the read list as often as it is stored; an invisible one never occurs |
| `Properties.LimitFalseNeverHolds` | assets/javascript/app.js:119-125 | the `limit === false` branch is dead for every parsed limit |
| `Properties.HandleKeepsNamesUnique` | assets/javascript/app.js:43-51 | every request keeps participant names unique |
| `Properties.RunKeepsNamesUnique` | assets/javascript/app.js:43-51 | any sequence of requests keeps participant names unique |
| `Properties.ReachableNamesUnique` | assets/javascript/app.js:24-27 | every room reachable from the empty one has unique names |
| `Properties.HandleKeepsHistory` | assets/javascript/app.js:48-148 | no request removes or rewrites a stored message, and no request removes or renames a participant |
| `Properties.RunKeepsHistory` | assets/javascript/app.js:48-148 | history is kept across any sequence of requests |
| `Properties.JoinTwiceConflicts` | assets/javascript/app.js:43-46 | a first join with a fresh valid name succeeds; a second join with the same name gets 409 and changes nothing |
| `Properties.JoinListsNameOnce` | assets/javascript/app.js:48-51 | after a join, from any store state, the participant list has exactly one record with that name, holding the join time |
| `Properties.JoinNoticeAudience` | assets/javascript/app.js:53-59 | the join notice reaches a reader exactly when the reader is the joiner or is named `Todos`; every older visible message stays in place |
| `Properties.PostThenRead` | assets/javascript/app.js:101-107 | after a post, a reader's unlimited list is the old one plus the posted message, with every field as sent, exactly when the filter admits it |
| `Properties.PostAudience` | assets/javascript/app.js:122-123 | a private message reaches exactly its sender and its addressee; a broadcast ends every reader's list |
| `Properties.RefreshTouchesOnlyNamed` | assets/javascript/app.js:142-148 | with unique names, a refresh sets `lastStatus` only on the participant with the name and renames no one |
| `Properties.RefreshAfterJoin` | assets/javascript/app.js:142-149 | from any store state, a refresh after a join finds the new participant and replaces its join time with the refresh time |

## Left out

- Express, cors, dotenv, the Mongo client connection and `listen`: these are
  framework wiring and I/O.
- The `catch` branches answering 500 and their `console.log`: store failures
  are external, so the model has no failure injection. A real join can
  therefore leave a participant without its status notice, and the model does
  not show this.
- `Date.now()` and `dayjs().format('HH:mm:ss')`: they are passed in as `now`
  and `time`.
- `parseInt` itself: the parsed `limit` is given as a `Js.Number`, and
  ±Infinity is represented by integers past the list length, which `slice`
  treats the same way.
- The wording of joi's 422 messages: the body carries only the failing key.
  The order `to`, `text`, `type` follows the schema's key order, which joi
  checks first to last.
- A missing `user` header: the user is always a string.
- How the `user` header is decoded: Node's HTTP parser trims white space
  around header values and reads them as Latin-1, so a joined name with a
  leading or trailing space, which the schema accepts, can never equal a
  `user` header. The model takes the header as the decoded string.
- The `_id` field Mongo adds to every document, and how documents are
  serialised in responses.
- The reason phrase `sendStatus` writes as the body: it is `StatusOnly`.
- Two concurrent joins with the same name can both pass the existence check.
  This is a race, outside a sequential model.
- The commented-out `RemoveInative` stub: it has no body.
