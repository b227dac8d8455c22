/**
 * Properties of the room that relate several calls: the read filter's
 * algebra, the invariants every request preserves, and the end-to-end
 * scenarios of joining, posting, reading and refreshing.
 */
module Properties {
  import opened Js
  import opened Room
  import opened Schemas
  import opened Routes

  /** Filtering distributes over concatenation, so the visible list keeps
      insertion order: it is the visible part of the older messages
      followed by the visible part of the newer ones. */
  lemma {:induction false} VisibleAppend(a: seq<Message>, b: seq<Message>, user: string)
    ensures Visible(a + b, user) == Visible(a, user) + Visible(b, user)
  {
    if |a| == 0 {
      assert a + b == b;
    } else {
      assert (a + b)[1..] == a[1..] + b;
      VisibleAppend(a[1..], b, user);
    }
  }

  /** Appending one message extends every requester's visible list by that
      message exactly when the filter lets it through. */
  lemma VisibleAppendOne(ms: seq<Message>, m: Message, user: string)
    ensures Visible(ms + [m], user) == Visible(ms, user) + (if VisibleTo(m, user) then [m] else [])
  {
    VisibleAppend(ms, [m], user);
    assert [m][1..] == [];
  }

  /** A visible message occurs in the result as often as it was stored; an
      invisible one not at all. */
  lemma {:induction false} VisibleCount(ms: seq<Message>, user: string, m: Message)
    ensures multiset(Visible(ms, user))[m] == if VisibleTo(m, user) then multiset(ms)[m] else 0
  {
    if |ms| == 0 {
    } else {
      VisibleCount(ms[1..], user, m);
      assert ms == [ms[0]] + ms[1..];
      assert multiset(ms) == multiset([ms[0]]) + multiset(ms[1..]);
    }
  }

  /** The `limit === false` test of GET /messages never holds: a parsed
      number is never strictly equal to a boolean. */
  lemma LimitFalseNeverHolds(limit: Number)
    ensures !StrictEquals(Num(limit), Bool(false))
  {
  }

  /** Every request keeps participant names unique: a join appends only a
      name no participant carries, and a refresh never renames anyone. */
  lemma HandleKeepsNamesUnique(s: State, req: Request)
    requires NamesUnique(s.participants)
    ensures NamesUnique(Handle(s, req).next.participants)
  {
  }

  /** Any sequence of requests keeps participant names unique. */
  lemma {:induction false} RunKeepsNamesUnique(s: State, reqs: seq<Request>)
    requires NamesUnique(s.participants)
    ensures NamesUnique(Run(s, reqs).participants)
    decreases |reqs|
  {
    if |reqs| > 0 {
      HandleKeepsNamesUnique(s, reqs[0]);
      RunKeepsNamesUnique(Handle(s, reqs[0]).next, reqs[1..]);
    }
  }

  /** In every room reachable from the empty one, names are unique. */
  lemma ReachableNamesUnique(reqs: seq<Request>)
    ensures NamesUnique(Run(EmptyRoom, reqs).participants)
  {
    RunKeepsNamesUnique(EmptyRoom, reqs);
  }

  /** No request rewrites history: stored messages stay in place and only
      grow at the end, and no participant is removed or renamed. */
  lemma HandleKeepsHistory(s: State, req: Request)
    ensures s.messages <= Handle(s, req).next.messages
    ensures |s.participants| <= |Handle(s, req).next.participants|
    ensures forall i :: 0 <= i < |s.participants| ==>
      Handle(s, req).next.participants[i].name == s.participants[i].name
  {
  }

  /** History is kept across any sequence of requests. */
  lemma {:induction false} RunKeepsHistory(s: State, reqs: seq<Request>)
    ensures s.messages <= Run(s, reqs).messages
    ensures |s.participants| <= |Run(s, reqs).participants|
    ensures forall i :: 0 <= i < |s.participants| ==>
      Run(s, reqs).participants[i].name == s.participants[i].name
    decreases |reqs|
  {
    if |reqs| > 0 {
      var t := Handle(s, reqs[0]).next;
      HandleKeepsHistory(s, reqs[0]);
      RunKeepsHistory(t, reqs[1..]);
    }
  }

  /** Joining twice with the same valid name: the first join succeeds and
      the second is refused with 409 and changes nothing. */
  lemma JoinTwiceConflicts(s: State, name: Field, now: int, time: string, now2: int, time2: string)
    requires PresentString(name) && !HasName(s.participants, name.s)
    ensures Join(s, name, now, time).code == 201
    ensures var t := Join(s, name, now, time).next;
      Join(t, name, now2, time2).code == 409 && Join(t, name, now2, time2).next == t
  {
    var t := Join(s, name, now, time).next;
    assert t.participants[|s.participants|].name == name.s;
  }

  /** After a successful join, the listed participants hold exactly one
      record with the joined name, whatever duplicates other names have. */
  lemma JoinListsNameOnce(s: State, name: Field, now: int, time: string)
    requires Join(s, name, now, time).code == 201
    ensures var ps := ListParticipants(Join(s, name, now, time).next).body.participants;
      && |ps| == |s.participants| + 1
      && ps[|s.participants|] == Participant(name.s, now)
      && forall i :: 0 <= i < |ps| && ps[i].name == name.s ==> i == |s.participants|
  {
  }

  /** The join notice reaches only the joiner and a requester literally
      named "Todos", since only `message`-type documents are broadcast. */
  lemma JoinNoticeAudience(s: State, name: Field, now: int, time: string, reader: string)
    requires Join(s, name, now, time).code == 201
    ensures var seen := ListMessages(Join(s, name, now, time).next, reader, NaN).body.messages;
      && seen == Visible(s.messages, reader) + (if VisibleTo(JoinNotice(name.s, time), reader) then [JoinNotice(name.s, time)] else [])
      && (JoinNotice(name.s, time) in seen <==> reader == name.s || reader == Everyone)
  {
    var notice := JoinNotice(name.s, time);
    VisibleAppendOne(s.messages, notice, reader);
  }

  /** A post is visible exactly to the readers the filter admits, and it
      comes back with every field as stored: the reader's unlimited list
      grows by the posted message at its end, or not at all. */
  lemma PostThenRead(s: State, user: string, to: Field, text: Field, kind: Field, time: string, reader: string)
    requires Post(s, user, to, text, kind, time).code == 201
    ensures var m := Message(user, to.s, text.s, if kind == Str("message") then Broadcast else Private, time);
      ListMessages(Post(s, user, to, text, kind, time).next, reader, NaN).body.messages
        == Visible(s.messages, reader) + (if VisibleTo(m, reader) then [m] else [])
  {
    var t := Post(s, user, to, text, kind, time).next;
    var m := Message(user, to.s, text.s, if kind == Str("message") then Broadcast else Private, time);
    assert t.messages == s.messages + [m];
    VisibleAppendOne(s.messages, m, reader);
  }

  /** A private message reaches its sender and its addressee and nobody
      else; a broadcast reaches every reader. */
  lemma PostAudience(s: State, user: string, to: Field, text: Field, kind: Field, time: string, reader: string)
    requires Post(s, user, to, text, kind, time).code == 201
    ensures var seen := ListMessages(Post(s, user, to, text, kind, time).next, reader, NaN).body.messages;
      var m := Message(user, to.s, text.s, if kind == Str("message") then Broadcast else Private, time);
      && (kind == Str("private_message") ==> (m in seen <==> reader == user || reader == to.s))
      && (kind == Str("message") ==> |seen| > 0 && seen[|seen| - 1] == m)
  {
    var m := Message(user, to.s, text.s, if kind == Str("message") then Broadcast else Private, time);
    PostThenRead(s, user, to, text, kind, time, reader);
  }

  /** With unique names, a successful refresh sets the timestamp of the one
      participant carrying the name and of no other. */
  lemma RefreshTouchesOnlyNamed(s: State, user: string, now: int)
    requires NamesUnique(s.participants)
    requires RefreshStatus(s, user, now).code == 200
    ensures var ps := RefreshStatus(s, user, now).next.participants;
      forall j :: 0 <= j < |ps| ==>
        && ps[j].name == s.participants[j].name
        && (ps[j].name == user ==> ps[j].lastStatus == now)
        && (ps[j].name != user ==> ps[j] == s.participants[j])
  {
  }

  /** A refresh right after a join finds the new participant and moves its
      timestamp from the join time to the refresh time. */
  lemma RefreshAfterJoin(s: State, name: Field, joined: int, time: string, now: int)
    requires Join(s, name, joined, time).code == 201
    ensures var t := Join(s, name, joined, time).next;
      && RefreshStatus(t, name.s, now).code == 200
      && RefreshStatus(t, name.s, now).next.participants
           == s.participants + [Participant(name.s, now)]
  {
    var t := Join(s, name, joined, time).next;
    var n := |s.participants|;
    assert t.participants[n].name == name.s;
    var i := FindByName(t.participants, name.s).index;
    if i < n {
      assert false;
    }
    var ps := RefreshStatus(t, name.s, now).next.participants;
    assert ps == s.participants + [Participant(name.s, now)] by {
      forall j | 0 <= j < |ps|
        ensures ps[j] == (s.participants + [Participant(name.s, now)])[j]
      {
        if j < n { assert ps[j] == t.participants[j]; }
      }
    }
  }
}
