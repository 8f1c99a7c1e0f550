/** The participant registry: `POST /participants` (register a name),
    `GET /participants` (list the registry) and `POST /status` (heartbeat). */
module Participants {
  import opened ChatState

  /** The status message that announces a participant's arrival. */
  function JoinNotice(name: string, clock: Clock): Message {
    Message(name, Everyone, JoinText, StatusKind, clock.stamp)
  }

  /** `POST /participants` with body field `name` (None when it is missing or
      not a string). A name that is not alphanumeric is refused with 422, a
      name already registered with 409; otherwise the participant is stored
      with the current clock and its arrival is announced to everyone. */
  function Register(s: State, name: Option<string>, clock: Clock): (r: Reply)
    ensures r.code == Created || r.code == Conflict || r.code == Unprocessable
    ensures r.code == Unprocessable <==> name.None? || !Alphanumeric(name.value)
    ensures r.code == Conflict <==> name.Some? && Alphanumeric(name.value) && name.value in Names(s.users)
    ensures r.code != Created ==> r.state == s
    ensures r.code == Created ==>
              && r.state.users == s.users + [User(name.value, clock.now)]
              && r.state.messages == s.messages + [Message(name.value, Everyone, JoinText, StatusKind, clock.stamp)]
  {
    if name.None? || !Alphanumeric(name.value) then Reply(Unprocessable, s)
    else if FindUser(s.users, name.value).Some? then Reply(Conflict, s)
    else Reply(Created, State(s.users + [User(name.value, clock.now)], s.messages + [JoinNotice(name.value, clock)]))
  }

  /** Registration keeps names unique: a name is only added after the lookup
      found no participant with it. */
  lemma RegisterPreservesValid(s: State, name: Option<string>, clock: Clock)
    requires Valid(s)
    ensures Valid(Register(s, name, clock).state)
  {
    var r := Register(s, name, clock);
    if r.code == Created {
      var us := r.state.users;
      forall i, j | 0 <= i < j < |us|
        ensures us[i].name != us[j].name
      {
        if j == |s.users| {
          assert Names(s.users)[i] == us[i].name;
        }
      }
    }
  }

  /** Of two registrations of the same name, the second one finds the first
      and is refused with 409, leaving the state unchanged. */
  lemma RegisterTwiceConflicts(s: State, name: string, first: Clock, second: Clock)
    requires Register(s, Some(name), first).code == Created
    ensures var s1 := Register(s, Some(name), first).state;
            Register(s1, Some(name), second) == Reply(Conflict, s1)
  {
    var s1 := Register(s, Some(name), first).state;
    assert Names(s1.users)[|s.users|] == name;
  }

  /** `GET /participants`: the whole registry, as stored. */
  function ListParticipants(s: State): seq<User> {
    s.users
  }

  /** `POST /status` with the `user` header. An unknown participant is
      answered with 404; otherwise the first participant with that name has
      its `lastStatus` set to the current clock. */
  function Heartbeat(s: State, user: Option<string>, clock: Clock): (r: Reply)
    ensures r.code == OK || r.code == NotFound
    ensures r.code == NotFound <==> user.None? || user.value !in Names(s.users)
    ensures r.code == NotFound ==> r.state == s
    ensures r.state.messages == s.messages
    ensures Names(r.state.users) == Names(s.users)
  {
    if user.None? then Reply(NotFound, s)
    else match FindUser(s.users, user.value)
      case None => Reply(NotFound, s)
      case Some(i) => Reply(OK, State(s.users[i := s.users[i].(lastStatus := clock.now)], s.messages))
  }

  /** With unique names, a successful heartbeat refreshes exactly the named
      participant and leaves every other one as it was, in place. */
  lemma HeartbeatRefreshesOnlyNamed(s: State, name: string, clock: Clock)
    requires DistinctNames(s.users)
    requires name in Names(s.users)
    ensures var r := Heartbeat(s, Some(name), clock);
            && r.code == OK
            && |r.state.users| == |s.users|
            && forall i :: 0 <= i < |s.users| ==>
                 r.state.users[i] == (if s.users[i].name == name then User(name, clock.now) else s.users[i])
  {
    var k := FindUser(s.users, name).value;
    assert s.users[k].name == name;
  }

  lemma HeartbeatPreservesValid(s: State, user: Option<string>, clock: Clock)
    requires Valid(s)
    ensures Valid(Heartbeat(s, user, clock).state)
  {
    var r := Heartbeat(s, user, clock);
    forall i | 0 <= i < |r.state.users|
      ensures r.state.users[i].name == s.users[i].name
    {
      assert Names(r.state.users)[i] == Names(s.users)[i];
    }
  }
}
