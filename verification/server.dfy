/** The server as a whole: every writing request and every reaper tick is one
    atomic step on the two collections. The invariant `Valid` holds in every
    state reachable from empty collections, and the handlers combine into the
    behaviour participants observe. */
module ChatServer {
  import opened ChatState
  import Participants
  import Messages
  import Presence

  /** The events that write to the collections. */
  datatype Event =
    | Register(name: Option<string>)
    | Post(sender: Option<string>, body: Messages.Body)
    | Heartbeat(user: Option<string>)
    | Tick

  function Step(s: State, event: Event, clock: Clock): State {
    match event
    case Register(name) => Participants.Register(s, name, clock).state
    case Post(sender, body) => Messages.Post(s, sender, body, clock).state
    case Heartbeat(user) => Participants.Heartbeat(s, user, clock).state
    case Tick => Presence.Reap(s, clock)
  }

  /** The collections after a sequence of timed events, applied in order. */
  function Run(s: State, events: seq<(Event, Clock)>): State
    decreases |events|
  {
    if |events| == 0 then s else Run(Step(s, events[0].0, events[0].1), events[1..])
  }

  lemma StepPreservesValid(s: State, event: Event, clock: Clock)
    requires Valid(s)
    ensures Valid(Step(s, event, clock))
  {
    match event
    case Register(name) => Participants.RegisterPreservesValid(s, name, clock);
    case Post(sender, body) => Messages.PostPreservesValid(s, sender, body, clock);
    case Heartbeat(user) => Participants.HeartbeatPreservesValid(s, user, clock);
    case Tick => Presence.ReapPreservesValid(s, clock);
  }

  lemma {:induction false} RunPreservesValid(s: State, events: seq<(Event, Clock)>)
    requires Valid(s)
    ensures Valid(Run(s, events))
    decreases |events|
  {
    if |events| > 0 {
      StepPreservesValid(s, events[0].0, events[0].1);
      RunPreservesValid(Step(s, events[0].0, events[0].1), events[1..]);
    }
  }

  /** In every reachable state no two participants share a name, and every
      stored message is a status, public or private message. */
  lemma ReachableStatesAreValid(events: seq<(Event, Clock)>)
    ensures DistinctNames(Run(Empty, events).users)
    ensures forall i :: 0 <= i < |Run(Empty, events).messages| ==> KnownKind(Run(Empty, events).messages[i].kind)
  {
    RunPreservesValid(Empty, events);
  }

  /** A participant silent for more than the limit is gone after the next
      tick, and every viewer's feed holds the notice of their departure. */
  lemma StaleParticipantLeavesAndIsAnnounced(s: State, u: User, clock: Clock, viewer: string)
    requires u in s.users && Presence.Stale(u, clock.now)
    ensures u.name !in Names(Presence.Reap(s, clock).users)
    ensures Presence.LeaveNotice(u.name, clock) in Messages.Feed(Presence.Reap(s, clock).messages, viewer)
  {
    var r := Presence.Reap(s, clock);
    var gone := Presence.StaleUsers(s.users, clock.now);
    assert u in gone;
    var j :| 0 <= j < |gone| && gone[j] == u;
    assert Names(gone)[j] == u.name;
    assert r.messages[|s.messages| + j] == Presence.LeaveNotice(u.name, clock);
  }

  /** A participant whose heartbeat is at most 10000 ms old when the reaper
      runs is still registered afterwards. */
  lemma HeartbeatKeepsParticipant(s: State, name: string, beat: Clock, tick: Clock)
    requires Valid(s)
    requires name in Names(s.users)
    requires tick.now - beat.now <= Presence.TimeLimit
    ensures name in Names(Presence.Reap(Participants.Heartbeat(s, Some(name), beat).state, tick).users)
  {
    var s1 := Participants.Heartbeat(s, Some(name), beat).state;
    Participants.HeartbeatRefreshesOnlyNamed(s, name, beat);
    Participants.HeartbeatPreservesValid(s, Some(name), beat);
    Presence.ReapEvictsExactlyStale(s1, tick);
    var k := FindUser(s.users, name).value;
    assert s1.users[k] == User(name, beat.now);
    var live := Presence.ActiveUsers(s1.users, tick.now);
    assert User(name, beat.now) in live;
    var j :| 0 <= j < |live| && live[j] == User(name, beat.now);
    assert Names(live)[j] == name;
  }

  /** Registering "Alice" on an empty server succeeds, registering her again
      is a conflict, and an empty or missing name is refused. */
  lemma RegistrationScenario(c1: Clock, c2: Clock)
    ensures Participants.Register(Empty, Some("Alice"), c1).code == Created
    ensures Participants.Register(Participants.Register(Empty, Some("Alice"), c1).state, Some("Alice"), c2).code == Conflict
    ensures Participants.Register(Empty, Some(""), c1).code == Unprocessable
    ensures Participants.Register(Empty, None, c1).code == Unprocessable
  {
    assert Alphanumeric("Alice") by {
      assert AlnumChar('A') && AlnumChar('l') && AlnumChar('i') && AlnumChar('c') && AlnumChar('e');
    }
    Participants.RegisterTwiceConflicts(Empty, "Alice", c1, c2);
  }
}
