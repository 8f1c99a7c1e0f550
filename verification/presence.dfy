/** The presence reaper (`checkActiveUsers`): on each tick, participants whose
    last heartbeat is more than ten seconds old are deleted and their
    departure is announced to everyone. */
module Presence {
  import opened ChatState

  /** Milliseconds of silence after which a participant counts as gone. */
  const TimeLimit: int := 10000

  /** Strictly more than the limit: an age of exactly 10000 ms is still live. */
  predicate Stale(u: User, now: int) {
    now - u.lastStatus > TimeLimit
  }

  /** The participants the reaper selects, in registry order. */
  function StaleUsers(users: seq<User>, now: int): (r: seq<User>)
    ensures |r| <= |users|
    ensures forall u :: u in r <==> u in users && Stale(u, now)
  {
    if |users| == 0 then []
    else
      assert users == [users[0]] + users[1..];
      (if Stale(users[0], now) then [users[0]] else []) + StaleUsers(users[1..], now)
  }

  /** The participants that are still live, in registry order. */
  function ActiveUsers(users: seq<User>, now: int): (r: seq<User>)
    ensures |r| <= |users|
    ensures forall u :: u in r <==> u in users && !Stale(u, now)
  {
    if |users| == 0 then []
    else
      assert users == [users[0]] + users[1..];
      (if Stale(users[0], now) then [] else [users[0]]) + ActiveUsers(users[1..], now)
  }

  /** `deleteMany({ name: { $in: names } })` on the users collection: every
      document whose name is listed goes, the others stay in order. */
  function RemoveNamed(users: seq<User>, names: seq<string>): (r: seq<User>)
    ensures |r| <= |users|
    ensures forall u :: u in r <==> u in users && u.name !in names
  {
    if |users| == 0 then []
    else
      assert users == [users[0]] + users[1..];
      (if users[0].name in names then [] else [users[0]]) + RemoveNamed(users[1..], names)
  }

  /** The status message that announces a participant's departure. */
  function LeaveNotice(name: string, clock: Clock): Message {
    Message(name, Everyone, LeaveText, StatusKind, clock.stamp)
  }

  /** One departure notice per user, in the same order. */
  function Departures(gone: seq<User>, clock: Clock): seq<Message> {
    seq(|gone|, i requires 0 <= i < |gone| => LeaveNotice(gone[i].name, clock))
  }

  /** One run of `checkActiveUsers` at the given clock. With no stale
      participant nothing changes; otherwise every participant whose name is
      a stale participant's name is deleted and one departure notice per
      stale participant is appended, in registry order. */
  function Reap(s: State, clock: Clock): (r: State)
    ensures (forall i :: 0 <= i < |s.users| ==> !Stale(s.users[i], clock.now)) ==> r == s
    ensures forall u :: u in r.users <==> u in s.users && u.name !in Names(StaleUsers(s.users, clock.now))
    ensures var gone := StaleUsers(s.users, clock.now);
            && |r.messages| == |s.messages| + |gone|
            && r.messages[..|s.messages|] == s.messages
            && forall i :: 0 <= i < |gone| ==>
                 r.messages[|s.messages| + i] == Message(gone[i].name, Everyone, LeaveText, StatusKind, clock.stamp)
  {
    if |s.users| == 0 then s
    else
      var gone := StaleUsers(s.users, clock.now);
      if |gone| == 0 then
        assert s.messages + Departures(gone, clock) == s.messages;
        s
      else
        assert gone[0] in s.users && Stale(gone[0], clock.now);
        State(RemoveNamed(s.users, Names(gone)), s.messages + Departures(gone, clock))
  }

  /** Deleting by name removes exactly the stale participants when a name is
      listed precisely for the stale ones. */
  lemma {:induction false} RemoveNamedKeepsActive(users: seq<User>, names: seq<string>, now: int)
    requires forall i :: 0 <= i < |users| ==> (users[i].name in names <==> Stale(users[i], now))
    ensures RemoveNamed(users, names) == ActiveUsers(users, now)
  {
    if |users| > 0 {
      RemoveNamedKeepsActive(users[1..], names, now);
    }
  }

  /** With unique names, a participant's name is among the stale names
      exactly when that participant is itself stale. */
  lemma StaleNamesSelectStale(users: seq<User>, now: int)
    requires DistinctNames(users)
    ensures forall i :: 0 <= i < |users| ==>
              (users[i].name in Names(StaleUsers(users, now)) <==> Stale(users[i], now))
  {
    var gone := StaleUsers(users, now);
    forall i | 0 <= i < |users|
      ensures users[i].name in Names(gone) <==> Stale(users[i], now)
    {
      if Stale(users[i], now) {
        assert users[i] in gone;
        var j :| 0 <= j < |gone| && gone[j] == users[i];
        assert Names(gone)[j] == users[i].name;
      }
      if users[i].name in Names(gone) {
        var j :| 0 <= j < |gone| && Names(gone)[j] == users[i].name;
        assert gone[j] in users;
        var k :| 0 <= k < |users| && users[k] == gone[j];
        assert users[k].name == users[i].name;
        assert k == i;
      }
    }
  }

  /** With unique names, the reaper removes exactly the stale participants
      and keeps every live one, unchanged and in order. */
  lemma ReapEvictsExactlyStale(s: State, clock: Clock)
    requires DistinctNames(s.users)
    ensures Reap(s, clock).users == ActiveUsers(s.users, clock.now)
  {
    var gone := StaleUsers(s.users, clock.now);
    StaleNamesSelectStale(s.users, clock.now);
    RemoveNamedKeepsActive(s.users, Names(gone), clock.now);
    if |gone| == 0 {
      assert Names(gone) == [];
      NothingToRemove(s.users);
    }
  }

  lemma {:induction false} NothingToRemove(users: seq<User>)
    ensures RemoveNamed(users, []) == users
  {
    if |users| > 0 {
      NothingToRemove(users[1..]);
      assert users == [users[0]] + users[1..];
    }
  }

  /** Every participant is either kept or selected as gone, exactly once. */
  lemma {:induction false} ReapPartitions(users: seq<User>, now: int)
    ensures multiset(ActiveUsers(users, now)) + multiset(StaleUsers(users, now)) == multiset(users)
  {
    if |users| > 0 {
      ReapPartitions(users[1..], now);
      assert users == [users[0]] + users[1..];
    }
  }

  /** Putting a user with a fresh name in front keeps names unique. */
  lemma ConsDistinct(u: User, rest: seq<User>)
    requires DistinctNames(rest)
    requires forall x :: x in rest ==> x.name != u.name
    ensures DistinctNames([u] + rest)
  {
    var r := [u] + rest;
    forall i, j | 0 <= i < j < |r|
      ensures r[i].name != r[j].name
    {
      assert r[j] == rest[j - 1];
      if i > 0 {
        assert r[i] == rest[i - 1];
      }
    }
  }

  /** Deleting participants keeps the remaining names unique. */
  lemma {:induction false} RemoveNamedDistinct(users: seq<User>, names: seq<string>)
    requires DistinctNames(users)
    ensures DistinctNames(RemoveNamed(users, names))
  {
    if |users| > 0 {
      var tail := users[1..];
      RemoveNamedDistinct(tail, names);
      var rest := RemoveNamed(tail, names);
      if users[0].name !in names {
        forall x | x in rest
          ensures x.name != users[0].name
        {
          var k :| 0 <= k < |tail| && tail[k] == x;
          assert users[k + 1] == x;
        }
        ConsDistinct(users[0], rest);
      }
    }
  }

  lemma ReapPreservesValid(s: State, clock: Clock)
    requires Valid(s)
    ensures Valid(Reap(s, clock))
  {
    var r := Reap(s, clock);
    var gone := StaleUsers(s.users, clock.now);
    if |s.users| > 0 && |gone| > 0 {
      RemoveNamedDistinct(s.users, Names(gone));
      forall i | 0 <= i < |r.users|
        ensures Alphanumeric(r.users[i].name)
      {
        assert r.users[i] in s.users;
      }
      forall i | 0 <= i < |r.messages|
        ensures KnownKind(r.messages[i].kind)
      {
        if i < |s.messages| {
          assert r.messages[i] == s.messages[i];
        } else {
          assert r.messages[i] == r.messages[|s.messages| + (i - |s.messages|)];
        }
      }
    }
  }
}
