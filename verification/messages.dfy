/** The message store: `POST /messages` (post a public or private message)
    and `GET /messages` (the messages one viewer may read, optionally only the
    latest few). */
module Messages {
  import opened ChatState

  /** The JSON body of `POST /messages`. A field is None when it is missing or
      not a string; `unknownKeys` records any key other than the three. */
  datatype Body = Body(to: Option<string>, text: Option<string>, kind: Option<string>, unknownKeys: bool)

  /** The body schema: an alphanumeric recipient, a non-empty text, a public
      or private type, and no other key. */
  predicate Accepts(body: Body) {
    && body.to.Some? && Alphanumeric(body.to.value)
    && body.text.Some? && |body.text.value| > 0
    && body.kind.Some? && (body.kind.value == PublicKind || body.kind.value == PrivateKind)
    && !body.unknownKeys
  }

  /** `POST /messages` with the `user` header as sender. An unregistered
      sender, a sender that is not alphanumeric and a body the schema refuses
      are all answered with 422; otherwise the body's fields are stored with
      `from` set to the sender. */
  function Post(s: State, sender: Option<string>, body: Body, clock: Clock): (r: Reply)
    ensures r.code == Created || r.code == Unprocessable
    ensures r.code == Created <==>
              sender.Some? && sender.value in Names(s.users) && Alphanumeric(sender.value) && Accepts(body)
    ensures r.code == Unprocessable ==> r.state == s
    ensures r.state.users == s.users
    ensures r.code == Created ==>
              r.state.messages == s.messages + [Message(sender.value, body.to.value, body.text.value, body.kind.value, clock.stamp)]
  {
    if sender.None? || FindUser(s.users, sender.value).None? then Reply(Unprocessable, s)
    else if !Alphanumeric(sender.value) || !Accepts(body) then Reply(Unprocessable, s)
    else Reply(Created, State(s.users, s.messages + [Message(sender.value, body.to.value, body.text.value, body.kind.value, clock.stamp)]))
  }

  /** In a valid state the sender's own alphanumeric check never refuses a
      registered sender: only registration and the body decide. */
  lemma PostAcceptsRegisteredSender(s: State, sender: string, body: Body, clock: Clock)
    requires Valid(s)
    ensures Post(s, Some(sender), body, clock).code == Created <==> sender in Names(s.users) && Accepts(body)
  {
    if sender in Names(s.users) {
      var i := FindUser(s.users, sender).value;
      assert Alphanumeric(s.users[i].name);
    }
  }

  lemma PostPreservesValid(s: State, sender: Option<string>, body: Body, clock: Clock)
    requires Valid(s)
    ensures Valid(Post(s, sender, body, clock).state)
  {
  }

  /** The visibility rule: a viewer reads what they sent, what was addressed
      to them, and every status and public message. */
  predicate Visible(m: Message, viewer: string) {
    m.from == viewer || m.to == viewer || m.kind == StatusKind || m.kind == PublicKind
  }

  /** The messages `viewer` may read, in insertion order. */
  function Feed(ms: seq<Message>, viewer: string): (r: seq<Message>)
    ensures |r| <= |ms|
    ensures forall m :: m in r <==> m in ms && Visible(m, viewer)
  {
    if |ms| == 0 then []
    else
      assert ms == [ms[0]] + ms[1..];
      (if Visible(ms[0], viewer) then [ms[0]] else []) + Feed(ms[1..], viewer)
  }

  /** A visible message occurs in the feed exactly as often as in the log,
      and an invisible one not at all. */
  lemma {:induction false} FeedCounts(ms: seq<Message>, viewer: string)
    ensures forall m :: multiset(Feed(ms, viewer))[m] == if Visible(m, viewer) then multiset(ms)[m] else 0
  {
    if |ms| > 0 {
      FeedCounts(ms[1..], viewer);
      assert ms == [ms[0]] + ms[1..];
    }
  }

  /** The feed of a log is the feed of its first part followed by the feed of
      the rest: filtering keeps the relative order of messages. */
  lemma {:induction false} FeedAppend(a: seq<Message>, b: seq<Message>, viewer: string)
    ensures Feed(a + b, viewer) == Feed(a, viewer) + Feed(b, viewer)
  {
    if |a| == 0 {
      assert a + b == b;
    } else {
      assert (a + b)[0] == a[0];
      assert (a + b)[1..] == a[1..] + b;
      FeedAppend(a[1..], b, viewer);
    }
  }

  lemma FeedOne(m: Message, viewer: string)
    ensures Feed([m], viewer) == if Visible(m, viewer) then [m] else []
  {
    assert [m][1..] == [];
  }

  /** Appending one message extends a feed by it exactly when it is visible. */
  lemma FeedSnoc(ms: seq<Message>, m: Message, viewer: string)
    ensures Feed(ms + [m], viewer) == Feed(ms, viewer) + (if Visible(m, viewer) then [m] else [])
  {
    FeedAppend(ms, [m], viewer);
    FeedOne(m, viewer);
  }

  /** A private message is in a viewer's feed exactly when the viewer is its
      sender or its recipient; any other message type is read by everyone. */
  lemma PrivateAudience(m: Message, viewer: string)
    requires KnownKind(m.kind)
    ensures m.kind == PrivateKind ==> (m in Feed([m], viewer) <==> viewer == m.from || viewer == m.to)
    ensures m.kind != PrivateKind ==> Feed([m], viewer) == [m]
  {
    FeedOne(m, viewer);
  }

  /** A successful post extends the viewer's feed by the new message exactly
      when it is public or the viewer is one of its two parties. */
  lemma PostedMessageAudience(s: State, sender: string, body: Body, clock: Clock, viewer: string)
    requires Post(s, Some(sender), body, clock).code == Created
    ensures var m := Message(sender, body.to.value, body.text.value, body.kind.value, clock.stamp);
            Feed(Post(s, Some(sender), body, clock).state.messages, viewer) ==
              Feed(s.messages, viewer) +
              (if body.kind.value == PublicKind || viewer == sender || viewer == body.to.value then [m] else [])
  {
    var m := Message(sender, body.to.value, body.text.value, body.kind.value, clock.stamp);
    FeedSnoc(s.messages, m, viewer);
  }

  function Min(a: int, b: int): int {
    if a <= b then a else b
  }

  /** JavaScript's `list.slice(start)` for an integer start: a negative start
      counts from the end (and stops at the front), a non-negative one from
      the front (and stops at the end). */
  function Slice<T>(list: seq<T>, start: int): (r: seq<T>)
    ensures |r| == if start < 0 then Min(-start, |list|) else |list| - Min(start, |list|)
    ensures list == list[..|list| - |r|] + r
  {
    var from := if start < 0 then (if |list| + start < 0 then 0 else |list| + start)
                else (if start > |list| then |list| else start);
    list[from..]
  }

  /** The `limit` step of `GET /messages` as written, `list.slice(-limit)`:
      the newest `limit` entries for a positive limit, everything for zero,
      and everything but the `-limit` oldest entries for a negative limit. */
  function SliceLimitAsWritten<T>(list: seq<T>, limit: int): (r: seq<T>)
    ensures limit > 0 ==> r == list[|list| - Min(limit, |list|)..]
    ensures limit == 0 ==> r == list
    ensures limit < 0 ==> r == list[Min(-limit, |list|)..]
  {
    Slice(list, -limit)
  }

  /** As written, a negative limit does not return the whole list: it drops
      the |limit| oldest entries instead. */
  lemma NegativeLimitDropsOldest<T>(list: seq<T>, limit: int)
    requires limit < 0 && |list| > 0
    ensures |SliceLimitAsWritten(list, limit)| < |list|
    ensures SliceLimitAsWritten(list, limit) == list[Min(-limit, |list|)..]
  {
  }

  /** A concrete instance: `limit=-1` over three messages yields the last two. */
  lemma NegativeLimitExample(a: Message, b: Message, c: Message)
    ensures SliceLimitAsWritten([a, b, c], -1) == [b, c]
  {
  }

  /** The newest `limit` entries of a list, in order: all of them when the
      list is shorter, and all of them for a limit that is not positive. */
  function TakeLast<T>(list: seq<T>, limit: int): (r: seq<T>)
    ensures |r| == if limit <= 0 then |list| else Min(limit, |list|)
    ensures list == list[..|list| - |r|] + r
  {
    if limit <= 0 || limit >= |list| then list else list[|list| - limit..]
  }

  /** For every limit of zero or more, the corrected step and the code agree. */
  lemma TakeLastAgreesOnNonNegative<T>(list: seq<T>, limit: int)
    requires limit >= 0
    ensures TakeLast(list, limit) == SliceLimitAsWritten(list, limit)
  {
  }

  /** The `messages.filter(...)` pass of `GET /messages`: one scan of the
      log that keeps, in order, the messages the viewer may read. */
  method FilterVisible(ms: seq<Message>, viewer: string) returns (kept: seq<Message>)
    ensures kept == Feed(ms, viewer)
  {
    kept := [];
    var i := 0;
    while i < |ms|
      invariant 0 <= i <= |ms|
      invariant kept == Feed(ms[..i], viewer)
    {
      assert ms[..i + 1] == ms[..i] + [ms[i]];
      FeedSnoc(ms[..i], ms[i], viewer);
      if Visible(ms[i], viewer) {
        kept := kept + [ms[i]];
      }
      i := i + 1;
    }
    assert ms[..i] == ms;
  }

  /** `GET /messages` with the `user` header as viewer and the optional
      numeric `limit` query. A missing or empty viewer is answered with 400.
      Otherwise the log is filtered by visibility and, when a limit is given,
      cut with `slice(-limit)`: a positive limit keeps only the newest
      entries, zero keeps them all, and a negative limit drops the oldest. */
  method ListMessages(s: State, viewer: Option<string>, limit: Option<int>) returns (code: Code, feed: seq<Message>)
    ensures code == OK || code == BadRequest
    ensures code == BadRequest <==> viewer.None? || viewer.value == ""
    ensures code == BadRequest ==> feed == []
    ensures code == OK && (limit.None? || limit.value == 0) ==> feed == Feed(s.messages, viewer.value)
    ensures code == OK && limit.Some? && limit.value > 0 ==>
              var all := Feed(s.messages, viewer.value);
              |feed| == Min(limit.value, |all|) && all == all[..|all| - |feed|] + feed
    ensures code == OK && limit.Some? && limit.value < 0 ==>
              var all := Feed(s.messages, viewer.value);
              feed == all[Min(-limit.value, |all|)..]
    ensures code == OK && limit.Some? && limit.value >= 0 ==>
              feed == TakeLast(Feed(s.messages, viewer.value), limit.value)
  {
    if viewer.None? || viewer.value == "" {
      return BadRequest, [];
    }
    var kept := FilterVisible(s.messages, viewer.value);
    code := OK;
    if limit.None? {
      feed := kept;
    } else {
      feed := SliceLimitAsWritten(kept, limit.value);
      if limit.value >= 0 {
        TakeLastAgreesOnNonNegative(kept, limit.value);
      }
    }
  }
}
