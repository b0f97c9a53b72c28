/**
 * backend/routes/events.js: the calendar's events and their mention
 * rows. Visibility is decided per joined row of `events LEFT JOIN
 * event_mentions`; create, update and delete run in one transaction
 * each; every change is announced on the `user-<id>` socket event of
 * the users concerned.
 *
 * Times: an ISO 8601 request field is the instant it names, in
 * milliseconds. `format(t, 'yyyy-MM-dd HH:mm:ss')` keeps whole seconds,
 * and two such fixed-width texts compare as the instants they name, so
 * a DATETIME column holds `Seconds(t)`.
 */
module Events {
  import opened Common
  import opened Schema
  import opened AuthMiddleware

  type EventId = nat

  /** A row of `events`; `start` and `end` in whole seconds (DATETIME). */
  datatype EventRow = EventRow(
    id: EventId, title: string, description: string, start: nat, end: nat, isPrivate: bool, creator: UserId)

  /** A row of `event_mentions`: no UNIQUE key, so a user may be mentioned twice. */
  datatype Mention = Mention(event: EventId, user: UserId)

  /**
   * The request body: `start`/`end` are None when absent or not ISO 8601,
   * `isPrivate` None when absent or not a boolean, `mentions` None when
   * absent; `mentionsArray` is false when `mentions` is present but not an
   * array, which `isArray` refuses with 400.
   */
  datatype EventInput = EventInput(
    title: Option<string>, description: Option<string>, start: Option<nat>, end: Option<nat>,
    isPrivate: Option<bool>, mentions: Option<seq<UserId>>, mentionsArray: bool)

  /** One element of GET /'s answer: the event and the mentions its joined rows aggregate. */
  datatype EventView = EventView(event: EventRow, mentions: seq<UserId>)

  function Seconds(ms: nat): nat {
    ms / 1000
  }

  /** The express-validator chain shared by POST / and PUT /:id (lines 39-46, 149-156). */
  predicate ValidInput(p: EventInput) {
    p.title.Some? && Trim(p.title.value) != "" && p.start.Some? && p.end.Some? && p.isPrivate.Some? && p.mentionsArray
  }

  /** The trimmed title fits its VARCHAR(255) column and a supplied description its TEXT column. */
  predicate EventTextFits(p: EventInput)
    requires p.title.Some?
  {
    Fits(Trim(p.title.value), TextWidth) && (p.description.Some? ==> FitsText(Trim(p.description.value)))
  }

  // ---------------------------------------------------------------------
  // Visibility and the GET / listing (lines 8-37)
  // ---------------------------------------------------------------------

  /** The users the mention rows of event `e` name, in row order. */
  function MentionedIn(rows: seq<Mention>, e: EventId): (r: seq<UserId>)
    ensures forall u :: u in r <==> Mention(e, u) in rows
  {
    if rows == [] then []
    else (if rows[0].event == e then [rows[0].user] else []) + MentionedIn(rows[1..], e)
  }

  /** The WHERE clause for one joined row, with `em.user_id = u` (None for the LEFT JOIN's NULL row). */
  predicate RowPasses(e: EventRow, mentioned: Option<UserId>, me: UserId) {
    e.creator == me || !e.isPrivate || (e.isPrivate && mentioned == Some(me))
  }

  /** An event is listed iff one of its joined rows passes the WHERE clause. */
  predicate Visible(rows: seq<Mention>, e: EventRow, me: UserId) {
    e.creator == me || !e.isPrivate || Mention(e.id, me) in rows
  }

  lemma VisibleIffSomeRowPasses(rows: seq<Mention>, e: EventRow, me: UserId)
    ensures Visible(rows, e, me) <==>
      (MentionedIn(rows, e.id) == [] && RowPasses(e, None, me))
      || (exists u :: u in MentionedIn(rows, e.id) && RowPasses(e, Some(u), me))
  {
    if Visible(rows, e, me) && MentionedIn(rows, e.id) != [] {
      var u := MentionedIn(rows, e.id)[0];
      if Mention(e.id, me) in rows {
        assert me in MentionedIn(rows, e.id) && RowPasses(e, Some(me), me);
      } else {
        assert RowPasses(e, Some(u), me);
      }
    }
  }

  /** `JSON_ARRAYAGG(DISTINCT em.user_id)` over the rows that passed, NULLs filtered out. */
  function ViewMentions(rows: seq<Mention>, e: EventRow, me: UserId): seq<UserId> {
    var passing := Filter(MentionedIn(rows, e.id), (u: UserId) => RowPasses(e, Some(u), me));
    Dedup(passing)
  }

  /** The creator and everybody on a public event see every mentioned user, each once. */
  lemma OwnOrPublicViewShowsAllMentions(rows: seq<Mention>, e: EventRow, me: UserId)
    requires e.creator == me || !e.isPrivate
    ensures NoDup(ViewMentions(rows, e, me))
    ensures forall u :: u in ViewMentions(rows, e, me) <==> Mention(e.id, u) in rows
  {
  }

  /** A private event reached only through a mention lists the viewer as its only mention. */
  lemma MentionedViewShowsOnlyViewer(rows: seq<Mention>, e: EventRow, me: UserId)
    requires e.isPrivate && e.creator != me && Mention(e.id, me) in rows
    ensures ViewMentions(rows, e, me) == [me]
  {
    var passing := Filter(MentionedIn(rows, e.id), (u: UserId) => RowPasses(e, Some(u), me));
    var d := Dedup(passing);
    assert me in passing;
    assert (set x: UserId | x in d) == {me};
    DistinctCard<UserId>(d);
    assert d[0] in (set x: UserId | x in d);
  }

  predicate SortedByStart(s: seq<EventView>) {
    forall i, j :: 0 <= i < j < |s| ==> s[i].event.start <= s[j].event.start
  }

  function InsertByStart(x: EventView, s: seq<EventView>): (r: seq<EventView>)
    requires SortedByStart(s)
    ensures SortedByStart(r)
    ensures multiset(r) == multiset(s) + multiset{x}
    ensures forall y :: y in r <==> y in s || y == x
  {
    if s == [] then [x]
    else if x.event.start <= s[0].event.start then
      StartsFirst(x, s);
      [x] + s
    else
      StartsTailSorted(s);
      var rest := InsertByStart(x, s[1..]);
      StartsLater(x, s, rest);
      [s[0]] + rest
  }

  lemma StartsTailSorted(s: seq<EventView>)
    requires SortedByStart(s) && s != []
    ensures SortedByStart(s[1..])
  {
    var t := s[1..];
    forall i, j | 0 <= i < j < |t| ensures t[i].event.start <= t[j].event.start {
      assert t[i] == s[i + 1] && t[j] == s[j + 1];
    }
  }

  /** A view starting no later than the head goes first. */
  lemma StartsFirst(x: EventView, s: seq<EventView>)
    requires SortedByStart(s) && s != [] && x.event.start <= s[0].event.start
    ensures SortedByStart([x] + s)
    ensures multiset([x] + s) == multiset(s) + multiset{x}
    ensures forall y :: y in [x] + s <==> y in s || y == x
  {
    forall y | y in s ensures x.event.start <= y.event.start {
      var j :| 0 <= j < |s| && s[j] == y;
      if j > 0 { assert s[0].event.start <= s[j].event.start; }
    }
    SortedCons(x, s);
  }

  /** A view starting after the head goes into the tail. */
  lemma StartsLater(x: EventView, s: seq<EventView>, rest: seq<EventView>)
    requires SortedByStart(s) && s != [] && s[0].event.start < x.event.start
    requires SortedByStart(rest) && multiset(rest) == multiset(s[1..]) + multiset{x}
    requires forall y :: y in rest <==> y in s[1..] || y == x
    ensures SortedByStart([s[0]] + rest)
    ensures multiset([s[0]] + rest) == multiset(s) + multiset{x}
    ensures forall y :: y in [s[0]] + rest <==> y in s || y == x
  {
    assert s == [s[0]] + s[1..];
    forall y | y in rest ensures s[0].event.start <= y.event.start {
      if y != x {
        var j :| 0 <= j < |s[1..]| && s[1..][j] == y;
        assert s[j + 1] == y;
      }
    }
    SortedCons(s[0], rest);
  }

  lemma SortedCons(x: EventView, s: seq<EventView>)
    requires SortedByStart(s)
    requires forall y :: y in s ==> x.event.start <= y.event.start
    ensures SortedByStart([x] + s)
  {
    var r := [x] + s;
    forall i, j | 0 <= i < j < |r| ensures r[i].event.start <= r[j].event.start {
      assert r[j] == s[j - 1];
      if i > 0 {
        assert r[i] == s[i - 1];
      }
    }
  }

  /** `ORDER BY e.start ASC`: a permutation sorted by start (the order among equal starts is the model's choice). */
  function SortByStart(s: seq<EventView>): (r: seq<EventView>)
    ensures SortedByStart(r)
    ensures multiset(r) == multiset(s)
  {
    if s == [] then []
    else
      assert s == [s[0]] + s[1..];
      InsertByStart(s[0], SortByStart(s[1..]))
  }

  /** The visible events in table order, each with its aggregated mentions. */
  function VisibleViews(events: seq<EventRow>, rows: seq<Mention>, me: UserId): (r: seq<EventView>)
    ensures forall v :: v in r <==> v.event in events && Visible(rows, v.event, me) && v.mentions == ViewMentions(rows, v.event, me)
  {
    if events == [] then []
    else
      var e := events[0];
      (if Visible(rows, e, me) then [EventView(e, ViewMentions(rows, e, me))] else []) + VisibleViews(events[1..], rows, me)
  }

  function Listing(events: seq<EventRow>, rows: seq<Mention>, me: UserId): seq<EventView> {
    SortByStart(VisibleViews(events, rows, me))
  }

  /** GET / lists exactly the events the caller may see, earliest start first, with the mentions they may see. */
  lemma ListingIsVisibleSortedByStart(events: seq<EventRow>, rows: seq<Mention>, me: UserId)
    ensures SortedByStart(Listing(events, rows, me))
    ensures forall v :: v in Listing(events, rows, me) <==>
      v.event in events && Visible(rows, v.event, me) && v.mentions == ViewMentions(rows, v.event, me)
  {
    var views := VisibleViews(events, rows, me);
    var r := Listing(events, rows, me);
    forall v ensures v in r <==> v in views {
      assert v in r <==> v in multiset(r);
      assert v in views <==> v in multiset(views);
    }
  }

  // ---------------------------------------------------------------------
  // Writes
  // ---------------------------------------------------------------------

  function MentionRows(e: EventId, users: seq<UserId>): (r: seq<Mention>)
    ensures |r| == |users|
    ensures forall k :: 0 <= k < |r| ==> r[k] == Mention(e, users[k])
  {
    seq(|users|, k requires 0 <= k < |users| => Mention(e, users[k]))
  }

  /** `DELETE FROM event_mentions WHERE event_id = ?` */
  function WithoutEvent(rows: seq<Mention>, e: EventId): (r: seq<Mention>)
    ensures forall m :: m in r <==> m in rows && m.event != e
  {
    if rows == [] then []
    else (if rows[0].event != e then [rows[0]] else []) + WithoutEvent(rows[1..], e)
  }

  /** The notification POST / inserts for every distinct mentioned user (lines 108-121). */
  function MentionNotices(users: seq<UserId>, e: EventId, author: string): (r: seq<Notification>)
    ensures |r| == |users|
    ensures forall k :: 0 <= k < |r| ==>
      r[k] == Notification(users[k], "event", "New Event", author + " mentioned you in an event", Some(e), false)
  {
    seq(|users|, k requires 0 <= k < |users| =>
      Notification(users[k], "event", "New Event", author + " mentioned you in an event", Some(e), false))
  }

  /** The row PUT /:id writes: title, start, end and isPrivate always, the description only when supplied. */
  function Revised(e: EventRow, p: EventInput): (r: EventRow)
    requires ValidInput(p)
    ensures r.id == e.id && r.creator == e.creator
    ensures r.title == Trim(p.title.value) && r.isPrivate == p.isPrivate.value
    ensures r.start == Seconds(p.start.value) && r.end == Seconds(p.end.value)
    ensures r.description == if p.description.Some? then Trim(p.description.value) else e.description
  {
    e.(title := Trim(p.title.value),
       description := if p.description.Some? then Trim(p.description.value) else e.description,
       start := Seconds(p.start.value), end := Seconds(p.end.value), isPrivate := p.isPrivate.value)
  }

  /**
   * POST / rejects an end in the same second as the start; PUT /:id
   * compares milliseconds, so it accepts an end 500 ms after the start
   * in the same second and stores an event that ends when it starts.
   */
  lemma UpdateCanStoreEmptySpan(e: EventRow)
    ensures var p := EventInput(Some("Standup"), None, Some(1200), Some(1700), Some(false), None, true);
      ValidInput(p) && p.start.value < p.end.value
      && Seconds(p.start.value) >= Seconds(p.end.value)
      && Revised(e, p).start == Revised(e, p).end
  {
    assert Seconds(1200) == 1 && Seconds(1700) == 1;
    assert Trim("Standup") != "" by {
      assert !IsSpace("Standup"[0]);
    }
  }

  predicate Accessible(users: map<UserId, UserRow>, m: seq<UserId>) {
    forall k :: 0 <= k < |m| ==> m[k] in users
  }

  function EventIds(events: seq<EventRow>): set<EventId> {
    set k | 0 <= k < |events| :: events[k].id
  }

  predicate IdsIncreasing(events: seq<EventRow>) {
    forall i, j :: 0 <= i < j < |events| ==> events[i].id < events[j].id
  }

  function FindEvent(events: seq<EventRow>, id: EventId): (r: Option<nat>)
    ensures r.Some? ==> r.value < |events| && events[r.value].id == id
    ensures r.None? <==> id !in EventIds(events)
  {
    if events == [] then None
    else if events[|events| - 1].id == id then Some(|events| - 1)
    else
      var r := FindEvent(events[..|events| - 1], id);
      assert EventIds(events) == EventIds(events[..|events| - 1]) + {events[|events| - 1].id};
      r
  }

  function WithoutRow(events: seq<EventRow>, id: EventId): (r: seq<EventRow>)
    ensures forall e :: e in r <==> e in events && e.id != id
  {
    if events == [] then []
    else (if events[0].id != id then [events[0]] else []) + WithoutRow(events[1..], id)
  }

  /** Auto-increment ids in table order, and the foreign keys to `users`. */
  ghost predicate Consistent(users: map<UserId, UserRow>, events: seq<EventRow>, nextEvent: EventId, mentions: seq<Mention>) {
    && 1 <= nextEvent
    && IdsIncreasing(events)
    && (forall k :: 0 <= k < |events| ==> 1 <= events[k].id < nextEvent && events[k].creator in users)
    && (forall m :: m in mentions ==> m.user in users)
  }

  /** Deleting an event and its mention rows keeps the tables consistent. */
  lemma RemovalConsistent(users: map<UserId, UserRow>, events: seq<EventRow>, nextEvent: EventId, mentions: seq<Mention>, id: EventId)
    requires Consistent(users, events, nextEvent, mentions)
    ensures Consistent(users, WithoutRow(events, id), nextEvent, WithoutEvent(mentions, id))
  {
    WithoutRowKeepsOrder(events, id);
    var after := WithoutRow(events, id);
    forall i | 0 <= i < |after| ensures 1 <= after[i].id < nextEvent && after[i].creator in users {
      assert after[i] in events;
    }
  }

  /** Appending an event under the next id, by a known creator, with mentions of known users keeps the tables consistent. */
  lemma CreationConsistent(users: map<UserId, UserRow>, events: seq<EventRow>, nextEvent: EventId, mentions: seq<Mention>,
                           row: EventRow, m: seq<UserId>)
    requires Consistent(users, events, nextEvent, mentions)
    requires row.id == nextEvent && row.creator in users && Accessible(users, m)
    ensures Consistent(users, events + [row], nextEvent + 1, mentions + MentionRows(nextEvent, m))
  {
    var added := MentionRows(nextEvent, m);
    forall x | x in mentions + added ensures x.user in users {
      if x !in mentions {
        var j :| 0 <= j < |added| && added[j] == x;
      }
    }
  }

  /**
   * Revising one event in place and replacing the mention rows with rows
   * that name known users keeps the tables consistent.
   */
  lemma RevisionConsistent(users: map<UserId, UserRow>, events: seq<EventRow>, nextEvent: EventId, mentions: seq<Mention>,
                           k: nat, p: EventInput, newMentions: seq<Mention>)
    requires Consistent(users, events, nextEvent, mentions)
    requires k < |events| && ValidInput(p)
    requires newMentions == mentions || (p.mentions.Some? && Accessible(users, p.mentions.value)
      && newMentions == WithoutEvent(mentions, events[k].id) + MentionRows(events[k].id, p.mentions.value))
    ensures Consistent(users, events[k := Revised(events[k], p)], nextEvent, newMentions)
  {
    var after := events[k := Revised(events[k], p)];
    assert forall i :: 0 <= i < |after| ==> after[i].id == events[i].id && after[i].creator == events[i].creator;
    if newMentions != mentions {
      var added := MentionRows(events[k].id, p.mentions.value);
      forall m | m in newMentions ensures m.user in users {
        if m !in WithoutEvent(mentions, events[k].id) {
          var j :| 0 <= j < |added| && added[j] == m;
        }
      }
    }
  }

  /**
   * The answer PUT /:id gives before it commits (lines 149-247), for the
   * route parameter `param`: Ok when the transaction goes through. The
   * SELECT finds the row whose id the parameter's MariaDB reading equals;
   * the UPDATE fails in strict mode when that reading truncates the
   * parameter or the title or description is too long for its column, and a mention of
   * an unknown user breaks the foreign key.
   */
  function UpdateVerdict(users: map<UserId, UserRow>, events: seq<EventRow>, me: CurrentUser, param: string, p: EventInput): Response<()> {
    var key := SqlKey(param);
    if !ValidInput(p) then BadRequest
    else if key.None? || FindEvent(events, key.value).None? then NotFound
    else if events[FindEvent(events, key.value).value].creator != me.id && !me.isAdmin then Forbidden
    else if p.start.value >= p.end.value then BadRequest
    else if SqlNumber(param).truncated || !EventTextFits(p) then ServerError
    else if p.mentions.Some? && !Accessible(users, p.mentions.value) then ServerError
    else Ok(())
  }

  class EventBook {
    const users: map<UserId, UserRow>
    var events: seq<EventRow>
    var nextEvent: EventId
    var mentions: seq<Mention>
    var notifications: seq<Notification>

    ghost predicate Valid()
      reads this
    {
      Consistent(users, events, nextEvent, mentions)
    }

    constructor (users: map<UserId, UserRow>)
      ensures Valid() && this.users == users && events == [] && mentions == [] && notifications == []
    {
      this.users := users;
      events := [];
      nextEvent := 1;
      mentions := [];
      notifications := [];
    }

    /** GET / (lines 8-37). */
    function List(me: CurrentUser): (r: seq<EventView>)
      reads this
      ensures SortedByStart(r)
      ensures forall v :: v in r <==>
        v.event in events && Visible(mentions, v.event, me.id) && v.mentions == ViewMentions(mentions, v.event, me.id)
    {
      ListingIsVisibleSortedByStart(events, mentions, me.id);
      Listing(events, mentions, me.id)
    }

    /**
     * POST / (lines 39-147): 400 on invalid fields or an end not after the
     * start (to the second); a title or description longer than its column, or a mention
     * of an unknown user, which breaks the foreign key, rolls the event
     * back and answers 500; otherwise the
     * event, one mention row per listed id, and one 'event' notification
     * and one `user-<id>` emit per distinct mentioned id.
     */
    method Create(me: CurrentUser, p: EventInput) returns (r: Response<EventId>, notified: seq<UserId>)
      requires Valid() && me.id in users
      modifies this`events, this`nextEvent, this`mentions, this`notifications
      ensures Valid()
      ensures r.BadRequest? <==> !ValidInput(p) || Seconds(p.start.value) >= Seconds(p.end.value)
      ensures r.ServerError? <==>
        !r.BadRequest? && (!EventTextFits(p) || !Accessible(users, p.mentions.GetOr([])))
      ensures r.BadRequest? || r.ServerError? || r.Created?
      ensures !r.Created? ==> notified == [] && unchanged(this)
      ensures r.Created? ==>
        var id := old(nextEvent);
        var m := p.mentions.GetOr([]);
        var desc := if p.description.Some? then Trim(p.description.value) else "";
        && r.value == id && nextEvent == id + 1
        && events == old(events) + [EventRow(id, Trim(p.title.value), desc, Seconds(p.start.value), Seconds(p.end.value), p.isPrivate.value, me.id)]
        && mentions == old(mentions) + MentionRows(id, m)
        && notified == Dedup(m)
        && notifications == old(notifications) + MentionNotices(notified, id, me.name)
      ensures r.Created? ==> NoDup(notified) && forall u :: u in notified <==> u in p.mentions.GetOr([])
    {
      if !ValidInput(p) || Seconds(p.start.value) >= Seconds(p.end.value) {
        return BadRequest, [];
      }
      var m := p.mentions.GetOr([]);
      if !EventTextFits(p) || !Accessible(users, m) {
        return ServerError, [];
      }
      var id := nextEvent;
      var desc := if p.description.Some? then Trim(p.description.value) else "";
      var row := EventRow(id, Trim(p.title.value), desc, Seconds(p.start.value), Seconds(p.end.value), p.isPrivate.value, me.id);
      notified := Dedup(m);
      var notices := MentionNotices(notified, id, me.name);
      Insert(row, m, notices);
      r := Created(id);
    }

    /** The writes of a successful POST /: the event row, its mention rows and the notices. */
    method Insert(row: EventRow, m: seq<UserId>, notices: seq<Notification>)
      requires Valid() && row.id == nextEvent && row.creator in users && Accessible(users, m)
      modifies this`events, this`nextEvent, this`mentions, this`notifications
      ensures Valid()
      ensures events == old(events) + [row] && nextEvent == old(nextEvent) + 1
      ensures mentions == old(mentions) + MentionRows(row.id, m) && notifications == old(notifications) + notices
    {
      CreationConsistent(users, events, nextEvent, mentions, row, m);
      events, nextEvent, mentions, notifications := events + [row], nextEvent + 1, mentions + MentionRows(row.id, m), notifications + notices;
    }

    /**
     * PUT /:id (lines 149-297): 400 on invalid fields, 404 when the
     * parameter's MariaDB reading names no event, 403 unless the caller
     * created the event or is a site admin, 400 when the end is not after
     * the start (to the millisecond); the UPDATE answers 500 and rolls back
     * when it truncates the parameter, the title or the description, and so do supplied
     * mentions naming an unknown user. Otherwise supplied mentions replace
     * the event's mention rows, and the caller and the new (or kept)
     * mentions hear `update-event`, each once.
     */
    method Update(me: CurrentUser, param: string, p: EventInput) returns (r: Response<()>, notified: seq<UserId>)
      requires Valid()
      modifies this`events, this`mentions
      ensures Valid()
      ensures var key := SqlKey(param);
        var found := key.Some? && key.value in EventIds(old(events));
        var allowed := found && (old(events)[old(FindEvent(events, key.value)).value].creator == me.id || me.isAdmin);
        && (r.BadRequest? <==> !ValidInput(p) || (allowed && p.start.value >= p.end.value))
        && (r.NotFound? <==> ValidInput(p) && !found)
        && (r.Forbidden? <==> ValidInput(p) && found && !allowed)
        && (r.ServerError? <==>
              && ValidInput(p) && allowed && p.start.value < p.end.value
              && (|| SqlNumber(param).truncated || !EventTextFits(p)
                  || (p.mentions.Some? && !Accessible(users, p.mentions.value))))
      ensures r.BadRequest? || r.NotFound? || r.Forbidden? || r.ServerError? || r.Ok?
      ensures !r.Ok? ==> notified == [] && unchanged(this)
      ensures r.Ok? ==>
        var id := SqlKey(param).value;
        var k := old(FindEvent(events, id)).value;
        && (old(events)[k].creator == me.id || me.isAdmin)
        && events == old(events)[k := Revised(old(events)[k], p)]
        && (p.mentions.None? ==> mentions == old(mentions))
        && (p.mentions.Some? ==>
              (Accessible(users, p.mentions.value) && mentions == WithoutEvent(old(mentions), id) + MentionRows(id, p.mentions.value)))
        && (p.mentions.Some? ==> MentionedIn(mentions, id) == p.mentions.value)
        && notified == Dedup([me.id] + (if p.mentions.Some? then p.mentions.value else MentionedIn(mentions, id)))
    {
      notified := [];
      r := UpdateVerdict(users, events, me, param, p);
      if !r.Ok? {
        return r, [];
      }
      var id := SqlKey(param).value;
      var k := FindEvent(events, id).value;
      var newMentions := mentions;
      if p.mentions.Some? {
        ReplacedMentions(mentions, id, p.mentions.value);
        newMentions := WithoutEvent(mentions, id) + MentionRows(id, p.mentions.value);
      }
      ghost var e0, m0 := events, mentions;
      assert Consistent(users, e0, nextEvent, m0);
      events, mentions := events[k := Revised(events[k], p)], newMentions;
      assert Consistent(users, e0, nextEvent, m0);
      RevisionConsistent(users, e0, nextEvent, m0, k, p, mentions);
      notified := Dedup([me.id] + (if p.mentions.Some? then p.mentions.value else MentionedIn(mentions, id)));
      r := Ok(());
    }

    /**
     * DELETE /:id (lines 299-361): 404 when the parameter's MariaDB reading
     * names no event, 403 unless the caller created the event or is a site
     * admin, 500 with nothing deleted when the DELETE truncates the
     * parameter; otherwise the mention rows and the event go, and the
     * mentioned users and the creator (`UNION`, so each once, in an order
     * the model leaves open) hear `delete-event`.
     */
    method Delete(me: CurrentUser, param: string) returns (r: Response<()>, notified: seq<UserId>)
      requires Valid()
      modifies this`events, this`mentions
      ensures Valid()
      ensures var key := SqlKey(param);
        var found := key.Some? && key.value in EventIds(old(events));
        var allowed := found && (old(events)[old(FindEvent(events, key.value)).value].creator == me.id || me.isAdmin);
        && (r.NotFound? <==> !found)
        && (r.Forbidden? <==> found && !allowed)
        && (r.ServerError? <==> allowed && SqlNumber(param).truncated)
      ensures r.NotFound? || r.Forbidden? || r.ServerError? || r.Ok?
      ensures !r.Ok? ==> notified == [] && unchanged(this)
      ensures r.Ok? ==>
        var id := SqlKey(param).value;
        var k := old(FindEvent(events, id)).value;
        && (old(events)[k].creator == me.id || me.isAdmin)
        && events == WithoutRow(old(events), id)
        && mentions == WithoutEvent(old(mentions), id)
        && NoDup(notified)
        && forall u :: u in notified <==> Mention(id, u) in old(mentions) || u == old(events)[k].creator
    {
      notified := [];
      var key := SqlKey(param);
      if key.None? {
        return NotFound, [];
      }
      var id := key.value;
      var found := FindEvent(events, id);
      if found.None? {
        return NotFound, [];
      }
      var k := found.value;
      var creator := events[k].creator;
      if creator != me.id && !me.isAdmin {
        return Forbidden, [];
      }
      if SqlNumber(param).truncated {
        return ServerError, [];
      }
      var targets := (set u | u in MentionedIn(mentions, id)) + {creator};
      assert forall u :: u in targets <==> Mention(id, u) in mentions || u == creator;
      notified := Enumerate(targets);
      Remove(id);
      r := Ok(());
    }

    /** `DELETE FROM event_mentions WHERE event_id = ?`, then `DELETE FROM events WHERE id = ?`. */
    method Remove(id: EventId)
      requires Valid()
      modifies this`events, this`mentions
      ensures Valid()
      ensures events == WithoutRow(old(events), id) && mentions == WithoutEvent(old(mentions), id)
    {
      RemovalConsistent(users, events, nextEvent, mentions, id);
      events, mentions := WithoutRow(events, id), WithoutEvent(mentions, id);
    }

    /**
     * GET /users/search (lines 363-385): [] for a missing query or one
     * shorter than 2 characters; otherwise the active users other than the
     * caller whose name or email contains it, each once.
     */
    method Search(me: CurrentUser, query: Option<string>) returns (found: seq<UserId>)
      ensures query.None? || |query.value| < 2 ==> found == []
      ensures NoDup(found)
      ensures query.Some? && |query.value| >= 2 ==>
        forall u :: u in found <==> u in users && u != me.id && users[u].isActive && SearchHit(users[u], query.value)
    {
      if query.None? || |query.value| < 2 {
        return [];
      }
      found := Enumerate(set u | u in users && u != me.id && users[u].isActive && SearchHit(users[u], query.value));
    }
  }

  lemma HeadBelowTail(events: seq<EventRow>)
    requires IdsIncreasing(events) && events != []
    ensures IdsIncreasing(events[1..])
    ensures forall y :: y in events[1..] ==> events[0].id < y.id
  {
    forall y | y in events[1..] ensures events[0].id < y.id {
      var t :| 0 <= t < |events[1..]| && events[1..][t] == y;
      assert events[t + 1] == y;
    }
  }

  lemma IdsCons(x: EventRow, s: seq<EventRow>)
    requires IdsIncreasing(s)
    requires forall y :: y in s ==> x.id < y.id
    ensures IdsIncreasing([x] + s)
  {
    var r := [x] + s;
    forall i, j | 0 <= i < j < |r| ensures r[i].id < r[j].id {
      assert r[j] == s[j - 1];
      if i > 0 {
        assert r[i] == s[i - 1];
      }
    }
  }

  /** Removing a row keeps the rest in table order. */
  lemma {:induction false} WithoutRowKeepsOrder(events: seq<EventRow>, id: EventId)
    requires IdsIncreasing(events)
    ensures IdsIncreasing(WithoutRow(events, id))
  {
    if events != [] {
      HeadBelowTail(events);
      WithoutRowKeepsOrder(events[1..], id);
      if events[0].id != id {
        IdsCons(events[0], WithoutRow(events[1..], id));
      }
    }
  }

  lemma {:induction false} MentionedInConcat(a: seq<Mention>, b: seq<Mention>, e: EventId)
    ensures MentionedIn(a + b, e) == MentionedIn(a, e) + MentionedIn(b, e)
  {
    if a != [] {
      assert (a + b)[1..] == a[1..] + b;
      MentionedInConcat(a[1..], b, e);
    } else {
      assert a + b == b;
    }
  }

  lemma {:induction false} MentionedInRows(e: EventId, m: seq<UserId>)
    ensures MentionedIn(MentionRows(e, m), e) == m
  {
    if m != [] {
      assert MentionRows(e, m)[1..] == MentionRows(e, m[1..]);
      MentionedInRows(e, m[1..]);
    }
  }

  lemma {:induction false} MentionedInWithout(rows: seq<Mention>, e: EventId)
    ensures MentionedIn(WithoutEvent(rows, e), e) == []
  {
    if rows != [] {
      MentionedInWithout(rows[1..], e);
      MentionedInConcat(if rows[0].event != e then [rows[0]] else [], WithoutEvent(rows[1..], e), e);
    }
  }

  /** After PUT /:id with mentions, the event's mention rows name exactly the supplied list, in order. */
  lemma ReplacedMentions(rows: seq<Mention>, e: EventId, m: seq<UserId>)
    ensures MentionedIn(WithoutEvent(rows, e) + MentionRows(e, m), e) == m
  {
    MentionedInConcat(WithoutEvent(rows, e), MentionRows(e, m), e);
    MentionedInWithout(rows, e);
    MentionedInRows(e, m);
  }

  /** Whoever is mentioned on a new event, and its creator, can see it. */
  lemma NewEventReachesMentioned(events: seq<EventRow>, rows: seq<Mention>, e: EventRow, m: seq<UserId>, u: UserId)
    requires u in m || u == e.creator
    ensures Visible(rows + MentionRows(e.id, m), e, u)
  {
    if u in m && u != e.creator {
      var k :| 0 <= k < |m| && m[k] == u;
      assert (rows + MentionRows(e.id, m))[|rows| + k] == Mention(e.id, u);
    }
  }
}
