/**
 * backend/routes/notifications.js: the caller's notifications, newest
 * first, their unread count, and the three statements that change them
 * (mark one read, mark all read, delete one). Every statement is scoped
 * by `user_id = req.user.id`.
 *
 * The table is held in insertion order: ids grow with each INSERT and the
 * clock never goes back, so the row order is also `created_at` order.
 * A route parameter is compared with the INT `id` column, which makes
 * MariaDB read the text as a number (`Common.SqlNumber`); in strict mode an
 * UPDATE or DELETE whose parameter that reading truncates fails with 500.
 */
module Notifications {
  import opened Common
  import opened Schema
  import opened AuthMiddleware

  type NotificationId = nat

  /** One row of `notifications` with its key and `created_at`. */
  datatype StoredNotification = StoredNotification(id: NotificationId, note: Notification, createdAt: nat)

  /** Rows in insertion order: ids strictly increasing, creation times never decreasing. */
  predicate Chronological(rows: seq<StoredNotification>) {
    forall i, j :: 0 <= i < j < |rows| ==> Precedes(rows[i], rows[j])
  }

  predicate Precedes(a: StoredNotification, b: StoredNotification) {
    a.id < b.id && a.createdAt <= b.createdAt
  }

  /** The first row of a chronological table precedes every later one, and the rest is chronological. */
  lemma ChronologicalTail(rows: seq<StoredNotification>)
    requires Chronological(rows) && rows != []
    ensures Chronological(rows[1..])
    ensures forall x :: x in rows[1..] ==> Precedes(rows[0], x)
  {
    forall x | x in rows[1..] ensures Precedes(rows[0], x) {
      var j :| 1 <= j < |rows| && rows[j] == x;
    }
  }

  /** A row that precedes every row of a chronological table can be put in front of it. */
  lemma ChronologicalCons(h: StoredNotification, rest: seq<StoredNotification>)
    requires Chronological(rest)
    requires forall x :: x in rest ==> Precedes(h, x)
    ensures Chronological([h] + rest)
  {
    var r := [h] + rest;
    forall i, j | 0 <= i < j < |r| ensures Precedes(r[i], r[j]) {
      assert r[j] == rest[j - 1];
      if i > 0 {
        assert r[i] == rest[i - 1];
      }
    }
  }

  /** The WHERE clause of GET /: `n.user_id = ?`, and `n.is_read = FALSE` with `unread_only=true`. */
  predicate Selected(me: UserId, unreadOnly: bool, row: StoredNotification) {
    row.note.user == me && (!unreadOnly || !row.note.isRead)
  }

  /** The selected rows, in table order. */
  function Matching(rows: seq<StoredNotification>, me: UserId, unreadOnly: bool): (r: seq<StoredNotification>)
    ensures |r| <= |rows|
    ensures forall x :: x in r <==> x in rows && Selected(me, unreadOnly, x)
    ensures Chronological(rows) ==> Chronological(r)
  {
    if rows == [] then []
    else
      var rest := Matching(rows[1..], me, unreadOnly);
      assert forall x :: x in rest ==> x in rows[1..];
      if Selected(me, unreadOnly, rows[0]) then
        assert Chronological(rows) ==> Chronological([rows[0]] + rest) by {
          if Chronological(rows) {
            ChronologicalTail(rows);
            ChronologicalCons(rows[0], rest);
          }
        }
        [rows[0]] + rest
      else
        assert Chronological(rows) ==> Chronological(rows[1..]) by {
          if Chronological(rows) {
            ChronologicalTail(rows);
          }
        }
        rest
  }

  /** `ORDER BY n.created_at DESC`, rows created in the same instant newest id first, then `LIMIT ? OFFSET ?`. */
  function Listing(rows: seq<StoredNotification>, me: UserId, unreadOnly: bool, limit: nat, offset: nat): seq<StoredNotification> {
    Slice(Reverse(Matching(rows, me, unreadOnly)), offset, limit)
  }

  /** Read backwards, a chronological table runs newest first. */
  lemma ReverseRunsNewestFirst(m: seq<StoredNotification>)
    requires Chronological(m)
    ensures forall i, j :: 0 <= i < j < |m| ==> Precedes(Reverse(m)[j], Reverse(m)[i])
  {
    var rev := Reverse(m);
    forall i, j | 0 <= i < j < |m| ensures Precedes(rev[j], rev[i]) {
      assert rev[i] == m[|m| - 1 - i] && rev[j] == m[|m| - 1 - j];
    }
  }

  /** A page holds only the caller's rows, unread ones with `unread_only`, newest first, at most `limit` of them. */
  lemma ListingShowsOnlyOwnNewestFirst(rows: seq<StoredNotification>, me: UserId, unreadOnly: bool, limit: nat, offset: nat)
    requires Chronological(rows)
    ensures var r := Listing(rows, me, unreadOnly, limit, offset);
      && |r| <= limit
      && (forall i :: 0 <= i < |r| ==> r[i] in rows && Selected(me, unreadOnly, r[i]))
      && (forall i, j :: 0 <= i < j < |r| ==> Precedes(r[j], r[i]))
  {
    var m := Matching(rows, me, unreadOnly);
    var rev := Reverse(m);
    var r := Slice(rev, offset, limit);
    assert forall x :: x in rev ==> x in m by {
      forall x | x in rev ensures x in m {
        var k :| 0 <= k < |rev| && rev[k] == x;
        assert x == m[|m| - 1 - k];
      }
    }
    forall i | 0 <= i < |r| ensures r[i] in rev {
      assert r[i] == rev[offset + i];
    }
    ReverseRunsNewestFirst(m);
    forall i, j | 0 <= i < j < |r| ensures Precedes(r[j], r[i]) {
      assert r[i] == rev[offset + i] && r[j] == rev[offset + j];
    }
  }

  /** The first page large enough to hold everything lists every selected row. */
  lemma FullPageListsEverything(rows: seq<StoredNotification>, me: UserId, unreadOnly: bool, limit: nat, x: StoredNotification)
    requires x in rows && Selected(me, unreadOnly, x)
    requires limit >= |rows|
    ensures x in Listing(rows, me, unreadOnly, limit, 0)
  {
    var m := Matching(rows, me, unreadOnly);
    var rev := Reverse(m);
    var k :| 0 <= k < |m| && m[k] == x;
    assert rev[|m| - 1 - k] == x;
    assert Slice(rev, 0, limit) == rev;
  }

  /** `SELECT COUNT(*) ... WHERE user_id = ? AND is_read = FALSE` */
  function UnreadCount(rows: seq<StoredNotification>, me: UserId): nat {
    if rows == [] then 0
    else (if Selected(me, true, rows[0]) then 1 else 0) + UnreadCount(rows[1..], me)
  }

  /** The count equals the number of rows the unread-only listing selects. */
  lemma {:induction false} UnreadCountIsUnreadListing(rows: seq<StoredNotification>, me: UserId)
    ensures UnreadCount(rows, me) == |Matching(rows, me, true)|
  {
    if rows != [] {
      UnreadCountIsUnreadListing(rows[1..], me);
    }
  }

  predicate Targets(me: UserId, id: NotificationId, row: StoredNotification) {
    row.id == id && row.note.user == me
  }

  predicate Owns(rows: seq<StoredNotification>, me: UserId, id: NotificationId) {
    exists k :: 0 <= k < |rows| && Targets(me, id, rows[k])
  }

  /** `UPDATE notifications SET is_read = TRUE WHERE id = ? AND user_id = ?` */
  function MarkedRead(rows: seq<StoredNotification>, me: UserId, id: NotificationId): (r: seq<StoredNotification>)
    ensures |r| == |rows|
    ensures forall k :: 0 <= k < |rows| ==>
      r[k] == if Targets(me, id, rows[k]) then rows[k].(note := rows[k].note.(isRead := true)) else rows[k]
  {
    if rows == [] then []
    else
      var head := if Targets(me, id, rows[0]) then rows[0].(note := rows[0].note.(isRead := true)) else rows[0];
      [head] + MarkedRead(rows[1..], me, id)
  }

  /** `UPDATE notifications SET is_read = TRUE WHERE user_id = ? AND is_read = FALSE` */
  function AllRead(rows: seq<StoredNotification>, me: UserId): (r: seq<StoredNotification>)
    ensures |r| == |rows|
    ensures forall k :: 0 <= k < |rows| ==>
      r[k] == if rows[k].note.user == me then rows[k].(note := rows[k].note.(isRead := true)) else rows[k]
  {
    if rows == [] then []
    else
      var head := if rows[0].note.user == me then rows[0].(note := rows[0].note.(isRead := true)) else rows[0];
      [head] + AllRead(rows[1..], me)
  }

  /** Marking everything read twice leaves the table as the first pass did. */
  lemma AllReadIdempotent(rows: seq<StoredNotification>, me: UserId)
    ensures AllRead(AllRead(rows, me), me) == AllRead(rows, me)
  {
    var once := AllRead(rows, me);
    var twice := AllRead(once, me);
    assert |twice| == |once|;
    forall k | 0 <= k < |once| ensures twice[k] == once[k] {
    }
  }

  /** After read-all the caller has nothing unread, and every other user's unread count is unchanged. */
  lemma {:induction false} AllReadCounts(rows: seq<StoredNotification>, me: UserId, other: UserId)
    requires other != me
    ensures UnreadCount(AllRead(rows, me), me) == 0
    ensures UnreadCount(AllRead(rows, me), other) == UnreadCount(rows, other)
  {
    if rows != [] {
      AllReadCounts(rows[1..], me, other);
      var r := AllRead(rows, me);
      assert r[1..] == AllRead(rows[1..], me);
    }
  }

  /** `DELETE FROM notifications WHERE id = ? AND user_id = ?` */
  function Deleted(rows: seq<StoredNotification>, me: UserId, id: NotificationId): (r: seq<StoredNotification>)
    ensures forall x :: x in r <==> x in rows && !Targets(me, id, x)
    ensures Chronological(rows) ==> Chronological(r)
  {
    if rows == [] then []
    else
      var rest := Deleted(rows[1..], me, id);
      assert forall x :: x in rest ==> x in rows[1..];
      if Targets(me, id, rows[0]) then
        assert Chronological(rows) ==> Chronological(rows[1..]) by {
          if Chronological(rows) {
            ChronologicalTail(rows);
          }
        }
        rest
      else
        assert Chronological(rows) ==> Chronological([rows[0]] + rest) by {
          if Chronological(rows) {
            ChronologicalTail(rows);
            ChronologicalCons(rows[0], rest);
          }
        }
        [rows[0]] + rest
  }

  class Inbox {
    var rows: seq<StoredNotification>
    var nextId: NotificationId
    var clock: nat

    ghost predicate Valid()
      reads this
    {
      && 1 <= nextId
      && Chronological(rows)
      && (forall k :: 0 <= k < |rows| ==> 1 <= rows[k].id < nextId && rows[k].createdAt <= clock)
    }

    constructor ()
      ensures Valid() && rows == [] && nextId == 1 && clock == 0
    {
      rows := [];
      nextId := 1;
      clock := 0;
    }

    method Tick()
      requires Valid()
      modifies this`clock
      ensures Valid() && clock == old(clock) + 1
    {
      clock := clock + 1;
    }

    /** The INSERT the other routes perform: the next id, stamped with the current time. */
    method Insert(n: Notification) returns (id: NotificationId)
      requires Valid()
      modifies this`rows, this`nextId
      ensures Valid()
      ensures id == old(nextId) && nextId == id + 1
      ensures rows == old(rows) + [StoredNotification(id, n, clock)]
    {
      id := nextId;
      var row := StoredNotification(id, n, clock);
      assert forall k :: 0 <= k < |rows| ==> Precedes(rows[k], row);
      rows := rows + [row];
      nextId := nextId + 1;
    }

    /**
     * GET / (lines 6-46): the filter applies only when the `unread_only`
     * query text is exactly "true"; `limit` and `offset` are what
     * `parseInt` made of the query (20 and 0 when absent, None for NaN),
     * and LIMIT and OFFSET refuse a negative or NaN value with 500.
     */
    function List(me: CurrentUser, unreadOnlyParam: Option<string>, limit: Option<int>, offset: Option<int>)
      : (r: Response<seq<StoredNotification>>)
      reads this
      requires Valid()
      ensures r.Ok? || r.ServerError?
      ensures r.ServerError? <==> !PageBounds(limit, offset)
      ensures r.Ok? ==> r.value == Listing(rows, me.id, unreadOnlyParam == Some("true"), limit.value as nat, offset.value as nat)
      ensures r.Ok? ==> |r.value| <= limit.value
      ensures r.Ok? ==> forall i :: 0 <= i < |r.value| ==> r.value[i] in rows && Selected(me.id, unreadOnlyParam == Some("true"), r.value[i])
      ensures r.Ok? ==> forall i, j :: 0 <= i < j < |r.value| ==> r.value[i].id > r.value[j].id && r.value[i].createdAt >= r.value[j].createdAt
      ensures r.Ok? && limit.value >= |rows| && offset.value == 0 ==>
        forall x :: x in rows && Selected(me.id, unreadOnlyParam == Some("true"), x) ==> x in r.value
    {
      if !PageBounds(limit, offset) then ServerError
      else
        var unreadOnly := unreadOnlyParam == Some("true");
        var lim, off := limit.value as nat, offset.value as nat;
        ListingShowsOnlyOwnNewestFirst(rows, me.id, unreadOnly, lim, off);
        assert lim >= |rows| && off == 0 ==>
          forall x :: x in rows && Selected(me.id, unreadOnly, x) ==> x in Listing(rows, me.id, unreadOnly, lim, off) by {
          if lim >= |rows| && off == 0 {
            forall x | x in rows && Selected(me.id, unreadOnly, x) ensures x in Listing(rows, me.id, unreadOnly, lim, 0) {
              FullPageListsEverything(rows, me.id, unreadOnly, lim, x);
            }
          }
        }
        Ok(Listing(rows, me.id, unreadOnly, lim, off))
    }

    /** GET /unread/count (lines 48-60). */
    function Unread(me: CurrentUser): (n: nat)
      reads this
      ensures n == |Matching(rows, me.id, true)|
      ensures n <= |rows|
    {
      UnreadCountIsUnreadListing(rows, me.id);
      UnreadCount(rows, me.id)
    }

    /**
     * PUT /:id/read (lines 62-80): 500 with nothing changed when the
     * UPDATE truncates the parameter; 404 unless a row whose id the
     * parameter's reading equals belongs to the caller; otherwise that row
     * is read. The connection reports matched rows, so an already-read row
     * answers 200 as well.
     */
    method MarkRead(me: CurrentUser, param: string) returns (r: Response<()>)
      requires Valid()
      modifies this`rows
      ensures Valid()
      ensures r.ServerError? <==> SqlNumber(param).truncated
      ensures var key := SqlKey(param);
        r.NotFound? <==> !SqlNumber(param).truncated && (key.None? || !Owns(old(rows), me.id, key.value))
      ensures r.Ok? || r.NotFound? || r.ServerError?
      ensures r.Ok? ==> rows == MarkedRead(old(rows), me.id, SqlKey(param).value)
      ensures !r.Ok? ==> rows == old(rows)
    {
      var key := SqlKey(param);
      if SqlNumber(param).truncated {
        return ServerError;
      }
      if key.None? {
        return NotFound;
      }
      var id := key.value;
      var found := Owns(rows, me.id, id);
      if !found {
        return NotFound;
      }
      var marked := MarkedRead(rows, me.id, id);
      assert forall k :: 0 <= k < |rows| ==> marked[k].id == rows[k].id && marked[k].createdAt == rows[k].createdAt;
      assert forall i, j :: 0 <= i < j < |marked| ==> Precedes(rows[i], rows[j]) ==> Precedes(marked[i], marked[j]);
      rows := marked;
      r := Ok(());
    }

    /** PUT /read-all (lines 82-94): every unread row of the caller becomes read, no one else's changes. */
    method ReadAll(me: CurrentUser) returns (r: Response<()>)
      requires Valid()
      modifies this`rows
      ensures Valid()
      ensures r.Ok?
      ensures rows == AllRead(old(rows), me.id)
    {
      var marked := AllRead(rows, me.id);
      assert forall k :: 0 <= k < |rows| ==> marked[k].id == rows[k].id && marked[k].createdAt == rows[k].createdAt;
      assert forall i, j :: 0 <= i < j < |marked| ==> Precedes(rows[i], rows[j]) ==> Precedes(marked[i], marked[j]);
      rows := marked;
      r := Ok(());
    }

    /**
     * DELETE /:id (lines 96-114): 500 with nothing deleted when the DELETE
     * truncates the parameter; 404 unless a row whose id the parameter's
     * reading equals belongs to the caller; otherwise exactly that row goes.
     */
    method Delete(me: CurrentUser, param: string) returns (r: Response<()>)
      requires Valid()
      modifies this`rows
      ensures Valid()
      ensures r.ServerError? <==> SqlNumber(param).truncated
      ensures var key := SqlKey(param);
        r.NotFound? <==> !SqlNumber(param).truncated && (key.None? || !Owns(old(rows), me.id, key.value))
      ensures r.Ok? || r.NotFound? || r.ServerError?
      ensures r.Ok? ==> rows == Deleted(old(rows), me.id, SqlKey(param).value)
      ensures !r.Ok? ==> rows == old(rows)
    {
      var key := SqlKey(param);
      if SqlNumber(param).truncated {
        return ServerError;
      }
      if key.None? {
        return NotFound;
      }
      var id := key.value;
      var found := Owns(rows, me.id, id);
      if !found {
        return NotFound;
      }
      var kept := Deleted(rows, me.id, id);
      forall k | 0 <= k < |kept| ensures 1 <= kept[k].id < nextId && kept[k].createdAt <= clock {
        assert kept[k] in rows;
      }
      rows := kept;
      r := Ok(());
    }

    /**
     * `DELETE /clear-all` runs as `DELETE /:id` with id "clear-all" (the
     * route of line 116 is never reached): the reading truncates the text,
     * so `Delete` answers 500, and even without strict mode the text reads
     * as 0, which no row has, so nothing is cleared.
     */
    lemma ClearAllClearsNothing(me: CurrentUser)
      requires Valid()
      ensures SqlNumber("clear-all").truncated
      ensures SqlKey("clear-all") == Some(0) && !Owns(rows, me.id, 0)
    {
      ReadingOfWord();
    }
  }

  /** Deleting a row the caller does not own leaves the table as it was. */
  lemma {:induction false} DeletedNothing(rows: seq<StoredNotification>, me: UserId, id: NotificationId)
    requires !Owns(rows, me, id)
    ensures Deleted(rows, me, id) == rows
  {
    if rows != [] {
      assert !Targets(me, id, rows[0]);
      assert forall k :: 0 <= k < |rows[1..]| ==> rows[1..][k] == rows[k + 1];
      DeletedNothing(rows[1..], me, id);
      assert rows == [rows[0]] + rows[1..];
    }
  }
}
