/**
 * The badges and drop-down lists of frontend/src/comps/Header.jsx. The
 * notifications are the first page of GET /notifications?limit=10
 * (backend/routes/notifications.js). The conversations are taken in the
 * shape GET /messages/conversations formats, the shape Header.jsx reads;
 * but frontend/src/App.jsx (lines 99-106) loads them from
 * `/messages?limit=10`, which no route serves, so the request fails, the
 * list stays empty and the message badge never shows.
 */
module Header {
  import opened Common
  import opened Schema
  import opened ConversationFormat
  import Notifications
  import MessagesClient

  function IsUnread(n: Notifications.StoredNotification): bool {
    !n.note.isRead
  }

  function HasUnread(c: ConversationEntry): bool {
    c.unreadCount > 0
  }

  /** `notifications.filter(n => !n.is_read).length` (line 11) */
  function NotificationBadge(list: seq<Notifications.StoredNotification>): nat {
    Count(list, IsUnread)
  }

  /** `messages.filter(m => m.unread_count > 0).length` (line 12) */
  function MessageBadge(list: seq<ConversationEntry>): nat {
    Count(list, HasUnread)
  }

  /** A badge is drawn only for a positive number (lines 63-67, 116-120). */
  predicate BadgeShown(n: nat) {
    n > 0
  }

  /** `.slice(0, 10)` (lines 77, 130): the first ten entries, or all of them when fewer. */
  function Listed<T>(s: seq<T>): (r: seq<T>)
    ensures |r| <= 10
    ensures r == s[..if |s| < 10 then |s| else 10]
  {
    Slice(s, 0, 10)
  }

  /** A click on a notification (lines 82-84) asks for PUT /notifications/:id/read only while it is unread. */
  function Clicked(n: Notifications.StoredNotification): (request: Option<Notifications.NotificationId>)
    ensures request.Some? <==> IsUnread(n)
    ensures request.Some? ==> request.value == n.id
  {
    if !n.note.isRead then Some(n.id) else None
  }

  // ---------------------------------------------------------------------
  // The notification badge
  // ---------------------------------------------------------------------

  lemma {:induction false} CountAppend<T>(a: seq<T>, b: seq<T>, p: T -> bool)
    ensures Count(a + b, p) == Count(a, p) + Count(b, p)
    decreases |a|
  {
    if a == [] {
      assert a + b == b;
    } else {
      assert (a + b)[1..] == a[1..] + b;
      CountAppend(a[1..], b, p);
    }
  }

  lemma {:induction false} CountReverse<T>(s: seq<T>, p: T -> bool)
    ensures Count(Reverse(s), p) == Count(s, p)
    decreases |s|
  {
    if s != [] {
      CountReverse(s[1..], p);
      CountAppend(Reverse(s[1..]), [s[0]], p);
    }
  }

  lemma {:induction false} UnreadAmongOwn(rows: seq<Notifications.StoredNotification>, me: UserId)
    ensures Count(Notifications.Matching(rows, me, false), IsUnread) == Notifications.UnreadCount(rows, me)
    decreases |rows|
  {
    if rows != [] {
      UnreadAmongOwn(rows[1..], me);
    }
  }

  /** The badge never exceeds the ten notifications the header loads. */
  lemma NotificationBadgeAtMostTen(rows: seq<Notifications.StoredNotification>, me: UserId)
    ensures NotificationBadge(Notifications.Listing(rows, me, false, 10, 0)) <= 10
  {
  }

  /**
   * While the caller has at most ten notifications, the badge shows the
   * number GET /notifications/unread/count would give; beyond that it
   * counts only the unread ones among the newest ten.
   */
  lemma FewNotificationsBadgeIsUnreadCount(rows: seq<Notifications.StoredNotification>, me: UserId)
    requires |Notifications.Matching(rows, me, false)| <= 10
    ensures NotificationBadge(Notifications.Listing(rows, me, false, 10, 0)) == Notifications.UnreadCount(rows, me)
    ensures BadgeShown(NotificationBadge(Notifications.Listing(rows, me, false, 10, 0))) <==> Notifications.UnreadCount(rows, me) > 0
  {
    var m := Notifications.Matching(rows, me, false);
    var rev := Reverse(m);
    assert Slice(rev, 0, 10) == rev;
    CountReverse(m, IsUnread);
    UnreadAmongOwn(rows, me);
  }

  /**
   * The request a click sends, applied by the server, lowers the caller's
   * unread count by one; ids are distinct because the table's ids increase.
   */
  lemma {:induction false} ClickLowersUnreadCount(rows: seq<Notifications.StoredNotification>, me: UserId, n: Notifications.StoredNotification)
    requires n in rows && n.note.user == me && IsUnread(n)
    requires forall i, j :: 0 <= i < j < |rows| ==> rows[i].id != rows[j].id
    ensures Clicked(n).Some?
    ensures Notifications.UnreadCount(Notifications.MarkedRead(rows, me, Clicked(n).value), me)
         == Notifications.UnreadCount(rows, me) - 1
    decreases |rows|
  {
    var r := Notifications.MarkedRead(rows, me, n.id);
    assert r[1..] == Notifications.MarkedRead(rows[1..], me, n.id);
    if rows[0] == n {
      MarkedReadElsewhere(rows[1..], me, n.id);
    } else {
      assert rows[0].id != n.id by {
        var k :| 0 <= k < |rows| && rows[k] == n;
        assert k > 0;
      }
      ClickLowersUnreadCount(rows[1..], me, n);
    }
  }

  /** Marking an id that none of the rows carries changes nothing. */
  lemma MarkedReadElsewhere(rows: seq<Notifications.StoredNotification>, me: UserId, id: Notifications.NotificationId)
    requires forall k :: 0 <= k < |rows| ==> rows[k].id != id
    ensures Notifications.MarkedRead(rows, me, id) == rows
  {
  }

  /** A click on a notification already read sends nothing. */
  lemma ClickOnReadSendsNothing(n: Notifications.StoredNotification)
    requires n.note.isRead
    ensures Clicked(n).None?
  {
  }

  // ---------------------------------------------------------------------
  // The message badge
  // ---------------------------------------------------------------------

  /**
   * The message badge counts conversations, not messages: it never
   * exceeds the unread messages in them, and it is shown exactly when
   * some message is unread.
   */
  lemma {:induction false} MessageBadgeBounds(list: seq<ConversationEntry>)
    ensures MessageBadge(list) <= MessagesClient.TotalUnread(list)
    ensures MessageBadge(list) <= |list|
    ensures BadgeShown(MessageBadge(list)) <==> MessagesClient.TotalUnread(list) > 0
    decreases |list|
  {
    if list != [] {
      MessageBadgeBounds(list[1..]);
    }
  }

  /** One conversation with three unread messages shows the badge 1. */
  lemma MessageBadgeCountsConversations(e: ConversationEntry)
    requires e.unreadCount == 3
    ensures MessageBadge([e]) == 1
    ensures MessagesClient.TotalUnread([e]) == 3
  {
    assert [e][1..] == [];
  }
}
