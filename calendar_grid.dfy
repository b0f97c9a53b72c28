/**
 * The month view of frontend/src/comps/Calendar.jsx: month navigation,
 * the 42-cell grid renderCalendarDays builds, the mention list of the
 * event form and who may edit an event.
 *
 * Dates are proleptic Gregorian calendar dates in the browser's time zone,
 * with the month counted from 0 as `Date.getMonth` does. A day's place in
 * time is its `DayNumber`, the count of days since 1 January of year 0.
 */
module CalendarGrid {
  import opened Common
  import opened Schema
  import opened AuthMiddleware
  import MessagesClient

  // ---------------------------------------------------------------------
  // Months (lines 64-70)
  // ---------------------------------------------------------------------

  datatype YearMonth = YearMonth(year: int, month: int)

  predicate ValidMonth(ym: YearMonth) {
    0 <= ym.month < 12
  }

  /** The months since January of year 0. */
  function Ordinal(ym: YearMonth): int {
    ym.year * 12 + ym.month
  }

  /**
   * `new Date(year, month + dir, 1)`: the Date constructor carries a month
   * outside 0..11 into the year, so the result is the month `dir` months
   * away.
   */
  function MonthShifted(ym: YearMonth, dir: int): (r: YearMonth)
    ensures ValidMonth(r)
    ensures Ordinal(r) == Ordinal(ym) + dir
  {
    var t := ym.year * 12 + ym.month + dir;
    YearMonth(t / 12, t % 12)
  }

  /** navigateMonth(direction): the first day of the month shifted by `direction`. */
  function NavigateMonth(current: YearMonth, direction: int): (r: YearMonth)
    ensures ValidMonth(r)
  {
    MonthShifted(current, direction)
  }

  /** Two months with the same ordinal are the same month. */
  lemma OrdinalDetermines(a: YearMonth, b: YearMonth)
    requires ValidMonth(a) && ValidMonth(b)
    requires Ordinal(a) == Ordinal(b)
    ensures a == b
  {
  }

  /** Navigating twice is navigating once by the sum; navigating by 0 stays put. */
  lemma NavigationComposes(ym: YearMonth, a: int, b: int)
    requires ValidMonth(ym)
    ensures NavigateMonth(NavigateMonth(ym, a), b) == NavigateMonth(ym, a + b)
    ensures NavigateMonth(ym, 0) == ym
  {
    OrdinalDetermines(MonthShifted(MonthShifted(ym, a), b), MonthShifted(ym, a + b));
    OrdinalDetermines(MonthShifted(ym, 0), ym);
  }

  /** Going forward twelve months keeps the month and moves the year by one. */
  lemma TwelveMonthsIsAYear(ym: YearMonth)
    requires ValidMonth(ym)
    ensures NavigateMonth(ym, 12) == YearMonth(ym.year + 1, ym.month)
    ensures NavigateMonth(ym, -12) == YearMonth(ym.year - 1, ym.month)
  {
    OrdinalDetermines(MonthShifted(ym, 12), YearMonth(ym.year + 1, ym.month));
    OrdinalDetermines(MonthShifted(ym, -12), YearMonth(ym.year - 1, ym.month));
  }

  // ---------------------------------------------------------------------
  // The Gregorian calendar
  // ---------------------------------------------------------------------

  predicate Leap(y: int) {
    y % 4 == 0 && (y % 100 != 0 || y % 400 == 0)
  }

  /** `new Date(year, month + 1, 0).getDate()`: the last day of the month. */
  function DaysInMonth(ym: YearMonth): (n: nat)
    requires ValidMonth(ym)
    ensures 28 <= n <= 31
    ensures n == 29 <==> ym.month == 1 && Leap(ym.year)
  {
    if ym.month == 1 then (if Leap(ym.year) then 29 else 28)
    else if ym.month == 3 || ym.month == 5 || ym.month == 8 || ym.month == 10 then 30
    else 31
  }

  /** The days before 1 January of `y`, counted from 1 January of year 0. */
  function DaysBeforeYear(y: int): int {
    365 * y + (y + 3) / 4 - (y + 99) / 100 + (y + 399) / 400
  }

  /** A leap year adds 366 days, any other year 365. */
  lemma YearLength(y: int)
    ensures DaysBeforeYear(y + 1) - DaysBeforeYear(y) == if Leap(y) then 366 else 365
  {
    var a := (y + 4) / 4 - (y + 3) / 4;
    var b := (y + 100) / 100 - (y + 99) / 100;
    var c := (y + 400) / 400 - (y + 399) / 400;
    assert a == if y % 4 == 0 then 1 else 0 by { Step4(y); }
    assert b == if y % 100 == 0 then 1 else 0 by { Step100(y); }
    assert c == if y % 400 == 0 then 1 else 0 by { Step400(y); }
    assert (y % 400 == 0 ==> y % 100 == 0) && (y % 100 == 0 ==> y % 4 == 0) by { Divisors(y); }
    assert DaysBeforeYear(y + 1) - DaysBeforeYear(y) == 365 + a - b + c;
  }

  /** A multiple of 400 is one of 100, and a multiple of 100 one of 4. */
  lemma Divisors(y: int)
    ensures y % 400 == 0 ==> y % 100 == 0
    ensures y % 100 == 0 ==> y % 4 == 0
  {
    var d, m := y / 100, y % 100;
    assert y == 100 * d + m && 0 <= m < 100;
    if y % 400 == 0 {
      var q := y / 400;
      assert y == 400 * q;
      assert m == 100 * (4 * q - d);
    }
    var e, n := y / 4, y % 4;
    assert y == 4 * e + n && 0 <= n < 4;
    if m == 0 {
      assert n == 4 * (25 * d - e);
    }
  }

  lemma Step4(y: int)
    ensures (y + 4) / 4 - (y + 3) / 4 == if y % 4 == 0 then 1 else 0
  {
    var q, r := (y + 3) / 4, (y + 3) % 4;
    if r == 3 {
      assert y == 4 * q && y + 4 == 4 * (q + 1);
    } else {
      assert y + 4 == 4 * q + (r + 1) && y == 4 * (q - 1) + (r + 1);
    }
  }

  lemma Step100(y: int)
    ensures (y + 100) / 100 - (y + 99) / 100 == if y % 100 == 0 then 1 else 0
  {
    var q, r := (y + 99) / 100, (y + 99) % 100;
    if r == 99 {
      assert y == 100 * q && y + 100 == 100 * (q + 1);
    } else {
      assert y + 100 == 100 * q + (r + 1) && y == 100 * (q - 1) + (r + 1);
    }
  }

  lemma Step400(y: int)
    ensures (y + 400) / 400 - (y + 399) / 400 == if y % 400 == 0 then 1 else 0
  {
    var q, r := (y + 399) / 400, (y + 399) % 400;
    if r == 399 {
      assert y == 400 * q && y + 400 == 400 * (q + 1);
    } else {
      assert y + 400 == 400 * q + (r + 1) && y == 400 * (q - 1) + (r + 1);
    }
  }

  /** The days of `y` before the first of month `m`. */
  function DaysBeforeMonth(y: int, m: nat): int
    requires m <= 12
  {
    if m == 0 then 0 else DaysBeforeMonth(y, m - 1) + DaysInMonth(YearMonth(y, m - 1))
  }

  /** The twelve months make up the year. */
  lemma MonthsFillTheYear(y: int)
    ensures DaysBeforeMonth(y, 12) == DaysBeforeYear(y + 1) - DaysBeforeYear(y)
  {
    YearLength(y);
    var feb := if Leap(y) then 29 else 28;
    assert DaysBeforeMonth(y, 1) == 31;
    assert DaysBeforeMonth(y, 2) == 31 + feb;
    assert DaysBeforeMonth(y, 3) == 62 + feb;
    assert DaysBeforeMonth(y, 4) == 92 + feb;
    assert DaysBeforeMonth(y, 5) == 123 + feb;
    assert DaysBeforeMonth(y, 6) == 153 + feb;
    assert DaysBeforeMonth(y, 7) == 184 + feb;
    assert DaysBeforeMonth(y, 8) == 215 + feb;
    assert DaysBeforeMonth(y, 9) == 245 + feb;
    assert DaysBeforeMonth(y, 10) == 276 + feb;
    assert DaysBeforeMonth(y, 11) == 306 + feb;
  }

  /** A calendar date; `month` counts from 0. */
  datatype Date = Date(year: int, month: int, day: int)

  function MonthOf(d: Date): YearMonth {
    YearMonth(d.year, d.month)
  }

  predicate RealDate(d: Date) {
    ValidMonth(MonthOf(d)) && 1 <= d.day <= DaysInMonth(MonthOf(d))
  }

  function DayNumber(d: Date): int
    requires ValidMonth(MonthOf(d))
  {
    DaysBeforeYear(d.year) + DaysBeforeMonth(d.year, d.month) + d.day - 1
  }

  /** `getDay()`: 0 for Sunday through 6 for Saturday; 1 January of year 0 was a Saturday. */
  function Weekday(d: Date): (w: nat)
    requires ValidMonth(MonthOf(d))
    ensures w < 7
  {
    (DayNumber(d) + 6) % 7
  }

  /** The day count agrees with the familiar calendar: 1 January 1970 was a Thursday, 1 January 2024 a Monday. */
  lemma WeekdayCalibration()
    ensures Weekday(Date(1970, 0, 1)) == 4
    ensures Weekday(Date(2024, 0, 1)) == 1
  {
  }

  /** The first of the next month follows the last day of this one. */
  lemma NextMonthStart(ym: YearMonth)
    requires ValidMonth(ym)
    ensures DayNumber(Date(MonthShifted(ym, 1).year, MonthShifted(ym, 1).month, 1))
         == DayNumber(Date(ym.year, ym.month, 1)) + DaysInMonth(ym)
  {
    var next := MonthShifted(ym, 1);
    if ym.month < 11 {
      OrdinalDetermines(next, YearMonth(ym.year, ym.month + 1));
    } else {
      OrdinalDetermines(next, YearMonth(ym.year + 1, 0));
      MonthsFillTheYear(ym.year);
    }
  }

  /** The first of this month follows the last day of the previous one. */
  lemma PreviousMonthEnd(ym: YearMonth)
    requires ValidMonth(ym)
    ensures DayNumber(Date(ym.year, ym.month, 1))
         == DayNumber(Date(MonthShifted(ym, -1).year, MonthShifted(ym, -1).month, 1)) + DaysInMonth(MonthShifted(ym, -1))
  {
    var prev := MonthShifted(ym, -1);
    NextMonthStart(prev);
    OrdinalDetermines(MonthShifted(prev, 1), ym);
  }

  // ---------------------------------------------------------------------
  // The grid (lines 204-282)
  // ---------------------------------------------------------------------

  /** An event as the page holds it; `start` is its start's local date. */
  datatype ClientEvent = ClientEvent(id: int, creator: int, title: string, isPrivate: bool, start: Date)

  /** One square of the grid: a day of the previous month, of this month with its events, or of the next month. */
  datatype Cell = Leading(date: Date) | Current(date: Date, events: seq<ClientEvent>) | Trailing(date: Date)

  predicate SameDay(a: Date, b: Date) {
    a.year == b.year && a.month == b.month && a.day == b.day
  }

  /** `events.filter(...)` comparing getDate, getMonth and getFullYear. */
  function EventsOn(events: seq<ClientEvent>, d: Date): seq<ClientEvent> {
    Filter(events, (e: ClientEvent) => SameDay(e.start, d))
  }

  /** `firstDay.getDay()` */
  function StartDay(ym: YearMonth): nat
    requires ValidMonth(ym)
  {
    Weekday(Date(ym.year, ym.month, 1))
  }

  /** The date of the k-th leading cell: the days up to the previous month's last, ending just before the first. */
  function LeadingDate(ym: YearMonth, k: int): Date
    requires ValidMonth(ym)
  {
    var prev := MonthShifted(ym, -1);
    Date(prev.year, prev.month, DaysInMonth(prev) - StartDay(ym) + 1 + k)
  }

  function CurrentDate(ym: YearMonth, k: int): Date {
    Date(ym.year, ym.month, k + 1)
  }

  function TrailingDate(ym: YearMonth, k: int): Date {
    var next := MonthShifted(ym, 1);
    Date(next.year, next.month, k + 1)
  }

  /** The cells after the month's days: `42 - days.length`. */
  function TrailingCount(ym: YearMonth): int
    requires ValidMonth(ym)
  {
    42 - StartDay(ym) - DaysInMonth(ym)
  }

  /**
   * The shape renderCalendarDays produces: 42 cells, the `startDay`
   * leading ones first, the month's days with their events next, and the
   * next month's days numbered from 1 last.
   */
  predicate IsGrid(ym: YearMonth, events: seq<ClientEvent>, days: seq<Cell>)
    requires ValidMonth(ym)
  {
    && |days| == 42
    && StartDay(ym) + DaysInMonth(ym) <= 42
    && (forall k :: 0 <= k < StartDay(ym) ==> days[k] == Leading(LeadingDate(ym, k)))
    && (forall k :: 0 <= k < DaysInMonth(ym) ==>
          days[StartDay(ym) + k] == Current(CurrentDate(ym, k), EventsOn(events, CurrentDate(ym, k))))
    && (forall k :: 0 <= k < TrailingCount(ym) ==>
          days[StartDay(ym) + DaysInMonth(ym) + k] == Trailing(TrailingDate(ym, k)))
  }

  /** A week starts at most six days in, and a month has at most 31 days, so 5 to 14 cells always remain. */
  lemma TrailingBounds(ym: YearMonth)
    requires ValidMonth(ym)
    ensures 5 <= TrailingCount(ym) <= 14
  {
  }

  /** renderCalendarDays: three loops push the leading, the current and the trailing cells. */
  method RenderDays(ym: YearMonth, events: seq<ClientEvent>) returns (days: seq<Cell>)
    requires ValidMonth(ym)
    ensures IsGrid(ym, events, days)
  {
    var startDay := StartDay(ym);
    var daysInMonth := DaysInMonth(ym);
    var prev := MonthShifted(ym, -1);
    var prevMonthLastDay := DaysInMonth(prev);
    var next := MonthShifted(ym, 1);
    days := [];

    var i: int := startDay - 1;
    while i >= 0
      invariant -1 <= i < startDay
      invariant |days| == startDay - 1 - i
      invariant forall k :: 0 <= k < |days| ==> days[k] == Leading(LeadingDate(ym, k))
    {
      days := days + [Leading(Date(prev.year, prev.month, prevMonthLastDay - i))];
      i := i - 1;
    }

    var d := 1;
    while d <= daysInMonth
      invariant 1 <= d <= daysInMonth + 1
      invariant |days| == startDay + d - 1
      invariant forall k :: 0 <= k < startDay ==> days[k] == Leading(LeadingDate(ym, k))
      invariant forall k :: 0 <= k < d - 1 ==>
        days[startDay + k] == Current(CurrentDate(ym, k), EventsOn(events, CurrentDate(ym, k)))
    {
      var date := Date(ym.year, ym.month, d);
      days := days + [Current(date, EventsOn(events, date))];
      d := d + 1;
    }

    var remaining := 42 - |days|;
    var n := 1;
    while n <= remaining
      invariant 1 <= n <= remaining + 1
      invariant |days| == startDay + daysInMonth + n - 1
      invariant forall k :: 0 <= k < startDay ==> days[k] == Leading(LeadingDate(ym, k))
      invariant forall k :: 0 <= k < daysInMonth ==>
        days[startDay + k] == Current(CurrentDate(ym, k), EventsOn(events, CurrentDate(ym, k)))
      invariant forall k :: 0 <= k < n - 1 ==> days[startDay + daysInMonth + k] == Trailing(TrailingDate(ym, k))
    {
      days := days + [Trailing(Date(next.year, next.month, n))];
      n := n + 1;
    }
  }

  /** The grid shows 42 consecutive real dates: the k-th cell lies k days after the first. */
  lemma GridDayNumbers(ym: YearMonth, events: seq<ClientEvent>, days: seq<Cell>, k: int)
    requires ValidMonth(ym) && IsGrid(ym, events, days)
    requires 0 <= k < 42
    ensures RealDate(days[k].date)
    ensures DayNumber(days[k].date) == DayNumber(Date(ym.year, ym.month, 1)) - StartDay(ym) + k
  {
    var s := StartDay(ym);
    var n := DaysInMonth(ym);
    if k < s {
      assert days[k] == Leading(LeadingDate(ym, k));
      PreviousMonthEnd(ym);
    } else if k < s + n {
      assert days[s + (k - s)] == Current(CurrentDate(ym, k - s), EventsOn(events, CurrentDate(ym, k - s)));
    } else {
      assert days[s + n + (k - s - n)] == Trailing(TrailingDate(ym, k - s - n));
      NextMonthStart(ym);
    }
  }

  lemma ModSeven(q: int, k: int)
    ensures (7 * q + k) % 7 == k % 7
  {
  }

  /** Each column of the grid is one weekday: the cell at index k falls on weekday k mod 7, Sunday first. */
  lemma GridColumnsAreWeekdays(ym: YearMonth, events: seq<ClientEvent>, days: seq<Cell>, k: int)
    requires ValidMonth(ym) && IsGrid(ym, events, days)
    requires 0 <= k < 42
    ensures RealDate(days[k].date)
    ensures Weekday(days[k].date) == k % 7
  {
    var x := DayNumber(Date(ym.year, ym.month, 1)) + 6;
    assert RealDate(days[k].date) && DayNumber(days[k].date) + 6 == 7 * (x / 7) + k by {
      GridDayNumbers(ym, events, days, k);
      assert x == 7 * (x / 7) + StartDay(ym);
    }
    assert (7 * (x / 7) + k) % 7 == k % 7 by {
      ModSeven(x / 7, k);
    }
  }

  /** The event starts on a day of the month, and `k` is the cell of that day. */
  predicate StartsInCell(ym: YearMonth, e: ClientEvent, k: int)
    requires ValidMonth(ym)
  {
    && e.start.year == ym.year && e.start.month == ym.month
    && 1 <= e.start.day <= DaysInMonth(ym)
    && k == StartDay(ym) + e.start.day - 1
  }

  /** An event appears under a day of the month exactly when it starts on that date. */
  lemma EventShownIffSameDay(ym: YearMonth, events: seq<ClientEvent>, days: seq<Cell>, e: ClientEvent, k: int)
    requires ValidMonth(ym) && IsGrid(ym, events, days)
    requires 0 <= k < 42 && e in events
    ensures days[k].Current? && e in days[k].events <==> StartsInCell(ym, e, k)
  {
    var s := StartDay(ym);
    var n := DaysInMonth(ym);
    if k < s {
      assert days[k] == Leading(LeadingDate(ym, k));
    } else if k < s + n {
      assert days[s + (k - s)] == Current(CurrentDate(ym, k - s), EventsOn(events, CurrentDate(ym, k - s)));
    } else {
      assert days[s + n + (k - s - n)] == Trailing(TrailingDate(ym, k - s - n));
    }
  }

  // ---------------------------------------------------------------------
  // Mentions (lines 87-108)
  // ---------------------------------------------------------------------

  /**
   * An entry of `newEvent.mentions`: a user picked from the search, or a
   * bare user id as openEditForm loads it (`event.mentions` is the list
   * of ids GET /events answers with).
   */
  datatype Mention = Picked(user: MessagesClient.Candidate) | Loaded(id: int)

  /** `u.id`: a picked user's id; a bare number has no `id` property. */
  function KeyOf(m: Mention): Option<UserId> {
    if m.Picked? then Some(m.user.id) else None
  }

  /** The ids `u.id` yields over the mentions, in order. */
  function PickedIds(ms: seq<Mention>): (ids: seq<UserId>)
    ensures |ids| <= |ms|
  {
    if ms == [] then []
    else (if ms[0].Picked? then [ms[0].user.id] else []) + PickedIds(ms[1..])
  }

  /** An id is among the picked ids exactly when some mention yields it. */
  lemma {:induction false} PickedIdsMembers(ms: seq<Mention>)
    ensures forall id :: id in PickedIds(ms) <==> exists i :: 0 <= i < |ms| && KeyOf(ms[i]) == Some(id)
    decreases |ms|
  {
    if ms != [] {
      PickedIdsMembers(ms[1..]);
      assert forall i :: 0 < i < |ms| ==> ms[i] == ms[1..][i - 1];
    }
  }

  /** addUser: `some(u => u.id === user.id)`; the user joins the mentions unless a picked one has the same id. */
  function AddUser(ms: seq<Mention>, user: MessagesClient.Candidate): (r: seq<Mention>)
    ensures user.id in PickedIds(ms) ==> r == ms
    ensures user.id !in PickedIds(ms) ==> r == ms + [Picked(user)]
  {
    PickedIdsMembers(ms);
    if exists i :: 0 <= i < |ms| && KeyOf(ms[i]) == Some(user.id) then ms else ms + [Picked(user)]
  }

  /** `u => u.id !== userId` */
  function Unpicked(userId: UserId): Mention -> bool {
    (m: Mention) => KeyOf(m) != Some(userId)
  }

  /** removeUser: every picked user with that id goes; a bare id always stays. */
  function RemoveUser(ms: seq<Mention>, userId: UserId): (r: seq<Mention>)
    ensures forall m :: m in r <==> m in ms && KeyOf(m) != Some(userId)
  {
    Filter(ms, Unpicked(userId))
  }

  /** No two picked users share an id, and adding a user always leaves them picked. */
  lemma AddUserKeepsIdsDistinct(ms: seq<Mention>, user: MessagesClient.Candidate)
    requires NoDup(PickedIds(ms))
    ensures NoDup(PickedIds(AddUser(ms, user)))
    ensures user.id in PickedIds(AddUser(ms, user))
  {
    if user.id !in PickedIds(ms) {
      var ids := PickedIds(ms);
      PickedIdsAppend(ms, Picked(user));
      assert [Picked(user)][1..] == [];
      assert PickedIds(ms + [Picked(user)]) == ids + [user.id];
      forall i, j | 0 <= i < j < |ids| + 1 ensures (ids + [user.id])[i] != (ids + [user.id])[j] {
        if j == |ids| {
          assert ids[i] in ids;
        }
      }
    }
  }

  lemma {:induction false} PickedIdsAppend(ms: seq<Mention>, m: Mention)
    ensures PickedIds(ms + [m]) == PickedIds(ms) + PickedIds([m])
    decreases |ms|
  {
    if ms != [] {
      assert (ms + [m])[1..] == ms[1..] + [m];
      PickedIdsAppend(ms[1..], m);
    }
  }

  /** The picked ids of a tail are distinct, and none is the head's. */
  lemma PickedIdsTail(ms: seq<Mention>)
    requires ms != [] && NoDup(PickedIds(ms))
    ensures NoDup(PickedIds(ms[1..]))
    ensures ms[0].Picked? ==> ms[0].user.id !in PickedIds(ms[1..])
  {
    var h := if ms[0].Picked? then [ms[0].user.id] else [];
    var t := PickedIds(ms[1..]);
    assert PickedIds(ms) == h + t;
    forall i, j | 0 <= i < j < |t| ensures t[i] != t[j] {
      assert t[i] == (h + t)[|h| + i] && t[j] == (h + t)[|h| + j];
    }
    forall k | 0 <= k < |t| ensures ms[0].Picked? ==> t[k] != ms[0].user.id {
      if ms[0].Picked? {
        assert (h + t)[0] == ms[0].user.id && (h + t)[1 + k] == t[k];
      }
    }
  }

  /** A picked head whose id the tail does not yield keeps the ids distinct. */
  lemma PickedIdsCons(m: Mention, rest: seq<Mention>)
    requires NoDup(PickedIds(rest)) && (m.Picked? ==> m.user.id !in PickedIds(rest))
    ensures NoDup(PickedIds([m] + rest))
  {
    assert ([m] + rest)[1..] == rest;
    var t := PickedIds(rest);
    if m.Picked? {
      var r := [m.user.id] + t;
      assert PickedIds([m] + rest) == r;
      forall i, j | 0 <= i < j < |r| ensures r[i] != r[j] {
        assert r[j] == t[j - 1];
        if i > 0 {
          assert r[i] == t[i - 1];
        } else {
          assert t[j - 1] in t;
        }
      }
    } else {
      assert PickedIds([m] + rest) == t;
    }
  }

  /** The ids a removal leaves are among those before it. */
  lemma {:induction false} RemovedIdsSubset(ms: seq<Mention>, userId: UserId)
    ensures forall id :: id in PickedIds(RemoveUser(ms, userId)) ==> id in PickedIds(ms)
    decreases |ms|
  {
    if ms != [] {
      RemovedIdsSubset(ms[1..], userId);
      var rest := RemoveUser(ms[1..], userId);
      var h := if ms[0].Picked? then [ms[0].user.id] else [];
      assert PickedIds(ms) == h + PickedIds(ms[1..]);
      if Unpicked(userId)(ms[0]) {
        assert RemoveUser(ms, userId) == [ms[0]] + rest;
        assert ([ms[0]] + rest)[1..] == rest;
        assert PickedIds([ms[0]] + rest) == h + PickedIds(rest);
      } else {
        assert RemoveUser(ms, userId) == rest;
      }
    }
  }

  lemma {:induction false} RemovedIdsDistinct(ms: seq<Mention>, userId: UserId)
    requires NoDup(PickedIds(ms))
    ensures NoDup(PickedIds(RemoveUser(ms, userId)))
    decreases |ms|
  {
    if ms != [] {
      PickedIdsTail(ms);
      RemovedIdsDistinct(ms[1..], userId);
      RemovedIdsSubset(ms[1..], userId);
      var rest := RemoveUser(ms[1..], userId);
      if Unpicked(userId)(ms[0]) {
        assert RemoveUser(ms, userId) == [ms[0]] + rest;
        PickedIdsCons(ms[0], rest);
      } else {
        assert RemoveUser(ms, userId) == rest;
      }
    }
  }

  lemma {:induction false} KeepsUnpicked(ms: seq<Mention>, userId: UserId)
    requires forall i :: 0 <= i < |ms| ==> KeyOf(ms[i]) != Some(userId)
    ensures RemoveUser(ms, userId) == ms
    decreases |ms|
  {
    if ms != [] {
      assert forall i :: 0 <= i < |ms[1..]| ==> ms[1..][i] == ms[i + 1];
      KeepsUnpicked(ms[1..], userId);
    }
  }

  lemma RemoveKeepsAll(ms: seq<Mention>, userId: UserId)
    requires userId !in PickedIds(ms)
    ensures RemoveUser(ms, userId) == ms
  {
    PickedIdsMembers(ms);
    KeepsUnpicked(ms, userId);
  }

  lemma {:induction false} RemoveAppendDropped(ms: seq<Mention>, user: MessagesClient.Candidate)
    ensures RemoveUser(ms + [Picked(user)], user.id) == RemoveUser(ms, user.id)
    decreases |ms|
  {
    if ms == [] {
      assert [Picked(user)][1..] == [];
    } else {
      assert (ms + [Picked(user)])[1..] == ms[1..] + [Picked(user)];
      RemoveAppendDropped(ms[1..], user);
    }
  }

  /** Removing keeps picked ids distinct, removing an absent user changes nothing, and removing a user just added undoes the addition. */
  lemma RemoveUserProperties(ms: seq<Mention>, user: MessagesClient.Candidate)
    ensures NoDup(PickedIds(ms)) ==> NoDup(PickedIds(RemoveUser(ms, user.id)))
    ensures user.id !in PickedIds(ms) ==> RemoveUser(ms, user.id) == ms
    ensures user.id !in PickedIds(ms) ==> RemoveUser(AddUser(ms, user), user.id) == ms
  {
    if NoDup(PickedIds(ms)) {
      RemovedIdsDistinct(ms, user.id);
    }
    if user.id !in PickedIds(ms) {
      RemoveKeepsAll(ms, user.id);
      RemoveAppendDropped(ms, user);
    }
  }

  /** openEditForm's `mentions: event.mentions || []`: the event's ids, each a bare number. */
  function EditMentions(loaded: Option<seq<int>>): (ms: seq<Mention>)
    ensures |ms| == |loaded.GetOr([])|
    ensures forall k :: 0 <= k < |ms| ==> ms[k].Loaded?
  {
    var ids := loaded.GetOr([]);
    seq(|ids|, k requires 0 <= k < |ids| => Loaded(ids[k]))
  }

  /**
   * In the edit form `u.id === user.id` never matches a loaded id: a user
   * the event already mentions is added a second time, and removeUser
   * cannot take a loaded mention out.
   */
  lemma EditFormMentionsTwice(loaded: seq<int>, user: MessagesClient.Candidate)
    requires user.id in loaded
    ensures var ms := EditMentions(Some(loaded));
      && Loaded(user.id) in ms
      && AddUser(ms, user) == ms + [Picked(user)]
      && RemoveUser(ms, user.id) == ms
  {
    var ms := EditMentions(Some(loaded));
    PickedIdsMembers(ms);
    assert user.id !in PickedIds(ms);
    var k :| 0 <= k < |loaded| && loaded[k] == user.id;
    assert ms[k] == Loaded(user.id);
    RemoveKeepsAll(ms, user.id);
  }

  // ---------------------------------------------------------------------
  // The form (lines 148-177)
  // ---------------------------------------------------------------------

  /** The editable fields of the form; `start` and `end` in milliseconds. */
  datatype Draft = Draft(title: string, description: string, start: int, end: int, isPrivate: bool,
                         mentions: seq<Mention>)

  const HourMillis: int := 60 * 60 * 1000

  /** openNewForm(date): an empty event starting at the chosen instant (or now) and lasting an hour. */
  function NewDraft(date: Option<int>, now: int): (r: Draft)
    ensures r.end - r.start == HourMillis
    ensures r.start == (if date.Some? then date.value else now)
    ensures r.title == "" && r.description == "" && !r.isPrivate && r.mentions == []
  {
    var start := if date.Some? then date.value else now;
    Draft("", "", start, start + HourMillis, false, [])
  }

  /** openEditForm: `event.creator_id === currentUser.id || currentUser.is_admin`; a new event is always editable. */
  predicate CanEdit(selected: Option<ClientEvent>, me: CurrentUser) {
    selected.None? || StrictEq(Num(selected.value.creator), Num(me.id)) || me.isAdmin
  }

  /**
   * The form is editable exactly when PUT /events/:id and DELETE
   * /events/:id accept the caller (backend/routes/events.js), and both
   * ids are numbers, so the strict comparison is a numeric one.
   */
  lemma CanEditIffServerAllows(e: ClientEvent, me: CurrentUser)
    ensures CanEdit(Some(e), me) <==> e.creator == me.id || me.isAdmin
    ensures CanEdit(None, me)
  {
  }
}
