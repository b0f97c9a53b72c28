/**
 * backend/routes/admin.js: the site administrators' console over users,
 * system configuration, broadcasts and other users' settings. The router
 * runs `authenticate` and then `requireAdmin` (lines 20-21), so every
 * handler here is entered by an active site administrator only
 * (AuthMiddleware.AdminRoutesNeedActiveAdmin).
 *
 * A `:id` parameter is text. The SQL statements compare it with the INT
 * `id` column, which reads it as MariaDB reads text as a number
 * (Common.SqlKey); in an UPDATE or DELETE a text that reading truncates
 * fails the statement. The handlers' own `userId == req.user.id` compares
 * it the way JavaScript does (Common.LooselyEquals).
 */
module Admin {
  import opened Common
  import opened Schema
  import opened AuthMiddleware
  import opened Settings

  // ---------------------------------------------------------------------
  // The caller's own id in a route parameter
  // ---------------------------------------------------------------------

  /** `userId == req.user.id` for the parameter text `param` (lines 192, 248 and 294). */
  predicate NamesCaller(param: string, me: UserId) {
    LooselyEquals(param, me)
  }

  /**
   * A parameter that MariaDB reads as the caller's id without a truncation
   * is `==` to that id, so the self tests catch every parameter with which
   * an UPDATE or DELETE would reach the caller's own row.
   */
  lemma SelfTestCatchesOwnRow(param: string, me: UserId)
    requires SqlKey(param) == Some(me) && !SqlNumber(param).truncated
    ensures NamesCaller(param, me)
  {
    SqlReadingAgreesWithJs(param);
  }

  /** The path the console itself builds from an id names that row and passes the self test. */
  lemma DecimalIdNamesCaller(me: UserId)
    ensures SqlKey(DecimalText(me)) == Some(me) && !SqlNumber(DecimalText(me)).truncated
    ensures NamesCaller(DecimalText(me), me)
  {
    SqlReadingOfDecimal(me);
    SelfTestCatchesOwnRow(DecimalText(me), me);
  }

  /**
   * `/users/5x` finds user 5 in a SELECT, but `'5x' == 5` is false in
   * JavaScript: the self test lets it through, and the UPDATE or DELETE
   * that follows fails on the truncation instead.
   */
  lemma SuffixedIdSlipsPastSelfTest(me: UserId)
    requires me >= 1
    ensures var p := DecimalText(me) + "x";
      SqlKey(p) == Some(me) && SqlNumber(p).truncated && !NamesCaller(p, me)
  {
    var d := DecimalText(me);
    var p := d + "x";
    ScanOfDecimal(me, "x");
    assert p[0] == d[0] && p[|d|] == 'x' && p[|p| - 1] == 'x';
    assert SqlSpacesEnd(p, 0) == 0;
    assert p[0..] == p;
    assert Equals(Decimal(me, 0), me);
    assert Trim(p) == p;
    DecimalTextLeads(me);
    assert p != "Infinity" && p != "+Infinity" && p != "-Infinity" by {
      assert IsDigit(p[0]);
    }
  }

  // ---------------------------------------------------------------------
  // The tables the console touches
  // ---------------------------------------------------------------------

  /**
   * The tables DELETE /users/:id?permanent=true reaches: the five its
   * statements name (lines 253-257), and `spaces`, whose `created_by` key
   * cascades from the user's row (backend/config/database.js:55).
   */
  datatype Table = PostsTable | CommentsTable | LikesTable | MessagesTable | UserSpacesTable | SpacesTable

  /**
   * A row of one of those tables: the user it belongs to (`user_id`,
   * `sender_id` for messages, `created_by` for spaces) and the rows its
   * ON DELETE CASCADE keys name, as (table, id) pairs: a post's space, a
   * comment's post and parent, a like's post or comment, a membership's
   * space (database.js:66-67, 84-85, 98-100, 111-113).
   */
  datatype ContentRow = ContentRow(table: Table, id: nat, owner: UserId, parents: set<(Table, nat)>)

  function Keys(rows: set<ContentRow>): set<(Table, nat)> {
    set c | c in rows :: (c.table, c.id)
  }

  /** Every row a row refers to is present. */
  predicate Resolves(c: ContentRow, rows: set<ContentRow>) {
    c.parents <= Keys(rows)
  }

  predicate Closed(rows: set<ContentRow>) {
    forall c :: c in rows ==> Resolves(c, rows)
  }

  /**
   * What the cascading keys leave of `rows` after a DELETE: the rows whose
   * references no longer resolve are deleted, and again, until every
   * reference resolves.
   */
  function Survivors(rows: set<ContentRow>): (r: set<ContentRow>)
    ensures r <= rows && Closed(r)
    decreases |rows|
  {
    var orphans := set c | c in rows && !Resolves(c, rows);
    if orphans == {} then
      assert forall c :: c in rows && !Resolves(c, rows) ==> c in orphans;
      rows
    else Survivors(rows - orphans)
  }

  /** The cascades keep every set of rows whose references resolve among themselves: they delete no more than they must. */
  lemma {:induction false} SurvivorsLargest(rows: set<ContentRow>, s: set<ContentRow>)
    requires s <= rows && Closed(s)
    ensures s <= Survivors(rows)
    decreases |rows|
  {
    var orphans := set c | c in rows && !Resolves(c, rows);
    if orphans != {} {
      assert Keys(s) <= Keys(rows);
      SurvivorsLargest(rows - orphans, s);
    }
  }

  /** Rows whose references all resolve lose nothing to the cascades. */
  lemma SurvivorsOfClosed(rows: set<ContentRow>)
    requires Closed(rows)
    ensures Survivors(rows) == rows
  {
    SurvivorsLargest(rows, rows);
  }

  /**
   * Two DELETE statements one after the other, each followed by its
   * cascades, leave what one statement deleting both sets would leave.
   */
  lemma SurvivorsOfSuccessiveDeletes(rows: set<ContentRow>, a: set<ContentRow>, b: set<ContentRow>)
    ensures Survivors(Survivors(rows - a) - b) == Survivors(rows - (a + b))
  {
    var first := Survivors(rows - a);
    var both := Survivors(rows - (a + b));
    var second := Survivors(first - b);
    SurvivorsLargest(rows - (a + b), second);
    SurvivorsLargest(rows - a, both);
    SurvivorsLargest(first - b, both);
  }

  /** The rows of the user in the given tables. */
  function OwnedIn(rows: set<ContentRow>, tables: set<Table>, id: UserId): (r: set<ContentRow>)
    ensures r <= rows
    ensures forall c :: c in r <==> c in rows && c.owner == id && c.table in tables
  {
    set c | c in rows && c.owner == id && c.table in tables
  }

  /** The tables lines 253-257 delete from. */
  const PurgedTables: set<Table> := {PostsTable, CommentsTable, LikesTable, MessagesTable, UserSpacesTable}

  const AllTables: set<Table> := PurgedTables + {SpacesTable}

  /** Deleting a user's rows table by table, each with its cascades, is deleting them from all those tables at once. */
  lemma SuccessiveTables(rows: set<ContentRow>, done: set<Table>, t: Table, id: UserId)
    ensures var s := Survivors(rows - OwnedIn(rows, done, id));
      Survivors(s - OwnedIn(s, {t}, id)) == Survivors(rows - OwnedIn(rows, done + {t}, id))
  {
    var s := Survivors(rows - OwnedIn(rows, done, id));
    assert s - OwnedIn(s, {t}, id) == s - OwnedIn(rows, {t}, id);
    SurvivorsOfSuccessiveDeletes(rows, OwnedIn(rows, done, id), OwnedIn(rows, {t}, id));
    assert OwnedIn(rows, done, id) + OwnedIn(rows, {t}, id) == OwnedIn(rows, done + {t}, id);
  }

  /**
   * A comment on a post of the deleted user goes with the post, whoever
   * wrote it.
   */
  lemma CommentOnPurgedPostGoes(post: ContentRow, comment: ContentRow, rows: set<ContentRow>)
    requires post in rows && comment in rows && post.table == PostsTable && (PostsTable, post.id) in comment.parents
    requires forall c :: c in rows && c.table == PostsTable && c.id == post.id ==> c == post
    ensures comment !in Survivors(rows - OwnedIn(rows, PurgedTables, post.owner))
  {
  }

  /** The references the tables keep among themselves, and the UNIQUE e-mail column. */
  ghost predicate Integrity(
    users: map<UserId, UserRow>, nextUser: UserId, content: set<ContentRow>, notifications: seq<Notification>,
    settings: map<UserId, SettingsRow>, eventRefs: set<UserId>)
  {
    && EmailsUnique(users) && 1 <= nextUser
    && (forall u :: u in users ==> 1 <= u < nextUser)
    && (forall c :: c in content ==> c.owner in users)
    && Closed(content)
    && (forall n :: n in notifications ==> n.user in users)
    && (forall u :: u in settings ==> u in users && WellFormed(settings[u]))
    && (forall u :: u in eventRefs ==> u in users)
  }

  /** A new row under the next id whose e-mail no row holds keeps every reference and the UNIQUE key. */
  lemma InsertionKeepsIntegrity(
    users: map<UserId, UserRow>, nextUser: UserId, content: set<ContentRow>, notifications: seq<Notification>,
    settings: map<UserId, SettingsRow>, eventRefs: set<UserId>, row: UserRow)
    requires Integrity(users, nextUser, content, notifications, settings, eventRefs)
    requires forall o :: o in users ==> users[o].email != row.email
    ensures nextUser !in users
    ensures Integrity(users[nextUser := row], nextUser + 1, content, notifications, settings, eventRefs)
  {
    var u' := users[nextUser := row];
    forall a, b | a in u' && b in u' && u'[a].email == u'[b].email
      ensures a == b
    {
      if a != nextUser && b != nextUser {
        assert users[a].email == users[b].email;
      }
    }
  }

  /** Changing one row keeps the UNIQUE key when no other row holds its new e-mail. */
  lemma RowChangeKeepsIntegrity(
    users: map<UserId, UserRow>, nextUser: UserId, content: set<ContentRow>, notifications: seq<Notification>,
    settings: map<UserId, SettingsRow>, eventRefs: set<UserId>, id: UserId, row: UserRow)
    requires Integrity(users, nextUser, content, notifications, settings, eventRefs)
    requires id in users
    requires forall o :: o in users && o != id ==> users[o].email != row.email
    ensures Integrity(users[id := row], nextUser, content, notifications, settings, eventRefs)
  {
    var u' := users[id := row];
    forall a, b | a in u' && b in u' && u'[a].email == u'[b].email
      ensures a == b
    {
      if a != id && b != id {
        assert users[a].email == users[b].email;
      }
    }
  }

  /** A change that keeps the e-mail keeps the UNIQUE key. */
  lemma SameEmailKeepsIntegrity(
    users: map<UserId, UserRow>, nextUser: UserId, content: set<ContentRow>, notifications: seq<Notification>,
    settings: map<UserId, SettingsRow>, eventRefs: set<UserId>, id: UserId, row: UserRow)
    requires Integrity(users, nextUser, content, notifications, settings, eventRefs)
    requires id in users && row.email == users[id].email
    ensures Integrity(users[id := row], nextUser, content, notifications, settings, eventRefs)
  {
    RowChangeKeepsIntegrity(users, nextUser, content, notifications, settings, eventRefs, id, row);
  }

  // ---------------------------------------------------------------------
  // GET /users (lines 71-108)
  // ---------------------------------------------------------------------

  /** The WHERE clause lines 83-97 assemble; an absent, empty or unknown filter adds nothing. */
  predicate Listed(u: UserRow, search: Option<string>, status: Option<string>, role: Option<string>) {
    && (search.Some? && search.value != "" ==> SearchHit(u, search.value))
    && (status == Some("active") ==> u.isActive)
    && (status == Some("inactive") ==> !u.isActive)
    && (status == Some("suspended") ==> u.isSuspended)
    && (role == Some("admin") ==> u.isAdmin)
    && (role == Some("moderator") ==> u.isModerator)
  }

  /** The users below id `k` that the WHERE clause keeps, highest id first: the order of `ORDER BY created_at DESC`. */
  function MatchingBelow(users: map<UserId, UserRow>, k: nat, search: Option<string>, status: Option<string>, role: Option<string>)
    : (r: seq<UserId>)
    ensures forall u :: u in r <==> u < k && u in users && Listed(users[u], search, status, role)
    ensures forall i, j :: 0 <= i < j < |r| ==> r[i] > r[j]
  {
    if k == 0 then []
    else
      var rest := MatchingBelow(users, k - 1, search, status, role);
      if k - 1 in users && Listed(users[k - 1], search, status, role) then
        assert forall i :: 0 <= i < |rest| ==> rest[i] in rest;
        [k - 1] + rest
      else rest
  }

  /** One more id down: the listing so far plus the users below `k - 1`. */
  lemma MatchingBelowStep(users: map<UserId, UserRow>, k: nat, search: Option<string>, status: Option<string>, role: Option<string>, all: seq<UserId>)
    requires k > 0
    ensures var hit := k - 1 in users && Listed(users[k - 1], search, status, role);
      all + MatchingBelow(users, k, search, status, role)
      == (if hit then all + [k - 1] else all) + MatchingBelow(users, k - 1, search, status, role)
  {
  }

  /** The loop of the listing: the ids from `n - 1` down to 0 that the WHERE clause keeps. */
  method CollectMatching(users: map<UserId, UserRow>, n: nat, search: Option<string>, status: Option<string>, role: Option<string>)
    returns (all: seq<UserId>)
    ensures all == MatchingBelow(users, n, search, status, role)
  {
    all := [];
    var k: nat := n;
    while k > 0
      invariant k <= n
      invariant all + MatchingBelow(users, k, search, status, role) == MatchingBelow(users, n, search, status, role)
    {
      MatchingBelowStep(users, k, search, status, role, all);
      k := k - 1;
      if k in users && Listed(users[k], search, status, role) {
        all := all + [k];
      }
    }
    assert all == all + MatchingBelow(users, 0, search, status, role);
  }

  /** With an offset of 0 and a limit of at least the number of ids, the page holds every matching user. */
  lemma FirstPageHoldsAll(users: map<UserId, UserRow>, k: nat, search: Option<string>, status: Option<string>, role: Option<string>, limit: nat)
    requires limit >= k
    ensures Slice(MatchingBelow(users, k, search, status, role), 0, limit) == MatchingBelow(users, k, search, status, role)
  {
    var m := MatchingBelow(users, k, search, status, role);
    assert forall i :: 0 <= i < |m| ==> m[i] in m;
    DistinctBelowBound(m, k);
    assert m[0..|m|] == m;
  }

  /** A list of distinct naturals below `k`, in decreasing order, has at most `k` elements. */
  lemma {:induction false} DistinctBelowBound(s: seq<nat>, k: nat)
    requires forall i :: 0 <= i < |s| ==> s[i] < k
    requires forall i, j :: 0 <= i < j < |s| ==> s[i] > s[j]
    ensures |s| <= k
    decreases k
  {
    if s != [] {
      DistinctBelowBound(s[1..], s[0]);
    }
  }

  // ---------------------------------------------------------------------
  // POST /users and PUT /users/:id
  // ---------------------------------------------------------------------

  /** The POST /users body; None for a field left out. */
  datatype NewUserInput = NewUserInput(
    name: Option<string>, email: Option<string>, password: Option<string>,
    title: Option<string>, department: Option<string>, isAdmin: Option<bool>, isModerator: Option<bool>)

  /** The validators of lines 111-118; `isEmail` stands for validator.js's address test. */
  predicate NewUserAccepted(p: NewUserInput, isEmail: string -> bool) {
    && p.name.Some? && |Trim(p.name.value)| >= 2
    && p.email.Some? && isEmail(p.email.value)
    && p.password.Some? && |p.password.value| >= 6
  }

  /** The row lines 143-147 insert: trimmed text, NULL for an empty title or department, flags false unless given. */
  function CreatedRow(p: NewUserInput, normalize: string -> string, hash: string -> string): (u: UserRow)
    requires p.name.Some? && p.email.Some? && p.password.Some?
    ensures u.email == normalize(p.email.value) && u.passwordHash == hash(p.password.value)
    ensures u.isActive && !u.isSuspended && u.suspensionReason.None? && u.status == Offline
    ensures u.isAdmin <==> p.isAdmin == Some(true)
    ensures u.isModerator <==> p.isModerator == Some(true)
    ensures u.title.Some? ==> u.title.value != "" && p.title.Some?
  {
    var title := OrNull(TrimOpt(p.title));
    var department := OrNull(TrimOpt(p.department));
    UserRow(Trim(p.name.value), normalize(p.email.value), hash(p.password.value), None,
            title, department, None, Offline,
            p.isModerator.GetOr(false), false, None, None, p.isAdmin.GetOr(false), true)
  }

  /** The PUT /users/:id body; None for a field left out. */
  datatype AdminUserInput = AdminUserInput(
    name: Option<string>, email: Option<string>, title: Option<string>, department: Option<string>,
    isAdmin: Option<bool>, isModerator: Option<bool>, isActive: Option<bool>, isSuspended: Option<bool>)

  /** A body the validators (lines 164-171) let through, with the sanitizers applied. */
  datatype AdminUpdate = AdminUpdate(
    name: Option<string>, email: Option<string>, title: Option<string>, department: Option<string>,
    isAdmin: Option<bool>, isModerator: Option<bool>, isActive: Option<bool>, isSuspended: Option<bool>)

  function ValidatedAdminUpdate(p: AdminUserInput, isEmail: string -> bool, normalize: string -> string): (r: Option<AdminUpdate>)
    ensures r.Some? <==>
      (p.name.Some? ==> |Trim(p.name.value)| >= 2) && (p.email.Some? ==> isEmail(p.email.value))
    ensures r.Some? ==> (r.value.email.Some? <==> p.email.Some?)
    ensures r.Some? && p.email.Some? ==> r.value.email == Some(normalize(p.email.value))
    ensures r.Some? ==> r.value.isAdmin == p.isAdmin && r.value.isModerator == p.isModerator && r.value.isActive == p.isActive
  {
    if (p.name.Some? && |Trim(p.name.value)| < 2) || (p.email.Some? && !isEmail(p.email.value)) then None
    else
      var email := if p.email.Some? then Some(normalize(p.email.value)) else None;
      Some(AdminUpdate(TrimOpt(p.name), email, TrimOpt(p.title), TrimOpt(p.department),
                       p.isAdmin, p.isModerator, p.isActive, p.isSuspended))
  }

  /** The body asks to change one of the caller's own privileges (line 193). */
  predicate ChangesPrivileges(q: AdminUpdate) {
    q.isAdmin.Some? || q.isModerator.Some? || q.isActive.Some?
  }

  predicate EmptyUpdate(q: AdminUpdate) {
    && q.name.None? && q.email.None? && q.title.None? && q.department.None?
    && q.isAdmin.None? && q.isModerator.None? && q.isActive.None? && q.isSuspended.None?
  }

  /** Another row already holds the non-empty e-mail the body supplies (lines 197-206). */
  predicate EmailTaken(users: map<UserId, UserRow>, id: UserId, q: AdminUpdate) {
    q.email.Some? && q.email.value != "" && exists o :: o in users && o != id && users[o].email == q.email.value
  }

  /** The 400 answers of lines 191-220 for a user that exists. */
  predicate UpdateRefused(users: map<UserId, UserRow>, id: UserId, q: AdminUpdate, namesCaller: bool) {
    (namesCaller && ChangesPrivileges(q)) || EmailTaken(users, id, q) || EmptyUpdate(q)
  }

  /**
   * `UPDATE users ... WHERE id = ?` fails: the parameter's reading
   * truncates, a text column would overflow, or another row holds the
   * e-mail.
   */
  predicate StoreFails(users: map<UserId, UserRow>, id: UserId, param: string, row: UserRow) {
    SqlNumber(param).truncated || !UserTextFits(row) || exists o :: o in users && o != id && users[o].email == row.email
  }

  /** `UPDATE users SET <supplied columns> WHERE id = ?` on one row (lines 208-228). */
  function WithAdminUpdate(u: UserRow, q: AdminUpdate): UserRow {
    u.(name := q.name.GetOr(u.name), email := q.email.GetOr(u.email),
       title := if q.title.Some? then q.title else u.title,
       department := if q.department.Some? then q.department else u.department,
       isAdmin := q.isAdmin.GetOr(u.isAdmin), isModerator := q.isModerator.GetOr(u.isModerator),
       isActive := q.isActive.GetOr(u.isActive), isSuspended := q.isSuspended.GetOr(u.isSuspended))
  }

  /** The password, profile and suspension details are never touched; an empty body changes nothing. */
  lemma AdminUpdateKeepsOtherColumns(u: UserRow, q: AdminUpdate)
    ensures var v := WithAdminUpdate(u, q);
      && v.passwordHash == u.passwordHash && v.avatar == u.avatar && v.bio == u.bio && v.status == u.status
      && v.suspensionReason == u.suspensionReason && v.suspensionEnd == u.suspensionEnd
      && (q.email.None? ==> v.email == u.email)
      && (!ChangesPrivileges(q) ==> v.isAdmin == u.isAdmin && v.isModerator == u.isModerator && v.isActive == u.isActive)
    ensures EmptyUpdate(q) ==> WithAdminUpdate(u, q) == u
  {
  }

  /** Sending the same body twice leaves the row as the first one did. */
  lemma AdminUpdateIdempotent(u: UserRow, q: AdminUpdate)
    ensures WithAdminUpdate(WithAdminUpdate(u, q), q) == WithAdminUpdate(u, q)
  {
  }

  // ---------------------------------------------------------------------
  // Bans (lines 276-335)
  // ---------------------------------------------------------------------

  const SecondsPerDay: nat := 86400

  /** The validators of lines 277-278: a reason of five characters or more once trimmed, 1 to 365 whole days. */
  predicate BanAccepted(reason: Option<string>, duration: Option<int>) {
    reason.Some? && |Trim(reason.value)| >= 5 && duration.Some? && 1 <= duration.value <= 365
  }

  /** Lines 298-303: suspended, with the trimmed reason, until `duration` days after now. */
  function Banned(u: UserRow, reason: string, now: nat, days: nat): (v: UserRow)
    requires 1 <= days
    ensures v.isSuspended && v.suspensionReason == Some(reason)
    ensures v.suspensionEnd.Some? && v.suspensionEnd.value > now
    ensures v.email == u.email && v.isActive == u.isActive && v.isAdmin == u.isAdmin
  {
    u.(isSuspended := true, suspensionReason := Some(reason), suspensionEnd := Some(now + days * SecondsPerDay))
  }

  /** Lines 322-327: not suspended, with no reason and no end. */
  function Unbanned(u: UserRow): UserRow {
    u.(isSuspended := false, suspensionReason := None, suspensionEnd := None)
  }

  /** Unbanning a user who was not suspended before the ban restores the row. */
  lemma UnbanUndoesBan(u: UserRow, reason: string, now: nat, days: nat)
    requires 1 <= days
    requires !u.isSuspended && u.suspensionReason.None? && u.suspensionEnd.None?
    ensures Unbanned(Banned(u, reason, now, days)) == u
    ensures Unbanned(u) == u
  {
  }

  /** A second ban replaces the first one's reason and end: nothing of the first remains. */
  lemma BanOverridesBan(u: UserRow, r1: string, r2: string, now: nat, d1: nat, d2: nat)
    requires 1 <= d1 && 1 <= d2
    ensures Banned(Banned(u, r1, now, d1), r2, now, d2) == Banned(u, r2, now, d2)
  {
  }

  // ---------------------------------------------------------------------
  // POST /broadcast (lines 658-697)
  // ---------------------------------------------------------------------

  const BroadcastTypes: set<string> := {"announcement", "maintenance", "update"}

  predicate BroadcastAccepted(title: string, body: string, kind: string) {
    |Trim(title)| >= 5 && |Trim(body)| >= 10 && kind in BroadcastTypes
  }

  /** `SELECT id FROM users WHERE is_active = TRUE` */
  function ActiveUsers(users: map<UserId, UserRow>): (r: set<UserId>)
    ensures forall u :: u in r <==> u in users && users[u].isActive
  {
    set u | u in users && users[u].isActive
  }

  /** The rows lines 671-683 insert: one unread notification for each recipient, without a related id. */
  function BroadcastRows(recipients: seq<UserId>, kind: string, title: string, body: string): (rows: seq<Notification>)
    ensures |rows| == |recipients|
    ensures forall i :: 0 <= i < |rows| ==>
      rows[i] == Notification(recipients[i], kind, title, body, None, false)
  {
    if recipients == [] then []
    else [Notification(recipients[0], kind, title, body, None, false)] + BroadcastRows(recipients[1..], kind, title, body)
  }

  /** One unread row of the broadcast for each active user and for nobody else, nobody twice. */
  ghost predicate Delivered(added: seq<Notification>, users: map<UserId, UserRow>, kind: string, title: string, body: string) {
    && (forall i :: 0 <= i < |added| ==>
          added[i].kind == kind && added[i].title == title && added[i].content == body && !added[i].isRead)
    && (forall u :: u in users && users[u].isActive <==> exists i :: 0 <= i < |added| && added[i].user == u)
    && (forall i, j :: 0 <= i < j < |added| ==> added[i].user != added[j].user)
  }

  /** The rows built for the active users, each listed once, reach exactly them. */
  lemma RowsDelivered(recipients: seq<UserId>, users: map<UserId, UserRow>, kind: string, title: string, body: string)
    requires NoDup(recipients)
    requires forall u :: u in recipients <==> u in users && users[u].isActive
    ensures Delivered(BroadcastRows(recipients, kind, title, body), users, kind, title, body)
  {
    var rows := BroadcastRows(recipients, kind, title, body);
    forall u | u in users && users[u].isActive ensures exists i :: 0 <= i < |rows| && rows[i].user == u {
      var i :| 0 <= i < |recipients| && recipients[i] == u;
      assert rows[i].user == u;
    }
  }

  /**
   * The table after a broadcast to the active users, each listed once:
   * the old rows stay in front, the new ones reach exactly the active
   * users, and every reference still holds.
   */
  lemma BroadcastOutcome(
    users: map<UserId, UserRow>, nextUser: UserId, content: set<ContentRow>, notifications: seq<Notification>,
    settings: map<UserId, SettingsRow>, eventRefs: set<UserId>, recipients: seq<UserId>,
    kind: string, title: string, body: string, after: seq<Notification>)
    requires Integrity(users, nextUser, content, notifications, settings, eventRefs)
    requires NoDup(recipients)
    requires forall u :: u in recipients <==> u in users && users[u].isActive
    requires after == notifications + BroadcastRows(recipients, kind, title, body)
    ensures Integrity(users, nextUser, content, after, settings, eventRefs)
    ensures |after| == |notifications| + |recipients|
    ensures after[..|notifications|] == notifications
    ensures Delivered(after[|notifications|..], users, kind, title, body)
  {
    var rows := BroadcastRows(recipients, kind, title, body);
    RowsDelivered(recipients, users, kind, title, body);
    assert after[|notifications|..] == rows;
    assert after[..|notifications|] == notifications;
    forall n | n in after ensures n.user in users {
      if n !in notifications {
        var i :| 0 <= i < |rows| && rows[i] == n;
        assert recipients[i] in recipients;
      }
    }
  }

  /** None of the three types a broadcast may carry is a value of the `notifications.type` ENUM. */
  lemma BroadcastRowsRejected(recipients: seq<UserId>, kind: string, title: string, body: string)
    requires kind in BroadcastTypes && recipients != []
    ensures !AcceptsNotifications(BroadcastRows(recipients, kind, title, body))
  {
    RouteTypesOutsideEnum();
    assert BroadcastRows(recipients, kind, title, body)[0].kind == kind;
  }

  // ---------------------------------------------------------------------
  // PUT /user-settings/:id (lines 720-780)
  // ---------------------------------------------------------------------

  /** The time zones this route accepts: the settings page's list without Africa/Casablanca (lines 725-729). */
  const AdminTimezones: set<string> := {
    "UTC", "America/New_York", "America/Chicago", "America/Denver", "America/Los_Angeles",
    "Europe/London", "Europe/Paris", "Asia/Tokyo"}

  /** A JSON value in the body: a string, a boolean or an integer. */
  datatype SettingValue = Word(s: string) | Flag(b: bool) | Number(n: int)

  /** The request body, as its keys come out of `Object.keys`. */
  type SettingsBody = seq<(string, SettingValue)>

  /** The columns of `user_settings` (backend/config/database.js:257-264). */
  const SettingColumns: set<string> := {"user_id", "theme", "notifications", "email_notifications", "language", "timezone", "font_size"}

  const FlagKeys: set<string> := {"notifications", "email_notifications"}

  /** The texts `isBoolean` accepts; a number passes as its decimal text. */
  const BooleanTexts: set<string> := {"true", "false", "1", "0"}

  /** What a BOOLEAN column stores for a value: `1` and `0` as text or number convert, other text does not. */
  function FlagValue(v: SettingValue): (f: Option<bool>)
    ensures v.Flag? ==> f == Some(v.b)
    ensures f.Some? && v.Word? ==> v.s in {"1", "0"}
  {
    match v
    case Flag(b) => Some(b)
    case Word(s) => if s == "1" then Some(true) else if s == "0" then Some(false) else None
    case Number(n) => if n == 1 then Some(true) else if n == 0 then Some(false) else None
  }

  predicate DistinctKeys(body: SettingsBody) {
    forall i, j :: 0 <= i < j < |body| ==> body[i].0 != body[j].0
  }

  predicate KeyAbsent(body: SettingsBody, key: string) {
    forall k :: 0 <= k < |body| ==> body[k].0 != key
  }

  /** The validator of one key; keys that no validator names pass. */
  predicate PairAccepted(p: (string, SettingValue)) {
    && (p.0 == "theme" ==> p.1.Word? && p.1.s in Themes)
    && (p.0 in FlagKeys ==> p.1.Flag? || (p.1.Word? && p.1.s in BooleanTexts) || (p.1.Number? && 0 <= p.1.n <= 1))
    && (p.0 == "language" ==> p.1.Word? && p.1.s in Languages)
    && (p.0 == "timezone" ==> p.1.Word? && p.1.s in AdminTimezones)
    && (p.0 == "font_size" ==> p.1.Word? && p.1.s in FontSizes)
  }

  predicate BodyAccepted(body: SettingsBody) {
    forall k :: 0 <= k < |body| ==> PairAccepted(body[k])
  }

  /** The value the body gives a key, if it names the key. */
  function Lookup(body: SettingsBody, key: string): (v: Option<SettingValue>)
    ensures v.None? <==> KeyAbsent(body, key)
  {
    if body == [] then None
    else if body[0].0 == key then Some(body[0].1)
    else
      var v := Lookup(body[1..], key);
      assert KeyAbsent(body, key) <==> KeyAbsent(body[1..], key) by {
        assert forall k :: 0 <= k < |body[1..]| ==> body[1..][k] == body[k + 1];
      }
      v
  }

  /** A value the body gives is one of its pairs. */
  lemma {:induction false} LookupFound(body: SettingsBody, key: string)
    requires Lookup(body, key).Some?
    ensures (key, Lookup(body, key).value) in body
  {
    if body[0].0 != key {
      LookupFound(body[1..], key);
    }
  }

  function WordAt(body: SettingsBody, key: string): Option<string> {
    match Lookup(body, key)
    case Some(Word(s)) => Some(s)
    case _ => None
  }

  function FlagAt(body: SettingsBody, key: string): Option<bool> {
    match Lookup(body, key)
    case Some(v) => FlagValue(v)
    case None => None
  }

  /** The body read as the settings page's PUT body, column by column. */
  function AsInput(body: SettingsBody): SettingsInput {
    SettingsInput(WordAt(body, "theme"), FlagAt(body, "notifications"), FlagAt(body, "email_notifications"),
                  WordAt(body, "language"), WordAt(body, "timezone"), WordAt(body, "font_size"))
  }

  /** `key = ?` for one column other than `user_id`. */
  function SetColumn(row: SettingsRow, p: (string, SettingValue)): SettingsRow {
    var f := FlagValue(p.1);
    if p.0 == "notifications" && f.Some? then row.(notifications := f.value)
    else if p.0 == "email_notifications" && f.Some? then row.(emailNotifications := f.value)
    else if p.1.Word? then
      if p.0 == "theme" then row.(theme := p.1.s)
      else if p.0 == "language" then row.(language := p.1.s)
      else if p.0 == "timezone" then row.(timezone := p.1.s)
      else if p.0 == "font_size" then row.(fontSize := p.1.s)
      else row
    else row
  }

  /**
   * The UPDATE takes the pair: the key names a column, a BOOLEAN column
   * gets a value it converts (`"true"` is not an integer in strict mode),
   * and `user_id` gets a number.
   */
  predicate Storable(p: (string, SettingValue)) {
    && p.0 in SettingColumns
    && (p.0 in FlagKeys ==> FlagValue(p.1).Some?)
    && (p.0 == "user_id" ==> p.1.Number?)
  }

  /** `UPDATE user_settings SET k1 = ?, k2 = ?, ...`: every assignment of the body, left to right. */
  function SetAll(row: SettingsRow, body: SettingsBody): SettingsRow
    decreases |body|
  {
    if body == [] then row else SetAll(SetColumn(row, body[0]), body[1..])
  }

  /**
   * An accepted body with distinct keys changes the row exactly as the
   * settings page's own PUT changes it for the same columns.
   */
  lemma {:induction false} SetAllIsApplied(row: SettingsRow, body: SettingsBody)
    requires DistinctKeys(body) && BodyAccepted(body)
    ensures SetAll(row, body) == Applied(row, AsInput(body))
    decreases |body|
  {
    if body != [] {
      var rest := body[1..];
      assert forall k :: 0 <= k < |rest| ==> rest[k] == body[k + 1];
      assert DistinctKeys(rest) && BodyAccepted(rest);
      SetAllIsApplied(SetColumn(row, body[0]), rest);
      FirstAssignment(row, body);
    }
  }

  /** The first assignment followed by the rest of the body is the whole body. */
  lemma FirstAssignment(row: SettingsRow, body: SettingsBody)
    requires body != [] && DistinctKeys(body) && PairAccepted(body[0])
    ensures Applied(SetColumn(row, body[0]), AsInput(body[1..])) == Applied(row, AsInput(body))
  {
    var p := body[0];
    var rest := body[1..];
    assert KeyAbsent(rest, p.0) by {
      assert forall k :: 0 <= k < |rest| ==> rest[k] == body[k + 1];
    }
    var a := AsInput(rest);
    var b := AsInput(body);
    assert forall key :: key != p.0 ==> Lookup(body, key) == Lookup(rest, key);
    assert Lookup(body, p.0) == Some(p.1) && Lookup(rest, p.0).None?;
    if p.0 == "theme" {
      assert b == a.(theme := Some(p.1.s));
    } else if p.0 == "notifications" {
      assert b == a.(notifications := FlagValue(p.1));
    } else if p.0 == "email_notifications" {
      assert b == a.(emailNotifications := FlagValue(p.1));
    } else if p.0 == "language" {
      assert b == a.(language := Some(p.1.s));
    } else if p.0 == "timezone" {
      assert b == a.(timezone := Some(p.1.s));
    } else if p.0 == "font_size" {
      assert b == a.(fontSize := Some(p.1.s));
    } else {
      assert b == a;
    }
  }

  /** Every value an accepted body gives lies in the set the settings page accepts. */
  lemma BodyAcceptedIsAccepted(body: SettingsBody)
    requires BodyAccepted(body)
    ensures Accepted(AsInput(body))
  {
    forall key | Lookup(body, key).Some?
      ensures PairAccepted((key, Lookup(body, key).value))
    {
      LookupFound(body, key);
    }
  }

  /**
   * The UPDATE of lines 767-770 goes through: every pair is storable, the
   * parameter reads without a truncation, and a new `user_id` names a user
   * that has no settings row (the primary key and the foreign key).
   */
  predicate UpdateApplies(settings: map<UserId, SettingsRow>, users: map<UserId, UserRow>, id: UserId, param: string, body: SettingsBody) {
    && (forall k :: 0 <= k < |body| ==> Storable(body[k]))
    && !SqlNumber(param).truncated
    && var owner := Lookup(body, "user_id");
       owner.Some? ==> owner.value.Number? && (owner.value.n == id || (owner.value.n >= 0 && owner.value.n in users && owner.value.n !in settings))
  }

  /** The settings after that UPDATE: the row takes the body's values, under the new `user_id` when the body gives one. */
  function Updated(settings: map<UserId, SettingsRow>, id: UserId, body: SettingsBody): (r: map<UserId, SettingsRow>)
    requires id in settings
    ensures var owner := Lookup(body, "user_id");
      owner.Some? && owner.value.Number? && owner.value.n >= 0 && owner.value.n != id ==>
        r == (settings - {id})[owner.value.n := Applied(settings[id], AsInput(body))]
    ensures Lookup(body, "user_id").None? ==> r == settings[id := Applied(settings[id], AsInput(body))]
  {
    var row := Applied(settings[id], AsInput(body));
    match Lookup(body, "user_id")
    case Some(Number(n)) => if n >= 0 && n != id then (settings - {id})[n as nat := row] else settings[id := row]
    case _ => settings[id := row]
  }

  /** `isBoolean` lets the texts `"true"` and `"1"` through; MariaDB stores `"1"` and refuses `"true"`. */
  lemma BooleanTextsStored()
    ensures PairAccepted(("notifications", Word("true"))) && !Storable(("notifications", Word("true")))
    ensures PairAccepted(("notifications", Word("1"))) && Storable(("notifications", Word("1")))
    ensures PairAccepted(("notifications", Number(0))) && FlagValue(Number(0)) == Some(false)
  {
  }

  /** Africa/Casablanca is a time zone users may pick for themselves but an administrator may not set for them. */
  lemma TimezoneListsDisagree()
    ensures Accepted(SettingsInput(None, None, None, None, Some("Africa/Casablanca"), None))
    ensures !BodyAccepted([("timezone", Word("Africa/Casablanca"))])
  {
    assert !PairAccepted([("timezone", Word("Africa/Casablanca"))][0]);
  }

  // ---------------------------------------------------------------------
  // The console
  // ---------------------------------------------------------------------

  class Console {
    var users: map<UserId, UserRow>
    var nextUser: UserId                     // the next AUTO_INCREMENT id of `users`
    var content: set<ContentRow>
    var notifications: seq<Notification>
    var config: map<string, string>          // `system_config`: config_key (UNIQUE) to config_value
    var settings: map<UserId, SettingsRow>   // `user_settings`
    const eventRefs: set<UserId>             // users an event or an event mention refers to
    var clock: nat                           // NOW(), in seconds

    ghost predicate Valid()
      reads this
    {
      Integrity(users, nextUser, content, notifications, settings, eventRefs)
    }

    /** The caller the router's gates let through: an active site administrator. */
    predicate IsAdminCaller(me: CurrentUser)
      reads this
    {
      me.isAdmin && me.id in users && users[me.id].isActive && users[me.id].isAdmin
    }

    constructor (users: map<UserId, UserRow>, nextUser: UserId, content: set<ContentRow>, eventRefs: set<UserId>)
      requires Integrity(users, nextUser, content, [], map[], eventRefs)
      ensures Valid()
      ensures this.users == users && this.nextUser == nextUser && this.content == content && this.eventRefs == eventRefs
      ensures notifications == [] && config == map[] && settings == map[] && clock == 0
    {
      this.users := users;
      this.nextUser := nextUser;
      this.content := content;
      this.eventRefs := eventRefs;
      notifications := [];
      config := map[];
      settings := map[];
      clock := 0;
    }

    method Tick(seconds: nat)
      modifies this`clock
      ensures clock == old(clock) + seconds
    {
      clock := clock + seconds;
    }

    /**
     * GET /users (lines 71-108): one page of the matching users, newest
     * (highest id) first; `total` is the length of that page. `limit` and
     * `offset` are what `parseInt` makes of the query (None for NaN); MariaDB
     * refuses a NaN or negative LIMIT or OFFSET, and the route answers 500.
     */
    method ListUsers(search: Option<string>, status: Option<string>, role: Option<string>, limit: Option<int>, offset: Option<int>)
      returns (r: Response<(seq<UserId>, nat)>)
      requires Valid()
      ensures r.Ok? || r.ServerError?
      ensures r.ServerError? <==> !PageBounds(limit, offset)
      ensures r.Ok? ==>
        && r.value.0 == Slice(MatchingBelow(users, nextUser, search, status, role), offset.value as nat, limit.value as nat)
        && r.value.1 == |r.value.0|
    {
      if !PageBounds(limit, offset) {
        return ServerError;
      }
      var all := CollectMatching(users, nextUser, search, status, role);
      var page := Slice(all, offset.value as nat, limit.value as nat);
      r := Ok((page, |page|));
    }

    /**
     * POST /users (lines 110-161): 400 for a body the validators refuse or
     * an e-mail a user already has; 500 when the name, title or department
     * is too long for its column; otherwise a new active account under the
     * next id.
     */
    method CreateUser(me: CurrentUser, p: NewUserInput, isEmail: string -> bool, normalize: string -> string, hash: string -> string)
      returns (r: Response<UserId>)
      requires Valid() && IsAdminCaller(me)
      modifies this`users, this`nextUser
      ensures Valid()
      ensures r.Created? || r.BadRequest? || r.ServerError?
      ensures r.BadRequest? <==> !NewUserAccepted(p, isEmail) || normalize(p.email.value) in Emails(old(users))
      ensures r.ServerError? <==>
        NewUserAccepted(p, isEmail) && normalize(p.email.value) !in Emails(old(users)) && !UserTextFits(CreatedRow(p, normalize, hash))
      ensures r.Created? ==>
        && r.value == old(nextUser) && r.value !in old(users)
        && users == old(users)[r.value := CreatedRow(p, normalize, hash)] && nextUser == old(nextUser) + 1
      ensures !r.Created? ==> users == old(users) && nextUser == old(nextUser)
    {
      if !NewUserAccepted(p, isEmail) {
        return BadRequest;
      }
      var email := normalize(p.email.value);
      if exists o :: o in users && users[o].email == email {
        return BadRequest;
      }
      if !UserTextFits(CreatedRow(p, normalize, hash)) {
        return ServerError;
      }
      var id := InsertUser(CreatedRow(p, normalize, hash));
      r := Created(id);
    }

    /** `INSERT INTO users` of a row whose e-mail no row holds, under the next AUTO_INCREMENT id. */
    method InsertUser(row: UserRow) returns (id: UserId)
      requires Valid() && forall o :: o in users ==> users[o].email != row.email
      modifies this`users, this`nextUser
      ensures Valid()
      ensures id == old(nextUser) && id !in old(users)
      ensures users == old(users)[id := row] && nextUser == old(nextUser) + 1
    {
      InsertionKeepsIntegrity(users, nextUser, content, notifications, settings, eventRefs, row);
      id := nextUser;
      users, nextUser := users[id := row], nextUser + 1;
    }

    /** `UPDATE users SET ... WHERE id = ?` with a row whose e-mail is its own or one no other row holds. */
    method StoreUser(id: UserId, row: UserRow)
      requires Valid() && id in users
      requires row.email == users[id].email || forall o :: o in users && o != id ==> users[o].email != row.email
      modifies this`users
      ensures Valid()
      ensures users == old(users)[id := row]
    {
      if row.email == users[id].email {
        SameEmailKeepsIntegrity(users, nextUser, content, notifications, settings, eventRefs, id, row);
      } else {
        RowChangeKeepsIntegrity(users, nextUser, content, notifications, settings, eventRefs, id, row);
      }
      users := users[id := row];
    }

    /**
     * PUT /users/:id (lines 163-236). In order: 400 for a body the
     * validators refuse; 404 when the parameter names no user; 400 when it
     * is `==` to the caller's id and the body touches a privilege; 400 for
     * an e-mail another user holds; 400 for an empty body; then the UPDATE,
     * which fails with 500 on a parameter its reading truncates, a name,
     * title or department too long for its column, or an empty e-mail that
     * another row holds (the lookup of line 197 skips the empty one).
     */
    method UpdateUser(me: CurrentUser, param: string, p: AdminUserInput, isEmail: string -> bool, normalize: string -> string)
      returns (r: Response<()>)
      requires Valid() && IsAdminCaller(me)
      modifies this`users
      ensures Valid()
      ensures r.Ok? || r.BadRequest? || r.NotFound? || r.ServerError?
      ensures var v := ValidatedAdminUpdate(p, isEmail, normalize);
        var key := SqlKey(param);
        && (v.None? ==> r == BadRequest)
        && (v.Some? ==> (r.NotFound? <==> key.None? || key.value !in old(users)))
        && (v.Some? && key.Some? && key.value in old(users) ==>
              var row := WithAdminUpdate(old(users)[key.value], v.value);
              && (r.BadRequest? <==> UpdateRefused(old(users), key.value, v.value, NamesCaller(param, me.id)))
              && (r.ServerError? <==>
                    !UpdateRefused(old(users), key.value, v.value, NamesCaller(param, me.id))
                    && StoreFails(old(users), key.value, param, row))
              && (r.Ok? ==> users == old(users)[key.value := row]))
      ensures !r.Ok? ==> users == old(users)
      ensures r.Ok? ==> users[me.id].isAdmin && users[me.id].isActive && users[me.id].isModerator == old(users)[me.id].isModerator
    {
      var v := ValidatedAdminUpdate(p, isEmail, normalize);
      if v.None? {
        return BadRequest;
      }
      var q := v.value;
      var key := SqlKey(param);
      if key.None? || key.value !in users {
        return NotFound;
      }
      var id := key.value;
      if UpdateRefused(users, id, q, NamesCaller(param, me.id)) {
        return BadRequest;
      }
      var row := WithAdminUpdate(users[id], q);
      if StoreFails(users, id, param, row) {
        return ServerError;
      }
      AdminUpdateKeepsOtherColumns(users[id], q);
      if id == me.id {
        SelfTestCatchesOwnRow(param, me.id);
      }
      StoreUser(id, row);
      r := Ok(());
    }

    /**
     * DELETE /users/:id (lines 238-274): 404 when the parameter names no
     * user, 400 when it is `==` to the caller's id. With `permanent=true`
     * the user's posts, comments, likes, sent messages and memberships are
     * deleted one statement at a time, each with its cascades, and then
     * the user, whose spaces cascade too; that last statement fails for a
     * user an event refers to, after the others have run. Otherwise the
     * account is deactivated. A parameter whose reading truncates fails the
     * first UPDATE or DELETE, so nothing changes.
     */
    method DeleteUser(me: CurrentUser, param: string, permanent: Option<string>) returns (r: Response<()>)
      requires Valid() && IsAdminCaller(me)
      modifies this`users, this`content, this`notifications, this`settings
      ensures Valid()
      ensures var key := SqlKey(param);
        var found := key.Some? && key.value in old(users);
        && (r.NotFound? <==> !found)
        && (r.BadRequest? <==> found && NamesCaller(param, me.id))
        && (r.ServerError? <==>
              found && !NamesCaller(param, me.id)
              && (SqlNumber(param).truncated || (permanent == Some("true") && key.value in eventRefs)))
        && (r.NotFound? || r.BadRequest? || (r.ServerError? && SqlNumber(param).truncated) ==> unchanged(this))
        && (r.ServerError? && !SqlNumber(param).truncated ==>
              && content == Survivors(old(content) - OwnedIn(old(content), PurgedTables, key.value))
              && users == old(users) && notifications == old(notifications) && settings == old(settings))
        && (r.Ok? && permanent == Some("true") ==>
              && content == Survivors(old(content) - OwnedIn(old(content), AllTables, key.value))
              && users == old(users) - {key.value} && settings == old(settings) - {key.value}
              && notifications == Filter(old(notifications), (n: Notification) => n.user != key.value))
        && (r.Ok? && permanent != Some("true") ==>
              && users == old(users)[key.value := old(users)[key.value].(isActive := false)]
              && content == old(content) && notifications == old(notifications) && settings == old(settings))
      ensures r.Ok? ==> me.id in users && users[me.id] == old(users)[me.id]
    {
      var key := SqlKey(param);
      if key.None? || key.value !in users {
        return NotFound;
      }
      var id := key.value;
      if NamesCaller(param, me.id) {
        return BadRequest;
      }
      if SqlNumber(param).truncated {
        return ServerError;
      }
      if id == me.id {
        SelfTestCatchesOwnRow(param, me.id);
      }
      if permanent == Some("true") {
        PurgeContent(id);
        if id in eventRefs {
          return ServerError;
        }
        ghost var purged := content;
        RemoveUser(id);
        SurvivorsOfSuccessiveDeletes(old(content), OwnedIn(old(content), PurgedTables, id), OwnedIn(old(content), {SpacesTable}, id));
        assert purged - OwnedIn(purged, {SpacesTable}, id)
            == Survivors(old(content) - OwnedIn(old(content), PurgedTables, id)) - OwnedIn(old(content), {SpacesTable}, id);
        assert OwnedIn(old(content), PurgedTables, id) + OwnedIn(old(content), {SpacesTable}, id) == OwnedIn(old(content), AllTables, id);
        r := Ok(());
      } else {
        var row := users[id].(isActive := false);
        StoreUser(id, row);
        r := Ok(());
      }
    }

    /** The DELETE statements of lines 253-257, each followed by what its cascades delete. */
    method PurgeContent(id: UserId)
      requires Valid()
      modifies this`content
      ensures Valid()
      ensures content == Survivors(old(content) - OwnedIn(old(content), PurgedTables, id))
    {
      ghost var c0 := content;
      DeleteOwned(PostsTable, id);
      ghost var done: set<Table> := {PostsTable};
      var rest := [CommentsTable, LikesTable, MessagesTable, UserSpacesTable];
      var i := 0;
      while i < |rest|
        invariant 0 <= i <= |rest| && Valid()
        invariant done == {PostsTable} + set t | t in rest[..i]
        invariant content == Survivors(c0 - OwnedIn(c0, done, id))
      {
        SuccessiveTables(c0, done, rest[i], id);
        DeleteOwned(rest[i], id);
        assert rest[..i + 1] == rest[..i] + [rest[i]];
        done := done + {rest[i]};
        i := i + 1;
      }
      assert rest[..i] == rest;
      assert done == PurgedTables;
    }

    /** `DELETE FROM <table> WHERE user_id = ?` and its cascades. */
    method DeleteOwned(t: Table, id: UserId)
      requires Valid()
      modifies this`content
      ensures Valid()
      ensures content == Survivors(old(content) - OwnedIn(old(content), {t}, id))
    {
      content := Survivors(content - OwnedIn(content, {t}, id));
    }

    /**
     * `DELETE FROM users WHERE id = ?` for a user no event refers to and
     * who owns no rows but spaces: the spaces, settings and notifications
     * cascade.
     */
    method RemoveUser(id: UserId)
      requires Valid() && id !in eventRefs
      requires forall c :: c in content && c.owner == id ==> c.table == SpacesTable
      modifies this`users, this`settings, this`notifications, this`content
      ensures Valid()
      ensures users == old(users) - {id} && settings == old(settings) - {id}
      ensures notifications == Filter(old(notifications), (n: Notification) => n.user != id)
      ensures content == Survivors(old(content) - OwnedIn(old(content), {SpacesTable}, id))
    {
      users := users - {id};
      settings := settings - {id};
      notifications := Filter(notifications, (n: Notification) => n.user != id);
      content := Survivors(content - OwnedIn(content, {SpacesTable}, id));
    }

    /**
     * POST /users/:id/ban (lines 276-311): 400 for a short reason or a
     * duration outside 1..365 days, 404 when the parameter names no user,
     * 400 when it is `==` to the caller's id, 500 when the UPDATE truncates
     * it or the reason is longer than its TEXT column; otherwise the user
     * is suspended until `duration` days from now.
     */
    method Ban(me: CurrentUser, param: string, reason: Option<string>, duration: Option<int>) returns (r: Response<()>)
      requires Valid() && IsAdminCaller(me)
      modifies this`users
      ensures Valid()
      ensures var key := SqlKey(param);
        var found := key.Some? && key.value in old(users);
        && (r.BadRequest? <==> !BanAccepted(reason, duration) || (found && NamesCaller(param, me.id)))
        && (r.NotFound? <==> BanAccepted(reason, duration) && !found)
        && (r.ServerError? <==>
              && BanAccepted(reason, duration) && found && !NamesCaller(param, me.id)
              && (SqlNumber(param).truncated || !FitsText(Trim(reason.value))))
        && (r.Ok? ==> users == old(users)[key.value := Banned(old(users)[key.value], Trim(reason.value), clock, duration.value as nat)])
      ensures !r.Ok? ==> users == old(users)
      ensures r.Ok? ==> SqlKey(param) != Some(me.id)
    {
      if !BanAccepted(reason, duration) {
        return BadRequest;
      }
      var key := SqlKey(param);
      if key.None? || key.value !in users {
        return NotFound;
      }
      var id := key.value;
      if NamesCaller(param, me.id) {
        return BadRequest;
      }
      if SqlNumber(param).truncated || !FitsText(Trim(reason.value)) {
        return ServerError;
      }
      if id == me.id {
        SelfTestCatchesOwnRow(param, me.id);
      }
      var row := Banned(users[id], Trim(reason.value), clock, duration.value as nat);
      StoreUser(id, row);
      r := Ok(());
    }

    /**
     * POST /users/:id/unban (lines 313-335): 404 when the parameter names
     * no user, 500 when the UPDATE truncates it; otherwise the suspension
     * is lifted.
     */
    method Unban(me: CurrentUser, param: string) returns (r: Response<()>)
      requires Valid() && IsAdminCaller(me)
      modifies this`users
      ensures Valid()
      ensures var key := SqlKey(param);
        var found := key.Some? && key.value in old(users);
        && (r.NotFound? <==> !found)
        && (r.ServerError? <==> found && SqlNumber(param).truncated)
        && (r.Ok? ==> users == old(users)[key.value := Unbanned(old(users)[key.value])])
      ensures r.Ok? || r.NotFound? || r.ServerError?
      ensures !r.Ok? ==> users == old(users)
    {
      var key := SqlKey(param);
      if key.None? || key.value !in users {
        return NotFound;
      }
      if SqlNumber(param).truncated {
        return ServerError;
      }
      var row := Unbanned(users[key.value]);
      StoreUser(key.value, row);
      r := Ok(());
    }

    /**
     * PUT /config (lines 631-656): 400 for a key shorter than three or an
     * empty value, once trimmed; 500 for a key longer than the column's
     * 100 characters or a value longer than its TEXT column; otherwise the
     * key is inserted or its value replaced.
     */
    method PutConfig(me: CurrentUser, key: Option<string>, value: Option<string>) returns (r: Response<()>)
      requires Valid() && IsAdminCaller(me)
      modifies this`config
      ensures r.BadRequest? <==> key.None? || value.None? || |Trim(key.value)| < 3 || |Trim(value.value)| < 1
      ensures r.ServerError? <==> !r.BadRequest? && (|Trim(key.value)| > 100 || !FitsText(Trim(value.value)))
      ensures r.Ok? ==> config == old(config)[Trim(key.value) := Trim(value.value)]
      ensures r.Ok? || r.BadRequest? || r.ServerError?
      ensures !r.Ok? ==> config == old(config)
    {
      if key.None? || value.None? || |Trim(key.value)| < 3 || |Trim(value.value)| < 1 {
        return BadRequest;
      }
      var k := Trim(key.value);
      if |k| > 100 || !FitsText(Trim(value.value)) {
        return ServerError;
      }
      config := config[k := Trim(value.value)];
      r := Ok(());
    }

    /**
     * POST /broadcast as written (lines 658-697): the rows carry the
     * broadcast's type in `notifications.type`, whose ENUM has none of the
     * three, so a validated broadcast always fails with 500 and reaches
     * nobody (the caller is an active user, so there is a recipient).
     * The answer would otherwise be the number of recipients.
     */
    method BroadcastAsWritten(me: CurrentUser, title: string, body: string, kind: string) returns (r: Response<nat>)
      requires Valid() && IsAdminCaller(me)
      modifies this`notifications
      ensures r.BadRequest? <==> !BroadcastAccepted(title, body, kind)
      ensures r.BadRequest? || r.ServerError?
      ensures notifications == old(notifications)
    {
      if !BroadcastAccepted(title, body, kind) {
        return BadRequest;
      }
      var recipients := Enumerate(ActiveUsers(users));
      assert me.id in recipients;
      var rows := BroadcastRows(recipients, kind, Trim(title), Trim(body));
      // The INSERT of lines 677-682 fails on its first row.
      BroadcastRowsRejected(recipients, kind, Trim(title), Trim(body));
      r := ServerError;
    }

    /**
     * POST /broadcast as intended: every active user receives exactly one
     * notification, and the answer reports how many received one. A title
     * too long for `notifications.title`, or a content too long for the
     * TEXT column `notifications.content`, still fails the INSERT with 500
     * (the caller is active, so there is always a row to insert).
     */
    method Broadcast(me: CurrentUser, title: string, body: string, kind: string) returns (r: Response<nat>)
      requires Valid() && IsAdminCaller(me)
      modifies this`notifications
      ensures Valid()
      ensures r.BadRequest? <==> !BroadcastAccepted(title, body, kind)
      ensures r.ServerError? <==>
        BroadcastAccepted(title, body, kind) && (!Fits(Trim(title), TextWidth) || !FitsText(Trim(body)))
      ensures r.BadRequest? || r.ServerError? || r.Ok?
      ensures !r.Ok? ==> notifications == old(notifications)
      ensures r.Ok? ==>
        && |notifications| == |old(notifications)| + r.value
        && notifications[..|old(notifications)|] == old(notifications)
        && Delivered(notifications[|old(notifications)|..], users, kind, Trim(title), Trim(body))
    {
      if !BroadcastAccepted(title, body, kind) {
        return BadRequest;
      }
      if !Fits(Trim(title), TextWidth) || !FitsText(Trim(body)) {
        return ServerError;
      }
      var recipients := Enumerate(ActiveUsers(users));
      var t, b := Trim(title), Trim(body);
      ghost var n0 := notifications;
      assert Integrity(users, nextUser, content, n0, settings, eventRefs);
      notifications := notifications + BroadcastRows(recipients, kind, t, b);
      assert Integrity(users, nextUser, content, n0, settings, eventRefs);
      BroadcastOutcome(users, nextUser, content, n0, settings, eventRefs, recipients, kind, t, b, notifications);
      r := Ok(|recipients|);
    }

    /** GET /user-settings/:id (lines 699-718): 404 when the parameter names no settings row. */
    function UserSettings(param: string): (r: Response<SettingsRow>)
      reads this
      ensures r.Ok? || r.NotFound?
      ensures r.NotFound? <==> SqlKey(param).None? || SqlKey(param).value !in settings
      ensures r.Ok? ==> r.value == settings[SqlKey(param).value]
    {
      var key := SqlKey(param);
      if key.Some? && key.value in settings then Ok(settings[key.value]) else NotFound
    }

    /**
     * PUT /user-settings/:id (lines 720-780): 400 for a value a validator
     * refuses; then, when the parameter names no settings row, a default
     * row is inserted for it (500 unless it reads cleanly as the id of a
     * user); then 400 for an empty body; then the UPDATE of every key of
     * the body, which fails with 500 unless `UpdateApplies`.
     */
    method PutUserSettings(me: CurrentUser, param: string, body: SettingsBody) returns (r: Response<()>)
      requires Valid() && IsAdminCaller(me)
      requires DistinctKeys(body)
      modifies this`settings
      ensures Valid()
      ensures r.Ok? || r.BadRequest? || r.ServerError?
      ensures var key := SqlKey(param);
        var has := key.Some? && key.value in old(settings);
        var inserts := !has && key.Some? && !SqlNumber(param).truncated && key.value in users;
        && (!BodyAccepted(body) ==> r == BadRequest && settings == old(settings))
        && (BodyAccepted(body) && !has && !inserts ==> r == ServerError && settings == old(settings))
        && (BodyAccepted(body) && (has || inserts) ==>
              var base := if has then old(settings) else old(settings)[key.value := DefaultSettings("UTC")];
              && (body == [] ==> r == BadRequest && settings == base)
              && (body != [] && !UpdateApplies(base, users, key.value, param, body) ==> r == ServerError && settings == base)
              && (body != [] && UpdateApplies(base, users, key.value, param, body) ==>
                    r == Ok(()) && settings == Updated(base, key.value, body)))
    {
      if !BodyAccepted(body) {
        return BadRequest;
      }
      var key := SqlKey(param);
      if key.None? || key.value !in settings {
        if key.None? || SqlNumber(param).truncated || key.value !in users {
          return ServerError;
        }
        StoreSettings(key.value, DefaultSettings("UTC"));
      }
      var id := key.value;
      var fields := UpdateFields(body);
      if |fields| == 0 {
        return BadRequest;
      }
      if !UpdateApplies(settings, users, id, param, body) {
        return ServerError;
      }
      var row := SetAll(settings[id], body);
      assert row == Applied(settings[id], AsInput(body)) && WellFormed(row) by {
        SetAllIsApplied(settings[id], body);
        BodyAcceptedIsAccepted(body);
        AcceptedKeepsWellFormed(settings[id], AsInput(body));
      }
      var owner := Lookup(body, "user_id");
      if owner.Some? && owner.value.n != id {
        MoveSettings(id, owner.value.n as nat, row);
      } else {
        StoreSettings(id, row);
      }
      r := Ok(());
    }

    /** `UPDATE user_settings SET user_id = ?, ...`: the row moves to another user that has none. */
    method MoveSettings(id: UserId, owner: UserId, row: SettingsRow)
      requires Valid() && id in settings && owner in users && owner !in settings && WellFormed(row)
      modifies this`settings
      ensures Valid()
      ensures settings == (old(settings) - {id})[owner := row]
    {
      settings := (settings - {id})[owner := row];
    }

    /** `INSERT INTO user_settings` or `UPDATE user_settings ... WHERE user_id = ?` for an existing user. */
    method StoreSettings(id: UserId, row: SettingsRow)
      requires Valid() && id in users && WellFormed(row)
      modifies this`settings
      ensures Valid()
      ensures settings == old(settings)[id := row]
    {
      settings := settings[id := row];
    }
  }

  /** `updateFields` (lines 753-761): a `key = ?` for each key of the body, in order. */
  method UpdateFields(body: SettingsBody) returns (fields: seq<string>)
    ensures |fields| == |body|
    ensures forall k :: 0 <= k < |body| ==> fields[k] == body[k].0
  {
    fields := [];
    var i := 0;
    while i < |body|
      invariant i <= |body| && |fields| == i
      invariant forall k :: 0 <= k < i ==> fields[k] == body[k].0
    {
      fields := fields + [body[i].0];
      i := i + 1;
    }
  }
}
