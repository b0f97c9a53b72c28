/**
 * The database that `initDatabase` creates: the enumerated column types,
 * the rows every route shares (users, notifications), the columns the
 * routes refer to and the seeding of the default accounts.
 *
 * The model reads every constraint the way MariaDB enforces it in its
 * default strict SQL mode: a statement that would store a value outside an
 * ENUM, break a UNIQUE key or a foreign key, or name a column that the
 * table does not have, fails and the route's catch block answers.
 */
module Schema {
  import opened Common

  type UserId = nat

  /** `user_spaces.role` */
  datatype Role = Member | Admin | Owner

  function ParseRole(s: string): (r: Option<Role>)
    ensures r.Some? <==> s in {"member", "admin", "owner"}
    ensures r == Some(Member) <==> s == "member"
    ensures r == Some(Owner) <==> s == "owner"
  {
    if s == "member" then Some(Member)
    else if s == "admin" then Some(Admin)
    else if s == "owner" then Some(Owner)
    else None
  }

  /** `message_attachments.file_type`, `post_attachments.file_type` */
  datatype FileType = Image | Video | File

  function ParseFileType(s: string): (r: Option<FileType>)
    ensures r.Some? <==> s in {"image", "video", "file"}
    ensures r == Some(Image) <==> s == "image"
    ensures r == Some(Video) <==> s == "video"
  {
    if s == "image" then Some(Image)
    else if s == "video" then Some(Video)
    else if s == "file" then Some(File)
    else None
  }

  /** `users.status` */
  datatype Presence = Online | Away | Offline

  function ParsePresence(s: string): (r: Option<Presence>)
    ensures r.Some? <==> s in {"online", "away", "offline"}
  {
    if s == "online" then Some(Online)
    else if s == "away" then Some(Away)
    else if s == "offline" then Some(Offline)
    else None
  }

  /** One row of `users`; `id` is the key of the map that holds it. */
  datatype UserRow = UserRow(
    name: string,
    email: string,
    passwordHash: string,
    avatar: Option<string>,
    title: Option<string>,
    department: Option<string>,
    bio: Option<string>,
    status: Presence,
    isModerator: bool,
    isSuspended: bool,
    suspensionReason: Option<string>,
    suspensionEnd: Option<nat>,
    isAdmin: bool,
    isActive: bool)

  /**
   * The widths of the VARCHAR columns that take free text from a request:
   * users.name, email, title and department, spaces.name, conversations.name,
   * notifications.title and events.title hold 255 characters, spaces.color
   * 50, users.avatar and posts.image 500 (backend/config/database.js). No validator
   * bounds them, so a longer value fails its INSERT or UPDATE with error
   * 1406 and the route answers 500.
   */
  const TextWidth := 255
  const ColorWidth := 50
  const ImageWidth := 500

  predicate Fits(s: string, width: nat) {
    |s| <= width
  }

  predicate FitsOpt(s: Option<string>, width: nat) {
    s.None? || Fits(s.value, width)
  }

  /**
   * The TEXT columns that take free text from a request (posts.content,
   * comments.content, messages.content and attachements, spaces.description,
   * events.description, space_requests.message, users.suspension_reason,
   * system_config.config_value, notifications.content) hold 65,535 bytes.
   * The pool talks utf8mb4 and the columns are taken to store it, so a
   * character takes the one to four bytes of its UTF-8 encoding. A longer
   * value fails its INSERT or UPDATE with error 1406, as for VARCHAR.
   */
  const TextBytes := 65535

  function Utf8Width(c: char): (n: nat)
    ensures 1 <= n <= 4
    ensures n == 1 <==> c as int < 0x80
  {
    if c as int < 0x80 then 1
    else if c as int < 0x800 then 2
    else if c as int < 0x10000 then 3
    else 4
  }

  /** The number of bytes `s` takes in UTF-8. */
  function Utf8Length(s: string): (n: nat)
    ensures |s| <= n <= 4 * |s|
  {
    if s == [] then 0 else Utf8Width(s[0]) + Utf8Length(s[1..])
  }

  predicate FitsText(s: string) {
    Utf8Length(s) <= TextBytes
  }

  predicate FitsTextOpt(s: Option<string>) {
    s.None? || FitsText(s.value)
  }

  /** A text of ASCII characters takes one byte per character. */
  lemma {:induction false} AsciiTextLength(s: string)
    requires forall i :: 0 <= i < |s| ==> s[i] as int < 0x80
    ensures Utf8Length(s) == |s|
  {
    if s != [] {
      AsciiTextLength(s[1..]);
    }
  }

  /** A text of characters outside the Basic Multilingual Plane takes four bytes per character. */
  lemma {:induction false} WideTextLength(s: string)
    requires forall i :: 0 <= i < |s| ==> s[i] as int >= 0x10000
    ensures Utf8Length(s) == 4 * |s|
  {
    if s != [] {
      WideTextLength(s[1..]);
    }
  }

  /** The byte count of a concatenation is the sum of the parts' counts. */
  lemma {:induction false} Utf8LengthAppend(s: string, t: string)
    ensures Utf8Length(s + t) == Utf8Length(s) + Utf8Length(t)
  {
    if s != [] {
      assert (s + t)[1..] == s[1..] + t;
      Utf8LengthAppend(s[1..], t);
    } else {
      assert s + t == t;
    }
  }

  /**
   * Every text of at most 16,383 characters fits a TEXT column, no text of
   * more than 65,535 characters does, and in between it depends on the
   * characters: up to 65,535 ASCII characters fit, and of characters
   * outside the Basic Multilingual Plane only 16,383 do.
   */
  lemma TextFitsBounds(s: string)
    ensures |s| <= TextBytes / 4 ==> FitsText(s)
    ensures |s| > TextBytes ==> !FitsText(s)
    ensures (forall i :: 0 <= i < |s| ==> s[i] as int < 0x80) ==> (FitsText(s) <==> |s| <= TextBytes)
    ensures (forall i :: 0 <= i < |s| ==> s[i] as int >= 0x10000) ==> (FitsText(s) <==> |s| <= TextBytes / 4)
  {
    if forall i :: 0 <= i < |s| ==> s[i] as int < 0x80 {
      AsciiTextLength(s);
    }
    if forall i :: 0 <= i < |s| ==> s[i] as int >= 0x10000 {
      WideTextLength(s);
    }
  }

  /** The row's name, e-mail address, title and department fit their columns. */
  predicate UserTextFits(u: UserRow) {
    && Fits(u.name, TextWidth) && Fits(u.email, TextWidth)
    && FitsOpt(u.title, TextWidth) && FitsOpt(u.department, TextWidth)
  }

  /** A row inserted with only name, email and password: every other column takes its default. */
  function NewUserRow(name: string, email: string, passwordHash: string): (u: UserRow)
    ensures u.name == name && u.email == email && u.passwordHash == passwordHash
    ensures u.isActive && !u.isAdmin && !u.isModerator && !u.isSuspended
    ensures u.status == Offline && u.avatar.None? && u.bio.None?
  {
    UserRow(name, email, passwordHash, None, None, None, None, Offline,
            false, false, None, None, false, true)
  }

  /** The set of e-mail addresses present in `users` (the column is UNIQUE). */
  function Emails(users: map<UserId, UserRow>): set<string> {
    set id | id in users :: users[id].email
  }

  predicate EmailsUnique(users: map<UserId, UserRow>) {
    forall a, b :: a in users && b in users && users[a].email == users[b].email ==> a == b
  }

  /** `name LIKE ? OR email LIKE ?` with `%query%`, compared without ASCII case. */
  predicate SearchHit(u: UserRow, query: string) {
    Contains(Upper(u.name), Upper(query)) || Contains(Upper(u.email), Upper(query))
  }

  // ---------------------------------------------------------------------
  // notifications
  // ---------------------------------------------------------------------

  /** The values the `notifications.type` ENUM admits. */
  const NotificationTypes: set<string> := {"like", "comment", "message", "space", "mention", "event"}

  /** One row of `notifications`. */
  datatype Notification = Notification(
    user: UserId,
    kind: string,
    title: string,
    content: string,
    related: Option<int>,
    isRead: bool)

  /** An INSERT of these rows succeeds only when every type is one the ENUM admits. */
  predicate AcceptsNotifications(rows: seq<Notification>) {
    forall i :: 0 <= i < |rows| ==> rows[i].kind in NotificationTypes
  }

  /**
   * Several routes insert notification types the ENUM does not list:
   * follows (users.js), join requests (spaces.js) and the three broadcast
   * types (admin.js).
   */
  lemma RouteTypesOutsideEnum()
    ensures "follow" !in NotificationTypes
    ensures "space_req" !in NotificationTypes
    ensures "announcement" !in NotificationTypes
    ensures "maintenance" !in NotificationTypes
    ensures "update" !in NotificationTypes
    ensures "like" in NotificationTypes && "comment" in NotificationTypes
    ensures "space" in NotificationTypes && "event" in NotificationTypes
  {
  }

  // ---------------------------------------------------------------------
  // Columns that routes refer to
  // ---------------------------------------------------------------------

  const MessageColumns: set<string> :=
    {"id", "conversation_id", "sender_id", "content", "attachements", "created_at", "edited_at"}

  const SpaceBanColumns: set<string> := {"space_id", "user_id", "banned_by", "banned_at"}

  /** `messages` has no `deleted_at`, and `space_bans` is keyed by (space_id, user_id) with no `id`. */
  lemma MissingColumns()
    ensures "deleted_at" !in MessageColumns
    ensures "id" !in SpaceBanColumns
    ensures "content" in MessageColumns && "user_id" in SpaceBanColumns
  {
  }

  // ---------------------------------------------------------------------
  // Seeding (initDatabase)
  // ---------------------------------------------------------------------

  datatype SeedAccount = SeedAccount(
    name: string, email: string, passwordHash: string,
    title: string, department: string, isAdmin: bool)

  /** The administrator first, then the three sample users, in the order they are inserted. */
  function Seeds(adminHash: string, sampleHash: string): (s: seq<SeedAccount>)
    ensures |s| == 4 && s[0].isAdmin && s[0].email == "admin@yahh.local"
    ensures forall i :: 1 <= i < |s| ==> !s[i].isAdmin
  {
    [ SeedAccount("yahh Admin", "admin@yahh.local", adminHash, "System Administrator", "IT Department", true),
      SeedAccount("John Smith", "john.smith@company.com", sampleHash, "Senior Developer", "Engineering", false),
      SeedAccount("Sarah Johnson", "sarah.johnson@company.com", sampleHash, "Product Manager", "Product", false),
      SeedAccount("Mike Chen", "mike.chen@company.com", sampleHash, "UX Designer", "Design", false) ]
  }

  function SeedRow(a: SeedAccount): (r: UserRow)
    ensures r.email == a.email
  {
    NewUserRow(a.name, a.email, a.passwordHash)
      .(title := Some(a.title), department := Some(a.department), isAdmin := a.isAdmin,
        avatar := Some("/uploads/default_pfp.png"))
  }

  /** The users table and next auto-increment id after seeding `seeds` one by one. */
  function Seeded(users: map<UserId, UserRow>, next: UserId, seeds: seq<SeedAccount>): (r: (map<UserId, UserRow>, UserId))
    decreases |seeds|
  {
    if seeds == [] then (users, next)
    else SeedOne(Seeded(users, next, seeds[..|seeds| - 1]), seeds[|seeds| - 1])
  }

  /** One account: inserted under the counter unless its address is present. */
  function SeedOne(r: (map<UserId, UserRow>, UserId), a: SeedAccount): (map<UserId, UserRow>, UserId) {
    if a.email in Emails(r.0) then r else (r.0[r.1 := SeedRow(a)], r.1 + 1)
  }

  /** One step keeps the ids below the counter and every row, and leaves the account's address present. */
  lemma SeedOneGrows(r: (map<UserId, UserRow>, UserId), a: SeedAccount)
    requires IdsBelow(r.0, r.1)
    ensures var r' := SeedOne(r, a);
      && IdsBelow(r'.0, r'.1) && r.1 <= r'.1 && Emails(r.0) <= Emails(r'.0) && a.email in Emails(r'.0)
      && forall id :: id in r.0 ==> id in r'.0 && r'.0[id] == r.0[id]
  {
    var r' := SeedOne(r, a);
    if a.email !in Emails(r.0) {
      assert r'.0[r.1] == SeedRow(a);
      EmailsGrow(r.0, r'.0);
    }
  }

  predicate IdsBelow(users: map<UserId, UserRow>, next: UserId) {
    forall id :: id in users ==> id < next
  }

  /** A row under the next id whose address is not taken keeps ids below the counter and addresses unique. */
  lemma AccountAdded(users: map<UserId, UserRow>, next: UserId, row: UserRow)
    requires IdsBelow(users, next) && EmailsUnique(users) && row.email !in Emails(users)
    ensures next !in users
    ensures IdsBelow(users[next := row], next + 1) && EmailsUnique(users[next := row])
  {
    forall a | a in users ensures users[a].email != row.email {
      assert users[a].email in Emails(users);
    }
  }

  /** Seeding only adds rows, and after it every seed address is present. */
  lemma {:induction false} SeededContainsAll(users: map<UserId, UserRow>, next: UserId, seeds: seq<SeedAccount>)
    requires IdsBelow(users, next)
    ensures var r := Seeded(users, next, seeds);
      IdsBelow(r.0, r.1) && next <= r.1 &&
      (forall id :: id in users ==> id in r.0 && r.0[id] == users[id]) &&
      (forall i :: 0 <= i < |seeds| ==> seeds[i].email in Emails(r.0))
    decreases |seeds|
  {
    if seeds != [] {
      var init := seeds[..|seeds| - 1];
      var r := Seeded(users, next, init);
      assert IdsBelow(r.0, r.1) && next <= r.1 && (forall id :: id in users ==> id in r.0 && r.0[id] == users[id])
          && (forall i :: 0 <= i < |init| ==> init[i].email in Emails(r.0)) by {
        SeededContainsAll(users, next, init);
      }
      var a := seeds[|seeds| - 1];
      SeedOneGrows(r, a);
      forall i | 0 <= i < |seeds| ensures seeds[i].email in Emails(Seeded(users, next, seeds).0) {
        if i < |init| { assert seeds[i] == init[i]; }
      }
    }
  }

  /** Rows kept under their ids keep their addresses. */
  lemma EmailsGrow(u: map<UserId, UserRow>, u': map<UserId, UserRow>)
    requires forall id :: id in u ==> id in u' && u'[id] == u[id]
    ensures Emails(u) <= Emails(u')
  {
    forall e | e in Emails(u) ensures e in Emails(u') {
      var id :| id in u && u[id].email == e;
      assert u'[id].email == e;
    }
  }

  /** Seeding keeps e-mail addresses unique. */
  lemma {:induction false} SeededKeepsEmailsUnique(users: map<UserId, UserRow>, next: UserId, seeds: seq<SeedAccount>)
    requires IdsBelow(users, next) && EmailsUnique(users)
    ensures EmailsUnique(Seeded(users, next, seeds).0)
    decreases |seeds|
  {
    if seeds != [] {
      var init := seeds[..|seeds| - 1];
      SeededKeepsEmailsUnique(users, next, init);
      SeededContainsAll(users, next, init);
    }
  }

  /** Any pass that finds every address already present inserts nothing. */
  lemma {:induction false} SeededNoop(users: map<UserId, UserRow>, next: UserId, seeds: seq<SeedAccount>)
    requires forall i :: 0 <= i < |seeds| ==> seeds[i].email in Emails(users)
    ensures Seeded(users, next, seeds) == (users, next)
    decreases |seeds|
  {
    if seeds != [] {
      SeededNoop(users, next, seeds[..|seeds| - 1]);
    }
  }

  /** Starting the server twice seeds the accounts once. */
  lemma SeedingIdempotent(users: map<UserId, UserRow>, next: UserId, seeds: seq<SeedAccount>)
    requires IdsBelow(users, next)
    ensures var (u, n) := Seeded(users, next, seeds); Seeded(u, n, seeds) == (u, n)
  {
    SeededContainsAll(users, next, seeds);
    var (u, n) := Seeded(users, next, seeds);
    SeededNoop(u, n, seeds);
  }

  /** The rows of `users` that initDatabase writes to. */
  class UserDirectory {
    var users: map<UserId, UserRow>
    var nextId: UserId

    ghost predicate Valid()
      reads this
    {
      IdsBelow(users, nextId) && EmailsUnique(users)
    }

    constructor ()
      ensures Valid() && users == map[] && nextId == 1
    {
      users := map[];
      nextId := 1;
    }

    /** The administrator and the sample users are each inserted unless their e-mail is already present. */
    method Seed(adminHash: string, sampleHash: string)
      requires Valid()
      modifies this`users, this`nextId
      ensures Valid()
      ensures (users, nextId) == Seeded(old(users), old(nextId), Seeds(adminHash, sampleHash))
      ensures forall a :: a in Seeds(adminHash, sampleHash) ==> a.email in Emails(users)
    {
      InsertMissing(Seeds(adminHash, sampleHash));
    }

    /** Each account in turn: `SELECT id FROM users WHERE email = ?`, then INSERT when none is found. */
    method InsertMissing(seeds: seq<SeedAccount>)
      requires Valid()
      modifies this`users, this`nextId
      ensures Valid()
      ensures (users, nextId) == Seeded(old(users), old(nextId), seeds)
      ensures forall a :: a in seeds ==> a.email in Emails(users)
    {
      ghost var u0, n0 := users, nextId;
      var i := 0;
      while i < |seeds|
        invariant 0 <= i <= |seeds|
        invariant (users, nextId) == Seeded(u0, n0, seeds[..i])
      {
        assert seeds[..i + 1][..i] == seeds[..i];
        var a := seeds[i];
        var taken := exists id :: id in users && users[id].email == a.email;
        assert taken <==> a.email in Emails(users);
        if !taken {
          users := users[nextId := SeedRow(a)];
          nextId := nextId + 1;
        }
        i := i + 1;
      }
      assert seeds[..i] == seeds;
      SeededContainsAll(u0, n0, seeds);
      SeededKeepsEmailsUnique(u0, n0, seeds);
      forall a | a in seeds ensures a.email in Emails(users) {
        var k :| 0 <= k < |seeds| && seeds[k] == a;
      }
    }
  }
}
