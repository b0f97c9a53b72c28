/**
 * The profile routes of backend/routes/users.js that change state: the
 * follow toggle, the partial profile update, the status update and the
 * password change.
 *
 * bcrypt is reduced to parameters: `compare` stands for
 * `bcrypt.compare`, `hash` for the stored hash of the new password.
 */
module Users {
  import opened Common
  import opened Schema
  import opened AuthMiddleware

  /** The fields PUT /profile may carry; `None` is a field the body leaves out. */
  datatype ProfileInput = ProfileInput(
    name: Option<string>, title: Option<string>, department: Option<string>,
    bio: Option<string>, avatar: Option<string>, status: Option<string>)

  const MinNameLength := 2
  const MaxBioLength := 500
  const MinNewPasswordLength := 8

  /** A body that passed the validators: trimmed text, and a status parsed into the enumeration. */
  datatype ProfileUpdate = ProfileUpdate(
    name: Option<string>, title: Option<string>, department: Option<string>,
    bio: Option<string>, avatar: Option<string>, status: Option<Presence>)

  /**
   * The chain of lines 133-138: `trim()` rewrites name, title, department
   * and bio, then the name must keep 2 characters, the bio at most 500,
   * and a status must be one of the three presences. `None` is a 400.
   */
  function ValidatedProfile(p: ProfileInput): (r: Option<ProfileUpdate>)
    ensures r.Some? <==>
      && (p.name.None? || |Trim(p.name.value)| >= MinNameLength)
      && (p.bio.None? || |Trim(p.bio.value)| <= MaxBioLength)
      && (p.status.None? || p.status.value in {"online", "away", "offline"})
    ensures r.Some? ==>
      && r.value.avatar == p.avatar
      && (r.value.name.Some? <==> p.name.Some?) && (r.value.title.Some? <==> p.title.Some?)
      && (r.value.department.Some? <==> p.department.Some?) && (r.value.bio.Some? <==> p.bio.Some?)
      && (r.value.status.Some? <==> p.status.Some?)
  {
    var name, bio := TrimOpt(p.name), TrimOpt(p.bio);
    if name.Some? && |name.value| < MinNameLength then None
    else if bio.Some? && |bio.value| > MaxBioLength then None
    else if p.status.Some? && ParsePresence(p.status.value).None? then None
    else
      var status := if p.status.Some? then ParsePresence(p.status.value) else None;
      Some(ProfileUpdate(name, TrimOpt(p.title), TrimOpt(p.department), bio, p.avatar, status))
  }

  /** Validating a body that is already trimmed keeps its text as it is. */
  lemma ValidatedTrimmedKeepsText(p: ProfileInput)
    requires ValidatedProfile(p).Some?
    ensures var q := ValidatedProfile(p).value;
      var again := ProfileInput(q.name, q.title, q.department, q.bio, q.avatar, p.status);
      ValidatedProfile(again) == Some(q)
  {
    var q := ValidatedProfile(p).value;
    TrimOptIdempotent(p.name);
    TrimOptIdempotent(p.title);
    TrimOptIdempotent(p.department);
    TrimOptIdempotent(p.bio);
    assert q.name == TrimOpt(p.name) && q.bio == TrimOpt(p.bio);
    assert q.title == TrimOpt(p.title) && q.department == TrimOpt(p.department);
  }

  lemma TrimOptIdempotent(s: Option<string>)
    ensures TrimOpt(TrimOpt(s)) == TrimOpt(s)
  {
    if s.Some? { TrimIdempotent(s.value); }
  }

  predicate NothingSupplied(q: ProfileUpdate) {
    q.name.None? && q.title.None? && q.department.None? && q.bio.None? && q.avatar.None? && q.status.None?
  }

  /** The supplied texts fit their columns (the avatar URL holds 500 characters; `bio` is TEXT). */
  predicate ProfileFits(q: ProfileUpdate) {
    && FitsOpt(q.name, TextWidth) && FitsOpt(q.title, TextWidth) && FitsOpt(q.department, TextWidth)
    && FitsOpt(q.avatar, ImageWidth)
  }

  /** The row after `UPDATE users SET <supplied fields>`: each supplied field replaced, every other column kept. */
  function WithProfile(u: UserRow, q: ProfileUpdate): UserRow {
    u.(name := q.name.GetOr(u.name),
       title := if q.title.Some? then q.title else u.title,
       department := if q.department.Some? then q.department else u.department,
       bio := if q.bio.Some? then q.bio else u.bio,
       avatar := if q.avatar.Some? then q.avatar else u.avatar,
       status := q.status.GetOr(u.status))
  }

  /** Every column outside the six profile fields is kept: e-mail, password, roles, suspension and activity. */
  lemma ProfileKeepsAccountColumns(u: UserRow, q: ProfileUpdate)
    ensures var v := WithProfile(u, q);
      && v.email == u.email && v.passwordHash == u.passwordHash
      && v.isAdmin == u.isAdmin && v.isModerator == u.isModerator && v.isActive == u.isActive
      && v.isSuspended == u.isSuspended && v.suspensionReason == u.suspensionReason
      && v.suspensionEnd == u.suspensionEnd
    ensures NothingSupplied(q) ==> WithProfile(u, q) == u
  {
  }

  /** Sending the same profile twice leaves the row as the first request did. */
  lemma ProfileUpdateIdempotent(u: UserRow, q: ProfileUpdate)
    ensures WithProfile(WithProfile(u, q), q) == WithProfile(u, q)
  {
  }

  /** The `updates` object of lines 151-156, filled one supplied field at a time, applied to the row. */
  method FillProfile(u0: UserRow, q: ProfileUpdate) returns (u: UserRow)
    ensures u == WithProfile(u0, q)
  {
    var name, title, department, bio, avatar, status := u0.name, u0.title, u0.department, u0.bio, u0.avatar, u0.status;
    if q.name.Some? { name := q.name.value; }
    if q.title.Some? { title := q.title; }
    if q.department.Some? { department := q.department; }
    if q.bio.Some? { bio := q.bio; }
    if q.avatar.Some? { avatar := q.avatar; }
    if q.status.Some? { status := q.status.value; }
    u := u0.(name := name, title := title, department := department, bio := bio, avatar := avatar, status := status);
  }

  /** The notification a new follow is announced with. */
  function FollowNotice(me: CurrentUser, target: UserId): Notification {
    Notification(target, "follow", "New Follower", me.name + " started following you", Some(me.id), false)
  }

  /** `notifications.type` has no 'follow' value: the announcement's INSERT is rejected. */
  lemma FollowNoticeRejected(me: CurrentUser, target: UserId)
    ensures !AcceptsNotifications([FollowNotice(me, target)])
  {
    RouteTypesOutsideEnum();
    assert [FollowNotice(me, target)][0].kind == "follow";
  }

  /** Rows of `follows` point at users. */
  ghost predicate FollowsRefer(users: map<UserId, UserRow>, follows: set<(UserId, UserId)>) {
    forall f :: f in follows ==> f.0 in users && f.1 in users
  }

  class Directory {
    var users: map<UserId, UserRow>
    var follows: set<(UserId, UserId)>          // (follower_id, following_id), UNIQUE
    var notifications: seq<Notification>

    ghost predicate Valid()
      reads this`users, this`follows
    {
      FollowsRefer(users, follows)
    }

    constructor (users: map<UserId, UserRow>)
      ensures Valid() && this.users == users && follows == {} && notifications == []
    {
      this.users := users;
      follows := {};
      notifications := [];
    }

    predicate IsActive(id: UserId)
      reads this`users
    {
      id in users && users[id].isActive
    }

    /**
     * POST /:id/follow as written (lines 185-232): 400 for oneself, 404
     * for an inactive or unknown target, an existing follow is deleted;
     * otherwise the follow row is inserted and the announcement's INSERT
     * then fails on the type ENUM, so the answer is 500 with the follow
     * recorded and no notification.
     */
    method FollowAsWritten(me: CurrentUser, target: UserId) returns (r: Response<bool>)
      requires Valid() && me.id in users
      modifies this`follows
      ensures Valid()
      ensures r.BadRequest? <==> target == me.id
      ensures r.NotFound? <==> target != me.id && !IsActive(target)
      ensures r.Ok? <==> target != me.id && IsActive(target) && (me.id, target) in old(follows)
      ensures r.Ok? ==> !r.value
      ensures r.ServerError? <==> target != me.id && IsActive(target) && (me.id, target) !in old(follows)
      ensures r.Ok? || r.ServerError? ==> follows == Toggled(old(follows), (me.id, target))
      ensures r.BadRequest? || r.NotFound? ==> follows == old(follows)
    {
      if target == me.id {
        return BadRequest;
      }
      if !IsActive(target) {
        return NotFound;
      }
      if (me.id, target) in follows {
        follows := follows - {(me.id, target)};
        return Ok(false);
      }
      follows := follows + {(me.id, target)};
      FollowNoticeRejected(me, target);
      r := ServerError;                            // INSERT INTO notifications ... 'follow' is rejected
    }

    /**
     * The follow toggle as its messages describe it: the same checks,
     * and a new follow answers `isFollowing: true` and notifies the
     * followed user.
     */
    method Follow(me: CurrentUser, target: UserId) returns (r: Response<bool>)
      requires Valid() && me.id in users
      modifies this`follows, this`notifications
      ensures Valid()
      ensures r.BadRequest? <==> target == me.id
      ensures r.NotFound? <==> target != me.id && !IsActive(target)
      ensures r.Ok? <==> target != me.id && IsActive(target)
      ensures r.Ok? ==>
        && follows == Toggled(old(follows), (me.id, target))
        && (r.value <==> (me.id, target) in follows)
        && notifications == old(notifications) + (if r.value then [FollowNotice(me, target)] else [])
      ensures !r.Ok? ==> follows == old(follows) && notifications == old(notifications)
    {
      if target == me.id {
        return BadRequest;
      }
      if !IsActive(target) {
        return NotFound;
      }
      if (me.id, target) in follows {
        follows := follows - {(me.id, target)};
        return Ok(false);
      }
      follows := follows + {(me.id, target)};
      notifications := notifications + [FollowNotice(me, target)];
      r := Ok(true);
    }

    /**
     * PUT /profile (lines 132-183): 400 when a validator fails or nothing
     * is supplied, 500 when a supplied text is too long for its column;
     * otherwise only the supplied fields change.
     */
    method UpdateProfile(me: CurrentUser, p: ProfileInput) returns (r: Response<()>)
      requires Valid() && me.id in users
      modifies this`users
      ensures Valid()
      ensures r.BadRequest? <==> ValidatedProfile(p).None? || NothingSupplied(ValidatedProfile(p).value)
      ensures r.ServerError? <==> !r.BadRequest? && !ProfileFits(ValidatedProfile(p).value)
      ensures r.Ok? ==> users == old(users)[me.id := WithProfile(old(users)[me.id], ValidatedProfile(p).value)]
      ensures !r.Ok? ==> users == old(users)
      ensures r.Ok? || r.BadRequest? || r.ServerError?
    {
      var checked := ValidatedProfile(p);
      if checked.None? {
        return BadRequest;
      }
      var q := checked.value;
      if NothingSupplied(q) {
        return BadRequest;                         // no fields to update
      }
      if !ProfileFits(q) {
        return ServerError;
      }
      var u := FillProfile(users[me.id], q);
      users := users[me.id := u];
      r := Ok(());
    }

    /** PUT /status (lines 328-349): 400 outside the enumeration, otherwise the caller's status is set. */
    method UpdateStatus(me: CurrentUser, status: Option<string>) returns (r: Response<Presence>)
      requires Valid()
      modifies this`users
      ensures Valid()
      ensures r.BadRequest? <==> status.None? || ParsePresence(status.value).None?
      ensures r.Ok? ==>
        && r.value == ParsePresence(status.value).value
        && users == (if me.id in old(users) then old(users)[me.id := old(users)[me.id].(status := r.value)] else old(users))
      ensures !r.Ok? ==> users == old(users)
      ensures r.Ok? || r.BadRequest?
    {
      if status.None? || ParsePresence(status.value).None? {
        return BadRequest;
      }
      var s := ParsePresence(status.value).value;
      if me.id in users {
        users := users[me.id := users[me.id].(status := s)];
      }
      r := Ok(s);
    }

    /** The validators of lines 274-282, all of which must pass. */
    static predicate PasswordInputValid(current: Option<string>, newPassword: Option<string>, confirm: Option<string>) {
      && current.Some? && current.value != ""
      && newPassword.Some? && |newPassword.value| >= MinNewPasswordLength
      && confirm == newPassword
    }

    /**
     * PUT /me/password (lines 274-326): 400 when a validator fails, 404,
     * 401 for a wrong current password; otherwise the new hash is stored.
     * Should the fresh hash not verify, 500 is sent and the hash is
     * stored all the same.
     */
    method ChangePassword(me: CurrentUser, current: Option<string>, newPassword: Option<string>,
                          confirm: Option<string>, compare: (string, string) -> bool, hash: string)
      returns (r: Response<()>)
      requires Valid()
      modifies this`users
      ensures Valid()
      ensures r.BadRequest? <==> !PasswordInputValid(current, newPassword, confirm)
      ensures r.NotFound? <==> PasswordInputValid(current, newPassword, confirm) && me.id !in old(users)
      ensures r.Unauthorized? <==>
        PasswordInputValid(current, newPassword, confirm) && me.id in old(users)
        && !compare(current.value, old(users)[me.id].passwordHash)
      ensures r.Ok? ==> compare(newPassword.value, hash)
      ensures r.ServerError? ==> !compare(newPassword.value, hash)
      ensures r.Ok? || r.ServerError? ==> users == old(users)[me.id := old(users)[me.id].(passwordHash := hash)]
      ensures !(r.Ok? || r.ServerError?) ==> users == old(users)
      ensures r.Ok? || r.ServerError? || r.BadRequest? || r.NotFound? || r.Unauthorized?
    {
      if !PasswordInputValid(current, newPassword, confirm) {
        return BadRequest;
      }
      if me.id !in users {
        return NotFound;
      }
      if !compare(current.value, users[me.id].passwordHash) {
        return Unauthorized;                       // current password is incorrect
      }
      var verified := compare(newPassword.value, hash);
      users := users[me.id := users[me.id].(passwordHash := hash)];
      r := if verified then Ok(()) else ServerError;
    }
  }
}
