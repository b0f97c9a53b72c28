/**
 * The account routes of backend/routes/auth.js: register, login, the
 * current user, logout and change-password, over the `users` table.
 *
 * bcrypt is reduced to its two uses: the hash a new password is stored as
 * arrives as a parameter (`hashed`, the salt being random), and
 * `bcrypt.compare` is the parameter `compare`. Token signing is left out:
 * a successful login reports the user it signed in.
 *
 * express-validator's `isEmail().normalizeEmail()` is reduced to its
 * result: `None` for an address it rejects, otherwise the normalised text.
 */
module AuthRoutes {
  import opened Common
  import opened Schema

  /** `SELECT *` with the password deleted (login's response body). */
  datatype UserView = UserView(
    id: UserId, name: string, email: string, avatar: Option<string>,
    title: Option<string>, department: Option<string>, bio: Option<string>,
    status: Presence, isModerator: bool, isSuspended: bool,
    suspensionReason: Option<string>, suspensionEnd: Option<nat>,
    isAdmin: bool, isActive: bool)

  function Public(id: UserId, u: UserRow): (v: UserView)
    ensures v.id == id && v.name == u.name && v.email == u.email && v.status == u.status
    ensures v.isSuspended == u.isSuspended && v.isAdmin == u.isAdmin
  {
    UserView(id, u.name, u.email, u.avatar, u.title, u.department, u.bio, u.status,
             u.isModerator, u.isSuspended, u.suspensionReason, u.suspensionEnd, u.isAdmin, u.isActive)
  }

  /** The columns GET /me selects. */
  datatype SessionUser = SessionUser(
    id: UserId, name: string, email: string, avatar: Option<string>,
    title: Option<string>, department: Option<string>, bio: Option<string>,
    isAdmin: bool, status: Presence)

  /** Why a login with well-formed fields is refused (both answer 401). */
  datatype Denial = InvalidCredentials | Suspended

  const MinNameLength := 2
  const MinPasswordLength := 6

  /** The registration fields pass the validators (lines 16-18). */
  predicate RegistrationValid(name: string, email: Option<string>, password: string) {
    |Trim(name)| >= MinNameLength && email.Some? && |password| >= MinPasswordLength
  }

  /** The row lines 41-45 insert: trimmed name, title and department, an empty title or department stored as NULL. */
  function RegisteredRow(name: string, email: string, hashed: string, title: Option<string>, department: Option<string>): (u: UserRow)
    ensures u.name == Trim(name) && u.email == email && u.isActive && !u.isAdmin
    ensures u.title.Some? <==> title.Some? && Trim(title.value) != ""
    ensures u.title.Some? ==> u.title.value == Trim(title.value)
    ensures u.department.Some? <==> department.Some? && Trim(department.value) != ""
    ensures u.department.Some? ==> u.department.value == Trim(department.value)
  {
    NewUserRow(Trim(name), email, hashed).(title := OrNull(TrimOpt(title)), department := OrNull(TrimOpt(department)))
  }

  /** The active account registered under `email`, if any (`e-mail` is UNIQUE, so there is at most one). */
  predicate HasActiveAccount(users: map<UserId, UserRow>, email: string) {
    exists id :: id in users && users[id].email == email && users[id].isActive
  }

  class Accounts {
    var users: map<UserId, UserRow>
    var nextId: UserId

    ghost predicate Valid()
      reads this
    {
      IdsBelow(users, nextId) && EmailsUnique(users)
    }

    constructor (users: map<UserId, UserRow>, nextId: UserId)
      requires IdsBelow(users, nextId) && EmailsUnique(users)
      ensures Valid() && this.users == users && this.nextId == nextId
    {
      this.users := users;
      this.nextId := nextId;
    }

    /**
     * POST /register (lines 15-63): 400 for fields the validators refuse or
     * an address already registered, 500 when a text is too long for its
     * column; otherwise the new account under the next id.
     */
    method Register(name: string, email: Option<string>, password: string,
                    title: Option<string>, department: Option<string>, hashed: string)
      returns (r: Response<UserId>)
      requires Valid()
      modifies this
      ensures Valid()
      ensures r.Created? || r.BadRequest? || r.ServerError?
      ensures r.BadRequest? <==> !RegistrationValid(name, email, password) || email.value in Emails(old(users))
      ensures r.ServerError? <==>
        && RegistrationValid(name, email, password) && email.value !in Emails(old(users))
        && !UserTextFits(RegisteredRow(name, email.value, hashed, title, department))
      ensures !r.Created? ==> users == old(users) && nextId == old(nextId)
      ensures r.Created? ==>
        && r.value == old(nextId) && r.value !in old(users) && nextId == old(nextId) + 1
        && users == old(users)[r.value := RegisteredRow(name, email.value, hashed, title, department)]
    {
      if !RegistrationValid(name, email, password) {
        return BadRequest;
      }
      var taken := exists id :: id in users && users[id].email == email.value;
      assert taken <==> email.value in Emails(users);
      if taken {
        return BadRequest;                        // user already exists with this email
      }
      var row := RegisteredRow(name, email.value, hashed, title, department);
      if !UserTextFits(row) {
        return ServerError;
      }
      var id := Insert(row);
      r := Created(id);
    }

    /** Lines 41-45: the INSERT under the next AUTO_INCREMENT id. */
    method Insert(row: UserRow) returns (id: UserId)
      requires Valid() && row.email !in Emails(users)
      modifies this
      ensures Valid()
      ensures id == old(nextId) && id !in old(users) && nextId == id + 1 && users == old(users)[id := row]
    {
      id := nextId;
      AccountAdded(users, nextId, row);
      users, nextId := users[id := row], nextId + 1;
    }

    /**
     * POST /login (lines 65-117): 400 for malformed fields; 401 for an
     * address with no active account, then for a suspended account, then
     * for a wrong password; otherwise the status becomes online.
     */
    method Login(email: Option<string>, password: Option<string>, compare: (string, string) -> bool)
      returns (r: Response<UserView>, denial: Option<Denial>)
      requires Valid()
      modifies this`users
      ensures Valid()
      ensures r.Ok? || r.BadRequest? || r.Unauthorized?
      ensures r.BadRequest? <==> email.None? || password.None?
      ensures r.Unauthorized? <==> denial.Some?
      ensures !r.BadRequest? && !HasActiveAccount(old(users), email.value) ==> denial == Some(InvalidCredentials)
      ensures !r.BadRequest? && HasActiveAccount(old(users), email.value) ==>
        exists id :: id in old(users) && old(users)[id].email == email.value && old(users)[id].isActive &&
          var u := old(users)[id];
          && (denial == Some(Suspended) <==> u.isSuspended)
          && (denial == Some(InvalidCredentials) <==> !u.isSuspended && !compare(password.value, u.passwordHash))
          && (r.Ok? ==> r.value == Public(id, u) && users == old(users)[id := u.(status := Online)])
      ensures !r.Ok? ==> users == old(users)
    {
      denial := None;
      if email.None? || password.None? {
        return BadRequest, None;
      }
      if !HasActiveAccount(users, email.value) {
        return Unauthorized, Some(InvalidCredentials);
      }
      var id :| id in users && users[id].email == email.value && users[id].isActive;
      var u := users[id];
      if u.isSuspended {
        return Unauthorized, Some(Suspended);
      }
      if !compare(password.value, u.passwordHash) {
        return Unauthorized, Some(InvalidCredentials);
      }
      users := users[id := u.(status := Online)];
      r := Ok(Public(id, u));                    // the row was read before the UPDATE
    }

    /** GET /me (lines 119-135). */
    function Me(caller: UserId): (r: Response<SessionUser>)
      reads this`users
      ensures r.Ok? || r.NotFound?
      ensures r.NotFound? <==> caller !in users
      ensures r.Ok? ==> r.value.id == caller && r.value.email == users[caller].email
    {
      if caller !in users then NotFound
      else
        var u := users[caller];
        Ok(SessionUser(caller, u.name, u.email, u.avatar, u.title, u.department, u.bio, u.isAdmin, u.status))
    }

    /** POST /logout (lines 137-149): the status becomes offline; an UPDATE that matches no row still answers 200. */
    method Logout(caller: UserId) returns (r: Response<()>)
      requires Valid()
      modifies this`users
      ensures Valid() && r == Ok(())
      ensures caller in old(users) ==> users == old(users)[caller := old(users)[caller].(status := Offline)]
      ensures caller !in old(users) ==> users == old(users)
    {
      if caller in users {
        users := users[caller := users[caller].(status := Offline)];
      }
      r := Ok(());
    }

    /** POST /change-password (lines 151-189). */
    method ChangePassword(caller: UserId, current: Option<string>, newPassword: string,
                          compare: (string, string) -> bool, hashed: string)
      returns (r: Response<()>)
      requires Valid()
      modifies this`users
      ensures Valid()
      ensures r.Ok? || r.BadRequest? || r.NotFound?
      ensures r.NotFound? <==> current.Some? && |newPassword| >= MinPasswordLength && caller !in old(users)
      ensures r.Ok? <==> current.Some? && |newPassword| >= MinPasswordLength && caller in old(users)
                         && compare(current.value, old(users)[caller].passwordHash)
      ensures r.Ok? ==> users == old(users)[caller := old(users)[caller].(passwordHash := hashed)]
      ensures !r.Ok? ==> users == old(users)
    {
      if current.None? || |newPassword| < MinPasswordLength {
        return BadRequest;
      }
      if caller !in users {
        return NotFound;
      }
      if !compare(current.value, users[caller].passwordHash) {
        return BadRequest;                        // current password is incorrect
      }
      users := users[caller := users[caller].(passwordHash := hashed)];
      assert forall a :: a in users && a != caller ==> users[a] == old(users)[a];
      r := Ok(());
    }
  }
}
