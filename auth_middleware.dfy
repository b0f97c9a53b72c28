/**
 * The three gates of backend/middleware/auth.js: `authenticate` (every
 * protected route), `requireAdmin` (the admin router) and `optionalAuth`
 * (public pages that show more to a signed-in reader).
 *
 * A JSON Web Token is reduced to what its verification yields: the table
 * `tokens` maps every token that verifies against the server secret to the
 * `userId` claim it carries; a token outside the table makes `jwt.verify`
 * throw.
 */
module AuthMiddleware {
  import opened Common
  import opened Schema

  /** The columns of `users` the gate copies into `req.user`. */
  datatype CurrentUser = CurrentUser(
    id: UserId, name: string, email: string, avatar: Option<string>,
    title: Option<string>, department: Option<string>, isAdmin: bool, status: Presence)

  /** Tokens that verify, with the user id each one names. */
  type TokenTable = map<string, UserId>

  /** What the middleware does with the request. */
  datatype Gate = Proceed | Reject(code: int)

  /** `req.header('Authorization')?.replace('Bearer ', '')`: the first "Bearer " anywhere is removed. */
  function BearerToken(header: Option<string>): (t: Option<string>)
    ensures header.None? <==> t.None?
    ensures header.Some? && IndexOf(header.value, "Bearer ").None? ==> t == header
  {
    if header.None? then None else Some(ReplaceFirst(header.value, "Bearer ", ""))
  }

  /** The usual header yields exactly the token that follows the scheme. */
  lemma BearerPrefixStripped(token: string)
    ensures BearerToken(Some("Bearer " + token)) == Some(token)
  {
    var h := "Bearer " + token;
    assert OccursAt(h, "Bearer ", 0) by { assert h[..7] == "Bearer "; }
    assert IndexOf(h, "Bearer ") == Some(0);
    assert h[7..] == token;
    assert ReplaceFirst(h, "Bearer ", "") == h[..0] + "" + h[7..];
    assert h[..0] + "" + h[7..] == token;
    assert BearerToken(Some(h)) == Some(ReplaceFirst(h, "Bearer ", ""));
  }

  /** The replacement is not anchored: text before the scheme name stays in the token. */
  lemma SchemeInsideHeaderIsCut()
    ensures BearerToken(Some("xBearer abc")) == Some("xabc")
  {
    var h := "xBearer abc";
    assert !OccursAt(h, "Bearer ", 0) by { assert h[0..7][0] == 'x'; }
    assert OccursAt(h, "Bearer ", 1) by { assert h[1..8] == "Bearer "; }
    assert IndexOf(h, "Bearer ") == Some(1);
    assert h[8..] == "abc";
    assert ReplaceFirst(h, "Bearer ", "") == h[..1] + "" + h[8..];
    assert h[..1] + "" + h[8..] == "xabc";
    assert BearerToken(Some(h)) == Some(ReplaceFirst(h, "Bearer ", ""));
  }

  /** `SELECT ... FROM users WHERE id = ? AND is_active = TRUE` */
  function ActiveUser(users: map<UserId, UserRow>, id: UserId): (r: Option<CurrentUser>)
    ensures r.Some? <==> id in users && users[id].isActive
    ensures r.Some? ==> r.value.id == id && r.value.isAdmin == users[id].isAdmin
  {
    if id in users && users[id].isActive then
      var u := users[id];
      Some(CurrentUser(id, u.name, u.email, u.avatar, u.title, u.department, u.isAdmin, u.status))
    else None
  }

  /**
   * The user a request is admitted as: the header carries a non-empty
   * token, the token verifies, and the user it names exists and is active.
   */
  function Admitted(header: Option<string>, tokens: TokenTable, users: map<UserId, UserRow>): (r: Option<CurrentUser>)
    ensures r.Some? <==>
      && BearerToken(header).Some? && BearerToken(header).value != ""
      && BearerToken(header).value in tokens
      && tokens[BearerToken(header).value] in users
      && users[tokens[BearerToken(header).value]].isActive
    ensures r.Some? ==> r.value.id in users && users[r.value.id].isActive
  {
    var token := BearerToken(header);
    if token.None? || token.value == "" || token.value !in tokens then None
    else ActiveUser(users, tokens[token.value])
  }

  /** A request without an Authorization header is never admitted. */
  lemma NoHeaderNoUser(tokens: TokenTable, users: map<UserId, UserRow>)
    ensures Admitted(None, tokens, users).None?
  {
  }

  /** `requireAdmin` (lines 31-46): 401 without a user, 403 for a user who is not a site admin. */
  function AdminGate(user: Option<CurrentUser>): (g: Gate)
    ensures g == Proceed <==> user.Some? && user.value.isAdmin
    ensures g == Reject(401) <==> user.None?
    ensures g == Reject(403) <==> user.Some? && !user.value.isAdmin
  {
    if user.None? then Reject(401)
    else if !user.value.isAdmin then Reject(403)
    else Proceed
  }

  /**
   * The admin router runs `authenticate` and then `requireAdmin`
   * (admin.js lines 20-21): a request reaches an admin handler only as an
   * active site administrator.
   */
  lemma AdminRoutesNeedActiveAdmin(header: Option<string>, tokens: TokenTable, users: map<UserId, UserRow>)
    ensures AdminGate(Admitted(header, tokens, users)) == Proceed <==>
      exists id :: id in users && users[id].isActive && users[id].isAdmin &&
        Admitted(header, tokens, users) == ActiveUser(users, id)
  {
    var a := Admitted(header, tokens, users);
    if a.Some? && a.value.isAdmin {
      var id := a.value.id;
      assert tokens[BearerToken(header).value] == id;
      assert a == ActiveUser(users, id);
    }
  }

  /** One incoming request as the middleware sees it. */
  class Request {
    const authorization: Option<string>
    var user: Option<CurrentUser>   // req.user

    constructor (authorization: Option<string>)
      ensures this.authorization == authorization && user.None?
    {
      this.authorization := authorization;
      user := None;
    }

    /** `authenticate` (lines 4-29): every failure, a verification error included, answers 401. */
    method Authenticate(tokens: TokenTable, users: map<UserId, UserRow>) returns (g: Gate)
      modifies this`user
      ensures g == Proceed <==> Admitted(authorization, tokens, users).Some?
      ensures g.Reject? ==> g.code == 401 && user == old(user)
      ensures g == Proceed ==> user == Admitted(authorization, tokens, users)
    {
      var token := BearerToken(authorization);
      if token.None? || token.value == "" {
        return Reject(401);                       // no token provided
      }
      if token.value !in tokens {
        return Reject(401);                       // jwt.verify throws
      }
      var found := ActiveUser(users, tokens[token.value]);
      if found.None? {
        return Reject(401);                       // user not found or inactive
      }
      user := found;
      g := Proceed;
    }

    /** `optionalAuth` (lines 48-70): always continues, and sets `req.user` only for an admitted token. */
    method OptionalAuth(tokens: TokenTable, users: map<UserId, UserRow>) returns (g: Gate)
      modifies this`user
      ensures g == Proceed
      ensures user == (if Admitted(authorization, tokens, users).Some?
                       then Admitted(authorization, tokens, users) else old(user))
    {
      var token := BearerToken(authorization);
      if token.Some? && token.value != "" && token.value in tokens {
        var found := ActiveUser(users, tokens[token.value]);
        if found.Some? {
          user := found;
        }
      }
      g := Proceed;
    }
  }

  /** Only a row with `is_active` set ever becomes `req.user`, whichever gate ran. */
  lemma OnlyActiveUsersBecomeReqUser(header: Option<string>, tokens: TokenTable, users: map<UserId, UserRow>, u: CurrentUser)
    requires Admitted(header, tokens, users) == Some(u)
    ensures u.id in users && users[u.id].isActive && u.isAdmin == users[u.id].isAdmin
  {
  }
}
