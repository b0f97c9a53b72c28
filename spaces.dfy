/**
 * Spaces (backend/routes/spaces.js): groups that users create, join,
 * leave and are invited to, with a role per member (`user_spaces`), bans
 * (`space_bans`) and join requests (`space_requests`).
 *
 * Path parameters are numeric ids (MariaDB converts the text of a route
 * parameter to a number when it compares it with an INT column). A
 * `user_id` taken from a JSON body is a `JsId`: the validator `isInt`
 * admits both the number 5 and the string "5", and the two compare
 * differently under `===`.
 *
 * Statements of one request are applied in order, each atomically; the
 * START TRANSACTION/ROLLBACK calls on the pool do not group them.
 */
module Spaces {
  import opened Common
  import opened Schema
  import opened AuthMiddleware

  type SpaceId = nat

  /** One row of `spaces`. */
  datatype Space = Space(
    name: string, description: Option<string>, coverImage: Option<string>,
    color: string, isPrivate: bool, createdBy: UserId, createdAt: nat)

  /** One row of `user_spaces`; the key (user_id, space_id) is UNIQUE. */
  datatype Membership = Membership(role: Role, joinedAt: nat)

  /** One row of `space_bans`; the key (space_id, user_id) is the primary key. */
  datatype BanRecord = BanRecord(bannedBy: UserId, bannedAt: nat)

  /** One row of `space_requests`. */
  datatype JoinRequest = JoinRequest(user: UserId, space: SpaceId, message: string, approved: bool, createdAt: nat)

  /** GET /:id: the row, the caller's role (None for 'none') and the member count. */
  datatype SpaceView = SpaceView(id: SpaceId, space: Space, role: Option<Role>, memberCount: nat)

  /** One entry of GET /:id/members. */
  datatype MemberView = MemberView(user: UserId, role: Role, joinedAt: nat)

  const DefaultColor := "bg-blue-500"
  const MinSpaceNameLength := 2

  // ---------------------------------------------------------------------
  // Validators
  // ---------------------------------------------------------------------

  /**
   * `/^bg-\w+-\d{3}$/`: `\w` excludes '-', so the last '-' sits four
   * characters from the end and everything between "bg-" and it is a word.
   */
  predicate ColorFormat(s: string) {
    && |s| >= 8 && s[..3] == "bg-" && s[|s| - 4] == '-'
    && (forall i :: 3 <= i < |s| - 4 ==> IsWordChar(s[i]))
    && (forall i :: |s| - 3 <= i < |s| ==> IsDigit(s[i]))
  }

  lemma ColorExamples()
    ensures ColorFormat(DefaultColor)
    ensures !ColorFormat("bg-blue-50") && !ColorFormat("bg--500") && !ColorFormat("blue-500")
  {
    assert "bg-blue-50"[6] != '-';
    assert "bg--500"[..3] == "bg-";
    assert "blue-500"[..3][1] != "bg-"[1];
  }

  /** The optional validators of POST / and PUT /:id (lines 67-71, 147-151); `isUrl` is express-validator's isURL. */
  predicate OptionalFieldsValid(coverImage: Option<string>, color: Option<string>, isUrl: string -> bool) {
    (coverImage.Some? ==> isUrl(coverImage.value)) && (color.Some? ==> ColorFormat(color.value))
  }

  /** `body('role').isIn(['member', 'admin'])` */
  function AssignableRole(role: string): (r: Option<Role>)
    ensures r.Some? <==> role == "member" || role == "admin"
    ensures r.Some? ==> r.value != Owner
  {
    if role == "member" then Some(Member) else if role == "admin" then Some(Admin) else None
  }

  /** The row POST / inserts: description and cover image become NULL when empty. */
  function NewSpace(name: string, description: Option<string>, coverImage: Option<string>,
                    color: Option<string>, isPrivate: Option<bool>, creator: UserId, now: nat): (s: Space)
    ensures s.name == Trim(name) && s.createdBy == creator
    ensures s.color == (if color.Some? then color.value else DefaultColor)
    ensures s.isPrivate <==> isPrivate == Some(true)
    ensures s.description.Some? <==> description.Some? && Trim(description.value) != ""
  {
    Space(Trim(name), OrNull(TrimOpt(description)), OrNull(coverImage), color.GetOr(DefaultColor),
          isPrivate.GetOr(false), creator, now)
  }

  /** PUT /:id: each supplied field replaces the stored one (name and description trimmed). */
  function UpdatedSpace(s: Space, name: Option<string>, description: Option<string>, coverImage: Option<string>,
                        color: Option<string>, isPrivate: Option<bool>): (r: Space)
    ensures r.name == (if name.Some? then Trim(name.value) else s.name)
    ensures r.description == (if description.Some? then Some(Trim(description.value)) else s.description)
    ensures r.coverImage == (if coverImage.Some? then coverImage else s.coverImage)
    ensures r.color == color.GetOr(s.color) && r.isPrivate == isPrivate.GetOr(s.isPrivate)
    ensures r.createdBy == s.createdBy && r.createdAt == s.createdAt
  {
    s.(name := if name.Some? then Trim(name.value) else s.name,
       description := if description.Some? then TrimOpt(description) else s.description,
       coverImage := if coverImage.Some? then coverImage else s.coverImage,
       color := color.GetOr(s.color),
       isPrivate := isPrivate.GetOr(s.isPrivate))
  }

  /**
   * The supplied texts fit their columns: the trimmed name 255 characters,
   * the trimmed description the bytes of a TEXT column, the cover image
   * URL 500 characters and the colour 50 (`\w+` has no bound).
   */
  predicate SpaceFieldsFit(name: Option<string>, description: Option<string>, coverImage: Option<string>,
                           color: Option<string>) {
    && (name.Some? ==> Fits(Trim(name.value), TextWidth)) && FitsTextOpt(TrimOpt(description))
    && FitsOpt(coverImage, ImageWidth) && FitsOpt(color, ColorWidth)
  }

  // ---------------------------------------------------------------------
  // Integrity of the tables
  // ---------------------------------------------------------------------

  type Memberships = map<(UserId, SpaceId), Membership>
  type Bans = map<(SpaceId, UserId), BanRecord>

  predicate SpacesRefer(spaces: map<SpaceId, Space>, nextSpace: SpaceId, users: map<UserId, UserRow>) {
    nextSpace >= 1 && forall s :: s in spaces ==> 1 <= s < nextSpace && spaces[s].createdBy in users
  }

  predicate MembershipsRefer(ms: Memberships, spaces: map<SpaceId, Space>, users: map<UserId, UserRow>) {
    forall k :: k in ms ==> k.0 in users && k.1 in spaces
  }

  predicate BansRefer(bans: Bans, spaces: map<SpaceId, Space>, users: map<UserId, UserRow>) {
    forall k :: k in bans ==> k.0 in spaces && k.1 in users && bans[k].bannedBy in users
  }

  predicate IsOwner(ms: Memberships, u: UserId, s: SpaceId) {
    (u, s) in ms && ms[(u, s)].role == Owner
  }

  /** No space has two owners. */
  predicate AtMostOneOwner(ms: Memberships) {
    forall a, b :: a in ms && b in ms && a.1 == b.1 && ms[a].role == Owner && ms[b].role == Owner ==> a == b
  }

  /** Nobody is both banned from a space and a member of it. */
  predicate BannedNeverMember(ms: Memberships, bans: Bans) {
    forall k :: k in ms ==> (k.1, k.0) !in bans
  }

  /** No route ever sets `approved`, so every join request stays pending. */
  predicate AllPending(requests: seq<JoinRequest>) {
    forall i :: 0 <= i < |requests| ==> !requests[i].approved
  }

  /** `user_spaces` after `DELETE FROM user_spaces WHERE user_id = ? AND space_id = ?`. */
  function Remove(ms: Memberships, u: UserId, s: SpaceId): (r: Memberships)
    ensures (u, s) !in r
    ensures forall k :: k in r <==> k in ms && k != (u, s)
    ensures forall k :: k in r ==> r[k] == ms[k]
  {
    map k | k in ms && k != (u, s) :: ms[k]
  }

  /** `UPDATE user_spaces SET role = ? WHERE user_id = ? AND space_id = ?` on a row that exists. */
  function WithRole(ms: Memberships, u: UserId, s: SpaceId, role: Role): (r: Memberships)
    requires (u, s) in ms
    ensures r.Keys == ms.Keys && r[(u, s)] == ms[(u, s)].(role := role)
    ensures forall k :: k in ms && k != (u, s) ==> r[k] == ms[k]
  {
    ms[(u, s) := ms[(u, s)].(role := role)]
  }

  /**
   * Promotion (lines 590-600): the owner's row becomes admin, then the
   * target's row becomes owner.
   */
  function Promoted(ms: Memberships, owner: UserId, target: UserId, s: SpaceId): Memberships
    requires (owner, s) in ms && (target, s) in ms
  {
    WithRole(WithRole(ms, owner, s, Admin), target, s, Owner)
  }

  /** Promotion hands the single ownership to the target; every other row keeps its role. */
  lemma PromotionHandsOverOwnership(ms: Memberships, owner: UserId, target: UserId, s: SpaceId)
    requires AtMostOneOwner(ms) && IsOwner(ms, owner, s) && (target, s) in ms
    ensures var r := Promoted(ms, owner, target, s);
      && AtMostOneOwner(r) && IsOwner(r, target, s)
      && (target != owner ==> r[(owner, s)].role == Admin)
      && r.Keys == ms.Keys
      && (forall k :: k in ms && k != (owner, s) && k != (target, s) ==> r[k] == ms[k])
      && (forall u: UserId :: IsOwner(r, u, s) ==> u == target)
  {
    var d := WithRole(ms, owner, s, Admin);
    var r := WithRole(d, target, s, Owner);
    assert forall a :: a in ms && a.1 == s && ms[a].role == Owner ==> a == (owner, s);
    assert forall a :: a in r && a != (target, s) && a != (owner, s) ==> r[a] == ms[a];
    assert forall a :: a in r && a.1 == s && r[a].role == Owner ==> a == (target, s);
  }

  /** Promoting oneself ends where it started: the owner stays owner. */
  lemma SelfPromotionChangesNothing(ms: Memberships, owner: UserId, s: SpaceId)
    requires IsOwner(ms, owner, s)
    ensures Promoted(ms, owner, owner, s) == ms
  {
    var r := Promoted(ms, owner, owner, s);
    assert r[(owner, s)] == ms[(owner, s)];
    assert forall k :: k in r ==> r[k] == ms[k];
  }

  /**
   * The role-change handler has no owner guard: setting the owner's own
   * row to member or admin leaves the space without an owner.
   */
  lemma DemotingOwnerLeavesNoOwner(ms: Memberships, owner: UserId, s: SpaceId, role: Role)
    requires AtMostOneOwner(ms) && IsOwner(ms, owner, s) && role != Owner
    ensures forall u: UserId :: !IsOwner(WithRole(ms, owner, s, role), u, s)
  {
    assert forall a :: a in ms && a.1 == s && ms[a].role == Owner ==> a == (owner, s);
  }

  /** A role change to member or admin creates no second owner. */
  lemma RoleChangeKeepsOneOwner(ms: Memberships, u: UserId, s: SpaceId, role: Role)
    requires AtMostOneOwner(ms) && (u, s) in ms && role != Owner
    ensures AtMostOneOwner(WithRole(ms, u, s, role))
  {
  }

  /** Creating space `id` with its creator as owner keeps every table consistent. */
  lemma CreationKeepsIntegrity(spaces: map<SpaceId, Space>, id: SpaceId, ms: Memberships, bans: Bans,
                               users: map<UserId, UserRow>, sp: Space, joinedAt: nat)
    requires SpacesRefer(spaces, id, users) && MembershipsRefer(ms, spaces, users) && BansRefer(bans, spaces, users)
    requires AtMostOneOwner(ms) && BannedNeverMember(ms, bans) && sp.createdBy in users
    ensures var ms' := ms[(sp.createdBy, id) := Membership(Owner, joinedAt)];
      && SpacesRefer(spaces[id := sp], id + 1, users)
      && MembershipsRefer(ms', spaces[id := sp], users)
      && BansRefer(bans, spaces[id := sp], users)
      && AtMostOneOwner(ms') && BannedNeverMember(ms', bans)
      && (forall k :: k in ms' && k.1 == id ==> k == (sp.createdBy, id))
  {
    assert forall k :: k in ms ==> k.1 != id;
    assert forall k :: k in bans ==> k.0 != id;
  }

  /** Deleting space `s` together with its memberships and bans keeps every table consistent. */
  lemma DeletionKeepsIntegrity(spaces: map<SpaceId, Space>, next: SpaceId, ms: Memberships, bans: Bans,
                               users: map<UserId, UserRow>, s: SpaceId)
    requires SpacesRefer(spaces, next, users) && MembershipsRefer(ms, spaces, users) && BansRefer(bans, spaces, users)
    requires AtMostOneOwner(ms) && BannedNeverMember(ms, bans)
    ensures var ms' := map k | k in ms && k.1 != s :: ms[k];
      var bans' := map k | k in bans && k.0 != s :: bans[k];
      && SpacesRefer(spaces - {s}, next, users)
      && MembershipsRefer(ms', spaces - {s}, users)
      && BansRefer(bans', spaces - {s}, users)
      && AtMostOneOwner(ms') && BannedNeverMember(ms', bans')
  {
  }

  /** Dropping `u`'s membership of `s` and recording a ban by a known user keeps every table consistent. */
  lemma BanKeepsIntegrity(spaces: map<SpaceId, Space>, ms: Memberships, bans: Bans,
                          users: map<UserId, UserRow>, s: SpaceId, u: UserId, record: BanRecord)
    requires MembershipsRefer(ms, spaces, users) && BansRefer(bans, spaces, users)
    requires AtMostOneOwner(ms) && BannedNeverMember(ms, bans)
    requires s in spaces && u in users && record.bannedBy in users
    ensures var ms', bans' := Remove(ms, u, s), bans[(s, u) := record];
      && MembershipsRefer(ms', spaces, users) && BansRefer(bans', spaces, users)
      && AtMostOneOwner(ms') && BannedNeverMember(ms', bans')
  {
  }

  /** A new non-owner membership of an existing space, for a known user who is not banned from it, keeps every table consistent. */
  lemma MemberAddedKeepsIntegrity(spaces: map<SpaceId, Space>, ms: Memberships, bans: Bans,
                                  users: map<UserId, UserRow>, u: UserId, s: SpaceId, m: Membership)
    requires MembershipsRefer(ms, spaces, users) && AtMostOneOwner(ms) && BannedNeverMember(ms, bans)
    requires s in spaces && u in users && (s, u) !in bans && m.role != Owner
    ensures MembershipsRefer(ms[(u, s) := m], spaces, users)
    ensures AtMostOneOwner(ms[(u, s) := m]) && BannedNeverMember(ms[(u, s) := m], bans)
  {
  }

  // ---------------------------------------------------------------------
  // GET /:id/members ordering: owner, then admins, then members, each by joined_at
  // ---------------------------------------------------------------------

  function RoleRank(r: Role): nat {
    match r
    case Owner => 1
    case Admin => 2
    case Member => 3
  }

  predicate ListedBefore(a: MemberView, b: MemberView) {
    RoleRank(a.role) < RoleRank(b.role) || (RoleRank(a.role) == RoleRank(b.role) && a.joinedAt <= b.joinedAt)
  }

  predicate MembersSorted(vs: seq<MemberView>) {
    forall i, j :: 0 <= i < j < |vs| ==> ListedBefore(vs[i], vs[j])
  }

  lemma AllListedAfter(rest: seq<MemberView>, vs: seq<MemberView>, x: MemberView, head: MemberView)
    requires multiset(rest) == multiset(vs) + multiset{x}
    requires forall k :: 0 <= k < |vs| ==> ListedBefore(head, vs[k])
    requires ListedBefore(head, x)
    ensures forall k :: 0 <= k < |rest| ==> ListedBefore(head, rest[k])
  {
    forall k | 0 <= k < |rest| ensures ListedBefore(head, rest[k]) {
      assert rest[k] in multiset(rest);
      if rest[k] != x {
        assert rest[k] in multiset(vs);
        var j :| 0 <= j < |vs| && vs[j] == rest[k];
      }
    }
  }

  function InsertMember(x: MemberView, vs: seq<MemberView>): (r: seq<MemberView>)
    requires MembersSorted(vs)
    ensures MembersSorted(r)
    ensures multiset(r) == multiset(vs) + multiset{x}
  {
    if vs == [] then [x]
    else if ListedBefore(x, vs[0]) then
      InsertFirst(x, vs);
      [x] + vs
    else
      SortedTail(vs);
      var rest := InsertMember(x, vs[1..]);
      InsertLater(x, vs, rest);
      [vs[0]] + rest
  }

  lemma SortedTail(vs: seq<MemberView>)
    requires MembersSorted(vs) && vs != []
    ensures MembersSorted(vs[1..])
  {
    var tail := vs[1..];
    forall i, j | 0 <= i < j < |tail| ensures ListedBefore(tail[i], tail[j]) {
      assert tail[i] == vs[i + 1] && tail[j] == vs[j + 1];
    }
  }

  /** A view listed before the head goes first. */
  lemma InsertFirst(x: MemberView, vs: seq<MemberView>)
    requires MembersSorted(vs) && vs != [] && ListedBefore(x, vs[0])
    ensures MembersSorted([x] + vs)
  {
    forall k | 0 <= k < |vs| ensures ListedBefore(x, vs[k]) {
      if k > 0 { assert ListedBefore(vs[0], vs[k]); }
    }
    MembersCons(x, vs);
  }

  /** A view not listed before the head goes into the tail. */
  lemma InsertLater(x: MemberView, vs: seq<MemberView>, rest: seq<MemberView>)
    requires MembersSorted(vs) && vs != [] && !ListedBefore(x, vs[0])
    requires MembersSorted(rest) && multiset(rest) == multiset(vs[1..]) + multiset{x}
    ensures MembersSorted([vs[0]] + rest)
    ensures multiset([vs[0]] + rest) == multiset(vs) + multiset{x}
  {
    var tail := vs[1..];
    assert vs == [vs[0]] + tail;
    forall k | 0 <= k < |tail| ensures ListedBefore(vs[0], tail[k]) {
      assert tail[k] == vs[k + 1];
    }
    AllListedAfter(rest, tail, x, vs[0]);
    MembersCons(vs[0], rest);
  }

  lemma MembersCons(x: MemberView, vs: seq<MemberView>)
    requires MembersSorted(vs)
    requires forall k :: 0 <= k < |vs| ==> ListedBefore(x, vs[k])
    ensures MembersSorted([x] + vs)
  {
    var r := [x] + vs;
    forall i, j | 0 <= i < j < |r| ensures ListedBefore(r[i], r[j]) {
      assert r[j] == vs[j - 1];
      if i > 0 {
        assert r[i] == vs[i - 1];
      }
    }
  }

  function SortMembers(vs: seq<MemberView>): (r: seq<MemberView>)
    ensures MembersSorted(r)
    ensures multiset(r) == multiset(vs)
  {
    if vs == [] then []
    else
      assert vs == [vs[0]] + vs[1..];
      InsertMember(vs[0], SortMembers(vs[1..]))
  }

  // ---------------------------------------------------------------------
  // GET / : the caller's spaces, or the public ones
  // ---------------------------------------------------------------------

  /**
   * `s.name LIKE '%q%' OR s.description LIKE '%q%'`, applied only for a
   * non-empty search; the default collation compares without case.
   */
  predicate SearchMatches(search: Option<string>, sp: Space) {
    search.None? || search.value == "" ||
    Contains(Upper(sp.name), Upper(search.value))
    || (sp.description.Some? && Contains(Upper(sp.description.value), Upper(search.value)))
  }

  /** Two queries that differ only in the case of their letters find the same spaces. */
  lemma SearchIgnoresCase(q: string, q': string, sp: Space)
    requires Upper(q) == Upper(q')
    ensures SearchMatches(Some(q), sp) <==> SearchMatches(Some(q'), sp)
  {
    assert q == "" <==> q' == "" by {
      assert |q| == |Upper(q)| == |Upper(q')| == |q'|;
    }
  }

  // ---------------------------------------------------------------------
  // The tables and the handlers
  // ---------------------------------------------------------------------

  /** The invite handler as written (lines 399-467): see `SpaceDirectory.Invite` for the intended checks. */
  function InviteAsWritten(role: Option<string>): (r: Response<()>)
    ensures r.BadRequest? <==> role.Some? && AssignableRole(role.value).None?
    ensures !r.BadRequest? ==> r.ServerError?
  {
    if role.Some? && AssignableRole(role.value).None? then BadRequest
    else ServerError    // `SELECT id FROM space_bans`: the table has no `id` column
  }

  /** The ban lookup of the invite handler names a column `space_bans` does not have. */
  lemma InviteBanLookupNamesMissingColumn()
    ensures "id" !in SpaceBanColumns
    ensures InviteAsWritten(None) == ServerError && InviteAsWritten(Some("admin")) == ServerError
  {
    MissingColumns();
  }

  class SpaceDirectory {
    const users: map<UserId, UserRow>
    var spaces: map<SpaceId, Space>
    var nextSpace: SpaceId
    var memberships: Memberships
    var bans: Bans
    var requests: seq<JoinRequest>
    var notifications: seq<Notification>
    var clock: nat

    ghost predicate Valid()
      reads this
    {
      && SpacesRefer(spaces, nextSpace, users)
      && MembershipsRefer(memberships, spaces, users)
      && BansRefer(bans, spaces, users)
      && AtMostOneOwner(memberships)
      && BannedNeverMember(memberships, bans)
      && AllPending(requests)
    }

    constructor (users: map<UserId, UserRow>)
      ensures Valid() && this.users == users
      ensures spaces == map[] && memberships == map[] && bans == map[] && requests == []
    {
      this.users := users;
      spaces := map[];
      nextSpace := 1;
      memberships := map[];
      bans := map[];
      requests := [];
      notifications := [];
      clock := 0;
    }

    method Tick()
      modifies this`clock
      ensures clock == old(clock) + 1
    {
      clock := clock + 1;
    }

    function RoleOf(u: UserId, s: SpaceId): (r: Option<Role>)
      reads this`memberships
      ensures r.Some? <==> (u, s) in memberships
      ensures r.Some? ==> r.value == memberships[(u, s)].role
    {
      if (u, s) in memberships then Some(memberships[(u, s)].role) else None
    }

    /** `membership.length === 0 || !['admin', 'owner'].includes(role)` fails, or the caller is a site admin. */
    predicate CanManage(me: CurrentUser, s: SpaceId)
      reads this`memberships
    {
      RoleOf(me.id, s) == Some(Admin) || RoleOf(me.id, s) == Some(Owner) || me.isAdmin
    }

    /** The role-change guard (line 487): the space owner or a site admin. */
    predicate CanChangeRoles(me: CurrentUser, s: SpaceId)
      reads this`memberships
    {
      RoleOf(me.id, s) == Some(Owner) || me.isAdmin
    }

    predicate CreatorActive(s: SpaceId)
      reads this`spaces
      requires s in spaces
    {
      spaces[s].createdBy in users && users[spaces[s].createdBy].isActive
    }

    /** `(SELECT COUNT(*) FROM user_spaces WHERE space_id = s.id)` */
    function MemberCount(s: SpaceId): nat
      reads this`memberships
    {
      |set k | k in memberships && k.1 == s|
    }

    /** GET /:id (lines 112-144). */
    function GetSpace(me: CurrentUser, s: SpaceId): (r: Response<SpaceView>)
      reads this`spaces, this`memberships
      ensures r.Ok? || r.NotFound? || r.Forbidden?
      ensures r.NotFound? <==> s !in spaces || !CreatorActive(s)
      ensures r.Forbidden? <==> s in spaces && CreatorActive(s) && spaces[s].isPrivate && (me.id, s) !in memberships
      ensures r.Ok? ==> r.value.id == s && r.value.space == spaces[s] && r.value.role == RoleOf(me.id, s)
      ensures r.Ok? ==> r.value.memberCount == |set k | k in memberships && k.1 == s|
    {
      if s !in spaces || !CreatorActive(s) then NotFound
      else if spaces[s].isPrivate && RoleOf(me.id, s).None? then Forbidden
      else Ok(SpaceView(s, spaces[s], RoleOf(me.id, s), MemberCount(s)))
    }

    /**
     * A row of GET / (lines 7-64). With `my_spaces=true` the query lists
     * the public spaces (joined or not); with any other value it lists the
     * spaces the caller belongs to, private ones included.
     */
    predicate Listable(me: CurrentUser, publicView: bool, search: Option<string>, s: SpaceId)
      reads this`spaces, this`memberships
    {
      && s in spaces && CreatorActive(s)
      && (if publicView then !spaces[s].isPrivate else (me.id, s) in memberships)
      && SearchMatches(search, spaces[s])
    }

    /** The listable ids below `n`, newest first (`ORDER BY s.created_at DESC`; ids grow with creation time). */
    function ListedBelow(me: CurrentUser, publicView: bool, search: Option<string>, n: nat): (r: seq<SpaceId>)
      reads this`spaces, this`memberships
      ensures forall i :: 0 <= i < |r| ==> r[i] < n && Listable(me, publicView, search, r[i])
      ensures forall i, j :: 0 <= i < j < |r| ==> r[i] > r[j]
      ensures forall s: SpaceId :: s < n && Listable(me, publicView, search, s) ==> s in r
    {
      if n == 0 then []
      else (if Listable(me, publicView, search, n - 1) then [n - 1] else []) + ListedBelow(me, publicView, search, n - 1)
    }

    /**
     * GET / (lines 7-64): `limit` and `offset` are what `parseInt` made of
     * the query (20 and 0 when absent, None for NaN); LIMIT and OFFSET
     * refuse a negative or NaN value with 500.
     */
    function ListSpaces(me: CurrentUser, mySpaces: Option<string>, search: Option<string>, limit: Option<int>, offset: Option<int>)
      : (r: Response<seq<SpaceId>>)
      reads this`spaces, this`memberships, this`nextSpace
      ensures r.Ok? || r.ServerError?
      ensures r.ServerError? <==> !PageBounds(limit, offset)
      ensures r.Ok? ==>
        r.value == Slice(ListedBelow(me, mySpaces == Some("true"), search, nextSpace), offset.value as nat, limit.value as nat)
      ensures r.Ok? ==> forall i :: 0 <= i < |r.value| ==> Listable(me, mySpaces == Some("true"), search, r.value[i])
      ensures r.Ok? ==> forall i, j :: 0 <= i < j < |r.value| ==> r.value[i] > r.value[j]
    {
      if !PageBounds(limit, offset) then ServerError
      else
        var all := ListedBelow(me, mySpaces == Some("true"), search, nextSpace);
        var page := Slice(all, offset.value as nat, limit.value as nat);
        assert forall i, j :: 0 <= i < j < |page| ==> page[i] > page[j] by {
          forall i, j | 0 <= i < j < |page| ensures page[i] > page[j] {
            assert page[i] == all[offset.value + i] && page[j] == all[offset.value + j];
          }
        }
        Ok(page)
    }

    /**
     * POST / (lines 66-110): 400 for fields the validators refuse, 500 when
     * a text is too long for its column; otherwise the space and the
     * creator's owner row.
     */
    method CreateSpace(me: CurrentUser, name: string, description: Option<string>, coverImage: Option<string>,
                       color: Option<string>, isPrivate: Option<bool>, isUrl: string -> bool)
      returns (r: Response<SpaceView>)
      requires Valid() && me.id in users
      modifies this`spaces, this`nextSpace, this`memberships
      ensures Valid()
      ensures r.Created? || r.BadRequest? || r.ServerError?
      ensures r.BadRequest? <==> |Trim(name)| < MinSpaceNameLength || !OptionalFieldsValid(coverImage, color, isUrl)
      ensures r.ServerError? <==> !r.BadRequest? && !SpaceFieldsFit(Some(name), description, coverImage, color)
      ensures !r.Created? ==> spaces == old(spaces) && nextSpace == old(nextSpace) && memberships == old(memberships)
      ensures r.Created? ==>
        var id := old(nextSpace);
        var sp := NewSpace(name, description, coverImage, color, isPrivate, me.id, clock);
        && id !in old(spaces) && spaces == old(spaces)[id := sp] && nextSpace == id + 1
        && memberships == old(memberships)[(me.id, id) := Membership(Owner, clock)]
        && r.value == SpaceView(id, sp, Some(Owner), 1)
        && (forall k :: k in memberships && k.1 == id ==> k == (me.id, id))
    {
      if |Trim(name)| < MinSpaceNameLength || !OptionalFieldsValid(coverImage, color, isUrl) {
        return BadRequest;
      }
      if !SpaceFieldsFit(Some(name), description, coverImage, color) {
        return ServerError;
      }
      var sp := NewSpace(name, description, coverImage, color, isPrivate, me.id, clock);
      var id := InsertSpace(sp);
      r := Created(SpaceView(id, sp, Some(Owner), 1));   // the response hard-codes 'owner' and a count of 1
    }

    /** `INSERT INTO spaces`, then the creator's `user_spaces` row with the role 'owner'. */
    method InsertSpace(sp: Space) returns (id: SpaceId)
      requires Valid() && sp.createdBy in users
      modifies this`spaces, this`nextSpace, this`memberships
      ensures Valid()
      ensures id == old(nextSpace) && id !in old(spaces) && spaces == old(spaces)[id := sp] && nextSpace == id + 1
      ensures memberships == old(memberships)[(sp.createdBy, id) := Membership(Owner, clock)]
      ensures forall k :: k in memberships && k.1 == id ==> k == (sp.createdBy, id)
    {
      id := nextSpace;
      CreationKeepsIntegrity(spaces, id, memberships, bans, users, sp, clock);
      spaces, nextSpace, memberships := spaces[id := sp], nextSpace + 1, memberships[(sp.createdBy, id) := Membership(Owner, clock)];
    }

    /**
     * PUT /:id (lines 146-197): 400 for fields the validators refuse, 403
     * for a caller who cannot manage the space, 400 when nothing is
     * supplied, 500 when a supplied text is too long for its column. The
     * UPDATE of a missing space stores nothing, so it neither fails nor
     * changes anything and still answers 200.
     */
    method UpdateSpace(me: CurrentUser, s: SpaceId, name: Option<string>, description: Option<string>,
                       coverImage: Option<string>, color: Option<string>, isPrivate: Option<bool>,
                       isUrl: string -> bool)
      returns (r: Response<()>)
      requires Valid()
      modifies this`spaces
      ensures Valid()
      ensures r.Ok? || r.BadRequest? || r.Forbidden? || r.ServerError?
      ensures r.Forbidden? <==>
        (name.Some? ==> |Trim(name.value)| >= MinSpaceNameLength) && OptionalFieldsValid(coverImage, color, isUrl)
        && !CanManage(me, s)
      ensures r.Ok? <==>
        (name.Some? ==> |Trim(name.value)| >= MinSpaceNameLength) && OptionalFieldsValid(coverImage, color, isUrl)
        && CanManage(me, s)
        && (name.Some? || description.Some? || coverImage.Some? || color.Some? || isPrivate.Some?)
        && (s in old(spaces) ==> SpaceFieldsFit(name, description, coverImage, color))
      ensures r.ServerError? <==>
        (name.Some? ==> |Trim(name.value)| >= MinSpaceNameLength) && OptionalFieldsValid(coverImage, color, isUrl)
        && CanManage(me, s)
        && (name.Some? || description.Some? || coverImage.Some? || color.Some? || isPrivate.Some?)
        && s in old(spaces) && !SpaceFieldsFit(name, description, coverImage, color)
      ensures r.Ok? && s in old(spaces) ==>
        spaces == old(spaces)[s := UpdatedSpace(old(spaces)[s], name, description, coverImage, color, isPrivate)]
      ensures !r.Ok? || s !in old(spaces) ==> spaces == old(spaces)
    {
      if (name.Some? && |Trim(name.value)| < MinSpaceNameLength) || !OptionalFieldsValid(coverImage, color, isUrl) {
        return BadRequest;
      }
      if !CanManage(me, s) {
        return Forbidden;
      }
      if name.None? && description.None? && coverImage.None? && color.None? && isPrivate.None? {
        return BadRequest;                        // no fields to update
      }
      if s in spaces && !SpaceFieldsFit(name, description, coverImage, color) {
        return ServerError;
      }
      if s in spaces {
        StoreSpace(s, UpdatedSpace(spaces[s], name, description, coverImage, color, isPrivate));
      }
      r := Ok(());
    }

    /** `UPDATE spaces SET ... WHERE id = ?` on an existing space; the creator stays. */
    method StoreSpace(s: SpaceId, sp: Space)
      requires Valid() && s in spaces && sp.createdBy == spaces[s].createdBy
      modifies this`spaces
      ensures Valid()
      ensures spaces == old(spaces)[s := sp]
    {
      spaces := spaces[s := sp];
    }

    /** The first request row of `u` for `s` among the first `n`. */
    function FirstRequest(u: UserId, s: SpaceId, n: nat): (r: Option<nat>)
      requires n <= |requests|
      reads this`requests
      ensures r.Some? ==> r.value < n && requests[r.value].user == u && requests[r.value].space == s
      ensures r.Some? ==> forall i :: 0 <= i < r.value ==> !(requests[i].user == u && requests[i].space == s)
      ensures r.None? ==> forall i :: 0 <= i < n ==> !(requests[i].user == u && requests[i].space == s)
    {
      if n == 0 then None
      else
        var earlier := FirstRequest(u, s, n - 1);
        if earlier.Some? then earlier
        else if requests[n - 1].user == u && requests[n - 1].space == s then Some(n - 1)
        else None
    }

    /** GET /:id/join-request/me (lines 199-213): None for 'none', else whether the first request is approved. */
    function JoinRequestStatus(me: CurrentUser, s: SpaceId): (r: Option<bool>)
      reads this`requests
      ensures r.None? <==> forall i :: 0 <= i < |requests| ==> !(requests[i].user == me.id && requests[i].space == s)
    {
      match FirstRequest(me.id, s, |requests|)
      case None => None
      case Some(i) => Some(requests[i].approved)
    }

    /** Nothing sets `approved`, so the status is only ever 'none' or 'pending'. */
    lemma StatusNeverApproved(me: CurrentUser, s: SpaceId)
      requires Valid()
      ensures JoinRequestStatus(me, s) != Some(true)
    {
    }

    predicate HasPending(u: UserId, s: SpaceId)
      reads this`requests
    {
      exists i :: 0 <= i < |requests| && requests[i].user == u && requests[i].space == s && !requests[i].approved
    }

    /**
     * POST /:id/join-requests (lines 216-253). The request row is stored;
     * the notification that follows has type 'space_req', which the ENUM
     * of `notifications.type` refuses, and the catch block then names an
     * undeclared `error`, which throws past it: the request is never
     * answered. A message longer than its TEXT column fails the first
     * INSERT and reaches the same catch block: nothing is stored, and no
     * answer is sent either.
     */
    method RequestToJoin(me: CurrentUser, s: SpaceId, message: Option<string>) returns (r: Response<()>)
      requires Valid()
      modifies this`requests
      ensures Valid()
      ensures r.NotFound? || r.BadRequest? || r.NoResponse?
      ensures r.NotFound? <==> s !in spaces
      ensures r.BadRequest? <==> s in spaces && old(HasPending(me.id, s))
      ensures r.NoResponse? && FitsText(TrimOpt(message).GetOr("")) ==>
        requests == old(requests) + [JoinRequest(me.id, s, TrimOpt(message).GetOr(""), false, clock)]
      ensures !r.NoResponse? || !FitsText(TrimOpt(message).GetOr("")) ==> requests == old(requests)
    {
      if s !in spaces {
        return NotFound;
      }
      if HasPending(me.id, s) {
        return BadRequest;                        // request already pending
      }
      if FitsText(TrimOpt(message).GetOr("")) {
        requests := requests + [JoinRequest(me.id, s, TrimOpt(message).GetOr(""), false, clock)];
      }
      r := NoResponse;
    }

    /** DELETE /:id (lines 255-279): the creator (not the current owner) or a site admin; the FKs cascade. */
    method DeleteSpace(me: CurrentUser, s: SpaceId) returns (r: Response<()>)
      requires Valid()
      modifies this`spaces, this`memberships, this`bans
      ensures Valid()
      ensures r.Ok? || r.NotFound? || r.Forbidden?
      ensures r.NotFound? <==> s !in old(spaces)
      ensures r.Forbidden? <==> s in old(spaces) && old(spaces)[s].createdBy != me.id && !me.isAdmin
      ensures r.Ok? ==>
        && spaces == old(spaces) - {s}
        && (forall k :: k in memberships <==> k in old(memberships) && k.1 != s)
        && (forall k :: k in bans <==> k in old(bans) && k.0 != s)
        && (forall k :: k in memberships ==> memberships[k] == old(memberships)[k])
        && (forall k :: k in bans ==> bans[k] == old(bans)[k])
      ensures !r.Ok? ==> spaces == old(spaces) && memberships == old(memberships) && bans == old(bans)
    {
      if s !in spaces {
        return NotFound;
      }
      if spaces[s].createdBy != me.id && !me.isAdmin {
        return Forbidden;
      }
      RemoveSpace(s);
      r := Ok(());
    }

    /** `DELETE FROM spaces WHERE id = ?`, with the cascades of `user_spaces` and `space_bans`. */
    method RemoveSpace(s: SpaceId)
      requires Valid()
      modifies this`spaces, this`memberships, this`bans
      ensures Valid()
      ensures spaces == old(spaces) - {s}
      ensures memberships == map k | k in old(memberships) && k.1 != s :: old(memberships)[k]
      ensures bans == map k | k in old(bans) && k.0 != s :: old(bans)[k]
    {
      DeletionKeepsIntegrity(spaces, nextSpace, memberships, bans, users, s);
      spaces := spaces - {s};
      memberships := map k | k in memberships && k.1 != s :: memberships[k];   // ON DELETE CASCADE
      bans := map k | k in bans && k.0 != s :: bans[k];                       // ON DELETE CASCADE
    }

    /** DELETE /user_spaces/:space_id (lines 281-309): every member but the owner may leave. */
    method Leave(me: CurrentUser, s: SpaceId) returns (r: Response<()>)
      requires Valid()
      modifies this`memberships
      ensures Valid()
      ensures r.Ok? || r.NotFound? || r.Forbidden?
      ensures r.NotFound? <==> (me.id, s) !in old(memberships)
      ensures r.Forbidden? <==> IsOwner(old(memberships), me.id, s)
      ensures r.Ok? ==> memberships == Remove(old(memberships), me.id, s)
      ensures !r.Ok? ==> memberships == old(memberships)
    {
      if (me.id, s) !in memberships {
        return NotFound;
      }
      if memberships[(me.id, s)].role == Owner {
        return Forbidden;                         // owner cannot leave
      }
      memberships := Remove(memberships, me.id, s);
      r := Ok(());
    }

    /**
     * POST /:id/join (lines 311-354): the ban is checked before the space
     * exists; a member calling again gets 200 and nothing changes.
     */
    method Join(me: CurrentUser, s: SpaceId) returns (r: Response<()>)
      requires Valid() && me.id in users
      modifies this`memberships
      ensures Valid()
      ensures r.Ok? || r.Forbidden? || r.NotFound?
      ensures r.Forbidden? <==>
        (s, me.id) in bans || (s in spaces && (me.id, s) !in old(memberships) && spaces[s].isPrivate)
      ensures r.NotFound? <==> (s, me.id) !in bans && s !in spaces
      ensures r.Ok? && (me.id, s) !in old(memberships) ==>
        memberships == old(memberships)[(me.id, s) := Membership(Member, clock)]
      ensures !r.Ok? || (me.id, s) in old(memberships) ==> memberships == old(memberships)
      ensures r.Ok? ==> (me.id, s) in memberships
    {
      if (s, me.id) in bans {
        return Forbidden;                         // banned from this space
      }
      if s !in spaces {
        return NotFound;
      }
      if (me.id, s) !in memberships {
        if spaces[s].isPrivate {
          return Forbidden;                       // private space without invitation
        }
        AddMember(me.id, s, Membership(Member, clock));
      }
      r := Ok(());
    }

    /** `INSERT INTO user_spaces (user_id, space_id, role)` for a user who is not banned and does not become owner. */
    method AddMember(u: UserId, s: SpaceId, m: Membership)
      requires Valid() && s in spaces && u in users && (s, u) !in bans && m.role != Owner
      modifies this`memberships
      ensures Valid()
      ensures memberships == old(memberships)[(u, s) := m]
    {
      MemberAddedKeepsIntegrity(spaces, memberships, bans, users, u, s, m);
      memberships := memberships[(u, s) := m];
    }

    /** `SELECT ... FROM user_spaces JOIN users ... WHERE space_id = ? AND u.is_active` */
    function ActiveMembers(s: SpaceId): (r: set<UserId>)
      reads this`memberships
      ensures forall u :: u in r <==> u in users && users[u].isActive && (u, s) in memberships
    {
      set u | u in users && users[u].isActive && (u, s) in memberships
    }

    /** `v` is the listing entry of an active member of `s`. */
    predicate IsMemberView(s: SpaceId, v: MemberView)
      reads this`memberships
    {
      v.user in ActiveMembers(s)
      && v.role == memberships[(v.user, s)].role && v.joinedAt == memberships[(v.user, s)].joinedAt
    }

    /**
     * GET /:id/members (lines 356-397): a member or a site admin gets one
     * entry per active member, owner first, then admins, then members,
     * each group by joining time.
     */
    method Members(me: CurrentUser, s: SpaceId) returns (r: Response<seq<MemberView>>)
      ensures r.Ok? || r.Forbidden?
      ensures r.Forbidden? <==> (me.id, s) !in memberships && !me.isAdmin
      ensures r.Ok? ==> MembersSorted(r.value)
      ensures r.Ok? ==> forall v :: v in r.value <==> IsMemberView(s, v)
      ensures r.Ok? ==> |r.value| == |ActiveMembers(s)|
    {
      if (me.id, s) !in memberships && !me.isAdmin {
        return Forbidden;                         // access denied
      }
      var ids := Enumerate(ActiveMembers(s));
      var ms := memberships;
      var views := seq(|ids|, i requires 0 <= i < |ids| =>
                         MemberView(ids[i], ms[(ids[i], s)].role, ms[(ids[i], s)].joinedAt));
      var sorted := SortMembers(views);
      forall v | v in sorted ensures IsMemberView(s, v) {
        assert v in multiset(views);
        var i :| 0 <= i < |views| && views[i] == v;
      }
      forall v | IsMemberView(s, v) ensures v in sorted {
        var i :| 0 <= i < |ids| && ids[i] == v.user;
        assert views[i] == v;
        assert v in multiset(views);
      }
      assert |sorted| == |multiset(sorted)| == |multiset(views)| == |views|;
      r := Ok(sorted);
    }

    /** `target` names a user row (a negative number names none). */
    predicate IsActiveUser(t: JsId) {
      t.n >= 0 && t.n as nat in users && users[t.n as nat].isActive
    }

    predicate IsBanned(s: SpaceId, t: JsId)
      reads this`bans
    {
      t.n >= 0 && (s, t.n as nat) in bans
    }

    predicate IsMember(t: JsId, s: SpaceId)
      reads this`memberships
    {
      t.n >= 0 && (t.n as nat, s) in memberships
    }

    /**
     * POST /:id/invite (lines 399-467) with the ban lookup reading a column
     * that exists: 400 for a bad role, 403 for a banned target or a caller
     * who may not manage the space, 404 for a target that is not an
     * active user, 400 for a member; otherwise the target joins with the
     * role (default member) and is told who added them. A missing space
     * fails the foreign key of `user_spaces` and answers 500.
     */
    method Invite(me: CurrentUser, s: SpaceId, target: JsId, role: Option<string>) returns (r: Response<()>)
      requires Valid()
      modifies this`memberships, this`notifications
      ensures Valid()
      ensures role.Some? && AssignableRole(role.value).None? ==> r.BadRequest?
      ensures role.None? || AssignableRole(role.value).Some? ==> (
        var granted := if role.None? then Member else AssignableRole(role.value).value;
        if IsBanned(s, target) || !old(CanManage(me, s)) then r.Forbidden?
        else if !IsActiveUser(target) then r.NotFound?
        else if old(IsMember(target, s)) then r.BadRequest?
        else if s !in spaces then r.ServerError?
        else
          && r.Ok?
          && memberships == old(memberships)[(target.n as nat, s) := Membership(granted, clock)]
          && notifications == old(notifications) + [Notification(target.n as nat, "space",
               "Space Invitation", "You've been added to a space by " + me.name, Some(s), false)])
      ensures !r.Ok? ==> memberships == old(memberships) && notifications == old(notifications)
    {
      if role.Some? && AssignableRole(role.value).None? {
        return BadRequest;
      }
      var granted := if role.None? then Member else AssignableRole(role.value).value;
      if IsBanned(s, target) {
        return Forbidden;                         // user is banned from this space
      }
      if !CanManage(me, s) {
        return Forbidden;
      }
      if !IsActiveUser(target) {
        return NotFound;
      }
      var u := target.n as nat;
      if (u, s) in memberships {
        return BadRequest;                        // already a member
      }
      if s !in spaces {
        return ServerError;                       // foreign key of user_spaces.space_id
      }
      AddMember(u, s, Membership(granted, clock));
      notifications := notifications + [Notification(u, "space", "Space Invitation",
                                                     "You've been added to a space by " + me.name, Some(s), false)];
      r := Ok(());
    }

    /**
     * PUT /:id/members/:userId (lines 469-507): the owner or a site admin
     * sets a member's role to member or admin. Nothing stops the owner's
     * own row from being changed (see `DemotingOwnerLeavesNoOwner`).
     */
    method ChangeRole(me: CurrentUser, s: SpaceId, target: UserId, role: string) returns (r: Response<()>)
      requires Valid()
      modifies this`memberships
      ensures Valid()
      ensures AssignableRole(role).None? ==> r.BadRequest?
      ensures AssignableRole(role).Some? && !old(CanChangeRoles(me, s)) ==> r.Forbidden?
      ensures AssignableRole(role).Some? && old(CanChangeRoles(me, s)) && (target, s) !in old(memberships) ==> r.NotFound?
      ensures AssignableRole(role).Some? && old(CanChangeRoles(me, s)) && (target, s) in old(memberships) ==>
        r.Ok? && memberships == WithRole(old(memberships), target, s, AssignableRole(role).value)
      ensures !r.Ok? ==> memberships == old(memberships)
    {
      var newRole := AssignableRole(role);
      if newRole.None? {
        return BadRequest;
      }
      if !CanChangeRoles(me, s) {
        return Forbidden;                         // only the space owner can change roles
      }
      if (target, s) !in memberships {
        return NotFound;                          // the UPDATE matched no row
      }
      RoleChangeKeepsOneOwner(memberships, target, s, newRole.value);
      memberships := WithRole(memberships, target, s, newRole.value);
      r := Ok(());
    }

    /** DELETE /:spaceId/members/:userId (lines 509-548): managers remove anyone but the owner. */
    method Kick(me: CurrentUser, s: SpaceId, target: UserId) returns (r: Response<()>)
      requires Valid()
      modifies this`memberships
      ensures Valid()
      ensures !old(CanManage(me, s)) ==> r.Forbidden?
      ensures old(CanManage(me, s)) && (target, s) !in old(memberships) ==> r.NotFound?
      ensures old(CanManage(me, s)) && IsOwner(old(memberships), target, s) ==> r.BadRequest?
      ensures old(CanManage(me, s)) && (target, s) in old(memberships) && !IsOwner(old(memberships), target, s) ==>
        r.Ok? && memberships == Remove(old(memberships), target, s)
      ensures !r.Ok? ==> memberships == old(memberships)
    {
      if !CanManage(me, s) {
        return Forbidden;
      }
      if (target, s) !in memberships {
        return NotFound;
      }
      if memberships[(target, s)].role == Owner {
        return BadRequest;                        // cannot remove the space owner
      }
      memberships := Remove(memberships, target, s);
      r := Ok(());
    }

    /**
     * PUT /:spaceId/members/:userId/promote (lines 550-609): only the
     * owner hands ownership to a member. The guard against promoting
     * oneself compares the route's text with the number `req.user.id`
     * under `===` and never fires; promoting oneself then writes admin and
     * owner in turn and leaves the row as it was
     * (`SelfPromotionChangesNothing`).
     */
    method Promote(me: CurrentUser, s: SpaceId, target: UserId) returns (r: Response<()>)
      requires Valid()
      modifies this`memberships
      ensures Valid()
      ensures r.Ok? || r.NotFound? || r.Forbidden?
      ensures r.Forbidden? <==> (exists u :: IsOwner(old(memberships), u, s)) && !IsOwner(old(memberships), me.id, s)
      ensures r.Ok? <==> IsOwner(old(memberships), me.id, s) && (target, s) in old(memberships)
      ensures r.Ok? ==> memberships == Promoted(old(memberships), me.id, target, s)
      ensures !r.Ok? ==> memberships == old(memberships)
    {
      if !exists k :: k in memberships && k.1 == s && memberships[k].role == Owner {
        return NotFound;                          // space owner not found
      }
      var k :| k in memberships && k.1 == s && memberships[k].role == Owner;
      assert IsOwner(memberships, k.0, s);
      if k.0 != me.id {
        assert forall u: UserId :: IsOwner(memberships, u, s) ==> (u, s) == k;
        return Forbidden;                         // only the owner can promote
      }
      if (target, s) !in memberships {
        return NotFound;                          // target user not in space
      }
      PromotionHandsOverOwnership(memberships, me.id, target, s);
      memberships := Promoted(memberships, me.id, target, s);
      r := Ok(());
    }

    /** GET /:spaceId/banned (lines 611-626): any signed-in user may list the bans of any space. */
    function Banned(s: SpaceId): (r: set<UserId>)
      reads this`bans
      ensures forall u :: u in r <==> u in users && (s, u) in bans
    {
      set u | u in users && (s, u) in bans
    }

    /** Under the integrity constraints the JOIN with `users` drops no ban. */
    lemma BannedListsEveryBan(s: SpaceId)
      requires Valid()
      ensures forall u :: u in Banned(s) <==> (s, u) in bans
    {
    }

    /** The body's `user_id` names the owner of `s`. */
    predicate TargetIsOwner(s: SpaceId, t: JsId)
      reads this`memberships
    {
      t.n >= 0 && IsOwner(memberships, t.n as nat, s)
    }

    /** The foreign keys of `space_bans` admit a ban of `t` from `s`. */
    predicate CanHoldBan(s: SpaceId, t: JsId)
      reads this`spaces
    {
      s in spaces && t.n >= 0 && t.n as nat in users
    }

    /** The ban row written by `INSERT ... ON DUPLICATE KEY UPDATE banned_at`: a re-ban keeps `banned_by`. */
    function Banning(me: CurrentUser, s: SpaceId, u: UserId): (r: Bans)
      reads this`bans, this`clock
      ensures r.Keys == bans.Keys + {(s, u)}
      ensures (s, u) in bans ==> r[(s, u)] == bans[(s, u)].(bannedAt := clock)
      ensures (s, u) !in bans ==> r[(s, u)] == BanRecord(me.id, clock)
      ensures forall k :: k in bans && k != (s, u) ==> r[k] == bans[k]
    {
      bans[(s, u) := if (s, u) in bans then bans[(s, u)].(bannedAt := clock) else BanRecord(me.id, clock)]
    }

    /**
     * POST /:spaceId/ban as written (lines 629-702). The already-banned
     * check selects a column `space_bans` lacks and its error is
     * swallowed, so a second ban succeeds and refreshes `banned_at`. The
     * self-ban guard compares the body's `user_id` with `req.user.id`
     * under `===`, so it holds only when the id arrives as a number. The
     * ban row's foreign keys fail (500) when the space or the user is
     * missing; no membership row can exist then.
     */
    method BanAsWritten(me: CurrentUser, s: SpaceId, target: JsId) returns (r: Response<()>)
      requires Valid() && me.id in users
      modifies this`memberships, this`bans
      ensures Valid()
      ensures
        if !old(CanManage(me, s)) then r.Forbidden?
        else if StrictEq(target, Num(me.id)) || old(TargetIsOwner(s, target)) then r.BadRequest?
        else if !CanHoldBan(s, target) then r.ServerError?
        else
          && r.Ok?
          && memberships == Remove(old(memberships), target.n as nat, s)
          && bans == old(Banning(me, s, target.n as nat))
      ensures !r.Ok? ==> memberships == old(memberships) && bans == old(bans)
    {
      // the already-banned lookup fails on `SELECT id` and the catch block ignores it
      if !CanManage(me, s) {
        return Forbidden;
      }
      if target.Num? && target.n == me.id {
        return BadRequest;                        // cannot ban yourself
      }
      if TargetIsOwner(s, target) {
        return BadRequest;                        // cannot ban the space owner
      }
      if !CanHoldBan(s, target) {
        return ServerError;                       // foreign keys of space_bans
      }
      var u := target.n as nat;
      StoreBan(s, u, Banning(me, s, u)[(s, u)]);
      r := Ok(());
    }

    /** The DELETE of the membership and the INSERT of the ban row. */
    method StoreBan(s: SpaceId, u: UserId, record: BanRecord)
      requires Valid() && s in spaces && u in users && record.bannedBy in users
      modifies this`memberships, this`bans
      ensures Valid()
      ensures memberships == Remove(old(memberships), u, s) && bans == old(bans)[(s, u) := record]
    {
      BanKeepsIntegrity(spaces, memberships, bans, users, s, u, record);
      memberships, bans := Remove(memberships, u, s), bans[(s, u) := record];
    }

    /**
     * POST /:spaceId/ban with the already-banned check reading a column
     * that exists and the self-ban guard comparing numbers: a banned user
     * answers 400 and keeps the ban as it was, and nobody bans themselves.
     */
    method Ban(me: CurrentUser, s: SpaceId, target: JsId) returns (r: Response<()>)
      requires Valid() && me.id in users
      modifies this`memberships, this`bans
      ensures Valid()
      ensures
        if old(IsBanned(s, target)) then r.BadRequest?
        else if !old(CanManage(me, s)) then r.Forbidden?
        else if LooseEq(target, Num(me.id)) || old(TargetIsOwner(s, target)) then r.BadRequest?
        else if !CanHoldBan(s, target) then r.ServerError?
        else
          && r.Ok?
          && memberships == Remove(old(memberships), target.n as nat, s)
          && bans == old(bans)[(s, target.n as nat) := BanRecord(me.id, clock)]
      ensures !r.Ok? ==> memberships == old(memberships) && bans == old(bans)
      ensures r.Ok? ==> target.n != me.id
    {
      if IsBanned(s, target) {
        return BadRequest;                        // user is already banned
      }
      if !CanManage(me, s) {
        return Forbidden;
      }
      if target.n == me.id {
        return BadRequest;                        // cannot ban yourself
      }
      if TargetIsOwner(s, target) {
        return BadRequest;                        // cannot ban the space owner
      }
      if !CanHoldBan(s, target) {
        return ServerError;                       // foreign keys of space_bans
      }
      var u := target.n as nat;
      StoreBan(s, u, BanRecord(me.id, clock));
      r := Ok(());
    }

    /**
     * POST /:spaceId/unban (lines 704-737): the validator's result is never
     * read, so a missing `user_id` reaches the DELETE as an undefined
     * parameter, which mysql2 refuses (500). The membership the ban
     * removed is not restored.
     */
    method Unban(me: CurrentUser, s: SpaceId, target: Option<JsId>) returns (r: Response<()>)
      requires Valid()
      modifies this`bans
      ensures Valid()
      ensures !CanManage(me, s) ==> r.Forbidden?
      ensures CanManage(me, s) && target.None? ==> r.ServerError?
      ensures CanManage(me, s) && target.Some? && !old(IsBanned(s, target.value)) ==> r.NotFound?
      ensures CanManage(me, s) && target.Some? && old(IsBanned(s, target.value)) ==>
        r.Ok? && bans == old(bans) - {(s, target.value.n as nat)}
      ensures !r.Ok? ==> bans == old(bans)
    {
      if !CanManage(me, s) {
        return Forbidden;
      }
      if target.None? {
        return ServerError;
      }
      if !IsBanned(s, target.value) {
        return NotFound;                          // the DELETE matched no row
      }
      bans := bans - {(s, target.value.n as nat)};
      r := Ok(());
    }
  }

  /**
   * Under the written guard a space admin who sends their own id as text
   * passes the self-ban check; under the corrected one they do not.
   */
  lemma TextIdPassesSelfBanGuard(me: CurrentUser)
    ensures !StrictEq(Text(me.id), Num(me.id))
    ensures LooseEq(Text(me.id), Num(me.id))
  {
  }
}
