/**
 * The space pages of frontend/src/comps/Spaces.jsx: the caller's role
 * flags and the member actions they unlock in SpaceDetail, the invite
 * list, the access check of SpaceEditForm, and the post form of a space
 * (SpacePostForm), set against the rules of backend/routes/spaces.js and
 * backend/routes/posts.js.
 */
module SpaceClient {
  import opened Common
  import opened Schema
  import opened AuthMiddleware
  import Spaces
  import Posts
  import Compose

  // ---------------------------------------------------------------------
  // Role flags and member actions (lines 643-645, 834)
  // ---------------------------------------------------------------------

  /** `isOwner`: `space.user_role === 'owner'`; a role of None is the server's 'none'. */
  predicate IsOwnerFlag(role: Option<Role>) {
    role == Some(Owner)
  }

  /** `isAdmin`: `isOwner || userRole === 'admin'`. */
  predicate IsAdminFlag(role: Option<Role>) {
    IsOwnerFlag(role) || role == Some(Admin)
  }

  /** The owner is always an administrator of the page; a plain member or a visitor is neither. */
  lemma RoleFlags(role: Option<Role>)
    ensures IsOwnerFlag(role) ==> IsAdminFlag(role)
    ensures IsAdminFlag(role) <==> role == Some(Owner) || role == Some(Admin)
    ensures role == Some(Member) || role.None? ==> !IsAdminFlag(role) && !IsOwnerFlag(role)
  {
  }

  /** The 'Ban from Space' action of a member's row: only for page administrators, never on the owner or on oneself. */
  predicate BanOffered(viewerRole: Option<Role>, viewer: UserId, member: Spaces.MemberView) {
    IsAdminFlag(viewerRole) && member.role != Owner && member.user != viewer
  }

  /**
   * A ban the page offers on a listed member passes every guard of POST
   * /:spaceId/ban that concerns roles: the caller manages the space, the
   * target is not the caller and does not own the space.
   */
  lemma OfferedBanPassesRoleGuards(d: Spaces.SpaceDirectory, me: CurrentUser, s: Spaces.SpaceId, member: Spaces.MemberView)
    requires d.IsMemberView(s, member)
    requires BanOffered(d.RoleOf(me.id, s), me.id, member)
    ensures d.CanManage(me, s)
    ensures !LooseEq(Num(member.user), Num(me.id))
    ensures !d.TargetIsOwner(s, Num(member.user))
  {
  }

  /** A site administrator without a role in the space is offered no ban, though the server would accept theirs. */
  lemma SiteAdminNotOffered(d: Spaces.SpaceDirectory, me: CurrentUser, s: Spaces.SpaceId, member: Spaces.MemberView)
    requires me.isAdmin && d.RoleOf(me.id, s).None?
    ensures !BanOffered(d.RoleOf(me.id, s), me.id, member)
    ensures d.CanManage(me, s)
  {
  }

  // ---------------------------------------------------------------------
  // Inviting (lines 999-1004)
  // ---------------------------------------------------------------------

  /** `!members.some(m => m.id === user.id)`: only a user not in the member list can be clicked. */
  predicate InviteOffered(members: seq<Spaces.MemberView>, user: UserId) {
    forall i :: 0 <= i < |members| ==> members[i].user != user
  }

  /** Against the listing of GET /:id/members, an invitable user is no active member of the space. */
  lemma InvitedIsNoActiveMember(d: Spaces.SpaceDirectory, s: Spaces.SpaceId, members: seq<Spaces.MemberView>, user: UserId)
    requires forall v :: v in members <==> d.IsMemberView(s, v)
    requires InviteOffered(members, user)
    ensures user !in d.ActiveMembers(s)
  {
    if user in d.ActiveMembers(s) {
      var v := Spaces.MemberView(user, d.memberships[(user, s)].role, d.memberships[(user, s)].joinedAt);
      assert d.IsMemberView(s, v);
    }
  }

  /** An active member is never offered an invite. */
  lemma MemberNotInvitable(members: seq<Spaces.MemberView>, i: nat)
    requires i < |members|
    ensures !InviteOffered(members, members[i].user)
  {
  }

  // ---------------------------------------------------------------------
  // The edit page (line 1515)
  // ---------------------------------------------------------------------

  /** SpaceEditForm shows the form unless `space.user_role !== 'owner' && !currentUser.is_admin`. */
  predicate EditPageAdmits(role: Option<Role>, me: CurrentUser) {
    role == Some(Owner) || me.isAdmin
  }

  /** Whoever the edit page admits, PUT /:id admits too. */
  lemma EditPageWithinServerRule(d: Spaces.SpaceDirectory, me: CurrentUser, s: Spaces.SpaceId)
    requires EditPageAdmits(d.RoleOf(me.id, s), me)
    ensures d.CanManage(me, s)
  {
  }

  /** A space administrator who is not a site administrator may edit on the server but is turned away by the page. */
  lemma SpaceAdminTurnedAway(d: Spaces.SpaceDirectory, me: CurrentUser, s: Spaces.SpaceId)
    requires d.RoleOf(me.id, s) == Some(Admin) && !me.isAdmin
    ensures d.CanManage(me, s)
    ensures !EditPageAdmits(d.RoleOf(me.id, s), me)
  {
  }

  // ---------------------------------------------------------------------
  // The post form of a space (lines 1068-1185)
  // ---------------------------------------------------------------------

  /** The body handleCreatePost sends: content, image URLs and `space_id`. */
  datatype SpacePostBody = SpacePostBody(content: string, images: seq<Option<string>>, spaceId: nat)

  /** POST /posts reads `space_ids`, which this body never carries. */
  lemma SpacePostBodyRefused(b: SpacePostBody)
    ensures !Posts.BodyAccepted(Some(b.content), None, None)
  {
    Compose.SpaceComposerPostRefused(b.content);
  }

  /**
   * SpacePostForm's state. Detection, splicing, the image list and the
   * guard are the Dashboard composer's; the tag chosen is passed by name
   * and no id is kept.
   */
  class SpacePostForm {
    const spaceId: nat
    var text: string
    var images: seq<Compose.Image>
    var suggestion: Option<Compose.Hashtag>
    var shown: bool

    constructor (spaceId: nat)
      ensures this.spaceId == spaceId && text == "" && images == [] && suggestion.None? && !shown
    {
      this.spaceId := spaceId;
      text := "";
      images := [];
      suggestion := None;
      shown := false;
    }

    /** handleTextChange (lines 1068-1093): a match replaces the stored query; otherwise the list hides. */
    method TextChanged(value: string, cursor: nat)
      requires cursor <= |value|
      modifies this`text, this`suggestion, this`shown
      ensures text == value
      ensures Compose.HashtagBefore(value, cursor).Some? ==> suggestion == Compose.HashtagBefore(value, cursor) && shown == old(shown)
      ensures Compose.HashtagBefore(value, cursor).None? ==> suggestion == old(suggestion) && !shown
    {
      text := value;
      var h := Compose.HashtagBefore(value, cursor);
      if h.Some? {
        suggestion := h;
      } else {
        shown := false;
      }
    }

    /** selectHashtag(tag) (lines 1108-1113): the tag's name spliced in at the stored query. */
    method SelectHashtag(name: string)
      requires suggestion.Some?
      modifies this`text, this`shown
      ensures text == Compose.WithTag(old(text), suggestion.value, name) && !shown
    {
      text := Compose.WithTag(text, suggestion.value, name);
      shown := false;
    }

    /** removeImage (lines 1156-1162). */
    method RemoveImage(index: int)
      modifies this`images
      ensures images == Compose.Spliced(old(images), index)
    {
      images := Compose.Spliced(images, index);
    }

    /**
     * handleImageUpload (lines 1115-1154): nothing without files; otherwise
     * previews appended, then, when the upload answers, every URL re-read
     * from `data.urls`; a failed upload keeps the new previews without URLs
     * and the earlier images with theirs.
     */
    method Uploaded(previews: seq<string>, urls: Option<seq<string>>)
      modifies this`images
      ensures previews == [] ==> images == old(images)
      ensures previews != [] && urls.None? ==> images == old(images) + Compose.Previews(previews)
      ensures previews != [] && urls.Some? ==>
        images == Compose.AfterUpload(old(images) + Compose.Previews(previews), |previews|, urls.value)
    {
      if previews == [] {
        return;
      }
      images := images + Compose.Previews(previews);
      if urls.Some? {
        images := Compose.AfterUpload(images, |previews|, urls.value);
      }
    }

    /** handleCreatePost (lines 1164-1185): past the guard the body goes out, and the server refuses it. */
    method Submit() returns (sent: Option<SpacePostBody>)
      ensures sent.Some? <==> Compose.WillSubmit(text, images)
      ensures sent.Some? ==> sent.value == SpacePostBody(text, Compose.SubmittedUrls(images), spaceId)
      ensures sent.Some? ==> !Posts.BodyAccepted(Some(sent.value.content), None, None)
    {
      if !Compose.WillSubmit(text, images) {
        return None;
      }
      sent := Some(SpacePostBody(text, Compose.SubmittedUrls(images), spaceId));
      SpacePostBodyRefused(sent.value);
    }
  }
}
