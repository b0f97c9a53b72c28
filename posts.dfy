/**
 * Posts (backend/routes/posts.js): the feed, publishing a post into a
 * list of spaces, the single-post view, editing and deleting, the like
 * and pin toggles and the hashtag (space-name) search.
 *
 * The class holds the tables the routes write (`posts`, `post_spaces`,
 * `post_attachments`, `likes`, `notifications`) and, read-only, the rows
 * of `users`, `spaces` and `user_spaces` they consult. Every statement is
 * one atomic step; the START TRANSACTION issued on the pool does not bind
 * the statements that follow it, so a failure part-way leaves the rows
 * already written in place.
 */
module Posts {
  import opened Common
  import opened Schema
  import opened AuthMiddleware

  type PostId = nat
  type SpaceId = nat

  /** The `type` column: ENUM('post', 'thread'). */
  datatype Kind = Plain | Thread

  /** `body('type').optional().isIn(['post', 'thread'])` */
  function ParseKind(s: string): (k: Option<Kind>)
    ensures k == Some(Plain) <==> s == "post"
    ensures k == Some(Thread) <==> s == "thread"
  {
    if s == "post" then Some(Plain) else if s == "thread" then Some(Thread) else None
  }

  /**
   * The `image` column: creation stores `JSON.stringify(images)`, an edit
   * stores the URL it is given.
   */
  datatype ImageColumn = ImageList(urls: seq<string>) | ImageUrl(url: string)

  /** The validators of POST / (lines 105-110): non-blank content, a `space_ids` array, a known type if any. */
  predicate BodyAccepted(content: Option<string>, spaceIds: Option<seq<int>>, kind: Option<string>) {
    content.Some? && |Trim(content.value)| >= 1 && spaceIds.Some? && (kind.Some? ==> ParseKind(kind.value).Some?)
  }

  /** One row of `posts`. Posts created by this router never carry a `space_id`. */
  datatype Post = Post(
    author: UserId, space: Option<SpaceId>, content: string, image: ImageColumn,
    kind: Kind, isPinned: bool, createdAt: nat)

  /** `name LIKE 'query%'` under the default collation: the name starts with the query, without case. */
  predicate TagMatches(name: string, query: string) {
    StartsWith(Upper(name), Upper(query))
  }

  /** Two queries that differ only in the case of their letters match the same names. */
  lemma TagSearchIgnoresCase(name: string, q: string, q': string)
    requires Upper(q) == Upper(q')
    ensures TagMatches(name, q) <==> TagMatches(name, q')
  {
  }

  /** One row of `post_attachments`; `file_type` keeps its default 'image'. */
  datatype Attachment = Attachment(post: PostId, url: string, fileName: string)

  /** The columns of `spaces` the routes read. */
  datatype SpaceRef = SpaceRef(name: string, color: string, isPrivate: bool)

  /** What GET /:id answers with, besides the aggregated spaces and images. */
  datatype PostView = PostView(id: PostId, post: Post, likeCount: nat, userLiked: bool)

  // ---------------------------------------------------------------------
  // Attachment file names
  // ---------------------------------------------------------------------

  /** `url.split("/").reverse()[0]`: the last piece of the split. */
  function FileName(url: string): string {
    var parts := Split(url, "/");
    parts[|parts| - 1]
  }

  /** `f` is the last path segment of `url`: a suffix free of '/', preceded by '/' unless it is all of `url`. */
  predicate LastSegment(url: string, f: string) {
    && |f| <= |url| && url[|url| - |f|..] == f
    && (forall k :: 0 <= k < |f| ==> f[k] != '/')
    && (|f| == |url| || url[|url| - |f| - 1] == '/')
  }

  /** The file name is the URL's last path segment. */
  lemma {:induction false} FileNameIsLastSegment(url: string)
    ensures LastSegment(url, FileName(url))
    decreases |url|
  {
    match IndexOf(url, "/")
    case None =>
      assert FileName(url) == url;
      forall k | 0 <= k < |url| ensures url[k] != '/' {
        assert !OccursAt(url, "/", k);
        assert url[k..k + 1] == [url[k]];
      }
    case Some(i) =>
      var rest := url[i + 1..];
      SplitAt(url, "/", i);
      assert FileName(url) == FileName(rest);
      FileNameIsLastSegment(rest);
      SegmentOfSuffix(url, i, FileName(rest));
  }

  /** The last segment of the text after a '/' is the last segment of the whole. */
  lemma SegmentOfSuffix(url: string, i: nat, f: string)
    requires i < |url| && OccursAt(url, "/", i) && LastSegment(url[i + 1..], f)
    ensures LastSegment(url, f)
  {
    var rest := url[i + 1..];
    assert url[|url| - |f|..] == rest[|rest| - |f|..];
    if |f| == |rest| {
      assert url[i..i + 1] == "/";
      assert url[|url| - |f| - 1] == url[i];
    } else {
      assert url[|url| - |f| - 1] == rest[|rest| - |f| - 1];
    }
  }

  /** `images.map(url => [postId, url, lastSegment])` */
  function AttachmentsFor(post: PostId, images: seq<string>): (rows: seq<Attachment>)
    ensures |rows| == |images|
    ensures forall k :: 0 <= k < |rows| ==> rows[k] == Attachment(post, images[k], FileName(images[k]))
  {
    if images == [] then [] else [Attachment(post, images[0], FileName(images[0]))] + AttachmentsFor(post, images[1..])
  }

  /** Each URL and its file name fit the 255 characters of `post_attachments.url` and `file_name`. */
  predicate AttachmentsFit(images: seq<string>) {
    forall k :: 0 <= k < |images| ==> Fits(images[k], TextWidth) && Fits(FileName(images[k]), TextWidth)
  }

  // ---------------------------------------------------------------------
  // Grouping post_spaces rows (lines 57-90)
  // ---------------------------------------------------------------------

  /** The space ids of the rows for post `p`, in row order. */
  function SpaceIdsOf(rows: seq<(PostId, SpaceId)>, p: PostId): seq<SpaceId> {
    if rows == [] then []
    else SpaceIdsOf(rows[..|rows| - 1], p) + (if rows[|rows| - 1].0 == p then [rows[|rows| - 1].1] else [])
  }

  /** The space ids of post `p` are those of its rows. */
  lemma {:induction false} SpaceIdsOfMembers(rows: seq<(PostId, SpaceId)>, p: PostId)
    ensures forall s :: s in SpaceIdsOf(rows, p) <==> (p, s) in rows
  {
    if rows != [] {
      var init := rows[..|rows| - 1];
      SpaceIdsOfMembers(init, p);
      assert rows == init + [rows[|rows| - 1]];
    }
  }

  /** `JSON.stringify` of a list of ids: `[1,2]`. */
  function JsonIds(ids: seq<nat>): (t: string)
    ensures |t| >= 2 && t[0] == '[' && t[|t| - 1] == ']'
  {
    "[" + Join(seq(|ids|, k requires 0 <= k < |ids| => DecimalText(ids[k])), ",") + "]"
  }

  /** The posts that have at least one of the rows. */
  function PostsOf(rows: seq<(PostId, SpaceId)>): set<PostId> {
    set k | 0 <= k < |rows| :: rows[k].0
  }

  /** A post with no row has no space ids; one with a row has some. */
  lemma {:induction false} SpaceIdsOfEmpty(rows: seq<(PostId, SpaceId)>, p: PostId)
    ensures SpaceIdsOf(rows, p) == [] <==> p !in PostsOf(rows)
  {
    if rows != [] {
      var init := rows[..|rows| - 1];
      SpaceIdsOfEmpty(init, p);
      assert PostsOf(rows) == PostsOf(init) + {rows[|rows| - 1].0} by {
        forall q ensures q in PostsOf(rows) <==> q in PostsOf(init) + {rows[|rows| - 1].0} {
          if q in PostsOf(rows) {
            var k :| 0 <= k < |rows| && rows[k].0 == q;
            if k < |rows| - 1 { assert init[k] == rows[k]; }
          }
          if q in PostsOf(init) {
            var k :| 0 <= k < |init| && init[k].0 == q;
            assert rows[k] == init[k];
          }
        }
      }
    }
  }

  ghost predicate Grouped(rows: seq<(PostId, SpaceId)>, n: nat, byPost: map<PostId, seq<SpaceId>>)
    requires n <= |rows|
  {
    && byPost.Keys == PostsOf(rows[..n])
    && forall p {:trigger byPost[p]} :: p in byPost ==> byPost[p] == SpaceIdsOf(rows[..n], p)
  }

  /** One push of `spaceIdsByPost[row.post_id].push(row.space_id)`. */
  lemma GroupStep(rows: seq<(PostId, SpaceId)>, n: nat, byPost: map<PostId, seq<SpaceId>>)
    requires n < |rows| && Grouped(rows, n, byPost)
    ensures var r := rows[n];
      var list := if r.0 in byPost then byPost[r.0] else [];
      Grouped(rows, n + 1, byPost[r.0 := list + [r.1]])
  {
    var r := rows[n];
    var list := if r.0 in byPost then byPost[r.0] else [];
    var after := byPost[r.0 := list + [r.1]];
    var pre := rows[..n];
    assert rows[..n + 1][..n] == pre;
    assert PostsOf(rows[..n + 1]) == PostsOf(pre) + {r.0} by {
      forall q ensures q in PostsOf(rows[..n + 1]) <==> q in PostsOf(pre) + {r.0} {
        if q in PostsOf(rows[..n + 1]) {
          var k :| 0 <= k < n + 1 && rows[..n + 1][k].0 == q;
          if k < n { assert pre[k] == rows[..n + 1][k]; }
        }
        if q in PostsOf(pre) {
          var k :| 0 <= k < n && pre[k].0 == q;
          assert rows[..n + 1][k] == pre[k];
        }
      }
    }
    if r.0 !in byPost {
      SpaceIdsOfEmpty(pre, r.0);
    }
    forall p | p in after ensures after[p] == SpaceIdsOf(rows[..n + 1], p) {
      if p != r.0 {
        assert after[p] == byPost[p];
      }
    }
  }

  /** The lines 64-70 loop: each post's space ids, in row order. */
  method GroupByPost(rows: seq<(PostId, SpaceId)>) returns (byPost: map<PostId, seq<SpaceId>>)
    ensures byPost.Keys == PostsOf(rows)
    ensures forall p :: p in byPost ==> byPost[p] == SpaceIdsOf(rows, p)
  {
    byPost := map[];
    var i := 0;
    while i < |rows|
      invariant 0 <= i <= |rows|
      invariant Grouped(rows, i, byPost)
    {
      var row := rows[i];
      GroupStep(rows, i, byPost);
      if row.0 !in byPost {
        byPost := byPost[row.0 := []];
      }
      byPost := byPost[row.0 := byPost[row.0] + [row.1]];
      i := i + 1;
    }
    assert rows[..i] == rows;
  }

  /** `.map(spaceId => spacesMap[spaceId]).filter(space => space)`: ids without a space record are dropped. */
  function Resolve(ids: seq<SpaceId>, found: map<SpaceId, SpaceRef>): (r: seq<SpaceRef>)
    ensures |r| <= |ids|
    ensures forall x :: x in r <==> exists k :: 0 <= k < |ids| && ids[k] in found && found[ids[k]] == x
  {
    if ids == [] then []
    else
      var rest := Resolve(ids[1..], found);
      assert forall k :: 0 < k < |ids| ==> ids[k] == ids[1..][k - 1];
      (if ids[0] in found then [found[ids[0]]] else []) + rest
  }

  // ---------------------------------------------------------------------
  // Integrity of the tables
  // ---------------------------------------------------------------------

  ghost predicate Consistent(
    users: map<UserId, UserRow>, spaces: map<SpaceId, SpaceRef>, memberships: map<(UserId, SpaceId), Role>,
    posts: map<PostId, Post>, next: PostId, postSpaces: set<(PostId, SpaceId)>,
    attachments: seq<Attachment>, likes: set<(UserId, PostId)>)
  {
    && next >= 1
    && (forall k :: k in memberships ==> k.0 in users && k.1 in spaces)
    && (forall id :: id in posts ==> 1 <= id < next && posts[id].author in users)
    && (forall ps :: ps in postSpaces ==> ps.0 in posts && ps.1 in spaces)
    && (forall k :: 0 <= k < |attachments| ==> attachments[k].post in posts)
    && (forall l :: l in likes ==> l.0 in users && l.1 in posts)
  }

  /** The rows a delete leaves: the post and every row pointing at it go (ON DELETE CASCADE). */
  function WithoutAttachments(attachments: seq<Attachment>, p: PostId): (r: seq<Attachment>)
    ensures forall x :: x in r <==> x in attachments && x.post != p
  {
    if attachments == [] then []
    else
      var last := attachments[|attachments| - 1];
      WithoutAttachments(attachments[..|attachments| - 1], p) + (if last.post != p then [last] else [])
  }

  /** The `post_spaces` rows the inserts of lines 144-150 leave. */
  function SpaceRows(post: PostId, spaceIds: seq<int>): (rows: set<(PostId, SpaceId)>)
    requires forall k :: 0 <= k < |spaceIds| ==> spaceIds[k] >= 0
    ensures forall ps :: ps in rows <==> ps.0 == post && ps.1 as int in spaceIds
  {
    set k | 0 <= k < |spaceIds| :: (post, spaceIds[k] as nat)
  }

  /** A new post under the next id, listed in spaces that exist, keeps the tables consistent. */
  lemma PostInserted(
    users: map<UserId, UserRow>, spaces: map<SpaceId, SpaceRef>, memberships: map<(UserId, SpaceId), Role>,
    posts: map<PostId, Post>, next: PostId, postSpaces: set<(PostId, SpaceId)>,
    attachments: seq<Attachment>, likes: set<(UserId, PostId)>, post: Post, ids: seq<int>)
    requires Consistent(users, spaces, memberships, posts, next, postSpaces, attachments, likes)
    requires post.author in users
    requires forall k :: 0 <= k < |ids| ==> ids[k] >= 0 && (post.author, ids[k] as nat) in memberships
    ensures next !in posts
    ensures Consistent(users, spaces, memberships, posts[next := post], next + 1, postSpaces + SpaceRows(next, ids), attachments, likes)
  {
    forall ps | ps in SpaceRows(next, ids) ensures ps.1 in spaces {
      var k :| 0 <= k < |ids| && ps.1 as int == ids[k];
      assert (post.author, ids[k] as nat) in memberships;
    }
  }

  /** Attachment rows for an existing post keep the tables consistent. */
  lemma AttachmentsAdded(
    users: map<UserId, UserRow>, spaces: map<SpaceId, SpaceRef>, memberships: map<(UserId, SpaceId), Role>,
    posts: map<PostId, Post>, next: PostId, postSpaces: set<(PostId, SpaceId)>,
    attachments: seq<Attachment>, likes: set<(UserId, PostId)>, id: PostId, urls: seq<string>)
    requires Consistent(users, spaces, memberships, posts, next, postSpaces, attachments, likes)
    requires id in posts
    ensures Consistent(users, spaces, memberships, posts, next, postSpaces, attachments + AttachmentsFor(id, urls), likes)
  {
  }

  /** Rewriting an existing post under the same author keeps the tables consistent. */
  lemma PostRewritten(
    users: map<UserId, UserRow>, spaces: map<SpaceId, SpaceRef>, memberships: map<(UserId, SpaceId), Role>,
    posts: map<PostId, Post>, next: PostId, postSpaces: set<(PostId, SpaceId)>,
    attachments: seq<Attachment>, likes: set<(UserId, PostId)>, id: PostId, p: Post)
    requires Consistent(users, spaces, memberships, posts, next, postSpaces, attachments, likes)
    requires id in posts && p.author == posts[id].author
    ensures Consistent(users, spaces, memberships, posts[id := p], next, postSpaces, attachments, likes)
  {
  }

  /** Deleting a post together with the rows that point at it keeps every reference. */
  lemma PostRemoved(
    users: map<UserId, UserRow>, spaces: map<SpaceId, SpaceRef>, memberships: map<(UserId, SpaceId), Role>,
    posts: map<PostId, Post>, next: PostId, postSpaces: set<(PostId, SpaceId)>,
    attachments: seq<Attachment>, likes: set<(UserId, PostId)>, id: PostId)
    requires Consistent(users, spaces, memberships, posts, next, postSpaces, attachments, likes)
    ensures Consistent(users, spaces, memberships, posts - {id}, next, (set ps | ps in postSpaces && ps.0 != id),
                       WithoutAttachments(attachments, id), (set l | l in likes && l.1 != id))
  {
    var rest := WithoutAttachments(attachments, id);
    forall k | 0 <= k < |rest| ensures rest[k].post in posts - {id} {
      assert rest[k] in rest;
      var j :| 0 <= j < |attachments| && attachments[j] == rest[k];
    }
  }

  class PostBoard {
    const users: map<UserId, UserRow>
    const spaces: map<SpaceId, SpaceRef>
    const memberships: map<(UserId, SpaceId), Role>   // user_spaces
    var posts: map<PostId, Post>
    var nextPost: PostId
    var postSpaces: set<(PostId, SpaceId)>           // UNIQUE (post_id, space_id)
    var attachments: seq<Attachment>
    var likes: set<(UserId, PostId)>                 // UNIQUE (user_id, post_id)
    var notifications: seq<Notification>
    var clock: nat

    ghost predicate Valid()
      reads this
    {
      Consistent(users, spaces, memberships, posts, nextPost, postSpaces, attachments, likes)
    }

    constructor (users: map<UserId, UserRow>, spaces: map<SpaceId, SpaceRef>, memberships: map<(UserId, SpaceId), Role>)
      requires forall k :: k in memberships ==> k.0 in users && k.1 in spaces
      ensures Valid() && this.users == users && this.spaces == spaces && this.memberships == memberships
      ensures posts == map[] && likes == {} && postSpaces == {} && attachments == []
    {
      this.users := users;
      this.spaces := spaces;
      this.memberships := memberships;
      posts := map[];
      nextPost := 1;
      postSpaces := {};
      attachments := [];
      likes := {};
      notifications := [];
      clock := 0;
    }

    method Tick()
      modifies this`clock
      ensures clock == old(clock) + 1
    {
      clock := clock + 1;
    }

    // -------------------------------------------------------------------
    // GET / (lines 7-103)
    // -------------------------------------------------------------------

    /**
     * The WHERE clause of the feed: the post's `space_id` names no space
     * (NULL), or a public space the reader belongs to; with a `space_id`
     * filter the post must also be in that space directly or through
     * `post_spaces`; `type=pinned` keeps pinned posts only. The
     * `user_id` query parameter is read and never used.
     */
    predicate InFeed(reader: UserId, filter: Option<SpaceId>, pinnedOnly: bool, id: PostId)
      reads this`posts, this`postSpaces
    {
      && id in posts && posts[id].author in users
      && (|| posts[id].space.None? || posts[id].space.value !in spaces
          || (!spaces[posts[id].space.value].isPrivate && (reader, posts[id].space.value) in memberships))
      && (filter.None? || posts[id].space == Some(filter.value) || (id, filter.value) in postSpaces)
      && (!pinnedOnly || posts[id].isPinned)
    }

    /**
     * Only a post's own `space_id` is checked against privacy, and this
     * router never sets one: every post it creates reaches every reader's
     * feed, whatever spaces it was published to.
     */
    lemma UnspacedPostsReachEveryFeed(reader: UserId, id: PostId)
      requires Valid() && id in posts && posts[id].space.None?
      ensures InFeed(reader, None, false, id)
      ensures forall s :: (id, s) in postSpaces ==> InFeed(reader, Some(s), false, id)
    {
    }

    /**
     * Lines 63-90 over the rows the lookup returned: every post gets the
     * spaces of its rows, in row order, dropping ids with no space record.
     */
    method SpacesPerPost(ids: seq<PostId>, rows: seq<(PostId, SpaceId)>) returns (lists: seq<seq<SpaceRef>>)
      ensures |lists| == |ids|
      ensures forall k :: 0 <= k < |ids| ==> lists[k] == Resolve(SpaceIdsOf(rows, ids[k]), spaces)
    {
      var byPost := GroupByPost(rows);
      lists := [];
      var i := 0;
      while i < |ids|
        invariant 0 <= i <= |ids|
        invariant |lists| == i
        invariant forall k :: 0 <= k < i ==> lists[k] == Resolve(SpaceIdsOf(rows, ids[k]), spaces)
      {
        var own := if ids[i] in byPost then byPost[ids[i]] else [];
        if ids[i] !in byPost {
          SpaceIdsOfEmpty(rows, ids[i]);
        }
        lists := lists + [Resolve(own, spaces)];
        i := i + 1;
      }
    }

    /**
     * Lines 56-96 as written. `execute` does not expand an array bound to
     * `IN (?)`: mysql2 sends the JSON text of the ids, `[1,2]`, and the
     * server compares the INT `post_id` with that text read as a number,
     * 0 (the truncation is only a warning in a SELECT). No post has id 0,
     * so the lookup finds no row and every post gets [].
     */
    method AttachSpacesAsWritten(ids: seq<PostId>) returns (lists: seq<seq<SpaceRef>>)
      requires Valid()
      ensures |lists| == |ids|
      ensures forall k :: 0 <= k < |ids| ==> lists[k] == []
    {
      var text := JsonIds(ids);
      ReadingOfBracket(text);
      var found := set ps | ps in postSpaces && Some(ps.0) == SqlKey(text);
      assert found == {};
      var rows := Enumerate(found);
      lists := SpacesPerPost(ids, rows);
    }

    /**
     * Lines 56-96 with the lookup the route means, `post_id IN (1, 2, …)`:
     * the rows of `post_spaces` for the listed posts, in no promised
     * order. Every post gets exactly the spaces it was published to that
     * still have a record.
     */
    method AttachSpaces(ids: seq<PostId>) returns (lists: seq<seq<SpaceRef>>)
      ensures |lists| == |ids|
      ensures forall k, x :: 0 <= k < |ids| ==>
        (x in lists[k] <==> exists s :: (ids[k], s) in postSpaces && s in spaces && spaces[s] == x)
    {
      var found := set ps | ps in postSpaces && ps.0 in ids;
      var rows := Enumerate(found);
      lists := SpacesPerPost(ids, rows);
      forall k, x | 0 <= k < |ids|
        ensures x in lists[k] <==> exists s :: (ids[k], s) in postSpaces && s in spaces && spaces[s] == x
      {
        SpaceIdsOfMembers(rows, ids[k]);
      }
    }

    // -------------------------------------------------------------------
    // POST / (lines 105-208)
    // -------------------------------------------------------------------

    /** The post row's content fits its TEXT column and the image list's JSON text its VARCHAR(500) column. */
    predicate PostRowFits(text: string, urls: seq<string>) {
      FitsText(text) && Fits(JsonList(urls), ImageWidth)
    }

    predicate MemberOfAll(me: UserId, spaceIds: seq<int>) {
      forall k :: 0 <= k < |spaceIds| ==> spaceIds[k] >= 0 && (me, spaceIds[k] as nat) in memberships
    }

    /**
     * POST /: validation (400), then membership in every listed space
     * (403, nothing written), then the post, its `post_spaces` rows and
     * one attachment per image. A content longer than the TEXT column, or
     * `JSON.stringify(images)` longer than the `image` column, fails the
     * first INSERT: 500, nothing written. A space
     * id listed twice breaks the UNIQUE key, and a URL or file name longer
     * than its column fails the attachment INSERT: in both cases the post
     * and its distinct space rows stay, no attachment is written and the
     * answer is 500.
     */
    method CreatePost(me: CurrentUser, content: Option<string>, spaceIds: Option<seq<int>>,
                      images: Option<seq<string>>, kind: Option<string>)
      returns (r: Response<PostId>)
      requires Valid() && me.id in users
      modifies this`posts, this`nextPost, this`postSpaces, this`attachments
      ensures Valid()
      ensures r.BadRequest? <==> !BodyAccepted(content, spaceIds, kind)
      ensures r.Forbidden? <==> !r.BadRequest? && !MemberOfAll(me.id, spaceIds.value)
      ensures r.BadRequest? || r.Forbidden? ==> unchanged(this)
      ensures !r.BadRequest? && !r.Forbidden? && !PostRowFits(Trim(content.value), images.GetOr([])) ==>
        r.ServerError? && unchanged(this)
      ensures (r.Created? || r.ServerError?) && PostRowFits(Trim(content.value), images.GetOr([])) ==>
        var id := old(nextPost);
        var k := if kind.Some? then ParseKind(kind.value).value else Plain;
        var urls := images.GetOr([]);
        && id !in old(posts) && nextPost == id + 1
        && posts == old(posts)[id := Post(me.id, None, Trim(content.value), ImageList(urls), k, false, clock)]
        && postSpaces == old(postSpaces) + SpaceRows(id, spaceIds.value)
        && (r.Created? <==> NoDup(spaceIds.value) && AttachmentsFit(urls))
        && (r.Created? ==> r.value == id && attachments == old(attachments) + AttachmentsFor(id, urls))
        && (r.ServerError? ==> attachments == old(attachments))
      ensures r.BadRequest? || r.Forbidden? || r.Created? || r.ServerError?
    {
      if !BodyAccepted(content, spaceIds, kind) {
        return BadRequest;
      }
      var ids := spaceIds.value;
      if !MemberOfAll(me.id, ids) {
        return Forbidden;
      }
      var k := if kind.Some? then ParseKind(kind.value).value else Plain;
      var urls := images.GetOr([]);
      if !PostRowFits(Trim(content.value), urls) {
        return ServerError;
      }
      var id := InsertPost(Post(me.id, None, Trim(content.value), ImageList(urls), k, false, clock), ids);
      if !NoDup(ids) {
        return ServerError;                         // a duplicate (post_id, space_id) insert rejects
      }
      if !AttachmentsFit(urls) {
        return ServerError;
      }
      StoreAttachments(id, urls);
      r := Created(id);
    }

    /** Lines 137-150: the post row under the next id and one `post_spaces` row per listed space. */
    method InsertPost(post: Post, ids: seq<int>) returns (id: PostId)
      requires Valid() && post.author in users && MemberOfAll(post.author, ids)
      modifies this`posts, this`nextPost, this`postSpaces
      ensures Valid()
      ensures id == old(nextPost) && id !in old(posts) && nextPost == id + 1
      ensures posts == old(posts)[id := post] && postSpaces == old(postSpaces) + SpaceRows(id, ids)
    {
      id := nextPost;
      PostInserted(users, spaces, memberships, posts, nextPost, postSpaces, attachments, likes, post, ids);
      posts, nextPost, postSpaces := posts[id := post], nextPost + 1, postSpaces + SpaceRows(id, ids);
    }

    /** Lines 152-158: one `post_attachments` row per image URL. */
    method StoreAttachments(id: PostId, urls: seq<string>)
      requires Valid() && id in posts
      modifies this`attachments
      ensures Valid() && attachments == old(attachments) + AttachmentsFor(id, urls)
    {
      AttachmentsAdded(users, spaces, memberships, posts, nextPost, postSpaces, attachments, likes, id, urls);
      attachments := attachments + AttachmentsFor(id, urls);
    }

    // -------------------------------------------------------------------
    // GET /tags (lines 214-235)
    // -------------------------------------------------------------------

    /**
     * `name LIKE 'query%' LIMIT 5` without an ORDER BY: up to five spaces
     * whose name starts with the query, compared without case as the
     * default collation does, all of them when there are fewer; no query,
     * or one shorter than 2 characters, answers [].
     */
    method SearchTags(query: Option<string>) returns (tags: seq<(string, SpaceId)>)
      ensures query.None? || |query.value| < 2 ==> tags == []
      ensures query.Some? && |query.value| >= 2 ==>
        var matching := set s | s in spaces && TagMatches(spaces[s].name, query.value);
        && |tags| == (if |matching| < 5 then |matching| else 5)
        && NoDup(tags)
        && forall k :: 0 <= k < |tags| ==> tags[k].1 in matching && tags[k].0 == spaces[tags[k].1].name
    {
      if query.None? || |query.value| < 2 {
        return [];
      }
      var matching := set s | s in spaces && TagMatches(spaces[s].name, query.value);
      var ids := Enumerate(matching);
      assert forall k :: 0 <= k < |ids| ==> ids[k] in matching;
      var n := if |ids| < 5 then |ids| else 5;
      tags := seq(n, k requires 0 <= k < n => (spaces[ids[k]].name, ids[k]));
      assert forall a, b :: 0 <= a < b < n ==> tags[a].1 == ids[a] && tags[b].1 == ids[b];
    }

    // -------------------------------------------------------------------
    // GET /:id (lines 237-276)
    // -------------------------------------------------------------------

    function LikeCount(id: PostId): (n: nat)
      reads this`likes
    {
      |set l | l in likes && l.1 == id :: l.0|
    }

    /** A post by an active author, with its like count and whether the reader liked it; otherwise 404. */
    function GetPost(reader: Option<CurrentUser>, id: PostId): (r: Response<PostView>)
      reads this`posts, this`likes
      ensures r.NotFound? <==> id !in posts || posts[id].author !in users || !users[posts[id].author].isActive
      ensures r.Ok? ==> r.value.id == id && r.value.post == posts[id]
      ensures r.Ok? ==> (r.value.userLiked <==> reader.Some? && (reader.value.id, id) in likes)
      ensures r.Ok? || r.NotFound?
    {
      if id !in posts || posts[id].author !in users || !users[posts[id].author].isActive then NotFound
      else Ok(PostView(id, posts[id], LikeCount(id), reader.Some? && (reader.value.id, id) in likes))
    }

    // -------------------------------------------------------------------
    // PUT /:id and DELETE /:id (lines 278-356)
    // -------------------------------------------------------------------

    predicate MayEdit(me: CurrentUser, id: PostId)
      reads this`posts
      requires id in posts
    {
      posts[id].author == me.id || me.isAdmin
    }

    /**
     * PUT /:id: 400 for a blank content or an image that is not a URL,
     * 404, 403 unless author or site admin, 400 when neither field is
     * supplied, 500 when the content is longer than its TEXT column or the
     * image URL longer than its VARCHAR column;
     * otherwise exactly the supplied fields change.
     */
    method EditPost(me: CurrentUser, id: PostId, content: Option<string>, image: Option<string>, isUrl: string -> bool)
      returns (r: Response<()>)
      requires Valid()
      modifies this`posts
      ensures Valid()
      ensures r.BadRequest? <==>
        (content.Some? && |Trim(content.value)| < 1) || (image.Some? && !isUrl(image.value))
        || (id in old(posts) && old(MayEdit(me, id)) && content.None? && image.None?)
      ensures r.NotFound? <==> !r.BadRequest? && id !in old(posts)
      ensures r.Forbidden? <==> !r.BadRequest? && id in old(posts) && !old(MayEdit(me, id))
      ensures r.Ok? ==>
        var p := old(posts[id]);
        posts == old(posts)[id := p.(content := if content.Some? then Trim(content.value) else p.content,
                                     image := if image.Some? then ImageUrl(image.value) else p.image)]
      ensures r.ServerError? <==>
        && !r.BadRequest? && id in old(posts) && old(MayEdit(me, id))
        && ((content.Some? && !FitsText(Trim(content.value))) || (image.Some? && !Fits(image.value, ImageWidth)))
      ensures !r.Ok? ==> posts == old(posts)
      ensures r.Ok? || r.BadRequest? || r.NotFound? || r.Forbidden? || r.ServerError?
    {
      if (content.Some? && |Trim(content.value)| < 1) || (image.Some? && !isUrl(image.value)) {
        return BadRequest;
      }
      if id !in posts {
        return NotFound;
      }
      if !MayEdit(me, id) {
        return Forbidden;
      }
      if content.None? && image.None? {
        return BadRequest;                          // no fields to update
      }
      if (content.Some? && !FitsText(Trim(content.value))) || (image.Some? && !Fits(image.value, ImageWidth)) {
        return ServerError;
      }
      var p := posts[id];
      if content.Some? {
        p := p.(content := Trim(content.value));
      }
      if image.Some? {
        p := p.(image := ImageUrl(image.value));
      }
      Rewrite(id, p);
      r := Ok(());
    }

    /** DELETE /:id: 404, 403 unless author or site admin; the post goes with its likes, space rows and attachments. */
    method DeletePost(me: CurrentUser, id: PostId) returns (r: Response<()>)
      requires Valid()
      modifies this`posts, this`postSpaces, this`attachments, this`likes
      ensures Valid()
      ensures r.NotFound? <==> id !in old(posts)
      ensures r.Forbidden? <==> id in old(posts) && !old(MayEdit(me, id))
      ensures r.Ok? ==>
        && posts == old(posts) - {id}
        && postSpaces == set ps | ps in old(postSpaces) && ps.0 != id
        && attachments == WithoutAttachments(old(attachments), id)
        && likes == set l | l in old(likes) && l.1 != id
      ensures !r.Ok? ==> unchanged(this)
      ensures r.Ok? || r.NotFound? || r.Forbidden?
    {
      if id !in posts {
        return NotFound;
      }
      if !MayEdit(me, id) {
        return Forbidden;
      }
      RemovePost(id);
      r := Ok(());
    }

    /** `DELETE FROM posts WHERE id = ?` and the rows that cascade with it. */
    method RemovePost(id: PostId)
      requires Valid()
      modifies this`posts, this`postSpaces, this`attachments, this`likes
      ensures Valid()
      ensures posts == old(posts) - {id}
      ensures postSpaces == set ps | ps in old(postSpaces) && ps.0 != id
      ensures attachments == WithoutAttachments(old(attachments), id)
      ensures likes == set l | l in old(likes) && l.1 != id
    {
      PostRemoved(users, spaces, memberships, posts, nextPost, postSpaces, attachments, likes, id);
      posts := posts - {id};
      postSpaces := set ps | ps in postSpaces && ps.0 != id;
      attachments := WithoutAttachments(attachments, id);
      likes := set l | l in likes && l.1 != id;
    }

    // -------------------------------------------------------------------
    // POST /:id/like and POST /:id/pin (lines 358-450)
    // -------------------------------------------------------------------

    /**
     * The like toggle: 404 for a missing post; otherwise the like set is
     * toggled, the answer says whether the reader now likes the post, and
     * a new like notifies the owner unless the owner liked it.
     */
    method ToggleLike(me: CurrentUser, id: PostId) returns (r: Response<bool>)
      requires Valid() && me.id in users
      modifies this`likes, this`notifications
      ensures Valid()
      ensures r.NotFound? <==> id !in posts
      ensures r.Ok? ==>
        && likes == Toggled(old(likes), (me.id, id))
        && (r.value <==> (me.id, id) in likes)
        && notifications == old(notifications) +
             (if r.value && posts[id].author != me.id
              then [Notification(posts[id].author, "like", "Post Liked", me.name + " liked your post", Some(id), false)]
              else [])
      ensures r.NotFound? ==> likes == old(likes) && notifications == old(notifications)
      ensures r.Ok? || r.NotFound?
    {
      if id !in posts {
        return NotFound;
      }
      if (me.id, id) in likes {
        likes := likes - {(me.id, id)};
        return Ok(false);
      }
      likes := likes + {(me.id, id)};
      if posts[id].author != me.id {
        notifications := notifications + [Notification(posts[id].author, "like", "Post Liked",
                                                       me.name + " liked your post", Some(id), false)];
      }
      r := Ok(true);
    }

    /** A non-admin may pin only a post of a space in which they are admin or owner. */
    predicate MayPin(me: CurrentUser, id: PostId)
      reads this`posts
      requires id in posts
    {
      || me.isAdmin
      || (&& posts[id].space.Some?
          && (me.id, posts[id].space.value) in memberships
          && memberships[(me.id, posts[id].space.value)] in {Admin, Owner})
    }

    /** The pin toggle: 404, 403 unless allowed; otherwise `is_pinned` flips and nothing else changes. */
    method TogglePin(me: CurrentUser, id: PostId) returns (r: Response<bool>)
      requires Valid()
      modifies this`posts
      ensures Valid()
      ensures r.NotFound? <==> id !in old(posts)
      ensures r.Forbidden? <==> id in old(posts) && !old(MayPin(me, id))
      ensures r.Ok? ==>
        var p := old(posts[id]);
        r.value == !p.isPinned && posts == old(posts)[id := p.(isPinned := !p.isPinned)]
      ensures !r.Ok? ==> posts == old(posts)
      ensures r.Ok? || r.NotFound? || r.Forbidden?
    {
      if id !in posts {
        return NotFound;
      }
      if !MayPin(me, id) {
        return Forbidden;
      }
      var p := posts[id];
      Rewrite(id, p.(isPinned := !p.isPinned));
      r := Ok(!p.isPinned);
    }

    /** An UPDATE of one existing post that keeps its author. */
    method Rewrite(id: PostId, p: Post)
      requires Valid() && id in posts && p.author == posts[id].author
      modifies this`posts
      ensures Valid() && posts == old(posts)[id := p]
    {
      PostRewritten(users, spaces, memberships, posts, nextPost, postSpaces, attachments, likes, id, p);
      posts := posts[id := p];
    }
  }
}
