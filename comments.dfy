/**
 * Comments on posts (backend/routes/comments.js): the thread of a post as
 * a reply tree, and adding a comment or a reply.
 *
 * The tree builder walks the fetched rows once, registering each comment
 * under its id and pushing it onto its parent's `replies` array when the
 * parent has already been registered. The JSON it answers with nests
 * each comment's `replies` inside it; here the arrays are kept by the id
 * of the comment that owns them and hold positions in the fetched list.
 */
module Comments {
  import opened Common
  import opened Schema
  import opened AuthMiddleware

  type PostId = nat
  type CommentId = nat

  /** One row of `comments`. */
  datatype Comment = Comment(post: PostId, author: UserId, parent: Option<CommentId>, content: string, createdAt: nat)

  /** A fetched row: the id and the columns of `c.*`. */
  datatype CommentRow = CommentRow(id: CommentId, comment: Comment)

  /** `if (comment.parent_id)`: NULL and 0 are falsy. */
  predicate IsReply(row: CommentRow) {
    row.comment.parent.Some? && row.comment.parent.value != 0
  }

  predicate DistinctIds(rows: seq<CommentRow>) {
    forall i, j :: 0 <= i < j < |rows| ==> rows[i].id != rows[j].id
  }

  predicate Increasing(ks: seq<nat>) {
    forall a, b :: 0 <= a < b < |ks| ==> ks[a] < ks[b]
  }

  /** The positions below `n` that become roots, in input order. */
  function RootsUpTo(rows: seq<CommentRow>, n: nat): seq<nat>
    requires n <= |rows|
  {
    if n == 0 then []
    else RootsUpTo(rows, n - 1) + (if !IsReply(rows[n - 1]) then [n - 1] else [])
  }

  /** The roots are exactly the top-level comments, each once and in order. */
  lemma {:induction false} RootsUpToExact(rows: seq<CommentRow>, n: nat)
    requires n <= |rows|
    ensures forall k: nat :: k in RootsUpTo(rows, n) <==> k < n && !IsReply(rows[k])
    ensures Increasing(RootsUpTo(rows, n))
  {
    if n > 0 {
      RootsUpToExact(rows, n - 1);
      var earlier := RootsUpTo(rows, n - 1);
      assert forall a :: 0 <= a < |earlier| ==> earlier[a] in earlier;
    }
  }

  /** The comment at `j` is a reply to the comment at `p`. */
  predicate RepliesTo(rows: seq<CommentRow>, k: nat, j: nat)
    requires k < |rows| && j < |rows|
  {
    IsReply(rows[k]) && rows[k].comment.parent.value == rows[j].id
  }

  /**
   * The positions from `j` up to `n` pushed onto the replies of the
   * comment at `j`: their parent is that comment, which the map already
   * holds when they are reached.
   */
  function RepliesUpTo(rows: seq<CommentRow>, j: nat, n: nat): seq<nat>
    requires j < |rows| && j <= n <= |rows|
    decreases n
  {
    if n == j then []
    else RepliesUpTo(rows, j, n - 1) + (if RepliesTo(rows, n - 1, j) then [n - 1] else [])
  }

  /** The replies of a comment are exactly the later rows naming it as parent, in order. */
  lemma {:induction false} RepliesUpToExact(rows: seq<CommentRow>, j: nat, n: nat)
    requires j < |rows| && j <= n <= |rows|
    ensures forall k: nat :: k in RepliesUpTo(rows, j, n) <==> j <= k < n && RepliesTo(rows, k, j)
    ensures Increasing(RepliesUpTo(rows, j, n))
    decreases n
  {
    if n > j {
      RepliesUpToExact(rows, j, n - 1);
      var earlier := RepliesUpTo(rows, j, n - 1);
      assert forall a :: 0 <= a < |earlier| ==> earlier[a] in earlier;
    }
  }

  /** The ids of the first `n` rows: the keys of `commentMap` after `n` steps. */
  function IdsUpTo(rows: seq<CommentRow>, n: nat): set<CommentId>
    requires n <= |rows|
  {
    set j | 0 <= j < n :: rows[j].id
  }

  /** `replies` is `commentMap` after the first `n` rows (replies by position). */
  ghost predicate Registered(rows: seq<CommentRow>, n: nat, replies: map<CommentId, seq<nat>>)
    requires n <= |rows|
  {
    && replies.Keys == IdsUpTo(rows, n)
    && forall j {:trigger RepliesUpTo(rows, j, n)} :: 0 <= j < n ==> replies[rows[j].id] == RepliesUpTo(rows, j, n)
  }

  /** Registering a row whose parent is falsy or not yet in the map. */
  lemma RegisterUnplaced(rows: seq<CommentRow>, i: nat, replies: map<CommentId, seq<nat>>)
    requires DistinctIds(rows) && i < |rows| && Registered(rows, i, replies)
    requires !IsReply(rows[i]) || rows[i].comment.parent.value !in replies[rows[i].id := []]
    ensures Registered(rows, i + 1, replies[rows[i].id := []])
  {
    var after := replies[rows[i].id := []];
    assert IdsUpTo(rows, i + 1) == IdsUpTo(rows, i) + {rows[i].id};
    forall j | 0 <= j < i ensures after[rows[j].id] == RepliesUpTo(rows, j, i + 1) {
      assert rows[j].id in IdsUpTo(rows, i);
      assert replies[rows[j].id] == RepliesUpTo(rows, j, i);
      assert !RepliesTo(rows, i, j);
    }
    assert !RepliesTo(rows, i, i);
    assert after[rows[i].id] == RepliesUpTo(rows, i, i + 1);
  }

  /** Registering a reply whose parent is already in the map. */
  lemma RegisterPlaced(rows: seq<CommentRow>, i: nat, replies: map<CommentId, seq<nat>>)
    requires DistinctIds(rows) && i < |rows| && Registered(rows, i, replies)
    requires IsReply(rows[i]) && rows[i].comment.parent.value in replies[rows[i].id := []]
    ensures var p := rows[i].comment.parent.value;
      var cleared := replies[rows[i].id := []];
      Registered(rows, i + 1, cleared[p := cleared[p] + [i]])
  {
    var p := rows[i].comment.parent.value;
    var cleared := replies[rows[i].id := []];
    var after := cleared[p := cleared[p] + [i]];
    assert IdsUpTo(rows, i + 1) == IdsUpTo(rows, i) + {rows[i].id};
    forall j | 0 <= j < i ensures after[rows[j].id] == RepliesUpTo(rows, j, i + 1) {
      assert rows[j].id != rows[i].id;
      assert replies[rows[j].id] == RepliesUpTo(rows, j, i);
    }
    assert after[rows[i].id] == RepliesUpTo(rows, i, i + 1);
  }

  /**
   * The forEach of the GET handler (lines 26-41): `roots` lists the
   * top-level comments and `replies[id]` the replies pushed onto the
   * comment with that id, each in input order.
   */
  method BuildTree(rows: seq<CommentRow>) returns (roots: seq<nat>, replies: map<CommentId, seq<nat>>)
    requires DistinctIds(rows)
    ensures roots == RootsUpTo(rows, |rows|)
    ensures replies.Keys == IdsUpTo(rows, |rows|)
    ensures forall j :: 0 <= j < |rows| ==> replies[rows[j].id] == RepliesUpTo(rows, j, |rows|)
  {
    roots := [];
    replies := map[];
    var i := 0;
    while i < |rows|
      invariant 0 <= i <= |rows|
      invariant roots == RootsUpTo(rows, i)
      invariant Registered(rows, i, replies)
    {
      var c := rows[i];
      ghost var before := replies;
      replies := replies[c.id := []];               // comment.replies = []; commentMap.set(...)
      if IsReply(c) {
        var p := c.comment.parent.value;
        if p in replies {                           // the parent is already in the map
          replies := replies[p := replies[p] + [i]];
          RegisterPlaced(rows, i, before);
        } else {
          RegisterUnplaced(rows, i, before);
        }
      } else {
        roots := roots + [i];
        RegisterUnplaced(rows, i, before);
      }
      i := i + 1;
    }
    assert forall j :: 0 <= j < |rows| ==> RepliesUpTo(rows, j, |rows|) == RepliesUpTo(rows, j, i);
  }

  /**
   * Every fetched comment has one place at most: a root is nobody's
   * reply, and a reply sits under one comment only.
   */
  lemma EachCommentPlacedOnce(rows: seq<CommentRow>, k: nat, j1: nat, j2: nat)
    requires DistinctIds(rows) && j1 < |rows| && j2 < |rows|
    ensures k in RootsUpTo(rows, |rows|) ==> k !in RepliesUpTo(rows, j1, |rows|)
    ensures k in RepliesUpTo(rows, j1, |rows|) && k in RepliesUpTo(rows, j2, |rows|) ==> j1 == j2
  {
    RootsUpToExact(rows, |rows|);
    RepliesUpToExact(rows, j1, |rows|);
    RepliesUpToExact(rows, j2, |rows|);
  }

  /** A reply whose parent is not among the rows up to it (an earlier page, an inactive author) appears nowhere. */
  lemma OrphanAppearsNowhere(rows: seq<CommentRow>, k: nat)
    requires k < |rows| && IsReply(rows[k])
    requires forall j :: 0 <= j <= k ==> rows[j].id != rows[k].comment.parent.value
    ensures k !in RootsUpTo(rows, |rows|)
    ensures forall j: nat :: j < |rows| ==> k !in RepliesUpTo(rows, j, |rows|)
  {
    RootsUpToExact(rows, |rows|);
    forall j: nat | j < |rows| ensures k !in RepliesUpTo(rows, j, |rows|) {
      RepliesUpToExact(rows, j, |rows|);
    }
  }

  /** `parent_id` as JavaScript tests it: the number 0 is falsy, any string of digits is truthy. */
  predicate Truthy(t: JsId) {
    t.Text? || t.n != 0
  }

  /** Ids grow with time, a parent precedes its replies and belongs to the same post. */
  ghost predicate BoardConsistent(users: map<UserId, UserRow>, posts: map<PostId, UserId>,
                                  comments: map<CommentId, Comment>, next: CommentId, clock: nat)
  {
    && next >= 1
    && (forall p :: p in posts ==> posts[p] in users)
    && (forall id :: id in comments ==> 1 <= id < next && WellPlaced(users, posts, comments, id, clock))
  }

  ghost predicate WellPlaced(users: map<UserId, UserRow>, posts: map<PostId, UserId>,
                             comments: map<CommentId, Comment>, id: CommentId, clock: nat)
    requires id in comments
  {
    var c := comments[id];
    && c.post in posts && c.author in users && c.createdAt <= clock
    && (c.parent.Some? ==>
          var p := c.parent.value;
          0 < p < id && p in comments && comments[p].post == c.post && comments[p].createdAt <= c.createdAt)
  }

  /** Storing a new comment at the next id, under a parent of the same post. */
  lemma AddingKeepsConsistent(users: map<UserId, UserRow>, posts: map<PostId, UserId>,
                              comments: map<CommentId, Comment>, next: CommentId, clock: nat, c: Comment)
    requires BoardConsistent(users, posts, comments, next, clock)
    requires c.post in posts && c.author in users && c.createdAt == clock
    requires c.parent.Some? ==> c.parent.value in comments && comments[c.parent.value].post == c.post
    ensures next !in comments
    ensures BoardConsistent(users, posts, comments[next := c], next + 1, clock)
  {
    var after := comments[next := c];
    forall id | id in after ensures 1 <= id < next + 1 && WellPlaced(users, posts, after, id, clock) {
      if id != next {
        assert WellPlaced(users, posts, comments, id, clock);
      }
    }
  }

  class CommentBoard {
    const users: map<UserId, UserRow>
    const posts: map<PostId, UserId>        // posts.user_id
    var comments: map<CommentId, Comment>
    var nextComment: CommentId
    var notifications: seq<Notification>
    var clock: nat

    ghost predicate Valid()
      reads this
    {
      BoardConsistent(users, posts, comments, nextComment, clock)
    }

    constructor (users: map<UserId, UserRow>, posts: map<PostId, UserId>)
      requires forall p :: p in posts ==> posts[p] in users
      ensures Valid() && this.users == users && this.posts == posts && comments == map[]
    {
      this.users := users;
      this.posts := posts;
      comments := map[];
      nextComment := 1;
      notifications := [];
      clock := 0;
    }

    method Tick()
      modifies this`clock
      ensures clock == old(clock) + 1
    {
      clock := clock + 1;
    }

    predicate Listed(post: PostId, id: CommentId)
      reads this`comments
    {
      id in comments && comments[id].post == post
      && comments[id].author in users && users[comments[id].author].isActive
    }

    /**
     * `WHERE c.post_id = ? AND u.is_active = TRUE ORDER BY c.created_at ASC`
     * over the ids below `n`; ids grow with creation time.
     */
    function FetchedBelow(post: PostId, n: nat): (rows: seq<CommentRow>)
      reads this`comments
      ensures forall k :: 0 <= k < |rows| ==>
        rows[k].id < n && Listed(post, rows[k].id) && rows[k].comment == comments[rows[k].id]
      ensures forall a, b :: 0 <= a < b < |rows| ==> rows[a].id < rows[b].id
    {
      if n == 0 then []
      else FetchedBelow(post, n - 1) + (if Listed(post, n - 1) then [CommentRow(n - 1, comments[n - 1])] else [])
    }

    /** Every listed comment below `n` is fetched. */
    lemma {:induction false} FetchedBelowComplete(post: PostId, n: nat, id: CommentId)
      requires id < n && Listed(post, id)
      ensures CommentRow(id, comments[id]) in FetchedBelow(post, n)
    {
      if id < n - 1 {
        FetchedBelowComplete(post, n - 1, id);
      }
    }

    /**
     * GET /:postId/comments (lines 7-48): the page of the post's comments
     * by active authors, arranged as a tree. `limit` and `offset` are what
     * `parseInt` made of the query (20 and 0 when absent, None for NaN);
     * LIMIT and OFFSET refuse a negative or NaN value with 500. A missing
     * post yields an empty thread.
     */
    method ListComments(post: PostId, limit: Option<int>, offset: Option<int>)
      returns (r: Response<()>, rows: seq<CommentRow>, roots: seq<nat>, replies: map<CommentId, seq<nat>>)
      ensures r.Ok? || r.ServerError?
      ensures r.ServerError? <==> !PageBounds(limit, offset)
      ensures r.ServerError? ==> rows == [] && roots == [] && replies == map[]
      ensures r.Ok? ==> rows == Slice(FetchedBelow(post, nextComment), offset.value as nat, limit.value as nat)
      ensures roots == RootsUpTo(rows, |rows|)
      ensures r.Ok? ==> forall j :: 0 <= j < |rows| ==> rows[j].id in replies && replies[rows[j].id] == RepliesUpTo(rows, j, |rows|)
    {
      if !PageBounds(limit, offset) {
        return ServerError, [], [], map[];
      }
      var all := FetchedBelow(post, nextComment);
      var off := offset.value as nat;
      rows := Slice(all, off, limit.value as nat);
      assert DistinctIds(rows) by {
        forall i, j | 0 <= i < j < |rows| ensures rows[i].id < rows[j].id {
          assert rows[i] == all[off + i] && rows[j] == all[off + j];
        }
      }
      roots, replies := BuildTree(rows);
      r := Ok(());
    }

    /**
     * On the whole thread, a reply whose parent's author is active hangs
     * under that parent, which comes earlier.
     */
    lemma WholeThreadAttachesReplies(post: PostId, k: nat)
      requires Valid()
      requires k < |FetchedBelow(post, nextComment)|
      requires IsReply(FetchedBelow(post, nextComment)[k])
      requires var p := FetchedBelow(post, nextComment)[k].comment.parent.value;
        p in comments && comments[p].author in users && users[comments[p].author].isActive
      ensures var rows := FetchedBelow(post, nextComment);
        exists j :: 0 <= j < k && rows[j].id == rows[k].comment.parent.value && k in RepliesUpTo(rows, j, |rows|)
    {
      var rows := FetchedBelow(post, nextComment);
      var p := rows[k].comment.parent.value;
      assert WellPlaced(users, posts, comments, rows[k].id, clock);
      FetchedBelowComplete(post, nextComment, p);
      var j :| 0 <= j < |rows| && rows[j] == CommentRow(p, comments[p]);
      assert j < k;
      RepliesUpToExact(rows, j, |rows|);
    }

    /** The INSERT's foreign keys and the parent check keep the board consistent. */
    predicate ParentOnPost(post: PostId, t: JsId)
      reads this`comments
    {
      t.n >= 0 && t.n as nat in comments && comments[t.n as nat].post == post
    }

    /** The stored `parent_id`: `parent_id || null`. */
    function StoredParent(parent: Option<JsId>): (p: Option<CommentId>)
      ensures p.Some? <==> parent.Some? && Truthy(parent.value) && parent.value.n >= 0
    {
      if parent.Some? && Truthy(parent.value) && parent.value.n >= 0 then Some(parent.value.n as nat) else None
    }

    /**
     * POST /:postId/comments (lines 50-116): 400 for blank content, 404
     * for a missing post or a parent that is not a comment of that post,
     * 500 with nothing stored for a content longer than the TEXT column;
     * otherwise the trimmed comment is stored, and the post's author is
     * told unless they wrote it.
     */
    method AddComment(me: CurrentUser, post: PostId, content: Option<string>, parent: Option<JsId>)
      returns (r: Response<CommentRow>)
      requires Valid() && me.id in users
      modifies this`comments, this`nextComment, this`notifications
      ensures Valid()
      ensures r.Created? || r.BadRequest? || r.NotFound? || r.ServerError?
      ensures r.BadRequest? <==> content.None? || |Trim(content.value)| < 1
      ensures r.NotFound? <==>
        content.Some? && |Trim(content.value)| >= 1
        && (post !in posts || (parent.Some? && Truthy(parent.value) && !old(ParentOnPost(post, parent.value))))
      ensures r.ServerError? <==> !r.BadRequest? && !r.NotFound? && !FitsText(Trim(content.value))
      ensures r.Created? ==>
        var id := old(nextComment);
        var c := Comment(post, me.id, StoredParent(parent), Trim(content.value), clock);
        && r.value == CommentRow(id, c)
        && id !in old(comments) && comments == old(comments)[id := c] && nextComment == id + 1
        && notifications == old(notifications) +
             (if posts[post] != me.id
              then [Notification(posts[post], "comment", "New Comment", me.name + " commented on your post",
                                 Some(post), false)]
              else [])
      ensures !r.Created? ==>
        comments == old(comments) && nextComment == old(nextComment) && notifications == old(notifications)
    {
      if content.None? || |Trim(content.value)| < 1 {
        return BadRequest;
      }
      if post !in posts {
        return NotFound;                            // post not found
      }
      if parent.Some? && Truthy(parent.value) && !ParentOnPost(post, parent.value) {
        return NotFound;                            // parent comment not found
      }
      if !FitsText(Trim(content.value)) {
        return ServerError;
      }
      var id := nextComment;
      var c := Comment(post, me.id, StoredParent(parent), Trim(content.value), clock);
      AddingKeepsConsistent(users, posts, comments, nextComment, clock, c);
      comments := comments[id := c];
      nextComment := nextComment + 1;
      if posts[post] != me.id {
        notifications := notifications + [Notification(posts[post], "comment", "New Comment",
                                                       me.name + " commented on your post", Some(post), false)];
      }
      r := Created(CommentRow(id, c));
    }
  }
}
