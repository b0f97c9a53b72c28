/**
 * How Express picks the handler of a request in backend/server.js: the
 * routers are mounted in order (lines 80-90), each router tries its routes
 * in the order they were registered, and the first route whose method and
 * path pattern match answers. A request no route matches reaches the
 * final `*` handler (404).
 *
 * A path is its list of non-empty segments; a `:name` segment of a
 * pattern matches any one non-empty segment.
 */
module Routing {
  import opened Common

  datatype Verb = GET | POST | PUT | DELETE

  datatype Segment = Lit(text: string) | Param

  /** The handler registered at a line of a route file. */
  datatype Handler = Handler(file: string, line: nat)

  datatype Route = Route(verb: Verb, pattern: seq<Segment>, handler: Handler)

  /** `app.use(prefix, router)` */
  datatype Mount = Mount(prefix: seq<string>, routes: seq<Route>)

  predicate SegmentMatches(s: Segment, part: string) {
    part != "" && (s.Lit? ==> s.text == part)
  }

  predicate Matches(r: Route, verb: Verb, path: seq<string>) {
    r.verb == verb && |r.pattern| == |path| &&
    forall i :: 0 <= i < |path| ==> SegmentMatches(r.pattern[i], path[i])
  }

  predicate IsPrefix(prefix: seq<string>, path: seq<string>) {
    |prefix| <= |path| && path[..|prefix|] == prefix
  }

  /** Route `k` of mount `m` would answer the request if it were tried. */
  predicate Hits(app: seq<Mount>, m: nat, k: nat, verb: Verb, path: seq<string>) {
    m < |app| && k < |app[m].routes| && IsPrefix(app[m].prefix, path) &&
    Matches(app[m].routes[k], verb, path[|app[m].prefix|..])
  }

  /** (m, k) is tried before (m', k'). */
  predicate Before(m: nat, k: nat, m': nat, k': nat) {
    m < m' || (m == m' && k < k')
  }

  /** The first route of `routes`, from index `from`, that matches. */
  function FirstRoute(routes: seq<Route>, verb: Verb, path: seq<string>, from: nat): (r: Option<nat>)
    requires from <= |routes|
    ensures r.Some? ==> from <= r.value < |routes| && Matches(routes[r.value], verb, path)
    ensures r.Some? ==> forall j :: from <= j < r.value ==> !Matches(routes[j], verb, path)
    ensures r.None? ==> forall j :: from <= j < |routes| ==> !Matches(routes[j], verb, path)
    decreases |routes| - from
  {
    if from == |routes| then None
    else if Matches(routes[from], verb, path) then Some(from)
    else FirstRoute(routes, verb, path, from + 1)
  }

  /** The (mount, route) that answers, trying the mounts from index `from`. */
  function DispatchFrom(app: seq<Mount>, verb: Verb, path: seq<string>, from: nat): (r: Option<(nat, nat)>)
    requires from <= |app|
    ensures r.Some? ==> from <= r.value.0 && Hits(app, r.value.0, r.value.1, verb, path)
    ensures r.Some? ==> forall m, k :: from <= m && Before(m, k, r.value.0, r.value.1) ==> !Hits(app, m, k, verb, path)
    ensures r.None? ==> forall m, k :: from <= m ==> !Hits(app, m, k, verb, path)
    decreases |app| - from
  {
    if from == |app| then None
    else
      var mount := app[from];
      var local := if IsPrefix(mount.prefix, path)
                   then FirstRoute(mount.routes, verb, path[|mount.prefix|..], 0) else None;
      if local.Some? then Some((from, local.value))
      else DispatchFrom(app, verb, path, from + 1)
  }

  function Dispatch(app: seq<Mount>, verb: Verb, path: seq<string>): (r: Option<(nat, nat)>)
    ensures r.Some? ==> Hits(app, r.value.0, r.value.1, verb, path)
    ensures r.Some? ==> forall m, k :: Before(m, k, r.value.0, r.value.1) ==> !Hits(app, m, k, verb, path)
    ensures r.None? <==> forall m, k :: !Hits(app, m, k, verb, path)
  {
    DispatchFrom(app, verb, path, 0)
  }

  /** The handler that runs, or None for the 404 fallback. */
  function HandlerFor(app: seq<Mount>, verb: Verb, path: seq<string>): Option<Handler> {
    match Dispatch(app, verb, path)
    case None => None
    case Some((m, k)) => Some(app[m].routes[k].handler)
  }

  /** Every request `b` matches is also matched by `a`. */
  predicate Subsumes(a: Route, b: Route) {
    a.verb == b.verb && |a.pattern| == |b.pattern| &&
    forall i :: 0 <= i < |a.pattern| ==> a.pattern[i].Param? || a.pattern[i] == b.pattern[i]
  }

  /** Dispatch answers with the route it is given as soon as that route hits and nothing before it does. */
  lemma DispatchIsFirstHit(app: seq<Mount>, m: nat, k: nat, verb: Verb, path: seq<string>)
    requires Hits(app, m, k, verb, path)
    requires forall m': nat, k': nat :: Before(m', k', m, k) ==> !Hits(app, m', k', verb, path)
    ensures Dispatch(app, verb, path) == Some((m, k))
  {
    var r := Dispatch(app, verb, path);
    assert r.Some?;
    var (m', k') := r.value;
    assert !Before(m', k', m, k);
    assert !Before(m, k, m', k');
  }

  /**
   * A route registered after another one under the same prefix that
   * subsumes it never runs, whatever the request.
   */
  lemma ShadowedRouteNeverRuns(app: seq<Mount>, m1: nat, k1: nat, m2: nat, k2: nat, verb: Verb, path: seq<string>)
    requires m1 < |app| && k1 < |app[m1].routes| && m2 < |app| && k2 < |app[m2].routes|
    requires Before(m1, k1, m2, k2) && app[m1].prefix == app[m2].prefix
    requires Subsumes(app[m1].routes[k1], app[m2].routes[k2])
    ensures Dispatch(app, verb, path) != Some((m2, k2))
  {
    if Hits(app, m2, k2, verb, path) {
      var rest := path[|app[m2].prefix|..];
      var a, b := app[m1].routes[k1], app[m2].routes[k2];
      forall i | 0 <= i < |rest| ensures SegmentMatches(a.pattern[i], rest[i]) {
        assert SegmentMatches(b.pattern[i], rest[i]);
      }
      assert Hits(app, m1, k1, verb, path);
    }
  }

  // -----------------------------------------------------------------------
  // The application as mounted
  // -----------------------------------------------------------------------

  /** The routes of auth.js, in registration order. */
  const AuthRouter: seq<Route> := [
    Route(POST, [Lit("register")], Handler("auth.js", 15)),
    Route(POST, [Lit("login")], Handler("auth.js", 65)),
    Route(GET, [Lit("me")], Handler("auth.js", 119)),
    Route(POST, [Lit("logout")], Handler("auth.js", 137)),
    Route(POST, [Lit("change-password")], Handler("auth.js", 151))
  ]

  /** The routes of users.js, in registration order. */
  const UserRouter: seq<Route> := [
    Route(GET, [], Handler("users.js", 9)),
    Route(GET, [Param], Handler("users.js", 38)),
    Route(GET, [Param, Lit("posts")], Handler("users.js", 89)),
    Route(PUT, [Lit("profile")], Handler("users.js", 133)),
    Route(POST, [Param, Lit("follow")], Handler("users.js", 185)),
    Route(GET, [Param, Lit("followers")], Handler("users.js", 234)),
    Route(GET, [Param, Lit("following")], Handler("users.js", 254)),
    Route(PUT, [Lit("me"), Lit("password")], Handler("users.js", 274)),
    Route(PUT, [Lit("status")], Handler("users.js", 328)),
    Route(GET, [Lit("profile"), Param], Handler("users.js", 351)),
    Route(GET, [Param, Lit("posts")], Handler("users.js", 380)),
    Route(GET, [Param, Lit("spaces")], Handler("users.js", 403))
  ]

  /** The routes of posts.js, in registration order. */
  const PostRouter: seq<Route> := [
    Route(GET, [], Handler("posts.js", 7)),
    Route(POST, [], Handler("posts.js", 105)),
    Route(GET, [Lit("tags")], Handler("posts.js", 214)),
    Route(GET, [Param], Handler("posts.js", 237)),
    Route(PUT, [Param], Handler("posts.js", 278)),
    Route(DELETE, [Param], Handler("posts.js", 327)),
    Route(POST, [Param, Lit("like")], Handler("posts.js", 358)),
    Route(POST, [Param, Lit("pin")], Handler("posts.js", 405))
  ]

  /** The routes of comments.js, in registration order. */
  const CommentRouter: seq<Route> := [
    Route(GET, [Param, Lit("comments")], Handler("comments.js", 7)),
    Route(POST, [Param, Lit("comments")], Handler("comments.js", 50)),
    Route(PUT, [Param], Handler("comments.js", 118)),
    Route(DELETE, [Param], Handler("comments.js", 155)),
    Route(POST, [Param, Lit("like")], Handler("comments.js", 181))
  ]

  /** The routes of spaces.js, in registration order. */
  const SpaceRouter: seq<Route> := [
    Route(GET, [], Handler("spaces.js", 7)),
    Route(POST, [], Handler("spaces.js", 66)),
    Route(GET, [Param], Handler("spaces.js", 112)),
    Route(PUT, [Param], Handler("spaces.js", 146)),
    Route(GET, [Param, Lit("join-request"), Lit("me")], Handler("spaces.js", 199)),
    Route(POST, [Param, Lit("join-requests")], Handler("spaces.js", 216)),
    Route(DELETE, [Param], Handler("spaces.js", 255)),
    Route(DELETE, [Lit("user_spaces"), Param], Handler("spaces.js", 281)),
    Route(POST, [Param, Lit("join")], Handler("spaces.js", 311)),
    Route(GET, [Param, Lit("members")], Handler("spaces.js", 356)),
    Route(POST, [Param, Lit("invite")], Handler("spaces.js", 399)),
    Route(PUT, [Param, Lit("members"), Param], Handler("spaces.js", 469)),
    Route(DELETE, [Param, Lit("members"), Param], Handler("spaces.js", 509)),
    Route(PUT, [Param, Lit("members"), Param, Lit("promote")], Handler("spaces.js", 550)),
    Route(GET, [Param, Lit("banned")], Handler("spaces.js", 611)),
    Route(POST, [Param, Lit("ban")], Handler("spaces.js", 629)),
    Route(POST, [Param, Lit("unban")], Handler("spaces.js", 704)),
    Route(PUT, [Param, Lit("members"), Param], Handler("spaces.js", 739)),
    Route(DELETE, [Param, Lit("members"), Param], Handler("spaces.js", 778))
  ]

  /** The routes of messages.js, in registration order. */
  const MessageRouter: seq<Route> := [
    Route(POST, [Lit("upload")], Handler("messages.js", 25)),
    Route(GET, [Lit("conversations")], Handler("messages.js", 83)),
    Route(GET, [Lit("conversations"), Param], Handler("messages.js", 161)),
    Route(POST, [Lit("conversations")], Handler("messages.js", 251)),
    Route(POST, [Lit("conversations"), Param, Lit("messages")], Handler("messages.js", 315)),
    Route(POST, [Lit("conversations"), Param, Lit("read")], Handler("messages.js", 406)),
    Route(GET, [Lit("unread"), Lit("count")], Handler("messages.js", 431))
  ]

  /** The routes of notifications.js, in registration order. */
  const NotificationRouter: seq<Route> := [
    Route(GET, [], Handler("notifications.js", 6)),
    Route(GET, [Lit("unread"), Lit("count")], Handler("notifications.js", 48)),
    Route(PUT, [Param, Lit("read")], Handler("notifications.js", 62)),
    Route(PUT, [Lit("read-all")], Handler("notifications.js", 82)),
    Route(DELETE, [Param], Handler("notifications.js", 96)),
    Route(DELETE, [Lit("clear-all")], Handler("notifications.js", 116))
  ]

  /** The routes of events.js, in registration order. */
  const EventRouter: seq<Route> := [
    Route(GET, [], Handler("events.js", 8)),
    Route(POST, [], Handler("events.js", 39)),
    Route(PUT, [Param], Handler("events.js", 149)),
    Route(DELETE, [Param], Handler("events.js", 299)),
    Route(GET, [Lit("users"), Lit("search")], Handler("events.js", 363))
  ]

  /** The routes of admin.js, in registration order. */
  const AdminRouter: seq<Route> := [
    Route(GET, [Lit("stats")], Handler("admin.js", 23)),
    Route(GET, [Lit("users")], Handler("admin.js", 72)),
    Route(POST, [Lit("users")], Handler("admin.js", 115)),
    Route(PUT, [Lit("users"), Param], Handler("admin.js", 163)),
    Route(DELETE, [Lit("users"), Param], Handler("admin.js", 238)),
    Route(POST, [Lit("users"), Param, Lit("ban")], Handler("admin.js", 276)),
    Route(POST, [Lit("users"), Param, Lit("unban")], Handler("admin.js", 313)),
    Route(GET, [Lit("spaces")], Handler("admin.js", 337)),
    Route(PUT, [Lit("spaces"), Param], Handler("admin.js", 375)),
    Route(DELETE, [Lit("spaces"), Param], Handler("admin.js", 419)),
    Route(GET, [Lit("posts")], Handler("admin.js", 440)),
    Route(DELETE, [Lit("posts"), Param], Handler("admin.js", 490)),
    Route(GET, [Lit("messages")], Handler("admin.js", 511)),
    Route(DELETE, [Lit("messages"), Param], Handler("admin.js", 552)),
    Route(GET, [Lit("logs")], Handler("admin.js", 571)),
    Route(GET, [Lit("config")], Handler("admin.js", 621)),
    Route(PUT, [Lit("config")], Handler("admin.js", 631)),
    Route(POST, [Lit("broadcast")], Handler("admin.js", 658)),
    Route(GET, [Lit("user-settings"), Param], Handler("admin.js", 699)),
    Route(PUT, [Lit("user-settings"), Param], Handler("admin.js", 720))
  ]

  /** The routes of upload.js, in registration order. */
  const UploadRouter: seq<Route> := [
    Route(POST, [], Handler("upload.js", 22))
  ]

  /** The routes of settings.js, in registration order. */
  const SettingsRouter: seq<Route> := [
    Route(GET, [], Handler("settings.js", 8)),
    Route(PUT, [], Handler("settings.js", 53))
  ]

  /** backend/server.js lines 80-90. */
  const App: seq<Mount> := [
    Mount(["api", "auth"], AuthRouter),
    Mount(["api", "users"], UserRouter),
    Mount(["api", "posts"], PostRouter),
    Mount(["api", "posts"], CommentRouter),
    Mount(["api", "spaces"], SpaceRouter),
    Mount(["api", "messages"], MessageRouter),
    Mount(["api", "notifications"], NotificationRouter),
    Mount(["api", "events"], EventRouter),
    Mount(["api", "admin"], AdminRouter),
    Mount(["api", "upload"], UploadRouter),
    Mount(["api", "settings"], SettingsRouter)
  ]

  const CommentsMount: nat := 3
  const NotificationsMount: nat := 6

  /** comments.js's edit, delete and like never run: posts.js registers the same shapes first on /api/posts. */
  lemma CommentHandlersShadowed(verb: Verb, path: seq<string>)
    ensures Dispatch(App, verb, path) != Some((CommentsMount, 2))    // comments.js:118
    ensures Dispatch(App, verb, path) != Some((CommentsMount, 3))    // comments.js:155
    ensures Dispatch(App, verb, path) != Some((CommentsMount, 4))    // comments.js:181
  {
    assert App[2].routes == PostRouter && App[3].routes == CommentRouter;
    assert Subsumes(PostRouter[4], CommentRouter[2]);
    assert Subsumes(PostRouter[5], CommentRouter[3]);
    assert Subsumes(PostRouter[6], CommentRouter[4]);
    ShadowedRouteNeverRuns(App, 2, 4, 3, 2, verb, path);
    ShadowedRouteNeverRuns(App, 2, 5, 3, 3, verb, path);
    ShadowedRouteNeverRuns(App, 2, 6, 3, 4, verb, path);
  }

  /** The second role-change and member-removal handlers of spaces.js never run. */
  lemma SpaceHandlersShadowed(verb: Verb, path: seq<string>)
    ensures Dispatch(App, verb, path) != Some((4, 17))               // spaces.js:739
    ensures Dispatch(App, verb, path) != Some((4, 18))               // spaces.js:778
  {
    assert App[4].routes == SpaceRouter;
    assert Subsumes(SpaceRouter[11], SpaceRouter[17]);
    assert Subsumes(SpaceRouter[12], SpaceRouter[18]);
    ShadowedRouteNeverRuns(App, 4, 11, 4, 17, verb, path);
    ShadowedRouteNeverRuns(App, 4, 12, 4, 18, verb, path);
  }

  /** The second user-posts handler of users.js never runs. */
  lemma UserPostsHandlerShadowed(verb: Verb, path: seq<string>)
    ensures Dispatch(App, verb, path) != Some((1, 10))               // users.js:380
  {
    assert App[1].routes == UserRouter;
    assert Subsumes(UserRouter[2], UserRouter[10]);
    ShadowedRouteNeverRuns(App, 1, 2, 1, 10, verb, path);
  }

  /** notifications.js's clear-all never runs. */
  lemma ClearAllHandlerShadowed(verb: Verb, path: seq<string>)
    ensures Dispatch(App, verb, path) != Some((NotificationsMount, 5)) // notifications.js:116
  {
    assert App[6].routes == NotificationRouter;
    assert Subsumes(NotificationRouter[4], NotificationRouter[5]);
    ShadowedRouteNeverRuns(App, 6, 4, 6, 5, verb, path);
  }

  /** `DELETE /api/notifications/clear-all` runs the delete-by-id handler with id "clear-all". */
  lemma ClearAllRunsDeleteById()
    ensures HandlerFor(App, DELETE, ["api", "notifications", "clear-all"]) == Some(Handler("notifications.js", 96))
  {
    var path := ["api", "notifications", "clear-all"];
    forall m: nat, k: nat | Before(m, k, 6, 4) ensures !Hits(App, m, k, DELETE, path) {
      if m < 6 {
        assert App[m].prefix[1] != "notifications";
        assert path[..2][1] == "notifications";
      } else if k < |App[6].routes| {
        assert App[6].routes[k].verb != DELETE;
      }
    }
    assert path[2..] == ["clear-all"];
    DispatchIsFirstHit(App, 6, 4, DELETE, path);
  }
}
