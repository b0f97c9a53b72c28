/**
 * The direct-messaging engine of backend/routes/messages.js over the tables
 * conversations, conversation_participants, messages, message_attachments
 * and message_recipients (backend/config/database.js), with the socket.io
 * rooms of backend/server.js that deliver its real-time events.
 */
module Messaging {
  import opened Common
  import opened Schema
  import opened ConversationFormat

  type ChannelId = nat   // one connected socket
  type MessageId = nat   // AUTO_INCREMENT, starting at 1

  datatype Conversation = Conversation(name: StoredName, isGroup: bool, createdAt: nat)

  /** An attachment as the client sends it in the JSON body; fields may be missing. */
  datatype AttachmentInput = AttachmentInput(url: Option<string>, name: Option<string>, fileType: string)

  /** `req.body.attachments`: absent (defaults to []), not an array (validation fails), or a list. */
  datatype AttachmentsParam = Absent | NotArray | Items(items: seq<AttachmentInput>)

  /** One row of `messages`; `attachmentsJson` is the JSON text stored in the `attachements` column. */
  datatype Message = Message(
    conv: ConvId, sender: UserId, content: string,
    attachmentsJson: seq<AttachmentInput>, createdAt: nat)

  /** One row of `message_attachments`. */
  datatype Attachment = Attachment(message: MessageId, url: string, fileName: string, fileType: FileType)

  /** The non-key columns of one row of `message_recipients`. */
  datatype Receipt = Receipt(isRead: bool, readAt: Option<nat>)

  /** One element of the JSON_ARRAYAGG(JSON_OBJECT(...)) over the LEFT JOIN with the attachments. */
  datatype AttachmentView = AttachmentView(
    id: Option<nat>, url: Option<string>, name: Option<string>, fileType: Option<FileType>)

  /** A message joined with its sender and its attachments. */
  datatype MessageView = MessageView(
    id: MessageId, conversation: ConvId, sender: UserId, content: string, createdAt: nat,
    author: string, senderAvatar: Option<string>, attachments: seq<AttachmentView>)

  /** A message of a fetched page with the caller's `mr.is_read` (NULL without a receipt). */
  datatype PageItem = PageItem(message: MessageView, isRead: Option<bool>)

  datatype Thread = Thread(
    messages: seq<PageItem>, id: ConvId, name: StoredName, isGroup: bool, participants: set<UserId>)

  datatype CreatedConversation = CreatedConversation(
    id: ConvId, name: StoredName, isGroup: bool, participants: seq<UserId>)

  datatype SocketEvent = NewMessage(message: MessageView) | UpdateConversations | UpdateUnreadCount

  /** One `io.to('user-' + room).emit(...)`, with the sockets that were in the room at that moment. */
  datatype Emission = Emission(room: UserId, delivered: set<ChannelId>, event: SocketEvent)

  const MaxContentLength: nat := 20000

  /**
   * One element of `JSON.stringify(attachments)`: the object's `url`,
   * `name` and `type` members in that order, the client's order (an absent
   * member is left out, as JSON.stringify leaves out undefined).
   */
  function AttachmentJson(a: AttachmentInput): (t: string)
    ensures |t| >= 2 && t[0] == '{' && t[|t| - 1] == '}'
  {
    "{" + (if a.url.Some? then "\"url\":\"" + a.url.value + "\"," else "")
        + (if a.name.Some? then "\"name\":\"" + a.name.value + "\"," else "")
        + "\"type\":\"" + a.fileType + "\"}"
  }

  /** `JSON.stringify(attachments)`, the text the INSERT stores in `messages.attachements`. */
  function AttachmentsJson(items: seq<AttachmentInput>): (t: string)
    ensures |t| >= 2 && t[0] == '[' && t[|t| - 1] == ']'
    ensures items == [] ==> t == "[]"
  {
    "[" + Join(seq(|items|, k requires 0 <= k < |items| => AttachmentJson(items[k])), ",") + "]"
  }

  /** The message row's content and attachment text both fit their TEXT columns. */
  predicate MessageRowFits(text: string, items: seq<AttachmentInput>) {
    FitsText(text) && FitsText(AttachmentsJson(items))
  }

  /** A lone attachment's URL counts in full toward the `attachements` text. */
  lemma AttachmentUrlCounts(a: AttachmentInput)
    requires a.url.Some?
    ensures Utf8Length(AttachmentsJson([a])) > Utf8Length(a.url.value)
  {
    var obj := AttachmentJson(a);
    assert AttachmentsJson([a]) == "[" + obj + "]" by {
      assert seq(1, k requires 0 <= k < 1 => AttachmentJson([a][k])) == [obj];
    }
    ObjectHoldsUrl(a);
    Utf8LengthAppend("[" + obj, "]");
    Utf8LengthAppend("[", obj);
  }

  lemma ObjectHoldsUrl(a: AttachmentInput)
    requires a.url.Some?
    ensures Utf8Length(AttachmentJson(a)) > Utf8Length(a.url.value)
  {
    var pre := "{\"url\":\"";
    var rest := (if a.name.Some? then "\"name\":\"" + a.name.value + "\"," else "")
                + "\"type\":\"" + a.fileType + "\"}";
    var post := "\"," + rest;
    assert AttachmentJson(a) == pre + a.url.value + post;
    Utf8LengthAppend(pre + a.url.value, post);
    Utf8LengthAppend(pre, a.url.value);
  }

  /**
   * The validator's cap of 20,000 characters does not keep the content
   * within its TEXT column: 20,000 characters outside the Basic
   * Multilingual Plane take 80,000 bytes.
   */
  lemma CappedContentCanOverflow()
    ensures exists s: string :: |s| <= MaxContentLength && !FitsText(s)
  {
    var s: string := seq(MaxContentLength, _ => '\U{1F600}');
    WideTextLength(s);
    assert !FitsText(s);
  }
  const NullAttachment := AttachmentView(None, None, None, None)

  /** The INSERT into message_attachments fails unless url and file_name are present and fit and the type is in the ENUM. */
  predicate AcceptsAttachment(a: AttachmentInput) {
    a.url.Some? && a.name.Some? && |a.url.value| <= 255 && |a.name.value| <= 255
    && ParseFileType(a.fileType).Some?
  }

  function RoomOf(rooms: map<UserId, set<ChannelId>>, u: UserId): set<ChannelId> {
    if u in rooms then rooms[u] else {}
  }

  /** One emission of `e` to each room of `order`, in that order. */
  function Fanout(rooms: map<UserId, set<ChannelId>>, order: seq<UserId>, e: SocketEvent): (r: seq<Emission>)
    ensures |r| == |order|
    ensures forall i :: 0 <= i < |r| ==> r[i] == Emission(order[i], RoomOf(rooms, order[i]), e)
  {
    if order == [] then []
    else Fanout(rooms, order[..|order| - 1], e) + [Emission(order[|order| - 1], RoomOf(rooms, order[|order| - 1]), e)]
  }

  // ---------------------------------------------------------------------
  // Uploads (lines 25-44)
  // ---------------------------------------------------------------------

  /** A file as multer stored it under uploads/. */
  datatype UploadedFile = UploadedFile(storedName: string, originalName: string, mimetype: string)

  datatype FileDescriptor = FileDescriptor(url: string, name: string, fileType: FileType)

  function Classify(mimetype: string): (t: FileType)
    ensures t == Image <==> StartsWith(mimetype, "image/")
    ensures t == Video <==> !StartsWith(mimetype, "image/") && StartsWith(mimetype, "video/")
  {
    if StartsWith(mimetype, "image/") then Image
    else if StartsWith(mimetype, "video/") then Video
    else File
  }

  /** POST /upload: one descriptor per stored file, in order; 400 without files. */
  function DescribeUploads(files: seq<UploadedFile>): (r: Response<seq<FileDescriptor>>)
    ensures r.BadRequest? <==> files == []
    ensures r.Ok? || r.BadRequest?
    ensures r.Ok? ==> |r.value| == |files|
    ensures r.Ok? ==> forall i :: 0 <= i < |files| ==>
      && r.value[i].url == "/uploads/" + files[i].storedName
      && r.value[i].name == files[i].originalName
      && r.value[i].fileType == Classify(files[i].mimetype)
  {
    if files == [] then BadRequest
    else Ok(seq(|files|, i requires 0 <= i < |files| =>
      FileDescriptor("/uploads/" + files[i].storedName, files[i].originalName, Classify(files[i].mimetype))))
  }

  // ---------------------------------------------------------------------
  // The conversation preview: MAX(m.content)
  // ---------------------------------------------------------------------

  /** Code-point lexicographic order (the collation's case and accent folding is not modelled). */
  predicate LexLe(a: string, b: string)
    decreases |a|
  {
    a == [] || (b != [] && (a[0] < b[0] || (a[0] == b[0] && LexLe(a[1..], b[1..]))))
  }

  lemma {:induction false} LexRefl(a: string)
    ensures LexLe(a, a)
    decreases |a|
  {
    if a != [] {
      LexRefl(a[1..]);
    }
  }

  lemma {:induction false} LexTotal(a: string, b: string)
    ensures LexLe(a, b) || LexLe(b, a)
    decreases |a|
  {
    if a != [] && b != [] && a[0] == b[0] {
      LexTotal(a[1..], b[1..]);
    }
  }

  lemma {:induction false} LexTrans(a: string, b: string, c: string)
    requires LexLe(a, b) && LexLe(b, c)
    ensures LexLe(a, c)
    decreases |a|
  {
    if a != [] && b != [] && c != [] && a[0] == b[0] && b[0] == c[0] {
      LexTrans(a[1..], b[1..], c[1..]);
    }
  }

  /** The greatest string of a non-empty list under LexLe. */
  function Greatest(s: seq<string>): (g: string)
    requires s != []
    ensures g in s
    ensures forall i :: 0 <= i < |s| ==> LexLe(s[i], g)
  {
    if |s| == 1 then
      LexRefl(s[0]);
      s[0]
    else
      var rest := Greatest(s[1..]);
      assert forall i :: 1 <= i < |s| ==> LexLe(s[i], rest) by {
        forall i | 1 <= i < |s| ensures LexLe(s[i], rest) {
          assert s[i] == s[1..][i - 1];
        }
      }
      LexTotal(s[0], rest);
      if LexLe(s[0], rest) then
        assert rest in s[1..];
        rest
      else
        assert forall i :: 1 <= i < |s| ==> LexLe(s[i], s[0]) by {
          forall i | 1 <= i < |s| ensures LexLe(s[i], s[0]) {
            LexTrans(s[i], rest, s[0]);
          }
        }
        LexRefl(s[0]);
        s[0]
  }

  /** The preview is the greatest content, so it is not the newest message when an older one sorts later. */
  lemma PreviewIsNotTheNewest()
    ensures Greatest(["see you", "ok"]) == "see you"
  {
    assert LexLe("ok", "see you");
    assert !LexLe("see you", "ok");
    assert ["see you", "ok"][1..] == ["ok"];
  }

  // ---------------------------------------------------------------------
  // Integrity of the messaging tables
  // ---------------------------------------------------------------------

  /** Foreign keys of conversation_participants. */
  ghost predicate ParticipantsRefer(participants: set<(ConvId, UserId)>, conversations: map<ConvId, Conversation>,
                                    users: map<UserId, UserRow>) {
    forall p | p in participants :: p.0 in conversations && p.1 in users
  }

  /** Every message was sent by a participant of its conversation, in the past, in creation order. */
  ghost predicate MessagesFromParticipants(messages: seq<Message>, participants: set<(ConvId, UserId)>, clock: nat) {
    && (forall i | 0 <= i < |messages| ::
          (messages[i].conv, messages[i].sender) in participants && messages[i].createdAt <= clock)
    && (forall i, j | 0 <= i < j < |messages| :: messages[i].createdAt <= messages[j].createdAt)
  }

  /** Attachments belong to stored messages (ids 1 to `n`). */
  ghost predicate AttachmentsRefer(attachments: seq<Attachment>, n: nat) {
    forall k | 0 <= k < |attachments| :: 1 <= attachments[k].message <= n
  }

  /** Receipts exist only for participants of the message's conversation. */
  ghost predicate ReceiptsRefer(receipts: map<(MessageId, UserId), Receipt>, messages: seq<Message>,
                                participants: set<(ConvId, UserId)>) {
    forall key | key in receipts ::
      1 <= key.0 <= |messages| && (messages[key.0 - 1].conv, key.1) in participants
  }

  /** The participant rows of conversation `c` for `members`. */
  function Membership(c: ConvId, members: seq<UserId>): set<(ConvId, UserId)> {
    set u | u in members :: (c, u)
  }

  lemma NewConversationKeepsIntegrity(
    participants: set<(ConvId, UserId)>, conversations: map<ConvId, Conversation>, users: map<UserId, UserRow>,
    messages: seq<Message>, receipts: map<(MessageId, UserId), Receipt>, clock: nat,
    c: ConvId, x: Conversation, members: seq<UserId>)
    requires ParticipantsRefer(participants, conversations, users)
    requires MessagesFromParticipants(messages, participants, clock)
    requires ReceiptsRefer(receipts, messages, participants)
    requires forall u :: u in members ==> u in users
    ensures ParticipantsRefer(participants + Membership(c, members), conversations[c := x], users)
    ensures MessagesFromParticipants(messages, participants + Membership(c, members), clock)
    ensures ReceiptsRefer(receipts, messages, participants + Membership(c, members))
  {
  }

  predicate AllAccepted(items: seq<AttachmentInput>) {
    forall i :: 0 <= i < |items| ==> AcceptsAttachment(items[i])
  }

  /** The message_attachments rows inserted for message `id` (lines 348-355). */
  function AttachmentRowsFor(id: MessageId, items: seq<AttachmentInput>): (rows: seq<Attachment>)
    requires AllAccepted(items)
    ensures |rows| == |items|
    ensures forall i :: 0 <= i < |items| ==>
      rows[i] == Attachment(id, items[i].url.value, items[i].name.value, ParseFileType(items[i].fileType).value)
  {
    if items == [] then []
    else
      var a := items[0];
      [Attachment(id, a.url.value, a.name.value, ParseFileType(a.fileType).value)] + AttachmentRowsFor(id, items[1..])
  }

  lemma AttachmentRowsRefer(attachments: seq<Attachment>, id: MessageId, items: seq<AttachmentInput>)
    requires AttachmentsRefer(attachments, id) && 1 <= id && AllAccepted(items)
    ensures AttachmentsRefer(attachments + AttachmentRowsFor(id, items), id)
  {
  }

  lemma NewMessageKeepsIntegrity(
    messages: seq<Message>, participants: set<(ConvId, UserId)>, clock: nat,
    attachments: seq<Attachment>, receipts: map<(MessageId, UserId), Receipt>, m: Message)
    requires MessagesFromParticipants(messages, participants, clock)
    requires AttachmentsRefer(attachments, |messages|)
    requires ReceiptsRefer(receipts, messages, participants)
    requires (m.conv, m.sender) in participants && m.createdAt == clock
    ensures MessagesFromParticipants(messages + [m], participants, clock)
    ensures AttachmentsRefer(attachments, |messages| + 1)
    ensures ReceiptsRefer(receipts, messages + [m], participants)
  {
    var ms := messages + [m];
    forall key | key in receipts
      ensures 1 <= key.0 <= |ms| && (ms[key.0 - 1].conv, key.1) in participants
    {
      assert ms[key.0 - 1] == messages[key.0 - 1];
    }
  }

  /** The receipt keys of `caller` for a page of messages. */
  function PageKeys(ids: seq<MessageId>, caller: UserId): set<(MessageId, UserId)> {
    set id | id in ids :: (id, caller)
  }

  /** `is_read = TRUE, read_at = NOW()` for each of `keys`. */
  function ReadAt(keys: set<(MessageId, UserId)>, t: nat): map<(MessageId, UserId), Receipt> {
    map key | key in keys :: Receipt(true, Some(t))
  }

  lemma ReadKeepsReceiptsValid(receipts: map<(MessageId, UserId), Receipt>, messages: seq<Message>,
                               participants: set<(ConvId, UserId)>, ids: seq<MessageId>, caller: UserId, t: nat)
    requires ReceiptsRefer(receipts, messages, participants)
    requires forall id :: id in ids ==> 1 <= id <= |messages| && (messages[id - 1].conv, caller) in participants
    ensures ReceiptsRefer(receipts + ReadAt(PageKeys(ids, caller), t), messages, participants)
  {
    var merged := receipts + ReadAt(PageKeys(ids, caller), t);
    forall key | key in merged
      ensures 1 <= key.0 <= |messages| && (messages[key.0 - 1].conv, key.1) in participants
    {
      if key !in receipts {
        var id :| id in ids && key == (id, caller);
      }
    }
  }

  /** The attachment rows of message `id` among the first `k` of `attachments`, as JSON objects. */
  function AttachmentRows(attachments: seq<Attachment>, id: MessageId, k: nat): (r: seq<AttachmentView>)
    requires k <= |attachments|
    ensures forall i :: 0 <= i < |r| ==> r[i].id.Some?
  {
    if k == 0 then []
    else
      var a := attachments[k - 1];
      AttachmentRows(attachments, id, k - 1)
        + (if a.message == id then [AttachmentView(Some(k), Some(a.url), Some(a.fileName), Some(a.fileType))] else [])
  }

  /** With no attachment the LEFT JOIN still yields one object whose fields are all null. */
  function AttachmentsOf(attachments: seq<Attachment>, id: MessageId): (r: seq<AttachmentView>)
    ensures r != []
    ensures r == [NullAttachment] <==> AttachmentRows(attachments, id, |attachments|) == []
  {
    var rows := AttachmentRows(attachments, id, |attachments|);
    if rows == [] then [NullAttachment]
    else
      assert rows[0].id.Some?;
      rows
  }

  /** The socket.io server: rooms named `user-<id>` and every emission made so far. */
  class Broadcaster {
    var rooms: map<UserId, set<ChannelId>>
    var outbox: seq<Emission>

    constructor ()
      ensures rooms == map[] && outbox == []
    {
      rooms := map[];
      outbox := [];
    }

    /** server.js, 'join-user-room': any socket may join any user's room. */
    method JoinUserRoom(ch: ChannelId, u: UserId)
      modifies this
      ensures rooms == old(rooms)[u := RoomOf(old(rooms), u) + {ch}]
      ensures outbox == old(outbox)
    {
      rooms := rooms[u := RoomOf(rooms, u) + {ch}];
    }

    /** A disconnected socket leaves every room. */
    method Disconnect(ch: ChannelId)
      modifies this
      ensures rooms.Keys == old(rooms).Keys
      ensures forall u :: u in rooms ==> rooms[u] == old(rooms)[u] - {ch}
      ensures outbox == old(outbox)
    {
      rooms := map u | u in rooms :: rooms[u] - {ch};
    }

    method EmitTo(u: UserId, e: SocketEvent)
      modifies this`outbox
      ensures outbox == old(outbox) + [Emission(u, RoomOf(rooms, u), e)]
    {
      outbox := outbox + [Emission(u, RoomOf(rooms, u), e)];
    }

    /** `list.forEach(u => io.to(`user-${u}`).emit(e))`: one emission per user, in order. */
    method EmitEach(order: seq<UserId>, e: SocketEvent)
      modifies this`outbox
      ensures outbox == old(outbox) + Fanout(rooms, order, e)
    {
      var k := 0;
      while k < |order|
        invariant 0 <= k <= |order|
        invariant outbox == old(outbox) + Fanout(rooms, order[..k], e)
      {
        EmitTo(order[k], e);
        assert order[..k + 1][..k] == order[..k];
        k := k + 1;
      }
      assert order[..k] == order;
    }
  }

  /** The messaging tables and the socket server the routes emit on. */
  class Messenger {
    const users: map<UserId, UserRow>
    var conversations: map<ConvId, Conversation>
    var participants: set<(ConvId, UserId)>
    var messages: seq<Message>           // message id k is messages[k - 1]
    var attachments: seq<Attachment>     // attachment id k is attachments[k - 1]
    var receipts: map<(MessageId, UserId), Receipt>
    var clock: nat                        // NOW()
    const hub: Broadcaster

    ghost predicate Valid()
      reads this
    {
      && ParticipantsRefer(participants, conversations, users)
      && MessagesFromParticipants(messages, participants, clock)
      && AttachmentsRefer(attachments, |messages|)
      && ReceiptsRefer(receipts, messages, participants)
    }

    /** No receipt is unread. Every operation keeps this, so every unread count is 0. */
    ghost predicate NoUnreadReceipts()
      reads this`receipts
    {
      forall key | key in receipts :: receipts[key].isRead
    }

    constructor (users: map<UserId, UserRow>, hub: Broadcaster)
      ensures Valid() && NoUnreadReceipts()
      ensures this.users == users && this.hub == hub
      ensures conversations == map[] && participants == {} && messages == [] && receipts == map[]
    {
      this.users := users;
      this.hub := hub;
      conversations := map[];
      participants := {};
      messages := [];
      attachments := [];
      receipts := map[];
      clock := 0;
    }

    /** Time passes. */
    method Tick()
      requires Valid()
      modifies this`clock
      ensures Valid() && clock == old(clock) + 1
    {
      clock := clock + 1;
    }

    // -------------------------------------------------------------------
    // Queries
    // -------------------------------------------------------------------

    /** The conversations `u` takes part in. */
    function ConversationsOf(u: UserId): set<ConvId>
      reads this`participants
    {
      set p | p in participants && p.1 == u :: p.0
    }

    /** The participants of `c` other than `u` (the fan-out query of lines 377-382). */
    function OthersIn(c: ConvId, u: UserId): set<UserId>
      reads this`participants
    {
      set p | p in participants && p.0 == c && p.1 != u :: p.1
    }

    function ParticipantsOf(c: ConvId): set<UserId>
      reads this`participants
    {
      set p | p in participants && p.0 == c :: p.1
    }

    /** The ids of the messages of `c` among the first `n`, newest first. */
    function NewestFirst(c: ConvId, n: nat): (r: seq<MessageId>)
      requires n <= |messages|
      reads this`messages
      ensures forall i :: 0 <= i < |r| ==> 1 <= r[i] <= n && messages[r[i] - 1].conv == c
      ensures forall i, j :: 0 <= i < j < |r| ==> r[i] > r[j]
      ensures forall id :: 1 <= id <= n && messages[id - 1].conv == c ==> id in r
    {
      if n == 0 then []
      else (if messages[n - 1].conv == c then [n] else []) + NewestFirst(c, n - 1)
    }

    /** The contents of the messages of `c`, oldest first. */
    function ContentsIn(c: ConvId, n: nat): (r: seq<string>)
      requires n <= |messages|
      reads this`messages
      ensures forall s :: s in r <==> exists i :: 0 <= i < n && messages[i].conv == c && messages[i].content == s
    {
      if n == 0 then []
      else ContentsIn(c, n - 1) + (if messages[n - 1].conv == c then [messages[n - 1].content] else [])
    }

    function View(id: MessageId): (v: MessageView)
      requires 1 <= id <= |messages| && messages[id - 1].sender in users
      reads this`messages, this`attachments
      ensures v.id == id && v.content == messages[id - 1].content && v.sender == messages[id - 1].sender
      ensures v.conversation == messages[id - 1].conv && v.createdAt == messages[id - 1].createdAt
    {
      var m := messages[id - 1];
      MessageView(id, m.conv, m.sender, m.content, m.createdAt,
                  users[m.sender].name, users[m.sender].avatar, AttachmentsOf(attachments, id))
    }

    function ReadFlag(id: MessageId, u: UserId): Option<bool>
      reads this`receipts
    {
      if (id, u) in receipts then Some(receipts[(id, u)].isRead) else None
    }

    /** The caller's unread receipts for messages of `c`. */
    function UnreadKeys(c: ConvId, u: UserId): set<(MessageId, UserId)>
      reads this`receipts, this`messages
    {
      set key | key in receipts && key.1 == u && 1 <= key.0 <= |messages|
                && messages[key.0 - 1].conv == c && !receipts[key].isRead
    }

    /** All of the caller's unread receipts. */
    function AllUnreadKeys(u: UserId): set<(MessageId, UserId)>
      reads this`receipts
    {
      set key | key in receipts && key.1 == u && !receipts[key].isRead
    }

    /** The aggregate row of GET /conversations for `c` (lines 90-109). */
    /** MAX(m.created_at) over the first `n` messages of `c`. */
    function LatestTime(c: ConvId, n: nat): (t: Option<nat>)
      requires n <= |messages|
      reads this`messages
      ensures t.None? <==> forall i :: 0 <= i < n ==> messages[i].conv != c
      ensures t.Some? ==> exists i :: 0 <= i < n && messages[i].conv == c && messages[i].createdAt == t.value
      ensures t.Some? ==> forall i :: 0 <= i < n && messages[i].conv == c ==> messages[i].createdAt <= t.value
    {
      if n == 0 then None
      else
        var rest := LatestTime(c, n - 1);
        if messages[n - 1].conv != c then rest
        else if rest.Some? && rest.value >= messages[n - 1].createdAt then rest
        else Some(messages[n - 1].createdAt)
    }

    /** The aggregate row of GET /conversations for `c` (lines 90-109). */
    function Row(c: ConvId, caller: UserId): (row: ConversationRow)
      requires caller in users && c in conversations
      reads this`conversations, this`messages, this`receipts
      ensures row.id == c && row.participantIds == [caller]
    {
      var contents := ContentsIn(c, |messages|);
      ConversationRow(
        c, conversations[c].name, conversations[c].isGroup,
        LatestTime(c, |messages|),
        if contents == [] then "" else Greatest(contents),
        |UnreadKeys(c, caller)|,
        // the WHERE keeps only the caller's participant row, so the joined users are the caller alone
        [caller], [users[caller].name])
    }

    /**
     * A row summarises its conversation: the time of its newest message (none
     * without messages), a preview that is the content of one of its messages
     * and sorts after all the others, and the caller's unread receipts.
     */
    lemma RowSummarises(c: ConvId, caller: UserId)
      requires caller in users && c in conversations
      ensures var row := Row(c, caller);
        && (row.lastMessageTime.None? <==> forall i :: 0 <= i < |messages| ==> messages[i].conv != c)
        && (row.lastMessageTime.Some? ==> forall i :: 0 <= i < |messages| && messages[i].conv == c ==>
              messages[i].createdAt <= row.lastMessageTime.value)
        && (row.lastMessageTime.None? ==> row.lastMessage == "")
        && (row.lastMessageTime.Some? ==> exists i :: 0 <= i < |messages| && messages[i].conv == c && messages[i].content == row.lastMessage)
        && (forall i :: 0 <= i < |messages| && messages[i].conv == c ==> LexLe(messages[i].content, row.lastMessage))
        && row.unreadCount == |UnreadKeys(c, caller)|
    {
      var contents := ContentsIn(c, |messages|);
      var row := Row(c, caller);
      if row.lastMessageTime.Some? {
        var i :| 0 <= i < |messages| && messages[i].conv == c;
        assert messages[i].content in contents;
      }
      if contents != [] {
        var g := Greatest(contents);
        assert g in contents;
        forall i | 0 <= i < |messages| && messages[i].conv == c
          ensures LexLe(messages[i].content, g)
        {
          assert messages[i].content in contents;
          var k :| 0 <= k < |contents| && contents[k] == messages[i].content;
        }
      }
    }

    /** The users the list query joins for `c`: those of the caller's own participant row. */
    function JoinedUsers(c: ConvId, caller: UserId): set<UserId>
      reads this`participants
    {
      set p | p in participants && p.0 == c && p.1 == caller :: p.1
    }

    lemma JoinedUsersAreTheCaller(c: ConvId, caller: UserId)
      requires (c, caller) in participants
      ensures JoinedUsers(c, caller) == {caller}
    {
    }

    /**
     * Lines 48-58: a non-group conversation holding both users, grouped by
     * conversation and kept when COUNT(DISTINCT cp1.user_id) = 2. The cp1
     * rows are pinned to the first user.
     */
    function ReuseLookup(a: UserId, b: UserId): set<ConvId>
      reads this`conversations, this`participants
    {
      set c | c in conversations && !conversations[c].isGroup
              && (c, a) in participants && (c, b) in participants
              && |set p | p in participants && p.0 == c && p.1 == a :: p.1| == 2
    }

    /** The lookup never finds a conversation to reuse. */
    lemma ReuseNeverMatches(a: UserId, b: UserId)
      ensures ReuseLookup(a, b) == {}
    {
      forall c | c in conversations
        ensures |set p | p in participants && p.0 == c && p.1 == a :: p.1| <= 1
      {
        var s := set p | p in participants && p.0 == c && p.1 == a :: p.1;
        assert s <= {a};
        if s != {} { assert s == {a}; }
      }
    }

    /** Lines 278-287: the participants' names with their spaces made underscores, in participant order. */
    function DefaultNames(all: seq<UserId>): (r: seq<string>)
      requires forall u :: u in all ==> u in users
      ensures |r| == |all|
    {
      seq(|all|, i requires 0 <= i < |all| => Join(Split(users[all[i]].name, " "), "_"))
    }

    /** The text stored in `conversations.name`: the supplied name, or `JSON.stringify` of the default names. */
    function NameText(all: seq<UserId>, name: Option<string>): string
      requires forall u :: u in all ==> u in users
    {
      if name.None? || Trim(name.value) == "" then JsonList(DefaultNames(all)) else Trim(name.value)
    }

    /** The stored name as the listing reads it back. */
    function GroupName(all: seq<UserId>, name: Option<string>): (r: StoredName)
      requires forall u :: u in all ==> u in users
      ensures name.Some? && Trim(name.value) != "" ==> r == ReadName(Trim(name.value))
    {
      if name.None? || Trim(name.value) == "" then NameList(DefaultNames(all))
      else ReadName(Trim(name.value))
    }

    /**
     * A supplied name that is itself the JSON text of a list of names is
     * read back as that list, like the default name, so the listing drops
     * the caller from it and joins the rest with " and ".
     */
    lemma SuppliedListReadsAsList(all: seq<UserId>, names: seq<string>)
      requires forall u :: u in all ==> u in users
      requires forall i :: 0 <= i < |names| ==> Unescaped(names[i])
      ensures GroupName(all, Some(JsonList(names))) == NameList(names)
    {
      var t := JsonList(names);
      assert !IsSpace(t[0]) && !IsSpace(t[|t| - 1]);
      assert TrimStart(t) == t && TrimEnd(t) == t;
      JsonListRoundTrip(names);
    }

    /** The default name, once stored, is read back as the list it encodes. */
    lemma DefaultNameReadsBack(all: seq<UserId>)
      requires forall u :: u in all ==> u in users
      requires forall i :: 0 <= i < |all| ==> Unescaped(DefaultNames(all)[i])
      ensures ReadName(NameText(all, None)) == GroupName(all, None)
    {
      JsonListRoundTrip(DefaultNames(all));
    }

    /** `SELECT id, name FROM users WHERE id IN (...) AND is_active = TRUE` */
    function ActiveAmong(all: seq<UserId>): set<UserId> {
      set u | u in all && u in users && users[u].isActive
    }

    predicate AllActive(all: seq<UserId>)
    {
      forall u :: u in all ==> u in users && users[u].isActive
    }

    // -------------------------------------------------------------------
    // Routes
    // -------------------------------------------------------------------

    /** GET /conversations (lines 83-159). */
    method ListConversations(caller: UserId, limitParam: int, offsetParam: int)
      returns (r: Response<seq<ConversationEntry>>)
      requires Valid() && caller in users
      ensures r.Ok? || r.ServerError?
      ensures r.ServerError? <==> OrDefault(limitParam, 20) < 0 || OrDefault(offsetParam, 0) < 0
      ensures r.Ok? ==>
        |r.value| == PageLength(|ConversationsOf(caller)|, OrDefault(offsetParam, 0) as nat, OrDefault(limitParam, 20) as nat)
      ensures r.Ok? ==> forall i :: 0 <= i < |r.value| ==>
        && r.value[i].id in ConversationsOf(caller) && r.value[i].id in conversations
        && r.value[i] == FormatConversation(Row(r.value[i].id, caller), caller, users[caller].name)
      ensures r.Ok? ==> forall i, j :: 0 <= i < j < |r.value| ==>
        && r.value[i].id != r.value[j].id
        && Rank(r.value[i].lastMessageTime) >= Rank(r.value[j].lastMessageTime)
      ensures r.Ok? ==> forall i :: 0 <= i < |r.value| ==> r.value[i].Group? && r.value[i].participants == []
    {
      var limit := OrDefault(limitParam, 20);
      var offset := OrDefault(offsetParam, 0);
      if limit < 0 || offset < 0 {
        return ServerError;
      }
      var ids := Enumerate(ConversationsOf(caller));
      OwnConversationsExist(caller);
      var rows := RowsOf(ids, caller);
      var sorted := SortByRecency(rows);
      SortedRowsKeepIdentity(caller, rows, sorted);
      var entries := ListPage(sorted, caller, users[caller].name, offset, limit);
      EntriesAreFormattedRows(caller, sorted, offset, entries);
      r := Ok(entries);
    }

    lemma EntriesAreFormattedRows(caller: UserId, sorted: seq<ConversationRow>, offset: nat, entries: seq<ConversationEntry>)
      requires caller in users
      requires forall i :: 0 <= i < |sorted| ==>
        && sorted[i].id in ConversationsOf(caller) && sorted[i].id in conversations
        && sorted[i] == Row(sorted[i].id, caller)
      requires forall i :: 0 <= i < |entries| ==>
        offset + i < |sorted| && entries[i] == FormatConversation(sorted[offset + i], caller, users[caller].name)
      ensures forall i :: 0 <= i < |entries| ==>
        && entries[i].id in ConversationsOf(caller) && entries[i].id in conversations
        && entries[i] == FormatConversation(Row(entries[i].id, caller), caller, users[caller].name)
    {
      forall i | 0 <= i < |entries|
        ensures entries[i].id in ConversationsOf(caller) && entries[i].id in conversations
        ensures entries[i] == FormatConversation(Row(entries[i].id, caller), caller, users[caller].name)
      {
        var row := sorted[offset + i];
        assert row == Row(row.id, caller);
      }
    }

    lemma OwnConversationsExist(caller: UserId)
      requires Valid()
      ensures forall c :: c in ConversationsOf(caller) ==> c in conversations
    {
      forall c | c in ConversationsOf(caller) ensures c in conversations {
        var p :| p in participants && p.1 == caller && p.0 == c;
      }
    }

    function RowsOf(ids: seq<ConvId>, caller: UserId): (rows: seq<ConversationRow>)
      requires caller in users && forall c :: c in ids ==> c in conversations
      reads this`conversations, this`messages, this`receipts
      ensures |rows| == |ids|
      ensures forall i :: 0 <= i < |ids| ==> rows[i] == Row(ids[i], caller) && rows[i].id == ids[i]
    {
      if ids == [] then [] else [Row(ids[0], caller)] + RowsOf(ids[1..], caller)
    }

    /** Sorting permutes the rows, so every sorted row is still the row of its conversation, and ids stay distinct. */
    lemma SortedRowsKeepIdentity(caller: UserId, rows: seq<ConversationRow>, sorted: seq<ConversationRow>)
      requires Valid() && caller in users
      requires forall i :: 0 <= i < |rows| ==>
        && rows[i].id in ConversationsOf(caller) && rows[i].id in conversations
        && rows[i] == Row(rows[i].id, caller)
      requires forall i, j :: 0 <= i < j < |rows| ==> rows[i].id != rows[j].id
      requires multiset(sorted) == multiset(rows)
      ensures forall i :: 0 <= i < |sorted| ==>
        && sorted[i].id in ConversationsOf(caller) && sorted[i].id in conversations
        && sorted[i] == Row(sorted[i].id, caller)
      ensures forall i, j :: 0 <= i < j < |sorted| ==> sorted[i].id != sorted[j].id
      ensures forall i :: 0 <= i < |sorted| ==> sorted[i].participantIds == [caller]
    {
      DistinctRows(rows);
      NoDupFromMultiset(rows, sorted);
      forall i | 0 <= i < |sorted|
        ensures sorted[i] in rows
      {
        assert sorted[i] in multiset(sorted);
      }
    }

    /** Rows of distinct conversations are distinct values. */
    lemma DistinctRows(rows: seq<ConversationRow>)
      requires forall i, j :: 0 <= i < j < |rows| ==> rows[i].id != rows[j].id
      ensures NoDup(rows)
    {
    }

    /**
     * GET /conversations/:conversationId (lines 161-249): 403 for a caller
     * who does not take part, whatever the query; then 500 when the limit
     * or offset is negative, which `LIMIT ? OFFSET ?` refuses; otherwise
     * the page, which becomes read for the caller.
     */
    method FetchConversation(caller: UserId, c: ConvId, limitParam: int, offsetParam: int)
      returns (r: Response<Thread>)
      requires Valid() && caller in users
      modifies this`receipts
      ensures Valid()
      ensures old(NoUnreadReceipts()) ==> NoUnreadReceipts()
      ensures r.Ok? || r.Forbidden? || r.ServerError?
      ensures r.Forbidden? <==> (c, caller) !in participants
      ensures r.ServerError? <==> (c, caller) in participants && (OrDefault(limitParam, 50) < 0 || OrDefault(offsetParam, 0) < 0)
      ensures r.Ok? ==>
        r.value == old(ThreadOf(c, caller, OrDefault(offsetParam, 0) as nat, OrDefault(limitParam, 50) as nat))
        && receipts == old(receipts) + ReadAt(PageKeys(PageIds(c, OrDefault(offsetParam, 0) as nat, OrDefault(limitParam, 50) as nat), caller), clock)
      ensures !r.Ok? ==> receipts == old(receipts)
    {
      if (c, caller) !in participants {
        return Forbidden;
      }
      var limit := OrDefault(limitParam, 50);
      var offset := OrDefault(offsetParam, 0);
      if limit < 0 || offset < 0 {
        return ServerError;
      }
      var thread := ReadPage(caller, c, offset as nat, limit as nat);
      r := Ok(thread);
    }

    /** Lines 187-222 for a participant: the page as it was, then marked read for the caller. */
    method ReadPage(caller: UserId, c: ConvId, offset: nat, limit: nat) returns (thread: Thread)
      requires Valid() && (c, caller) in participants
      modifies this`receipts
      ensures Valid()
      ensures old(NoUnreadReceipts()) ==> NoUnreadReceipts()
      ensures thread == old(ThreadOf(c, caller, offset, limit))
      ensures receipts == old(receipts) + ReadAt(PageKeys(PageIds(c, offset, limit), caller), clock)
    {
      assert c in conversations;
      thread := ThreadOf(c, caller, offset, limit);
      var ids := PageIds(c, offset, limit);
      MarkPageRead(caller, ids);
    }

    /** The ids of the requested page, newest first (ORDER BY ... DESC LIMIT ? OFFSET ?). */
    function PageIds(c: ConvId, offset: nat, limit: nat): (ids: seq<MessageId>)
      reads this`messages
      ensures forall i :: 0 <= i < |ids| ==> 1 <= ids[i] <= |messages| && messages[ids[i] - 1].conv == c
      ensures forall i, j :: 0 <= i < j < |ids| ==> ids[i] > ids[j]
      ensures |ids| == PageLength(|NewestFirst(c, |messages|)|, offset, limit)
    {
      var all := NewestFirst(c, |messages|);
      SliceOfConversation(c, all, offset, limit);
      Slice(all, offset, limit)
    }

    /** A window of a newest-first list of the ids of `c` is one too. */
    lemma SliceOfConversation(c: ConvId, all: seq<MessageId>, offset: nat, limit: nat)
      requires forall i :: 0 <= i < |all| ==> 1 <= all[i] <= |messages| && messages[all[i] - 1].conv == c
      requires forall i, j :: 0 <= i < j < |all| ==> all[i] > all[j]
      ensures forall i :: 0 <= i < |Slice(all, offset, limit)| ==>
        1 <= Slice(all, offset, limit)[i] <= |messages| && messages[Slice(all, offset, limit)[i] - 1].conv == c
      ensures forall i, j :: 0 <= i < j < |Slice(all, offset, limit)| ==> Slice(all, offset, limit)[i] > Slice(all, offset, limit)[j]
    {
      var page := Slice(all, offset, limit);
      forall i | 0 <= i < |page| ensures 1 <= page[i] <= |messages| && messages[page[i] - 1].conv == c {
        assert page[i] == all[offset + i];
      }
      forall i, j | 0 <= i < j < |page| ensures page[i] > page[j] {
        assert page[i] == all[offset + i] && page[j] == all[offset + j];
      }
    }

    /**
     * The response of GET /conversations/:conversationId: the page with the
     * caller's read flags as they were before the page was marked read, and
     * the participants only for a group.
     */
    function ThreadOf(c: ConvId, caller: UserId, offset: nat, limit: nat): (t: Thread)
      requires Valid() && c in conversations
      reads this
      ensures |t.messages| == |PageIds(c, offset, limit)|
      ensures forall i :: 0 <= i < |t.messages| ==>
        var id := PageIds(c, offset, limit)[i];
        t.messages[i] == PageItem(View(id), ReadFlag(id, caller))
      ensures t.id == c && t.isGroup == conversations[c].isGroup && t.name == conversations[c].name
      ensures t.participants == if conversations[c].isGroup then ParticipantsOf(c) else {}
    {
      var ids := PageIds(c, offset, limit);
      PageSendersAreUsers(ids);
      var conv := conversations[c];
      Thread(PageOf(ids, caller), c, conv.name, conv.isGroup, if conv.isGroup then ParticipantsOf(c) else {})
    }

    lemma PageSendersAreUsers(ids: seq<MessageId>)
      requires Valid()
      requires forall i :: 0 <= i < |ids| ==> 1 <= ids[i] <= |messages|
      ensures forall i :: 0 <= i < |ids| ==> messages[ids[i] - 1].sender in users
    {
      forall i | 0 <= i < |ids| ensures messages[ids[i] - 1].sender in users {
        var m := messages[ids[i] - 1];
        assert (m.conv, m.sender) in participants;
      }
    }

    /** The rows of the messages query (lines 187-211) for the given page of ids. */
    function PageOf(ids: seq<MessageId>, caller: UserId): (items: seq<PageItem>)
      requires forall i :: 0 <= i < |ids| ==> 1 <= ids[i] <= |messages| && messages[ids[i] - 1].sender in users
      reads this`messages, this`attachments, this`receipts
      ensures |items| == |ids|
      ensures forall i :: 0 <= i < |ids| ==> items[i] == PageItem(View(ids[i]), ReadFlag(ids[i], caller))
    {
      if ids == [] then [] else [PageItem(View(ids[0]), ReadFlag(ids[0], caller))] + PageOf(ids[1..], caller)
    }

    /** Lines 213-222: one INSERT ... SELECT ... ON DUPLICATE KEY UPDATE marking the page read for the caller. */
    method MarkPageRead(caller: UserId, ids: seq<MessageId>)
      requires Valid()
      requires forall id :: id in ids ==> 1 <= id <= |messages| && (messages[id - 1].conv, caller) in participants
      modifies this`receipts
      ensures Valid()
      ensures old(NoUnreadReceipts()) ==> NoUnreadReceipts()
      ensures receipts == old(receipts) + ReadAt(PageKeys(ids, caller), clock)
    {
      ReadKeepsReceiptsValid(receipts, messages, participants, ids, caller, clock);
      receipts := receipts + ReadAt(PageKeys(ids, caller), clock);
    }

    /** Newest first by id is newest first by creation time: ORDER BY m.created_at DESC. */
    lemma NewestFirstIsLatestFirst(c: ConvId)
      requires Valid()
      ensures var ids := NewestFirst(c, |messages|);
        forall i, j :: 0 <= i < j < |ids| ==> messages[ids[i] - 1].createdAt >= messages[ids[j] - 1].createdAt
    {
    }

    /**
     * The outcome of POST /conversations (lines 251-313) in the current
     * state: the caller joins the de-duplicated participants; 400 without
     * participants, 404 unless all are active users, 500 when the drawn uuid
     * is taken or the name is too long for its column, else 201 with the
     * new conversation.
     */
    function CreateOutcome(caller: UserId, participantIds: seq<UserId>, isGroup: bool,
                           name: Option<string>, freshId: ConvId): (r: Response<CreatedConversation>)
      requires caller in users
      reads this`conversations
      ensures r.Created? || r.BadRequest? || r.NotFound? || r.ServerError?
      ensures r.BadRequest? <==> participantIds == []
      ensures participantIds != [] ==> (r.NotFound? <==> !AllActive(Dedup([caller] + participantIds)))
      ensures r.ServerError? <==>
        && participantIds != [] && AllActive(Dedup([caller] + participantIds))
        && (freshId in conversations || !Fits(NameText(Dedup([caller] + participantIds), name), TextWidth))
      ensures r.Created? ==>
        && r.value.id == freshId && r.value.isGroup == isGroup
        && r.value.participants == Dedup([caller] + participantIds)
        && r.value.participants[0] == caller && NoDup(r.value.participants)
        && (forall u :: u in r.value.participants <==> u == caller || u in participantIds)
        && r.value.name == GroupName(r.value.participants, name)
    {
      if participantIds == [] then BadRequest
      else
        var all := Dedup([caller] + participantIds);
        if !AllActive(all) then NotFound
        else if freshId in conversations || !Fits(NameText(all, name), TextWidth) then ServerError
        else Created(CreatedConversation(freshId, GroupName(all, name), isGroup, all))
    }

    /** A conversation created without a usable name stores its members' names with every space made an underscore. */
    lemma DefaultNameUnderscoresEverySpace(all: seq<UserId>, name: Option<string>)
      requires forall u :: u in all ==> u in users
      requires name.None? || Trim(name.value) == ""
      ensures GroupName(all, name) == NameList(seq(|all|, i requires 0 <= i < |all| => SpacesToUnderscores(users[all[i]].name)))
    {
      var listed := GroupName(all, name).names;
      var expected := seq(|all|, i requires 0 <= i < |all| => SpacesToUnderscores(users[all[i]].name));
      forall i | 0 <= i < |all| ensures listed[i] == expected[i] {
        SplitJoinReplacesAllSpaces(users[all[i]].name);
      }
    }

    /** POST /conversations with getOrCreateConversation (lines 46-81); `freshId` is the uuid v4 drawn. */
    method CreateConversation(caller: UserId, participantIds: seq<UserId>, isGroup: bool,
                              name: Option<string>, freshId: ConvId)
      returns (r: Response<CreatedConversation>)
      requires Valid() && caller in users
      modifies this`conversations, this`participants
      ensures Valid()
      ensures r == old(CreateOutcome(caller, participantIds, isGroup, name, freshId))
      ensures r.Created? ==>
        && conversations == old(conversations)[freshId := Conversation(r.value.name, isGroup, clock)]
        && participants == old(participants) + Membership(freshId, r.value.participants)
      ensures !r.Created? ==> conversations == old(conversations) && participants == old(participants)
    {
      if participantIds == [] {
        return BadRequest;
      }
      var all := Dedup([caller] + participantIds);
      // `allParticipants.length === 0` (line 268) cannot hold: the caller is always first.
      var found := ActiveAmong(all);
      ActiveCount(all);
      if |found| != |all| {
        return NotFound;
      }
      var groupName := GroupName(all, name);
      if !isGroup && |all| == 2 {
        var existing := ReuseLookup(all[0], all[1]);
        ReuseNeverMatches(all[0], all[1]);
        assert existing == {};
      }
      if freshId in conversations {
        return ServerError;   // duplicate primary key
      }
      if !Fits(NameText(all, name), TextWidth) {
        return ServerError;
      }
      Open(freshId, Conversation(groupName, isGroup, clock), all);
      r := Created(CreatedConversation(freshId, groupName, isGroup, all));
    }

    /** Lines 65-78: the conversation row under a fresh id and its participant rows. */
    method Open(c: ConvId, x: Conversation, all: seq<UserId>)
      requires Valid() && c !in conversations && NoDup(all) && forall u :: u in all ==> u in users
      modifies this`conversations, this`participants
      ensures Valid()
      ensures conversations == old(conversations)[c := x] && participants == old(participants) + Membership(c, all)
    {
      NewConversationKeepsIntegrity(participants, conversations, users, messages, receipts, clock, c, x, all);
      conversations := conversations[c := x];
      AddParticipants(c, all);
    }

    /** Lines 72-78: one conversation_participants row per member, in order. */
    method AddParticipants(c: ConvId, all: seq<UserId>)
      requires NoDup(all) && forall p | p in participants :: p.0 != c
      modifies this`participants
      ensures participants == old(participants) + Membership(c, all)
    {
      var k := 0;
      while k < |all|
        invariant 0 <= k <= |all|
        invariant participants == old(participants) + Membership(c, all[..k])
      {
        // the UNIQUE (conversation_id, user_id) key is never violated
        assert (c, all[k]) !in participants by {
          assert all[k] !in all[..k];
        }
        assert all[..k + 1] == all[..k] + [all[k]];
        participants := participants + {(c, all[k])};
        k := k + 1;
      }
      assert all[..k] == all;
    }

    /** For a list without duplicates, the count of active users found equals its length iff all are active. */
    lemma ActiveCount(all: seq<UserId>)
      requires NoDup(all)
      ensures |ActiveAmong(all)| == |all| <==> AllActive(all)
    {
      var found := ActiveAmong(all);
      var every := set u | u in all;
      DistinctCard(all);
      assert found <= every;
      if AllActive(all) {
        forall u | u in every ensures u in found { }
        assert found == every;
      } else {
        var w :| w in all && !(w in users && users[w].isActive);
        assert w in every - found;
        assert |every - found| >= 1;
        assert |every| == |found| + |every - found|;
      }
    }

    /** The arguments a message insert stores. */
    function ItemsOf(atts: AttachmentsParam): seq<AttachmentInput> {
      if atts.Items? then atts.items else []
    }

    /** POST /conversations/:conversationId/messages (lines 315-404). */
    method SendMessage(caller: UserId, c: ConvId, content: string, atts: AttachmentsParam)
      returns (r: Response<MessageView>, notified: seq<UserId>)
      requires Valid() && caller in users
      modifies this`messages, this`attachments, hub`outbox
      ensures Valid()
      ensures r.Created? || r.BadRequest? || r.Forbidden? || r.ServerError?
      ensures r.BadRequest? <==> |Trim(content)| > MaxContentLength || atts.NotArray?
      ensures r.Forbidden? <==> !r.BadRequest? && (c, caller) !in participants
      ensures r.BadRequest? || r.Forbidden? ==> messages == old(messages) && attachments == old(attachments)
      ensures !r.BadRequest? && !r.Forbidden? && MessageRowFits(Trim(content), ItemsOf(atts)) ==>
        messages == old(messages) + [Message(c, caller, Trim(content), ItemsOf(atts), clock)]
      ensures !MessageRowFits(Trim(content), ItemsOf(atts)) ==> messages == old(messages)
      ensures r.ServerError? <==>
        !r.BadRequest? && !r.Forbidden? && (!MessageRowFits(Trim(content), ItemsOf(atts)) || !AllAccepted(ItemsOf(atts)))
      ensures r.ServerError? ==> attachments == old(attachments)
      ensures r.Created? ==>
        && attachments == old(attachments) + AttachmentRowsFor(|messages|, ItemsOf(atts))
        && r.value == View(|messages|) && r.value.content == Trim(content)
        && NoDup(notified) && (forall u :: u in notified <==> u in OthersIn(c, caller))
        && hub.outbox == old(hub.outbox) + Fanout(hub.rooms, notified, NewMessage(r.value))
                                         + Fanout(hub.rooms, notified, UpdateConversations)
      ensures !r.Created? ==> notified == [] && hub.outbox == old(hub.outbox)
    {
      notified := [];
      var text := Trim(content);
      if |text| > MaxContentLength || atts.NotArray? {
        return BadRequest, [];
      }
      if (c, caller) !in participants {
        return Forbidden, [];
      }
      r, notified := Post(caller, c, text, ItemsOf(atts));
    }

    /**
     * Lines 340-404, past the guards: the message row, its attachments, the
     * view and the notices. A content or attachment text longer than its
     * TEXT column fails the first INSERT and nothing is stored; a rejected
     * attachment fails the second, and the message row stays.
     */
    method Post(caller: UserId, c: ConvId, text: string, items: seq<AttachmentInput>)
      returns (r: Response<MessageView>, notified: seq<UserId>)
      requires Valid() && (c, caller) in participants
      modifies this`messages, this`attachments, hub`outbox
      ensures Valid()
      ensures r.Created? || r.ServerError?
      ensures messages == if MessageRowFits(text, items) then old(messages) + [Message(c, caller, text, items, clock)]
                          else old(messages)
      ensures r.ServerError? <==> !MessageRowFits(text, items) || !AllAccepted(items)
      ensures r.ServerError? ==> attachments == old(attachments) && notified == [] && hub.outbox == old(hub.outbox)
      ensures r.Created? ==>
        && attachments == old(attachments) + AttachmentRowsFor(|messages|, items)
        && r.value == View(|messages|) && r.value.content == text
        && NoDup(notified) && (forall u :: u in notified <==> u in OthersIn(c, caller))
        && hub.outbox == old(hub.outbox) + Fanout(hub.rooms, notified, NewMessage(r.value))
                                         + Fanout(hub.rooms, notified, UpdateConversations)
    {
      if !MessageRowFits(text, items) {
        return ServerError, [];
      }
      StoreMessage(Message(c, caller, text, items, clock));
      var id := |messages|;
      if items != [] {
        if !AllAccepted(items) {
          return ServerError, [];   // the message row stays
        }
        StoreAttachments(id, items);
      }
      var view := View(id);
      notified := Notify(c, caller, view);
      r := Created(view);
    }

    /** Lines 340-345: the message row, stamped with NOW(). */
    method StoreMessage(m: Message)
      requires Valid() && (m.conv, m.sender) in participants && m.createdAt == clock
      modifies this`messages
      ensures Valid() && messages == old(messages) + [m]
    {
      NewMessageKeepsIntegrity(messages, participants, clock, attachments, receipts, m);
      messages := messages + [m];
    }

    /** Lines 348-355: one message_attachments row per item of the newest message. */
    method StoreAttachments(id: MessageId, items: seq<AttachmentInput>)
      requires Valid() && id == |messages| && 1 <= id && AllAccepted(items)
      modifies this`attachments
      ensures Valid() && attachments == old(attachments) + AttachmentRowsFor(id, items)
    {
      AttachmentRowsRefer(attachments, id, items);
      attachments := attachments + AttachmentRowsFor(id, items);
    }

    /** Lines 384-397: `new-message` to every other participant's room, then `update-conversations` to each. */
    method Notify(c: ConvId, sender: UserId, view: MessageView) returns (notified: seq<UserId>)
      modifies hub`outbox
      ensures NoDup(notified) && (forall u :: u in notified <==> u in OthersIn(c, sender))
      ensures hub.outbox == old(hub.outbox) + Fanout(hub.rooms, notified, NewMessage(view))
                                            + Fanout(hub.rooms, notified, UpdateConversations)
    {
      notified := Enumerate(OthersIn(c, sender));
      hub.EmitEach(notified, NewMessage(view));
      hub.EmitEach(notified, UpdateConversations);
    }

    /** POST /conversations/:conversationId/read (lines 406-429); no participation check. */
    method MarkRead(caller: UserId, c: ConvId) returns (r: Response<nat>)
      requires Valid()
      modifies this`receipts, hub`outbox
      ensures Valid()
      ensures old(NoUnreadReceipts()) ==> NoUnreadReceipts()
      ensures r == Ok(|old(UnreadKeys(c, caller))|)
      ensures receipts.Keys == old(receipts).Keys
      ensures forall key :: key in receipts ==>
        receipts[key] == if key in old(UnreadKeys(c, caller)) then Receipt(true, Some(clock)) else old(receipts)[key]
      ensures UnreadKeys(c, caller) == {}
      ensures hub.outbox == old(hub.outbox) + [Emission(caller, RoomOf(hub.rooms, caller), UpdateUnreadCount)]
    {
      var keys := UnreadKeys(c, caller);
      MarkAllRead(caller, c);
      hub.EmitTo(caller, UpdateUnreadCount);
      r := Ok(|keys|);
    }

    /** `UPDATE message_recipients ... SET is_read = TRUE, read_at = NOW()` for the caller's unread receipts in `c`. */
    method MarkAllRead(caller: UserId, c: ConvId)
      requires Valid()
      modifies this`receipts
      ensures Valid()
      ensures old(NoUnreadReceipts()) ==> NoUnreadReceipts()
      ensures receipts.Keys == old(receipts).Keys
      ensures forall key :: key in receipts ==>
        receipts[key] == if key in old(UnreadKeys(c, caller)) then Receipt(true, Some(clock)) else old(receipts)[key]
      ensures UnreadKeys(c, caller) == {}
    {
      var keys := UnreadKeys(c, caller);
      receipts := map key | key in receipts :: if key in keys then Receipt(true, Some(clock)) else receipts[key];
    }

    /**
     * GET /unread/count (lines 431-448) against a `messages` table with the
     * given columns: the query filters on `m.deleted_at` and fails unless
     * that column exists.
     */
    function UnreadCountRoute(columns: set<string>, caller: UserId): (r: Response<nat>)
      reads this`receipts
      ensures r.Ok? || r.ServerError?
      ensures r.Ok? <==> "deleted_at" in columns
      ensures r.Ok? ==> r.value == |AllUnreadKeys(caller)|
    {
      if "deleted_at" in columns then Ok(|AllUnreadKeys(caller)|) else ServerError
    }

    /** As written the route always answers 500: `messages` has no `deleted_at`. */
    lemma UnreadCountAlwaysFails(caller: UserId)
      ensures UnreadCountRoute(MessageColumns, caller) == ServerError
    {
      MissingColumns();
    }

    /** The count the route evidently intends: the caller's unread receipts. */
    function IntendedUnreadCount(caller: UserId): (n: nat)
      reads this`receipts
      ensures n == |AllUnreadKeys(caller)|
      ensures NoUnreadReceipts() ==> n == 0
    {
      |AllUnreadKeys(caller)|
    }

    /** In every reachable state no conversation has an unread message. */
    lemma NoUnreadMeansZero(c: ConvId, u: UserId)
      requires NoUnreadReceipts()
      ensures |UnreadKeys(c, u)| == 0 && |AllUnreadKeys(u)| == 0
    {
      assert UnreadKeys(c, u) == {};
      assert AllUnreadKeys(u) == {};
    }

    function SumUnread(cs: seq<ConvId>, u: UserId): nat
      reads this`receipts, this`messages
    {
      if cs == [] then 0 else |UnreadKeys(cs[0], u)| + SumUnread(cs[1..], u)
    }

    function UnreadInAny(cs: seq<ConvId>, u: UserId): set<(MessageId, UserId)>
      reads this`receipts, this`messages
    {
      set key | key in AllUnreadKeys(u) && 1 <= key.0 <= |messages| && messages[key.0 - 1].conv in cs
    }

    lemma {:induction false} SumUnreadIsUnion(cs: seq<ConvId>, u: UserId)
      requires NoDup(cs)
      ensures SumUnread(cs, u) == |UnreadInAny(cs, u)|
      decreases |cs|
    {
      if cs == [] {
        assert UnreadInAny(cs, u) == {};
      } else {
        var rest := cs[1..];
        assert NoDup(rest);
        var head, tail := UnreadKeys(cs[0], u), UnreadInAny(rest, u);
        assert SumUnread(rest, u) == |tail| by {
          SumUnreadIsUnion(rest, u);
        }
        assert UnreadInAny(cs, u) == head + tail by {
          forall key | key in UnreadInAny(cs, u)
            ensures key in head + tail
          {
            assert messages[key.0 - 1].conv == cs[0] || messages[key.0 - 1].conv in rest;
          }
        }
        assert head !! tail by {
          assert cs[0] !in rest;
        }
        assert |head + tail| == |head| + |tail|;
      }
    }

    /**
     * The intended global count is the sum of the per-conversation counts
     * that GET /conversations reports, over all of the caller's conversations.
     */
    lemma UnreadTotalIsSumOverConversations(u: UserId, cs: seq<ConvId>)
      requires Valid()
      requires NoDup(cs) && forall c :: c in ConversationsOf(u) ==> c in cs
      ensures IntendedUnreadCount(u) == SumUnread(cs, u)
    {
      SumUnreadIsUnion(cs, u);
      forall key | key in AllUnreadKeys(u)
        ensures key in UnreadInAny(cs, u)
      {
        var c := messages[key.0 - 1].conv;
        assert (c, u) in participants;
        assert c in ConversationsOf(u);
      }
      assert AllUnreadKeys(u) == UnreadInAny(cs, u);
    }
  }
}
