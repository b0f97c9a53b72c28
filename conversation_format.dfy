/**
 * The conversation list as GET /api/messages/conversations builds it: one
 * aggregated row per conversation, ordered by the time of its newest
 * message, then turned into the entries the client renders
 * (backend/routes/messages.js, lines 83-159).
 */
module ConversationFormat {
  import opened Common
  import opened Schema

  /** A conversation's uuid v4; only equality between ids matters, so a number stands for the text. */
  type ConvId = nat

  /**
   * `conversations.name` as the listing reads it. POST /conversations
   * stores either the trimmed name the client supplied or, when none was
   * supplied, the JSON array of the participants' names with spaces turned
   * into underscores; the listing runs JSON.parse on it (line 123).
   */
  datatype StoredName =
    | NullName
    | Plain(text: string)           // text `ParseJsonList` does not read as an array
    | NameList(names: seq<string>)  // the JSON text of an array of strings

  /**
   * How the listing reads a stored text: an array of names, or the text
   * itself (a NULL column is `NullName`).
   */
  function ReadName(t: string): (r: StoredName)
    ensures r.NameList? <==> ParseJsonList(t).Some?
    ensures r.Plain? ==> r.text == t
  {
    match ParseJsonList(t)
    case Some(names) => NameList(names)
    case None => Plain(t)
  }

  /** One row of the aggregate query (lines 90-109). */
  datatype ConversationRow = ConversationRow(
    id: ConvId,
    name: StoredName,
    isGroup: bool,
    lastMessageTime: Option<nat>,   // MAX(m.created_at), NULL without messages
    lastMessage: string,            // COALESCE(MAX(m.content), '')
    unreadCount: nat,               // COUNT(DISTINCT mr.id)
    participantIds: seq<UserId>,    // GROUP_CONCAT(DISTINCT u.id), split on ','
    participantNames: seq<string>)  // GROUP_CONCAT(DISTINCT u.name), split on ','

  datatype OtherParticipant = OtherParticipant(id: JsId, name: Option<string>)

  /** The two shapes of an entry in the response (lines 131-151). */
  datatype ConversationEntry =
    | Direct(id: ConvId, otherUserId: JsId, otherUserName: Option<string>,
             lastMessage: string, lastMessageTime: Option<nat>, unreadCount: nat)
    | Group(id: ConvId, name: string, lastMessage: string, lastMessageTime: Option<nat>,
            unreadCount: nat, participants: seq<OtherParticipant>)

  /** `participantIds.indexOf(id)` */
  function IndexIn(ids: seq<UserId>, id: UserId): (r: Option<nat>)
    ensures r.Some? ==> r.value < |ids| && ids[r.value] == id
    ensures r.Some? ==> forall j :: 0 <= j < r.value ==> ids[j] != id
    ensures r.None? <==> id !in ids
  {
    if ids == [] then None
    else if ids[0] == id then Some(0)
    else match IndexIn(ids[1..], id)
      case None => None
      case Some(k) => Some(k + 1)
  }

  /** `participantNames[participantIds.indexOf(id)]`, undefined past the end. */
  function NameOf(row: ConversationRow, id: UserId): Option<string> {
    match IndexIn(row.participantIds, id)
    case None => None
    case Some(k) => if k < |row.participantNames| then Some(row.participantNames[k]) else None
  }

  /** Lines 115-120: the split ids (strings) that are loosely unequal to the caller's numeric id. */
  function OthersFrom(row: ConversationRow, ids: seq<UserId>, userId: UserId): (r: seq<OtherParticipant>)
    ensures |r| <= |ids|
    ensures forall i :: 0 <= i < |r| ==> r[i].id.Text? && r[i].id.n != userId && r[i].id.n in ids
  {
    if ids == [] then []
    else
      var rest := OthersFrom(row, ids[1..], userId);
      if LooseEq(Text(ids[0]), Num(userId)) then rest
      else [OtherParticipant(Text(ids[0]), NameOf(row, ids[0]))] + rest
  }

  function OtherParticipants(row: ConversationRow, userId: UserId): seq<OtherParticipant> {
    OthersFrom(row, row.participantIds, userId)
  }

  /** `.filter(i => i != currentName)` over possibly-undefined names, then `.join(sep)` (undefined joins as ''). */
  function JoinNamesExcept(others: seq<OtherParticipant>, except: Option<string>, sep: string): string {
    var kept := Filter(others, (p: OtherParticipant) => except.None? || p.name != except);
    Join(seq(|kept|, i requires 0 <= i < |kept| => kept[i].name.GetOr("")), sep)
  }

  /** Lines 122-129: the display name. The current user's name has only its FIRST space replaced. */
  function DisplayName(row: ConversationRow, userId: UserId, currentName: string): string {
    var others := OtherParticipants(row, userId);
    match row.name
    case NameList(names) =>
      var me := ReplaceFirst(currentName, " ", "_");
      Join(Filter(names, (n: string) => n != me), " and ")
    case Plain(text) =>
      if text == "" then JoinNamesExcept(others, Some(currentName), " and ") else text
    case NullName =>
      JoinNamesExcept(others, Some(currentName), " and ")
  }

  /** One entry of the response. */
  function FormatConversation(row: ConversationRow, userId: UserId, currentName: string): (e: ConversationEntry)
    ensures e.id == row.id && e.lastMessage == row.lastMessage
    ensures e.lastMessageTime == row.lastMessageTime && e.unreadCount == row.unreadCount
    ensures e.Direct? <==> !row.isGroup && |OtherParticipants(row, userId)| == 1
    ensures e.Direct? ==> e.otherUserId == OtherParticipants(row, userId)[0].id
    ensures e.Group? ==> e.participants == OtherParticipants(row, userId)
    ensures e.Group? && DisplayName(row, userId, currentName) != "" ==> e.name == DisplayName(row, userId, currentName)
  {
    var others := OtherParticipants(row, userId);
    var name := DisplayName(row, userId, currentName);
    if !row.isGroup && |others| == 1 then
      Direct(row.id, others[0].id, others[0].name, row.lastMessage, row.lastMessageTime, row.unreadCount)
    else
      Group(row.id, if name != "" then name else JoinNamesExcept(others, None, ", "),
            row.lastMessage, row.lastMessageTime, row.unreadCount, others)
  }

  /**
   * The aggregate row of a conversation only ever carries the caller's own
   * id (the query's WHERE keeps only the caller's participant row), so no
   * entry of the list has other participants and none is direct: a direct
   * conversation is listed with `is_group: true` and the names from its
   * stored name.
   */
  lemma {:induction false} CallerOnlyRowIsGroup(row: ConversationRow, userId: UserId, currentName: string)
    requires row.participantIds == [userId]
    ensures OtherParticipants(row, userId) == []
    ensures FormatConversation(row, userId, currentName).Group?
    ensures FormatConversation(row, userId, currentName).participants == []
    ensures row.name.NameList? ==>
              FormatConversation(row, userId, currentName).name ==
              Join(Filter(row.name.names, (n: string) => n != ReplaceFirst(currentName, " ", "_")), " and ")
  {
    assert row.participantIds[1..] == [];
    var e := FormatConversation(row, userId, currentName);
    if row.name.NameList? {
      var d := DisplayName(row, userId, currentName);
      assert JoinNamesExcept([], None, ", ") == "";
      assert e.name == d;
    }
  }

  /**
   * A name with a second space is not the stored underscored form of itself,
   * so in a stored name list the caller's own name survives the filter.
   */
  lemma FirstSpaceOfExample()
    ensures IndexOf("Anna Maria Smith", " ") == Some(4)
  {
    var s := "Anna Maria Smith";
    assert s[4..5] == [s[4]] == " ";
    assert IndexOfFrom(s, " ", 4) == Some(4);
    assert s[3..4] == [s[3]];
    assert IndexOfFrom(s, " ", 3) == Some(4);
    assert s[2..3] == [s[2]];
    assert IndexOfFrom(s, " ", 2) == Some(4);
    assert s[1..2] == [s[1]];
    assert IndexOfFrom(s, " ", 1) == Some(4);
    assert s[0..1] == [s[0]];
  }

  lemma SecondSpaceDefeatsSelfFilter()
    ensures ReplaceFirst("Anna Maria Smith", " ", "_") == "Anna_Maria Smith"
    ensures Filter(["Anna_Maria_Smith", "Bob"], (n: string) => n != ReplaceFirst("Anna Maria Smith", " ", "_"))
      == ["Anna_Maria_Smith", "Bob"]
  {
    FirstSpaceOfExample();
    var s := "Anna Maria Smith";
    var me := ReplaceFirst(s, " ", "_");
    assert me == s[..4] + "_" + s[5..];
    assert me == "Anna_Maria Smith";
    var names := ["Anna_Maria_Smith", "Bob"];
    assert names[1..][1..] == [];
  }

  // ---------------------------------------------------------------------
  // ORDER BY last_message_time DESC (NULL sorts last)
  // ---------------------------------------------------------------------

  function Rank(t: Option<nat>): int {
    if t.None? then -1 else t.value
  }

  predicate SortedByRecency(rows: seq<ConversationRow>) {
    forall i, j :: 0 <= i < j < |rows| ==> Rank(rows[i].lastMessageTime) >= Rank(rows[j].lastMessageTime)
  }

  lemma RanksBounded(rest: seq<ConversationRow>, rows: seq<ConversationRow>, x: ConversationRow, bound: int)
    requires multiset(rest) == multiset(rows) + multiset{x}
    requires forall k :: 0 <= k < |rows| ==> Rank(rows[k].lastMessageTime) <= bound
    requires Rank(x.lastMessageTime) <= bound
    ensures forall k :: 0 <= k < |rest| ==> Rank(rest[k].lastMessageTime) <= bound
  {
    forall k | 0 <= k < |rest| ensures Rank(rest[k].lastMessageTime) <= bound {
      assert rest[k] in multiset(rest);
      if rest[k] != x {
        assert rest[k] in multiset(rows);
        var j :| 0 <= j < |rows| && rows[j] == rest[k];
      }
    }
  }

  function InsertByRecency(x: ConversationRow, rows: seq<ConversationRow>): (r: seq<ConversationRow>)
    requires SortedByRecency(rows)
    ensures SortedByRecency(r)
    ensures multiset(r) == multiset(rows) + multiset{x}
    ensures |r| == |rows| + 1
  {
    if rows == [] then [x]
    else if Rank(rows[0].lastMessageTime) <= Rank(x.lastMessageTime) then [x] + rows
    else
      var rest := InsertByRecency(x, rows[1..]);
      assert rows == [rows[0]] + rows[1..];
      RanksBounded(rest, rows[1..], x, Rank(rows[0].lastMessageTime));
      [rows[0]] + rest
  }

  /** The rows in query order: newest last message first; the order of ties is the input order. */
  function SortByRecency(rows: seq<ConversationRow>): (r: seq<ConversationRow>)
    ensures SortedByRecency(r)
    ensures multiset(r) == multiset(rows)
    ensures |r| == |rows|
  {
    if rows == [] then []
    else
      assert rows == [rows[0]] + rows[1..];
      InsertByRecency(rows[0], SortByRecency(rows[1..]))
  }

  lemma SliceKeepsDistinctIds(rows: seq<ConversationRow>, offset: nat, limit: nat)
    requires forall i, j :: 0 <= i < j < |rows| ==> rows[i].id != rows[j].id
    ensures var page := Slice(rows, offset, limit);
      forall i, j :: 0 <= i < j < |page| ==> page[i].id != page[j].id
  {
    var page := Slice(rows, offset, limit);
    forall i, j | 0 <= i < j < |page|
      ensures page[i].id != page[j].id
    {
      assert page[i] == rows[offset + i] && page[j] == rows[offset + j];
    }
  }

  /**
   * The response of GET /conversations: the requested page of the sorted
   * rows, each formatted for the caller. With rows carrying only the
   * caller's id, every entry is a group entry without participants.
   */
  function ListPage(rows: seq<ConversationRow>, userId: UserId, currentName: string, offset: nat, limit: nat)
    : (r: seq<ConversationEntry>)
    requires SortedByRecency(rows)
    requires forall i, j :: 0 <= i < j < |rows| ==> rows[i].id != rows[j].id
    requires forall i :: 0 <= i < |rows| ==> rows[i].participantIds == [userId]
    ensures |r| == PageLength(|rows|, offset, limit)
    ensures forall i :: 0 <= i < |r| ==>
      offset + i < |rows| && r[i] == FormatConversation(rows[offset + i], userId, currentName)
    ensures forall i, j :: 0 <= i < j < |r| ==>
      && r[i].id != r[j].id
      && Rank(r[i].lastMessageTime) >= Rank(r[j].lastMessageTime)
    ensures forall i :: 0 <= i < |r| ==> r[i].Group? && r[i].participants == []
  {
    var page := Slice(rows, offset, limit);
    SliceKeepsDistinctIds(rows, offset, limit);
    var r := seq(|page|, i requires 0 <= i < |page| => FormatConversation(page[i], userId, currentName));
    assert forall i :: 0 <= i < |r| ==> r[i].Group? && r[i].participants == [] by {
      forall i | 0 <= i < |r| ensures r[i].Group? && r[i].participants == [] {
        CallerOnlyRowIsGroup(page[i], userId, currentName);
      }
    }
    r
  }

  /** `parseInt(param) || default`: NaN and 0 both fall back to the default. */
  function OrDefault(param: int, default: nat): int {
    if param == 0 then default else param
  }
}
