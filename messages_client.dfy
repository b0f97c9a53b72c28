/**
 * The chat page of frontend/src/comps/Messages.jsx: the conversation list
 * and the open thread as socket messages, page loads and sends change
 * them, the initials and colour of a conversation's icon, the selection of
 * users for a new group, and reuse of a local direct conversation.
 *
 * Conversation ids are the uuid texts of `conversations.id`; as in the
 * server model a number stands for each uuid, and `===` between two of
 * them is equality.
 */
module MessagesClient {
  import opened Common
  import opened Schema
  import opened ConversationFormat
  import Messaging
  import Compose

  // ---------------------------------------------------------------------
  // Incoming socket messages (lines 27-50)
  // ---------------------------------------------------------------------

  /** `newMessage.content || '[Attachment]'`: the list's preview of a message. */
  function Preview(content: string): (p: string)
    ensures p != ""
    ensures content != "" ==> p == content
  {
    if content == "" then "[Attachment]" else content
  }

  function Ids(list: seq<ConversationEntry>): (ids: seq<ConvId>)
    ensures |ids| == |list|
    ensures forall i :: 0 <= i < |list| ==> ids[i] == list[i].id
  {
    seq(|list|, i requires 0 <= i < |list| => list[i].id)
  }

  /** The open thread after a `new-message` event: the message joins it only when it belongs to the active conversation. */
  function ThreadAfterIncoming(active: Option<ConvId>, thread: seq<Messaging.MessageView>, m: Messaging.MessageView)
    : (r: seq<Messaging.MessageView>)
    ensures active == Some(m.conversation) ==> r == thread + [m]
    ensures active != Some(m.conversation) ==> r == thread
  {
    if active.Some? && active.value == m.conversation then thread + [m] else thread
  }

  /** An entry with its preview, its time and its unread count replaced; its shape and other fields are kept. */
  function Touched(e: ConversationEntry, last: string, time: Option<nat>, unread: nat): (r: ConversationEntry)
    ensures r.id == e.id && r.lastMessage == last && r.lastMessageTime == time && r.unreadCount == unread
    ensures r.Direct? == e.Direct?
  {
    match e
    case Direct(id, other, otherName, _, _, _) => Direct(id, other, otherName, last, time, unread)
    case Group(id, name, _, _, _, participants) => Group(id, name, last, time, unread, participants)
  }

  /** The `prev.map(...)` of lines 38-49 on one entry. */
  function Bumped(e: ConversationEntry, active: Option<ConvId>, m: Messaging.MessageView): ConversationEntry {
    if e.id != m.conversation then e
    else Touched(e, Preview(m.content), Some(m.createdAt), if active == Some(e.id) then 0 else e.unreadCount + 1)
  }

  /**
   * The list after a `new-message` event: the entry of the message's
   * conversation shows it as its last message at its time, and its unread
   * count is zeroed when it is open and grows by one otherwise; every other
   * entry is unchanged, and no entry is added for an unknown conversation.
   */
  function ListAfterIncoming(list: seq<ConversationEntry>, active: Option<ConvId>, m: Messaging.MessageView)
    : (r: seq<ConversationEntry>)
    ensures |r| == |list| && Ids(r) == Ids(list)
    ensures forall i :: 0 <= i < |list| && list[i].id != m.conversation ==> r[i] == list[i]
    ensures forall i :: 0 <= i < |list| && list[i].id == m.conversation ==>
      && r[i].lastMessage == Preview(m.content) && r[i].lastMessageTime == Some(m.createdAt)
      && r[i].unreadCount == (if active == Some(m.conversation) then 0 else list[i].unreadCount + 1)
      && r[i].Direct? == list[i].Direct?
    decreases |list|
  {
    if list == [] then [] else [Bumped(list[0], active, m)] + ListAfterIncoming(list[1..], active, m)
  }

  /** The unread counts of the list, summed. */
  function TotalUnread(list: seq<ConversationEntry>): nat
    decreases |list|
  {
    if list == [] then 0 else list[0].unreadCount + TotalUnread(list[1..])
  }

  /**
   * Putting a newly created conversation in front of the list keeps one
   * entry per conversation, and adds only its own unread count.
   */
  lemma CreatedHeadsList(e: ConversationEntry, list: seq<ConversationEntry>)
    requires NoDup(Ids(list)) && e.id !in Ids(list)
    ensures NoDup(Ids([e] + list)) && Ids([e] + list)[0] == e.id
    ensures TotalUnread([e] + list) == e.unreadCount + TotalUnread(list)
  {
    var ids := Ids([e] + list);
    assert ([e] + list)[1..] == list;
    forall i, j | 0 <= i < j < |ids| ensures ids[i] != ids[j] {
      assert ids[j] == Ids(list)[j - 1];
      if i > 0 {
        assert ids[i] == Ids(list)[i - 1];
      }
    }
  }

  /**
   * With one entry per conversation, a message for a conversation that is
   * not open adds exactly one to the unread total when the conversation is
   * listed, and nothing otherwise.
   */
  lemma {:induction false} IncomingAddsOneUnread(list: seq<ConversationEntry>, active: Option<ConvId>, m: Messaging.MessageView)
    requires NoDup(Ids(list)) && active != Some(m.conversation)
    ensures TotalUnread(ListAfterIncoming(list, active, m)) == TotalUnread(list) + (if m.conversation in Ids(list) then 1 else 0)
    decreases |list|
  {
    if list != [] {
      var rest := list[1..];
      assert Ids(rest) == Ids(list)[1..];
      assert NoDup(Ids(rest));
      IncomingAddsOneUnread(rest, active, m);
      assert ListAfterIncoming(list, active, m)[1..] == ListAfterIncoming(rest, active, m);
      if list[0].id == m.conversation {
        assert m.conversation !in Ids(rest) by {
          forall i | 0 <= i < |rest| ensures Ids(rest)[i] != m.conversation {
            assert Ids(list)[i + 1] != Ids(list)[0];
          }
        }
      } else {
        assert (m.conversation in Ids(list)) == (m.conversation in Ids(rest)) by {
          assert Ids(list) == [list[0].id] + Ids(rest);
        }
      }
    }
  }

  /** A message for the open conversation leaves that conversation with no unread messages. */
  lemma IncomingForOpenIsRead(list: seq<ConversationEntry>, m: Messaging.MessageView, i: nat)
    requires i < |list| && list[i].id == m.conversation
    ensures ListAfterIncoming(list, Some(m.conversation), m)[i].unreadCount == 0
  {
  }

  // ---------------------------------------------------------------------
  // Opening a conversation and sending (lines 187-263)
  // ---------------------------------------------------------------------

  /** The messages of a fetched page, in the server's order. */
  function Views(page: seq<Messaging.PageItem>): (r: seq<Messaging.MessageView>)
    ensures |r| == |page|
    ensures forall i :: 0 <= i < |page| ==> r[i] == page[i].message
  {
    seq(|page|, i requires 0 <= i < |page| => page[i].message)
  }

  /** The thread loadMessages shows: `parsedMessages.reverse()`. */
  function OpenedThread(page: seq<Messaging.PageItem>): (r: seq<Messaging.MessageView>)
    ensures |r| == |page|
  {
    Reverse(Views(page))
  }

  /** The server sends a page newest first (its ids descend); the thread shows it oldest first. */
  lemma OpenedThreadOldestFirst(page: seq<Messaging.PageItem>)
    requires forall i, j :: 0 <= i < j < |page| ==> page[i].message.id > page[j].message.id
    ensures var t := OpenedThread(page);
      forall i, j :: 0 <= i < j < |t| ==> t[i].id < t[j].id
  {
  }

  /** After the page is marked read (lines 205-211): the open conversation's unread count is zero, nothing else changes. */
  function ListAfterRead(list: seq<ConversationEntry>, id: ConvId): (r: seq<ConversationEntry>)
    ensures |r| == |list| && Ids(r) == Ids(list)
    ensures forall i :: 0 <= i < |list| && list[i].id != id ==> r[i] == list[i]
    ensures forall i :: 0 <= i < |list| && list[i].id == id ==>
      && r[i].unreadCount == 0 && r[i].lastMessage == list[i].lastMessage
      && r[i].lastMessageTime == list[i].lastMessageTime && r[i].Direct? == list[i].Direct?
  {
    seq(|list|, i requires 0 <= i < |list| => if list[i].id == id then Touched(list[i], list[i].lastMessage, list[i].lastMessageTime, 0) else list[i])
  }

  /** `if (!newMessage.trim() && attachments.length === 0) return;` */
  predicate CanSend(text: string, attachmentCount: nat) {
    Trim(text) != "" || attachmentCount > 0
  }

  /**
   * The list after a successful send (lines 248-259): the open
   * conversation shows the draft as typed (not trimmed) at the client's
   * clock, with no unread messages.
   */
  function ListAfterSend(list: seq<ConversationEntry>, id: ConvId, draft: string, now: nat): (r: seq<ConversationEntry>)
    ensures |r| == |list| && Ids(r) == Ids(list)
    ensures forall i :: 0 <= i < |list| && list[i].id != id ==> r[i] == list[i]
    ensures forall i :: 0 <= i < |list| && list[i].id == id ==>
      && r[i].lastMessage == Preview(draft) && r[i].lastMessageTime == Some(now)
      && r[i].unreadCount == 0 && r[i].Direct? == list[i].Direct?
  {
    seq(|list|, i requires 0 <= i < |list| =>
      if list[i].id == id then Touched(list[i], Preview(draft), Some(now), 0)
      else list[i])
  }

  /**
   * A blank draft with an attachment is sent; the server stores the
   * trimmed (empty) content, while the local preview shows the blanks.
   */
  lemma BlankDraftPreviewShowsBlanks()
    ensures CanSend("  ", 1)
    ensures Preview("  ") == "  " && Trim("  ") == ""
  {
    assert IsBlank("  ");
  }

  // ---------------------------------------------------------------------
  // The icon of a conversation (lines 141-169)
  // ---------------------------------------------------------------------

  /** The sum of the characters' codes. */
  function CodeSum(s: string): nat
    decreases |s|
  {
    if s == [] then 0 else s[0] as nat + CodeSum(s[1..])
  }

  /**
   * `id.split('').map(charCodeAt).reduce(+) % 10`: an index into the
   * palette of ten colours; `reduce` without a start value throws on an
   * empty id (None).
   */
  function ColorIndex(id: string): (r: Option<nat>)
    ensures r.Some? <==> id != ""
    ensures r.Some? ==> r.value < 10
  {
    if id == "" then None else Some(CodeSum(id) % 10)
  }

  lemma {:induction false} CodeSumAppend(a: string, b: string)
    ensures CodeSum(a + b) == CodeSum(a) + CodeSum(b)
    decreases |a|
  {
    if a == [] {
      assert a + b == b;
    } else {
      assert (a + b)[0] == a[0];
      assert (a + b)[1..] == a[1..] + b;
      CodeSumAppend(a[1..], b);
    }
  }

  /** The colour depends on the characters of the id, not on where they stand: rotating the id keeps it. */
  lemma ColorIgnoresRotation(a: string, b: string)
    ensures ColorIndex(a + b) == ColorIndex(b + a)
  {
    CodeSumAppend(a, b);
    CodeSumAppend(b, a);
  }

  /** The first index at or after `i` that holds white space, or the end. */
  function SpaceFrom(s: string, i: nat): (j: nat)
    requires i <= |s|
    ensures i <= j <= |s|
    ensures forall k :: i <= k < j ==> !IsSpace(s[k])
    ensures j < |s| ==> IsSpace(s[j])
    decreases |s| - i
  {
    if i == |s| || IsSpace(s[i]) then i else SpaceFrom(s, i + 1)
  }

  /** The first index at or after `i` that holds no white space, or the end. */
  function WordFrom(s: string, i: nat): (j: nat)
    requires i <= |s|
    ensures i <= j <= |s|
    ensures forall k :: i <= k < j ==> IsSpace(s[k])
    ensures j < |s| ==> !IsSpace(s[j])
    decreases |s| - i
  {
    if i == |s| || !IsSpace(s[i]) then i else WordFrom(s, i + 1)
  }

  predicate NoSpaceIn(s: string, a: int, b: int)
    requires 0 <= a <= b <= |s|
  {
    forall k :: a <= k < b ==> !IsSpace(s[k])
  }

  /** `w` is the longest prefix of `s` without white space. */
  predicate IsFirstWord(s: string, w: string) {
    |w| <= |s| && w == s[..|w|] && NoSpaceIn(s, 0, |w|) && (|w| < |s| ==> IsSpace(s[|w|]))
  }

  /** `w` is the longest suffix of `s` without white space. */
  predicate IsLastWord(s: string, w: string) {
    |w| <= |s| && w == s[|s| - |w|..] && NoSpaceIn(s, |s| - |w|, |s|) && (|w| < |s| ==> IsSpace(s[|s| - |w| - 1]))
  }

  /**
   * `s.split(/\s+/)`. SplitOnSpaceWords: the first word is the longest
   * prefix without white space and the last the longest such suffix;
   * there is one word exactly when the string holds no white space.
   */
  function SplitOnSpace(s: string): (words: seq<string>)
    ensures |words| >= 1
    decreases |s|
  {
    var j := SpaceFrom(s, 0);
    if j == |s| then [s]
    else [s[..j]] + SplitOnSpace(s[WordFrom(s, j + 1)..])
  }

  lemma SplitOnSpaceWords(s: string)
    ensures var words := SplitOnSpace(s);
      IsFirstWord(s, words[0]) && IsLastWord(s, words[|words| - 1]) && (|words| == 1 <==> NoSpaceIn(s, 0, |s|))
  {
    SplitFirstWord(s);
    SplitLastWord(s);
  }

  /** The first piece of the split is the first word; there is one piece exactly when there is no white space. */
  lemma SplitFirstWord(s: string)
    ensures IsFirstWord(s, SplitOnSpace(s)[0])
    ensures |SplitOnSpace(s)| == 1 <==> NoSpaceIn(s, 0, |s|)
  {
    var j := SpaceFrom(s, 0);
    if j == |s| {
      assert SplitOnSpace(s) == [s];
      SingleWord(s);
    } else {
      assert SplitOnSpace(s)[0] == s[..j] && |SplitOnSpace(s)| >= 2 by {
        assert SplitOnSpace(s) == [s[..j]] + SplitOnSpace(s[WordFrom(s, j + 1)..]);
      }
      FirstWordEndsAtSpace(s, j);
    }
  }

  /** The last piece of the split is the last word. */
  lemma {:induction false} SplitLastWord(s: string)
    ensures IsLastWord(s, SplitOnSpace(s)[|SplitOnSpace(s)| - 1])
    decreases |s|
  {
    var j := SpaceFrom(s, 0);
    if j == |s| {
      assert SplitOnSpace(s) == [s];
      SingleWord(s);
    } else {
      var k := WordFrom(s, j + 1);
      var rest := SplitOnSpace(s[k..]);
      var last := rest[|rest| - 1];
      assert SplitOnSpace(s)[|SplitOnSpace(s)| - 1] == last by {
        assert SplitOnSpace(s) == [s[..j]] + rest;
      }
      assert IsLastWord(s[k..], last) by {
        SplitLastWord(s[k..]);
      }
      assert 0 < k <= |s| && IsSpace(s[k - 1]) by {
        SpaceBeforeWord(s, j, k);
      }
      LastWordOfSuffix(s, k, last);
    }
  }

  /** A text without white space is its own first and last word. */
  lemma SingleWord(s: string)
    requires SpaceFrom(s, 0) == |s|
    ensures IsFirstWord(s, s) && IsLastWord(s, s) && NoSpaceIn(s, 0, |s|)
  {
    assert s[..|s|] == s && s[|s| - |s|..] == s;
  }

  /** The first white space ends the first word. */
  lemma FirstWordEndsAtSpace(s: string, j: nat)
    requires j == SpaceFrom(s, 0) && j < |s|
    ensures IsFirstWord(s, s[..j]) && !NoSpaceIn(s, 0, |s|)
  {
    assert IsSpace(s[j]);
  }

  /** The next word starts right after white space. */
  lemma SpaceBeforeWord(s: string, j: nat, k: nat)
    requires j < |s| && IsSpace(s[j]) && k == WordFrom(s, j + 1)
    ensures 0 < k <= |s| && IsSpace(s[k - 1])
  {
  }

  /** The last word of a suffix that starts right after white space is the last word of the whole. */
  lemma LastWordOfSuffix(s: string, k: nat, w: string)
    requires 0 < k <= |s| && IsSpace(s[k - 1]) && IsLastWord(s[k..], w)
    ensures IsLastWord(s, w)
  {
    var t := s[k..];
    var n := |w|;
    assert |t| == |s| - k && n <= |t|;
    assert t[|t| - n..] == s[|s| - n..];
    assert NoSpaceIn(s, |s| - n, |s|) by {
      forall m | |s| - n <= m < |s| ensures !IsSpace(s[m]) {
        assert s[m] == t[m - k];
      }
    }
    if n < |t| {
      assert s[|s| - n - 1] == t[|t| - n - 1];
    } else {
      assert |s| - n - 1 == k - 1;
    }
  }

  lemma OneWordIffNoSpace(s: string)
    ensures |SplitOnSpace(s)| == 1 <==> NoSpaceIn(s, 0, |s|)
  {
    SplitOnSpaceWords(s);
  }

  /** The upper-cased first character of the last white-space-separated word of `t` is `c`. */
  predicate LastWordStartsWith(t: string, c: char) {
    exists k :: 0 < k < |t| && IsSpace(t[k - 1]) && NoSpaceIn(t, k, |t|) && c == UpperChar(t[k])
  }

  /**
   * The letters of a direct conversation's icon from the other user's
   * name (undefined reads as ''): the initials of the first and the last
   * word of the trimmed name when it has two words or more, otherwise the
   * first two characters of the name as it is, or its one character, or
   * '??' for an empty name; all upper-cased.
   */
  function DirectInitials(other: Option<string>): string {
    NameInitials(other.GetOr(""))
  }

  /** The letters for a name, as DirectInitials describes them; NameInitialsCases gives the cases. */
  function NameInitials(name: string): (letters: string)
    ensures |letters| <= 2
    ensures name == "" ==> letters == "??"
  {
    var t := Trim(name);
    var words := SplitOnSpace(t);
    TrimShape(name);
    if |words| >= 2 then
      TwoWordInitials(t, words)
    else if |name| >= 2 then Upper(name[..2])
    else if |name| == 1 then [UpperChar(name[0])]
    else "??"
  }

  /**
   * A name whose trimmed text holds white space shows the initials of its
   * first and last word; otherwise the first two characters, or the one.
   */
  lemma NameInitialsCases(name: string)
    ensures |name| == 1 ==> NameInitials(name) == [UpperChar(name[0])]
    ensures !NoSpaceIn(Trim(name), 0, |Trim(name)|) ==>
      var letters := NameInitials(name);
      |letters| == 2 && letters[0] == UpperChar(Trim(name)[0]) && LastWordStartsWith(Trim(name), letters[1])
    ensures NoSpaceIn(Trim(name), 0, |Trim(name)|) && |name| >= 2 ==> NameInitials(name) == Upper(name[..2])
  {
    var t := Trim(name);
    var words := SplitOnSpace(t);
    TrimShape(name);
    OneWordIffNoSpace(t);
    if |words| >= 2 {
      TwoWordsShape(t, words);
      assert NameInitials(name) == TwoWordInitials(t, words);
    } else {
      assert NoSpaceIn(t, 0, |t|);
    }
  }

  /** The initials of the first and the last word of a trimmed text of two words or more. */
  function TwoWordInitials(t: string, words: seq<string>): (letters: string)
    requires t == [] || (!IsSpace(t[0]) && !IsSpace(t[|t| - 1]))
    requires words == SplitOnSpace(t) && |words| >= 2
    ensures |letters| == 2 && letters[0] == UpperChar(t[0]) && LastWordStartsWith(t, letters[1])
  {
    TwoWordsShape(t, words);
    var first := words[0];
    var last := words[|words| - 1];
    var k := |t| - |last|;
    assert 0 < k < |t| && IsSpace(t[k - 1]) && NoSpaceIn(t, k, |t|) && UpperChar(last[0]) == UpperChar(t[k]);
    Upper([first[0], last[0]])
  }

  /**
   * In a trimmed text of two words or more, the first word starts the text
   * and the last word is a non-empty suffix right after white space.
   */
  lemma TwoWordsShape(t: string, words: seq<string>)
    requires t == [] || (!IsSpace(t[0]) && !IsSpace(t[|t| - 1]))
    requires words == SplitOnSpace(t) && |words| >= 2
    ensures |t| >= 3
    ensures words[0] != [] && words[0][0] == t[0]
    ensures var k := |t| - |words[|words| - 1]|;
      && 0 < k < |t| && IsSpace(t[k - 1]) && NoSpaceIn(t, k, |t|)
      && words[|words| - 1] != [] && words[|words| - 1][0] == t[k]
  {
    var first, last := words[0], words[|words| - 1];
    assert !NoSpaceIn(t, 0, |t|) && first != [] && first[0] == t[0] by {
      SplitFirstWord(t);
    }
    assert IsLastWord(t, last) by {
      SplitLastWord(t);
    }
    LastWordShape(t, last);
  }

  /** The last word of a text that holds white space and ends without it is a non-empty proper suffix after a space. */
  lemma LastWordShape(t: string, last: string)
    requires t != [] && !IsSpace(t[0]) && !IsSpace(t[|t| - 1]) && !NoSpaceIn(t, 0, |t|)
    requires IsLastWord(t, last)
    ensures |t| >= 3
    ensures var k := |t| - |last|;
      && 0 < k < |t| && IsSpace(t[k - 1]) && NoSpaceIn(t, k, |t|) && last != [] && last[0] == t[k]
  {
    assert |last| < |t|;
    var k := |t| - |last|;
    assert IsSpace(t[k - 1]);
    assert last != [];
    assert k - 1 != 0;
  }

  /** A name of blanks alone shows its first two blanks, not '??'. */
  lemma BlankNameShowsBlanks()
    ensures DirectInitials(Some("  ")) == "  "
  {
    assert IsBlank("  ");
    assert Trim("  ") == "";
  }

  /**
   * The letters of a group's icon: the parts of the name around ' and '
   * other than the current user's name, run together, cut to two
   * characters and upper-cased; 'GR' when no part is left.
   */
  function GroupInitials(name: string, me: string): (letters: string)
    ensures |letters| <= 2
    ensures var kept := Filter(Split(name, " and "), (p: string) => p != me);
      && (kept == [] ==> letters == "GR")
      && (kept != [] ==> letters == Upper(Substring(Join(kept, ""), 0, 2)))
  {
    var kept := Filter(Split(name, " and "), (p: string) => p != me);
    if kept != [] then Upper(Substring(Join(kept, ""), 0, 2)) else "GR"
  }

  /** A group named by the current user alone shows 'GR'. */
  lemma OwnNameGroupShowsGR(me: string)
    requires forall j :: !OccursAt(me, " and ", j)
    ensures GroupInitials(me, me) == "GR"
  {
    SplitNoSeparator(me, " and ");
    assert Filter([me], (p: string) => p != me) == [];
  }

  /** An empty group name is one empty part, which is kept: the icon shows no letters at all. */
  lemma EmptyGroupNameShowsNothing(me: string)
    requires me != ""
    ensures GroupInitials("", me) == ""
  {
    SplitNoSeparator("", " and ");
    assert Filter([""], (p: string) => p != me) == [""];
  }

  // ---------------------------------------------------------------------
  // Choosing users and starting conversations (lines 333-393)
  // ---------------------------------------------------------------------

  /** One user of the search results. */
  datatype Candidate = Candidate(id: UserId, name: string)

  function CandidateIds(s: seq<Candidate>): (ids: seq<UserId>)
    ensures |ids| == |s|
    ensures forall i :: 0 <= i < |s| ==> ids[i] == s[i].id
  {
    seq(|s|, i requires 0 <= i < |s| => s[i].id)
  }

  /** `u => u.id !== id`: every candidate but the ones carrying `id`. */
  function Other(id: UserId): Candidate -> bool {
    (c: Candidate) => c.id != id
  }

  /** toggleUserSelection: a selected id is removed with every user carrying it; an unselected user is appended. */
  function ToggleSelection(selected: seq<Candidate>, user: Candidate): (r: seq<Candidate>)
    ensures user.id in CandidateIds(selected) ==> forall c :: c in r <==> c in selected && c.id != user.id
    ensures user.id !in CandidateIds(selected) ==> r == selected + [user]
  {
    if user.id in CandidateIds(selected) then Filter(selected, Other(user.id))
    else selected + [user]
  }

  /** Toggling never lets two selected users share an id. */
  lemma {:induction false} ToggleKeepsIdsDistinct(selected: seq<Candidate>, user: Candidate)
    requires NoDup(CandidateIds(selected))
    ensures NoDup(CandidateIds(ToggleSelection(selected, user)))
  {
    if user.id in CandidateIds(selected) {
      FilterKeepsIdsDistinct(selected, Other(user.id));
    } else {
      var r := selected + [user];
      forall i, j | 0 <= i < j < |r| ensures r[i].id != r[j].id {
        if j == |selected| {
          assert CandidateIds(selected)[i] == r[i].id;
        } else {
          assert CandidateIds(selected)[i] != CandidateIds(selected)[j];
        }
      }
    }
  }

  lemma {:induction false} FilterKeepsIdsDistinct(s: seq<Candidate>, p: Candidate -> bool)
    requires NoDup(CandidateIds(s))
    ensures NoDup(CandidateIds(Filter(s, p)))
    decreases |s|
  {
    if s != [] {
      IdsDistinctTail(s);
      FilterKeepsIdsDistinct(s[1..], p);
      var fr := Filter(s[1..], p);
      if p(s[0]) {
        assert Filter(s, p) == [s[0]] + fr;
        IdsDistinctCons(s[0], fr);
      } else {
        assert Filter(s, p) == fr;
      }
    }
  }

  /** The tail of a list with distinct ids has distinct ids, none of them the head's. */
  lemma IdsDistinctTail(s: seq<Candidate>)
    requires s != [] && NoDup(CandidateIds(s))
    ensures NoDup(CandidateIds(s[1..]))
    ensures forall c :: c in s[1..] ==> c.id != s[0].id
  {
    var ids, tail := CandidateIds(s), CandidateIds(s[1..]);
    forall i, j | 0 <= i < j < |tail| ensures tail[i] != tail[j] {
      assert tail[i] == ids[i + 1] && tail[j] == ids[j + 1];
    }
    forall c | c in s[1..] ensures c.id != s[0].id {
      var k :| 0 <= k < |s[1..]| && s[1..][k] == c;
      assert ids[k + 1] != ids[0];
    }
  }

  /** A head whose id none of the tail carries keeps the ids distinct. */
  lemma IdsDistinctCons(x: Candidate, t: seq<Candidate>)
    requires NoDup(CandidateIds(t)) && forall c :: c in t ==> c.id != x.id
    ensures NoDup(CandidateIds([x] + t))
  {
    var r, ids := [x] + t, CandidateIds([x] + t);
    forall i, j | 0 <= i < j < |ids| ensures ids[i] != ids[j] {
      assert r[j] == t[j - 1];
      if i > 0 {
        assert CandidateIds(t)[i - 1] != CandidateIds(t)[j - 1];
      }
    }
  }

  lemma {:induction false} FilterKeepsAllOthers(s: seq<Candidate>, id: UserId)
    requires id !in CandidateIds(s)
    ensures Filter(s, Other(id)) == s
    decreases |s|
  {
    if s != [] {
      assert CandidateIds(s[1..]) == CandidateIds(s)[1..];
      assert CandidateIds(s)[0] == s[0].id;
      FilterKeepsAllOthers(s[1..], id);
    }
  }

  /** Selecting a user who was not selected and then deselecting them restores the selection. */
  lemma ToggleTwiceRestores(selected: seq<Candidate>, user: Candidate)
    requires user.id !in CandidateIds(selected)
    ensures ToggleSelection(ToggleSelection(selected, user), user) == selected
  {
    var once := selected + [user];
    assert CandidateIds(once)[|selected|] == user.id;
    assert CandidateIds(once) == CandidateIds(selected) + [user.id];
    FilterKeepsAllOthers(selected, user.id);
    assert Filter(once, Other(user.id)) == Filter(selected, Other(user.id)) by {
      FilterAppendDropped(selected, user);
    }
  }

  lemma {:induction false} FilterAppendDropped(s: seq<Candidate>, user: Candidate)
    ensures Filter(s + [user], Other(user.id)) == Filter(s, Other(user.id))
    decreases |s|
  {
    if s == [] {
      assert [user][1..] == [];
    } else {
      assert (s + [user])[1..] == s[1..] + [user];
      FilterAppendDropped(s[1..], user);
    }
  }

  /** `if (selectedUsers.length < 2 || !groupName.trim()) return;` */
  predicate CanCreateGroup(selected: seq<Candidate>, groupName: string) {
    |selected| >= 2 && Trim(groupName) != ""
  }

  /** The placeholder the page fills into an empty group name once users are chosen (lines 308-319). */
  function GroupPlaceholder(selected: seq<Candidate>): (name: string)
    requires selected != []
    ensures Trim(name) != ""
  {
    var names := seq(|selected|, i requires 0 <= i < |selected| => selected[i].name);
    var name := Join(names, ", ") + " and me";
    assert !IsSpace(name[|name| - 1]);
    TrimShape(name);
    name
  }

  /** With the placeholder filled in, only the number of chosen users can hold a group back. */
  lemma PlaceholderAdmitsGroup(selected: seq<Candidate>)
    requires selected != []
    ensures CanCreateGroup(selected, GroupPlaceholder(selected)) <==> |selected| >= 2
  {
  }

  /** `conversations.find(conv => !conv.is_group && conv.other_user_id === user.id)` */
  function FindDirect(list: seq<ConversationEntry>, user: UserId): (r: Option<ConvId>)
    ensures r.Some? ==> exists i :: 0 <= i < |list| && list[i].Direct? && list[i].id == r.value
                                      && StrictEq(list[i].otherUserId, Num(user))
    ensures r.None? ==> forall i :: 0 <= i < |list| && list[i].Direct? ==> !StrictEq(list[i].otherUserId, Num(user))
    decreases |list|
  {
    if list == [] then None
    else if list[0].Direct? && StrictEq(list[0].otherUserId, Num(user)) then Some(list[0].id)
    else
      var r := FindDirect(list[1..], user);
      assert forall i :: 1 <= i < |list| ==> list[i] == list[1..][i - 1];
      r
  }

  /** The server lists the other participant's id as the text split from GROUP_CONCAT. */
  lemma FormattedDirectIdIsText(row: ConversationRow, userId: UserId, currentName: string)
    requires FormatConversation(row, userId, currentName).Direct?
    ensures FormatConversation(row, userId, currentName).otherUserId.Text?
  {
  }

  /** Against ids given as text, the strict comparison with a numeric user id never reuses a conversation. */
  lemma NeverReusesDirect(list: seq<ConversationEntry>, user: UserId)
    requires forall i :: 0 <= i < |list| && list[i].Direct? ==> list[i].otherUserId.Text?
    ensures FindDirect(list, user).None?
  {
  }

  // ---------------------------------------------------------------------
  // Attachments (lines 85-139)
  // ---------------------------------------------------------------------

  /** A file of the composer: its name, its kind, whether it has a local preview, and its server URL once known. */
  datatype ChatAttachment = ChatAttachment(name: string, kind: FileType, hasPreview: bool, url: Option<string>)

  /** A picked file: its name and its MIME type. */
  datatype PickedFile = PickedFile(name: string, mimetype: string)

  /** The attachment a picked file becomes: its kind by MIME prefix, a preview for images and videos. */
  function Picked(f: PickedFile): (a: ChatAttachment)
    ensures a.kind == Messaging.Classify(f.mimetype) && a.name == f.name && a.url.None?
    ensures a.hasPreview <==> StartsWith(f.mimetype, "image/") || StartsWith(f.mimetype, "video/")
  {
    var kind := Messaging.Classify(f.mimetype);
    ChatAttachment(f.name, kind, kind != File, None)
  }

  function PickedAll(files: seq<PickedFile>): (r: seq<ChatAttachment>)
    ensures |r| == |files|
    ensures forall i :: 0 <= i < |files| ==> r[i] == Picked(files[i])
  {
    seq(|files|, i requires 0 <= i < |files| => Picked(files[i]))
  }

  /**
   * The second setter of handleFileUpload: attachment `i` reads
   * `uploadedFiles[i - (prev.length - added)].url`. Reading `.url` of an
   * undefined entry throws, so the update happens (Some) exactly when no
   * earlier attachment is in the list and the answer covers every new
   * one; each attachment then takes the URL of its own file.
   */
  function AttachmentsAfterUpload(atts: seq<ChatAttachment>, added: nat, uploaded: seq<Messaging.FileDescriptor>)
    : (r: Option<seq<ChatAttachment>>)
    requires added <= |atts|
    ensures r.Some? <==> |atts| == added && added <= |uploaded|
    ensures r.Some? ==> |r.value| == |atts|
    ensures r.Some? ==> forall i :: 0 <= i < |atts| ==>
      r.value[i] == ChatAttachment(atts[i].name, atts[i].kind, atts[i].hasPreview, Some(uploaded[i].url))
  {
    if |atts| == added && added <= |uploaded| then
      Some(seq(|atts|, i requires 0 <= i < |atts| => ChatAttachment(atts[i].name, atts[i].kind, atts[i].hasPreview, Some(uploaded[Compose.UploadIndex(|atts|, added, i)].url))))
    else None
  }

  /** What one attachment of a sent message carries. */
  datatype SentAttachment = SentAttachment(url: Option<string>, name: string, kind: FileType)

  function Sent(atts: seq<ChatAttachment>): (r: seq<SentAttachment>)
    ensures |r| == |atts|
    ensures forall i :: 0 <= i < |atts| ==> r[i] == SentAttachment(atts[i].url, atts[i].name, atts[i].kind)
  {
    seq(|atts|, i requires 0 <= i < |atts| => SentAttachment(atts[i].url, atts[i].name, atts[i].kind))
  }

  // ---------------------------------------------------------------------
  // The page's state
  // ---------------------------------------------------------------------

  class ChatPage {
    var conversations: seq<ConversationEntry>
    var active: Option<ConvId>                 // activeConversation
    var thread: seq<Messaging.MessageView>     // messages
    var draft: string                          // newMessage
    var attachments: seq<ChatAttachment>
    var selected: seq<Candidate>               // selectedUsers
    var groupName: string
    /** The page threw while rendering and was unmounted: no handler runs any more. */
    var crashed: bool

    constructor ()
      ensures conversations == [] && active.None? && thread == [] && draft == ""
      ensures attachments == [] && selected == [] && groupName == "" && !crashed
    {
      conversations := [];
      active := None;
      thread := [];
      draft := "";
      attachments := [];
      selected := [];
      groupName := "";
      crashed := false;
    }

    /** loadConversations: the server's list replaces the local one. */
    method Loaded(list: seq<ConversationEntry>)
      requires !crashed
      modifies this`conversations
      ensures conversations == list
    {
      conversations := list;
    }

    /** handleNewMessage on a `new-message` event. */
    method Incoming(m: Messaging.MessageView)
      requires !crashed
      modifies this`thread, this`conversations
      ensures thread == ThreadAfterIncoming(active, old(thread), m)
      ensures conversations == ListAfterIncoming(old(conversations), active, m)
    {
      thread := ThreadAfterIncoming(active, thread, m);
      conversations := ListAfterIncoming(conversations, active, m);
    }

    /**
     * loadMessages: with a conversation open and its page fetched, the
     * thread shows the page oldest first; once the mark-read POST has
     * answered, the conversation's unread count is zeroed. A failed fetch
     * (None) changes nothing.
     */
    method Opened(page: Option<seq<Messaging.PageItem>>, readPosted: bool)
      requires !crashed
      modifies this`thread, this`conversations
      ensures active.None? || page.None? ==> thread == old(thread) && conversations == old(conversations)
      ensures active.Some? && page.Some? ==> thread == OpenedThread(page.value)
      ensures active.Some? && page.Some? ==>
        conversations == if readPosted then ListAfterRead(old(conversations), active.value) else old(conversations)
    {
      if active.None? || page.None? {
        return;
      }
      thread := OpenedThread(page.value);
      if readPosted {
        conversations := ListAfterRead(conversations, active.value);
      }
    }

    /**
     * handleSendMessage: past the guard and with a conversation open the
     * draft and the attachments go out; the answer (None when the send
     * failed) joins the thread, the draft and the attachments are
     * cleared, and the list shows the draft as typed.
     */
    method Send(answer: Option<Messaging.MessageView>, now: nat) returns (request: Option<(string, seq<SentAttachment>)>)
      requires !crashed
      modifies this`thread, this`draft, this`attachments, this`conversations
      ensures request.Some? <==> CanSend(old(draft), |old(attachments)|) && active.Some?
      ensures request.Some? ==> request.value == (old(draft), Sent(old(attachments)))
      ensures request.Some? && answer.Some? ==>
        && thread == old(thread) + [answer.value] && draft == "" && attachments == []
        && conversations == ListAfterSend(old(conversations), active.value, old(draft), now)
      ensures request.None? || answer.None? ==>
        thread == old(thread) && draft == old(draft) && attachments == old(attachments) && conversations == old(conversations)
    {
      if !CanSend(draft, |attachments|) || active.None? {
        return None;
      }
      request := Some((draft, Sent(attachments)));
      if answer.Some? {
        thread := thread + [answer.value];
        conversations := ListAfterSend(conversations, active.value, draft, now);
        draft := "";
        attachments := [];
      }
    }

    /**
     * handleFileUpload: the picked files are appended, then every entry
     * re-reads its URL from the response. When an entry's index falls
     * outside the response, reading `.url` throws inside the state
     * updater, which React runs while rendering, outside the handler's
     * try/catch: with no error boundary the page unmounts (`crashed`).
     */
    method Upload(files: seq<PickedFile>, uploaded: Option<seq<Messaging.FileDescriptor>>) returns (failed: bool)
      requires !crashed
      modifies this`attachments, this`crashed
      ensures crashed == failed
      ensures files == [] ==> attachments == old(attachments) && !failed
      ensures files != [] && uploaded.None? ==> attachments == old(attachments) + PickedAll(files) && !failed
      ensures files != [] && uploaded.Some? ==>
        var next := AttachmentsAfterUpload(old(attachments) + PickedAll(files), |files|, uploaded.value);
        && failed == next.None?
        && (next.Some? ==> attachments == next.value)
    {
      failed := false;
      if files == [] {
        return;
      }
      attachments := attachments + PickedAll(files);
      if uploaded.Some? {
        var next := AttachmentsAfterUpload(attachments, |files|, uploaded.value);
        if next.Some? {
          attachments := next.value;
        } else {
          failed := true;
          crashed := true;
        }
      }
    }

    method RemoveAttachment(index: int)
      requires !crashed
      modifies this`attachments
      ensures attachments == Compose.Spliced(old(attachments), index)
    {
      attachments := Compose.Spliced(attachments, index);
    }

    method ToggleUser(user: Candidate)
      requires !crashed
      modifies this`selected
      ensures selected == ToggleSelection(old(selected), user)
    {
      selected := ToggleSelection(selected, user);
    }

    /** startNewConversation: a matching local direct entry is opened; otherwise (None) the page asks the server for one. */
    method StartDirect(user: UserId) returns (reused: Option<ConvId>)
      requires !crashed
      modifies this`active
      ensures reused == FindDirect(conversations, user)
      ensures active == if reused.Some? then reused else old(active)
    {
      reused := FindDirect(conversations, user);
      if reused.Some? {
        active := reused;
      }
    }

    /**
     * createGroupChat: past the guard the name and the chosen ids go out;
     * the conversation the server answers with (None when the call failed)
     * is put in front of the list and opened, and the form is reset.
     */
    method CreateGroup(created: Option<ConversationEntry>) returns (request: Option<(string, seq<UserId>)>)
      requires !crashed
      modifies this`conversations, this`active, this`selected, this`groupName
      ensures request.Some? <==> CanCreateGroup(old(selected), old(groupName))
      ensures request.Some? ==> request.value == (old(groupName), CandidateIds(old(selected)))
      ensures request.Some? && created.Some? ==>
        && conversations == [created.value] + old(conversations)
        && active == Some(created.value.id) && selected == [] && groupName == ""
      ensures request.None? || created.None? ==>
        && conversations == old(conversations)
        && active == old(active) && selected == old(selected) && groupName == old(groupName)
    {
      if !CanCreateGroup(selected, groupName) {
        return None;
      }
      request := Some((groupName, CandidateIds(selected)));
      if created.Some? {
        conversations := [created.value] + conversations;
        active := Some(created.value.id);
        selected := [];
        groupName := "";
      }
    }
  }
}
