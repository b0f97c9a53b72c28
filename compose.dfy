/**
 * The post composers of frontend/src/comps/Dashboard.jsx and of
 * SpacePostForm in frontend/src/comps/Spaces.jsx: hashtag suggestions
 * while typing, splicing a chosen tag into the text, the image list and
 * its upload URLs, and the submit guard. Both composers share the same
 * expressions; this module models them once.
 */
module Compose {
  import opened Common
  import opened Posts

  // ---------------------------------------------------------------------
  // Arrays as JavaScript indexes and splices them
  // ---------------------------------------------------------------------

  /** `s[j]`: undefined (None) for an index outside the array, negative ones included. */
  function At<T>(s: seq<T>, j: int): (r: Option<T>)
    ensures r.Some? <==> 0 <= j < |s|
    ensures r.Some? ==> r.value == s[j]
  {
    if 0 <= j < |s| then Some(s[j]) else None
  }

  /** `copy.splice(index, 1)`: a negative index counts from the end (from the start when it reaches past it), one past the end removes nothing. */
  function Spliced<T>(s: seq<T>, index: int): (r: seq<T>)
    ensures |r| == if s != [] && index < |s| then |s| - 1 else |s|
  {
    var start := if index < 0 then (if |s| + index < 0 then 0 else |s| + index) else index;
    if start < |s| then s[..start] + s[start + 1..] else s
  }

  /** removeImage (Dashboard.jsx lines 109-115, Spaces.jsx 1156-1162): exactly the element at the index goes, the others keep their order. */
  lemma RemoveKeepsTheRest<T>(s: seq<T>, index: nat)
    requires index < |s|
    ensures var r := Spliced(s, index);
      && |r| == |s| - 1
      && (forall j :: 0 <= j < index ==> r[j] == s[j])
      && (forall j :: index <= j < |r| ==> r[j] == s[j + 1])
      && multiset(r) + multiset{s[index]} == multiset(s)
  {
    var r := Spliced(s, index);
    assert r == s[..index] + s[index + 1..];
    assert s == s[..index] + [s[index]] + s[index + 1..];
  }

  /** An index one past the end leaves the list as it is. */
  lemma RemovePastEndKeepsAll<T>(s: seq<T>)
    ensures Spliced(s, |s|) == s
  {
  }

  // ---------------------------------------------------------------------
  // Hashtag suggestions (Dashboard.jsx lines 19-44, Spaces.jsx 1068-1088)
  // ---------------------------------------------------------------------

  /** `text[a..b]` is a non-empty run of `\w` characters. */
  predicate WordRun(text: string, a: int, b: int)
    requires 0 <= a <= b <= |text|
  {
    a < b && forall k :: a <= k < b ==> IsWordChar(text[k])
  }

  /** The length of the longest run of `\w` characters that ends the string. */
  function TrailingWordRun(s: string): (n: nat)
    ensures n <= |s|
    ensures forall k :: |s| - n <= k < |s| ==> IsWordChar(s[k])
    ensures n < |s| ==> !IsWordChar(s[|s| - n - 1])
  {
    if s == [] || !IsWordChar(s[|s| - 1]) then 0 else 1 + TrailingWordRun(s[..|s| - 1])
  }

  /** A match of `/#(\w+)$/`: where its `#` stands and the word after it. */
  datatype Hashtag = Hashtag(position: nat, query: string)

  /**
   * `value.substring(0, cursorPos).match(/#(\w+)$/)`, with the position
   * `cursorPos - query.length - 1` that handleTextChange stores.
   */
  function HashtagBefore(text: string, cursor: nat): (h: Option<Hashtag>)
    requires cursor <= |text|
    ensures h.Some? ==>
      && h.value.position + 1 + |h.value.query| == cursor
      && text[h.value.position] == '#'
      && h.value.query == text[h.value.position + 1..cursor]
      && WordRun(text, h.value.position + 1, cursor)
  {
    var before := text[..cursor];
    var n := TrailingWordRun(before);
    if 1 <= n < |before| && before[|before| - n - 1] == '#' then
      Some(Hashtag(cursor - n - 1, before[|before| - n..]))
    else None
  }

  /**
   * A suggestion query is active exactly when some `#` before the cursor
   * is followed by one or more word characters reaching the cursor, and
   * it is then the query of that `#`.
   */
  lemma {:induction false} HashtagIffTrailingTag(text: string, cursor: nat, p: nat)
    requires cursor <= |text| && p < cursor
    ensures (text[p] == '#' && WordRun(text, p + 1, cursor)) <==>
      HashtagBefore(text, cursor) == Some(Hashtag(p, text[p + 1..cursor]))
  {
    var before := text[..cursor];
    var n := TrailingWordRun(before);
    if text[p] == '#' && WordRun(text, p + 1, cursor) {
      assert !IsWordChar(before[p]);
      assert forall k :: p + 1 <= k < cursor ==> IsWordChar(before[k]);
      assert n == cursor - p - 1;
      assert before[|before| - n..] == text[p + 1..cursor];
    }
  }

  /** selectHashtag (Dashboard.jsx lines 60-63, Spaces.jsx 1108-1113): the text up to the `#`, the tag's name and a space, the text after the query. */
  function WithTag(text: string, h: Hashtag, name: string): string {
    Substring(text, 0, h.position + 1) + name + " " + Substring(text, h.position + 1 + |h.query|, |text|)
  }

  /** Choosing a suggestion keeps everything up to the `#` and after the cursor, and replaces only the query. */
  lemma WithTagReplacesQuery(text: string, cursor: nat, name: string)
    requires cursor <= |text| && HashtagBefore(text, cursor).Some?
    ensures var h := HashtagBefore(text, cursor).value;
      && WithTag(text, h, name) == text[..h.position] + "#" + name + " " + text[cursor..]
      && |WithTag(text, h, name)| == |text| - |h.query| + |name| + 1
  {
    var h := HashtagBefore(text, cursor).value;
    assert text[..h.position + 1] == text[..h.position] + "#";
  }

  /** A text with no `#` never offers suggestions. */
  lemma NoHashNoSuggestion(text: string, cursor: nat)
    requires cursor <= |text|
    requires forall k :: 0 <= k < |text| ==> text[k] != '#'
    ensures HashtagBefore(text, cursor).None?
  {
  }

  // ---------------------------------------------------------------------
  // Images and their upload URLs (Dashboard.jsx lines 67-107)
  // ---------------------------------------------------------------------

  /** One selected image: its local preview and the URL the server gave it, if any. */
  datatype Image = Image(preview: string, serverUrl: Option<string>)

  /** `i - (prev.length - added)`: the entry of the upload response that image `i` reads. */
  function UploadIndex(count: nat, added: nat, i: nat): int {
    i - (count - added)
  }

  /** The images handleImageUpload appends: one preview each, no server URL yet. */
  function Previews(previews: seq<string>): (r: seq<Image>)
    ensures |r| == |previews|
    ensures forall i :: 0 <= i < |r| ==> r[i] == Image(previews[i], None)
  {
    seq(|previews|, i requires 0 <= i < |previews| => Image(previews[i], None))
  }

  /**
   * The second setter of handleImageUpload: every image of the list,
   * old ones included, takes `urls[UploadIndex(...)]`, undefined when the
   * index falls outside the response.
   */
  function AfterUpload(images: seq<Image>, added: nat, urls: seq<string>): (r: seq<Image>)
    requires added <= |images|
    ensures |r| == |images|
    ensures forall i :: 0 <= i < |r| ==> r[i].preview == images[i].preview
  {
    seq(|images|, i requires 0 <= i < |images| => images[i].(serverUrl := At(urls, UploadIndex(|images|, added, i))))
  }

  /**
   * The images just added receive the response's URLs in order; every
   * image selected in an earlier upload reads a negative index and loses
   * the URL it had.
   */
  lemma UploadRemap(images: seq<Image>, added: nat, urls: seq<string>)
    requires added <= |images| && |urls| == added
    ensures var r := AfterUpload(images, added, urls);
      var earlier := |images| - added;
      && (forall k :: 0 <= k < added ==> r[earlier + k].serverUrl == Some(urls[k]))
      && (forall i :: 0 <= i < earlier ==> r[i].serverUrl.None?)
  {
    var r := AfterUpload(images, added, urls);
    var earlier := |images| - added;
    forall k | 0 <= k < added ensures r[earlier + k].serverUrl == Some(urls[k]) {
      assert UploadIndex(|images|, added, earlier + k) == k;
    }
  }

  // ---------------------------------------------------------------------
  // Submitting (Dashboard.jsx lines 124-164, Spaces.jsx 1164-1185)
  // ---------------------------------------------------------------------

  /** `if (!newPost.trim() && selectedImages.length === 0) return;` */
  predicate WillSubmit(text: string, images: seq<Image>) {
    Trim(text) != "" || |images| > 0
  }

  /** The `images` field of the request: each image's server URL, undefined where it has none. */
  function SubmittedUrls(images: seq<Image>): (urls: seq<Option<string>>)
    ensures |urls| == |images|
    ensures forall i :: 0 <= i < |images| ==> urls[i] == images[i].serverUrl
  {
    seq(|images|, i requires 0 <= i < |images| => images[i].serverUrl)
  }

  /** A post of images alone passes the composer's guard, but POST /posts refuses blank content. */
  lemma ImagesOnlyPostRefused(images: seq<Image>, spaceIds: seq<int>)
    requires |images| > 0
    ensures WillSubmit("", images)
    ensures !BodyAccepted(Some(""), Some(spaceIds), None)
  {
  }

  /** The space page's composer sends `space_id`; POST /posts requires `space_ids`, so its every post is refused. */
  lemma SpaceComposerPostRefused(text: string)
    ensures !BodyAccepted(Some(text), None, None)
  {
  }

  /** The Dashboard composer's state. */
  class Composer {
    var text: string
    var images: seq<Image>
    var spaceIds: seq<nat>            // SpaceIDs
    var suggestion: Option<Hashtag>   // suggestionQuery and suggestionPosition
    var shown: bool                   // showSuggestions, once the tag search has answered

    constructor ()
      ensures text == "" && images == [] && spaceIds == [] && suggestion.None? && !shown
    {
      text := "";
      images := [];
      spaceIds := [];
      suggestion := None;
      shown := false;
    }

    /** handleTextChange: a match replaces the stored query; without one the old query stays, hidden. */
    method TextChanged(value: string, cursor: nat)
      requires cursor <= |value|
      modifies this`text, this`suggestion, this`shown
      ensures text == value
      ensures HashtagBefore(value, cursor).Some? ==> suggestion == HashtagBefore(value, cursor)
      ensures HashtagBefore(value, cursor).None? ==> suggestion == old(suggestion) && !shown
      ensures HashtagBefore(value, cursor).Some? ==> shown == old(shown)
    {
      text := value;
      var h := HashtagBefore(value, cursor);
      if h.Some? {
        suggestion := h;
      } else {
        shown := false;
      }
    }

    /** The tag search answered: the list shows (lines 34-38). */
    method SuggestionsArrived()
      modifies this`shown
      ensures shown
    {
      shown := true;
    }

    /** selectHashtag: the tag's name spliced in at the stored query, its id appended to SpaceIDs even when already there. */
    method SelectHashtag(id: nat, name: string)
      requires suggestion.Some?
      modifies this`text, this`spaceIds, this`shown
      ensures text == WithTag(old(text), suggestion.value, name)
      ensures spaceIds == old(spaceIds) + [id]
      ensures !shown
    {
      text := WithTag(text, suggestion.value, name);
      spaceIds := spaceIds + [id];
      shown := false;
    }

    method RemoveImage(index: int)
      modifies this`images
      ensures images == Spliced(old(images), index)
    {
      images := Spliced(images, index);
    }

    /**
     * handleImageUpload (Dashboard.jsx lines 68-107): nothing happens without
     * files; otherwise the previews are appended, and when the upload
     * answers (`urls` Some) every URL is re-read from the response. A failed
     * upload lands in the catch: the new previews stay without URLs and
     * the earlier images keep theirs.
     */
    method Uploaded(previews: seq<string>, urls: Option<seq<string>>)
      modifies this`images
      ensures previews == [] ==> images == old(images)
      ensures previews != [] ==> |images| == |old(images)| + |previews|
      ensures previews != [] && urls.None? ==> images == old(images) + Previews(previews)
      ensures previews != [] && urls.Some? ==> images == AfterUpload(old(images) + Previews(previews), |previews|, urls.value)
    {
      if previews == [] {
        return;
      }
      images := images + Previews(previews);
      if urls.Some? {
        images := AfterUpload(images, |previews|, urls.value);
      }
    }

    /**
     * handleCreatePost: nothing is sent past the guard; otherwise the
     * text, the URLs and SpaceIDs go out. A success clears the text only:
     * the images and SpaceIDs stay for the next post.
     */
    method Submit(succeeded: bool) returns (sent: Option<(string, seq<Option<string>>, seq<nat>)>)
      modifies this`text
      ensures sent.Some? <==> WillSubmit(old(text), images)
      ensures sent.Some? ==> sent.value == (old(text), SubmittedUrls(images), spaceIds)
      ensures text == if sent.Some? && succeeded then "" else old(text)
    {
      if !WillSubmit(text, images) {
        return None;
      }
      sent := Some((text, SubmittedUrls(images), spaceIds));
      if succeeded {
        text := "";
      }
    }
  }
}
