/**
 * The home feed: the post cursor, the rendered entries with their comment
 * lists and comment cursors, the new-post composer, the realtime comment merge
 * and the edit / two-step delete overlay. Every backend reply is an input of
 * the method that awaits it; the requests a method issues are returned in the
 * order it issues them.
 */
module Home {
  import opened Basics
  import opened Text

  /** `postLimit`: the size of a page of posts. */
  const POST_LIMIT: nat := 10
  /** `dataset.commentsLimit` of every fetched post. */
  const COMMENTS_LIMIT: nat := 3
  /** The longest post text `createPost` accepts. */
  const MAX_POST_LENGTH: nat := 750

  /** A row of `Posts` with its embedded author (`Users`), as the feed receives it. */
  datatype PostRecord = PostRecord(
    id: int, content: string, imageUrl: string, createdAt: string, userId: string, author: Option<Profile>)

  /** A row of `Comments` with its embedded author, if the reply carried one. */
  datatype CommentRecord = CommentRecord(
    id: int, postId: int, text: string, createdAt: string, userId: string, author: Option<Profile>)

  /** The comment cursor of one entry (`dataset.commentsOffset` and `dataset.commentsLimit`). */
  datatype Cursor = Cursor(offset: nat, limit: nat)

  /**
   * A rendered post. `post` is the record the element was built from, which
   * its handlers keep; `paragraph` is the text of its `<p>`, absent when the
   * post had no text; `comments` is the comment container, first child first;
   * `cursor` is absent when the element carries no comment cursor; `loadMore`
   * says whether the load-more button exists; `open` whether the comment
   * section is displayed; `draft` is the comment text area.
   */
  datatype Entry = Entry(
    post: PostRecord, paragraph: Option<string>, comments: seq<CommentRecord>,
    cursor: Option<Cursor>, loadMore: bool, open: bool, draft: string)

  /** An inclusive `.range(from, to)` of a query. */
  datatype Range = Range(first: int, last: int)

  /** An element of a `Uint8Array`. */
  newtype byte = b: int | 0 <= b < 256

  /** A file body handed to storage. */
  datatype Blob = Blob(mime: string, bytes: seq<byte>)

  /** The backend requests the feed issues. */
  datatype Request =
    | UploadPostImage(fileName: string, blob: Blob)
    | InsertPost(content: string, imageUrl: string)
    | InsertComment(postId: int, text: string)
    | UpdatePostContent(postId: int, content: string)
    | DeletePostComments(postId: int)
    | DeletePostRow(postId: int)
    | RemovePostImage(fileName: string)

  /** The post-options overlay and its `deleteConfirmed` flag. */
  datatype Overlay = Overlay(postId: int, deleteConfirmed: bool)

  /** How one `createPost` (or a submission that never reached it) ended. */
  datatype PostOutcome = Ignored | TooLong | NothingToPost | Threw | UploadFailed | SaveFailed | Posted

  /**
   * The replies `createPost` awaits: the clock (for the file name and the
   * local creation time), what `atob` made of the payload (absent when it
   * threw), the upload reply, the public URL and the insert reply.
   */
  datatype PostReplies = PostReplies(
    nowMs: nat, localTime: string, decoded: Option<string>, upload: Reply<()>,
    publicUrl: string, insert: Reply<PostRecord>)

  // ---------------------------------------------------------------------------
  // Comment lists: every insertion goes to the front.

  function Reversed<T>(s: seq<T>): (r: seq<T>)
    ensures |r| == |s|
  {
    if s == [] then [] else Reversed(s[1..]) + [s[0]]
  }

  /** Adding an element at the end of a sequence puts it at the front of its reversal. */
  lemma {:induction false} ReversedSnoc<T>(s: seq<T>, x: T)
    ensures Reversed(s + [x]) == [x] + Reversed(s)
  {
    if s != [] {
      assert (s + [x])[1..] == s[1..] + [x];
      ReversedSnoc(s[1..], x);
    }
  }

  /** Position `k` of a reversal holds the `k`-th element from the end. */
  lemma {:induction false} ReversedAt<T>(s: seq<T>, k: nat)
    requires k < |s|
    ensures Reversed(s)[k] == s[|s| - 1 - k]
  {
    if k < |s| - 1 {
      ReversedAt(s[1..], k);
    }
  }

  lemma {:induction false} ReversedAppend<T>(a: seq<T>, b: seq<T>)
    ensures Reversed(a + b) == Reversed(b) + Reversed(a)
  {
    if a == [] {
      assert a + b == b;
    } else {
      assert (a + b)[1..] == a[1..] + b;
      ReversedAppend(a[1..], b);
    }
  }

  /** The element as `createPostElement` builds it; it carries no comment cursor. */
  function Rendered(post: PostRecord): Entry {
    Entry(post, if post.content != [] then Some(post.content) else None, [], None, false, false, [])
  }

  /** An element appended by `fetchPosts`: rendered, with comment cursor offset "0" and limit "3". */
  function Mounted(post: PostRecord): Entry {
    Rendered(post).(cursor := Some(Cursor(0, COMMENTS_LIMIT)))
  }

  /** The elements one fetched page appends, in the order of the page. */
  function MountAll(page: seq<PostRecord>): seq<Entry> {
    seq(|page|, k requires 0 <= k < |page| => Mounted(page[k]))
  }

  /** The entry after a successful `fetchComments`: what the loop and the cursor update make of it. */
  function WithCommentPage(e: Entry, append: bool, batch: seq<CommentRecord>): Entry
    requires e.cursor.Some?
  {
    e.(comments := Reversed(batch) + (if append then e.comments else []),
       cursor := Some(Cursor(e.cursor.value.offset + |batch|, e.cursor.value.limit)),
       loadMore := |batch| == e.cursor.value.limit)
  }

  /**
   * A page of comments lands reversed in front of what is kept; the offset
   * grows by the page size; the load-more button exists exactly when the
   * page was full.
   */
  lemma CommentPageEffect(e: Entry, append: bool, batch: seq<CommentRecord>)
    requires e.cursor.Some?
    ensures var e' := WithCommentPage(e, append, batch);
      && |e'.comments| == |batch| + (if append then |e.comments| else 0)
      && (forall k :: 0 <= k < |batch| ==> e'.comments[k] == batch[|batch| - 1 - k])
      && (append ==> e'.comments[|batch|..] == e.comments)
      && e'.cursor.value.offset == e.cursor.value.offset + |batch|
      && (e'.loadMore <==> |batch| == e.cursor.value.limit)
  {
    var e' := WithCommentPage(e, append, batch);
    forall k | 0 <= k < |batch|
      ensures e'.comments[k] == batch[|batch| - 1 - k]
    {
      ReversedAt(batch, k);
    }
  }

  /**
   * Opening a section and then loading one more page shows the two pages,
   * in the order the server sent them, reversed: the newest comment of the
   * first page ends up last.
   */
  lemma LoadMoreOrder(e: Entry, first: seq<CommentRecord>, more: seq<CommentRecord>)
    requires e.cursor.Some?
    ensures WithCommentPage(WithCommentPage(e, false, first), true, more).comments == Reversed(first + more)
    ensures WithCommentPage(WithCommentPage(e, false, first), true, more).cursor.value.offset
      == e.cursor.value.offset + |first| + |more|
  {
    ReversedAppend(first, more);
    assert Reversed(first) + [] == Reversed(first);
  }

  /** `document.querySelector('article[data-post-id=…]')`: the first entry showing that post. */
  function FirstWithId(entries: seq<Entry>, postId: int): (r: Option<nat>)
    ensures r.Some? ==> r.value < |entries| && entries[r.value].post.id == postId
    ensures r.Some? ==> forall j :: 0 <= j < r.value ==> entries[j].post.id != postId
    ensures r.None? ==> forall j :: 0 <= j < |entries| ==> entries[j].post.id != postId
  {
    if entries == [] then None
    else if entries[0].post.id == postId then Some(0)
    else match FirstWithId(entries[1..], postId)
      case None => None
      case Some(k) => Some(k + 1)
  }

  // ---------------------------------------------------------------------------
  // Image names and data URLs.

  /** The last '/'-separated segment of a URL (`split('/').pop()`). */
  function LastSegment(url: string): string {
    var segments := Split(url, "/");
    segments[|segments| - 1]
  }

  /** The stored name of a post image: the last '/'-segment of its URL with everything from the first '?' removed. */
  function ImageFileName(url: string): string {
    Split(LastSegment(url), "?")[0]
  }

  /**
   * The name is the last segment of the URL (see `LastSegmentShape`) up to,
   * and not including, its first '?'; it holds neither '/' nor '?'.
   */
  lemma ImageFileNameShape(url: string)
    ensures var seg, name := LastSegment(url), ImageFileName(url);
      && '?' !in name && '/' !in name
      && |name| <= |seg| && seg[..|name|] == name
      && (|name| < |seg| ==> seg[|name|] == '?')
  {
    var seg := LastSegment(url);
    LastSegmentShape(url);
    SplitFirstChar(seg, '?');
    var name := ImageFileName(url);
    assert forall k :: 0 <= k < |name| ==> name[k] == seg[k];
  }

  /** The last segment contains no '/', ends the URL, and follows a '/' when it is not the whole URL. */
  lemma LastSegmentShape(url: string)
    ensures var seg := LastSegment(url);
      && '/' !in seg && EndsWith(url, seg)
      && (|seg| < |url| ==> url[|url| - |seg| - 1] == '/')
  {
    var segments := Split(url, "/");
    var seg := LastSegment(url);
    SplitPiecesFree(url, "/");
    ContainsChar(seg, '/');
    SplitLast(url, "/");
    SplitOnePiece(url, "/");
    if |seg| < |url| {
      assert EndsWith(url, "/" + seg);
      assert url[|url| - |seg| - 1] == ("/" + seg)[0];
    }
  }

  /** `arr[0].match(/:(.*?);/)[1]`: the text between the first ':' and the next ';' after it, if there is one. */
  function MimeOf(header: string): Option<string> {
    match IndexOf(header, ":")
    case None => None
    case Some(c) =>
      match IndexOf(header[c + 1..], ";")
      case None => None
      case Some(e) => Some(header[c + 1..c + 1 + e])
  }

  /** There is no MIME type exactly when the header has no ':' or no ';' after its first ':'. */
  lemma MimeOfAbsent(header: string)
    ensures MimeOf(header).None? <==>
      IndexOf(header, ":").None? || ';' !in header[IndexOf(header, ":").value + 1..]
  {
    var i := IndexOf(header, ":");
    if i.Some? {
      IndexOfChar(header[i.value + 1..], ';');
    }
  }

  /** The MIME type is the text after the first ':' of the header up to the first ';' after it. */
  lemma MimeOfShape(header: string)
    ensures MimeOf(header).Some? ==>
      var c := IndexOf(header, ":").value;
      var m := MimeOf(header).value;
      && ':' !in header[..c] && header[c] == ':'
      && c + 1 + |m| < |header| && header[c + 1..c + 1 + |m|] == m
      && ';' !in m && header[c + 1 + |m|] == ';'
  {
    var i := IndexOf(header, ":");
    if i.Some? {
      IndexOfChar(header, ':');
      var c := i.value;
      var tail := header[c + 1..];
      var j := IndexOf(tail, ";");
      if j.Some? {
        IndexOfChar(tail, ';');
        var e := j.value;
        var m := header[c + 1..c + 1 + e];
        assert MimeOf(header) == Some(m);
        assert m == tail[..e];
        assert ';' !in m;
        assert header[c + 1 + e] == tail[e] == ';';
      } else {
        assert MimeOf(header).None?;
      }
    } else {
      assert MimeOf(header).None?;
    }
  }

  /** The part of a data URL before its first ',' and, if there is a second part, that part. */
  function Header(dataUrl: string): string {
    Split(dataUrl, ",")[0]
  }

  function Payload(dataUrl: string): Option<string> {
    var parts := Split(dataUrl, ",");
    if |parts| >= 2 then Some(parts[1]) else None
  }

  /** What `atob` hands back: one character per byte. */
  predicate IsByteString(s: string) {
    forall k :: 0 <= k < |s| ==> s[k] as int < 256
  }

  /**
   * `dataURLtoBlob`, given what `atob` made of the payload: absent when the
   * header has no `:…;` (the `match` is null and indexing it throws) or when
   * `atob` throws (there is no payload, or it is not base64).
   */
  function BlobOf(dataUrl: string, decoded: Option<string>): Option<Blob>
    requires decoded.Some? ==> IsByteString(decoded.value)
  {
    match MimeOf(Header(dataUrl))
    case None => None
    case Some(mime) =>
      if Payload(dataUrl).None? || decoded.None? then None
      else Some(Blob(mime, seq(|decoded.value|, k requires 0 <= k < |decoded.value| => decoded.value[k] as int as byte)))
  }

  /** The `while (n--)` loop of `dataURLtoBlob`: fills a byte array from the last index down. */
  method CopyBytes(bstr: string) returns (u8arr: array<byte>)
    requires IsByteString(bstr)
    ensures u8arr.Length == |bstr|
    ensures forall k :: 0 <= k < |bstr| ==> u8arr[k] as int == bstr[k] as int
  {
    var n := |bstr|;
    u8arr := new byte[n];
    while n > 0
      invariant 0 <= n <= |bstr| == u8arr.Length
      invariant forall k :: n <= k < |bstr| ==> u8arr[k] as int == bstr[k] as int
      decreases n
    {
      n := n - 1;
      u8arr[n] := bstr[n] as int as byte;
    }
  }

  method DataUrlToBlob(dataUrl: string, decoded: Option<string>) returns (blob: Option<Blob>)
    requires decoded.Some? ==> IsByteString(decoded.value)
    ensures blob == BlobOf(dataUrl, decoded)
    ensures blob.Some? ==> decoded.Some? && |blob.value.bytes| == |decoded.value|
  {
    var mime := MimeOf(Header(dataUrl));
    if mime.None? || Payload(dataUrl).None? || decoded.None? {
      return None;
    }
    var u8arr := CopyBytes(decoded.value);
    assert u8arr[..] == seq(|decoded.value|, k requires 0 <= k < |decoded.value| => decoded.value[k] as int as byte);
    blob := Some(Blob(mime.value, u8arr[..]));
  }

  // ---------------------------------------------------------------------------
  // What `createPost` decides, as functions of its inputs.

  /** The name `createPost` uploads an image under: `post_${Date.now()}.png`. */
  function PostImageName(nowMs: nat): string {
    "post_" + NatToString(nowMs) + ".png"
  }

  function PostOutcomeOf(content: string, image: string, r: PostReplies): PostOutcome
    requires r.decoded.Some? ==> IsByteString(r.decoded.value)
  {
    if |content| > MAX_POST_LENGTH then TooLong
    else if content == [] && image == [] then NothingToPost
    else if image != [] && BlobOf(image, r.decoded).None? then Threw
    else if image != [] && r.upload.Failed? then UploadFailed
    else if r.insert.Failed? then SaveFailed
    else Posted
  }

  /** The requests `createPost` issues: the upload (when there is an image), then the insert. */
  function PostRequestsOf(content: string, image: string, r: PostReplies): seq<Request>
    requires r.decoded.Some? ==> IsByteString(r.decoded.value)
  {
    var outcome := PostOutcomeOf(content, image, r);
    if outcome in {TooLong, NothingToPost, Threw} then []
    else
      var upload := if image != [] then [UploadPostImage(PostImageName(r.nowMs), BlobOf(image, r.decoded).value)] else [];
      if outcome == UploadFailed then upload
      else upload + [InsertPost(content, if image != [] then r.publicUrl else [])]
  }

  /**
   * The length rule: more than 750 characters is refused before anything is
   * sent, exactly 750 is not; with neither text nor image nothing happens.
   */
  lemma PostValidation(content: string, image: string, r: PostReplies)
    requires r.decoded.Some? ==> IsByteString(r.decoded.value)
    ensures PostOutcomeOf(content, image, r) == TooLong <==> |content| > MAX_POST_LENGTH
    ensures |content| > MAX_POST_LENGTH ==> PostRequestsOf(content, image, r) == []
    ensures |content| == 750 ==> PostOutcomeOf(content, image, r) != TooLong
    ensures content == [] && image == [] ==>
      PostOutcomeOf(content, image, r) == NothingToPost && PostRequestsOf(content, image, r) == []
  {
  }

  /**
   * The upload completes before the post row is written: a post with an
   * image that gets past the blob is uploaded first, under its post-image
   * name; a post that gets past the upload is inserted last, with the
   * public URL of the upload; and no insert is sent in any other way.
   */
  lemma UploadBeforeInsert(content: string, image: string, r: PostReplies)
    requires r.decoded.Some? ==> IsByteString(r.decoded.value)
    ensures var rs := PostRequestsOf(content, image, r);
      image != [] && PostOutcomeOf(content, image, r) in {UploadFailed, SaveFailed, Posted} ==>
        |rs| >= 1 && rs[0] == UploadPostImage(PostImageName(r.nowMs), BlobOf(image, r.decoded).value)
    ensures var rs := PostRequestsOf(content, image, r);
      PostOutcomeOf(content, image, r) in {SaveFailed, Posted} ==>
        |rs| >= 1 && rs[|rs| - 1] == InsertPost(content, if image != [] then r.publicUrl else [])
    ensures var rs := PostRequestsOf(content, image, r);
      forall k :: 0 <= k < |rs| && rs[k].InsertPost? ==>
        k == |rs| - 1 && (image != [] <==> k == 1) && (image != [] ==> rs[0].UploadPostImage? && rs[k].imageUrl == r.publicUrl)
    ensures PostOutcomeOf(content, image, r) == Posted ==> r.insert.Ok? && (image != [] ==> r.upload.Ok?)
  {
  }

  // ---------------------------------------------------------------------------

  class HomeFeed {
    const userId: string
    const currentUser: Profile

    var postOffset: nat
    var allPostsLoaded: bool
    var isPosting: bool
    var entries: seq<Entry>

    // The new-post popup: its visibility, text, character counter, pending image and preview, and its post button.
    var popupOpen: bool
    var popupText: string
    var charCount: nat
    var popupImage: string
    var previewShown: bool
    var postButtonDisabled: bool

    var overlay: Option<Overlay>

    /** Every post `fetchPosts` has appended, in order. */
    ghost var fetched: seq<PostRecord>

    ghost predicate Valid()
      reads this
    {
      && postOffset == |fetched|
      && postButtonDisabled == isPosting
      && charCount == |popupText|
      && (forall k :: 0 <= k < |entries| ==> EntryValid(entries[k]))
    }

    /** A load-more button only exists on an element with a comment cursor, whose limit is "3". */
    static predicate EntryValid(e: Entry) {
      && (e.loadMore ==> e.cursor.Some?)
      && (e.cursor.Some? ==> e.cursor.value.limit == COMMENTS_LIMIT)
    }

    constructor (userId: string, currentUser: Profile)
      ensures Valid()
      ensures this.userId == userId && this.currentUser == currentUser
      ensures postOffset == 0 && !allPostsLoaded && !isPosting && entries == [] && fetched == []
      ensures !popupOpen && popupText == [] && popupImage == [] && !previewShown && overlay == None
    {
      this.userId := userId;
      this.currentUser := currentUser;
      postOffset := 0;
      allPostsLoaded := false;
      isPosting := false;
      entries := [];
      popupOpen := false;
      popupText := [];
      charCount := 0;
      popupImage := [];
      previewShown := false;
      postButtonDisabled := false;
      overlay := None;
      fetched := [];
    }

    /** A comment as shown: a missing embedded author is the current user. */
    function WithAuthor(c: CommentRecord): CommentRecord {
      if c.author.Some? then c else c.(author := Some(currentUser))
    }

    // --- posts -------------------------------------------------------------

    /**
     * `fetchPosts`: nothing at all once every post is loaded; otherwise it
     * asks for the inclusive range [offset, offset + 9]. On an error nothing
     * changes; on a page, the page is appended in order, the offset grows by
     * its size, and a short page marks the feed exhausted for good.
     */
    method FetchPosts(reply: Reply<seq<PostRecord>>) returns (request: Option<Range>)
      requires Valid()
      modifies this`postOffset, this`allPostsLoaded, this`entries, this`fetched
      ensures Valid()
      ensures old(allPostsLoaded) ==> allPostsLoaded
      ensures old(allPostsLoaded) ==> request == None && unchanged(this)
      ensures !old(allPostsLoaded) ==> request == Some(Range(old(postOffset), old(postOffset) + POST_LIMIT - 1))
      ensures !old(allPostsLoaded) && reply.Failed? ==> unchanged(this)
      ensures !old(allPostsLoaded) && reply.Ok? ==>
        && entries == old(entries) + MountAll(reply.value)
        && postOffset == old(postOffset) + |reply.value|
        && fetched == old(fetched) + reply.value
        && allPostsLoaded == (|reply.value| < POST_LIMIT)
    {
      if allPostsLoaded {
        return None;
      }
      request := Some(Range(postOffset, postOffset + POST_LIMIT - 1));
      if reply.Failed? {
        return;
      }
      var page := reply.value;
      if |page| < POST_LIMIT {
        allPostsLoaded := true;
      }
      postOffset := postOffset + |page|;
      fetched := fetched + page;
      var k := 0;
      while k < |page|
        modifies this`entries
        invariant 0 <= k <= |page|
        invariant entries == old(entries) + MountAll(page[..k])
        invariant forall j :: 0 <= j < |entries| ==> EntryValid(entries[j])
      {
        assert MountAll(page[..k + 1]) == MountAll(page[..k]) + [Mounted(page[k])];
        entries := entries + [Mounted(page[k])];
        k := k + 1;
      }
      assert page[..k] == page;
    }

    /** The floating button opens the popup. */
    method OpenComposer()
      modifies this`popupOpen
      ensures popupOpen
    {
      popupOpen := true;
    }

    /** Typing into the popup updates the `n/750` counter. */
    method TypePostText(text: string)
      requires Valid()
      modifies this`popupText, this`charCount
      ensures Valid() && popupText == text && charCount == |text|
    {
      popupText := text;
      charCount := |text|;
    }

    /** The file reader's `onload`: the data URL becomes the pending image and is previewed. */
    method ChooseImage(dataUrl: string)
      modifies this`popupImage, this`previewShown
      ensures popupImage == dataUrl && previewShown
    {
      previewShown := true;
      popupImage := dataUrl;
    }

    /** `closePopup`: clears the text, counter, preview and pending image, hides the popup and re-enables posting. */
    method ClosePopup()
      requires Valid()
      modifies this`popupText, this`charCount, this`previewShown, this`popupImage, this`popupOpen,
        this`postButtonDisabled, this`isPosting
      ensures Valid()
      ensures popupText == [] && charCount == 0 && !previewShown && popupImage == [] && !popupOpen
      ensures !postButtonDisabled && !isPosting
    {
      popupText := [];
      charCount := 0;
      previewShown := false;
      popupImage := [];
      popupOpen := false;
      postButtonDisabled := false;
      isPosting := false;
    }

    /**
     * `createPost`: refuses text over 750 characters, ignores an empty
     * submission, uploads the image (if any) before inserting the row, and on
     * success puts the new post at the head of the feed, stamped with the
     * local time and the current user when the reply has no author. The feed
     * cursor is not touched.
     */
    method CreatePost(content: string, image: string, r: PostReplies) returns (outcome: PostOutcome, requests: seq<Request>)
      requires Valid()
      requires r.decoded.Some? ==> IsByteString(r.decoded.value)
      modifies this`entries
      ensures Valid()
      ensures outcome == PostOutcomeOf(content, image, r)
      ensures requests == PostRequestsOf(content, image, r)
      ensures outcome == Posted ==>
        var data := r.insert.value;
        entries == [Rendered(data.(createdAt := r.localTime,
                                   author := Some(if data.author.Some? then data.author.value else currentUser)))]
                   + old(entries)
      ensures outcome != Posted ==> entries == old(entries)
    {
      requests := [];
      if |content| > MAX_POST_LENGTH {
        return TooLong, requests;
      }
      if content == [] && image == [] {
        return NothingToPost, requests;
      }
      var imageUrl := [];
      if image != [] {
        var fileName := PostImageName(r.nowMs);
        var blob := DataUrlToBlob(image, r.decoded);
        if blob.None? {
          return Threw, requests;
        }
        requests := requests + [UploadPostImage(fileName, blob.value)];
        if r.upload.Failed? {
          return UploadFailed, requests;
        }
        imageUrl := r.publicUrl;
      }
      requests := requests + [InsertPost(content, imageUrl)];
      if r.insert.Failed? {
        return SaveFailed, requests;
      }
      var data := r.insert.value;
      var author := if data.author.Some? then data.author.value else currentUser;
      var newPost := data.(createdAt := r.localTime, author := Some(author));
      entries := [Rendered(newPost)] + entries;
      outcome := Posted;
    }

    /**
     * `handlePostSubmission`: ignored while a submission is running;
     * otherwise it disables the button, runs `createPost` on the trimmed text
     * and the pending image, and then closes the popup, which re-enables the
     * button. When `createPost` throws, the popup is not closed and the
     * button stays disabled until the popup's close button is used.
     */
    method SubmitPost(r: PostReplies) returns (outcome: PostOutcome, requests: seq<Request>)
      requires Valid()
      requires r.decoded.Some? ==> IsByteString(r.decoded.value)
      modifies this`isPosting, this`postButtonDisabled, this`entries, this`popupText, this`charCount,
        this`popupImage, this`previewShown, this`popupOpen
      ensures Valid()
      ensures old(isPosting) ==> outcome == Ignored && requests == [] && unchanged(this)
      ensures !old(isPosting) ==>
        && outcome == PostOutcomeOf(Trim(old(popupText)), old(popupImage), r)
        && requests == PostRequestsOf(Trim(old(popupText)), old(popupImage), r)
      ensures !old(isPosting) && outcome == Posted ==>
        var data := r.insert.value;
        entries == [Rendered(data.(createdAt := r.localTime,
                                   author := Some(if data.author.Some? then data.author.value else currentUser)))]
                   + old(entries)
      ensures outcome != Posted ==> entries == old(entries)
      ensures !old(isPosting) && outcome != Threw ==>
        && !isPosting && !postButtonDisabled && !popupOpen
        && popupText == [] && popupImage == [] && !previewShown
      ensures !old(isPosting) && outcome == Threw ==>
        && isPosting && postButtonDisabled && entries == old(entries)
        && popupText == old(popupText) && popupImage == old(popupImage) && popupOpen == old(popupOpen)
        && previewShown == old(previewShown)
    {
      if isPosting {
        return Ignored, [];
      }
      isPosting := true;
      postButtonDisabled := true;
      outcome, requests := CreatePost(Trim(popupText), popupImage, r);
      if outcome != Threw {
        ClosePopup();
      }
    }

    // --- comments ----------------------------------------------------------

    /** `addCommentToDOM`: the comment becomes the first child of the entry's comment container. */
    method PrependComment(i: nat, c: CommentRecord)
      requires Valid() && i < |entries|
      modifies this`entries
      ensures Valid()
      ensures entries == old(entries)[i := old(entries[i]).(comments := [c] + old(entries[i].comments))]
    {
      entries := entries[i := entries[i].(comments := [c] + entries[i].comments)];
    }

    /**
     * `fetchComments`: asks for [offset, offset + limit - 1] of the post's
     * comments. On an error nothing changes. Otherwise the list is cleared
     * unless appending, each comment of the page is put in front, the offset
     * grows by the page size and the load-more button exists exactly when the
     * page was full.
     */
    method FetchComments(i: nat, append: bool, reply: Reply<seq<CommentRecord>>) returns (range: Range)
      requires Valid() && i < |entries| && entries[i].cursor.Some?
      modifies this`entries
      ensures Valid()
      ensures var c := old(entries[i].cursor.value); range == Range(c.offset, c.offset + c.limit - 1)
      ensures reply.Failed? ==> entries == old(entries)
      ensures reply.Ok? ==> entries == old(entries)[i := WithCommentPage(old(entries[i]), append, reply.value)]
    {
      var cursor := entries[i].cursor.value;
      range := Range(cursor.offset, cursor.offset + cursor.limit - 1);
      if reply.Failed? {
        return;
      }
      var batch := reply.value;
      // The comment container: emptied unless appending, then each comment of the page goes first.
      var shown := if append then entries[i].comments else [];
      ghost var base := shown;
      assert batch[..0] == [] && Reversed<CommentRecord>([]) == [];
      var k := 0;
      while k < |batch|
        invariant 0 <= k <= |batch|
        invariant shown == Reversed(batch[..k]) + base
        invariant entries == old(entries)
      {
        ReversedSnoc(batch[..k], batch[k]);
        assert batch[..k + 1] == batch[..k] + [batch[k]];
        assert [batch[k]] + (Reversed(batch[..k]) + base) == Reversed(batch[..k + 1]) + base;
        shown := [batch[k]] + shown;
        k := k + 1;
      }
      assert batch[..k] == batch;
      assert shown == WithCommentPage(entries[i], append, batch).comments;
      entries := entries[i := entries[i].(comments := shown,
                                          cursor := Some(Cursor(cursor.offset + |batch|, cursor.limit)),
                                          loadMore := |batch| == cursor.limit)];
    }

    /** The load-more button fetches the next page of comments and keeps the ones shown. */
    method LoadMoreComments(i: nat, reply: Reply<seq<CommentRecord>>) returns (range: Range)
      requires Valid() && i < |entries| && entries[i].loadMore
      modifies this`entries
      ensures Valid()
      ensures var c := old(entries[i].cursor.value); range == Range(c.offset, c.offset + COMMENTS_LIMIT - 1)
      ensures reply.Failed? ==> entries == old(entries)
      ensures reply.Ok? ==> entries == old(entries)[i := WithCommentPage(old(entries[i]), true, reply.value)]
    {
      assert EntryValid(entries[i]);
      range := FetchComments(i, true, reply);
    }

    /**
     * The toggle button: a hidden section is shown, and fetched only when its
     * comment offset is "0"; a shown section is hidden.
     */
    method ToggleComments(i: nat, reply: Reply<seq<CommentRecord>>) returns (request: Option<Range>)
      requires Valid() && i < |entries|
      modifies this`entries
      ensures Valid()
      ensures old(entries[i].open) ==> request == None && entries == old(entries)[i := old(entries[i]).(open := false)]
      ensures !old(entries[i].open) ==>
        var e := old(entries[i]).(open := true);
        if e.cursor == Some(Cursor(0, COMMENTS_LIMIT)) then
          && request == Some(Range(0, COMMENTS_LIMIT - 1))
          && entries == old(entries)[i := if reply.Ok? then WithCommentPage(e, false, reply.value) else e]
        else
          request == None && entries == old(entries)[i := e]
    {
      if entries[i].open {
        entries := entries[i := entries[i].(open := false)];
        return None;
      }
      entries := entries[i := entries[i].(open := true)];
      request := None;
      if entries[i].cursor.Some? && entries[i].cursor.value.offset == 0 {
        var range := FetchComments(i, false, reply);
        request := Some(range);
      }
    }

    /** Typing into an entry's comment box. */
    method TypeComment(i: nat, text: string)
      requires Valid() && i < |entries|
      modifies this`entries
      ensures Valid()
      ensures entries == old(entries)[i := old(entries[i]).(draft := text)]
    {
      entries := entries[i := entries[i].(draft := text)];
    }

    /**
     * The comment button and `createComment`: blank text is ignored;
     * otherwise the comment is inserted, and on success shown first in the
     * list with the local time and the current user when the reply has no
     * author, and the section is opened. The box is cleared whether or not the
     * insert succeeded; the comment cursor is not touched.
     */
    method SubmitComment(i: nat, reply: Reply<CommentRecord>, localTime: string) returns (requests: seq<Request>)
      requires Valid() && i < |entries|
      modifies this`entries
      ensures Valid()
      ensures Trim(old(entries[i].draft)) == [] ==> requests == [] && entries == old(entries)
      ensures Trim(old(entries[i].draft)) != [] ==>
        && requests == [InsertComment(old(entries[i].post.id), Trim(old(entries[i].draft)))]
        && entries == old(entries)[i :=
             if reply.Failed? then old(entries[i]).(draft := [])
             else old(entries[i]).(comments := [WithAuthor(reply.value.(createdAt := localTime))] + old(entries[i].comments),
                                   open := true, draft := [])]
    {
      var text := Trim(entries[i].draft);
      if text == [] {
        return [];
      }
      requests := [InsertComment(entries[i].post.id, text)];
      var e := entries[i];
      if reply.Ok? {
        e := e.(comments := [WithAuthor(reply.value.(createdAt := localTime))] + e.comments, open := true);
      }
      entries := entries[i := e.(draft := [])];
    }

    /**
     * The realtime handler for an inserted comment: dropped when no entry
     * shows its post; otherwise put first in the first such entry's list,
     * with the current user as author when the payload has none. Cursor,
     * button and section state are left as they are.
     */
    method OnCommentInserted(c: CommentRecord)
      requires Valid()
      modifies this`entries
      ensures Valid()
      ensures FirstWithId(old(entries), c.postId).None? ==> entries == old(entries)
      ensures FirstWithId(old(entries), c.postId).Some? ==>
        var k := FirstWithId(old(entries), c.postId).value;
        entries == old(entries)[k := old(entries[k]).(comments := [WithAuthor(c)] + old(entries[k].comments))]
    {
      var found := FirstWithId(entries, c.postId);
      if found.Some? {
        PrependComment(found.value, WithAuthor(c));
      }
    }

    // --- edit and delete ---------------------------------------------------

    /** The options button exists only on the current user's posts; it opens the overlay, unarmed. */
    method OpenPostOptions(i: nat)
      requires i < |entries|
      modifies this`overlay
      ensures entries[i].post.userId == userId ==> overlay == Some(Overlay(entries[i].post.id, false))
      ensures entries[i].post.userId != userId ==> overlay == old(overlay)
    {
      if entries[i].post.userId == userId {
        overlay := Some(Overlay(entries[i].post.id, false));
      }
    }

    /** A click on the overlay's background closes it, disarming the delete. */
    method DismissOverlay()
      modifies this`overlay
      ensures overlay == None
    {
      overlay := None;
    }

    /**
     * The Edit button: blank text is refused; otherwise the row is updated,
     * and only on success does the entry's paragraph (if it has one) show the
     * new text and the overlay close.
     */
    method EditPost(i: nat, text: string, reply: Reply<()>) returns (requests: seq<Request>)
      requires Valid() && overlay.Some? && i < |entries| && entries[i].post.id == overlay.value.postId
      modifies this`entries, this`overlay
      ensures Valid()
      ensures Trim(text) == [] ==> requests == [] && unchanged(this)
      ensures Trim(text) != [] ==> requests == [UpdatePostContent(old(entries[i].post.id), Trim(text))]
      ensures Trim(text) != [] && reply.Failed? ==> unchanged(this)
      ensures Trim(text) != [] && reply.Ok? ==>
        && overlay == None
        && entries == old(entries)[i := old(entries[i]).(paragraph := if old(entries[i].paragraph).Some? then Some(Trim(text)) else None)]
    {
      var newContent := Trim(text);
      if newContent == [] {
        return [];
      }
      requests := [UpdatePostContent(entries[i].post.id, newContent)];
      if reply.Failed? {
        return;
      }
      if entries[i].paragraph.Some? {
        entries := entries[i := entries[i].(paragraph := Some(newContent))];
      }
      overlay := None;
    }

    /**
     * The Delete button. The first click only arms the confirmation. Once
     * armed, a click deletes the post's comments and then its row; if the row
     * deletion fails the entry stays. Otherwise the stored image (if the post
     * has one) is removed by name and the entry is removed last.
     */
    method DeletePost(i: nat, reply: Reply<()>) returns (requests: seq<Request>)
      requires Valid() && overlay.Some? && i < |entries| && entries[i].post.id == overlay.value.postId
      modifies this`entries, this`overlay
      ensures Valid()
      ensures !old(overlay.value.deleteConfirmed) ==>
        && requests == [] && entries == old(entries) && overlay == Some(old(overlay.value).(deleteConfirmed := true))
      ensures old(overlay.value.deleteConfirmed) ==>
        var post := old(entries[i].post);
        && |requests| >= 2 && requests[..2] == [DeletePostComments(post.id), DeletePostRow(post.id)]
        && (reply.Failed? ==> |requests| == 2 && unchanged(this))
        && (reply.Ok? ==>
              && requests[2..] == (if post.imageUrl != [] then [RemovePostImage(ImageFileName(post.imageUrl))] else [])
              && entries == old(entries)[..i] + old(entries)[i + 1..]
              && overlay == None)
    {
      if !overlay.value.deleteConfirmed {
        overlay := Some(overlay.value.(deleteConfirmed := true));
        return [];
      }
      var post := entries[i].post;
      requests := [DeletePostComments(post.id), DeletePostRow(post.id)];
      if reply.Failed? {
        return;
      }
      if post.imageUrl != [] {
        requests := requests + [RemovePostImage(ImageFileName(post.imageUrl))];
      }
      entries := entries[..i] + entries[i + 1..];
      overlay := None;
    }
  }
}
