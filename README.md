# KU.Buzz page logic in Dafny

KU.Buzz is a small social feed whose pages are plain JavaScript talking to a
hosted backend (auth, tables, file storage and a realtime channel). This
project models the deterministic logic underneath that glue and proves what
it does:

- `time_utils.dfy` (module `TimeUtils`): the relative-age label ("5m", "3h",
  "2w", "0mo", "1y") as a pure function of the clock and the stored instant,
  and the "Z" suffix rule for reading stored timestamps as UTC.
- `home.dfy` (module `Home`): the home feed as a class `HomeFeed` holding the
  post cursor (`postOffset`, `allPostsLoaded`), the submission guard
  (`isPosting`), the new-post popup and a sequence of rendered entries. Each
  entry has its comment list, its comment cursor and its load-more button.
  Every backend reply is a method input. The requests a handler sends come
  back as a result, in order. The module also holds the post-image name rule,
  the `dataURLtoBlob` header parsing and its byte-copy loop over an array.
- `legacy_feed.dfy` (module `LegacyFeed`): the older local-only page as a
  class `Feed`. Posts go on top, comments are appended, comment sections are
  toggled, and a search box filters posts by author.
- `account.dfy` (module `Account`): the profile page. The pure decisions of
  the OK button are functions: when the old image is removed, which storage
  path is removed, and which username and image are saved. The page itself is
  a class `AccountPage` whose OK handler updates what is shown.
- `signup.dfy` (module `SignUp`): the sign-up field check, and the sorting of
  a sign-up error into "already registered" (go on to sign in) or any other
  error.
- `text.dfy` and `basics.dfy`: the JavaScript string operations the pages
  use, stated over `seq<char>` with their own contracts. These are `trim`,
  `toLowerCase`, `indexOf`/`includes`, `endsWith`, `split` and number-to-text.
  `basics.dfy` holds `Option`, `Reply` (a value or an error message) and the
  user `Profile`.

A JavaScript `null` or `undefined` string that the code only tests for
truthiness is modelled as the empty string.

## Model

| member | source | states |
|---|---|---|
| TimeUtils.WithUtcSuffix | assets/js/time-utils.js:3 | the result ends with "Z", is the input extended by at most one character, and is the input itself when that already ends with "Z" |
| TimeUtils.WithUtcSuffixIdempotent | assets/js/time-utils.js:3 | applying the suffix rule twice is the same as applying it once |
| TimeUtils.ElapsedMinutes | assets/js/time-utils.js:10 | the minute count is at least 1, is 1 below two minutes (a future instant included), and is otherwise the floor of the elapsed minutes |
| TimeUtils.AgeOf | assets/js/time-utils.js:10-18 | defines the age `formatLiveTime` picks for an elapsed time (unit and count through the chain of floors and early returns); its properties are stated by `FloorChain`, `UnderTwoMinutes`, `AgeRanges`, `ZeroMonths` and `AgeMonotone` |
| TimeUtils.Label | assets/js/time-utils.js:11-18 | defines the label text: the decimal count followed by "m", "h", "d", "w", "mo" or "y"; see `Examples` |
| TimeUtils.FormatLiveTime | assets/js/time-utils.js:6-18 | defines `formatLiveTime` with the clock passed in: the label of the age of `now - then`; see `Examples`, `AgeRanges` and `AgeMonotone` |
| TimeUtils.FloorChain | assets/js/time-utils.js:10-14 | the chained floor divisions give exactly the whole minutes, hours and days elapsed |
| TimeUtils.UnderTwoMinutes | assets/js/time-utils.js:9-11 | less than two minutes elapsed, or a negative difference, gives 1 minute |
| TimeUtils.AgeRanges | assets/js/time-utils.js:10-18 | each unit is chosen exactly on its millisecond interval, and its count lies in 1..59 m, 1..23 h, 1..6 d, 1..3 w, 0..12 mo, or at least 1 y, and equals the corresponding floor |
| TimeUtils.ZeroMonths | assets/js/time-utils.js:17 | 28 and 29 days give the label "0mo" |
| TimeUtils.AgeMonotone | assets/js/time-utils.js:10-18 | as more time passes the unit never goes back, and within one unit the count never drops |
| TimeUtils.Examples | assets/js/time-utils.js:6-18 | 30 s, 90 min, 3 d, 10 d, 40 d and 400 d give "1m", "1h", "3d", "1w", "1mo" and "1y" |
| Text.Trim | assets/js/signup.js:8-11 | the trimmed text starts and ends with a non-space, is empty exactly when the input is all white space, and is no longer than the input |
| Text.TrimIsInfix | assets/js/signup.js:8-11 | the trimmed text is an infix of the input, and everything cut off before and after it is white space |
| Text.IndexOf | assets/js/account.js:73 | `includes` finds the first occurrence of the marker, or reports that there is none anywhere |
| Text.SplitJoin | assets/js/account.js:74 | joining the pieces of a split with the separator gives the string back |
| Text.SplitPiecesFree | assets/js/account.js:74 | no piece of a split contains the separator |
| Text.SplitLast | assets/js/home.js:422-423 | the last piece of a split ends the string, right after a separator when there are several pieces |
| Text.SplitFirstChar | assets/js/home.js:423 | the first piece of a split on '?' is a '?'-free prefix, followed by '?' unless it is the whole string |
| Text.NatToStringRoundTrip | assets/js/home.js:205-224 | the comment offset written back as decimal text (line 224) reads back as the same number when parsed (line 205) |
| Home.Rendered | assets/js/home.js:238-262 | defines the entry `createPostElement` builds: the post, its paragraph when it has text, no comments, no comment cursor, section closed; see `HomeFeed.CreatePost` |
| Home.Mounted | assets/js/home.js:192-196 | defines the entry `fetchPosts` appends: a rendered post with comment cursor "0"/"3"; see `HomeFeed.FetchPosts` |
| Home.MountAll | assets/js/home.js:192-197 | defines the entries one fetched page appends, in page order; see `HomeFeed.FetchPosts` |
| Home.WithCommentPage | assets/js/home.js:218-236 | defines the entry after a fetched comment page: the reversed page in front of the kept comments, the grown offset and the load-more flag; see `CommentPageEffect`, `LoadMoreOrder` and `HomeFeed.FetchComments` |
| Home.CommentPageEffect | assets/js/home.js:218-236 | a page of comments lands reversed in front of what is kept, the comment offset grows by the page size, and the load-more button exists exactly when the page was full |
| Home.LoadMoreOrder | assets/js/home.js:218-224 | a first page followed by a load-more page shows the reverse of both pages in server order, and the offset grows by both sizes |
| Home.FirstWithId | assets/js/home.js:101 | the lookup finds the first entry showing the post, or says that no entry shows it |
| Home.LastSegment | assets/js/home.js:422-423 | defines `split('/').pop()`; see `LastSegmentShape` |
| Home.ImageFileName | assets/js/home.js:422-423 | defines the stored name of a post image; see `ImageFileNameShape` and `HomeFeed.DeletePost` |
| Home.LastSegmentShape | assets/js/home.js:422-423 | the last '/'-segment has no '/', ends the URL, and follows a '/' when it is not the whole URL |
| Home.ImageFileNameShape | assets/js/home.js:421-424 | the stored post-image name is a prefix of the last '/'-segment of its URL that stops right before its first '?', if any, and holds neither '/' nor '?' |
| Home.MimeOf | assets/js/home.js:113 | defines the MIME type the header's `/:(.*?);/` match yields, if any; see `MimeOfAbsent` and `MimeOfShape` |
| Home.BlobOf | assets/js/home.js:111-121 | defines the blob `dataURLtoBlob` returns, or its failure when it would throw; `DataUrlToBlob` is proved to compute it |
| Home.MimeOfAbsent | assets/js/home.js:113 | there is no MIME match exactly when the header has no ':' or no ';' after its first ':' |
| Home.MimeOfShape | assets/js/home.js:113 | the MIME type is the shortest text between the first ':' and a ';' after it |
| Home.CopyBytes | assets/js/home.js:115-119 | the `while (n--)` loop fills an array as long as the decoded string with each character's code |
| Home.DataUrlToBlob | assets/js/home.js:111-121 | the blob has the header's MIME type and the copied bytes; it is absent when the header has no MIME type, there is no payload, or decoding fails |
| Home.PostImageName | assets/js/home.js:140 | defines the upload name `post_<now>.png`; see `UploadBeforeInsert` |
| Home.PostOutcomeOf | assets/js/home.js:132-176 | defines where `createPost` ends: refused as too long, nothing to post, thrown, upload failed, save failed, or posted; see `PostValidation`, `UploadBeforeInsert` and `HomeFeed.CreatePost` |
| Home.PostRequestsOf | assets/js/home.js:139-164 | defines the requests `createPost` sends: the image upload, when there is an image, then the insert; see `PostValidation`, `UploadBeforeInsert` and `HomeFeed.CreatePost` |
| Home.PostValidation | assets/js/home.js:133-137 | a post is refused as too long exactly when it has more than 750 characters, and then nothing is sent; exactly 750 is accepted; with neither text nor image nothing is sent |
| Home.UploadBeforeInsert | assets/js/home.js:139-168 | a post with an image that gets past the blob sends the upload first, under its post-image name and with the blob; a post that gets past the upload sends the insert last, with its text and the upload's public URL (none without an image); an insert is never sent otherwise, and a post is shown only after both succeed |
| Home.HomeFeed.constructor | assets/js/home.js:27-40 | the feed starts at offset 0, not exhausted, not posting, with no entries and an empty popup |
| Home.HomeFeed.FetchPosts | assets/js/home.js:177-198 | an exhausted feed sends nothing and changes nothing, and stays exhausted; otherwise it asks for [offset, offset + 9]; an error changes nothing; a page is appended in order with comment cursor "0"/"3", the offset grows by its size (so it always counts the fetched posts), and a short page marks the feed exhausted |
| Home.HomeFeed.OpenComposer | assets/js/home.js:45-49 | the floating button opens the popup |
| Home.HomeFeed.TypePostText | assets/js/home.js:41-44 | the counter shows the text's length |
| Home.HomeFeed.ChooseImage | assets/js/home.js:70-74 | the read image becomes the pending image and is previewed |
| Home.HomeFeed.ClosePopup | assets/js/home.js:50-61 | the text, counter, preview and pending image are cleared, the popup hidden, and posting re-enabled |
| Home.HomeFeed.CreatePost | assets/js/home.js:132-176 | the outcome and the requests are those of the validation and reply chain; only a saved post is shown, at the head of the feed, with the local time and the current user when the reply has no author |
| Home.HomeFeed.SubmitPost | assets/js/home.js:79-85 | a submission while one is running is ignored; otherwise `createPost` runs on the trimmed text and pending image: a saved post goes first in the feed with the local time and the current user when it has no author, and any other outcome leaves the entries as they were; the popup is closed afterwards unless `createPost` threw, which leaves the button disabled |
| Home.HomeFeed.PrependComment | assets/js/home.js:354 | a comment becomes the first of its entry's list and nothing else changes |
| Home.HomeFeed.FetchComments | assets/js/home.js:204-237 | the request is [offset, offset + limit - 1]; an error changes nothing; otherwise the entry becomes its comment page effect and no other entry changes |
| Home.HomeFeed.LoadMoreComments | assets/js/home.js:230 | the load-more button fetches the next page and keeps the comments shown |
| Home.HomeFeed.ToggleComments | assets/js/home.js:280-291 | a shown section is hidden; a hidden one is shown and fetched only when its comment offset is "0" |
| Home.HomeFeed.TypeComment | assets/js/home.js:294 | typing changes only that entry's comment box |
| Home.HomeFeed.SubmitComment | assets/js/home.js:296-337 | blank text sends nothing; otherwise the trimmed comment is inserted, shown first and the section opened on success, and the box is cleared either way |
| Home.HomeFeed.WithAuthor | assets/js/home.js:103-105 | defines the realtime comment as shown: without an embedded author, the current user; see `OnCommentInserted` |
| Home.HomeFeed.OnCommentInserted | assets/js/home.js:99-108 | a comment for a post with no entry is dropped; otherwise it goes first in the first such entry, with the current user as author when it has none |
| Home.HomeFeed.OpenPostOptions | assets/js/home.js:270-273 | only the owner's posts open the overlay, unarmed |
| Home.HomeFeed.DismissOverlay | assets/js/home.js:382-386 | a click on the background closes the overlay |
| Home.HomeFeed.EditPost | assets/js/home.js:387-406 | blank text is refused; an update error changes nothing; success changes only the entry's paragraph and closes the overlay |
| Home.HomeFeed.DeletePost | assets/js/home.js:407-432 | the first click only arms the delete; then the comments and the row are deleted; a row error keeps the entry; otherwise the image is removed by its stored name and the entry is removed last |
| LegacyFeed.NewPost | assets/js/script.js:46-70 | defines the post `createPost` builds: the text and image, the local author, no comments, section unset, label "Show Comments"; see `Feed.CreatePost` |
| LegacyFeed.LabelFor | assets/js/script.js:76-82 | defines the toggle label that goes with a section display; see `Feed.Toggle` |
| LegacyFeed.Toggled | assets/js/script.js:76-82 | an unset or hidden section is shown and a shown one is hidden |
| LegacyFeed.ToggleTwice | assets/js/script.js:75-83 | two toggles restore a section that had been toggled before |
| LegacyFeed.Matches | assets/js/script.js:135-136 | defines the filter test: the lower-cased author contains the query; see `Filtered`, `FilterEmptyShowsAll` and `FilterIgnoresCase` |
| LegacyFeed.Filtered | assets/js/script.js:132-137 | every post gets a display; it is shown exactly when its lower-cased author contains the query, and nothing but the display changes |
| LegacyFeed.FilterEmptyShowsAll | assets/js/script.js:125 | the empty query shows every post |
| LegacyFeed.FilterOverrides | assets/js/script.js:132-137 | a filter undoes any earlier one, and filtering again with the same query changes nothing |
| LegacyFeed.FilterIgnoresCase | assets/js/script.js:129-135 | the letter case of the author and the query does not matter |
| LegacyFeed.Feed.constructor | assets/js/script.js:10 | the page starts with no posts, no pending image and search closed |
| LegacyFeed.Feed.OpenComposer | assets/js/script.js:11-13 | the floating button opens the popup |
| LegacyFeed.Feed.TypePostText | assets/js/script.js:28 | typing sets the popup text |
| LegacyFeed.Feed.ChooseImage | assets/js/script.js:19-23 | the read image is previewed and becomes the pending image |
| LegacyFeed.Feed.ClosePopup | assets/js/script.js:38-45 | the text, preview, pending image and file input are cleared and the popup hidden |
| LegacyFeed.Feed.CreatePost | assets/js/script.js:46-71 | with neither text nor image nothing happens; otherwise the new post goes first |
| LegacyFeed.Feed.Submit | assets/js/script.js:27-37 | the trimmed text is posted and the popup is always closed, even when nothing was posted |
| LegacyFeed.Feed.Toggle | assets/js/script.js:75-83 | the section display flips and the label keeps matching it |
| LegacyFeed.Feed.TypeComment | assets/js/script.js:85 | typing changes only that post's comment box |
| LegacyFeed.Feed.SubmitComment | assets/js/script.js:87-113 | whitespace-only text is ignored; otherwise the trimmed text is appended as the last comment and the box cleared |
| LegacyFeed.Feed.FilterPosts | assets/js/script.js:132-138 | the loop leaves the posts as the filter specifies |
| LegacyFeed.Feed.SearchInput | assets/js/script.js:128-131 | typing filters by the lower-cased input |
| LegacyFeed.Feed.SearchButton | assets/js/script.js:118-127 | the button toggles search; closing it clears the input and shows every post |
| Account.RemovesOldImageAsWritten | assets/js/account.js:73 | defines the removal guard as written: a non-empty image, not the local placeholder, that contains the marker; see `AsWrittenRemovesSignupDefault` |
| Account.RemovesOldImage | assets/js/account.js:73 | defines the corrected guard, which also spares the sign-up default image; see `DefaultsNeverRemoved` |
| Account.OldImagePath | assets/js/account.js:74-76 | defines the stored path of the old image: when a leftmost, non-overlapping split at the marker gives exactly two pieces, the second one cut at its first '?'; see `OldImagePathSpec`, `Text.SplitFirstChar` and `RemovalPathHasNoQuery` |
| Account.OldImagePathSpec | assets/js/account.js:74-77 | a path exists exactly when the marker occurs and the text after the end of its first occurrence holds no further marker (an overlapping second occurrence does not count); the path is that text up to its first '?' |
| Account.SavedUsername | assets/js/account.js:92-94 | defines the username the handler saves: the trimmed input, else the loaded name or "Current Username" (line 69); see `SavedUsernameRules` |
| Account.KeptImage | assets/js/account.js:68 | defines the image saved without a file; see `KeptImageRules` |
| Account.UploadPath | assets/js/account.js:82 | defines the upload path `public/<now>_<file name>`; see `SaveRequestOrder` |
| Account.OldImageRemoval | assets/js/account.js:73-78 | defines the removal request, if any, under the written or the corrected guard; see `RemovalShape`, `RemovalPathHasNoQuery`, `AsWrittenRemovesSignupDefault` and `DefaultsNeverRemoved` |
| Account.SavedImage | assets/js/account.js:68-90 | defines the image the handler saves: the upload's public URL with a file, else the kept image; see `SaveRequestOrder` |
| Account.SaveRequests | assets/js/account.js:72-99 | defines the requests of one OK click; see `SaveRequestOrder`, and `AccountPage.OkClick`/`OkClickRefreshing`, which are proved to send them |
| Account.SaveRequestOrder | assets/js/account.js:72-99 | under either removal guard, a chosen file is uploaded under `public/<now>_<file name>` right after the removal requests, which come first; an upload error means no update; otherwise the update is last and carries the saved username and image; without a file only the update is sent |
| Account.SavedUsernameRules | assets/js/account.js:92-94 | the saved name is the trimmed input when it is not blank, else the record's name, else "Current Username" (line 69), and is never empty |
| Account.KeptImageRules | assets/js/account.js:68 | without a file the saved image is the record's image or the default path, never empty |
| Account.RemovalShape | assets/js/account.js:72-77 | at most one removal request is issued for the old image |
| Account.RemovalPathHasNoQuery | assets/js/account.js:76 | under either guard, a removed path contains no '?' |
| Account.OnlyMarkerAfter | assets/js/account.js:74-76 | a helper for URLs of one narrow shape: a prefix with no '-' whose last character is not in "/profile", the marker, and a tail shorter than the marker; such a URL holds the marker and yields the tail up to any '?' |
| Account.AsWrittenRemovesSignupDefault | assets/js/account.js:73-77 | the guard as written lets the sign-up default image through and removes "/default.jpg" |
| Account.DefaultsNeverRemoved | assets/js/account.js:73 | the corrected guard never removes the local placeholder, the sign-up default image or an empty image |
| Account.AsWrittenSecondSaveReverts | assets/js/account.js:68-69 | with the loaded record never refreshed, a second save with a blank name writes back the old name |
| Account.ResaveKeepsProfile | assets/js/account.js:105-111 | once the record is refreshed, saving again with a blank name and no file writes the same profile |
| Account.AccountPage.constructor | assets/js/account.js:23-30 | the page shows the record's image and username, or the placeholders |
| Account.AccountPage.OpenPopup | assets/js/account.js:44-50 | the change button opens the popup |
| Account.AccountPage.TypeUsername | assets/js/account.js:92 | typing sets the username input |
| Account.AccountPage.ChooseFile | assets/js/account.js:52-65 | a chosen file is previewed |
| Account.AccountPage.OkClick | assets/js/account.js:67-112 | the handler as written: the requests are the save requests under the written guard, computed from the loaded record; an upload or update error leaves the page as it was; success shows the saved profile, clears the inputs and hides the popup, and the loaded record stays as it was |
| Account.AccountPage.OkClickRefreshing | assets/js/account.js:67-112 | the corrected handler: the requests are the save requests under the corrected guard; on success the saved profile also becomes the record the next save starts from |
| Account.AccountPage.Save | assets/js/account.js:67-112 | the handler body under either guard: the requests are the save requests; a profile is saved exactly when neither the upload nor the update failed, and it is the saved username and image; without a save the page is unchanged |
| Account.AccountPage.ShowSaved | assets/js/account.js:105-111 | the page shows the saved profile and remembers it as the last one saved, clears the inputs and hides the popup; the loaded record is not touched |
| SignUp.Validate | assets/js/signup.js:8-24 | defines the sign-up field check and its message; see `ValidateSpec`, `MissingFieldFirst`, `BlankFieldMissing`, `BlankPasswordAccepted` and `TrailingSpaceMismatch` |
| SignUp.ValidateSpec | assets/js/signup.js:8-24 | the check reports a missing field exactly when a field is empty after its trimming, a mismatch exactly when all are filled and the passwords differ, and passes otherwise |
| SignUp.MissingFieldFirst | assets/js/signup.js:15-24 | a missing field is reported even when the passwords also differ |
| SignUp.BlankFieldMissing | assets/js/signup.js:8-19 | a name, username or email of white space counts as missing |
| SignUp.BlankPasswordAccepted | assets/js/signup.js:12-15 | passwords are not trimmed: "   " repeated in the confirmation passes |
| SignUp.TrailingSpaceMismatch | assets/js/signup.js:20-24 | a confirmation that differs only by a trailing space is a mismatch |
| SignUp.IsAlreadyRegistered | assets/js/signup.js:37 | defines the "already registered" classification of a sign-up error; see `ClassificationIgnoresCase`, `PhraseIsRecognised` and `RecognisedHasPhrase` |
| SignUp.ClassificationIgnoresCase | assets/js/signup.js:37 | the classification ignores letter case |
| SignUp.PhraseIsRecognised | assets/js/signup.js:37 | any message holding the phrase in any letter case (any text whose lower case is "already registered") is classified as already registered |
| SignUp.RecognisedHasPhrase | assets/js/signup.js:37 | conversely, a message classified as already registered holds the phrase in some letter case |
| SignUp.HandleSignUp | assets/js/signup.js:7-103 | defines where the sign-up handler goes up to authentication and the backend calls it makes, an exception from either call going to the generic message of the catch at lines 99-103; see `RejectedBeforeBackend` and `SignInOnlyWhenRegistered` |
| SignUp.RejectedBeforeBackend | assets/js/signup.js:15-24 | a form that fails the check makes no backend call |
| SignUp.SignInOnlyWhenRegistered | assets/js/signup.js:28-103 | sign-in is attempted exactly for an "already registered" error, with the trimmed email and the untrimmed password; any other sign-up error's message, and a sign-in error's, is shown verbatim; an exception from either call shows the generic message |

## Left out

- The backend SDK (auth, table queries, storage, the realtime channel) is not modelled. Each reply is an input of the handler that awaits it, and the requests sent are a result. Redirects, `alert` and `console` are left out.
- DOM construction and the HTML templates are left out. An entry records only what the handlers read back: the post, the paragraph, the comments, the cursor, the load-more button, the section state and the comment box. HTML escaping is left out too.
- The one-minute refresh timer (assets/js/home.js:122-131) and `FileReader` are left out; a read file is the argument of `ChooseImage`/`ChooseFile`.
- Concurrency is not modelled. Handlers run one after another, so two overlapping `fetchPosts` calls from the scroll listener (assets/js/home.js:199-203) are not represented.
- Clocks are parameters (`nowMs`, `localTime`). Parsing a date string is not modelled, nor is a `NaN` label from an unparsable one.
- `atob` is not modelled. `decoded` is what it returned, or `None` when it threw. `Blob` is a datatype.
- The regular expression `/:(.*?);/` is modelled as "from the first ':' to the next ';'". Its `.` does not match line terminators, and the model ignores that.
- String lengths count characters, not UTF-16 code units. `toLowerCase` is modelled on ASCII letters only.
- The user-record reconciliation after authentication (assets/js/signup.js:61-96) is not part of this model: it is a sequence of backend calls whose branching depends only on remote replies. assets/js/index.js is not part of this model either.
- The profile button image on the home page (assets/js/home.js:22-26) and the display fallbacks of `createPostElement`/`addCommentToDOM` ("Unknown User", default image) are display only and left out.
- Only one post-options overlay is modelled at a time. The source can stack several overlays.
- Creating or deleting a post does not move the feed's post cursor, in the model as in the code, so a later page can repeat or skip a post.
- Each fetched page of comments, newest first from the server, is shown oldest first, because every comment is inserted at the front of its list. `Home.CommentPageEffect` and `Home.LoadMoreOrder` state that order.
- Account.OnlyMarkerAfter: it covers only URLs of the shape the sign-up default image has, which is all `Account.AsWrittenRemovesSignupDefault` needs; the general path extraction of assets/js/account.js:74-76 is stated by `Account.OldImagePathSpec`.

## Findings

| source | as written | input that shows it | evidently intended | confidence | as-written member | corrected member |
|---|---|---|---|---|---|---|
| assets/js/account.js:73 | the old image is removed unless it is empty, equals the local placeholder path, or lacks "/profile-images/"; the sign-up page stores every new user's image as the shared storage URL ending in "profile-images//default.jpg" (assets/js/signup.js:86) | a freshly signed-up user uploads a picture: the guard passes and "/default.jpg", the image every new account shares, is removed | the shared sign-up default is never removed, like the local placeholder | medium, not executed | Account.AsWrittenRemovesSignupDefault, Account.AccountPage.OkClick | Account.DefaultsNeverRemoved, Account.AccountPage.OkClickRefreshing |
| assets/js/account.js:68-69 | the handler computes the fallbacks from `currentUser`, which is loaded once (line 21) and never updated after a save (lines 105-111) | save the name "alice" on a page loaded with "bob", then press OK again with a blank name and no file: "bob" is written back | a later save starts from the profile last saved | high, not executed | Account.AsWrittenSecondSaveReverts, Account.AccountPage.OkClick | Account.ResaveKeepsProfile, Account.AccountPage.OkClickRefreshing |
