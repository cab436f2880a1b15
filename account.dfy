/**
 * The account page: the profile the page shows, and the OK button that
 * removes the old stored image, uploads a new one, and saves the chosen
 * username and image. The decisions of the handler are functions of the
 * loaded user record and the inputs; the handler itself updates the page.
 */
module Account {
  import opened Basics
  import opened Text

  /** The local placeholder the page shows, and saves, when the record has no image. */
  const DEFAULT_PROFILE_IMAGE: string := "Assets/Images/default-logo.jpg"
  const DEFAULT_USERNAME: string := "Current Username"
  /** The path segment that marks an image stored in the `profile-images` bucket. */
  const MARKER: string := "/profile-images/"
  /** The image URL the sign-up page stores for every new user. */
  const SIGNUP_DEFAULT_IMAGE: string := STORAGE_URL + MARKER + "/default.jpg"
  /** The public URL of the project's storage, up to the bucket name. */
  const STORAGE_URL: string :=
    "https://" + "zobmevhwmacbmierdlca" + ".supabase.co" + "/storage" + "/v1" + "/object" + "/public"

  /** The storage requests of the OK handler and the profile update. */
  datatype Request =
    | RemoveProfileImage(path: string)
    | UploadProfileImage(path: string)
    | UpdateProfile(username: string, profileImage: string)

  /** The guard in front of the removal of the old image, as the handler writes it. */
  predicate RemovesOldImageAsWritten(profileImage: string) {
    profileImage != [] && profileImage != DEFAULT_PROFILE_IMAGE && Contains(profileImage, MARKER)
  }

  /** The guard as intended: the shared default image stored at sign-up is never removed either. */
  predicate RemovesOldImage(profileImage: string) {
    RemovesOldImageAsWritten(profileImage) && profileImage != SIGNUP_DEFAULT_IMAGE
  }

  /** The stored path of an image: split on the marker; with exactly two parts, the second one cut at its first '?'. */
  function OldImagePath(url: string): Option<string> {
    var parts := Split(url, MARKER);
    if |parts| == 2 then Some(Split(parts[1], "?")[0]) else None
  }

  /**
   * A path is extracted exactly when the marker occurs once; the path is the
   * text after that occurrence up to, and not including, its first '?'.
   */
  lemma OldImagePathSpec(url: string)
    ensures OldImagePath(url).Some? <==>
      Contains(url, MARKER) && !Contains(url[IndexOf(url, MARKER).value + |MARKER|..], MARKER)
    ensures OldImagePath(url).Some? ==>
      var rest := url[IndexOf(url, MARKER).value + |MARKER|..];
      var path := OldImagePath(url).value;
      && |path| <= |rest| && rest[..|path|] == path && '?' !in path
      && (|path| < |rest| ==> rest[|path|] == '?')
  {
    var i := IndexOf(url, MARKER);
    if i.Some? {
      var rest := url[i.value + |MARKER|..];
      assert Split(url, MARKER) == [url[..i.value]] + Split(rest, MARKER);
      if !Contains(rest, MARKER) {
        assert Split(rest, MARKER) == [rest];
        SplitFirstChar(rest, '?');
      } else {
        var j := IndexOf(rest, MARKER).value;
        assert |Split(rest, MARKER)| >= 2 by {
          assert Split(rest, MARKER) == [rest[..j]] + Split(rest[j + |MARKER|..], MARKER);
        }
      }
    }
  }

  /** The username the handler saves: the trimmed input if any, else the record's, else the placeholder. */
  function SavedUsername(record: Profile, usernameInput: string): string {
    if Trim(usernameInput) != [] then Trim(usernameInput) else OrElse(record.username, DEFAULT_USERNAME)
  }

  /** The image the handler saves when no file is chosen: the record's, else the local placeholder. */
  function KeptImage(record: Profile): string {
    OrElse(record.profileImage, DEFAULT_PROFILE_IMAGE)
  }

  /** The upload path of a new image: `public/<now>_<file name>`. */
  function UploadPath(nowMs: nat, fileName: string): string {
    "public/" + NatToString(nowMs) + "_" + fileName
  }

  /**
   * The removal the handler issues before an upload, if any: under the guard
   * as written, or under the intended guard.
   */
  function OldImageRemoval(record: Profile, asWritten: bool): seq<Request> {
    var guard := if asWritten then RemovesOldImageAsWritten(record.profileImage) else RemovesOldImage(record.profileImage);
    if guard && OldImagePath(record.profileImage).Some? then
      [RemoveProfileImage(OldImagePath(record.profileImage).value)]
    else []
  }

  /** The image the handler saves: the uploaded file's public URL, or the kept image. */
  function SavedImage(record: Profile, chosenFile: Option<string>, publicUrl: string): string {
    if chosenFile.Some? then publicUrl else KeptImage(record)
  }

  /**
   * The requests of one OK click: with a file, the removal (if any) and the
   * upload; then, unless the upload failed, the profile update.
   */
  function SaveRequests(record: Profile, usernameInput: string, chosenFile: Option<string>, nowMs: nat,
                        upload: Reply<()>, publicUrl: string, asWritten: bool): seq<Request>
  {
    var before := if chosenFile.Some? then OldImageRemoval(record, asWritten) + [UploadProfileImage(UploadPath(nowMs, chosenFile.value))] else [];
    if chosenFile.Some? && upload.Failed? then before
    else before + [UpdateProfile(SavedUsername(record, usernameInput), SavedImage(record, chosenFile, publicUrl))]
  }

  /**
   * The order of one OK click: any removal of the old image is the first
   * request and comes before the upload; an upload error means no profile
   * update; otherwise the update is the last request and carries the saved
   * username and image; a chosen file is uploaded under its upload path
   * right after the removal; without a file only the update is sent.
   */
  lemma SaveRequestOrder(record: Profile, usernameInput: string, chosenFile: Option<string>, nowMs: nat,
                         upload: Reply<()>, publicUrl: string, asWritten: bool)
    ensures var rs := SaveRequests(record, usernameInput, chosenFile, nowMs, upload, publicUrl, asWritten);
      && 1 <= |rs| <= 3
      && (forall k :: 0 <= k < |rs| && rs[k].RemoveProfileImage? ==> k == 0 && chosenFile.Some? && rs[1].UploadProfileImage?)
      && (chosenFile.None? ==> rs == [UpdateProfile(SavedUsername(record, usernameInput), KeptImage(record))])
      && (chosenFile.Some? ==>
            var removal := OldImageRemoval(record, asWritten);
            |removal| < |rs| && rs[..|removal|] == removal
            && rs[|removal|] == UploadProfileImage(UploadPath(nowMs, chosenFile.value)))
      && (chosenFile.Some? && upload.Failed? <==> !rs[|rs| - 1].UpdateProfile?)
      && (rs[|rs| - 1].UpdateProfile? ==>
            rs[|rs| - 1] == UpdateProfile(SavedUsername(record, usernameInput), SavedImage(record, chosenFile, publicUrl)))
  {
    RemovalShape(record, asWritten);
  }

  /** At most one removal is issued, and it is a removal. */
  lemma RemovalShape(record: Profile, asWritten: bool)
    ensures |OldImageRemoval(record, asWritten)| <= 1
    ensures forall k :: 0 <= k < |OldImageRemoval(record, asWritten)| ==> OldImageRemoval(record, asWritten)[k].RemoveProfileImage?
  {
  }

  /**
   * The username rule: the saved name is never empty; it is the trimmed
   * input when that is not blank, and otherwise the record's name, or the
   * placeholder when the record has none.
   */
  lemma SavedUsernameRules(record: Profile, usernameInput: string)
    ensures SavedUsername(record, usernameInput) != []
    ensures !IsBlank(usernameInput) ==> SavedUsername(record, usernameInput) == Trim(usernameInput)
    ensures IsBlank(usernameInput) && record.username != [] ==> SavedUsername(record, usernameInput) == record.username
    ensures IsBlank(usernameInput) && record.username == [] ==> SavedUsername(record, usernameInput) == DEFAULT_USERNAME
  {
  }

  /** Without a file the saved image is never empty: the record's image, or the placeholder. */
  lemma KeptImageRules(record: Profile)
    ensures KeptImage(record) != []
    ensures record.profileImage != [] ==> KeptImage(record) == record.profileImage
    ensures record.profileImage == [] ==> KeptImage(record) == DEFAULT_PROFILE_IMAGE
  {
  }

  /**
   * Once a save is reflected in the record, saving again with a blank name
   * and no file writes the same profile again.
   */
  lemma ResaveKeepsProfile(record: Profile, usernameInput: string, image: string, blank: string)
    requires image != [] && IsBlank(blank)
    ensures var saved := Profile(SavedUsername(record, usernameInput), image);
      SavedUsername(saved, blank) == saved.username && KeptImage(saved) == image
  {
    SavedUsernameRules(record, usernameInput);
  }

  /** The default image is never removed: neither the local placeholder nor the sign-up image. */
  lemma DefaultsNeverRemoved(record: Profile)
    requires record.profileImage == DEFAULT_PROFILE_IMAGE || record.profileImage == SIGNUP_DEFAULT_IMAGE
      || record.profileImage == []
    ensures OldImageRemoval(record, false) == []
  {
  }

  /** A removal request, when one is issued, names a path that contains no '?'. */
  lemma RemovalPathHasNoQuery(record: Profile, asWritten: bool)
    ensures forall k :: 0 <= k < |OldImageRemoval(record, asWritten)| ==> '?' !in OldImageRemoval(record, asWritten)[k].path
  {
    OldImagePathSpec(record.profileImage);
  }

  /** No marker starts inside `p` when `p` has no '-' and ends with a character outside "/profile". */
  lemma NoMarkerInside(p: string, rest: string, k: nat)
    requires '-' !in p && p != [] && p[|p| - 1] !in MARKER[..8] && k < |p|
    ensures !OccursAt(p + MARKER + rest, MARKER, k)
  {
    var s := p + MARKER + rest;
    if k + |MARKER| <= |s| {
      if k + 8 < |p| {
        assert s[k + 8] == p[k + 8];
        assert s[k..k + |MARKER|][8] != MARKER[8];
      } else {
        var j := |p| - 1 - k;
        assert s[|p| - 1] == p[|p| - 1];
        assert MARKER[j] == MARKER[..8][j];
        assert s[k..k + |MARKER|][j] != MARKER[j];
      }
    }
  }

  /** Under the same condition, the first marker of `p + MARKER + rest` is the one right after `p`. */
  lemma MarkerAfter(p: string, rest: string)
    requires '-' !in p && p != [] && p[|p| - 1] !in MARKER[..8]
    ensures IndexOf(p + MARKER + rest, MARKER) == Some(|p|)
  {
    var s := p + MARKER + rest;
    assert s[|p|..|p| + |MARKER|] == MARKER;
    assert OccursAt(s, MARKER, |p|);
    forall k | 0 <= k < |p|
      ensures !OccursAt(s, MARKER, k)
    {
      NoMarkerInside(p, rest, k);
    }
  }

  /**
   * The as-written guard lets the sign-up default image through: a user who
   * never changed their picture and now uploads one issues a removal of
   * "/default.jpg", the image every new account shares.
   */
  lemma AsWrittenRemovesSignupDefault()
    ensures RemovesOldImageAsWritten(SIGNUP_DEFAULT_IMAGE)
    ensures OldImagePath(SIGNUP_DEFAULT_IMAGE) == Some("/default.jpg")
    ensures !RemovesOldImage(SIGNUP_DEFAULT_IMAGE)
    ensures forall username :: OldImageRemoval(Profile(username, SIGNUP_DEFAULT_IMAGE), true) == [RemoveProfileImage("/default.jpg")]
  {
    StorageUrlShape();
    OnlyMarkerAfter(STORAGE_URL, "/default.jpg");
    ContainsChar("/default.jpg", '?');
    assert Split("/default.jpg", "?") == ["/default.jpg"];
    assert OldImagePath(SIGNUP_DEFAULT_IMAGE) == Some("/default.jpg");
  }

  /** When the marker occurs right after `p` and nowhere else, the path is what follows it, up to any '?'. */
  lemma OnlyMarkerAfter(p: string, rest: string)
    requires '-' !in p && p != [] && p[|p| - 1] !in MARKER[..8] && |rest| < |MARKER|
    ensures Contains(p + MARKER + rest, MARKER)
    ensures OldImagePath(p + MARKER + rest) == Some(Split(rest, "?")[0])
  {
    MarkerAfter(p, rest);
    SplitOnce(p, MARKER, rest);
  }

  /** The storage URL holds no '-' and ends in 'c', which is not in "/profile". */
  lemma StorageUrlShape()
    ensures '-' !in STORAGE_URL && STORAGE_URL != [] && STORAGE_URL[|STORAGE_URL| - 1] !in MARKER[..8]
  {
    assert MARKER[..8] == "/profile";
  }

  /**
   * The loaded record is never refreshed after a save, so a second save with
   * a blank name writes the name the page loaded with, undoing the first
   * save's new name.
   */
  lemma AsWrittenSecondSaveReverts(loaded: Profile, firstInput: string, blank: string)
    requires !IsBlank(firstInput) && Trim(firstInput) != OrElse(loaded.username, DEFAULT_USERNAME) && IsBlank(blank)
    ensures SavedUsername(loaded, firstInput) == Trim(firstInput)
    ensures SavedUsername(loaded, blank) != SavedUsername(loaded, firstInput)
  {
  }

  class AccountPage {
    const userId: string
    /**
     * The user record loaded with the page (`currentUser`). The handler as
     * written never refreshes it; the corrected handler does.
     */
    var record: Profile
    var shownImage: string
    var shownUsername: string
    var popupOpen: bool
    var usernameInput: string
    /** The name of the file chosen in the file input, if any. */
    var chosenFile: Option<string>
    var previewShown: bool
    /** The profile last saved from this page, if any. */
    ghost var lastSaved: Option<Profile>

    /**
     * Until a save succeeds, the page shows the record's username and image,
     * or the placeholders for what it lacks; afterwards it shows the profile
     * last saved.
     */
    ghost predicate Valid()
      reads this
    {
      && (lastSaved.None? ==>
            shownUsername == OrElse(record.username, DEFAULT_USERNAME) && shownImage == KeptImage(record))
      && (lastSaved.Some? ==>
            shownUsername == lastSaved.value.username && shownImage == lastSaved.value.profileImage)
    }

    constructor (userId: string, loaded: Profile)
      ensures Valid()
      ensures this.userId == userId && record == loaded && lastSaved == None
      ensures shownImage == KeptImage(loaded) && shownUsername == OrElse(loaded.username, DEFAULT_USERNAME)
      ensures !popupOpen && usernameInput == [] && chosenFile == None && !previewShown
    {
      this.userId := userId;
      record := loaded;
      shownImage := OrElse(loaded.profileImage, DEFAULT_PROFILE_IMAGE);
      shownUsername := OrElse(loaded.username, DEFAULT_USERNAME);
      popupOpen := false;
      usernameInput := [];
      chosenFile := None;
      previewShown := false;
      lastSaved := None;
    }

    /** The change button, when its label is not "Save", opens the popup. */
    method OpenPopup()
      modifies this`popupOpen
      ensures popupOpen
    {
      popupOpen := true;
    }

    method TypeUsername(text: string)
      modifies this`usernameInput
      ensures usernameInput == text
    {
      usernameInput := text;
    }

    /** A chosen file is previewed once read. */
    method ChooseFile(fileName: string)
      modifies this`chosenFile, this`previewShown
      ensures chosenFile == Some(fileName) && previewShown
    {
      chosenFile := Some(fileName);
      previewShown := true;
    }

    /**
     * The OK button as written. With a file, the old stored image is removed
     * first (when the written guard passes and a path is found), then the
     * file is uploaded; an upload error ends the handler with the page
     * unchanged. The username is the trimmed input, if any, else the loaded
     * record's. An update error leaves the page unchanged; success shows the
     * saved profile, clears the inputs and hides the popup, and the loaded
     * record stays as it was.
     */
    method OkClick(nowMs: nat, upload: Reply<()>, publicUrl: string, update: Reply<()>) returns (requests: seq<Request>)
      requires Valid()
      modifies this`shownImage, this`shownUsername, this`popupOpen, this`usernameInput,
        this`chosenFile, this`previewShown, this`lastSaved
      ensures Valid()
      ensures requests == SaveRequests(record, old(usernameInput), old(chosenFile), nowMs, upload, publicUrl, true)
      ensures (old(chosenFile).Some? && upload.Failed?) || update.Failed? ==> unchanged(this)
      ensures !(old(chosenFile).Some? && upload.Failed?) && update.Ok? ==>
        && record == old(record)
        && lastSaved == Some(Profile(SavedUsername(record, old(usernameInput)), SavedImage(record, old(chosenFile), publicUrl)))
        && shownUsername == lastSaved.value.username && shownImage == lastSaved.value.profileImage
        && !popupOpen && usernameInput == [] && chosenFile == None && !previewShown
    {
      var saved;
      requests, saved := Save(nowMs, upload, publicUrl, update, true);
    }

    /**
     * The OK button as intended: the shared sign-up image is never removed,
     * and a successful save becomes the record the next save starts from.
     */
    method OkClickRefreshing(nowMs: nat, upload: Reply<()>, publicUrl: string, update: Reply<()>) returns (requests: seq<Request>)
      requires Valid()
      modifies this`record, this`shownImage, this`shownUsername, this`popupOpen, this`usernameInput,
        this`chosenFile, this`previewShown, this`lastSaved
      ensures Valid()
      ensures requests == SaveRequests(old(record), old(usernameInput), old(chosenFile), nowMs, upload, publicUrl, false)
      ensures (old(chosenFile).Some? && upload.Failed?) || update.Failed? ==> unchanged(this)
      ensures !(old(chosenFile).Some? && upload.Failed?) && update.Ok? ==>
        && record == Profile(SavedUsername(old(record), old(usernameInput)), SavedImage(old(record), old(chosenFile), publicUrl))
        && lastSaved == Some(record)
        && shownUsername == record.username && shownImage == record.profileImage
        && !popupOpen && usernameInput == [] && chosenFile == None && !previewShown
    {
      var saved;
      requests, saved := Save(nowMs, upload, publicUrl, update, false);
      if saved.Some? {
        record := saved.value;
      }
    }

    /**
     * The body of the handler, under the written or the intended removal
     * guard: the requests it sends and, when the update succeeds, the
     * profile it saved and now shows.
     */
    method Save(nowMs: nat, upload: Reply<()>, publicUrl: string, update: Reply<()>, asWritten: bool)
      returns (requests: seq<Request>, saved: Option<Profile>)
      requires Valid()
      modifies this`shownImage, this`shownUsername, this`popupOpen, this`usernameInput,
        this`chosenFile, this`previewShown, this`lastSaved
      ensures Valid()
      ensures requests == SaveRequests(record, old(usernameInput), old(chosenFile), nowMs, upload, publicUrl, asWritten)
      ensures saved.Some? <==> !(old(chosenFile).Some? && upload.Failed?) && update.Ok?
      ensures saved.None? ==> unchanged(this)
      ensures saved.Some? ==>
        && saved.value == Profile(SavedUsername(record, old(usernameInput)), SavedImage(record, old(chosenFile), publicUrl))
        && lastSaved == saved
        && shownUsername == saved.value.username && shownImage == saved.value.profileImage
        && !popupOpen && usernameInput == [] && chosenFile == None && !previewShown
    {
      var updatedImage := OrElse(record.profileImage, DEFAULT_PROFILE_IMAGE);
      var updatedUsername := OrElse(record.username, DEFAULT_USERNAME);
      requests := [];
      saved := None;
      if chosenFile.Some? {
        requests := OldImageRemoval(record, asWritten);
        requests := requests + [UploadProfileImage(UploadPath(nowMs, chosenFile.value))];
        if upload.Failed? {
          return;
        }
        updatedImage := publicUrl;
      }
      if Trim(usernameInput) != [] {
        updatedUsername := Trim(usernameInput);
      }
      requests := requests + [UpdateProfile(updatedUsername, updatedImage)];
      if update.Failed? {
        return;
      }
      saved := Some(Profile(updatedUsername, updatedImage));
      ShowSaved(saved.value);
    }

    /**
     * A successful update: the page shows the saved profile, clears the
     * inputs and hides the popup.
     */
    method ShowSaved(saved: Profile)
      modifies this`shownImage, this`shownUsername, this`popupOpen, this`usernameInput,
        this`chosenFile, this`previewShown, this`lastSaved
      ensures Valid()
      ensures lastSaved == Some(saved) && shownUsername == saved.username && shownImage == saved.profileImage
      ensures !popupOpen && usernameInput == [] && chosenFile == None && !previewShown
    {
      shownImage := saved.profileImage;
      shownUsername := saved.username;
      popupOpen := false;
      usernameInput := [];
      chosenFile := None;
      previewShown := false;
      lastSaved := Some(saved);
    }
  }
}
