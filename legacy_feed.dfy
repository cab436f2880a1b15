/**
 * The local-only feed of the older page: posts live only in the page, new
 * posts go on top, comments are appended below, each comment section is
 * toggled by its button, and a search box filters posts by author name.
 */
module LegacyFeed {
  import opened Text

  /** The author every local post is shown with. */
  const LOCAL_AUTHOR: string := "@KU_User"
  const SHOW_LABEL: string := "Show Comments"
  const HIDE_LABEL: string := "Hide Comments"

  /** An inline `style.display` value: unset (''), 'none' or 'block'. */
  datatype Display = Unset | Hidden | Shown

  /**
   * A post element: its text and image, the author in its author span, the
   * comment texts in document order, the display of its comment section and
   * the label of its toggle button, its own display (set by the filter) and
   * its comment box.
   */
  datatype LegacyPost = LegacyPost(
    text: string, image: string, author: string, comments: seq<string>,
    section: Display, toggleLabel: string, display: Display, draft: string)

  /** A freshly built post: no comments, section display unset, label "Show Comments". */
  function NewPost(text: string, image: string): LegacyPost {
    LegacyPost(text, image, LOCAL_AUTHOR, [], Unset, SHOW_LABEL, Unset, [])
  }

  /** The toggle rule: an unset or hidden section is shown, a shown one is hidden. */
  function Toggled(section: Display): (r: Display)
    ensures r != Unset
    ensures r.Shown? <==> !section.Shown?
  {
    match section
    case Unset => Shown
    case Hidden => Shown
    case Shown => Hidden
  }

  /** The label that goes with a section display. */
  function LabelFor(section: Display): string {
    if section == Shown then HIDE_LABEL else SHOW_LABEL
  }

  /** Two clicks on the toggle leave a section that had been toggled before as it was. */
  lemma ToggleTwice(section: Display)
    ensures Toggled(Toggled(section)) == (if section == Unset then Hidden else section)
  {
  }

  /** The filter test: the lower-cased author text contains the query. */
  predicate Matches(author: string, query: string) {
    Contains(ToLower(author), query)
  }

  /** Every post's display set by `filterPosts`, nothing else changed. */
  function Filtered(posts: seq<LegacyPost>, query: string): (r: seq<LegacyPost>)
    ensures |r| == |posts|
    ensures forall k :: 0 <= k < |posts| ==> r[k].display != Unset
    ensures forall k :: 0 <= k < |posts| ==> (r[k].display == Shown <==> Matches(posts[k].author, query))
    ensures forall k :: 0 <= k < |posts| ==> r[k].(display := posts[k].display) == posts[k]
  {
    seq(|posts|, k requires 0 <= k < |posts| => posts[k].(display := if Matches(posts[k].author, query) then Shown else Hidden))
  }

  /** The empty query shows every post. */
  lemma FilterEmptyShowsAll(posts: seq<LegacyPost>)
    ensures forall k :: 0 <= k < |posts| ==> Filtered(posts, [])[k].display == Shown
  {
    forall k | 0 <= k < |posts|
      ensures Matches(posts[k].author, [])
    {
      ContainsEmpty(ToLower(posts[k].author));
    }
  }

  /**
   * Filtering depends only on the authors and the query: filtering again
   * with the same query changes nothing, and a filter undoes any earlier one.
   */
  lemma FilterOverrides(posts: seq<LegacyPost>, q1: string, q2: string)
    ensures Filtered(Filtered(posts, q1), q2) == Filtered(posts, q2)
    ensures Filtered(Filtered(posts, q2), q2) == Filtered(posts, q2)
  {
  }

  /**
   * The input handler lower-cases the query and the author text is
   * lower-cased too, so the letter case of either does not matter.
   */
  lemma FilterIgnoresCase(author: string, typed: string)
    ensures Matches(author, ToLower(typed)) <==> Matches(ToLower(author), ToLower(typed))
  {
    ToLowerIdempotent(author);
  }

  class Feed {
    /** The posts container, first child first. */
    var posts: seq<LegacyPost>

    var popupOpen: bool
    var popupText: string
    /** The pending image (`popupCurrentImage`); empty for null. */
    var popupImage: string
    var previewShown: bool
    var fileInput: string

    var searchActive: bool
    var headerActive: bool
    var searchInput: string

    /** Every toggle button's label describes its section, and searching marks both the box and the header. */
    ghost predicate Valid()
      reads this
    {
      && (forall k :: 0 <= k < |posts| ==> posts[k].toggleLabel == LabelFor(posts[k].section))
      && searchActive == headerActive
    }

    constructor ()
      ensures Valid()
      ensures posts == [] && !popupOpen && popupText == [] && popupImage == [] && !previewShown
      ensures !searchActive && searchInput == []
    {
      posts := [];
      popupOpen := false;
      popupText := [];
      popupImage := [];
      previewShown := false;
      fileInput := [];
      searchActive := false;
      headerActive := false;
      searchInput := [];
    }

    method OpenComposer()
      modifies this`popupOpen
      ensures popupOpen
    {
      popupOpen := true;
    }

    method TypePostText(text: string)
      modifies this`popupText
      ensures popupText == text
    {
      popupText := text;
    }

    /** The file reader's `onload`: preview the data URL and keep it as the pending image. */
    method ChooseImage(dataUrl: string)
      modifies this`previewShown, this`popupImage
      ensures previewShown && popupImage == dataUrl
    {
      previewShown := true;
      popupImage := dataUrl;
    }

    /** `closePopup`: clears the text, the preview, the pending image and the file input, and hides the popup. */
    method ClosePopup()
      modifies this`popupText, this`previewShown, this`popupImage, this`popupOpen, this`fileInput
      ensures popupText == [] && !previewShown && popupImage == [] && !popupOpen && fileInput == []
    {
      popupText := [];
      previewShown := false;
      popupImage := [];
      popupOpen := false;
      fileInput := [];
    }

    /** `createPost`: with neither text nor image nothing happens; otherwise the new post goes first. */
    method CreatePost(text: string, image: string)
      requires Valid()
      modifies this`posts
      ensures Valid()
      ensures text == [] && image == [] ==> posts == old(posts)
      ensures text != [] || image != [] ==> posts == [NewPost(text, image)] + old(posts)
    {
      if text == [] && image == [] {
        return;
      }
      posts := [NewPost(text, image)] + posts;
    }

    /** The post button and the Enter key: create a post from the trimmed text, then always close the popup. */
    method Submit()
      requires Valid()
      modifies this`posts, this`popupText, this`previewShown, this`popupImage, this`popupOpen, this`fileInput
      ensures Valid()
      ensures Trim(old(popupText)) == [] && old(popupImage) == [] ==> posts == old(posts)
      ensures Trim(old(popupText)) != [] || old(popupImage) != [] ==>
        posts == [NewPost(Trim(old(popupText)), old(popupImage))] + old(posts)
      ensures popupText == [] && !previewShown && popupImage == [] && !popupOpen && fileInput == []
    {
      CreatePost(Trim(popupText), popupImage);
      ClosePopup();
    }

    /** The toggle button: flips the section's display and sets the label to match. */
    method Toggle(i: nat)
      requires Valid() && i < |posts|
      modifies this`posts
      ensures Valid()
      ensures posts == old(posts)[i := old(posts[i]).(section := Toggled(old(posts[i].section)),
                                                       toggleLabel := LabelFor(Toggled(old(posts[i].section))))]
    {
      var p := posts[i];
      if p.section == Hidden || p.section == Unset {
        posts := posts[i := p.(section := Shown, toggleLabel := HIDE_LABEL)];
      } else {
        posts := posts[i := p.(section := Hidden, toggleLabel := SHOW_LABEL)];
      }
    }

    method TypeComment(i: nat, text: string)
      requires Valid() && i < |posts|
      modifies this`posts
      ensures Valid()
      ensures posts == old(posts)[i := old(posts[i]).(draft := text)]
    {
      posts := posts[i := posts[i].(draft := text)];
    }

    /**
     * The comment button and the Enter key: the trimmed text, if any, is
     * appended as the last comment and the box cleared; a blank box is left
     * as it is.
     */
    method SubmitComment(i: nat)
      requires Valid() && i < |posts|
      modifies this`posts
      ensures Valid()
      ensures Trim(old(posts[i].draft)) == [] ==> posts == old(posts)
      ensures Trim(old(posts[i].draft)) != [] ==>
        posts == old(posts)[i := old(posts[i]).(comments := old(posts[i].comments) + [Trim(old(posts[i].draft))], draft := [])]
    {
      var commentText := Trim(posts[i].draft);
      if commentText != [] {
        posts := posts[i := posts[i].(comments := posts[i].comments + [commentText], draft := [])];
      }
    }

    /** `filterPosts`: each post is shown exactly when its lower-cased author contains the query. */
    method FilterPosts(query: string)
      requires Valid()
      modifies this`posts
      ensures Valid()
      ensures posts == Filtered(old(posts), query)
    {
      var k := 0;
      while k < |posts|
        invariant 0 <= k <= |posts| == |old(posts)|
        invariant forall j :: 0 <= j < k ==> posts[j] == Filtered(old(posts), query)[j]
        invariant forall j :: k <= j < |posts| ==> posts[j] == old(posts)[j]
      {
        var username := ToLower(posts[k].author);
        var shown := if Contains(username, query) then Shown else Hidden;
        posts := posts[k := posts[k].(display := shown)];
        k := k + 1;
      }
    }

    /** Typing in the search box filters by the lower-cased input. */
    method SearchInput(value: string)
      requires Valid()
      modifies this`searchInput, this`posts
      ensures Valid()
      ensures searchInput == value && posts == Filtered(old(posts), ToLower(value))
    {
      searchInput := value;
      FilterPosts(ToLower(value));
    }

    /** The search button: toggles the search box; closing it clears the input and shows every post. */
    method SearchButton()
      requires Valid()
      modifies this`searchActive, this`headerActive, this`searchInput, this`posts
      ensures Valid()
      ensures searchActive == !old(searchActive)
      ensures searchActive ==> searchInput == old(searchInput) && posts == old(posts)
      ensures !searchActive ==> searchInput == [] && posts == Filtered(old(posts), [])
    {
      searchActive := !searchActive;
      headerActive := !headerActive;
      if !searchActive {
        searchInput := [];
        FilterPosts([]);
      }
    }
  }
}
