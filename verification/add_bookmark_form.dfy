/** `components/AddBookmarkForm.tsx`: the pure `validate` check over the title, the raw
    URL and the bookmarks already listed, and the form's state across a submission. */
module AddBookmarkForm {
  import opened Wrappers
  import opened Strings
  import opened Types
  import opened Utils
  import Search

  const MaxTitleLength: nat := 200

  const TitleRequired: string := "Title is required"
  const TitleTooLong: string := "Title must be under 200 characters"
  const UrlRequired: string := "URL is required"
  const InvalidUrl: string := "Please enter a valid URL with a domain (e.g. google.com or https://example.com)"
  const SaveFailed: string := "Failed to save bookmark. Please try again."

  function DuplicateTitleMessage(trimmedTitle: string): string {
    "A bookmark named \"" + trimmedTitle + "\" already exists"
  }

  function DuplicateUrlMessage(existingTitle: string): string {
    "This URL is already saved as \"" + existingTitle + "\""
  }

  /** The title check: required, at most 200 characters once trimmed, and not already
      used. Titles are compared case-insensitively, the listed title as stored (untrimmed),
      the candidate trimmed. A blank or over-long title never reaches the duplicate check. */
  function TitleError(title: string, existing: seq<Bookmark>): (r: string)
    ensures IsBlank(title) ==> r == TitleRequired
    ensures !IsBlank(title) && |Trim(title)| > MaxTitleLength ==> r == TitleTooLong
    ensures !IsBlank(title) && |Trim(title)| <= MaxTitleLength ==>
      && (r != "" <==> exists i :: 0 <= i < |existing| && ToLower(existing[i].title) == ToLower(Trim(title)))
      && (r != "" ==> r == DuplicateTitleMessage(Trim(title)))
  {
    var t := Trim(title);
    if t == [] then TitleRequired
    else if |t| > MaxTitleLength then TitleTooLong
    else
      match Search.FindIndex(existing, (b: Bookmark) => ToLower(b.title) == ToLower(t))
      case Some(_) => DuplicateTitleMessage(t)
      case None => ""
  }

  /** `validateAndNormalizeUrl(url)` is truthy: a result that is not the empty string. */
  predicate Normalizes(parse: UrlParser, url: string) {
    NormalizeUrl(parse, url).Some? && NormalizeUrl(parse, url).value != ""
  }

  /** The URL check: required, normalisable, and not already saved. URLs are compared
      exactly, normalised candidate against stored URL, and the message quotes the title
      of the first bookmark in list order that holds the URL. A blank URL is reported as
      missing even though it would not normalise either. */
  function UrlError(url: string, existing: seq<Bookmark>, parse: UrlParser): (r: string)
    ensures IsBlank(url) ==> r == UrlRequired
    ensures !IsBlank(url) && !Normalizes(parse, url) ==> r == InvalidUrl
    ensures !IsBlank(url) && Normalizes(parse, url) ==>
      var u := NormalizeUrl(parse, url).value;
      && (r != "" <==> exists i :: 0 <= i < |existing| && existing[i].url == u)
      && (r != "" ==> exists i ::
            && 0 <= i < |existing| && existing[i].url == u
            && r == DuplicateUrlMessage(existing[i].title)
            && forall j :: 0 <= j < i ==> existing[j].url != u)
  {
    var normalized := NormalizeUrl(parse, url);
    if IsBlank(url) then UrlRequired
    else if !Normalizes(parse, url) then InvalidUrl
    else
      match Search.FindIndex(existing, (b: Bookmark) => b.url == normalized.value)
      case Some(i) => DuplicateUrlMessage(existing[i].title)
      case None => ""
  }

  /** The two messages `validate` leaves on the form and the flag it returns. */
  datatype Validation = Validation(titleError: string, urlError: string, valid: bool)

  /** `validate`, with the listed bookmarks as an explicit argument. The title and URL
      checks are independent (each message depends on its own field only, so both can be
      set at once) and the form is valid exactly when neither check set a message. */
  function Validate(title: string, url: string, existing: seq<Bookmark>, parse: UrlParser): (r: Validation)
    ensures r.titleError == TitleError(title, existing)
    ensures r.urlError == UrlError(url, existing, parse)
    ensures r.valid <==> r.titleError == "" && r.urlError == ""
  {
    var titleError := TitleError(title, existing);
    var urlError := UrlError(url, existing, parse);
    var valid := titleError == "" && urlError == "";
    Validation(titleError, urlError, valid)
  }

  /** A title that passes is present, trimmed, at most 200 characters long and unlike
      every listed title; a URL that passes normalises to a non-empty string held by no
      listed bookmark. */
  lemma ValidMeansFresh(title: string, url: string, existing: seq<Bookmark>, parse: UrlParser)
    ensures Validate(title, url, existing, parse).valid ==>
      var t := Trim(title);
      && t != [] && IsTrimmed(t) && |t| <= MaxTitleLength
      && forall i :: 0 <= i < |existing| ==> ToLower(existing[i].title) != ToLower(t)
    ensures Validate(title, url, existing, parse).valid ==>
      && Normalizes(parse, url)
      && forall i :: 0 <= i < |existing| ==> existing[i].url != NormalizeUrl(parse, url).value
  {
    if Validate(title, url, existing, parse).valid {
      assert TitleError(title, existing) == "";
      assert UrlError(url, existing, parse) == "";
    }
  }

  /** The converse: a fresh title and URL always pass, so the check rejects nothing but
      missing, over-long, malformed or duplicate input. */
  lemma FreshIsValid(title: string, url: string, existing: seq<Bookmark>, parse: UrlParser)
    requires !IsBlank(title) && |Trim(title)| <= MaxTitleLength
    requires forall i :: 0 <= i < |existing| ==> ToLower(existing[i].title) != ToLower(Trim(title))
    requires !IsBlank(url) && Normalizes(parse, url)
    requires forall i :: 0 <= i < |existing| ==> existing[i].url != NormalizeUrl(parse, url).value
    ensures Validate(title, url, existing, parse).valid
  {
  }

  /** A title matching a listed one, ignoring case, is refused with the duplicate
      message, whatever the URL. */
  lemma DuplicateTitleRefused(title: string, url: string, existing: seq<Bookmark>, parse: UrlParser, i: nat)
    requires !IsBlank(title) && |Trim(title)| <= MaxTitleLength
    requires i < |existing| && ToLower(existing[i].title) == ToLower(Trim(title))
    ensures var v := Validate(title, url, existing, parse);
      !v.valid && v.titleError == DuplicateTitleMessage(Trim(title))
  {
  }

  /** The case-insensitive title check at work: with "Foo" listed, "  foo " is refused,
      whatever the URL. */
  lemma DuplicateTitleExample(url: string, parse: UrlParser)
    ensures var listed := [Bookmark("1", "owner", "Foo", "https://foo.example/", "2024-01-01")];
      var v := Validate("  foo ", url, listed, parse);
      !v.valid && v.titleError == DuplicateTitleMessage("foo")
  {
    var listed := [Bookmark("1", "owner", "Foo", "https://foo.example/", "2024-01-01")];
    FooPadded();
    FooFolds();
    DuplicateTitleRefused("  foo ", url, listed, parse, 0);
  }

  lemma FooPadded()
    ensures Trim("  foo ") == "foo"
  {
    assert [' ', ' '] + "foo" + [' '] == "  foo ";
    TrimOfPadded([' ', ' '], "foo", [' ']);
  }

  lemma FooFolds()
    ensures ToLower("Foo") == ToLower("foo")
  {
    var lower := ToLower("Foo");
    assert lower[0] == 'f' && lower[1] == 'o' && lower[2] == 'o';
  }

  /** The message `TypeError` carries when `.find` is read off `undefined`. */
  const UndefinedFind: string := "Cannot read properties of undefined (reading 'find')"

  /** An exception thrown out of `validate`: its message, and the title message `validate`
      had already set when it was thrown (`None` when it was the title's own lookup that
      threw, before any message was set). A throw does not undo a state update already
      queued, so that message stays on the form. */
  datatype Thrown = Thrown(message: string, titleErrorSet: Option<string>)

  /** `validate` as the form runs it when the `existingBookmarks` prop may be missing
      (`None`): the duplicate lookup of either field throws as soon as that field gets past
      its own required and format checks. */
  function ValidateWithProp(title: string, url: string, existingProp: Option<seq<Bookmark>>, parse: UrlParser)
    : (r: Result<Validation, Thrown>)
    ensures existingProp.Some? ==> r == Success(Validate(title, url, existingProp.value, parse))
    ensures existingProp.None? ==>
      (r.Failure? <==> (!IsBlank(title) && |Trim(title)| <= MaxTitleLength) || (!IsBlank(url) && Normalizes(parse, url)))
    ensures existingProp.None? && r.Failure? ==>
      && r.error.message == UndefinedFind
      && (r.error.titleErrorSet.None? <==> !IsBlank(title) && |Trim(title)| <= MaxTitleLength)
      && (r.error.titleErrorSet.Some? ==> r.error.titleErrorSet.value == TitleError(title, []))
  {
    match existingProp
    case Some(existing) => Success(Validate(title, url, existing, parse))
    case None =>
      var t := Trim(title);
      if t != [] && |t| <= MaxTitleLength then Failure(Thrown(UndefinedFind, None))
      else if !IsBlank(url) && Normalizes(parse, url) then
        Failure(Thrown(UndefinedFind, Some(if t == [] then TitleRequired else TitleTooLong)))
      else Success(Validate(title, url, [], parse))
  }

  /** The title message left behind by a throw is the one a `validate` with the list in
      place would show, whatever that list holds. */
  lemma ThrownKeepsTitleMessage(title: string, url: string, existing: seq<Bookmark>, parse: UrlParser)
    requires ValidateWithProp(title, url, None, parse).Failure?
    requires ValidateWithProp(title, url, None, parse).error.titleErrorSet.Some?
    ensures ValidateWithProp(title, url, None, parse).error.titleErrorSet.value
         == Validate(title, url, existing, parse).titleError
  {
  }

  /** Without the prop, `validate` never returns true: either a lookup throws or the title
      check has already failed. */
  lemma MissingPropNeverValid(title: string, url: string, parse: UrlParser)
    ensures ValidateWithProp(title, url, None, parse).Success? ==> !ValidateWithProp(title, url, None, parse).value.valid
  {
  }

  /** What the form holds: both inputs, both messages, and the submit and success flags. */
  datatype FormState = FormState(
    title: string, url: string, titleError: string, urlError: string,
    isSubmitting: bool, successFlash: bool)

  const InitialForm: FormState := FormState("", "", "", "", false, false)

  /** Typing into a field replaces it and clears that field's message only. */
  function EditTitle(s: FormState, value: string): (r: FormState)
    ensures r.title == value && r.titleError == ""
    ensures r.url == s.url && r.urlError == s.urlError
    ensures r.isSubmitting == s.isSubmitting && r.successFlash == s.successFlash
  {
    s.(title := value, titleError := "")
  }

  function EditUrl(s: FormState, value: string): (r: FormState)
    ensures r.url == value && r.urlError == ""
    ensures r.title == s.title && r.titleError == s.titleError
    ensures r.isSubmitting == s.isSubmitting && r.successFlash == s.successFlash
  {
    s.(url := value, urlError := "")
  }

  /** The row `handleSubmit` asks the data store to insert. */
  datatype NewRow = NewRow(user_id: string, title: string, url: string)

  datatype Submission = Submission(form: FormState, request: Option<NewRow>)

  /** `handleSubmit` up to the insert: the messages `validate` set are shown; an invalid
      form sends nothing; a valid one is marked as submitting and sends the trimmed title
      with the normalised URL. */
  function Submit(s: FormState, userId: string, existing: seq<Bookmark>, parse: UrlParser): (r: Submission)
    ensures var v := Validate(s.title, s.url, existing, parse);
      && r.form.titleError == v.titleError && r.form.urlError == v.urlError
      && r.form.title == s.title && r.form.url == s.url
      && r.form.successFlash == s.successFlash
      && (r.request.Some? <==> v.valid)
    ensures r.request.Some? ==> r.form.isSubmitting
    ensures r.request.None? ==> r.form.isSubmitting == s.isSubmitting
    ensures r.request.Some? ==>
      && Normalizes(parse, s.url)
      && r.request.value == NewRow(userId, Trim(s.title), NormalizeUrl(parse, s.url).value)
  {
    var v := Validate(s.title, s.url, existing, parse);
    var shown := s.(titleError := v.titleError, urlError := v.urlError);
    if !v.valid then Submission(shown, None)
    else
      ValidMeansFresh(s.title, s.url, existing, parse);
      Submission(shown.(isSubmitting := true), Some(NewRow(userId, Trim(s.title), NormalizeUrl(parse, s.url).value)))
  }

  datatype Settled = Settled(form: FormState, added: Option<Bookmark>)

  /** `handleSubmit` after the insert returns. A failed insert keeps both inputs and sets
      only the URL message. A successful one clears both inputs and both messages, flashes
      success, and hands the re-fetched row (when there is one) to `onAdd`. */
  function Settle(s: FormState, saved: bool, refetched: Option<Bookmark>): (r: Settled)
    ensures !r.form.isSubmitting
    ensures !saved ==> r.form == s.(isSubmitting := false, urlError := SaveFailed) && r.added.None?
    ensures saved ==> r.form == InitialForm.(successFlash := true) && r.added == refetched
  {
    if !saved then Settled(s.(isSubmitting := false, urlError := SaveFailed), None)
    else Settled(FormState("", "", "", "", false, true), refetched)
  }

  /** A failed insert can be retried as it stands: submitting again against the same list
      sends the identical row (and an invalid form sends nothing either time). */
  lemma RetryAfterFailedSave(s: FormState, userId: string, existing: seq<Bookmark>, parse: UrlParser)
    ensures var first := Submit(s, userId, existing, parse);
      var failed := Settle(first.form, false, None).form;
      Submit(failed, userId, existing, parse).request == first.request
  {
    var first := Submit(s, userId, existing, parse);
    var failed := Settle(first.form, false, None).form;
    assert failed.title == s.title && failed.url == s.url;
  }

  /** After a successful save the form is empty again, so submitting it once more sends
      nothing: one submit never inserts twice. */
  lemma NoResendAfterSave(s: FormState, refetched: Option<Bookmark>, userId: string, existing: seq<Bookmark>, parse: UrlParser)
    ensures var saved := Settle(s, true, refetched).form;
      var again := Submit(saved, userId, existing, parse);
      again.request.None? && again.form.titleError == TitleRequired && again.form.urlError == UrlRequired
  {
    var saved := Settle(s, true, refetched).form;
    assert saved.title == [] && saved.url == [];
    assert IsBlank(saved.title) && IsBlank(saved.url);
  }
}
