/** `components/BookmarkManager.tsx`: the owner of the list state, `handleAdd`, and the
    count label; together with the list's reducers, the whole event-driven store. */
module BookmarkManager {
  import opened Types
  import opened Numerals
  import opened Strings
  import opened BookmarkList
  import opened Wrappers
  import opened Utils
  import opened AddBookmarkForm

  /** `handleAdd`, which the form calls with the record it re-fetched after saving: the
      same idempotent prepend as the realtime INSERT. */
  function HandleAdd(prev: seq<Bookmark>, b: Bookmark): (r: seq<Bookmark>)
    ensures HasId(prev, b.id) ==> r == prev
    ensures !HasId(prev, b.id) ==> |r| == |prev| + 1 && r[0] == b && r[1..] == prev
    ensures r == ApplyChange(prev, Inserted(b))
  {
    InsertOnce(prev, b)
  }

  /** A local add and the realtime INSERT of the same record, in either order, leave one
      copy of it, and the same list either way. */
  lemma AddAndInsertKeepOneCopy(prev: seq<Bookmark>, b: Bookmark)
    requires DistinctIds(prev)
    ensures ApplyChange(HandleAdd(prev, b), Inserted(b)) == HandleAdd(ApplyChange(prev, Inserted(b)), b)
    ensures CountId(ApplyChange(HandleAdd(prev, b), Inserted(b)), b.id) == 1
  {
    var r := HandleAdd(prev, b);
    ApplyPreservesDistinct(prev, Inserted(b));
    CountIdDistinct(r, b.id);
  }

  /** Everything that changes the list: the form's add, a realtime payload, and a card's
      `onDeleted` callback (`handleDeleted`). */
  datatype Event = Added(record: Bookmark) | Realtime(change: Change) | CardDeleted(id: string)

  function Step(prev: seq<Bookmark>, e: Event): seq<Bookmark> {
    match e
    case Added(b) => HandleAdd(prev, b)
    case Realtime(c) => ApplyChange(prev, c)
    case CardDeleted(id) => HandleDeleted(prev, id)
  }

  /** The realtime change an event acts as: an add is an INSERT, a card's deletion a DELETE. */
  function AsChange(e: Event): Change {
    match e
    case Added(b) => Inserted(b)
    case Realtime(c) => c
    case CardDeleted(id) => Deleted(id)
  }

  /** The manager's own handlers are the realtime reducers: every event acts on the list
      exactly as its realtime change would. */
  lemma StepIsChange(prev: seq<Bookmark>, e: Event)
    ensures Step(prev, e) == ApplyChange(prev, AsChange(e))
  {
    match e
    case Added(b) =>
    case Realtime(c) =>
    case CardDeleted(id) => assert HandleDeleted(prev, id) == ApplyChange(prev, Deleted(id));
  }

  /** The list after the events, processed one at a time in arrival order, starting from
      `initialBookmarks` (the state's initial value). */
  function Run(initialBookmarks: seq<Bookmark>, events: seq<Event>): (r: seq<Bookmark>)
    ensures events == [] ==> r == initialBookmarks
  {
    if events == [] then initialBookmarks
    else Step(Run(initialBookmarks, events[..|events| - 1]), events[|events| - 1])
  }

  /** Whatever the order in which adds, inserts, updates and deletes arrive, and however
      often each is repeated, no bookmark is ever listed twice. */
  lemma {:induction false} RunPreservesDistinct(initialBookmarks: seq<Bookmark>, events: seq<Event>)
    requires DistinctIds(initialBookmarks)
    ensures DistinctIds(Run(initialBookmarks, events))
  {
    if events != [] {
      var prev := Run(initialBookmarks, events[..|events| - 1]);
      var e := events[|events| - 1];
      RunPreservesDistinct(initialBookmarks, events[..|events| - 1]);
      StepIsChange(prev, e);
      ApplyPreservesDistinct(prev, AsChange(e));
    }
  }

  const EmptyLabel: string := "No bookmarks yet \U{2014} add your first one below."

  /** The line under the heading: a prompt for an empty list, then "1 bookmark saved",
      then "n bookmarks saved". */
  function CountLabel(n: nat): (r: string)
    ensures n == 0 ==> r == EmptyLabel
    ensures n == 1 ==> r == "1 bookmark saved"
    ensures n >= 2 ==> r == NatToString(n) + " bookmarks saved"
  {
    if n == 0 then EmptyLabel
    else NatToString(n) + SavedSuffix(n == 1)
  }

  /** Only the empty list's label starts with a letter; the others start with a digit. */
  lemma CountLabelFirstChar(n: nat)
    ensures CountLabel(n)[0] == 'N' <==> n == 0
  {
    if n != 0 {
      assert CountLabel(n)[0] == NatToString(n)[0];
    }
  }

  /** The label tells every count apart. */
  lemma CountLabelInjective(m: nat, n: nat)
    requires CountLabel(m) == CountLabel(n)
    ensures m == n
  {
    CountLabelFirstChar(m);
    CountLabelFirstChar(n);
    if m != 0 && n != 0 {
      SavedSuffixCancel(NatToString(m), m == 1, NatToString(n), n == 1);
      NatToStringInjective(m, n);
    }
  }

  /** What follows the count in a non-empty list's label. */
  function SavedSuffix(one: bool): string {
    " bookmark" + (if one then "" else "s") + " saved"
  }

  lemma SavedSuffixCancel(x: string, p: bool, y: string, q: bool)
    requires x + SavedSuffix(p) == y + SavedSuffix(q)
    ensures x == y && p == q
  {
    var s := x + SavedSuffix(p);
    assert s[|s| - 7] == (if p then 'k' else 's');
    assert s[|s| - 7] == (if q then 'k' else 's');
    SuffixCancel(x, y, SavedSuffix(p));
  }

  /** The `existingBookmarks` prop the manager gives the form as the file is written: the
      form is rendered with `userId` and `onAdd` only, so the prop is `undefined`. */
  function FormPropAsWritten(bookmarks: seq<Bookmark>): Option<seq<Bookmark>> {
    None
  }

  /** As written, the form can never be submitted: every `validate` either throws on the
      missing prop or has already failed the title check. */
  lemma AsWrittenNeverValid(bookmarks: seq<Bookmark>, title: string, url: string, parse: UrlParser)
    ensures var r := ValidateWithProp(title, url, FormPropAsWritten(bookmarks), parse);
      r.Failure? || !r.value.valid
  {
    MissingPropNeverValid(title, url, parse);
  }

  const ExampleTitle: string := "Example"

  /** A concrete instance: the title "Example" passes the required and length checks, so
      the title's duplicate lookup throws, whatever the URL and the list. */
  lemma AsWrittenRejectsExample(bookmarks: seq<Bookmark>, url: string, parse: UrlParser)
    ensures ValidateWithProp(ExampleTitle, url, FormPropAsWritten(bookmarks), parse).Failure?
  {
    ExampleTrimmed();
    PassingTitleThrows(ExampleTitle, url, parse);
  }

  lemma ExampleTrimmed()
    ensures Trim(ExampleTitle) == ExampleTitle
  {
    assert [] + ExampleTitle + [] == ExampleTitle;
    TrimOfPadded([], ExampleTitle, []);
  }

  /** Without the prop, every title that passes the required and length checks reaches
      the lookup and throws. */
  lemma PassingTitleThrows(title: string, url: string, parse: UrlParser)
    requires !IsBlank(title) && |Trim(title)| <= MaxTitleLength
    ensures ValidateWithProp(title, url, None, parse).Failure?
  {
  }

  /** The evidently intended wiring: the manager passes its own list. */
  function FormProp(bookmarks: seq<Bookmark>): Option<seq<Bookmark>> {
    Some(bookmarks)
  }

  /** With the list passed, `validate` never throws, checks against exactly the listed
      bookmarks, and accepts any fresh title and URL. */
  lemma WiredFormValidates(bookmarks: seq<Bookmark>, title: string, url: string, parse: UrlParser)
    ensures ValidateWithProp(title, url, FormProp(bookmarks), parse) == Success(Validate(title, url, bookmarks, parse))
    ensures
      && !IsBlank(title) && |Trim(title)| <= MaxTitleLength
      && (forall i :: 0 <= i < |bookmarks| ==> ToLower(bookmarks[i].title) != ToLower(Trim(title)))
      && !IsBlank(url) && Normalizes(parse, url)
      && (forall i :: 0 <= i < |bookmarks| ==> bookmarks[i].url != NormalizeUrl(parse, url).value)
      ==> ValidateWithProp(title, url, FormProp(bookmarks), parse).value.valid
  {
    if && !IsBlank(title) && |Trim(title)| <= MaxTitleLength
       && (forall i :: 0 <= i < |bookmarks| ==> ToLower(bookmarks[i].title) != ToLower(Trim(title)))
       && !IsBlank(url) && Normalizes(parse, url)
       && (forall i :: 0 <= i < |bookmarks| ==> bookmarks[i].url != NormalizeUrl(parse, url).value)
    {
      FreshIsValid(title, url, bookmarks, parse);
    }
  }
}
