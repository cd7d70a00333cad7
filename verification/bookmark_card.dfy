/** `components/BookmarkCard.tsx`: the two-step delete flow of one card, and the favicon
    and URL text the card derives from its bookmark. */
module BookmarkCard {
  import opened Wrappers
  import opened Types
  import opened Utils
  import opened BookmarkList

  /** `isDeleting` (a delete request is in flight) and `showConfirm` (the overlay asking
      "Delete this bookmark?" is shown). */
  datatype CardState = CardState(isDeleting: bool, showConfirm: bool)

  const InitialCard: CardState := CardState(false, false)

  /** The delete button is disabled while a request is in flight or the overlay is up. */
  predicate DeleteButtonEnabled(s: CardState) {
    !s.isDeleting && !s.showConfirm
  }

  /** `handleDeleteClick`: show the overlay. */
  function ClickDelete(s: CardState): (r: CardState)
    ensures r.showConfirm && r.isDeleting == s.isDeleting
  {
    s.(showConfirm := true)
  }

  /** `handleCancelDelete`: hide the overlay; a request already in flight goes on. */
  function CancelDelete(s: CardState): (r: CardState)
    ensures !r.showConfirm && r.isDeleting == s.isDeleting
  {
    s.(showConfirm := false)
  }

  /** `handleConfirmDelete` up to the request: mark the card as deleting. */
  function ConfirmDelete(s: CardState): (r: CardState)
    ensures r.isDeleting && r.showConfirm == s.showConfirm
  {
    s.(isDeleting := true)
  }

  /** The card's state after the delete request returns, and the id passed to `onDeleted`
      if it is called. */
  datatype DeleteOutcome = DeleteOutcome(state: CardState, deleted: Option<string>)

  /** `handleConfirmDelete` after the request: on success `onDeleted` receives this card's
      id and the state is left as it is (the card is about to disappear); on an error both
      flags drop back to false and `onDeleted` is not called. */
  function DeleteSettled(s: CardState, bookmark: Bookmark, succeeded: bool): (r: DeleteOutcome)
    ensures succeeded ==> r.deleted == Some(bookmark.id) && r.state == s
    ensures !succeeded ==> r.deleted.None? && r.state == InitialCard
  {
    if succeeded then DeleteOutcome(s, Some(bookmark.id))
    else DeleteOutcome(CardState(false, false), None)
  }

  /** Cancelling undoes the click that opened the overlay. */
  lemma CancelUndoesClick(s: CardState)
    requires !s.showConfirm
    ensures CancelDelete(ClickDelete(s)) == s
  {
  }

  /** A failed delete returns an idle card to where it started, with the delete button
      enabled again. */
  lemma FailedDeleteRestores(s: CardState, bookmark: Bookmark)
    requires DeleteButtonEnabled(s)
    ensures var r := DeleteSettled(ConfirmDelete(ClickDelete(s)), bookmark, false);
      r.state == s && DeleteButtonEnabled(r.state) && r.deleted.None?
  {
  }

  /** A successful delete removes exactly this card from a list without repeated ids,
      and keeps every other card in order. */
  lemma SuccessfulDeleteRemovesCard(s: CardState, bookmarks: seq<Bookmark>, i: nat)
    requires DistinctIds(bookmarks) && i < |bookmarks|
    ensures var r := DeleteSettled(s, bookmarks[i], true);
      r.deleted.Some? && HandleDeleted(bookmarks, r.deleted.value) == bookmarks[..i] + bookmarks[i + 1..]
  {
    var id := bookmarks[i].id;
    var before, after := bookmarks[..i], bookmarks[i + 1..];
    assert bookmarks == before + [bookmarks[i]] + after;
    assert !HasId(before, id) by {
      forall k | 0 <= k < |before|
        ensures before[k].id != id
      {
        assert before[k] == bookmarks[k];
      }
    }
    assert !HasId(after, id) by {
      forall k | 0 <= k < |after|
        ensures after[k].id != id
      {
        assert after[k] == bookmarks[i + 1 + k];
      }
    }
    DeleteSingle(before, bookmarks[i], after);
  }

  const FaviconService: string := "https://www.google.com/s2/favicons?domain="
  const FaviconSize: string := "&sz=32"

  /** The favicon address: the service prefix, the bookmark's domain (`getDomain`), and
      the size parameter; the domain can be read back from between the two. */
  function FaviconUrl(parse: UrlParser, url: string): (r: string)
    ensures |r| == |FaviconService| + |GetDomain(parse, url)| + |FaviconSize|
    ensures r[..|FaviconService|] == FaviconService
    ensures r[|r| - |FaviconSize|..] == FaviconSize
    ensures r[|FaviconService|..|r| - |FaviconSize|] == GetDomain(parse, url)
  {
    FaviconService + GetDomain(parse, url) + FaviconSize
  }

  const DisplayedUrlLength: nat := 55

  /** The URL line under the title: `truncate(url, 55)`, at most 56 characters, the URL
      itself when it fits, and otherwise its first 55 characters and an ellipsis. */
  function DisplayedUrl(url: string): (r: string)
    ensures |r| <= DisplayedUrlLength + 1
    ensures |url| <= DisplayedUrlLength ==> r == url
    ensures |url| > DisplayedUrlLength ==> r == url[..DisplayedUrlLength] + [Ellipsis]
  {
    Truncate(url, DisplayedUrlLength)
  }
}
