# Bookmark manager core, modelled in Dafny

This project models the client-side bookmark logic of a small bookmark manager
(a Next.js app backed by Supabase). It covers four things:

- the URL and display helpers of `lib/utils.ts`;
- the add form's `validate` check and its submit flow (`AddBookmarkForm`);
- the in-memory list that local adds, card deletions and realtime INSERT, DELETE and
  UPDATE payloads act on (`BookmarkList`, `BookmarkManager`);
- the small state logic of a card's delete flow (`BookmarkCard`) and of the header
  (`Header`).

Everything is a pure function over immutable values:

- the list is a `seq<Bookmark>`;
- the WHATWG URL parser (sections 4.4 and 4.5 of the URL Standard) is a function-typed
  parameter `UrlParser` with no body of its own, so every property holds for any parser
  that meets the property's stated preconditions;
- the clock and `Date` parsing are integer millisecond inputs.

Modules, one per source file plus helpers:

| file | module | models |
|---|---|---|
| `wrappers.dfy` | `Wrappers` | `null`/`undefined` (`Option`), thrown exceptions (`Result`) |
| `strings.dfy` | `Strings` | `trim`, ASCII `toLowerCase`/`toUpperCase`, `split`/`join` |
| `numerals.dfy` | `Numerals` | decimal rendering of counts in template literals |
| `search.dfy` | `Search` | `Array.prototype.find` |
| `types.dfy` | `Types` | `lib/types.ts` |
| `utils.dfy` | `Utils` | `lib/utils.ts` |
| `add_bookmark_form.dfy` | `AddBookmarkForm` | `components/AddBookmarkForm.tsx` |
| `bookmark_list.dfy` | `BookmarkList` | `components/BookmarkList.tsx` |
| `bookmark_manager.dfy` | `BookmarkManager` | `components/BookmarkManager.tsx` |
| `bookmark_card.dfy` | `BookmarkCard` | `components/BookmarkCard.tsx` |
| `header.dfy` | `Header` | `components/Header.tsx` |

The central invariant is `BookmarkList.DistinctIds`: no id appears twice in the list.
`BookmarkManager.Run` folds any sequence of events over the initial list. The events are
local adds, realtime changes and card deletions, in any order and with any repetition.
`BookmarkManager.RunPreservesDistinct` proves that the fold keeps that invariant. This is
the app's "no duplicates under out-of-order delivery" behaviour.

## Model

| member | source | states |
|---|---|---|
| Utils.NormalizeUrl | lib/utils.ts:5-22 | only the trimmed input is parsed; a parse with a protocol other than http/https gives no result; an http(s) parse gives its serialisation; only a failed parse is retried with "https://" |
| Utils.NormalizeIgnoresPadding | lib/utils.ts:7-16 | white space added at either end of the input never changes the result |
| Utils.NormalizeNoRetryAfterParse | lib/utils.ts:7-12 | once the trimmed input parses, the result does not depend on what the "https://" retry would give |
| Utils.NormalizedIsWebParse | lib/utils.ts:5-21 | every accepted URL is the serialisation of an http or https parse of the trimmed input or of its "https://" retry, given that the parser reports https for a string starting with "https://" |
| Utils.NormalizeIdempotent | lib/utils.ts:5-22 | normalising a normalised URL returns it unchanged, given three assumptions about the parser and the result: the accepted parse's serialisation re-parses to the same URL; a string starting with "https://" parses with the https protocol; and the serialisation has no surrounding white space. That the result has a web protocol is derived |
| Utils.GetDomain | lib/utils.ts:27-33 | the parsed hostname, or the input unchanged when parsing fails |
| Utils.DomainOfNormalized | lib/utils.ts:5-33 | the domain of a normalised URL is the hostname of the parse the normaliser accepted, never the raw-string fallback, given that a serialisation re-parses to the same URL |
| Utils.AgeOf | lib/utils.ts:41-50 | the floored-quotient cascade puts an elapsed time in exactly one bucket: under a minute (negative times included), 1-59 minutes, 1-23 hours, 1-6 days, or a week and more |
| Utils.FormatRelativeTime | lib/utils.ts:38-53 | "just now" below one minute, including dates in the future; "Nm ago", "Nh ago", "Nd ago" with N the floored quotient and in range; the locale date from seven days on |
| Utils.DescribeInjective | lib/utils.ts:47-50 | two labels other than the locale date are equal only for the same bucket and count |
| Utils.Truncate | lib/utils.ts:58-61 | a string within the limit is returned whole; a longer one becomes its first `maxLength` characters plus an ellipsis, `maxLength`+1 long |
| Utils.TruncateIdempotent | lib/utils.ts:58-61 | truncating a truncated string changes nothing |
| AddBookmarkForm.TitleError | components/AddBookmarkForm.tsx:26-43 | a blank title is "required", with no length or duplicate check; over 200 trimmed characters is too long, exactly 200 passes; otherwise a message iff some listed title, lower-cased and untrimmed, equals the trimmed title lower-cased |
| AddBookmarkForm.UrlError | components/AddBookmarkForm.tsx:46-69 | a blank URL is "required" rather than invalid; a URL that does not normalise is invalid; otherwise a message iff some listed URL equals the normalised one, quoting the first such bookmark's title |
| AddBookmarkForm.Validate | components/AddBookmarkForm.tsx:22-72 | each message depends only on its own field, so both can be set at once; the result is valid iff neither message is set |
| AddBookmarkForm.ValidMeansFresh | components/AddBookmarkForm.tsx:22-72 | a valid form has a present, trimmed title of at most 200 characters unlike every listed title, and a URL that normalises to a string no listed bookmark holds |
| AddBookmarkForm.FreshIsValid | components/AddBookmarkForm.tsx:22-72 | conversely, any such fresh title and URL pass |
| AddBookmarkForm.DuplicateTitleRefused | components/AddBookmarkForm.tsx:34-39 | a trimmed title equal to a listed title up to case fails validation with the duplicate message naming the trimmed title, whatever the URL |
| AddBookmarkForm.DuplicateTitleExample | components/AddBookmarkForm.tsx:34-39 | with "Foo" listed, the title "  foo " is refused as a duplicate |
| AddBookmarkForm.ValidateWithProp | components/AddBookmarkForm.tsx:22-72 | with the list passed, `validate` returns; with the prop missing, it throws exactly when either field gets past its own required and format checks, and the throw leaves the required or too-long title message when that was set before it |
| AddBookmarkForm.ThrownKeepsTitleMessage | components/AddBookmarkForm.tsx:26-31 | the title message left behind by a throw is the one `validate` with any list would show |
| AddBookmarkForm.MissingPropNeverValid | components/AddBookmarkForm.tsx:22-72 | with the prop missing, `validate` never returns true |
| AddBookmarkForm.EditTitle | components/AddBookmarkForm.tsx:171-174 | typing a title replaces it and clears only the title message; the URL, its message and both flags are unchanged |
| AddBookmarkForm.EditUrl | components/AddBookmarkForm.tsx:207-210 | typing a URL replaces it and clears only the URL message; the title, its message and both flags are unchanged |
| AddBookmarkForm.Submit | components/AddBookmarkForm.tsx:74-87 | the validation messages are shown and the inputs and success flag are kept; an invalid form sends nothing; a valid one is marked submitting and sends the user id, the trimmed title and the non-empty normalised URL |
| AddBookmarkForm.Settle | components/AddBookmarkForm.tsx:89-113 | a failed insert keeps both inputs and sets only the URL message; a successful one clears inputs and messages, flashes success and passes the re-fetched row to `onAdd` |
| AddBookmarkForm.RetryAfterFailedSave | components/AddBookmarkForm.tsx:74-94 | after a failed insert, submitting again against the same list sends the identical row |
| AddBookmarkForm.NoResendAfterSave | components/AddBookmarkForm.tsx:74-113 | after a successful save, submitting again sends nothing and shows both required messages |
| BookmarkList.InsertOnce | components/BookmarkList.tsx:40-44 | a record whose id is listed leaves the list unchanged; a fresh one is put in front of the old list, one longer |
| BookmarkList.Delete | components/BookmarkList.tsx:47-50 | no entry with the id survives, every other entry does, nothing new appears, and the length drops by the number of entries with the id |
| BookmarkList.Update | components/BookmarkList.tsx:53-59 | same length; entries with the id are replaced in place, every other entry is untouched |
| BookmarkList.ApplyChange | components/BookmarkList.tsx:37-60 | the realtime callback: after an INSERT its id is listed, after a DELETE its id is not and the list is no longer, after an UPDATE the length is kept and its id is listed exactly when it was before; no entry with another id is lost |
| BookmarkList.HandleDeleted | components/BookmarkList.tsx:20-22 | `handleDeleted` has the same effect as a realtime DELETE of the same id |
| BookmarkList.InsertIdempotent | components/BookmarkList.tsx:40-42 | delivering an INSERT twice equals delivering it once |
| BookmarkList.DeleteAbsent | components/BookmarkList.tsx:47-50 | a DELETE of an id that is not listed changes nothing |
| BookmarkList.DeleteIdempotent | components/BookmarkList.tsx:20-22 | deleting twice equals deleting once, through `handleDeleted` or the realtime DELETE in either order |
| BookmarkList.DeleteDistributes | components/BookmarkList.tsx:47-50 | DELETE acts on each part of a list separately, so survivors keep their relative order |
| BookmarkList.DeleteSingle | components/BookmarkList.tsx:21 | deleting the id of an entry whose id occurs nowhere else removes exactly that entry |
| BookmarkList.UpdateAbsent | components/BookmarkList.tsx:53-59 | an UPDATE of an id that is not listed changes nothing: UPDATE never inserts |
| BookmarkList.UpdateKeepsIds | components/BookmarkList.tsx:53-59 | UPDATE keeps the sequence of ids |
| BookmarkList.ApplyPreservesDistinct | components/BookmarkList.tsx:37-60 | INSERT, DELETE and UPDATE each keep the ids pairwise distinct |
| BookmarkList.DeletePreservesDistinct | components/BookmarkList.tsx:47-50 | DELETE keeps the ids pairwise distinct |
| BookmarkList.InsertDeleteCommute | components/BookmarkList.tsx:38-51 | an INSERT and a DELETE of different ids give the same list in either delivery order |
| BookmarkList.DeleteBeforeInsert | components/BookmarkList.tsx:38-51 | a DELETE overtaken by its INSERT leaves the record listed at the front |
| BookmarkList.View | components/BookmarkList.tsx:73-149 | the empty state iff the list is empty; otherwise one card per entry in order, with the count footer iff there are more than five |
| BookmarkManager.HandleAdd | components/BookmarkManager.tsx:19-24 | an already listed id leaves the list unchanged; a fresh record goes to index 0 with the old list as the tail; the same as a realtime INSERT |
| BookmarkManager.AddAndInsertKeepOneCopy | components/BookmarkManager.tsx:19-24 | a local add and the realtime INSERT of the same record, in either order, give the same list with exactly one copy |
| BookmarkManager.Run | components/BookmarkManager.tsx:17-24 | the list state starts as `initialBookmarks`; with no events it is exactly that list |
| BookmarkManager.StepIsChange | components/BookmarkManager.tsx:19-24 | the manager's add and the card's delete act on the list exactly as a realtime INSERT and DELETE of the same record or id |
| BookmarkManager.RunPreservesDistinct | components/BookmarkManager.tsx:17-24 | starting from a list with distinct ids, any sequence of adds, realtime changes and card deletions, in any order and with repeats, keeps the ids distinct |
| BookmarkManager.CountLabel | components/BookmarkManager.tsx:43-45 | the empty-list prompt for 0, "1 bookmark saved" for 1, "n bookmarks saved" from 2 on |
| BookmarkManager.CountLabelInjective | components/BookmarkManager.tsx:43-45 | different counts get different labels |
| BookmarkManager.AsWrittenNeverValid | components/BookmarkManager.tsx:49 | as the form is wired, `validate` throws or fails for every input, so nothing is ever submitted |
| BookmarkManager.PassingTitleThrows | components/BookmarkManager.tsx:49 | as wired, every title that passes the required and length checks makes `validate` throw, whatever the URL |
| BookmarkManager.AsWrittenRejectsExample | components/BookmarkManager.tsx:49 | as wired, the title "Example" makes `validate` throw, whatever the URL and the list |
| BookmarkManager.WiredFormValidates | components/BookmarkManager.tsx:49 | with the list passed, `validate` never throws, checks against the listed bookmarks, and accepts fresh input |
| BookmarkCard.ClickDelete | components/BookmarkCard.tsx:22-24 | the confirmation is shown; the deleting flag is unchanged |
| BookmarkCard.CancelDelete | components/BookmarkCard.tsx:43-45 | the confirmation is hidden; the deleting flag is unchanged |
| BookmarkCard.ConfirmDelete | components/BookmarkCard.tsx:26-27 | the card is marked as deleting |
| BookmarkCard.DeleteSettled | components/BookmarkCard.tsx:35-40 | on success `onDeleted` gets exactly this card's id; on an error both flags revert to false and `onDeleted` is not called |
| BookmarkCard.CancelUndoesClick | components/BookmarkCard.tsx:22-45 | cancelling returns the card to its state before the delete click |
| BookmarkCard.FailedDeleteRestores | components/BookmarkCard.tsx:22-40 | click, confirm and a failed delete return an idle card to its start, with the delete button (enabled iff neither flag is set) enabled again |
| BookmarkCard.SuccessfulDeleteRemovesCard | components/BookmarkCard.tsx:35-36 | a successful delete, passed to `handleDeleted`, removes exactly this card from a list with distinct ids and keeps the rest in order |
| BookmarkCard.FaviconUrl | components/BookmarkCard.tsx:19-20 | the favicon service prefix, then the domain from `getDomain`, then "&sz=32"; the domain is what lies between them |
| BookmarkCard.DisplayedUrl | components/BookmarkCard.tsx:156 | `truncate(url, 55)`: at most 56 characters, the URL itself when it fits |
| Header.DisplayName | components/Header.tsx:26-30 | `full_name` when non-empty, else `name`, else the e-mail text before the first "@", else "User"; never empty |
| Header.DisplayNameFromEmail | components/Header.tsx:29 | without a usable name, the display name is the e-mail address up to its first "@" (all of it without one), or "User" |
| Header.FirstCharsOfSplit | components/Header.tsx:33-36 | the first characters of the space-separated words are the characters that are not spaces and start the name or follow a space |
| Header.EmptyWordsAddNothing | components/Header.tsx:34-36 | empty words, from leading or repeated spaces, contribute nothing to the initials |
| Header.Initials | components/Header.tsx:33-38 | the upper-cased starts of the name's words, cut to at most two |
| Header.ToggleMenu | components/Header.tsx:80 | each click flips `isMenuOpen` |

## Findings

| source | as written | input that shows it | evidently intended | confidence | as-written member | corrected member |
|---|---|---|---|---|---|---|
| components/BookmarkManager.tsx:49 | the form is rendered without its required `existingBookmarks` prop, so `validate` calls `.find` on `undefined` | title "Example", any URL, any list: the title's duplicate lookup throws a `TypeError`, so no bookmark can ever be added | pass the manager's list, `existingBookmarks={bookmarks}` | high for a build that skips type checking, where the code runs as written (the TypeScript compiler reports the missing prop); not executed | BookmarkManager.PassingTitleThrows | BookmarkManager.WiredFormValidates |

The rest of the model validates against an explicit list (`AddBookmarkForm.Validate`,
`AddBookmarkForm.Submit`), that is, the corrected wiring.

## Left out

- All Supabase calls are out: the insert, the "latest row by `created_at`" re-fetch, the
  delete, the realtime channel's subscribe and remove calls with the server-side `user_id`
  filter, `auth.signOut`, and router navigation. These are network I/O. Their results
  enter the model as parameters: `saved`, `refetched`, `succeeded`, and the `Change`
  payloads.
- The session checks, redirects and initial ordered fetch of `app/dashboard/page.tsx` and
  `app/login/page.tsx` are out; this is server and network plumbing.
- The URL normaliser does no hostname-dot or top-level-domain check; it accepts any
  hostname the URL parser accepts, and so does the model.
- There is no cross-tab broadcast channel. Other tabs' changes arrive only through the
  server-filtered realtime feed, which is modelled as the `Change` payloads.
- Only the new title is trimmed before the case-insensitive comparison; listed titles are
  compared as stored, in the code and in the model.
- The internals of the WHATWG URL parser and serialiser are out. `UrlParser` is a
  parameter.
- `new Date(...)`, the current clock and `toLocaleDateString` are out. They are foreign
  and locale-dependent, so `FormatRelativeTime` takes `now`, `date` and the locale text
  as inputs.
- Utils.NormalizedIsWebParse: holds only under the stated assumption about parsing
  "https://"+x, which belongs to the parser, not to this code.
- Utils.NormalizeIdempotent: holds only under three preconditions about the parser. The
  accepted parse's serialisation re-parses to the same URL (`Reparses`, the URL
  Standard's promise). "https://"+x parses with the https protocol. The serialisation
  has no white space at either end.
- Utils.DomainOfNormalized: holds only under the same re-parse assumption (`Reparses`),
  stated as a precondition.
- Utils.Truncate: `maxLength` is a natural number. `slice` with a negative end counts from
  the end; that case is not modelled, because the only caller passes 55.
- Strings are sequences of Unicode scalar values, not UTF-16 code units. The 200-character
  limit and the 55-character truncation count characters, not code units.
- `toLowerCase`/`toUpperCase` map ASCII letters only. Full Unicode case mapping is
  locale-free but large, and can change string length.
- The form's `isSubmitting` disabling of inputs and button, and the two-second reset of
  `successFlash`, are out. These are presentation and a timer.
- The title input's `maxLength={200}` (components/AddBookmarkForm.tsx:179) is not
  modelled: `EditTitle` takes a value of any length. The 200-character rule is still
  enforced by `validate`, which the model covers.
- The card's favicon loading and `faviconError` fallback, hover styling, and `isDeleting`
  opacity are out; they are presentation only.
- The header's avatar image, `isSigningOut` flag and sign-out button are out; sign-out is
  I/O.
- JSX markup, styling, animations, `tailwind.config.ts` and the `app/layout.tsx` metadata
  are out; they are presentation only.
- `tests/e2e/bookmarks.spec.ts` is out. It drives a browser against the login page and
  checks nothing about this logic.
