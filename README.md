# Simple CRUD page — a Dafny model of its item-list controller

The repository is a client-only React page for keeping a list of titled items
with optional descriptions. All of its behaviour lives in the `Page`
component of `app/page.tsx`. The component keeps five pieces of state: the
list `items`, the draft `title` and `description` of the form, the
`editingId` of the item being edited (`null` in create mode) and the search
`query`. Its event handlers change that state one step at a time:

- submit creates a new item in front of the list, or rewrites the edited item;
- edit loads an item into the form;
- cancel and reset clear the form;
- delete and clear-all each sit behind a confirmation dialog.

The `filtered` view is a case-insensitive substring search over the title or
the description. This project models that component.

- `wrappers.dfy` — `Option`, for `undefined` fields and the nullable `editingId`.
- `text.dfy` (module `Text`) — the three string operations the page uses.
  `Trim` is `String.prototype.trim`, with ECMAScript's own set of whitespace
  code points. `ToLower` is `toLowerCase`, for ASCII letters. `Includes` is
  `String.prototype.includes`. Each comes with lemmas that say what it
  computes.
- `items.dfy` (module `Items`) — the `Item` record of `app/page.tsx:5-10`
  (`id`, `title`, an optional `description` and the `createdAt` string) and
  the pure list transforms the handlers apply:
  - `Filter` is `Array.prototype.filter`;
  - `Search` is the `filtered` expression;
  - `RemoveId` is the delete filter;
  - `UpdateMatching` is the `map` of the update path;
  - `NewItem` is the object the create path builds;
  - `Find` is `items.find`.

  Beside them are lemmas on order, multiplicity, `id` uniqueness and non-blank
  titles.
- `page.dfy` (module `CrudPage`) — class `Page`. Its fields are the component's
  state and its methods are the handlers. Each method's `ensures` gives the
  whole new state in terms of the old one, through the functions of `Items`.
  `WellFormed()` (unique `id`s, non-blank titles) is kept by every handler,
  given a fresh `id` for create. `Walkthrough` drives one `Page` through a
  create/create/edit/search/delete/clear sequence and states each
  intermediate list.

Behaviour modelled exactly as the code is written:

- Create stores `description.trim() || undefined`, so a blank draft becomes an
  absent description. Update stores the draft description as typed: the
  `Some(description)` of `Page.Submit`, so `""` or `"  "` stay as they are.
  `NewItemShape` states the create side.
- `if (editingId)` is a truthiness test, so an `editingId` of `""` takes the
  create path (`InEditMode`). Only an item read back from storage can have
  such an `id`.
- The update `map` rewrites every item whose `id` matches, not only the first.
  `startEdit` loads the first match (`find`). With unique `id`s the two agree.
- Delete and clear-all do not leave edit mode. A later submit for a deleted
  item then leaves the list alone and only resets the form
  (`UpdateAfterRemoveIsNoop`).
- The load effect keeps the current list when storage holds `null` or `""`
  (`if (raw)`), empties it when `JSON.parse` throws, and takes the decoded
  list as it is otherwise. A decoded list need not satisfy `WellFormed()`.

## Model

| member | source | states |
|---|---|---|
| Text.TrimStartSpec | app/page.tsx:51 | leading-whitespace removal leaves a suffix that does not start with whitespace, and everything cut off is whitespace |
| Text.TrimEndSpec | app/page.tsx:51 | trailing-whitespace removal leaves a prefix that does not end with whitespace, and everything cut off is whitespace |
| Text.TrimSpec | app/page.tsx:51 | `trim()` returns a slice of its input with only whitespace around it and no whitespace at either edge |
| Text.TrimUnique | app/page.tsx:51 | any slice with only whitespace around it and none at its edges is exactly `trim()`'s result, so the characterisation is complete |
| Text.TrimEmptyIffBlank | app/page.tsx:51-52 | the title check rejects exactly the drafts that are empty or all whitespace |
| Text.TrimIdempotent | app/page.tsx:51 | trimming a trimmed string changes nothing |
| Text.Trim | app/page.tsx:51 | `trim()` of the title here and of the description at line 65; characterised by `TrimSpec` and `TrimUnique`: the result is the one slice of the input with only whitespace around it and none at its edges |
| Text.LowerChar | app/page.tsx:93-94 | a capital ASCII letter becomes the small letter at the same place in the alphabet; every other character is kept as it is |
| Text.ToLower | app/page.tsx:93-94 | `toLowerCase()` keeps the length and lowers every character in place |
| Text.ToLowerIdempotent | app/page.tsx:93-94 | lowering twice is lowering once |
| Text.ToLowerIdentifiesCase | app/page.tsx:93-94 | two strings lower to the same string exactly when they differ only in the case of ASCII letters (`SameUpToAsciiCase`, defined letter by letter without `ToLower`) |
| Text.LowerSameUpToCase | app/page.tsx:93-94 | a string and its lowercase form differ only in the case of ASCII letters |
| Text.Includes | app/page.tsx:93-94 | `s.includes(q)` holds exactly when `q` occurs in `s` at some offset |
| Text.IncludesEmpty | app/page.tsx:93-94 | every string includes the empty query |
| Items.DescriptionText | app/page.tsx:77 | the fallback to "" of `startEdit` here and of the search at line 94: an absent description reads as the empty string, a present one as itself |
| Items.SubsequenceKeepsUniqueIds | app/page.tsx:83 | dropping items while keeping order cannot create a duplicate `id` |
| Items.SubsequenceKeepsTitles | app/page.tsx:83 | dropping items cannot create a blank title |
| Items.Filter | app/page.tsx:83 | `Array.prototype.filter`, of the delete here and of the search at line 91; never longer than its input, and characterised by `FilterIsSubsequence` and `FilterCount`: the order-preserving subsequence holding every copy of each accepted item and nothing else |
| Items.FilterIsSubsequence | app/page.tsx:83 | `filter` returns an order-preserving subsequence of its input |
| Items.FilterCount | app/page.tsx:83 | `filter` keeps every occurrence of an accepted item and no occurrence of a rejected one |
| Items.FilterMembers | app/page.tsx:83 | an item is in a filter's result exactly when it is in the input and accepted |
| Items.FilterKeepsAll | app/page.tsx:91-95 | a filter that accepts everything returns its input unchanged |
| Items.FilterAgree | app/page.tsx:91-95 | two tests that agree on every item of a list filter it alike |
| Items.Matches | app/page.tsx:92-94 | the search test: the lowercased title, or the lowercased description read as "" when absent, includes the lowercased query |
| Items.Search | app/page.tsx:91-95 | the search result is an order-preserving subsequence of the list, holding exactly the items whose lowercased title or description includes the lowercased query |
| Items.SearchCount | app/page.tsx:91-95 | the search keeps every copy of a matching item and none of a non-matching one |
| Items.SearchEmptyQuery | app/page.tsx:91-95 | an empty query returns the whole list in order |
| Items.SearchIgnoresQueryCase | app/page.tsx:91-95 | searching for a query and for its lowercase form give the same result |
| Items.SearchCaseInsensitive | app/page.tsx:91-95 | two queries that differ only in the case of ASCII letters give the same search result |
| Items.MatchesCaseInsensitive | app/page.tsx:92-94 | two items whose titles and descriptions differ only in the case of ASCII letters match the same queries |
| Items.MatchesIgnoresTitleCase | app/page.tsx:93 | an item matches a query exactly when the same item with its title lowercased does |
| Items.RemoveId | app/page.tsx:83 | delete returns an order-preserving subsequence with no item of that `id` and every item of another `id` |
| Items.RemoveIdCount | app/page.tsx:83 | delete keeps every copy of every item whose `id` differs and nothing else |
| Items.RemoveAbsentId | app/page.tsx:83 | deleting an `id` that is not in the list changes nothing |
| Items.RemoveIdKeepsInvariants | app/page.tsx:83 | delete keeps `id`s unique and titles non-blank |
| Items.UpdateMatching | app/page.tsx:55-57 | the update keeps length, order, every `id` and every `createdAt`; items with the edited `id` get the new title and description; every other item is unchanged |
| Items.UpdateAbsentId | app/page.tsx:56 | updating an `id` that is not in the list changes nothing |
| Items.UpdateKeepsUniqueIds | app/page.tsx:56 | the update keeps `id`s unique, whatever the titles |
| Items.UpdateKeepsInvariants | app/page.tsx:56 | the update keeps `id`s unique, and with a non-blank title keeps every title non-blank |
| Items.UpdateAfterRemoveIsNoop | app/page.tsx:56 | submitting an edit of an item deleted meanwhile leaves the list as the delete left it |
| Items.NewItem | app/page.tsx:62-67 | the object the create path builds; characterised by `NewItemShape` |
| Items.NewItemShape | app/page.tsx:62-67 | the created item has the given `id` and `createdAt`; its title is the trim of the draft title, that is the slice of it with only whitespace around it and none at its edges; its description is absent exactly when the draft is blank, and otherwise the trim of the draft description in the same sense and non-empty |
| Items.PrependKeepsUniqueIds | app/page.tsx:68 | prepending an item whose `id` is not in the list keeps `id`s unique |
| Items.PrependKeepsTitles | app/page.tsx:68 | prepending an item with a non-blank title keeps every title non-blank |
| Items.Find | app/page.tsx:73 | `find` returns nothing exactly when no item has the `id`, and otherwise the first item with that `id` |
| CrudPage.InEditMode | app/page.tsx:54 | the truthiness test `if (editingId)`: true exactly for a present, non-empty `id`, so `null` and `""` both take the create path |
| CrudPage.Page.constructor | app/page.tsx:19-23 | the initial state: empty list, empty drafts, create mode, empty query |
| CrudPage.Page.Load | app/page.tsx:26-36 | nothing stored keeps the list; unparsable text empties it; a decoded list replaces it |
| CrudPage.Page.ResetForm | app/page.tsx:43-47 | the drafts become empty and edit mode ends; the list and the query are untouched |
| CrudPage.Page.ClearDraft | app/page.tsx:142-145 | the reset button empties both drafts and nothing else |
| CrudPage.Page.SetTitle | app/page.tsx:109 | typing in the title input replaces the draft title only |
| CrudPage.Page.SetDescription | app/page.tsx:120 | typing in the description input replaces the draft description only |
| CrudPage.Page.SetQuery | app/page.tsx:158 | typing in the search box replaces the query only |
| CrudPage.Page.Submit | app/page.tsx:49-70 | a blank title is rejected with nothing changed; in edit mode (a non-empty `editingId`) the list becomes the update of the edited `id` with the trimmed title and the raw description; otherwise the new item is prepended; after either path the drafts are empty and edit mode has ended; the list invariant is kept when the fresh `id` is new, and so is `id` uniqueness on its own, for a list whose titles need not be non-blank |
| CrudPage.Page.StartEdit | app/page.tsx:72-79 | an unknown `id` changes nothing; a known one enters edit mode for it and loads the first matching item's title and description (absent read as "") into the drafts; the list is untouched |
| CrudPage.Page.Delete | app/page.tsx:81-84 | when confirmed, the list becomes the delete of that `id`; when not, nothing changes; the list invariant is kept, and so is `id` uniqueness on its own |
| CrudPage.Page.ClearAll | app/page.tsx:86-89 | when confirmed, the list becomes empty; when not, nothing changes |
| CrudPage.Page.Filtered | app/page.tsx:91-95 | the view is an order-preserving subsequence of the list, holding exactly the matching items, and is the whole list for an empty query |
| CrudPage.Walkthrough | app/page.tsx:49-95 | creating "Buy milk", then "Call mom" with a description, gives the newest-first list; retitling "Buy milk" changes only that item; the search "call" finds only "Call mom"; deleting it leaves the retitled item; clear-all leaves nothing |

## Left out

- Rendering and styling (`app/page.tsx:97-196`, `198-355`) and all of
  `app/layout.tsx`: presentation and page metadata only.
- The `localStorage` read and write and `JSON.parse`/`JSON.stringify`
  (`app/page.tsx:26-41`): browser I/O and a foreign serializer. Load takes an
  abstract `Stored` value instead: missing, malformed or decoded. The save
  effect, which writes the list back after every change, is not modelled.
  Nor is its write at mount.
- `uid()` (`app/page.tsx:14-16`) uses `Date.now` and `Math.random`.
  `new Date().toISOString()` and `toLocaleString()` read the clock and the
  locale. The fresh `id` and the `createdAt` string are parameters of
  `Page.Submit` instead. Uniqueness is proved only when the given `id` is not
  already in the list.
- `alert`, `confirm` and `window.scrollTo`: UI side effects. The alert becomes
  the `Rejected` outcome, and the confirmation becomes the `confirmed`
  argument of `Delete` and `ClearAll`.
- React's scheduling and batching of `setState`: each handler is one atomic
  step on the fields.
- Text.ToLower: lowers ASCII letters only. JavaScript's `toLowerCase`
  also lowers the other Unicode letters, so a search involving non-ASCII
  capitals can differ from the source.
- Strings are sequences of Unicode scalar values, not UTF-16 code units. Every
  code point `trim` removes lies in the Basic Multilingual Plane, so `Trim` is
  not affected.
- Items.Stored: the decoded list is taken to be a list of well-typed items. The
  source casts whatever `JSON.parse` returns without checking it, so a stored
  value of another shape is not modelled.
