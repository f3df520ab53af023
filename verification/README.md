# Cat gallery view-state controller in Dafny

This project models the view-state controller of a small photo gallery of
cats: the `App` component in `src/App.js`. The component holds six pieces of
state:

- `images`: the displayed list;
- `searchText`: the search box contents;
- `isLoading`: a search is running;
- `errorMessage`: "" or the no-results message;
- `favoriteCats`: stored snapshots of favourited items;
- `showOnlyFavorites`: the favourites-only view is on.

It has a fixed catalog of twelve cats. Its handlers change the state in
response to the search box and the buttons. The model is a sequential state
machine over immutable records. Every handler is a pure transition
`State -> State`. The delayed search is split into two steps:

- `BeginSearch` is the synchronous part of `handleSearch`. It returns the
  term that the timer callback captured.
- `CompleteSearch` is the callback firing later.

Modules:

- `Wrappers`: `Option`.
- `Text`: the `trim` emptiness test (the ECMAScript whitespace set) and substring containment.
- `Sequences`: `filter` and the subsequence relation.
- `Gallery`: the items, the state, the catalog, the handlers and the queries.
- `GalleryRuns`: properties of action pairs and of arbitrary action sequences.
- `Scenarios`: a search over the real catalog with a concrete case folding.

Case folding (`toLowerCase`) is the parameter `lower: string -> string`. The
search properties therefore hold for any case folding.

Behaviour of the code worth noting:

- Turning the favourites view on copies the stored snapshots into `images`.
  It does not resolve them against the catalog.
- A pending search is never cancelled or superseded. Its callbacks fire in
  the order they were scheduled, so the later search's result stays on screen
  (`GalleryRuns.OverlappingSearchesSecondWins`). Between the two callbacks the
  loading flag is already off. "Show all" or a blank search during a pending
  search shows the catalog only until the stale callback replaces it
  (`GalleryRuns.StaleCallbackAfterShowAll`,
  `GalleryRuns.StaleCallbackAfterBlankSearch`).
- A double favourite click restores membership. It can still reorder the
  favourites list and replace the stored snapshot
  (`GalleryRuns.DoubleClickCanReorder`).
- There is no detail/modal view in this code.
- Toggling the view twice ends on the catalog only when starting from the
  all-cats view. From the favourites view it ends on a copy of the favourites.

## Model

| member | source | states |
|---|---|---|
| Gallery.CatalogWellFormed | src/App.js:14-27 | the catalog has twelve items with ids 1..12 in order, unique ids, and `fav` off |
| Gallery.Mount | src/App.js:30-41 | on start-up the whole catalog is shown and the favourites are the stored list when one could be read, else empty; every other field keeps its initial value |
| GalleryRuns.MountRestoresFavorites | src/App.js:30-41 | after start-up an id is a favourite iff a readable stored list holds a snapshot with that id, and the list to show is the catalog |
| Gallery.FindById | src/App.js:99 | `find` returns the first stored snapshot with the requested id, and returns nothing iff no snapshot has that id |
| Gallery.CheckIfFavorite | src/App.js:117-119 | `checkIfFavorite(id)` holds iff the click handler's `find` would find a snapshot with that id, iff the id is in the favourites' id set |
| Gallery.CatsToShow | src/App.js:122 | the list to show is the favourites list in the favourites view and `images` otherwise; in the favourites view an id is in it iff `checkIfFavorite` holds for it |
| Gallery.EditSearch | src/App.js:136 | typing changes only the search text; `images`, the list to show, the loading flag, message, favourites and view flag are unchanged |
| Text.TrimStart | src/App.js:50 | leading trim removes exactly a whitespace prefix and leaves a result that is empty or starts with non-whitespace |
| Text.TrimEnd | src/App.js:50 | trailing trim removes exactly a whitespace suffix and leaves a result that is empty or ends with non-whitespace |
| Text.Trim | src/App.js:50 | `trim()` is a slice of the text with no whitespace at either end and only whitespace before and after it, and it is empty iff every character is whitespace, so the emptiness test means "only whitespace was typed" |
| Text.ContainsIffOccurs | src/App.js:61-62 | `includes`, modelled by the recursive predicate `Text.Contains`, holds iff the term occurs at some position of the string |
| Sequences.Filter | src/App.js:60-64 | `filter` returns a subsequence of its input containing every element that satisfies the predicate and nothing else |
| Sequences.FilterIdentity | src/App.js:60-64 | filtering returns the whole input iff every element satisfies the predicate |
| Sequences.FilterNone | src/App.js:60-64 | filtering returns nothing when no element satisfies the predicate |
| Sequences.FilterCount | src/App.js:103 | filtering keeps every copy of an element that satisfies the predicate and no copy of one that does not |
| Gallery.MatchesIffOccurs | src/App.js:60-63 | an item matches iff the lower-cased term occurs at some position of its lower-cased name or of one of its lower-cased tags |
| Gallery.BeginSearch | src/App.js:49-56 | a whitespace-only box shows the catalog, clears the message, schedules nothing and leaves loading as it was; any other text sets loading and schedules a callback holding the untrimmed text |
| GalleryRuns.BlankSearchShowsCatalog | src/App.js:49-54 | from any state, a search whose text trims to empty yields the catalog with no message and no change to loading |
| Gallery.CompleteSearch | src/App.js:59-75 | the callback displays a subsequence of the catalog with exactly the items whose lower-cased name or some lower-cased tag contains the lower-cased captured term; the message is the no-results text iff that list is empty; loading ends; search text, favourites and view flag are kept |
| GalleryRuns.NoMatchShowsMessage | src/App.js:66-72 | a term that matches no catalog item leaves an empty list and the no-results message |
| GalleryRuns.CompletedSearchIsCatalogIffAllMatch | src/App.js:60-66 | a completed search shows the whole catalog iff every catalog item matches |
| GalleryRuns.CompletedSearchClearsFavFlags | src/App.js:60-66 | after a completed search every displayed entry has `fav` off, whatever the favourites are |
| GalleryRuns.SearchThenComplete | src/App.js:49-75 | a search of non-blank text sets loading, and its completion clears loading and shows exactly the catalog items matching the text in the box |
| GalleryRuns.CompletionUsesCapturedTerm | src/App.js:59-64 | text typed while a search is pending does not change what that search's callback displays |
| GalleryRuns.OverlappingSearchesSecondWins | src/App.js:49-75 | two overlapping searches whose callbacks fire in scheduling order: loading is off after the first callback while the second is pending, the first callback shows the first term's items, and the second term's items stay on screen |
| GalleryRuns.StaleCallbackAfterShowAll | src/App.js:59-84 | "show all" during a pending search shows the catalog with an empty box, and the pending callback then replaces it with the old term's items while the box stays empty |
| GalleryRuns.StaleCallbackAfterBlankSearch | src/App.js:49-75 | a blank search during a pending search shows the catalog and schedules nothing, and the pending callback then replaces it with the old term's items while the box holds only whitespace |
| GalleryRuns.LastCompletionWins | src/App.js:59-75 | nothing in the handlers orders the callbacks: were the first search's callback to fire after the second's, the first term's result would stay on screen; equal timer delays rule this order out |
| Scenarios.LowerRu | src/App.js:61-62 | the concrete case folding keeps the length, leaves no Latin or Russian capital, and keeps every other character |
| Scenarios.LowerRuIdempotent | src/App.js:61-62 | folding twice is folding once, as with `toLowerCase` |
| Scenarios.AffectionateSearch | src/App.js:60-64 | searching "ласков" shows Барсик (id 3) and Персик (id 7) through their tag "ласковый", with no message |
| Gallery.ShowAll | src/App.js:79-84 | "show all" makes the whole catalog the list to show, with an empty box, no message and the favourites view off; favourites and loading are untouched |
| Gallery.ToggleFavoritesView | src/App.js:87-95 | the view flag is negated; `images` becomes the stored favourites when it turns on and the catalog when it turns off; the list to show follows; favourites, text, loading and message are untouched |
| GalleryRuns.ToggleViewTwice | src/App.js:87-95 | two toggles restore the flag and the favourites, and end on the catalog from the all-cats view or on the favourites from the favourites view |
| GalleryRuns.FavoriteThenViewShowsOnlyIt | src/App.js:87-122 | after start-up with nothing stored, favouriting cat 5 and switching to the favourites view makes the list to show only cat 5's snapshot with `fav` on |
| Gallery.ToggleFavorite | src/App.js:99-107 | the favourites update flips whether the clicked id is present and removes or adds exactly that id in the id set; every snapshot with another id is kept; when the id was absent the result is the old list followed by the cat with `fav` on; when present, the result is a subsequence of the old list that drops every copy with that id and keeps every other copy; ids stay unique |
| Gallery.UniqueAfterClick | src/App.js:101-107 | both branches of the favourites update keep ids unique |
| Gallery.FilterKeepsUniqueIds | src/App.js:103 | removing snapshots with `filter` keeps ids unique |
| Gallery.MarkFav | src/App.js:110-112 | the `images.map` keeps the length, sets `fav` on entries with the clicked id, and keeps every other entry unchanged |
| Gallery.HandleFavoriteClick | src/App.js:98-119 | a click flips `checkIfFavorite` for the cat's id and keeps it for every other id; it keeps favourite ids unique and every snapshot with another id; an absent cat is appended as a copy with `fav` on, a present one has every copy removed while the rest keep their order and copies; `images` keeps its length and ids in order; only entries with the cat's id change, and only their `fav`, which becomes the new membership; the other fields are untouched |
| GalleryRuns.DoubleClickRestoresMembership | src/App.js:98-119 | two clicks on the same cat restore `checkIfFavorite` for every id and the id set; displayed entries with that id end with `fav` equal to the original membership |
| GalleryRuns.DoubleClickCanReorder | src/App.js:101-106 | with favourites [a, b], clicking a twice leaves [b, a with fav on]: order and snapshot change |
| GalleryRuns.StepKeepsUniqueFavorites | src/App.js:49-119 | no single action creates two favourites with the same id |
| GalleryRuns.RunKeepsUniqueFavorites | src/App.js:49-119 | unique favourite ids survive any sequence of actions |
| GalleryRuns.RunWithoutClicksKeepsFavorites | src/App.js:49-95 | a sequence of actions without favourite clicks leaves the favourites list unchanged |

## Left out

- Rendering, JSX, CSS and button labels (src/App.js:124-209) are presentation only. This includes the search button being disabled while loading. Enter still starts a search, so overlapping searches stay possible in the model.
- `localStorage` and `JSON.parse`/`JSON.stringify` (src/App.js:30-46) are browser I/O and a library serialiser. The load is the parameter `saved: Option<seq<Item>>`, where None means an absent or unparseable slot. The save on every change is not modelled, so there is no persist-then-reload round trip. A stored list that parses to something other than an array of items is not modelled.
- The 600 ms `setTimeout` is not modelled as time. A pending search is a `Pending` value, and its completion is an explicit step that may come after any other actions.
- The model lets pending callbacks complete in any order. In the program every callback has the same 600 ms delay (src/App.js:75), so the callbacks fire in the order they were scheduled. The in-order case is `GalleryRuns.OverlappingSearchesSecondWins`. The out-of-order case, `GalleryRuns.LastCompletionWins`, cannot occur in a browser.
- `window.open` on image click (src/App.js:180) is a browser side effect.
- `toLowerCase` is kept abstract as a parameter. `Scenarios.LowerRu` only folds Latin and Russian capitals.
- JavaScript strings are UTF-16 code units, while Dafny `char` is a Unicode scalar value. The two agree for the well-formed strings of the catalog.
- Scenarios.AffectionateSearch: shows that ids 3 and 7 are in the result, not that they are the whole result. The general search contract already characterises the whole result; checking every catalog string against the term by hand was not done.
- A search for a term that no item contains (such as "зз") is covered by `GalleryRuns.NoMatchShowsMessage` for a term that matches nothing. Non-containment for the concrete strings is not proved.
- A stored favourites list may contain repeated ids after loading. The unique-ids invariant is therefore stated for runs that start with unique ids.
