/** Properties of sequences of user actions on the gallery: what pairs of
    actions undo, what survives any run, and how overlapping searches end. */
module GalleryRuns {
  import opened Wrappers
  import opened Sequences
  import opened Text
  import opened Gallery

  /** A user gesture, or the firing of a scheduled search callback. */
  datatype Action =
    | Type(text: string)
    | Search
    | Complete(pending: Pending)
    | ShowAllClick
    | ToggleView
    | FavoriteClick(cat: Item)

  /** One transition of the controller. */
  function Step(s: State, a: Action, lower: string -> string): State {
    match a
    case Type(text) => EditSearch(s, text)
    case Search => BeginSearch(s).state
    case Complete(p) => CompleteSearch(s, p, lower)
    case ShowAllClick => ShowAll(s)
    case ToggleView => ToggleFavoritesView(s)
    case FavoriteClick(cat) => HandleFavoriteClick(s, cat)
  }

  /** The actions applied in order. */
  function Run(s: State, acts: seq<Action>, lower: string -> string): State
    decreases |acts|
  {
    if acts == [] then s else Run(Step(s, acts[0], lower), acts[1..], lower)
  }

  /** After start-up an id is a favourite exactly when a readable stored
      list holds a snapshot with that id. */
  lemma MountRestoresFavorites(saved: Option<seq<Item>>, id: int)
    ensures CheckIfFavorite(Mount(saved), id) <==> saved.Some? && HasId(saved.value, id)
    ensures CatsToShow(Mount(saved)) == Catalog
  {
  }

  /** No action ever lets two stored snapshots share an id. */
  lemma StepKeepsUniqueFavorites(s: State, a: Action, lower: string -> string)
    requires UniqueIds(s.favoriteCats)
    ensures UniqueIds(Step(s, a, lower).favoriteCats)
  {
  }

  /** Unique favourite ids hold after any run that starts with them. */
  lemma {:induction false} RunKeepsUniqueFavorites(s: State, acts: seq<Action>, lower: string -> string)
    requires UniqueIds(s.favoriteCats)
    ensures UniqueIds(Run(s, acts, lower).favoriteCats)
    decreases |acts|
  {
    if acts != [] {
      StepKeepsUniqueFavorites(s, acts[0], lower);
      RunKeepsUniqueFavorites(Step(s, acts[0], lower), acts[1..], lower);
    }
  }

  /** Only favourite clicks change the favourites list. */
  lemma {:induction false} RunWithoutClicksKeepsFavorites(s: State, acts: seq<Action>, lower: string -> string)
    requires forall i :: 0 <= i < |acts| ==> !acts[i].FavoriteClick?
    ensures Run(s, acts, lower).favoriteCats == s.favoriteCats
    decreases |acts|
  {
    if acts != [] {
      assert !acts[0].FavoriteClick?;
      RunWithoutClicksKeepsFavorites(Step(s, acts[0], lower), acts[1..], lower);
    }
  }

  // ---------------------------------------------------------------------
  // Search

  /** A search on an empty or whitespace-only box, from any state, shows the
      whole catalog with no message, schedules nothing and leaves the loading
      flag as it was. */
  lemma BlankSearchShowsCatalog(s: State)
    requires Trim(s.searchText) == ""
    ensures BeginSearch(s).pending.None?
    ensures BeginSearch(s).state.images == Catalog
    ensures BeginSearch(s).state.errorMessage == ""
    ensures BeginSearch(s).state.isLoading == s.isLoading
  {
  }

  /** A term that no catalog item matches empties the displayed list and
      shows the no-results message. */
  lemma NoMatchShowsMessage(s: State, p: Pending, lower: string -> string)
    requires forall i :: 0 <= i < |Catalog| ==> !Matches(Catalog[i], p.term, lower)
    ensures CompleteSearch(s, p, lower).images == []
    ensures CompleteSearch(s, p, lower).errorMessage == NoResultsMessage
  {
    FilterNone(Catalog, (it: Item) => Matches(it, p.term, lower));
  }

  /** A completed search shows the whole catalog exactly when every catalog
      item matches the term. */
  lemma CompletedSearchIsCatalogIffAllMatch(s: State, p: Pending, lower: string -> string)
    ensures CompleteSearch(s, p, lower).images == Catalog
        <==> forall i :: 0 <= i < |Catalog| ==> Matches(Catalog[i], p.term, lower)
  {
    FilterIdentity(Catalog, (it: Item) => Matches(it, p.term, lower));
  }

  /** The `fav` flag is advisory: after a completed search every displayed
      entry is a fresh catalog item with the flag off, favourite or not. */
  lemma CompletedSearchClearsFavFlags(s: State, p: Pending, lower: string -> string)
    ensures forall it :: it in CompleteSearch(s, p, lower).images ==> !it.fav
  {
    CatalogWellFormed();
  }

  /** A full search of non-blank text with nothing else in between: loading
      starts, then the completion filters by the text that was in the box. */
  lemma SearchThenComplete(s: State, lower: string -> string)
    requires !Blank(s.searchText)
    ensures BeginSearch(s).state.isLoading
    ensures var s' := CompleteSearch(BeginSearch(s).state, BeginSearch(s).pending.value, lower);
      && !s'.isLoading
      && (forall it :: it in s'.images <==> it in Catalog && Matches(it, s.searchText, lower))
  {
  }

  /** The callback filters by the text captured when the search began; text
      typed while it is pending does not affect its result. */
  lemma CompletionUsesCapturedTerm(s: State, typed: string, lower: string -> string)
    requires !Blank(s.searchText)
    ensures var b := BeginSearch(s);
      forall it :: it in CompleteSearch(EditSearch(b.state, typed), b.pending.value, lower).images
        <==> it in Catalog && Matches(it, s.searchText, lower)
  {
  }

  /** Two overlapping searches whose callbacks fire in the order they were
      scheduled, as equal timer delays do: loading is already off while the
      second search is still pending, and the second term's result is what
      stays on screen. */
  lemma OverlappingSearchesSecondWins(s: State, second: string, lower: string -> string)
    requires !Blank(s.searchText) && !Blank(second)
    ensures
      var b1 := BeginSearch(s);
      var b2 := BeginSearch(EditSearch(b1.state, second));
      var mid := CompleteSearch(b2.state, b1.pending.value, lower);
      var done := CompleteSearch(mid, b2.pending.value, lower);
      && !mid.isLoading
      && (forall it :: it in mid.images <==> it in Catalog && Matches(it, s.searchText, lower))
      && (forall it :: it in done.images <==> it in Catalog && Matches(it, second, lower))
      && done.searchText == second
  {
  }

  /** "Show all" while a search is pending does not cancel it: the callback
      later replaces the catalog with the old term's result while the box is
      empty. */
  lemma StaleCallbackAfterShowAll(s: State, lower: string -> string)
    requires !Blank(s.searchText)
    ensures
      var b := BeginSearch(s);
      var reset := ShowAll(b.state);
      var done := CompleteSearch(reset, b.pending.value, lower);
      && reset.images == Catalog
      && done.searchText == ""
      && (forall it :: it in done.images <==> it in Catalog && Matches(it, s.searchText, lower))
  {
  }

  /** A blank search while a search is pending shows the catalog at once, but
      the pending callback later replaces it with the old term's result while
      the box holds only whitespace. */
  lemma StaleCallbackAfterBlankSearch(s: State, blank: string, lower: string -> string)
    requires !Blank(s.searchText) && Blank(blank)
    ensures
      var b1 := BeginSearch(s);
      var b2 := BeginSearch(EditSearch(b1.state, blank));
      var done := CompleteSearch(b2.state, b1.pending.value, lower);
      && b2.pending.None? && b2.state.images == Catalog
      && done.searchText == blank
      && (forall it :: it in done.images <==> it in Catalog && Matches(it, s.searchText, lower))
  {
  }

  /** Nothing orders the callbacks themselves: were the first search's
      callback to fire after the second one's, the first term's result would
      stay on screen. Equal timer delays rule this order out in a browser. */
  lemma LastCompletionWins(s: State, second: string, lower: string -> string)
    requires !Blank(s.searchText) && !Blank(second)
    ensures
      var b1 := BeginSearch(s);
      var b2 := BeginSearch(EditSearch(b1.state, second));
      var done := CompleteSearch(CompleteSearch(b2.state, b2.pending.value, lower), b1.pending.value, lower);
      && done.images == CompleteSearch(s, Pending(s.searchText), lower).images
      && done.searchText == second
  {
  }

  // ---------------------------------------------------------------------
  // View toggling

  /** Two view toggles in a row restore the flag and leave the favourites
      untouched; from the all-cats view they end on the whole catalog, from
      the favourites view on a copy of the favourites. */
  lemma ToggleViewTwice(s: State)
    ensures ToggleFavoritesView(ToggleFavoritesView(s)).showOnlyFavorites == s.showOnlyFavorites
    ensures !s.showOnlyFavorites ==> ToggleFavoritesView(ToggleFavoritesView(s)).images == Catalog
    ensures s.showOnlyFavorites ==> ToggleFavoritesView(ToggleFavoritesView(s)).images == s.favoriteCats
    ensures ToggleFavoritesView(ToggleFavoritesView(s)).favoriteCats == s.favoriteCats
  {
  }

  /** Favourite the fifth cat right after start-up with nothing stored, then
      switch to the favourites view: only its snapshot is shown. */
  lemma FavoriteThenViewShowsOnlyIt()
    ensures
      var s := ToggleFavoritesView(HandleFavoriteClick(Mount(None), Catalog[4]));
      CatsToShow(s) == [Catalog[4].(fav := true)]
  {
  }

  // ---------------------------------------------------------------------
  // Favourite clicks

  /** Clicking the same cat twice restores which ids are favourites, and
      leaves the displayed entries with the cat's id flagged with the original
      membership; nothing else in the displayed list changes. */
  lemma DoubleClickRestoresMembership(s: State, cat: Item)
    ensures var s2 := HandleFavoriteClick(HandleFavoriteClick(s, cat), cat);
      && (forall id :: CheckIfFavorite(s2, id) <==> CheckIfFavorite(s, id))
      && IdSet(s2.favoriteCats) == IdSet(s.favoriteCats)
      && |s2.images| == |s.images|
      && (forall i :: 0 <= i < |s.images| && s.images[i].id != cat.id ==> s2.images[i] == s.images[i])
      && (forall i :: 0 <= i < |s.images| && s.images[i].id == cat.id ==>
            s2.images[i] == s.images[i].(fav := CheckIfFavorite(s, cat.id)))
  {
    var s1 := HandleFavoriteClick(s, cat);
    var s2 := HandleFavoriteClick(s1, cat);
    forall id
      ensures CheckIfFavorite(s2, id) <==> CheckIfFavorite(s, id)
    {
    }
    IdSetIsHasId(s2.favoriteCats, s.favoriteCats);
  }

  /** Two lists have the same id set when they have the same ids. */
  lemma IdSetIsHasId(xs: seq<Item>, ys: seq<Item>)
    requires forall id :: HasId(xs, id) <==> HasId(ys, id)
    ensures IdSet(xs) == IdSet(ys)
  {
    forall id | id in IdSet(xs)
      ensures id in IdSet(ys)
    {
      assert HasId(xs, id);
    }
    forall id | id in IdSet(ys)
      ensures id in IdSet(xs)
    {
      assert HasId(ys, id);
    }
  }

  /** A double click is not the identity on the favourites list: removing
      and re-adding the first of two favourites moves its snapshot to the end,
      and the new snapshot is the clicked item with `fav` set. */
  lemma DoubleClickCanReorder(s: State, a: Item, b: Item)
    requires s.favoriteCats == [a, b] && a.id != b.id
    ensures HandleFavoriteClick(HandleFavoriteClick(s, a), a).favoriteCats == [b, a.(fav := true)]
  {
    var keep := (f: Item) => f.id != a.id;
    assert FindById([a, b], a.id) == Some(a);
    assert Filter([b], keep) == [b];
    assert [a, b][1..] == [b];
    assert Filter([a, b], keep) == [b];
    var s1 := HandleFavoriteClick(s, a);
    assert s1.favoriteCats == [b];
    assert FindById([b], a.id) == None;
  }
}
