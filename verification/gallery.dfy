/** The cat gallery's view-state controller (the `App` component of
    src/App.js) as a sequential state machine over immutable records. Each
    handler of the component is a transition `State -> State`; the delayed
    search is split into a begin step and a completion step because its
    filtering runs later, inside a timer callback. */
module Gallery {
  import opened Wrappers
  import opened Text
  import opened Sequences

  /** One catalog entry, or a stored snapshot of one in the favourites list.
      `fav` is advisory: favourite status is decided by the favourites list. */
  datatype Item = Item(id: int, src: string, name: string, tags: seq<string>, fav: bool)

  /** The component's six pieces of state. */
  datatype State = State(
    images: seq<Item>,         // the displayed list outside the favourites view
    searchText: string,        // contents of the search box
    isLoading: bool,           // a delayed search is under way
    errorMessage: string,      // "" or the no-results message
    favoriteCats: seq<Item>,   // snapshots of the favourited items, in insertion order
    showOnlyFavorites: bool)   // the favourites-only view is on

  /** The message shown when a search finds nothing. */
  const NoResultsMessage: string := "К сожалению, таких котиков нет :("

  /** The fixed catalog of twelve cats. */
  const Catalog: seq<Item> := [
    Item(1, "/images/cat1.jpg", "Рыжик", ["рыжий", "игривый", "молодой"], false),
    Item(2, "/images/cat2.jpg", "Мурка", ["серый", "спокойный", "взрослый"], false),
    Item(3, "/images/cat3.jpg", "Барсик", ["полосатый", "ласковый", "домашний"], false),
    Item(4, "/images/cat4.jpg", "Снежок", ["белый", "пушистый", "нежный"], false),
    Item(5, "/images/cat5.jpg", "Васька", ["черный", "хитрый", "ночной"], false),
    Item(6, "/images/cat6.jpg", "Дымок", ["дымчатый", "элегантный", "спокойный"], false),
    Item(7, "/images/cat7.jpg", "Персик", ["рыжий", "ласковый", "молодой"], false),
    Item(8, "/images/cat8.jpg", "Зефирка", ["белый", "пушистый", "сладкий"], false),
    Item(9, "/images/cat9.jpg", "Тигра", ["полосатый", "дикий", "активный"], false),
    Item(10, "/images/cat10.jpg", "Серафима", ["серый", "мудрая", "спокойная"], false),
    Item(11, "/images/cat11.jpg", "Ночка", ["черный", "загадочный", "ночная"], false),
    Item(12, "/images/cat12.jpg", "Пушок", ["белый", "пушистый", "добрый"], false)
  ]

  /** No two entries of `xs` share an id. */
  predicate UniqueIds(xs: seq<Item>) {
    forall i, j :: 0 <= i < j < |xs| ==> xs[i].id != xs[j].id
  }

  /** The ids occurring in `xs`. */
  function IdSet(xs: seq<Item>): set<int> {
    set x | x in xs :: x.id
  }

  /** The catalog's ids are 1 to 12, each once, with no favourite flag set. */
  lemma CatalogWellFormed()
    ensures |Catalog| == 12
    ensures forall i :: 0 <= i < |Catalog| ==> Catalog[i].id == i + 1 && !Catalog[i].fav
    ensures UniqueIds(Catalog)
  {
  }

  // ---------------------------------------------------------------------
  // Start-up

  /** The state before anything has run: every hook at its initial value. */
  const Initial: State := State([], "", false, "", [], false)

  /** The mount effect: favourites restored from storage when a stored list
      could be read (`saved` is None when the slot is empty or unparseable,
      which keeps the empty initial list), then the whole catalog shown. */
  function Mount(saved: Option<seq<Item>>): (s: State)
    ensures s.images == Catalog
    ensures s.favoriteCats == (if saved.Some? then saved.value else [])
    ensures s.searchText == "" && !s.isLoading && s.errorMessage == "" && !s.showOnlyFavorites
  {
    Initial.(favoriteCats := saved.GetOr(Initial.favoriteCats), images := Catalog)
  }

  // ---------------------------------------------------------------------
  // Queries

  /** `favoriteCats.find(f => f.id === id)`: the first stored snapshot with
      that id, if any. */
  function FindById(favs: seq<Item>, id: int): (r: Option<Item>)
    ensures r.Some? ==> r.value in favs && r.value.id == id
    ensures r.None? <==> forall f :: f in favs ==> f.id != id
    ensures r.Some? ==>
      exists i :: 0 <= i < |favs| && favs[i] == r.value && forall j :: 0 <= j < i ==> favs[j].id != id
    decreases |favs|
  {
    if favs == [] then None
    else if favs[0].id == id then
      Some(favs[0])
    else
      var r := FindById(favs[1..], id);
      if r.Some? then
        var i :| 0 <= i < |favs[1..]| && favs[1..][i] == r.value && forall j :: 0 <= j < i ==> favs[1..][j].id != id;
        assert favs[i + 1] == r.value;
        assert forall j :: 0 <= j < i + 1 ==> favs[j].id != id by {
          forall j | 0 <= j < i + 1 ensures favs[j].id != id {
            if j > 0 { assert favs[j] == favs[1..][j - 1]; }
          }
        }
        r
      else r
  }

  /** Some entry of `xs` has id `id`. */
  predicate HasId(xs: seq<Item>, id: int) {
    exists x :: x in xs && x.id == id
  }

  /** `checkIfFavorite(id)`: some stored snapshot has that id. It agrees
      with the `find` lookup of the click handler and with the id set. */
  predicate CheckIfFavorite(s: State, id: int)
    ensures CheckIfFavorite(s, id) <==> FindById(s.favoriteCats, id).Some?
    ensures CheckIfFavorite(s, id) <==> id in IdSet(s.favoriteCats)
  {
    HasId(s.favoriteCats, id)
  }

  /** `catsToShow`: the list to show (rendered unless loading). */
  function CatsToShow(s: State): (r: seq<Item>)
    ensures s.showOnlyFavorites ==> r == s.favoriteCats
    ensures !s.showOnlyFavorites ==> r == s.images
    ensures s.showOnlyFavorites ==> forall id :: HasId(r, id) <==> CheckIfFavorite(s, id)
  {
    if s.showOnlyFavorites then s.favoriteCats else s.images
  }

  // ---------------------------------------------------------------------
  // Search

  /** The search box's `onChange`: only the text changes. */
  function EditSearch(s: State, text: string): (s': State)
    ensures s'.searchText == text
    ensures s'.images == s.images && CatsToShow(s') == CatsToShow(s)
    ensures s'.isLoading == s.isLoading && s'.errorMessage == s.errorMessage
    ensures s'.favoriteCats == s.favoriteCats && s'.showOnlyFavorites == s.showOnlyFavorites
  {
    s.(searchText := text)
  }

  /** The term a scheduled search callback captured when it was scheduled. */
  datatype Pending = Pending(term: string)

  /** The state after `handleSearch` returns, and the callback it scheduled. */
  datatype Begun = Begun(state: State, pending: Option<Pending>)

  /** The synchronous part of `handleSearch`. A whitespace-only box shows the
      whole catalog and clears the message at once, scheduling nothing; any
      other text sets the loading flag and schedules a completion that will
      filter with the text as it is now, untrimmed. */
  function BeginSearch(s: State): (b: Begun)
    ensures Blank(s.searchText) ==>
      b.pending.None? && b.state == s.(images := Catalog, errorMessage := "")
    ensures !Blank(s.searchText) ==>
      b.pending == Some(Pending(s.searchText)) && b.state == s.(isLoading := true)
  {
    if Trim(s.searchText) == "" then
      Begun(s.(images := Catalog, errorMessage := ""), None)
    else
      Begun(s.(isLoading := true), Some(Pending(s.searchText)))
  }

  /** Whether `item` is found by `term`: its lower-cased name contains the
      lower-cased term, or one of its lower-cased tags does. `lower` stands
      for `String.prototype.toLowerCase`. */
  predicate Matches(item: Item, term: string, lower: string -> string) {
    || Contains(lower(item.name), lower(term))
    || exists k :: 0 <= k < |item.tags| && Contains(lower(item.tags[k]), lower(term))
  }

  /** An item matches exactly when the lower-cased term occurs at some
      position of its lower-cased name or of one of its lower-cased tags. */
  lemma MatchesIffOccurs(item: Item, term: string, lower: string -> string)
    ensures Matches(item, term, lower) <==>
      exists t, i :: t in [item.name] + item.tags && OccursAt(lower(t), lower(term), i)
  {
    var u := lower(term);
    ContainsIffOccurs(lower(item.name), u);
    forall k | 0 <= k < |item.tags|
      ensures Contains(lower(item.tags[k]), u) <==> exists i :: OccursAt(lower(item.tags[k]), u, i)
    {
      ContainsIffOccurs(lower(item.tags[k]), u);
    }
    if Matches(item, term, lower) {
      if Contains(lower(item.name), u) {
        var i :| OccursAt(lower(item.name), u, i);
        assert item.name in [item.name] + item.tags;
      } else {
        var k :| 0 <= k < |item.tags| && Contains(lower(item.tags[k]), u);
        var i :| OccursAt(lower(item.tags[k]), u, i);
        assert item.tags[k] in [item.name] + item.tags;
      }
    } else {
      forall t, i | t in [item.name] + item.tags
        ensures !OccursAt(lower(t), u, i)
      {
        if t != item.name {
          var k :| 0 <= k < |item.tags| && item.tags[k] == t;
        }
      }
    }
  }

  /** The timer callback of `handleSearch`: the catalog filtered by the
      captured term becomes the displayed list, the no-results message is set
      exactly when nothing matched, and loading ends. */
  function CompleteSearch(s: State, p: Pending, lower: string -> string): (s': State)
    ensures IsSubsequence(s'.images, Catalog)
    ensures forall it :: it in s'.images ==> it in Catalog && Matches(it, p.term, lower)
    ensures forall it :: it in Catalog && Matches(it, p.term, lower) ==> it in s'.images
    ensures s'.images == [] ==> s'.errorMessage == NoResultsMessage
    ensures s'.images != [] ==> s'.errorMessage == ""
    ensures !s'.isLoading
    ensures s'.searchText == s.searchText && s'.favoriteCats == s.favoriteCats
    ensures s'.showOnlyFavorites == s.showOnlyFavorites
  {
    var found := Filter(Catalog, (it: Item) => Matches(it, p.term, lower));
    s.(images := found,
       errorMessage := if |found| == 0 then NoResultsMessage else "",
       isLoading := false)
  }

  // ---------------------------------------------------------------------
  // View buttons

  /** `showAll`: the whole catalog, an empty search box, no message and the
      favourites view off; loading and the favourites are left alone. */
  function ShowAll(s: State): (s': State)
    ensures s'.images == Catalog && s'.searchText == "" && s'.errorMessage == ""
    ensures !s'.showOnlyFavorites
    ensures CatsToShow(s') == Catalog
    ensures s'.favoriteCats == s.favoriteCats && s'.isLoading == s.isLoading
  {
    s.(images := Catalog, searchText := "", errorMessage := "", showOnlyFavorites := false)
  }

  /** `toggleFavoritesView`: flips the view flag; turning it on copies the
      stored snapshots into the displayed list, turning it off shows the whole
      catalog again without re-applying the search. */
  function ToggleFavoritesView(s: State): (s': State)
    ensures s'.showOnlyFavorites == !s.showOnlyFavorites
    ensures s'.showOnlyFavorites ==> s'.images == s.favoriteCats
    ensures !s'.showOnlyFavorites ==> s'.images == Catalog
    ensures CatsToShow(s') == if s'.showOnlyFavorites then s.favoriteCats else Catalog
    ensures s'.favoriteCats == s.favoriteCats
    ensures s'.searchText == s.searchText && s'.isLoading == s.isLoading
    ensures s'.errorMessage == s.errorMessage
  {
    var on := !s.showOnlyFavorites;
    s.(showOnlyFavorites := on, images := if on then s.favoriteCats else Catalog)
  }

  // ---------------------------------------------------------------------
  // Favourites

  /** The `images.map` of `handleFavoriteClick`: entries with id `id` get
      their `fav` flag set to `v`, every other entry is kept. */
  function MarkFav(xs: seq<Item>, id: int, v: bool): (r: seq<Item>)
    ensures |r| == |xs|
    ensures forall i :: 0 <= i < |xs| && xs[i].id != id ==> r[i] == xs[i]
    ensures forall i :: 0 <= i < |xs| && xs[i].id == id ==> r[i] == xs[i].(fav := v)
    decreases |xs|
  {
    if xs == [] then []
    else [if xs[0].id == id then xs[0].(fav := v) else xs[0]] + MarkFav(xs[1..], id, v)
  }

  /** The favourites update of `handleFavoriteClick(cat)`: every snapshot
      with the cat's id is removed if there is one, otherwise a snapshot of
      the cat marked `fav` is appended. */
  function ToggleFavorite(favs: seq<Item>, cat: Item): (r: seq<Item>)
    ensures HasId(r, cat.id) == !HasId(favs, cat.id)
    ensures forall id :: id != cat.id ==> (HasId(r, id) <==> HasId(favs, id))
    ensures IdSet(r) == if HasId(favs, cat.id) then IdSet(favs) - {cat.id} else IdSet(favs) + {cat.id}
    ensures UniqueIds(favs) ==> UniqueIds(r)
    ensures forall f: Item :: f.id != cat.id ==> (f in r <==> f in favs)
    ensures !HasId(favs, cat.id) ==> r == favs + [cat.(fav := true)]
    ensures HasId(favs, cat.id) ==> IsSubsequence(r, favs)
    ensures HasId(favs, cat.id) ==>
      forall f: Item :: multiset(r)[f] == if f.id == cat.id then 0 else multiset(favs)[f]
  {
    var found := FindById(favs, cat.id);
    var keep := (f: Item) => f.id != cat.id;
    var r :=
      if found.Some? then Filter(favs, keep)
      else favs + [cat.(fav := true)];
    UniqueAfterClick(favs, cat, r);
    FilterCount(favs, keep);
    r
  }

  /** `handleFavoriteClick(cat)`: the favourites list is toggled for the
      cat's id, then the displayed entries with that id get their `fav` flag
      set to the new membership. */
  function HandleFavoriteClick(s: State, cat: Item): (s': State)
    ensures CheckIfFavorite(s', cat.id) == !CheckIfFavorite(s, cat.id)
    ensures forall id :: id != cat.id ==> (CheckIfFavorite(s', id) <==> CheckIfFavorite(s, id))
    ensures UniqueIds(s.favoriteCats) ==> UniqueIds(s'.favoriteCats)
    ensures forall f: Item :: f.id != cat.id ==> (f in s'.favoriteCats <==> f in s.favoriteCats)
    ensures !CheckIfFavorite(s, cat.id) ==> s'.favoriteCats == s.favoriteCats + [cat.(fav := true)]
    ensures CheckIfFavorite(s, cat.id) ==> IsSubsequence(s'.favoriteCats, s.favoriteCats)
    ensures CheckIfFavorite(s, cat.id) ==>
      forall f: Item :: multiset(s'.favoriteCats)[f] == if f.id == cat.id then 0 else multiset(s.favoriteCats)[f]
    ensures |s'.images| == |s.images|
    ensures forall i :: 0 <= i < |s.images| ==> s'.images[i].id == s.images[i].id
    ensures forall i :: 0 <= i < |s.images| && s.images[i].id != cat.id ==> s'.images[i] == s.images[i]
    ensures forall i :: 0 <= i < |s.images| && s.images[i].id == cat.id ==>
      s'.images[i] == s.images[i].(fav := CheckIfFavorite(s', cat.id))
    ensures s'.searchText == s.searchText && s'.isLoading == s.isLoading
    ensures s'.errorMessage == s.errorMessage && s'.showOnlyFavorites == s.showOnlyFavorites
  {
    var already := FindById(s.favoriteCats, cat.id);
    var favs := ToggleFavorite(s.favoriteCats, cat);
    var s' := s.(favoriteCats := favs, images := MarkFav(s.images, cat.id, already.None?));
    assert CheckIfFavorite(s', cat.id) == already.None?;
    s'
  }

  /** The two branches of the favourites update keep ids unique. */
  lemma UniqueAfterClick(favs: seq<Item>, cat: Item, favs': seq<Item>)
    requires favs' == if FindById(favs, cat.id).Some? then Filter(favs, (f: Item) => f.id != cat.id)
                      else favs + [cat.(fav := true)]
    ensures UniqueIds(favs) ==> UniqueIds(favs')
  {
    if UniqueIds(favs) {
      if FindById(favs, cat.id).Some? {
        FilterKeepsUniqueIds(favs, (f: Item) => f.id != cat.id);
      } else {
        forall i, j | 0 <= i < j < |favs'|
          ensures favs'[i].id != favs'[j].id
        {
          if j == |favs| {
            assert favs'[i] == favs[i];
          }
        }
      }
    }
  }

  /** Filtering a list whose ids are unique leaves them unique. */
  lemma {:induction false} FilterKeepsUniqueIds(xs: seq<Item>, p: Item -> bool)
    requires UniqueIds(xs)
    ensures UniqueIds(Filter(xs, p))
    decreases |xs|
  {
    if xs != [] {
      FilterKeepsUniqueIds(xs[1..], p);
      var rest := Filter(xs[1..], p);
      if p(xs[0]) {
        var r := [xs[0]] + rest;
        assert r == Filter(xs, p);
        forall i, j | 0 <= i < j < |r|
          ensures r[i].id != r[j].id
        {
          if i == 0 {
            assert r[j] in xs[1..];
            var k :| 0 <= k < |xs[1..]| && xs[1..][k] == r[j];
            assert xs[k + 1] == r[j];
          } else {
            assert r[i] == rest[i - 1] && r[j] == rest[j - 1];
          }
        }
      }
    }
  }
}
