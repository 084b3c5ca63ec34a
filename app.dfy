/**
 * The richer variant's page logic: the identity key of a movie, the watchlist
 * toggle over the store, the search and "My List" views of the catalogue, the
 * card grid and the detail overlay. Markup is reduced to the data each render
 * shows.
 */
module App {
  import opened JsBuiltins
  import opened Movies
  import opened Scripts

  /** The one storage key the page owns. */
  const WatchlistKey := "vectflix_watchlist"
  /** The navigation filter value that selects the watchlist view. */
  const WatchlistFilter := "watchlist"
  /** What an empty grid shows. */
  const NoMoviesText := "No movies found."
  /** The overlay button's labels (the remove label starts with U+2212, a minus sign). */
  const AddLabel := "+ Add to List"
  const RemoveLabel := "\U{2212} Remove from List"

  // ---------------------------------------------------------------------------
  // movieKey
  // ---------------------------------------------------------------------------

  /** The composite `${m.title || ""}-${m.year || ""}`. */
  function TitleYear(m: Movie): string {
    OrEmpty(m.title) + "-" + OrEmpty(m.year)
  }

  /** `movieKey(m)`: the slug of title and year, or the slug of the link when that is empty. */
  function MovieKey(m: Movie): (r: string)
    ensures IsSlug(r)
  {
    var s := Slugify(TitleYear(m));
    if s != "" then s else Slugify(OrEmpty(m.link))
  }

  /** The composite holds a letter or digit exactly when title or year does. */
  lemma TitleYearHasAlnum(m: Movie)
    ensures HasAsciiAlnum(TitleYear(m)) <==> HasAsciiAlnum(OrEmpty(m.title)) || HasAsciiAlnum(OrEmpty(m.year))
  {
    var t, y := OrEmpty(m.title), OrEmpty(m.year);
    var s := TitleYear(m);
    assert forall i :: 0 <= i < |t| ==> s[i] == t[i];
    assert forall i :: 0 <= i < |y| ==> s[|t| + 1 + i] == y[i];
    if HasAsciiAlnum(s) {
      var i :| 0 <= i < |s| && IsAsciiAlnum(s[i]);
      if i < |t| {
        assert IsAsciiAlnum(t[i]);
      } else {
        assert i > |t| && IsAsciiAlnum(y[i - |t| - 1]);
      }
    }
  }

  /** With a letter or digit in title or year, the key is the slug of title and year. */
  lemma MovieKeyFromTitleYear(m: Movie)
    requires HasAsciiAlnum(OrEmpty(m.title)) || HasAsciiAlnum(OrEmpty(m.year))
    ensures MovieKey(m) == Slugify(TitleYear(m)) != ""
  {
    TitleYearHasAlnum(m);
    SlugifyEmptyIff(TitleYear(m));
  }

  /** Without a letter or digit in title and year, the key is the slug of the link. */
  lemma MovieKeyFallsBackToLink(m: Movie)
    requires !HasAsciiAlnum(OrEmpty(m.title)) && !HasAsciiAlnum(OrEmpty(m.year))
    ensures MovieKey(m) == Slugify(OrEmpty(m.link))
  {
    TitleYearHasAlnum(m);
    SlugifyEmptyIff(TitleYear(m));
  }

  /** Two movies with the same title and year share a key, whatever their links, once title or year has a letter or digit. */
  lemma SameTitleYearSameKey(m1: Movie, m2: Movie)
    requires m1.title == m2.title && m1.year == m2.year
    requires HasAsciiAlnum(OrEmpty(m1.title)) || HasAsciiAlnum(OrEmpty(m1.year))
    ensures MovieKey(m1) == MovieKey(m2)
  {
    MovieKeyFromTitleYear(m1);
    MovieKeyFromTitleYear(m2);
  }

  /** The key is empty exactly when title, year and link all lack letters and digits. */
  lemma MovieKeyEmptyIff(m: Movie)
    ensures MovieKey(m) == "" <==>
      !HasAsciiAlnum(OrEmpty(m.title)) && !HasAsciiAlnum(OrEmpty(m.year)) && !HasAsciiAlnum(OrEmpty(m.link))
  {
    TitleYearHasAlnum(m);
    SlugifyEmptyIff(TitleYear(m));
    SlugifyEmptyIff(OrEmpty(m.link));
  }

  // Steps of DuneKey: the composite "Dune-2021" through each stage of the slug pipeline.

  /** `trim` leaves "Dune-2021" as it is. */
  lemma TrimKeepsDuneComposite()
    ensures Trim("Dune-2021") == "Dune-2021"
  {
    TrimFixesUnspaced("Dune-2021");
  }

  /** `toLowerCase` turns "Dune-2021" into "dune-2021". */
  lemma LowerDuneComposite()
    ensures ToLower("Dune-2021") == "dune-2021"
  {
  }

  /** "dune-2021" is already a slug. */
  lemma DuneKeyIsSlug()
    ensures IsSlug("dune-2021")
  {
  }

  /** The slug of "Dune-2021" is "dune-2021". */
  lemma SlugOfDuneComposite()
    ensures Slugify("Dune-2021") == "dune-2021"
  {
    calc {
      Slugify("Dune-2021");
      StripEdgeDashes(CollapseRuns(ToLower(Trim("Dune-2021"))));
      { TrimKeepsDuneComposite(); }
      StripEdgeDashes(CollapseRuns(ToLower("Dune-2021")));
      { LowerDuneComposite(); }
      StripEdgeDashes(CollapseRuns("dune-2021"));
      { DuneKeyIsSlug(); CollapseRunsFixes("dune-2021"); }
      StripEdgeDashes("dune-2021");
      "dune-2021";
    }
  }

  /** Example: the movie "Dune" of 2021 is keyed `dune-2021`, whatever its link. */
  lemma DuneKey(link: Option<string>)
    ensures MovieKey(Movie(Some("Dune"), Some("2021"), None, None, link, None)) == "dune-2021"
  {
    var m := Movie(Some("Dune"), Some("2021"), None, None, link, None);
    assert TitleYear(m) == "Dune-2021";
    SlugOfDuneComposite();
  }

  // ---------------------------------------------------------------------------
  // toggleWatchlist
  // ---------------------------------------------------------------------------

  /** `s` without its first `x`; `s` itself when there is none. */
  function RemoveFirst(s: seq<string>, x: string): (r: seq<string>)
    ensures x !in s ==> r == s
    ensures x in s ==> |r| == |s| - 1
  {
    if s == [] then []
    else if s[0] == x then s[1..]
    else [s[0]] + RemoveFirst(s[1..], x)
  }

  /** Removing the first `x` takes exactly one `x` away, if there is one, and nothing else. */
  lemma {:induction false} RemoveFirstCounts(s: seq<string>, x: string)
    ensures multiset(RemoveFirst(s, x)) == multiset(s) - multiset{x}
  {
    if s != [] {
      assert s == [s[0]] + s[1..];
      if s[0] != x {
        RemoveFirstCounts(s[1..], x);
      }
    }
  }

  /** No key is listed twice. */
  predicate NoDuplicates(s: seq<string>) {
    forall i, j :: 0 <= i < j < |s| ==> s[i] != s[j]
  }

  /** The list `toggleWatchlist(key)` writes back: `key` appended if absent, its first occurrence removed if present. */
  function Toggled(wl: seq<string>, key: string): (r: seq<string>)
    ensures key !in wl ==> r == wl + [key]
    ensures key in wl ==> |r| == |wl| - 1
  {
    if key in wl then RemoveFirst(wl, key) else wl + [key]
  }

  /** Removing the first `x` is the `splice` at `indexOf(x)`. */
  lemma {:induction false} RemoveFirstIsSplice(s: seq<string>, x: string)
    requires x in s
    ensures 0 <= IndexOf(s, x) < |s|
    ensures RemoveFirst(s, x) == s[..IndexOf(s, x)] + s[IndexOf(s, x) + 1..]
  {
    if s[0] == x {
      assert IndexOf(s, x) == 0;
    } else {
      var t := s[1..];
      assert x in t;
      RemoveFirstIsSplice(t, x);
      var k := IndexOf(t, x);
      assert IndexOf(s, x) == k + 1;
      assert s == [s[0]] + t;
      SpliceCons(s[0], t, k);
    }
  }

  /** Cutting element `k` out of `t` and putting `a` back in front is cutting element `k + 1` out of `[a] + t`. */
  lemma SpliceCons(a: string, t: seq<string>, k: int)
    requires 0 <= k < |t|
    ensures [a] + (t[..k] + t[k + 1..]) == ([a] + t)[..k + 1] + ([a] + t)[k + 2..]
  {
    var s := [a] + t;
    assert [a] + t[..k] == s[..k + 1];
    assert t[k + 1..] == s[k + 2..];
  }

  /** Toggling a listed key cuts out its first occurrence only: everything before and after it stays, in order. */
  lemma TogglePresentSplices(wl: seq<string>, key: string)
    requires key in wl
    ensures Toggled(wl, key) == wl[..IndexOf(wl, key)] + wl[IndexOf(wl, key) + 1..]
    ensures key !in wl[..IndexOf(wl, key)]
  {
    RemoveFirstIsSplice(wl, key);
  }

  /** Removing the first `x` from `s + [x]`, where `s` has no `x`, gives back `s`. */
  lemma {:induction false} RemoveFirstOfAppended(s: seq<string>, x: string)
    requires x !in s
    ensures RemoveFirst(s + [x], x) == s
  {
    if s != [] {
      assert (s + [x])[1..] == s[1..] + [x];
      RemoveFirstOfAppended(s[1..], x);
      assert [s[0]] + s[1..] == s;
    }
  }

  /** A list without duplicates holds each key at most once. */
  lemma {:induction false} NoDuplicatesCount(s: seq<string>, x: string)
    requires NoDuplicates(s)
    ensures multiset(s)[x] <= 1
  {
    if s != [] {
      assert s == [s[0]] + s[1..];
      NoDuplicatesCount(s[1..], x);
      if s[0] == x {
        assert x !in s[1..];
      }
    }
  }

  /** Toggling never introduces a duplicate. */
  lemma ToggleKeepsNoDuplicates(wl: seq<string>, key: string)
    requires NoDuplicates(wl)
    ensures NoDuplicates(Toggled(wl, key))
  {
    if key in wl {
      RemoveFirstKeepsNoDuplicates(wl, key);
    }
  }

  lemma {:induction false} RemoveFirstKeepsNoDuplicates(s: seq<string>, x: string)
    requires NoDuplicates(s)
    ensures NoDuplicates(RemoveFirst(s, x))
  {
    if s != [] && s[0] != x {
      RemoveFirstKeepsNoDuplicates(s[1..], x);
      var rest := RemoveFirst(s[1..], x);
      RemoveFirstCounts(s[1..], x);
      assert s[0] !in s[1..];
      assert multiset(rest)[s[0]] == 0;
      assert s[0] !in rest;
    }
  }

  /**
   * Toggling leaves every other key's membership as it was, and flips the
   * key's own membership when the key is stored at most once (as on any list
   * without duplicates, NoDuplicatesCount).
   */
  lemma ToggleFlipsMembership(wl: seq<string>, key: string, other: string)
    ensures multiset(wl)[key] <= 1 ==> (key in Toggled(wl, key) <==> key !in wl)
    ensures other != key ==> (other in Toggled(wl, key) <==> other in wl)
  {
    if key in wl {
      RemoveFirstCounts(wl, key);
    }
    assert multiset(Toggled(wl, key))[other] > 0 <==> other in Toggled(wl, key);
    assert multiset(Toggled(wl, key))[key] > 0 <==> key in Toggled(wl, key);
  }

  /** Toggling an absent key twice restores the exact list. */
  lemma ToggleTwiceAbsent(wl: seq<string>, key: string)
    requires key !in wl
    ensures Toggled(Toggled(wl, key), key) == wl
  {
    RemoveFirstOfAppended(wl, key);
  }

  /**
   * Toggling a key stored exactly once, twice, restores the membership but
   * moves the key to the end.
   */
  lemma ToggleTwicePresent(wl: seq<string>, key: string)
    requires multiset(wl)[key] == 1
    ensures Toggled(Toggled(wl, key), key) == RemoveFirst(wl, key) + [key]
    ensures multiset(Toggled(Toggled(wl, key), key)) == multiset(wl)
  {
    RemoveFirstCounts(wl, key);
    assert key !in RemoveFirst(wl, key) by {
      assert multiset(RemoveFirst(wl, key))[key] == 0;
    }
  }

  // ---------------------------------------------------------------------------
  // The catalogue views: search and the "My List" navigation filter
  // ---------------------------------------------------------------------------

  /** The search box text as compared: `value.trim().toLowerCase()`. */
  function NormalizeQuery(raw: string): string {
    ToLower(Trim(raw))
  }

  /** The search test: the lower-cased title, or the year text, contains the query. */
  predicate MatchesQuery(m: Movie, q: string) {
    Includes(ToLower(OrEmpty(m.title)), q) || Includes(OrEmpty(m.year), q)
  }

  /** The movies the search box keeps, in catalogue order. */
  function SearchResults(movies: seq<Movie>, raw: string): (r: seq<Movie>)
    ensures forall i :: 0 <= i < |r| ==> r[i] in movies && MatchesQuery(r[i], NormalizeQuery(raw))
    ensures forall i :: 0 <= i < |movies| && MatchesQuery(movies[i], NormalizeQuery(raw)) ==> movies[i] in r
    ensures IsSubsequence(r, movies)
    ensures forall m :: multiset(r)[m] == if MatchesQuery(m, NormalizeQuery(raw)) then multiset(movies)[m] else 0
  {
    var q := NormalizeQuery(raw);
    var keep := m => MatchesQuery(m, q);
    FilterIsSubsequence(keep, movies);
    FilterMembers(keep, movies);
    FilterCounts(keep, movies);
    Filter(keep, movies)
  }

  /** When every movie matches, the search keeps the whole catalogue. */
  lemma SearchKeepsAllMatching(movies: seq<Movie>, raw: string)
    requires forall i :: 0 <= i < |movies| ==> MatchesQuery(movies[i], NormalizeQuery(raw))
    ensures SearchResults(movies, raw) == movies
  {
    var q := NormalizeQuery(raw);
    var keep := m => MatchesQuery(m, q);
    FilterKeepsAll(keep, movies);
  }

  /** A query of white space only (or none) keeps the whole catalogue. */
  lemma BlankSearchKeepsAll(movies: seq<Movie>, raw: string)
    requires forall i :: 0 <= i < |raw| ==> IsJsSpace(raw[i])
    ensures SearchResults(movies, raw) == movies
  {
    TrimShape(raw);
    assert Trim(raw) == [];
    assert NormalizeQuery(raw) == [];
    forall i | 0 <= i < |movies| ensures MatchesQuery(movies[i], NormalizeQuery(raw)) {
      assert OccursAt(ToLower(OrEmpty(movies[i].title)), [], 0);
    }
    SearchKeepsAllMatching(movies, raw);
  }

  // Steps of DuneSearch.

  /** The query "dune" is already normalised. */
  lemma NormalizeDune()
    ensures NormalizeQuery("dune") == "dune"
  {
    TrimFixesUnspaced("dune");
    assert ToLower("dune") == "dune";
  }

  /** A movie titled "Dune" matches the query "dune". */
  lemma DuneMatches(m: Movie)
    requires m.title == Some("Dune")
    ensures MatchesQuery(m, NormalizeQuery("dune"))
  {
    NormalizeDune();
    assert ToLower("Dune") == "dune";
    assert OccursAt("dune", "dune", 0);
  }

  /** Example: searching "dune" over movies all titled "Dune" shows every one of them, in catalogue order. */
  lemma DuneSearch(movies: seq<Movie>)
    requires forall i :: 0 <= i < |movies| ==> movies[i].title == Some("Dune")
    ensures SearchResults(movies, "dune") == movies
  {
    forall i | 0 <= i < |movies|
      ensures MatchesQuery(movies[i], NormalizeQuery("dune"))
    {
      DuneMatches(movies[i]);
    }
    SearchKeepsAllMatching(movies, "dune");
  }

  /** The grid's list after a navigation click: the watchlist members, or the whole catalogue. */
  function NavResults(filter: Option<string>, movies: seq<Movie>, wl: seq<string>): (r: seq<Movie>)
    ensures filter != Some(WatchlistFilter) ==> r == movies
    ensures filter == Some(WatchlistFilter) ==>
      && (forall i :: 0 <= i < |r| ==> r[i] in movies && MovieKey(r[i]) in wl)
      && (forall i :: 0 <= i < |movies| && MovieKey(movies[i]) in wl ==> movies[i] in r)
      && IsSubsequence(r, movies)
      && (forall m :: multiset(r)[m] == if MovieKey(m) in wl then multiset(movies)[m] else 0)
  {
    if filter == Some(WatchlistFilter) then
      var keep := m => MovieKey(m) in wl;
      FilterIsSubsequence(keep, movies);
      FilterMembers(keep, movies);
      FilterCounts(keep, movies);
      Filter(keep, movies)
    else movies
  }

  // ---------------------------------------------------------------------------
  // renderGrid
  // ---------------------------------------------------------------------------

  /** What one card shows: its key, the "My List" badge, poster, title and year text. */
  datatype Card = Card(key: string, badge: bool, poster: Option<string>, title: Option<string>, year: string)

  /** A child of the grid container. */
  datatype GridItem = Placeholder(text: string) | MovieCard(card: Card)

  /** The card of `m` while the stored watchlist is `wl`. */
  function CardFor(m: Movie, wl: seq<string>): Card {
    Card(MovieKey(m), MovieKey(m) in wl, m.poster, m.title, OrEmpty(m.year))
  }

  /** One card per movie, in order. */
  function CardsFor(list: seq<Movie>, wl: seq<string>): seq<GridItem> {
    Map(m => MovieCard(CardFor(m, wl)), list)
  }

  /** What the container holds after `renderGrid(list, ...)`. */
  function GridView(list: seq<Movie>, wl: seq<string>): seq<GridItem> {
    if list == [] then [Placeholder(NoMoviesText)] else CardsFor(list, wl)
  }

  /** Rendering one more movie appends its card. */
  lemma CardsForSnoc(list: seq<Movie>, m: Movie, wl: seq<string>)
    ensures CardsFor(list + [m], wl) == CardsFor(list, wl) + [MovieCard(CardFor(m, wl))]
  {
    MapSnoc(m => MovieCard(CardFor(m, wl)), list, m);
  }

  /**
   * An empty list shows the placeholder alone; otherwise there is one card per
   * movie, in order, with its key and title, and a badge iff its key is listed.
   */
  lemma GridViewShape(list: seq<Movie>, wl: seq<string>)
    ensures list == [] ==> GridView(list, wl) == [Placeholder(NoMoviesText)]
    ensures list != [] ==> |GridView(list, wl)| == |list|
    ensures list != [] ==> forall i :: 0 <= i < |list| ==>
      && GridView(list, wl)[i].MovieCard?
      && GridView(list, wl)[i].card.key == MovieKey(list[i])
      && GridView(list, wl)[i].card.title == list[i].title
      && (GridView(list, wl)[i].card.badge <==> MovieKey(list[i]) in wl)
  {
    MapElements(m => MovieCard(CardFor(m, wl)), list);
  }

  /** A mount point the grid is rendered into. */
  class Container {
    var items: seq<GridItem>

    constructor ()
      ensures items == []
    {
      items := [];
    }
  }

  // ---------------------------------------------------------------------------
  // The detail overlay
  // ---------------------------------------------------------------------------

  /** The toggle button's label for the current membership. */
  function ToggleLabel(inList: bool): string {
    if inList then RemoveLabel else AddLabel
  }

  /** What the overlay body shows: the movie (poster, title, year, watch link), its key and the button label. */
  datatype Detail = Detail(movie: Movie, key: string, buttonLabel: string)

  function DetailFor(m: Movie, wl: seq<string>): Detail {
    Detail(m, MovieKey(m), ToggleLabel(MovieKey(m) in wl))
  }

  /** The label offers removal exactly when the key is listed. */
  lemma LabelReflectsMembership(m: Movie, wl: seq<string>)
    ensures DetailFor(m, wl).buttonLabel == RemoveLabel <==> MovieKey(m) in wl
    ensures DetailFor(m, wl).buttonLabel == AddLabel <==> MovieKey(m) !in wl
  {
  }

  /** When the movie's key is stored at most once, a toggle flips the label. */
  lemma ToggleFlipsLabel(m: Movie, wl: seq<string>)
    requires multiset(wl)[MovieKey(m)] <= 1
    ensures DetailFor(m, Toggled(wl, MovieKey(m))).buttonLabel != DetailFor(m, wl).buttonLabel
  {
    ToggleFlipsMembership(wl, MovieKey(m), MovieKey(m));
  }

  /** The overlay element: its `hidden` flag and its body. */
  class Modal {
    var hidden: bool
    var body: Option<Detail>

    constructor ()
      ensures hidden && body == None
    {
      hidden, body := true, None;
    }
  }

  // ---------------------------------------------------------------------------
  // The page
  // ---------------------------------------------------------------------------

  /** The page: the catalogue `MOVIES`, the store, the grid `#row-all` and the overlay `#movieModal`. */
  class Page {
    var movies: seq<Movie>
    const store: Store
    const grid: Container
    const modal: Modal

    constructor (store: Store)
      ensures this.store == store && movies == []
      ensures fresh(grid) && fresh(modal) && grid.items == [] && modal.hidden && modal.body == None
    {
      this.store := store;
      movies := [];
      grid := new Container();
      modal := new Modal();
    }

    /** The watchlist as stored now. */
    function Watchlist(): seq<string>
      reads this, store
    {
      store.Get(WatchlistKey)
    }

    /** `init` after the fetch: the loaded catalogue, or none on failure, then the full grid. */
    method Init(fetched: Option<seq<Movie>>)
      modifies this, grid
      ensures movies == fetched.GetOr([])
      ensures grid.items == GridView(movies, Watchlist())
    {
      movies := fetched.GetOr([]);
      RenderGrid(movies, grid);
    }

    /** `renderGrid(list, container)`: clear, then the placeholder or one card per movie. */
    method RenderGrid(list: seq<Movie>, container: Container)
      modifies container
      ensures container.items == GridView(list, Watchlist())
    {
      container.items := [];
      if |list| == 0 {
        container.items := [Placeholder(NoMoviesText)];
        return;
      }
      ghost var stored := Watchlist();
      var i := 0;
      while i < |list|
        invariant 0 <= i <= |list|
        invariant Watchlist() == stored
        invariant container.items == CardsFor(list[..i], stored)
      {
        PrefixGrows(list, i);
        AppendCard(list[i], container);
        CardsForSnoc(list[..i], list[i], stored);
        i := i + 1;
      }
      assert list[..i] == list;
    }

    /** The `forEach` callback of `renderGrid`: one card, its badge read from the store. */
    method AppendCard(m: Movie, container: Container)
      modifies container
      ensures container.items == old(container.items) + [MovieCard(CardFor(m, Watchlist()))]
    {
      var key := MovieKey(m);
      var wl := store.Get(WatchlistKey);
      var inList := key in wl;
      container.items := container.items + [MovieCard(Card(key, inList, m.poster, m.title, OrEmpty(m.year)))];
    }

    /** The search box's `input` handler. */
    method OnSearchInput(raw: string)
      modifies grid
      ensures grid.items == GridView(SearchResults(movies, raw), Watchlist())
    {
      var q := NormalizeQuery(raw);
      var results := Filter(m => MatchesQuery(m, q), movies);
      RenderGrid(results, grid);
    }

    /** A navigation button's `click` handler. */
    method OnNavClick(filter: Option<string>)
      modifies grid
      ensures grid.items == GridView(NavResults(filter, movies, Watchlist()), Watchlist())
    {
      if filter == Some(WatchlistFilter) {
        var wlKeys := store.Get(WatchlistKey);
        var wlMovies := Filter(m => MovieKey(m) in wlKeys, movies);
        RenderGrid(wlMovies, grid);
      } else {
        RenderGrid(movies, grid);
      }
    }

    /** `openModal(movie)`: show the overlay with the movie's detail and the current label. */
    method OpenModal(movie: Movie)
      modifies modal
      ensures !modal.hidden
      ensures modal.body == Some(DetailFor(movie, Watchlist()))
    {
      modal.hidden := false;
      var key := MovieKey(movie);
      var wlIds := store.Get(WatchlistKey);
      var inList := key in wlIds;
      modal.body := Some(Detail(movie, key, if inList then RemoveLabel else AddLabel));
    }

    /** `toggleWatchlist(key)`: read the list, push or splice out the key, write it back. */
    method ToggleWatchlist(key: string)
      modifies store
      ensures store.entries == old(store.entries)[WatchlistKey := StringList(Toggled(old(Watchlist()), key))]
      ensures Watchlist() == Toggled(old(Watchlist()), key)
    {
      var wl := store.Get(WatchlistKey);
      var idx := IndexOf(wl, key);
      if idx == -1 {
        wl := wl + [key];
      } else {
        RemoveFirstIsSplice(wl, key);
        wl := wl[..idx] + wl[idx + 1..];
      }
      store.Set(WatchlistKey, wl);
    }

    /** The overlay button's handler: toggle, then re-open the same movie. */
    method OnToggleClick(movie: Movie)
      modifies store, modal
      ensures store.entries == old(store.entries)[WatchlistKey := StringList(Toggled(old(Watchlist()), MovieKey(movie)))]
      ensures Watchlist() == Toggled(old(Watchlist()), MovieKey(movie))
      ensures !modal.hidden && modal.body == Some(DetailFor(movie, Watchlist()))
      ensures multiset(old(Watchlist()))[MovieKey(movie)] <= 1 ==> modal.body.value.buttonLabel != DetailFor(movie, old(Watchlist())).buttonLabel
    {
      ghost var before := Watchlist();
      ToggleWatchlist(MovieKey(movie));
      OpenModal(movie);
      if multiset(before)[MovieKey(movie)] <= 1 {
        ToggleFlipsLabel(movie, before);
      }
    }

    /** `closeModal()`: hide the overlay; its body stays as it was. */
    method CloseModal()
      modifies modal
      ensures modal.hidden && modal.body == old(modal.body)
    {
      modal.hidden := true;
    }

    /** A click on the overlay element: closes it only when the click landed on the backdrop itself. */
    method OnModalClick(onBackdrop: bool)
      modifies modal
      ensures modal.hidden == (onBackdrop || old(modal.hidden))
      ensures modal.body == old(modal.body)
    {
      if onBackdrop {
        CloseModal();
      }
    }

    /** The hero's "+ My List" handler, registered only when the catalogue has a first movie. */
    method OnHeroListClick()
      requires |movies| > 0
      modifies store, grid
      ensures store.entries == old(store.entries)[WatchlistKey := StringList(Toggled(old(Watchlist()), MovieKey(movies[0])))]
      ensures Watchlist() == Toggled(old(Watchlist()), MovieKey(movies[0]))
      ensures grid.items == GridView(movies, Watchlist())
    {
      ToggleWatchlist(MovieKey(movies[0]));
      RenderGrid(movies, grid);
    }
  }
}
