/**
 * The simpler variant's page: a grid of cards built from the catalogue, a
 * title search and category buttons. Both filters only show or hide the cards
 * already in the grid, one card at a time.
 */
module SimpleCatalog {
  import opened JsBuiltins
  import opened Movies

  /** The category button value that shows every card. */
  const AllFilter := "all"

  /** A card's inline `style.display`: never set, `'block'` or `'none'`. */
  datatype Display = Unset | Block | DisplayNone

  /** A card: its `data-category`, the text of its heading, its image and link, and its display. */
  datatype Card = Card(category: string, title: string, thumbnail: Option<string>, link: Option<string>, display: Display)

  /** Only `'none'` hides a card. */
  predicate Visible(c: Card) {
    c.display != DisplayNone
  }

  /** The card `loadMovies` builds for `m`; a missing category or title is written as `undefined`. */
  function CardOf(m: Movie): Card {
    Card(TemplateText(m.category), TemplateText(m.title), m.thumbnail, m.link, Unset)
  }

  /** One card per movie, in order. */
  function CardsOf(movies: seq<Movie>): seq<Card> {
    Map(CardOf, movies)
  }

  /** The grid holds one card per movie, in order, carrying that movie's category and title. */
  lemma CardsOfShape(movies: seq<Movie>)
    ensures |CardsOf(movies)| == |movies|
    ensures forall i :: 0 <= i < |movies| ==>
      && CardsOf(movies)[i] == CardOf(movies[i])
      && CardsOf(movies)[i].category == TemplateText(movies[i].category)
      && CardsOf(movies)[i].title == TemplateText(movies[i].title)
  {
    MapElements(CardOf, movies);
  }

  /** The search rule: the heading, lower-cased, contains the query, which is lower-cased but not trimmed. */
  predicate TitleMatches(c: Card, raw: string) {
    Includes(ToLower(c.title), ToLower(raw))
  }

  /** The category rule: `"all"`, or exactly the card's `data-category`. A button without a value matches no card. */
  predicate CategoryMatches(c: Card, filter: Option<string>) {
    filter == Some(AllFilter) || (filter.Some? && c.category == filter.value)
  }

  /** `c` with `style.display` set to `'block'` or `'none'`. */
  function Styled(c: Card, shown: bool): Card {
    c.(display := if shown then Block else DisplayNone)
  }

  /** Every card restyled by `show`, nothing else changed. */
  function Restyle(cards: seq<Card>, show: Card -> bool): seq<Card> {
    Map(c => Styled(c, show(c)), cards)
  }

  /** The grid after a search keystroke. */
  function SearchView(cards: seq<Card>, raw: string): seq<Card> {
    Restyle(cards, c => TitleMatches(c, raw))
  }

  /** The grid after a category click. */
  function CategoryView(cards: seq<Card>, filter: Option<string>): seq<Card> {
    Restyle(cards, c => CategoryMatches(c, filter))
  }

  lemma RestyleShape(cards: seq<Card>, show: Card -> bool)
    ensures |Restyle(cards, show)| == |cards|
    ensures forall i :: 0 <= i < |cards| ==> Restyle(cards, show)[i] == Styled(cards[i], show(cards[i]))
  {
    MapElements(c => Styled(c, show(c)), cards);
  }

  /** Two cards that differ at most in their display. */
  predicate SameButDisplay(a: Card, b: Card) {
    a.(display := Unset) == b.(display := Unset)
  }

  /**
   * Search keeps the cards and their order, and shows a card exactly when its
   * lower-cased heading contains the lower-cased query.
   */
  lemma SearchVisibility(cards: seq<Card>, raw: string)
    ensures |SearchView(cards, raw)| == |cards|
    ensures forall i :: 0 <= i < |cards| ==>
      && SameButDisplay(SearchView(cards, raw)[i], cards[i])
      && (Visible(SearchView(cards, raw)[i]) <==> Includes(ToLower(cards[i].title), ToLower(raw)))
  {
    RestyleShape(cards, c => TitleMatches(c, raw));
  }

  /** An empty query shows every card. */
  lemma EmptySearchShowsAll(cards: seq<Card>)
    ensures |SearchView(cards, "")| == |cards|
    ensures forall i :: 0 <= i < |cards| ==> Visible(SearchView(cards, "")[i])
  {
    SearchVisibility(cards, "");
    forall i | 0 <= i < |cards| ensures Includes(ToLower(cards[i].title), ToLower("")) {
      assert OccursAt(ToLower(cards[i].title), [], 0);
    }
  }

  /**
   * The category filter keeps the cards and their order; `"all"` shows every
   * card, any other value shows a card exactly when its category equals it.
   */
  lemma CategoryVisibility(cards: seq<Card>, filter: Option<string>)
    ensures |CategoryView(cards, filter)| == |cards|
    ensures forall i :: 0 <= i < |cards| ==>
      && SameButDisplay(CategoryView(cards, filter)[i], cards[i])
      && (Visible(CategoryView(cards, filter)[i]) <==>
            filter == Some(AllFilter) || (filter.Some? && cards[i].category == filter.value))
  {
    RestyleShape(cards, c => CategoryMatches(c, filter));
  }

  /** Restyling consults only what restyling leaves alone, so the last filter applied decides alone. */
  lemma RestyleForgetsDisplay(cards: seq<Card>, first: Card -> bool, show: Card -> bool)
    requires forall c: Card :: show(c) == show(c.(display := Unset))
    ensures Restyle(Restyle(cards, first), show) == Restyle(cards, show)
  {
    var once := Restyle(cards, first);
    RestyleShape(cards, first);
    RestyleShape(once, show);
    RestyleShape(cards, show);
    forall i | 0 <= i < |cards|
      ensures Restyle(once, show)[i] == Restyle(cards, show)[i]
    {
      var c := cards[i];
      assert Styled(c, first(c)).(display := Unset) == c.(display := Unset);
    }
  }

  /** A search after a category click shows what the search alone shows, and the other way round. */
  lemma LastFilterWins(cards: seq<Card>, raw: string, filter: Option<string>)
    ensures SearchView(CategoryView(cards, filter), raw) == SearchView(cards, raw)
    ensures CategoryView(SearchView(cards, raw), filter) == CategoryView(cards, filter)
  {
    RestyleForgetsDisplay(cards, c => CategoryMatches(c, filter), c => TitleMatches(c, raw));
    RestyleForgetsDisplay(cards, c => TitleMatches(c, raw), c => CategoryMatches(c, filter));
  }

  /** The `#grid` element and the cards in it. */
  class Grid {
    var cards: seq<Card>

    constructor ()
      ensures cards == []
    {
      cards := [];
    }

    /**
     * `loadMovies()` after the fetch. A failed fetch or parse throws before the
     * grid is touched; otherwise the grid is cleared and one card per movie is appended.
     */
    method LoadMovies(fetched: Option<seq<Movie>>)
      modifies this
      ensures fetched.None? ==> cards == old(cards)
      ensures fetched.Some? ==> cards == CardsOf(fetched.value)
    {
      if fetched.None? {
        return;
      }
      var movies := fetched.value;
      cards := [];
      var i := 0;
      while i < |movies|
        invariant 0 <= i <= |movies|
        invariant |cards| == i
        invariant forall j :: 0 <= j < i ==> cards[j] == CardOf(movies[j])
      {
        var movie := movies[i];
        cards := cards + [Card(TemplateText(movie.category), TemplateText(movie.title), movie.thumbnail, movie.link, Unset)];
        i := i + 1;
      }
      CardsOfShape(movies);
    }

    /** The search bar's `keyup` handler: each card shown iff its heading matches. */
    method OnSearchKeyup(raw: string)
      modifies this
      ensures cards == SearchView(old(cards), raw)
    {
      var query := ToLower(raw);
      var i := 0;
      while i < |cards|
        invariant 0 <= i <= |cards| == |old(cards)|
        invariant forall j :: 0 <= j < i ==> cards[j] == Styled(old(cards)[j], TitleMatches(old(cards)[j], raw))
        invariant forall j :: i <= j < |cards| ==> cards[j] == old(cards)[j]
      {
        var title := ToLower(cards[i].title);
        cards := cards[i := cards[i].(display := if Includes(title, query) then Block else DisplayNone)];
        i := i + 1;
      }
      RestyleShape(old(cards), c => TitleMatches(c, raw));
    }

    /** A category button's `click` handler: each card shown iff the filter is `"all"` or its category. */
    method OnFilterClick(filter: Option<string>)
      modifies this
      ensures cards == CategoryView(old(cards), filter)
    {
      var i := 0;
      while i < |cards|
        invariant 0 <= i <= |cards| == |old(cards)|
        invariant forall j :: 0 <= j < i ==> cards[j] == Styled(old(cards)[j], CategoryMatches(old(cards)[j], filter))
        invariant forall j :: i <= j < |cards| ==> cards[j] == old(cards)[j]
      {
        var shown := filter == Some(AllFilter) || (filter.Some? && cards[i].category == filter.value);
        cards := cards[i := cards[i].(display := if shown then Block else DisplayNone)];
        i := i + 1;
      }
      RestyleShape(old(cards), c => CategoryMatches(c, filter));
    }
  }
}
