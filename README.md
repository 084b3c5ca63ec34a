# Vectflix catalogue: a verified model

This project models the logic of a small browser-side movie catalogue in Dafny.
It has two page variants.

- **The richer page (`app.js`)** has these parts:
  - Each movie gets an identity key (`movieKey`): the slug of its title and year, or the slug of its link when that slug is empty.
  - A watchlist ("My List") is stored in `localStorage` under `vectflix_watchlist`. `toggleWatchlist` adds a key if it is absent and splices it out if it is present.
  - A search box filters the catalogue by title or year.
  - Navigation buttons switch between the whole catalogue and the watchlist.
  - A card grid shows one card per movie, with a "My List" badge on listed movies, or "No movies found." when the list is empty.
  - A detail overlay has a toggle button whose label follows membership. The overlay can be closed.
- **The helpers (`scripts.js`)** are `slugify`, `truncate` and the JSON-over-`localStorage` store `storage.get` / `storage.set`.
- **The simpler page (`script.js`)** fills a grid with one card per movie. A title search and category buttons then show or hide cards, one card at a time.

The project has these modules:

- `JsBuiltins` (`js_builtins.dfy`) covers the JavaScript built-ins the code relies on:
  - nullish values as `Option`;
  - `trim`, over the ECMAScript white-space and line-terminator set;
  - `toLowerCase`, for ASCII letters;
  - `includes`, `indexOf` and `filter`;
  - `Map`, which stands for a `forEach` loop that builds one item per element, in order. `renderGrid` and `loadMovies` build their cards this way.
- `Movies` (`movies.dfy`) holds the movie record. Every field is optional. The helpers give the text that the `||` defaults produce, and the text a template literal writes for a present or `undefined` field.
- `Scripts` (`scripts.dfy`) holds the slug pipeline and its characterisation, `truncate`, and the store. The store is a class over a map from key to stored entry.
- `App` (`app.dfy`) holds these parts:
  - the key;
  - the toggle, as a function with its lemmas;
  - the search and navigation filters;
  - the grid and overlay views;
  - a `Page` class whose methods are the event handlers. The handlers update the store, the grid container and the overlay in place.
- `SimpleCatalog` (`simple_catalog.dfy`) holds the simpler page's card model, its visibility rules, and a `Grid` class whose loops restyle the cards in place.

`app.js` line 1 imports `slugify` and `truncate` from `utils.js`, but that file does not define them. The model uses the definitions in `scripts.js`. `utils.js` is otherwise a copy of the DOM helpers and the store in `scripts.js`, and it is not modelled separately.

## Model

| member | source | states |
|---|---|---|
| JsBuiltins.TrimShape | scripts.js:15 | About `Trim`: `trim` removes white space only, from both ends. The result neither starts nor ends with white space, and it is the untouched middle of the input. |
| JsBuiltins.Includes | app.js:33-34 | `includes` is true exactly when some window of the string spells the substring. |
| JsBuiltins.IndexOf | app.js:153 | `indexOf` is -1 exactly when the key is absent. Otherwise it is the position of the first occurrence. |
| JsBuiltins.FilterMembers | app.js:32-35 | About `Filter`: `filter` keeps exactly the elements that pass the test: every kept element is from the input and passes, and every passing element is kept. |
| JsBuiltins.FilterCounts | app.js:32-35 | `filter` keeps every copy of a passing element and no copy of a failing one. With FilterIsSubsequence, this fixes the result exactly. |
| JsBuiltins.FilterIsSubsequence | app.js:32-35 | The filtered array is a subsequence of the input, so catalogue order is kept. |
| Scripts.CollapseRunsShape | scripts.js:17 | About `CollapseRuns`: after every run of characters outside `[a-z0-9]` becomes one `-`, the result holds only `[a-z0-9-]` with no `--`. It is empty only for empty input, and starts with `-` exactly when the input starts with such a run. |
| Scripts.CollapseRunsSeparates | scripts.js:17 | A run of characters outside `[a-z0-9]` between two stretches of text becomes exactly one `-` in place: `u + w + v` collapses to `u`, `-`, then the collapse of `v`. |
| Scripts.CollapseRunsKeepsAlnums | scripts.js:17 | Collapsing the runs keeps the `[a-z0-9]` characters, in order. |
| Scripts.StripKeepsAlnums | scripts.js:18 | About `StripEdgeDashes`: removing one leading and one trailing `-` keeps the letters and digits, in order. |
| Scripts.StripMakesSlug | scripts.js:18 | About `StripEdgeDashes`: on a collapsed string, removing the edge dashes leaves a slug. |
| Scripts.Slugify | scripts.js:12-19 | The output uses only `a-z`, `0-9` and `-`, has no `--`, and neither starts nor ends with `-`. |
| Scripts.SlugifyNullable | scripts.js:13 | A null or undefined input slugifies to `""`, and every output is a slug. |
| Scripts.TrimKeepsAsciiAlnums | scripts.js:15 | Trimming never removes an ASCII letter or digit. |
| Scripts.LowerThenAlnums | scripts.js:16-17 | About `ToLower`: after lower-casing, the `[a-z0-9]` characters are the input's ASCII letters and digits, lower-cased, in order. |
| Scripts.SlugifyKeepsAlnums | scripts.js:12-19 | The slug's letters and digits are exactly the input's ASCII letters and digits, lower-cased and in order. |
| Scripts.SlugifyEmptyIff | scripts.js:13-18 | `slugify(s)` is `""` exactly when `s` has no ASCII letter or digit. This covers the empty input. |
| Scripts.CollapseRunsFixes | scripts.js:17 | A string of only `[a-z0-9-]` with no `--` passes the collapse unchanged. |
| Scripts.SlugifyFixesSlugs | scripts.js:12-19 | A slug is its own slug. |
| Scripts.SlugifyIdempotent | scripts.js:12-19 | `slugify(slugify(s)) == slugify(s)`. |
| Scripts.Truncate | scripts.js:29-32 | Falsy text gives `""`. Text of at most `n` characters is returned unchanged. Longer text gives its first `n` characters followed by `…`, so the result has length `n + 1`. The default `n` is 140. |
| Scripts.TruncateIdempotent | scripts.js:29-32 | Truncating a truncated text again with the same bound changes nothing. |
| Scripts.Store.Get | scripts.js:22-25 | `get` returns the stored list. It returns the default when the key is absent, holds JSON `null`, or does not parse. |
| Scripts.Store.Set | scripts.js:26 | `set` stores the list under the key. A later `get` of that key returns it, whatever the default, and every other key reads as before. |
| App.MovieKey | app.js:60-65 | Every key is a slug. |
| App.TitleYearHasAlnum | app.js:62 | The `title-year` composite has a letter or digit exactly when the title or the year has one. |
| App.MovieKeyFromTitleYear | app.js:62-64 | With a letter or digit in the title or year, the key is the non-empty slug of `title-year`. |
| App.MovieKeyFallsBackToLink | app.js:64 | Otherwise the key is the slug of the link. |
| App.SameTitleYearSameKey | app.js:60-65 | Two movies with equal title and year share a key whatever their links, once the title or year has a letter or digit. |
| App.MovieKeyEmptyIff | app.js:60-65 | The key is `""` exactly when the title, year and link all lack letters and digits. |
| App.DuneKey | app.js:60-65 | "Dune" of 2021 is keyed `dune-2021`, whatever its link. |
| App.Toggled | app.js:153-155 | An absent key is appended at the end and the rest is unchanged. A present key leaves the list one shorter. |
| App.RemoveFirstCounts | app.js:155 | About `RemoveFirst`: the splice takes exactly one occurrence of the key away and nothing else. |
| App.RemoveFirstIsSplice | app.js:153-155 | Removing the first occurrence is the `splice(indexOf(key), 1)` of the source. |
| App.TogglePresentSplices | app.js:153-155 | Toggling a present key cuts out its first occurrence only. What lies before and after it is kept, in order. |
| App.RemoveFirstOfAppended | app.js:154-155 | Splicing out a key that was just pushed onto a list without it gives back that list. |
| App.ToggleKeepsNoDuplicates | app.js:151-157 | Toggling never puts a key into the list twice. |
| App.ToggleFlipsMembership | app.js:151-157 | Toggling never changes another key's membership. When the key is stored at most once, as on any list without duplicates, toggling flips its membership. |
| App.ToggleTwiceAbsent | app.js:151-157 | Toggling an absent key twice restores the exact list. |
| App.ToggleTwicePresent | app.js:151-157 | Toggling a key stored exactly once twice keeps the same keys, with that key moved to the end. Other keys may repeat. |
| App.SearchResults | app.js:31-35 | Using `NormalizeQuery` (trim, then lower-case) and the test `MatchesQuery`: search keeps a movie exactly when its lower-cased title, or its year text, contains the trimmed, lower-cased query. Every copy of a matching record is kept and no copy of another one, and the result is a subsequence of the catalogue. |
| App.SearchKeepsAllMatching | app.js:32-35 | When every movie matches, the whole catalogue is kept, in order. |
| App.BlankSearchKeepsAll | app.js:31-35 | An empty or all-white-space query keeps the whole catalogue. |
| App.DuneSearch | app.js:30-36 | Searching "dune" over movies all titled "Dune" shows every one of them, in catalogue order. |
| App.NavResults | app.js:42-49 | The `watchlist` button shows exactly the catalogue movies whose key is stored, every copy of each, in catalogue order. Any other button shows the whole catalogue. |
| App.CardsForSnoc | app.js:97-112 | Rendering one more movie appends exactly that movie's card to the cards rendered so far. |
| App.GridViewShape | app.js:90-113 | About `GridView` and `CardFor`: an empty list shows only "No movies found.". Otherwise there is one card per movie, in order, carrying its key and title, with a badge exactly when its key is stored. |
| App.LabelReflectsMembership | app.js:121-135 | About `DetailFor` and `ToggleLabel`: the button reads "− Remove from List" exactly when the key is stored, and "+ Add to List" exactly when it is not. |
| App.ToggleFlipsLabel | app.js:141-144 | When the movie's key is stored at most once, a toggle flips the label. |
| App.Page.Init | app.js:15-24 | The catalogue is the fetched list, or empty when loading failed. The grid then shows the whole catalogue. |
| App.Page.RenderGrid | app.js:90-114 | The loop leaves the container holding the placeholder, or one card per movie with badges read from the store. |
| App.Page.AppendCard | app.js:97-112 | One iteration appends the movie's card, badged from the store's current list. |
| App.Page.OnSearchInput | app.js:30-37 | The grid shows the search results. |
| App.Page.OnNavClick | app.js:40-50 | The grid shows the watchlist movies, or the whole catalogue. |
| App.Page.OpenModal | app.js:116-145 | The overlay becomes visible and shows the movie with the label for its current membership. |
| App.Page.ToggleWatchlist | app.js:151-157 | The store's watchlist entry becomes the toggled list, read, updated in place and written back. Nothing else in the store changes. |
| App.Page.OnToggleClick | app.js:141-144 | The key is toggled in the store, and no other store entry changes. The overlay stays visible on the same movie, and its label flips when the key was stored at most once. |
| App.Page.CloseModal | app.js:147-149 | The overlay is hidden and its body is unchanged. |
| App.Page.OnModalClick | app.js:55-57 | A click closes the overlay only when it lands on the backdrop itself. |
| App.Page.OnHeroListClick | app.js:78-83 | The first movie's key is toggled in the store, and no other store entry changes. The grid then re-renders the whole catalogue with the new badges. |
| SimpleCatalog.CardsOfShape | script.js:8-19 | About `CardsOf` and `CardOf`: there is one card per movie, in input order, carrying that movie's category and title. |
| SimpleCatalog.RestyleShape | script.js:25-27 | About `Restyle`, the loop body of both filters (also script.js:35-37): restyling keeps the number and order of the cards and only sets each card's display. |
| SimpleCatalog.SearchVisibility | script.js:23-29 | Search keeps the cards and their order. A card is shown exactly when its lower-cased heading contains the lower-cased query, which is not trimmed. |
| SimpleCatalog.EmptySearchShowsAll | script.js:24-27 | An empty query shows every card. |
| SimpleCatalog.CategoryVisibility | script.js:32-39 | The category filter keeps the cards and their order. `"all"` shows every card. Any other value shows a card exactly when its `data-category` equals that value, case-sensitively. |
| SimpleCatalog.RestyleForgetsDisplay | script.js:25-37 | A restyle whose test ignores the display overrides any earlier restyle. |
| SimpleCatalog.LastFilterWins | script.js:23-39 | After a search and a category click, in either order, the last filter applied alone decides visibility. |
| SimpleCatalog.Grid.LoadMovies | script.js:2-20 | A failed fetch or parse leaves the grid as it was. Otherwise the grid is cleared and then holds one card per movie, in order. |
| SimpleCatalog.Grid.OnSearchKeyup | script.js:23-29 | The loop restyles every card by the search rule, in place. |
| SimpleCatalog.Grid.OnFilterClick | script.js:32-39 | The loop restyles every card by the category rule, in place. |

## Left out

- DOM construction and markup are not modelled. This covers `innerHTML` templates, `createEl`, `qs`, `qsa`, listener registration, the hero's markup and the footer year from `Date` (app.js:12). Each render is modelled as the data it shows: keys, badges, titles, labels and display values.
- `fetch` and `response.json()` are network input. They become a parameter: the fetched list, or `None` for a failure.
- `localStorage`, `JSON.parse` and `JSON.stringify` are a foreign store and serialiser. The store is a map from key to entry. An entry is a list of strings, JSON `null` or unparseable text.
- Scripts.Store.Get: a stored list whose items are not all strings is not modelled. In the source, `get` would return that list as is.
- Scripts.Store.Get: a stored value that parses to JSON other than a list or `null` is not modelled. In the source, `get` would return that value as is.
- Scripts.Store.Set: the exception `setItem` throws when storage is full is not modelled.
- JsBuiltins.ToLower: only ASCII letters are lowered. JavaScript's `toLowerCase` also maps other letters, and U+212A (Kelvin sign) lowers to `k` and U+0130 to `i` plus a combining dot, so their slugs differ.
- Scripts.Truncate: lengths are counted in Unicode scalar values, not in the UTF-16 code units JavaScript counts. Negative or non-integer `n` is not modelled.
- `null` and `undefined` are both `None`. The year is held as the text `String(year)` would print. A falsy year (absent, `0` or `""`) is `None`, as the `||` defaults treat it.
- App.SameTitleYearSameKey: stated only when the title or year has a letter or digit. Otherwise the key comes from the link, and two such movies with different links get different keys.
- App.ToggleFlipsMembership: the flip of the key's own membership is stated only when the key is stored at most once. A stored list holding the key twice still lists it after one toggle. The page never adds a duplicate, though it writes back any already stored (App.ToggleKeepsNoDuplicates). Other keys' membership is stated for every list.
- App.ToggleFlipsLabel: stated only when the movie's key is stored at most once, for the same reason.
- App.Page.OnToggleClick: the label flip is stated only when the movie's key is stored at most once, for the same reason.
- SimpleCatalog.CardOf: `null` and `undefined` are both `None`, so a JSON `null` title or category is written as `undefined`. The template literal and `setAttribute` write `null` for it. A search for `nul` therefore shows such a card in the source and hides it in the model.
- HTML entity parsing is not modelled. The simpler page's search reads the heading's `textContent`, which the model takes to be the title text as written into the template.
- The navigation buttons' `dataset.filter` and the category buttons' `data-filter` are parameters of type `Option<string>`. A missing attribute is `None`.
- The hero's "+ My List" handler is only registered when the catalogue has a first movie, so App.Page.OnHeroListClick requires one.
