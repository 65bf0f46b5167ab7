# Books gallery catalog page, modelled in Dafny

The books gallery is a browser page over the Gutendex catalog
(`https://gutendex.com/books/`). Its script `main.js` fetches one page of books,
draws them as cards, lets the reader search, filter by genre, move to the previous
or next page, and keep a wishlist of book ids in local storage.

This project models the decision logic of `main.js` with the browser taken away:

- `Js` — the JavaScript behaviour the page leans on: `null`-able values and string
  truthiness, `indexOf`, `splice(i, 1)`, and the insertion order of a `Set`.
- `Wishlist` — the `wishlist` storage key as a class (`WishlistStore`) whose
  `ToggleWishlist` does what the click handler does: `indexOf` + `splice` when the id
  is present, `push` when it is absent, then writes the list back. Its meaning is
  `Toggled`, a reference definition (remove the first occurrence, or append), about
  which the toggle properties are proved.
- `Genres` — a `Book` and `ExtractGenres`, the nested loop that adds every subject of
  every book to a `Set`, proved equal to `Distinct` of all subjects and, directly, to
  be duplicate-free, to hold exactly the subjects of the batch, and to be ordered by
  first occurrence.
- `CatalogUrl` — the start-up `baseUrl` composed from the persisted search term and
  genre, the URL the search callback and the genre filter fetch, and `ParseUrl`, what
  the catalog receives of such a URL: the URL parser first cuts blanks (C0 controls
  and spaces) from both ends and removes every tab and line break (`Sanitize`),
  `fetch` does not send the `#` fragment, the path ends at the first `?`, parameters
  are separated by `&` and empty ones skipped, a key ends at its first `=`, and form
  decoding reads `+` as a space. The lemmas state what each built URL asks the catalog for, including what
  happens when the page appends `?search=` to a `baseUrl` that already carries a query.
- `Pagination` — `updatePagination` and the guard of the two click handlers.
- `Catalog` — the page's module-level state as a class (`CatalogPage`): `baseUrl`,
  the last books and links, the button states, the loader, the genre dropdown
  options, the two persisted filter keys, and the log of URLs handed to `fetch`. Each
  event handler is a method; `Valid()` (an enabled button always has a link to
  follow) is kept by all of them.

A request is modelled by recording its URL; its outcome is a later call of
`Receive` (with the response body) or `FetchFailed`. Local storage is plain fields.

### Behaviour as written

A reader of the page might expect a wishlist set, a search term and genre combined
into one query, and an "all genres" choice that clears the filter. The script does
less, and the model follows the script:

- The wishlist is an array: a present id loses only its first occurrence, an absent
  one is appended, so toggling a present id twice moves it to the end.
- `baseUrl` is composed once at start-up and never updated. The search callback and
  the genre handler both append `?key=value` to it, so with a persisted filter the
  fetched URL carries a second `?` and the new term is read as the tail of the last
  stored value (`SearchAfterStoredSearch`, `AppendQueryOnQueriedBase`). Neither
  handler combines the search with the genre.
- The empty genre choice does nothing: no fetch and no storage write.
- Disabled controls receive no events: a click on a disabled page button and a genre
  change while the page loads do nothing, but a search timer armed before a fetch still
  fires while it loads.
- Nothing is percent-encoded: a `&` in a value splits it into two parameters
  (`AmpersandInValueSplitsIt`), a `#` cuts off the rest of the request, so a stored
  search term `c#` loses the stored genre (`StoredHashDropsTheGenre`), and a `+`
  arrives as a space, so a search for `C++` asks for `c  ` (`SearchForCPlusPlus`).
- Spaces typed at the end of a search are cut by the URL parser, since they end the
  fetched URL (`SearchTrailingBlanksAreCut`); a search of a single space is truthy, so
  it is fetched, and asks for the empty term (`SearchOfASpaceIsEmpty`).
- Each response appends its genres to the dropdown; earlier options are not removed.

## Model

| member | source | states |
|---|---|---|
| `Js.IndexOf` | main.js:189 | the result is -1 exactly when the id is absent, and otherwise the position of its first occurrence |
| `Js.Splice` | main.js:190 | `splice(i, 1)` shortens the array by one, keeps every element before `i` and shifts every element after it one place left |
| `Js.SpliceAtIndexOf` | main.js:189-190 | `splice(indexOf(x), 1)` equals removing the first occurrence of `x` |
| `Js.RemoveFirstMultiset` | main.js:187-190 | removing the first occurrence takes exactly one copy of the id out and leaves every other count alone |
| `Js.SetAddKeeps` | main.js:206 | `genres.add(subject)` keeps every earlier element in its place, puts the subject in the set, grows the set by one exactly when the subject was new, and keeps it duplicate-free |
| `Js.Distinct` | main.js:203-208 | the elements of the `Set` are duplicate-free and are exactly the values added to it |
| `Js.DistinctFirstOccurrenceOrder` | main.js:203-208 | the `Set` iterates its values in the order of their first insertion |
| `Wishlist.Load` | main.js:179 | a key that was never written reads as the empty list, a stored list as itself |
| `Wishlist.WishlistStore.IsBookInWishlist` | main.js:178-181 | a card is active exactly when its id is in the stored list; a missing key reads as the empty list, so no card is active |
| `Wishlist.WishlistStore.ToggleWishlist` | main.js:183-199 | the stored list becomes `Toggled` of the old one (a missing key read as empty); the heart is left active exactly when the id was absent; a duplicate-free list stays duplicate-free and then the heart matches membership |
| `Wishlist.ToggleAbsentAppends` | main.js:192-195 | an absent id is appended: one longer, every earlier entry in its place, the id last |
| `Wishlist.ToggleRemovesFirstOccurrence` | main.js:187-191 | a present id loses its first occurrence only: one shorter, the rest in their relative order |
| `Wishlist.ToggleMultiset` | main.js:187-196 | a toggle removes or adds exactly one copy of the id and changes no other id's count |
| `Wishlist.ToggleMembership` | main.js:178-196 | membership of every other id is unchanged; on a duplicate-free list membership of the toggled id flips |
| `Wishlist.TogglePreservesNoDuplicates` | main.js:183-199 | a duplicate-free wishlist stays duplicate-free |
| `Wishlist.ToggleTwiceFromAbsent` | main.js:187-196 | toggling an absent id twice restores the exact list |
| `Wishlist.ToggleTwiceFromPresent` | main.js:187-196 | toggling a present id twice restores the same ids but moves the id to the end |
| `Wishlist.ToggleTwiceMovesToEnd` | main.js:187-196 | `[1, 2]` toggled twice at `1` becomes `[2, 1]` |
| `Genres.AllSubjectsMembers` | main.js:204-205 | `AllSubjects`, the subjects in the order the nested loop visits them, holds a subject exactly when some book of the batch carries it |
| `Genres.ExtractGenres` | main.js:202-208 | the genres are the `Set` of all subjects: duplicate-free, exactly the subjects of the batch, ordered by first occurrence |
| `Genres.GenresMembers` | main.js:202-208 | the genre list names exactly the subjects some book carries |
| `CatalogUrl.ComposeBaseUrl` | main.js:17-27 | `base`, `base?search=T`, `base?topic=G` or `base?search=T&topic=G` by which stored values are truthy; the separator before `topic=` is `&` exactly when a search term was added; in all cases a query of the truthy stored parameters |
| `CatalogUrl.Sanitize` | main.js:42 | the URL parser's clean-up leaves no tab or line break and never lengthens the URL, and keeps a URL that neither starts nor ends with a blank and holds no tab or line break |
| `CatalogUrl.SanitizeCutsOnlyBlanksAndBreaks` | main.js:42 | the clean-up keeps exactly the span between a run of blanks in front and a run of blanks at the end, a span that starts and ends with a non-blank, and removes only the tabs and line breaks in it |
| `CatalogUrl.TrimStartCutsBlanks` | main.js:42 | everything `TrimStart` cuts from the front of the URL is a blank; its own contract adds that the kept suffix starts with a non-blank |
| `CatalogUrl.TrimEndCutsBlanks` | main.js:42 | everything `TrimEnd` cuts from the end of the URL is a blank; its own contract adds that the kept prefix does not end with one |
| `CatalogUrl.RemoveTabsAndNewlinesCleans` | main.js:42 | no tab or line break is left, and text without them is kept as it is |
| `CatalogUrl.RemoveTabsAndNewlinesKeeps` | main.js:42 | every character other than a tab or line break is kept exactly as often as it occurs |
| `CatalogUrl.RemoveTabsAndNewlinesAppend` | main.js:42 | removal works piece by piece, so the kept characters stay in their order |
| `CatalogUrl.EmptyQueryHasNoParameters` | main.js:42 | a URL ending in a bare `?` asks for its path with no parameter: an empty query part is skipped |
| `CatalogUrl.ParseWithQuery` | main.js:20-26 | a URL built as the page builds it, from a path without `?`, `#`, blank ends, tabs or line breaks and parameters whose keys hold no `=`, reaches the catalog as that path and those parameters, in order, each read with `+` as a space, when no key or value holds `&`, `#`, `%`, a tab or a line break and the last value does not end in a blank |
| `CatalogUrl.StartUrlRoundTrip` | main.js:17-27 | the start-up URL asks for the stored search term and genre, search first, with `+` read as a space, and for exactly the stored values when they hold no `+`; stated for values without `&`, `#`, `%`, tabs or line breaks whose last one does not end in a blank |
| `CatalogUrl.FragmentIsNotSent` | main.js:42 | whatever follows the first `#` of a fetched URL does not reach the catalog, for a URL without blank ends, tabs or line breaks |
| `CatalogUrl.StoredHashDropsTheGenre` | main.js:17-27 | a stored search term `t#…` with a stored genre asks the catalog for `search=t` only: the genre is lost |
| `CatalogUrl.AmpersandInValueSplitsIt` | main.js:20 | a value holding `&key=` reaches the catalog as two parameters, since nothing is encoded |
| `CatalogUrl.TrailingBlanksAreCut` | main.js:156 | blanks after the last value of `baseUrl?key=value` are cut by the URL parser: the catalog is asked for `key=value` |
| `CatalogUrl.ToLowerKeeps` | main.js:155 | lower-casing neither adds nor removes a character that is not a letter |
| `CatalogUrl.ToLower` | main.js:155 | the lower-cased text has the same length, each upper-case letter replaced by its lower-case letter, no upper-case letter left, and every other character in its place |
| `CatalogUrl.AppendQuery` | main.js:156 | the template keeps `baseUrl` whole in front, always puts a `?` after it, whether or not `baseUrl` already holds one, and ends with `key=value` |
| `CatalogUrl.AppendQueryOnPlainBase` | main.js:156 | appending `?key=value` to a base without `?` or `#` asks for that one parameter, read with `+` as a space |
| `CatalogUrl.AppendQueryOnQueriedBase` | main.js:156 | appending `?key=value` to a base that already has a query adds no parameter: the text `?key=value` is read as the tail of the last stored value |
| `CatalogUrl.SearchFetchUrl` | main.js:155-157 | the search callback fetches `baseUrl` itself exactly when the typed text is empty, and otherwise `baseUrl?search=` the lower-cased text |
| `CatalogUrl.SearchOnPlainBase` | main.js:155-157 | on a base without `?` or `#` the search callback asks for the lower-cased term alone, read with `+` as a space |
| `CatalogUrl.SearchForCPlusPlus` | main.js:155-157 | a search for `C++` asks the catalog for `c  ` |
| `CatalogUrl.SearchTrailingBlanksAreCut` | main.js:155-157 | blanks typed after a search term do not reach the catalog: `Moby ` asks for `moby` |
| `CatalogUrl.SearchOfASpaceIsEmpty` | main.js:155-157 | a search of a single space is fetched, yet asks the catalog for the empty term |
| `CatalogUrl.SearchAfterStoredSearch` | main.js:155-157 | with a stored search term, a new search is read as the one term `old?search=new` |
| `CatalogUrl.GenreOnPlainBase` | main.js:168-171 | a non-empty genre choice fetches, and on a base without `?` or `#` asks for that topic alone |
| `CatalogUrl.GenreFetchUrl` | main.js:168-170 | the genre handler fetches exactly when the choice is non-empty, and then `baseUrl?topic=` the choice |
| `Pagination.UpdatePagination` | main.js:127-131 | for the links the catalog sends (`null` or a URL), previous is enabled iff `previous` is non-null and next iff `next` is non-null |
| `Pagination.ClickTarget` | main.js:134-146 | a click handler fetches only a truthy stored link, and exactly that link |
| `Pagination.EnabledButtonFetchesItsLink` | main.js:127-146 | a button is enabled exactly when its click fetches, and the click fetches exactly its link |
| `Catalog.CatalogPage.constructor` | main.js:8-31 | page load composes `baseUrl` from the stored values, fetches it and starts with both buttons disabled |
| `Catalog.CatalogPage.FetchBooks` | main.js:34-42 | a fetch disables both buttons and the inputs and issues the request; books, links and filters are untouched |
| `Catalog.CatalogPage.Receive` | main.js:43-49 | a response replaces books and links, sets the buttons from the links, appends its genres to the dropdown and ends loading |
| `Catalog.CatalogPage.FetchFailed` | main.js:50-57 | a failed fetch only ends loading: the buttons keep their state (disabled unless an earlier response re-enabled them), books and links are kept |
| `Catalog.CatalogPage.ClickPrevious` | main.js:134-139 | a disabled button receives no click and nothing changes; an enabled one fetches the stored `previous` link, which is always truthy then; a falsy link never fetches |
| `Catalog.CatalogPage.ClickNext` | main.js:141-146 | a disabled button receives no click and nothing changes, so a second click while the page loads fetches nothing; an enabled one fetches the stored `next` link |
| `Catalog.CatalogPage.SearchTimerFired` | main.js:154-161 | the callback fetches `SearchFetchUrl` of the unchanged `baseUrl` (`baseUrl` itself for empty input) and stores the lower-cased input |
| `Catalog.CatalogPage.GenreChanged` | main.js:167-175 | while the page loads the filter is disabled and nothing changes; otherwise a non-empty choice fetches `baseUrl?topic=G` and stores it, and the empty choice changes nothing |

## Left out

- Rendering: `renderBooks`, `createBookCard`, the option elements' markup and their `selected` flag, `classList` changes other than the heart's active state. The dropdown is kept only as the list of option values.
- `wishlist/wishlist.js` and `book/book.js`: they fetch books by id and render HTML.
- `fetch`, `response.json()` and promise scheduling: a request is a recorded URL and its outcome a later `Receive` or `FetchFailed`; responses may be applied in any order, as in the page, which has no stale-response check.
- A response that fails after `booksData` and `paginationData` are assigned (main.js:45-46) is not modelled: a body without `results`, or any exception in `renderBooks`, leaves the new books and links stored, the buttons in their state (disabled unless an earlier response re-enabled them) and no genres added. `FetchFailed` covers rejected fetches and undecodable bodies, which fail before those assignments.
- The 500 ms debounce of the search box (`setTimeout`/`clearTimeout`): only the callback is modelled.
- Local storage and JSON: each key is a field holding the decoded value; a stored string that is not valid JSON is not modelled.
- The restoring of the search box's text at start-up (main.js:19) is display only.
- `CatalogUrl.ParseUrl`: percent escapes `%XX` are not decoded, so the read-back lemmas below are stated for keys and values without `%`.
- `CatalogUrl.ParseWithQuery`: stated for keys and values without `%`, tabs or line breaks and a last value that does not end in a blank; also without `&` and `#`, whose effect `AmpersandInValueSplitsIt` and `StoredHashDropsTheGenre` state. Trailing blanks are stated by `TrailingBlanksAreCut`.
- `CatalogUrl.StartUrlRoundTrip`: stated for stored values without `%`, `&`, `#`, tabs or line breaks, the last of them not ending in a blank.
- `CatalogUrl.FragmentIsNotSent`: stated for a URL that neither starts nor ends with a blank and a fragment that does not end in one, neither holding a tab or line break.
- `CatalogUrl.StoredHashDropsTheGenre`: stated for a stored genre that does not end in a blank, and for stored text without tabs or line breaks.
- `CatalogUrl.AmpersandInValueSplitsIt`: stated for keys and values without `%`, tabs or line breaks, the last value not ending in a blank.
- `CatalogUrl.AppendQueryOnPlainBase`: stated for keys and values without `%`, `&`, `#`, tabs or line breaks, the value not ending in a blank.
- `CatalogUrl.AppendQueryOnQueriedBase`: stated for keys and values without `%`, `&`, `#`, tabs or line breaks, the appended value not ending in a blank.
- `CatalogUrl.SearchOnPlainBase`: stated for typed text without `%`, `&`, `#`, tabs or line breaks that does not end in a blank; trailing blanks are stated by `SearchTrailingBlanksAreCut`.
- `CatalogUrl.SearchAfterStoredSearch`: stated for stored and typed text without `%`, `&`, `#`, tabs or line breaks, the typed text not ending in a blank.
- `CatalogUrl.GenreOnPlainBase`: stated for genres without `%`, `&`, `#`, tabs or line breaks that do not end in a blank.
- `CatalogUrl.ToLower`: lower-cases the ASCII letters only, not the whole of Unicode as `toLowerCase` does.
- `Js.Splice`: only an in-range start index is modelled, the one the toggle uses after `includes` has found the id.
- `Wishlist.WishlistStore.ToggleWishlist`: the id is taken as an integer; the `parseInt` of the card's data attribute, which holds the same integer as text, is not modelled.
- `booksPerPage` and `currentPage` are declared and never used.
