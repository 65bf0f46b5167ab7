/** The catalog page's own state and event handlers: the module-level variables of the
    page script, the persisted search term and genre, and the requests handed to `fetch`.
    A request is recorded when it is issued; its outcome arrives later as `Receive` or
    `FetchFailed`. */
module Catalog {
  import opened Js
  import opened Genres
  import opened CatalogUrl
  import opened Pagination

  /** A catalog response body `{ results, next, previous, ... }`. */
  datatype Response = Response(results: seq<Book>, links: PageLinks)

  class CatalogPage {
    /** The URL composed at start-up; no handler reassigns it. */
    var baseUrl: string
    /** The books of the last response. */
    var booksData: seq<Book>
    /** The links of the last response (`{}` before the first one). */
    var paginationData: PageLinks
    var controls: Controls
    /** Loader shown, search bar and genre filter disabled. */
    var loading: bool
    /** The options appended to the genre dropdown, response after response. */
    var genreOptions: seq<string>
    /** The `searchTerm` and `selectedGenre` keys of local storage. */
    var storedSearchTerm: Option<string>
    var storedGenre: Option<string>
    /** Every URL handed to `fetch`, oldest first. */
    var requests: seq<string>

    /** An enabled button always has a link to follow. */
    ghost predicate Valid()
      reads this
    {
      (!controls.prevDisabled ==> Truthy(paginationData.previous)) &&
      (!controls.nextDisabled ==> Truthy(paginationData.next))
    }

    /** Page load: compose `baseUrl` from the persisted values and fetch it. */
    constructor (searchTerm: Option<string>, selectedGenre: Option<string>)
      ensures Valid()
      ensures baseUrl == WithQuery(Endpoint, StoredParams(searchTerm, selectedGenre))
      ensures requests == [baseUrl] && loading && controls == Controls(true, true)
      ensures booksData == [] && paginationData == PageLinks(None, None) && genreOptions == []
      ensures storedSearchTerm == searchTerm && storedGenre == selectedGenre
    {
      var url := ComposeBaseUrl(Endpoint, searchTerm, selectedGenre);
      baseUrl := url;
      booksData := [];
      paginationData := PageLinks(None, None);
      genreOptions := [];
      storedSearchTerm := searchTerm;
      storedGenre := selectedGenre;
      requests := [url];
      loading := true;
      controls := Controls(true, true);
    }

    /** The synchronous start of `fetchBooks(url)`: both buttons and the inputs are
        disabled and the request goes out. */
    method FetchBooks(url: string)
      requires Valid()
      modifies this
      ensures Valid()
      ensures requests == old(requests) + [url] && loading && controls == Controls(true, true)
      ensures baseUrl == old(baseUrl) && booksData == old(booksData)
      ensures paginationData == old(paginationData) && genreOptions == old(genreOptions)
      ensures storedSearchTerm == old(storedSearchTerm) && storedGenre == old(storedGenre)
    {
      loading := true;
      controls := Controls(true, true);
      requests := requests + [url];
    }

    /** A response arrived: keep its books and links, set the buttons from the links,
        append its genres to the dropdown and hide the loader. */
    method Receive(response: Response)
      requires Valid()
      modifies this
      ensures Valid()
      ensures booksData == response.results && paginationData == response.links
      ensures controls == UpdatePagination(response.links) && !loading
      ensures genreOptions == old(genreOptions) + Distinct(AllSubjects(response.results))
      ensures requests == old(requests) && baseUrl == old(baseUrl)
      ensures storedSearchTerm == old(storedSearchTerm) && storedGenre == old(storedGenre)
    {
      booksData := response.results;
      paginationData := response.links;
      controls := UpdatePagination(response.links);
      var genres := ExtractGenres(response.results);
      genreOptions := genreOptions + genres;
      loading := false;
    }

    /** `fetch` or `response.json()` rejected: only the `finally` block runs, so the
        buttons keep their state and the last books and links are kept. */
    method FetchFailed()
      requires Valid()
      modifies this
      ensures Valid()
      ensures !loading
      ensures controls == old(controls) && booksData == old(booksData)
      ensures paginationData == old(paginationData) && genreOptions == old(genreOptions)
      ensures requests == old(requests) && baseUrl == old(baseUrl)
      ensures storedSearchTerm == old(storedSearchTerm) && storedGenre == old(storedGenre)
    {
      loading := false;
    }

    /** Click on the previous button. The browser dispatches no click to a disabled
        button; an enabled one runs the handler, which fetches the stored `previous` link
        when it is truthy, and `Valid()` guarantees it is. */
    method ClickPrevious()
      requires Valid()
      modifies this
      ensures Valid()
      ensures old(controls.prevDisabled) ==> unchanged(this)
      ensures !Truthy(old(paginationData.previous)) ==> unchanged(this)
      ensures !old(controls.prevDisabled) ==>
                requests == old(requests) + [old(paginationData.previous.value)] &&
                loading && controls == Controls(true, true)
      ensures baseUrl == old(baseUrl) && booksData == old(booksData)
      ensures paginationData == old(paginationData) && genreOptions == old(genreOptions)
      ensures storedSearchTerm == old(storedSearchTerm) && storedGenre == old(storedGenre)
    {
      if !controls.prevDisabled {
        var target := ClickTarget(paginationData.previous);
        if target.Some? {
          FetchBooks(target.value);
        }
      }
    }

    /** Click on the next button: as `ClickPrevious`, with the `next` link. */
    method ClickNext()
      requires Valid()
      modifies this
      ensures Valid()
      ensures old(controls.nextDisabled) ==> unchanged(this)
      ensures !Truthy(old(paginationData.next)) ==> unchanged(this)
      ensures !old(controls.nextDisabled) ==>
                requests == old(requests) + [old(paginationData.next.value)] &&
                loading && controls == Controls(true, true)
      ensures baseUrl == old(baseUrl) && booksData == old(booksData)
      ensures paginationData == old(paginationData) && genreOptions == old(genreOptions)
      ensures storedSearchTerm == old(storedSearchTerm) && storedGenre == old(storedGenre)
    {
      if !controls.nextDisabled {
        var target := ClickTarget(paginationData.next);
        if target.Some? {
          FetchBooks(target.value);
        }
      }
    }

    /** The debounced search callback: fetch the URL for the lower-cased input (or
        `baseUrl` when it is empty) and persist the lower-cased input, empty or not. The
        timer may have been armed before a fetch disabled the search bar, so the callback
        also runs while the page is loading. */
    method SearchTimerFired(input: string)
      requires Valid()
      modifies this
      ensures Valid()
      ensures requests == old(requests) + [SearchFetchUrl(old(baseUrl), input)]
      ensures input == "" ==> requests == old(requests) + [old(baseUrl)]
      ensures storedSearchTerm == Some(ToLower(input)) && storedGenre == old(storedGenre)
      ensures loading && controls == Controls(true, true)
      ensures baseUrl == old(baseUrl) && booksData == old(booksData)
      ensures paginationData == old(paginationData) && genreOptions == old(genreOptions)
    {
      var term := ToLower(input);
      FetchBooks(SearchFetchUrl(baseUrl, input));
      storedSearchTerm := Some(term);
    }

    /** A change of the genre filter. While the page is loading the `select` is disabled
        and the browser dispatches no change; otherwise a non-empty choice fetches
        `baseUrl?topic=` that genre and persists it, and the empty choice does nothing. */
    method GenreChanged(selected: string)
      requires Valid()
      modifies this
      ensures Valid()
      ensures old(loading) ==> unchanged(this)
      ensures selected == "" ==> unchanged(this)
      ensures !old(loading) && selected != "" ==>
                requests == old(requests) + [AppendQuery(old(baseUrl), "topic", selected)] &&
                storedGenre == Some(selected) && loading && controls == Controls(true, true)
      ensures storedSearchTerm == old(storedSearchTerm) && baseUrl == old(baseUrl)
      ensures booksData == old(booksData) && paginationData == old(paginationData)
      ensures genreOptions == old(genreOptions)
    {
      if !loading {
        var url := GenreFetchUrl(baseUrl, selected);
        if url.Some? {
          FetchBooks(url.value);
          storedGenre := Some(selected);
        }
      }
    }
  }

  /** A session, as a caller sees it through the contracts alone: nothing stored, a genre
      chosen while the first page loads, a first page with only a `next` link, then a click
      on each button and a second click on next while that page loads. */
  method BrowseTwoPages(first: seq<Book>, nextUrl: string)
    requires nextUrl != ""
  {
    var page := new CatalogPage(None, None);
    assert page.requests == [Endpoint];
    page.GenreChanged("Fiction");
    assert page.requests == [Endpoint];
    page.Receive(Response(first, PageLinks(Some(nextUrl), None)));
    assert page.controls == Controls(true, false);
    page.ClickPrevious();
    assert page.requests == [Endpoint];
    page.ClickNext();
    assert page.requests == [Endpoint, nextUrl];
    assert page.controls == Controls(true, true);
    page.ClickNext();
    assert page.requests == [Endpoint, nextUrl];
  }
}
