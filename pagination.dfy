/** The previous/next controls: their enablement after a response and what a click on
    each of them fetches. */
module Pagination {
  import opened Js

  /** The `next` and `previous` fields of a catalog response, each a URL or `null`. */
  datatype PageLinks = PageLinks(next: Option<string>, previous: Option<string>)

  /** The `disabled` states of the previous and next buttons. */
  datatype Controls = Controls(prevDisabled: bool, nextDisabled: bool)

  /** `updatePagination`: a button is disabled when its link is falsy. For the links the
      catalog sends, a button is then enabled exactly when its link is non-null. */
  function UpdatePagination(links: PageLinks): (c: Controls)
    ensures WellFormed(links) ==> (!c.prevDisabled <==> links.previous.Some?)
    ensures WellFormed(links) ==> (!c.nextDisabled <==> links.next.Some?)
  {
    Controls(!Truthy(links.previous), !Truthy(links.next))
  }

  /** The guard of both click handlers: the URL a click fetches, or None when the stored
      link is falsy and the click does nothing. */
  function ClickTarget(link: Option<string>): (target: Option<string>)
    ensures target.Some? ==> target == link && link.value != ""
    ensures target.None? ==> link.None? || link.value == ""
  {
    if Truthy(link) then link else None
  }

  /** The catalog sends each link either as `null` or as a non-empty URL. */
  predicate WellFormed(links: PageLinks) {
    (links.next.Some? ==> links.next.value != "") &&
    (links.previous.Some? ==> links.previous.value != "")
  }

  /** A button left enabled by `updatePagination` is one whose click fetches, and it fetches
      exactly its link; a disabled one's click does nothing. */
  lemma EnabledButtonFetchesItsLink(links: PageLinks)
    ensures !UpdatePagination(links).prevDisabled <==> ClickTarget(links.previous).Some?
    ensures !UpdatePagination(links).nextDisabled <==> ClickTarget(links.next).Some?
    ensures ClickTarget(links.previous).Some? ==> ClickTarget(links.previous) == links.previous
    ensures ClickTarget(links.next).Some? ==> ClickTarget(links.next) == links.next
  {
  }
}
