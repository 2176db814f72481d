/** The pagination record of the page and the two navigation handlers. */
module Pagination {
  import opened Wrappers

  /** `{count, pages, next, prev, currentPage}`; `next`/`prev` are the API's page URLs or `null`. */
  datatype PaginationState = PaginationState(
    count: int,
    pages: int,
    next: Option<string>,
    prev: Option<string>,
    currentPage: int)

  /** The record before the first fetch settles: nothing known, page 1. */
  const Initial := PaginationState(0, 0, None, None, 1)

  /** JavaScript truthiness of a link: `null` and the empty string are false. */
  predicate Truthy(link: Option<string>)
    ensures Truthy(link) <==> link != None && link != Some("")
  {
    link.Some? && link.value != ""
  }

  /** `handlePrevPage`: one page back when a previous page is linked, no change otherwise. */
  function PrevPage(p: PaginationState): (r: PaginationState)
    ensures r.count == p.count && r.pages == p.pages && r.next == p.next && r.prev == p.prev
    ensures Truthy(p.prev) ==> r.currentPage == p.currentPage - 1
    ensures r == p <==> !Truthy(p.prev)
  {
    if Truthy(p.prev) then p.(currentPage := p.currentPage - 1) else p
  }

  /** `handleNextPage`: one page forward when a next page is linked, no change otherwise. */
  function NextPage(p: PaginationState): (r: PaginationState)
    ensures r.count == p.count && r.pages == p.pages && r.next == p.next && r.prev == p.prev
    ensures Truthy(p.next) ==> r.currentPage == p.currentPage + 1
    ensures r == p <==> !Truthy(p.next)
  {
    if Truthy(p.next) then p.(currentPage := p.currentPage + 1) else p
  }

  /** With both links present, Previous undoes Next and Next undoes Previous. */
  lemma PrevNextInverse(p: PaginationState)
    requires Truthy(p.next) && Truthy(p.prev)
    ensures PrevPage(NextPage(p)) == p
    ensures NextPage(PrevPage(p)) == p
  {
  }

  /** Before the first fetch both buttons do nothing. */
  lemma InitialIsStuck()
    ensures PrevPage(Initial) == Initial && NextPage(Initial) == Initial
  {
  }
}
