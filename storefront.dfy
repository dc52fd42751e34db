/** The storefront script: the same page walk as the marketplace scraper, but with
    its own page-count block, which swallows every exception and then scrapes no
    page at all. */
module Storefront {
  import opened PyBuiltins
  import opened Items
  import opened Marketplaces
  import opened Scraper

  /** The page-count block of the script. `numberOfPages` starts at 0; a page without
      a strip makes `paginationElement.find_all` raise, and that exception, a missing
      link and a cell that is not an integer are all caught, leaving the 0 in place.
      There is no default of one page. */
  method FindStorefrontPages(pagination: Option<PaginationStrip>) returns (numberOfPages: int)
    ensures pagination.Some? && StripPageCount(pagination.value).Ok? ==>
      numberOfPages == StripPageCount(pagination.value).value
    ensures pagination.None? || StripPageCount(pagination.value).Err? ==> numberOfPages == 0
  {
    numberOfPages := 0;
    // `None.find_all` raises AttributeError, which the bare `except` catches
    if pagination.None? {
      return;
    }
    var spanElements := pagination.value.spans;
    var parsed: Result<int, PyError>;
    if |spanElements| == 4 {
      parsed := ParseInt(spanElements[|spanElements| - 1]);
    } else {
      var pageLinks := pagination.value.anchors;
      var link := PyIndex(pageLinks, |pageLinks| - 2);
      if link.None? {
        return;
      }
      parsed := ParseInt(link.value);
    }
    if parsed.Ok? {
      numberOfPages := parsed.value;
    }
  }

  /** `main` of the storefront script from the first request on: read the page
      count, then walk pages 1..numberOfPages of the storefront's result list. A
      count that cannot be read means no page is requested and the list is empty. */
  method ScrapeStorefront(marketplaceId: string, pagination: Option<PaginationStrip>, fetch: string -> seq<string>)
    returns (items: Result<seq<Item>, PyError>, requested: seq<string>)
    ensures var n := if pagination.Some? && StripPageCount(pagination.value).Ok?
                     then StripPageCount(pagination.value).value else 0;
            items == ExtractPages(ExtractItem, Fetched(PageUrls(BaseUrl(marketplaceId), n), fetch))
            && requested <= PageUrls(BaseUrl(marketplaceId), n)
            && (items.Ok? ==> requested == PageUrls(BaseUrl(marketplaceId), n))
    ensures pagination.None? || StripPageCount(pagination.value).Err? ==> items == Ok([]) && requested == []
  {
    var numberOfPages := FindStorefrontPages(pagination);
    items, requested := ScrapePages(BaseUrl(marketplaceId), numberOfPages, fetch, ExtractItem);
    if numberOfPages == 0 {
      NoPagesNoRequests(ExtractItem, BaseUrl(marketplaceId), numberOfPages, fetch);
    }
  }
}
