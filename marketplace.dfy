/** A marketplace (a seller's storefront), how many result pages it has, and the
    `marketplace` table its id is recorded in. */
module Marketplaces {
  import opened PyBuiltins

  /** The pagination strip of a marketplace's first result page, reduced to what the
      code reads of it: the texts of its `span` descendants and of its `a`
      descendants, in document order. A page without a strip is `None`. */
  datatype PaginationStrip = PaginationStrip(spans: seq<string>, anchors: seq<string>)

  /** The page count read off a strip that was found. With exactly four span cells
      (previous / first / ellipsis / last) it is the number in the last cell; with
      any other number of cells it is the number in the second-to-last link, which
      Python indexes as `anchors[len - 2]`. */
  function StripPageCount(strip: PaginationStrip): Result<int, PyError>
  {
    if |strip.spans| == 4 then ParseInt(strip.spans[3])
    else match PyIndex(strip.anchors, |strip.anchors| - 2)
      case None => Err(IndexError)
      case Some(text) => ParseInt(text)
  }

  /** What `find_number_of_pages` computes for a page: one page when there is no
      strip, otherwise the strip's count. The reference definition against which the
      method's two unchained `if`s are proved. */
  function PageCount(pagination: Option<PaginationStrip>): Result<int, PyError>
  {
    match pagination
    case None => Ok(1)
    case Some(strip) => StripPageCount(strip)
  }

  /** Exactly four span cells: the last cell decides and the links are not read. */
  lemma ShortLayoutIgnoresLinks(spans: seq<string>, links1: seq<string>, links2: seq<string>)
    requires |spans| == 4
    ensures PageCount(Some(PaginationStrip(spans, links1))) == PageCount(Some(PaginationStrip(spans, links2))) == ParseInt(spans[3])
  {
  }

  /** A strip present without span cells does not give one page: the default of 1
      is overwritten by the link fallback, which may even raise. */
  lemma NoCellsFallBackToLinks(links: seq<string>)
    ensures |links| == 0 ==> PageCount(Some(PaginationStrip([], links))) == Err(IndexError)
    ensures |links| == 1 ==> PageCount(Some(PaginationStrip([], links))) == ParseInt(links[0])
    ensures |links| >= 2 ==> PageCount(Some(PaginationStrip([], links))) == ParseInt(links[|links| - 2])
  {
  }

  /** Any cell count other than four reads the link at `len - 2`: with a single link
      that is index -1, the link itself; with none it raises IndexError. */
  lemma LinkFallbackIndexing(spans: seq<string>, links: seq<string>)
    requires |spans| != 4
    ensures |links| == 0 ==> PageCount(Some(PaginationStrip(spans, links))) == Err(IndexError)
    ensures |links| == 1 ==> PageCount(Some(PaginationStrip(spans, links))) == ParseInt(links[0])
    ensures |links| >= 2 ==> PageCount(Some(PaginationStrip(spans, links))) == ParseInt(links[|links| - 2])
  {
  }

  /** A count is always the parsed text of one cell of the strip, or the default 1
      for a page without a strip; anything else is an error of `int()` or of indexing. */
  lemma {:induction false} CountComesFromACell(pagination: Option<PaginationStrip>, n: int)
    requires PageCount(pagination) == Ok(n)
    ensures pagination.None? ==> n == 1
    ensures pagination.Some? && |pagination.value.spans| == 4 ==> ParseInt(pagination.value.spans[3]) == Ok(n)
    ensures pagination.Some? && |pagination.value.spans| != 4 ==>
      exists i :: 0 <= i < |pagination.value.anchors| && ParseInt(pagination.value.anchors[i]) == Ok(n)
  {
    if pagination.Some? && |pagination.value.spans| != 4 {
      var links := pagination.value.anchors;
      var i := if |links| == 1 then 0 else |links| - 2;
      assert ParseInt(links[i]) == Ok(n);
    }
  }

  /** The errors: a cell whose text is not an integer raises ValueError, and a missing
      link raises IndexError; nothing else fails. */
  lemma {:induction false} CountErrors(pagination: Option<PaginationStrip>)
    ensures PageCount(pagination).Err? ==> PageCount(pagination).error in {IndexError, ValueError}
    ensures pagination.Some? && |pagination.value.spans| == 4 ==>
      (PageCount(pagination).Err? <==> !IsIntLiteral(Strip(pagination.value.spans[3])))
  {
  }

  /** The count is not guaranteed positive: a last cell reading "0" gives no pages at all. */
  lemma CountMayBeZero()
    ensures PageCount(Some(PaginationStrip(["< Previous", "1", "...", "0"], []))) == Ok(0)
  {
    ParseDigits("0");
  }

  /** The short layout "< Previous | 1 | ... | 11" gives eleven pages. */
  lemma ShortLayoutExample()
    ensures PageCount(Some(PaginationStrip(["< Previous", "1", "...", "11"], ["2", "3", "11", "Next >"]))) == Ok(11)
  {
    ParseDigits("11");
  }

  /** A longer strip takes the second-to-last link: "1 2 3 ... 15 Next" gives fifteen. */
  lemma LinkLayoutExample()
    ensures PageCount(Some(PaginationStrip(["1", "2", "3", "...", "15", "Next >"], ["2", "3", "15", "Next >"]))) == Ok(15)
  {
    ParseDigits("15");
  }

  /** A marketplace, identified by its seller id. */
  class Marketplace {
    const id: string
    var numberOfPages: int

    constructor (id: string)
      ensures this.id == id && numberOfPages == 0
    {
      this.id := id;
      numberOfPages := 0;
    }

    /** `find_number_of_pages`: the source's two `if`s are not chained, so with no
        span cells the 1 set by the first is overwritten by the link fallback whenever
        a strip was found. An exception leaves `numberOfPages` as it was and escapes. */
    method FindNumberOfPages(pagination: Option<PaginationStrip>) returns (outcome: Outcome<PyError>)
      modifies this`numberOfPages
      ensures PageCount(pagination).Ok? ==>
        outcome == Pass && numberOfPages == PageCount(pagination).value
      ensures PageCount(pagination).Err? ==>
        outcome == Fail(PageCount(pagination).error) && numberOfPages == old(numberOfPages)
    {
      // `None.find_all` raises, is caught, and leaves the cells empty
      var spanElements: seq<string> := [];
      if pagination.Some? {
        spanElements := pagination.value.spans;
      }
      var totalPages := 0;
      if |spanElements| == 0 {
        totalPages := 1;
      }
      if |spanElements| == 4 {
        var parsed := ParseInt(spanElements[|spanElements| - 1]);
        assert PageCount(pagination) == parsed;
        if parsed.Err? {
          return Fail(parsed.error);
        }
        totalPages := parsed.value;
      } else {
        // a found strip is always truthy, an absent one is None
        if pagination.Some? {
          var pageLinks := pagination.value.anchors;
          var link := PyIndex(pageLinks, |pageLinks| - 2);
          assert PageCount(pagination) == if link.None? then Err(IndexError) else ParseInt(link.value);
          if link.None? {
            return Fail(IndexError);
          }
          var parsed := ParseInt(link.value);
          if parsed.Err? {
            return Fail(parsed.error);
          }
          totalPages := parsed.value;
        }
      }
      numberOfPages := totalPages;
      outcome := Pass;
    }

    /** `insert_into_db`: INSERT OR REPLACE on the primary key `id`. */
    method InsertIntoDb(table: MarketplaceTable)
      modifies table
      ensures table.ids == old(table.ids) + {id}
    {
      table.ids := table.ids + {id};
    }
  }

  /** The `marketplace` table: one column, `id`, which is its primary key. */
  class MarketplaceTable {
    var ids: set<string>

    constructor (existing: set<string>)
      ensures ids == existing
    {
      ids := existing;
    }
  }

  /** Inserting a marketplace records its id, keeps every other id, and a second
      insert of the same marketplace changes nothing. */
  method InsertTwice(m: Marketplace, table: MarketplaceTable) returns (once: set<string>)
    modifies table
    ensures once == old(table.ids) + {m.id} && table.ids == once
    ensures forall x :: x != m.id ==> (x in table.ids <==> x in old(table.ids))
  {
    m.InsertIntoDb(table);
    once := table.ids;
    m.InsertIntoDb(table);
  }
}
