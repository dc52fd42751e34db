/** The marketplace scraper: turning the href of each result link into an item, and
    walking a marketplace's result pages 1..N in order, concatenating their items. */
module Scraper {
  import opened PyBuiltins
  import opened Items
  import opened Marketplaces

  const Host := "https://amazon.com"

  /** The result-page address of a marketplace. */
  function BaseUrl(marketplaceId: string): string
  {
    "https://www.amazon.com/s?&me=" + marketplaceId
  }

  // ---------------------------------------------------------------------------
  // One href

  /** The href with the "/ref" tracking suffix cut off (all of it when there is none). */
  function Truncated(href: string): (h: string)
    ensures h <= href && !Contains(h, "/ref")
    ensures forall j :: 0 <= j < |h| ==> !OccursAt(href, "/ref", j)
    ensures Contains(href, "/ref") ==> OccursAt(href, "/ref", |h|)
    ensures !Contains(href, "/ref") ==> h == href
  {
    SplitHead(href, "/ref")
  }

  /** The listing URL: the host, then the truncated href up to the first "`/" and
      then up to the first "\">". */
  function ListingUrl(h: string): string
  {
    Host + SplitHead(SplitHead(h, "`/"), "\">")
  }

  /** The item name: the truncated href up to the first "`/", with every '/' deleted,
      cut at the first "dp", with every '-' turned into a space. */
  function ItemName(h: string): string
  {
    ReplaceChar(SplitHead(ReplaceChar(SplitHead(h, "`/"), '/', ""), "dp"), '-', " ")
  }

  /** The item an href describes, or the IndexError that `split('/dp/')[1]` raises
      when the truncated href has no "/dp/". */
  function ExtractItem(href: string): Result<Item, PyError>
  {
    var h := Truncated(href);
    match SplitSecond(h, "/dp/")
    case None => Err(IndexError)
    case Some(segment) => Ok(Item(ItemName(h), SplitHead(segment, "/"), ListingUrl(h)))
  }

  /** An href fails exactly when its truncated form has no "/dp/", and the failure is
      the IndexError of `split('/dp/')[1]`. */
  lemma ExtractItemFails(href: string)
    ensures ExtractItem(href).Err? <==> !Contains(Truncated(href), "/dp/")
    ensures ExtractItem(href).Err? ==> ExtractItem(href).error == IndexError
  {
  }

  /** The listing URL is the host followed by a piece of the href that starts at its
      beginning and stops before any "/ref". */
  lemma ListingUrlIsHrefPrefix(href: string)
    requires ExtractItem(href).Ok?
    ensures Host <= ExtractItem(href).value.listingUrl
    ensures ExtractItem(href).value.listingUrl[|Host|..] <= Truncated(href) <= href
    ensures !Contains(ExtractItem(href).value.listingUrl[|Host|..], "/ref")
  {
    var h := Truncated(href);
    var p := SplitHead(SplitHead(h, "`/"), "\">");
    assert ExtractItem(href).value.listingUrl == Host + p;
    assert (Host + p)[|Host|..] == p;
    if Contains(p, "/ref") {
      PrefixContains(p, h, "/ref");
    }
  }

  lemma PrefixContains(p: string, s: string, sep: string)
    requires p <= s && Contains(p, sep)
    ensures Contains(s, sep)
  {
    var i :| OccursAt(p, sep, i);
    assert s[i..i + |sep|] == p[i..i + |sep|];
    assert OccursAt(s, sep, i);
  }

  /** An href without "/dp/" is not skipped: it raises, and nothing catches it. */
  lemma MissingMarkerRaises(href: string)
    requires !Contains(href, "/dp/")
    ensures ExtractItem(href) == Err(IndexError)
  {
    ExtractItemFails(href);
    if Contains(Truncated(href), "/dp/") {
      PrefixContains(Truncated(href), href, "/dp/");
    }
  }

  /** The name has no '/' and no '-', and it never contains "dp": a product whose
      name contains "dp" has its name cut there. */
  lemma {:induction false} NameIsCutAtDp(href: string)
    ensures '/' !in ItemName(Truncated(href)) && '-' !in ItemName(Truncated(href))
    ensures !Contains(ItemName(Truncated(href)), "dp")
  {
    var h := Truncated(href);
    var deleted := ReplaceChar(SplitHead(h, "`/"), '/', "");
    var cut := SplitHead(deleted, "dp");
    var name := ReplaceChar(cut, '-', " ");
    ReplaceCharMembers(SplitHead(h, "`/"), '/', "");
    ReplaceCharMembers(cut, '-', " ");
    ReplaceCharPointwise(cut, '-', " ");
    assert '/' !in deleted;
    assert '/' !in cut by {
      forall x | x in cut ensures x != '/' {
        var i :| 0 <= i < |cut| && cut[i] == x;
        assert deleted[i] == x;
      }
    }
    forall j | 0 <= j && j + 2 <= |name| ensures !OccursAt(name, "dp", j) {
      assert !OccursAt(cut, "dp", j);
      assert cut[j..j + 2][0] == cut[j] && cut[j..j + 2][1] == cut[j + 1];
      assert name[j..j + 2][0] == name[j] && name[j..j + 2][1] == name[j + 1];
    }
  }

  /** The asin is the text right after the first "/dp/" of the truncated href, up to
      the next '/' or the end. */
  lemma {:induction false} AsinFollowsMarker(href: string)
    requires ExtractItem(href).Ok?
    ensures var h := Truncated(href);
            var k := Find(h, "/dp/").value;
            var asin := ExtractItem(href).value.asin;
            OccursAt(h, "/dp/", k) && asin <= h[k + 4..] && !Contains(asin, "/")
            && (k + 4 + |asin| == |h| || h[k + 4 + |asin|] == '/')
  {
    var h := Truncated(href);
    SplitSecondThenSlash(h, "/dp/");
    var k := Find(h, "/dp/").value;
    var asin := ExtractItem(href).value.asin;
    assert asin == SplitHead(h[k + 4..], "/");
    if k + 4 + |asin| != |h| {
      assert OccursAt(h[k + 4..], "/", |asin|);
      assert h[k + 4 + |asin|] == h[k + 4..][|asin|];
    }
  }

  lemma OccursAtShift(s: string, t: string, sep: string, k: int)
    requires OccursAt(t, sep, k)
    ensures OccursAt(s + t, sep, |s| + k)
  {
    assert (s + t)[|s| + k..|s| + k + |sep|] == t[k..k + |sep|];
  }

  lemma ListingUrlWhole(h: string)
    requires !Contains(h, "`/") && !Contains(h, "\">")
    ensures ListingUrl(h) == Host + h
  {
    assert SplitHead(h, "`/") == h;
  }

  /** `listing_url` keeps the "/dp/<asin>" segment: when the href carries neither
      "`/" nor "\">", the URL is the host followed by the whole truncated href. */
  lemma {:induction false} ListingUrlKeepsAsin(href: string)
    requires ExtractItem(href).Ok?
    requires !Contains(Truncated(href), "`/") && !Contains(Truncated(href), "\">")
    ensures ExtractItem(href).value.listingUrl == Host + Truncated(href)
    ensures Contains(ExtractItem(href).value.listingUrl, "/dp/" + ExtractItem(href).value.asin)
  {
    var h := Truncated(href);
    var asin := ExtractItem(href).value.asin;
    ListingUrlWhole(h);
    AsinFollowsMarker(href);
    var k := Find(h, "/dp/").value;
    MarkerThenAsin(h, k, asin);
    OccursAtShift(Host, h, "/dp/" + asin, k);
  }

  lemma MarkerThenAsin(h: string, k: int, asin: string)
    requires OccursAt(h, "/dp/", k) && asin <= h[k + 4..]
    ensures OccursAt(h, "/dp/" + asin, k)
  {
    assert h[k..k + 4] == "/dp/";
    assert h[k + 4..k + 4 + |asin|] == asin;
    assert h[k..k + 4 + |asin|] == h[k..k + 4] + h[k + 4..k + 4 + |asin|];
  }

  /** A character that is not in `s` starts no occurrence of a separator in it. */
  lemma AbsentFirstChar(s: string, sep: string)
    requires |sep| > 0 && sep[0] !in s
    ensures !Contains(s, sep)
  {
    forall j | 0 <= j && j + |sep| <= |s| ensures !OccursAt(s, sep, j) {
      assert s[j..j + |sep|][0] == s[j];
    }
  }

  lemma DeleteMarkerSlashes(id: string)
    requires '/' !in id
    ensures ReplaceChar("/dp/" + id, '/', "") == "dp" + id
  {
    var t1 := "/" + id;
    ReplaceCharAppend("/", id, '/', "");
    ReplaceCharAbsent(id, '/', "");
    assert ReplaceChar(t1, '/', "") == id;
    var t2 := "dp" + t1;
    ReplaceCharAppend("dp", t1, '/', "");
    ReplaceCharAbsent("dp", '/', "");
    assert ReplaceChar(t2, '/', "") == "dp" + id;
    var t3 := "/" + t2;
    ReplaceCharAppend("/", t2, '/', "");
    assert "/dp/" + id == t3;
  }

  /** Deleting the slashes of "/<words>/dp/<id>" leaves "<words>dp<id>". */
  lemma DeleteSlashes(words: string, id: string)
    requires '/' !in words && '/' !in id
    ensures ReplaceChar("/" + words + "/dp/" + id, '/', "") == words + "dp" + id
  {
    var t3 := "/dp/" + id;
    DeleteMarkerSlashes(id);
    var t4 := words + t3;
    ReplaceCharAppend(words, t3, '/', "");
    ReplaceCharAbsent(words, '/', "");
    assert ReplaceChar(t4, '/', "") == words + ("dp" + id);
    var t5 := "/" + t4;
    ReplaceCharAppend("/", t4, '/', "");
    assert ReplaceChar(t5, '/', "") == words + ("dp" + id);
    assert "/" + words + "/dp/" + id == t5;
    assert words + ("dp" + id) == words + "dp" + id;
  }

  // The example below is stated for parameters equal to the parts of the href rather
  // than for one literal, so that the recursive string functions are unfolded step by
  // step rather than all at once.

  lemma ExampleTruncated(h: string)
    requires h == "/Some-Product-Name/dp/B000123456"
    ensures Truncated(h + "/ref=sr_1_1") == h
  {
    var href := h + "/ref=sr_1_1";
    SplitHeadAt(href, "/ref", 32);
    assert href[..32] == h;
  }

  lemma ExampleListingUrl(h: string)
    requires h == "/Some-Product-Name/dp/B000123456"
    ensures ListingUrl(h) == Host + h
  {
    AbsentFirstChar(h, "`/");
    AbsentFirstChar(h, "\">");
    ListingUrlWhole(h);
  }

  lemma ExampleCut(d: string)
    requires d == "Some-Product-NamedpB000123456"
    ensures SplitHead(d, "dp") == "Some-Product-Name"
  {
    SplitHeadAt(d, "dp", 17);
    assert d[..17] == "Some-Product-Name";
  }

  lemma ExampleDashes(words: string)
    requires words == "Some-Product-Name"
    ensures ReplaceChar(words, '-', " ") == "Some Product Name"
  {
    var name := ReplaceChar(words, '-', " ");
    ReplaceCharPointwise(words, '-', " ");
    forall i | 0 <= i < |words| ensures name[i] == "Some Product Name"[i] {
      assert name[i] == if words[i] == '-' then ' ' else words[i];
    }
  }

  lemma ExampleName(words: string, id: string)
    requires words == "Some-Product-Name" && id == "B000123456"
    ensures ItemName("/" + words + "/dp/" + id) == "Some Product Name"
  {
    var h := "/" + words + "/dp/" + id;
    AbsentFirstChar(h, "`/");
    assert SplitHead(h, "`/") == h;
    DeleteSlashes(words, id);
    var deleted := ReplaceChar(h, '/', "");
    assert deleted == words + "dp" + id;
    ExampleCut(deleted);
    ExampleDashes(words);
  }

  lemma ExampleAsin(words: string, id: string)
    requires words == "Some-Product-Name" && id == "B000123456"
    ensures SplitSecond("/" + words + "/dp/" + id, "/dp/") == Some(id)
    ensures SplitHead(id, "/") == id
  {
    var h := "/" + words + "/dp/" + id;
    SplitHeadAt(h, "/dp/", 18);
    assert Find(h, "/dp/") == Some(18);
    assert h[22..] == id;
    AbsentFirstChar(id, "/dp/");
    assert SplitHead(id, "/dp/") == id;
    AbsentFirstChar(id, "/");
  }

  /** The href "/Some-Product-Name/dp/B000123456/ref=sr_1_1" gives the name
      "Some Product Name", the asin "B000123456" and a listing URL that still ends
      in "/dp/B000123456". */
  lemma WorkedExample(words: string, asin: string)
    requires words == "Some-Product-Name" && asin == "B000123456"
    ensures var h := "/" + words + "/dp/" + asin;
            ExtractItem(h + "/ref=sr_1_1") == Ok(Item("Some Product Name", asin, Host + h))
  {
    var h := "/" + words + "/dp/" + asin;
    ExampleTruncated(h);
    ExampleListingUrl(h);
    ExampleName(words, asin);
    ExampleAsin(words, asin);
  }

  // ---------------------------------------------------------------------------
  // Pages

  /** What the loop body does with one href: an item, or the exception it raises.
      Both scripts run `ExtractItem` here; the page loop is stated for any such step. */
  type Extractor = string -> Result<Item, PyError>

  /** `r` with `xs` in front of its items; an error stays the error. */
  function Prepend(xs: seq<Item>, r: Result<seq<Item>, PyError>): Result<seq<Item>, PyError>
  {
    match r
    case Ok(ys) => Ok(xs + ys)
    case Err(e) => Err(e)
  }

  /** The items of one page, in link order; the first href that raises aborts. */
  function ExtractPage(extract: Extractor, hrefs: seq<string>): Result<seq<Item>, PyError>
  {
    if hrefs == [] then Ok([])
    else match extract(hrefs[0])
      case Err(e) => Err(e)
      case Ok(item) => Prepend([item], ExtractPage(extract, hrefs[1..]))
  }

  /** The items of several pages, in page order. */
  function ExtractPages(extract: Extractor, pages: seq<seq<string>>): Result<seq<Item>, PyError>
  {
    if pages == [] then Ok([])
    else match ExtractPage(extract, pages[0])
      case Err(e) => Err(e)
      case Ok(xs) => Prepend(xs, ExtractPages(extract, pages[1..]))
  }

  /** The hrefs of every page, one page after another. */
  function Flatten(pages: seq<seq<string>>): seq<string>
  {
    if pages == [] then [] else pages[0] + Flatten(pages[1..])
  }

  /** The address of result page `page`. */
  function PageUrl(baseUrl: string, page: nat): string
  {
    baseUrl + "&page=" + DecimalString(page)
  }

  /** The addresses of pages 1..n, in ascending order; none when n <= 0. */
  function PageUrls(baseUrl: string, n: int): (urls: seq<string>)
    ensures |urls| == if n > 0 then n else 0
    ensures forall i :: 0 <= i < |urls| ==> urls[i] == PageUrl(baseUrl, i + 1)
  {
    if n <= 0 then [] else PageUrls(baseUrl, n - 1) + [PageUrl(baseUrl, n)]
  }

  /** What a fetch of each address yields: the hrefs of its matching result links. */
  function Fetched(urls: seq<string>, fetch: string -> seq<string>): (pages: seq<seq<string>>)
    ensures |pages| == |urls| && forall i :: 0 <= i < |urls| ==> pages[i] == fetch(urls[i])
  {
    if urls == [] then [] else Fetched(urls[..|urls| - 1], fetch) + [fetch(urls[|urls| - 1])]
  }

  lemma PrependAssoc(xs: seq<Item>, ys: seq<Item>, r: Result<seq<Item>, PyError>)
    ensures Prepend(xs, Prepend(ys, r)) == Prepend(xs + ys, r)
  {
    if r.Ok? {
      assert xs + (ys + r.value) == (xs + ys) + r.value;
    }
  }

  lemma PrependNothing(r: Result<seq<Item>, PyError>)
    ensures Prepend([], r) == r
  {
    if r.Ok? {
      assert [] + r.value == r.value;
    }
  }

  /** One step of the loop over a page's links: the run from link `j` on either fails
      with that link's error or is that link's item followed by the run from `j + 1` on. */
  lemma LinkStep(extract: Extractor, found: seq<Item>, hrefs: seq<string>, j: int)
    requires 0 <= j < |hrefs|
    ensures extract(hrefs[j]).Err? ==>
      Prepend(found, ExtractPage(extract, hrefs[j..])) == Err(extract(hrefs[j]).error)
    ensures extract(hrefs[j]).Ok? ==>
      Prepend(found, ExtractPage(extract, hrefs[j..]))
      == Prepend(found + [extract(hrefs[j]).value], ExtractPage(extract, hrefs[j + 1..]))
  {
    assert hrefs[j..][0] == hrefs[j];
    assert hrefs[j..][1..] == hrefs[j + 1..];
    if extract(hrefs[j]).Ok? {
      PrependAssoc(found, [extract(hrefs[j]).value], ExtractPage(extract, hrefs[j + 1..]));
    }
  }

  /** The `for` loop over the links of one page, appending to the items found so far;
      an href without "/dp/" raises, and the scrape ends with that error. */
  method ScrapeLinks(extract: Extractor, hrefs: seq<string>, found: seq<Item>) returns (r: Result<seq<Item>, PyError>)
    ensures r == Prepend(found, ExtractPage(extract, hrefs))
  {
    var items := found;
    var j := 0;
    assert hrefs[j..] == hrefs;
    while j < |hrefs|
      invariant 0 <= j <= |hrefs|
      invariant Prepend(found, ExtractPage(extract, hrefs)) == Prepend(items, ExtractPage(extract, hrefs[j..]))
    {
      LinkStep(extract, items, hrefs, j);
      match extract(hrefs[j])
      case Err(e) =>
        return Err(e);
      case Ok(item) =>
        items := items + [item];
      j := j + 1;
    }
    assert items + [] == items;
    return Ok(items);
  }

  /** One step of the loop over pages: the scrape from page `k` on is page `k`'s run
      (which may fail) followed by the scrape from page `k + 1` on. */
  lemma PageStep(extract: Extractor, found: seq<Item>, pages: seq<seq<string>>, k: int)
    requires 0 <= k < |pages|
    ensures Prepend(found, ExtractPage(extract, pages[k])).Err? ==>
      Prepend(found, ExtractPages(extract, pages[k..])) == Prepend(found, ExtractPage(extract, pages[k]))
    ensures Prepend(found, ExtractPage(extract, pages[k])).Ok? ==>
      Prepend(found, ExtractPages(extract, pages[k..]))
      == Prepend(Prepend(found, ExtractPage(extract, pages[k])).value, ExtractPages(extract, pages[k + 1..]))
  {
    assert pages[k..][0] == pages[k];
    assert pages[k..][1..] == pages[k + 1..];
    if ExtractPage(extract, pages[k]).Ok? {
      PrependAssoc(found, ExtractPage(extract, pages[k]).value, ExtractPages(extract, pages[k + 1..]));
    }
  }

  /** `ScrapePages`: the while loop over `currentPage` in the marketplace scraper and
      in the storefront script. It requests pages 1..numberOfPages, each once and in
      ascending order, and returns the items of all of them in page order and link
      order; the first href without "/dp/" aborts the scrape with an IndexError. */
  method ScrapePages(baseUrl: string, numberOfPages: int, fetch: string -> seq<string>, extract: Extractor)
    returns (items: Result<seq<Item>, PyError>, requested: seq<string>)
    ensures items == ExtractPages(extract, Fetched(PageUrls(baseUrl, numberOfPages), fetch))
    ensures requested <= PageUrls(baseUrl, numberOfPages)
    ensures items.Ok? ==> requested == PageUrls(baseUrl, numberOfPages)
  {
    ghost var urls := PageUrls(baseUrl, numberOfPages);
    ghost var pages := Fetched(urls, fetch);
    var currentPage := 1;
    var found: seq<Item> := [];
    requested := [];
    assert pages[currentPage - 1..] == pages;
    PrependNothing(ExtractPages(extract, pages));
    while currentPage < numberOfPages + 1
      invariant 1 <= currentPage <= |urls| + 1
      invariant requested == urls[..currentPage - 1]
      invariant ExtractPages(extract, pages) == Prepend(found, ExtractPages(extract, pages[currentPage - 1..]))
    {
      var url := baseUrl + "&page=" + DecimalString(currentPage);
      assert url == urls[currentPage - 1];
      assert urls[..currentPage] == urls[..currentPage - 1] + [url];
      requested := requested + [url];
      var hrefs := fetch(url);
      assert hrefs == pages[currentPage - 1];
      PageStep(extract, found, pages, currentPage - 1);
      var r := ScrapeLinks(extract, hrefs, found);
      if r.Err? {
        items := r;
        return;
      }
      found := r.value;
      currentPage := currentPage + 1;
    }
    assert pages[currentPage - 1..] == [];
    assert found + [] == found;
    items := Ok(found);
  }

  // ---------------------------------------------------------------------------
  // What the scrape returns

  lemma {:induction false} ExtractPageAppend(extract: Extractor, a: seq<string>, b: seq<string>)
    ensures ExtractPage(extract, a + b) == match ExtractPage(extract, a)
      case Err(e) => Err(e)
      case Ok(xs) => Prepend(xs, ExtractPage(extract, b))
  {
    if a == [] {
      assert a + b == b;
      PrependNothing(ExtractPage(extract, b));
    } else {
      assert (a + b)[0] == a[0];
      assert (a + b)[1..] == a[1..] + b;
      ExtractPageAppend(extract, a[1..], b);
      var x := extract(a[0]);
      if x.Ok? && ExtractPage(extract, a[1..]).Ok? {
        PrependAssoc([x.value], ExtractPage(extract, a[1..]).value, ExtractPage(extract, b));
      }
    }
  }

  /** Page boundaries do not matter: the scrape of several pages is the scrape of all
      their hrefs in one run, pages in order and links in order within a page. */
  lemma {:induction false} PagesAreConcatenated(extract: Extractor, pages: seq<seq<string>>)
    ensures ExtractPages(extract, pages) == ExtractPage(extract, Flatten(pages))
  {
    if pages != [] {
      PagesAreConcatenated(extract, pages[1..]);
      ExtractPageAppend(extract, pages[0], Flatten(pages[1..]));
    }
  }

  /** A run over hrefs succeeds exactly when every href has "/dp/". */
  lemma {:induction false} ExtractPageSucceeds(extract: Extractor, hrefs: seq<string>)
    ensures ExtractPage(extract, hrefs).Ok? <==> forall i :: 0 <= i < |hrefs| ==> extract(hrefs[i]).Ok?
  {
    if hrefs != [] {
      ExtractPageSucceeds(extract, hrefs[1..]);
      if extract(hrefs[0]).Ok? && ExtractPage(extract, hrefs[1..]).Err? {
        var i :| 0 <= i < |hrefs[1..]| && !extract(hrefs[1..][i]).Ok?;
        assert !extract(hrefs[i + 1]).Ok?;
      } else if extract(hrefs[0]).Ok? {
        forall i | 1 <= i < |hrefs| ensures extract(hrefs[i]).Ok? {
          assert hrefs[i] == hrefs[1..][i - 1];
        }
      }
    }
  }

  /** A successful run has one item per href, the i-th item coming from the i-th href. */
  lemma {:induction false} ExtractPageItems(extract: Extractor, hrefs: seq<string>)
    requires ExtractPage(extract, hrefs).Ok?
    ensures |ExtractPage(extract, hrefs).value| == |hrefs|
    ensures forall i :: 0 <= i < |hrefs| ==> extract(hrefs[i]) == Ok(ExtractPage(extract, hrefs).value[i])
  {
    if hrefs != [] {
      var first := extract(hrefs[0]).value;
      var rest := ExtractPage(extract, hrefs[1..]).value;
      ExtractPageItems(extract, hrefs[1..]);
      var xs := ExtractPage(extract, hrefs).value;
      assert xs == [first] + rest;
      forall i | 1 <= i < |hrefs| ensures extract(hrefs[i]) == Ok(xs[i]) {
        assert xs[i] == rest[i - 1];
        assert hrefs[1..][i - 1] == hrefs[i];
      }
    }
  }

  /** A scrape that succeeds returns one item per matched link over all pages, the
      i-th item coming from the i-th link in page order; it succeeds exactly when
      every link's truncated href has "/dp/". */
  lemma ScrapedItemsFollowLinks(extract: Extractor, pages: seq<seq<string>>)
    ensures ExtractPages(extract, pages).Ok? <==> forall i :: 0 <= i < |Flatten(pages)| ==> extract(Flatten(pages)[i]).Ok?
    ensures ExtractPages(extract, pages).Ok? ==>
      |ExtractPages(extract, pages).value| == |Flatten(pages)|
      && forall i :: 0 <= i < |Flatten(pages)| ==> extract(Flatten(pages)[i]) == Ok(ExtractPages(extract, pages).value[i])
  {
    PagesAreConcatenated(extract, pages);
    ExtractPageSucceeds(extract, Flatten(pages));
    if ExtractPages(extract, pages).Ok? {
      ExtractPageItems(extract, Flatten(pages));
    }
  }

  /** No pages to scrape means no request and no items. */
  lemma NoPagesNoRequests(extract: Extractor, baseUrl: string, numberOfPages: int, fetch: string -> seq<string>)
    requires numberOfPages <= 0
    ensures PageUrls(baseUrl, numberOfPages) == []
    ensures ExtractPages(extract, Fetched(PageUrls(baseUrl, numberOfPages), fetch)) == Ok([])
  {
    assert Fetched(PageUrls(baseUrl, numberOfPages), fetch) == [];
  }

  /** Each page is requested once: the addresses of different pages differ. */
  lemma {:induction false} PageUrlsDistinct(baseUrl: string, n: int, i: int, j: int)
    requires 0 <= i < j < |PageUrls(baseUrl, n)|
    ensures PageUrls(baseUrl, n)[i] != PageUrls(baseUrl, n)[j]
  {
    var prefix := baseUrl + "&page=";
    var a := DecimalString(i + 1);
    var b := DecimalString(j + 1);
    assert a != b by {
      assert DigitsValue(a) != DigitsValue(b);
    }
    assert PageUrls(baseUrl, n)[i] == prefix + a;
    assert PageUrls(baseUrl, n)[j] == prefix + b;
    assert (prefix + a)[|prefix|..] == a;
    assert (prefix + b)[|prefix|..] == b;
  }

  /** `scrapeMarketplaceItems`: find the page count of the marketplace (an exception
      escapes and aborts the scrape before any page is requested), then scrape pages
      1..numberOfPages. */
  method ScrapeMarketplaceItems(m: Marketplace, pagination: Option<PaginationStrip>, fetch: string -> seq<string>)
    returns (items: Result<seq<Item>, PyError>, requested: seq<string>)
    modifies m`numberOfPages
    ensures PageCount(pagination).Err? ==>
      items == Err(PageCount(pagination).error) && requested == [] && m.numberOfPages == old(m.numberOfPages)
    ensures PageCount(pagination).Ok? ==>
      m.numberOfPages == PageCount(pagination).value
      && items == ExtractPages(ExtractItem, Fetched(PageUrls(BaseUrl(m.id), m.numberOfPages), fetch))
      && requested <= PageUrls(BaseUrl(m.id), m.numberOfPages)
      && (items.Ok? ==> requested == PageUrls(BaseUrl(m.id), m.numberOfPages))
  {
    var outcome := m.FindNumberOfPages(pagination);
    if outcome.Fail? {
      return Err(outcome.error), [];
    }
    items, requested := ScrapePages(BaseUrl(m.id), m.numberOfPages, fetch, ExtractItem);
  }
}
