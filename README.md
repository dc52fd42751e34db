# orderfly-storefront in Dafny

This project models the decision and string logic of the orderfly-storefront
Amazon storefront scraper, together with the table semantics of its SQLite
persistence layer, and proves properties of that model. It covers:

- **How many result pages a marketplace has.** `Marketplace.find_number_of_pages` in
  `src/models/marketplace.py`, and the inline page-count block of `src/storefront.py`.
  Both read a count off the pagination strip of the first result page.
- **How one result link's href becomes an item.** This gives the name, the ASIN and
  the listing URL, built from chains of `split(sep)[0]`, `split(sep)[1]` and
  `replace`.
- **How result pages 1..N are walked.** The `while currentPage < numberOfPages + 1`
  loop of `scrapeMarketplaceItems` in `src/main.py` and of the storefront script,
  concatenating each page's items.
- **The tables.**
  - `marketplace`: a set of ids, INSERT OR REPLACE.
  - `item`: keyed by asin, INSERT OR REPLACE that can fail and is swallowed.
  - `marketplace_item`: keyed by (marketplace uuid, asin), an upsert that keeps
    `first_seen`.
  - `inventory`: keyed by (id, marketplace_id), a plain INSERT plus update and delete.
  - `inventory_items`: no key, a list of rows in insertion order.

Each file of the project is one module:

| file | module | models |
|---|---|---|
| `pybuiltins.dfy` | `PyBuiltins` | the Python built-ins the code rests on: negative indexing, `split`, `replace`, `strip`, `int()` and `str()` |
| `marketplace.dfy` | `Marketplaces` | `src/models/marketplace.py` |
| `item.dfy` | `Items` | `src/models/item.py` and the item schema of `src/main.py` |
| `scraper.dfy` | `Scraper` | the href extraction and page loop of `src/main.py` |
| `storefront.dfy` | `Storefront` | the page-count block and the page loop of `src/storefront.py` |
| `marketplace_item.dfy` | `MarketplaceItems` | `src/models/marketplaceItem.py` |
| `inventory.dfy` | `Inventories` | `src/models/inventory.py` |
| `inventory_items.dfy` | `InventoryItems` | `src/models/inventoryItems.py` |

Modelling conventions:

- **Exceptions.** A Python exception is the `Err` arm of a `Result`, or `Fail` of an
  `Outcome` when the call returns nothing. `PyError` names the exceptions that occur:
  IndexError, ValueError and IntegrityError.
- **Inputs that come from outside.**
  - The pagination strip is an `Option<PaginationStrip>`: the texts of its `span`
    cells and its `a` links.
  - A page fetch is a function from URL to the hrefs of the page's matching result
    links.
  - The current time is an integer parameter `now`.
  - A fresh `uuid4` is a parameter.
- **State.** Objects whose fields the source updates are classes:
  - `Marketplace`, whose `number_of_pages` is written;
  - one class per table, holding its rows in a `set`, `map` or `seq` field.
- **Values.** `Item`, `Inventory` and `InventoryItem` are datatypes. The source never
  changes them after construction, so their constructors are those of the Python
  classes: `Item.__init__` at `src/models/item.py:6-9` and `Inventory.__init__` at
  `src/models/inventory.py:63-68`.
- **Extraction in the page loop.** The page loop is proved for any per-link step of
  type `Extractor`. Both scripts instantiate it with `ExtractItem`, the href extraction
  at `src/main.py:179-185` and `src/storefront.py:140-145`.

## Behaviour at the edges

- **A strip with no span cells.** The 1 set at `src/models/marketplace.py:56` is
  overwritten by the link fallback at lines 59-62. The `if` at line 55 and the
  `if`/`else` at lines 57-62 are not chained. The count is then read from the links,
  and with no link it raises IndexError (`NoCellsFallBackToLinks`).
- **A count that cannot be read.** No `try` surrounds the `int()` calls or the link
  index at `src/models/marketplace.py:58` and `:62`, so `find_number_of_pages` lets
  ValueError and IndexError escape. The storefront script catches them at
  `src/storefront.py:119` and keeps the 0 set at line 105, so it requests no page.
  Only a missing strip falls back to a default of one page, and only in the
  marketplace scraper.
- **An href without "/dp/".** `split('/dp/')[1]` at `src/main.py:183` raises
  IndexError outside any `try`, and the scrape stops (`MissingMarkerRaises`).
- **The listing URL.** `src/main.py:181` keeps the truncated href up to its first
  "`/" and its first "\">". An href with neither is kept whole, "/dp/" and the asin
  included (`ListingUrlWhole`, `ListingUrlKeepsAsin`). The href
  "/Some-Product-Name/dp/B000123456/ref=sr_1_1" gives a URL ending in
  "/dp/B000123456" (`WorkedExample`).
- The code has no retention sweep, no surrogate marketplace id and no first-seen date
  on items.

## Model

| member | source | states |
|---|---|---|
| PyBuiltins.PyIndex | src/models/marketplace.py:62 | `pageLinks[i]` succeeds exactly when -len <= i < len; a non-negative index is taken from the front and a negative one counts back from the end |
| PyBuiltins.Find | src/main.py:183 | the index found is an occurrence of the separator and no earlier index is one; nothing is found exactly when the separator does not occur |
| PyBuiltins.SplitHead | src/main.py:180-183 | `s.split(sep)[0]` is a prefix of `s` with no occurrence of `sep` starting inside it. It is all of `s` when `sep` does not occur; otherwise `sep` occurs right after it |
| PyBuiltins.SplitHeadUnique | src/main.py:180-183 | those clauses determine `split(sep)[0]` uniquely |
| PyBuiltins.SplitHeadAt | src/main.py:180-183 | if no earlier position begins with the first two characters of `sep` and `sep` occurs at `k` (or `k` is the end), `split(sep)[0]` is `s[..k]` |
| PyBuiltins.SplitSecond | src/main.py:183 | `s.split(sep)[1]` raises IndexError exactly when `sep` does not occur in `s` |
| PyBuiltins.SplitSecondThenSlash | src/main.py:183 | `split('/dp/')[1].split('/')[0]` is the text right after the first "/dp/" up to the next '/' or the end: the second segment adds nothing |
| PyBuiltins.ReplaceChar | src/main.py:182 | `s.replace(c, repl)` for a one-character `c`: each occurrence of `c` becomes `repl`, left to right. Its properties are stated by `ReplaceCharMembers`, `ReplaceCharPointwise`, `ReplaceCharAppend` and `ReplaceCharAbsent` |
| PyBuiltins.ReplaceCharMembers | src/main.py:182 | after `replace(c, repl)` every character comes from `repl` or is a character of the text other than `c` |
| PyBuiltins.ReplaceCharPointwise | src/main.py:182 | with a one-character replacement the length is kept, each `c` becomes the replacement and every other character stays |
| PyBuiltins.ReplaceCharAppend | src/main.py:182 | replacing in a concatenation replaces in each part |
| PyBuiltins.ReplaceCharAbsent | src/main.py:182 | a text without `c` is unchanged |
| PyBuiltins.StripLeft | src/models/marketplace.py:58 | removes exactly the leading white space: what is cut is all white space, and the result starts with a non-space |
| PyBuiltins.StripRight | src/models/marketplace.py:58 | removes exactly the trailing white space |
| PyBuiltins.Strip | src/models/marketplace.py:58 | the result neither starts nor ends with white space, and a text with no white space at its ends is kept as it is |
| PyBuiltins.StripTrims | src/models/marketplace.py:58 | `strip()` returns a piece of the text, and only white space lies on either side of it |
| PyBuiltins.StripPadded | src/models/marketplace.py:58 | white space around a text that neither starts nor ends with white space is exactly what `strip()` removes |
| PyBuiltins.ParseLiteral | src/models/marketplace.py:58 | `int()` of a stripped text succeeds exactly on an optional sign followed by decimal digits, and otherwise raises ValueError |
| PyBuiltins.ParseInt | src/models/marketplace.py:58 | `int(text.strip())` succeeds exactly when the stripped text is an optional sign followed by decimal digits, and otherwise raises ValueError |
| PyBuiltins.ParseUnsigned | src/models/marketplace.py:58 | a literal of bare decimal digits has their value |
| PyBuiltins.ParseSigned | src/models/marketplace.py:58 | a literal of '+' or '-' followed by digits has the digits' value, negated after '-' |
| PyBuiltins.ParseUnsignedValue | src/models/marketplace.py:58 | `int()` of white space, decimal digits and white space is the digits' value |
| PyBuiltins.ParseSignedValue | src/models/marketplace.py:58 | `int()` of white space, a sign, decimal digits and white space is the digits' value, negated after '-' |
| PyBuiltins.DecimalString | src/main.py:171 | `str(n)` is a non-empty string of decimal digits whose value is `n`, with no leading zero unless it is "0" |
| PyBuiltins.ParseDigits | src/models/marketplace.py:58 | a non-empty text of digits parses to its decimal value |
| PyBuiltins.ParseDecimal | src/main.py:171 | `int(str(n)) == n` |
| PyBuiltins.DecimalInjective | src/main.py:171 | distinct page numbers give distinct `str` texts |
| Marketplaces.StripPageCount | src/models/marketplace.py:55-62 | the count read off a present strip: `int` of the last span cell when there are exactly four, else `int` of the link at `len - 2`. Its properties are stated by `ShortLayoutIgnoresLinks`, `NoCellsFallBackToLinks`, `LinkFallbackIndexing`, `CountErrors` and `CountComesFromACell` |
| Marketplaces.PageCount | src/models/marketplace.py:38-62 | 1 when there is no strip, else the strip's count; `CountComesFromACell` states what it can return |
| Marketplaces.ShortLayoutIgnoresLinks | src/models/marketplace.py:57-58 | with exactly four span cells the count is `int` of the last cell, whatever the links are |
| Marketplaces.NoCellsFallBackToLinks | src/models/marketplace.py:55-62 | a strip with no span cells does not give 1: it takes the link at `len - 2`, and with no link it raises IndexError |
| Marketplaces.LinkFallbackIndexing | src/models/marketplace.py:59-62 | any other cell count reads the link at `len - 2`. With one link that is index -1, the link itself; with none it raises IndexError |
| Marketplaces.CountComesFromACell | src/models/marketplace.py:38-62 | a successful count is 1 for a missing strip. Otherwise it is the parsed text of the last cell or of one of the links |
| Marketplaces.CountErrors | src/models/marketplace.py:57-62 | the only failures are IndexError and ValueError. With four cells it fails exactly when the last cell is not an integer literal |
| Marketplaces.CountMayBeZero | src/models/marketplace.py:54-64 | a last cell reading "0" gives a count of 0: the count is not always positive |
| Marketplaces.ShortLayoutExample | src/models/marketplace.py:22-30 | the strip "< Previous \| 1 \| ... \| 11" gives 11 |
| Marketplaces.LinkLayoutExample | src/models/marketplace.py:59-62 | a six-cell strip whose second-to-last link is "15" gives 15 |
| Marketplaces.Marketplace.constructor | src/models/marketplace.py:10-12 | a new marketplace has its id and 0 pages |
| Marketplaces.Marketplace.FindNumberOfPages | src/models/marketplace.py:33-64 | the two unchained `if`s compute the page count (1 without a strip, else the strip's count). On an exception the error escapes and `number_of_pages` keeps its old value |
| Marketplaces.Marketplace.InsertIntoDb | src/models/marketplace.py:66-76 | INSERT OR REPLACE on the key `id`: the table gains the id and keeps every other id |
| Marketplaces.InsertTwice | src/models/marketplace.py:71-74 | inserting the same marketplace twice leaves the table as one insert does, and other ids are untouched |
| Items.ItemTable.InsertItem | src/models/item.py:11-21 | the insert commits exactly when the table has every column the statement names. On success the asin's row is replaced by (name, listing URL, now) and every other row stays; on failure the table is unchanged |
| Items.ScraperSchemaRejectsInsert | src/main.py:205-212 | the item table the marketplace scraper creates lacks `last_found_date`, so `insert_into_db` never commits against it |
| Scraper.BaseUrl | src/main.py:155 | the search address of a marketplace: "https://www.amazon.com/s?&me=" followed by its id, as in src/storefront.py:102 |
| Scraper.Truncated | src/main.py:180 | `href.split('/ref')[0]` is the href up to its first "/ref": a prefix of it, and no "/ref" of the href starts inside it. If the href contains "/ref", one starts right after it; otherwise it is the whole href |
| Scraper.ListingUrl | src/main.py:181 | the host followed by the truncated href up to its first "`/" and then its first "\">"; stated by `ListingUrlIsHrefPrefix`, `ListingUrlWhole` and `ListingUrlKeepsAsin` |
| Scraper.ItemName | src/main.py:182 | the truncated href up to "`/", without its slashes, up to its first "dp", dashes turned into spaces; stated by `NameIsCutAtDp` and `DeleteSlashes` |
| Scraper.ExtractItem | src/main.py:179-185 | one result link becomes `Item(name, asin, listing_url)` from its truncated href, or IndexError when that has no "/dp/"; the same extraction as src/storefront.py:140-145. Stated by `ExtractItemFails`, `AsinFollowsMarker`, `NameIsCutAtDp`, `ListingUrlIsHrefPrefix` and `WorkedExample` |
| Scraper.ExtractItemFails | src/main.py:183 | extraction fails exactly when the truncated href has no "/dp/", and the failure is IndexError |
| Scraper.MissingMarkerRaises | src/main.py:183 | an href without "/dp/" is not skipped: it raises IndexError |
| Scraper.ListingUrlIsHrefPrefix | src/main.py:180-181 | the listing URL is the host followed by a prefix of the truncated href, which contains no "/ref" |
| Scraper.ListingUrlWhole | src/main.py:181 | with neither "`/" nor "\">" in the truncated href, the listing URL is the host followed by all of it |
| Scraper.ListingUrlKeepsAsin | src/main.py:181-183 | in that case the listing URL still contains "/dp/" followed by the asin |
| Scraper.NameIsCutAtDp | src/main.py:182 | the name has no '/' and no '-', and never contains "dp": a product name containing "dp" is cut there |
| Scraper.AsinFollowsMarker | src/main.py:183 | the asin is the text right after the first "/dp/" of the truncated href, up to the next '/' or the end |
| Scraper.DeleteSlashes | src/main.py:182 | deleting the slashes of "/words/dp/id" gives "wordsdpid" when neither part has a slash |
| Scraper.WorkedExample | src/main.py:179-185 | "/Some-Product-Name/dp/B000123456/ref=sr_1_1" gives the name "Some Product Name", the asin "B000123456" and the URL "https://amazon.com/Some-Product-Name/dp/B000123456" |
| Scraper.PageUrl | src/main.py:171 | the address of page n: the base URL, "&page=" and `str(n)`; `PageUrlsDistinct` states that different pages get different addresses |
| Scraper.PageUrls | src/main.py:162-171 | the addresses requested are `baseURL + "&page=" + str(n)` for n = 1..number_of_pages in ascending order, and none when the count is at most 0 |
| Scraper.Fetched | src/main.py:172-175 | page i's hrefs are what the fetch of address i returns |
| Scraper.ScrapeLinks | src/main.py:178-185 | the `for` loop over a page's links appends the links' items in link order, or stops with the first link's error |
| Scraper.ScrapePages | src/main.py:162-189 | the `while` loop returns the items of all pages in page order and link order, or the first error. It requests a prefix of the page addresses, and all of them when it succeeds |
| Scraper.ExtractPage | src/main.py:178-185 | the `for` loop over one page's links as a value: the links' items in order, or the first link's error; stated by `ExtractPageAppend`, `ExtractPageSucceeds` and `ExtractPageItems`, and computed by `ScrapeLinks` |
| Scraper.ExtractPages | src/main.py:165-187 | the pages' runs one after the other: all items in page order, or the first error; stated by `PagesAreConcatenated` and `ScrapedItemsFollowLinks`, and computed by `ScrapePages` |
| Scraper.ExtractPageAppend | src/main.py:178-185 | running over two runs of links is running over the first, then over the second |
| Scraper.PagesAreConcatenated | src/main.py:163-189 | page boundaries do not matter: the result is that of one run over all links of all pages in order |
| Scraper.ExtractPageSucceeds | src/main.py:178-185 | a page's run succeeds exactly when every link's extraction does |
| Scraper.ExtractPageItems | src/main.py:178-185 | a successful run has one item per link, the i-th item coming from the i-th link |
| Scraper.ScrapedItemsFollowLinks | src/main.py:163-189 | a scrape succeeds exactly when every link of every page extracts. Its list then has one item per link, the i-th from the i-th link in page order |
| Scraper.NoPagesNoRequests | src/main.py:162-165 | a count of at most 0 requests nothing and returns no items |
| Scraper.PageUrlsDistinct | src/main.py:165-171 | different pages have different addresses, so each page is requested once |
| Scraper.ScrapeMarketplaceItems | src/main.py:155-189 | a page-count exception aborts before any request and leaves `number_of_pages` unchanged. Otherwise the count is stored and pages 1..count are scraped |
| Storefront.FindStorefrontPages | src/storefront.py:105-120 | the count is the strip's count when it can be read. A missing strip, a missing link or a non-integer cell leaves 0 |
| Storefront.ScrapeStorefront | src/storefront.py:102-147 | pages 1..count are scraped as in the marketplace scraper; an unreadable count means no request and no items |
| MarketplaceItems.Upsert | src/models/marketplaceItem.py:28-33 | one execution of the upsert: a new (marketplace uuid, asin) pair gets first_seen = last_seen = now; an existing one keeps first_seen and gets last_seen = now |
| MarketplaceItems.UpsertAll | src/models/marketplaceItem.py:34-36 | one upsert per item, in item order, all with the same date; stated by `UpsertAllAt`, `CreateIdempotent`, `SameAsinsSameTable` and `CreateKeepsChronological` |
| MarketplaceItems.UpsertAllAt | src/models/marketplaceItem.py:27-37 | after `create`, a pair of this marketplace with a listed asin has last_seen = now, and first_seen is kept (or is now for a new pair). Every other row is unchanged and no other row appears |
| MarketplaceItems.CreateIdempotent | src/models/marketplaceItem.py:31-36 | a second `create` with the same items and date changes nothing |
| MarketplaceItems.SameAsinsSameTable | src/models/marketplaceItem.py:35-36 | only the set of asins matters: duplicates and order among the items make no difference |
| MarketplaceItems.CreateKeepsChronological | src/models/marketplaceItem.py:30-34 | if `now` is not earlier than any stored last_seen, first_seen <= last_seen keeps holding for every row |
| MarketplaceItems.WithoutMarketplace | src/models/marketplaceItem.py:64-69 | the rows left are exactly those of other marketplaces, with their values |
| MarketplaceItems.DeleteUndoesCreate | src/models/marketplaceItem.py:64-69 | deleting a marketplace after a `create` for it leaves what the other marketplaces had before |
| MarketplaceItems.MarketplaceItemTable.Create | src/models/marketplaceItem.py:27-37 | the loop performs one upsert per item in order, all with one date |
| MarketplaceItems.MarketplaceItemTable.Delete | src/models/marketplaceItem.py:64-69 | every row of the marketplace goes and all others stay |
| Inventories.Inserted | src/models/inventory.py:25-31 | the plain INSERT as a value: the new row on a new (id, marketplace_id) key, IntegrityError on an existing one; stated by `InsertOnce` |
| Inventories.Updated | src/models/inventory.py:45-50 | the UPDATE as a value: the matching row gets the new last_updated_date and keeps its uuid; stated by `UpdateKeepsUuids` |
| Inventories.Deleted | src/models/inventory.py:52-57 | the DELETE as a value: the table without the inventory's key; stated by `DeleteRemovesOne` and `DeleteUndoesInsert` |
| Inventories.InsertOnce | src/models/inventory.py:25-31 | an insert succeeds exactly on a new (id, marketplace_id) key and adds exactly that row. On an existing key it raises IntegrityError, so inserting twice fails |
| Inventories.UpdateKeepsUuids | src/models/inventory.py:45-50 | `update` keeps the keys and every uuid and changes only the matching row's date; with no matching row nothing changes |
| Inventories.DeleteUndoesInsert | src/models/inventory.py:52-57 | deleting an inventory right after inserting it restores the table |
| Inventories.DeleteRemovesOne | src/models/inventory.py:52-57 | `delete` removes exactly the inventory's row |
| Inventories.InventoryTable.Create | src/models/inventory.py:25-31 | a plain INSERT: the row is added on a new key. On an existing key IntegrityError escapes and the table is unchanged |
| Inventories.InventoryTable.Update | src/models/inventory.py:45-50 | sets last_updated_date of the matching row, if any |
| Inventories.InventoryTable.Delete | src/models/inventory.py:52-57 | removes the matching row, if any |
| InventoryItems.RowsFor | src/models/inventoryItems.py:28-29 | one (inventory uuid, asin) row per item, in item order |
| InventoryItems.Matching | src/models/inventoryItems.py:32-47 | the rows the SELECT returns for a uuid, in table order; stated by `SplitByUuid`, `Partition`, `MatchingAppend` and `ReadAfterCreate` |
| InventoryItems.Remaining | src/models/inventoryItems.py:57-62 | the rows the DELETE of a uuid leaves, in table order; stated by `SplitByUuid`, `Partition` and `ReadAfterDelete` |
| InventoryItems.Partition | src/models/inventoryItems.py:57-62 | the rows selected for a uuid and the rows a delete of it leaves together make up the table, each row as often as it occurs |
| InventoryItems.SplitByUuid | src/models/inventoryItems.py:32-37 | every selected row has the uuid and no remaining row has it |
| InventoryItems.MatchingAppend | src/models/inventoryItems.py:32-47 | selecting from, and deleting from, a table grown by an append acts on each part separately |
| InventoryItems.MatchingOwnRows | src/models/inventoryItems.py:23-30 | rows that all carry the uuid are all selected and none is left by a delete |
| InventoryItems.MatchingNoRows | src/models/inventoryItems.py:32-62 | rows that carry another uuid are never selected and a delete leaves all of them |
| InventoryItems.FreshInventoryReadsItsItems | src/models/inventory.py:63-68 | a new `Inventory` draws a fresh `uuid4`, so no stored row carries it: after `create`, reading it back gives exactly the inventory's own rows |
| InventoryItems.ReadAfterCreate | src/models/inventoryItems.py:23-47 | after `create`, reading the uuid gives what it gave before plus one row per item. Creating twice lists every item twice: nothing is replaced |
| InventoryItems.ReadAfterDelete | src/models/inventoryItems.py:32-62 | after `delete`, reading the uuid finds nothing, and every other uuid reads as before |
| InventoryItems.InventoryItemsTable.Create | src/models/inventoryItems.py:23-30 | appends the inventory's rows; the row count grows by the number of items |
| InventoryItems.InventoryItemsTable.Read | src/models/inventoryItems.py:32-47 | the loop returns the matching rows in table order, or `None` rather than an empty list when there are none |
| InventoryItems.InventoryItemsTable.Delete | src/models/inventoryItems.py:57-62 | every row with the uuid goes, and the others stay in order |

## Left out

- HTTP requests and HTML parsing (`requests.get`, BeautifulSoup) are left out. The
  first page's pagination strip and each page's result-link hrefs are inputs.
- The random choice of a user agent is left out: it only affects request headers.
- SQLite connections, cursors, commits and the DDL are left out. Tables are in-memory
  collections with the keys and columns of their `CREATE TABLE` statements.
  - A SELECT is assumed to return rows in insertion order.
  - No SQLite failure is modelled other than a primary-key violation and a missing
    column.
- The command line, logging, directory creation and the CSV export of the storefront
  script are left out; they do not affect the computed results.
- Timestamps are integers (seconds). The stored text "%Y-%m-%d %H:%M:%S" orders the
  same way; its formatting is not modelled.
- The per-marketplace loop of `main` (src/main.py:53-64) is not a member of its own.
  It only calls `InsertIntoDb`, `ScrapeMarketplaceItems` and `InsertItem` in turn.
- `InventoryDAO.read` (src/models/inventory.py:33-43) is not modelled. It binds one
  parameter for two placeholders, so sqlite3 raises ProgrammingError on every call.
- `MarketplaceItemDAO.read` (src/models/marketplaceItem.py:39-54) is not modelled. It
  unpacks each four-column row into two names, so it raises ValueError as soon as a
  row matches; with no matching row it returns None.
- `MarketplaceItemDAO.create` reads `marketplace.uuid`, which `Marketplace` never
  defines. The model takes that uuid as a parameter instead of raising
  AttributeError.
- `int()` here accepts an optional sign and ASCII digits only. Underscores between
  digits and non-ASCII digits are not accepted.
- An anchor without an href (`get('href')` giving None) is not modelled: every href
  is a string.
- PyBuiltins.SplitSecond: its contract states only when it raises. The value it
  returns is pinned down by `SplitSecondThenSlash`, which is all the code uses of it.
