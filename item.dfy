/** A scraped catalog item and the `item` table it is written to. */
module Items {

  /** One listing taken from a result page: `Item(name, asin, listing_url)` in the
      marketplace scraper, the dict with keys 'item_name', 'asin' and 'url' in the
      storefront script. Its fields are set once, at construction. */
  datatype Item = Item(name: string, asin: string, listingUrl: string)

  /** A row of the `item` table other than its key `asin`. */
  datatype ItemRow = ItemRow(name: string, listingUrl: string, lastFoundDate: int)

  /** The columns `insert_into_db` writes. */
  const InsertColumns: set<string> := {"asin", "name", "listing_url", "last_found_date"}

  /** The columns of the `item` table that the marketplace scraper creates:
      it has no `last_found_date`. */
  const ScraperSchema: set<string> := {"asin", "name", "listing_url"}

  /** The `item` table, keyed by `asin`. */
  class ItemTable {
    const columns: set<string>
    var rows: map<string, ItemRow>

    constructor (columns: set<string>, existing: map<string, ItemRow>)
      ensures this.columns == columns && rows == existing
    {
      this.columns := columns;
      rows := existing;
    }

    /** `Item.insert_into_db`: INSERT OR REPLACE on `asin`, stamped with the time of
        the call. A statement naming a column the table lacks fails; every failure
        is caught and logged, nothing is committed and the table stays as it was. */
    method InsertItem(item: Item, now: int) returns (committed: bool)
      modifies this`rows
      ensures committed <==> InsertColumns <= columns
      ensures committed ==> rows == old(rows)[item.asin := ItemRow(item.name, item.listingUrl, now)]
      ensures !committed ==> rows == old(rows)
    {
      committed := InsertColumns <= columns;
      if committed {
        rows := rows[item.asin := ItemRow(item.name, item.listingUrl, now)];
      }
    }
  }

  /** Against the schema the marketplace scraper creates, inserting an item never
      commits: `last_found_date` is not a column of that table. */
  lemma ScraperSchemaRejectsInsert()
    ensures !(InsertColumns <= ScraperSchema)
  {
    assert "last_found_date" in InsertColumns && "last_found_date" !in ScraperSchema;
  }
}
