/** The `marketplace_item` table: which items a marketplace was seen listing, and
    when it was first and last seen listing each. */
module MarketplaceItems {
  import opened Items

  /** The primary key (marketplace_uuid, item_asin). */
  type Key = (string, string)

  /** The rest of a row. Dates are the seconds of a UTC timestamp; the stored text
      "%Y-%m-%d %H:%M:%S" orders like the number. */
  datatype Seen = Seen(firstSeen: int, lastSeen: int)

  /** One execution of the insert statement: a new pair gets first_seen = last_seen =
      now; on a conflict only last_seen is set. */
  function Upsert(rows: map<Key, Seen>, key: Key, now: int): map<Key, Seen>
  {
    if key in rows then rows[key := Seen(rows[key].firstSeen, now)]
    else rows[key := Seen(now, now)]
  }

  /** The statement executed for each item, in order, with one `now` for the call. */
  function UpsertAll(rows: map<Key, Seen>, marketplaceUuid: string, items: seq<Item>, now: int): map<Key, Seen>
  {
    if items == [] then rows
    else Upsert(UpsertAll(rows, marketplaceUuid, items[..|items| - 1], now), (marketplaceUuid, items[|items| - 1].asin), now)
  }

  /** Whether some item of `items` has the asin `asin`. */
  predicate Listed(items: seq<Item>, asin: string)
  {
    exists i :: 0 <= i < |items| && items[i].asin == asin
  }

  /** Row by row: a pair of this marketplace with a listed asin is present afterwards,
      keeps its first_seen if it was there (or gets `now` if it was not) and has
      last_seen `now`; every other row is exactly as it was, and no other row appears. */
  lemma {:induction false} UpsertAllAt(rows: map<Key, Seen>, marketplaceUuid: string, items: seq<Item>, now: int, k: Key)
    ensures var r := UpsertAll(rows, marketplaceUuid, items, now);
            if k.0 == marketplaceUuid && Listed(items, k.1) then
              k in r && r[k] == Seen(if k in rows then rows[k].firstSeen else now, now)
            else
              (k in r <==> k in rows) && (k in rows ==> r[k] == rows[k])
  {
    if items != [] {
      var init := items[..|items| - 1];
      UpsertAllAt(rows, marketplaceUuid, init, now, k);
      ListedLast(items, k.1);
    }
  }

  /** An asin is listed in a non-empty sequence when it is listed before the last
      item or is the last item's. */
  lemma ListedLast(items: seq<Item>, asin: string)
    requires items != []
    ensures Listed(items, asin) <==> Listed(items[..|items| - 1], asin) || items[|items| - 1].asin == asin
  {
    var init := items[..|items| - 1];
    if Listed(items, asin) {
      var i :| 0 <= i < |items| && items[i].asin == asin;
      if i < |items| - 1 {
        assert init[i] == items[i];
      }
    }
    if Listed(init, asin) {
      var i :| 0 <= i < |init| && init[i].asin == asin;
      assert items[i] == init[i];
    }
  }

  /** A second call with the same items and the same date changes nothing. */
  lemma CreateIdempotent(rows: map<Key, Seen>, marketplaceUuid: string, items: seq<Item>, now: int)
    ensures UpsertAll(UpsertAll(rows, marketplaceUuid, items, now), marketplaceUuid, items, now)
         == UpsertAll(rows, marketplaceUuid, items, now)
  {
    var once := UpsertAll(rows, marketplaceUuid, items, now);
    var twice := UpsertAll(once, marketplaceUuid, items, now);
    forall k ensures (k in twice <==> k in once) && (k in once ==> twice[k] == once[k]) {
      UpsertAllAt(rows, marketplaceUuid, items, now, k);
      UpsertAllAt(once, marketplaceUuid, items, now, k);
    }
  }

  /** Only the set of asins matters: repeated items, and their order, make no difference. */
  lemma SameAsinsSameTable(rows: map<Key, Seen>, marketplaceUuid: string, items1: seq<Item>, items2: seq<Item>, now: int)
    requires forall a :: Listed(items1, a) <==> Listed(items2, a)
    ensures UpsertAll(rows, marketplaceUuid, items1, now) == UpsertAll(rows, marketplaceUuid, items2, now)
  {
    var r1 := UpsertAll(rows, marketplaceUuid, items1, now);
    var r2 := UpsertAll(rows, marketplaceUuid, items2, now);
    forall k ensures (k in r1 <==> k in r2) && (k in r1 ==> r1[k] == r2[k]) {
      UpsertAllAt(rows, marketplaceUuid, items1, now, k);
      UpsertAllAt(rows, marketplaceUuid, items2, now, k);
    }
  }

  /** Every row was first seen no later than it was last seen. */
  predicate Chronological(rows: map<Key, Seen>)
  {
    forall k :: k in rows ==> rows[k].firstSeen <= rows[k].lastSeen
  }

  /** A call whose date is not earlier than any stored last_seen keeps the table
      chronological. */
  lemma CreateKeepsChronological(rows: map<Key, Seen>, marketplaceUuid: string, items: seq<Item>, now: int)
    requires Chronological(rows)
    requires forall k :: k in rows ==> rows[k].lastSeen <= now
    ensures Chronological(UpsertAll(rows, marketplaceUuid, items, now))
  {
    var r := UpsertAll(rows, marketplaceUuid, items, now);
    forall k | k in r ensures r[k].firstSeen <= r[k].lastSeen {
      UpsertAllAt(rows, marketplaceUuid, items, now, k);
    }
  }

  /** The table without the rows of one marketplace. */
  function WithoutMarketplace(rows: map<Key, Seen>, marketplaceUuid: string): (r: map<Key, Seen>)
    ensures forall k :: k in r <==> k in rows && k.0 != marketplaceUuid
    ensures forall k :: k in r ==> r[k] == rows[k]
  {
    map k | k in rows && k.0 != marketplaceUuid :: rows[k]
  }

  /** Deleting a marketplace's rows undoes any `create` for it: what is left is what
      was there for the other marketplaces. */
  lemma DeleteUndoesCreate(rows: map<Key, Seen>, marketplaceUuid: string, items: seq<Item>, now: int)
    ensures WithoutMarketplace(UpsertAll(rows, marketplaceUuid, items, now), marketplaceUuid)
         == WithoutMarketplace(rows, marketplaceUuid)
  {
    var a := WithoutMarketplace(UpsertAll(rows, marketplaceUuid, items, now), marketplaceUuid);
    var b := WithoutMarketplace(rows, marketplaceUuid);
    forall k ensures (k in a <==> k in b) && (k in a ==> a[k] == b[k]) {
      UpsertAllAt(rows, marketplaceUuid, items, now, k);
    }
  }

  /** `MarketplaceItemDAO` over its table. */
  class MarketplaceItemTable {
    var rows: map<Key, Seen>

    constructor (existing: map<Key, Seen>)
      ensures rows == existing
    {
      rows := existing;
    }

    /** `create`: one upsert per item, in order, all with the date taken once at the
        start of the call. */
    method Create(marketplaceUuid: string, items: seq<Item>, now: int)
      modifies this
      ensures rows == UpsertAll(old(rows), marketplaceUuid, items, now)
    {
      for i := 0 to |items|
        invariant rows == UpsertAll(old(rows), marketplaceUuid, items[..i], now)
      {
        assert items[..i + 1][..i] == items[..i];
        var key := (marketplaceUuid, items[i].asin);
        if key in rows {
          rows := rows[key := Seen(rows[key].firstSeen, now)];
        } else {
          rows := rows[key := Seen(now, now)];
        }
      }
      assert items[..|items|] == items;
    }

    /** `delete`: every row of the marketplace goes, all others stay. */
    method Delete(marketplaceUuid: string)
      modifies this
      ensures rows == WithoutMarketplace(old(rows), marketplaceUuid)
    {
      rows := map k | k in rows && k.0 != marketplaceUuid :: rows[k];
    }
  }
}
