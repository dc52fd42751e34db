/** The `inventory_items` table: the asins filed under each inventory uuid. It has
    no primary or unique key, so `INSERT OR REPLACE` never replaces anything and the
    table is a list of rows in insertion order, duplicates allowed. */
module InventoryItems {
  import opened PyBuiltins
  import opened Items
  import opened Inventories

  datatype InventoryItem = InventoryItem(inventoryUuid: string, itemAsin: string)

  /** The rows `create` adds for an inventory: one per item, in item order. */
  function RowsFor(inventory: Inventory): (r: seq<InventoryItem>)
    ensures |r| == |inventory.items|
    ensures forall i :: 0 <= i < |r| ==> r[i] == InventoryItem(inventory.uuid, inventory.items[i].asin)
  {
    seq(|inventory.items|, i requires 0 <= i < |inventory.items| => InventoryItem(inventory.uuid, inventory.items[i].asin))
  }

  /** The rows with the given inventory uuid, in table order: the result of the SELECT. */
  function Matching(rows: seq<InventoryItem>, inventoryUuid: string): seq<InventoryItem>
  {
    if rows == [] then []
    else
      var last := rows[|rows| - 1];
      Matching(rows[..|rows| - 1], inventoryUuid) + (if last.inventoryUuid == inventoryUuid then [last] else [])
  }

  /** The rows with any other inventory uuid, in table order: what the DELETE leaves. */
  function Remaining(rows: seq<InventoryItem>, inventoryUuid: string): seq<InventoryItem>
  {
    if rows == [] then []
    else
      var last := rows[|rows| - 1];
      Remaining(rows[..|rows| - 1], inventoryUuid) + (if last.inventoryUuid != inventoryUuid then [last] else [])
  }

  /** The selected rows and the remaining rows split the table: together they are
      all of its rows, each as often as it occurs. */
  lemma {:induction false} Partition(rows: seq<InventoryItem>, inventoryUuid: string)
    ensures multiset(Matching(rows, inventoryUuid)) + multiset(Remaining(rows, inventoryUuid)) == multiset(rows)
  {
    if rows != [] {
      var init := rows[..|rows| - 1];
      var last := rows[|rows| - 1];
      Partition(init, inventoryUuid);
      assert rows == init + [last];
      assert multiset(rows) == multiset(init) + multiset{last};
    }
  }

  /** Every selected row has the uuid and no remaining row has it. */
  lemma {:induction false} SplitByUuid(rows: seq<InventoryItem>, inventoryUuid: string)
    ensures forall x :: x in Matching(rows, inventoryUuid) ==> x.inventoryUuid == inventoryUuid
    ensures forall x :: x in Remaining(rows, inventoryUuid) ==> x.inventoryUuid != inventoryUuid
  {
    if rows != [] {
      SplitByUuid(rows[..|rows| - 1], inventoryUuid);
    }
  }

  /** Selecting from a table grown by an append selects from each part. */
  lemma {:induction false} MatchingAppend(a: seq<InventoryItem>, b: seq<InventoryItem>, inventoryUuid: string)
    ensures Matching(a + b, inventoryUuid) == Matching(a, inventoryUuid) + Matching(b, inventoryUuid)
    ensures Remaining(a + b, inventoryUuid) == Remaining(a, inventoryUuid) + Remaining(b, inventoryUuid)
    decreases |b|
  {
    if b != [] {
      var init := b[..|b| - 1];
      assert (a + b)[..|a + b| - 1] == a + init;
      assert (a + b)[|a + b| - 1] == b[|b| - 1];
      MatchingAppend(a, init, inventoryUuid);
    } else {
      assert a + b == a;
    }
  }

  /** All of an inventory's rows have its uuid. */
  lemma {:induction false} MatchingOwnRows(rows: seq<InventoryItem>, inventoryUuid: string)
    requires forall i :: 0 <= i < |rows| ==> rows[i].inventoryUuid == inventoryUuid
    ensures Matching(rows, inventoryUuid) == rows
    ensures Remaining(rows, inventoryUuid) == []
  {
    if rows != [] {
      MatchingOwnRows(rows[..|rows| - 1], inventoryUuid);
      assert rows == rows[..|rows| - 1] + [rows[|rows| - 1]];
    }
  }

  /** Rows none of which has the uuid: nothing is selected and a delete leaves them all. */
  lemma {:induction false} MatchingNoRows(rows: seq<InventoryItem>, inventoryUuid: string)
    requires forall i :: 0 <= i < |rows| ==> rows[i].inventoryUuid != inventoryUuid
    ensures Matching(rows, inventoryUuid) == []
    ensures Remaining(rows, inventoryUuid) == rows
  {
    if rows != [] {
      MatchingNoRows(rows[..|rows| - 1], inventoryUuid);
      assert rows == rows[..|rows| - 1] + [rows[|rows| - 1]];
    }
  }

  /** A new `Inventory` draws its uuid with `uuid4`, so no stored row carries it: after
      `create`, reading that uuid gives exactly the inventory's own rows. */
  lemma FreshInventoryReadsItsItems(rows: seq<InventoryItem>, inventory: Inventory)
    requires forall i :: 0 <= i < |rows| ==> rows[i].inventoryUuid != inventory.uuid
    ensures Matching(rows + RowsFor(inventory), inventory.uuid) == RowsFor(inventory)
  {
    MatchingNoRows(rows, inventory.uuid);
    ReadAfterCreate(rows, inventory);
    assert [] + RowsFor(inventory) == RowsFor(inventory);
  }

  /** After `create`, reading the inventory's uuid gives what it gave before followed by
      one row per item; creating it twice lists every item twice. */
  lemma ReadAfterCreate(rows: seq<InventoryItem>, inventory: Inventory)
    ensures Matching(rows + RowsFor(inventory), inventory.uuid) == Matching(rows, inventory.uuid) + RowsFor(inventory)
    ensures Matching(rows + RowsFor(inventory) + RowsFor(inventory), inventory.uuid)
         == Matching(rows, inventory.uuid) + RowsFor(inventory) + RowsFor(inventory)
  {
    MatchingAppend(rows, RowsFor(inventory), inventory.uuid);
    MatchingOwnRows(RowsFor(inventory), inventory.uuid);
    MatchingAppend(rows + RowsFor(inventory), RowsFor(inventory), inventory.uuid);
  }

  /** After `delete`, reading the uuid finds nothing, and the other inventories'
      rows are still there in the same order. */
  lemma {:induction false} ReadAfterDelete(rows: seq<InventoryItem>, inventoryUuid: string, other: string)
    requires other != inventoryUuid
    ensures Matching(Remaining(rows, inventoryUuid), inventoryUuid) == []
    ensures Matching(Remaining(rows, inventoryUuid), other) == Matching(rows, other)
  {
    if rows != [] {
      var init := rows[..|rows| - 1];
      var last := rows[|rows| - 1];
      ReadAfterDelete(init, inventoryUuid, other);
      if last.inventoryUuid != inventoryUuid {
        MatchingAppend(Remaining(init, inventoryUuid), [last], inventoryUuid);
        MatchingAppend(Remaining(init, inventoryUuid), [last], other);
      } else {
        assert Remaining(rows, inventoryUuid) == Remaining(init, inventoryUuid);
      }
    }
  }

  /** `InventoryItemsDAO` over its table. */
  class InventoryItemsTable {
    var rows: seq<InventoryItem>

    constructor (existing: seq<InventoryItem>)
      ensures rows == existing
    {
      rows := existing;
    }

    /** `create`: one (uuid, asin) row per item, appended in item order. */
    method Create(inventory: Inventory)
      modifies this
      ensures rows == old(rows) + RowsFor(inventory)
      ensures |rows| == |old(rows)| + |inventory.items|
    {
      for i := 0 to |inventory.items|
        invariant rows == old(rows) + RowsFor(inventory)[..i]
      {
        assert RowsFor(inventory)[..i + 1] == RowsFor(inventory)[..i] + [RowsFor(inventory)[i]];
        rows := rows + [InventoryItem(inventory.uuid, inventory.items[i].asin)];
      }
      assert RowsFor(inventory)[..|inventory.items|] == RowsFor(inventory);
    }

    /** `read`: the rows with the uuid, in table order, or `None` (not an empty list)
        when there are none. */
    method Read(inventoryUuid: string) returns (r: Option<seq<InventoryItem>>)
      ensures r.None? <==> Matching(rows, inventoryUuid) == []
      ensures r.Some? ==> r.value == Matching(rows, inventoryUuid)
    {
      var found: seq<InventoryItem> := [];
      for i := 0 to |rows|
        invariant found == Matching(rows[..i], inventoryUuid)
      {
        assert rows[..i + 1][..i] == rows[..i];
        if rows[i].inventoryUuid == inventoryUuid {
          found := found + [rows[i]];
        }
      }
      assert rows[..|rows|] == rows;
      if found == [] {
        return None;
      }
      return Some(found);
    }

    /** `delete`: every row with the uuid goes, the others stay in order. */
    method Delete(inventoryUuid: string)
      modifies this
      ensures rows == Remaining(old(rows), inventoryUuid)
    {
      rows := Remaining(rows, inventoryUuid);
    }
  }
}
