/** The `inventory` table: one row per (id, marketplace_id), saying when that
    inventory was last updated and under which uuid its items are filed. */
module Inventories {
  import opened PyBuiltins
  import opened Items

  /** An inventory: its fields as passed to the constructor, plus the uuid the
      constructor draws with `uuid4`, which here is the `uuid` argument. */
  datatype Inventory = Inventory(id: string, items: seq<Item>, lastUpdatedDate: int, marketplaceId: string, uuid: string)

  /** The primary key (id, marketplace_id). */
  type Key = (string, string)

  /** The rest of a row. */
  datatype InventoryRow = InventoryRow(lastUpdatedDate: int, uuid: string)

  function KeyOf(inventory: Inventory): Key
  {
    (inventory.id, inventory.marketplaceId)
  }

  /** `create`: a plain INSERT. A key already in the table violates the primary key,
      sqlite3 raises IntegrityError, and nothing is committed. */
  function Inserted(rows: map<Key, InventoryRow>, inventory: Inventory): Result<map<Key, InventoryRow>, PyError>
  {
    if KeyOf(inventory) in rows then Err(IntegrityError)
    else Ok(rows[KeyOf(inventory) := InventoryRow(inventory.lastUpdatedDate, inventory.uuid)])
  }

  /** `update`: sets last_updated_date of the row with the inventory's key; no row,
      no change. */
  function Updated(rows: map<Key, InventoryRow>, inventory: Inventory): map<Key, InventoryRow>
  {
    var k := KeyOf(inventory);
    if k in rows then rows[k := InventoryRow(inventory.lastUpdatedDate, rows[k].uuid)] else rows
  }

  /** `delete`: removes the row with the inventory's key, if there is one. */
  function Deleted(rows: map<Key, InventoryRow>, inventory: Inventory): map<Key, InventoryRow>
  {
    rows - {KeyOf(inventory)}
  }

  /** Inserting succeeds exactly on a new key; it adds that one row and changes no
      other; inserting the same inventory again then fails. */
  lemma InsertOnce(rows: map<Key, InventoryRow>, inventory: Inventory)
    ensures Inserted(rows, inventory).Ok? <==> KeyOf(inventory) !in rows
    ensures Inserted(rows, inventory).Err? ==> Inserted(rows, inventory).error == IntegrityError
    ensures Inserted(rows, inventory).Ok? ==>
      var r := Inserted(rows, inventory).value;
      r.Keys == rows.Keys + {KeyOf(inventory)}
      && r[KeyOf(inventory)] == InventoryRow(inventory.lastUpdatedDate, inventory.uuid)
      && (forall k :: k in rows ==> r[k] == rows[k])
      && Inserted(r, inventory) == Err(IntegrityError)
  {
  }

  /** Updating keeps the keys and every uuid, and changes the date of at most the
      inventory's own row. */
  lemma UpdateKeepsUuids(rows: map<Key, InventoryRow>, inventory: Inventory)
    ensures var r := Updated(rows, inventory);
      r.Keys == rows.Keys
      && (forall k :: k in rows ==> r[k].uuid == rows[k].uuid)
      && (forall k :: k in rows && k != KeyOf(inventory) ==> r[k] == rows[k])
      && (KeyOf(inventory) in rows ==> r[KeyOf(inventory)].lastUpdatedDate == inventory.lastUpdatedDate)
  {
  }

  /** Deleting an inventory right after inserting it restores the table. */
  lemma DeleteUndoesInsert(rows: map<Key, InventoryRow>, inventory: Inventory)
    requires Inserted(rows, inventory).Ok?
    ensures Deleted(Inserted(rows, inventory).value, inventory) == rows
  {
    var r := Inserted(rows, inventory).value;
    assert Deleted(r, inventory).Keys == rows.Keys;
  }

  /** Deleting removes exactly the inventory's row. */
  lemma DeleteRemovesOne(rows: map<Key, InventoryRow>, inventory: Inventory)
    ensures var r := Deleted(rows, inventory);
      KeyOf(inventory) !in r
      && (forall k :: k != KeyOf(inventory) ==> (k in r <==> k in rows))
      && (forall k :: k in r ==> r[k] == rows[k])
  {
  }

  /** `InventoryDAO` over its table. */
  class InventoryTable {
    var rows: map<Key, InventoryRow>

    constructor (existing: map<Key, InventoryRow>)
      ensures rows == existing
    {
      rows := existing;
    }

    method Create(inventory: Inventory) returns (outcome: Outcome<PyError>)
      modifies this
      ensures Inserted(old(rows), inventory).Ok? ==> outcome == Pass && rows == Inserted(old(rows), inventory).value
      ensures Inserted(old(rows), inventory).Err? ==> outcome == Fail(Inserted(old(rows), inventory).error) && rows == old(rows)
    {
      var key := (inventory.id, inventory.marketplaceId);
      if key in rows {
        return Fail(IntegrityError);
      }
      rows := rows[key := InventoryRow(inventory.lastUpdatedDate, inventory.uuid)];
      outcome := Pass;
    }

    method Update(inventory: Inventory)
      modifies this
      ensures rows == Updated(old(rows), inventory)
    {
      var key := (inventory.id, inventory.marketplaceId);
      if key in rows {
        rows := rows[key := rows[key].(lastUpdatedDate := inventory.lastUpdatedDate)];
      }
    }

    method Delete(inventory: Inventory)
      modifies this
      ensures rows == Deleted(old(rows), inventory)
    {
      rows := rows - {(inventory.id, inventory.marketplaceId)};
    }
  }
}
