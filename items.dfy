/** The in-memory item store of 002-original.go: a map from ID to item and the
    next ID to hand out. The mutex is left out: each operation is one atomic
    step. */
module Items {

  /** Go's float64 price; the store only copies it, so it stays opaque. */
  type Price = real

  datatype Item = Item(id: int, name: string, price: Price)

  /** `Item{}`: Go's zero value. */
  const ZeroItem: Item := Item(0, "", 0.0)

  class ItemStore {
    var items: map<int, Item>
    var nextID: int

    /** IDs handed out so far are 1 .. nextID - 1: every key is one of them,
        and every stored item carries its own key as ID. */
    ghost predicate Valid()
      reads this
    {
      nextID >= 1 &&
      forall id :: id in items ==> 1 <= id < nextID && items[id].id == id
    }

    /** NewItemStore. */
    constructor ()
      ensures Valid()
      ensures items == map[] && nextID == 1
    {
      items := map[];
      nextID := 1;
    }

    /** Stores `item` under a new ID, ignoring the ID the caller gave. The new
        key was not in use, so no stored item is overwritten. */
    method CreateItem(item: Item) returns (created: Item)
      requires Valid()
      modifies this
      ensures Valid()
      ensures created == item.(id := old(nextID))
      ensures old(nextID) !in old(items)
      ensures nextID == old(nextID) + 1
      ensures items == old(items)[old(nextID) := created]
    {
      var stored := item.(id := nextID);
      nextID := nextID + 1;
      items := items[stored.id := stored];
      created := stored;
    }

    /** The item under `id` and whether there is one; Go's map lookup yields
        the zero Item when the key is missing. */
    method GetItem(id: int) returns (item: Item, found: bool)
      ensures found <==> id in items
      ensures found ==> item == items[id]
      ensures !found ==> item == ZeroItem
    {
      found := id in items;
      item := if found then items[id] else ZeroItem;
    }

    /** Replaces the item under an existing `id` with `updated`, forcing its ID
        to `id`; a missing `id` is reported and changes nothing. */
    method UpdateItem(id: int, updated: Item) returns (result: Item, ok: bool)
      requires Valid()
      modifies this
      ensures Valid()
      ensures ok <==> id in old(items)
      ensures !ok ==> result == ZeroItem && items == old(items)
      ensures ok ==> result == updated.(id := id) && items == old(items)[id := result]
      ensures nextID == old(nextID)
    {
      if id !in items {
        return ZeroItem, false;
      }
      var replacement := updated.(id := id);
      items := items[id := replacement];
      return replacement, true;
    }

    /** Removes the item under `id`; reports whether there was one. */
    method DeleteItem(id: int) returns (deleted: bool)
      requires Valid()
      modifies this
      ensures Valid()
      ensures deleted <==> id in old(items)
      ensures items == old(items) - {id}
      ensures !deleted ==> items == old(items)
      ensures nextID == old(nextID)
    {
      if id in items {
        items := items - {id};
        return true;
      }
      return false;
    }
  }

  /** A client run: create, read back, update, delete. */
  method StoreScenario(a: Item, b: Item, c: Item)
  {
    var store := new ItemStore();
    var first := store.CreateItem(a);
    var second := store.CreateItem(b);
    assert first.id == 1 && second.id == 2;
    var got, found := store.GetItem(1);
    assert found && got == a.(id := 1);
    var updated, ok := store.UpdateItem(2, c);
    assert ok && updated == c.(id := 2);
    var missing, ok3 := store.UpdateItem(3, c);
    assert !ok3 && missing == ZeroItem;
    var deleted := store.DeleteItem(1);
    assert deleted && store.items.Keys == {2};
    var again := store.DeleteItem(1);
    assert !again;
  }
}
