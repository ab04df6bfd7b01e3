/** The C++ item manager: items shared by pointer in a vector, appended to and
    searched by ID. */
module ItemManagement {

  /** An immutable item; managers hold references to it (shared_ptr). */
  class Item {
    const id: int
    const name: string

    constructor (id: int, name: string)
      ensures GetId() == id && GetName() == name
    {
      this.id := id;
      this.name := name;
    }

    function GetId(): int { id }

    function GetName(): string { name }
  }

  /** std::find_if over the items with predicate "getId() == id": the
      position of the first match, or |items| (the end iterator) when none. */
  function FindIf(items: seq<Item>, id: int): (pos: nat)
    ensures pos <= |items|
    ensures forall j :: 0 <= j < pos ==> items[j].GetId() != id
    ensures pos < |items| ==> items[pos].GetId() == id
    decreases |items|
  {
    if items == [] then 0
    else if items[0].GetId() == id then 0
    else 1 + FindIf(items[1..], id)
  }

  class ItemManager {
    var items: seq<Item>

    constructor ()
      ensures items == []
    {
      items := [];
    }

    /** push_back. */
    method AddItem(item: Item)
      modifies this
      ensures items == old(items) + [item]
      ensures |items| == |old(items)| + 1 && items[..|old(items)|] == old(items)
    {
      items := items + [item];
    }

    /** The first item, in insertion order, whose ID is `id` (the very object
        that was added), or null when no item has that ID. */
    function FindItemById(id: int): (found: Item?)
      reads this
      ensures found == null <==> forall k :: 0 <= k < |items| ==> items[k].GetId() != id
      ensures found != null ==>
        exists k :: 0 <= k < |items| && items[k] == found && found.GetId() == id &&
          forall j :: 0 <= j < k ==> items[j].GetId() != id
    {
      var pos := FindIf(items, id);
      if pos < |items| then items[pos] else null
    }
  }

  /** main: add items 1, 2, 3 named Item1, Item2, Item3; looking up 2 finds
      the item named Item2. */
  method Demo() returns (found: Item?)
    ensures found != null && found.GetId() == 2 && found.GetName() == "Item2"
  {
    var manager := new ItemManager();
    var one := new Item(1, "Item1");
    manager.AddItem(one);
    var two := new Item(2, "Item2");
    manager.AddItem(two);
    var three := new Item(3, "Item3");
    manager.AddItem(three);
    found := manager.FindItemById(2);
    assert manager.items[1] == two;
  }
}
