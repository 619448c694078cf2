/** The stock list of the page: the module-level `stockItems` array, the
    storage key it is saved under, and the three operations that change it
    (the add-form submit handler, `updateItem` and `deleteItem`). */
module StockStore {
  import opened Text
  import opened StockItems

  /** The item the add handler appends keeps a well-formed list well formed:
      its name is the trimmed raw name and its id is at least 1. */
  lemma AddKeepsWellFormed(items: seq<Item>, rawName: string, x: Item)
    requires x.name == Trim(rawName) && ValidInput(x.name, Some(x.quantity), Some(x.price))
    requires !NameTaken(items, x.name) && x.id == NextId(items)
    ensures WellFormed(items) ==> WellFormed(items + [x])
  {
    if WellFormed(items) {
      if |items| > 0 {
        assert items[0].id >= 1;
      }
      AppendKeepsWellFormed(items, x);
    }
  }

  class Store {
    /** The in-memory list, in insertion order. */
    var items: seq<Item>
    /** What the storage key currently holds. */
    ghost var persisted: Blob
    /** How many times the list has been written to storage since the load. */
    ghost var saves: nat

    /** The list satisfies its invariant. */
    ghost predicate Valid()
      reads this`items
    {
      WellFormed(items)
    }

    /** Reloading the page now would give back the in-memory list. */
    ghost predicate Synced()
      reads this`items, this`persisted
    {
      LoadedItems(persisted) == items
    }

    /** The page load: the list becomes the stored list, or the empty list
        when the key is missing or its value is not valid JSON. A list that an
        earlier save wrote from a valid store is valid again. */
    constructor Load(stored: Blob)
      ensures items == LoadedItems(stored) && persisted == stored && saves == 0
      ensures Synced()
      ensures stored.Stored? && WellFormed(stored.items) ==> Valid()
      ensures !stored.Stored? ==> items == [] && Valid()
    {
      items := LoadedItems(stored);
      persisted := stored;
      saves := 0;
    }

    /** Writes the whole list to the storage key, replacing what it held. */
    ghost method Save()
      modifies this`persisted, this`saves
      ensures persisted == Stored(items) && saves == old(saves) + 1
    {
      persisted := Stored(items);
      saves := saves + 1;
    }

    /** The add-form submit handler, given the raw name and the parsed
        quantity and price (`None` where the parse gave NaN). It rejects
        invalid input, then a name already present ignoring case; otherwise it
        appends an item with the trimmed name and the next id, and saves. */
    method Add(rawName: string, quantity: Option<int>, price: Option<int>) returns (r: Outcome)
      modifies this`items, this`persisted, this`saves
      ensures r == (if !ValidInput(Trim(rawName), quantity, price) then ValidationError
                    else if NameTaken(old(items), Trim(rawName)) then DuplicateName
                    else Ok)
      ensures r != Ok ==> items == old(items) && persisted == old(persisted) && saves == old(saves)
      ensures r == Ok ==>
        && items == old(items) + [Item(NextId(old(items)), Trim(rawName), quantity.value, price.value)]
        && persisted == Stored(items) && saves == old(saves) + 1
      ensures old(Synced()) ==> Synced()
      ensures old(Valid()) ==> Valid()
    {
      var name := Trim(rawName);
      if name == [] || quantity.None? || quantity.value < 0 || price.None? || price.value < 0 {
        r := ValidationError;
      } else if NameTaken(items, name) {
        r := DuplicateName;
      } else {
        var newItem := Item(NextId(items), name, quantity.value, price.value);
        AddKeepsWellFormed(items, rawName, newItem);
        items := items + [newItem];
        Save();
        r := Ok;
      }
    }

    /** `updateItem(id, newQuantity, newPrice)`: overwrites the quantity
        and/or the price of the first item with `id` (`None` leaves a field
        as it is) and saves, or reports that no item has `id`. The row
        buttons check that a new value is not negative before calling. */
    method Update(id: int, newQuantity: Option<int>, newPrice: Option<int>) returns (r: Outcome)
      requires newQuantity.Some? ==> newQuantity.value >= 0
      requires newPrice.Some? ==> newPrice.value >= 0
      modifies this`items, this`persisted, this`saves
      ensures r == Ok || r == NotFound
      ensures r == Ok <==> HasId(old(items), id)
      ensures r == NotFound ==> items == old(items) && persisted == old(persisted) && saves == old(saves)
      ensures r == Ok ==>
        var k := IndexOf(old(items), id);
        && |items| == |old(items)|
        && (forall i :: 0 <= i < |items| && i != k ==> items[i] == old(items)[i])
        && items[k].id == id && items[k].name == old(items)[k].name
        && items[k].quantity == (if newQuantity.Some? then newQuantity.value else old(items)[k].quantity)
        && items[k].price == (if newPrice.Some? then newPrice.value else old(items)[k].price)
        && persisted == Stored(items) && saves == old(saves) + 1
      ensures old(Synced()) ==> Synced()
      ensures old(Valid()) ==> Valid()
    {
      var itemIndex := IndexOf(items, id);
      if itemIndex > -1 {
        var item := items[itemIndex];
        if newQuantity.Some? {
          item := item.(quantity := newQuantity.value);
        }
        if newPrice.Some? {
          item := item.(price := newPrice.value);
        }
        if WellFormed(items) {
          ReviseKeepsWellFormed(items, itemIndex, item.quantity, item.price);
        }
        items := items[itemIndex := item];
        Save();
        r := Ok;
      } else {
        r := NotFound;
      }
    }

    /** `deleteItem(id)`: keeps the items whose id differs from `id`, in
        their order, and tells success from not-found by whether the list
        became shorter; only a success saves. */
    method Delete(id: int) returns (r: Outcome)
      modifies this`items, this`persisted, this`saves
      ensures r == Ok || r == NotFound
      ensures r == Ok <==> HasId(old(items), id)
      ensures r == Ok <==> |items| < |old(items)|
      ensures items == Without(old(items), id)
      ensures r == NotFound ==> items == old(items) && persisted == old(persisted) && saves == old(saves)
      ensures r == Ok ==> persisted == Stored(items) && saves == old(saves) + 1
      ensures old(Synced()) ==> Synced()
      ensures old(Valid()) ==> Valid()
    {
      var initialLength := |items|;
      if WellFormed(items) {
        WithoutKeepsWellFormed(items, id);
      }
      items := Without(items, id);
      if |items| < initialLength {
        Save();
        r := Ok;
      } else {
        r := NotFound;
      }
    }
  }

  /** Loading the page again from what the storage key holds gives back the
      list in memory, at any point after the first load: right after a save,
      and also after a refused operation. */
  method Reload(s: Store, stored: Blob) returns (t: Store)
    requires s.Synced() && stored == s.persisted
    ensures fresh(t) && t.items == s.items && t.persisted == s.persisted
  {
    t := new Store.Load(stored);
  }

  /** Adding to an empty list gives the item id 1. */
  method AddToEmpty(name: string)
    requires name != [] && IsTrimmed(name)
  {
    TrimOfTrimmed(name);
    var s := new Store.Load(Absent);
    var r := s.Add(name, Some(10), Some(250));
    assert r == Ok && s.items == [Item(1, name, 10, 250)];
  }

  /** A name equal to a present one in another case is refused and changes
      nothing. */
  method AddDuplicateIgnoringCase(name: string, other: string)
    requires other != [] && IsTrimmed(other) && SameIgnoringCase(name, other)
  {
    TrimOfTrimmed(other);
    var s := new Store.Load(Stored([Item(1, name, 10, 250)]));
    var r := s.Add(other, Some(3), Some(100));
    assert SameIgnoringCase(s.items[0].name, other);
    NameTakenIff(s.items, other);
    assert r == DuplicateName && s.items == [Item(1, name, 10, 250)];
  }

  /** With ids 1 and 3 present the next item gets id 4. */
  method AddAfterGap(a: Item, b: Item, name: string)
    requires a.id == 1 && b.id == 3
    requires name != [] && IsTrimmed(name)
    requires !SameIgnoringCase(a.name, name) && !SameIgnoringCase(b.name, name)
  {
    TrimOfTrimmed(name);
    NameTakenIff([a, b], name);
    var s := new Store.Load(Stored([a, b]));
    var r := s.Add(name, Some(1), Some(99));
    assert r == Ok && s.items[2].id == 4;
  }

  /** Updating only the quantity leaves the price; an absent id is refused,
      as is a negative quantity on add, and neither changes the list. */
  method UpdateAndRejections(x: Item)
    requires x.id == 1 && x.quantity == 5
  {
    var s := new Store.Load(Stored([x]));
    var r := s.Update(1, Some(9), None);
    assert r == Ok && s.items[0].quantity == 9 && s.items[0].price == x.price;
    var before := s.items;
    r := s.Update(99, Some(9), None);
    assert r == NotFound && s.items == before;
    r := s.Add("X", Some(-1), Some(500));
    assert r == ValidationError && s.items == before;
    r := s.Delete(99);
    assert r == NotFound && s.items == before;
  }

  /** Ids are not reserved: deleting the item with the largest id and adding
      another gives the new item that same id again. */
  method IdReusedAfterDeletingLast(a: Item, b: Item, name: string)
    requires a.id == 1 && b.id == 2
    requires name != [] && IsTrimmed(name) && !SameIgnoringCase(a.name, name)
  {
    TrimOfTrimmed(name);
    var s := new Store.Load(Stored([a, b]));
    var r := s.Delete(2);
    assert [a, b] == [a] + [b];
    WithoutConcat([a], [b], 2);
    assert r == Ok && s.items == [a];
    r := s.Add(name, Some(1), Some(99));
    assert r == Ok && s.items[1].id == b.id;
  }
}
