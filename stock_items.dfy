/** The values the store holds and the array queries the store's operations
    are built from: `findIndex` by id, `some` over names ignoring case,
    `Math.max` over the ids, and `filter` by id. */
module StockItems {
  import opened Text

  datatype Option<T> = None | Some(value: T)

  /** One row of the stock list. The price is held in integer cents. */
  datatype Item = Item(id: int, name: string, quantity: int, price: int)

  /** What an operation reports to the user: the success banner or one of the
      three error banners. */
  datatype Outcome = Ok | ValidationError | DuplicateName | NotFound

  /** What the storage key holds when the page loads: nothing, a value that
      is not valid JSON, or a list written by an earlier save. */
  datatype Blob = Absent | Corrupt | Stored(items: seq<Item>)

  /** The list a page load starts from. A missing key gives the empty list; a
      corrupt value makes the parse throw before the assignment, so the list
      keeps its initial empty value. */
  function LoadedItems(b: Blob): seq<Item>
  {
    match b
    case Stored(items) => items
    case _ => []
  }

  predicate HasId(items: seq<Item>, id: int)
  {
    exists i :: 0 <= i < |items| && items[i].id == id
  }

  /** `items.findIndex(item => item.id === id)`: the first position holding
      `id`, or -1 when no item has it. */
  function IndexOf(items: seq<Item>, id: int): (k: int)
    ensures -1 <= k < |items|
    ensures k == -1 <==> !HasId(items, id)
    ensures 0 <= k ==> items[k].id == id && forall j :: 0 <= j < k ==> items[j].id != id
  {
    if |items| == 0 then -1
    else if items[0].id == id then 0
    else
      var k := IndexOf(items[1..], id);
      assert forall j :: 1 <= j < |items| ==> items[j] == items[1..][j - 1];
      if k == -1 then -1 else k + 1
  }

  /** `items.some(item => item.name.toLowerCase() === name.toLowerCase())`. */
  function NameTaken(items: seq<Item>, name: string): bool
  {
    if |items| == 0 then false
    else SameIgnoringCase(items[0].name, name) || NameTaken(items[1..], name)
  }

  /** The duplicate check holds exactly when some present name equals `name`
      ignoring case. */
  lemma {:induction false} NameTakenIff(items: seq<Item>, name: string)
    ensures NameTaken(items, name) <==> exists i :: 0 <= i < |items| && SameIgnoringCase(items[i].name, name)
  {
    if |items| > 0 {
      NameTakenIff(items[1..], name);
      assert forall j :: 1 <= j < |items| ==> items[j] == items[1..][j - 1];
    }
  }

  /** `Math.max(...items.map(item => item.id))` on a non-empty list. */
  function MaxId(items: seq<Item>): (m: int)
    requires |items| > 0
    ensures forall i :: 0 <= i < |items| ==> items[i].id <= m
    ensures exists i :: 0 <= i < |items| && items[i].id == m
  {
    if |items| == 1 then items[0].id
    else
      var m := MaxId(items[1..]);
      assert forall j :: 1 <= j < |items| ==> items[j] == items[1..][j - 1];
      if items[0].id > m then items[0].id else m
  }

  /** The id a new item receives: 1 for an empty list, otherwise one more
      than the largest id present. It exceeds every id in the list, and it is
      the least number that does whenever the list is not empty. */
  function NextId(items: seq<Item>): (id: int)
    ensures forall i :: 0 <= i < |items| ==> items[i].id < id
    ensures |items| == 0 ==> id == 1
    ensures |items| > 0 ==> exists i :: 0 <= i < |items| && items[i].id == id - 1
  {
    if |items| > 0 then MaxId(items) + 1 else 1
  }

  /** `items.filter(item => item.id !== id)`. No kept item has `id`, the
      result is shorter than `items` exactly when some item has `id`, and
      otherwise it is `items` itself. */
  function Without(items: seq<Item>, id: int): (r: seq<Item>)
    ensures forall k :: 0 <= k < |r| ==> r[k].id != id
    ensures |r| < |items| <==> HasId(items, id)
    ensures !HasId(items, id) ==> r == items
  {
    if |items| == 0 then []
    else
      assert forall j :: 1 <= j < |items| ==> items[j] == items[1..][j - 1];
      assert items == [items[0]] + items[1..];
      var rest := Without(items[1..], id);
      if items[0].id == id then rest else [items[0]] + rest
  }

  /** Filtering distributes over concatenation: the kept items stay in their
      relative order. */
  lemma {:induction false} WithoutConcat(a: seq<Item>, b: seq<Item>, id: int)
    ensures Without(a + b, id) == Without(a, id) + Without(b, id)
  {
    if |a| > 0 {
      var ab := a + b;
      assert ab[0] == a[0] && ab[1..] == a[1..] + b;
      WithoutConcat(a[1..], b, id);
      if a[0].id == id {
        assert Without(ab, id) == Without(a[1..] + b, id);
        assert Without(a, id) == Without(a[1..], id);
      } else {
        assert Without(ab, id) == [a[0]] + Without(a[1..] + b, id);
        assert Without(a, id) == [a[0]] + Without(a[1..], id);
      }
    } else {
      assert a + b == b;
    }
  }

  /** Filtering removes every copy of the items carrying `id` and keeps the
      number of copies of every other item. */
  lemma {:induction false} WithoutCounts(items: seq<Item>, id: int, x: Item)
    ensures multiset(Without(items, id))[x] == if x.id == id then 0 else multiset(items)[x]
  {
    if |items| > 0 {
      WithoutCounts(items[1..], id, x);
      assert items == [items[0]] + items[1..];
    }
  }

  /** Filtering keeps exactly the items whose id differs from `id`. */
  lemma WithoutMembers(items: seq<Item>, id: int)
    ensures forall x :: x in Without(items, id) <==> x in items && x.id != id
  {
    forall x {
      WithoutCounts(items, id, x);
    }
  }

  /** The checks of the add handler on the trimmed name and the parsed
      quantity and price: a non-empty name and numbers that parsed and are
      not negative. */
  predicate ValidInput(name: string, quantity: Option<int>, price: Option<int>)
  {
    name != [] && quantity.Some? && quantity.value >= 0 && price.Some? && price.value >= 0
  }

  /** What every item created by the add handler and changed by the update
      buttons satisfies. */
  predicate GoodItem(x: Item)
  {
    x.id >= 1 && x.name != [] && IsTrimmed(x.name) && x.quantity >= 0 && x.price >= 0
  }

  /** Ids strictly increase along the list, so no two items share one. */
  predicate IdsIncreasing(items: seq<Item>)
  {
    forall i, j :: 0 <= i < j < |items| ==> items[i].id < items[j].id
  }

  /** No two names are equal ignoring case. */
  predicate NamesDistinct(items: seq<Item>)
  {
    forall i, j :: 0 <= i < j < |items| ==> !SameIgnoringCase(items[i].name, items[j].name)
  }

  /** The invariant of the list: every item is good, ids strictly increase
      along the list and names are distinct ignoring case. */
  predicate WellFormed(items: seq<Item>)
  {
    && (forall i :: 0 <= i < |items| ==> GoodItem(items[i]))
    && IdsIncreasing(items)
    && NamesDistinct(items)
  }

  /** On a well-formed non-empty list the next id is one more than the id of
      the last item. */
  lemma NextIdAfterLast(items: seq<Item>)
    requires WellFormed(items) && |items| > 0
    ensures NextId(items) == items[|items| - 1].id + 1
  {
    var i :| 0 <= i < |items| && items[i].id == NextId(items) - 1;
    assert i == |items| - 1 || items[i].id < items[|items| - 1].id;
  }

  /** Appending a good item whose name is not taken and whose id is the next
      id keeps the list well formed. */
  lemma AppendKeepsWellFormed(items: seq<Item>, x: Item)
    requires WellFormed(items) && GoodItem(x)
    requires !NameTaken(items, x.name) && x.id == NextId(items)
    ensures WellFormed(items + [x])
  {
    var r := items + [x];
    NameTakenIff(items, x.name);
    assert forall k :: 0 <= k < |items| ==> r[k] == items[k];
    assert r[|items|] == x;
    forall i, j | 0 <= i < j < |r|
      ensures r[i].id < r[j].id && !SameIgnoringCase(r[i].name, r[j].name)
    {
      if j < |items| {
        assert r[i] == items[i] && r[j] == items[j];
      }
    }
  }

  /** Overwriting the quantity and price of one item with non-negative values
      keeps the list well formed. */
  lemma ReviseKeepsWellFormed(items: seq<Item>, k: int, quantity: int, price: int)
    requires WellFormed(items) && 0 <= k < |items|
    requires quantity >= 0 && price >= 0
    ensures WellFormed(items[k := items[k].(quantity := quantity, price := price)])
  {
  }

  /** Every id in the list exceeds `b`. */
  predicate IdsAbove(items: seq<Item>, b: int)
  {
    forall k :: 0 <= k < |items| ==> items[k].id > b
  }

  /** Filtering keeps a lower bound on the ids. */
  lemma {:induction false} WithoutKeepsIdsAbove(items: seq<Item>, id: int, b: int)
    requires IdsAbove(items, b)
    ensures IdsAbove(Without(items, id), b)
  {
    if |items| > 0 {
      WithoutKeepsIdsAbove(items[1..], id, b);
    }
  }

  /** Filtering cannot make a name taken. */
  lemma {:induction false} WithoutKeepsNameFree(items: seq<Item>, id: int, name: string)
    requires !NameTaken(items, name)
    ensures !NameTaken(Without(items, id), name)
  {
    if |items| > 0 {
      WithoutKeepsNameFree(items[1..], id, name);
      var rest := Without(items[1..], id);
      if items[0].id != id {
        assert ([items[0]] + rest)[1..] == rest;
      }
    }
  }

  /** Filtering out an id keeps ids increasing. */
  lemma {:induction false} WithoutKeepsIdsIncreasing(items: seq<Item>, id: int)
    requires IdsIncreasing(items)
    ensures IdsIncreasing(Without(items, id))
  {
    if |items| > 0 {
      var rest := Without(items[1..], id);
      WithoutKeepsIdsIncreasing(items[1..], id);
      if items[0].id != id {
        assert IdsAbove(items[1..], items[0].id);
        WithoutKeepsIdsAbove(items[1..], id, items[0].id);
        var r := [items[0]] + rest;
        forall i, j | 0 <= i < j < |r| ensures r[i].id < r[j].id {
          assert r[j] == rest[j - 1];
          if i > 0 {
            assert r[i] == rest[i - 1];
          }
        }
      }
    }
  }

  /** Filtering out an id keeps names distinct ignoring case. */
  lemma {:induction false} WithoutKeepsNamesDistinct(items: seq<Item>, id: int)
    requires NamesDistinct(items)
    ensures NamesDistinct(Without(items, id))
  {
    if |items| > 0 {
      var rest := Without(items[1..], id);
      WithoutKeepsNamesDistinct(items[1..], id);
      if items[0].id != id {
        assert forall k :: 1 <= k < |items| ==> items[k] == items[1..][k - 1];
        NameTakenIff(items[1..], items[0].name);
        WithoutKeepsNameFree(items[1..], id, items[0].name);
        NameTakenIff(rest, items[0].name);
        var r := [items[0]] + rest;
        forall i, j | 0 <= i < j < |r| ensures !SameIgnoringCase(r[i].name, r[j].name) {
          assert r[j] == rest[j - 1];
          if i > 0 {
            assert r[i] == rest[i - 1];
          }
        }
      }
    }
  }

  /** Filtering out an id keeps the list well formed. */
  lemma WithoutKeepsWellFormed(items: seq<Item>, id: int)
    requires WellFormed(items)
    ensures WellFormed(Without(items, id))
  {
    WithoutKeepsIdsIncreasing(items, id);
    WithoutKeepsNamesDistinct(items, id);
    WithoutMembers(items, id);
  }
}
