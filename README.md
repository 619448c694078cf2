# Stock list store

A Dafny model of the stock list behind the single-page inventory manager.
The page keeps one list of stock items in memory and saves it under a
single browser storage key. Three operations change the list:

- the add-form submit handler, which checks the input, refuses a name that
  is already present ignoring case, and appends a new item;
- `updateItem`, which overwrites the quantity and/or the price of one item;
- `deleteItem`, which filters one id out of the list.

Each successful change is followed by a save of the whole list.

The model has three modules:

- `Text` (`text.dfy`) covers the two string operations the add handler
  applies to names. `Trim` models `String.prototype.trim`, with the
  ECMAScript white-space and line-terminator set. `Lower` models
  `toLowerCase`, restricted to ASCII letters.
- `StockItems` (`stock_items.dfy`) holds the item, outcome and stored-blob
  datatypes. It also holds the array queries the operations are built from,
  written as recursive functions: `findIndex` (`IndexOf`), `some`
  (`NameTaken`), `Math.max` over the ids (`MaxId`, `NextId`) and `filter`
  (`Without`). Last, it holds the list invariant `WellFormed` and the lemmas
  showing that each kind of change keeps it.
- `StockStore` (`store.dfy`) is the page's state as a class `Store`. The
  field `items: seq<Item>` stands for the module-level array. The ghost
  field `persisted` is what the storage key holds, and the ghost counter
  `saves` counts the writes. The constructor `Load` is the page load, and
  `Add`, `Update` and `Delete` are the three operations. Each operation
  states its whole new state in terms of the old one.

The invariant `WellFormed` is stronger than "ids are unique". Every item
has an id of at least 1, a non-empty trimmed name, and a non-negative
quantity and price. Ids strictly increase along the list. No two names are
equal ignoring case. New ids are one more than the maximum, appends go to
the end, updates keep ids and positions, and filtering keeps order. So a
list built by these operations always has increasing ids, and on such a
list the next id is one more than the id of the last item
(`NextIdAfterLast`).

Besides `Valid()` (the invariant holds), each operation preserves
`Synced()`: loading the page again from what the storage key holds gives
back the in-memory list. This is true right after a save, and also after a
refused operation, because a refusal writes nothing. The `saves` counter
shows that each success writes exactly once and each refusal writes
nothing.

The client methods at the end of `store.dfy` prove these behaviours from
the contracts alone:

- the first item gets id 1;
- with ids 1 and 3 present, the next id is 4;
- a name equal in another case is refused;
- updating only the quantity keeps the price;
- an unknown id is refused by update and delete;
- a negative quantity is refused on add;
- deleting the item with the largest id lets the next add reuse that id.

Two behaviours of the code worth noting:

- A stored value that is not valid JSON is not treated as "no data". In
  `loadItemsFromLocalStorage` (script.js:23-30), `JSON.parse` throws before
  the assignment, so the list keeps its initial empty value (script.js:6).
  The exception also skips the first render (script.js:169-170), and the invalid
  value stays in storage until the next save. The submit handler is
  registered earlier (script.js:107), so the page still works.
  `LoadedItems(Corrupt)` is therefore the empty list, and `persisted` keeps
  `Corrupt` until a save.
- There is no separate list operation: the array is read directly, which
  here is the field `items`.

## Model

| member | source | states |
|---|---|---|
| Text.TrimStart | script.js:109 | the result is a suffix of the input, everything removed is white space, and the result does not start with white space |
| Text.TrimEnd | script.js:109 | the result is a prefix of the input, everything removed is white space, and the result does not end with white space |
| Text.Trim | script.js:109 | the result of `trim` neither starts nor ends with white space, and it is empty exactly when the input is all white space (the `!name` check) |
| Text.TrimSlice | script.js:109 | `trim` returns a slice of the input and removes only white space, on both sides |
| Text.TrimOfTrimmed | script.js:109 | a string is left alone by `trim` if and only if it neither starts nor ends with white space |
| Text.TrimIdempotent | script.js:109 | trimming a trimmed name changes nothing, so stored names are trimmed |
| Text.LowerChar | script.js:119 | lower-casing never yields an upper-case ASCII letter; it maps `A`..`Z` to `a`..`z` and keeps every other character |
| Text.Lower | script.js:119 | `toLowerCase` keeps the length and lower-cases each character in place |
| Text.LowerIdempotent | script.js:119 | lower-casing twice is the same as lower-casing once |
| StockItems.LoadedItems | script.js:23-30 | the list a page load starts from: the stored list when the key holds one; the empty list when the key is missing or empty, and also when the value is not valid JSON, because `JSON.parse` throws before the assignment and the initial `[]` stays |
| StockItems.ValidInput | script.js:113 | the add handler's input check: the trimmed name is non-empty, and both parsed numbers exist (not NaN) and are not negative |
| StockItems.NameTaken | script.js:119 | `some` over the items, tested one item at a time; `NameTakenIff` proves it holds exactly when some present name equals the new name ignoring case |
| Text.IsSpace | script.js:109 | the characters `trim` strips: ECMAScript WhiteSpace (tab, vertical tab, form feed, space, no-break space, byte order mark, the Zs space separators) and LineTerminator (LF, CR, LS, PS) |
| Text.SameIgnoringCase | script.js:119 | `a.toLowerCase() === b.toLowerCase()`: the two names have equal lower-cased forms |
| StockItems.IndexOf | script.js:140-141 | `findIndex` is -1 exactly when no item has the id; otherwise it is the first position holding the id |
| StockItems.NameTakenIff | script.js:119 | the duplicate check (`some` over the lower-cased names) holds exactly when some present name equals the new name ignoring case |
| StockItems.MaxId | script.js:125 | `Math.max` over the ids is at least every id and is the id of some item |
| StockItems.NextId | script.js:125 | the new id is 1 on an empty list; otherwise it exceeds every present id and is one more than some present id (the maximum plus one) |
| StockItems.NextIdAfterLast | script.js:124-131 | on a well-formed non-empty list the new id is the id of the last item plus one |
| StockItems.Without | script.js:158-160 | no item kept by `filter` has the id; the result is shorter exactly when some item has the id; with no such item it is the same list |
| StockItems.WithoutConcat | script.js:159 | filtering distributes over concatenation, so the kept items keep their relative order |
| StockItems.WithoutCounts | script.js:159 | filtering removes every copy of an item carrying the id and keeps the count of every other item |
| StockItems.WithoutMembers | script.js:159 | the filtered list holds exactly the items of the list whose id differs |
| StockItems.AppendKeepsWellFormed | script.js:124-131 | appending a good item whose name is not taken and whose id is the next id keeps ids increasing and names distinct ignoring case |
| StockItems.WithoutKeepsNameFree | script.js:159 | filtering cannot make a name taken |
| StockStore.AddKeepsWellFormed | script.js:109-131 | the item the add handler appends after its checks (trimmed name, next id, non-negative numbers) keeps a well-formed list well formed |
| StockItems.ReviseKeepsWellFormed | script.js:142-147 | overwriting one item's quantity and price with non-negative values keeps the list well formed |
| StockItems.WithoutKeepsWellFormed | script.js:159 | filtering an id out keeps the list well formed |
| StockStore.Store.Load | script.js:23-30 | the list is the stored list, or empty when the key is missing or corrupt; storage and memory agree; a stored well-formed list gives a valid store |
| StockStore.Store.Save | script.js:19-21 | a save writes the whole in-memory list to the key, replacing what it held, and counts one write |
| StockStore.Store.Add | script.js:107-136 | a validation error exactly when the trimmed name is empty or a parsed number is missing or negative; otherwise a duplicate-name error exactly when the name is taken ignoring case; on either error, list, storage and write count are unchanged; otherwise the list is the old list plus one item (next id, trimmed name, quantity, price), saved once; the invariant and the storage sync are kept |
| StockStore.Store.Update | script.js:139-154 | not-found exactly when no item has the id, with nothing changed or written; otherwise only the first item with the id changes: its quantity if one was given, its price if one was given, with id, name and position kept and every other item unchanged; saved once; the invariant and the storage sync are kept |
| StockStore.Store.Delete | script.js:157-167 | the list becomes the filtered list; success exactly when some item had the id, which is exactly when the length went down; a not-found leaves list, storage and write count unchanged; a success saves once; the invariant and the storage sync are kept |
| StockStore.Reload | script.js:19-30 | loading again from the stored value gives a store with the same list as the one in memory |

## Left out

- Rendering (`renderStockTable`, script.js:33-102) is left out: it builds the table and row widgets and decides nothing about the list. The form reset after an add (script.js:134) is left out for the same reason.
- The notification banner and its three-second auto-hide (script.js:9-16) are left out. Each operation returns the banner it would show as an `Outcome` value.
- The delete confirmation dialog (script.js:96) is left out: `Delete` is the call made after the user confirmed.
- `localStorage` and JSON (script.js:19-30) are left out as browser APIs. The storage key is the ghost field `persisted`, and the page load takes its parsed value as a `Blob`. A stored value that parses to something other than a list of items (for example `null`) is not modelled.
- `parseInt` and `parseFloat` (script.js:58, 81, 110-111) are left out as foreign parsing. Their results are `Option` values, with `None` for NaN. The row buttons' check that a new quantity or price is a number and not negative (script.js:59-62, 82-85) appears as the `requires` of `Update`.
- Prices are integer cents, not IEEE doubles, so `toFixed(2)` formatting (script.js:40, 70) is left out. Ids and quantities are unbounded integers, so the 2^53 limit of JavaScript numbers is not modelled.
- Items are values in a sequence. The page's item objects are shared with the row closures, which read only their id and name, so that aliasing does not change any outcome and is not modelled.
- Text.Lower: folds only the ASCII letters `A`..`Z`; JavaScript's `toLowerCase` also folds other Unicode letters, so names that differ only in non-ASCII case count as distinct here.
- Text.LowerChar: the same ASCII-only restriction as `Lower`.
- A failed or refused storage write is not modelled: the page has no error path for it, and `Save` always succeeds.
