# Item manager: query engine, table state machines, selection and reorder

This project models the logic of a small item manager and proves properties of that model.
The server side holds a generated collection of items whose id and value both run from 1 to N.
Its query does three things in turn:

- it filters items by a decimal substring search;
- it stable-sorts them by a saved order override;
- it cuts out one page.

The server also keeps the override and a saved selection, which the client reads and writes back.
The client side has three table components over a client cache of loaded items:

- a simple table with drag-and-drop reordering;
- a virtualised table (`VirtualTable.new`);
- the virtualised table the application actually mounts (`VirtualTable`).

Each component handler is modelled as an atomic transition on an immutable record: `items`, `totalItems`, `currentPage`, `loading`, `selected` and `searchTerm`.

Modules, in dependency order:

- `Wrappers`: `Option`.
- `Numbers`: `Min`/`Max`, `Math.ceil` and `Math.floor` on page arithmetic.
- `Seqs`: `filter`, one-element `splice`, and a `Set`'s first-occurrence order.
- `Items`: the item record, decimal text, and `includes`.
- `Ordering`: rank, comparator, and a stable insertion sort.
- `ItemService`: the server.
- `Selection`: toggle, select all, clear.
- `Reorder`: the drag move and the cache reconciliation.
- `Client`: the shared table record, filtered view, scroll trigger and append-only load.
- `SimpleTable`, `VirtualTableNew` and `VirtualTableLive`: the three components.

To verify, run Dafny 4.11 from this directory:

```
dafny verify --resource-limit 2000000 --verification-time-limit 0 --warn-contradictory-assumptions *.dfy
```

Each proof is kept small enough for that resource limit and for the default time limit of plain `dafny verify *.dfy`.

A central invariant is `Client.Synced`. It says the cache is exactly pages `1..currentPage` of the server's listing, so cache position `i` holds server position `i`. While the search term stays the same, `SimpleTable`'s scroll loads keep this invariant (`SimpleTable.ScrollLoadSynced`). A change of search term does not reset its cache, so pages loaded after the change come from a different listing than the pages already held, and `Synced` then holds for neither listing in general. `VirtualTable.new` loses it when a fast scroll makes it request a later page (Findings). A corrected trigger keeps it (`VirtualTableNew.NextPageKeepsSync`).

The server query is a pure function of the service state, so `getItems` cannot change the collection, the override or the saved selection. The setters touch only their own field: `ItemService.SaveOrder` and `ItemService.SaveSelected` say so in their contracts.

The three tables load differently, and the model keeps each as its code has it:

- The simple table's `loadItems` returns at once while a load is in flight (`SimpleTable.LoadBegin`). The two virtualised tables have no such guard; only their scroll effect checks `loading` (`Client.AppendBegin`).
- The simple table replaces the cache with page 1 (`SimpleTable.LoadEnd`). The virtualised tables append page 1 like any other page (`Client.AppendEnd`).
- `VirtualTable.new` counts rows up to the server total when idle. The mounted `VirtualTable` counts the filtered view instead, and this makes it stall (Findings).

## Model

| member | source | states |
|---|---|---|
| ItemService.Collection | server/src/services/Item.service.js:4-7 | the generated collection has N entries, the entry at index i being id i+1 with value i+1 |
| ItemService.Filtered | server/src/services/Item.service.js:16-23 | the filtered items are exactly the items 1..N whose decimal value contains the search, in ascending id order; an empty search keeps every item |
| ItemService.FilteredIsFilter | server/src/services/Item.service.js:19-23 | skipping the filter for an empty search gives the same result as filtering by the empty term |
| ItemService.MatchCount | server/src/services/Item.service.js:40-42 | the number of filtered items is the number of ids 1..N whose decimal text contains the search |
| Items.Decimal | server/src/services/Item.service.js:21 | a value's text is a non-empty digit string with no leading zero; zero prints as "0" |
| Items.ParseDecimalInvertsDecimal | server/src/services/Item.service.js:21 | reading the decimal text back gives the value, so the text determines the value |
| Items.Text | server/src/services/Item.service.js:21 | the text of a value starts with a minus sign exactly when the value is negative; after the sign come digits with no leading zero, and only zero prints as "0" |
| Items.TextRoundTrip | server/src/services/Item.service.js:21 | reading the digits of a value's text back, after any sign, gives the value's magnitude |
| Items.TextInjective | server/src/services/Item.service.js:21 | two values print the same text exactly when they are equal |
| Items.Contains | server/src/services/Item.service.js:21 | the empty pattern is always contained; a contained pattern is no longer than the text |
| Items.ContainsIff | server/src/services/Item.service.js:21 | the substring test succeeds exactly when the pattern occurs at some position of the text |
| Ordering.Rank | server/src/services/Item.service.js:27 | an id's rank is absent exactly when the id is not in the order; otherwise it is the last index holding the id |
| Ordering.Insert | server/src/services/Item.service.js:28-32 | inserting into a sorted sequence adds exactly that element and keeps it sorted by the comparator |
| Ordering.StableSort | server/src/services/Item.service.js:28-32 | the sort returns a rearrangement of its input, sorted by the rank comparator |
| Ordering.StableSortKeepsTies | server/src/services/Item.service.js:28-32 | the sort is stable: the items sharing any one rank, including "no rank", keep their input order |
| Ordering.StableSortOfSorted | server/src/services/Item.service.js:28-32 | sorting an already sorted sequence changes nothing |
| Ordering.StableSortKeepsDistinctIds | server/src/services/Item.service.js:28-32 | sorting keeps ids distinct |
| Ordering.StableSortPlacesRankedFirst | server/src/services/Item.service.js:28-32 | after sorting, ranked ids precede unranked ones, ranks strictly increase among distinct ids, and the unranked ones keep their input order |
| ItemService.OrderedIsPermutation | server/src/services/Item.service.js:26-33 | the ordered result is a rearrangement of the filtered items, with distinct ids |
| ItemService.OverrideOrdering | server/src/services/Item.service.js:26-33 | with an override, ranked ids come first in strictly increasing rank, and the unranked matches follow in ascending id order |
| ItemService.EmptyOverrideKeepsIdOrder | server/src/services/Item.service.js:26-38 | with no override every page is in ascending id order; with no search either, page p holds ids (p-1)*limit+1, (p-1)*limit+2, ... |
| ItemService.DefaultQuery | server/src/controllers/Item.controller.js:12-13 | a request with no parameters on a fresh service gets page 1 of at most 20 items, ids 1, 2, ... in order, with the whole collection as total |
| ItemService.Slice | server/src/services/Item.service.js:38 | the slice has min(limit, max(0, length - start)) elements, element i being input element start+i |
| ItemService.Page | server/src/services/Item.service.js:36-38 | page p has min(limit, max(0, length - (p-1)*limit)) elements, element i being element (p-1)*limit+i; a page past the end is empty |
| ItemService.GetItems | server/src/services/Item.service.js:15-46 | for page, limit >= 1, the result has the page asked for, total = number of matching ids, totalPages = ceil(total/limit), the page length formula, and every returned item matches the search |
| Numbers.CeilDiv | server/src/services/Item.service.js:44 | totalPages is the least number of limit-sized pages that cover total, and is zero exactly when total is zero |
| ItemService.TotalsIndependentOfPage | server/src/services/Item.service.js:40-45 | total and totalPages are the same whichever page is asked for |
| ItemService.GetItemsIsPage | server/src/services/Item.service.js:35-41 | the returned items are that page of the filtered, ordered matches |
| ItemService.PagesArePrefix | server/src/services/Item.service.js:36-38 | pages 1..k read in turn are the first k*limit items of the listing |
| ItemService.PagesCoverMatches | server/src/services/Item.service.js:28-45 | pages 1..totalPages together are a rearrangement of the filtered items, each matching item exactly once |
| ItemService.PageOfSorted | server/src/services/Item.service.js:36-38 | any page of a sorted listing is sorted |
| ItemService.PageIsSorted | server/src/services/Item.service.js:26-38 | with an override, every returned page is already in override order |
| ItemService.SaveOrder | server/src/services/Item.service.js:48-51 | after saving an order, the state reports exactly that order and the selection is unchanged |
| ItemService.SaveSelected | server/src/services/Item.service.js:53-56 | after saving a selection, the state holds exactly its distinct elements, and the order is unchanged |
| Seqs.Dedup | server/src/services/Item.service.js:54 | a Set built from a sequence holds its elements, each once |
| Seqs.DedupOfDistinct | server/src/services/Item.service.js:54-61 | a sequence without repeats comes back out of the Set unchanged, order included |
| ItemService.SaveIdempotent | server/src/services/Item.service.js:48-56 | saving the same order or selection twice is the same as saving it once |
| ItemService.SaveStateRoundTrip | server/src/services/Item.service.js:48-63 | writing back what the state read returned leaves the service unchanged |
| ItemService.SaveDistinctSelection | server/src/services/Item.service.js:53-61 | a selection without repeats is read back exactly as saved |
| Seqs.Filter | client/src/entities/item/ui/SimpleTable.tsx:113-115 | the filter keeps exactly the elements satisfying the predicate and is never longer than its input |
| Seqs.FilterKeepsCountAndOrder | client/src/entities/item/ui/SimpleTable.tsx:113-115 | each element satisfying the predicate is kept as often as the input holds it and every other element is dropped, and the result is a subsequence of the input (original order) |
| Client.FilteredItems | client/src/entities/item/ui/VirtualTable.new.tsx:45-47 | the filtered view holds exactly the cached items whose value text contains the search term, in cache order (a subsequence of the cache) |
| Client.FilteredCounts | client/src/entities/item/ui/VirtualTable.new.tsx:45-47 | the filtered view holds each matching cached item exactly as often as the cache does, and no other item |
| Client.EmptyTermShowsCache | client/src/entities/item/ui/VirtualTable.new.tsx:45-47 | with an empty search term the filtered view is the whole cache in cache order |
| Client.FilteredDistinctIds | client/src/entities/item/ui/VirtualTable.tsx:41-43 | the filtered view of a cache with distinct ids has distinct ids |
| Selection.Toggle | client/src/entities/item/ui/SimpleTable.tsx:117-127 | toggling is the symmetric difference with {id}: the id flips and every other id stays |
| Selection.ToggleSelfInverse | client/src/entities/item/ui/SimpleTable.tsx:117-127 | toggling the same id twice restores the selection |
| Selection.TogglesCommute | client/src/entities/item/ui/SimpleTable.tsx:117-127 | toggles of two ids give the same selection in either order |
| Selection.SelectAll | client/src/entities/item/ui/SimpleTable.tsx:129-131 | select all yields exactly the ids of the filtered view |
| Selection.Clear | client/src/entities/item/ui/SimpleTable.tsx:133-135 | clearing yields the empty selection |
| Selection.ToggleEachFromClearIsSelectAll | client/src/entities/item/ui/SimpleTable.tsx:117-131 | ticking every row of a view with distinct ids from a cleared selection selects exactly what select all selects |
| Client.ToggleRow | client/src/entities/item/ui/VirtualTable.new.tsx:88-98 | toggling a row flips that id in the selection and changes nothing else in the table |
| Client.ToggleRowTwice | client/src/entities/item/ui/VirtualTable.tsx:84-94 | toggling a row twice leaves the table as it was |
| Client.SelectAllRows | client/src/entities/item/ui/VirtualTable.new.tsx:100-102 | select all selects exactly the ids of cached items matching the search and changes nothing else |
| Client.ClearRows | client/src/entities/item/ui/VirtualTable.new.tsx:104-106 | clearing empties the selection and changes nothing else |
| Client.ToggleAfterSelectAll | client/src/entities/item/ui/VirtualTable.new.tsx:88-102 | after select all, toggling a shown row deselects exactly that row |
| SimpleTable.Resort | client/src/entities/item/ui/SimpleTable.tsx:38-45 | the page-1 re-sort returns a rearrangement of the page, sorted by the saved order when one exists and unchanged otherwise; ids the order does not mention keep the order received |
| SimpleTable.ResortPlacesRankedFirst | client/src/entities/item/ui/SimpleTable.tsx:38-45 | the re-sort puts ids the order mentions first, by strictly increasing rank among distinct ids, and keeps the others in the order received |
| SimpleTable.ResortOfServerPage | client/src/entities/item/ui/SimpleTable.tsx:38-45 | a page the server already sorted with the same saved order comes out of the re-sort unchanged |
| SimpleTable.LoadBegin | client/src/entities/item/ui/SimpleTable.tsx:23-28 | a load while one is in flight sends nothing and changes nothing; otherwise only loading is raised |
| SimpleTable.LoadEnd | client/src/entities/item/ui/SimpleTable.tsx:34-54 | on success page 1 replaces the cache with the re-sorted page (a rearrangement sorted by the saved order, with unmentioned ids in the order received) and other pages are appended after the unchanged cache, with total and page adopted; on failure only loading changes; loading ends false |
| SimpleTable.ScrollRequest | client/src/entities/item/ui/SimpleTable.tsx:88-101 | the scroll handler asks for a page exactly when initialised, idle, within 100 px of the bottom and short of the total, and the page is currentPage + 1 |
| SimpleTable.NoDuplicateRequest | client/src/entities/item/ui/SimpleTable.tsx:23-101 | once a load has begun, neither another load nor the scroll handler sends a request |
| SimpleTable.FirstPageLoadSynced | client/src/entities/item/ui/SimpleTable.tsx:38-49 | page 1 from the server, re-sorted by the server's own saved order, leaves the cache holding exactly the server's first page |
| SimpleTable.MountLoadSynced | client/src/entities/item/ui/SimpleTable.tsx:23-54 | the first load after mount leaves the cache synced with the server listing at page 1 and adopts the server total |
| SimpleTable.ScrollLoadSynced | client/src/entities/item/ui/SimpleTable.tsx:90-101 | a load the scroll handler asks for advances currentPage by exactly one and keeps cache position i equal to server position i |
| Seqs.RemoveAt | client/src/entities/item/ui/SimpleTable.tsx:147 | removing one element shortens the sequence by one, shifts the tail down and removes exactly that element |
| Seqs.InsertAt | client/src/entities/item/ui/SimpleTable.tsx:148 | inserting places the element at the index (appending past the end) and shifts the tail up |
| Reorder.Move | client/src/entities/item/ui/SimpleTable.tsx:146-148 | the moved view is a rearrangement of the view with the dragged row at the destination, and every other row keeps its relative order |
| Reorder.MoveUndo | client/src/entities/item/ui/SimpleTable.tsx:146-148 | dragging the row back from the destination to the source restores the view |
| Reorder.FindIndex | client/src/entities/item/ui/SimpleTable.tsx:155 | the search gives the first position holding the id, or -1 exactly when no position does |
| Reorder.ReconcileStep | client/src/entities/item/ui/SimpleTable.tsx:155-159 | one reconciliation step rearranges the cache without adding or losing entries |
| Reorder.Reconcile | client/src/entities/item/ui/SimpleTable.tsx:151-162 | the reconciled cache is a rearrangement of the previous cache |
| Reorder.ReconcileStepShape | client/src/entities/item/ui/SimpleTable.tsx:154-160 | before step k the cache is the first k view rows followed by the other entries in cache order, and each step keeps this shape |
| Reorder.ReconcileMovesViewToFront | client/src/entities/item/ui/SimpleTable.tsx:151-162 | with distinct ids and every view row cached, the new view moves to the front of the cache, its first rows equal the view, and all other entries keep their relative order |
| Items.Ids | client/src/entities/item/ui/SimpleTable.tsx:166 | the saved order lists the id of each row of the new view, position by position |
| Items.IdsMembers | client/src/entities/item/ui/SimpleTable.tsx:166 | an id is in the saved order exactly when some row of the new view carries it |
| SimpleTable.DragEnd | client/src/entities/item/ui/SimpleTable.tsx:138-171 | a drop off the list changes nothing and saves nothing; a drop rearranges the cache, changes nothing else, and saves exactly the ids of the filtered view |
| SimpleTable.MoveThenReconcile | client/src/entities/item/ui/SimpleTable.tsx:146-162 | for any view of distinct, cached ids, the moved view goes to the front of the reconciled cache, the other entries keep their relative order, and ids stay distinct |
| SimpleTable.DragEndReorders | client/src/entities/item/ui/SimpleTable.tsx:141-166 | with distinct ids, a drop puts the moved view at the front of the cache, keeps items outside the view in their relative order, keeps ids distinct, and saves the moved view's ids in order |
| Client.ServerPayload | server/src/services/Item.service.js:35-45 | the payload of a query is that page of the ordered matches, with the number of matches as total |
| Client.AppendBegin | client/src/entities/item/ui/VirtualTable.new.tsx:56-58 | starting a load raises loading and changes nothing else, with no guard |
| Client.AppendEnd | client/src/entities/item/ui/VirtualTable.new.tsx:59-69 | on success the page is appended after the unchanged cache (page 1 included) and total and page are adopted; on failure cache, page and total are unchanged; loading ends false |
| Client.AppendNextPage | client/src/entities/item/ui/VirtualTable.new.tsx:61 | appending the next server page to a cache synced at page p gives a cache synced at page p+1 |
| Client.FirstPageSynced | client/src/entities/item/ui/VirtualTable.new.tsx:73-75 | page 1 alone is a cache synced at page 1 |
| Client.AppendNextPageSynced | client/src/entities/item/ui/VirtualTable.new.tsx:56-69 | loading page currentPage+1 from the server keeps the cache synced and advances currentPage by one |
| Client.MountLoadSynced | client/src/entities/item/ui/VirtualTable.new.tsx:73-75 | the mount load of page 1 into the empty cache leaves it synced at page 1 with the server total |
| Client.PageToLoad | client/src/entities/item/ui/VirtualTable.new.tsx:82 | the page computed from the last visible index is the page whose rows contain that index |
| Client.Trigger | client/src/entities/item/ui/VirtualTable.new.tsx:78-86 | the effect requests a page exactly when some row is visible, no load is in flight, the cache is short of the total and the last visible row lies beyond currentPage pages; the page then exceeds currentPage and contains that row |
| Client.NoTriggerWhileLoading | client/src/entities/item/ui/VirtualTable.new.tsx:83 | while a load is in flight the effect requests nothing, whatever is visible |
| Client.TriggerNextPage | client/src/entities/item/ui/VirtualTable.new.tsx:82-84 | with a cache of currentPage full pages and its next row visible, the idle effect requests page currentPage+1 |
| VirtualTableNew.RowCount | client/src/entities/item/ui/VirtualTable.new.tsx:49-54 | the count is one past the cache while loading and the server total when idle, so it reaches past the cache exactly while loading or while the cache is short of the total |
| VirtualTableNew.RowAt | client/src/entities/item/ui/VirtualTable.new.tsx:142-170 | row i shows the i-th item of the filtered view, checked exactly when its id is selected, when the view has an i-th item, and a placeholder otherwise |
| VirtualTableNew.RowShowsServerItem | client/src/entities/item/ui/VirtualTable.new.tsx:142 | with an empty term and a synced cache, row i shows server item i |
| VirtualTableNew.TriggeredLoadNotRepeated | client/src/entities/item/ui/VirtualTable.new.tsx:78-86 | after the effect starts a load, the same visible rows request nothing while it is in flight or after it succeeds, and success raises currentPage |
| VirtualTableNew.CountReachesNextPage | client/src/entities/item/ui/VirtualTable.new.tsx:50 | when the idle cache is currentPage full pages short of the total, the row after the cache is within the count and makes the effect request the next page |
| VirtualTableNew.GapAfterSkip | client/src/entities/item/ui/VirtualTable.new.tsx:61 | appending a page beyond the next one to a cache of full pages puts a later server item at the first new cache position |
| VirtualTableNew.SkipTrigger | client/src/entities/item/ui/VirtualTable.new.tsx:82-84 | a visible row at least one page past a cache of full pages makes the idle table request a page at least two ahead, one that starts no later than that row |
| VirtualTableNew.TriggerSkipsPages | client/src/entities/item/ui/VirtualTable.new.tsx:82-84 | a visible row past the next page makes the effect request a page at least two ahead, after which the cache no longer matches server positions |
| VirtualTableNew.SkippedPageExample | client/src/entities/item/ui/VirtualTable.new.tsx:82-84 | with 60 or more items, page size 20, page 1 loaded and row 45 visible, the effect requests page 3, and cache position 20 then holds item 41 instead of item 21 |
| VirtualTableNew.NextPageTrigger | client/src/entities/item/ui/VirtualTable.new.tsx:82-84 | the corrected effect fires under the same conditions and requests currentPage+1 |
| VirtualTableNew.NextPageKeepsSync | client/src/entities/item/ui/VirtualTable.new.tsx:61-63 | loads requested by the corrected effect keep the cache synced, one page further each time |
| VirtualTableLive.RowCount | client/src/entities/item/ui/VirtualTable.tsx:45-50 | the count is the filtered length when non-zero; when nothing matches it is the cache length plus one while loading and the cache length when idle; so when idle it never exceeds the cache length |
| VirtualTableLive.RowAt | client/src/entities/item/ui/VirtualTable.tsx:118-146 | row i shows the i-th item of the filtered view when there is one, checked exactly when its id is selected, otherwise a placeholder while loading and nothing when idle |
| VirtualTableLive.RowsBelowCount | client/src/entities/item/ui/VirtualTable.tsx:45-50 | every row below the count is a filtered item when anything matches; when nothing matches, the rows are placeholders while loading and empty rows, one per cached item, when idle |
| VirtualTableLive.RowShowsServerItem | client/src/entities/item/ui/VirtualTable.tsx:119 | with an empty term and a synced cache, row i is below the count and shows server item i |
| VirtualTableLive.NoTriggerWithinCache | client/src/entities/item/ui/VirtualTable.tsx:74-82 | when the cache is no longer than currentPage pages, no visible range within the count makes the effect request a page |
| VirtualTableLive.Mounted | client/src/entities/item/ui/VirtualTable.tsx:52-71 | after the mount load the cache holds at most one page, the total is the server's, and the cache is short of the total when the server holds more than one page |
| VirtualTableLive.StallsAfterMount | client/src/entities/item/ui/VirtualTable.tsx:45-82 | after the mount load, whenever the server holds more than one page, the cache stays short of the total, yet no visible range ever makes the effect request page 2 |
| VirtualTableLive.StallExample | client/src/entities/item/ui/VirtualTable.tsx:46 | with 1,000,000 items and page size 20, the mounted table has at most 20 rows and never requests more |

## Left out

- HTTP transport and response envelopes. Every load receives the `{items, total}` payload the service computes (`Client.Payload`). A thrown error and a response without a body are both `Client.Failed`.
- The simple table's calls to the API client are not modelled as written. It passes one object where the API client expects a page number, a limit and a search. It also reads the payload one envelope level below where the API client puts it. Taken literally, its loads would never deliver items, so the model gives it the payload for its page, page size and search term.
- Controller plumbing: `parseInt` on query strings and the response envelope. Only the defaults page 1, limit 20 and empty search are kept, as `ItemService.DefaultPage`, `DefaultLimit` and `DefaultSearch` (`ItemService.DefaultQuery`).
- ItemService.GetItems: requires page >= 1 and limit >= 1. With a negative page, `slice` counts from the end, and with limit 0 the page count is `Infinity`.
- Client.PageToLoad: requires pageSize >= 1. Every table uses a positive page size (20 by default).
- ItemService.Collection: the collection size is an unbounded parameter rather than the literal 1,000,000. `VirtualTableLive.StallExample` instantiates it. The model does not stop at JavaScript's limits: `Array.from` throws for a length of 2^32 or more, and `toString` switches to exponent notation from 10^21. Neither limit is reached at the deployed size.
- ItemService.SaveOrder: the saved order and the saved selection are sequences of integers. The service stores whatever the request body holds. It does not model a body without `order`: that stores `undefined`, and every later `getItems` throws until a valid order is saved. It does not model ids sent as strings either: those never match the numeric ids in the rank map.
- Ordering.Compare: it returns -1 or 1 when one rank is missing. The source subtracts from `Infinity` (server) or `Number.MAX_VALUE` (client), which gives a result of the same sign. Only the sign matters to the sort.
- The stale state the simple table's mount-time `initializeTable` captures: it raises `loading` and then calls `loadItems(1)` through a closure that still sees `loading` false. It also restores the selection from the server at mount. The model starts both tables from `Client.Initial` and mounts through `LoadBegin`.
- Async interleaving, stale React closures and out-of-order responses. Each handler is one atomic transition. The simple table's paired page and state requests are one response, which fails if either request fails.
- The `localStorage` load and save effects of both virtualised tables, and the search box setter (a plain field update).
- Rendering: JSX, the summary line, overscan, row geometry and the virtualiser's total size. Row height estimates are left out with the rest of the geometry. The virtualiser's visible indices are an input to `Client.Trigger`, with the lemmas requiring them to be below the count. Scroll geometry is reduced to the `< 100` pixel test.
- The drag library: `SimpleTable.DragEnd` takes its source and destination as given, below the filtered view's length as the library reports them.
- VirtualTableLive.NoTriggerWithinCache: it assumes the cache is no longer than `currentPage` pages. That holds after the mount load (`VirtualTableLive.Mounted`), and the lemma shows no later load ever starts.

## Findings

| source | as written | input that shows it | evidently intended | confidence | as-written member | corrected member |
|---|---|---|---|---|---|---|
| client/src/entities/item/ui/VirtualTable.tsx:46 | the idle row count is the filtered length, or the cache length, so no row past the cache is ever visible and the page computed from the last visible row never exceeds `currentPage` | 1,000,000 items, page size 20, after the mount load (20 cached, `currentPage` 1, idle): visible rows are at most 0..19, the computed page is 1, and page 2 is never requested | a count that reaches past the cache, as in `VirtualTable.new` (the total when idle), so that scrolling to row 20 requests page 2 | not executed | VirtualTableLive.StallsAfterMount | VirtualTableNew.CountReachesNextPage |
| client/src/entities/item/ui/VirtualTable.new.tsx:82-84 | the effect requests the page holding the last visible row and the load appends it, so a fast scroll skips pages and leaves later items at earlier cache positions | 60 items, page size 20, page 1 loaded, idle, row 45 visible: page 3 is requested and cache position 20 (shown as row 20) holds item 41 instead of item 21 | after every load, cache position i holds server position i, so row i shows the item the server lists at i; requesting the page after `currentPage`, as the simple table does, is one way to keep this | not executed | VirtualTableNew.SkippedPageExample | VirtualTableNew.NextPageKeepsSync |
