/** `SimpleTable`: the non-virtualised table with drag-and-drop. Its load is guarded by
    `loading`, page 1 replaces the cache and is re-sorted by the saved order, later pages are
    appended, and scrolling near the bottom asks for exactly `currentPage + 1`. */
module SimpleTable {
  import opened Wrappers
  import opened Numbers
  import opened Seqs
  import opened Items
  import opened Ordering
  import opened ItemService
  import opened Reorder
  import opened Client

  /** The page-1 override: when the saved order is non-empty, the page is stable-sorted by it
      (missing ranks standing for `Number.MAX_VALUE`); otherwise it is kept as received. */
  function Resort(order: seq<int>, items: seq<Item>): (r: seq<Item>)
    ensures multiset(r) == multiset(items)
    ensures |order| > 0 ==> SortedBy(order, r)
    ensures |order| == 0 ==> r == items
    ensures Filter(KeyIs(order, None), r) == Filter(KeyIs(order, None), items)
  {
    if |order| > 0 then
      StableSortKeepsTies(order, items, None);
      StableSort(order, items)
    else
      items
  }

  /** The re-sort places ids the order mentions first, by strictly increasing rank when ids
      are distinct, and keeps the rest in the order received. */
  lemma ResortPlacesRankedFirst(order: seq<int>, items: seq<Item>)
    requires |order| > 0
    ensures var r := Resort(order, items);
      forall i, j :: 0 <= i < j < |r| && Key(order, r[j]).Some? ==> Key(order, r[i]).Some?
    ensures var r := Resort(order, items);
      DistinctIds(items) ==>
        forall i, j :: 0 <= i < j < |r| && Key(order, r[j]).Some? ==>
          Key(order, r[i]).Some? && Key(order, r[i]).value < Key(order, r[j]).value
    ensures Filter(KeyIs(order, None), Resort(order, items)) == Filter(KeyIs(order, None), items)
  {
    StableSortPlacesRankedFirst(order, items);
  }

  /** A page the server already sorted by the same saved order comes out of the re-sort
      unchanged. */
  lemma ResortOfServerPage(st: Store, page: nat, search: string, pageSize: nat)
    requires page >= 1 && pageSize >= 1
    ensures var items := ServerPayload(st, page, search, pageSize).items;
      Resort(GetState(st).order, items) == items
  {
    if |st.order| > 0 {
      PageIsSorted(st, page, search, pageSize);
      StableSortOfSorted(st.order, GetItems(st, page, search, pageSize).items);
    }
  }

  /** The start of `loadItems`: nothing happens while a load is in flight (`None`: no request
      is sent); otherwise `loading` is raised and the request goes out. */
  function LoadBegin(t: Table): (r: Option<Table>)
    ensures r.None? <==> t.loading
    ensures r.Some? ==> r.value.loading && r.value.(loading := false) == t
  {
    if t.loading then None else Some(AppendBegin(t))
  }

  /** The end of `loadItems(page)`. `savedOrder` is the order `getState` returned alongside a
      page-1 request. A payload for page 1 replaces the cache with the re-sorted page; any
      other page is appended. Total and page number are adopted. A failure (of either
      request) changes nothing but `loading`, which is false afterwards in every case. */
  function LoadEnd(t: Table, page: nat, resp: Response, savedOrder: seq<int>): (r: Table)
    ensures !r.loading
    ensures r.selected == t.selected && r.searchTerm == t.searchTerm
    ensures resp.Failed? ==>
      r.items == t.items && r.currentPage == t.currentPage && r.totalItems == t.totalItems
    ensures resp.Loaded? ==> r.totalItems == resp.payload.total && r.currentPage == page
    ensures resp.Loaded? && page == 1 ==>
      multiset(r.items) == multiset(resp.payload.items)
      && (|savedOrder| > 0 ==> SortedBy(savedOrder, r.items))
      && (|savedOrder| == 0 ==> r.items == resp.payload.items)
      && Filter(KeyIs(savedOrder, None), r.items) == Filter(KeyIs(savedOrder, None), resp.payload.items)
    ensures resp.Loaded? && page != 1 ==>
      |r.items| == |t.items| + |resp.payload.items|
      && r.items[..|t.items|] == t.items && r.items[|t.items|..] == resp.payload.items
  {
    match resp
    case Failed => t.(loading := false)
    case Loaded(p) =>
      if page == 1 then
        t.(items := Resort(savedOrder, p.items), totalItems := p.total, currentPage := 1,
           loading := false)
      else
        AppendEnd(t, page, resp)
  }

  /** `handleScroll`. The listener is attached only once the table is initialised; it asks
      for the page after `currentPage` when no load is in flight, the bottom is less than
      100 pixels away and the server reported more items than the cache holds. */
  function ScrollRequest(t: Table, initialized: bool, scrollHeight: int, scrollTop: int,
                         clientHeight: int): (r: Option<nat>)
    ensures r.Some? <==>
      initialized && !t.loading && scrollHeight - scrollTop - clientHeight < 100
      && |t.items| < t.totalItems
    ensures r.Some? ==> r.value == t.currentPage + 1
  {
    if initialized && !t.loading && scrollHeight - scrollTop - clientHeight < 100
       && |t.items| < t.totalItems
    then Some(t.currentPage + 1)
    else None
  }

  /** Once a load has begun, neither a second `loadItems` nor the scroll handler sends
      another request until it ends. */
  lemma NoDuplicateRequest(t: Table, initialized: bool, scrollHeight: int, scrollTop: int,
                           clientHeight: int)
    requires LoadBegin(t).Some?
    ensures LoadBegin(LoadBegin(t).value).None?
    ensures ScrollRequest(LoadBegin(t).value, initialized, scrollHeight, scrollTop, clientHeight).None?
  {
  }

  /** The first load after mount fetches page 1 with an empty search and leaves the cache
      holding exactly the server's first page, in server order. */
  lemma MountLoadSynced(st: Store, pageSize: nat)
    requires pageSize >= 1
    ensures LoadBegin(Initial()).Some?
    ensures var r := LoadEnd(LoadBegin(Initial()).value, 1,
                             Loaded(ServerPayload(st, 1, "", pageSize)), GetState(st).order);
      Synced(r.items, Ordered(st, ""), r.currentPage, pageSize)
      && r.totalItems == |Ordered(st, "")|
  {
    FirstPageLoadSynced(st, "", pageSize, LoadBegin(Initial()).value);
  }

  /** A load the scroll handler asks for, answered by the server for the table's current
      search, advances `currentPage` by exactly one and keeps cache position `i` equal to
      server position `i`. */
  lemma ScrollLoadSynced(t: Table, st: Store, pageSize: nat, initialized: bool,
                         scrollHeight: int, scrollTop: int, clientHeight: int)
    requires pageSize >= 1
    requires Synced(t.items, Ordered(st, t.searchTerm), t.currentPage, pageSize)
    requires ScrollRequest(t, initialized, scrollHeight, scrollTop, clientHeight).Some?
    ensures LoadBegin(t).Some?
    ensures var page := t.currentPage + 1;
      var r := LoadEnd(LoadBegin(t).value, page,
                       Loaded(ServerPayload(st, page, t.searchTerm, pageSize)), GetState(st).order);
      Synced(r.items, Ordered(st, t.searchTerm), r.currentPage, pageSize)
      && r.currentPage == t.currentPage + 1
  {
    var page := t.currentPage + 1;
    var resp := Loaded(ServerPayload(st, page, t.searchTerm, pageSize));
    if page == 1 {
      FirstPageLoadSynced(st, t.searchTerm, pageSize, LoadBegin(t).value);
    } else {
      assert LoadEnd(LoadBegin(t).value, page, resp, GetState(st).order)
          == AppendEnd(AppendBegin(t), page, resp);
      AppendNextPageSynced(t, st, t.searchTerm, pageSize);
    }
  }

  /** Page 1 from the server, re-sorted by the server's own saved order, is page 1 of the
      server's listing. */
  lemma FirstPageLoadSynced(st: Store, search: string, pageSize: nat, t: Table)
    requires pageSize >= 1
    ensures var r := LoadEnd(t, 1, Loaded(ServerPayload(st, 1, search, pageSize)), GetState(st).order);
      Synced(r.items, Ordered(st, search), r.currentPage, pageSize)
  {
    var payload := ServerPayload(st, 1, search, pageSize);
    ResortOfServerPage(st, 1, search, pageSize);
    assert LoadEnd(t, 1, Loaded(payload), GetState(st).order).items == payload.items;
    FirstPageSynced(Ordered(st, search), pageSize);
  }

  /** What the drag library reports at the end of a drag: the row's index in the filtered
      view, and where it was dropped, if on the list. */
  datatype DropResult = DropResult(source: nat, destination: Option<nat>)

  /** The new table, and the order sent to `saveOrder`, if any. */
  datatype DragOutcome = DragOutcome(table: Table, saved: Option<seq<int>>)

  /** `handleDragEnd`. A drop off the list does nothing. Otherwise the dragged row moves
      within the filtered view, the cache is reconciled with the new view, and the ids of the
      new view, in order, are sent to the server as the saved order. */
  function DragEnd(t: Table, drop: DropResult): (r: DragOutcome)
    requires drop.destination.Some? ==>
      drop.source < |FilteredItems(t)| && drop.destination.value < |FilteredItems(t)|
    ensures drop.destination.None? ==> r.table == t && r.saved.None?
    ensures drop.destination.Some? ==>
      r.saved.Some? && r.table.(items := t.items) == t
      && multiset(r.table.items) == multiset(t.items)
      && |r.saved.value| == |FilteredItems(t)|
      && forall id :: id in r.saved.value <==> exists x :: x in FilteredItems(t) && x.id == id
  {
    match drop.destination
    case None => DragOutcome(t, None)
    case Some(destination) =>
      var view := FilteredItems(t);
      var moved := Move(view, drop.source, destination);
      var saved := Ids(moved);
      SameMembers(moved, view);
      IdsMembers(moved);
      DragOutcome(t.(items := Reconcile(t.items, moved)), Some(saved))
  }

  /** Moving a row of a view whose rows all come from the cache, then reconciling: the moved
      view goes to the front and every other cache entry keeps its relative order. */
  lemma MoveThenReconcile(cache: seq<Item>, view: seq<Item>, source: nat, destination: nat)
    requires DistinctIds(cache) && DistinctIds(view)
    requires forall x :: x in view ==> x in cache
    requires source < |view| && destination < |view|
    ensures var moved := Move(view, source, destination);
      var r := Reconcile(cache, moved);
      r == moved + Filter(Outside(IdSet(view)), cache)
      && r[..|view|] == moved
      && Filter(Outside(IdSet(view)), r) == Filter(Outside(IdSet(view)), cache)
      && DistinctIds(r)
  {
    var moved := Move(view, source, destination);
    PermutationKeepsDistinctIds(moved, view);
    SameMembers(moved, view);
    assert IdSet(moved) == IdSet(view);
    ReconcileMovesViewToFront(cache, moved);
    PermutationKeepsDistinctIds(Reconcile(cache, moved), cache);
  }

  /** With distinct ids in the cache, a drop puts the new view at the front of the cache,
      keeps every other cached item in its previous relative order, keeps ids distinct, and
      moves only the dragged row within the view. */
  lemma DragEndReorders(t: Table, source: nat, destination: nat)
    requires DistinctIds(t.items)
    requires source < |FilteredItems(t)| && destination < |FilteredItems(t)|
    ensures var view := FilteredItems(t);
      var moved := Move(view, source, destination);
      var r := DragEnd(t, DropResult(source, Some(destination)));
      r.table.items == moved + Filter(Outside(IdSet(view)), t.items)
      && r.table.items[..|view|] == moved
      && Filter(Outside(IdSet(view)), r.table.items) == Filter(Outside(IdSet(view)), t.items)
      && DistinctIds(r.table.items)
      && r.saved == Some(Ids(moved))
  {
    var view := FilteredItems(t);
    FilteredDistinctIds(t);
    MoveThenReconcile(t.items, view, source, destination);
  }
}
