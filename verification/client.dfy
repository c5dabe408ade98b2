/** The state the three client tables keep, and the logic they share: the search-filtered
    view of the cache, the infinite-scroll rule that turns the last visible row into a page
    request, the selection handlers, and the append-only load of the two virtualised tables.
    Each handler is one atomic transition on the record. */
module Client {
  import opened Wrappers
  import opened Numbers
  import opened Seqs
  import opened Items
  import opened Selection
  import opened ItemService

  /** The component state: the client cache of loaded items, the server's last reported
      total, the last page loaded, whether a load is in flight, the selected ids and the
      search box's text. */
  datatype Table = Table(
    items: seq<Item>,
    totalItems: nat,
    currentPage: nat,
    loading: bool,
    selected: set<int>,
    searchTerm: string)

  /** The state on mount, before any load. */
  function Initial(): Table
  {
    Table([], 0, 1, false, {}, "")
  }

  /** The default page size of all three tables. */
  const DefaultPageSize: nat := 20

  /** The filtered view: the cached items whose value, as decimal text, contains the search
      term, each as often as the cache holds it, in cache order. */
  function FilteredItems(t: Table): (r: seq<Item>)
    ensures |r| <= |t.items|
    ensures forall x :: x in r <==> x in t.items && Matches(x, t.searchTerm)
    ensures Subsequence(r, t.items)
  {
    FilterKeepsCountAndOrder(MatchesTerm(t.searchTerm), t.items);
    Filter(MatchesTerm(t.searchTerm), t.items)
  }

  /** The filtered view holds each matching cached item exactly as often as the cache does. */
  lemma FilteredCounts(t: Table)
    ensures forall x :: multiset(FilteredItems(t))[x]
                     == if Matches(x, t.searchTerm) then multiset(t.items)[x] else 0
  {
    FilterKeepsCountAndOrder(MatchesTerm(t.searchTerm), t.items);
  }

  /** An empty search box shows the whole cache, in cache order. */
  lemma EmptyTermShowsCache(t: Table)
    requires t.searchTerm == ""
    ensures FilteredItems(t) == t.items
  {
    EmptyTermKeepsAll(t.items);
  }

  /** The filtered view of a cache with distinct ids has distinct ids. */
  lemma FilteredDistinctIds(t: Table)
    requires DistinctIds(t.items)
    ensures DistinctIds(FilteredItems(t))
  {
    FilterKeepsDistinctIds(MatchesTerm(t.searchTerm), t.items);
  }

  /** What one row of a virtualised table renders. */
  datatype Row = ItemRow(item: Item, checked: bool) | LoadingRow | EmptyRow

  /** The body of a successful `getItems` response. */
  datatype Payload = Payload(items: seq<Item>, total: nat)

  /** How a load ends: with a payload, or with a thrown error or a response without a body,
      which the handlers treat alike. */
  datatype Response = Loaded(payload: Payload) | Failed

  /** The payload the server sends for one query. */
  function ServerPayload(st: Store, page: nat, search: string, limit: nat): (r: Payload)
    requires page >= 1 && limit >= 1
    ensures r.items == Page(Ordered(st, search), page, limit)
    ensures r.total == |Ordered(st, search)|
  {
    var g := GetItems(st, page, search, limit);
    GetItemsIsPage(st, page, search, limit);
    OrderedIsPermutation(st, search);
    MatchCount(st.size, search);
    Payload(g.items, g.total)
  }

  /** The cache holds exactly pages `1..page` of the server's listing `server`: cache
      position `i` is server position `i`. */
  predicate Synced(items: seq<Item>, server: seq<Item>, page: nat, pageSize: nat)
  {
    items == server[..Min(page * pageSize, |server|)]
  }

  /** Appending the next page to a synced cache keeps it synced, one page further. */
  lemma AppendNextPage(items: seq<Item>, server: seq<Item>, page: nat, pageSize: nat)
    requires pageSize >= 1
    requires Synced(items, server, page, pageSize)
    ensures Synced(items + Page(server, page + 1, pageSize), server, page + 1, pageSize)
  {
    PageBounds(server, page + 1, pageSize);
    var lo := Min(page * pageSize, |server|);
    var hi := Min((page + 1) * pageSize, |server|);
    assert server[..lo] + server[lo..hi] == server[..hi];
  }

  /** Page 1 alone is a synced cache. */
  lemma FirstPageSynced(server: seq<Item>, pageSize: nat)
    requires pageSize >= 1
    ensures Synced(Page(server, 1, pageSize), server, 1, pageSize)
  {
    assert Synced([], server, 0, pageSize);
    AppendNextPage([], server, 0, pageSize);
    assert [] + Page(server, 1, pageSize) == Page(server, 1, pageSize);
  }

  /** `Math.floor(lastIndex / pageSize) + 1`: the page that holds row `lastIndex`. */
  function PageToLoad(lastIndex: nat, pageSize: nat): (r: nat)
    requires pageSize >= 1
    ensures r >= 1
    ensures (r - 1) * pageSize <= lastIndex < r * pageSize
  {
    BlockOf(lastIndex, pageSize)
  }

  /** The scroll effect of both virtualised tables. `visible` are the indices the virtualiser
      currently renders, in ascending order; the effect reads the last one. It asks for the
      page of that row when the page lies beyond `currentPage`, no load is in flight and the
      server reported more items than the cache holds. */
  function Trigger(t: Table, visible: seq<nat>, pageSize: nat): (r: Option<nat>)
    requires pageSize >= 1
    ensures r.Some? <==>
      |visible| > 0 && !t.loading && |t.items| < t.totalItems
      && visible[|visible| - 1] >= t.currentPage * pageSize
    ensures r.Some? ==>
      r.value > t.currentPage
      && (r.value - 1) * pageSize <= visible[|visible| - 1] < r.value * pageSize
  {
    if |visible| == 0 then None
    else
      var p := PageToLoad(visible[|visible| - 1], pageSize);
      BlockOfAtLeast(visible[|visible| - 1], pageSize, t.currentPage + 1);
      if p > t.currentPage && !t.loading && |t.items| < t.totalItems then Some(p) else None
  }

  /** Once a load is in flight the effect asks for nothing, whatever is visible. */
  lemma NoTriggerWhileLoading(t: Table, visible: seq<nat>, pageSize: nat)
    requires pageSize >= 1 && t.loading
    ensures Trigger(t, visible, pageSize) == None
  {
  }

  /** With the row after the cache visible, an idle table whose cache is `currentPage` full
      pages asks for the next page. */
  lemma TriggerNextPage(t: Table, pageSize: nat)
    requires pageSize >= 1
    requires !t.loading && |t.items| < t.totalItems
    requires |t.items| == t.currentPage * pageSize
    ensures Trigger(t, [|t.items|], pageSize) == Some(t.currentPage + 1)
  {
    BlockOfAtLeast(|t.items|, pageSize, t.currentPage + 1);
    BlockOfAtLeast(|t.items|, pageSize, t.currentPage + 2);
    assert (t.currentPage + 1) * pageSize == t.currentPage * pageSize + pageSize;
  }

  /** `toggleItemSelection(id)` on the table: only the selection changes. */
  function ToggleRow(t: Table, id: int): (r: Table)
    ensures r.items == t.items && r.searchTerm == t.searchTerm && r.loading == t.loading
    ensures r.currentPage == t.currentPage && r.totalItems == t.totalItems
    ensures forall x :: x in r.selected <==> (x in t.selected <==> x != id)
  {
    t.(selected := Toggle(t.selected, id))
  }

  /** `handleSelectAll`: exactly the ids of cached items that match the search. */
  function SelectAllRows(t: Table): (r: Table)
    ensures r.items == t.items && r.searchTerm == t.searchTerm && r.loading == t.loading
    ensures r.currentPage == t.currentPage && r.totalItems == t.totalItems
    ensures forall id :: id in r.selected <==>
      exists x :: x in t.items && Matches(x, t.searchTerm) && x.id == id
  {
    var view := FilteredItems(t);
    var r := t.(selected := SelectAll(view));
    assert forall id :: id in r.selected ==> exists x :: x in view && x.id == id;
    r
  }

  /** `handleClearSelection`. */
  function ClearRows(t: Table): (r: Table)
    ensures r.items == t.items && r.searchTerm == t.searchTerm && r.loading == t.loading
    ensures r.currentPage == t.currentPage && r.totalItems == t.totalItems
    ensures forall id :: id !in r.selected
  {
    t.(selected := Clear())
  }

  /** Toggling a row twice leaves the table as it was. */
  lemma ToggleRowTwice(t: Table, id: int)
    ensures ToggleRow(ToggleRow(t, id), id) == t
  {
    ToggleSelfInverse(t.selected, id);
  }

  /** Selecting all then toggling a shown row deselects exactly that row. */
  lemma ToggleAfterSelectAll(t: Table, i: nat)
    requires i < |FilteredItems(t)|
    ensures var id := FilteredItems(t)[i].id;
      ToggleRow(SelectAllRows(t), id).selected == SelectAll(FilteredItems(t)) - {id}
  {
  }

  /** The start of `loadItems` in the virtualised tables: it only raises `loading`. It has
      no guard of its own; the scroll effect checks `loading` before calling it. */
  function AppendBegin(t: Table): (r: Table)
    ensures r.loading
    ensures r.(loading := t.loading) == t
  {
    t.(loading := true)
  }

  /** The end of `loadItems` in the virtualised tables. A payload is appended to the cache,
      page 1 included, and its total and page number are adopted; a failure changes nothing
      else. Either way the load is over. */
  function AppendEnd(t: Table, page: nat, resp: Response): (r: Table)
    ensures !r.loading
    ensures r.selected == t.selected && r.searchTerm == t.searchTerm
    ensures resp.Failed? ==>
      r.items == t.items && r.currentPage == t.currentPage && r.totalItems == t.totalItems
    ensures resp.Loaded? ==>
      |r.items| == |t.items| + |resp.payload.items|
      && r.items[..|t.items|] == t.items && r.items[|t.items|..] == resp.payload.items
      && r.totalItems == resp.payload.total && r.currentPage == page
  {
    match resp
    case Failed => t.(loading := false)
    case Loaded(p) =>
      var items := t.items + p.items;
      assert items[..|t.items|] == t.items && items[|t.items|..] == p.items;
      t.(items := items, totalItems := p.total, currentPage := page, loading := false)
  }

  /** The mount load of page 1 into the empty cache leaves the cache synced at page 1. */
  lemma MountLoadSynced(st: Store, pageSize: nat)
    requires pageSize >= 1
    ensures var t := AppendEnd(AppendBegin(Initial()), 1, Loaded(ServerPayload(st, 1, "", pageSize)));
      Synced(t.items, Ordered(st, ""), t.currentPage, pageSize)
      && t.totalItems == |Ordered(st, "")|
  {
    FirstPageSynced(Ordered(st, ""), pageSize);
  }

  /** Loading page `currentPage + 1` from the server keeps a synced cache synced and
      advances `currentPage` by one. */
  lemma AppendNextPageSynced(t: Table, st: Store, search: string, pageSize: nat)
    requires pageSize >= 1
    requires Synced(t.items, Ordered(st, search), t.currentPage, pageSize)
    ensures var page := t.currentPage + 1;
      var r := AppendEnd(AppendBegin(t), page, Loaded(ServerPayload(st, page, search, pageSize)));
      Synced(r.items, Ordered(st, search), r.currentPage, pageSize)
      && r.currentPage == t.currentPage + 1
  {
    AppendNextPage(t.items, Ordered(st, search), t.currentPage, pageSize);
  }
}
