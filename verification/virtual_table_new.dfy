/** `VirtualTable.new`: the virtualised table whose row count is `totalItems` when idle and
    one placeholder past the cache while loading. Loads always append, page 1 included, and
    the scroll effect asks for the page that holds the last visible row. */
module VirtualTableNew {
  import opened Wrappers
  import opened Numbers
  import opened Items
  import opened ItemService
  import opened Client

  /** The virtualiser's `count`. */
  function RowCount(t: Table): (r: nat)
    ensures r > |t.items| <==> t.loading || |t.items| < t.totalItems
    ensures t.loading ==> r == |t.items| + 1
    ensures !t.loading ==> r == t.totalItems
  {
    if t.loading then |t.items| + 1 else t.totalItems
  }

  /** The row at virtual index `i`: the `i`-th item of the filtered view when there is one,
      with its checkbox state, and a loading placeholder otherwise. */
  function RowAt(t: Table, i: nat): (r: Row)
    ensures r.ItemRow? <==> i < |FilteredItems(t)|
    ensures r.ItemRow? ==> i < |FilteredItems(t)| && r.item == FilteredItems(t)[i]
    ensures r.ItemRow? ==>
      r.item in t.items && Matches(r.item, t.searchTerm) && (r.checked <==> r.item.id in t.selected)
    ensures !r.ItemRow? ==> r == LoadingRow
  {
    var view := FilteredItems(t);
    if i < |view| then ItemRow(view[i], view[i].id in t.selected) else LoadingRow
  }

  /** With an empty search and a synced cache, the row at index `i` of the cache shows server
      item `i`. */
  lemma RowShowsServerItem(t: Table, st: Store, pageSize: nat, i: nat)
    requires t.searchTerm == "" && Synced(t.items, Ordered(st, ""), t.currentPage, pageSize)
    requires i < |t.items|
    ensures RowAt(t, i).ItemRow? && RowAt(t, i).item == Ordered(st, "")[i]
  {
    EmptyTermShowsCache(t);
  }

  /** A load the scroll effect starts, then ends: the same visible range asks for nothing more
      while it is in flight, nor after it succeeds; and a success raises `currentPage`. */
  lemma TriggeredLoadNotRepeated(t: Table, visible: seq<nat>, pageSize: nat, p: Payload)
    requires pageSize >= 1
    requires Trigger(t, visible, pageSize).Some?
    ensures Trigger(AppendBegin(t), visible, pageSize) == None
    ensures var page := Trigger(t, visible, pageSize).value;
      var r := AppendEnd(AppendBegin(t), page, Loaded(p));
      Trigger(r, visible, pageSize) == None && r.currentPage > t.currentPage
  {
    var page := Trigger(t, visible, pageSize).value;
    var r := AppendEnd(AppendBegin(t), page, Loaded(p));
    BlockOfAtLeast(visible[|visible| - 1], pageSize, page + 1);
  }

  /** With the row after a cache of full pages visible, the idle table asks for the next
      page: a count of `totalItems` lets the scroll reach past the cache. */
  lemma CountReachesNextPage(t: Table, pageSize: nat)
    requires pageSize >= 1
    requires !t.loading && |t.items| < t.totalItems
    requires |t.items| == t.currentPage * pageSize
    ensures |t.items| < RowCount(t)
    ensures Trigger(t, [|t.items|], pageSize) == Some(t.currentPage + 1)
  {
    TriggerNextPage(t, pageSize);
  }

  /** Appending a page beyond the next one to a cache of full pages puts, at the first new
      position, a server item from further down the listing. */
  lemma GapAfterSkip(items: seq<Item>, server: seq<Item>, current: nat, pageSize: nat, page: nat)
    requires pageSize >= 1 && DistinctIds(server)
    requires Synced(items, server, current, pageSize) && |items| == current * pageSize
    requires page >= current + 2 && (page - 1) * pageSize < |server|
    ensures var r := items + Page(server, page, pageSize);
      |items| < |server| && |r| > |items| && r[|items|] != server[|items|]
  {
    var added := Page(server, page, pageSize);
    var start := (page - 1) * pageSize;
    MulMonotone(current + 1, page - 1, pageSize);
    assert (current + 1) * pageSize == current * pageSize + pageSize;
    assert |items| < start;
    assert |added| >= 1;
    assert added[0] == server[start];
    assert server[|items|].id != server[start].id;
    assert (items + added)[|items|] == added[0];
  }

  /** As written, a scroll far enough past the cache asks for a later page than the next
      one; appending it leaves a gap, so cache position `|items|` no longer holds server
      position `|items|`. */
  lemma TriggerSkipsPages(t: Table, st: Store, pageSize: nat, last: nat)
    requires pageSize >= 1 && !t.loading
    requires Synced(t.items, Ordered(st, ""), t.currentPage, pageSize)
    requires |t.items| == t.currentPage * pageSize
    requires t.totalItems == |Ordered(st, "")|
    requires (t.currentPage + 1) * pageSize <= last < t.totalItems
    ensures last < RowCount(t)
    ensures Trigger(t, [last], pageSize).Some?
    ensures var page := Trigger(t, [last], pageSize).value;
      var r := AppendEnd(AppendBegin(t), page, Loaded(ServerPayload(st, page, "", pageSize)));
      page >= t.currentPage + 2
      && |r.items| > |t.items|
      && r.items[|t.items|] != Ordered(st, "")[|t.items|]
  {
    SkipTrigger(t, pageSize, last);
    var page := Trigger(t, [last], pageSize).value;
    var server := Ordered(st, "");
    var p := ServerPayload(st, page, "", pageSize);
    var r := AppendEnd(AppendBegin(t), page, Loaded(p));
    assert r.items == t.items + Page(server, page, pageSize);
    OrderedIsPermutation(st, "");
    GapAfterSkip(t.items, server, t.currentPage, pageSize, page);
  }

  /** A visible row at least one page past the end of a cache of full pages makes the idle
      table ask for a page beyond the next one, and that page starts no later than the row. */
  lemma SkipTrigger(t: Table, pageSize: nat, last: nat)
    requires pageSize >= 1 && !t.loading
    requires |t.items| == t.currentPage * pageSize
    requires (t.currentPage + 1) * pageSize <= last < t.totalItems
    ensures last < RowCount(t)
    ensures Trigger(t, [last], pageSize).Some?
    ensures Trigger(t, [last], pageSize).value >= t.currentPage + 2
    ensures (Trigger(t, [last], pageSize).value - 1) * pageSize <= last
  {
    MulPred(t.currentPage + 1, pageSize);
    BlockOfAtLeast(last, pageSize, t.currentPage + 2);
  }

  /** The smallest case: 60 items with the default page size, page 1 loaded, and row 45
      visible. The table asks for page 3, and cache position 20 then holds item 41 where the
      server's item 21 belongs. */
  lemma SkippedPageExample(n: nat)
    requires n >= 60
    ensures var t := Table(Collection(n)[..20], n, 1, false, {}, "");
      var r := AppendEnd(AppendBegin(t), 3, Loaded(ServerPayload(New(n), 3, "", DefaultPageSize)));
      45 < RowCount(t)
      && Trigger(t, [45], DefaultPageSize) == Some(3)
      && r.items[20] == Item(41, 41)
      && Ordered(New(n), "")[20] == Item(21, 21)
  {
    var t := Table(Collection(n)[..20], n, 1, false, {}, "");
    assert Ordered(New(n), "") == Collection(n);
    assert PageToLoad(45, DefaultPageSize) == 3;
  }

  /** The scroll effect as evidently intended: it fires under the same conditions but asks
      for the page after `currentPage`, as `SimpleTable` does. */
  function NextPageTrigger(t: Table, visible: seq<nat>, pageSize: nat): (r: Option<nat>)
    requires pageSize >= 1
    ensures r.Some? <==> Trigger(t, visible, pageSize).Some?
    ensures r.Some? ==> r.value == t.currentPage + 1
  {
    if Trigger(t, visible, pageSize).Some? then Some(t.currentPage + 1) else None
  }

  /** Loads asked for by the corrected effect keep the cache synced with the server listing,
      one page further each time. */
  lemma NextPageKeepsSync(t: Table, st: Store, visible: seq<nat>, pageSize: nat)
    requires pageSize >= 1
    requires Synced(t.items, Ordered(st, ""), t.currentPage, pageSize)
    requires NextPageTrigger(t, visible, pageSize).Some?
    ensures var page := NextPageTrigger(t, visible, pageSize).value;
      var r := AppendEnd(AppendBegin(t), page, Loaded(ServerPayload(st, page, "", pageSize)));
      Synced(r.items, Ordered(st, ""), r.currentPage, pageSize)
      && r.currentPage == t.currentPage + 1
  {
    AppendNextPageSynced(t, st, "", pageSize);
  }
}
