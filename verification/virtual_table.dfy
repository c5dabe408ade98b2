/** `VirtualTable`, the table the application mounts. It shares the append-only load and the
    scroll effect of `VirtualTable.new`, but its row count is the length of the filtered view,
    falling back to the cache length (plus a placeholder while loading) when nothing matches. */
module VirtualTableLive {
  import opened Wrappers
  import opened Numbers
  import opened Items
  import opened ItemService
  import opened Client

  /** The virtualiser's `count`: the length of the filtered view, or, when nothing matches,
      the cache length plus one placeholder row while a load is in flight. */
  function RowCount(t: Table): (r: nat)
    ensures |FilteredItems(t)| > 0 ==> r == |FilteredItems(t)|
    ensures |FilteredItems(t)| == 0 && t.loading ==> r == |t.items| + 1
    ensures |FilteredItems(t)| == 0 && !t.loading ==> r == |t.items|
    ensures !t.loading ==> r <= |t.items|
    ensures r == 0 <==> |t.items| == 0 && !t.loading
  {
    var n := |FilteredItems(t)|;
    if n != 0 then n else if t.loading then |t.items| + 1 else |t.items|
  }

  /** The row at virtual index `i`: the `i`-th item of the filtered view when there is one;
      otherwise a loading placeholder while a load is in flight, and nothing when idle. */
  function RowAt(t: Table, i: nat): (r: Row)
    ensures r.ItemRow? <==> i < |FilteredItems(t)|
    ensures r.ItemRow? ==> i < |FilteredItems(t)| && r.item == FilteredItems(t)[i]
    ensures r.ItemRow? ==>
      r.item in t.items && Matches(r.item, t.searchTerm) && (r.checked <==> r.item.id in t.selected)
    ensures r == LoadingRow <==> i >= |FilteredItems(t)| && t.loading
    ensures r == EmptyRow <==> i >= |FilteredItems(t)| && !t.loading
  {
    var view := FilteredItems(t);
    if i < |view| then ItemRow(view[i], view[i].id in t.selected)
    else if t.loading then LoadingRow
    else EmptyRow
  }

  /** What the rows below the count show: the filtered view, row by row, when anything
      matches; otherwise one placeholder per cached item (and one more) while loading, and as
      many empty rows as the cache holds when idle. */
  lemma RowsBelowCount(t: Table, i: nat)
    requires i < RowCount(t)
    ensures |FilteredItems(t)| > 0 ==>
      RowAt(t, i) == ItemRow(FilteredItems(t)[i], FilteredItems(t)[i].id in t.selected)
    ensures |FilteredItems(t)| == 0 && t.loading ==> RowAt(t, i) == LoadingRow && i <= |t.items|
    ensures |FilteredItems(t)| == 0 && !t.loading ==> RowAt(t, i) == EmptyRow && i < |t.items|
  {
  }

  /** With an empty search and a synced cache, row `i` of the cache shows server item `i`. */
  lemma RowShowsServerItem(t: Table, st: Store, pageSize: nat, i: nat)
    requires t.searchTerm == "" && Synced(t.items, Ordered(st, ""), t.currentPage, pageSize)
    requires i < |t.items|
    ensures i < RowCount(t)
    ensures RowAt(t, i).ItemRow? && RowAt(t, i).item == Ordered(st, "")[i]
  {
    EmptyTermShowsCache(t);
  }

  /** Every row index the idle table can show addresses a cached item, so the scroll effect
      never sees a row past the cache. When the cache is no longer than the pages loaded so
      far, the effect asks for nothing, whatever the virtualiser shows. */
  lemma NoTriggerWithinCache(t: Table, visible: seq<nat>, pageSize: nat)
    requires pageSize >= 1
    requires |t.items| <= t.currentPage * pageSize
    requires forall k :: 0 <= k < |visible| ==> visible[k] < RowCount(t)
    ensures Trigger(t, visible, pageSize) == None
  {
  }

  /** The table after the mount load of page 1. */
  function Mounted(st: Store, pageSize: nat): (t: Table)
    requires pageSize >= 1
    ensures |t.items| <= t.currentPage * pageSize
    ensures t.totalItems == |Ordered(st, "")|
    ensures |Ordered(st, "")| > pageSize ==> |t.items| < t.totalItems
    ensures !t.loading
  {
    var t := AppendEnd(AppendBegin(Initial()), 1, Loaded(ServerPayload(st, 1, "", pageSize)));
    assert |t.items| == |Page(Ordered(st, ""), 1, pageSize)|;
    t
  }

  /** As written, the table stalls after its first page: when the server holds more than
      one page, the cache is short of the total, yet no visible range makes the scroll effect
      ask for page 2, and a failed attempt would leave the same state. */
  lemma StallsAfterMount(st: Store, pageSize: nat, visible: seq<nat>)
    requires pageSize >= 1
    requires forall k :: 0 <= k < |visible| ==> visible[k] < RowCount(Mounted(st, pageSize))
    ensures |Ordered(st, "")| > pageSize ==> |Mounted(st, pageSize).items| < Mounted(st, pageSize).totalItems
    ensures Trigger(Mounted(st, pageSize), visible, pageSize) == None
  {
    NoTriggerWithinCache(Mounted(st, pageSize), visible, pageSize);
  }

  /** With the default page size and 1,000,000 items, the mounted table shows at most rows
      0..19 and never asks for more. */
  lemma StallExample(visible: seq<nat>)
    requires forall k :: 0 <= k < |visible| ==> visible[k] < RowCount(Mounted(New(1000000), DefaultPageSize))
    ensures RowCount(Mounted(New(1000000), DefaultPageSize)) <= DefaultPageSize
    ensures Mounted(New(1000000), DefaultPageSize).totalItems == 1000000
    ensures Trigger(Mounted(New(1000000), DefaultPageSize), visible, DefaultPageSize) == None
  {
    var st := New(1000000);
    assert Ordered(st, "") == Collection(1000000);
    StallsAfterMount(st, DefaultPageSize, visible);
  }
}
