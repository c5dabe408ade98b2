/** The server's query engine and overlay state (`ItemService`): a fixed collection whose ids
    and values both run 1..size, a saved order override, and a saved selection. `getItems`
    filters by text, sorts by the override and cuts out one page; `saveOrder`, `saveSelected`
    and `getState` set and read the overlay. */
module ItemService {
  import opened Wrappers
  import opened Numbers
  import opened Seqs
  import opened Items
  import opened Ordering

  /** Query defaults the HTTP layer supplies when a parameter is absent. */
  const DefaultPage: nat := 1
  const DefaultLimit: nat := 20
  const DefaultSearch: string := ""

  /** The service's fields. `size` stands for the collection length (1,000,000 in the
      deployed service); `selected` holds the saved `Set` in its insertion order. */
  datatype Store = Store(size: nat, order: seq<int>, selected: seq<int>)

  /** The generated collection: `{id: i + 1, value: i + 1}` for every index `i`. */
  function Collection(n: nat): (r: seq<Item>)
    ensures |r| == n
    ensures forall i :: 0 <= i < n ==> r[i] == Item(i + 1, i + 1)
  {
    seq(n, i => Item(i + 1, i + 1))
  }

  /** A freshly constructed service: no override and nothing selected. */
  function New(n: nat): Store
  {
    Store(n, [], [])
  }

  /** What the service keeps true of its state: the saved selection came out of a `Set`. */
  predicate Valid(st: Store)
  {
    Distinct(st.selected)
  }

  /** Step 1 of `getItems`: the items whose decimal value contains `search`; an empty search
      skips the filter. */
  function Filtered(n: nat, search: string): (r: seq<Item>)
    ensures forall x :: x in r <==> 1 <= x.id <= n && x.value == x.id && Matches(x, search)
    ensures Ascending(r)
  {
    var all := Collection(n);
    assert forall x :: x in all <==> 1 <= x.id <= n && x.value == x.id by {
      forall x: Item | 1 <= x.id <= n && x.value == x.id
        ensures x in all
      {
        assert all[x.id - 1] == x;
      }
    }
    assert forall x :: x in all ==> Matches(x, "");
    FilterKeepsAscending(MatchesTerm(search), all);
    if |search| > 0 then Filter(MatchesTerm(search), all) else all
  }

  /** Step 2 of `getItems`: the filtered items sorted by the override, or left in id order
      when the override is empty. */
  function Ordered(st: Store, search: string): seq<Item>
  {
    var f := Filtered(st.size, search);
    if |st.order| > 0 then StableSort(st.order, f) else f
  }

  /** `s.slice(start, start + limit)`, where `slice` clamps both ends to the array's length. */
  function Slice(s: seq<Item>, start: nat, limit: nat): (r: seq<Item>)
    ensures |r| == Min(limit, Max(0, |s| - start))
    ensures forall i :: 0 <= i < |r| ==> r[i] == s[start + i]
    ensures forall x :: x in r ==> x in s
  {
    var lo := Min(start, |s|);
    var hi := Min(start + limit, |s|);
    assert forall x :: x in s[lo..hi] ==> x in s;
    s[lo..hi]
  }

  /** Page `page` of `s`: `s.slice((page - 1) * limit, page * limit)`. */
  function Page(s: seq<Item>, page: nat, limit: nat): (r: seq<Item>)
    requires page >= 1 && limit >= 1
    ensures |r| == Min(limit, Max(0, |s| - (page - 1) * limit))
    ensures forall i :: 0 <= i < |r| ==> r[i] == s[(page - 1) * limit + i]
    ensures forall x :: x in r ==> x in s
  {
    Slice(s, (page - 1) * limit, limit)
  }

  datatype PageResult = PageResult(items: seq<Item>, total: nat, page: nat, totalPages: nat)

  /** The ids 1..n whose decimal text contains `search`: the items a query can return. */
  function MatchingIds(n: nat, search: string): set<int>
  {
    set id | 1 <= id <= n && Contains(Text(id), search)
  }

  /** `getItems(page, search, limit)`. */
  function GetItems(st: Store, page: nat, search: string, limit: nat): (r: PageResult)
    requires page >= 1 && limit >= 1
    ensures r.page == page
    ensures r.total == |MatchingIds(st.size, search)|
    ensures |r.items| == Min(limit, Max(0, r.total - (page - 1) * limit))
    ensures r.totalPages * limit >= r.total
    ensures r.totalPages == 0 || (r.totalPages - 1) * limit < r.total
    ensures forall x :: x in r.items ==> 1 <= x.id <= st.size && x.value == x.id && Matches(x, search)
  {
    var ordered := Ordered(st, search);
    OrderedIsPermutation(st, search);
    MatchCount(st.size, search);
    PageResult(Page(ordered, page, limit), |ordered|, page, CeilDiv(|ordered|, limit))
  }

  /** The filter in the form the client shares: an empty search filters nothing. */
  lemma FilteredIsFilter(n: nat, search: string)
    ensures Filtered(n, search) == Filter(MatchesTerm(search), Collection(n))
  {
    if |search| == 0 {
      EmptyTermKeepsAll(Collection(n));
    }
  }

  lemma MatchingIdsStep(n: nat, search: string)
    requires n >= 1
    ensures n !in MatchingIds(n - 1, search)
    ensures Contains(Text(n), search) ==> MatchingIds(n, search) == MatchingIds(n - 1, search) + {n}
    ensures !Contains(Text(n), search) ==> MatchingIds(n, search) == MatchingIds(n - 1, search)
  {
  }

  lemma {:induction false} FilterCount(n: nat, search: string)
    ensures |Filter(MatchesTerm(search), Collection(n))| == |MatchingIds(n, search)|
    decreases n
  {
    if n == 0 {
      assert MatchingIds(0, search) == {};
    } else {
      FilterCount(n - 1, search);
      FilterCountStep(n, search);
      MatchingIdsCountStep(n, search);
    }
  }

  /** Id `n` adds one to the number of matching ids exactly when its text contains the search. */
  lemma MatchingIdsCountStep(n: nat, search: string)
    requires n >= 1
    ensures |MatchingIds(n, search)| == |MatchingIds(n - 1, search)| + if Contains(Text(n), search) then 1 else 0
  {
    MatchingIdsStep(n, search);
    var before := MatchingIds(n - 1, search);
    if Contains(Text(n), search) {
      assert |before + {n}| == |before| + 1;
    }
  }

  /** Item `n` adds one to the filtered count exactly when its text contains the search. */
  lemma FilterCountStep(n: nat, search: string)
    requires n >= 1
    ensures |Filter(MatchesTerm(search), Collection(n))|
         == |Filter(MatchesTerm(search), Collection(n - 1))| + if Contains(Text(n), search) then 1 else 0
  {
    var p := MatchesTerm(search);
    var x := Item(n, n);
    assert Collection(n) == Collection(n - 1) + [x];
    FilterConcat(p, Collection(n - 1), [x]);
    FilterCons(p, x, []);
    assert [x] + [] == [x];
    assert p(x) == Contains(Text(n), search);
  }

  /** The number of filtered items is the number of matching ids. */
  lemma MatchCount(n: nat, search: string)
    ensures |Filtered(n, search)| == |MatchingIds(n, search)|
  {
    FilteredIsFilter(n, search);
    FilterCount(n, search);
  }

  lemma OrderedIsPermutation(st: Store, search: string)
    ensures multiset(Ordered(st, search)) == multiset(Filtered(st.size, search))
    ensures |Ordered(st, search)| == |Filtered(st.size, search)|
    ensures DistinctIds(Ordered(st, search))
    ensures forall x :: x in Ordered(st, search) <==> x in Filtered(st.size, search)
  {
    var f := Filtered(st.size, search);
    if |st.order| > 0 {
      StableSortKeepsDistinctIds(st.order, f);
      var r := StableSort(st.order, f);
      assert forall x :: x in r <==> x in multiset(r);
      assert forall x :: x in f <==> x in multiset(f);
    }
  }

  /** `total` and `totalPages` do not depend on which page was asked for. */
  lemma TotalsIndependentOfPage(st: Store, search: string, limit: nat, p: nat, q: nat)
    requires p >= 1 && q >= 1 && limit >= 1
    ensures GetItems(st, p, search, limit).total == GetItems(st, q, search, limit).total
    ensures GetItems(st, p, search, limit).totalPages == GetItems(st, q, search, limit).totalPages
  {
  }

  /** The page `getItems` returns is that page of the ordered matches. */
  lemma GetItemsIsPage(st: Store, page: nat, search: string, limit: nat)
    requires page >= 1 && limit >= 1
    ensures GetItems(st, page, search, limit).items == Page(Ordered(st, search), page, limit)
  {
  }

  /** Pages 1..count of `s`, one after the other. */
  function Pages(s: seq<Item>, limit: nat, count: nat): seq<Item>
    requires limit >= 1
  {
    if count == 0 then [] else Pages(s, limit, count - 1) + Page(s, count, limit)
  }

  /** The page bounds of `s` (a slice of `s`, seen as a sequence of its own). */
  lemma PageBounds(s: seq<Item>, page: nat, limit: nat)
    requires page >= 1 && limit >= 1
    ensures (page - 1) * limit + limit == page * limit
    ensures Page(s, page, limit) == s[Min((page - 1) * limit, |s|)..Min(page * limit, |s|)]
  {
    assert (page - 1) * limit + limit == page * limit by {
      assert (page - 1) * limit == page * limit - 1 * limit;
    }
  }

  /** The first `count` pages together are the first `count * limit` elements. */
  lemma PagesArePrefix(s: seq<Item>, limit: nat, count: nat)
    requires limit >= 1
    ensures Pages(s, limit, count) == s[..Min(count * limit, |s|)]
  {
    PagesPrefixAt(s, limit, count, count * limit);
  }

  /** `PagesArePrefix` with the product `count * limit` named `a`. */
  lemma {:induction false} PagesPrefixAt(s: seq<Item>, limit: nat, count: nat, a: nat)
    requires limit >= 1 && a == count * limit
    ensures Pages(s, limit, count) == s[..Min(a, |s|)]
    decreases count
  {
    if count > 0 {
      MulPred(count, limit);
      var prev := a - limit;
      PagesPrefixAt(s, limit, count - 1, prev);
      PagesStep(s, limit, count, prev);
    }
  }

  /** One more page extends the prefix read so far by `limit` elements. */
  lemma PagesStep(s: seq<Item>, limit: nat, count: nat, a: nat)
    requires limit >= 1 && count >= 1 && a == (count - 1) * limit
    requires Pages(s, limit, count - 1) == s[..Min(a, |s|)]
    ensures Pages(s, limit, count) == s[..Min(a + limit, |s|)]
  {
    assert Page(s, count, limit) == Slice(s, a, limit);
    PrefixThenSlice(s, a, limit);
  }

  /** A prefix followed by the slice that starts where it ends is the longer prefix. */
  lemma PrefixThenSlice(s: seq<Item>, a: nat, limit: nat)
    ensures s[..Min(a, |s|)] + Slice(s, a, limit) == s[..Min(a + limit, |s|)]
  {
    var lo := Min(a, |s|);
    var hi := Min(a + limit, |s|);
    assert Slice(s, a, limit) == s[lo..hi];
    assert s[..lo] + s[lo..hi] == s[..hi];
  }

  /** Reading pages 1..totalPages in turn returns every matching item exactly once. */
  lemma PagesCoverMatches(st: Store, search: string, limit: nat)
    requires limit >= 1
    ensures var all := Pages(Ordered(st, search), limit, GetItems(st, 1, search, limit).totalPages);
      multiset(all) == multiset(Filtered(st.size, search)) && DistinctIds(all)
  {
    var s := Ordered(st, search);
    var count := GetItems(st, 1, search, limit).totalPages;
    PagesArePrefix(s, limit, count);
    assert s[..|s|] == s;
    OrderedIsPermutation(st, search);
  }

  /** With no override the pages come in ascending id order; with no search either, page `p`
      holds exactly the ids `(p - 1) * limit + 1`, `(p - 1) * limit + 2`, ... */
  lemma EmptyOverrideKeepsIdOrder(st: Store, page: nat, search: string, limit: nat)
    requires |st.order| == 0 && page >= 1 && limit >= 1
    ensures Ascending(GetItems(st, page, search, limit).items)
    ensures var items := GetItems(st, page, search, limit).items;
      search == "" ==>
        forall i :: 0 <= i < |items| ==> items[i].id == (page - 1) * limit + i + 1
  {
    GetItemsIsPage(st, page, search, limit);
    assert Ordered(st, search) == Filtered(st.size, search);
    PageOfAscending(Filtered(st.size, search), page, limit);
    if search == "" {
      FilteredEmptyIsCollection(st.size);
      PageOfCollection(st.size, page, limit);
    }
  }

  /** The empty search keeps the whole collection. */
  lemma FilteredEmptyIsCollection(n: nat)
    ensures Filtered(n, "") == Collection(n)
  {
  }

  /** Every page of an ascending sequence is ascending. */
  lemma PageOfAscending(s: seq<Item>, page: nat, limit: nat)
    requires Ascending(s) && page >= 1 && limit >= 1
    ensures Ascending(Page(s, page, limit))
  {
    assert Page(s, page, limit) == Slice(s, (page - 1) * limit, limit);
    SliceOfAscending(s, (page - 1) * limit, limit);
  }

  /** Page `page` of the generated collection holds the ids that follow its start. */
  lemma PageOfCollection(n: nat, page: nat, limit: nat)
    requires page >= 1 && limit >= 1
    ensures var r := Page(Collection(n), page, limit);
      forall i :: 0 <= i < |r| ==> r[i].id == (page - 1) * limit + i + 1
  {
    assert Page(Collection(n), page, limit) == Slice(Collection(n), (page - 1) * limit, limit);
    SliceOfCollection(n, (page - 1) * limit, limit);
  }

  /** A slice of the generated collection holds consecutive ids. */
  lemma SliceOfCollection(n: nat, start: nat, limit: nat)
    ensures var r := Slice(Collection(n), start, limit);
      forall i :: 0 <= i < |r| ==> r[i].id == start + i + 1
  {
    var r := Slice(Collection(n), start, limit);
    forall i | 0 <= i < |r|
      ensures r[i].id == start + i + 1
    {
      assert r[i] == Collection(n)[start + i];
    }
  }

  /** Any slice of an ascending sequence is ascending. */
  lemma SliceOfAscending(s: seq<Item>, start: nat, limit: nat)
    requires Ascending(s)
    ensures Ascending(Slice(s, start, limit))
  {
    var r := Slice(s, start, limit);
    forall i, j | 0 <= i < j < |r|
      ensures r[i].id < r[j].id
    {
      assert r[i] == s[start + i] && r[j] == s[start + j];
    }
  }

  /** A request that gives no parameters, on a fresh service, gets the defaults: the first
      `DefaultLimit` items, ids 1, 2, ..., and the whole collection as total. */
  lemma DefaultQuery(n: nat)
    ensures var r := GetItems(New(n), DefaultPage, DefaultSearch, DefaultLimit);
      r.total == n && r.page == 1 && |r.items| == Min(DefaultLimit, n)
      && forall i :: 0 <= i < |r.items| ==> r.items[i] == Item(i + 1, i + 1)
  {
    var st := New(n);
    assert Ordered(st, DefaultSearch) == Collection(n);
    MatchCount(n, DefaultSearch);
    GetItemsIsPage(st, DefaultPage, DefaultSearch, DefaultLimit);
  }

  /** With an override, the query result lists the ranked ids first in strictly increasing
      rank, then the unranked matches in ascending id order. */
  lemma OverrideOrdering(st: Store, search: string)
    requires |st.order| > 0
    ensures var r := Ordered(st, search);
      forall i, j :: 0 <= i < j < |r| && Key(st.order, r[j]).Some? ==> Key(st.order, r[i]).Some?
    ensures var r := Ordered(st, search);
      forall i, j :: 0 <= i < j < |r| && Key(st.order, r[j]).Some? ==>
        Key(st.order, r[i]).value < Key(st.order, r[j]).value
    ensures Filter(KeyIs(st.order, None), Ordered(st, search))
         == Filter(KeyIs(st.order, None), Filtered(st.size, search))
    ensures Ascending(Filter(KeyIs(st.order, None), Ordered(st, search)))
  {
    var f := Filtered(st.size, search);
    StableSortPlacesRankedFirst(st.order, f);
    FilterKeepsAscending(KeyIs(st.order, None), f);
  }

  /** Every page of a sorted sequence is sorted. */
  lemma PageOfSorted(order: seq<int>, s: seq<Item>, page: nat, limit: nat)
    requires page >= 1 && limit >= 1 && SortedBy(order, s)
    ensures SortedBy(order, Page(s, page, limit))
  {
    var start := (page - 1) * limit;
    assert Page(s, page, limit) == Slice(s, start, limit);
    SliceOfSorted(order, s, start, limit);
  }

  /** Any slice of a sorted sequence is sorted. */
  lemma SliceOfSorted(order: seq<int>, s: seq<Item>, start: nat, limit: nat)
    requires SortedBy(order, s)
    ensures SortedBy(order, Slice(s, start, limit))
  {
    var r := Slice(s, start, limit);
    forall i, j | 0 <= i < j < |r|
      ensures NotAfter(Key(order, r[i]), Key(order, r[j]))
    {
      assert r[i] == s[start + i] && r[j] == s[start + j];
    }
  }

  /** With an override, every page is already in override order. */
  lemma PageIsSorted(st: Store, page: nat, search: string, limit: nat)
    requires page >= 1 && limit >= 1 && |st.order| > 0
    ensures SortedBy(st.order, GetItems(st, page, search, limit).items)
  {
    var s := Ordered(st, search);
    assert SortedBy(st.order, s);
    GetItemsIsPage(st, page, search, limit);
    PageOfSorted(st.order, s, page, limit);
  }

  datatype StateView = StateView(order: seq<int>, selected: seq<int>)

  /** `getState()`: the saved order as given, and the saved `Set` as an array. */
  function GetState(st: Store): StateView
  {
    StateView(st.order, st.selected)
  }

  /** `saveOrder(order)`: replaces the override wholesale. */
  function SaveOrder(st: Store, order: seq<int>): (r: Store)
    ensures GetState(r).order == order
    ensures GetState(r).selected == GetState(st).selected
    ensures r.size == st.size
    ensures Valid(st) ==> Valid(r)
  {
    st.(order := order)
  }

  /** `saveSelected(selected)`: replaces the selection with `new Set(selected)`. */
  function SaveSelected(st: Store, selected: seq<int>): (r: Store)
    ensures Distinct(GetState(r).selected)
    ensures forall id :: id in GetState(r).selected <==> id in selected
    ensures GetState(r).order == GetState(st).order
    ensures r.size == st.size
    ensures Valid(r)
  {
    st.(selected := Dedup(selected))
  }

  /** Saving the same order or selection twice is saving it once. */
  lemma SaveIdempotent(st: Store, order: seq<int>, selected: seq<int>)
    ensures SaveOrder(SaveOrder(st, order), order) == SaveOrder(st, order)
    ensures SaveSelected(SaveSelected(st, selected), selected) == SaveSelected(st, selected)
  {
  }

  /** Writing back what `getState` returned leaves the service unchanged. */
  lemma SaveStateRoundTrip(st: Store)
    requires Valid(st)
    ensures SaveSelected(SaveOrder(st, GetState(st).order), GetState(st).selected) == st
  {
    DedupOfDistinct(st.selected);
  }

  /** Saving a selection that is already distinct stores it exactly, order included. */
  lemma SaveDistinctSelection(st: Store, selected: seq<int>)
    requires Distinct(selected)
    ensures GetState(SaveSelected(st, selected)).selected == selected
  {
    DedupOfDistinct(selected);
  }
}
