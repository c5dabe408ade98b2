/** The user order override as both sides apply it: an id's rank is its position in the saved
    order, ids the order does not mention sort after all ranked ids, and the sort is stable, so
    unranked ids (which compare equal to each other) keep their incoming relative order. */
module Ordering {
  import opened Wrappers
  import opened Seqs
  import opened Items

  /** The rank the override gives `id`: the index recorded for it in a map built from the
      order's (id, index) pairs. A later entry of the same key overwrites an earlier one, so it
      is the LAST index of `id`. */
  function Rank(order: seq<int>, id: int): (r: Option<nat>)
    ensures r.None? <==> id !in order
    ensures r.Some? ==> r.value < |order| && order[r.value] == id
    ensures r.Some? ==> forall j :: r.value < j < |order| ==> order[j] != id
  {
    if |order| == 0 then None
    else if order[|order| - 1] == id then Some(|order| - 1)
    else Rank(order[..|order| - 1], id)
  }

  function Key(order: seq<int>, x: Item): Option<nat>
  {
    Rank(order, x.id)
  }

  /** The sign of the comparator's `orderA - orderB`. A missing rank stands for `Infinity` on
      the server and `Number.MAX_VALUE` on the client: against a finite rank the difference has
      the same sign either way, and two missing ranks give `NaN` (server) or `0` (client), both of
      which the sort reads as "equal". */
  function Compare(a: Option<nat>, b: Option<nat>): int
  {
    match (a, b)
    case (Some(i), Some(j)) => i as int - j as int
    case (Some(_), None) => -1
    case (None, Some(_)) => 1
    case (None, None) => 0
  }

  /** `a` may stay before `b`: the comparator does not ask to swap them. */
  predicate NotAfter(a: Option<nat>, b: Option<nat>)
  {
    Compare(a, b) <= 0
  }

  /** Every adjacent-or-not pair of `s` is in comparator order. */
  predicate SortedBy(order: seq<int>, s: seq<Item>)
  {
    forall i, j :: 0 <= i < j < |s| ==> NotAfter(Key(order, s[i]), Key(order, s[j]))
  }

  /** An element that comes no later than every element of a sorted sequence may lead it. */
  lemma ConsSorted(order: seq<int>, a: Item, rest: seq<Item>)
    requires SortedBy(order, rest)
    requires forall j :: 0 <= j < |rest| ==> NotAfter(Key(order, a), Key(order, rest[j]))
    ensures SortedBy(order, [a] + rest)
  {
    var r := [a] + rest;
    forall i, j | 0 <= i < j < |r|
      ensures NotAfter(Key(order, r[i]), Key(order, r[j]))
    {
      assert r[j] == rest[j - 1];
      if i > 0 {
        assert r[i] == rest[i - 1];
      }
    }
  }

  /** When `x` goes after the head of the sorted `t`, that head comes no later than anything
      the insertion into the tail of `t` returns. */
  lemma HeadPrecedes(order: seq<int>, x: Item, t: seq<Item>, rest: seq<Item>)
    requires SortedBy(order, t) && |t| > 0
    requires !NotAfter(Key(order, x), Key(order, t[0]))
    requires multiset(rest) == multiset(t[1..]) + multiset{x}
    ensures forall j :: 0 <= j < |rest| ==> NotAfter(Key(order, t[0]), Key(order, rest[j]))
  {
    forall j | 0 <= j < |rest|
      ensures NotAfter(Key(order, t[0]), Key(order, rest[j]))
    {
      assert rest[j] in multiset(rest);
      if rest[j] != x {
        assert rest[j] in multiset(t[1..]);
        var k :| 0 <= k < |t[1..]| && t[1..][k] == rest[j];
        assert t[k + 1] == rest[j];
      }
    }
  }

  /** Places `x` before the first element of the sorted `t` it does not come after. */
  function Insert(order: seq<int>, x: Item, t: seq<Item>): (r: seq<Item>)
    requires SortedBy(order, t)
    ensures |r| == |t| + 1
    ensures multiset(r) == multiset(t) + multiset{x}
    ensures SortedBy(order, r)
  {
    if |t| == 0 || NotAfter(Key(order, x), Key(order, t[0])) then
      ConsSorted(order, x, t);
      [x] + t
    else
      var rest := Insert(order, x, t[1..]);
      HeadPrecedes(order, x, t, rest);
      ConsSorted(order, t[0], rest);
      assert t == [t[0]] + t[1..];
      [t[0]] + rest
  }

  /** `Array.prototype.sort` with the rank comparator. The sort is stable, so it is the
      insertion sort that inserts each element before the first later-sorted one it does not
      come after. */
  function StableSort(order: seq<int>, s: seq<Item>): (r: seq<Item>)
    ensures |r| == |s|
    ensures multiset(r) == multiset(s)
    ensures SortedBy(order, r)
  {
    if |s| == 0 then []
    else
      assert s == [s[0]] + s[1..];
      Insert(order, s[0], StableSort(order, s[1..]))
  }

  function KeyIs(order: seq<int>, k: Option<nat>): Item -> bool
  {
    x => Key(order, x) == k
  }

  lemma {:induction false} InsertKeepsTies(order: seq<int>, x: Item, t: seq<Item>, k: Option<nat>)
    requires SortedBy(order, t)
    ensures Filter(KeyIs(order, k), Insert(order, x, t))
         == Filter(KeyIs(order, k), [x]) + Filter(KeyIs(order, k), t)
    decreases |t|
  {
    var p := KeyIs(order, k);
    if |t| == 0 || NotAfter(Key(order, x), Key(order, t[0])) {
      FilterConcat(p, [x], t);
    } else {
      var tail := t[1..];
      assert SortedBy(order, tail) by {
        forall i, j | 0 <= i < j < |tail|
          ensures NotAfter(Key(order, tail[i]), Key(order, tail[j]))
        {
          assert tail[i] == t[i + 1] && tail[j] == t[j + 1];
        }
      }
      var rest := Insert(order, x, tail);
      assert Insert(order, x, t) == [t[0]] + rest;
      InsertKeepsTies(order, x, tail, k);
      assert Key(order, t[0]) != Key(order, x);
      FilterSwap(p, t[0], x, rest, tail);
      assert [t[0]] + tail == t;
    }
  }

  /** Stability: for every rank (and for "no rank"), the elements carrying it appear in the
      result in the same order as in the input. */
  lemma {:induction false} StableSortKeepsTies(order: seq<int>, s: seq<Item>, k: Option<nat>)
    ensures Filter(KeyIs(order, k), StableSort(order, s)) == Filter(KeyIs(order, k), s)
    decreases |s|
  {
    if |s| > 0 {
      var p := KeyIs(order, k);
      StableSortKeepsTies(order, s[1..], k);
      InsertKeepsTies(order, s[0], StableSort(order, s[1..]), k);
      FilterConcat(p, [s[0]], s[1..]);
      assert [s[0]] + s[1..] == s;
    }
  }

  /** Sorting an already sorted sequence changes nothing. */
  lemma {:induction false} StableSortOfSorted(order: seq<int>, s: seq<Item>)
    requires SortedBy(order, s)
    ensures StableSort(order, s) == s
    decreases |s|
  {
    if |s| > 0 {
      assert SortedBy(order, s[1..]);
      StableSortOfSorted(order, s[1..]);
      assert [s[0]] + s[1..] == s;
    }
  }

  lemma {:induction false} InsertKeepsDistinctIds(order: seq<int>, x: Item, t: seq<Item>)
    requires SortedBy(order, t)
    requires DistinctIds(t)
    requires forall y :: y in t ==> y.id != x.id
    ensures DistinctIds(Insert(order, x, t))
    decreases |t|
  {
    if !(|t| == 0 || NotAfter(Key(order, x), Key(order, t[0]))) {
      var rest := Insert(order, x, t[1..]);
      assert DistinctIds(t[1..]);
      InsertKeepsDistinctIds(order, x, t[1..]);
      forall j | 0 <= j < |rest|
        ensures rest[j].id != t[0].id
      {
        assert rest[j] in multiset(rest);
        if rest[j] != x {
          var k :| 0 <= k < |t[1..]| && t[1..][k] == rest[j];
          assert t[k + 1] == rest[j];
        }
      }
    }
  }

  lemma {:induction false} StableSortKeepsDistinctIds(order: seq<int>, s: seq<Item>)
    requires DistinctIds(s)
    ensures DistinctIds(StableSort(order, s))
    decreases |s|
  {
    if |s| > 0 {
      assert DistinctIds(s[1..]);
      StableSortKeepsDistinctIds(order, s[1..]);
      var t := StableSort(order, s[1..]);
      forall y | y in t
        ensures y.id != s[0].id
      {
        assert y in multiset(s[1..]);
        var k :| 0 <= k < |s[1..]| && s[1..][k] == y;
        assert s[k + 1] == y;
      }
      InsertKeepsDistinctIds(order, s[0], t);
    }
  }

  /** Ranked items come before unranked ones in any sorted sequence. */
  lemma RankedBeforeUnranked(order: seq<int>, r: seq<Item>, i: nat, j: nat)
    requires SortedBy(order, r)
    requires i < j < |r| && Key(order, r[j]).Some?
    ensures Key(order, r[i]).Some?
  {
    assert NotAfter(Key(order, r[i]), Key(order, r[j]));
  }

  /** Among distinct ids, ranks strictly increase along a sorted sequence. */
  lemma RanksIncrease(order: seq<int>, r: seq<Item>, i: nat, j: nat)
    requires SortedBy(order, r) && DistinctIds(r)
    requires i < j < |r| && Key(order, r[j]).Some?
    ensures Key(order, r[i]).Some? && Key(order, r[i]).value < Key(order, r[j]).value
  {
    assert NotAfter(Key(order, r[i]), Key(order, r[j]));
    assert r[i].id != r[j].id;
  }

  /** What the override does to any sequence of items: ids the order mentions come first,
      ranked ids of distinct items come in strictly increasing rank, and the ids it does not
      mention keep their incoming relative order. */
  lemma StableSortPlacesRankedFirst(order: seq<int>, s: seq<Item>)
    ensures var r := StableSort(order, s);
      forall i, j :: 0 <= i < j < |r| && Key(order, r[j]).Some? ==> Key(order, r[i]).Some?
    ensures var r := StableSort(order, s);
      DistinctIds(s) ==>
        forall i, j :: 0 <= i < j < |r| && Key(order, r[j]).Some? ==>
          Key(order, r[i]).Some? && Key(order, r[i]).value < Key(order, r[j]).value
    ensures Filter(KeyIs(order, None), StableSort(order, s)) == Filter(KeyIs(order, None), s)
  {
    var r := StableSort(order, s);
    StableSortKeepsTies(order, s, None);
    forall i, j | 0 <= i < j < |r| && Key(order, r[j]).Some?
      ensures Key(order, r[i]).Some?
    {
      RankedBeforeUnranked(order, r, i, j);
    }
    if DistinctIds(s) {
      StableSortKeepsDistinctIds(order, s);
      forall i, j | 0 <= i < j < |r| && Key(order, r[j]).Some?
        ensures Key(order, r[i]).Some? && Key(order, r[i]).value < Key(order, r[j]).value
      {
        RanksIncrease(order, r, i, j);
      }
    }
  }
}
