/** The drag-and-drop reorder of `SimpleTable`: the dragged row moves within the filtered
    view, then each row of the new view is moved, by id, to its view position inside the full
    client cache. */
module Reorder {
  import opened Seqs
  import opened Items

  /** The dragged row is spliced out at `source` and spliced back in at `destination`. The
      drag library only reports indices of rows it rendered, both below `|view|`. */
  function Move(view: seq<Item>, source: nat, destination: nat): (r: seq<Item>)
    requires source < |view| && destination < |view|
    ensures |r| == |view|
    ensures multiset(r) == multiset(view)
    ensures r[destination] == view[source]
    ensures RemoveAt(r, destination) == RemoveAt(view, source)
  {
    RemoveUndoesInsert(RemoveAt(view, source), destination, view[source]);
    InsertAt(RemoveAt(view, source), destination, view[source])
  }

  /** Dragging the row back to where it came from undoes the move. */
  lemma MoveUndo(view: seq<Item>, source: nat, destination: nat)
    requires source < |view| && destination < |view|
    ensures Move(Move(view, source, destination), destination, source) == view
  {
    var r := Move(view, source, destination);
    InsertUndoesRemove(view, source);
    assert Move(r, destination, source) == InsertAt(RemoveAt(view, source), source, view[source]);
  }

  /** `s.findIndex(i => i.id === id)`: the first position holding `id`, or -1. */
  function FindIndex(s: seq<Item>, id: int): (r: int)
    ensures -1 <= r < |s|
    ensures r == -1 <==> forall i :: 0 <= i < |s| ==> s[i].id != id
    ensures r >= 0 ==> s[r].id == id && forall i :: 0 <= i < r ==> s[i].id != id
  {
    if |s| == 0 then -1
    else if s[0].id == id then 0
    else
      var k := FindIndex(s[1..], id);
      if k == -1 then -1 else k + 1
  }

  /** One iteration of the `forEach`: if the cache holds `item`'s id, move that entry to
      position `index`. */
  function ReconcileStep(work: seq<Item>, item: Item, index: nat): (r: seq<Item>)
    ensures multiset(r) == multiset(work)
  {
    var k := FindIndex(work, item.id);
    if k == -1 then work else InsertAt(RemoveAt(work, k), index, work[k])
  }

  /** The iterations for view positions `k`, `k + 1`, ... */
  function ReconcileFrom(work: seq<Item>, view: seq<Item>, k: nat): (r: seq<Item>)
    ensures multiset(r) == multiset(work)
    decreases |view| - k
  {
    if k >= |view| then work else ReconcileFrom(ReconcileStep(work, view[k], k), view, k + 1)
  }

  /** The `setItems` updater of `handleDragEnd`: always a rearrangement of the cache. */
  function Reconcile(cache: seq<Item>, view: seq<Item>): (r: seq<Item>)
    ensures multiset(r) == multiset(cache)
    ensures |r| == |cache|
  {
    assert |multiset(ReconcileFrom(cache, view, 0))| == |multiset(cache)|;
    ReconcileFrom(cache, view, 0)
  }

  /** Items whose id is not in `ids`. */
  function Outside(ids: set<int>): Item -> bool
  {
    (x: Item) => x.id !in ids
  }

  /** Excluding one more id is a second filter pass. */
  lemma {:induction false} FilterOutsideAdd(ids: set<int>, a: int, s: seq<Item>)
    ensures Filter(Outside(ids + {a}), s) == Filter(Outside({a}), Filter(Outside(ids), s))
    decreases |s|
  {
    if |s| > 0 {
      FilterOutsideAdd(ids, a, s[1..]);
      var p := Outside({a});
      var q := Outside(ids);
      var rest := Filter(q, s[1..]);
      var tail := Filter(Outside(ids + {a}), s[1..]);
      assert tail == Filter(p, rest);
      assert Filter(Outside(ids + {a}), s) == (if s[0].id !in ids + {a} then [s[0]] else []) + tail;
      if s[0].id in ids {
        assert Filter(q, s) == rest;
      } else {
        assert Filter(q, s) == [s[0]] + rest;
        assert ([s[0]] + rest)[1..] == rest;
        assert Filter(p, [s[0]] + rest) == (if s[0].id != a then [s[0]] else []) + Filter(p, rest);
      }
    }
  }

  /** Excluding the id of one entry of a sequence with distinct ids removes that entry. */
  lemma {:induction false} FilterOutsideOne(s: seq<Item>, j: nat)
    requires DistinctIds(s) && j < |s|
    ensures Filter(Outside({s[j].id}), s) == RemoveAt(s, j)
    decreases |s|
  {
    if j == 0 {
      FilterOutsideHead(s);
    } else {
      var p := Outside({s[j].id});
      var tail := s[1..];
      assert DistinctIds(tail);
      assert tail[j - 1] == s[j];
      FilterOutsideOne(tail, j - 1);
      assert s[0].id != s[j].id;
      assert Filter(p, s) == [s[0]] + Filter(p, tail);
      RemoveAtCons(s, j);
    }
  }

  lemma FilterOutsideHead(s: seq<Item>)
    requires DistinctIds(s) && 0 < |s|
    ensures Filter(Outside({s[0].id}), s) == s[1..]
  {
    var p := Outside({s[0].id});
    var tail := s[1..];
    assert forall x :: x in tail ==> p(x) by {
      forall x | x in tail
        ensures p(x)
      {
        var i :| 0 <= i < |tail| && tail[i] == x;
        assert s[i + 1] == x;
      }
    }
    FilterKeepsAll(p, tail);
  }

  lemma IdSetSnoc(view: seq<Item>, k: nat)
    requires k < |view|
    ensures IdSet(view[..k + 1]) == IdSet(view[..k]) + {view[k].id}
  {
    assert view[..k + 1] == view[..k] + [view[k]];
    assert forall x :: x in view[..k + 1] <==> x in view[..k] || x == view[k];
  }

  /** The row about to be placed has not been placed yet, so it is among the cache entries
      still in cache order. */
  lemma NextRowPending(cache: seq<Item>, view: seq<Item>, k: nat)
    requires DistinctIds(view)
    requires forall x :: x in view ==> x in cache
    requires k < |view|
    ensures view[k] in Filter(Outside(IdSet(view[..k])), cache)
    ensures forall i :: 0 <= i < k ==> view[..k][i].id != view[k].id
  {
    var x := view[k];
    assert x.id !in IdSet(view[..k]) by {
      forall y | y in view[..k]
        ensures y.id != x.id
      {
        var i :| 0 <= i < k && view[..k][i] == y;
        assert view[i] == y;
      }
    }
    assert x in cache;
  }

  /** `findIndex` on a prefix without the id followed by a block with distinct ids finds the
      block's entry. */
  lemma FindIndexAfterPrefix(prefix: seq<Item>, rest: seq<Item>, j: nat)
    requires j < |rest| && DistinctIds(rest)
    requires forall i :: 0 <= i < |prefix| ==> prefix[i].id != rest[j].id
    ensures FindIndex(prefix + rest, rest[j].id) == |prefix| + j
  {
    var work := prefix + rest;
    var f := FindIndex(work, rest[j].id);
    assert work[|prefix| + j] == rest[j];
    assert f <= |prefix| + j;
    assert |prefix| <= f by {
      forall i | 0 <= i < |prefix|
        ensures work[i].id != rest[j].id
      {
        assert work[i] == prefix[i];
      }
    }
    assert work[f] == rest[f - |prefix|];
  }

  /** On a working copy made of a placed prefix followed by pending entries with distinct ids,
      one iteration moves the pending entry for the next row right behind the prefix. */
  lemma StepOnShape(prefix: seq<Item>, rest: seq<Item>, j: nat)
    requires j < |rest| && DistinctIds(rest)
    requires forall i :: 0 <= i < |prefix| ==> prefix[i].id != rest[j].id
    ensures ReconcileStep(prefix + rest, rest[j], |prefix|) == prefix + [rest[j]] + RemoveAt(rest, j)
  {
    var work := prefix + rest;
    var k := |prefix| + j;
    FindIndexAfterPrefix(prefix, rest, j);
    assert FindIndex(work, rest[j].id) == k;
    assert work[k] == rest[j];
    assert ReconcileStep(work, rest[j], |prefix|) == InsertAt(RemoveAt(work, k), |prefix|, rest[j]);
    RemoveAtShift(prefix, rest, j);
    InsertAfterPrefix(prefix, RemoveAt(rest, j), rest[j]);
  }

  /** Taking the placed row out of the pending entries is excluding its id as well. */
  lemma PendingAfterStep(cache: seq<Item>, view: seq<Item>, k: nat, j: nat)
    requires DistinctIds(cache) && k < |view|
    requires j < |Filter(Outside(IdSet(view[..k])), cache)|
    requires Filter(Outside(IdSet(view[..k])), cache)[j] == view[k]
    ensures RemoveAt(Filter(Outside(IdSet(view[..k])), cache), j)
         == Filter(Outside(IdSet(view[..k + 1])), cache)
  {
    var rest := Filter(Outside(IdSet(view[..k])), cache);
    FilterKeepsDistinctIds(Outside(IdSet(view[..k])), cache);
    FilterOutsideOne(rest, j);
    IdSetSnoc(view, k);
    FilterOutsideAdd(IdSet(view[..k]), view[k].id, cache);
  }

  /** Before iteration `k`, the working copy is the first `k` rows of the view followed by the
      cache entries not yet moved, in cache order. One iteration keeps this shape. */
  lemma ReconcileStepShape(cache: seq<Item>, view: seq<Item>, k: nat)
    requires DistinctIds(cache) && DistinctIds(view)
    requires forall x :: x in view ==> x in cache
    requires k < |view|
    ensures ReconcileStep(view[..k] + Filter(Outside(IdSet(view[..k])), cache), view[k], k)
         == view[..k + 1] + Filter(Outside(IdSet(view[..k + 1])), cache)
  {
    var rest := Filter(Outside(IdSet(view[..k])), cache);
    NextRowPending(cache, view, k);
    var j :| 0 <= j < |rest| && rest[j] == view[k];
    FilterKeepsDistinctIds(Outside(IdSet(view[..k])), cache);
    StepOnShape(view[..k], rest, j);
    assert |view[..k]| == k;
    assert ReconcileStep(view[..k] + rest, view[k], k) == view[..k] + [view[k]] + RemoveAt(rest, j);
    PendingAfterStep(cache, view, k, j);
    TakeSnoc(view, k);
  }

  lemma {:induction false} ReconcileFromShape(cache: seq<Item>, view: seq<Item>, k: nat)
    requires DistinctIds(cache) && DistinctIds(view)
    requires forall x :: x in view ==> x in cache
    requires k <= |view|
    ensures ReconcileFrom(view[..k] + Filter(Outside(IdSet(view[..k])), cache), view, k)
         == view + Filter(Outside(IdSet(view)), cache)
    decreases |view| - k
  {
    if k == |view| {
      assert view[..k] == view;
    } else {
      ReconcileStepShape(cache, view, k);
      ReconcileFromShape(cache, view, k + 1);
    }
  }

  /** Before the first iteration nothing is placed and every cache entry is pending. */
  lemma StartShape(cache: seq<Item>, view: seq<Item>)
    ensures view[..0] + Filter(Outside(IdSet(view[..0])), cache) == cache
  {
    assert IdSet(view[..0]) == {};
    FilterKeepsAll(Outside({}), cache);
  }

  /** Excluding the ids of a sequence removes all of it. */
  lemma FilterOutsideOwn(view: seq<Item>)
    ensures Filter(Outside(IdSet(view)), view) == []
  {
    var p := Outside(IdSet(view));
    assert forall x :: x in view ==> !p(x);
    FilterRejectsAll(p, view);
  }

  /** What the drop does to the cache when ids are distinct and every view row comes from the
      cache: the view rows, in their new order, move to the front, and every other cache entry
      follows in its previous relative order. */
  lemma ReconcileMovesViewToFront(cache: seq<Item>, view: seq<Item>)
    requires DistinctIds(cache) && DistinctIds(view)
    requires forall x :: x in view ==> x in cache
    ensures Reconcile(cache, view) == view + Filter(Outside(IdSet(view)), cache)
    ensures Reconcile(cache, view)[..|view|] == view
    ensures Filter(Outside(IdSet(view)), Reconcile(cache, view)) == Filter(Outside(IdSet(view)), cache)
  {
    var p := Outside(IdSet(view));
    StartShape(cache, view);
    ReconcileFromShape(cache, view, 0);
    var rest := Filter(p, cache);
    FilterConcat(p, view, rest);
    FilterOutsideOwn(view);
    FilterKeepsAll(p, rest);
    assert (view + rest)[..|view|] == view;
  }
}
