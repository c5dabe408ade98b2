/** The selection handlers of the client tables: toggle one id, select every id of the
    filtered view, clear. The same handlers appear in all three tables. */
module Selection {
  import opened Seqs
  import opened Items

  /** `toggleItemSelection(id)`: delete the id if present, add it otherwise. */
  function Toggle(selected: set<int>, id: int): (r: set<int>)
    ensures forall x :: x in r <==> (x in selected <==> x != id)
    ensures r == (selected - {id}) + ({id} - selected)
  {
    if id in selected then selected - {id} else selected + {id}
  }

  /** Toggling the same id twice restores the selection. */
  lemma ToggleSelfInverse(selected: set<int>, id: int)
    ensures Toggle(Toggle(selected, id), id) == selected
  {
  }

  /** Toggles of different ids commute, so the selection depends only on how often each id
      was toggled. */
  lemma TogglesCommute(selected: set<int>, a: int, b: int)
    ensures Toggle(Toggle(selected, a), b) == Toggle(Toggle(selected, b), a)
  {
  }

  /** `handleSelectAll`: exactly the ids of the filtered view, whatever was selected before. */
  function SelectAll(view: seq<Item>): (r: set<int>)
    ensures forall id :: id in r <==> exists i :: 0 <= i < |view| && view[i].id == id
  {
    IdSet(view)
  }

  /** `handleClearSelection`. */
  function Clear(): (r: set<int>)
    ensures forall id :: id !in r
  {
    {}
  }

  /** Toggling every id of the view in turn, starting from `selected`. */
  function ToggleEach(selected: set<int>, view: seq<Item>): set<int>
    decreases |view|
  {
    if |view| == 0 then selected else ToggleEach(Toggle(selected, view[0].id), view[1..])
  }

  /** Clicking every checkbox of a view with distinct ids, starting from a cleared selection,
      selects exactly what "select all" selects. */
  lemma {:induction false} ToggleEachFromClearIsSelectAll(view: seq<Item>)
    requires DistinctIds(view)
    ensures ToggleEach(Clear(), view) == SelectAll(view)
  {
    ToggleEachAddsFresh({}, view);
  }

  lemma {:induction false} ToggleEachAddsFresh(selected: set<int>, view: seq<Item>)
    requires DistinctIds(view)
    requires forall i :: 0 <= i < |view| ==> view[i].id !in selected
    ensures ToggleEach(selected, view) == selected + SelectAll(view)
    decreases |view|
  {
    if |view| > 0 {
      var tail := view[1..];
      var s' := selected + {view[0].id};
      assert Toggle(selected, view[0].id) == s';
      assert DistinctIds(tail) by {
        forall i, j | 0 <= i < j < |tail|
          ensures tail[i].id != tail[j].id
        {
          assert tail[i] == view[i + 1] && tail[j] == view[j + 1];
        }
      }
      forall i | 0 <= i < |tail|
        ensures tail[i].id !in s'
      {
        assert tail[i] == view[i + 1];
      }
      ToggleEachAddsFresh(s', tail);
      IdSetCons(view);
    }
  }
}
