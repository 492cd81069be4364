/** The completed list and the click that toggles one task in it
    (`handleTaskClick`, `isTaskCompleted`). */
module Completion {

  /** `isTaskCompleted`: a task is shown completed iff its id is listed. */
  predicate IsTaskCompleted(completed: seq<string>, id: string)
  {
    id in completed
  }

  /** `ids.filter(x => x !== id)`: every occurrence of `id` is dropped and
      every other id keeps its number of occurrences. */
  function RemoveAll(ids: seq<string>, id: string): (r: seq<string>)
    ensures id !in r
    ensures forall x | x != id :: multiset(r)[x] == multiset(ids)[x]
  {
    if |ids| == 0 then []
    else
      assert ids == [ids[0]] + ids[1..];
      if ids[0] == id then RemoveAll(ids[1..], id)
      else [ids[0]] + RemoveAll(ids[1..], id)
  }

  /** Removal keeps the relative order of what remains: it works piece by
      piece. */
  lemma {:induction false} RemoveAllDistributes(a: seq<string>, b: seq<string>, id: string)
    ensures RemoveAll(a + b, id) == RemoveAll(a, id) + RemoveAll(b, id)
  {
    if |a| > 0 {
      RemoveAllDistributes(a[1..], b, id);
      assert (a + b)[1..] == a[1..] + b;
    } else {
      assert a + b == b;
    }
  }

  /** Removing an id that is not listed changes nothing. */
  lemma {:induction false} RemoveAbsent(ids: seq<string>, id: string)
    requires id !in ids
    ensures RemoveAll(ids, id) == ids
  {
    if |ids| > 0 {
      RemoveAbsent(ids[1..], id);
      assert [ids[0]] + ids[1..] == ids;
    }
  }

  /** `handleTaskClick(id)` on the completed list: an absent id is appended,
      a present id loses all its occurrences. Its membership flips and no
      other id's membership changes. */
  function Toggle(completed: seq<string>, id: string): (r: seq<string>)
    ensures IsTaskCompleted(r, id) <==> !IsTaskCompleted(completed, id)
    ensures forall x | x != id :: IsTaskCompleted(r, x) <==> IsTaskCompleted(completed, x)
    ensures id !in completed ==> |r| == |completed| + 1 && r[..|completed|] == completed && r[|completed|] == id
    ensures id in completed ==> multiset(r) == multiset(completed)[id := 0]
  {
    if IsTaskCompleted(completed, id) then
      var r := RemoveAll(completed, id);
      assert forall x | x != id :: x in r <==> x in completed by {
        forall x | x != id ensures x in r <==> x in completed {
          assert multiset(r)[x] == multiset(completed)[x];
        }
      }
      r
    else completed + [id]
  }

  /** Toggling an absent id twice restores the list exactly. */
  lemma ToggleTwiceRestores(completed: seq<string>, id: string)
    requires id !in completed
    ensures Toggle(Toggle(completed, id), id) == completed
  {
    var once := completed + [id];
    RemoveAllDistributes(completed, [id], id);
    RemoveAbsent(completed, id);
    assert RemoveAll([id], id) == [];
  }

  /** Toggling a present id twice restores every id's membership, but the id
      moves to the end and its duplicates collapse into one. */
  lemma ToggleTwicePresent(completed: seq<string>, id: string)
    requires id in completed
    ensures Toggle(Toggle(completed, id), id) == RemoveAll(completed, id) + [id]
    ensures forall x :: IsTaskCompleted(Toggle(Toggle(completed, id), id), x) <==> IsTaskCompleted(completed, x)
  {
  }
}
