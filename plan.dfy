/**
 * The list transforms of the workout-plan hook, as pure functions on the ordered
 * list of plan entries: append-if-absent, filter by id, patch by id, and the
 * `some`/`find` queries. The stateful hook in module Planner applies them.
 */
module Plan {
  import opened Wrappers
  import opened Sequences
  import opened Catalog

  /** A plan entry: a copy of a catalog exercise with optional set and repetition counts and the time it was added. */
  datatype Entry = Entry(exercise: Exercise, sets: Option<int>, reps: Option<int>, addedAt: int) {
    function Id(): int { exercise.id }
  }

  /** The fields `updateExercise` may change; `None` means the key is not in the update object. */
  datatype Patch = Patch(sets: Option<int>, reps: Option<int>)

  const DefaultSets: int := 3
  const DefaultReps: int := 12

  /** The ids of a plan, in plan order. */
  function Ids(xs: seq<Entry>): (r: seq<int>)
    ensures |r| == |xs| && forall i :: 0 <= i < |xs| ==> r[i] == xs[i].Id()
  {
    if xs == [] then [] else [xs[0].Id()] + Ids(xs[1..])
  }

  /** The central invariant: no two entries share an id. */
  predicate IdsDistinct(xs: seq<Entry>) {
    forall i, j :: 0 <= i < j < |xs| ==> xs[i].Id() != xs[j].Id()
  }

  /** `some(ex => ex.id === id)`. */
  function HasId(xs: seq<Entry>, id: int): (r: bool)
    ensures r <==> exists i :: 0 <= i < |xs| && xs[i].Id() == id
  {
    if xs == [] then false
    else if xs[0].Id() == id then true
    else
      assert forall i :: 1 <= i < |xs| ==> xs[1..][i - 1] == xs[i];
      HasId(xs[1..], id)
  }

  /** `find(ex => ex.id === id)`: the first entry with that id. */
  function FindById(xs: seq<Entry>, id: int): (r: Option<Entry>)
    ensures r.None? <==> !HasId(xs, id)
    ensures r.Some? ==> r.value in xs && r.value.Id() == id
  {
    if xs == [] then None
    else if xs[0].Id() == id then Some(xs[0])
    else FindById(xs[1..], id)
  }

  /** `find` returns the first entry with the id, even when later entries repeat it. */
  lemma {:induction false} FindByIdIsFirst(xs: seq<Entry>, id: int, i: int)
    requires 0 <= i < |xs| && xs[i].Id() == id
    requires forall j :: 0 <= j < i ==> xs[j].Id() != id
    ensures FindById(xs, id) == Some(xs[i])
  {
    if i > 0 {
      FindByIdIsFirst(xs[1..], id, i - 1);
    }
  }

  /** In a plan with distinct ids, `find` returns the one entry carrying the id. */
  lemma {:induction false} FindByIdUnique(xs: seq<Entry>, i: int)
    requires IdsDistinct(xs) && 0 <= i < |xs|
    ensures FindById(xs, xs[i].Id()) == Some(xs[i])
  {
    if i > 0 {
      var tail := xs[1..];
      assert tail[i - 1] == xs[i];
      assert IdsDistinct(tail) by {
        forall a, b | 0 <= a < b < |tail| ensures tail[a].Id() != tail[b].Id() {
          assert tail[a] == xs[a + 1] && tail[b] == xs[b + 1];
        }
      }
      FindByIdUnique(tail, i - 1);
    }
  }

  /** The entry `addExercise` builds: the exercise's fields, the counts and the time stamp. */
  function NewEntry(exercise: Exercise, sets: int, reps: int, addedAt: int): (e: Entry)
    ensures e.exercise == exercise && e.Id() == exercise.id
    ensures e.sets == Some(sets) && e.reps == Some(reps) && e.addedAt == addedAt
  {
    Entry(exercise, Some(sets), Some(reps), addedAt)
  }

  /** The list update of `addExercise`: unchanged if the id is present, otherwise the new entry appended. */
  function Add(xs: seq<Entry>, exercise: Exercise, sets: int, reps: int, addedAt: int): (r: seq<Entry>)
    ensures HasId(xs, exercise.id) ==> r == xs
    ensures !HasId(xs, exercise.id) ==>
      |r| == |xs| + 1 && r[..|xs|] == xs && r[|xs|] == NewEntry(exercise, sets, reps, addedAt)
  {
    if HasId(xs, exercise.id) then xs else xs + [NewEntry(exercise, sets, reps, addedAt)]
  }

  /** After adding, the exercise is in the plan. */
  lemma AddSelects(xs: seq<Entry>, exercise: Exercise, sets: int, reps: int, addedAt: int)
    ensures HasId(Add(xs, exercise, sets, reps, addedAt), exercise.id)
  {
    if !HasId(xs, exercise.id) {
      var r := Add(xs, exercise, sets, reps, addedAt);
      assert r[|xs|].Id() == exercise.id;
    }
  }

  /** Adding an exercise a second time changes nothing, whatever counts and time it carries. */
  lemma AddTwice(xs: seq<Entry>, exercise: Exercise, sets: int, reps: int, addedAt: int, sets': int, reps': int, addedAt': int)
    ensures var once := Add(xs, exercise, sets, reps, addedAt);
            Add(once, exercise, sets', reps', addedAt') == once
  {
    AddSelects(xs, exercise, sets, reps, addedAt);
  }

  /** Adding keeps ids distinct. */
  lemma AddKeepsIdsDistinct(xs: seq<Entry>, exercise: Exercise, sets: int, reps: int, addedAt: int)
    requires IdsDistinct(xs)
    ensures IdsDistinct(Add(xs, exercise, sets, reps, addedAt))
  {
  }

  /** `filter(ex => ex.id !== id)`. */
  function Remove(xs: seq<Entry>, id: int): (r: seq<Entry>)
    ensures forall e :: e in r <==> e in xs && e.Id() != id
    ensures |r| <= |xs|
  {
    if xs == [] then []
    else if xs[0].Id() == id then Remove(xs[1..], id)
    else [xs[0]] + Remove(xs[1..], id)
  }

  /** Removal leaves no entry with the id. */
  lemma RemoveDrops(xs: seq<Entry>, id: int)
    ensures !HasId(Remove(xs, id), id)
  {
    var r := Remove(xs, id);
    forall i | 0 <= i < |r| ensures r[i].Id() != id {
      assert r[i] in r;
    }
  }

  /** Removal keeps the other entries in their original relative order. */
  lemma {:induction false} RemoveIsSubsequence(xs: seq<Entry>, id: int)
    ensures IsSubsequence(Remove(xs, id), xs)
  {
    if xs != [] {
      RemoveIsSubsequence(xs[1..], id);
      var r := Remove(xs, id);
      if xs[0].Id() != id {
        assert r[0] == xs[0] && r[1..] == Remove(xs[1..], id);
      }
    }
  }

  /** Removing an id that is not in the plan changes nothing. */
  lemma {:induction false} RemoveAbsent(xs: seq<Entry>, id: int)
    requires !HasId(xs, id)
    ensures Remove(xs, id) == xs
  {
    if xs != [] {
      assert xs[0].Id() != id;
      assert !HasId(xs[1..], id) by {
        forall i | 0 <= i < |xs[1..]| ensures xs[1..][i].Id() != id {
          assert xs[1..][i] == xs[i + 1];
        }
      }
      RemoveAbsent(xs[1..], id);
      assert xs == [xs[0]] + xs[1..];
    }
  }

  /** Removing what was just added restores the plan: removal undoes a successful add. */
  lemma AddThenRemove(xs: seq<Entry>, exercise: Exercise, sets: int, reps: int, addedAt: int)
    requires !HasId(xs, exercise.id)
    ensures Remove(Add(xs, exercise, sets, reps, addedAt), exercise.id) == xs
  {
    var e := NewEntry(exercise, sets, reps, addedAt);
    RemoveAppend(xs, [e], exercise.id);
    RemoveAbsent(xs, exercise.id);
  }

  /** Removal distributes over concatenation. */
  lemma {:induction false} RemoveAppend(xs: seq<Entry>, ys: seq<Entry>, id: int)
    ensures Remove(xs + ys, id) == Remove(xs, id) + Remove(ys, id)
  {
    if xs == [] {
      assert xs + ys == ys;
    } else {
      assert (xs + ys)[0] == xs[0];
      assert (xs + ys)[1..] == xs[1..] + ys;
      RemoveAppend(xs[1..], ys, id);
    }
  }

  /** Removal keeps ids distinct, and in a distinct plan it drops exactly one entry when the id is present. */
  lemma {:induction false} RemoveKeepsIdsDistinct(xs: seq<Entry>, id: int)
    requires IdsDistinct(xs)
    ensures IdsDistinct(Remove(xs, id))
    ensures |Remove(xs, id)| == if HasId(xs, id) then |xs| - 1 else |xs|
  {
    if xs != [] {
      var tail := xs[1..];
      assert IdsDistinct(tail) by {
        forall a, b | 0 <= a < b < |tail| ensures tail[a].Id() != tail[b].Id() {
          assert tail[a] == xs[a + 1] && tail[b] == xs[b + 1];
        }
      }
      RemoveKeepsIdsDistinct(tail, id);
      var rest := Remove(tail, id);
      assert HasId(xs, id) <==> xs[0].Id() == id || HasId(tail, id) by {
        assert forall i :: 1 <= i < |xs| ==> tail[i - 1] == xs[i];
      }
      if xs[0].Id() == id {
        assert !HasId(tail, id) by {
          forall i | 0 <= i < |tail| ensures tail[i].Id() != id {
            assert tail[i] == xs[i + 1];
          }
        }
        RemoveAbsent(tail, id);
      } else {
        var r := [xs[0]] + rest;
        forall a, b | 0 <= a < b < |r| ensures r[a].Id() != r[b].Id() {
          if a == 0 {
            assert r[b] == rest[b - 1] && rest[b - 1] in tail;
            var k :| 0 <= k < |tail| && tail[k] == r[b];
            assert xs[k + 1] == r[b];
          } else {
            assert r[a] == rest[a - 1] && r[b] == rest[b - 1];
          }
        }
      }
    }
  }

  /** `{ ...ex, ...updates }`: each field named in the patch takes its value; all else is kept. */
  function Patched(e: Entry, patch: Patch): (r: Entry)
    ensures r.exercise == e.exercise && r.addedAt == e.addedAt
    ensures r.sets == (if patch.sets.Some? then patch.sets else e.sets)
    ensures r.reps == (if patch.reps.Some? then patch.reps else e.reps)
  {
    e.(sets := if patch.sets.Some? then patch.sets else e.sets,
       reps := if patch.reps.Some? then patch.reps else e.reps)
  }

  /** `map(ex => ex.id === id ? { ...ex, ...updates } : ex)`. */
  function Update(xs: seq<Entry>, id: int, patch: Patch): (r: seq<Entry>)
    ensures |r| == |xs|
    ensures forall i :: 0 <= i < |xs| ==> r[i] == if xs[i].Id() == id then Patched(xs[i], patch) else xs[i]
  {
    if xs == [] then []
    else [if xs[0].Id() == id then Patched(xs[0], patch) else xs[0]] + Update(xs[1..], id, patch)
  }

  /** An update keeps length, order and every id, and touches only the entries with the id. */
  lemma UpdateKeepsIds(xs: seq<Entry>, id: int, patch: Patch)
    ensures Ids(Update(xs, id, patch)) == Ids(xs)
    ensures forall i :: 0 <= i < |xs| && xs[i].Id() != id ==> Update(xs, id, patch)[i] == xs[i]
    ensures forall i :: 0 <= i < |xs| ==>
      Update(xs, id, patch)[i].exercise == xs[i].exercise && Update(xs, id, patch)[i].addedAt == xs[i].addedAt
  {
  }

  /** An update keeps ids distinct. */
  lemma UpdateKeepsIdsDistinct(xs: seq<Entry>, id: int, patch: Patch)
    requires IdsDistinct(xs)
    ensures IdsDistinct(Update(xs, id, patch))
  {
  }

  /** An update of an absent id, or with an empty patch, changes nothing. */
  lemma UpdateNoop(xs: seq<Entry>, id: int, patch: Patch)
    requires !HasId(xs, id) || (patch.sets.None? && patch.reps.None?)
    ensures Update(xs, id, patch) == xs
  {
    var r := Update(xs, id, patch);
    forall i | 0 <= i < |xs| ensures r[i] == xs[i] {
      if xs[i].Id() == id {
        assert patch.sets.None? && patch.reps.None?;
      }
    }
  }

  /** Applying the same update twice is the same as applying it once. */
  lemma UpdateIdempotent(xs: seq<Entry>, id: int, patch: Patch)
    ensures Update(Update(xs, id, patch), id, patch) == Update(xs, id, patch)
  {
  }

  /** One operation of the hook on the plan list. */
  datatype Action =
    | AddAction(exercise: Exercise, sets: Option<int>, reps: Option<int>, now: int)
    | RemoveAction(id: int)
    | UpdateAction(id: int, patch: Patch)
    | ClearAction

  /** The list after one operation; an add with no counts gets 3 sets of 12 repetitions. */
  function Apply(xs: seq<Entry>, a: Action): (r: seq<Entry>)
    ensures a.AddAction? ==> HasId(r, a.exercise.id)
    ensures a.AddAction? && !HasId(xs, a.exercise.id) ==>
      |r| == |xs| + 1 && r[|xs|].sets == Some(a.sets.GetOr(DefaultSets)) && r[|xs|].reps == Some(a.reps.GetOr(DefaultReps))
    ensures a.RemoveAction? ==> !HasId(r, a.id)
    ensures a.UpdateAction? ==> Ids(r) == Ids(xs)
    ensures a.ClearAction? ==> r == []
  {
    match a
    case AddAction(ex, sets, reps, now) =>
      AddSelects(xs, ex, sets.GetOr(DefaultSets), reps.GetOr(DefaultReps), now);
      Add(xs, ex, sets.GetOr(DefaultSets), reps.GetOr(DefaultReps), now)
    case RemoveAction(id) =>
      RemoveDrops(xs, id);
      Remove(xs, id)
    case UpdateAction(id, patch) =>
      UpdateKeepsIds(xs, id, patch);
      Update(xs, id, patch)
    case ClearAction => []
  }

  /** The list after a sequence of operations. */
  function Run(xs: seq<Entry>, actions: seq<Action>): seq<Entry>
    decreases |actions|
  {
    if actions == [] then xs else Run(Apply(xs, actions[0]), actions[1..])
  }

  /** Every operation keeps ids distinct. */
  lemma ApplyKeepsIdsDistinct(xs: seq<Entry>, a: Action)
    requires IdsDistinct(xs)
    ensures IdsDistinct(Apply(xs, a))
  {
    match a
    case AddAction(ex, sets, reps, now) => AddKeepsIdsDistinct(xs, ex, sets.GetOr(DefaultSets), reps.GetOr(DefaultReps), now);
    case RemoveAction(id) => RemoveKeepsIdsDistinct(xs, id);
    case UpdateAction(id, patch) => UpdateKeepsIdsDistinct(xs, id, patch);
    case ClearAction =>
  }

  /** Ids stay distinct across any sequence of adds, removes, updates and clears. */
  lemma {:induction false} RunKeepsIdsDistinct(xs: seq<Entry>, actions: seq<Action>)
    requires IdsDistinct(xs)
    ensures IdsDistinct(Run(xs, actions))
    decreases |actions|
  {
    if actions != [] {
      ApplyKeepsIdsDistinct(xs, actions[0]);
      RunKeepsIdsDistinct(Apply(xs, actions[0]), actions[1..]);
    }
  }

  /** Starting from the hook's empty initial list, ids are always distinct. */
  lemma FromEmptyIdsDistinct(actions: seq<Action>)
    ensures IdsDistinct(Run([], actions))
  {
    RunKeepsIdsDistinct([], actions);
  }
}
