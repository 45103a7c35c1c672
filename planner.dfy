/**
 * The workout-plan hook as an object: the plan list and the toast record are
 * fields that each operation replaces, and the browser's local storage is a map
 * from keys to stored values that the two effects read and write. React's
 * scheduling is flattened into sequential calls: after every change of the
 * list, the save effect runs.
 */
module Planner {
  import opened Wrappers
  import opened Catalog
  import opened Plan

  datatype ToastKind = Success | Error | Info

  datatype Toast = Toast(message: string, kind: ToastKind, isVisible: bool)

  const InitialToast: Toast := Toast("", Success, false)

  const StorageKey: string := "gym-ar-workout-plan"

  /**
   * What `localStorage.getItem` can hand back, abstracted from its JSON text:
   * the empty string, a JSON array of plan entries, any other JSON value,
   * or text `JSON.parse` rejects.
   */
  datatype Stored = EmptyText | JsonArray(entries: seq<Entry>) | JsonOther | Unparsable

  type Storage = map<string, Stored>

  const DuplicateMessage: string := "Este exercício já está no seu treino!"
  const ClearedMessage: string := "Treino removido com sucesso!"

  /** The success message of `addExercise`: the exercise's title, then the fixed suffix. */
  function AddedMessage(title: string): string {
    title + " adicionado ao treino!"
  }

  /** The message of `removeExercise`: the removed exercise's title, then the fixed suffix. */
  function RemovedMessage(title: string): string {
    title + " removido do treino!"
  }

  /** A title followed by a fixed suffix determines the title. */
  lemma SuffixedInjective(t: string, u: string, suffix: string)
    requires t + suffix == u + suffix
    ensures t == u
  {
    assert |t| == |u|;
    assert t == (t + suffix)[..|t|] && u == (u + suffix)[..|u|];
  }

  /**
   * The toast texts tell the operations apart: an add or removal message names
   * exactly one title, and no add, removal, duplicate or clear message can be
   * mistaken for another kind, whatever the titles are.
   */
  lemma ToastMessagesDistinct(t: string, u: string)
    ensures AddedMessage(t) == AddedMessage(u) ==> t == u
    ensures RemovedMessage(t) == RemovedMessage(u) ==> t == u
    ensures AddedMessage(t) != RemovedMessage(u)
    ensures AddedMessage(t) != DuplicateMessage && AddedMessage(t) != ClearedMessage
    ensures RemovedMessage(t) != DuplicateMessage && RemovedMessage(t) != ClearedMessage
  {
    if AddedMessage(t) == AddedMessage(u) { SuffixedInjective(t, u, " adicionado ao treino!"); }
    if RemovedMessage(t) == RemovedMessage(u) { SuffixedInjective(t, u, " removido do treino!"); }
    var a, r := AddedMessage(t), RemovedMessage(u);
    // Counted from the end, the two suffixes differ at the tenth character ('a' against 'd').
    assert a[|a| - 10] == 'a' && r[|r| - 10] == 'd';
    // The duplicate message ends in "seu treino!", the add message in "ao treino!".
    assert a[|a| - 9] == 'o' && DuplicateMessage[|DuplicateMessage| - 9] == 'u';
    // The clear message ends in "sucesso!", where every toast naming a title ends in "treino!".
    assert a[|a| - 3] == 'n' && ClearedMessage[|ClearedMessage| - 3] == 's';
    var r' := RemovedMessage(t);
    assert r'[|r'| - 10] == 'd' && DuplicateMessage[|DuplicateMessage| - 10] == 'e';
    assert r'[|r'| - 3] == 'n';
  }

  /** Storage mirrors the plan: the key is present exactly when the plan is non-empty, and then holds it. */
  predicate Mirrors(storage: Storage, xs: seq<Entry>) {
    (StorageKey in storage <==> xs != []) &&
    (StorageKey in storage ==> storage[StorageKey] == JsonArray(xs))
  }

  /** The save effect: write the non-empty plan under the key, or delete the key; other keys are untouched. */
  function Saved(storage: Storage, xs: seq<Entry>): (r: Storage)
    ensures Mirrors(r, xs)
    ensures forall k :: k != StorageKey ==> (k in r <==> k in storage) && (k in r ==> r[k] == storage[k])
  {
    if |xs| > 0 then storage[StorageKey := JsonArray(xs)] else storage - {StorageKey}
  }

  /** The list after the load effect: a stored array replaces it, anything else leaves it. */
  function LoadedList(storage: Storage, current: seq<Entry>): (r: seq<Entry>)
    ensures StorageKey in storage && storage[StorageKey].JsonArray? ==> r == storage[StorageKey].entries
    ensures r != current ==> StorageKey in storage && storage[StorageKey] == JsonArray(r)
  {
    if StorageKey in storage && storage[StorageKey].JsonArray? then storage[StorageKey].entries else current
  }

  /** Storage after the load effect: unparsable content under the key is deleted, nothing else changes. */
  function LoadedStorage(storage: Storage): (r: Storage)
    ensures forall k :: k in r <==> k in storage && !(k == StorageKey && storage[k].Unparsable?)
    ensures forall k :: k in r ==> r[k] == storage[k]
  {
    if StorageKey in storage && storage[StorageKey].Unparsable? then storage - {StorageKey} else storage
  }

  /** Saving and then loading on a fresh mount gives back the same plan; storage is left as saved. */
  lemma SaveLoadRoundTrip(storage: Storage, xs: seq<Entry>)
    ensures LoadedList(Saved(storage, xs), []) == xs
    ensures LoadedStorage(Saved(storage, xs)) == Saved(storage, xs)
  {
  }

  /**
   * What mounting leaves behind: a stored array becomes the plan and stays stored
   * when non-empty; any other content (empty text, a non-array value, unparsable
   * text) gives an empty plan and is deleted by the first save effect.
   */
  lemma MountOutcome(storage: Storage)
    ensures var xs := LoadedList(storage, []);
            var after := Saved(LoadedStorage(storage), xs);
            && (StorageKey in storage && storage[StorageKey].JsonArray? ==> xs == storage[StorageKey].entries)
            && (!(StorageKey in storage && storage[StorageKey].JsonArray?) ==> xs == [] && StorageKey !in after)
            && (StorageKey in after <==> StorageKey in storage && storage[StorageKey].JsonArray? && storage[StorageKey].entries != [])
            && (forall k :: k != StorageKey ==> (k in after <==> k in storage) && (k in after ==> after[k] == storage[k]))
  {
  }

  /** Saving twice is saving once. */
  lemma SaveIdempotent(storage: Storage, xs: seq<Entry>)
    ensures Saved(Saved(storage, xs), xs) == Saved(storage, xs)
  {
  }

  /** Storage that already mirrors the plan is unchanged by the save effect. */
  lemma SaveOnMirror(storage: Storage, xs: seq<Entry>)
    requires Mirrors(storage, xs)
    ensures Saved(storage, xs) == storage
  {
  }

  class WorkoutPlanner {
    var selected: seq<Entry>
    var toast: Toast
    var storage: Storage

    /** Between operations the stored plan mirrors the list. */
    ghost predicate Valid()
      reads this
    {
      Mirrors(storage, selected)
    }

    /** Mounting the hook: empty list and hidden toast, then the load effect, then the save effect. */
    constructor (initialStorage: Storage)
      ensures Valid()
      ensures selected == LoadedList(initialStorage, [])
      ensures toast == InitialToast
      ensures storage == Saved(LoadedStorage(initialStorage), selected)
    {
      selected := [];
      toast := InitialToast;
      storage := initialStorage;
      new;
      LoadSaved();
      SaveToStorage();
    }

    /** The load effect. */
    method LoadSaved()
      modifies this
      ensures selected == LoadedList(old(storage), old(selected))
      ensures storage == LoadedStorage(old(storage))
      ensures toast == old(toast)
    {
      var saved := if StorageKey in storage then Some(storage[StorageKey]) else None;
      if saved.Some? && saved.value != EmptyText {
        match saved.value
        case JsonArray(entries) =>
          selected := entries;
        case JsonOther =>
        case Unparsable =>
          storage := storage - {StorageKey};
      }
    }

    /** The save effect, run whenever the list changes. */
    method SaveToStorage()
      modifies this
      ensures Valid()
      ensures storage == Saved(old(storage), selected)
      ensures selected == old(selected) && toast == old(toast)
    {
      storage := Saved(storage, selected);
    }

    /** `showToast`; the kind defaults to success. */
    method ShowToast(message: string, kind: Option<ToastKind>)
      modifies this
      ensures toast == Toast(message, kind.GetOr(Success), true)
      ensures selected == old(selected) && storage == old(storage)
    {
      toast := Toast(message, kind.GetOr(Success), true);
    }

    /** `hideToast`: only `isVisible` is cleared; message and kind stay. */
    method HideToast()
      modifies this
      ensures toast == old(toast).(isVisible := false)
      ensures selected == old(selected) && storage == old(storage)
    {
      toast := toast.(isVisible := false);
    }

    /** `addExercise`, with `now` standing for `Date.now()`; counts default to 3 sets of 12. */
    method AddExercise(exercise: Exercise, sets: Option<int>, reps: Option<int>, now: int)
      requires Valid()
      modifies this
      ensures Valid()
      ensures selected == Add(old(selected), exercise, sets.GetOr(DefaultSets), reps.GetOr(DefaultReps), now)
      ensures HasId(old(selected), exercise.id) ==> toast == Toast(DuplicateMessage, Info, true)
      ensures !HasId(old(selected), exercise.id) ==> toast == Toast(AddedMessage(exercise.title), Success, true)
      ensures storage == Saved(old(storage), selected)
      ensures HasId(old(selected), exercise.id) ==> selected == old(selected) && storage == old(storage)
      ensures IdsDistinct(old(selected)) ==> IdsDistinct(selected)
    {
      var entry := NewEntry(exercise, sets.GetOr(DefaultSets), reps.GetOr(DefaultReps), now);
      var present := HasId(selected, exercise.id);
      if present {
        ShowToast(DuplicateMessage, Some(Info));
      } else {
        ShowToast(AddedMessage(exercise.title), Some(Success));
        selected := selected + [entry];
        SaveToStorage();
      }
      if IdsDistinct(old(selected)) {
        AddKeepsIdsDistinct(old(selected), exercise, sets.GetOr(DefaultSets), reps.GetOr(DefaultReps), now);
      }
    }

    /** `removeExercise`: a toast naming the removed exercise appears only if one had the id. */
    method RemoveExercise(exerciseId: int)
      requires Valid()
      modifies this
      ensures Valid()
      ensures selected == Remove(old(selected), exerciseId)
      ensures !HasId(selected, exerciseId)
      ensures storage == Saved(old(storage), selected)
      ensures HasId(old(selected), exerciseId) ==>
        toast == Toast(RemovedMessage(FindById(old(selected), exerciseId).value.exercise.title), Info, true)
      ensures !HasId(old(selected), exerciseId) ==> toast == old(toast) && selected == old(selected)
      ensures IdsDistinct(old(selected)) ==> IdsDistinct(selected)
    {
      var found := FindById(selected, exerciseId);
      if found.Some? {
        ShowToast(RemovedMessage(found.value.exercise.title), Some(Info));
      } else {
        RemoveAbsent(selected, exerciseId);
      }
      RemoveDrops(selected, exerciseId);
      if IdsDistinct(selected) {
        RemoveKeepsIdsDistinct(selected, exerciseId);
      }
      selected := Remove(selected, exerciseId);
      SaveToStorage();
    }

    /** `updateExercise`: only the set and repetition counts named in `patch` change, on the matching entry. */
    method UpdateExercise(exerciseId: int, patch: Patch)
      requires Valid()
      modifies this
      ensures Valid()
      ensures selected == Update(old(selected), exerciseId, patch)
      ensures Ids(selected) == Ids(old(selected))
      ensures storage == Saved(old(storage), selected)
      ensures toast == old(toast)
      ensures IdsDistinct(old(selected)) ==> IdsDistinct(selected)
    {
      UpdateKeepsIds(selected, exerciseId, patch);
      if IdsDistinct(selected) {
        UpdateKeepsIdsDistinct(selected, exerciseId, patch);
      }
      selected := Update(selected, exerciseId, patch);
      SaveToStorage();
    }

    /** `clearWorkout`: always empties the list; a toast appears only if it was non-empty. */
    method ClearWorkout()
      requires Valid()
      modifies this
      ensures Valid()
      ensures selected == []
      ensures StorageKey !in storage && storage == old(storage) - {StorageKey}
      ensures |old(selected)| > 0 ==> toast == Toast(ClearedMessage, Info, true)
      ensures |old(selected)| == 0 ==> toast == old(toast)
    {
      if |selected| > 0 {
        ShowToast(ClearedMessage, Some(Info));
      }
      selected := [];
      SaveToStorage();
    }

    /** `isExerciseSelected`: some entry carries the id. */
    function IsExerciseSelected(exerciseId: int): (r: bool)
      reads this
      ensures r <==> exists i :: 0 <= i < |selected| && selected[i].Id() == exerciseId
    {
      HasId(selected, exerciseId)
    }

    /** `totalExercises`: the list length, which is zero exactly when nothing is stored under the key. */
    function TotalExercises(): (n: nat)
      reads this
      requires Valid()
      ensures n == |selected|
      ensures n == 0 <==> StorageKey !in storage
    {
      |selected|
    }
  }
}
