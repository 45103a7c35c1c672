# Workout plan and exercise catalog of GymAR

GymAR is a fitness web application. Alongside its augmented-reality exercise viewer it keeps a static catalog of ten exercises and a client-side workout plan. This project models those two parts in Dafny and proves properties of them.

- **Catalog** (`catalog.dfy`) models the constant list of ten exercises. It has the lookup by slug (the first match), the filter by category, and the plan page's category selector, which uses the same filter.
- **Plan** (`plan.dfy`) has the hook's list transforms as pure functions on the ordered list of plan entries: append-if-absent, remove by id, patch by id, and the `some`/`find` queries. It also has a trace of operations (`Action`, `Run`) for the invariant that entry ids stay pairwise distinct.
- **Planner** (`planner.dfy`) models the `useWorkoutPlanner` hook as the class `WorkoutPlanner`. Its fields are the plan list, the toast record and the browser's local storage, which is a map from keys to abstract stored values. Each state-changing hook operation is a method that replaces those fields; `isExerciseSelected` and `totalExercises` are read-only functions. The load effect and the save effect are the methods `LoadSaved` and `SaveToStorage`. The constructor models mounting: the load effect runs, then the save effect. `Valid()` says that the stored plan mirrors the list: the key `gym-ar-workout-plan` is present exactly when the list is non-empty, and then it holds the list.
- `wrappers.dfy` defines `Option`, which stands for `undefined`. `sequences.dfy` defines order-preserving subsequences.

Inputs from outside the hook are parameters. `Date.now()` is the `now` argument of `AddExercise`. The initial local storage is the constructor's argument. JSON text is abstracted to the values `Stored` distinguishes: the empty string, an array of entries, another JSON value, and unparsable text.

An array read back from storage is taken unchecked, just as the source casts it. So the distinct-ids invariant is not part of `Valid()`. `AddExercise`, `RemoveExercise` and `UpdateExercise` each ensure that they keep distinct ids distinct, and `ClearWorkout` empties the list. The load effect (`LoadSaved`, and the constructor, which runs it) is the exception: it installs whatever array is stored, duplicates included. `Plan.FindByIdIsFirst` states which entry `find` returns in that case. In addition, `Plan.FromEmptyIdsDistinct` proves that ids stay distinct for any sequence of operations starting from the hook's initial empty list.

## Model

| member | source | states |
|---|---|---|
| `Catalog.FindBySlug` | src/data/exercises.ts:84-86 | the result is absent exactly when no exercise has the slug; a result is an element of the list with that slug |
| `Catalog.FindBySlugIsFirst` | src/data/exercises.ts:84-86 | when index i holds the first exercise with the slug, the lookup returns exactly that exercise |
| `Catalog.GetExerciseBySlug` | src/data/exercises.ts:84-86 | catalog lookup: undefined exactly when no catalog entry has the slug, otherwise a catalog entry with that slug |
| `Catalog.ByCategory` | src/data/exercises.ts:88-90 | an exercise is in the result exactly when it is in the input and has the category; the result is no longer than the input |
| `Catalog.ByCategoryIsSubsequence` | src/data/exercises.ts:88-90 | the filter result is an order-preserving subsequence of its input |
| `Catalog.ByCategoryMultiplicity` | src/data/exercises.ts:88-90 | each matching exercise occurs in the result as often as in the input, and a non-matching one never occurs |
| `Catalog.ByCategoryAppend` | src/data/exercises.ts:88-90 | filtering a concatenation is the concatenation of the filtered parts |
| `Catalog.ByCategoryAll` | src/data/exercises.ts:88-90 | filtering a list whose entries all have the category returns the list |
| `Catalog.ByCategoryNone` | src/data/exercises.ts:88-90 | filtering a list in which no entry has the category returns the empty list |
| `Catalog.GetExercisesByCategory` | src/data/exercises.ts:88-90 | the result holds exactly the catalog entries of the category |
| `Catalog.CatalogIds` | src/data/exercises.ts:9-82 | the catalog has ten entries and entry i has id i + 1 |
| `Catalog.CatalogIdsDistinct` | src/data/exercises.ts:9-82 | no two catalog entries share an id |
| `Catalog.CatalogSlugsDistinct` | src/data/exercises.ts:9-82 | no two catalog entries share a slug |
| `Catalog.LookupFindsEachEntry` | src/data/exercises.ts:9-86 | looking up any catalog entry's slug returns that entry, so slug lookup is unambiguous |
| `Catalog.CategoryQueries` | src/data/exercises.ts:10-90 | the upper-body query returns the first five entries and the lower-body query the last five, in catalog order |
| `Catalog.TwoCategoriesSplit` | src/data/exercises.ts:88-90 | when every entry has one of two distinct categories, the two filters are disjoint and together make up the input |
| `Catalog.CategoriesPartitionCatalog` | src/data/exercises.ts:10-90 | every category is upper-body or lower-body; the two queries are disjoint, cover the catalog, and have five entries each |
| `Catalog.AvailableExercises` | src/app/workout-planner/page.tsx:33-35 | with no category chosen (null or empty) the page lists the whole catalog; otherwise exactly the catalog entries of the chosen category |
| `Catalog.AvailableIsSubsequence` | src/app/workout-planner/page.tsx:33-35 | the page's list always keeps catalog order |
| `Plan.Ids` | src/hooks/useWorkoutPlanner.ts:11-15 | the id list has one id per entry, position by position |
| `Plan.HasId` | src/hooks/useWorkoutPlanner.ts:76 | true exactly when some entry has the id |
| `Plan.FindById` | src/hooks/useWorkoutPlanner.ts:88 | the result is absent exactly when no entry has the id; a result is an entry of the list with that id |
| `Plan.FindByIdIsFirst` | src/hooks/useWorkoutPlanner.ts:88-90 | when index i holds the first entry with the id, `find` returns exactly that entry, even if later entries repeat the id; this is the entry the removal toast names |
| `Plan.FindByIdUnique` | src/hooks/useWorkoutPlanner.ts:88 | in a plan with distinct ids, `find` returns the one entry that carries the id |
| `Plan.NewEntry` | src/hooks/useWorkoutPlanner.ts:66-72 | the new entry copies the exercise and carries the given sets, reps and time stamp |
| `Plan.Add` | src/hooks/useWorkoutPlanner.ts:74-83 | an id already present leaves the list unchanged; otherwise the old list is a prefix and exactly one new entry follows at the end |
| `Plan.AddSelects` | src/hooks/useWorkoutPlanner.ts:74-83 | after an add, the exercise's id is in the plan |
| `Plan.AddTwice` | src/hooks/useWorkoutPlanner.ts:74-79 | adding the same exercise again, with any counts and time, leaves the list unchanged |
| `Plan.AddKeepsIdsDistinct` | src/hooks/useWorkoutPlanner.ts:74-83 | adding keeps ids pairwise distinct |
| `Plan.Remove` | src/hooks/useWorkoutPlanner.ts:92 | an entry is kept exactly when it was in the list and has a different id |
| `Plan.RemoveDrops` | src/hooks/useWorkoutPlanner.ts:92 | no entry with the id is left after removal |
| `Plan.RemoveIsSubsequence` | src/hooks/useWorkoutPlanner.ts:92 | the remaining entries keep their original relative order |
| `Plan.RemoveAbsent` | src/hooks/useWorkoutPlanner.ts:92 | removing an absent id returns the list unchanged |
| `Plan.RemoveAppend` | src/hooks/useWorkoutPlanner.ts:92 | removal from a concatenation is the concatenation of the removals |
| `Plan.AddThenRemove` | src/hooks/useWorkoutPlanner.ts:66-93 | removing a freshly added exercise restores the previous list |
| `Plan.RemoveKeepsIdsDistinct` | src/hooks/useWorkoutPlanner.ts:86-93 | removal keeps ids distinct; in a distinct plan it drops exactly one entry when the id is present and none otherwise |
| `Plan.Patched` | src/hooks/useWorkoutPlanner.ts:98 | the spread keeps exercise fields and time stamp; sets and reps take the patch's value when the key is given and are kept otherwise, with no bounds |
| `Plan.Update` | src/hooks/useWorkoutPlanner.ts:96-100 | length is preserved; entries with the id are patched and every other entry is unchanged |
| `Plan.UpdateKeepsIds` | src/hooks/useWorkoutPlanner.ts:96-100 | an update keeps the id list, hence length and order; it keeps exercise fields and time stamps; it leaves non-matching entries equal |
| `Plan.UpdateKeepsIdsDistinct` | src/hooks/useWorkoutPlanner.ts:96-100 | an update keeps ids distinct |
| `Plan.UpdateNoop` | src/hooks/useWorkoutPlanner.ts:96-100 | an update of an absent id, or with no keys, returns the list unchanged |
| `Plan.UpdateIdempotent` | src/hooks/useWorkoutPlanner.ts:96-100 | applying the same update twice equals applying it once |
| `Plan.Apply` | src/hooks/useWorkoutPlanner.ts:66-107 | one operation on the list: an add leaves the id present, and an absent id grows the list by one entry with the given counts or the defaults 3 and 12; a remove leaves no entry with the id; an update keeps the ids; a clear gives the empty list |
| `Plan.ApplyKeepsIdsDistinct` | src/hooks/useWorkoutPlanner.ts:66-107 | each add, remove, update or clear keeps ids distinct |
| `Plan.RunKeepsIdsDistinct` | src/hooks/useWorkoutPlanner.ts:66-107 | any sequence of operations keeps distinct ids distinct |
| `Plan.FromEmptyIdsDistinct` | src/hooks/useWorkoutPlanner.ts:26-107 | from the initial empty list, ids are pairwise distinct after any sequence of operations |
| `Planner.Saved` | src/hooks/useWorkoutPlanner.ts:57-64 | after saving, the key is present exactly when the list is non-empty and then holds it; every other key is unchanged |
| `Planner.LoadedList` | src/hooks/useWorkoutPlanner.ts:43-49 | a stored array replaces the list; the list changes only to an array held under the key |
| `Planner.ToastMessagesDistinct` | src/hooks/useWorkoutPlanner.ts:78-104 | the add message ("<title> adicionado ao treino!") and the removal message ("<title> removido do treino!") each determine their title, and no add, removal, duplicate or clear message equals a message of another kind |
| `Planner.LoadedStorage` | src/hooks/useWorkoutPlanner.ts:42-55 | unparsable content under the key is deleted; every other key and value is kept |
| `Planner.SaveLoadRoundTrip` | src/hooks/useWorkoutPlanner.ts:42-64 | loading what was saved, on a fresh mount, gives back the saved list and leaves storage as it was saved |
| `Planner.MountOutcome` | src/hooks/useWorkoutPlanner.ts:42-64 | after mounting, a stored array is the plan and stays stored only if non-empty; any other content gives an empty plan and the key is gone; other keys are untouched |
| `Planner.SaveIdempotent` | src/hooks/useWorkoutPlanner.ts:57-64 | saving the same list twice equals saving it once |
| `Planner.SaveOnMirror` | src/hooks/useWorkoutPlanner.ts:57-64 | storage that already mirrors the list is unchanged by the save effect |
| `Planner.WorkoutPlanner.constructor` | src/hooks/useWorkoutPlanner.ts:26-64 | mounting loads a stored array, or starts empty, with a hidden toast; storage then mirrors the list |
| `Planner.WorkoutPlanner.LoadSaved` | src/hooks/useWorkoutPlanner.ts:42-55 | the load effect: a stored array replaces the list and anything else leaves it; unparsable content is deleted; the toast is unchanged |
| `Planner.WorkoutPlanner.SaveToStorage` | src/hooks/useWorkoutPlanner.ts:57-64 | the save effect: storage mirrors the list afterwards; list and toast are unchanged |
| `Planner.WorkoutPlanner.ShowToast` | src/hooks/useWorkoutPlanner.ts:33-35 | the toast becomes visible with the message and the kind, which defaults to success; nothing else changes |
| `Planner.WorkoutPlanner.HideToast` | src/hooks/useWorkoutPlanner.ts:37-39 | only `isVisible` is cleared; message and kind are kept; nothing else changes |
| `Planner.WorkoutPlanner.AddExercise` | src/hooks/useWorkoutPlanner.ts:66-84 | the list becomes `Add` with defaults 3 and 12; a duplicate gets the 'info' duplicate toast and a new exercise a 'success' toast naming it; a duplicate changes neither list nor storage; distinct ids stay distinct; storage mirrors the list |
| `Planner.WorkoutPlanner.RemoveExercise` | src/hooks/useWorkoutPlanner.ts:86-94 | the list becomes `Remove` and holds no entry with the id; an 'info' toast names the first match only if there was one, otherwise nothing changes; distinct ids stay distinct |
| `Planner.WorkoutPlanner.UpdateExercise` | src/hooks/useWorkoutPlanner.ts:96-100 | the list becomes `Update` with the same ids; the toast is unchanged; storage mirrors the list |
| `Planner.WorkoutPlanner.ClearWorkout` | src/hooks/useWorkoutPlanner.ts:102-107 | the list is empty and the key deleted; an 'info' toast appears only when the list was non-empty |
| `Planner.WorkoutPlanner.IsExerciseSelected` | src/hooks/useWorkoutPlanner.ts:109-111 | true exactly when some entry of the plan has the id |
| `Planner.WorkoutPlanner.TotalExercises` | src/hooks/useWorkoutPlanner.ts:120 | the list length, which is zero exactly when nothing is stored under the key |

## Left out

- React scheduling is not modelled. State updaters, re-renders and the order in which effects run are flattened into sequential method calls. The mount sequence is modelled by its final state. In the first commit the save effect sees the empty list and deletes the key. The re-render with the loaded list then writes it back. So the model's "load, then save" gives the same final storage. Strict-mode double invocation is not modelled.
- JSON is not modelled as text. `JSON.stringify`/`JSON.parse` are abstracted to the `Stored` values, and a save stores the list itself. The unchecked cast `as WorkoutExercise[]` is modelled as trusting the stored entries: the model does not validate their shape or their ids.
- JavaScript numbers are modelled as unbounded integers. NaN, which `parseInt` can produce on the page, and fractional values are not modelled.
- `Plan.Patched`: an update object whose key is present but explicitly `undefined` is not modelled. In the source such a key overwrites the field with `undefined`. `Patch` only distinguishes an omitted key from a given number.
- The `console.error` call on a parse failure is output only, so it is not modelled.
- Catalog string fields are Dafny strings. No Unicode normalisation or locale behaviour is involved.
- The server side (Prisma services, controllers, API routes, QR-code generation and cleanup), the AR viewer, the QR scanner and the React components are not part of this model. They are I/O, library calls or rendering with no logic of their own beyond what the catalog and the hook do.
