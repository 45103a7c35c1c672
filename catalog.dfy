/**
 * The static exercise catalog: ten exercises, five for the upper body and five
 * for the lower body, with a first-match lookup by slug and a filter by category.
 */
module Catalog {
  import opened Wrappers
  import opened Sequences

  datatype Exercise = Exercise(id: int, title: string, slug: string, description: string, category: string)

  const UpperBody: string := "upper-body"
  const LowerBody: string := "lower-body"

  /** The catalog, in its declared order. */
  const Exercises: seq<Exercise> := [
    Exercise(1, "Abdominal Bicicleta", "abdominal-bicicleta", "Exercício para o abdômen.", UpperBody),
    Exercise(2, "Rosca alternada", "biceps-curl", "Exercício para bíceps.", UpperBody),
    Exercise(3, "Desenvolvimento de Ombros", "desenvolvimento-ombros", "Trabalha os ombros e tríceps.", UpperBody),
    Exercise(4, "Tríceps no Banco", "triceps-banco", "Foca no tríceps.", UpperBody),
    Exercise(5, "Remada Curvada", "remada-curvada", "Exercício para costas e antebraços.", UpperBody),
    Exercise(6, "Agachamento", "agachamento", "Um exercício para as pernas e glúteos.", LowerBody),
    Exercise(7, "Terra Sumo com levantamento", "terra-sumo", "Trabalha quadríceps e ombro.", LowerBody),
    Exercise(8, "Agachamento unilateral", "pistol-squat", "Foca nos posteriores de coxa e glúteos.", LowerBody),
    Exercise(9, "Panturrilha em Pé", "panturrilha-em-pe", "Exercício para panturrilhas.", LowerBody),
    Exercise(10, "Cadeira Extensora", "cadeira-extensora", "Isola o quadríceps.", LowerBody)
  ]

  /** Index `i` holds the first exercise of `xs` whose slug is `slug`. */
  predicate FirstWithSlug(xs: seq<Exercise>, i: int, slug: string) {
    0 <= i < |xs| && xs[i].slug == slug && forall j :: 0 <= j < i ==> xs[j].slug != slug
  }

  /** `Array.prototype.find` with the slug test: the first exercise with that slug, if any. */
  function FindBySlug(xs: seq<Exercise>, slug: string): (r: Option<Exercise>)
    ensures r.None? <==> forall i :: 0 <= i < |xs| ==> xs[i].slug != slug
    ensures r.Some? ==> r.value in xs && r.value.slug == slug
  {
    if xs == [] then None
    else if xs[0].slug == slug then Some(xs[0])
    else FindBySlug(xs[1..], slug)
  }

  /** The lookup returns the first match, never a later one. */
  lemma {:induction false} FindBySlugIsFirst(xs: seq<Exercise>, slug: string, i: int)
    requires FirstWithSlug(xs, i, slug)
    ensures FindBySlug(xs, slug) == Some(xs[i])
  {
    if i > 0 {
      assert xs[0].slug != slug;
      assert FirstWithSlug(xs[1..], i - 1, slug) by {
        forall j | 0 <= j < i - 1 ensures xs[1..][j].slug != slug {
          assert xs[1..][j] == xs[j + 1];
        }
      }
      FindBySlugIsFirst(xs[1..], slug, i - 1);
    }
  }

  /** `getExerciseBySlug`: the catalog lookup by slug. */
  function GetExerciseBySlug(slug: string): (r: Option<Exercise>)
    ensures r.None? <==> forall e :: e in Exercises ==> e.slug != slug
    ensures r.Some? ==> r.value in Exercises && r.value.slug == slug
  {
    FindBySlug(Exercises, slug)
  }

  /** `Array.prototype.filter` with the category test. */
  function ByCategory(xs: seq<Exercise>, category: string): (r: seq<Exercise>)
    ensures forall e :: e in r <==> e in xs && e.category == category
    ensures |r| <= |xs|
  {
    if xs == [] then []
    else if xs[0].category == category then [xs[0]] + ByCategory(xs[1..], category)
    else ByCategory(xs[1..], category)
  }

  /** The filter keeps the catalog order: its result is a subsequence of its input. */
  lemma {:induction false} ByCategoryIsSubsequence(xs: seq<Exercise>, category: string)
    ensures IsSubsequence(ByCategory(xs, category), xs)
  {
    if xs != [] {
      ByCategoryIsSubsequence(xs[1..], category);
      var r := ByCategory(xs, category);
      if xs[0].category == category {
        assert r[0] == xs[0] && r[1..] == ByCategory(xs[1..], category);
      }
    }
  }

  /** The filter keeps every matching exercise as often as it occurs, and no other. */
  lemma {:induction false} ByCategoryMultiplicity(xs: seq<Exercise>, category: string, e: Exercise)
    ensures multiset(ByCategory(xs, category))[e] == if e.category == category then multiset(xs)[e] else 0
  {
    if xs != [] {
      ByCategoryMultiplicity(xs[1..], category, e);
      assert xs == [xs[0]] + xs[1..];
    }
  }

  /** Filtering a concatenation filters each part. */
  lemma {:induction false} ByCategoryAppend(xs: seq<Exercise>, ys: seq<Exercise>, category: string)
    ensures ByCategory(xs + ys, category) == ByCategory(xs, category) + ByCategory(ys, category)
  {
    if xs == [] {
      assert xs + ys == ys;
    } else {
      assert (xs + ys)[0] == xs[0];
      assert (xs + ys)[1..] == xs[1..] + ys;
      ByCategoryAppend(xs[1..], ys, category);
    }
  }

  /** Filtering a sequence whose every exercise has the category keeps all of it. */
  lemma {:induction false} ByCategoryAll(xs: seq<Exercise>, category: string)
    requires forall i :: 0 <= i < |xs| ==> xs[i].category == category
    ensures ByCategory(xs, category) == xs
  {
    if xs != [] {
      ByCategoryAll(xs[1..], category);
    }
  }

  /** Filtering a sequence in which no exercise has the category keeps nothing. */
  lemma {:induction false} ByCategoryNone(xs: seq<Exercise>, category: string)
    requires forall i :: 0 <= i < |xs| ==> xs[i].category != category
    ensures ByCategory(xs, category) == []
  {
    if xs != [] {
      ByCategoryNone(xs[1..], category);
    }
  }

  /** `getExercisesByCategory`: the catalog filtered by category. */
  function GetExercisesByCategory(category: string): (r: seq<Exercise>)
    ensures forall e :: e in r <==> e in Exercises && e.category == category
  {
    ByCategory(Exercises, category)
  }

  /** The catalog's ids are 1 to 10 in order. */
  lemma CatalogIds()
    ensures |Exercises| == 10
    ensures forall i :: 0 <= i < |Exercises| ==> Exercises[i].id == i + 1
  {
  }

  /** No two catalog entries share an id. */
  lemma CatalogIdsDistinct()
    ensures forall i, j :: 0 <= i < j < |Exercises| ==> Exercises[i].id != Exercises[j].id
  {
    CatalogIds();
  }

  /** No two catalog entries share a slug. */
  lemma CatalogSlugsDistinct()
    ensures forall i, j :: 0 <= i < j < |Exercises| ==> Exercises[i].slug != Exercises[j].slug
  {
  }

  /** Slug lookup is unambiguous: every catalog entry is found by its own slug. */
  lemma {:induction false} LookupFindsEachEntry(i: int)
    requires 0 <= i < |Exercises|
    ensures GetExerciseBySlug(Exercises[i].slug) == Some(Exercises[i])
  {
    CatalogSlugsDistinct();
    FindBySlugIsFirst(Exercises, Exercises[i].slug, i);
  }

  /** The first five entries are the upper-body ones, the last five the lower-body ones. */
  lemma {:induction false} CategoryQueries()
    ensures GetExercisesByCategory(UpperBody) == Exercises[..5]
    ensures GetExercisesByCategory(LowerBody) == Exercises[5..]
  {
    var upper, lower := Exercises[..5], Exercises[5..];
    assert Exercises == upper + lower;
    assert UpperBody != LowerBody by { assert UpperBody[0] != LowerBody[0]; }
    assert forall i :: 0 <= i < |upper| ==> upper[i].category == UpperBody;
    assert forall i :: 0 <= i < |lower| ==> lower[i].category == LowerBody;
    ByCategoryAppend(upper, lower, UpperBody);
    ByCategoryAppend(upper, lower, LowerBody);
    ByCategoryAll(upper, UpperBody);
    ByCategoryNone(lower, UpperBody);
    ByCategoryNone(upper, LowerBody);
    ByCategoryAll(lower, LowerBody);
  }

  /** When every exercise has one of two distinct categories, the two filters split the sequence. */
  lemma TwoCategoriesSplit(xs: seq<Exercise>, c1: string, c2: string)
    requires c1 != c2
    requires forall i :: 0 <= i < |xs| ==> xs[i].category == c1 || xs[i].category == c2
    ensures multiset(ByCategory(xs, c1)) !! multiset(ByCategory(xs, c2))
    ensures multiset(ByCategory(xs, c1)) + multiset(ByCategory(xs, c2)) == multiset(xs)
  {
    var m1, m2 := multiset(ByCategory(xs, c1)), multiset(ByCategory(xs, c2));
    forall e ensures m1[e] == 0 || m2[e] == 0 {
      ByCategoryMultiplicity(xs, c1, e);
      ByCategoryMultiplicity(xs, c2, e);
    }
    forall e ensures (m1 + m2)[e] == multiset(xs)[e] {
      ByCategoryMultiplicity(xs, c1, e);
      ByCategoryMultiplicity(xs, c2, e);
      if multiset(xs)[e] > 0 {
        assert e in xs;
      }
    }
  }

  /** Every exercise is upper- or lower-body; the two queries are disjoint, cover the catalog and have five entries each. */
  lemma {:induction false} CategoriesPartitionCatalog()
    ensures forall e :: e in Exercises ==> e.category == UpperBody || e.category == LowerBody
    ensures multiset(GetExercisesByCategory(UpperBody)) !! multiset(GetExercisesByCategory(LowerBody))
    ensures multiset(GetExercisesByCategory(UpperBody)) + multiset(GetExercisesByCategory(LowerBody)) == multiset(Exercises)
    ensures |GetExercisesByCategory(UpperBody)| == 5 && |GetExercisesByCategory(LowerBody)| == 5
  {
    CategoryQueries();
    assert UpperBody != LowerBody by { assert UpperBody[0] != LowerBody[0]; }
    assert forall i :: 0 <= i < |Exercises| ==> Exercises[i].category == UpperBody || Exercises[i].category == LowerBody;
    TwoCategoriesSplit(Exercises, UpperBody, LowerBody);
  }

  /**
   * The plan page's list of selectable exercises: the whole catalog when no category
   * is chosen (a falsy `selectedCategory`: null or the empty string), otherwise the same
   * filter as `getExercisesByCategory`.
   */
  function AvailableExercises(selectedCategory: Option<string>): (r: seq<Exercise>)
    ensures selectedCategory.None? || selectedCategory.value == "" ==> r == Exercises
    ensures forall e :: e in r <==>
      e in Exercises && (selectedCategory.None? || selectedCategory.value == "" || e.category == selectedCategory.value)
  {
    if selectedCategory.None? || selectedCategory.value == "" then Exercises
    else GetExercisesByCategory(selectedCategory.value)
  }

  /** Whatever is chosen, the selectable list keeps the catalog order. */
  lemma AvailableIsSubsequence(selectedCategory: Option<string>)
    ensures IsSubsequence(AvailableExercises(selectedCategory), Exercises)
  {
    if selectedCategory.None? || selectedCategory.value == "" {
      SubsequenceOfItself(Exercises);
    } else {
      ByCategoryIsSubsequence(Exercises, selectedCategory.value);
    }
  }
}
