/** The computations of the exercise list screen: validating a new
    exercise's name, and grouping the exercises by category. */
module ExerciseList {
  import opened Wrappers
  import opened Types
  import opened Collections
  import opened Strings
  import opened Database

  /** The check at the top of `handleAddExercise`: the trimmed name, or
      nothing when the name is empty or all white space. */
  function ValidatedName(name: string): (r: Option<string>)
    ensures r == None <==> WhiteSpaceOnly(name)
    ensures r != None ==> r.value == Trim(name) && r.value != []
  {
    var trimmed := Trim(name);
    if trimmed == [] then None else Some(trimmed)
  }

  datatype AddOutcome = Added | EmptyName | DuplicateId

  /** `handleAddExercise`, with `Date.now()` passed in as the id text and the
      creation time. A blank name is refused before the store is touched;
      otherwise the exercise is inserted with the trimmed name and the chosen
      category, unless its id is already taken. */
  method HandleAddExercise(store: Store, name: string, category: Category, id: string, now: int)
    returns (outcome: AddOutcome)
    requires store.Valid()
    modifies store
    ensures store.Valid()
    ensures outcome == EmptyName <==> WhiteSpaceOnly(name)
    ensures outcome == Added ==>
      store.exercises == old(store.exercises) + [Exercise(id, Trim(name), category, now)]
    ensures outcome != Added ==> store.exercises == old(store.exercises)
    ensures outcome == DuplicateId <==>
      !WhiteSpaceOnly(name) && exists e :: e in old(store.exercises) && e.id == id
    ensures store.workouts == old(store.workouts)
  {
    var checked := ValidatedName(name);
    if checked == None {
      return EmptyName;
    }
    var ok := store.AddExercise(Exercise(id, checked.value, category, now));
    outcome := if ok then Added else DuplicateId;
  }

  function CategoryOf(e: Exercise): string {
    CategoryKey(e.category)
  }

  /** No category key is a property name that `{}` inherits, so grouping
      exercises by category never throws. */
  lemma CategoryKeyNotInherited(c: Category)
    ensures CategoryKey(c) !in InheritedKeys
  {
  }

  /** `groupedExercises`: each category key that occurs, with the exercises
      of that category in their input order. Unlike the grouping by date, it
      always succeeds. */
  method GroupByCategory(exercises: seq<Exercise>) returns (categories: seq<string>, groups: map<string, seq<Exercise>>)
    ensures Distinct(categories)
    ensures forall k :: k in categories <==> k in groups
    ensures forall k :: k in groups <==> exists e :: e in exercises && CategoryKey(e.category) == k
    ensures forall e :: e in exercises ==> CategoryKey(e.category) in groups && e in groups[CategoryKey(e.category)]
    ensures forall c: Category, e :: CategoryKey(c) in groups && e in groups[CategoryKey(c)] ==> e.category == c && e in exercises
    ensures forall k :: k in groups ==> groups[k] == Where(exercises, CategoryOf, k, true) && groups[k] != []
  {
    forall e | e in exercises ensures CategoryOf(e) !in InheritedKeys {
      CategoryKeyNotInherited(e.category);
    }
    var ok;
    ok, categories, groups := GroupBy(exercises, CategoryOf);
    assert ok;
    forall c: Category, e | CategoryKey(c) in groups && e in groups[CategoryKey(c)]
      ensures e.category == c && e in exercises
    {
      CategoryKeyInjective(e.category, c);
    }
  }

  /** `categories`: the category keys in ascending order; without repeats in
      the input, each comes strictly before the next. */
  function SortedCategories(keys: seq<string>): (r: seq<string>)
    ensures multiset(r) == multiset(keys)
    ensures forall k :: k in r <==> k in keys
    ensures Sorted(r, StrLeq)
    ensures Distinct(keys) ==> forall i, j :: 0 <= i < j < |r| ==> StrLeq(r[i], r[j]) && r[i] != r[j]
  {
    StrLeqTotalPreorder();
    var r := Sort(keys, StrLeq);
    DistinctPermutation(keys, r);
    assert forall k :: k in r <==> k in multiset(keys);
    r
  }

  /** Every header the screen shows, `EXERCISE_CATEGORIES[category]`, has a
      label, since every key is the key of some exercise's category. */
  lemma EveryCategoryHasLabel(exercises: seq<Exercise>, keys: seq<string>)
    requires forall k :: k in keys ==> exists e :: e in exercises && CategoryKey(e.category) == k
    ensures forall k :: k in SortedCategories(keys) ==> k in ExerciseCategories
  {
    forall k | k in SortedCategories(keys) ensures k in ExerciseCategories {
      var e :| e in exercises && CategoryKey(e.category) == k;
      CategoryHasLabel(e.category);
    }
  }

  /** Fed the result of `getExercises`, each category's group lists its
      exercises in name order. */
  lemma GroupsOfSortedExercisesSorted(exercises: seq<Exercise>, k: string)
    requires Sorted(exercises, ByName)
    ensures Sorted(Where(exercises, CategoryOf, k, true), ByName)
  {
    WhereSorted(exercises, ByName, CategoryOf, k, true);
  }
}
