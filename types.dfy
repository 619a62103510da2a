/** The records of the app, its unit system and the category table. */
module Types {
  import opened Wrappers

  /** The seven exercise categories. */
  datatype Category = Chest | Back | Legs | Shoulders | Arms | Core | Other

  /** The string a category is stored and keyed under. */
  function CategoryKey(c: Category): string {
    match c
    case Chest => "chest"
    case Back => "back"
    case Legs => "legs"
    case Shoulders => "shoulders"
    case Arms => "arms"
    case Core => "core"
    case Other => "other"
  }

  /** Different categories have different keys, so grouping by key is grouping
      by category. */
  lemma CategoryKeyInjective(c: Category, d: Category)
    requires CategoryKey(c) == CategoryKey(d)
    ensures c == d
  {
  }

  const AllCategories: set<Category> := {Chest, Back, Legs, Shoulders, Arms, Core, Other}

  /** The display label of each category, keyed by its key. */
  const ExerciseCategories: map<string, string> := map[
    "chest" := "胸部",
    "back" := "背部",
    "legs" := "腿部",
    "shoulders" := "肩部",
    "arms" := "手臂",
    "core" := "核心",
    "other" := "其他"
  ]

  /** There are exactly seven categories, and the label table has an entry
      for the key of each of them and for nothing else. */
  lemma ExerciseCategoriesComplete()
    ensures forall c: Category :: c in AllCategories
    ensures |AllCategories| == 7
    ensures ExerciseCategories.Keys == set c | c in AllCategories :: CategoryKey(c)
  {
    assert forall c: Category :: c in AllCategories by {
      forall c: Category ensures c in AllCategories {
        match c
        case Chest => case Back => case Legs => case Shoulders =>
        case Arms => case Core => case Other =>
      }
    }
  }

  /** Every category's key has a label. */
  lemma CategoryHasLabel(c: Category)
    ensures CategoryKey(c) in ExerciseCategories
  {
    match c
    case Chest => case Back => case Legs => case Shoulders =>
    case Arms => case Core => case Other =>
  }

  datatype Exercise = Exercise(id: string, name: string, category: Category, createdAt: int)

  /** One set of a workout. Weights are in whatever unit was active when the
      set was entered; no unit is stored with them. */
  datatype WorkoutSet = WorkoutSet(reps: int, weight: real)

  datatype Workout = Workout(
    id: string,
    exerciseId: string,
    date: string,
    sets: seq<WorkoutSet>,
    notes: Option<string>,
    createdAt: int)

  datatype Unit = Kg | Lbs

  datatype Settings = Settings(defaultUnit: Unit)

  const KgToLbs: real := 2.20462
  const LbsToKg: real := 0.453592

  /** JavaScript's `Math.round`: the nearest integer, halves rounded up. */
  function MathRound(x: real): int {
    (x + 0.5).Floor
  }

  /** `r` is `x` rounded to the nearest tenth, halves rounded up: `10 r` is the
      integer in the interval (10 x - 1/2, 10 x + 1/2]. */
  ghost predicate IsNearestTenth(r: real, x: real) {
    && (r * 10.0).Floor as real == r * 10.0
    && x * 10.0 - 0.5 < r * 10.0 <= x * 10.0 + 0.5
  }

  /** `convertWeight`: the identity between equal units, otherwise the weight
      times the conversion factor, rounded to the nearest tenth. */
  function ConvertWeight(weight: real, from: Unit, to: Unit): (r: real)
    ensures from == to ==> r == weight
    ensures from == Kg && to == Lbs ==> IsNearestTenth(r, weight * KgToLbs)
    ensures from == Lbs && to == Kg ==> IsNearestTenth(r, weight * LbsToKg)
    ensures from != to && weight >= 0.0 ==> r >= 0.0
  {
    if from == to then weight
    else if from == Kg && to == Lbs then MathRound(weight * KgToLbs * 10.0) as real / 10.0
    else MathRound(weight * LbsToKg * 10.0) as real / 10.0
  }

  /** Converting to pounds and back drifts by less than a tenth for any
      weight up to ten tonnes, though not by zero in general. */
  lemma ConvertRoundTrip(w: real)
    requires 0.0 <= w <= 10000.0
    ensures -0.1 < ConvertWeight(ConvertWeight(w, Kg, Lbs), Lbs, Kg) - w < 0.1
  {
    var lbs := ConvertWeight(w, Kg, Lbs);
    var kg := ConvertWeight(lbs, Lbs, Kg);
    assert w * KgToLbs - 0.05 < lbs <= w * KgToLbs + 0.05;
    assert lbs * LbsToKg - 0.05 < kg <= lbs * LbsToKg + 0.05;
  }

  /** The drift is not zero in general: 0.05 kg becomes 0.1 lbs, which comes
      back as 0.0 kg. */
  lemma ConvertRoundTripLossy()
    ensures ConvertWeight(ConvertWeight(0.05, Kg, Lbs), Lbs, Kg) == 0.0
  {
    assert (0.05 * KgToLbs * 10.0 + 0.5).Floor == 1;
    assert ConvertWeight(0.05, Kg, Lbs) == 0.1;
    assert (0.1 * LbsToKg * 10.0 + 0.5).Floor == 0;
  }
}
