# Fitness tracker: store and aggregation model

A Dafny model of the data layer of a personal fitness-tracking app. Users log
exercises (a name and one of seven categories) and workouts (one session of
one exercise: a date, an ordered list of sets of reps × weight, an optional
note).

The model covers four parts of the app:

- **The local store** (`database.dfy`, module `Database`). The `exercises` and
  `workouts` tables are the two sequence fields of a `Store` class. Each
  statement the app runs is a method or a function over them:
  - inserts with a primary key;
  - lookup by id;
  - the four ordered `SELECT`s;
  - the deletes, including the cascading delete of an exercise.

  A `WHERE col = ?` is `Collections.Where`, and an `ORDER BY` is
  `Collections.Sort` with a comparison proved to be a total preorder.
- **The records and the unit conversion** (`types.dfy`, module `Types`). This
  covers the records, the category table and `convertWeight` over exact reals.
- **The history screen's helpers** (`history.dfy`, module `History`). These
  are the volume fold, the grouping of workouts by date, and the descending
  sort of the dates.
- **The exercise screen's helpers** (`exercise_list.dfy`, module
  `ExerciseList`). These are the trimmed-name check before an insert, the
  grouping by category, and the ascending sort of the category keys.

Shared pieces:

- `collections.dfy` holds selection, sorting and grouping, and the lemmas
  about them.
- `strings.dfy` holds ordinal string order and JavaScript's `trim`.
- `wrappers.dfy` holds `Option`.

Four points where the code's behaviour is easy to misread:

- `deleteExercise` runs two separate statements, workouts first. The model
  performs the same two deletions in sequence, with no transaction.
- The store does not check that a workout's exercise exists: SQLite leaves
  foreign keys unenforced unless told otherwise. So `Valid()` does not require
  it. `ReferencesResolve()` states it separately, and `DeleteExercise`,
  `AddExercise` and `DeleteWorkout` are proved to preserve it.
- A duplicate id makes the engine reject the `INSERT`. The model returns
  `false` and leaves the tables unchanged.
- Both screens group with a `reduce` into an empty object literal. A key
  that the literal inherits from `Object.prototype` (`constructor`,
  `toString`, `__proto__` and the others) makes `acc[key].push` throw. Dates
  are free text in the workout form, so the history grouping can throw; the
  category keys never collide, so the exercise grouping cannot.

## Model

| member | source | states |
|---|---|---|
| `Database.Store.constructor` | lib/database.ts:12-32 | Both tables start empty and the store's invariant holds: unique ids, no empty-string note stored. |
| `Database.Store.AddExercise` | lib/database.ts:37-43 | Inserts exactly one row at the end, or fails when the id is already taken and changes nothing. Ids stay unique and the workouts table is untouched. |
| `Database.Store.GetExercises` | lib/database.ts:45-60 | The result is a permutation of the stored exercises, sorted by name. |
| `Database.Store.GetExerciseById` | lib/database.ts:62-78 | Returns an exercise exactly when one with that id exists, and that exercise is then the unique one with the id. A missing id gives `None`, not an error. |
| `Database.Store.DeleteExercise` | lib/database.ts:80-84 | Deletes the exercise's workouts, then the exercise. Every other row stays, in order, and at most one exercise goes. Afterwards no workout refers to the id and looking up the id gives `None`. Workout references that resolved before still resolve. |
| `Database.Store.AddWorkout` | lib/database.ts:86-92 | Inserts the workout's row, or fails on a duplicate id and changes nothing. Once inserted, the workout as read back is among the results of `GetWorkouts`. |
| `Database.Store.GetWorkouts` | lib/database.ts:94-113 | The result is a permutation of all stored workouts, sorted by date descending, then creation time descending. |
| `Database.Store.GetWorkoutsByExercise` | lib/database.ts:115-134 | The result is a permutation of exactly the workouts of that exercise, sorted by date ascending. |
| `Database.Store.GetWorkoutsByDate` | lib/database.ts:136-155 | The result is a permutation of exactly the workouts of that date, sorted by creation time descending. |
| `Database.Store.DeleteWorkout` | lib/database.ts:157-160 | Removes only the row with that id, so the table shrinks by one when it exists. An absent id leaves both tables unchanged. |
| `Database.ToRow` | lib/database.ts:88-90 | The inserted row binds every column to the workout's own field. An absent or empty note is stored as NULL, and any other note is stored as given. |
| `Database.FromRow` | lib/database.ts:105-112 | The workout read from a row carries the row's fields. A null or empty note reads as no note, and any other note is kept. |
| `Database.FromRows` | lib/database.ts:105-112 | The `map` gives one workout per row in row order. A null or empty note reads as no note. Each workout writes back to its row with the note normalised, so exactly to its row when the note is not empty. |
| `Database.NonEmptyNotes` | lib/database.ts:90 | An absent or empty note becomes no note, and any other note is kept unchanged. |
| `Database.WorkoutRoundTrip` | lib/database.ts:90 | Writing a workout and reading it back gives the same sets in the same order with the same reps and weights. It gives the same workout except that an empty note comes back absent. |
| `Database.RowRoundTrip` | lib/database.ts:105-112 | Reading a stored row and writing it again gives the same row. |
| `Database.ByNameTotalPreorder` | lib/database.ts:52 | Name order is a total preorder, so the sort is well defined. |
| `Database.NewestFirstTotalPreorder` | lib/database.ts:103 | Date descending, then creation time descending, is total and transitive. |
| `Database.DateAscendingTotalPreorder` | lib/database.ts:124 | Date ascending is a total preorder. |
| `Database.CreatedDescendingTotalPreorder` | lib/database.ts:145 | Creation time descending is a total preorder. |
| `Collections.Where` | lib/database.ts:124 | Keeps exactly the rows whose column equals the value, or with `holds` false exactly the rows that differ, and never more rows than the table has. |
| `Collections.WhereCount` | lib/database.ts:124 | A kept row appears as often as in the table, and a dropped row not at all. |
| `Collections.WhereConcat` | lib/database.ts:82-83 | Selecting and deleting distribute over concatenation, so the surviving rows keep their order. |
| `Collections.WherePartition` | lib/database.ts:82-83 | The deleted rows and the surviving rows together make up the table. |
| `Collections.WhereUniqueAtMostOne` | lib/database.ts:14 | Under the primary key, at most one row has a given id. |
| `Collections.Sort` | lib/database.ts:52 | An `ORDER BY` result is a permutation of its input that is sorted under the comparison. |
| `Collections.GroupBy` | app/index.tsx:71-76 | The `reduce` throws exactly when some element's key is a property name `{}` inherits. Otherwise the keys are distinct and exactly those that occur, and each group holds exactly the elements with its key, in input order, and is not empty. |
| `Collections.ConcatGroupsPermutation` | app/index.tsx:71-76 | The groups for a complete list of distinct keys together hold every element exactly once. |
| `Strings.StrLeqTotalPreorder` | lib/database.ts:52 | Ordinal string order is total and transitive. |
| `Strings.StrGeqTotalPreorder` | app/index.tsx:78 | The reverse ordinal order is total and transitive. |
| `Strings.Trim` | app/exercises.tsx:30 | The result is the slice of the input with white space only on either side. It starts and ends with other characters, and it is empty exactly when the input is all white space. |
| `Types.ConvertWeight` | types/index.ts:33-37 | Equal units return the weight unchanged, with no rounding. kg to lbs gives `weight × 2.20462` rounded to the nearest tenth, halves up. lbs to kg gives `weight × 0.453592` rounded the same way. A non-negative weight converts to a non-negative one. |
| `Types.ConvertRoundTrip` | types/index.ts:35-36 | Converting to pounds and back drifts by less than 0.1 for weights from 0 to 10000. |
| `Types.ConvertRoundTripLossy` | types/index.ts:35-36 | The drift is not zero: 0.05 kg comes back as 0.0 kg. |
| `Types.ExerciseCategoriesComplete` | types/index.ts:39-47 | There are exactly seven categories, and the label table is keyed by exactly their seven keys. |
| `Types.CategoryHasLabel` | types/index.ts:39-47 | Every category's key has a label. |
| `Types.CategoryKeyInjective` | types/index.ts:6 | Distinct categories have distinct keys. |
| `History.TotalVolume` | app/index.tsx:25-27 | The left fold equals the sum of reps × weight over the sets, first set first, so it is 0 for no sets. |
| `History.TotalVolumeAdditive` | app/index.tsx:26 | The volume of `a + b` is the volume of `a` plus the volume of `b`. |
| `History.TotalVolumeNonNegative` | app/index.tsx:26 | With no negative reps or weights, the volume is not negative. |
| `History.GroupByDate` | app/index.tsx:71-76 | The grouping fails exactly when some workout's date is an inherited property name such as `constructor`. Otherwise every workout is in the group of its own date and in no other. Groups keep input order and are not empty. The date keys are distinct and are exactly the dates that occur. |
| `History.NumericDatesGroup` | app/index.tsx:71-76 | Dates made only of digits and dashes, like the workout form's default `YYYY-MM-DD`, are never inherited property names, so such a history always groups. |
| `History.SortedDates` | app/index.tsx:78 | The result holds the same dates, latest first, and strictly descending when the keys are distinct. |
| `History.HistoryListsEachWorkoutOnce` | app/index.tsx:101-104 | Walking the sorted dates and listing each group shows every workout exactly once, so the group sizes add up to the number of workouts. |
| `History.GroupsOfHistoryNewestFirst` | app/index.tsx:38 | Grouping the output of `getWorkouts` lists each date's workouts newest first. |
| `ExerciseList.ValidatedName` | app/exercises.tsx:30-33 | A name is refused exactly when it is empty or all white space. Otherwise the result is its non-empty trimmed form. |
| `ExerciseList.HandleAddExercise` | app/exercises.tsx:29-46 | A blank name is refused and nothing is inserted. Otherwise the exercise is stored with the trimmed name, the selected category and the given id and time, unless the id is taken. Workouts are untouched. |
| `ExerciseList.CategoryKeyNotInherited` | app/exercises.tsx:66-71 | No category key is a property name that `{}` inherits. |
| `ExerciseList.GroupByCategory` | app/exercises.tsx:66-71 | The grouping never throws. Every exercise is in the group of its own category and in no other, in input order. The keys are distinct and are exactly the categories that occur. |
| `ExerciseList.SortedCategories` | app/exercises.tsx:73 | The result holds the same category keys, ascending, and strictly ascending when the keys are distinct. |
| `ExerciseList.EveryCategoryHasLabel` | app/exercises.tsx:90 | Every category header the screen shows has a label in the category table. |
| `ExerciseList.GroupsOfSortedExercisesSorted` | app/exercises.tsx:66-71 | Grouping the output of `getExercises` lists each category's exercises in name order. |

## Left out

- `initDatabase`'s connection handling, the `db` singleton and `async`/`await`
  are not modelled: opening the SQLite file is I/O. The store starts as the
  empty tables the `CREATE TABLE` statements make.
- Engine failures (disk errors, corruption) are not modelled. Every statement
  in the model either succeeds or, for a duplicate key, reports failure.
- The JSON encoding of `sets` is not modelled. The column holds the list it
  encodes, so the round trip is exact by construction.
- The order SQLite gives rows whose sort keys tie is not modelled. The engine
  leaves it unspecified; the query contracts state only "a sorted
  permutation", which every engine answer meets. The functions pick the
  answer that keeps insertion order among ties.
- `localeCompare` collation is not modelled. Dates are compared in ordinal
  order, which matches it on zero-padded `YYYY-MM-DD` strings.
- IEEE-754 arithmetic is not modelled. Weights, volumes and conversions are
  exact reals, so float rounding in `convertWeight` and in the volume fold is
  out of scope, as is the `toFixed(0)` display.
- `Date.now()` is not modelled. The id text and the creation time are
  parameters of `HandleAddExercise`.
- `WorkoutSet` reps are integers. The workout form parses them with
  `parseFloat`, so fractional reps are possible there; that screen is not
  part of this model.
- `Collections.GroupBy` returns the keys in insertion order. `Object.keys`
  lists integer-like keys (a date typed as `20240101`) first, in ascending
  numeric order. No contract depends on the order, and both screens sort the
  keys afterwards.
- `History.GroupByDate` reports the `TypeError` as `ok` false and says
  nothing about the partly built dictionary: the screen never renders it.
- `formatDate` is not modelled: it depends on the current date and time zone.
- The settings store (`lib/storage.ts`, `hooks/useSettings.ts`) is not
  modelled beyond the `Settings`/`Unit` types. Its only logic is falling back
  to kilograms.
- The React components, styles, alerts, modals and navigation are not
  modelled, and neither are the workout-entry and statistics screens.
