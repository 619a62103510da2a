/** The local store: an `exercises` table and a `workouts` table, each with a
    primary key `id`, and the statements the app runs against them. */
module Database {
  import opened Wrappers
  import opened Types
  import opened Collections
  import opened Strings

  /** A row of the `workouts` table. `notes` is the nullable column; `sets`
      is the text column holding the JSON encoding of the set list, and is
      represented here by the list it encodes. */
  datatype WorkoutRow = WorkoutRow(
    id: string,
    exerciseId: string,
    date: string,
    sets: seq<WorkoutSet>,
    notes: Option<string>,
    createdAt: int)

  /** `notes || null` when writing and `notes || undefined` when reading: an
      empty note counts as no note. */
  function NonEmptyNotes(notes: Option<string>): (r: Option<string>)
    ensures r == None <==> notes == None || notes == Some("")
    ensures r != None ==> r == notes
  {
    if notes == Some("") then None else notes
  }

  /** The row `addWorkout` inserts for a workout: each column bound to the
      workout's own field, with the note normalised, so that no row ever
      holds an empty note. */
  function ToRow(w: Workout): (r: WorkoutRow)
    ensures r.id == w.id && r.exerciseId == w.exerciseId && r.date == w.date
    ensures r.sets == w.sets && r.createdAt == w.createdAt
    ensures r.notes != Some("")
    ensures r.notes == None <==> w.notes == None || w.notes == Some("")
    ensures w.notes != Some("") ==> r.notes == w.notes
  {
    WorkoutRow(w.id, w.exerciseId, w.date, w.sets, NonEmptyNotes(w.notes), w.createdAt)
  }

  /** The workout a query builds from a row: every field read from its
      column, and a null or empty note read as no note. */
  function FromRow(row: WorkoutRow): (w: Workout)
    ensures w.id == row.id && w.exerciseId == row.exerciseId && w.date == row.date
    ensures w.sets == row.sets && w.createdAt == row.createdAt
    ensures w.notes != Some("")
    ensures w.notes == None <==> row.notes == None || row.notes == Some("")
    ensures row.notes != Some("") ==> w.notes == row.notes
  {
    Workout(row.id, row.exerciseId, row.date, row.sets, NonEmptyNotes(row.notes), row.createdAt)
  }

  /** `rows.map(...)` over a query's rows: one workout per row, in row
      order, each of which writes back to its row with the note normalised;
      a null or empty note reads as no note. */
  function FromRows(rows: seq<WorkoutRow>): (r: seq<Workout>)
    ensures |r| == |rows|
    ensures forall i :: 0 <= i < |rows| ==> r[i].id == rows[i].id
    ensures forall i :: 0 <= i < |rows| && rows[i].notes != Some("") ==> ToRow(r[i]) == rows[i]
    ensures forall i :: 0 <= i < |rows| ==> ToRow(r[i]) == rows[i].(notes := NonEmptyNotes(rows[i].notes))
    ensures forall i :: 0 <= i < |rows| ==> (r[i].notes == None <==> rows[i].notes == None || rows[i].notes == Some(""))
  {
    seq(|rows|, i requires 0 <= i < |rows| => FromRow(rows[i]))
  }

  /** Writing a workout and reading it back gives the same workout, sets in
      the same order with the same reps and weights, except that an empty
      note comes back as no note. The `sets` column stands for the JSON text
      of the list, so the half about sets holds by construction; the content
      is the note normalisation. */
  lemma WorkoutRoundTrip(w: Workout)
    ensures FromRow(ToRow(w)).sets == w.sets
    ensures FromRow(ToRow(w)) == w.(notes := NonEmptyNotes(w.notes))
    ensures w.notes != Some("") ==> FromRow(ToRow(w)) == w
  {
  }

  /** Reading a stored row and writing it again gives the same row. */
  lemma RowRoundTrip(row: WorkoutRow)
    requires row.notes != Some("")
    ensures ToRow(FromRow(row)) == row
  {
  }

  // The columns the statements filter on.
  function ExerciseKey(e: Exercise): string { e.id }
  function RowId(row: WorkoutRow): string { row.id }
  function RowExerciseId(row: WorkoutRow): string { row.exerciseId }
  function RowDate(row: WorkoutRow): string { row.date }

  /** `ORDER BY name`. */
  predicate ByName(a: Exercise, b: Exercise) {
    StrLeq(a.name, b.name)
  }

  /** `ORDER BY date DESC, created_at DESC`. */
  predicate NewestFirst(a: Workout, b: Workout) {
    || (a.date != b.date && StrGeq(a.date, b.date))
    || (a.date == b.date && a.createdAt >= b.createdAt)
  }

  /** `ORDER BY date ASC`. */
  predicate DateAscending(a: Workout, b: Workout) {
    StrLeq(a.date, b.date)
  }

  /** `ORDER BY created_at DESC`. */
  predicate CreatedDescending(a: Workout, b: Workout) {
    a.createdAt >= b.createdAt
  }

  lemma ByNameTotalPreorder()
    ensures TotalPreorder(ByName)
  {
    StrLeqTotalPreorder();
  }

  lemma DateAscendingTotalPreorder()
    ensures TotalPreorder(DateAscending)
  {
    StrLeqTotalPreorder();
  }

  lemma CreatedDescendingTotalPreorder()
    ensures TotalPreorder(CreatedDescending)
  {
  }

  /** Date descending, then creation time descending, orders every pair of
      workouts and is transitive. */
  lemma NewestFirstTotalPreorder()
    ensures TotalPreorder(NewestFirst)
  {
    forall a, b ensures NewestFirst(a, b) || NewestFirst(b, a) {
      StrLeqTotal(a.date, b.date);
    }
    forall a, b, c | NewestFirst(a, b) && NewestFirst(b, c) ensures NewestFirst(a, c) {
      StrLeqTotal(a.date, a.date);
      StrLeqTotal(b.date, b.date);
      assert StrLeq(b.date, a.date) && StrLeq(c.date, b.date);
      StrLeqTransitive(c.date, b.date, a.date);
      if a.date == c.date {
        StrLeqAntisymmetric(a.date, b.date);
      }
    }
  }

  /** The two tables. Each sequence holds a table's rows in insertion order. */
  class Store {
    var exercises: seq<Exercise>
    var workouts: seq<WorkoutRow>

    /** The primary keys hold, and no stored note is the empty string. */
    ghost predicate Valid()
      reads this
    {
      && UniqueBy(exercises, ExerciseKey)
      && UniqueBy(workouts, RowId)
      && forall row :: row in workouts ==> row.notes != Some("")
    }

    /** Every workout names an exercise that exists. The schema declares this
        foreign key, but the store does not enforce it; `deleteExercise`
        keeps it by deleting the workouts first. */
    ghost predicate ReferencesResolve()
      reads this
    {
      forall row :: row in workouts ==> exists e :: e in exercises && e.id == row.exerciseId
    }

    /** `initDatabase` on a fresh device: both tables created empty. */
    constructor ()
      ensures Valid() && exercises == [] && workouts == []
    {
      exercises := [];
      workouts := [];
    }

    /** `addExercise`: inserts one row, or fails on a duplicate primary key
        and leaves both tables as they were. */
    method AddExercise(exercise: Exercise) returns (ok: bool)
      requires Valid()
      modifies this
      ensures Valid()
      ensures ok <==> forall e :: e in old(exercises) ==> e.id != exercise.id
      ensures exercises == if ok then old(exercises) + [exercise] else old(exercises)
      ensures workouts == old(workouts)
      ensures old(ReferencesResolve()) ==> ReferencesResolve()
    {
      ok := Where(exercises, ExerciseKey, exercise.id, true) == [];
      if ok {
        UniqueByAppend(exercises, ExerciseKey, exercise);
        exercises := exercises + [exercise];
      } else {
        assert Where(exercises, ExerciseKey, exercise.id, true)[0] in exercises;
      }
    }

    /** `getExercises`: every exercise, ordered by name. */
    function GetExercises(): (r: seq<Exercise>)
      reads this
      ensures multiset(r) == multiset(exercises)
      ensures Sorted(r, ByName)
    {
      ByNameTotalPreorder();
      Sort(exercises, ByName)
    }

    /** `getExerciseById`: the exercise with that id, or nothing when there
        is none. */
    function GetExerciseById(id: string): (r: Option<Exercise>)
      reads this
      ensures r.Some? <==> exists e :: e in exercises && e.id == id
      ensures r.Some? ==> r.value in exercises && r.value.id == id
      ensures r.Some? && Valid() ==> forall e :: e in exercises && e.id == id ==> e == r.value
    {
      var rows := Where(exercises, ExerciseKey, id, true);
      if rows == [] then None
      else
        assert rows[0] in rows;
        assert forall e :: e in exercises && e.id == id && Valid() ==> e == rows[0] by {
          forall e | e in exercises && e.id == id && Valid() ensures e == rows[0] {
            UniqueByMember(exercises, ExerciseKey, e, rows[0]);
          }
        }
        Some(rows[0])
    }

    /** `deleteExercise`: deletes the exercise's workouts, then the exercise;
        every other row stays, in its order. */
    method DeleteExercise(id: string)
      requires Valid()
      modifies this
      ensures Valid()
      ensures workouts == Where(old(workouts), RowExerciseId, id, false)
      ensures exercises == Where(old(exercises), ExerciseKey, id, false)
      ensures |exercises| >= |old(exercises)| - 1
      ensures GetWorkoutsByExercise(id) == [] && GetExerciseById(id) == None
      ensures old(ReferencesResolve()) ==> ReferencesResolve()
    {
      WhereUniqueAtMostOne(exercises, ExerciseKey, id);
      WherePartition(exercises, ExerciseKey, id);
      WhereUnique(workouts, RowId, RowExerciseId, id, false);
      WhereUnique(exercises, ExerciseKey, ExerciseKey, id, false);
      workouts := Where(workouts, RowExerciseId, id, false);
      exercises := Where(exercises, ExerciseKey, id, false);
      WhereNoMatch(workouts, RowExerciseId, id);
      WhereNoMatch(exercises, ExerciseKey, id);
      assert FromRows(Where(workouts, RowExerciseId, id, true)) == [];
      forall row | row in workouts && old(ReferencesResolve())
        ensures exists e :: e in exercises && e.id == row.exerciseId
      {
        var e :| e in old(exercises) && e.id == row.exerciseId;
        assert e in exercises;
      }
    }

    /** `addWorkout`: inserts the workout's row, or fails on a duplicate
        primary key and leaves both tables as they were. Whether the
        exercise exists is not checked. */
    method AddWorkout(w: Workout) returns (ok: bool)
      requires Valid()
      modifies this
      ensures Valid()
      ensures ok <==> forall row :: row in old(workouts) ==> row.id != w.id
      ensures workouts == if ok then old(workouts) + [ToRow(w)] else old(workouts)
      ensures exercises == old(exercises)
      ensures ok ==> FromRow(ToRow(w)) in GetWorkouts()
    {
      ok := Where(workouts, RowId, w.id, true) == [];
      if ok {
        UniqueByAppend(workouts, RowId, ToRow(w));
        workouts := workouts + [ToRow(w)];
        assert FromRows(workouts)[|workouts| - 1] == FromRow(ToRow(w));
        assert FromRow(ToRow(w)) in multiset(GetWorkouts());
      } else {
        assert Where(workouts, RowId, w.id, true)[0] in workouts;
      }
    }

    /** `getWorkouts`: every workout, latest date first, and within a date
        the most recently created first. */
    function GetWorkouts(): (r: seq<Workout>)
      reads this
      ensures multiset(r) == multiset(FromRows(workouts))
      ensures Sorted(r, NewestFirst)
    {
      NewestFirstTotalPreorder();
      Sort(FromRows(workouts), NewestFirst)
    }

    /** `getWorkoutsByExercise`: the workouts of one exercise, oldest date
        first. */
    function GetWorkoutsByExercise(exerciseId: string): (r: seq<Workout>)
      reads this
      ensures multiset(r) == multiset(FromRows(Where(workouts, RowExerciseId, exerciseId, true)))
      ensures forall w :: w in r ==> w.exerciseId == exerciseId
      ensures Sorted(r, DateAscending)
    {
      DateAscendingTotalPreorder();
      var rows := Where(workouts, RowExerciseId, exerciseId, true);
      var r := Sort(FromRows(rows), DateAscending);
      assert forall w :: w in r ==> w.exerciseId == exerciseId by {
        forall w | w in r ensures w.exerciseId == exerciseId {
          assert w in multiset(FromRows(rows));
          var i :| 0 <= i < |rows| && FromRows(rows)[i] == w;
          assert rows[i] in rows;
        }
      }
      r
    }

    /** `getWorkoutsByDate`: the workouts of one date, most recently created
        first. */
    function GetWorkoutsByDate(date: string): (r: seq<Workout>)
      reads this
      ensures multiset(r) == multiset(FromRows(Where(workouts, RowDate, date, true)))
      ensures forall w :: w in r ==> w.date == date
      ensures Sorted(r, CreatedDescending)
    {
      CreatedDescendingTotalPreorder();
      var rows := Where(workouts, RowDate, date, true);
      var r := Sort(FromRows(rows), CreatedDescending);
      assert forall w :: w in r ==> w.date == date by {
        forall w | w in r ensures w.date == date {
          assert w in multiset(FromRows(rows));
          var i :| 0 <= i < |rows| && FromRows(rows)[i] == w;
          assert rows[i] in rows;
        }
      }
      r
    }

    /** `deleteWorkout`: deletes the row with that id, if there is one;
        nothing else changes. */
    method DeleteWorkout(id: string)
      requires Valid()
      modifies this
      ensures Valid()
      ensures workouts == Where(old(workouts), RowId, id, false)
      ensures exercises == old(exercises)
      ensures (exists row :: row in old(workouts) && row.id == id) ==> |workouts| == |old(workouts)| - 1
      ensures (forall row :: row in old(workouts) ==> row.id != id) ==> workouts == old(workouts)
      ensures old(ReferencesResolve()) ==> ReferencesResolve()
    {
      WhereUniqueAtMostOne(workouts, RowId, id);
      WherePartition(workouts, RowId, id);
      WhereUnique(workouts, RowId, RowId, id, false);
      if forall row :: row in workouts ==> row.id != id {
        WhereNoMatch(workouts, RowId, id);
      } else {
        var row :| row in workouts && row.id == id;
        assert row in Where(workouts, RowId, id, true);
      }
      workouts := Where(workouts, RowId, id, false);
    }
  }
}
