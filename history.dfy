/** The computations of the workout history screen: the volume of a
    workout, and the grouping of the history by date, latest date first. */
module History {
  import opened Types
  import opened Collections
  import opened Strings
  import opened Database

  /** The load of one set: reps times weight. */
  function SetVolume(s: WorkoutSet): real {
    s.reps as real * s.weight
  }

  /** The sum of reps times weight over the sets, first set first: the
      definition of volume the fold is meant to compute. */
  function VolumeSum(sets: seq<WorkoutSet>): real {
    if sets == [] then 0.0 else SetVolume(sets[0]) + VolumeSum(sets[1..])
  }

  lemma {:induction false} VolumeSumSnoc(sets: seq<WorkoutSet>, s: WorkoutSet)
    ensures VolumeSum(sets + [s]) == VolumeSum(sets) + SetVolume(s)
  {
    if sets == [] {
      assert ([] + [s])[1..] == [];
    } else {
      assert (sets + [s])[1..] == sets[1..] + [s];
      VolumeSumSnoc(sets[1..], s);
    }
  }

  /** `getTotalVolume`: the sets folded from the left, starting from 0. The
      fold computes the sum of reps times weight, which is 0 for no sets. */
  function TotalVolume(sets: seq<WorkoutSet>): (r: real)
    ensures r == VolumeSum(sets)
  {
    if sets == [] then 0.0
    else
      var init := sets[..|sets| - 1];
      assert sets == init + [sets[|sets| - 1]];
      VolumeSumSnoc(init, sets[|sets| - 1]);
      TotalVolume(init) + SetVolume(sets[|sets| - 1])
  }

  /** The volume of two lists of sets one after the other is the sum of
      their volumes. */
  lemma {:induction false} TotalVolumeAdditive(a: seq<WorkoutSet>, b: seq<WorkoutSet>)
    ensures TotalVolume(a + b) == TotalVolume(a) + TotalVolume(b)
    decreases |b|
  {
    if b == [] {
      assert a + b == a;
    } else {
      var c := a + b;
      assert c[..|c| - 1] == a + b[..|b| - 1];
      assert c[|c| - 1] == b[|b| - 1];
      TotalVolumeAdditive(a, b[..|b| - 1]);
    }
  }

  /** With no negative reps or weights the volume is not negative. */
  lemma {:induction false} TotalVolumeNonNegative(sets: seq<WorkoutSet>)
    requires forall s :: s in sets ==> s.reps >= 0 && s.weight >= 0.0
    ensures TotalVolume(sets) >= 0.0
    decreases |sets|
  {
    if sets != [] {
      var init := sets[..|sets| - 1];
      assert forall s :: s in init ==> s in sets;
      TotalVolumeNonNegative(init);
      var last := sets[|sets| - 1];
      assert last in sets;
      assert last.reps as real >= 0.0;
    }
  }

  function DateOf(w: Workout): string {
    w.date
  }

  /** `groupedWorkouts`: each date that occurs, with the workouts of that
      date in their input order. Dates are free text, and the `reduce` throws
      (`ok` false) when one of them is a property name that `{}` inherits,
      such as `constructor` or `toString`. */
  method GroupByDate(workouts: seq<Workout>) returns (ok: bool, dates: seq<string>, groups: map<string, seq<Workout>>)
    ensures ok <==> forall w :: w in workouts ==> w.date !in InheritedKeys
    ensures ok ==> Distinct(dates)
    ensures ok ==> forall d :: d in dates <==> d in groups
    ensures ok ==> forall d :: d in groups <==> exists w :: w in workouts && w.date == d
    ensures ok ==> forall w :: w in workouts ==> w.date in groups && w in groups[w.date]
    ensures ok ==> forall d, w :: d in groups && w in groups[d] ==> w.date == d && w in workouts
    ensures ok ==> forall d :: d in groups ==> groups[d] == Where(workouts, DateOf, d, true) && groups[d] != []
  {
    ok, dates, groups := GroupBy(workouts, DateOf);
  }

  /** A date written the way the workout form fills it in, digits and dashes
      only, is never an inherited property name, so history made of such
      dates always groups. */
  lemma NumericDatesGroup(workouts: seq<Workout>)
    requires forall w, i :: w in workouts && 0 <= i < |w.date| ==> '0' <= w.date[i] <= '9' || w.date[i] == '-'
    ensures forall w :: w in workouts ==> w.date !in InheritedKeys
  {
    forall w | w in workouts ensures w.date !in InheritedKeys {
      if w.date != [] {
        assert w.date[0] == '-' || '0' <= w.date[0] <= '9';
      }
    }
  }

  /** `sortedDates`: the dates, latest first; without repeats in the input,
      each comes strictly before the next. */
  function SortedDates(dates: seq<string>): (r: seq<string>)
    ensures multiset(r) == multiset(dates)
    ensures forall d :: d in r <==> d in dates
    ensures Sorted(r, StrGeq)
    ensures Distinct(dates) ==> forall i, j :: 0 <= i < j < |r| ==> StrGeq(r[i], r[j]) && r[i] != r[j]
  {
    StrGeqTotalPreorder();
    var r := Sort(dates, StrGeq);
    DistinctPermutation(dates, r);
    assert forall d :: d in r <==> d in multiset(dates);
    r
  }

  /** The screen lists each date of `sortedDates` with its group: together
      the groups hold every workout exactly once, so their sizes add up to
      the number of workouts. */
  lemma HistoryListsEachWorkoutOnce(workouts: seq<Workout>, dates: seq<string>, groups: map<string, seq<Workout>>)
    requires Distinct(dates)
    requires forall d :: d in dates <==> d in groups
    requires forall w :: w in workouts ==> w.date in groups
    requires forall d :: d in groups ==> groups[d] == Where(workouts, DateOf, d, true)
    ensures multiset(Flatten(groups, SortedDates(dates))) == multiset(workouts)
    ensures |Flatten(groups, SortedDates(dates))| == |workouts|
  {
    var sorted := SortedDates(dates);
    assert Distinct(sorted);
    assert forall d :: d in sorted ==> d in groups && groups[d] == Where(workouts, DateOf, d, true);
    FlattenGroups(workouts, DateOf, groups, sorted);
    forall w | w in workouts ensures DateOf(w) in sorted {
      assert w.date in dates;
    }
    ConcatGroupsPermutation(workouts, DateOf, sorted);
    assert |multiset(workouts)| == |workouts|;
  }

  /** Fed the result of `getWorkouts`, each date's group lists its workouts
      most recently created first. */
  lemma GroupsOfHistoryNewestFirst(workouts: seq<Workout>, d: string)
    requires Sorted(workouts, NewestFirst)
    ensures Sorted(Where(workouts, DateOf, d, true), CreatedDescending)
  {
    WhereSorted(workouts, NewestFirst, DateOf, d, true);
    var g := Where(workouts, DateOf, d, true);
    forall i, j | 0 <= i < j < |g| ensures CreatedDescending(g[i], g[j]) {
      assert g[i] in g && g[j] in g;
    }
  }
}
