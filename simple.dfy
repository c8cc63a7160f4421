/** The store of the simple tracker: the workouts, foods and nutrition
    documents as one object whose operations the GUI callbacks run. What a
    user types or selects in a dialog is a parameter; so are today's date,
    the creation time and the fresh ids. */
module Simple {
  import opened Lists
  import opened Records
  import opened Queries
  import opened Retention
  import opened Store

  class SimpleTracker {
    var sessions: seq<Session>
    var foods: map<string, Food>
    var meals: seq<Meal>

    ghost predicate Valid()
      reads this
    {
      SessionsKeyed(sessions) && MealsKeyed(meals)
    }

    constructor ()
      ensures Valid() && sessions == [] && foods == map[] && meals == []
    {
      sessions, foods, meals := [], map[], [];
    }

    /** prune_data: drops sessions older than 14 days and meals older than 7
        days; foods are kept. */
    method PruneData(today: Day)
      requires Valid()
      modifies this`sessions, this`meals
      ensures Valid()
      ensures sessions == PruneSessions(old(sessions), today)
      ensures meals == PruneMeals(old(meals), today)
      ensures old(MealsResolve(meals, foods)) ==> MealsResolve(meals, foods)
    {
      KeyedFilterSessions(sessions, SessionSince(today - SessionDays));
      FilterDistinct(meals, MealSince(today - MealDays), MealId);
      sessions := PruneSessions(sessions, today);
      meals := PruneMeals(meals, today);
    }

    /** add_session: an empty name or a date the format check rejects changes
        nothing; otherwise the new session is appended and the store pruned,
        so a session dated before the cutoff is gone again at once. */
    method AddSession(name: string, date: Entry<Day>, id: Id, created: Stamp, today: Day)
      returns (status: Status)
      requires Valid() && SessionIdFresh(sessions, id)
      modifies this`sessions, this`meals
      ensures Valid()
      ensures name == "" ==> status == EmptyName
      ensures name != "" && DateOrToday(date, today).None? ==> status == InvalidDate
      ensures status == Done <==> name != "" && DateOrToday(date, today).Some?
      ensures status != Done ==> sessions == old(sessions) && meals == old(meals)
      ensures status == Done ==>
        var added := Session(id, name, DateOrToday(date, today).value, created, []);
        sessions == PruneSessions(old(sessions) + [added], today) &&
        meals == PruneMeals(old(meals), today) &&
        (added in sessions <==> added.date >= today - SessionDays)
      ensures status == Done && DateOrToday(date, today).value < today - SessionDays ==>
        sessions == PruneSessions(old(sessions), today)
      ensures old(MealsResolve(meals, foods)) ==> MealsResolve(meals, foods)
    {
      if name == "" {
        return EmptyName;
      }
      var d := DateOrToday(date, today);
      if d.None? {
        return InvalidDate;
      }
      var added := Session(id, name, d.value, created, []);
      KeyedAppendSession(sessions, added);
      AppendThenPruneSession(sessions, added, today);
      sessions := sessions + [added];
      PruneData(today);
      status := Done;
    }

    /** delete_session: removes every stored session with the id of the
        selected row, and with it its exercises. */
    method DeleteSession(sel: Option<nat>) returns (status: Status)
      requires Valid()
      requires sel.Some? ==> sel.value < |sessions|
      modifies this`sessions
      ensures Valid()
      ensures sel.None? ==> status == NoSelection && sessions == old(sessions)
      ensures sel.Some? ==>
        var gone := SelectedSession(old(sessions), sel).value;
        status == Done &&
        sessions == Filter(old(sessions), KeyIsNot(SessionId, gone.id)) &&
        gone !in sessions &&
        (forall s :: s in sessions ==> s.id != gone.id) &&
        (forall s :: s in old(sessions) && s.id != gone.id ==> s in sessions)
    {
      if sel.None? {
        return NoSelection;
      }
      var gone := SelectedSession(sessions, sel).value;
      KeyedFilterSessions(sessions, KeyIsNot(SessionId, gone.id));
      sessions := Filter(sessions, KeyIsNot(SessionId, gone.id));
      assert !KeyIsNot(SessionId, gone.id)(gone);
      status := Done;
    }

    /** add_ex: appends one exercise to the first stored session whose id is
        the selected one's. The dialogs accept only sets and reps of at least 1. */
    method AddEx(sel: Option<nat>, name: string, sets: int, reps: int, weight: real, id: Id)
      returns (status: Status)
      requires Valid() && ExerciseIdFresh(sessions, id)
      requires sel.Some? ==> sel.value < |sessions|
      requires sets >= 1 && reps >= 1
      modifies this`sessions
      ensures Valid()
      ensures sel.None? ==> status == NoSelection
      ensures sel.Some? && name == "" ==> status == EmptyName
      ensures status != Done ==> sessions == old(sessions)
      ensures status == Done <==> sel.Some? && name != ""
      ensures status == Done ==>
        var k := SelectedIndex(old(sessions), sel).value;
        var ex := Exercise(id, name, Some(sets), reps, Round2(weight));
        |sessions| == |old(sessions)| &&
        sessions[k] == old(sessions)[k].(exercises := old(sessions)[k].exercises + [ex]) &&
        (forall j :: 0 <= j < |sessions| && j != k ==> sessions[j] == old(sessions)[j])
    {
      if sel.None? {
        return NoSelection;
      }
      if name == "" {
        return EmptyName;
      }
      var target := SelectedSession(sessions, sel).value;
      ghost var k := SelectedIndex(sessions, sel).value;
      var ex := Exercise(id, name, Some(sets), reps, Round2(weight));
      var i := 0;
      while sessions[i].id != target.id
        invariant 0 <= i <= k
        invariant forall j :: 0 <= j < i ==> sessions[j].id != target.id
        decreases k - i
      {
        i := i + 1;
      }
      var s := sessions[i];
      assert s in sessions;
      KeyedAppendExercise(s.exercises, ex);
      KeyedReplaceSession(sessions, i, s.(exercises := s.exercises + [ex]));
      sessions := sessions[i := s.(exercises := s.exercises + [ex])];
      status := Done;
    }

    /** del_ex: in the first stored session with the selected one's id,
        removes every exercise whose name, sets and reps equal those of the
        selected row, duplicates included. */
    method DelEx(sel: Option<nat>, row: Option<nat>) returns (status: Status)
      requires Valid()
      requires sel.Some? ==> sel.value < |sessions|
      requires sel.Some? && row.Some? ==> row.value < |SelectedSession(sessions, sel).value.exercises|
      modifies this`sessions
      ensures Valid()
      ensures sel.None? || row.None? ==> status == NoSelection && sessions == old(sessions)
      ensures sel.Some? && row.Some? ==>
        var k := SelectedIndex(old(sessions), sel).value;
        var shown := SelectedSession(old(sessions), sel).value.exercises[row.value];
        var keep := OtherRow(shown.name, shown.sets, shown.reps);
        status == Done && |sessions| == |old(sessions)| &&
        sessions[k] == old(sessions)[k].(exercises := Filter(old(sessions)[k].exercises, keep)) &&
        (forall e :: e in sessions[k].exercises ==>
           !(e.name == shown.name && e.sets == shown.sets && e.reps == shown.reps)) &&
        (forall j :: 0 <= j < |sessions| && j != k ==> sessions[j] == old(sessions)[j])
    {
      if sel.None? || row.None? {
        return NoSelection;
      }
      var target := SelectedSession(sessions, sel).value;
      ghost var k := SelectedIndex(sessions, sel).value;
      var shown := target.exercises[row.value];
      var keep := OtherRow(shown.name, shown.sets, shown.reps);
      var i := 0;
      while sessions[i].id != target.id
        invariant 0 <= i <= k
        invariant forall j :: 0 <= j < i ==> sessions[j].id != target.id
        decreases k - i
      {
        i := i + 1;
      }
      var s := sessions[i];
      assert s in sessions;
      FilterDistinct(s.exercises, keep, ExerciseId);
      KeyedReplaceSession(sessions, i, s.(exercises := Filter(s.exercises, keep)));
      sessions := sessions[i := s.(exercises := Filter(s.exercises, keep))];
      status := Done;
    }

    /** add_food: an empty name or one already registered changes nothing;
        otherwise the food is registered with its values rounded. */
    method AddFood(name: string, cal: real, prot: real) returns (status: Status)
      requires Valid()
      modifies this`foods
      ensures Valid()
      ensures name == "" ==> status == EmptyName
      ensures name != "" && name in old(foods) ==> status == DuplicateKey
      ensures status != Done ==> foods == old(foods)
      ensures status == Done <==> name != "" && name !in old(foods)
      ensures status == Done ==> foods == old(foods)[name := EnteredFood(cal, prot)]
      ensures old(MealsResolve(meals, foods)) ==> MealsResolve(meals, foods)
    {
      if name == "" {
        return EmptyName;
      }
      if name in foods {
        return DuplicateKey;
      }
      foods := foods[name := EnteredFood(cal, prot)];
      status := Done;
    }

    /** del_food: unregisters the food and removes every meal that used it;
        the other meals stay, unchanged and in order. */
    method DelFood(sel: Option<string>) returns (status: Status)
      requires Valid()
      modifies this`foods, this`meals
      ensures Valid()
      ensures sel.None? ==> status == NoSelection && foods == old(foods) && meals == old(meals)
      ensures sel.Some? ==>
        status == Done &&
        foods == old(foods) - {sel.value} &&
        meals == Filter(old(meals), NotFood(sel.value)) &&
        (forall m :: m in meals ==> m.food != sel.value) &&
        (forall m :: m in old(meals) && m.food != sel.value ==> m in meals)
      ensures old(MealsResolve(meals, foods)) ==> MealsResolve(meals, foods)
    {
      if sel.None? {
        return NoSelection;
      }
      var name := sel.value;
      if MealsResolve(meals, foods) {
        CascadeResolves(meals, foods, name);
      }
      FilterDistinct(meals, NotFood(name), MealId);
      foods := foods - {name};
      meals := Filter(meals, NotFood(name));
      status := Done;
    }

    /** load_meals: the meals of the entered date (blank means today), shown
        in stored order, with their calories and protein summed in a loop. */
    method LoadMeals(date: Entry<Day>, today: Day) returns (view: Option<DayView>)
      ensures view == MealsForDate(meals, date, today)
    {
      var d := DateOrToday(date, today);
      if d.None? {
        return None;
      }
      var rows := MealsOn(meals, d.value);
      var totalCal, totalPro := 0.0, 0.0;
      for i := 0 to |rows|
        invariant Nutrients(totalCal, totalPro) == Total(rows[..i])
      {
        assert rows[..i + 1] == rows[..i] + [rows[i]];
        TotalSnoc(rows[..i], rows[i]);
        totalCal := totalCal + rows[i].calories;
        totalPro := totalPro + rows[i].protein;
      }
      assert rows[..|rows|] == rows;
      view := Some(DayView(d.value, rows, Nutrients(totalCal, totalPro)));
    }

    /** log_meal: refused without change when no food is registered, the date
        is rejected or the typed name is empty or not registered; otherwise
        the meal is appended and the store pruned. */
    method LogMeal(date: Entry<Day>, choice: string, grams: real, id: Id, time: string, today: Day)
      returns (status: Status)
      requires Valid() && MealIdFresh(meals, id)
      modifies this`sessions, this`meals
      ensures Valid()
      ensures |old(foods)| == 0 ==> status == NoFoods
      ensures |foods| > 0 && DateOrToday(date, today).None? ==> status == InvalidDate
      ensures |foods| > 0 && DateOrToday(date, today).Some? && (choice == "" || choice !in foods) ==>
                status == InvalidReference
      ensures status == Done <==>
                |foods| > 0 && DateOrToday(date, today).Some? && choice != "" && choice in foods
      ensures status != Done ==> sessions == old(sessions) && meals == old(meals)
      ensures status == Done ==>
        var logged := LoggedMeal(id, None, DateOrToday(date, today).value, time, choice, foods[choice], grams);
        meals == PruneMeals(old(meals) + [logged], today) &&
        sessions == PruneSessions(old(sessions), today) &&
        (logged in meals <==> logged.date >= today - MealDays)
      ensures old(MealsResolve(meals, foods)) ==> MealsResolve(meals, foods)
    {
      if |foods| == 0 {
        return NoFoods;
      }
      var d := DateOrToday(date, today);
      if d.None? {
        return InvalidDate;
      }
      if choice == "" || choice !in foods {
        return InvalidReference;
      }
      var logged := LoggedMeal(id, None, d.value, time, choice, foods[choice], grams);
      KeyedAppendMeal(meals, logged);
      AppendThenPruneMeal(meals, logged, today);
      meals := meals + [logged];
      PruneData(today);
      status := Done;
    }

    /** del_meal: removes the meals with the selected id. */
    method DelMeal(sel: Option<Id>) returns (status: Status)
      requires Valid()
      modifies this`meals
      ensures Valid()
      ensures sel.None? ==> status == NoSelection && meals == old(meals)
      ensures sel.Some? ==>
        status == Done &&
        meals == Filter(old(meals), KeyIsNot(MealId, sel.value)) &&
        (forall m :: m in meals ==> m.id != sel.value) &&
        (forall m :: m in old(meals) && m.id != sel.value ==> m in meals)
      ensures old(MealsResolve(meals, foods)) ==> MealsResolve(meals, foods)
    {
      if sel.None? {
        return NoSelection;
      }
      FilterDistinct(meals, KeyIsNot(MealId, sel.value), MealId);
      meals := Filter(meals, KeyIsNot(MealId, sel.value));
      status := Done;
    }

    /** refresh_reports: the last 7 days, oldest first, with each day's sums. */
    method RefreshReports(today: Day) returns (dates: seq<Day>, calVals: seq<real>, proVals: seq<real>)
      ensures |dates| == 7 && |calVals| == 7 && |proVals| == 7
      ensures dates[0] == today - 6 && dates[6] == today
      ensures forall k :: 0 <= k < 6 ==> dates[k + 1] == dates[k] + 1
      ensures forall k :: 0 <= k < 7 ==>
                Nutrients(calVals[k], proVals[k]) == DayTotals(meals, dates[k])
    {
      dates, calVals, proVals := DailyBuckets(meals, today, 7);
    }
  }
}
