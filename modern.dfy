/** The store of the modern tracker: the workouts document and the nutrition
    document (foods and meals) as one object whose operations the GUI
    callbacks run. A selected row of the session list, the exercise table,
    the foods table or the meals table is a parameter; so are today's date,
    the clock readings and the fresh ids. */
module Modern {
  import opened Lists
  import opened Records
  import opened Queries
  import opened Store

  class ModernTracker {
    var sessions: seq<Session>
    var foods: map<string, Food>
    var meals: seq<Meal>

    ghost predicate Valid()
      reads this
    {
      SessionsKeyed(sessions) && MealsKeyed(meals)
    }

    constructor ()
      ensures Valid() && sessions == [] && foods == map[] && meals == []
    {
      sessions, foods, meals := [], map[], [];
    }

    // -------------------------------------------------------------------
    // Sessions

    /** add_session: a date the format check rejects changes nothing;
        otherwise a session with no exercises is appended. */
    method AddSession(name: string, date: Entry<Day>, id: Id, created: Stamp, today: Day)
      returns (status: Status)
      requires Valid() && SessionIdFresh(sessions, id)
      modifies this`sessions
      ensures Valid()
      ensures DateOrToday(date, today).None? ==> status == InvalidDate && sessions == old(sessions)
      ensures DateOrToday(date, today).Some? ==>
        status == Done &&
        sessions == old(sessions) + [Session(id, name, DateOrToday(date, today).value, created, [])]
    {
      var d := DateOrToday(date, today);
      if d.None? {
        return InvalidDate;
      }
      var added := Session(id, name, d.value, created, []);
      KeyedAppendSession(sessions, added);
      sessions := sessions + [added];
      status := Done;
    }

    /** edit_session: a non-empty name replaces the name; a blank date keeps
        the date, a calendar date replaces it, and any other text is reported
        without undoing the name change. */
    method EditSession(sel: Option<nat>, newName: string, newDate: Entry<Day>) returns (status: Status)
      requires Valid()
      requires sel.Some? ==> sel.value < |sessions|
      modifies this`sessions
      ensures Valid()
      ensures sel.None? ==> status == NoSelection && sessions == old(sessions)
      ensures sel.Some? ==>
        var i := SelectedIndex(old(sessions), sel).value;
        var s := old(sessions)[i];
        var dateOk := newDate.Blank? || (newDate.Given? && ValidDate(newDate.value));
        (status == Done <==> dateOk) && (status != Done ==> status == InvalidDate) &&
        |sessions| == |old(sessions)| &&
        sessions[i].id == s.id && sessions[i].created == s.created &&
        sessions[i].exercises == s.exercises &&
        sessions[i].name == (if newName == "" then s.name else newName) &&
        sessions[i].date == (if newDate.Given? && ValidDate(newDate.value) then newDate.value else s.date) &&
        (forall j :: 0 <= j < |sessions| && j != i ==> sessions[j] == old(sessions)[j])
    {
      if sel.None? {
        return NoSelection;
      }
      var i := SelectedIndex(sessions, sel).value;
      var s := sessions[i];
      if newName != "" {
        s := s.(name := newName);
      }
      status := Done;
      match newDate {
        case Blank =>
        case Given(d) =>
          if ValidDate(d) {
            s := s.(date := d);
          } else {
            status := InvalidDate;
          }
        case Unreadable =>
          status := InvalidDate;
      }
      assert old(sessions)[i] in old(sessions);
      KeyedReplaceSession(sessions, i, s);
      sessions := sessions[i := s];
    }

    /** delete_session: removes the session at the stored position of the
        selected row; with unique ids that is the listed session itself. */
    method DeleteSession(sel: Option<nat>) returns (status: Status)
      requires Valid()
      requires sel.Some? ==> sel.value < |sessions|
      modifies this`sessions
      ensures Valid()
      ensures sel.None? ==> status == NoSelection && sessions == old(sessions)
      ensures sel.Some? ==>
        var i := SelectedIndex(old(sessions), sel).value;
        status == Done &&
        sessions == old(sessions)[..i] + old(sessions)[i + 1..] &&
        SessionView(old(sessions))[sel.value] !in sessions
    {
      if sel.None? {
        return NoSelection;
      }
      var i := SelectedIndex(sessions, sel).value;
      SelectedIndexIsListed(sessions, sel.value);
      KeyedRemoveSession(sessions, i);
      RemovedIsGone(sessions, i);
      sessions := sessions[..i] + sessions[i + 1..];
      status := Done;
    }

    // -------------------------------------------------------------------
    // Exercises

    /** add_exercise: an empty name changes nothing; otherwise the best set is
        appended to the selected session, its weight rounded. */
    method AddExercise(sel: Option<nat>, name: string, weight: real, reps: int, id: Id)
      returns (status: Status)
      requires Valid() && ExerciseIdFresh(sessions, id)
      requires sel.Some? ==> sel.value < |sessions|
      modifies this`sessions
      ensures Valid()
      ensures sel.None? ==> status == NoSelection
      ensures sel.Some? && name == "" ==> status == EmptyName
      ensures status == Done <==> sel.Some? && name != ""
      ensures status != Done ==> sessions == old(sessions)
      ensures status == Done ==>
        var i := SelectedIndex(old(sessions), sel).value;
        var ex := Exercise(id, name, None, reps, Round2(weight));
        sessions == old(sessions)[i := old(sessions)[i].(exercises := old(sessions)[i].exercises + [ex])]
    {
      if sel.None? {
        return NoSelection;
      }
      if name == "" {
        return EmptyName;
      }
      var i := SelectedIndex(sessions, sel).value;
      var s := sessions[i];
      var ex := Exercise(id, name, None, reps, Round2(weight));
      assert s in sessions;
      KeyedAppendExercise(s.exercises, ex);
      KeyedReplaceSession(sessions, i, s.(exercises := s.exercises + [ex]));
      sessions := sessions[i := s.(exercises := s.exercises + [ex])];
      status := Done;
    }

    /** edit_exercise: the first exercise of the selected session with the
        selected id gets the non-empty name, the weight (rounded) and the reps
        typed; a blank field keeps its value, and one that does not read as a
        number keeps its value and is reported. */
    method EditExercise(sel: Option<nat>, exSel: Option<Id>, newName: string,
                        newWeight: Entry<real>, newReps: Entry<int>)
      returns (status: Status)
      requires Valid()
      requires sel.Some? ==> sel.value < |sessions|
      modifies this`sessions
      ensures Valid()
      ensures sel.None? || exSel.None? ==> status == NoSelection && sessions == old(sessions)
      ensures sel.Some? && exSel.Some? ==>
        var i := SelectedIndex(old(sessions), sel).value;
        var s := old(sessions)[i];
        match IndexOfKey(s.exercises, ExerciseId, exSel.value)
        case None => status == NotFound && sessions == old(sessions)
        case Some(j) =>
          var e := s.exercises[j];
          var edited := Exercise(
            e.id,
            if newName == "" then e.name else newName,
            e.sets,
            if newReps.Given? then newReps.value else e.reps,
            if newWeight.Given? then Round2(newWeight.value) else e.weight);
          sessions == old(sessions)[i := s.(exercises := s.exercises[j := edited])] &&
          (status == InvalidNumber <==> newWeight.Unreadable? || newReps.Unreadable?) &&
          (status != InvalidNumber ==> status == Done)
    {
      if sel.None? || exSel.None? {
        return NoSelection;
      }
      var i := SelectedIndex(sessions, sel).value;
      var s := sessions[i];
      var found := IndexOfKey(s.exercises, ExerciseId, exSel.value);
      if found.None? {
        return NotFound;
      }
      var j := found.value;
      var e := s.exercises[j];
      status := Done;
      if newName != "" {
        e := e.(name := newName);
      }
      match newWeight {
        case Blank =>
        case Given(w) => e := e.(weight := Round2(w));
        case Unreadable => status := InvalidNumber;
      }
      match newReps {
        case Blank =>
        case Given(r) => e := e.(reps := r);
        case Unreadable => status := InvalidNumber;
      }
      assert s in sessions;
      KeyedReplaceExercise(s.exercises, j, e);
      KeyedReplaceSession(sessions, i, s.(exercises := s.exercises[j := e]));
      sessions := sessions[i := s.(exercises := s.exercises[j := e])];
    }

    /** delete_exercise: removes the exercises of the selected session that
        have the selected id; the other exercises keep their order and the
        other sessions are untouched. */
    method DeleteExercise(sel: Option<nat>, exSel: Option<Id>) returns (status: Status)
      requires Valid()
      requires sel.Some? ==> sel.value < |sessions|
      modifies this`sessions
      ensures Valid()
      ensures sel.None? || exSel.None? ==> status == NoSelection && sessions == old(sessions)
      ensures sel.Some? && exSel.Some? ==>
        var i := SelectedIndex(old(sessions), sel).value;
        var s := old(sessions)[i];
        status == Done &&
        sessions == old(sessions)[i := s.(exercises := Filter(s.exercises, KeyIsNot(ExerciseId, exSel.value)))] &&
        (forall e :: e in sessions[i].exercises ==> e.id != exSel.value) &&
        (forall e :: e in s.exercises && e.id != exSel.value ==> e in sessions[i].exercises)
    {
      if sel.None? || exSel.None? {
        return NoSelection;
      }
      var i := SelectedIndex(sessions, sel).value;
      var s := sessions[i];
      var kept := Filter(s.exercises, KeyIsNot(ExerciseId, exSel.value));
      assert s in sessions;
      FilterDistinct(s.exercises, KeyIsNot(ExerciseId, exSel.value), ExerciseId);
      KeyedReplaceSession(sessions, i, s.(exercises := kept));
      sessions := sessions[i := s.(exercises := kept)];
      status := Done;
    }

    // -------------------------------------------------------------------
    // Foods

    /** add_food: an empty name or one already registered changes nothing;
        otherwise the food is registered with its values rounded. Meals are
        not touched. */
    method AddFood(name: string, cal: real, prot: real) returns (status: Status)
      requires Valid()
      modifies this`foods
      ensures Valid()
      ensures name == "" ==> status == EmptyName
      ensures name != "" && name in old(foods) ==> status == DuplicateKey
      ensures status == Done <==> name != "" && name !in old(foods)
      ensures status != Done ==> foods == old(foods)
      ensures status == Done ==> foods == old(foods)[name := EnteredFood(cal, prot)]
      ensures old(MealsResolve(meals, foods)) ==> MealsResolve(meals, foods)
    {
      if name == "" {
        return EmptyName;
      }
      if name in foods {
        return DuplicateKey;
      }
      foods := foods[name := EnteredFood(cal, prot)];
      status := Done;
    }

    /** edit_food: replaces the selected food's values; the meals keep the
        calories and protein they were logged with. */
    method EditFood(sel: Option<string>, cal: real, prot: real) returns (status: Status)
      requires Valid()
      modifies this`foods
      ensures Valid()
      ensures sel.None? ==> status == NoSelection && foods == old(foods)
      ensures sel.Some? ==> status == Done && foods == old(foods)[sel.value := EnteredFood(cal, prot)]
      ensures old(MealsResolve(meals, foods)) ==> MealsResolve(meals, foods)
    {
      if sel.None? {
        return NoSelection;
      }
      foods := foods[sel.value := EnteredFood(cal, prot)];
      status := Done;
    }

    /** delete_food: unregisters the food and removes every meal that used it;
        the other meals stay, unchanged and in order. */
    method DeleteFood(sel: Option<string>) returns (status: Status)
      requires Valid()
      modifies this`foods, this`meals
      ensures Valid()
      ensures sel.None? ==> status == NoSelection && foods == old(foods) && meals == old(meals)
      ensures sel.Some? ==>
        status == Done &&
        foods == old(foods) - {sel.value} &&
        meals == Filter(old(meals), NotFood(sel.value)) &&
        (forall m :: m in meals ==> m.food != sel.value) &&
        (forall m :: m in old(meals) && m.food != sel.value ==> m in meals)
      ensures old(MealsResolve(meals, foods)) ==> MealsResolve(meals, foods)
    {
      if sel.None? {
        return NoSelection;
      }
      var name := sel.value;
      if MealsResolve(meals, foods) {
        CascadeResolves(meals, foods, name);
      }
      FilterDistinct(meals, NotFood(name), MealId);
      foods := foods - {name};
      meals := Filter(meals, NotFood(name));
      status := Done;
    }

    // -------------------------------------------------------------------
    // Meals

    /** add_meal: refused without change when no food is registered, the date
        is rejected, or the typed name is empty or not registered (checked in
        that order); otherwise exactly one meal is appended. */
    method AddMeal(date: Entry<Day>, choice: string, grams: real, id: Id, stamp: Stamp,
                   time: string, today: Day)
      returns (status: Status)
      requires Valid() && MealIdFresh(meals, id)
      modifies this`meals
      ensures Valid()
      ensures |foods| == 0 ==> status == NoFoods
      ensures |foods| > 0 && DateOrToday(date, today).None? ==> status == InvalidDate
      ensures |foods| > 0 && DateOrToday(date, today).Some? && (choice == "" || choice !in foods) ==>
                status == InvalidReference
      ensures status == Done <==>
                |foods| > 0 && DateOrToday(date, today).Some? && choice != "" && choice in foods
      ensures status != Done ==> meals == old(meals)
      ensures status == Done ==>
        meals == old(meals) + [LoggedMeal(id, Some(stamp), DateOrToday(date, today).value, time,
                                          choice, foods[choice], grams)]
      ensures old(MealsResolve(meals, foods)) ==> MealsResolve(meals, foods)
    {
      if |foods| == 0 {
        return NoFoods;
      }
      var d := DateOrToday(date, today);
      if d.None? {
        return InvalidDate;
      }
      if choice == "" || choice !in foods {
        return InvalidReference;
      }
      var logged := LoggedMeal(id, Some(stamp), d.value, time, choice, foods[choice], grams);
      KeyedAppendMeal(meals, logged);
      meals := meals + [logged];
      status := Done;
    }

    /** edit_meal: the first meal with the selected id gets the new grams and
        nutrients recomputed from its food's current values; nothing changes
        when no meal has the id or its food is no longer registered. */
    method EditMeal(sel: Option<Id>, grams: real) returns (status: Status)
      requires Valid()
      modifies this`meals
      ensures Valid()
      ensures sel.None? ==> status == NoSelection && meals == old(meals)
      ensures sel.Some? ==>
        match IndexOfKey(old(meals), MealId, sel.value)
        case None => status == NotFound && meals == old(meals)
        case Some(k) =>
          if old(meals)[k].food !in foods then status == InvalidReference && meals == old(meals)
          else status == Done &&
               meals == old(meals)[k := Regrammed(old(meals)[k], foods[old(meals)[k].food], grams)]
      ensures old(MealsResolve(meals, foods)) ==> MealsResolve(meals, foods)
    {
      if sel.None? {
        return NoSelection;
      }
      var found := IndexOfKey(meals, MealId, sel.value);
      if found.None? {
        return NotFound;
      }
      var k := found.value;
      var meal := meals[k];
      if meal.food !in foods {
        return InvalidReference;
      }
      var edited := Regrammed(meal, foods[meal.food], grams);
      KeyedReplaceMeal(meals, k, edited);
      ResolveReplaceMeal(meals, foods, k, edited);
      meals := meals[k := edited];
      status := Done;
    }

    /** delete_meal: removes the meals with the selected id. */
    method DeleteMeal(sel: Option<Id>) returns (status: Status)
      requires Valid()
      modifies this`meals
      ensures Valid()
      ensures sel.None? ==> status == NoSelection && meals == old(meals)
      ensures sel.Some? ==>
        status == Done &&
        meals == Filter(old(meals), KeyIsNot(MealId, sel.value)) &&
        (forall m :: m in meals ==> m.id != sel.value) &&
        (forall m :: m in old(meals) && m.id != sel.value ==> m in meals)
      ensures old(MealsResolve(meals, foods)) ==> MealsResolve(meals, foods)
    {
      if sel.None? {
        return NoSelection;
      }
      FilterDistinct(meals, KeyIsNot(MealId, sel.value), MealId);
      meals := Filter(meals, KeyIsNot(MealId, sel.value));
      status := Done;
    }

    // -------------------------------------------------------------------
    // Reports

    /** refresh_reports: `max(1, N or 14)` days ending today, oldest first,
        with each day's sums. */
    method RefreshReports(n: int, today: Day)
      returns (days: nat, dates: seq<Day>, calVals: seq<real>, proVals: seq<real>)
      ensures days == ReportDays(n)
      ensures |dates| == days && |calVals| == days && |proVals| == days
      ensures dates[days - 1] == today
      ensures forall k :: 0 <= k < days - 1 ==> dates[k + 1] == dates[k] + 1
      ensures forall k :: 0 <= k < days ==>
                Nutrients(calVals[k], proVals[k]) == DayTotals(meals, dates[k])
    {
      days := ReportDays(n);
      dates, calVals, proVals := DailyBuckets(meals, today, days);
    }
  }
}
