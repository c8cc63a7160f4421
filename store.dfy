/** What both trackers keep invariant about their store, and the records
    their operations write. Ids come from `uuid4`, so no two sessions, no two
    meals and no two exercises of a session share an id. */
module Store {
  import opened Lists
  import opened Records

  /** Session ids are unique, and exercise ids are unique within each session. */
  predicate SessionsKeyed(sessions: seq<Session>) {
    Distinct(sessions, SessionId) &&
    forall s :: s in sessions ==> Distinct(s.exercises, ExerciseId)
  }

  predicate MealsKeyed(meals: seq<Meal>) {
    Distinct(meals, MealId)
  }

  /** `id` is unused: what a fresh `uuid4().hex` gives. */
  predicate SessionIdFresh(sessions: seq<Session>, id: Id) {
    forall s :: s in sessions ==> s.id != id
  }

  predicate ExerciseIdFresh(sessions: seq<Session>, id: Id) {
    forall s, e :: s in sessions && e in s.exercises ==> e.id != id
  }

  predicate MealIdFresh(meals: seq<Meal>, id: Id) {
    forall m :: m in meals ==> m.id != id
  }

  lemma KeyedAppendSession(sessions: seq<Session>, s: Session)
    requires SessionsKeyed(sessions) && SessionIdFresh(sessions, s.id)
    requires Distinct(s.exercises, ExerciseId)
    ensures SessionsKeyed(sessions + [s])
  {
    DistinctAppend(sessions, s, SessionId);
  }

  lemma KeyedFilterSessions(sessions: seq<Session>, keep: Session -> bool)
    requires SessionsKeyed(sessions)
    ensures SessionsKeyed(Filter(sessions, keep))
  {
    FilterDistinct(sessions, keep, SessionId);
  }

  lemma KeyedRemoveSession(sessions: seq<Session>, i: nat)
    requires SessionsKeyed(sessions) && i < |sessions|
    ensures SessionsKeyed(sessions[..i] + sessions[i + 1..])
  {
    DistinctRemoveAt(sessions, i, SessionId);
    forall s | s in sessions[..i] + sessions[i + 1..] ensures s in sessions {
      if s in sessions[..i] {
        var k :| 0 <= k < i && sessions[..i][k] == s;
        assert sessions[k] == s;
      } else {
        var k :| 0 <= k < |sessions[i + 1..]| && sessions[i + 1..][k] == s;
        assert sessions[i + 1 + k] == s;
      }
    }
  }

  /** Replacing a session by one with the same id and distinct exercise ids. */
  lemma KeyedReplaceSession(sessions: seq<Session>, i: nat, s: Session)
    requires SessionsKeyed(sessions) && i < |sessions|
    requires s.id == sessions[i].id && Distinct(s.exercises, ExerciseId)
    ensures SessionsKeyed(sessions[i := s])
  {
    var r := sessions[i := s];
    forall x | x in r ensures Distinct(x.exercises, ExerciseId) {
      var k :| 0 <= k < |r| && r[k] == x;
      if k != i {
        assert sessions[k] == x;
      }
    }
    forall k, l | 0 <= k < l < |r| ensures SessionId(r[k]) != SessionId(r[l]) {
      assert SessionId(r[k]) == SessionId(sessions[k]) && SessionId(r[l]) == SessionId(sessions[l]);
    }
  }

  /** With unique ids, the session removed from position `i` is not among
      those that remain. */
  lemma RemovedIsGone(sessions: seq<Session>, i: nat)
    requires SessionsKeyed(sessions) && i < |sessions|
    ensures sessions[i] !in sessions[..i] + sessions[i + 1..]
  {
    var r := sessions[..i] + sessions[i + 1..];
    forall k | 0 <= k < |r| ensures r[k] != sessions[i] {
      var k' := if k < i then k else k + 1;
      assert r[k] == sessions[k'] && SessionId(sessions[k']) != SessionId(sessions[i]);
    }
  }

  lemma KeyedReplaceExercise(exercises: seq<Exercise>, j: nat, e: Exercise)
    requires Distinct(exercises, ExerciseId) && j < |exercises| && e.id == exercises[j].id
    ensures Distinct(exercises[j := e], ExerciseId)
  {
    var r := exercises[j := e];
    forall k, l | 0 <= k < l < |r| ensures ExerciseId(r[k]) != ExerciseId(r[l]) {
      assert ExerciseId(r[k]) == ExerciseId(exercises[k]) && ExerciseId(r[l]) == ExerciseId(exercises[l]);
    }
  }

  lemma KeyedReplaceMeal(meals: seq<Meal>, k: nat, m: Meal)
    requires MealsKeyed(meals) && k < |meals| && m.id == meals[k].id
    ensures MealsKeyed(meals[k := m])
  {
    var r := meals[k := m];
    forall a, b | 0 <= a < b < |r| ensures MealId(r[a]) != MealId(r[b]) {
      assert MealId(r[a]) == MealId(meals[a]) && MealId(r[b]) == MealId(meals[b]);
    }
  }

  /** Replacing a meal by one that names the same food keeps the references. */
  lemma ResolveReplaceMeal(meals: seq<Meal>, foods: map<string, Food>, k: nat, m: Meal)
    requires k < |meals| && m.food == meals[k].food
    ensures MealsResolve(meals, foods) ==> MealsResolve(meals[k := m], foods)
  {
    if MealsResolve(meals, foods) {
      forall x | x in meals[k := m] ensures x.food in foods {
        var a :| 0 <= a < |meals[k := m]| && meals[k := m][a] == x;
        assert meals[a] in meals;
      }
    }
  }

  lemma KeyedAppendExercise(exercises: seq<Exercise>, e: Exercise)
    requires Distinct(exercises, ExerciseId)
    requires forall x :: x in exercises ==> x.id != e.id
    ensures Distinct(exercises + [e], ExerciseId)
  {
    forall i | 0 <= i < |exercises| ensures ExerciseId(exercises[i]) != ExerciseId(e) {
      assert exercises[i] in exercises;
    }
    DistinctAppend(exercises, e, ExerciseId);
  }

  lemma KeyedAppendMeal(meals: seq<Meal>, m: Meal)
    requires MealsKeyed(meals) && MealIdFresh(meals, m.id)
    ensures MealsKeyed(meals + [m])
  {
    forall i | 0 <= i < |meals| ensures MealId(meals[i]) != MealId(m) {
      assert meals[i] in meals;
    }
    DistinctAppend(meals, m, MealId);
  }

  /** Deleting a food together with its meals keeps every remaining meal's
      food in the registry. */
  lemma CascadeResolves(meals: seq<Meal>, foods: map<string, Food>, name: string)
    requires MealsResolve(meals, foods)
    ensures MealsResolve(Filter(meals, NotFood(name)), foods - {name})
  {
  }

  /** Keeps the exercises that differ from a shown row in name, sets or reps. */
  function OtherRow(name: string, sets: Option<int>, reps: int): Exercise -> bool {
    (e: Exercise) => !(e.name == name && e.sets == sets && e.reps == reps)
  }

  /** A food as the add/edit dialogs store it: both values rounded to two
      decimals. */
  function EnteredFood(cal: real, prot: real): (f: Food)
    ensures -0.005 <= f.calPer100g - cal <= 0.005
    ensures -0.005 <= f.proteinPer100g - prot <= 0.005
    ensures f.calPer100g * 100.0 == (f.calPer100g * 100.0).Floor as real
    ensures f.proteinPer100g * 100.0 == (f.proteinPer100g * 100.0).Floor as real
  {
    Food(Round2(cal), Round2(prot))
  }

  /** A meal as add_meal and log_meal write it: the identifying fields as
      given, the grams rounded to two decimals, and calories and protein
      within half a hundredth of the food's per-100 g values scaled by the
      unrounded grams, each a whole number of hundredths. */
  function LoggedMeal(id: Id, timestamp: Option<Stamp>, date: Day, time: string,
                      name: string, food: Food, grams: real): (m: Meal)
    ensures m.id == id && m.timestamp == timestamp && m.date == date && m.time == time
    ensures m.food == name
    ensures -0.005 <= m.grams - grams <= 0.005
    ensures -0.005 <= m.calories - food.calPer100g * grams / 100.0 <= 0.005
    ensures -0.005 <= m.protein - food.proteinPer100g * grams / 100.0 <= 0.005
    ensures m.calories * 100.0 == (m.calories * 100.0).Floor as real
    ensures m.protein * 100.0 == (m.protein * 100.0).Floor as real
  {
    var n := MealNutrients(food, grams);
    Meal(id, timestamp, date, time, name, Round2(grams), n.calories, n.protein)
  }

  /** edit_meal's update: the meal keeps what identifies it and the food it
      names, and gets the new grams rounded and calories and protein within
      half a hundredth of the food's current per-100 g values scaled by the
      unrounded grams, whatever it was logged with. */
  function Regrammed(m: Meal, food: Food, grams: real): (r: Meal)
    ensures r.id == m.id && r.timestamp == m.timestamp && r.date == m.date
    ensures r.time == m.time && r.food == m.food
    ensures -0.005 <= r.grams - grams <= 0.005
    ensures -0.005 <= r.calories - food.calPer100g * grams / 100.0 <= 0.005
    ensures -0.005 <= r.protein - food.proteinPer100g * grams / 100.0 <= 0.005
    ensures r.calories * 100.0 == (r.calories * 100.0).Floor as real
    ensures r.protein * 100.0 == (r.protein * 100.0).Floor as real
  {
    var n := MealNutrients(food, grams);
    m.(grams := Round2(grams), calories := n.calories, protein := n.protein)
  }
}
