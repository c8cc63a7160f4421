/** The records both trackers keep: workout sessions with their exercises,
    the foods registry and the logged meals, together with the shape of the
    text a user types into a form field and the outcome of each operation.

    The two programs share one record schema here. Fields that only one of
    them writes are optional: an exercise has `sets` only when the simple
    tracker logged it, and a meal has a `timestamp` only when the modern
    tracker logged it. */
module Records {
  import opened Lists

  type Id = string

  /** A calendar day, as its proleptic Gregorian ordinal (0001-01-01 is 1). */
  type Day = int

  /** A creation time in microseconds. Stored ISO-8601 timestamps of one
      format compare as strings in the same order as these numbers. */
  type Stamp = int

  /** The ordinals of 0001-01-01 and 9999-12-31. */
  const FirstDay: Day := 1
  const LastDay: Day := 3652059

  /** The day is the ordinal of a date `datetime.date` can hold, 0001-01-01
      to 9999-12-31. A date field is modelled by the day its text names:
      how the text itself is stored and compared is in module `DateText`. */
  predicate ValidDate(d: Day) {
    FirstDay <= d <= LastDay
  }

  /** What a text field of a form yields: nothing typed, text that reads as
      a value, or text that does not. */
  datatype Entry<T> = Blank | Given(value: T) | Unreadable

  /** A date field where a blank entry means today (`entry or today_str()`),
      followed by the format check: `None` when the check rejects it. */
  function DateOrToday(entry: Entry<Day>, today: Day): (r: Option<Day>)
    ensures entry.Blank? ==> r == Some(today)
    ensures entry.Unreadable? ==> r == None
    ensures entry.Given? ==> r == (if ValidDate(entry.value) then Some(entry.value) else None)
  {
    match entry
    case Blank => Some(today)
    case Given(d) => if ValidDate(d) then Some(d) else None
    case Unreadable => None
  }

  /** `round(x, 2)`: a nearest multiple of one hundredth. The body rounds
      halves up; the contract holds for either rule of breaking ties. */
  function Round2(x: real): (r: real)
    ensures -0.005 <= r - x <= 0.005
    ensures (r * 100.0).Floor as real == r * 100.0
  {
    var hundredths := (x * 100.0 + 0.5).Floor;
    hundredths as real / 100.0
  }

  /** A food's nutrients per 100 g. */
  datatype Food = Food(calPer100g: real, proteinPer100g: real)

  /** Calories and protein, as a pair that adds up componentwise. */
  datatype Nutrients = Nutrients(calories: real, protein: real) {
    function Plus(other: Nutrients): Nutrients {
      Nutrients(calories + other.calories, protein + other.protein)
    }
  }

  const NoNutrients := Nutrients(0.0, 0.0)

  /** The nutrients of `grams` of `food`, each rounded to two decimals when
      the meal is written. */
  function MealNutrients(food: Food, grams: real): (n: Nutrients)
    ensures -0.005 <= n.calories - food.calPer100g * grams / 100.0 <= 0.005
    ensures -0.005 <= n.protein - food.proteinPer100g * grams / 100.0 <= 0.005
    ensures n.calories * 100.0 == (n.calories * 100.0).Floor as real
    ensures n.protein * 100.0 == (n.protein * 100.0).Floor as real
  {
    var factor := grams / 100.0;
    Nutrients(Round2(food.calPer100g * factor), Round2(food.proteinPer100g * factor))
  }

  /** One logged meal; `food` names a key of the foods registry and
      `calories` and `protein` are derived when the meal is written. */
  datatype Meal = Meal(
    id: Id,
    timestamp: Option<Stamp>,
    date: Day,
    time: string,
    food: string,
    grams: real,
    calories: real,
    protein: real)
  {
    function Intake(): Nutrients {
      Nutrients(calories, protein)
    }
  }

  /** One logged movement of a session. */
  datatype Exercise = Exercise(id: Id, name: string, sets: Option<int>, reps: int, weight: real)

  /** One workout occasion with its exercises, in the order they were logged. */
  datatype Session = Session(id: Id, name: string, date: Day, created: Stamp, exercises: seq<Exercise>)

  function SessionId(s: Session): Id { s.id }
  function ExerciseId(e: Exercise): Id { e.id }
  function MealId(m: Meal): Id { m.id }

  /** Keeps the meals that do not use the named food. */
  function NotFood(name: string): Meal -> bool {
    (m: Meal) => m.food != name
  }

  /** Every meal names a food of the registry. */
  predicate MealsResolve(meals: seq<Meal>, foods: map<string, Food>) {
    forall m :: m in meals ==> m.food in foods
  }

  /** How an operation ended: done, or the reason it was refused. */
  datatype Status =
    | Done
    | NoSelection       // nothing was selected in the list the operation acts on
    | EmptyName         // a name field was left empty
    | InvalidDate       // a date field was not a calendar date
    | InvalidNumber     // a number field did not read as a number
    | InvalidReference  // the food named is not in the registry
    | NotFound          // no record has the selected id
    | DuplicateKey      // a food of that name already exists
    | NoFoods           // the foods registry is empty

  /** 150 g of a food with 165 kcal and 31 g protein per 100 g is logged
      with 247.5 kcal and 46.5 g protein. */
  lemma DerivedExample()
    ensures MealNutrients(Food(165.0, 31.0), 150.0) == Nutrients(247.5, 46.5)
  {
    assert (165.0 * 1.5 * 100.0 + 0.5).Floor == 24750;
    assert (31.0 * 1.5 * 100.0 + 0.5).Floor == 4650;
  }
}
