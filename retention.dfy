/** Retention in the simple tracker: workouts are kept for 14 days and meals
    for 7, counted back from today; foods are kept forever. A record survives
    when its date is on or after the cutoff day. */
module Retention {
  import opened Lists
  import opened Records

  const SessionDays: int := 14
  const MealDays: int := 7

  /** Keeps the sessions dated on or after `cutoff`. */
  function SessionSince(cutoff: Day): Session -> bool {
    (s: Session) => s.date >= cutoff
  }

  /** Keeps the meals dated on or after `cutoff`. */
  function MealSince(cutoff: Day): Meal -> bool {
    (m: Meal) => m.date >= cutoff
  }

  /** The sessions that survive pruning on day `today`. */
  function PruneSessions(sessions: seq<Session>, today: Day): (kept: seq<Session>)
    ensures forall s :: s in kept ==> s.date >= today - SessionDays
    ensures forall s :: s in sessions && s.date >= today - SessionDays ==> s in kept
    ensures forall s :: s in kept ==> s in sessions
  {
    Filter(sessions, SessionSince(today - SessionDays))
  }

  /** The meals that survive pruning on day `today`. */
  function PruneMeals(meals: seq<Meal>, today: Day): (kept: seq<Meal>)
    ensures forall m :: m in kept ==> m.date >= today - MealDays
    ensures forall m :: m in meals && m.date >= today - MealDays ==> m in kept
    ensures forall m :: m in kept ==> m in meals
  {
    Filter(meals, MealSince(today - MealDays))
  }

  /** The cutoff is inclusive: a session of exactly 14 days ago survives and
      one of 15 days ago does not. */
  lemma SessionCutoffBoundary(sessions: seq<Session>, today: Day)
    ensures forall s :: s in sessions && s.date == today - 14 ==> s in PruneSessions(sessions, today)
    ensures forall s :: s in sessions && s.date == today - 15 ==> s !in PruneSessions(sessions, today)
  {
  }

  /** The cutoff is inclusive: a meal of exactly 7 days ago survives and one
      of 8 days ago does not. */
  lemma MealCutoffBoundary(meals: seq<Meal>, today: Day)
    ensures forall m :: m in meals && m.date == today - 7 ==> m in PruneMeals(meals, today)
    ensures forall m :: m in meals && m.date == today - 8 ==> m !in PruneMeals(meals, today)
  {
  }

  /** Pruning on a later day after pruning on an earlier one is the same as
      pruning on the later day alone; with equal days, pruning is idempotent. */
  lemma PruneSessionsLater(sessions: seq<Session>, earlier: Day, later: Day)
    requires earlier <= later
    ensures PruneSessions(PruneSessions(sessions, earlier), later) == PruneSessions(sessions, later)
  {
    FilterTwice(sessions, SessionSince(earlier - SessionDays), SessionSince(later - SessionDays));
  }

  lemma PruneMealsLater(meals: seq<Meal>, earlier: Day, later: Day)
    requires earlier <= later
    ensures PruneMeals(PruneMeals(meals, earlier), later) == PruneMeals(meals, later)
  {
    FilterTwice(meals, MealSince(earlier - MealDays), MealSince(later - MealDays));
  }

  lemma PruneIdempotent(sessions: seq<Session>, meals: seq<Meal>, today: Day)
    ensures PruneSessions(PruneSessions(sessions, today), today) == PruneSessions(sessions, today)
    ensures PruneMeals(PruneMeals(meals, today), today) == PruneMeals(meals, today)
  {
    PruneSessionsLater(sessions, today, today);
    PruneMealsLater(meals, today, today);
  }

  /** The survivors are the stored sessions at strictly increasing positions:
      their relative order is the stored order. */
  lemma PruneSessionsKeepsOrder(sessions: seq<Session>, today: Day)
    ensures |PruneSessions(sessions, today)| == |KeptPositions(sessions, SessionSince(today - SessionDays))|
    ensures forall k :: 0 <= k < |PruneSessions(sessions, today)| ==>
              PruneSessions(sessions, today)[k] == sessions[KeptPositions(sessions, SessionSince(today - SessionDays))[k]]
  {
    FilterPositions(sessions, SessionSince(today - SessionDays));
  }

  lemma PruneMealsKeepsOrder(meals: seq<Meal>, today: Day)
    ensures |PruneMeals(meals, today)| == |KeptPositions(meals, MealSince(today - MealDays))|
    ensures forall k :: 0 <= k < |PruneMeals(meals, today)| ==>
              PruneMeals(meals, today)[k] == meals[KeptPositions(meals, MealSince(today - MealDays))[k]]
  {
    FilterPositions(meals, MealSince(today - MealDays));
  }

  /** A session appended and then pruned is present exactly when its date is
      on or after the cutoff; the earlier sessions are pruned as before. */
  lemma AppendThenPruneSession(sessions: seq<Session>, s: Session, today: Day)
    ensures PruneSessions(sessions + [s], today)
         == if s.date >= today - SessionDays then PruneSessions(sessions, today) + [s]
            else PruneSessions(sessions, today)
  {
    FilterSnoc(sessions, s, SessionSince(today - SessionDays));
  }

  lemma AppendThenPruneMeal(meals: seq<Meal>, m: Meal, today: Day)
    ensures PruneMeals(meals + [m], today)
         == if m.date >= today - MealDays then PruneMeals(meals, today) + [m]
            else PruneMeals(meals, today)
  {
    FilterSnoc(meals, m, MealSince(today - MealDays));
  }
}
