# Fitness tracker store, modelled in Dafny

Two sibling desktop programs keep the same in-memory record store behind a Tk
GUI: `fittracker_modern.py` (class `FitTrackerModern`) and `fitness_tracker.py`
(class `FitSimple` and the module-level `prune_data`). The store holds

- the workout sessions, each with an id, name, date, creation stamp and its
  own ordered list of exercises;
- the foods registry, a map from an exact food name to its calories and
  protein per 100 g;
- the meals, each naming a food and carrying the calories and protein derived
  when it was written.

This project models that store and the operations the GUI callbacks run on
it, and proves what they do. The modules are:

- `Lists` (`lists.dfy`): list comprehensions with a condition (`Filter`),
  the first-match lookup `next(...)` (`IndexOfKey`) and uniqueness of keys,
  with their lemmas.
- `Records` (`records.dfy`): the record types, shared by both programs.
  Dates are day ordinals (`date.toordinal()`), and `ValidDate` is the
  ordinal range of `datetime.date`. `Entry` is a form text field: blank,
  readable, or not readable. Also two-decimal rounding, derived meal
  nutrients and the outcome codes.
- `DateText` (`datetext.dfy`): dates as the programs store them, as text.
  It models `strptime(_, "%Y-%m-%d")`, `strftime("%Y-%m-%d")`, Python's
  string order and `toordinal`. It proves that on zero-padded text the
  string comparisons the programs make are the ordinal comparisons the rest
  of the model makes, and it shows where unpadded text breaks that (see
  "## Findings").
- `Queries` (`queries.dfy`): the meals of a day with their totals, the
  zero-filled N-day trend, and the newest-first session list with the
  mapping from a selected row back to the stored list.
- `Retention` (`retention.dfy`): the 14-day and 7-day pruning of the simple
  tracker.
- `Store` (`store.dfy`): the id-uniqueness invariant, referential integrity
  of meals, and the records that the operations write.
- `Modern` (`modern.dfy`): class `ModernTracker`, one method per
  `FitTrackerModern` store operation.
- `Simple` (`simple.dfy`): class `SimpleTracker`, one method per `FitSimple`
  store operation, plus `PruneData`.

Each class keeps three fields, `sessions`, `foods` and `meals`. Each method
states its new state in terms of the old one and returns a `Status`: `Done`,
or the reason it refused. Each method keeps `Valid()`, which says ids are
unique. Each method that touches foods or meals keeps `MealsResolve`: when
every meal named a registered food before the call, it still does after.

What a user types or picks in a dialog, and the row selected in a list or
table, are method parameters. So are today's date, the clock readings and the
fresh ids. A fresh id is required not to be in use already, which is what
`uuid4` provides.

Behaviour of the code that one might not expect, and that the model keeps:

- **Trend length.** The modern tracker computes `max(1, int(N or 14))`
  with `N` read from an integer field, so N = 0 gives 14 days, not 1, and
  N < 0 gives 1 (`Queries.ReportDays`, `Modern.ModernTracker.RefreshReports`).
- **Partial edits.** `edit_session` and `edit_exercise` keep the fields
  that did read when another one is rejected: a new session name stays when
  the new date is refused, and a new exercise name or weight stays when the
  reps do not read as a number
  (`Modern.ModernTracker.EditSession`, `Modern.ModernTracker.EditExercise`).
- **Empty session name.** The modern `add_session` accepts an empty name,
  because only a cancelled dialog stops it. The simple tracker refuses an
  empty name.

## Model

| member | source | states |
|---|---|---|
| `Lists.Filter` | fittracker_modern.py:261 | a comprehension with a condition keeps exactly the elements of the list that satisfy it, and never more elements than the list has |
| `Lists.FilterPositions` | fittracker_modern.py:444 | the survivors of a comprehension are the input's elements at strictly increasing positions, unchanged, so their relative order is the stored order |
| `Lists.FilterTwice` | fitness_tracker.py:50 | filtering by a condition that implies an earlier one makes the earlier filter redundant |
| `Lists.IndexOfKey` | fittracker_modern.py:422 | the `next(...)` lookup: no result exactly when no element has the key; otherwise a position whose element has the key and before which none has it |
| `Lists.IndexOfDistinctKey` | fittracker_modern.py:136-138 | with unique keys, the lookup of an element's own key finds that element's position |
| `Records.Round2` | fittracker_modern.py:217 | `round(x, 2)` is within half a hundredth of `x`, ties either way, and is a whole number of hundredths |
| `Records.MealNutrients` | fittracker_modern.py:398-401 | each derived value is within 0.005 of per-100g value × grams / 100 and is a whole number of hundredths |
| `Records.DerivedExample` | fitness_tracker.py:286-289 | 150 g of a food with 165 kcal and 31 g protein per 100 g gives 247.5 kcal and 46.5 g protein |
| `DateText.Parse` | fittracker_modern.py:165 | `strptime(t, "%Y-%m-%d")` succeeds only on a date the calendar has, and reads `2024-1-5` as 5 January 2024 (`DateText.ParseUnpadded`) |
| `DateText.ParseFormat` | fitness_tracker.py:40 | what `strftime("%Y-%m-%d")` writes, `strptime` reads back as the same date |
| `DateText.OrdinalOrder` | fitness_tracker.py:49-50 | day ordinals follow calendar order, so comparing day numbers is comparing dates |
| `DateText.OrdinalInjective` | fitness_tracker.py:344 | two calendar dates have the same ordinal exactly when they are the same date |
| `DateText.OrdinalIsValidDate` | fitness_tracker.py:49 | every date `datetime.date` can hold has an ordinal within `ValidDate` |
| `DateText.DaysBeforeYearClosed` | fitness_tracker.py:49 | counting the days before a year year by year gives the closed form `365(y−1) + ⌊(y−1)/4⌋ − ⌊(y−1)/100⌋ + ⌊(y−1)/400⌋` |
| `DateText.DigitsLess` | fitness_tracker.py:50 | digit runs of equal length compare as text exactly as their values compare, and equal values mean equal text |
| `DateText.LessConcat` | fitness_tracker.py:50 | comparing two texts whose first parts have equal length compares the first parts, then the rest when those are equal |
| `DateText.PaddedOrderAgrees` | fitness_tracker.py:50 | on `strftime` text, Python's string `<` is calendar order, and it is day-ordinal order |
| `DateText.PaddedTextIsOrdinal` | fitness_tracker.py:53 | on `strftime` text, the prune's text `>=` is ordinal `>=` and the filters' text `==` is ordinal `==`, which is what the rest of the model compares |
| `DateText.UnpaddedSurvivesPrune` | fitness_tracker.py:53 | `2024-1-5` passes the format check, is 46 days before 2024-02-20 yet not below the cutoff text `2024-02-13`, so pruning on that day keeps it |
| `DateText.UnpaddedMissesDay` | fitness_tracker.py:344 | a meal stored as `2024-1-5` is a meal of 5 January 2024 that no filter for that day's `strftime` text matches |
| `Queries.MealsOn` | fittracker_modern.py:374 | a meal is in a day's rows exactly when it is stored and has that date |
| `Queries.MealsOnKeepsOrder` | fittracker_modern.py:374 | the rows of a day are the stored meals at strictly increasing positions: stored order, each meal as often as it is stored |
| `Queries.TotalConcat` | fittracker_modern.py:377-378 | the sums over two lists one after the other are the sums of their sums |
| `Queries.EmptyDayIsZero` | fittracker_modern.py:377-378 | a day with no meals totals zero calories and zero protein |
| `Queries.MealsForDate` | fittracker_modern.py:365-378 | no view exactly when the date field is rejected; otherwise the view's date is the entered date (today when blank), its rows are that day's stored meals in stored order (`MealsOn`, ordered by `MealsOnKeepsOrder`), and its totals are the sums over those rows, which are the day's totals |
| `Queries.Trend` | fittracker_modern.py:486-491 | the report for N days has exactly N buckets |
| `Queries.TrendBucket` | fittracker_modern.py:486-491 | bucket k of an N-day report ending today is the day today − N + 1 + k with that day's calorie and protein sums: consecutive days, oldest first, ending today |
| `Queries.TrendZeroFill` | fittracker_modern.py:489-491 | a day without meals has a bucket with zero totals; it is not left out |
| `Queries.WindowSplit` | fittracker_modern.py:489-491 | the totals of a window of days are the totals without its last day plus that day's totals |
| `Queries.TrendCoversWindow` | fittracker_modern.py:486-491 | the buckets add up to the totals of all meals dated in the window, so every meal of the window is counted once |
| `Queries.DailyBuckets` | fittracker_modern.py:486-491 | the loop yields `days` dates, consecutive and ending today, and for each the day's calorie and protein sums, and nothing else than the trend's buckets |
| `Queries.SessionView` | fittracker_modern.py:121 | the session list is a permutation of the stored sessions, ordered by (date, creation stamp) descending |
| `Queries.SameDayLaterCreatedFirst` | fitness_tracker.py:109 | of two listed sessions of the same day, the one created later is listed first |
| `Queries.ListedIsStored` | fittracker_modern.py:133-134 | the session at any row of the list is a stored session |
| `Queries.SelectedIndex` | fittracker_modern.py:127-138 | no index exactly when nothing is selected; otherwise a stored position whose session has the selected row's id, with no earlier session having it |
| `Queries.SelectedIndexIsListed` | fittracker_modern.py:133-138 | with unique ids, the stored session found is the listed session itself |
| `Queries.FindSelectedSession` | fittracker_modern.py:136-138 | the search loop returns the stored position of the first session with the selected row's id |
| `Queries.SelectedSession` | fitness_tracker.py:114-119 | no session exactly when nothing is selected; otherwise the listed session at the selected row, which is a stored session |
| `Retention.PruneSessions` | fitness_tracker.py:49-50 | after pruning, every session is dated on or after today − 14, every stored session dated so is kept, and nothing else is added |
| `Retention.PruneMeals` | fitness_tracker.py:52-53 | after pruning, every meal is dated on or after today − 7, every stored meal dated so is kept, and nothing else is added |
| `Retention.SessionCutoffBoundary` | fitness_tracker.py:50 | a session dated exactly today − 14 is kept and one dated today − 15 is removed |
| `Retention.MealCutoffBoundary` | fitness_tracker.py:53 | a meal dated exactly today − 7 is kept and one dated today − 8 is removed |
| `Retention.PruneSessionsLater` | fitness_tracker.py:49-50 | pruning sessions on a later day after an earlier one equals pruning on the later day |
| `Retention.PruneMealsLater` | fitness_tracker.py:52-53 | pruning meals on a later day after an earlier one equals pruning on the later day |
| `Retention.PruneIdempotent` | fitness_tracker.py:47-53 | pruning twice on the same day equals pruning once |
| `Retention.PruneSessionsKeepsOrder` | fitness_tracker.py:50 | surviving sessions are the stored ones at strictly increasing positions, so they keep their order |
| `Retention.PruneMealsKeepsOrder` | fitness_tracker.py:53 | surviving meals are the stored ones at strictly increasing positions, so they keep their order |
| `Retention.AppendThenPruneSession` | fitness_tracker.py:136-138 | appending a session and pruning keeps it, at the end, exactly when it is dated on or after the cutoff; a session dated earlier is gone again |
| `Retention.AppendThenPruneMeal` | fitness_tracker.py:299-301 | appending a meal and pruning keeps it, at the end, exactly when it is dated on or after the cutoff; a meal dated earlier is gone again |
| `Store.CascadeResolves` | fittracker_modern.py:359-360 | after a food and its meals are removed, every remaining meal still names a registered food |
| `Store.RemovedIsGone` | fittracker_modern.py:201 | with unique ids, the session popped from a position is not among the remaining sessions |
| `Store.KeyedReplaceSession` | fittracker_modern.py:182-187 | editing a session in place, keeping its id, keeps session ids unique |
| `Store.EnteredFood` | fittracker_modern.py:332 | a registered food's values are the entered ones rounded to within half a hundredth |
| `Store.LoggedMeal` | fittracker_modern.py:398-412 | a written meal carries the given id, stamp, date, time and food name; its grams are within half a hundredth of those entered; its calories and protein are within half a hundredth of the food's per-100 g values × the unrounded grams / 100, each a whole number of hundredths |
| `Store.Regrammed` | fittracker_modern.py:431-433 | an edited meal keeps its id, stamp, date, time and food; its grams are within half a hundredth of the new grams; its calories and protein are within half a hundredth of the food's current per-100 g values × the new grams / 100, whatever it was logged with |
| `Modern.ModernTracker.constructor` | fittracker_modern.py:39-40 | the default store has no sessions, no foods and no meals |
| `Modern.ModernTracker.AddSession` | fittracker_modern.py:159-172 | a rejected date refuses with no change; otherwise exactly one session with no exercises, the entered date (today when blank), the given id and stamp is appended |
| `Modern.ModernTracker.EditSession` | fittracker_modern.py:174-192 | only the selected session changes: a non-empty name replaces its name, a calendar date replaces its date, a blank date keeps it, other date text is reported and the name change stays |
| `Modern.ModernTracker.DeleteSession` | fittracker_modern.py:194-204 | the session at the selected row's stored position is popped and the rest keep their order; it is the listed session, which is no longer stored |
| `Modern.ModernTracker.AddExercise` | fittracker_modern.py:206-220 | an empty name refuses with no change; otherwise one exercise with the rounded weight is appended to the selected session only |
| `Modern.ModernTracker.EditExercise` | fittracker_modern.py:222-247 | no exercise with the selected id means no change; otherwise only that exercise of that session changes, field by field as typed, and an unreadable number is reported and keeps its value |
| `Modern.ModernTracker.DeleteExercise` | fittracker_modern.py:249-263 | exactly the selected session's exercises with the selected id are removed, the others keep their order, and the other sessions are untouched |
| `Modern.ModernTracker.AddFood` | fittracker_modern.py:322-334 | an empty name or an existing one refuses with the foods unchanged; otherwise one entry is added; meals are never touched |
| `Modern.ModernTracker.EditFood` | fittracker_modern.py:336-350 | only the selected food's entry is replaced; the meals keep their stored calories and protein |
| `Modern.ModernTracker.DeleteFood` | fittracker_modern.py:352-363 | the key is gone, no meal names the food, and every other meal survives unchanged and in order |
| `Modern.ModernTracker.AddMeal` | fittracker_modern.py:383-414 | refuses with no change when no food is registered, then when the date is rejected, then when the name is empty or not registered; otherwise exactly one meal is appended with the derived nutrients |
| `Modern.ModernTracker.EditMeal` | fittracker_modern.py:416-435 | no change when no meal has the id or its food is unregistered; otherwise only the first meal with the id changes: new grams, nutrients from the food's current values |
| `Modern.ModernTracker.DeleteMeal` | fittracker_modern.py:437-446 | exactly the meals with the id are removed; the others survive unchanged and in order |
| `Modern.ModernTracker.RefreshReports` | fittracker_modern.py:481-491 | `max(1, N or 14)` consecutive days ending today, each with that day's sums |
| `Simple.SimpleTracker.constructor` | fitness_tracker.py:43-45 | the default store has no sessions, no foods and no meals |
| `Simple.SimpleTracker.PruneData` | fitness_tracker.py:47-56 | sessions and meals become their pruned lists; foods are untouched |
| `Simple.SimpleTracker.AddSession` | fitness_tracker.py:128-139 | an empty name or a rejected date refuses with no change; otherwise the session is appended and both lists pruned, so a session dated before today − 14 is gone at once |
| `Simple.SimpleTracker.DeleteSession` | fitness_tracker.py:141-149 | every session with the selected one's id is removed with its exercises; every other session survives, in order |
| `Simple.SimpleTracker.AddEx` | fitness_tracker.py:151-170 | one exercise with the rounded weight is appended to the first stored session with the selected id, and the other sessions are untouched |
| `Simple.SimpleTracker.DelEx` | fitness_tracker.py:172-186 | in the first stored session with the selected id, every exercise matching the selected row's name, sets and reps is removed, duplicates included; the other sessions are untouched |
| `Simple.SimpleTracker.AddFood` | fitness_tracker.py:231-242 | an empty or existing name refuses with the foods unchanged; otherwise one rounded entry is added |
| `Simple.SimpleTracker.DelFood` | fitness_tracker.py:244-257 | the key is gone, no meal names the food, and every other meal survives unchanged and in order |
| `Simple.SimpleTracker.LoadMeals` | fitness_tracker.py:259-271 | the totals accumulated by the loop are the sums over the day's filtered meals, the same view as the pure query |
| `Simple.SimpleTracker.LogMeal` | fitness_tracker.py:273-302 | refuses with no change for no foods, a rejected date or an unknown name; otherwise the meal is appended and both lists pruned, so a meal dated before today − 7 is gone at once |
| `Simple.SimpleTracker.DelMeal` | fitness_tracker.py:304-312 | exactly the meals with the id are removed; the others survive unchanged and in order |
| `Simple.SimpleTracker.RefreshReports` | fitness_tracker.py:336-346 | exactly 7 consecutive days ending today, each with that day's sums |

## Left out

- Widgets, plotting and display strings are not modelled: list and table refreshes, headers, total labels, `round(total, 2)` in labels, and the plots.
- Dialog cancellation is not modelled: every dialog is taken as answered. Yes/no confirmations are taken as yes.
- JSON loading and saving is not modelled. Records are assumed well-formed, so the defaulted `get` lookups always find their field.
- `uuid4` and `datetime.now` are parameters: fresh ids, today's day and the clock readings.
- `Records.ValidDate`, `Retention.PruneSessions`, `Retention.PruneMeals`, `Queries.MealsOn`, `Queries.MealsForDate`, `Queries.Trend`, `Queries.SessionView`: these take each accepted date as its day ordinal. That is the program's behaviour only for zero-padded date text (`DateText.PaddedTextIsOrdinal`). The program stores an accepted date as typed and compares the text, and `strptime` also accepts a one-digit month or day. For such dates the prune, the per-date filters, the trend and the session order differ from the model (see "## Findings").
- `DateText.Parse` does not model the digits of other scripts that `\d` and `int` accept, the whitespace `strptime` tolerates, or the `strip()` of the date field.
- `Records.Round2` stands for `round(x, 2)` on real numbers. Binary floating point is not modelled. The body rounds halves up, but every contract about a rounded value states only the bound `-0.005 <= r - x <= 0.005` and the hundredths grid, which hold under round-half-to-even too.
- `del_food` reads the food name back from its display line with `split(" — ")`. The model takes the selected name directly.
- In `Simple.SimpleTracker.DelEx`, the row's values come from the selected exercise as stored. Tk's conversion of table values to strings or numbers is not modelled.
- The fallback of `get_selected_session_index` matches on creation stamp and name (fittracker_modern.py:139-143). It cannot be reached here: every session has an id, and the listed sessions are a permutation of the stored ones, so the id search always succeeds.
- Reading the trend field can raise a Tk error on non-numeric text. That is not modelled: N is an integer parameter.
- `Queries.SessionView`: its contract states the descending order and the permutation. It does not state that sessions with equal keys keep their stored order, though Python's `sorted` is stable and the insertion sort modelled here is stable too.
- `Queries.ReportDays` and `Records.DateOrToday` carry contracts that spell out their cases; their meaning is stated where they are used (`Modern.ModernTracker.RefreshReports`, the `AddSession` and `AddMeal` methods, `Queries.MealsForDate`).
- Python's aliasing of session dictionaries between the sorted view and the stored list is not modelled: updates go through the stored position. With unique ids the effect is the same.

## Findings

| source | as written | input that shows it | evidently intended | confidence | as-written member | corrected member |
|---|---|---|---|---|---|---|
| fitness_tracker.py:52-53 | a meal survives the prune when its stored date text is not below the cutoff's text | a meal dated `2024-1-5`, which `strptime` accepts, pruned on 2024-02-20 (cutoff `2024-02-13`): kept though 46 days old | keep a record only when its calendar date is on or after the cutoff | high; not executed | `DateText.UnpaddedSurvivesPrune` | `DateText.PaddedTextIsOrdinal`, `Retention.PruneMeals` |
| fittracker_modern.py:489 | a meal counts for a trend day when its stored date text equals the day's `strftime` text | a meal dated `2024-1-5`: it is in no bucket of a report covering 2024-01-05 | count a meal on the calendar day it names | high; not executed | `DateText.UnpaddedMissesDay` | `DateText.PaddedTextIsOrdinal`, `Queries.TrendCoversWindow` |
