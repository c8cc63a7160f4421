/** The read-only side of both trackers: the meals of one day and their
    totals, the daily trend report, and the newest-first session list with
    the mapping from a row of that list back to the stored sessions. */
module Queries {
  import opened Lists
  import opened Records

  // ---------------------------------------------------------------------
  // Meals of a day and their totals

  /** Keeps the meals logged on day `d`. */
  function OnDay(d: Day): Meal -> bool {
    (m: Meal) => m.date == d
  }

  /** `[m for m in meals if m["date"] == d]`. */
  function MealsOn(meals: seq<Meal>, d: Day): (rows: seq<Meal>)
    ensures forall m :: m in rows <==> m in meals && m.date == d
  {
    Filter(meals, OnDay(d))
  }

  /** The rows of a day are the stored meals at strictly increasing
      positions: they are shown in the order they were logged, each as often
      as it is stored. */
  lemma MealsOnKeepsOrder(meals: seq<Meal>, d: Day)
    ensures |MealsOn(meals, d)| == |KeptPositions(meals, OnDay(d))|
    ensures forall k :: 0 <= k < |MealsOn(meals, d)| ==>
              MealsOn(meals, d)[k] == meals[KeptPositions(meals, OnDay(d))[k]]
  {
    FilterPositions(meals, OnDay(d));
  }

  /** The sums of the stored calories and protein, added in list order. */
  function Total(meals: seq<Meal>): Nutrients {
    if |meals| == 0 then NoNutrients
    else Total(meals[..|meals| - 1]).Plus(meals[|meals| - 1].Intake())
  }

  lemma TotalSnoc(meals: seq<Meal>, m: Meal)
    ensures Total(meals + [m]) == Total(meals).Plus(m.Intake())
  {
    assert (meals + [m])[..|meals|] == meals;
  }

  /** The total of two lists one after the other is the sum of their totals. */
  lemma {:induction false} TotalConcat(a: seq<Meal>, b: seq<Meal>)
    ensures Total(a + b) == Total(a).Plus(Total(b))
  {
    if |b| == 0 {
      assert a + b == a;
    } else {
      var init, last := b[..|b| - 1], b[|b| - 1];
      assert a + b == (a + init) + [last];
      TotalConcat(a, init);
      TotalSnoc(a + init, last);
    }
  }

  /** One day's totals. */
  function DayTotals(meals: seq<Meal>, d: Day): Nutrients {
    Total(MealsOn(meals, d))
  }

  /** A day without meals totals zero. */
  lemma EmptyDayIsZero(meals: seq<Meal>, d: Day)
    requires forall m :: m in meals ==> m.date != d
    ensures DayTotals(meals, d) == NoNutrients
  {
  }

  /** What the meals panel shows for a date: the rows and their totals. */
  datatype DayView = DayView(date: Day, rows: seq<Meal>, totals: Nutrients)

  /** load_meals_for_date: a blank date field means today; a date the format
      check rejects shows nothing; otherwise the meals of that day in stored
      order and their totals. */
  function MealsForDate(meals: seq<Meal>, entry: Entry<Day>, today: Day): (view: Option<DayView>)
    ensures view.None? <==> DateOrToday(entry, today).None?
    ensures view.Some? ==> view.value.date == DateOrToday(entry, today).value
    ensures view.Some? ==> forall m :: m in view.value.rows <==> m in meals && m.date == view.value.date
    ensures view.Some? ==> view.value.rows == MealsOn(meals, view.value.date)
    ensures view.Some? ==> view.value.totals == Total(view.value.rows)
    ensures view.Some? ==> view.value.totals == DayTotals(meals, view.value.date)
  {
    match DateOrToday(entry, today)
    case None => None
    case Some(d) => Some(DayView(d, MealsOn(meals, d), DayTotals(meals, d)))
  }

  // ---------------------------------------------------------------------
  // Trend report

  /** One day of the trend report. */
  datatype Bucket = Bucket(date: Day, totals: Nutrients)

  /** The `n` days ending with `today`, oldest first, each with that day's
      totals; days without meals are present with zero totals. */
  function Trend(meals: seq<Meal>, today: Day, n: nat): (r: seq<Bucket>)
    ensures |r| == n
    decreases n
  {
    if n == 0 then []
    else Trend(meals, today - 1, n - 1) + [Bucket(today, DayTotals(meals, today))]
  }

  /** Bucket `k` of the report is day `k` of the window, with that day's
      totals. */
  lemma {:induction false} TrendBucket(meals: seq<Meal>, today: Day, n: nat, k: nat)
    requires k < n
    ensures Trend(meals, today, n)[k] == Bucket(today - n + 1 + k, DayTotals(meals, today - n + 1 + k))
    decreases n
  {
    if k < n - 1 {
      TrendBucket(meals, today - 1, n - 1, k);
    }
  }

  /** Keeps the meals dated `first` to `last`, both included. */
  function InWindow(first: Day, last: Day): Meal -> bool {
    (m: Meal) => first <= m.date <= last
  }

  /** The meals dated `first` to `last`, in stored order. */
  function MealsBetween(meals: seq<Meal>, first: Day, last: Day): seq<Meal> {
    Filter(meals, InWindow(first, last))
  }

  /** The buckets' totals added up in order. */
  function BucketSum(buckets: seq<Bucket>): Nutrients {
    if |buckets| == 0 then NoNutrients
    else BucketSum(buckets[..|buckets| - 1]).Plus(buckets[|buckets| - 1].totals)
  }

  // Two rearrangements of sums, kept apart so that the solver meets them
  // without the surrounding list facts.
  lemma PlusSwap(x: Nutrients, y: Nutrients, z: Nutrients, w: Nutrients)
    requires x == y.Plus(z)
    ensures x.Plus(w) == y.Plus(w).Plus(z)
  {
  }

  lemma PlusAssoc(x: Nutrients, y: Nutrients, z: Nutrients, w: Nutrients)
    requires x == y.Plus(z)
    ensures x.Plus(w) == y.Plus(z.Plus(w))
  {
  }

  /** A window's totals are those of the window without its last day plus
      that day's. */
  lemma {:induction false} WindowSplit(meals: seq<Meal>, first: Day, last: Day)
    requires first <= last
    ensures Total(MealsBetween(meals, first, last))
         == Total(MealsBetween(meals, first, last - 1)).Plus(DayTotals(meals, last))
  {
    if |meals| > 0 {
      var init, m := meals[..|meals| - 1], meals[|meals| - 1];
      assert meals == init + [m];
      WindowSplit(init, first, last);
      WindowSplitStep(init, m, first, last);
    }
  }

  /** The step of WindowSplit: one more meal at the end of the list. */
  lemma WindowSplitStep(init: seq<Meal>, m: Meal, first: Day, last: Day)
    requires first <= last
    requires Total(MealsBetween(init, first, last))
          == Total(MealsBetween(init, first, last - 1)).Plus(DayTotals(init, last))
    ensures Total(MealsBetween(init + [m], first, last))
         == Total(MealsBetween(init + [m], first, last - 1)).Plus(DayTotals(init + [m], last))
  {
    var a, b, c := MealsBetween(init, first, last), MealsBetween(init, first, last - 1), MealsOn(init, last);
    var ta, tb, tc := Total(a), Total(b), Total(c);
    FilterSnoc(init, m, InWindow(first, last));
    FilterSnoc(init, m, InWindow(first, last - 1));
    FilterSnoc(init, m, OnDay(last));
    if first <= m.date <= last - 1 {
      TotalSnoc(a, m);
      TotalSnoc(b, m);
      PlusSwap(ta, tb, tc, m.Intake());
    } else if m.date == last {
      TotalSnoc(a, m);
      TotalSnoc(c, m);
      PlusAssoc(ta, tb, tc, m.Intake());
    }
  }

  lemma BucketSumSnoc(buckets: seq<Bucket>, b: Bucket)
    ensures BucketSum(buckets + [b]) == BucketSum(buckets).Plus(b.totals)
  {
    assert (buckets + [b])[..|buckets|] == buckets;
  }

  lemma TrendSnoc(meals: seq<Meal>, today: Day, n: nat)
    requires n > 0
    ensures Trend(meals, today, n) == Trend(meals, today - 1, n - 1) + [Bucket(today, DayTotals(meals, today))]
  {
  }

  /** Adding the last day to a window adds its bucket to the buckets' sum. */
  lemma TrendStep(meals: seq<Meal>, first: Day, today: Day, n: nat)
    requires n > 0 && first + n == today + 1
    requires BucketSum(Trend(meals, today - 1, n - 1)) == Total(MealsBetween(meals, first, today - 1))
    ensures BucketSum(Trend(meals, today, n)) == Total(MealsBetween(meals, first, today))
  {
    TrendSnoc(meals, today, n);
    BucketSumSnoc(Trend(meals, today - 1, n - 1), Bucket(today, DayTotals(meals, today)));
    WindowSplit(meals, first, today);
  }

  /** Every meal of the report's window, the days `first` to `today`, is
      counted in exactly one bucket: the buckets add up to the totals of all
      meals of the window. */
  lemma {:induction false} TrendCoversWindow(meals: seq<Meal>, first: Day, today: Day, n: nat)
    requires first + n == today + 1
    ensures BucketSum(Trend(meals, today, n)) == Total(MealsBetween(meals, first, today))
    decreases n
  {
    if n == 0 {
      FilterKeepsNone(meals, InWindow(first, today));
    } else {
      TrendCoversWindow(meals, first, today - 1, n - 1);
      TrendStep(meals, first, today, n);
    }
  }

  /** A bucket of a day without meals is zero (zero-filled, not omitted). */
  lemma TrendZeroFill(meals: seq<Meal>, today: Day, n: nat, k: nat)
    requires k < n
    requires forall m :: m in meals ==> m.date != today - n + 1 + k
    ensures Trend(meals, today, n)[k] == Bucket(today - n + 1 + k, NoNutrients)
  {
    TrendBucket(meals, today, n, k);
    EmptyDayIsZero(meals, today - n + 1 + k);
  }

  /** refresh_reports' day count in the modern tracker:
      `max(1, int(trend_var.get() or 14))`, so 0 falls back to 14. */
  function ReportDays(n: int): (days: nat)
    ensures days >= 1
    ensures n >= 1 ==> days == n
    ensures n < 0 ==> days == 1
    ensures n == 0 ==> days == 14
  {
    if n == 0 then 14 else if n < 1 then 1 else n
  }

  /** The loop of refresh_reports: for each day from `days - 1` days ago up to
      today, append the day and its calorie and protein sums. */
  method DailyBuckets(meals: seq<Meal>, today: Day, days: nat)
    returns (dates: seq<Day>, calVals: seq<real>, proVals: seq<real>)
    ensures |dates| == days && |calVals| == days && |proVals| == days
    ensures forall k :: 0 <= k < days ==> dates[k] == today - days + 1 + k
    ensures forall k :: 0 <= k < days ==>
              calVals[k] == DayTotals(meals, dates[k]).calories &&
              proVals[k] == DayTotals(meals, dates[k]).protein
    ensures forall k :: 0 <= k < days ==>
              Trend(meals, today, days)[k] == Bucket(dates[k], Nutrients(calVals[k], proVals[k]))
  {
    dates, calVals, proVals := [], [], [];
    ghost var trend := Trend(meals, today, days);
    for back := days downto 0
      invariant |dates| == days - back && |calVals| == days - back && |proVals| == days - back
      invariant forall k :: 0 <= k < days - back ==> dates[k] == today - days + 1 + k
      invariant forall k :: 0 <= k < days - back ==>
                  calVals[k] == DayTotals(meals, dates[k]).calories &&
                  proVals[k] == DayTotals(meals, dates[k]).protein
      invariant forall k :: 0 <= k < days - back ==>
                  trend[k] == Bucket(dates[k], Nutrients(calVals[k], proVals[k]))
    {
      var d := today - back;
      TrendBucket(meals, today, days, days - 1 - back);
      dates := dates + [d];
      var daily := MealsOn(meals, d);
      calVals := calVals + [Total(daily).calories];
      proVals := proVals + [Total(daily).protein];
    }
  }

  // ---------------------------------------------------------------------
  // Newest-first session list

  /** `a` is listed before `b`: its (date, creation time) key is larger. */
  predicate Later(a: Session, b: Session) {
    a.date > b.date || (a.date == b.date && a.created > b.created)
  }

  /** No session is listed after one it is later than. */
  predicate NewestFirst(view: seq<Session>) {
    forall i, j :: 0 <= i < j < |view| ==> !Later(view[j], view[i])
  }

  /** Puts `x` into a newest-first list, before every session whose key is
      not larger than its own. */
  function Insert(x: Session, view: seq<Session>): seq<Session> {
    if |view| == 0 || !Later(view[0], x) then [x] + view
    else [view[0]] + Insert(x, view[1..])
  }

  lemma {:induction false} InsertPermutes(x: Session, view: seq<Session>)
    ensures multiset(Insert(x, view)) == multiset(view) + multiset{x}
  {
    if |view| > 0 && Later(view[0], x) {
      assert view == [view[0]] + view[1..];
      InsertPermutes(x, view[1..]);
    }
  }

  lemma {:induction false} InsertKeepsOrder(x: Session, view: seq<Session>)
    requires NewestFirst(view)
    ensures NewestFirst(Insert(x, view))
  {
    if |view| > 0 && Later(view[0], x) {
      InsertKeepsOrder(x, view[1..]);
      InsertBelowHead(x, view);
      ConsKeepsOrder(view[0], Insert(x, view[1..]));
    }
  }

  /** When `x` goes below the head, nothing in the rest is later than it. */
  lemma InsertBelowHead(x: Session, view: seq<Session>)
    requires NewestFirst(view) && |view| > 0 && Later(view[0], x)
    ensures forall e :: e in Insert(x, view[1..]) ==> !Later(e, view[0])
  {
    var head, tail := view[0], view[1..];
    var rest := Insert(x, tail);
    InsertPermutes(x, tail);
    forall e | e in rest ensures !Later(e, head) {
      assert e in multiset(rest);
      if e != x {
        var k :| 0 <= k < |tail| && tail[k] == e;
        assert view[k + 1] == e;
      }
    }
  }

  lemma ConsKeepsOrder(head: Session, rest: seq<Session>)
    requires NewestFirst(rest)
    requires forall e :: e in rest ==> !Later(e, head)
    ensures NewestFirst([head] + rest)
  {
    var r := [head] + rest;
    forall i, j | 0 <= i < j < |r| ensures !Later(r[j], r[i]) {
      if i == 0 {
        assert r[j] == rest[j - 1];
        assert rest[j - 1] in rest;
      } else {
        assert r[i] == rest[i - 1] && r[j] == rest[j - 1];
      }
    }
  }

  /** refresh_sessions' list: `sorted(sessions, key=(date, created),
      reverse=True)`, a permutation of the stored sessions, newest first;
      sessions with equal keys keep their stored order. */
  function SessionView(sessions: seq<Session>): (view: seq<Session>)
    ensures NewestFirst(view)
    ensures multiset(view) == multiset(sessions)
    ensures |view| == |sessions|
  {
    if |sessions| == 0 then []
    else
      var rest := SessionView(sessions[1..]);
      InsertPermutes(sessions[0], rest);
      InsertKeepsOrder(sessions[0], rest);
      assert sessions == [sessions[0]] + sessions[1..];
      var view := Insert(sessions[0], rest);
      assert |view| == |multiset(view)|;
      view
  }

  /** In a newest-first list, of two sessions of the same day the one
      created later is listed first. */
  lemma LaterCreatedListedFirst(view: seq<Session>, i: nat, j: nat)
    requires NewestFirst(view) && i < |view| && j < |view|
    requires view[i].date == view[j].date && view[i].created > view[j].created
    ensures i < j
  {
  }

  /** The session list orders two sessions of the same day later-created
      first. */
  lemma SameDayLaterCreatedFirst(sessions: seq<Session>, i: nat, j: nat)
    requires i < |sessions| && j < |sessions|
    requires SessionView(sessions)[i].date == SessionView(sessions)[j].date
    requires SessionView(sessions)[i].created > SessionView(sessions)[j].created
    ensures i < j
  {
    LaterCreatedListedFirst(SessionView(sessions), i, j);
  }

  /** The listed session at row `row` is one of the stored sessions. */
  lemma ListedIsStored(sessions: seq<Session>, row: nat)
    requires row < |sessions|
    ensures SessionView(sessions)[row] in sessions
  {
    var view := SessionView(sessions);
    assert view[row] in multiset(view);
  }

  /** get_selected_session_index: the stored position of the first session
      whose id is that of the session at row `sel` of the list. */
  function SelectedIndex(sessions: seq<Session>, sel: Option<nat>): (r: Option<nat>)
    requires sel.Some? ==> sel.value < |sessions|
    ensures r.Some? <==> sel.Some?
    ensures r.Some? ==> r.value < |sessions| && sessions[r.value].id == SessionView(sessions)[sel.value].id
    ensures r.Some? ==> forall j :: 0 <= j < r.value ==> sessions[j].id != SessionView(sessions)[sel.value].id
  {
    if sel.None? then None
    else
      var selected := SessionView(sessions)[sel.value];
      ListedIsStored(sessions, sel.value);
      IndexOfKey(sessions, SessionId, selected.id)
  }

  /** With distinct ids the stored session found is the listed one itself. */
  lemma SelectedIndexIsListed(sessions: seq<Session>, row: nat)
    requires Distinct(sessions, SessionId)
    requires row < |sessions|
    ensures sessions[SelectedIndex(sessions, Some(row)).value] == SessionView(sessions)[row]
  {
    ListedIsStored(sessions, row);
    var i :| 0 <= i < |sessions| && sessions[i] == SessionView(sessions)[row];
    IndexOfDistinctKey(sessions, SessionId, i);
  }

  /** The search loop of get_selected_session_index. The stored list always
      holds the listed session, so the loop always finds it. */
  method FindSelectedSession(sessions: seq<Session>, sel: Option<nat>) returns (r: Option<nat>)
    requires sel.Some? ==> sel.value < |sessions|
    ensures r == SelectedIndex(sessions, sel)
  {
    if sel.None? {
      return None;
    }
    var selected := SessionView(sessions)[sel.value];
    ghost var k := SelectedIndex(sessions, sel).value;
    var i := 0;
    while sessions[i].id != selected.id
      invariant 0 <= i <= k
      invariant forall j :: 0 <= j < i ==> sessions[j].id != selected.id
      decreases k - i
    {
      i := i + 1;
    }
    return Some(i);
  }

  /** get_selected_session in the simple tracker: the session at row `sel`
      of the list, which is one of the stored sessions. */
  function SelectedSession(sessions: seq<Session>, sel: Option<nat>): (r: Option<Session>)
    requires sel.Some? ==> sel.value < |sessions|
    ensures r.Some? <==> sel.Some?
    ensures r.Some? ==> r.value in sessions && r.value == SessionView(sessions)[sel.value]
  {
    if sel.None? then None
    else
      ListedIsStored(sessions, sel.value);
      Some(SessionView(sessions)[sel.value])
  }
}
