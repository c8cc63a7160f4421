/** Dates as both programs handle them: the text of a date field is checked
    with `strptime(_, "%Y-%m-%d")`, stored as typed, and later compared as
    text, with `>=` against a cutoff and with `==` against a day that
    `strftime("%Y-%m-%d")` wrote. The rest of the model compares day
    ordinals instead; this module shows when the two agree (zero-padded
    text) and where they part (a month or day typed with one digit, which
    `strptime` also accepts). */
module DateText {
  import opened Lists
  import opened Records

  /** A date of the proleptic Gregorian calendar. */
  datatype Civil = Civil(year: int, month: int, day: int)

  predicate IsLeap(y: int) {
    y % 4 == 0 && (y % 100 != 0 || y % 400 == 0)
  }

  function DaysInMonth(y: int, m: int): int {
    if m == 2 then (if IsLeap(y) then 29 else 28)
    else if m == 4 || m == 6 || m == 9 || m == 11 then 30
    else 31
  }

  function DaysInYear(y: int): int {
    if IsLeap(y) then 366 else 365
  }

  /** A date that `datetime.date` can hold. */
  predicate IsCalendarDate(c: Civil) {
    1 <= c.year <= 9999 && 1 <= c.month <= 12 && 1 <= c.day <= DaysInMonth(c.year, c.month)
  }

  /** Calendar order: by year, then month, then day. */
  predicate Before(a: Civil, b: Civil) {
    a.year < b.year ||
    (a.year == b.year && (a.month < b.month || (a.month == b.month && a.day < b.day)))
  }

  // ---------------------------------------------------------------------
  // Day ordinals

  function DaysBeforeYear(y: int): int
    decreases y
  {
    if y <= 1 then 0 else DaysBeforeYear(y - 1) + DaysInYear(y - 1)
  }

  function DaysBeforeMonth(y: int, m: int): int
    decreases m
  {
    if m <= 1 then 0 else DaysBeforeMonth(y, m - 1) + DaysInMonth(y, m - 1)
  }

  /** `date.toordinal()`: 0001-01-01 is day 1. */
  function Ordinal(c: Civil): Day {
    DaysBeforeYear(c.year) + DaysBeforeMonth(c.year, c.month) + c.day
  }

  /** The closed form `datetime` itself uses for the days before a year. */
  lemma {:induction false} DaysBeforeYearClosed(y: int)
    requires y >= 1
    ensures DaysBeforeYear(y) == ClosedDaysBeforeYear(y)
    decreases y
  {
    if y > 1 {
      DaysBeforeYearClosed(y - 1);
      ClosedStep(y - 1);
    }
  }

  function ClosedDaysBeforeYear(y: int): int {
    365 * (y - 1) + (y - 1) / 4 - (y - 1) / 100 + (y - 1) / 400
  }

  /** From one year to the next the closed form grows by that year's length. */
  lemma ClosedStep(k: int)
    requires k >= 1
    ensures ClosedDaysBeforeYear(k + 1) == ClosedDaysBeforeYear(k) + DaysInYear(k)
  {
    QuarterStep(k);
    CenturyStep(k);
    FourCenturiesStep(k);
    DivisibilityChain(k);
  }

  lemma QuarterStep(k: int)
    requires k >= 1
    ensures k / 4 == (k - 1) / 4 + (if k % 4 == 0 then 1 else 0)
  {
  }

  lemma CenturyStep(k: int)
    requires k >= 1
    ensures k / 100 == (k - 1) / 100 + (if k % 100 == 0 then 1 else 0)
  {
  }

  lemma FourCenturiesStep(k: int)
    requires k >= 1
    ensures k / 400 == (k - 1) / 400 + (if k % 400 == 0 then 1 else 0)
  {
  }

  lemma DivisibilityChain(k: int)
    ensures k % 400 == 0 ==> k % 100 == 0
    ensures k % 100 == 0 ==> k % 4 == 0
  {
    if k % 400 == 0 {
      FourHundredsAreHundreds(k);
    }
    if k % 100 == 0 {
      HundredsAreFours(k);
    }
  }

  lemma FourHundredsAreHundreds(k: int)
    requires k % 400 == 0
    ensures k % 100 == 0
  {
    var q := k / 400;
    assert k == 400 * q;
    var m := 4 * q;
    assert k == 100 * m;
  }

  lemma HundredsAreFours(k: int)
    requires k % 100 == 0
    ensures k % 4 == 0
  {
    var q := k / 100;
    assert k == 100 * q;
    var m := 25 * q;
    assert k == 4 * m;
  }

  lemma DaysBeforeYearGrows(a: int, b: int)
    requires a <= b
    ensures DaysBeforeYear(a) <= DaysBeforeYear(b)
    decreases b - a
  {
    if a < b {
      DaysBeforeYearGrows(a, b - 1);
    }
  }

  lemma DaysBeforeMonthGrows(y: int, a: int, b: int)
    requires a <= b
    ensures DaysBeforeMonth(y, a) <= DaysBeforeMonth(y, b)
    decreases b - a
  {
    if a < b {
      DaysBeforeMonthGrows(y, a, b - 1);
    }
  }

  /** The twelve months fill the year. */
  lemma MonthsFillYear(y: int)
    ensures DaysBeforeMonth(y, 13) == DaysInYear(y)
  {
  }

  /** The ordinal of a date lies inside the ordinal range of its year. */
  lemma OrdinalInYear(c: Civil)
    requires IsCalendarDate(c)
    ensures DaysBeforeYear(c.year) < Ordinal(c) <= DaysBeforeYear(c.year + 1)
  {
    DaysBeforeMonthGrows(c.year, c.month + 1, 13);
    MonthsFillYear(c.year);
  }

  /** Ordinals follow calendar order: comparing day numbers is comparing
      dates. */
  lemma OrdinalOrder(a: Civil, b: Civil)
    requires IsCalendarDate(a) && IsCalendarDate(b)
    ensures Before(a, b) <==> Ordinal(a) < Ordinal(b)
  {
    if Before(a, b) {
      OrdinalBefore(a, b);
    } else if Before(b, a) {
      OrdinalBefore(b, a);
    }
  }

  lemma OrdinalBefore(a: Civil, b: Civil)
    requires IsCalendarDate(a) && IsCalendarDate(b) && Before(a, b)
    ensures Ordinal(a) < Ordinal(b)
  {
    if a.year < b.year {
      OrdinalInYear(a);
      OrdinalInYear(b);
      DaysBeforeYearGrows(a.year + 1, b.year);
    } else if a.month < b.month {
      DaysBeforeMonthGrows(a.year, a.month + 1, b.month);
    }
  }

  /** Every calendar date has a valid day ordinal. */
  lemma OrdinalIsValidDate(c: Civil)
    requires IsCalendarDate(c)
    ensures ValidDate(Ordinal(c))
  {
    var last := Civil(9999, 12, 31);
    OrdinalInYear(c);
    if c != last {
      OrdinalBefore(c, last);
    }
    DaysBeforeYearClosed(9999);
    MonthsFillYear(9999);
    assert Ordinal(last) == LastDay;
    DaysBeforeYearGrows(1, c.year);
  }

  /** Distinct dates have distinct ordinals. */
  lemma OrdinalInjective(a: Civil, b: Civil)
    requires IsCalendarDate(a) && IsCalendarDate(b)
    ensures Ordinal(a) == Ordinal(b) <==> a == b
  {
    OrdinalOrder(a, b);
    OrdinalOrder(b, a);
  }

  // ---------------------------------------------------------------------
  // Digits and text comparison

  predicate IsDigit(c: char) {
    '0' <= c <= '9'
  }

  predicate AllDigits(s: string) {
    forall i :: 0 <= i < |s| ==> IsDigit(s[i])
  }

  function DigitValue(c: char): int
    requires IsDigit(c)
  {
    c as int - '0' as int
  }

  function DigitChar(n: int): char
    requires 0 <= n < 10
  {
    (n + '0' as int) as char
  }

  /** The value of a run of decimal digits, most significant first. */
  function Num(s: string): int
    requires AllDigits(s)
  {
    if |s| == 0 then 0 else Num(s[..|s| - 1]) * 10 + DigitValue(s[|s| - 1])
  }

  function Pow10(n: nat): nat {
    if n == 0 then 1 else 10 * Pow10(n - 1)
  }

  /** `n` written with exactly `width` digits, padded with zeros. */
  function Digits(n: nat, width: nat): (s: string)
    ensures |s| == width && AllDigits(s)
  {
    if width == 0 then [] else Digits(n / 10, width - 1) + [DigitChar(n % 10)]
  }

  lemma {:induction false} NumDigits(n: nat, width: nat)
    requires n < Pow10(width)
    ensures Num(Digits(n, width)) == n
  {
    if width > 0 {
      var s := Digits(n, width);
      assert s[..|s| - 1] == Digits(n / 10, width - 1);
      NumDigits(n / 10, width - 1);
    }
  }

  /** Python's `<` on strings: character by character, and a proper prefix
      comes first. */
  function Less(a: string, b: string): bool
    decreases |a|
  {
    if |b| == 0 then false
    else if |a| == 0 then true
    else if a[0] != b[0] then a[0] < b[0]
    else Less(a[1..], b[1..])
  }

  /** Comparing two texts whose first parts have the same length compares
      the first parts, and the second parts when the first are equal. */
  lemma {:induction false} LessConcat(a1: string, a2: string, b1: string, b2: string)
    requires |a1| == |b1|
    ensures Less(a1 + a2, b1 + b2) == (Less(a1, b1) || (a1 == b1 && Less(a2, b2)))
    decreases |a1|
  {
    if |a1| == 0 {
      assert a1 + a2 == a2 && b1 + b2 == b2;
    } else {
      assert (a1 + a2)[0] == a1[0] && (b1 + b2)[0] == b1[0];
      assert (a1 + a2)[1..] == a1[1..] + a2 && (b1 + b2)[1..] == b1[1..] + b2;
      LessConcat(a1[1..], a2, b1[1..], b2);
      if a1[0] == b1[0] {
        assert a1 == b1 <==> a1[1..] == b1[1..] by {
          if a1[1..] == b1[1..] {
            assert a1 == [a1[0]] + a1[1..] && b1 == [b1[0]] + b1[1..];
          }
        }
      }
    }
  }

  /** Equal-length digit runs compare as text exactly as their values do. */
  lemma {:induction false} DigitsLess(a: string, b: string)
    requires |a| == |b| && AllDigits(a) && AllDigits(b)
    ensures Less(a, b) <==> Num(a) < Num(b)
    ensures Num(a) == Num(b) ==> a == b
    decreases |a|
  {
    if |a| > 0 {
      var a1, b1 := a[..|a| - 1], b[..|b| - 1];
      var x, y := a[|a| - 1], b[|b| - 1];
      assert a == a1 + [x] && b == b1 + [y];
      DigitsLess(a1, b1);
      LessConcat(a1, [x], b1, [y]);
      assert Less([x], [y]) == (x < y) by {
        assert [x][1..] == [] && [y][1..] == [];
      }
    }
  }

  // ---------------------------------------------------------------------
  // strftime and strptime

  /** `strftime("%Y-%m-%d")`: year, month and day zero-padded to four, two
      and two digits. */
  function Format(c: Civil): (t: string)
    requires IsCalendarDate(c)
    ensures |t| == 10
  {
    Digits(c.year, 4) + "-" + Digits(c.month, 2) + "-" + Digits(c.day, 2)
  }

  /** `%m` accepts `1[0-2]|0[1-9]|[1-9]`. */
  function MonthField(f: string): Option<int> {
    if |f| == 1 && '1' <= f[0] <= '9' then Some(DigitValue(f[0]))
    else if |f| == 2 && AllDigits(f) && 1 <= Num(f) <= 12 then Some(Num(f))
    else None
  }

  /** `%d` accepts `3[01]|[12]\d|0[1-9]|[1-9]| [1-9]`. */
  function DayField(f: string): Option<int> {
    if |f| == 1 && '1' <= f[0] <= '9' then Some(DigitValue(f[0]))
    else if |f| == 2 && f[0] == ' ' && '1' <= f[1] <= '9' then Some(DigitValue(f[1]))
    else if |f| == 2 && AllDigits(f) && 1 <= Num(f) <= 31 then Some(Num(f))
    else None
  }

  /** `strptime(t, "%Y-%m-%d")`: four digits, `-`, a month field, `-`, a day
      field, the whole text consumed, and a date the calendar has. The month
      field ends at the first `-` after the year, since it holds no `-`. */
  function Parse(t: string): (r: Option<Civil>)
    ensures r.Some? ==> IsCalendarDate(r.value)
  {
    if |t| < 8 || !AllDigits(t[..4]) || t[4] != '-' then None
    else
      var cut := if t[6] == '-' then 6 else 7;
      if t[cut] != '-' then None
      else
        match (MonthField(t[5..cut]), DayField(t[cut + 1..]))
        case (Some(m), Some(d)) =>
          var c := Civil(Num(t[..4]), m, d);
          if IsCalendarDate(c) then Some(c) else None
        case _ => None
  }

  /** What `strftime` writes, `strptime` reads back as the same date. */
  lemma ParseFormat(c: Civil)
    requires IsCalendarDate(c)
    ensures Parse(Format(c)) == Some(c)
  {
    var t := Format(c);
    var y, m, d := Digits(c.year, 4), Digits(c.month, 2), Digits(c.day, 2);
    assert t[..4] == y && t[4] == '-' && t[5..7] == m && t[7] == '-' && t[8..] == d;
    NumDigits(c.year, 4);
    NumDigits(c.month, 2);
    NumDigits(c.day, 2);
    assert IsDigit(t[6]);
  }

  /** The parts of two `strftime` texts are compared one after the other. */
  lemma FormatLess(a: Civil, b: Civil)
    requires IsCalendarDate(a) && IsCalendarDate(b)
    ensures var ya, ma, da := Digits(a.year, 4), Digits(a.month, 2), Digits(a.day, 2);
            var yb, mb, db := Digits(b.year, 4), Digits(b.month, 2), Digits(b.day, 2);
            Less(Format(a), Format(b)) ==
              (Less(ya, yb) || (ya == yb && (Less(ma, mb) || (ma == mb && Less(da, db)))))
  {
    var ya, ma, da := Digits(a.year, 4), Digits(a.month, 2), Digits(a.day, 2);
    var yb, mb, db := Digits(b.year, 4), Digits(b.month, 2), Digits(b.day, 2);
    assert Format(a) == ya + ("-" + (ma + ("-" + da)));
    assert Format(b) == yb + ("-" + (mb + ("-" + db)));
    LessConcat(ya, "-" + (ma + ("-" + da)), yb, "-" + (mb + ("-" + db)));
    LessConcat("-", ma + ("-" + da), "-", mb + ("-" + db));
    LessConcat(ma, "-" + da, mb, "-" + db);
    LessConcat("-", da, "-", db);
    assert !Less("-", "-") by { assert "-"[1..] == []; }
  }

  /** A zero-padded field compares as text exactly as its value does. */
  lemma PaddedFieldLess(m: nat, n: nat, width: nat)
    requires m < Pow10(width) && n < Pow10(width)
    ensures Less(Digits(m, width), Digits(n, width)) <==> m < n
    ensures Digits(m, width) == Digits(n, width) <==> m == n
  {
    NumDigits(m, width);
    NumDigits(n, width);
    DigitsLess(Digits(m, width), Digits(n, width));
  }

  /** On the text `strftime` writes, Python's string order is calendar
      order, and so is day-ordinal order. */
  lemma PaddedOrderAgrees(a: Civil, b: Civil)
    requires IsCalendarDate(a) && IsCalendarDate(b)
    ensures Less(Format(a), Format(b)) <==> Before(a, b)
    ensures Less(Format(a), Format(b)) <==> Ordinal(a) < Ordinal(b)
  {
    FormatLess(a, b);
    assert Pow10(2) == 100 && Pow10(4) == 10000;
    PaddedFieldLess(a.year, b.year, 4);
    PaddedFieldLess(a.month, b.month, 2);
    PaddedFieldLess(a.day, b.day, 2);
    OrdinalOrder(a, b);
  }

  // ---------------------------------------------------------------------
  // Where stored text and calendar dates part

  /** prune_data as written: a record stays when its stored date text is not
      below the cutoff day's text. */
  predicate KeptAsWritten(stored: string, cutoff: Civil)
    requires IsCalendarDate(cutoff)
  {
    !Less(stored, Format(cutoff))
  }

  /** The filters as written: a record is on a day when its stored date text
      equals the text `strftime` writes for that day. */
  predicate OnDayAsWritten(stored: string, day: Civil)
    requires IsCalendarDate(day)
  {
    stored == Format(day)
  }

  /** `2024-1-5` passes the format check as 5 January 2024. */
  lemma ParseUnpadded()
    ensures Parse("2024-1-5") == Some(Civil(2024, 1, 5))
  {
    var t := "2024-1-5";
    assert t[..4] == "2024";
    assert t[5..6] == "1";
    assert t[7..] == "5";
    YearText();
  }

  lemma YearText()
    ensures Num("2024") == 2024
  {
    assert "2024"[..3] == "202";
    assert "202"[..2] == "20";
    assert "20"[..1] == "2";
    assert "2"[..0] == "";
  }

  /** The first six characters of a `strftime` text: the year, `-`, and the
      tens digit of the month. */
  lemma FormatPrefix(c: Civil)
    requires IsCalendarDate(c)
    ensures Format(c)[..5] == Digits(c.year, 4) + "-"
    ensures Format(c)[5] == DigitChar(c.month / 10)
  {
    var m := Digits(c.month, 2);
    assert m == Digits(c.month / 10, 1) + [DigitChar(c.month % 10)];
    assert Digits(c.month / 10, 1) == [DigitChar(c.month / 10 % 10)];
    assert Format(c) == (Digits(c.year, 4) + "-") + (m + "-" + Digits(c.day, 2));
  }

  lemma YearDigits()
    ensures Digits(2024, 4) == "2024"
  {
    assert Digits(2, 1) == "2";
    assert Digits(20, 2) == "20";
    assert Digits(202, 3) == "202";
  }

  /** Pruning on 2024-02-20 keeps meals from 2024-02-13 on. A meal whose
      date was typed as `2024-1-5` passes the format check, is 46 days old,
      and is still kept. */
  lemma UnpaddedSurvivesPrune()
    ensures Parse("2024-1-5") == Some(Civil(2024, 1, 5))
    ensures Before(Civil(2024, 1, 5), Civil(2024, 2, 13))
    ensures KeptAsWritten("2024-1-5", Civil(2024, 2, 13))
    ensures Ordinal(Civil(2024, 2, 13)) == Ordinal(Civil(2024, 2, 20)) - 7
    ensures Ordinal(Civil(2024, 1, 5)) == Ordinal(Civil(2024, 2, 20)) - 46
  {
    ParseUnpadded();
    var cutoff := Civil(2024, 2, 13);
    FormatPrefix(cutoff);
    YearDigits();
    var a, b := "2024-1-5", Format(cutoff);
    assert a[..5] == "2024-" && a[5] == '1';
    assert b[..5] == "2024-" && b[5] == '0';
    assert a == a[..5] + a[5..] && b == b[..5] + b[5..];
    LessConcat(a[..5], a[5..], b[..5], b[5..]);
    LessIrreflexive(b[..5]);
  }

  lemma {:induction false} LessIrreflexive(a: string)
    ensures !Less(a, a)
    decreases |a|
  {
    if |a| > 0 {
      LessIrreflexive(a[1..]);
    }
  }

  /** A meal whose date was typed as `2024-1-5` is a meal of 2024-01-05, yet
      it is in no row of that day's report, whose text is `2024-01-05`. */
  lemma UnpaddedMissesDay()
    ensures Parse("2024-1-5") == Some(Civil(2024, 1, 5))
    ensures !OnDayAsWritten("2024-1-5", Civil(2024, 1, 5))
  {
    ParseUnpadded();
  }

  /** On zero-padded text, both comparisons as written are the calendar
      comparisons the day-ordinal model makes: kept exactly when the date is
      not before the cutoff, and on a day exactly when it is that day. */
  lemma PaddedTextIsOrdinal(c: Civil, day: Civil)
    requires IsCalendarDate(c) && IsCalendarDate(day)
    ensures KeptAsWritten(Format(c), day) <==> Ordinal(c) >= Ordinal(day)
    ensures OnDayAsWritten(Format(c), day) <==> Ordinal(c) == Ordinal(day)
  {
    PaddedOrderAgrees(c, day);
    ParseFormat(c);
    ParseFormat(day);
    OrdinalInjective(c, day);
  }
}
