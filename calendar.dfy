/** Calendar dates as Python's `datetime.date` has them: the proleptic
    Gregorian calendar over years 1 to 9999, one day subtracted with
    `timedelta(days=1)`, and `str(date)` rendering `YYYY-MM-DD`. */
module Calendar {
  import opened Wrappers

  datatype Date = Date(year: int, month: int, day: int)

  /** `datetime.MINYEAR` and `datetime.MAXYEAR`. */
  const MinYear := 1
  const MaxYear := 9999

  /** The earliest date there is; the day before it cannot be represented. */
  const MinDate := Date(MinYear, 1, 1)

  /** Python raises `OverflowError` with this message when a date
      computation leaves the representable range. */
  const OverflowMessage := "date value out of range"

  predicate IsLeapYear(y: int)
  {
    y % 4 == 0 && (y % 100 != 0 || y % 400 == 0)
  }

  function DaysInMonth(y: int, m: int): int
  {
    if m == 2 then (if IsLeapYear(y) then 29 else 28)
    else if m == 4 || m == 6 || m == 9 || m == 11 then 30
    else 31
  }

  function DaysInYear(y: int): int
  {
    if IsLeapYear(y) then 366 else 365
  }

  /** A date `datetime.date` can hold. */
  predicate Valid(d: Date)
  {
    MinYear <= d.year <= MaxYear && 1 <= d.month <= 12 && 1 <= d.day <= DaysInMonth(d.year, d.month)
  }

  /** Days in the years before year `y`. */
  function DaysBeforeYear(y: int): int
    decreases y
  {
    if y <= MinYear then 0 else DaysBeforeYear(y - 1) + DaysInYear(y - 1)
  }

  /** Days in the months of year `y` before month `m`. */
  function DaysBeforeMonth(y: int, m: int): int
    decreases m
  {
    if m <= 1 then 0 else DaysBeforeMonth(y, m - 1) + DaysInMonth(y, m - 1)
  }

  /** `d.toordinal()`: the day number of `d`, 1 for 0001-01-01. Subtracting
      a `timedelta` of whole days subtracts from this number. */
  function Ordinal(d: Date): int
  {
    DaysBeforeYear(d.year) + DaysBeforeMonth(d.year, d.month) + d.day
  }

  /** `d - timedelta(days=1)`, or `None` where Python raises
      `OverflowError`. */
  function PrevDay(d: Date): Option<Date>
    requires Valid(d)
  {
    if d.day > 1 then Some(Date(d.year, d.month, d.day - 1))
    else if d.month > 1 then Some(Date(d.year, d.month - 1, DaysInMonth(d.year, d.month - 1)))
    else if d.year > MinYear then Some(Date(d.year - 1, 12, 31))
    else None
  }

  /** The twelve months make up the year. */
  lemma MonthsFillYear(y: int)
    ensures DaysBeforeMonth(y, 12) + DaysInMonth(y, 12) == DaysInYear(y)
  {
    assert DaysBeforeMonth(y, 3) == 31 + DaysInMonth(y, 2);
    assert DaysBeforeMonth(y, 7) == DaysBeforeMonth(y, 3) + 31 + 30 + 31 + 30;
    assert DaysBeforeMonth(y, 12) == DaysBeforeMonth(y, 7) + 31 + 31 + 30 + 31 + 30;
  }

  /** The day before `d` is the valid date whose ordinal is one less; it
      exists for every date except `MinDate`. */
  lemma PrevDayIsOneDayEarlier(d: Date)
    requires Valid(d)
    ensures PrevDay(d).None? <==> d == MinDate
    ensures PrevDay(d).Some? ==> Valid(PrevDay(d).value) && Ordinal(PrevDay(d).value) + 1 == Ordinal(d)
  {
    if d.day > 1 {
    } else if d.month > 1 {
      assert DaysBeforeMonth(d.year, d.month) == DaysBeforeMonth(d.year, d.month - 1) + DaysInMonth(d.year, d.month - 1);
    } else if d.year > MinYear {
      MonthsFillYear(d.year - 1);
      assert DaysBeforeYear(d.year) == DaysBeforeYear(d.year - 1) + DaysInYear(d.year - 1);
    }
  }

  /** Days before a month grow with the month. */
  lemma {:induction false} DaysBeforeMonthMonotone(y: int, m1: int, m2: int)
    requires 1 <= m1 <= m2
    ensures DaysBeforeMonth(y, m1) <= DaysBeforeMonth(y, m2)
  {
    if m1 < m2 {
      DaysBeforeMonthMonotone(y, m1, m2 - 1);
    }
  }

  /** Days before a year grow with the year. */
  lemma {:induction false} DaysBeforeYearMonotone(y1: int, y2: int)
    requires MinYear <= y1 <= y2
    ensures DaysBeforeYear(y1) <= DaysBeforeYear(y2)
  {
    if y1 < y2 {
      DaysBeforeYearMonotone(y1, y2 - 1);
    }
  }

  /** A date's ordinal lies after the days of the earlier years and within
      those of its own year. */
  lemma OrdinalWithinYear(d: Date)
    requires Valid(d)
    ensures DaysBeforeYear(d.year) < Ordinal(d) <= DaysBeforeYear(d.year + 1)
  {
    MonthsFillYear(d.year);
    assert DaysBeforeYear(d.year + 1) == DaysBeforeYear(d.year) + DaysInYear(d.year);
    if d.month < 12 {
      MonthEndsBefore(d.year, d.month, 12);
    }
  }

  /** Dates with the same ordinal fall in the same year. */
  lemma SameOrdinalSameYear(d: Date, e: Date)
    requires Valid(d) && Valid(e)
    requires Ordinal(d) == Ordinal(e)
    ensures d.year == e.year
  {
    OrdinalWithinYear(d);
    OrdinalWithinYear(e);
    if d.year < e.year {
      DaysBeforeYearMonotone(d.year + 1, e.year);
      assert false;
    } else if e.year < d.year {
      DaysBeforeYearMonotone(e.year + 1, d.year);
      assert false;
    }
  }

  /** Distinct valid dates have distinct ordinals, so the day before a date
      is the only valid date one ordinal earlier. */
  lemma OrdinalInjective(d: Date, e: Date)
    requires Valid(d) && Valid(e)
    requires Ordinal(d) == Ordinal(e)
    ensures d == e
  {
    SameOrdinalSameYear(d, e);
    var y := d.year;
    assert DaysBeforeMonth(y, d.month) + d.day == DaysBeforeMonth(y, e.month) + e.day;
    if d.month < e.month {
      MonthEndsBefore(y, d.month, e.month);
      assert false;
    } else if e.month < d.month {
      MonthEndsBefore(y, e.month, d.month);
      assert false;
    }
  }

  /** A later month starts no earlier than an earlier month ends. */
  lemma MonthEndsBefore(y: int, m1: int, m2: int)
    requires 1 <= m1 < m2
    ensures DaysBeforeMonth(y, m1) + DaysInMonth(y, m1) <= DaysBeforeMonth(y, m2)
  {
    assert DaysBeforeMonth(y, m1 + 1) == DaysBeforeMonth(y, m1) + DaysInMonth(y, m1);
    DaysBeforeMonthMonotone(y, m1 + 1, m2);
  }

  // ---------------------------------------------------------------------
  // str(date): ISO 8601 "YYYY-MM-DD"
  // ---------------------------------------------------------------------

  predicate IsDigit(c: char)
  {
    '0' <= c <= '9'
  }

  predicate AllDigits(s: string)
  {
    forall i :: 0 <= i < |s| ==> IsDigit(s[i])
  }

  function Pow10(w: nat): nat
  {
    if w == 0 then 1 else 10 * Pow10(w - 1)
  }

  /** The last `w` decimal digits of `n`, zero-padded: `"%0wd" % n` when
      `n < 10^w`. */
  function Digits(n: nat, w: nat): string
  {
    if w == 0 then [] else Digits(n / 10, w - 1) + [('0' as int + n % 10) as char]
  }

  /** The number a string of decimal digits denotes. */
  function DigitsValue(s: string): int
  {
    if s == [] then 0 else 10 * DigitsValue(s[..|s| - 1]) + (s[|s| - 1] as int - '0' as int)
  }

  /** `w` digits hold every number below `10^w`, and reading them back gives
      the number. */
  lemma {:induction false} DigitsRoundTrip(n: nat, w: nat)
    requires n < Pow10(w)
    ensures |Digits(n, w)| == w && AllDigits(Digits(n, w))
    ensures DigitsValue(Digits(n, w)) == n
  {
    if w > 0 {
      DigitsRoundTrip(n / 10, w - 1);
      var s := Digits(n, w);
      assert s[..|s| - 1] == Digits(n / 10, w - 1);
    }
  }

  /** `str(d)` for a `datetime.date`: `"%04d-%02d-%02d"`. */
  function Render(d: Date): string
    requires Valid(d)
  {
    Digits(d.year, 4) + "-" + Digits(d.month, 2) + "-" + Digits(d.day, 2)
  }

  /** Reads a `YYYY-MM-DD` string back into a valid date. */
  function ParseIso(s: string): Option<Date>
  {
    if |s| == 10 && s[4] == '-' && s[7] == '-'
       && AllDigits(s[..4]) && AllDigits(s[5..7]) && AllDigits(s[8..])
    then
      var d := Date(DigitsValue(s[..4]), DigitsValue(s[5..7]), DigitsValue(s[8..]));
      if Valid(d) then Some(d) else None
    else
      None
  }

  /** A rendered date is ten characters and reads back as the same date. */
  lemma RenderParses(d: Date)
    requires Valid(d)
    ensures |Render(d)| == 10
    ensures ParseIso(Render(d)) == Some(d)
  {
    assert Pow10(4) == 10000 && Pow10(2) == 100;
    DigitsRoundTrip(d.year, 4);
    DigitsRoundTrip(d.month, 2);
    DigitsRoundTrip(d.day, 2);
    var s := Render(d);
    assert s[..4] == Digits(d.year, 4);
    assert s[5..7] == Digits(d.month, 2);
    assert s[8..] == Digits(d.day, 2);
  }

  /** Different dates render differently. */
  lemma RenderInjective(d: Date, e: Date)
    requires Valid(d) && Valid(e)
    requires Render(d) == Render(e)
    ensures d == e
  {
    RenderParses(d);
    RenderParses(e);
  }
}
