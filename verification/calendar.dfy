/** The proleptic Gregorian calendar of .NET `DateOnly`: dates from
    0001-01-01 to 9999-12-31, their order, month arithmetic, and the
    "yyyy-MM-dd" rendering. */
module Calendar {
  import opened Results
  import opened Text

  const MinYear := 1
  const MaxYear := 9999

  predicate IsLeapYear(y: int) {
    y % 4 == 0 && (y % 100 != 0 || y % 400 == 0)
  }

  function DaysInMonth(y: int, m: int): (n: int)
    requires 1 <= m <= 12
    ensures 28 <= n <= 31
  {
    if m == 2 then (if IsLeapYear(y) then 29 else 28)
    else if m == 4 || m == 6 || m == 9 || m == 11 then 30
    else 31
  }

  datatype Date = Date(year: int, month: int, day: int) {
    predicate Valid() {
      MinYear <= year <= MaxYear && 1 <= month <= 12 && 1 <= day <= DaysInMonth(year, month)
    }
  }

  /** A date `DateOnly` can hold; constructing any other throws. */
  type DateOnly = d: Date | d.Valid() witness Date(1, 1, 1)

  /** Chronological order, which for valid dates is the lexicographic
      order on (year, month, day). */
  predicate OnOrBefore(a: Date, b: Date) {
    a.year < b.year
    || (a.year == b.year && (a.month < b.month || (a.month == b.month && a.day <= b.day)))
  }

  predicate Before(a: Date, b: Date) {
    OnOrBefore(a, b) && a != b
  }

  lemma OnOrBeforeTotal(a: Date, b: Date)
    ensures OnOrBefore(a, b) || OnOrBefore(b, a)
    ensures OnOrBefore(a, b) && OnOrBefore(b, a) ==> a == b
  {
  }

  function FirstOfMonth(y: int, m: int): Date { Date(y, m, 1) }

  function LastOfMonth(y: int, m: int): Date
    requires 1 <= m <= 12
  {
    Date(y, m, DaysInMonth(y, m))
  }

  /** `DateOnly.AddMonths(months)`: moves by whole calendar months, keeping
      the day unless the target month is shorter, in which case the day
      becomes that month's last; fails (ArgumentOutOfRangeException) when
      the result leaves years 1..9999. */
  function AddMonths(d: DateOnly, months: int): (r: Option<DateOnly>)
    ensures r.Some? <==> MinYear * 12 <= d.year * 12 + d.month - 1 + months < (MaxYear + 1) * 12
    ensures r.Some? ==> r.value.year * 12 + r.value.month == d.year * 12 + d.month + months
    ensures r.Some? ==> r.value.day == if d.day <= DaysInMonth(r.value.year, r.value.month)
                                       then d.day else DaysInMonth(r.value.year, r.value.month)
  {
    var index := d.year * 12 + d.month - 1 + months;
    var y := index / 12;
    var m := index % 12 + 1;
    if y < MinYear || y > MaxYear then None
    else
      var last := DaysInMonth(y, m);
      Some(Date(y, m, if d.day <= last then d.day else last))
  }

  /** `DateOnly.AddDays(-1)`: the day before `d`; fails on 0001-01-01. */
  function DayBefore(d: DateOnly): (r: Option<DateOnly>)
    ensures r.None? <==> d == Date(MinYear, 1, 1)
    ensures r.Some? ==> Before(r.value, d)
    ensures r.Some? ==> forall e: DateOnly :: Before(r.value, e) ==> OnOrBefore(d, e)
  {
    if d.day > 1 then Some(Date(d.year, d.month, d.day - 1))
    else if d.month > 1 then Some(LastOfMonth(d.year, d.month - 1))
    else if d.year > MinYear then Some(Date(d.year - 1, 12, 31))
    else None
  }

  /** The first day of the next month minus one day is the last day of the
      month, for every month except December 9999, whose successor month
      does not exist. */
  lemma {:induction false} EndOfMonth(y: int, m: int)
    requires MinYear <= y <= MaxYear && 1 <= m <= 12
    ensures AddMonths(FirstOfMonth(y, m), 1).Some? <==> !(y == MaxYear && m == 12)
    ensures AddMonths(FirstOfMonth(y, m), 1).Some? ==>
              DayBefore(AddMonths(FirstOfMonth(y, m), 1).value) == Some(LastOfMonth(y, m))
  {
    var next := AddMonths(FirstOfMonth(y, m), 1);
    if next.Some? {
      var n := next.value;
      assert n.day == 1;
      if m < 12 {
        assert n == Date(y, m + 1, 1);
      } else {
        assert n == Date(y + 1, 1, 1);
      }
    }
  }

  /** The dates from the 1st to the last day of a month are exactly the
      dates of that month. */
  lemma InMonthRange(d: DateOnly, y: int, m: int)
    requires 1 <= m <= 12
    ensures OnOrBefore(FirstOfMonth(y, m), d) && OnOrBefore(d, LastOfMonth(y, m))
            <==> d.year == y && d.month == m
  {
  }

  /** The dates from January 1 to December 31 are exactly the dates of
      that year. */
  lemma InYearRange(d: DateOnly, y: int)
    ensures OnOrBefore(Date(y, 1, 1), d) && OnOrBefore(d, Date(y, 12, 31)) <==> d.year == y
  {
  }

  /** `d.ToString("yyyy-MM-dd")`. */
  function IsoString(d: DateOnly): (s: string)
    ensures |s| == 10 && s[4] == '-' && s[7] == '-'
    ensures AllDigits(s[..4]) && AllDigits(s[5..7]) && AllDigits(s[8..])
    ensures DigitsValue(s[..4]) == d.year
    ensures DigitsValue(s[5..7]) == d.month
    ensures DigitsValue(s[8..]) == d.day
  {
    var y := Pad(d.year, 4);
    var m := Pad(d.month, 2);
    var dd := Pad(d.day, 2);
    var s := y + "-" + m + "-" + dd;
    assert s[..4] == y && s[5..7] == m && s[8..] == dd;
    s
  }

  /** Distinct dates get distinct labels. */
  lemma IsoStringInjective(a: DateOnly, b: DateOnly)
    ensures IsoString(a) == IsoString(b) <==> a == b
  {
  }
}
