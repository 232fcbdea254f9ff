/** The chart report of `ChartDataController.GetChartData`: which liquidity
    observations a year or month selects, the running investment total, the
    liquidity-minus-investment differences, the day-over-day percentages,
    their rounded mean, and three linear projections. */
module Charts {
  import opened Results
  import opened Calendar
  import opened Money
  import opened Records
  import opened Store

  /** The report (`ChartData` / `ChartDataDto`). */
  datatype ChartData = ChartData(
    labels: seq<string>,
    differences: seq<real>,
    percentage: seq<real>,
    dailyGrowthRate: real,
    projectedWeek: real,
    projectedMonth: real,
    projectedYear: real)

  /** `new ChartData()`: empty lists and zero scalars. */
  const EmptyChart := ChartData([], [], [], 0.0, 0.0, 0.0, 0.0)

  /** Why `GetChartData` answers with an error instead of a report:
      a null user id (Unauthorized), no stored year for the caller
      (KeyNotFoundException), a range that `DateOnly` cannot build
      (ArgumentOutOfRangeException), or a previous observation of 0
      (DivideByZeroException of decimal division). */
  datatype ChartError = Unauthorized | YearNotFound | DateOutOfRange | DivideByZero

  // ---------------------------------------------------------------------
  // The date range
  // ---------------------------------------------------------------------

  /** `rangeStart` and `rangeEnd`: the whole year for month 0, otherwise the
      1st of the month and `rangeStart.AddMonths(1).AddDays(-1)`. */
  function ChartRange(year: int, month: int): (r: Result<(DateOnly, DateOnly), ChartError>)
    ensures r.Success? <==> MinYear <= year <= MaxYear && 0 <= month <= 12 && !(year == MaxYear && month == 12)
    ensures r.Failure? ==> r.error == DateOutOfRange
    ensures r.Success? && month == 0 ==> r.value.0 == Date(year, 1, 1) && r.value.1 == Date(year, 12, 31)
    ensures r.Success? && month != 0 ==> r.value.0 == FirstOfMonth(year, month) && r.value.1 == LastOfMonth(year, month)
  {
    if month == 0 then
      if MinYear <= year <= MaxYear then Success((Date(year, 1, 1), Date(year, 12, 31)))
      else Failure(DateOutOfRange)
    else if !(MinYear <= year <= MaxYear && 1 <= month <= 12) then Failure(DateOutOfRange)
    else
      var start: DateOnly := FirstOfMonth(year, month);
      EndOfMonth(year, month);
      match AddMonths(start, 1)
      case None => Failure(DateOutOfRange)
      case Some(next) => Success((start, DayBefore(next).value))
  }

  predicate Within(d: Date, start: Date, end: Date) {
    OnOrBefore(start, d) && OnOrBefore(d, end)
  }

  /** The selected range holds exactly the dates of the requested year
      (month 0) or of the requested month of that year. */
  lemma ChartRangeSelects(year: int, month: int, d: DateOnly)
    requires ChartRange(year, month).Success?
    ensures var (start, end) := ChartRange(year, month).value;
            Within(d, start, end) <==> d.year == year && (month == 0 || d.month == month)
  {
    if month == 0 {
      InYearRange(d, year);
    } else {
      InMonthRange(d, year, month);
    }
  }

  // ---------------------------------------------------------------------
  // Investment totals
  // ---------------------------------------------------------------------

  /** Which investment dates a total takes in: one day (`investmentMap[d]`)
      or every day up to and including one (the month-mode baseline). */
  datatype DateFilter = SameDay(day: DateOnly) | UpTo(last: DateOnly)

  predicate Matches(f: DateFilter, d: DateOnly) {
    match f
    case SameDay(day) => d == day
    case UpTo(last) => OnOrBefore(d, last)
  }

  /** The sum of the amounts of the investments whose date `f` takes in. */
  function InvestedWhere(invs: seq<Investment>, f: DateFilter): real
  {
    if |invs| == 0 then 0.0
    else (if Matches(f, invs[0].date) then invs[0].amount else 0.0) + InvestedWhere(invs[1..], f)
  }

  /** `investmentMap[d]`: the group sum of the investments dated `d`. */
  function InvestedOn(invs: seq<Investment>, d: DateOnly): real
  {
    InvestedWhere(invs, SameDay(d))
  }

  /** `investmentMap.ContainsKey(d)`. */
  predicate HasInvestmentOn(invs: seq<Investment>, d: DateOnly) {
    exists i :: 0 <= i < |invs| && invs[i].date == d
  }

  /** The month-mode baseline `investments.Where(i => i.Date <= rangeStart).Sum(i => i.Amount)`. */
  function InvestedUpTo(invs: seq<Investment>, d: DateOnly): real
  {
    InvestedWhere(invs, UpTo(d))
  }

  lemma {:induction false} InvestedWhereAppend(invs: seq<Investment>, x: Investment, f: DateFilter)
    ensures InvestedWhere(invs + [x], f) == InvestedWhere(invs, f) + (if Matches(f, x.date) then x.amount else 0.0)
    decreases |invs|
  {
    if |invs| > 0 {
      assert (invs + [x])[1..] == invs[1..] + [x];
      InvestedWhereAppend(invs[1..], x, f);
    } else {
      assert invs + [x] == [x];
    }
  }

  lemma {:induction false} InvestedWhereSplit(a: seq<Investment>, b: seq<Investment>, f: DateFilter)
    ensures InvestedWhere(a + b, f) == InvestedWhere(a, f) + InvestedWhere(b, f)
    decreases |a|
  {
    if |a| == 0 {
      assert a + b == b;
    } else {
      assert (a + b)[1..] == a[1..] + b;
      InvestedWhereSplit(a[1..], b, f);
    }
  }

  lemma InvestedWhereRemoveAt(b: seq<Investment>, j: nat, f: DateFilter)
    requires j < |b|
    ensures InvestedWhere(b, f) == InvestedWhere(RemoveAt(b, j), f) + (if Matches(f, b[j].date) then b[j].amount else 0.0)
  {
    assert b == b[..j] + ([b[j]] + b[j + 1..]);
    InvestedWhereSplit(b[..j], [b[j]] + b[j + 1..], f);
    InvestedWhereSplit(b[..j], b[j + 1..], f);
    assert ([b[j]] + b[j + 1..])[1..] == b[j + 1..];
  }

  /** The totals depend on which investments there are, not on their order. */
  lemma {:induction false} InvestedWherePermutation(a: seq<Investment>, b: seq<Investment>, f: DateFilter)
    requires multiset(a) == multiset(b)
    ensures InvestedWhere(a, f) == InvestedWhere(b, f)
    decreases |a|
  {
    if |a| > 0 {
      assert a[0] in multiset(b);
      var j :| 0 <= j < |b| && b[j] == a[0];
      RemoveAtMultiset(b, j);
      MultisetTail(a);
      InvestedWherePermutation(a[1..], RemoveAt(b, j), f);
      InvestedWhereRemoveAt(b, j, f);
    } else {
      assert |b| == |multiset(b)| == 0;
    }
  }

  lemma MultisetTail<T>(s: seq<T>)
    requires |s| > 0
    ensures multiset(s[1..]) == multiset(s) - multiset{s[0]}
  {
    assert s == [s[0]] + s[1..];
  }

  lemma {:induction false} NoInvestmentOn(invs: seq<Investment>, d: DateOnly)
    requires !HasInvestmentOn(invs, d)
    ensures InvestedOn(invs, d) == 0.0
    decreases |invs|
  {
    if |invs| > 0 {
      assert !HasInvestmentOn(invs[1..], d) by {
        forall i | 0 <= i < |invs[1..]| ensures invs[1..][i].date != d {
          assert invs[1..][i] == invs[i + 1];
        }
      }
      NoInvestmentOn(invs[1..], d);
    }
  }

  // ---------------------------------------------------------------------
  // Selecting and ordering the observations
  // ---------------------------------------------------------------------

  /** `liquidities.Where(l => l.Date >= rangeStart && l.Date <= rangeEnd)`. */
  function InRange(liqs: seq<Liquidity>, start: Date, end: Date): (r: seq<Liquidity>)
    ensures forall x :: multiset(r)[x] == if Within(x.date, start, end) then multiset(liqs)[x] else 0
    ensures forall i :: 0 <= i < |r| ==> Within(r[i].date, start, end)
  {
    if |liqs| == 0 then []
    else
      var init := liqs[..|liqs| - 1];
      var last := liqs[|liqs| - 1];
      var kept := InRange(init, start, end);
      InRangeSnoc(init, last, kept, start, end);
      assert liqs == init + [last];
      kept + (if Within(last.date, start, end) then [last] else [])
  }

  /** Filtering one more element keeps it exactly when it is in range. */
  lemma InRangeSnoc(init: seq<Liquidity>, last: Liquidity, kept: seq<Liquidity>, start: Date, end: Date)
    requires forall x :: multiset(kept)[x] == if Within(x.date, start, end) then multiset(init)[x] else 0
    requires forall i :: 0 <= i < |kept| ==> Within(kept[i].date, start, end)
    ensures var r := kept + (if Within(last.date, start, end) then [last] else []);
      && (forall x :: multiset(r)[x] == if Within(x.date, start, end) then multiset(init + [last])[x] else 0)
      && (forall i :: 0 <= i < |r| ==> Within(r[i].date, start, end))
  {
    var r := kept + (if Within(last.date, start, end) then [last] else []);
    forall i | 0 <= i < |r| ensures Within(r[i].date, start, end) {
      if i < |kept| {
        assert r[i] == kept[i];
      }
    }
  }

  /** The filter keeps, for each date in range, the records on it in their
      stored order, and none on a date outside it. */
  lemma InRangeOnDate(liqs: seq<Liquidity>, start: Date, end: Date, d: DateOnly)
    ensures OnDate(InRange(liqs, start, end), d) == if Within(d, start, end) then OnDate(liqs, d) else []
  {
    if Within(d, start, end) {
      InRangeOnDateIn(liqs, start, end, d);
    } else {
      InRangeOnDateOut(liqs, start, end, d);
    }
  }

  lemma {:induction false} InRangeOnDateIn(liqs: seq<Liquidity>, start: Date, end: Date, d: DateOnly)
    requires Within(d, start, end)
    ensures OnDate(InRange(liqs, start, end), d) == OnDate(liqs, d)
    decreases |liqs|
  {
    if |liqs| > 0 {
      var init := liqs[..|liqs| - 1];
      var last := liqs[|liqs| - 1];
      InRangeOnDateIn(init, start, end, d);
      assert liqs == init + [last];
      InRangeSnocEq(init, last, start, end);
      InRangeOnDateStep(InRange(init, start, end), init, last, start, end, d);
    }
  }

  lemma {:induction false} InRangeOnDateOut(liqs: seq<Liquidity>, start: Date, end: Date, d: DateOnly)
    requires !Within(d, start, end)
    ensures OnDate(InRange(liqs, start, end), d) == []
    decreases |liqs|
  {
    if |liqs| > 0 {
      var init := liqs[..|liqs| - 1];
      var last := liqs[|liqs| - 1];
      InRangeOnDateOut(init, start, end, d);
      assert liqs == init + [last];
      InRangeSnocEq(init, last, start, end);
      InRangeOnDateStep(InRange(init, start, end), init, last, start, end, d);
    }
  }

  lemma InRangeSnocEq(init: seq<Liquidity>, last: Liquidity, start: Date, end: Date)
    ensures InRange(init + [last], start, end)
            == InRange(init, start, end) + (if Within(last.date, start, end) then [last] else [])
  {
    assert (init + [last])[..|init|] == init;
  }

  /** Filtering one more observation adds it on its own date exactly when
      that date is in range. */
  lemma InRangeOnDateStep(kept: seq<Liquidity>, init: seq<Liquidity>, last: Liquidity, start: Date, end: Date, d: DateOnly)
    requires OnDate(kept, d) == if Within(d, start, end) then OnDate(init, d) else []
    ensures var tail := if Within(last.date, start, end) then [last] else [];
      OnDate(kept + tail, d) == if Within(d, start, end) then OnDate(init + [last], d) else []
  {
    var tail := if Within(last.date, start, end) then [last] else [];
    OnDateAppend(kept, tail, d);
    OnDateAppend(init, [last], d);
    assert [last][..0] == [];
    if tail != [] {
      assert tail[..0] == [];
    }
  }

  predicate SortedByDate(s: seq<Liquidity>) {
    forall i, j :: 0 <= i < j < |s| ==> OnOrBefore(s[i].date, s[j].date)
  }

  /** Puts `x` before the first element not earlier than it, so equal dates
      keep their input order. */
  function InsertByDate(x: Liquidity, s: seq<Liquidity>): (r: seq<Liquidity>)
    requires SortedByDate(s)
    ensures SortedByDate(r) && multiset(r) == multiset(s) + multiset{x}
    ensures |r| == |s| + 1
    ensures forall d: DateOnly :: OnDate(r, d) == (if x.date == d then [x] else []) + OnDate(s, d)
  {
    if |s| == 0 || OnOrBefore(x.date, s[0].date) then
      InsertByDateFront(x, s);
      [x] + s
    else
      var rest := InsertByDate(x, s[1..]);
      InsertByDateStep(x, s, rest);
      InsertByDateStable(x, s, rest);
      [s[0]] + rest
  }

  lemma InsertByDateFront(x: Liquidity, s: seq<Liquidity>)
    requires SortedByDate(s) && (|s| == 0 || OnOrBefore(x.date, s[0].date))
    ensures SortedByDate([x] + s) && multiset([x] + s) == multiset(s) + multiset{x}
    ensures forall d: DateOnly :: OnDate([x] + s, d) == (if x.date == d then [x] else []) + OnDate(s, d)
  {
    forall d: DateOnly ensures OnDate([x] + s, d) == (if x.date == d then [x] else []) + OnDate(s, d) {
      OnDateCons(x, s, d);
    }
    var r := [x] + s;
    forall i, j | 0 <= i < j < |r| ensures OnOrBefore(r[i].date, r[j].date) {
      assert r[j] == s[j - 1];
      if i > 0 {
        assert r[i] == s[i - 1];
      }
    }
  }

  /** The head of a sorted list stays first when a later date is inserted
      behind it. */
  lemma InsertByDateStep(x: Liquidity, s: seq<Liquidity>, rest: seq<Liquidity>)
    requires SortedByDate(s) && |s| > 0 && !OnOrBefore(x.date, s[0].date)
    requires SortedByDate(rest) && multiset(rest) == multiset(s[1..]) + multiset{x}
    ensures SortedByDate([s[0]] + rest) && multiset([s[0]] + rest) == multiset(s) + multiset{x}
  {
    var r := [s[0]] + rest;
    forall i, j | 0 <= i < j < |r| ensures OnOrBefore(r[i].date, r[j].date) {
      assert r[j] == rest[j - 1];
      if i > 0 {
        assert r[i] == rest[i - 1];
      } else {
        assert rest[j - 1] in multiset(rest);
        if rest[j - 1] != x {
          assert rest[j - 1] in multiset(s[1..]);
          var q :| 0 <= q < |s| - 1 && s[1..][q] == rest[j - 1];
          assert s[q + 1] == rest[j - 1];
        }
      }
    }
    assert s == [s[0]] + s[1..];
    assert multiset(r) == multiset{s[0]} + multiset(rest);
  }

  /** Inserting behind the head keeps the head in front of every record
      on its date: `x` is strictly later. */
  lemma InsertByDateStable(x: Liquidity, s: seq<Liquidity>, rest: seq<Liquidity>)
    requires |s| > 0 && !OnOrBefore(x.date, s[0].date)
    requires forall d: DateOnly :: OnDate(rest, d) == (if x.date == d then [x] else []) + OnDate(s[1..], d)
    ensures forall d: DateOnly :: OnDate([s[0]] + rest, d) == (if x.date == d then [x] else []) + OnDate(s, d)
  {
    assert s == [s[0]] + s[1..];
    forall d: DateOnly ensures OnDate([s[0]] + rest, d) == (if x.date == d then [x] else []) + OnDate(s, d) {
      OnDateCons(s[0], rest, d);
      OnDateCons(s[0], s[1..], d);
    }
  }

  /** `OrderBy(l => l.Date)`, a stable sort by date (insertion sort). */
  function SortByDate(s: seq<Liquidity>): (r: seq<Liquidity>)
    ensures SortedByDate(r) && multiset(r) == multiset(s)
    ensures |r| == |s|
    ensures forall d: DateOnly :: OnDate(r, d) == OnDate(s, d)
  {
    if |s| == 0 then []
    else
      assert s == [s[0]] + s[1..];
      var r := InsertByDate(s[0], SortByDate(s[1..]));
      assert forall d: DateOnly :: OnDate(s, d) == (if s[0].date == d then [s[0]] else []) + OnDate(s[1..], d) by {
        forall d: DateOnly { OnDateCons(s[0], s[1..], d); }
      }
      r
  }

  /** `liquiditiesInMonth`: the observations in range, ordered by date. */
  function Observations(liqs: seq<Liquidity>, start: Date, end: Date): (r: seq<Liquidity>)
    ensures SortedByDate(r)
    ensures forall x :: multiset(r)[x] == if Within(x.date, start, end) then multiset(liqs)[x] else 0
    ensures |r| == |InRange(liqs, start, end)|
    ensures forall i :: 0 <= i < |r| ==> Within(r[i].date, start, end)
  {
    var r := SortByDate(InRange(liqs, start, end));
    assert forall i :: 0 <= i < |r| ==> r[i] in multiset(InRange(liqs, start, end));
    r
  }

  /** The order by date is stable: the observations on each date in range
      come out in the order they were stored, and none on another date. */
  lemma ObservationsKeepOrder(liqs: seq<Liquidity>, start: Date, end: Date, d: DateOnly)
    ensures OnDate(Observations(liqs, start, end), d) == if Within(d, start, end) then OnDate(liqs, d) else []
  {
    InRangeOnDate(liqs, start, end, d);
  }

  lemma TwoOccurrences<T>(a: seq<T>, i: nat, j: nat)
    requires i < j < |a| && a[i] == a[j]
    ensures multiset(a)[a[i]] >= 2
  {
    assert a == a[..i] + [a[i]] + a[i + 1..];
    assert a[i + 1..][j - i - 1] == a[j];
    assert a[j] in multiset(a[i + 1..]);
  }

  lemma TwoPositions<T>(b: seq<T>, x: T)
    requires multiset(b)[x] >= 2
    ensures exists p, q :: 0 <= p < q < |b| && b[p] == x && b[q] == x
  {
    var p :| 0 <= p < |b| && b[p] == x;
    assert b == b[..p] + [b[p]] + b[p + 1..];
    if x in b[..p] {
      var q :| 0 <= q < p && b[..p][q] == x;
      assert b[q] == x;
    } else {
      assert x in multiset(b[p + 1..]);
      var q :| 0 <= q < |b| - p - 1 && b[p + 1..][q] == x;
      assert b[p + 1 + q] == x;
    }
  }

  /** Dropping observations cannot create two on the same date. */
  lemma DistinctDatesSubset(a: seq<Liquidity>, b: seq<Liquidity>)
    requires multiset(a) <= multiset(b) && DistinctDates(b)
    ensures DistinctDates(a)
  {
    forall i, j | 0 <= i < j < |a| ensures a[i].date != a[j].date {
      if a[i].date == a[j].date {
        assert a[i] in multiset(a) && a[j] in multiset(a);
        SameDateSameRecord(b, a[i], a[j]);
        TwoOccurrences(a, i, j);
        TwoPositions(b, a[i]);
      }
    }
  }

  /** In a list without two observations on one date, the date identifies
      the observation. */
  lemma SameDateSameRecord(b: seq<Liquidity>, x: Liquidity, y: Liquidity)
    requires DistinctDates(b) && x in b && y in b && x.date == y.date
    ensures x == y
  {
  }

  /** Two orderings by date of the same observations, no two on one date,
      start with the same one. */
  lemma SortedSameHead(a: seq<Liquidity>, b: seq<Liquidity>)
    requires SortedByDate(a) && SortedByDate(b)
    requires multiset(a) == multiset(b) && DistinctDates(a)
    requires |a| > 0
    ensures |b| > 0 && a[0] == b[0]
  {
    assert |a| == |multiset(a)| == |multiset(b)| == |b|;
    assert a[0] in multiset(b);
    var j :| 0 <= j < |b| && b[j] == a[0];
    assert b[0] in multiset(a);
    var i :| 0 <= i < |a| && a[i] == b[0];
    assert OnOrBefore(a[0].date, a[i].date);
    assert OnOrBefore(b[0].date, b[j].date);
    OnOrBeforeTotal(a[0].date, a[i].date);
    assert i == 0;
  }

  /** With no two observations on one date, there is only one way to order
      them by date. */
  lemma {:induction false} SortedUnique(a: seq<Liquidity>, b: seq<Liquidity>)
    requires SortedByDate(a) && SortedByDate(b)
    requires multiset(a) == multiset(b) && DistinctDates(a)
    ensures a == b
    decreases |a|
  {
    assert |a| == |multiset(a)| == |multiset(b)| == |b|;
    if |a| > 0 {
      SortedSameHead(a, b);
      MultisetTail(a);
      MultisetTail(b);
      SortedUnique(a[1..], b[1..]);
    }
  }

  // ---------------------------------------------------------------------
  // The scan
  // ---------------------------------------------------------------------

  /** One entry of the percentage list before its division: 0 for the
      first observation, otherwise the organic change since the previous
      observation (the change in value minus the day's investment) and the
      previous value it is divided by. */
  datatype Step = First | Later(change: real, previous: real)

  /** The percentage a step stands for: `change / previous * 100`, decimal
      division. */
  function PercentOf(s: Step): real
    requires s.Later? ==> s.previous != 0.0
  {
    match s
    case First => 0.0
    case Later(change, previous) => change / previous * 100.0
  }

  /** No step divides by 0. */
  predicate Divisible(steps: seq<Step>) {
    forall i :: 0 <= i < |steps| ==> steps[i].Later? ==> steps[i].previous != 0.0
  }

  /** The loop's variables after some iterations: `cumulativeInvestment`,
      `firstValue` (the previous observation's amount), the labelled dates,
      the differences, and the percentages as steps. */
  datatype ScanState = ScanState(
    cumulative: real,
    previous: real,
    dates: seq<DateOnly>,
    differences: seq<real>,
    steps: seq<Step>)

  /** One iteration of the `foreach` over the ordered observations. `index`
      is `liquiditiesInMonth.IndexOf(liq)`, the iteration's own position,
      since every observation is a distinct object. A day without
      investments adds 0, which gives the same numbers as the source's
      separate branch for that case. */
  function ScanStep(invs: seq<Investment>, st: ScanState, liq: Liquidity, index: nat): Result<ScanState, ChartError>
  {
    var dayTotal := if HasInvestmentOn(invs, liq.date) then InvestedOn(invs, liq.date) else 0.0;
    if index != 0 && st.previous == 0.0 then Failure(DivideByZero)
    else
      var step := if index == 0 then First else Later(liq.amount - (st.previous + dayTotal), st.previous);
      Success(ScanState(
        st.cumulative + dayTotal,
        liq.amount,
        st.dates + [liq.date],
        st.differences + [liq.amount - (st.cumulative + dayTotal)],
        st.steps + [step]))
  }

  /** The first `n` iterations of the loop, starting from `baseline`. */
  function Scan(obs: seq<Liquidity>, invs: seq<Investment>, baseline: real, n: nat): (r: Result<ScanState, ChartError>)
    requires n <= |obs|
    ensures r.Success? ==> |r.value.dates| == n && |r.value.differences| == n && |r.value.steps| == n
    ensures r.Success? ==> Divisible(r.value.steps)
    ensures r.Success? && n > 0 ==> r.value.previous == obs[n - 1].amount
    ensures r.Failure? ==> r.error == DivideByZero
  {
    if n == 0 then Success(ScanState(baseline, 0.0, [], [], []))
    else
      var st :- Scan(obs, invs, baseline, n - 1);
      ScanStep(invs, st, obs[n - 1], n - 1)
  }

  /** The investment the scan has added by the end of observation `n - 1`:
      the per-date totals of the first `n` observations' dates. */
  function AddedBy(obs: seq<Liquidity>, invs: seq<Investment>, n: nat): real
    requires n <= |obs|
  {
    if n == 0 then 0.0 else AddedBy(obs, invs, n - 1) + InvestedOn(invs, obs[n - 1].date)
  }

  /** The step observation `i` should contribute, read off the observations
      directly. */
  function ExpectedStep(obs: seq<Liquidity>, invs: seq<Investment>, i: nat): Step
    requires i < |obs|
  {
    if i == 0 then First
    else Later(obs[i].amount - (obs[i - 1].amount + InvestedOn(invs, obs[i].date)), obs[i - 1].amount)
  }

  /** The organic growth from observation `i - 1` to observation `i`, in
      percent: the change in value minus the day's investment, over the
      previous value. */
  function Growth(obs: seq<Liquidity>, invs: seq<Investment>, i: nat): real
    requires 0 < i < |obs| && obs[i - 1].amount != 0.0
  {
    (obs[i].amount - (obs[i - 1].amount + InvestedOn(invs, obs[i].date))) / obs[i - 1].amount * 100.0
  }

  lemma ScanStepFails(invs: seq<Investment>, st: ScanState, liq: Liquidity, index: nat)
    ensures ScanStep(invs, st, liq, index).Failure? <==> index != 0 && st.previous == 0.0
  {
  }

  /** The scan fails exactly when some observation other than the last has
      amount 0, since the next iteration divides by it. */
  lemma {:induction false} ScanFails(obs: seq<Liquidity>, invs: seq<Investment>, baseline: real, n: nat)
    requires n <= |obs|
    ensures Scan(obs, invs, baseline, n).Failure? <==> exists i :: 0 <= i < n - 1 && obs[i].amount == 0.0
  {
    if n > 0 {
      ScanFails(obs, invs, baseline, n - 1);
      var prev := Scan(obs, invs, baseline, n - 1);
      if prev.Success? {
        assert Scan(obs, invs, baseline, n) == ScanStep(invs, prev.value, obs[n - 1], n - 1);
        ScanStepFails(invs, prev.value, obs[n - 1], n - 1);
      }
    }
  }

  /** What one successful iteration appends and carries forward. */
  lemma ScanStepSucceeds(invs: seq<Investment>, st: ScanState, liq: Liquidity, index: nat)
    requires ScanStep(invs, st, liq, index).Success?
    ensures var r := ScanStep(invs, st, liq, index).value;
      && r.cumulative == st.cumulative + InvestedOn(invs, liq.date)
      && r.previous == liq.amount
      && r.dates == st.dates + [liq.date]
      && r.differences == st.differences + [liq.amount - r.cumulative]
      && r.steps == st.steps
           + [if index == 0 then First else Later(liq.amount - (st.previous + InvestedOn(invs, liq.date)), st.previous)]
  {
    if !HasInvestmentOn(invs, liq.date) {
      NoInvestmentOn(invs, liq.date);
    }
  }

  /** The running total and, index by index, the dates, differences and
      steps of the scan. */
  lemma {:induction false} ScanEntries(obs: seq<Liquidity>, invs: seq<Investment>, baseline: real, n: nat)
    requires n <= |obs|
    requires Scan(obs, invs, baseline, n).Success?
    ensures var st := Scan(obs, invs, baseline, n).value;
      && st.cumulative == baseline + AddedBy(obs, invs, n)
      && (forall i :: 0 <= i < n ==> st.dates[i] == obs[i].date)
      && (forall i :: 0 <= i < n ==> st.differences[i] == obs[i].amount - (baseline + AddedBy(obs, invs, i + 1)))
      && (forall i :: 0 <= i < n ==> st.steps[i] == ExpectedStep(obs, invs, i))
  {
    if n > 0 {
      var prev := Scan(obs, invs, baseline, n - 1);
      assert prev.Success?;
      var st := Scan(obs, invs, baseline, n).value;
      assert st == ScanStep(invs, prev.value, obs[n - 1], n - 1).value;
      ScanEntries(obs, invs, baseline, n - 1);
      ScanStepSucceeds(invs, prev.value, obs[n - 1], n - 1);
      EntriesStep(obs, invs, baseline, n, prev.value, st);
    }
  }

  /** One more iteration extends the entries of the first `n - 1`
      observations by those of observation `n - 1`. */
  lemma EntriesStep(obs: seq<Liquidity>, invs: seq<Investment>, baseline: real, n: nat, prev: ScanState, st: ScanState)
    requires 0 < n <= |obs|
    requires |prev.dates| == n - 1 && |prev.differences| == n - 1 && |prev.steps| == n - 1
    requires n > 1 ==> prev.previous == obs[n - 2].amount
    requires prev.cumulative == baseline + AddedBy(obs, invs, n - 1)
    requires forall i :: 0 <= i < n - 1 ==> prev.dates[i] == obs[i].date
    requires forall i :: 0 <= i < n - 1 ==> prev.differences[i] == obs[i].amount - (baseline + AddedBy(obs, invs, i + 1))
    requires forall i :: 0 <= i < n - 1 ==> prev.steps[i] == ExpectedStep(obs, invs, i)
    requires st.cumulative == prev.cumulative + InvestedOn(invs, obs[n - 1].date)
    requires st.dates == prev.dates + [obs[n - 1].date]
    requires st.differences == prev.differences + [obs[n - 1].amount - st.cumulative]
    requires st.steps == prev.steps
      + [if n - 1 == 0 then First
         else Later(obs[n - 1].amount - (prev.previous + InvestedOn(invs, obs[n - 1].date)), prev.previous)]
    ensures st.cumulative == baseline + AddedBy(obs, invs, n)
    ensures forall i :: 0 <= i < n ==> st.dates[i] == obs[i].date
    ensures forall i :: 0 <= i < n ==> st.differences[i] == obs[i].amount - (baseline + AddedBy(obs, invs, i + 1))
    ensures forall i :: 0 <= i < n ==> st.steps[i] == ExpectedStep(obs, invs, i)
  {
    DatesStep(obs, n, prev.dates, st.dates);
    DifferencesStep(obs, invs, baseline, n, prev.differences, st.cumulative, st.differences);
    StepsStep(obs, invs, n, prev.steps, st.steps[n - 1], st.steps);
  }

  lemma DatesStep(obs: seq<Liquidity>, n: nat, prev: seq<DateOnly>, dates: seq<DateOnly>)
    requires 0 < n <= |obs| && |prev| == n - 1
    requires forall i :: 0 <= i < n - 1 ==> prev[i] == obs[i].date
    requires dates == prev + [obs[n - 1].date]
    ensures forall i :: 0 <= i < n ==> dates[i] == obs[i].date
  {
    forall i | 0 <= i < n - 1 ensures dates[i] == prev[i] {
    }
  }

  lemma DifferencesStep(obs: seq<Liquidity>, invs: seq<Investment>, baseline: real, n: nat,
                        prev: seq<real>, cumulative: real, diffs: seq<real>)
    requires 0 < n <= |obs| && |prev| == n - 1
    requires forall i :: 0 <= i < n - 1 ==> prev[i] == obs[i].amount - (baseline + AddedBy(obs, invs, i + 1))
    requires cumulative == baseline + AddedBy(obs, invs, n)
    requires diffs == prev + [obs[n - 1].amount - cumulative]
    ensures forall i :: 0 <= i < n ==> diffs[i] == obs[i].amount - (baseline + AddedBy(obs, invs, i + 1))
  {
    forall i | 0 <= i < n - 1 ensures diffs[i] == prev[i] {
    }
  }

  lemma StepsStep(obs: seq<Liquidity>, invs: seq<Investment>, n: nat, prev: seq<Step>, last: Step, steps: seq<Step>)
    requires 0 < n <= |obs| && |prev| == n - 1
    requires forall i :: 0 <= i < n - 1 ==> prev[i] == ExpectedStep(obs, invs, i)
    requires last == ExpectedStep(obs, invs, n - 1)
    requires steps == prev + [last]
    ensures forall i :: 0 <= i < n ==> steps[i] == ExpectedStep(obs, invs, i)
  {
    forall i | 0 <= i < n - 1 ensures steps[i] == prev[i] {
    }
  }

  /** Two investment lists with the same per-date facts for `liq`'s date
      give the same iteration. */
  lemma ScanStepSameTotals(a: seq<Investment>, b: seq<Investment>, st: ScanState, liq: Liquidity, index: nat)
    requires HasInvestmentOn(a, liq.date) == HasInvestmentOn(b, liq.date)
    requires InvestedOn(a, liq.date) == InvestedOn(b, liq.date)
    ensures ScanStep(a, st, liq, index) == ScanStep(b, st, liq, index)
  {
  }

  /** The scan reads the investments only through the per-date totals of
      the observations' dates. */
  lemma {:induction false} ScanSameTotals(obs: seq<Liquidity>, a: seq<Investment>, b: seq<Investment>, baseline: real, n: nat)
    requires n <= |obs|
    requires forall i :: 0 <= i < n ==> HasInvestmentOn(a, obs[i].date) == HasInvestmentOn(b, obs[i].date)
    requires forall i :: 0 <= i < n ==> InvestedOn(a, obs[i].date) == InvestedOn(b, obs[i].date)
    ensures Scan(obs, a, baseline, n) == Scan(obs, b, baseline, n)
  {
    if n > 0 {
      ScanSameTotals(obs, a, b, baseline, n - 1);
      var prev := Scan(obs, a, baseline, n - 1);
      if prev.Success? {
        ScanStepSameTotals(a, b, prev.value, obs[n - 1], n - 1);
      }
    }
  }

  // ---------------------------------------------------------------------
  // The report
  // ---------------------------------------------------------------------

  function Mean(xs: seq<real>): real
    requires |xs| > 0
  {
    Sum(xs) / |xs| as real
  }

  /** `cumulativeInvestment` before the scan: the earlier years' exit
      investments for the whole year, otherwise everything invested up to
      and including the 1st of the month. */
  function Baseline(month: int, invs: seq<Investment>, priorExit: real, start: DateOnly): real
  {
    if month == 0 then priorExit else InvestedUpTo(invs, start)
  }

  /** `ToString("yyyy-MM-dd")` of each date. */
  function DateLabels(dates: seq<DateOnly>): (r: seq<string>)
    ensures |r| == |dates| && forall i :: 0 <= i < |dates| ==> r[i] == IsoString(dates[i])
  {
    seq(|dates|, i requires 0 <= i < |dates| => IsoString(dates[i]))
  }

  /** The percentages the steps stand for. */
  function Percentages(steps: seq<Step>): (r: seq<real>)
    requires Divisible(steps)
    ensures |r| == |steps| && forall i :: 0 <= i < |steps| ==> r[i] == PercentOf(steps[i])
  {
    seq(|steps|, i requires 0 <= i < |steps| => PercentOf(steps[i]))
  }

  /** The report built from the finished scan: the growth rate is the mean
      percentage rounded to cents, the projections extend the last
      observation linearly; with no observation, `new ChartData()`. */
  function Assemble(obs: seq<Liquidity>, st: ScanState): ChartData
    requires Divisible(st.steps)
  {
    var percentage := Percentages(st.steps);
    var rate := if |percentage| != 0 then Round2(Mean(percentage)) else 0.0;
    if |obs| != 0 then
      var last := obs[|obs| - 1].amount;
      ChartData(DateLabels(st.dates), st.differences, percentage, rate,
                last + rate * 7.0, last + rate * 30.0, last + rate * 365.0)
    else EmptyChart
  }

  /** The body of `GetChartData` after the year's records and the earlier
      years' exit total are loaded. */
  function ChartReport(year: int, month: int, invs: seq<Investment>, liqs: seq<Liquidity>, priorExit: real): (r: Result<ChartData, ChartError>)
    ensures ChartRange(year, month).Failure? ==> r == Failure(DateOutOfRange)
    ensures r.Success? ==> ChartRange(year, month).Success?
    ensures r.Success? ==> |r.value.labels| == |InRange(liqs, ChartRange(year, month).value.0, ChartRange(year, month).value.1)|
    ensures r.Success? ==> |r.value.differences| == |r.value.labels| && |r.value.percentage| == |r.value.labels|
  {
    match ChartRange(year, month)
    case Failure(e) => Failure(e)
    case Success(range) =>
      var obs := Observations(liqs, range.0, range.1);
      match Scan(obs, invs, Baseline(month, invs, priorExit, range.0), |obs|)
      case Failure(e) => Failure(e)
      case Success(st) => Success(Assemble(obs, st))
  }

  /** The observations a servable request selects, in report order. */
  function Selected(year: int, month: int, liqs: seq<Liquidity>): seq<Liquidity>
    requires ChartRange(year, month).Success?
  {
    Observations(liqs, ChartRange(year, month).value.0, ChartRange(year, month).value.1)
  }

  /** The running total a servable request starts from. */
  function StartTotal(year: int, month: int, invs: seq<Investment>, priorExit: real): real
    requires ChartRange(year, month).Success?
  {
    Baseline(month, invs, priorExit, ChartRange(year, month).value.0)
  }

  /** A successful report is the assembled result of a successful scan of
      the selected observations. */
  lemma ReportFromScan(year: int, month: int, invs: seq<Investment>, liqs: seq<Liquidity>, priorExit: real)
    requires ChartReport(year, month, invs, liqs, priorExit).Success?
    ensures var obs := Selected(year, month, liqs);
      && Scan(obs, invs, StartTotal(year, month, invs, priorExit), |obs|).Success?
      && ChartReport(year, month, invs, liqs, priorExit).value
           == Assemble(obs, Scan(obs, invs, StartTotal(year, month, invs, priorExit), |obs|).value)
  {
  }

  /** The selected observations are exactly the stored ones dated in the
      requested year (month 0) or month, ordered by date. */
  lemma SelectedMeaning(year: int, month: int, liqs: seq<Liquidity>)
    requires ChartRange(year, month).Success?
    ensures forall i, j :: 0 <= i < j < |Selected(year, month, liqs)| ==>
              OnOrBefore(Selected(year, month, liqs)[i].date, Selected(year, month, liqs)[j].date)
    ensures forall x: Liquidity :: multiset(Selected(year, month, liqs))[x]
              == if x.date.year == year && (month == 0 || x.date.month == month) then multiset(liqs)[x] else 0
    ensures forall d: DateOnly :: OnDate(Selected(year, month, liqs), d)
              == if d.year == year && (month == 0 || d.month == month) then OnDate(liqs, d) else []
  {
    forall x: Liquidity ensures Within(x.date, ChartRange(year, month).value.0, ChartRange(year, month).value.1)
                     <==> x.date.year == year && (month == 0 || x.date.month == month) {
      ChartRangeSelects(year, month, x.date);
    }
    forall d: DateOnly ensures OnDate(Selected(year, month, liqs), d)
              == if d.year == year && (month == 0 || d.month == month) then OnDate(liqs, d) else [] {
      ChartRangeSelects(year, month, d);
      ObservationsKeepOrder(liqs, ChartRange(year, month).value.0, ChartRange(year, month).value.1, d);
    }
  }

  /** One label per selected observation: its date as `yyyy-MM-dd`. */
  lemma ReportLabels(year: int, month: int, invs: seq<Investment>, liqs: seq<Liquidity>, priorExit: real)
    requires ChartReport(year, month, invs, liqs, priorExit).Success?
    ensures |ChartReport(year, month, invs, liqs, priorExit).value.labels| == |Selected(year, month, liqs)|
    ensures forall i :: 0 <= i < |Selected(year, month, liqs)| ==>
              ChartReport(year, month, invs, liqs, priorExit).value.labels[i] == IsoString(Selected(year, month, liqs)[i].date)
  {
    var obs := Selected(year, month, liqs);
    ReportFromScan(year, month, invs, liqs, priorExit);
    ScanEntries(obs, invs, StartTotal(year, month, invs, priorExit), |obs|);
  }

  /** Each difference is the observed value minus the starting total and
      the per-date investment totals of the observations so far. */
  lemma ReportDifferences(year: int, month: int, invs: seq<Investment>, liqs: seq<Liquidity>, priorExit: real)
    requires ChartReport(year, month, invs, liqs, priorExit).Success?
    ensures |ChartReport(year, month, invs, liqs, priorExit).value.differences| == |Selected(year, month, liqs)|
    ensures forall i :: 0 <= i < |Selected(year, month, liqs)| ==>
              ChartReport(year, month, invs, liqs, priorExit).value.differences[i]
                == Selected(year, month, liqs)[i].amount
                   - (StartTotal(year, month, invs, priorExit) + AddedBy(Selected(year, month, liqs), invs, i + 1))
  {
    var obs := Selected(year, month, liqs);
    ReportFromScan(year, month, invs, liqs, priorExit);
    ScanEntries(obs, invs, StartTotal(year, month, invs, priorExit), |obs|);
  }

  /** The first percentage is 0, every later one is the organic growth
      since the previous observation, whose amount is not 0. */
  lemma ReportPercentages(year: int, month: int, invs: seq<Investment>, liqs: seq<Liquidity>, priorExit: real)
    requires ChartReport(year, month, invs, liqs, priorExit).Success?
    ensures |ChartReport(year, month, invs, liqs, priorExit).value.percentage| == |Selected(year, month, liqs)|
    ensures |Selected(year, month, liqs)| > 0 ==> ChartReport(year, month, invs, liqs, priorExit).value.percentage[0] == 0.0
    ensures forall i :: 0 <= i < |Selected(year, month, liqs)| - 1 ==> Selected(year, month, liqs)[i].amount != 0.0
    ensures forall i :: 0 < i < |Selected(year, month, liqs)| ==>
              ChartReport(year, month, invs, liqs, priorExit).value.percentage[i] == Growth(Selected(year, month, liqs), invs, i)
  {
    var obs := Selected(year, month, liqs);
    ReportSteps(year, month, invs, liqs, priorExit);
    ScanFails(obs, invs, StartTotal(year, month, invs, priorExit), |obs|);
    var steps := Scan(obs, invs, StartTotal(year, month, invs, priorExit), |obs|).value.steps;
    PercentagesGrowth(obs, invs, steps);
  }

  /** Steps that are the expected ones give, from the second on, the growth
      between consecutive observations. */
  lemma PercentagesGrowth(obs: seq<Liquidity>, invs: seq<Investment>, steps: seq<Step>)
    requires |steps| == |obs| && Divisible(steps)
    requires forall i :: 0 <= i < |obs| - 1 ==> obs[i].amount != 0.0
    requires forall i :: 0 <= i < |obs| ==> steps[i] == ExpectedStep(obs, invs, i)
    ensures forall i :: 0 < i < |obs| ==> Percentages(steps)[i] == Growth(obs, invs, i)
  {
    forall i | 0 < i < |obs|
      ensures Percentages(steps)[i] == Growth(obs, invs, i)
    {
      StepPercent(obs, invs, i);
    }
  }

  /** The report's percentages are those of the scan's steps, and each step
      is the one its observation should contribute. */
  lemma ReportSteps(year: int, month: int, invs: seq<Investment>, liqs: seq<Liquidity>, priorExit: real)
    requires ChartReport(year, month, invs, liqs, priorExit).Success?
    ensures Scan(Selected(year, month, liqs), invs, StartTotal(year, month, invs, priorExit), |Selected(year, month, liqs)|).Success?
    ensures var obs := Selected(year, month, liqs);
            var steps := Scan(obs, invs, StartTotal(year, month, invs, priorExit), |obs|).value.steps;
            && ChartReport(year, month, invs, liqs, priorExit).value.percentage == Percentages(steps)
            && forall i :: 0 <= i < |obs| ==> steps[i] == ExpectedStep(obs, invs, i)
  {
    var obs := Selected(year, month, liqs);
    var st := Scan(obs, invs, StartTotal(year, month, invs, priorExit), |obs|);
    ReportFromScan(year, month, invs, liqs, priorExit);
    AssembleLists(obs, st.value);
    ScanEntries(obs, invs, StartTotal(year, month, invs, priorExit), |obs|);
  }

  lemma StepPercent(obs: seq<Liquidity>, invs: seq<Investment>, i: nat)
    requires 0 < i < |obs| && obs[i - 1].amount != 0.0
    ensures PercentOf(ExpectedStep(obs, invs, i)) == Growth(obs, invs, i)
  {
  }

  /** The lists of an assembled report come straight from the scan. */
  lemma AssembleLists(obs: seq<Liquidity>, st: ScanState)
    requires Divisible(st.steps)
    requires |st.dates| == |obs| && |st.differences| == |obs| && |st.steps| == |obs|
    ensures Assemble(obs, st).labels == DateLabels(st.dates)
    ensures Assemble(obs, st).differences == st.differences
    ensures Assemble(obs, st).percentage == Percentages(st.steps)
  {
  }

  /** The scalars: the mean percentage rounded to cents with ties to even,
      and the last observation plus 7, 30 and 365 times that rate; with no
      observation selected, the empty report. */
  lemma ReportScalars(year: int, month: int, invs: seq<Investment>, liqs: seq<Liquidity>, priorExit: real)
    requires ChartReport(year, month, invs, liqs, priorExit).Success?
    ensures |Selected(year, month, liqs)| == 0 <==> ChartReport(year, month, invs, liqs, priorExit).value == EmptyChart
    ensures var r: ChartData := ChartReport(year, month, invs, liqs, priorExit).value;
      var obs := Selected(year, month, liqs);
      |obs| > 0 ==>
        && r.dailyGrowthRate == Round2(Mean(r.percentage))
        && r.projectedWeek == obs[|obs| - 1].amount + r.dailyGrowthRate * 7.0
        && r.projectedMonth == obs[|obs| - 1].amount + r.dailyGrowthRate * 30.0
        && r.projectedYear == obs[|obs| - 1].amount + r.dailyGrowthRate * 365.0
  {
    ReportFromScan(year, month, invs, liqs, priorExit);
  }

  /** Apart from a range `DateOnly` cannot build, the report fails exactly
      when a selected observation other than the last has amount 0. */
  lemma ReportFails(year: int, month: int, invs: seq<Investment>, liqs: seq<Liquidity>, priorExit: real)
    requires ChartRange(year, month).Success?
    ensures ChartReport(year, month, invs, liqs, priorExit).Failure?
            <==> exists i :: 0 <= i < |Selected(year, month, liqs)| - 1 && Selected(year, month, liqs)[i].amount == 0.0
    ensures ChartReport(year, month, invs, liqs, priorExit).Failure? ==>
            ChartReport(year, month, invs, liqs, priorExit).error == DivideByZero
  {
    var obs := Selected(year, month, liqs);
    ScanFails(obs, invs, StartTotal(year, month, invs, priorExit), |obs|);
  }

  /** In month mode an observation on the 1st counts that day's investments
      twice: once in the starting total (dated on or before the 1st) and
      once more when the scan reaches it. */
  lemma FirstOfMonthCountedTwice(year: int, month: int, invs: seq<Investment>, liqs: seq<Liquidity>, priorExit: real)
    requires month != 0
    requires ChartReport(year, month, invs, liqs, priorExit).Success?
    requires |Selected(year, month, liqs)| > 0 && Selected(year, month, liqs)[0].date == FirstOfMonth(year, month)
    ensures ChartReport(year, month, invs, liqs, priorExit).value.differences[0]
            == Selected(year, month, liqs)[0].amount
               - (InvestedUpTo(invs, FirstOfMonth(year, month)) + InvestedOn(invs, FirstOfMonth(year, month)))
  {
    var obs := Selected(year, month, liqs);
    ReportDifferences(year, month, invs, liqs, priorExit);
    assert AddedBy(obs, invs, 1) == InvestedOn(invs, obs[0].date);
    assert StartTotal(year, month, invs, priorExit) == InvestedUpTo(invs, FirstOfMonth(year, month));
  }

  /** An investment on a date with no liquidity record never reaches the
      report, unless month mode folds it into the starting total (dated on
      or before the 1st). */
  lemma UnobservedInvestmentIgnored(year: int, month: int, invs: seq<Investment>, x: Investment, liqs: seq<Liquidity>, priorExit: real)
    requires forall i :: 0 <= i < |liqs| ==> liqs[i].date != x.date
    requires month != 0 ==> !OnOrBefore(x.date, FirstOfMonth(year, month))
    ensures ChartReport(year, month, invs + [x], liqs, priorExit) == ChartReport(year, month, invs, liqs, priorExit)
  {
    if ChartRange(year, month).Success? {
      var obs := Selected(year, month, liqs);
      forall i | 0 <= i < |obs|
        ensures HasInvestmentOn(invs + [x], obs[i].date) == HasInvestmentOn(invs, obs[i].date)
        ensures InvestedOn(invs + [x], obs[i].date) == InvestedOn(invs, obs[i].date)
      {
        SelectedStored(year, month, liqs, i);
        AppendOffDate(invs, x, obs[i].date);
      }
      InvestedWhereAppend(invs, x, UpTo(ChartRange(year, month).value.0));
      assert StartTotal(year, month, invs + [x], priorExit) == StartTotal(year, month, invs, priorExit);
      ScanSameTotals(obs, invs + [x], invs, StartTotal(year, month, invs, priorExit), |obs|);
    }
  }

  /** Every selected observation is a stored one. */
  lemma SelectedStored(year: int, month: int, liqs: seq<Liquidity>, i: nat)
    requires ChartRange(year, month).Success?
    requires i < |Selected(year, month, liqs)|
    ensures Selected(year, month, liqs)[i] in liqs
  {
    var obs := Selected(year, month, liqs);
    assert obs[i] in multiset(obs);
  }

  /** An investment on another date changes no per-date fact of `d`. */
  lemma AppendOffDate(invs: seq<Investment>, x: Investment, d: DateOnly)
    requires x.date != d
    ensures HasInvestmentOn(invs + [x], d) == HasInvestmentOn(invs, d)
    ensures InvestedOn(invs + [x], d) == InvestedOn(invs, d)
  {
    InvestedWhereAppend(invs, x, SameDay(d));
    if HasInvestmentOn(invs + [x], d) {
      var k :| 0 <= k < |invs + [x]| && (invs + [x])[k].date == d;
      assert k < |invs| && invs[k].date == d;
    }
    if HasInvestmentOn(invs, d) {
      var k :| 0 <= k < |invs| && invs[k].date == d;
      assert (invs + [x])[k] == invs[k];
    }
  }

  /** The report does not depend on the order in which the records are
      stored, as long as no two liquidity records share a date (which the
      liquidity write path maintains). */
  lemma ReportIgnoresStorageOrder(year: int, month: int, invs1: seq<Investment>, invs2: seq<Investment>,
                                  liqs1: seq<Liquidity>, liqs2: seq<Liquidity>, priorExit: real)
    requires multiset(invs1) == multiset(invs2) && multiset(liqs1) == multiset(liqs2)
    requires DistinctDates(liqs1)
    ensures ChartReport(year, month, invs1, liqs1, priorExit) == ChartReport(year, month, invs2, liqs2, priorExit)
  {
    if ChartRange(year, month).Success? {
      var obs1 := Selected(year, month, liqs1);
      SelectedIgnoresStorageOrder(year, month, liqs1, liqs2);
      forall i | 0 <= i < |obs1|
        ensures HasInvestmentOn(invs1, obs1[i].date) == HasInvestmentOn(invs2, obs1[i].date)
        ensures InvestedOn(invs1, obs1[i].date) == InvestedOn(invs2, obs1[i].date)
      {
        InvestedWherePermutation(invs1, invs2, SameDay(obs1[i].date));
        if HasInvestmentOn(invs1, obs1[i].date) {
          var k :| 0 <= k < |invs1| && invs1[k].date == obs1[i].date;
          assert invs1[k] in multiset(invs2);
        }
        if HasInvestmentOn(invs2, obs1[i].date) {
          var k :| 0 <= k < |invs2| && invs2[k].date == obs1[i].date;
          assert invs2[k] in multiset(invs1);
        }
      }
      InvestedWherePermutation(invs1, invs2, UpTo(ChartRange(year, month).value.0));
      assert StartTotal(year, month, invs1, priorExit) == StartTotal(year, month, invs2, priorExit);
      ScanSameTotals(obs1, invs1, invs2, StartTotal(year, month, invs1, priorExit), |obs1|);
    }
  }

  lemma SelectedIgnoresStorageOrder(year: int, month: int, liqs1: seq<Liquidity>, liqs2: seq<Liquidity>)
    requires ChartRange(year, month).Success?
    requires multiset(liqs1) == multiset(liqs2) && DistinctDates(liqs1)
    ensures Selected(year, month, liqs1) == Selected(year, month, liqs2)
  {
    var obs1 := Selected(year, month, liqs1);
    var obs2 := Selected(year, month, liqs2);
    assert multiset(obs1) == multiset(obs2) by {
      forall x ensures multiset(obs1)[x] == multiset(obs2)[x] { }
    }
    assert multiset(obs1) <= multiset(liqs1) by {
      forall x ensures multiset(obs1)[x] <= multiset(liqs1)[x] { }
    }
    DistinctDatesSubset(obs1, liqs1);
    SortedUnique(obs1, obs2);
  }

  // ---------------------------------------------------------------------
  // The controller action
  // ---------------------------------------------------------------------

  /** `LoadAllYearExitInvestment(year, userId)`: the sum of `ExitInvestment`
      over the caller's rows for earlier years. */
  function PriorExitInvestment(rows: seq<YearData>, user: UserId, year: int): (r: real)
    ensures (forall k :: 0 <= k < |rows| ==> !EarlierOf(rows[k], user, year)) ==> r == 0.0
  {
    if |rows| == 0 then 0.0
    else
      var last := rows[|rows| - 1];
      PriorExitInvestment(rows[..|rows| - 1], user, year)
        + (if EarlierOf(last, user, year) then last.exitInvestment else 0.0)
  }

  /** The rows `LoadAllYearExitInvestment` selects: the caller's, for an
      earlier year. */
  predicate EarlierOf(row: YearData, user: UserId, year: int) {
    row.owner == user && row.year < year
  }

  /** The earlier-years total of two lists of rows together is the sum of
      their totals. */
  lemma {:induction false} PriorExitConcat(a: seq<YearData>, b: seq<YearData>, user: UserId, year: int)
    ensures PriorExitInvestment(a + b, user, year) == PriorExitInvestment(a, user, year) + PriorExitInvestment(b, user, year)
    decreases |b|
  {
    if |b| == 0 {
      assert a + b == a;
    } else {
      var init := b[..|b| - 1];
      assert a + b == (a + init) + [b[|b| - 1]];
      PriorExitConcat(a, init, user, year);
      PriorExitAppend(a + init, b[|b| - 1], user, year);
      PriorExitAppend(init, b[|b| - 1], user, year);
      assert init + [b[|b| - 1]] == b;
    }
  }

  /** Taking one row out lowers the total by what that row contributed. */
  lemma PriorExitRemoveAt(rows: seq<YearData>, k: nat, user: UserId, year: int)
    requires k < |rows|
    ensures PriorExitInvestment(rows, user, year)
            == PriorExitInvestment(RemoveAt(rows, k), user, year)
               + (if EarlierOf(rows[k], user, year) then rows[k].exitInvestment else 0.0)
  {
    assert rows == rows[..k] + ([rows[k]] + rows[k + 1..]);
    PriorExitConcat(rows[..k], [rows[k]] + rows[k + 1..], user, year);
    PriorExitConcat([rows[k]], rows[k + 1..], user, year);
    PriorExitConcat(rows[..k], rows[k + 1..], user, year);
    assert [rows[k]] == [] + [rows[k]];
    PriorExitAppend([], rows[k], user, year);
  }

  /** The earlier-years total depends on which rows the table holds, not on
      the order the query returns them in. */
  lemma {:induction false} PriorExitPermutation(a: seq<YearData>, b: seq<YearData>, user: UserId, year: int)
    requires multiset(a) == multiset(b)
    ensures PriorExitInvestment(a, user, year) == PriorExitInvestment(b, user, year)
    decreases |a|
  {
    if |a| > 0 {
      assert a[0] in multiset(b);
      var j :| 0 <= j < |b| && b[j] == a[0];
      RemoveAtMultiset(b, j);
      MultisetTail(a);
      PriorExitPermutation(a[1..], RemoveAt(b, j), user, year);
      PriorExitRemoveAt(a, 0, user, year);
      assert RemoveAt(a, 0) == a[1..];
      PriorExitRemoveAt(b, j, user, year);
    } else {
      assert |b| == |multiset(b)| == 0;
    }
  }

  /** Changing one row's `ExitInvestment` moves the earlier-years total of
      every later year of its owner by the change, and of no other year. */
  lemma {:induction false} PriorExitAfterUpdate(rows: seq<YearData>, k: nat, row: YearData, user: UserId, year: int)
    requires k < |rows|
    requires row.owner == rows[k].owner && row.year == rows[k].year
    ensures PriorExitInvestment(rows[k := row], user, year)
            == PriorExitInvestment(rows, user, year)
               + (if row.owner == user && row.year < year then row.exitInvestment - rows[k].exitInvestment else 0.0)
    decreases |rows|
  {
    var n := |rows|;
    if k < n - 1 {
      assert rows[k := row][..n - 1] == rows[..n - 1][k := row];
      PriorExitAfterUpdate(rows[..n - 1], k, row, user, year);
    } else {
      assert rows[k := row][..n - 1] == rows[..n - 1];
    }
  }

  lemma {:induction false} PriorExitAppend(rows: seq<YearData>, row: YearData, user: UserId, year: int)
    ensures PriorExitInvestment(rows + [row], user, year)
            == PriorExitInvestment(rows, user, year) + (if row.owner == user && row.year < year then row.exitInvestment else 0.0)
  {
    assert (rows + [row])[..|rows|] == rows;
  }

  /** `GetChartData(year, month)` for the caller `user`. */
  function GetChartData(db: Db, user: Option<UserId>, year: int, month: int): (r: Result<ChartData, ChartError>)
    ensures user.None? ==> r == Failure(ChartError.Unauthorized)
    ensures user.Some? && FindYear(db.rows, user, year).None? ==> r == Failure(YearNotFound)
    ensures user.Some? && FindYear(db.rows, user, year).Some? ==>
      var row := db.rows[FindYear(db.rows, user, year).value];
      r == ChartReport(year, month, row.investments, row.liquidities, PriorExitInvestment(db.rows, user.value, year))
  {
    if user.None? then Failure(ChartError.Unauthorized)
    else match FindYear(db.rows, user, year)
      case None => Failure(YearNotFound)
      case Some(k) =>
        var row := db.rows[k];
        ChartReport(year, month, row.investments, row.liquidities, PriorExitInvestment(db.rows, user.value, year))
  }
}
