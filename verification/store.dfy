/** The database behind the controllers, as a value: the `YearData` rows
    in table order (each with its investments and liquidities) and the next
    autoincrement key. Queries become pure lookups, `SaveChangesAsync`
    becomes returning the updated value. */
module Store {
  import opened Results
  import opened Calendar
  import opened Records
  import opened Text

  type UserId = string

  /** One `YearData` row: its key, its year, the owning user, the year's
      records, and the running totals `ExitInvestment` / `ExitLiquidity`. */
  datatype YearData = YearData(
    id: int,
    year: int,
    owner: UserId,
    investments: seq<Investment>,
    liquidities: seq<Liquidity>,
    exitInvestment: real,
    exitLiquidity: real)

  datatype Db = Db(rows: seq<YearData>, nextId: int)

  /** `y.ApplicationUserId == userId`, where a missing (null) user id
      matches no row, since every row has an owner. */
  predicate Owns(user: Option<UserId>, row: YearData) {
    user.Some? && row.owner == user.value
  }

  predicate IsYearOf(user: Option<UserId>, year: int, row: YearData) {
    Owns(user, row) && row.year == year
  }

  /** `FirstOrDefaultAsync(y => y.Year == year && y.ApplicationUserId == userId)`. */
  function FindYear(rows: seq<YearData>, user: Option<UserId>, year: int): (r: Option<nat>)
    ensures r.Some? ==> r.value < |rows| && IsYearOf(user, year, rows[r.value])
    ensures r.Some? ==> forall j :: 0 <= j < r.value ==> !IsYearOf(user, year, rows[j])
    ensures r.None? <==> forall j :: 0 <= j < |rows| ==> !IsYearOf(user, year, rows[j])
  {
    FirstIndex(rows, row => IsYearOf(user, year, row))
  }

  /** `FirstOrDefaultAsync(y => y.Id == id && y.ApplicationUserId == userId)`. */
  function FindById(rows: seq<YearData>, user: Option<UserId>, id: int): (r: Option<nat>)
    ensures r.Some? ==> r.value < |rows| && Owns(user, rows[r.value]) && rows[r.value].id == id
    ensures r.None? <==> forall j :: 0 <= j < |rows| ==> !(Owns(user, rows[j]) && rows[j].id == id)
  {
    FirstIndex(rows, row => Owns(user, row) && row.id == id)
  }

  function UpdateRow(db: Db, k: nat, row: YearData): Db
    requires k < |db.rows|
  {
    db.(rows := db.rows[k := row])
  }

  /** `after` differs from `before` at most in row `k`, and that row keeps
      its key, year and owner: the frame of every write to one year. */
  predicate OnlyRowChanged(before: Db, after: Db, k: nat) {
    && k < |before.rows|
    && after.nextId == before.nextId
    && |after.rows| == |before.rows|
    && after.rows[k].id == before.rows[k].id
    && after.rows[k].year == before.rows[k].year
    && after.rows[k].owner == before.rows[k].owner
    && forall j :: 0 <= j < |before.rows| && j != k ==> after.rows[j] == before.rows[j]
  }

  /** The write paths keep `ExitInvestment` equal to the year's investment total. */
  predicate ExitInvestmentConsistent(row: YearData) {
    row.exitInvestment == Invested(row.investments)
  }

  /** The write paths keep `ExitLiquidity` equal to the year's liquidity total. */
  predicate ExitLiquidityConsistent(row: YearData) {
    row.exitLiquidity == Liquid(row.liquidities)
  }

  /** Each user holds at most one row per year. */
  predicate OneRowPerYear(rows: seq<YearData>) {
    forall i, j :: 0 <= i < j < |rows| ==> !(rows[i].owner == rows[j].owner && rows[i].year == rows[j].year)
  }

  /** How many rows of `user` are for `year`. */
  function RowsFor(rows: seq<YearData>, user: Option<UserId>, year: int): nat
  {
    if |rows| == 0 then 0
    else RowsFor(rows[..|rows| - 1], user, year) + (if IsYearOf(user, year, rows[|rows| - 1]) then 1 else 0)
  }

  lemma {:induction false} RowsForAppend(rows: seq<YearData>, row: YearData, user: Option<UserId>, year: int)
    ensures RowsFor(rows + [row], user, year) == RowsFor(rows, user, year) + (if IsYearOf(user, year, row) then 1 else 0)
  {
    assert (rows + [row])[..|rows|] == rows;
  }

  lemma {:induction false} RowsForZero(rows: seq<YearData>, user: Option<UserId>, year: int)
    ensures RowsFor(rows, user, year) == 0 <==> FindYear(rows, user, year).None?
    decreases |rows|
  {
    if |rows| > 0 {
      RowsForZero(rows[..|rows| - 1], user, year);
      assert forall j :: 0 <= j < |rows| - 1 ==> rows[..|rows| - 1][j] == rows[j];
    }
  }

  lemma {:induction false} RowsForRemoveAt(rows: seq<YearData>, k: nat, user: Option<UserId>, year: int)
    requires k < |rows|
    ensures RowsFor(RemoveAt(rows, k), user, year)
            == RowsFor(rows, user, year) - (if IsYearOf(user, year, rows[k]) then 1 else 0)
    decreases |rows|
  {
    var n := |rows|;
    if k == n - 1 {
      assert RemoveAt(rows, k) == rows[..n - 1];
    } else {
      RemoveAtSnoc(rows, k);
      RowsForAppend(RemoveAt(rows[..n - 1], k), rows[n - 1], user, year);
      RowsForRemoveAt(rows[..n - 1], k, user, year);
      assert rows[..n - 1][k] == rows[k];
    }
  }

  /** The rows of `user`, in table order (`Where(y => y.ApplicationUserId == userId)`). */
  function OwnedRows(rows: seq<YearData>, user: Option<UserId>): (r: seq<YearData>)
    ensures forall x :: multiset(r)[x] == if Owns(user, x) then multiset(rows)[x] else 0
  {
    if |rows| == 0 then []
    else
      var init := rows[..|rows| - 1];
      var last := rows[|rows| - 1];
      assert rows == init + [last];
      OwnedRows(init, user) + (if Owns(user, last) then [last] else [])
  }

  /** A missing user id owns nothing. */
  lemma {:induction false} OwnedRowsNone(rows: seq<YearData>)
    ensures OwnedRows(rows, None) == []
    decreases |rows|
  {
    if |rows| > 0 {
      OwnedRowsNone(rows[..|rows| - 1]);
    }
  }

  function Years(rows: seq<YearData>): (r: seq<int>)
    ensures |r| == |rows| && forall i :: 0 <= i < |rows| ==> r[i] == rows[i].year
  {
    seq(|rows|, i requires 0 <= i < |rows| => rows[i].year)
  }

  predicate Ascending(xs: seq<int>) {
    forall i, j :: 0 <= i < j < |xs| ==> xs[i] <= xs[j]
  }

  function InsertInt(x: int, xs: seq<int>): (r: seq<int>)
    requires Ascending(xs)
    ensures Ascending(r) && multiset(r) == multiset(xs) + multiset{x}
    ensures |r| == |xs| + 1
  {
    if |xs| == 0 || x <= xs[0] then
      InsertIntFront(x, xs);
      [x] + xs
    else
      var rest := InsertInt(x, xs[1..]);
      InsertIntStep(x, xs, rest);
      [xs[0]] + rest
  }

  lemma InsertIntFront(x: int, xs: seq<int>)
    requires Ascending(xs) && (|xs| == 0 || x <= xs[0])
    ensures Ascending([x] + xs) && multiset([x] + xs) == multiset(xs) + multiset{x}
  {
    var r := [x] + xs;
    forall i, j | 0 <= i < j < |r| ensures r[i] <= r[j] {
      assert r[j] == xs[j - 1];
      if i > 0 {
        assert r[i] == xs[i - 1];
      }
    }
  }

  /** The head of an ascending list stays below whatever is inserted behind it. */
  lemma InsertIntStep(x: int, xs: seq<int>, rest: seq<int>)
    requires Ascending(xs) && |xs| > 0 && xs[0] < x
    requires Ascending(rest) && multiset(rest) == multiset(xs[1..]) + multiset{x}
    ensures Ascending([xs[0]] + rest) && multiset([xs[0]] + rest) == multiset(xs) + multiset{x}
  {
    var r := [xs[0]] + rest;
    forall i, j | 0 <= i < j < |r| ensures r[i] <= r[j] {
      assert r[j] == rest[j - 1];
      if i > 0 {
        assert r[i] == rest[i - 1];
      } else {
        assert rest[j - 1] in multiset(rest);
        if rest[j - 1] != x {
          assert rest[j - 1] in multiset(xs[1..]);
          var q :| 0 <= q < |xs| - 1 && xs[1..][q] == rest[j - 1];
          assert xs[q + 1] == rest[j - 1];
        }
      }
    }
    assert xs == [xs[0]] + xs[1..];
    assert multiset(r) == multiset{xs[0]} + multiset(rest);
  }

  /** `OrderBy(y => y.Year)` on the years alone. */
  function SortInts(xs: seq<int>): (r: seq<int>)
    ensures Ascending(r) && multiset(r) == multiset(xs)
    ensures |r| == |xs|
  {
    if |xs| == 0 then []
    else
      assert xs == [xs[0]] + xs[1..];
      InsertInt(xs[0], SortInts(xs[1..]))
  }

  function Labels(years: seq<int>): (r: seq<string>)
    ensures |r| == |years|
    ensures forall i :: 0 <= i < |years| ==> r[i] == IntToString(years[i])
  {
    seq(|years|, i requires 0 <= i < |years| => IntToString(years[i]))
  }

  /** `GetAllYears`: the caller's years, ascending by number, each written
      with `int.ToString()`. */
  function YearLabels(rows: seq<YearData>, user: Option<UserId>): (r: seq<string>)
    ensures |r| == |OwnedRows(rows, user)|
  {
    Labels(SortInts(Years(OwnedRows(rows, user))))
  }

  /** What `YearLabels` promises, read back through `ParseInt`: each label
      is a number, the numbers ascend, and they are exactly the years of the
      caller's rows (with repetitions, when a year has several rows). */
  lemma YearLabelsMeaning(rows: seq<YearData>, user: Option<UserId>)
    ensures var r := YearLabels(rows, user);
      && (forall i :: 0 <= i < |r| ==> ParseInt(r[i]).Some?)
      && (forall i, j :: 0 <= i < j < |r| ==> ParseInt(r[i]).value <= ParseInt(r[j]).value)
      && multiset(seq(|r|, i requires 0 <= i < |r| => ParseInt(r[i]).value)) == multiset(Years(OwnedRows(rows, user)))
  {
    var sorted := SortInts(Years(OwnedRows(rows, user)));
    LabelsParseBack(sorted);
  }

  /** Each label reads back, through `ParseInt`, as the number it was made from. */
  lemma LabelsParseBack(years: seq<int>)
    ensures var r := Labels(years);
      && (forall i :: 0 <= i < |r| ==> ParseInt(r[i]) == Some(years[i]))
      && seq(|r|, i requires 0 <= i < |r| => ParseInt(r[i]).value) == years
  {
    var r := Labels(years);
    forall i | 0 <= i < |r| ensures ParseInt(r[i]) == Some(years[i]) {
      ParseIntToString(years[i]);
    }
  }
}
