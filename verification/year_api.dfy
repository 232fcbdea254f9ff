/** The SQL-backed `YearController`: list the caller's years, create a
    year (at most one per user and year), read one by key, delete one. */
module YearApi {
  import opened Results
  import opened Text
  import opened Calendar
  import opened Records
  import opened Store
  import InvestmentApi
  import LiquidityApi

  /** The request body of `AddYear`; a missing list is `None`. */
  datatype YearDto = YearDto(
    year: int,
    exitInvestment: real,
    exitLiquidity: real,
    investments: Option<seq<InvestmentApi.InvestmentDto>>,
    liquidities: Option<seq<LiquidityApi.LiquidityDto>>)

  /** The investments a new year starts with: the body's list, or none when
      it is missing. Their keys are left at 0, the value before insertion. */
  function InitialInvestments(ds: Option<seq<InvestmentApi.InvestmentDto>>): (r: seq<Investment>)
    ensures ds.None? ==> r == []
    ensures ds.Some? ==> |r| == |ds.value|
    ensures ds.Some? ==> forall i :: 0 <= i < |r| ==>
      r[i].id == 0 && r[i].date == ds.value[i].date && r[i].amount == ds.value[i].amount
      && r[i].kind == ds.value[i].kind && r[i].name == ds.value[i].name
  {
    match ds
    case None => []
    case Some(s) =>
      seq(|s|, i requires 0 <= i < |s| => Investment(0, s[i].date, s[i].amount, s[i].kind, s[i].name))
  }

  /** The liquidity observations a new year starts with, likewise. */
  function InitialLiquidities(ds: Option<seq<LiquidityApi.LiquidityDto>>): (r: seq<Liquidity>)
    ensures ds.None? ==> r == []
    ensures ds.Some? ==> |r| == |ds.value|
    ensures ds.Some? ==> forall i :: 0 <= i < |r| ==>
      r[i].id == 0 && r[i].date == ds.value[i].date && r[i].amount == ds.value[i].amount
  {
    match ds
    case None => []
    case Some(s) => seq(|s|, i requires 0 <= i < |s| => Liquidity(0, s[i].date, s[i].amount))
  }

  /** The row `AddYear` inserts for `owner`: the body's year and records,
      and the body's exit totals taken as they are, not recomputed. */
  function NewYear(db: Db, owner: UserId, dto: YearDto): (r: YearData)
    ensures r.id == db.nextId && r.owner == owner && r.year == dto.year
    ensures r.exitInvestment == dto.exitInvestment && r.exitLiquidity == dto.exitLiquidity
    ensures r.investments == InitialInvestments(dto.investments)
    ensures r.liquidities == InitialLiquidities(dto.liquidities)
  {
    YearData(db.nextId, dto.year, owner, InitialInvestments(dto.investments), InitialLiquidities(dto.liquidities),
             dto.exitInvestment, dto.exitLiquidity)
  }

  /** `GetAllYears()`: the caller's years, ascending by number, as text. */
  function GetAllYears(db: Db, user: Option<UserId>): (r: Reply<seq<string>>)
    ensures r.Ok?
    ensures |r.body| == |OwnedRows(db.rows, user)|
    ensures user.None? ==> r.body == []
  {
    if user.None? then
      OwnedRowsNone(db.rows);
      Ok(YearLabels(db.rows, user))
    else Ok(YearLabels(db.rows, user))
  }

  /** What `GetAllYears` answers, read back as numbers: ascending, and
      exactly the years of the caller's rows. */
  lemma GetAllYearsMeaning(db: Db, user: Option<UserId>)
    ensures var r := GetAllYears(db, user).body;
      && (forall i :: 0 <= i < |r| ==> ParseInt(r[i]).Some?)
      && (forall i, j :: 0 <= i < j < |r| ==> ParseInt(r[i]).value <= ParseInt(r[j]).value)
      && multiset(seq(|r|, i requires 0 <= i < |r| => ParseInt(r[i]).value)) == multiset(Years(OwnedRows(db.rows, user)))
  {
    YearLabelsMeaning(db.rows, user);
  }

  /** `AddYear(dto)`: refuse a missing body, a missing user and a year the
      caller already has; otherwise insert the new row under the next key
      and answer it as created. */
  function AddYear(db: Db, user: Option<UserId>, dto: Option<YearDto>): (r: Response<Db, YearData>)
    ensures dto.None? ==> r == Response(db, Error(BadRequest))
    ensures dto.Some? && user.None? ==> r == Response(db, Error(Unauthorized))
    ensures dto.Some? && user.Some? && RowsFor(db.rows, user, dto.value.year) != 0 ==>
      r == Response(db, Error(BadRequest))
    ensures r.reply.Created? <==> dto.Some? && user.Some? && RowsFor(db.rows, user, dto.value.year) == 0
    ensures r.reply.Created? ==>
      && r.reply.body == NewYear(db, user.value, dto.value)
      && r.store == Db(db.rows + [r.reply.body], db.nextId + 1)
    ensures !r.reply.Created? ==> r.store == db && r.reply.Error?
  {
    if dto.None? then Response(db, Error(BadRequest))
    else if user.None? then Response(db, Error(Unauthorized))
    else if RowsFor(db.rows, user, dto.value.year) != 0 then Response(db, Error(BadRequest))
    else
      var row := NewYear(db, user.value, dto.value);
      Response(Db(db.rows + [row], db.nextId + 1), Created(row))
  }

  /** A successful `AddYear` keeps each user at one row per year. */
  lemma AddYearKeepsOneRowPerYear(db: Db, user: Option<UserId>, dto: Option<YearDto>)
    requires OneRowPerYear(db.rows)
    ensures OneRowPerYear(AddYear(db, user, dto).store.rows)
  {
    var r := AddYear(db, user, dto);
    if r.reply.Created? {
      RowsForZero(db.rows, user, dto.value.year);
      var s := r.store.rows;
      forall i, j | 0 <= i < j < |s| ensures !(s[i].owner == s[j].owner && s[i].year == s[j].year) {
        if j == |db.rows| {
          assert s[i] == db.rows[i] && !IsYearOf(user, dto.value.year, db.rows[i]);
        } else {
          assert s[i] == db.rows[i] && s[j] == db.rows[j];
        }
      }
    }
  }

  /** The duplicate check is per user: a year held only by other users is
      accepted for the caller, and afterwards the caller holds exactly one. */
  lemma AddYearPerUser(db: Db, user: UserId, dto: YearDto)
    requires forall k :: 0 <= k < |db.rows| && db.rows[k].year == dto.year ==> db.rows[k].owner != user
    ensures var r := AddYear(db, Some(user), Some(dto));
      r.reply.Created? && RowsFor(r.store.rows, Some(user), dto.year) == 1
  {
    RowsForZero(db.rows, Some(user), dto.year);
    RowsForAppend(db.rows, NewYear(db, user, dto), Some(user), dto.year);
  }

  /** The exit totals are not recomputed: adding a year whose body gives an
      `ExitInvestment` of 5 and no investments stores a row whose total does
      not match its records. */
  lemma AddYearMayStoreInconsistentTotals()
    ensures var dto := YearDto(2024, 5.0, 0.0, None, None);
      var r := AddYear(Db([], 1), Some("u"), Some(dto));
      r.reply.Created? && !ExitInvestmentConsistent(r.reply.body)
  {
    var dto := YearDto(2024, 5.0, 0.0, None, None);
    var row := NewYear(Db([], 1), "u", dto);
    assert InvestmentAmounts(row.investments) == [];
  }

  /** `GetYear(id)`: the row with key `id`, when the caller owns it. */
  function GetYear(db: Db, user: Option<UserId>, id: int): (r: Reply<YearData>)
    ensures r.Ok? || r == Error(NotFound)
    ensures r.Ok? ==> r.body in db.rows && Owns(user, r.body) && r.body.id == id
    ensures r.Error? <==> forall k :: 0 <= k < |db.rows| ==> !(Owns(user, db.rows[k]) && db.rows[k].id == id)
  {
    match FindById(db.rows, user, id)
    case None => Error(NotFound)
    case Some(k) => Ok(db.rows[k])
  }

  /** `DeleteYear(year)`: remove the caller's row for `year`. */
  function DeleteYear(db: Db, user: Option<UserId>, year: int): (r: Response<Db, YearData>)
    ensures r.reply == NoContent || r.reply == Error(NotFound)
    ensures r.reply.Error? <==> RowsFor(db.rows, user, year) == 0
    ensures r.reply.Error? ==> r.store == db
    ensures r.store.nextId == db.nextId
    ensures r.reply == NoContent ==> |r.store.rows| == |db.rows| - 1
    ensures RowsFor(r.store.rows, user, year) == if r.reply == NoContent then RowsFor(db.rows, user, year) - 1 else 0
    ensures forall x :: multiset(r.store.rows)[x] <= multiset(db.rows)[x]
  {
    RowsForZero(db.rows, user, year);
    match FindYear(db.rows, user, year)
    case None => Response(db, Error(NotFound))
    case Some(k) =>
      RowsForRemoveAt(db.rows, k, user, year);
      RemoveAtMultiset(db.rows, k);
      Response(db.(rows := RemoveAt(db.rows, k)), NoContent)
  }

  /** Deleting a year leaves every other user's rows, and the caller's rows
      for other years, exactly as they were. */
  lemma DeleteYearOnlyCaller(db: Db, user: Option<UserId>, year: int, other: Option<UserId>, otherYear: int)
    requires other != user || otherYear != year
    requires user.Some?
    ensures RowsFor(DeleteYear(db, user, year).store.rows, other, otherYear) == RowsFor(db.rows, other, otherYear)
  {
    RowsForZero(db.rows, user, year);
    match FindYear(db.rows, user, year)
    case None =>
    case Some(k) =>
      RowsForRemoveAt(db.rows, k, other, otherYear);
  }

  /** Creating a year and deleting it again restores the rows; only the key
      counter has moved on. */
  lemma AddThenDeleteYear(db: Db, user: UserId, dto: YearDto)
    requires RowsFor(db.rows, Some(user), dto.year) == 0
    ensures var added := AddYear(db, Some(user), Some(dto)).store;
      DeleteYear(added, Some(user), dto.year) == Response(db.(nextId := db.nextId + 1), NoContent)
  {
    var added := AddYear(db, Some(user), Some(dto)).store;
    RowsForZero(db.rows, Some(user), dto.year);
    assert FindYear(added.rows, Some(user), dto.year) == Some(|db.rows|) by {
      assert IsYearOf(Some(user), dto.year, added.rows[|db.rows|]);
      forall j | 0 <= j < |db.rows| ensures !IsYearOf(Some(user), dto.year, added.rows[j]) {
        assert added.rows[j] == db.rows[j];
      }
    }
    assert RemoveAt(added.rows, |db.rows|) == db.rows;
  }
}
