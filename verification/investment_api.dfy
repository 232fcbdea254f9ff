/** The SQL-backed `InvestmentController`: list, add and delete the
    investments of one of the caller's years, keeping the year's
    `ExitInvestment` total in step. */
module InvestmentApi {
  import opened Results
  import opened Calendar
  import opened Records
  import opened Store
  import opened Ids
  import Charts

  /** The request body of a post; `None` stands for a missing body. */
  datatype InvestmentDto = InvestmentDto(date: DateOnly, amount: real, kind: string, name: string)

  /** `GetInvestment(year)`: the investments of the caller's row for `year`. */
  function GetInvestment(db: Db, user: Option<UserId>, year: int): (r: Reply<seq<Investment>>)
    ensures r.Error? <==> RowsFor(db.rows, user, year) == 0
    ensures r.Error? ==> r.status == NotFound
    ensures r.Ok? ==> exists k :: 0 <= k < |db.rows| && IsYearOf(user, year, db.rows[k]) && r.body == db.rows[k].investments
  {
    RowsForZero(db.rows, user, year);
    match FindYear(db.rows, user, year)
    case None => Error(NotFound)
    case Some(k) => Ok(db.rows[k].investments)
  }

  /** When the caller has one row per year, that row is the one read. */
  lemma GetInvestmentUnique(db: Db, user: Option<UserId>, year: int, k: nat)
    requires OneRowPerYear(db.rows)
    requires k < |db.rows| && IsYearOf(user, year, db.rows[k])
    ensures GetInvestment(db, user, year) == Ok(db.rows[k].investments)
  {
    var f := FindYear(db.rows, user, year);
    assert f.Some?;
  }

  /** The record a post stores into `row`: the body's fields, with the
      smallest id the year's investments do not use yet. */
  function NewInvestment(row: YearData, dto: InvestmentDto): Investment {
    Investment(SmallestUnused(InvestmentIds(row.investments)), dto.date, dto.amount, dto.kind, dto.name)
  }

  /** `PostInvestment(dto)`: append the investment to the caller's row for
      the year of its date and raise that row's `ExitInvestment`. The list
      is stored in arrival order: the sort that follows only rebinds a local. */
  function PostInvestment(db: Db, user: Option<UserId>, dto: Option<InvestmentDto>): (r: Response<Db, Investment>)
    ensures dto.None? ==> r == Response(db, Error(BadRequest))
    ensures dto.Some? && user.None? ==> r == Response(db, Error(Unauthorized))
    ensures dto.Some? && user.Some? && FindYear(db.rows, user, dto.value.date.year).None? ==>
      r == Response(db, Error(BadRequest))
    ensures r.reply.Ok? <==> dto.Some? && user.Some? && FindYear(db.rows, user, dto.value.date.year).Some?
    ensures r.reply.Ok? ==>
      var k := FindYear(db.rows, user, dto.value.date.year).value;
      var prior := db.rows[k].investments;
      var x := r.reply.body;
      && OnlyRowChanged(db, r.store, k)
      && IsYearOf(user, x.date.year, db.rows[k])
      && x.date == dto.value.date && x.amount == dto.value.amount
      && x.kind == dto.value.kind && x.name == dto.value.name
      && x.id !in InvestmentIds(prior)
      && (forall j :: 0 <= j < x.id ==> j in InvestmentIds(prior))
      && r.store.rows[k].investments == prior + [x]
      && r.store.rows[k].liquidities == db.rows[k].liquidities
      && r.store.rows[k].exitLiquidity == db.rows[k].exitLiquidity
      && r.store.rows[k].exitInvestment == db.rows[k].exitInvestment + x.amount
  {
    if dto.None? then Response(db, Error(BadRequest))
    else if user.None? then Response(db, Error(Unauthorized))
    else
      match FindYear(db.rows, user, dto.value.date.year)
      case None => Response(db, Error(BadRequest))
      case Some(k) =>
        var row := db.rows[k];
        var x := NewInvestment(row, dto.value);
        var row' := row.(investments := row.investments + [x], exitInvestment := row.exitInvestment + x.amount);
        Response(UpdateRow(db, k, row'), Ok(x))
  }

  /** `DeleteYear(id, year)` (the action that deletes an investment): remove
      the first investment with that id from the caller's row for `year`
      and lower the row's `ExitInvestment` by its amount. */
  function DeleteInvestment(db: Db, user: Option<UserId>, year: int, id: int): (r: Response<Db, Investment>)
    ensures FindYear(db.rows, user, year).None? ==> r == Response(db, Error(NotFound))
    ensures FindYear(db.rows, user, year).Some? && id !in InvestmentIds(db.rows[FindYear(db.rows, user, year).value].investments) ==>
      r == Response(db, Error(NotFound))
    ensures r.reply.Ok? ==> FindYear(db.rows, user, year).Some?
    ensures r.reply.Ok? ==>
      var k := FindYear(db.rows, user, year).value;
      var prior := db.rows[k].investments;
      var p := InvestmentWithId(prior, id).value;
      && id in InvestmentIds(prior)
      && OnlyRowChanged(db, r.store, k)
      && r.reply.body == prior[p]
      && r.reply.body.id == id
      && (forall j :: 0 <= j < p ==> prior[j].id != id)
      && r.store.rows[k].investments == prior[..p] + prior[p + 1..]
      && r.store.rows[k].liquidities == db.rows[k].liquidities
      && r.store.rows[k].exitLiquidity == db.rows[k].exitLiquidity
      && r.store.rows[k].exitInvestment == db.rows[k].exitInvestment - r.reply.body.amount
    ensures r.reply.Ok? || r.reply == Error(NotFound)
  {
    match FindYear(db.rows, user, year)
    case None => Response(db, Error(NotFound))
    case Some(k) =>
      var row := db.rows[k];
      match InvestmentWithId(row.investments, id)
      case None => Response(db, Error(NotFound))
      case Some(p) =>
        var item := row.investments[p];
        var row' := row.(investments := RemoveAt(row.investments, p), exitInvestment := row.exitInvestment - item.amount);
        assert RemoveAt(row.investments, p) == row.investments[..p] + row.investments[p + 1..];
        Response(UpdateRow(db, k, row'), Ok(item))
  }

  /** Every row's `ExitInvestment` is its investment total. */
  predicate ExitInvestmentsConsistent(db: Db) {
    forall k :: 0 <= k < |db.rows| ==> ExitInvestmentConsistent(db.rows[k])
  }

  /** Every row's investments carry distinct ids. */
  predicate InvestmentIdsUnique(db: Db) {
    forall k :: 0 <= k < |db.rows| ==> UniqueIds(InvestmentIds(db.rows[k].investments))
  }

  /** A post keeps every `ExitInvestment` equal to its year's investment total. */
  lemma PostKeepsExitInvestment(db: Db, user: Option<UserId>, dto: Option<InvestmentDto>)
    requires ExitInvestmentsConsistent(db)
    ensures ExitInvestmentsConsistent(PostInvestment(db, user, dto).store)
  {
    var r := PostInvestment(db, user, dto);
    if r.reply.Ok? {
      var k := FindYear(db.rows, user, dto.value.date.year).value;
      InvestedAppend(db.rows[k].investments, r.reply.body);
      assert ExitInvestmentConsistent(r.store.rows[k]);
    }
  }

  /** A delete keeps every `ExitInvestment` equal to its year's investment total. */
  lemma DeleteKeepsExitInvestment(db: Db, user: Option<UserId>, year: int, id: int)
    requires ExitInvestmentsConsistent(db)
    ensures ExitInvestmentsConsistent(DeleteInvestment(db, user, year, id).store)
  {
    var r := DeleteInvestment(db, user, year, id);
    if r.reply.Ok? {
      var k := FindYear(db.rows, user, year).value;
      var prior := db.rows[k].investments;
      var p := InvestmentWithId(prior, id).value;
      InvestedRemoveAt(prior, p);
      assert r.store.rows[k].investments == RemoveAt(prior, p);
      assert ExitInvestmentConsistent(r.store.rows[k]);
    }
  }

  /** The smallest-unused id keeps the ids of a year distinct. */
  lemma PostKeepsIdsUnique(db: Db, user: Option<UserId>, dto: Option<InvestmentDto>)
    requires InvestmentIdsUnique(db)
    ensures InvestmentIdsUnique(PostInvestment(db, user, dto).store)
  {
    var r := PostInvestment(db, user, dto);
    if r.reply.Ok? {
      var k := FindYear(db.rows, user, dto.value.date.year).value;
      var prior := db.rows[k].investments;
      assert InvestmentIds(prior + [r.reply.body]) == InvestmentIds(prior) + [r.reply.body.id];
      assert UniqueIds(InvestmentIds(r.store.rows[k].investments));
    }
  }

  /** Removing a record keeps the remaining ids distinct. */
  lemma DeleteKeepsIdsUnique(db: Db, user: Option<UserId>, year: int, id: int)
    requires InvestmentIdsUnique(db)
    ensures InvestmentIdsUnique(DeleteInvestment(db, user, year, id).store)
  {
    var r := DeleteInvestment(db, user, year, id);
    if r.reply.Ok? {
      var k := FindYear(db.rows, user, year).value;
      var prior := db.rows[k].investments;
      var p := InvestmentWithId(prior, id).value;
      var ids := InvestmentIds(prior);
      assert InvestmentIds(r.store.rows[k].investments) == RemoveAt(ids, p);
      assert UniqueIds(InvestmentIds(r.store.rows[k].investments)) by {
        forall i, j | 0 <= i < j < |ids| - 1 ensures RemoveAt(ids, p)[i] != RemoveAt(ids, p)[j] {
          var i' := if i < p then i else i + 1;
          var j' := if j < p then j else j + 1;
          assert RemoveAt(ids, p)[i] == ids[i'] && RemoveAt(ids, p)[j] == ids[j'];
        }
      }
    }
  }

  /** Deleting the investment just posted, by the id the post returned,
      answers that investment and restores the store exactly. */
  lemma PostThenDelete(db: Db, user: Option<UserId>, dto: InvestmentDto)
    requires PostInvestment(db, user, Some(dto)).reply.Ok?
    ensures var posted := PostInvestment(db, user, Some(dto));
      DeleteInvestment(posted.store, user, dto.date.year, posted.reply.body.id) == Response(db, Ok(posted.reply.body))
  {
    var posted := PostInvestment(db, user, Some(dto));
    var year := dto.date.year;
    var k := FindYear(db.rows, user, year).value;
    var x := posted.reply.body;
    var prior := db.rows[k].investments;
    assert FindYear(posted.store.rows, user, year) == Some(k) by {
      assert IsYearOf(user, year, posted.store.rows[k]);
    }
    FindAppendedInvestment(prior, x);
    var deleted := DeleteInvestment(posted.store, user, year, x.id);
    assert deleted.store.rows[k] == db.rows[k];
    assert deleted.store.rows == db.rows;
  }

  /** A post into year `y` moves the earlier-years total the chart uses for
      every later year of the same user by the posted amount, and leaves the
      total of every other year and user as it was. */
  lemma PostShiftsLaterBaselines(db: Db, user: Option<UserId>, dto: InvestmentDto, who: UserId, year: int)
    requires PostInvestment(db, user, Some(dto)).reply.Ok?
    ensures var after := PostInvestment(db, user, Some(dto)).store;
      Charts.PriorExitInvestment(after.rows, who, year)
        == Charts.PriorExitInvestment(db.rows, who, year)
           + (if user.value == who && dto.date.year < year then dto.amount else 0.0)
  {
    var r := PostInvestment(db, user, Some(dto));
    var k := FindYear(db.rows, user, dto.date.year).value;
    assert r.store.rows == db.rows[k := r.store.rows[k]];
    Charts.PriorExitAfterUpdate(db.rows, k, r.store.rows[k], who, year);
  }
}
