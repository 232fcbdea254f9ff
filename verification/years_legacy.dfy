/** The older `YearsController`, over its own context: the same year rows,
    plus the table of registered users. Its `AddYear` checks that the caller
    is registered but not whether the year already exists. */
module YearsLegacy {
  import opened Results
  import opened Text
  import opened Store
  import YearApi

  /** The legacy context: the ids of the registered users and the year table. */
  datatype LegacyDb = LegacyDb(users: set<UserId>, years: Db)

  /** `AddYear(dto)`: refuse a missing body and a caller who is not a
      registered user; otherwise insert the row, even when the caller
      already has one for that year. */
  function AddYear(db: LegacyDb, user: Option<UserId>, dto: Option<YearApi.YearDto>): (r: Response<LegacyDb, YearData>)
    ensures dto.None? ==> r == Response(db, Error(BadRequest))
    ensures dto.Some? && (user.None? || user.value !in db.users) ==> r == Response(db, Error(Unauthorized))
    ensures r.reply.Created? <==> dto.Some? && user.Some? && user.value in db.users
    ensures r.reply.Created? ==>
      && r.reply.body == YearApi.NewYear(db.years, user.value, dto.value)
      && r.store == LegacyDb(db.users, Db(db.years.rows + [r.reply.body], db.years.nextId + 1))
    ensures !r.reply.Created? ==> r.store == db && r.reply.Error?
  {
    if dto.None? then Response(db, Error(BadRequest))
    else if user.None? || user.value !in db.users then Response(db, Error(Unauthorized))
    else
      var row := YearApi.NewYear(db.years, user.value, dto.value);
      Response(db.(years := Db(db.years.rows + [row], db.years.nextId + 1)), Created(row))
  }

  /** With no duplicate check, adding a year the caller already holds gives
      the caller one more row for it, so one row per user and year is lost. */
  lemma AddYearDuplicates(db: LegacyDb, user: UserId, dto: YearApi.YearDto)
    requires user in db.users
    ensures var after := AddYear(db, Some(user), Some(dto)).store.years.rows;
      RowsFor(after, Some(user), dto.year) == RowsFor(db.years.rows, Some(user), dto.year) + 1
  {
    RowsForAppend(db.years.rows, YearApi.NewYear(db.years, user, dto), Some(user), dto.year);
  }

  /** So the one-row-per-year invariant the newer controller keeps does not
      survive here: adding a year twice leaves two rows for it. */
  lemma AddYearTwiceBreaksOneRowPerYear(db: LegacyDb, user: UserId, dto: YearApi.YearDto)
    requires user in db.users
    ensures var once := AddYear(db, Some(user), Some(dto)).store;
      !OneRowPerYear(AddYear(once, Some(user), Some(dto)).store.years.rows)
  {
    var once := AddYear(db, Some(user), Some(dto)).store;
    var twice := AddYear(once, Some(user), Some(dto)).store.years.rows;
    var n := |db.years.rows|;
    assert twice[n].owner == twice[n + 1].owner && twice[n].year == twice[n + 1].year;
  }

  /** `GetYear(id)`: the row with key `id`, when the caller owns it. */
  function GetYear(db: LegacyDb, user: Option<UserId>, id: int): (r: Reply<YearData>)
    ensures r.Ok? || r == Error(NotFound)
    ensures r.Ok? ==> r.body in db.years.rows && Owns(user, r.body) && r.body.id == id
    ensures r.Error? <==> forall k :: 0 <= k < |db.years.rows| ==>
      !(Owns(user, db.years.rows[k]) && db.years.rows[k].id == id)
  {
    YearApi.GetYear(db.years, user, id)
  }

  /** `GetAllYears()`: the caller's years, ascending by number, as text. */
  function GetAllYears(db: LegacyDb, user: Option<UserId>): (r: Reply<seq<string>>)
    ensures r.Ok?
    ensures forall i :: 0 <= i < |r.body| ==> ParseInt(r.body[i]).Some?
    ensures forall i, j :: 0 <= i < j < |r.body| ==> ParseInt(r.body[i]).value <= ParseInt(r.body[j]).value
    ensures multiset(seq(|r.body|, i requires 0 <= i < |r.body| => ParseInt(r.body[i]).value))
            == multiset(Years(OwnedRows(db.years.rows, user)))
  {
    YearApi.GetAllYearsMeaning(db.years, user);
    YearApi.GetAllYears(db.years, user)
  }
}
