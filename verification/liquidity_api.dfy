/** The SQL-backed `LiquidityController`: list the liquidity observations
    of one of the caller's years, and record an observation, replacing the
    one already stored for the same date and keeping `ExitLiquidity` in step. */
module LiquidityApi {
  import opened Results
  import opened Calendar
  import opened Records
  import opened Store
  import opened Ids

  /** The request body of a post; `None` stands for a missing body. */
  datatype LiquidityDto = LiquidityDto(date: DateOnly, amount: real)

  /** `GetLiquidity(year)`: the observations of the caller's row for `year`. */
  function GetLiquidity(db: Db, user: Option<UserId>, year: int): (r: Reply<seq<Liquidity>>)
    ensures r.Error? <==> RowsFor(db.rows, user, year) == 0
    ensures r.Error? ==> r.status == NotFound
    ensures r.Ok? ==> exists k :: 0 <= k < |db.rows| && IsYearOf(user, year, db.rows[k]) && r.body == db.rows[k].liquidities
  {
    RowsForZero(db.rows, user, year);
    match FindYear(db.rows, user, year)
    case None => Error(NotFound)
    case Some(k) => Ok(db.rows[k].liquidities)
  }

  /** The list once the first observation on `d`, if any, is removed. */
  function WithoutFirstOn(s: seq<Liquidity>, d: DateOnly): (r: seq<Liquidity>)
    ensures CountOn(r, d) == if CountOn(s, d) == 0 then 0 else CountOn(s, d) - 1
    ensures OtherDates(r, d) == OtherDates(s, d)
  {
    CountOnZero(s, d);
    match LiquidityOn(s, d)
    case None => s
    case Some(p) =>
      RemoveOnDate(s, p, d);
      RemoveAt(s, p)
  }

  /** The amount of the observation `WithoutFirstOn` removes, or 0. */
  function ReplacedAmount(s: seq<Liquidity>, d: DateOnly): (r: real)
    ensures Liquid(WithoutFirstOn(s, d)) == Liquid(s) - r
  {
    match LiquidityOn(s, d)
    case None => 0.0
    case Some(p) =>
      LiquidRemoveAt(s, p);
      s[p].amount
  }

  /** `AddYear(dto)` (the action that posts an observation): in the caller's
      row for the year of the body's date, drop the first observation on that
      date and subtract its amount from `ExitLiquidity`, then append the new
      observation, with the smallest id the remaining ones do not use, and
      add its amount. */
  function PostLiquidity(db: Db, user: Option<UserId>, dto: Option<LiquidityDto>): (r: Response<Db, Liquidity>)
    ensures dto.None? ==> r == Response(db, Error(BadRequest))
    ensures dto.Some? && user.None? ==> r == Response(db, Error(Unauthorized))
    ensures dto.Some? && user.Some? && FindYear(db.rows, user, dto.value.date.year).None? ==>
      r == Response(db, Error(BadRequest))
    ensures r.reply.Ok? <==> dto.Some? && user.Some? && FindYear(db.rows, user, dto.value.date.year).Some?
    ensures r.reply.Ok? ==>
      var k := FindYear(db.rows, user, dto.value.date.year).value;
      var prior := db.rows[k].liquidities;
      var kept := WithoutFirstOn(prior, dto.value.date);
      var x := r.reply.body;
      && OnlyRowChanged(db, r.store, k)
      && x.date == dto.value.date && x.amount == dto.value.amount
      && x.id !in LiquidityIds(kept)
      && (forall j :: 0 <= j < x.id ==> j in LiquidityIds(kept))
      && r.store.rows[k].liquidities == kept + [x]
      && r.store.rows[k].investments == db.rows[k].investments
      && r.store.rows[k].exitInvestment == db.rows[k].exitInvestment
      && r.store.rows[k].exitLiquidity == db.rows[k].exitLiquidity - ReplacedAmount(prior, x.date) + x.amount
  {
    if dto.None? then Response(db, Error(BadRequest))
    else if user.None? then Response(db, Error(Unauthorized))
    else
      match FindYear(db.rows, user, dto.value.date.year)
      case None => Response(db, Error(BadRequest))
      case Some(k) =>
        var row := db.rows[k];
        var d := dto.value.date;
        var kept := WithoutFirstOn(row.liquidities, d);
        var x := Liquidity(SmallestUnused(LiquidityIds(kept)), d, dto.value.amount);
        var row' := row.(liquidities := kept + [x],
                         exitLiquidity := row.exitLiquidity - ReplacedAmount(row.liquidities, d) + x.amount);
        Response(UpdateRow(db, k, row'), Ok(x))
  }

  /** The upsert on one list: dropping the first observation on `d` and
      appending one on `d` leaves exactly one on `d` when there was at most
      one, and keeps the observations on other dates in their order. */
  lemma UpsertOnDate(s: seq<Liquidity>, x: Liquidity)
    ensures var before := CountOn(s, x.date);
      CountOn(WithoutFirstOn(s, x.date) + [x], x.date) == if before == 0 then 1 else before
    ensures OtherDates(WithoutFirstOn(s, x.date) + [x], x.date) == OtherDates(s, x.date)
  {
    var kept := WithoutFirstOn(s, x.date);
    CountOnAppend(kept, [x], x.date);
    assert CountOn([x], x.date) == CountOn([], x.date) + 1;
    assert OtherDates([x], x.date) == OtherDates([], x.date) + [];
  }

  /** After a post the year holds the new observation on its date, and one
      fewer of the earlier observations on that date; so exactly one
      observation on that date whenever there was at most one before. */
  lemma PostLiquidityCount(db: Db, user: Option<UserId>, dto: LiquidityDto)
    requires PostLiquidity(db, user, Some(dto)).reply.Ok?
    ensures var k := FindYear(db.rows, user, dto.date.year).value;
      var before := CountOn(db.rows[k].liquidities, dto.date);
      CountOn(PostLiquidity(db, user, Some(dto)).store.rows[k].liquidities, dto.date)
        == if before == 0 then 1 else before
  {
    var k := FindYear(db.rows, user, dto.date.year).value;
    UpsertOnDate(db.rows[k].liquidities, PostLiquidity(db, user, Some(dto)).reply.body);
  }

  /** Observations on other dates are kept, in their order. */
  lemma PostLiquidityOthersUntouched(db: Db, user: Option<UserId>, dto: LiquidityDto)
    requires PostLiquidity(db, user, Some(dto)).reply.Ok?
    ensures var k := FindYear(db.rows, user, dto.date.year).value;
      OtherDates(PostLiquidity(db, user, Some(dto)).store.rows[k].liquidities, dto.date)
        == OtherDates(db.rows[k].liquidities, dto.date)
  {
    var k := FindYear(db.rows, user, dto.date.year).value;
    UpsertOnDate(db.rows[k].liquidities, PostLiquidity(db, user, Some(dto)).reply.body);
  }

  /** Every row's `ExitLiquidity` is its liquidity total. */
  predicate ExitLiquiditiesConsistent(db: Db) {
    forall k :: 0 <= k < |db.rows| ==> ExitLiquidityConsistent(db.rows[k])
  }

  /** A post keeps every `ExitLiquidity` equal to its year's liquidity total. */
  lemma PostKeepsExitLiquidity(db: Db, user: Option<UserId>, dto: Option<LiquidityDto>)
    requires ExitLiquiditiesConsistent(db)
    ensures ExitLiquiditiesConsistent(PostLiquidity(db, user, dto).store)
  {
    var r := PostLiquidity(db, user, dto);
    if r.reply.Ok? {
      var k := FindYear(db.rows, user, dto.value.date.year).value;
      var kept := WithoutFirstOn(db.rows[k].liquidities, dto.value.date);
      LiquidAppend(kept, r.reply.body);
      assert ExitLiquidityConsistent(r.store.rows[k]);
    }
  }

  /** Every row holds at most one observation per date. */
  predicate DatesDistinct(db: Db) {
    forall k :: 0 <= k < |db.rows| ==> DistinctDates(db.rows[k].liquidities)
  }

  /** A list whose dates are distinct keeps them distinct when one of its
      observations is removed. */
  lemma {:induction false} DistinctDatesRemoveAt(s: seq<Liquidity>, p: nat)
    requires p < |s| && DistinctDates(s)
    ensures DistinctDates(RemoveAt(s, p))
  {
    var t := RemoveAt(s, p);
    forall i, j | 0 <= i < j < |t| ensures t[i].date != t[j].date {
      var i' := if i < p then i else i + 1;
      var j' := if j < p then j else j + 1;
      assert t[i] == s[i'] && t[j] == s[j'];
    }
  }

  /** A post keeps the observations of every row on distinct dates: the
      upsert is keyed by date. */
  lemma PostKeepsDatesDistinct(db: Db, user: Option<UserId>, dto: Option<LiquidityDto>)
    requires DatesDistinct(db)
    ensures DatesDistinct(PostLiquidity(db, user, dto).store)
  {
    var r := PostLiquidity(db, user, dto);
    if r.reply.Ok? {
      var k := FindYear(db.rows, user, dto.value.date.year).value;
      var prior := db.rows[k].liquidities;
      UpsertKeepsDistinct(prior, r.reply.body);
    }
  }

  /** Dropping the observation on a date and appending a new one on that date
      keeps the dates of a list distinct. */
  lemma UpsertKeepsDistinct(prior: seq<Liquidity>, x: Liquidity)
    requires DistinctDates(prior)
    ensures DistinctDates(WithoutFirstOn(prior, x.date) + [x])
  {
    var d := x.date;
    var kept := WithoutFirstOn(prior, d);
    assert DistinctDates(kept) by {
      match LiquidityOn(prior, d)
      case None =>
      case Some(p) => DistinctDatesRemoveAt(prior, p);
    }
    assert CountOn(kept, d) == 0 by {
      if CountOn(prior, d) != 0 {
        CountOnZero(prior, d);
        var q :| 0 <= q < |prior| && prior[q].date == d;
        DistinctDatesCount(prior);
      }
    }
    CountOnZero(kept, d);
    var s := kept + [x];
    forall i, j | 0 <= i < j < |s| ensures s[i].date != s[j].date {
      if j < |kept| {
        assert s[i] == kept[i] && s[j] == kept[j];
      } else {
        assert s[i] == kept[i];
      }
    }
  }

  /** Posting the same observation twice leaves the store as posting it once,
      when the year held at most one observation on that date. */
  lemma PostLiquidityIdempotent(db: Db, user: Option<UserId>, dto: LiquidityDto)
    requires PostLiquidity(db, user, Some(dto)).reply.Ok?
    requires CountOn(db.rows[FindYear(db.rows, user, dto.date.year).value].liquidities, dto.date) <= 1
    ensures var once := PostLiquidity(db, user, Some(dto));
      PostLiquidity(once.store, user, Some(dto)) == once
  {
    var once := PostLiquidity(db, user, Some(dto));
    var year := dto.date.year;
    var d := dto.date;
    var k := FindYear(db.rows, user, year).value;
    var prior := db.rows[k].liquidities;
    var kept := WithoutFirstOn(prior, d);
    var x := once.reply.body;
    assert FindYear(once.store.rows, user, year) == Some(k) by {
      assert IsYearOf(user, year, once.store.rows[k]);
    }
    assert CountOn(kept, d) == 0;
    RepostOnDate(kept, x);
    var twice := PostLiquidity(once.store, user, Some(dto));
    assert twice.reply == once.reply;
    assert twice.store.rows[k] == once.store.rows[k];
    assert twice.store.rows == once.store.rows;
  }

  /** In a list with no observation on a date, posting on that date again
      replaces exactly the observation just appended. */
  lemma RepostOnDate(kept: seq<Liquidity>, x: Liquidity)
    requires CountOn(kept, x.date) == 0
    ensures WithoutFirstOn(kept + [x], x.date) == kept
    ensures ReplacedAmount(kept + [x], x.date) == x.amount
  {
    var s := kept + [x];
    CountOnZero(kept, x.date);
    assert LiquidityOn(s, x.date) == Some(|kept|) by {
      assert s[|kept|].date == x.date;
      forall j | 0 <= j < |kept| ensures s[j].date != x.date {
        assert s[j] == kept[j];
      }
    }
    assert RemoveAt(s, |kept|) == kept;
  }

  /** The id of a replaced observation is free again: replacing the only
      observation of a year gives the new one id 0, whatever the old id was. */
  lemma PostReusesReplacedId(db: Db, user: Option<UserId>, dto: LiquidityDto, k: nat, l: Liquidity)
    requires FindYear(db.rows, user, dto.date.year) == Some(k)
    requires db.rows[k].liquidities == [l] && l.date == dto.date
    ensures PostLiquidity(db, user, Some(dto)).reply == Ok(Liquidity(0, dto.date, dto.amount))
  {
    assert LiquidityOn([l], dto.date) == Some(0);
    assert WithoutFirstOn([l], dto.date) == [];
  }
}
