/** The older, file-backed `InvestmentsController`. Each year's
    `YearTrading` record lives in its own file, named after the year; the
    directory is modelled as a map from year to record. Reading a year that
    has no file yields an empty record for that year, and saving writes a
    record under its own `Year`. Ids are the largest id plus one, in 32-bit
    arithmetic. */
module InvestmentsLegacy {
  import opened Results
  import opened Text
  import opened Calendar
  import opened Records
  import opened Ids
  import LiquidityApi

  /** The content of one year's file. */
  datatype YearTrading = YearTrading(
    year: int,
    investments: seq<Investment>,
    liquidities: seq<Liquidity>,
    exitInvestment: real,
    exitLiquidity: real)

  /** The data directory: the record in each year's file. */
  type Files = map<int, YearTrading>

  /** Every file holds the record of the year it is named after, as saving
      guarantees. */
  predicate Keyed(files: Files) {
    forall y :: y in files ==> files[y].year == y
  }

  /** The record `new YearTrading() { Year = year }`. */
  function EmptyYear(year: int): YearTrading {
    YearTrading(year, [], [], 0.0, 0.0)
  }

  /** `LoadYearTrading(year)`: the stored record, or an empty one for the
      year when there is no file. */
  function LoadYearTrading(files: Files, year: int): (r: YearTrading)
    ensures year !in files ==> r == EmptyYear(year)
    ensures year in files ==> r == files[year]
    ensures Keyed(files) ==> r.year == year
  {
    if year in files then files[year] else EmptyYear(year)
  }

  /** `SaveYearTradings(t)`: write `t` to the file of its own year. */
  function Save(files: Files, t: YearTrading): (r: Files)
    ensures Keyed(files) ==> Keyed(r)
    ensures t.year in r && r[t.year] == t
    ensures forall y :: y != t.year ==> (y in r <==> y in files)
    ensures forall y :: y in files && y != t.year ==> r[y] == files[y]
  {
    files[t.year := t]
  }

  /** The directory listing, as years: each file's year, once. */
  predicate Lists(listing: seq<int>, files: Files) {
    && (forall y :: y in listing ==> y in files)
    && (forall y :: y in files ==> y in listing)
  }

  /** `LoadYears()`: the file names without extension, in ascending
      ordinal order. */
  function LoadYears(listing: seq<int>): (r: seq<string>)
    ensures StrictlyAscending(r)
    ensures forall s :: s in r <==> exists y :: y in listing && s == IntToString(y)
  {
    var names := seq(|listing|, i requires 0 <= i < |listing| => IntToString(listing[i]));
    assert forall y :: y in listing ==> IntToString(y) in names by {
      forall y | y in listing ensures IntToString(y) in names {
        var i :| 0 <= i < |listing| && listing[i] == y;
        assert names[i] == IntToString(y);
      }
    }
    SortDistinct(names)
  }

  /** A year is listed exactly when its name is. */
  lemma ListedName(listing: seq<int>, year: int)
    ensures IntToString(year) in LoadYears(listing) <==> year in listing
  {
    if IntToString(year) in LoadYears(listing) {
      var y :| y in listing && IntToString(year) == IntToString(y);
      IntToStringInjective(year, y);
    }
  }

  /** `GetYears()`: the year names, ordered as strings. */
  function GetYears(listing: seq<int>): (r: Reply<seq<string>>)
    ensures r.Ok?
    ensures StrictlyAscending(r.body)
    ensures forall y :: IntToString(y) in r.body <==> y in listing
    ensures forall s :: s in r.body ==> exists y :: y in listing && s == IntToString(y)
  {
    forall y ensures IntToString(y) in LoadYears(listing) <==> y in listing {
      ListedName(listing, y);
    }
    Ok(SortDistinct(LoadYears(listing)))
  }

  /** Ordering again what `LoadYears` already ordered changes nothing. */
  lemma GetYearsIsLoadYears(listing: seq<int>)
    ensures GetYears(listing).body == LoadYears(listing)
  {
    SortDistinctSorted(LoadYears(listing));
  }

  lemma YearNames()
    ensures IntToString(999) == "999" && IntToString(1000) == "1000"
  {
    assert NatToString(9) == "9";
    assert NatToString(99) == NatToString(9) + "9";
    assert NatToString(999) == NatToString(99) + "9";
    assert NatToString(1) == "1";
    assert NatToString(10) == NatToString(1) + "0";
    assert NatToString(100) == NatToString(10) + "0";
    assert NatToString(1000) == NatToString(100) + "0";
  }

  /** The order is that of strings, not of numbers: year 1000 comes before year 999. */
  lemma YearsOrderedAsStrings()
    ensures GetYears([999, 1000]).body == ["1000", "999"]
  {
    YearNames();
    var r := GetYears([999, 1000]).body;
    assert LexLess("1000", "999");
    forall y ensures y in r <==> y in ["1000", "999"] {
      if y in r {
        var n :| n in [999, 1000] && y == IntToString(n);
      }
      if y == "999" {
        assert IntToString(999) in r;
      }
      if y == "1000" {
        assert IntToString(1000) in r;
      }
    }
    AscendingUnique(r, ["1000", "999"]);
  }

  /** `SetYears(year)`: refuse a year that already has a file; otherwise
      store an empty record for it. */
  function SetYears(files: Files, listing: seq<int>, year: int): (r: Response<Files, YearTrading>)
    requires Lists(listing, files)
    ensures r.reply == Error(Conflict) <==> year in files
    ensures year in files ==> r.store == files
    ensures year !in files ==> r.reply == Ok(EmptyYear(year)) && r.store == files[year := EmptyYear(year)]
  {
    ListedName(listing, year);
    if IntToString(year) in LoadYears(listing) then Response(files, Error(Conflict))
    else
      var t := EmptyYear(year);
      Response(Save(files, t), Ok(t))
  }

  /** `PostInvestment(investment)`: append the investment, with id one more
      than the largest in its year (1 for the first), to the year of its
      date, and raise that year's `ExitInvestment`. */
  function PostInvestment(files: Files, inv: Investment): (r: Response<Files, Investment>)
    ensures r.reply.Ok?
    ensures var x := r.reply.body;
      var before := LoadYearTrading(files, inv.date.year);
      var ids := InvestmentIds(before.investments);
      && x == inv.(id := x.id)
      && (|ids| == 0 ==> x.id == 1)
      && (|ids| > 0 && Int32Max !in ids ==> x.id - 1 in ids && forall i :: i in ids ==> i < x.id)
      && r.store == Save(files, before.(investments := before.investments + [x],
                                       exitInvestment := before.exitInvestment + x.amount))
  {
    var t := LoadYearTrading(files, inv.date.year);
    var x := inv.(id := NextAfterMax(InvestmentIds(t.investments)));
    Response(Save(files, t.(investments := t.investments + [x], exitInvestment := t.exitInvestment + x.amount)), Ok(x))
  }

  /** `GetInvestment(year)`: the year's investments, none when it has no file. */
  function GetInvestment(files: Files, year: int): (r: Reply<seq<Investment>>)
    ensures r.Ok?
    ensures year !in files ==> r.body == []
    ensures year in files ==> r.body == files[year].investments
  {
    Ok(LoadYearTrading(files, year).investments)
  }

  /** `DeleteInvestment(id, year)`: remove the first investment with that id
      from the year and lower its `ExitInvestment`; NotFound, with nothing
      written, when no investment has that id. */
  function DeleteInvestment(files: Files, year: int, id: int): (r: Response<Files, Investment>)
    ensures var before := LoadYearTrading(files, year);
      r.reply.Error? <==> id !in InvestmentIds(before.investments)
    ensures r.reply.Error? ==> r == Response(files, Error(NotFound))
    ensures r.reply.Ok? ==>
      var before := LoadYearTrading(files, year);
      var p := InvestmentWithId(before.investments, id).value;
      && r.reply.body == before.investments[p] && r.reply.body.id == id
      && r.store == Save(files, before.(investments := before.investments[..p] + before.investments[p + 1..],
                                       exitInvestment := before.exitInvestment - r.reply.body.amount))
  {
    var t := LoadYearTrading(files, year);
    match InvestmentWithId(t.investments, id)
    case None => Response(files, Error(NotFound))
    case Some(p) =>
      var item := t.investments[p];
      assert RemoveAt(t.investments, p) == t.investments[..p] + t.investments[p + 1..];
      Response(Save(files, t.(investments := RemoveAt(t.investments, p), exitInvestment := t.exitInvestment - item.amount)), Ok(item))
  }

  /** `PostLiquidity(liquidityData)`: drop the first observation on the same
      date and its amount from `ExitLiquidity`, then append the new one, with
      id one more than the largest remaining (1 when none remain), and add
      its amount. */
  function PostLiquidity(files: Files, liq: Liquidity): (r: Response<Files, Liquidity>)
    ensures r.reply.Ok?
    ensures r.reply.body == liq.(id := r.reply.body.id)
    ensures var ids := LiquidityIds(LiquidityApi.WithoutFirstOn(LoadYearTrading(files, liq.date.year).liquidities, liq.date));
      && (|ids| == 0 ==> r.reply.body.id == 1)
      && (|ids| > 0 && Int32Max !in ids ==> r.reply.body.id - 1 in ids && forall i :: i in ids ==> i < r.reply.body.id)
    ensures var before := LoadYearTrading(files, liq.date.year);
      r.store == Save(files, before.(liquidities := LiquidityApi.WithoutFirstOn(before.liquidities, liq.date) + [r.reply.body],
        exitLiquidity := before.exitLiquidity - LiquidityApi.ReplacedAmount(before.liquidities, liq.date) + r.reply.body.amount))
  {
    var t := LoadYearTrading(files, liq.date.year);
    var kept := LiquidityApi.WithoutFirstOn(t.liquidities, liq.date);
    var x := liq.(id := NextAfterMax(LiquidityIds(kept)));
    var exit := t.exitLiquidity - LiquidityApi.ReplacedAmount(t.liquidities, liq.date) + x.amount;
    Response(Save(files, t.(liquidities := kept + [x], exitLiquidity := exit)), Ok(x))
  }

  /** `GetLiquidity(year)`: the year's observations, none when it has no file. */
  function GetLiquidity(files: Files, year: int): (r: Reply<seq<Liquidity>>)
    ensures r.Ok?
    ensures year !in files ==> r.body == []
    ensures year in files ==> r.body == files[year].liquidities
  {
    Ok(LoadYearTrading(files, year).liquidities)
  }

  /** `DeleteLiquidity(id, year)`: remove the first observation with that id
      and lower `ExitLiquidity`; NotFound, with nothing written, when absent. */
  function DeleteLiquidity(files: Files, year: int, id: int): (r: Response<Files, Liquidity>)
    ensures var before := LoadYearTrading(files, year);
      r.reply.Error? <==> id !in LiquidityIds(before.liquidities)
    ensures r.reply.Error? ==> r == Response(files, Error(NotFound))
    ensures r.reply.Ok? ==>
      var before := LoadYearTrading(files, year);
      var p := LiquidityWithId(before.liquidities, id).value;
      && r.reply.body == before.liquidities[p] && r.reply.body.id == id
      && r.store == Save(files, before.(liquidities := before.liquidities[..p] + before.liquidities[p + 1..],
                                       exitLiquidity := before.exitLiquidity - r.reply.body.amount))
  {
    var t := LoadYearTrading(files, year);
    match LiquidityWithId(t.liquidities, id)
    case None => Response(files, Error(NotFound))
    case Some(p) =>
      var item := t.liquidities[p];
      assert RemoveAt(t.liquidities, p) == t.liquidities[..p] + t.liquidities[p + 1..];
      Response(Save(files, t.(liquidities := RemoveAt(t.liquidities, p), exitLiquidity := t.exitLiquidity - item.amount)), Ok(item))
  }

  /** Every file's totals match its records. */
  predicate Consistent(files: Files) {
    forall y :: y in files ==>
      files[y].exitInvestment == Invested(files[y].investments)
      && files[y].exitLiquidity == Liquid(files[y].liquidities)
  }

  /** A year without a file reads as empty, with matching zero totals. */
  lemma LoadConsistent(files: Files, year: int)
    requires Consistent(files)
    ensures var t := LoadYearTrading(files, year);
      t.exitInvestment == Invested(t.investments) && t.exitLiquidity == Liquid(t.liquidities)
  {
    var t := LoadYearTrading(files, year);
    if year !in files {
      assert InvestmentAmounts(t.investments) == [] && LiquidityAmounts(t.liquidities) == [];
    }
  }

  /** An investment post keeps each file's totals equal to its records' sums. */
  lemma PostInvestmentKeepsConsistent(files: Files, inv: Investment)
    requires Consistent(files)
    ensures Consistent(PostInvestment(files, inv).store)
  {
    LoadConsistent(files, inv.date.year);
    InvestedAppend(LoadYearTrading(files, inv.date.year).investments, PostInvestment(files, inv).reply.body);
  }

  /** An investment delete keeps each file's totals equal to its records' sums. */
  lemma DeleteInvestmentKeepsConsistent(files: Files, year: int, id: int)
    requires Consistent(files)
    ensures Consistent(DeleteInvestment(files, year, id).store)
  {
    LoadConsistent(files, year);
    var t := LoadYearTrading(files, year);
    match InvestmentWithId(t.investments, id)
    case None =>
    case Some(p) =>
      InvestedRemoveAt(t.investments, p);
      assert RemoveAt(t.investments, p) == t.investments[..p] + t.investments[p + 1..];
  }

  /** A liquidity post keeps each file's totals equal to its records' sums. */
  lemma PostLiquidityKeepsConsistent(files: Files, liq: Liquidity)
    requires Consistent(files)
    ensures Consistent(PostLiquidity(files, liq).store)
  {
    LoadConsistent(files, liq.date.year);
    var t := LoadYearTrading(files, liq.date.year);
    LiquidAppend(LiquidityApi.WithoutFirstOn(t.liquidities, liq.date), PostLiquidity(files, liq).reply.body);
  }

  /** A liquidity delete keeps each file's totals equal to its records' sums. */
  lemma DeleteLiquidityKeepsConsistent(files: Files, year: int, id: int)
    requires Consistent(files)
    ensures Consistent(DeleteLiquidity(files, year, id).store)
  {
    LoadConsistent(files, year);
    var t := LoadYearTrading(files, year);
    match LiquidityWithId(t.liquidities, id)
    case None =>
    case Some(p) =>
      LiquidRemoveAt(t.liquidities, p);
      assert RemoveAt(t.liquidities, p) == t.liquidities[..p] + t.liquidities[p + 1..];
  }

  /** Deleting the investment just posted to a stored year, by the id the
      post gave it, answers that investment and restores every file, as long
      as the year's ids have not reached the largest 32-bit value. */
  lemma PostThenDelete(files: Files, inv: Investment)
    requires Keyed(files) && inv.date.year in files
    requires Int32Max !in InvestmentIds(files[inv.date.year].investments)
    ensures var posted := PostInvestment(files, inv);
      DeleteInvestment(posted.store, inv.date.year, posted.reply.body.id) == Response(files, Ok(posted.reply.body))
  {
    var year := inv.date.year;
    var posted := PostInvestment(files, inv);
    var x := posted.reply.body;
    var t := files[year];
    assert x.id !in InvestmentIds(t.investments);
    FindAppendedInvestment(t.investments, x);
    assert posted.store[year].investments == t.investments + [x];
    var deleted := DeleteInvestment(posted.store, year, x.id);
    assert deleted.store[year] == t;
    assert deleted.store == files;
  }

  /** For a year with no file the post creates one, and the delete empties
      it again but leaves the empty record of the year behind. */
  lemma PostThenDeleteNewYear(files: Files, inv: Investment)
    requires inv.date.year !in files
    ensures var posted := PostInvestment(files, inv);
      DeleteInvestment(posted.store, inv.date.year, posted.reply.body.id)
        == Response(files[inv.date.year := EmptyYear(inv.date.year)], Ok(posted.reply.body))
  {
    var year := inv.date.year;
    var posted := PostInvestment(files, inv);
    var x := posted.reply.body;
    FindAppendedInvestment([], x);
    assert [] + [x] == [x];
    assert posted.store[year].investments == [x];
    var deleted := DeleteInvestment(posted.store, year, x.id);
    assert deleted.store[year] == EmptyYear(year);
    assert deleted.store == files[year := EmptyYear(year)];
  }

  /** The legacy ids stay distinct as long as none has reached the largest
      32-bit value; at that value the next id wraps to the smallest one. */
  lemma PostKeepsIdsUnique(files: Files, inv: Investment)
    requires Keyed(files)
    requires var ids := InvestmentIds(LoadYearTrading(files, inv.date.year).investments);
      UniqueIds(ids) && Int32Max !in ids
    ensures var after := PostInvestment(files, inv).store;
      UniqueIds(InvestmentIds(after[inv.date.year].investments))
  {
    var t := LoadYearTrading(files, inv.date.year);
    var x := PostInvestment(files, inv).reply.body;
    var ids := InvestmentIds(t.investments);
    assert InvestmentIds(t.investments + [x]) == ids + [x.id];
    forall j | 0 <= j < |ids| ensures ids[j] != x.id {
      assert ids[j] in ids;
    }
  }

  /** A liquidity post leaves exactly one observation on its date when the
      year held at most one, and keeps the others in order. */
  lemma PostLiquidityOnDate(files: Files, liq: Liquidity)
    requires Keyed(files)
    ensures var before := LoadYearTrading(files, liq.date.year).liquidities;
      var after := PostLiquidity(files, liq).store[liq.date.year].liquidities;
      && CountOn(after, liq.date) == (if CountOn(before, liq.date) == 0 then 1 else CountOn(before, liq.date))
      && OtherDates(after, liq.date) == OtherDates(before, liq.date)
  {
    LiquidityApi.UpsertOnDate(LoadYearTrading(files, liq.date.year).liquidities, PostLiquidity(files, liq).reply.body);
  }
}
