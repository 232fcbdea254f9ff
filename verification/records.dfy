/** The stored entities: investment and liquidity records, and helpers on
    lists of them (totals, ids, first match, removal). */
module Records {
  import opened Results
  import opened Calendar
  import opened Money

  /** One capital movement (`Investment`; `Type` is called `kind` here). */
  datatype Investment = Investment(id: int, date: DateOnly, amount: real, kind: string, name: string)

  /** One observation of the portfolio's total value (`Liquidity`, and the
      legacy `LiquidityData`, which has the same three fields). */
  datatype Liquidity = Liquidity(id: int, date: DateOnly, amount: real)

  function InvestmentAmounts(s: seq<Investment>): (r: seq<real>)
    ensures |r| == |s| && forall i :: 0 <= i < |s| ==> r[i] == s[i].amount
  {
    seq(|s|, i requires 0 <= i < |s| => s[i].amount)
  }

  function LiquidityAmounts(s: seq<Liquidity>): (r: seq<real>)
    ensures |r| == |s| && forall i :: 0 <= i < |s| ==> r[i] == s[i].amount
  {
    seq(|s|, i requires 0 <= i < |s| => s[i].amount)
  }

  function InvestmentIds(s: seq<Investment>): (r: seq<int>)
    ensures |r| == |s| && forall i :: 0 <= i < |s| ==> r[i] == s[i].id
  {
    seq(|s|, i requires 0 <= i < |s| => s[i].id)
  }

  function LiquidityIds(s: seq<Liquidity>): (r: seq<int>)
    ensures |r| == |s| && forall i :: 0 <= i < |s| ==> r[i] == s[i].id
  {
    seq(|s|, i requires 0 <= i < |s| => s[i].id)
  }

  /** The sum of all investment amounts of a list. */
  function Invested(s: seq<Investment>): real { Sum(InvestmentAmounts(s)) }

  /** The sum of all liquidity amounts of a list. */
  function Liquid(s: seq<Liquidity>): real { Sum(LiquidityAmounts(s)) }

  /** `list.Remove(item)` where `item` sits at index `k`. */
  function RemoveAt<T>(s: seq<T>, k: nat): (r: seq<T>)
    requires k < |s|
    ensures |r| == |s| - 1
    ensures forall i :: 0 <= i < k ==> r[i] == s[i]
    ensures forall i :: k <= i < |r| ==> r[i] == s[i + 1]
  {
    s[..k] + s[k + 1..]
  }

  /** Removing before the last element keeps the last element last. */
  lemma RemoveAtSnoc<T>(s: seq<T>, k: nat)
    requires k + 1 < |s|
    ensures RemoveAt(s, k) == RemoveAt(s[..|s| - 1], k) + [s[|s| - 1]]
  {
    var a := RemoveAt(s, k);
    var b := RemoveAt(s[..|s| - 1], k) + [s[|s| - 1]];
    assert |a| == |b|;
    forall i | 0 <= i < |a| ensures a[i] == b[i] {
      if i < k {
        assert b[i] == s[..|s| - 1][i];
      } else if i < |a| - 1 {
        assert b[i] == s[..|s| - 1][i + 1];
      }
    }
  }

  lemma RemoveAtMultiset<T>(s: seq<T>, k: nat)
    requires k < |s|
    ensures multiset(RemoveAt(s, k)) == multiset(s) - multiset{s[k]}
  {
    assert s == s[..k] + [s[k]] + s[k + 1..];
  }

  /** `FirstOrDefault(p)`: the index of the first element satisfying `p`. */
  function FirstIndex<T>(s: seq<T>, p: T -> bool): (r: Option<nat>)
    ensures r.Some? ==> r.value < |s| && p(s[r.value]) && forall j :: 0 <= j < r.value ==> !p(s[j])
    ensures r.None? <==> forall j :: 0 <= j < |s| ==> !p(s[j])
  {
    if |s| == 0 then None
    else if p(s[0]) then Some(0)
    else match FirstIndex(s[1..], p)
      case None => None
      case Some(j) => Some(j + 1)
  }

  /** `FirstOrDefault(i => i.Id == id)` on a list of investments. */
  function InvestmentWithId(s: seq<Investment>, id: int): (r: Option<nat>)
    ensures r.Some? ==> r.value < |s| && s[r.value].id == id
    ensures r.Some? ==> forall j :: 0 <= j < r.value ==> s[j].id != id
    ensures r.None? <==> id !in InvestmentIds(s)
  {
    FirstIndex(s, (x: Investment) => x.id == id)
  }

  /** A record appended under an id the list does not use is the one that
      id finds, and removing it gives the list back. */
  lemma FindAppendedInvestment(s: seq<Investment>, x: Investment)
    requires x.id !in InvestmentIds(s)
    ensures InvestmentWithId(s + [x], x.id) == Some(|s|)
    ensures RemoveAt(s + [x], |s|) == s
  {
    var t := s + [x];
    assert t[|s|].id == x.id;
    forall j | 0 <= j < |s| ensures t[j].id != x.id {
      assert t[j] == s[j];
      assert InvestmentIds(s)[j] in InvestmentIds(s);
    }
    assert t[..|s|] == s;
  }

  /** `FirstOrDefault(l => l.Id == id)` on a list of liquidity observations. */
  function LiquidityWithId(s: seq<Liquidity>, id: int): (r: Option<nat>)
    ensures r.Some? ==> r.value < |s| && s[r.value].id == id
    ensures r.Some? ==> forall j :: 0 <= j < r.value ==> s[j].id != id
    ensures r.None? <==> id !in LiquidityIds(s)
  {
    FirstIndex(s, (x: Liquidity) => x.id == id)
  }

  /** `FirstOrDefault(x => x.Date == date)`: the first observation on `d`. */
  function LiquidityOn(s: seq<Liquidity>, d: DateOnly): (r: Option<nat>)
    ensures r.Some? ==> r.value < |s| && s[r.value].date == d
    ensures r.Some? ==> forall j :: 0 <= j < r.value ==> s[j].date != d
    ensures r.None? <==> forall j :: 0 <= j < |s| ==> s[j].date != d
  {
    FirstIndex(s, (x: Liquidity) => x.date == d)
  }

  lemma InvestedAppend(s: seq<Investment>, x: Investment)
    ensures Invested(s + [x]) == Invested(s) + x.amount
  {
    assert InvestmentAmounts(s + [x]) == InvestmentAmounts(s) + [x.amount];
    SumAppend(InvestmentAmounts(s), [x.amount]);
    assert Sum([x.amount]) == Sum([]) + x.amount;
  }

  lemma InvestedRemoveAt(s: seq<Investment>, k: nat)
    requires k < |s|
    ensures Invested(RemoveAt(s, k)) == Invested(s) - s[k].amount
  {
    var a := InvestmentAmounts(s);
    assert InvestmentAmounts(RemoveAt(s, k)) == a[..k] + a[k + 1..];
    SumRemoveAt(a, k);
  }

  lemma LiquidAppend(s: seq<Liquidity>, x: Liquidity)
    ensures Liquid(s + [x]) == Liquid(s) + x.amount
  {
    assert LiquidityAmounts(s + [x]) == LiquidityAmounts(s) + [x.amount];
    SumAppend(LiquidityAmounts(s), [x.amount]);
    assert Sum([x.amount]) == Sum([]) + x.amount;
  }

  lemma LiquidRemoveAt(s: seq<Liquidity>, k: nat)
    requires k < |s|
    ensures Liquid(RemoveAt(s, k)) == Liquid(s) - s[k].amount
  {
    var a := LiquidityAmounts(s);
    assert LiquidityAmounts(RemoveAt(s, k)) == a[..k] + a[k + 1..];
    SumRemoveAt(a, k);
  }

  /** No two records of the list share an id. */
  predicate UniqueIds(ids: seq<int>) {
    forall i, j :: 0 <= i < j < |ids| ==> ids[i] != ids[j]
  }

  /** No two liquidity observations of the list share a date. */
  predicate DistinctDates(s: seq<Liquidity>) {
    forall i, j :: 0 <= i < j < |s| ==> s[i].date != s[j].date
  }

  /** How many liquidity observations of the list fall on `d`. */
  function CountOn(s: seq<Liquidity>, d: DateOnly): nat
  {
    if |s| == 0 then 0 else CountOn(s[..|s| - 1], d) + (if s[|s| - 1].date == d then 1 else 0)
  }

  /** The observations of the list that are not on `d`, in order. */
  function OtherDates(s: seq<Liquidity>, d: DateOnly): seq<Liquidity>
  {
    if |s| == 0 then [] else OtherDates(s[..|s| - 1], d) + (if s[|s| - 1].date == d then [] else [s[|s| - 1]])
  }

  /** The observations of the list that are on `d`, in order. */
  function OnDate(s: seq<Liquidity>, d: DateOnly): seq<Liquidity>
  {
    if |s| == 0 then [] else OnDate(s[..|s| - 1], d) + (if s[|s| - 1].date == d then [s[|s| - 1]] else [])
  }

  lemma {:induction false} OnDateAppend(a: seq<Liquidity>, b: seq<Liquidity>, d: DateOnly)
    ensures OnDate(a + b, d) == OnDate(a, d) + OnDate(b, d)
    decreases |b|
  {
    if |b| == 0 {
      assert a + b == a;
    } else {
      assert (a + b)[..|a + b| - 1] == a + b[..|b| - 1];
      OnDateAppend(a, b[..|b| - 1], d);
    }
  }

  /** Putting one observation in front of a list. */
  lemma OnDateCons(x: Liquidity, s: seq<Liquidity>, d: DateOnly)
    ensures OnDate([x] + s, d) == (if x.date == d then [x] else []) + OnDate(s, d)
  {
    OnDateAppend([x], s, d);
    assert [x][..0] == [];
  }

  lemma {:induction false} CountOnZero(s: seq<Liquidity>, d: DateOnly)
    ensures CountOn(s, d) == 0 <==> forall j :: 0 <= j < |s| ==> s[j].date != d
  {
    if |s| > 0 {
      CountOnZero(s[..|s| - 1], d);
      assert forall j :: 0 <= j < |s| - 1 ==> s[..|s| - 1][j] == s[j];
    }
  }

  lemma {:induction false} CountOnAppend(a: seq<Liquidity>, b: seq<Liquidity>, d: DateOnly)
    ensures CountOn(a + b, d) == CountOn(a, d) + CountOn(b, d)
    ensures OtherDates(a + b, d) == OtherDates(a, d) + OtherDates(b, d)
    decreases |b|
  {
    if |b| == 0 {
      assert a + b == a;
    } else {
      assert (a + b)[..|a + b| - 1] == a + b[..|b| - 1];
      CountOnAppend(a, b[..|b| - 1], d);
    }
  }

  /** Removing a record on date `d` lowers the count on `d` by one and keeps
      every record on another date in place. */
  lemma RemoveOnDate(s: seq<Liquidity>, k: nat, d: DateOnly)
    requires k < |s| && s[k].date == d
    ensures CountOn(RemoveAt(s, k), d) == CountOn(s, d) - 1
    ensures OtherDates(RemoveAt(s, k), d) == OtherDates(s, d)
  {
    assert s == s[..k] + ([s[k]] + s[k + 1..]);
    CountOnAppend(s[..k], [s[k]] + s[k + 1..], d);
    CountOnAppend([s[k]], s[k + 1..], d);
    CountOnAppend(s[..k], s[k + 1..], d);
    assert CountOn([s[k]], d) == CountOn([], d) + 1;
    assert OtherDates([s[k]], d) == OtherDates([], d) + [];
  }

  lemma {:induction false} DistinctDatesCount(s: seq<Liquidity>)
    ensures DistinctDates(s) <==> forall j :: 0 <= j < |s| ==> CountOn(s, s[j].date) == 1
    decreases |s|
  {
    if |s| > 0 {
      var init := s[..|s| - 1];
      var last := s[|s| - 1];
      DistinctDatesCount(init);
      assert forall j :: 0 <= j < |init| ==> init[j] == s[j];
      forall j | 0 <= j < |s| ensures CountOn(s, s[j].date) >= 1 {
        CountAtLeastOne(s, j);
      }
      if DistinctDates(s) {
        assert DistinctDates(init);
        CountOnZero(init, last.date);
      } else {
        var i, j :| 0 <= i < j < |s| && s[i].date == s[j].date;
        if j < |s| - 1 {
          assert init[i].date == init[j].date;
          assert !DistinctDates(init);
          var a :| 0 <= a < |init| && CountOn(init, init[a].date) != 1;
          CountAtLeastOne(init, a);
          assert s[a] == init[a];
          assert CountOn(s, s[a].date) >= 2;
        } else {
          CountAtLeastOne(init, i);
          assert CountOn(s, s[i].date) == CountOn(init, init[i].date) + 1;
        }
      }
    }
  }

  lemma {:induction false} CountAtLeastOne(s: seq<Liquidity>, j: nat)
    requires j < |s|
    ensures CountOn(s, s[j].date) >= 1
    decreases |s|
  {
    if j < |s| - 1 {
      CountAtLeastOne(s[..|s| - 1], j);
    }
  }
}
