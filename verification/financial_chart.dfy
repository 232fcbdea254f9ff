/** The pure helpers of the `FinancialChart` client component: the month
    selector (its options, their Italian names, and the month number sent
    to the server) and the per-date folds over the year's records. Values
    are modelled in the subset the component handles: JavaScript strings as
    `string`, numbers as `int` or `real`, and `NaN` / `undefined` as values
    of their own. */
module FinancialChart {
  import opened Results
  import opened Text
  import opened Calendar

  /** An investment and a liquidity observation as the client receives them:
      the date is the server's `yyyy-MM-dd` text. */
  datatype ClientInvestment = ClientInvestment(date: string, amount: real, kind: string, name: string)
  datatype ClientLiquidity = ClientLiquidity(date: string, amount: real)

  /** A JavaScript value where a number is expected. */
  datatype JsValue = Num(n: int) | NaN | Undefined

  /** The month names the selector shows, January first. */
  const MonthNames: seq<string> := [
    "Gennaio", "Febbraio", "Marzo", "Aprile", "Maggio", "Giugno",
    "Luglio", "Agosto", "Settembre", "Ottobre", "Novembre", "Dicembre"]

  /** What a template literal prints for an `undefined` array element. */
  const UndefinedText: string := "undefined"

  // ---------------------------------------------------------------------
  // Number conversions
  // ---------------------------------------------------------------------

  /** The white space and line terminators JavaScript skips around numbers
      (section 7.2 and 7.3 of ECMA-262): tab, vertical tab, form feed, the
      space separators of Unicode category Zs, the byte order mark, and the
      four line terminators. */
  predicate IsJsSpace(c: char) {
    var n := c as int;
    || 0x09 <= n <= 0x0D
    || n == 0x20 || n == 0xA0 || n == 0x1680
    || 0x2000 <= n <= 0x200A
    || n == 0x2028 || n == 0x2029 || n == 0x202F || n == 0x205F
    || n == 0x3000 || n == 0xFEFF
  }

  function TrimStart(s: string): (r: string)
    ensures |r| <= |s| && r == s[|s| - |r|..]
    ensures |r| > 0 ==> !IsJsSpace(r[0])
    ensures forall i :: 0 <= i < |s| - |r| ==> IsJsSpace(s[i])
  {
    if |s| > 0 && IsJsSpace(s[0]) then TrimStart(s[1..]) else s
  }

  function TrimEnd(s: string): (r: string)
    ensures |r| <= |s| && r == s[..|r|]
    ensures |r| > 0 ==> !IsJsSpace(r[|r| - 1])
    ensures forall i :: |r| <= i < |s| ==> IsJsSpace(s[i])
  {
    if |s| > 0 && IsJsSpace(s[|s| - 1]) then TrimEnd(s[..|s| - 1]) else s
  }

  /** The longest prefix of decimal digits. */
  function LeadingDigits(s: string): (r: string)
    ensures AllDigits(r) && |r| <= |s| && r == s[..|r|]
    ensures |r| < |s| ==> !IsDigit(s[|r|])
  {
    if |s| > 0 && IsDigit(s[0]) then [s[0]] + LeadingDigits(s[1..]) else ""
  }

  /** `parseInt(s, 10)`: skip leading white space, read an optional sign and
      the longest run of digits after it; `NaN` when there are none, and for
      `undefined`, whose text has no digits. */
  function ParseIntJs(s: Option<string>): (r: JsValue)
    ensures r.Num? || r == NaN
  {
    match s
    case None => NaN
    case Some(text) =>
      var t := TrimStart(text);
      var negative := |t| > 0 && t[0] == '-';
      var rest := if |t| > 0 && (t[0] == '-' || t[0] == '+') then t[1..] else t;
      var digits := LeadingDigits(rest);
      if |digits| == 0 then NaN
      else if negative then Num(0 - DigitsValue(digits) as int)
      else Num(DigitsValue(digits))
  }

  /** `Number(s)` on the decimal-integer strings: white space around is
      ignored, the empty string is 0, an optional sign and digits give their
      value, anything else is `NaN`. */
  function NumberJs(s: string): (r: JsValue)
    ensures r.Num? || r == NaN
    ensures AllDigits(s) && |s| > 0 ==> r == Num(DigitsValue(s))
  {
    var t := TrimEnd(TrimStart(s));
    if |t| == 0 then Num(0)
    else
      var negative := t[0] == '-';
      var rest := if t[0] == '-' || t[0] == '+' then t[1..] else t;
      if |rest| == 0 || !AllDigits(rest) then NaN
      else if negative then Num(0 - DigitsValue(rest) as int)
      else
        assert AllDigits(s) && |s| > 0 ==> t == s by {
          if AllDigits(s) && |s| > 0 {
            assert !IsJsSpace(s[0]) && !IsJsSpace(s[|s| - 1]);
          }
        }
        Num(DigitsValue(rest))
  }

  // ---------------------------------------------------------------------
  // The month selector
  // ---------------------------------------------------------------------

  /** The second `-`-separated piece of a string, `undefined` if none. */
  function SecondPiece(s: string): (r: Option<string>)
    ensures r.Some? <==> '-' in s
  {
    var pieces := Split(s, '-');
    assert '-' !in s ==> |pieces| == 1 by {
      if '-' !in s { SplitNoSeparator(s, '-'); }
    }
    if |pieces| >= 2 then Some(pieces[1])
    else
      assert Join(pieces, '-') == pieces[0];
      None
  }

  /** `formatMonthYear(monthStr)`: the name of the month in the part after
      the first `-`; the year is dropped, and any month outside 1..12 prints
      as "undefined". */
  function FormatMonthYear(monthStr: string): (r: string)
    ensures r == UndefinedText || r in MonthNames
    ensures r != UndefinedText <==>
      var m := ParseIntJs(SecondPiece(monthStr)); m.Num? && 1 <= m.n <= 12
  {
    var m := ParseIntJs(SecondPiece(monthStr));
    if m.Num? && 0 <= m.n - 1 < |MonthNames| then MonthNames[m.n - 1] else UndefinedText
  }

  /** `extractYearAndMonth(monthStr).month`: 0 for the empty selection,
      otherwise `Number` of the part after the first `-`. */
  function ExtractMonth(monthStr: string): (r: JsValue)
    ensures monthStr == "" ==> r == Num(0)
    ensures monthStr != "" && '-' !in monthStr ==> r == Undefined
  {
    if monthStr == "" then Num(0)
    else match SecondPiece(monthStr)
      case None => Undefined
      case Some(piece) => NumberJs(piece)
  }

  /** `s.slice(0, 7)`. */
  function Slice7(s: string): (r: string)
    ensures |r| == if |s| < 7 then |s| else 7
    ensures r <= s
  {
    if |s| < 7 then s else s[..7]
  }

  /** The month option of a date: its `yyyy-MM` prefix. */
  function MonthKey(d: DateOnly): (r: string)
    ensures r == Slice7(IsoString(d))
    ensures |r| == 7 && r[4] == '-' && AllDigits(r[..4]) && AllDigits(r[5..])
    ensures DigitsValue(r[..4]) == d.year && DigitsValue(r[5..]) == d.month
  {
    var s := IsoString(d);
    assert s[..7][..4] == s[..4] && s[..7][5..] == s[5..7];
    s[..7]
  }

  /** A month option splits into its year and its month. */
  lemma MonthKeyPieces(d: DateOnly)
    ensures SecondPiece(MonthKey(d)) == Some(MonthKey(d)[5..])
  {
    var k := MonthKey(d);
    var y := k[..4];
    var m := k[5..];
    assert '-' !in y by {
      forall i | 0 <= i < |y| ensures y[i] != '-' { assert IsDigit(y[i]); }
    }
    assert '-' !in m by {
      forall i | 0 <= i < |m| ensures m[i] != '-' { assert IsDigit(m[i]); }
    }
    assert k == y + ['-'] + m;
    SplitFirstPiece(y, '-', m);
    SplitNoSeparator(m, '-');
  }

  /** Choosing the option of a date sends the server that date's month. */
  lemma ExtractMonthOfKey(d: DateOnly)
    ensures ExtractMonth(MonthKey(d)) == Num(d.month)
  {
    MonthKeyPieces(d);
  }

  /** The part after the first `-` of a string with exactly one `-`. */
  lemma SecondPieceOf(y: string, m: string)
    requires '-' !in y && '-' !in m
    ensures SecondPiece(y + ['-'] + m) == Some(m)
  {
    SplitFirstPiece(y, '-', m);
    SplitNoSeparator(m, '-');
  }

  /** White space in front of the month, a no-break space or any other that
      JavaScript skips, does not change the label. */
  lemma SpaceBeforeMonth(y: string, c: char, m: string, n: int)
    requires '-' !in y && IsJsSpace(c)
    requires AllDigits(m) && |m| > 0 && n == DigitsValue(m) && 1 <= n <= 12
    ensures FormatMonthYear(y + ['-'] + ([c] + m)) == MonthNames[n - 1]
  {
    NoDashAfterSpace(c, m);
    ParseIntJsAfterSpace(c, m);
    MonthPieceLabel(y, [c] + m, n);
  }

  /** The label of `y-piece` when the piece parses to a month `n`. */
  lemma MonthPieceLabel(y: string, piece: string, n: int)
    requires '-' !in y && '-' !in piece
    requires ParseIntJs(Some(piece)) == Num(n) && 1 <= n <= 12
    ensures FormatMonthYear(y + ['-'] + piece) == MonthNames[n - 1]
  {
    SecondPieceOf(y, piece);
    FormatMonthOf(y + ['-'] + piece, n);
  }

  lemma NoDashAfterSpace(c: char, m: string)
    requires IsJsSpace(c) && AllDigits(m)
    ensures '-' !in [c] + m
  {
    var piece := [c] + m;
    forall i | 0 <= i < |piece| ensures piece[i] != '-' {
      if i > 0 { assert piece[i] == m[i - 1] && IsDigit(m[i - 1]); }
    }
  }

  /** `parseInt` skips one leading white-space character before digits. */
  lemma ParseIntJsAfterSpace(c: char, m: string)
    requires IsJsSpace(c) && AllDigits(m) && |m| > 0
    ensures ParseIntJs(Some([c] + m)) == Num(DigitsValue(m))
  {
    var piece := [c] + m;
    DigitNotSpace(m[0]);
    assert TrimStart(m) == m;
    assert piece[1..] == m;
    assert TrimStart(piece) == TrimStart(m);
    ParseIntJsDigits(m);
  }

  lemma DigitNotSpace(c: char)
    requires IsDigit(c)
    ensures !IsJsSpace(c)
  {
  }

  /** The label of a string whose month piece parses to `n` in 1..12. */
  lemma FormatMonthOf(s: string, n: int)
    requires ParseIntJs(SecondPiece(s)) == Num(n) && 1 <= n <= 12
    ensures FormatMonthYear(s) == MonthNames[n - 1]
  {
  }

  /** In particular, a no-break space (U+00A0) before the month is skipped. */
  lemma NoBreakSpaceSkipped(y: string, m: string, n: int)
    requires '-' !in y && AllDigits(m) && |m| > 0 && n == DigitsValue(m) && 1 <= n <= 12
    ensures FormatMonthYear(y + ['-'] + ([0xA0 as char] + m)) == MonthNames[n - 1]
  {
    SpaceBeforeMonth(y, 0xA0 as char, m, n);
  }

  /** The option of a date is labelled with the name of its month. */
  lemma FormatMonthKey(d: DateOnly)
    ensures FormatMonthYear(MonthKey(d)) == MonthNames[d.month - 1]
  {
    var m := MonthKey(d)[5..];
    MonthKeyPieces(d);
    ParseIntJsDigits(m);
    assert ParseIntJs(SecondPiece(MonthKey(d))) == Num(d.month);
  }

  /** `parseInt` reads a string of digits as its value. */
  lemma ParseIntJsDigits(s: string)
    requires AllDigits(s) && |s| > 0
    ensures ParseIntJs(Some(s)) == Num(DigitsValue(s))
  {
    assert IsDigit(s[0]);
    assert TrimStart(s) == s;
    assert !(s[0] == '-' || s[0] == '+');
    LeadingDigitsAll(s);
  }

  lemma {:induction false} LeadingDigitsAll(s: string)
    requires AllDigits(s)
    ensures LeadingDigits(s) == s
  {
    if |s| > 0 {
      LeadingDigitsAll(s[1..]);
      assert [s[0]] + s[1..] == s;
    }
  }

  /** `[...new Set(liquidities.map(l => l.date.slice(0, 7)))].sort()`: the
      distinct month prefixes, ascending as strings. */
  function MonthOptions(liqs: seq<ClientLiquidity>): (r: seq<string>)
    ensures StrictlyAscending(r)
    ensures forall o :: o in r <==> exists i :: 0 <= i < |liqs| && o == Slice7(liqs[i].date)
  {
    var prefixes := seq(|liqs|, i requires 0 <= i < |liqs| => Slice7(liqs[i].date));
    assert forall i :: 0 <= i < |liqs| ==> prefixes[i] == Slice7(liqs[i].date);
    SortDistinct(prefixes)
  }

  /** The options do not depend on how the sort works: any ascending list of
      the distinct prefixes is this one. */
  lemma MonthOptionsDetermined(liqs: seq<ClientLiquidity>, other: seq<string>)
    requires StrictlyAscending(other)
    requires forall o :: o in other <==> exists i :: 0 <= i < |liqs| && o == Slice7(liqs[i].date)
    ensures other == MonthOptions(liqs)
  {
    AscendingUnique(other, MonthOptions(liqs));
  }

  /** For observations as the server sends them, every option names a
      month in 1..12 that has an observation, and selecting it sends that
      month and shows its name. */
  lemma MonthOptionsSelectable(liqs: seq<ClientLiquidity>, dates: seq<DateOnly>, o: string)
    requires |dates| == |liqs|
    requires forall i :: 0 <= i < |liqs| ==> liqs[i].date == IsoString(dates[i])
    requires o in MonthOptions(liqs)
    ensures exists i :: (0 <= i < |liqs|
      && ExtractMonth(o) == Num(dates[i].month)
      && FormatMonthYear(o) == MonthNames[dates[i].month - 1])
  {
    var i :| 0 <= i < |liqs| && o == Slice7(liqs[i].date);
    OptionOfDate(dates[i], o);
    assert ExtractMonth(o) == Num(dates[i].month) && FormatMonthYear(o) == MonthNames[dates[i].month - 1];
  }

  /** The option of a date sends its month and shows its name. */
  lemma OptionOfDate(d: DateOnly, o: string)
    requires o == Slice7(IsoString(d))
    ensures ExtractMonth(o) == Num(d.month) && FormatMonthYear(o) == MonthNames[d.month - 1]
  {
    assert o == MonthKey(d);
    ExtractMonthOfKey(d);
    FormatMonthKey(d);
  }

  // ---------------------------------------------------------------------
  // The per-date folds
  // ---------------------------------------------------------------------

  /** The total amount of the investments dated `d`. */
  function AmountOn(invs: seq<ClientInvestment>, d: string): real
  {
    if |invs| == 0 then 0.0
    else (if invs[0].date == d then invs[0].amount else 0.0) + AmountOn(invs[1..], d)
  }

  lemma {:induction false} AmountOnSnoc(invs: seq<ClientInvestment>, x: ClientInvestment, d: string)
    ensures AmountOn(invs + [x], d) == AmountOn(invs, d) + (if x.date == d then x.amount else 0.0)
    decreases |invs|
  {
    if |invs| > 0 {
      assert (invs + [x])[1..] == invs[1..] + [x];
      AmountOnSnoc(invs[1..], x, d);
    }
  }

  /** The `investmentMap` the component builds: `forEach` with
      `set(date, (get(date) || 0) + amount)`. A missing entry and an entry
      of 0 both read as 0 there, so the fold adds to the entry or to 0. */
  function InvestmentMap(invs: seq<ClientInvestment>): (m: map<string, real>)
    ensures forall d :: d in m <==> exists i :: 0 <= i < |invs| && invs[i].date == d
  {
    if |invs| == 0 then map[]
    else
      var init := invs[..|invs| - 1];
      var x := invs[|invs| - 1];
      var m := InvestmentMap(init);
      assert forall i :: 0 <= i < |init| ==> init[i] == invs[i];
      m[x.date := (if x.date in m then m[x.date] else 0.0) + x.amount]
  }

  /** Each entry of `investmentMap` is the total of the investments on its
      date, whatever their order. */
  lemma {:induction false} InvestmentMapSums(invs: seq<ClientInvestment>, d: string)
    requires d in InvestmentMap(invs)
    ensures InvestmentMap(invs)[d] == AmountOn(invs, d)
    decreases |invs|
  {
    var init := invs[..|invs| - 1];
    var x := invs[|invs| - 1];
    assert invs == init + [x];
    AmountOnSnoc(init, x, d);
    if d in InvestmentMap(init) {
      InvestmentMapSums(init, d);
    } else {
      AmountOnAbsent(init, d);
    }
  }

  /** A date no investment carries totals 0. */
  lemma {:induction false} AmountOnAbsent(invs: seq<ClientInvestment>, d: string)
    requires d !in InvestmentMap(invs)
    ensures AmountOn(invs, d) == 0.0
    decreases |invs|
  {
    if |invs| > 0 {
      assert forall i :: 0 <= i < |invs| ==> invs[i].date != d;
      assert forall i :: 0 <= i < |invs| - 1 ==> invs[1..][i] == invs[i + 1];
      AmountOnAbsent(invs[1..], d);
    }
  }

  /** The amount of the last observation dated `d`, if any. */
  function LastAmountOn(liqs: seq<ClientLiquidity>, d: string): (r: Option<real>)
    ensures r.None? <==> forall i :: 0 <= i < |liqs| ==> liqs[i].date != d
    ensures r.Some? ==> exists i :: 0 <= i < |liqs| && liqs[i].date == d && liqs[i].amount == r.value
                                    && forall j :: i < j < |liqs| ==> liqs[j].date != d
  {
    if |liqs| == 0 then None
    else
      var rest := LastAmountOn(liqs[1..], d);
      assert forall j :: 1 <= j < |liqs| ==> liqs[j] == liqs[1..][j - 1];
      if rest.Some? then
        var k :| 0 <= k < |liqs[1..]| && liqs[1..][k].date == d && liqs[1..][k].amount == rest.value
                 && forall j :: k < j < |liqs[1..]| ==> liqs[1..][j].date != d;
        assert liqs[k + 1] == liqs[1..][k];
        rest
      else if liqs[0].date == d then Some(liqs[0].amount)
      else None
  }

  /** The `liquidityMap` the component builds: `forEach` with
      `set(date, amount)`, so a later observation overwrites an earlier one. */
  function LiquidityMap(liqs: seq<ClientLiquidity>): (m: map<string, real>)
    ensures forall d :: d in m <==> exists i :: 0 <= i < |liqs| && liqs[i].date == d
  {
    if |liqs| == 0 then map[]
    else
      var init := liqs[..|liqs| - 1];
      var x := liqs[|liqs| - 1];
      assert forall i :: 0 <= i < |init| ==> init[i] == liqs[i];
      LiquidityMap(init)[x.date := x.amount]
  }

  /** Each entry of `liquidityMap` is the amount of the last observation on
      its date. */
  lemma {:induction false} LiquidityMapKeepsLast(liqs: seq<ClientLiquidity>, d: string)
    ensures d in LiquidityMap(liqs) <==> LastAmountOn(liqs, d).Some?
    ensures d in LiquidityMap(liqs) ==> LiquidityMap(liqs)[d] == LastAmountOn(liqs, d).value
    decreases |liqs|
  {
    if |liqs| > 0 {
      var init := liqs[..|liqs| - 1];
      var x := liqs[|liqs| - 1];
      assert liqs == init + [x];
      LiquidityMapKeepsLast(init, d);
      LastAmountSnoc(init, x, d);
      LiquidityMapSnoc(init, x);
    }
  }

  lemma LiquidityMapSnoc(init: seq<ClientLiquidity>, x: ClientLiquidity)
    ensures LiquidityMap(init + [x]) == LiquidityMap(init)[x.date := x.amount]
  {
    assert (init + [x])[..|init|] == init;
  }

  lemma {:induction false} LastAmountSnoc(liqs: seq<ClientLiquidity>, x: ClientLiquidity, d: string)
    ensures LastAmountOn(liqs + [x], d) == if x.date == d then Some(x.amount) else LastAmountOn(liqs, d)
    decreases |liqs|
  {
    if |liqs| > 0 {
      assert (liqs + [x])[1..] == liqs[1..] + [x];
      LastAmountSnoc(liqs[1..], x, d);
    } else {
      assert [x][1..] == [];
    }
  }
}
