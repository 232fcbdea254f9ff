/** Exact decimal amounts: sums and `Math.Round(x, 2)`. */
module Money {

  /** Left-to-right total, as a `foreach` accumulating into a decimal. */
  function Sum(xs: seq<real>): real
  {
    if |xs| == 0 then 0.0 else Sum(xs[..|xs| - 1]) + xs[|xs| - 1]
  }

  lemma {:induction false} SumAppend(a: seq<real>, b: seq<real>)
    ensures Sum(a + b) == Sum(a) + Sum(b)
    decreases |b|
  {
    if |b| > 0 {
      assert (a + b)[..|a + b| - 1] == a + b[..|b| - 1];
      SumAppend(a, b[..|b| - 1]);
    } else {
      assert a + b == a;
    }
  }

  lemma SumRemoveAt(xs: seq<real>, k: nat)
    requires k < |xs|
    ensures Sum(xs[..k] + xs[k + 1..]) == Sum(xs) - xs[k]
  {
    assert xs == xs[..k] + ([xs[k]] + xs[k + 1..]);
    SumAppend(xs[..k], [xs[k]] + xs[k + 1..]);
    SumAppend([xs[k]], xs[k + 1..]);
    SumAppend(xs[..k], xs[k + 1..]);
    assert Sum([xs[k]]) == Sum([]) + xs[k];
  }

  /** `r` is a whole number of hundredths. */
  predicate IsCents(r: real) {
    (r * 100.0).Floor as real == r * 100.0
  }

  /** `Math.Round(x, 2)` on a decimal: the nearest multiple of 0.01, a tie
      going to the multiple whose last digit is even (MidpointRounding.ToEven,
      the .NET default). */
  function Round2(x: real): (r: real)
    ensures IsCents(r)
    ensures -0.5 <= r * 100.0 - x * 100.0 <= 0.5
    ensures r * 100.0 - x * 100.0 == 0.5 || x * 100.0 - r * 100.0 == 0.5 ==> (r * 100.0).Floor % 2 == 0
  {
    var y := x * 100.0;
    var f := y.Floor;
    var frac := y - f as real;
    var n := if frac < 0.5 then f else if frac > 0.5 then f + 1 else if f % 2 == 0 then f else f + 1;
    assert (n as real / 100.0) * 100.0 == n as real;
    n as real / 100.0
  }

  /** The three facts of `Round2`'s contract pin the result down: no other
      value is a whole number of hundredths within half a hundredth of `x`
      with ties broken to even. */
  lemma Round2Unique(x: real, r: real)
    requires IsCents(r)
    requires -0.5 <= r * 100.0 - x * 100.0 <= 0.5
    requires r * 100.0 - x * 100.0 == 0.5 || x * 100.0 - r * 100.0 == 0.5 ==> (r * 100.0).Floor % 2 == 0
    ensures r == Round2(x)
  {
    var q := Round2(x);
    var y := x * 100.0;
    var a := (r * 100.0).Floor;
    var b := (q * 100.0).Floor;
    NearestEvenInteger(y, a, b);
  }

  /** Two integers each within a half of `y`, ties broken to even, agree. */
  lemma NearestEvenInteger(y: real, a: int, b: int)
    requires -0.5 <= a as real - y <= 0.5 && -0.5 <= b as real - y <= 0.5
    requires a as real - y == 0.5 || y - a as real == 0.5 ==> a % 2 == 0
    requires b as real - y == 0.5 || y - b as real == 0.5 ==> b % 2 == 0
    ensures a == b
  {
  }

  /** Rounding leaves an amount that already has two decimals unchanged. */
  lemma Round2OfCents(x: real)
    requires IsCents(x)
    ensures Round2(x) == x
  {
    Round2Unique(x, x);
  }
}
