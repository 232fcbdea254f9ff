/** How the controllers choose the id of a new record. */
module Ids {

  const Int32Min := -0x8000_0000
  const Int32Max := 0x7fff_ffff

  lemma {:induction false} DistinctSetSize(s: seq<int>)
    ensures |set x | x in s| <= |s|
    decreases |s|
  {
    if |s| > 0 {
      DistinctSetSize(s[1..]);
      assert (set x | x in s) == (set x | x in s[1..]) + {s[0]};
    }
  }

  lemma {:induction false} CoveredRangeSize(used: set<int>, n: nat)
    requires forall j :: 0 <= j < n ==> j in used
    ensures n <= |used|
  {
    if n > 0 {
      CoveredRangeSize(used - {n - 1}, n - 1);
    }
  }

  /** When every id below `n` is in use, the list has at least `n` records. */
  lemma UsedPrefixBound(ids: seq<int>, n: nat)
    requires forall j :: 0 <= j < n ==> j in ids
    ensures n <= |ids|
  {
    CoveredRangeSize((set x | x in ids), n);
    DistinctSetSize(ids);
  }

  /** The loop `while (usedIds.Contains(nextId)) nextId++;` started at `k`. */
  function SmallestUnusedFrom(ids: seq<int>, k: nat): (r: nat)
    requires forall j :: 0 <= j < k ==> j in ids
    ensures k <= r && r !in ids
    ensures forall j :: 0 <= j < r ==> j in ids
    decreases |ids| - k
  {
    if k in ids then
      UsedPrefixBound(ids, k + 1);
      SmallestUnusedFrom(ids, k + 1)
    else k
  }

  /** The id the database-backed controllers give a new record: the
      smallest non-negative integer not yet used in the list. It never
      exceeds the number of records, so the `int` counter cannot overflow. */
  function SmallestUnused(ids: seq<int>): (r: nat)
    ensures r !in ids
    ensures forall j :: 0 <= j < r ==> j in ids
    ensures r <= |ids|
  {
    var r := SmallestUnusedFrom(ids, 0);
    UsedPrefixBound(ids, r);
    r
  }

  function MaxOf(ids: seq<int>): (m: int)
    requires |ids| > 0
    ensures m in ids && forall x :: x in ids ==> x <= m
  {
    if |ids| == 1 then ids[0]
    else
      var rest := MaxOf(ids[1..]);
      assert forall x :: x in ids ==> x == ids[0] || x in ids[1..];
      if ids[0] >= rest then ids[0] else rest
  }

  /** The id the legacy file-backed controller gives a new record:
      `list.Any() ? list.Max(i => i.Id) + 1 : 1`, with C#'s unchecked
      32-bit addition, so the maximal `int` wraps to the minimal one. */
  function NextAfterMax(ids: seq<int>): (r: int)
    ensures |ids| == 0 ==> r == 1
    ensures |ids| > 0 && Int32Max !in ids ==> r - 1 in ids && forall x :: x in ids ==> x < r
    ensures (forall x :: x in ids ==> x <= Int32Max) && Int32Max in ids ==> r == Int32Min
  {
    if |ids| == 0 then 1
    else
      var m := MaxOf(ids);
      if m == Int32Max then Int32Min else m + 1
  }
}
