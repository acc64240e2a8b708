/** `ReachableHexes`: the flood fill over the hex grid's `Neighbors`. */
module Reachability {
  import opened HexCore
  import opened Enumerable
  import opened HexRanges
  import opened FloodFill

  /** Every hex reachable from `center` within `range` steps without entering
      an obstructed hex: `center` first (even when obstructed), each hex once,
      no obstructed hex after the first, none farther than `range`. */
  function ReachableHexes(center: Hex, range: int, invalidPositions: seq<Hex>): (s: seq<Hex>)
    ensures |s| >= 1 && s[0] == center
    ensures NoDuplicates(s)
    ensures forall k :: 1 <= k < |s| ==> s[k] !in invalidPositions
    ensures forall x :: x in s ==> GridDistance(x, center) <= if range < 0 then 0 else range
    ensures Elements(s) == Within(Neighbors, center, range, invalidPositions)
    ensures range <= 0 ==> s == [center]
  {
    var s := FloodFrom(Neighbors, center, range, invalidPositions);
    WithinIsInDisk(center, range, invalidPositions);
    assert forall x :: x in s ==> x in Elements(s);
    s
  }

  /** The grid distance to `c`, as a measure. */
  function DistanceFrom(c: Hex): Hex -> nat {
    (y: Hex) => GridDistance(y, c)
  }

  /** A neighbour is at most one step farther from `c`. */
  lemma NeighborsStepByOne(c: Hex)
    ensures GrowsByOne(Neighbors, DistanceFrom(c))
  {
    forall h, y | y in Neighbors(h)
      ensures DistanceFrom(c)(y) <= DistanceFrom(c)(h) + 1
    {
      NeighborDistance(h, y, c);
    }
  }

  /** Nothing reachable lies farther than `k` steps. */
  lemma WithinIsInDisk(center: Hex, k: int, invalid: seq<Hex>)
    ensures forall x :: x in Within(Neighbors, center, k, invalid) ==>
      GridDistance(x, center) <= if k < 0 then 0 else k
  {
    forall x | x in Within(Neighbors, center, k, invalid)
      ensures GridDistance(x, center) <= if k < 0 then 0 else k
    {
      ReachedHexIsNear(center, k, invalid, x);
    }
  }

  lemma ReachedHexIsNear(center: Hex, k: int, invalid: seq<Hex>, x: Hex)
    requires x in Within(Neighbors, center, k, invalid)
    ensures GridDistance(x, center) <= if k < 0 then 0 else k
  {
    NeighborsStepByOne(center);
    ReachedIsNear(Neighbors, DistanceFrom(center), center, k, invalid, x);
    assert DistanceFrom(center)(x) == GridDistance(x, center);
  }

  /** `d` grows by at most one along each `adj` link. */
  ghost predicate GrowsByOne(adj: Hex -> seq<Hex>, d: Hex -> nat) {
    forall h, y :: y in adj(h) ==> d(y) <= d(h) + 1
  }

  /** For any measure `d` that is zero at `center` and grows by at most one
      along `adj`, a hex reached in `k` steps has measure at most `k`. */
  lemma {:induction false} ReachedIsNear(adj: Hex -> seq<Hex>, d: Hex -> nat, center: Hex, k: int,
                                         invalid: seq<Hex>, x: Hex)
    requires GrowsByOne(adj, d)
    requires d(center) == 0
    requires x in Within(adj, center, k, invalid)
    ensures d(x) <= if k < 0 then 0 else k
    decreases k
  {
    if k <= 0 {
      WithinNoSteps(adj, center, k, invalid);
    } else if x in Within(adj, center, k - 1, invalid) {
      ReachedIsNear(adj, d, center, k - 1, invalid, x);
    } else {
      var h := ReachedFrom(adj, center, k, invalid, x);
      ReachedIsNear(adj, d, center, k - 1, invalid, h);
      assert d(x) <= d(h) + 1;
    }
  }

  /** Every hex other than `c` is a neighbour of its step towards `c`. */
  lemma TowardsStepsByOne(c: Hex)
    ensures forall y :: DistanceFrom(c)(y) > 0 ==>
      DistanceFrom(c)(Towards(c, y)) + 1 == DistanceFrom(c)(y) && y in Neighbors(Towards(c, y))
  {
    forall y | DistanceFrom(c)(y) > 0
      ensures DistanceFrom(c)(Towards(c, y)) + 1 == DistanceFrom(c)(y) && y in Neighbors(Towards(c, y))
    {
      TowardsIsCloser(y, c);
      GridDistanceSymmetric(y, Towards(c, y));
    }
  }

  /** Without obstructions every hex of the disk is reached. */
  lemma WithinUnobstructedIsDisk(center: Hex, k: int)
    requires k >= 0
    ensures forall x :: x in Within(Neighbors, center, k, []) <==> GridDistance(x, center) <= k
  {
    WithinIsInDisk(center, k, []);
    forall x | GridDistance(x, center) <= k
      ensures x in Within(Neighbors, center, k, [])
    {
      NearHexIsReached(center, k, x);
    }
  }

  lemma NearHexIsReached(center: Hex, k: int, x: Hex)
    requires GridDistance(x, center) <= k
    ensures x in Within(Neighbors, center, k, [])
  {
    TowardsStepsByOne(center);
    assert DistanceFrom(center)(x) == GridDistance(x, center);
    NearIsReached(Neighbors, DistanceFrom(center), y => Towards(center, y), center, k, x);
  }

  /** For a measure `d` that is zero only at `center` and where every other
      hex is adjacent from a `towards` hex one nearer, a hex of measure at
      most `k` is reached in `k` unobstructed steps. */
  lemma {:induction false} NearIsReached(adj: Hex -> seq<Hex>, d: Hex -> nat, towards: Hex -> Hex,
                                         center: Hex, k: int, x: Hex)
    requires forall y :: d(y) > 0 ==> d(towards(y)) + 1 == d(y) && y in adj(towards(y))
    requires forall y :: d(y) == 0 ==> y == center
    requires d(x) <= k
    ensures x in Within(adj, center, k, [])
    decreases k
  {
    if d(x) == 0 {
      WithinGrows(adj, center, k, []);
    } else {
      var h := towards(x);
      NearIsReached(adj, d, towards, center, k - 1, h);
      WithinStep(adj, center, k, [], x);
    }
  }

  /** With no obstructions the flood fill covers exactly `HexRange(range)`,
      and so has as many hexes. */
  lemma ReachableUnobstructedIsRange(center: Hex, range: int)
    requires range >= 0
    ensures forall x :: x in ReachableHexes(center, range, []) <==> x in HexRange(center, range, false)
    ensures |ReachableHexes(center, range, [])| == |HexRange(center, range, false)|
  {
    var s := ReachableHexes(center, range, []);
    var t := HexRange(center, range, false);
    WithinUnobstructedIsDisk(center, range);
    assert forall x :: x in s <==> x in Elements(s);
    SameElementsSameLength(s, t);
  }

  lemma {:induction false} SameElementsSameLength(s: seq<Hex>, t: seq<Hex>)
    requires NoDuplicates(s) && NoDuplicates(t)
    requires forall x :: x in s <==> x in t
    ensures |s| == |t|
  {
    DistinctCardinality(s);
    DistinctCardinality(t);
    assert Elements(s) == Elements(t);
  }

  lemma {:induction false} DistinctCardinality(s: seq<Hex>)
    requires NoDuplicates(s)
    ensures |Elements(s)| == |s|
  {
    if s != [] {
      var rest := s[1..];
      assert NoDuplicates(rest) by {
        forall i, j | 0 <= i < j < |rest|
          ensures rest[i] != rest[j]
        {
          assert rest[i] == s[i + 1] && rest[j] == s[j + 1];
        }
      }
      DistinctCardinality(rest);
      assert Elements(s) == Elements(rest) + {s[0]};
      assert s[0] !in Elements(rest) by {
        forall i | 0 <= i < |rest|
          ensures rest[i] != s[0]
        {
          assert rest[i] == s[i + 1];
        }
      }
    }
  }
}
