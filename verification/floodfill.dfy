/** The layer-by-layer flood fill behind `ReachableHexes`, stated for any
    adjacency `adj` (the hex grid passes `Neighbors`): each layer is built only
    from the previous layer's unvisited, unobstructed neighbours. */
module FloodFill {
  import opened HexCore
  import opened Enumerable

  /** The unobstructed `adj`-neighbours of the hexes in `from`. */
  ghost function Spread(adj: Hex -> seq<Hex>, from: set<Hex>, invalid: seq<Hex>): set<Hex> {
    set h, x | h in from && x in adj(h) && x !in invalid :: x
  }

  /** Reference definition: the hexes reachable from `center` in at most `k`
      steps through unobstructed hexes (`center` itself always counts). */
  ghost function Within(adj: Hex -> seq<Hex>, center: Hex, k: int, invalid: seq<Hex>): set<Hex>
    decreases k
  {
    if k <= 0 then {center}
    else Within(adj, center, k - 1, invalid) + Spread(adj, Within(adj, center, k - 1, invalid), invalid)
  }

  /** The hexes first reached after exactly `k` steps. */
  ghost function Frontier(adj: Hex -> seq<Hex>, center: Hex, k: int, invalid: seq<Hex>): set<Hex> {
    if k <= 0 then {center}
    else Within(adj, center, k, invalid) - Within(adj, center, k - 1, invalid)
  }

  lemma SpreadDistributes(adj: Hex -> seq<Hex>, a: set<Hex>, b: set<Hex>, invalid: seq<Hex>)
    ensures Spread(adj, a + b, invalid) == Spread(adj, a, invalid) + Spread(adj, b, invalid)
  {
  }

  /** `Within` only grows with `k`, and always holds `center`. */
  lemma {:induction false} WithinGrows(adj: Hex -> seq<Hex>, center: Hex, k: int, invalid: seq<Hex>)
    ensures center in Within(adj, center, k, invalid)
    ensures Within(adj, center, k - 1, invalid) <= Within(adj, center, k, invalid)
    decreases k
  {
    if k > 0 {
      WithinGrows(adj, center, k - 1, invalid);
    }
  }

  /** With no steps to take only `center` is reached. */
  lemma WithinNoSteps(adj: Hex -> seq<Hex>, center: Hex, k: int, invalid: seq<Hex>)
    requires k <= 0
    ensures Within(adj, center, k, invalid) == {center}
  {
  }

  /** One step of `Within`: a hex reached in `k > 0` steps was reached in
      `k - 1`, or is an unobstructed neighbour of such a hex. */
  lemma WithinStep(adj: Hex -> seq<Hex>, center: Hex, k: int, invalid: seq<Hex>, x: Hex)
    requires k > 0
    ensures x in Within(adj, center, k, invalid) <==>
      x in Within(adj, center, k - 1, invalid) ||
      (x !in invalid && exists h :: h in Within(adj, center, k - 1, invalid) && x in adj(h))
  {
  }

  /** A hex first reached at step `k` came from a hex reached at step `k - 1`. */
  lemma ReachedFrom(adj: Hex -> seq<Hex>, center: Hex, k: int, invalid: seq<Hex>, x: Hex) returns (h: Hex)
    requires k > 0
    requires x in Within(adj, center, k, invalid) && x !in Within(adj, center, k - 1, invalid)
    ensures h in Within(adj, center, k - 1, invalid) && x in adj(h) && x !in invalid
  {
    WithinStep(adj, center, k, invalid, x);
    h :| h in Within(adj, center, k - 1, invalid) && x in adj(h);
  }

  /** Only the last fringe needs expanding: everything adjacent to an older
      layer has been reached already. */
  lemma {:induction false} FrontierSuffices(adj: Hex -> seq<Hex>, center: Hex, k: int, invalid: seq<Hex>)
    requires k >= 0
    ensures Within(adj, center, k + 1, invalid)
         == Within(adj, center, k, invalid) + Spread(adj, Frontier(adj, center, k, invalid), invalid)
  {
    if k > 0 {
      var older := Within(adj, center, k - 1, invalid);
      var last := Frontier(adj, center, k, invalid);
      assert Within(adj, center, k, invalid) == older + last;
      SpreadDistributes(adj, older, last, invalid);
    }
  }

  /** `x` is an unobstructed neighbour of some hex of `fringe`. */
  predicate Adjacent(adj: Hex -> seq<Hex>, x: Hex, fringe: seq<Hex>, invalid: seq<Hex>) {
    x !in invalid && exists k :: 0 <= k < |fringe| && x in adj(fringe[k])
  }

  lemma AdjacentSplit(adj: Hex -> seq<Hex>, x: Hex, fringe: seq<Hex>, invalid: seq<Hex>)
    requires fringe != []
    ensures Adjacent(adj, x, fringe, invalid)
        <==> (x in adj(fringe[0]) && x !in invalid) || Adjacent(adj, x, fringe[1..], invalid)
  {
    if Adjacent(adj, x, fringe, invalid) && x !in adj(fringe[0]) {
      var k :| 0 <= k < |fringe| && x in adj(fringe[k]);
      assert fringe[1..][k - 1] == fringe[k];
    }
    if Adjacent(adj, x, fringe[1..], invalid) {
      var k :| 0 <= k < |fringe[1..]| && x in adj(fringe[1..][k]);
      assert fringe[k + 1] == fringe[1..][k];
    }
  }

  /** `hex.Neighbors().Except(invalidPositions.Concat(visited))`. */
  function OpenNeighbors(adj: Hex -> seq<Hex>, hex: Hex, invalid: seq<Hex>, visited: seq<Hex>): (found: seq<Hex>)
    ensures forall x :: x in found <==> x in adj(hex) && x !in invalid && x !in visited
    ensures NoDuplicates(found)
  {
    Except(adj(hex), invalid + visited)
  }

  /** The open neighbours come in the neighbour order, each at its first
      occurrence. */
  lemma OpenNeighborsOrder(adj: Hex -> seq<Hex>, hex: Hex, invalid: seq<Hex>, visited: seq<Hex>)
    ensures OpenNeighbors(adj, hex, invalid, visited) == FirstOccurrences(adj(hex), invalid + visited)
  {
    ExceptIsFirstOccurrences(adj(hex), invalid + visited);
  }

  /** The `foreach` over one fringe: each hex's open neighbours are appended
      to `visited` and to the next fringe before the following hex is looked
      at, so a hex reached twice within one layer is kept once. */
  function ExpandFringe(adj: Hex -> seq<Hex>, fringe: seq<Hex>, invalid: seq<Hex>, visited: seq<Hex>, next: seq<Hex>)
    : (seq<Hex>, seq<Hex>)
    decreases |fringe|
  {
    if fringe == [] then (visited, next)
    else
      var found := OpenNeighbors(adj, fringe[0], invalid, visited);
      ExpandFringe(adj, fringe[1..], invalid, visited + found, next + found)
  }

  /** One fringe only appends to `visited`, appends the same hexes to the
      next fringe, and adds only unobstructed hexes not visited before. */
  lemma {:induction false} ExpandFringeAppends(adj: Hex -> seq<Hex>, fringe: seq<Hex>, invalid: seq<Hex>,
                                               visited: seq<Hex>, next: seq<Hex>)
    ensures var r := ExpandFringe(adj, fringe, invalid, visited, next);
      && |r.0| >= |visited| && r.0[..|visited|] == visited
      && r.1 == next + r.0[|visited|..]
      && (forall x :: x in r.0[|visited|..] ==> x !in invalid && x !in visited)
      && (NoDuplicates(visited) ==> NoDuplicates(r.0))
    decreases |fringe|
  {
    if fringe != [] {
      var found := OpenNeighbors(adj, fringe[0], invalid, visited);
      var r := ExpandFringe(adj, fringe[1..], invalid, visited + found, next + found);
      ExpandFringeAppends(adj, fringe[1..], invalid, visited + found, next + found);
      AppendPrefix(visited, found, r.0, next, r.1);
    }
  }

  /** After one fringe, `visited` holds exactly what it held before plus the
      unobstructed neighbours of the fringe. */
  lemma {:induction false} ExpandFringeReaches(adj: Hex -> seq<Hex>, fringe: seq<Hex>, invalid: seq<Hex>,
                                               visited: seq<Hex>, next: seq<Hex>)
    ensures forall x :: x in ExpandFringe(adj, fringe, invalid, visited, next).0
                   <==> x in visited || Adjacent(adj, x, fringe, invalid)
    decreases |fringe|
  {
    if fringe != [] {
      var found := OpenNeighbors(adj, fringe[0], invalid, visited);
      ExpandFringeReaches(adj, fringe[1..], invalid, visited + found, next + found);
      forall x {
        AdjacentSplit(adj, x, fringe, invalid);
      }
    }
  }

  /** Bookkeeping of one fringe hex: what holds of `visited + found` as a
      prefix holds of `visited`. */
  lemma AppendPrefix(visited: seq<Hex>, found: seq<Hex>, all: seq<Hex>, next: seq<Hex>, nextAll: seq<Hex>)
    requires forall x :: x in found ==> x !in visited
    requires NoDuplicates(found)
    requires |all| >= |visited + found| && all[..|visited + found|] == visited + found
    requires nextAll == next + found + all[|visited + found|..]
    requires forall x :: x in all[|visited + found|..] ==> x !in visited + found
    ensures |all| >= |visited| && all[..|visited|] == visited
    ensures nextAll == next + all[|visited|..]
    ensures forall x :: x in all[|visited|..] ==> x !in visited
    ensures NoDuplicates(visited) ==> NoDuplicates(visited + found)
  {
    var n := |visited|;
    assert all[..n] == (visited + found)[..n];
    assert all[n..] == found + all[|visited + found|..];
    if NoDuplicates(visited) {
      forall i, j | 0 <= i < j < |visited + found|
        ensures (visited + found)[i] != (visited + found)[j]
      {
        if i < n <= j {
          assert (visited + found)[j] in found;
          assert (visited + found)[i] in visited;
        }
      }
    }
  }

  /** `x` is in `s`, as a set. */
  ghost function Elements(s: seq<Hex>): set<Hex> {
    set x | x in s
  }

  /** The outer `for` loop, layers `i..range`. */
  function Flood(adj: Hex -> seq<Hex>, center: Hex, i: int, range: int, invalid: seq<Hex>,
                 visited: seq<Hex>, fringe: seq<Hex>): seq<Hex>
    decreases range - i + 1
  {
    if i > range then visited
    else
      var r := ExpandFringe(adj, fringe, invalid, visited, []);
      Flood(adj, center, i + 1, range, invalid, r.0, r.1)
  }

  /** The remaining layers only append distinct, unobstructed hexes. */
  lemma {:induction false} FloodAppends(adj: Hex -> seq<Hex>, center: Hex, i: int, range: int, invalid: seq<Hex>,
                                        visited: seq<Hex>, fringe: seq<Hex>)
    requires NoDuplicates(visited)
    ensures var s := Flood(adj, center, i, range, invalid, visited, fringe);
      && |s| >= |visited| && s[..|visited|] == visited
      && NoDuplicates(s)
      && (forall x :: x in s[|visited|..] ==> x !in invalid)
    decreases range - i + 1
  {
    if i <= range {
      var r := ExpandFringe(adj, fringe, invalid, visited, []);
      ExpandFringeAppends(adj, fringe, invalid, visited, []);
      FloodAppends(adj, center, i + 1, range, invalid, r.0, r.1);
      PrefixChain(visited, r.0, Flood(adj, center, i + 1, range, invalid, r.0, r.1), invalid);
    }
  }

  /** `s` holds, as a set, exactly the hexes within `k` steps. */
  ghost predicate Reaches(adj: Hex -> seq<Hex>, center: Hex, k: int, invalid: seq<Hex>, s: seq<Hex>) {
    Elements(s) == Within(adj, center, k, invalid)
  }

  /** The loop state after layer `k`: `visited` is everything within `k`
      steps and `fringe` the hexes first reached at step `k`. */
  ghost predicate Layer(adj: Hex -> seq<Hex>, center: Hex, k: int, invalid: seq<Hex>,
                        visited: seq<Hex>, fringe: seq<Hex>) {
    Reaches(adj, center, k, invalid, visited) && Elements(fringe) == Frontier(adj, center, k, invalid)
  }

  /** The loop state after `k` layers, as the loop computes it. */
  ghost function Layers(adj: Hex -> seq<Hex>, center: Hex, k: int, invalid: seq<Hex>): (seq<Hex>, seq<Hex>)
    decreases k
  {
    if k <= 0 then ([center], [center])
    else
      var p := Layers(adj, center, k - 1, invalid);
      ExpandFringe(adj, p.1, invalid, p.0, [])
  }

  /** `Flood` from the state after `i - 1` layers ends in the state after
      `range` layers (or stays put when there is no layer left). */
  lemma {:induction false} FloodFollowsLayers(adj: Hex -> seq<Hex>, center: Hex, i: int, range: int, invalid: seq<Hex>)
    requires 1 <= i
    ensures var p := Layers(adj, center, i - 1, invalid);
      Flood(adj, center, i, range, invalid, p.0, p.1) == Layers(adj, center, if range < i then i - 1 else range, invalid).0
    decreases range - i + 1
  {
    if i <= range {
      FloodFollowsLayers(adj, center, i + 1, range, invalid);
    }
  }

  /** After `k` layers the loop state is layer `k` of the reference
      definition. */
  lemma {:induction false} LayersReach(adj: Hex -> seq<Hex>, center: Hex, k: int, invalid: seq<Hex>)
    ensures var p := Layers(adj, center, k, invalid);
      NoDuplicates(p.0) && Layer(adj, center, if k < 0 then 0 else k, invalid, p.0, p.1)
    decreases k
  {
    if k <= 0 {
      assert Elements([center]) == {center};
    } else {
      var p := Layers(adj, center, k - 1, invalid);
      LayersReach(adj, center, k - 1, invalid);
      var r := ExpandFringe(adj, p.1, invalid, p.0, []);
      ExpandFringeAppends(adj, p.1, invalid, p.0, []);
      LayerStep(adj, center, k, invalid, p.0, p.1, r.0, r.1);
    }
  }

  lemma FloodFromCovers(adj: Hex -> seq<Hex>, center: Hex, range: int, invalid: seq<Hex>)
    ensures Elements(Flood(adj, center, 1, range, invalid, [center], [center])) == Within(adj, center, range, invalid)
  {
    FloodFollowsLayers(adj, center, 1, range, invalid);
    var k := if range < 1 then 0 else range;
    LayersReach(adj, center, k, invalid);
    if range < 0 {
      WithinNoSteps(adj, center, range, invalid);
    }
  }

  lemma PrefixChain(a: seq<Hex>, b: seq<Hex>, c: seq<Hex>, invalid: seq<Hex>)
    requires |b| >= |a| && b[..|a|] == a
    requires |c| >= |b| && c[..|b|] == b
    requires forall x :: x in b[|a|..] ==> x !in invalid
    requires forall x :: x in c[|b|..] ==> x !in invalid
    ensures c[..|a|] == a
    ensures forall x :: x in c[|a|..] ==> x !in invalid
  {
    assert c[..|a|] == c[..|b|][..|a|];
    assert c[|a|..] == b[|a|..] + c[|b|..];
  }

  /** Expanding the fringe of layer `i - 1` yields layer `i`. */
  lemma LayerStep(adj: Hex -> seq<Hex>, center: Hex, i: int, invalid: seq<Hex>,
                  visited: seq<Hex>, fringe: seq<Hex>, v: seq<Hex>, f: seq<Hex>)
    requires 1 <= i
    requires NoDuplicates(visited)
    requires Layer(adj, center, i - 1, invalid, visited, fringe)
    requires (v, f) == ExpandFringe(adj, fringe, invalid, visited, [])
    ensures Layer(adj, center, i, invalid, v, f)
  {
    FrontierSuffices(adj, center, i - 1, invalid);
    ExpandFringeAppends(adj, fringe, invalid, visited, []);
    ExpandFringeReaches(adj, fringe, invalid, visited, []);
    var grown := Spread(adj, Frontier(adj, center, i - 1, invalid), invalid);
    forall x
      ensures Adjacent(adj, x, fringe, invalid) <==> x in grown
    {
      if Adjacent(adj, x, fringe, invalid) {
        var k :| 0 <= k < |fringe| && x in adj(fringe[k]);
        assert fringe[k] in Elements(fringe);
      }
      if x in grown {
        var h :| h in Frontier(adj, center, i - 1, invalid) && x in adj(h) && x !in invalid;
        assert h in Elements(fringe);
        var k :| 0 <= k < |fringe| && fringe[k] == h;
      }
    }
    assert Elements(v) == Within(adj, center, i, invalid);
    assert f == v[|visited|..];
    forall x
      ensures x in f <==> x in v && x !in visited
    {
      if x in v && x !in visited {
        var k :| 0 <= k < |v| && v[k] == x;
      }
    }
  }

  /** The flood fill from `center`: `center` first (even when obstructed),
      then each later layer in discovery order; no hex twice, no obstructed hex
      after the first, and as a set exactly the reference `Within`. */
  function FloodFrom(adj: Hex -> seq<Hex>, center: Hex, range: int, invalid: seq<Hex>): (s: seq<Hex>)
    ensures |s| >= 1 && s[0] == center
    ensures NoDuplicates(s)
    ensures forall k :: 1 <= k < |s| ==> s[k] !in invalid
    ensures Elements(s) == Within(adj, center, range, invalid)
    ensures range <= 0 ==> s == [center]
  {
    var s := Flood(adj, center, 1, range, invalid, [center], [center]);
    FloodAppends(adj, center, 1, range, invalid, [center], [center]);
    assert forall k :: 1 <= k < |s| ==> s[k] in s[1..];
    FloodFromCovers(adj, center, range, invalid);
    s
  }
}
