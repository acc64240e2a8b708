/** `HexRange`: the hexes of a disk, enumerated by the source's double loop
    (rows `r = -range..range`, columns clipped to the disk), and `Neighbors`,
    the ring of radius one taken from it. */
module HexRanges {
  import opened HexCore
  import opened Enumerable

  /** Row-major order: by `r`, then by `q`. */
  predicate Precedes(a: Hex, b: Hex) {
    a.r < b.r || (a.r == b.r && a.q < b.q)
  }

  predicate StrictlyOrdered(s: seq<Hex>) {
    forall i, j :: 0 <= i < j < |s| ==> Precedes(s[i], s[j])
  }

  lemma OrderedHasNoDuplicates(s: seq<Hex>)
    requires StrictlyOrdered(s)
    ensures NoDuplicates(s)
  {
  }

  function Max(a: int, b: int): int {
    if a >= b then a else b
  }

  function Min(a: int, b: int): int {
    if a <= b then a else b
  }

  /** Number of hexes the loop skips in a row: the centre, when excluded. */
  function Skipped(row: int, lo: int, hi: int, excludeCenter: bool): int {
    if excludeCenter && row == 0 && lo <= 0 <= hi then 1 else 0
  }

  /** The inner loop: columns `q = lo..hi` of offset row `row`. */
  function RowOffsets(center: Hex, row: int, lo: int, hi: int, excludeCenter: bool): (s: seq<Hex>)
    ensures forall h :: h in s <==>
      h.r == center.r + row && center.q + lo <= h.q <= center.q + hi && !(excludeCenter && h == center)
    ensures StrictlyOrdered(s)
    ensures |s| == Max(0, hi - lo + 1) - Skipped(row, lo, hi, excludeCenter)
    decreases hi - lo + 1
  {
    if lo > hi then []
    else
      var rest := RowOffsets(center, row, lo + 1, hi, excludeCenter);
      if excludeCenter && lo == 0 && row == 0 then rest
      else
        var x := Add(center, Hex(lo, row));
        assert forall h :: h in rest ==> Precedes(x, h);
        ConsOrdered(x, rest);
        var s := [x] + rest;
        assert forall h :: h in s <==> h == x || h in rest;
        s
  }

  lemma ConsOrdered(x: Hex, rest: seq<Hex>)
    requires StrictlyOrdered(rest)
    requires forall h :: h in rest ==> Precedes(x, h)
    ensures StrictlyOrdered([x] + rest)
  {
    var s := [x] + rest;
    forall i, j | 0 <= i < j < |s|
      ensures Precedes(s[i], s[j])
    {
      assert s[j] == rest[j - 1];
      if i > 0 {
        assert s[i] == rest[i - 1];
      }
    }
  }

  /** The row-`row` column bounds of the disk of radius `range`. */
  function RowLow(range: int, row: int): int {
    Max(-range, -row - range)
  }

  function RowHigh(range: int, row: int): int {
    Min(range, -row + range)
  }

  /** Inside row `dr` of the disk, the loop's column bounds are exactly the
      hexes within `range` of the centre. */
  lemma RowBoundsAreDisk(range: int, dq: int, dr: int)
    requires -range <= dr <= range
    ensures RowLow(range, dr) <= dq <= RowHigh(range, dr) <==> Norm(Hex(dq, dr)) <= range
  {
    NormBounds(Hex(dq, dr));
  }

  /** Twice the number of disk hexes in rows `row..range`, in closed form. */
  function TwiceRowsCount(range: int, row: int): int {
    if row >= 0 then (range - row + 1) * (3 * range + 2 - row)
    else (range + 1) * (3 * range + 2) + (-row) * (4 * range + 1 + row)
  }

  lemma TwiceRowsCountStep(range: int, row: int)
    requires -range <= row <= range
    ensures TwiceRowsCount(range, row) == 2 * (2 * range + 1 - Abs(row)) + TwiceRowsCount(range, row + 1)
  {
    if row >= 0 {
      var m := range - row;
      assert TwiceRowsCount(range, row) == (m + 1) * (3 * range + 2 - row);
      assert TwiceRowsCount(range, row + 1) == m * (3 * range + 1 - row);
      assert (m + 1) * (3 * range + 2 - row) == m * (3 * range + 1 - row) + m + (3 * range + 2 - row);
    } else if row == -1 {
      assert TwiceRowsCount(range, row) == (range + 1) * (3 * range + 2) + (4 * range);
    } else {
      var m := -row;
      assert TwiceRowsCount(range, row) == (range + 1) * (3 * range + 2) + m * (4 * range + 1 - m);
      assert TwiceRowsCount(range, row + 1) == (range + 1) * (3 * range + 2) + (m - 1) * (4 * range + 2 - m);
      assert m * (4 * range + 1 - m) == (m - 1) * (4 * range + 2 - m) + (4 * range + 2 - 2 * m);
    }
  }

  /** Membership in the disk rows `row..range`. */
  predicate InRows(h: Hex, center: Hex, range: int, row: int, excludeCenter: bool) {
    GridDistance(h, center) <= range && h.r >= center.r + row && !(excludeCenter && h == center)
  }

  /** The outer loop: rows `row..range`. */
  function RowsFrom(center: Hex, range: int, row: int, excludeCenter: bool): (s: seq<Hex>)
    requires -range <= row
    ensures forall h :: h in s <==> InRows(h, center, range, row, excludeCenter)
    ensures StrictlyOrdered(s)
    ensures row <= range + 1 ==>
      2 * (|s| + (if excludeCenter && row <= 0 <= range then 1 else 0)) == TwiceRowsCount(range, row)
    decreases range - row + 1
  {
    if row > range then
      NoRowsBeyond(center, range, row, excludeCenter);
      []
    else
      var first := RowOffsets(center, row, RowLow(range, row), RowHigh(range, row), excludeCenter);
      var rest := RowsFrom(center, range, row + 1, excludeCenter);
      RowThenRows(center, range, row, excludeCenter, first, rest);
      first + rest
  }

  lemma NoRowsBeyond(center: Hex, range: int, row: int, excludeCenter: bool)
    requires -range <= row && row > range
    ensures forall h :: !InRows(h, center, range, row, excludeCenter)
    ensures row == range + 1 ==> TwiceRowsCount(range, row) == 0 && !(row <= 0 <= range)
  {
    if row == range + 1 {
      assert TwiceRowsCount(range, row) == 0 * (3 * range + 2 - row);
    }
    forall h
      ensures !InRows(h, center, range, row, excludeCenter)
    {
      var v := Subtract(h, center);
      NormBounds(v);
      assert GridDistance(h, center) == Norm(v);
    }
  }

  /** One step of the outer loop: row `row` followed by the later rows is the
      disk from row `row` on, still ordered, with one more row counted. */
  lemma RowThenRows(center: Hex, range: int, row: int, excludeCenter: bool, first: seq<Hex>, rest: seq<Hex>)
    requires -range <= row <= range
    requires first == RowOffsets(center, row, RowLow(range, row), RowHigh(range, row), excludeCenter)
    requires forall h :: h in rest <==> InRows(h, center, range, row + 1, excludeCenter)
    requires StrictlyOrdered(rest)
    requires 2 * (|rest| + (if excludeCenter && row + 1 <= 0 <= range then 1 else 0)) == TwiceRowsCount(range, row + 1)
    ensures forall h :: h in first + rest <==> InRows(h, center, range, row, excludeCenter)
    ensures StrictlyOrdered(first + rest)
    ensures 2 * (|first + rest| + (if excludeCenter && row <= 0 <= range then 1 else 0)) == TwiceRowsCount(range, row)
  {
    var lo, hi := RowLow(range, row), RowHigh(range, row);
    var s := first + rest;
    forall h
      ensures h in s <==> InRows(h, center, range, row, excludeCenter)
    {
      var v := Subtract(h, center);
      if h.r == center.r + row {
        RowBoundsAreDisk(range, v.q, v.r);
      }
    }
    forall i, j | 0 <= i < j < |s|
      ensures Precedes(s[i], s[j])
    {
      if i < |first| && j >= |first| {
        assert s[i] in first && s[j] in rest;
      }
    }
    TwiceRowsCountStep(range, row);
    assert hi - lo + 1 == 2 * range + 1 - Abs(row);
  }

  /** The hexes within `range` of `center` (without `center` itself when
      `excludeCenter`), each once, ordered by row then column; a disk of radius
      `n` has `3n² + 3n + 1` hexes, and a negative range gives none. */
  function HexRange(center: Hex, range: int, excludeCenter: bool): (s: seq<Hex>)
    ensures forall h :: h in s <==>
      GridDistance(h, center) <= range && !(excludeCenter && h == center)
    ensures StrictlyOrdered(s) && NoDuplicates(s)
    ensures range < 0 ==> s == []
    ensures range >= 0 ==>
      |s| == 3 * range * range + 3 * range + 1 - (if excludeCenter then 1 else 0)
  {
    var s := RowsFrom(center, range, -range, excludeCenter);
    WholeDisk(center, range, excludeCenter);
    OrderedHasNoDuplicates(s);
    s
  }

  lemma WholeDisk(center: Hex, range: int, excludeCenter: bool)
    ensures forall h :: InRows(h, center, range, -range, excludeCenter) <==>
      GridDistance(h, center) <= range && !(excludeCenter && h == center)
    ensures range >= 0 ==> TwiceRowsCount(range, -range) == 2 * (3 * range * range + 3 * range + 1)
  {
    forall h
      ensures InRows(h, center, range, -range, excludeCenter) <==>
        GridDistance(h, center) <= range && !(excludeCenter && h == center)
    {
      var v := Subtract(h, center);
      NormBounds(v);
      assert GridDistance(h, center) == Norm(v);
    }
    if range > 0 {
      var n := range;
      assert TwiceRowsCount(n, -n) == (n + 1) * (3 * n + 2) + n * (3 * n + 1);
      assert (n + 1) * (3 * n + 2) == 3 * n * n + 5 * n + 2;
      assert n * (3 * n + 1) == 3 * n * n + n;
    }
  }

  /** The six hexes around `h`. */
  function Neighbors(h: Hex): (s: seq<Hex>)
    ensures forall x :: x in s <==> GridDistance(x, h) == 1
    ensures |s| == 6 && NoDuplicates(s)
  {
    HexRange(h, 1, true)
  }

  /** The concrete order of `Neighbors`: the offsets `(0,-1), (1,-1), (-1,0),
      (1,0), (-1,1), (0,1)`. */
  lemma NeighborsOrder(h: Hex)
    ensures Neighbors(h) == [Add(h, Hex(0, -1)), Add(h, Hex(1, -1)), Add(h, Hex(-1, 0)),
                             Add(h, Hex(1, 0)), Add(h, Hex(-1, 1)), Add(h, Hex(0, 1))]
  {
    NeighborsAreRows(h);
    RowsOfRadiusOne(h);
    NeighborRows(h);
    ThreePairs(Add(h, Hex(0, -1)), Add(h, Hex(1, -1)), Add(h, Hex(-1, 0)),
               Add(h, Hex(1, 0)), Add(h, Hex(-1, 1)), Add(h, Hex(0, 1)));
  }

  lemma ThreePairs(a: Hex, b: Hex, c: Hex, d: Hex, e: Hex, f: Hex)
    ensures [a, b] + ([c, d] + [e, f]) == [a, b, c, d, e, f]
  {
    assert [c, d] + [e, f] == [c, d, e, f];
  }

  lemma NeighborsAreRows(h: Hex)
    ensures Neighbors(h) == RowsFrom(h, 1, -1, true)
  {
  }

  lemma RowsOfRadiusOne(h: Hex)
    ensures RowsFrom(h, 1, -1, true)
         == RowOffsets(h, -1, 0, 1, true) + (RowOffsets(h, 0, -1, 1, true) + RowOffsets(h, 1, -1, 0, true))
  {
    LastRowOfRadiusOne(h);
    assert RowsFrom(h, 1, 0, true) == RowOffsets(h, 0, -1, 1, true) + RowsFrom(h, 1, 1, true);
  }

  lemma LastRowOfRadiusOne(h: Hex)
    ensures RowsFrom(h, 1, 1, true) == RowOffsets(h, 1, -1, 0, true)
  {
    assert RowsFrom(h, 1, 2, true) == [];
  }

  lemma NeighborRows(h: Hex)
    ensures RowOffsets(h, -1, 0, 1, true) == [Add(h, Hex(0, -1)), Add(h, Hex(1, -1))]
    ensures RowOffsets(h, 0, -1, 1, true) == [Add(h, Hex(-1, 0)), Add(h, Hex(1, 0))]
    ensures RowOffsets(h, 1, -1, 0, true) == [Add(h, Hex(-1, 1)), Add(h, Hex(0, 1))]
  {
    TwoColumns(h, -1, 0);
    MiddleRow(h);
    TwoColumns(h, 1, -1);
  }

  /** A row of two columns away from the centre. */
  lemma TwoColumns(h: Hex, row: int, lo: int)
    requires row != 0
    ensures RowOffsets(h, row, lo, lo + 1, true) == [Add(h, Hex(lo, row)), Add(h, Hex(lo + 1, row))]
  {
    assert RowOffsets(h, row, lo + 2, lo + 1, true) == [];
    assert RowOffsets(h, row, lo + 1, lo + 1, true) == [Add(h, Hex(lo + 1, row))];
  }

  /** The centre's own row, with the centre skipped. */
  lemma MiddleRow(h: Hex)
    ensures RowOffsets(h, 0, -1, 1, true) == [Add(h, Hex(-1, 0)), Add(h, Hex(1, 0))]
  {
    assert RowOffsets(h, 0, 2, 1, true) == [];
    assert RowOffsets(h, 0, 1, 1, true) == [Add(h, Hex(1, 0))];
    assert RowOffsets(h, 0, 0, 1, true) == [Add(h, Hex(1, 0))];
  }

  /** Stepping to a neighbour changes the distance to any hex by at most one. */
  lemma NeighborDistance(h: Hex, x: Hex, c: Hex)
    requires x in Neighbors(h)
    ensures GridDistance(x, c) <= GridDistance(h, c) + 1
    ensures GridDistance(h, c) <= GridDistance(x, c) + 1
  {
    DistanceTriangle(x, h, c);
    DistanceTriangle(h, x, c);
    GridDistanceSymmetric(x, h);
  }

  /** The step that lowers a positive cube coordinate of `v` and raises a
      negative one. */
  function StepInward(v: Hex): Hex {
    if v.q > 0 && v.r < 0 then Hex(-1, 1)
    else if v.q > 0 then Hex(-1, 0)
    else if v.q < 0 && v.r > 0 then Hex(1, -1)
    else if v.q < 0 then Hex(1, 0)
    else if v.r > 0 then Hex(0, -1)
    else Hex(0, 1)
  }

  lemma StepInwardShortens(v: Hex)
    requires v != zero
    ensures Norm(StepInward(v)) == 1
    ensures Norm(Add(v, StepInward(v))) == Norm(v) - 1
  {
    var w := Add(v, StepInward(v));
    assert Abs(w.q) + Abs(w.r) + Abs(w.S()) == Abs(v.q) + Abs(v.r) + Abs(v.S()) - 2;
  }

  /** The neighbour of `h` one step nearer to `c`. */
  function Towards(c: Hex, h: Hex): Hex {
    Add(h, StepInward(Subtract(h, c)))
  }

  /** Every hex other than `c` has a neighbour one step closer to `c`. */
  lemma TowardsIsCloser(h: Hex, c: Hex)
    requires h != c
    ensures Towards(c, h) in Neighbors(h)
    ensures GridDistance(Towards(c, h), c) == GridDistance(h, c) - 1
  {
    var v := Subtract(h, c);
    var d := StepInward(v);
    StepInwardShortens(v);
    var x := Add(h, d);
    assert Subtract(x, h) == d;
    assert Subtract(x, c) == Add(v, d);
  }
}
