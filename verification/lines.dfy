/** `ExtendLine`: a straight run of hexes from a start hex in one direction. */
module HexLines {
  import opened HexCore
  import opened Int32
  import opened HexDirections

  /** The path the loop builds: the start hex, then `distance` times the
      last hex plus the direction vector (none when `distance <= 0`). It ends
      at the start moved `distance` times along the direction. */
  function ExtendLine(h: Hex, direction: HexDirection, distance: int): (path: seq<Hex>)
    ensures |path| == (if distance < 0 then 0 else distance) + 1
    ensures path[0] == h
    ensures path[|path| - 1] == Add(h, Scale(Direction(direction), |path| - 1))
  {
    var path := Walk(h, Direction(direction), distance);
    WalkIsScaled(h, Direction(direction), distance, |path| - 1);
    path
  }

  /** The `k`-th hex of the path is the start moved `k` times along the
      direction. */
  lemma ExtendLineIsScaled(h: Hex, direction: HexDirection, distance: int, k: int)
    requires 0 <= k <= distance
    ensures ExtendLine(h, direction, distance)[k] == Add(h, Scale(Direction(direction), k))
  {
    WalkIsScaled(h, Direction(direction), distance, k);
  }

  /** The loop itself, for any step vector `v`: start at `h`, and append the
      last hex plus `v`, `distance` times. */
  function Walk(h: Hex, v: Hex, distance: int): (path: seq<Hex>)
    ensures |path| == (if distance < 0 then 0 else distance) + 1
    ensures path[0] == h
    decreases distance
  {
    if distance <= 0 then [h]
    else
      var prefix := Walk(h, v, distance - 1);
      prefix + [Add(prefix[|prefix| - 1], v)]
  }

  /** Walking `k` steps of `v` is adding `v` scaled by `k`. */
  lemma {:induction false} WalkIsScaled(h: Hex, v: Hex, distance: int, k: int)
    requires 0 <= k < |Walk(h, v, distance)|
    ensures Walk(h, v, distance)[k] == Add(h, Scale(v, k))
    decreases distance
  {
    if distance > 0 {
      var prefix := Walk(h, v, distance - 1);
      if k < |prefix| {
        WalkIsScaled(h, v, distance - 1, k);
        assert Walk(h, v, distance)[k] == prefix[k];
      } else {
        WalkIsScaled(h, v, distance - 1, k - 1);
        OneMoreStep(h, v, k - 1);
      }
    } else {
      assert Scale(v, 0) == zero;
    }
  }

  lemma OneMoreStep(h: Hex, v: Hex, k: int)
    ensures Add(Add(h, Scale(v, k)), v) == Add(h, Scale(v, k + 1))
  {
    ScaleStep(v, k);
    AddAssociates(h, Scale(v, k), v);
  }

  /** Each hex of the path is the `GetNeighbor` of the one before it. */
  lemma ExtendLineSteps(h: Hex, direction: HexDirection, distance: int, k: int)
    requires 0 <= k < distance
    ensures ExtendLine(h, direction, distance)[k + 1]
         == GetNeighbor(ExtendLine(h, direction, distance)[k], direction)
  {
    WalkSteps(h, Direction(direction), distance, k);
  }

  lemma {:induction false} WalkSteps(h: Hex, v: Hex, distance: int, k: int)
    requires 0 <= k < distance
    ensures Walk(h, v, distance)[k + 1] == Add(Walk(h, v, distance)[k], v)
    decreases distance
  {
    var prefix := Walk(h, v, distance - 1);
    if k + 1 < |prefix| {
      WalkSteps(h, v, distance - 1, k);
      assert Walk(h, v, distance)[k + 1] == prefix[k + 1];
      assert Walk(h, v, distance)[k] == prefix[k];
    }
  }

  /** Along a step direction the `k`-th hex is `k` steps from the start; with
      `Zero` or an undefined direction the path stands still. */
  lemma ExtendLineDistance(h: Hex, direction: HexDirection, distance: int, k: int)
    requires 0 <= k <= distance
    ensures direction.IsStep() ==> GridDistance(ExtendLine(h, direction, distance)[k], h) == k
    ensures !direction.IsStep() ==> ExtendLine(h, direction, distance)[k] == h
  {
    var v := Scale(Direction(direction), k);
    WalkIsScaled(h, Direction(direction), distance, k);
    assert Subtract(Add(h, v), h) == v;
    ScaledStepNorm(direction, k);
  }

  lemma ScaledStepNorm(direction: HexDirection, k: int)
    requires k >= 0
    ensures direction.IsStep() ==> Norm(Scale(Direction(direction), k)) == k
    ensures !direction.IsStep() ==> Scale(Direction(direction), k) == zero
  {
    match direction
    case Right => assert Scale(right, k) == Hex(k, 0);
    case LeftUp => assert Scale(leftUp, k) == Hex(-k, k);
    case LeftDown => assert Scale(leftDown, k) == Hex(0, -k);
    case Left => assert Scale(left, k) == Hex(-k, 0);
    case RightDown => assert Scale(rightDown, k) == Hex(k, -k);
    case RightUp => assert Scale(rightUp, k) == Hex(0, k);
    case Zero =>
    case Undefined =>
  }

  /** The overload that walks as far as `to` is from the start. */
  function ExtendLineTo(h: Hex, direction: HexDirection, to: Hex): (path: seq<Hex>)
    requires DistanceDefined(h, to)
    ensures !HitsMinValue(Subtract(h, to)) ==> |path| == GridDistance(h, to) + 1
    ensures HitsMinValue(Subtract(h, to)) ==> |path| == MaxInt + 1
    ensures path == ExtendLine(h, direction, |path| - 1)
  {
    ExtendLine(h, direction, Distance(h, to))
  }

  /** Along a step direction the path to `to` ends as far from the start as
      `to` is (at `to` itself only when `to` lies on that ray). */
  lemma ExtendLineToEnd(h: Hex, direction: HexDirection, to: Hex)
    requires DistanceDefined(h, to) && !HitsMinValue(Subtract(h, to))
    requires direction.IsStep()
    ensures var path := ExtendLineTo(h, direction, to);
      GridDistance(path[|path| - 1], h) == GridDistance(h, to)
  {
    ExtendLineDistance(h, direction, Distance(h, to), Distance(h, to));
  }
}
