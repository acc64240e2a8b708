/** The direction and diagonal lookup tables and the neighbour queries built on
    them. */
module HexDirections {
  import opened Int32
  import opened HexCore
  import opened Wrappers

  /** The six step directions, `Zero` for "no displacement", and `Undefined`
      for every other integer a C# enum variable can hold (one constructor for
      all of them: the source treats them alike). */
  datatype HexDirection =
    | Right | LeftUp | LeftDown | Left | RightDown | RightUp
    | Zero
    | Undefined
  {
    predicate IsStep() {
      !Zero? && !Undefined?
    }
  }

  /** The six two-step diagonals, and `UndefinedDiagonal` for every other
      integer the enum variable can hold. */
  datatype HexDiagonal =
    | DownRight | Up | DownLeft | UpLeft | Down | UpRight
    | UndefinedDiagonal

  const Steps: seq<HexDirection> := [Right, LeftUp, LeftDown, Left, RightDown, RightUp]
  const Diagonals: seq<HexDiagonal> := [DownRight, Up, DownLeft, UpLeft, Down, UpRight]

  function Direction(d: HexDirection): (v: Hex)
    ensures d.IsStep() ==> Norm(v) == 1
    ensures !d.IsStep() ==> v == zero
  {
    match d
    case Right => right
    case LeftUp => leftUp
    case LeftDown => leftDown
    case Left => left
    case RightDown => rightDown
    case RightUp => rightUp
    case Zero => zero
    case Undefined => zero
  }

  /** `Steps` lists every step direction once. */
  lemma StepsEnumerateDirections(d: HexDirection)
    ensures d.IsStep() <==> d in Steps
  {
  }

  /** The six step vectors are pairwise distinct. */
  lemma StepVectorsDistinct(i: int, j: int)
    requires 0 <= i < j < 6
    ensures Direction(Steps[i]) != Direction(Steps[j])
  {
  }

  /** The step vectors are exactly the hexes of length one. */
  lemma StepVectorsAreUnitHexes(h: Hex)
    ensures Norm(h) == 1 <==> exists i :: 0 <= i < 6 && Direction(Steps[i]) == h
  {
    if Norm(h) == 1 {
      NormBounds(h);
      var i := if h == right then 0 else if h == leftUp then 1 else if h == leftDown then 2
               else if h == left then 3 else if h == rightDown then 4 else 5;
      assert h.q == 0 || h.r == 0 || h.S() == 0;
      assert Direction(Steps[i]) == h;
    } else {
      forall i | 0 <= i < 6
        ensures Direction(Steps[i]) != h
      {
        StepsEnumerateDirections(Steps[i]);
      }
    }
  }

  /** A step and its rotation by 60 degrees are again steps: the table is
      closed under `Rotate`. */
  lemma RotationPermutesSteps(d: HexDirection, clockwise: bool)
    requires d.IsStep()
    ensures exists e: HexDirection :: e.IsStep() && Direction(e) == Rotate(Direction(d), clockwise)
  {
    var v := Rotate(Direction(d), clockwise);
    RotateKeepsLength(Direction(d), clockwise);
    StepVectorsAreUnitHexes(v);
    var i :| 0 <= i < 6 && Direction(Steps[i]) == v;
    StepsEnumerateDirections(Steps[i]);
  }

  function Diagonal(g: HexDiagonal): (v: Hex)
    ensures !g.UndefinedDiagonal? ==> Norm(v) == 2
    ensures g.UndefinedDiagonal? ==> v == zero
  {
    match g
    case DownRight => Hex(2, -1)
    case Up => Hex(-1, 2)
    case DownLeft => Hex(-1, -1)
    case UpLeft => Hex(-2, 1)
    case Down => Hex(1, -2)
    case UpRight => Hex(1, 1)
    case UndefinedDiagonal => zero
  }

  /** The six diagonal vectors are pairwise distinct. */
  lemma DiagonalVectorsDistinct(i: int, j: int)
    requires 0 <= i < j < 6
    ensures Diagonal(Diagonals[i]) != Diagonal(Diagonals[j])
  {
  }

  /** No diagonal lies on a straight line through the centre: every step
      vector has a zero cube coordinate, no diagonal has one. */
  lemma DiagonalOffLines(g: HexDiagonal, i: int)
    requires !g.UndefinedDiagonal? && 0 <= i < 6
    ensures Diagonal(g) != Scale(Direction(Steps[i]), 2)
  {
    var v := Diagonal(g);
    var w := Direction(Steps[i]);
    assert v.q != 0 && v.r != 0 && v.S() != 0;
    assert w.q == 0 || w.r == 0 || w.S() == 0;
    assert Scale(w, 2) == Hex(2 * w.q, 2 * w.r);
  }

  /** Each diagonal is the sum of two different steps. */
  lemma DiagonalIsTwoSteps(g: HexDiagonal) returns (a: HexDirection, b: HexDirection)
    requires !g.UndefinedDiagonal?
    ensures a.IsStep() && b.IsStep() && a != b
    ensures Diagonal(g) == Add(Direction(a), Direction(b))
  {
    match g
    case DownRight => a, b := Right, RightDown;
    case Up => a, b := LeftUp, RightUp;
    case DownLeft => a, b := LeftDown, Left;
    case UpLeft => a, b := LeftUp, Left;
    case Down => a, b := LeftDown, RightDown;
    case UpRight => a, b := Right, RightUp;
  }

  function GetNeighbor(h: Hex, d: HexDirection): (n: Hex)
    ensures d.IsStep() ==> GridDistance(n, h) == 1
    ensures !d.IsStep() ==> n == h
  {
    assert Subtract(Add(h, Direction(d)), h) == Direction(d);
    Add(h, Direction(d))
  }

  function GetDiagonalNeighbor(h: Hex, g: HexDiagonal): (n: Hex)
    ensures !g.UndefinedDiagonal? ==> GridDistance(n, h) == 2
    ensures g.UndefinedDiagonal? ==> n == h
  {
    assert Subtract(Add(h, Diagonal(g)), h) == Diagonal(g);
    Add(h, Diagonal(g))
  }

  /** The integer part of `GetDirection`: coinciding hexes give `Zero`. For
      distinct hexes the source normalises the displacement in floating point
      and rounds it; that branch is outside this model and yields `None`. */
  function GetDirection(h: Hex, to: Hex): (d: Option<HexDirection>)
    requires LengthDefined(Subtract(h, to))
    ensures d == Some(Zero) <==> h == to
    ensures d.None? <==> h != to
  {
    var vector := Subtract(h, to);
    if Length(vector) == 0 then Some(Zero) else None
  }
}
