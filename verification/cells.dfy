/** Conversion between hex coordinates and the engine's offset grid cells
    ("odd-row" shove, cell `y` pointing up, so `y = -r`). Both directions are
    computed in C# `int` arithmetic, so the wrap-around and the
    two's-complement `& 1` are written out. */
module HexCells {
  import opened Int32
  import opened HexCore

  /** An integer grid cell `(x, y, z)`. */
  datatype Cell = Cell(x: int, y: int, z: int)

  predicate CellInRange32(c: Cell) {
    IsInt32(c.x) && IsInt32(c.y)
  }

  /** `(r - (r & 1)) / 2` in C#: the parity bit is removed before the
      truncating halving. */
  function RowShift(r: int): int
    requires IsInt32(r)
  {
    TruncHalf(r - LowBit(r))
  }

  /** The row shift is the floor of half the row, on negative rows too. */
  lemma RowShiftHalves(r: int)
    requires IsInt32(r)
    ensures RowShift(r) == r / 2
    ensures 2 * RowShift(r) == r - r % 2
  {
    HalveWithoutParity(r);
  }

  function ToCell(h: Hex): (c: Cell)
    requires InRange32(h)
    ensures CellInRange32(c) && c.z == 0
  {
    Cell(Wrap32(h.q + RowShift(h.r)), Wrap32(-h.r), 0)
  }

  /** Away from overflow, `ToCell` is `(q + floor(r / 2), -r)`. */
  lemma ToCellCoordinates(h: Hex)
    requires InRange32(h)
    ensures IsInt32(h.q + h.r / 2) ==> ToCell(h).x == h.q + h.r / 2
    ensures h.r != MinInt ==> ToCell(h).y == -h.r
  {
    RowShiftHalves(h.r);
  }

  /** The inverse conversion; the cell's `z` is ignored. */
  function CellToHex(c: Cell): (h: Hex)
    requires CellInRange32(c)
    ensures InRange32(h)
  {
    var row := Wrap32(-c.y);
    Hex(Wrap32(c.x - RowShift(row)), row)
  }

  /** Away from overflow, `CellToHex` is `(x - floor(-y / 2), -y)`. */
  lemma CellToHexCoordinates(c: Cell)
    requires CellInRange32(c)
    ensures c.y != MinInt ==> CellToHex(c).r == -c.y
    ensures c.y != MinInt && IsInt32(c.x - (-c.y) / 2) ==> CellToHex(c).q == c.x - (-c.y) / 2
  {
    RowShiftHalves(Wrap32(-c.y));
  }

  /** Every `int` hex survives the trip to a cell and back, including rows
      whose negation wraps. */
  lemma CellRoundTrip(h: Hex)
    requires InRange32(h)
    ensures CellToHex(ToCell(h)) == h
  {
    CellRowBack(h);
    CellColumnBack(h);
  }

  lemma CellRowBack(h: Hex)
    requires InRange32(h)
    ensures CellToHex(ToCell(h)).r == h.r
  {
    NegateTwice(h.r);
  }

  lemma CellColumnBack(h: Hex)
    requires InRange32(h)
    ensures Wrap32(ToCell(h).x - RowShift(h.r)) == h.q
  {
    ShiftBack(h.q, RowShift(h.r));
  }

  /** Negating twice in `int` arithmetic is the identity, `int.MinValue`
      included. */
  lemma NegateTwice(r: int)
    requires IsInt32(r)
    ensures Wrap32(-Wrap32(-r)) == r
  {
    NegateWrap(-r);
  }

  /** Adding and then removing `k` in `int` arithmetic is the identity. */
  lemma ShiftBack(q: int, k: int)
    requires IsInt32(q)
    ensures Wrap32(Wrap32(q + k) - k) == q
  {
    WrapAbsorbs(q + k, -k);
  }

  /** Removing and then adding back `k` in `int` arithmetic is the identity. */
  lemma UnshiftBack(x: int, k: int)
    requires IsInt32(x)
    ensures Wrap32(Wrap32(x - k) + k) == x
  {
    WrapAbsorbs(x - k, k);
  }

  /** Negation respects wrap-around. */
  lemma NegateWrap(x: int)
    ensures Wrap32(-Wrap32(x)) == Wrap32(-x)
  {
    var k := (x - MinInt) / Modulus;
    assert Wrap32(x) == x - k * Modulus;
    ShiftByModulus(-x, k);
  }

  /** Every `int` cell survives the trip to a hex and back, except that `z`
      comes back as zero. */
  lemma HexRoundTrip(c: Cell)
    requires CellInRange32(c)
    ensures ToCell(CellToHex(c)) == Cell(c.x, c.y, 0)
  {
    HexRowBack(c);
    HexColumnBack(c);
  }

  lemma HexRowBack(c: Cell)
    requires CellInRange32(c)
    ensures ToCell(CellToHex(c)).y == c.y
  {
    NegateTwice(c.y);
  }

  lemma HexColumnBack(c: Cell)
    requires CellInRange32(c)
    ensures Wrap32(CellToHex(c).q + RowShift(CellToHex(c).r)) == c.x
  {
    UnshiftBack(c.x, RowShift(Wrap32(-c.y)));
  }

  /** Moving one cell right moves one hex step `right`. */
  lemma NextColumnIsRightNeighbour(x: int, y: int, z: int)
    requires IsInt32(x) && IsInt32(x + 1) && IsInt32(y)
    requires IsInt32(CellToHex(Cell(x, y, z)).q + 1)
    ensures CellToHex(Cell(x + 1, y, z)) == Add(CellToHex(Cell(x, y, z)), right)
  {
    NextColumnStep(x, y, z);
  }

  lemma NextColumnStep(x: int, y: int, z: int)
    requires IsInt32(x) && IsInt32(x + 1) && IsInt32(y)
    requires IsInt32(CellToHex(Cell(x, y, z)).q + 1)
    ensures CellToHex(Cell(x + 1, y, z)).q == CellToHex(Cell(x, y, z)).q + 1
  {
    var k := RowShift(Wrap32(-y));
    assert CellToHex(Cell(x, y, z)).q == Wrap32(x - k);
    assert CellToHex(Cell(x + 1, y, z)).q == Wrap32(x + 1 - k);
    WrapStep(x, k);
  }

  /** Adding one after wrapping is adding one before, unless that overflows. */
  lemma WrapStep(x: int, k: int)
    requires IsInt32(Wrap32(x - k) + 1)
    ensures Wrap32(x + 1 - k) == Wrap32(x - k) + 1
  {
    WrapAbsorbs(x - k, 1);
  }

  /** Moving one cell up or down the grid lands on an adjacent hex, whatever
      the row's parity. */
  lemma NextRowIsNeighbour(x: int, y: int, z: int)
    requires IsInt32(x) && MinInt < y && y + 1 <= MaxInt
    requires IsInt32(x - (-y) / 2) && IsInt32(x - (-y - 1) / 2)
    ensures GridDistance(CellToHex(Cell(x, y, z)), CellToHex(Cell(x, y + 1, z))) == 1
  {
    var a := CellToHex(Cell(x, y, z));
    var b := CellToHex(Cell(x, y + 1, z));
    CellToHexCoordinates(Cell(x, y, z));
    CellToHexCoordinates(Cell(x, y + 1, z));
    assert a.r - b.r == 1;
    assert (-y) / 2 - (-y - 1) / 2 == 0 || (-y) / 2 - (-y - 1) / 2 == 1;
  }
}
