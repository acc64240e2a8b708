/** The integer hex coordinate: an axial pair `(q, r)` with the derived cube
    coordinate `s = -q - r`, its arithmetic, rotation, length and distance.
    Arithmetic is over mathematical integers; only the `int.MinValue` guard of
    `Length` is reproduced bit for bit. */
module HexCore {
  import opened Int32

  /** Equality is structural on `(q, r)`; the source's display `name` is not
      part of the value. */
  datatype Hex = Hex(q: int, r: int) {
    /** The third cube coordinate, never stored. */
    function S(): int {
      -q - r
    }
  }

  const zero: Hex := Hex(0, 0)
  const right: Hex := Hex(1, 0)
  const rightDown: Hex := Hex(1, -1)
  const rightUp: Hex := Hex(0, 1)
  const left: Hex := Hex(-1, 0)
  const leftDown: Hex := Hex(0, -1)
  const leftUp: Hex := Hex(-1, 1)

  /** The "no hex" sentinel: `int.MinValue` in both coordinates. */
  const Invalid: Hex := Hex(MinInt, MinInt)

  predicate IsValid(h: Hex) {
    h != Invalid
  }

  /** Both stored coordinates fit a C# `int`. */
  predicate InRange32(h: Hex) {
    IsInt32(h.q) && IsInt32(h.r)
  }

  function Abs(x: int): nat {
    if x < 0 then -x else x
  }

  function Max3(a: int, b: int, c: int): int {
    if a >= b && a >= c then a else if b >= c then b else c
  }

  // ---------------------------------------------------------------- arithmetic

  function Add(a: Hex, b: Hex): (c: Hex)
    ensures c.S() == a.S() + b.S()
  {
    Hex(a.q + b.q, a.r + b.r)
  }

  function Subtract(a: Hex, b: Hex): (d: Hex)
    ensures Add(d, b) == a
    ensures d.S() == a.S() - b.S()
  {
    Hex(a.q - b.q, a.r - b.r)
  }

  /** `a * k`, every axial coordinate multiplied by `k`. */
  function Scale(a: Hex, k: int): Hex {
    Hex(a.q * k, a.r * k)
  }

  /** Scaling multiplies the third cube coordinate by `k` too, and the length
      by `|k|`. */
  lemma ScaleNorm(a: Hex, k: int)
    ensures Scale(a, k).S() == a.S() * k
    ensures Norm(Scale(a, k)) == Abs(k) * Norm(a)
  {
    var b := Scale(a, k);
    assert b.S() == a.S() * k by { SumTimes(-a.q, -a.r, 0, k); }
    AbsSumTimes(a.q, a.r, a.S(), k);
    assert (2 * Norm(a)) * Abs(k) == 2 * (Abs(k) * Norm(a)) by { SumTimes(Norm(a), Norm(a), 0, Abs(k)); }
  }

  lemma AbsSumTimes(x: int, y: int, z: int, k: int)
    ensures Abs(x * k) + Abs(y * k) + Abs(z * k) == (Abs(x) + Abs(y) + Abs(z)) * Abs(k)
  {
    AbsMul(x, k);
    AbsMul(y, k);
    AbsMul(z, k);
    SumTimes(Abs(x), Abs(y), Abs(z), Abs(k));
  }

  lemma SumTimes(x: int, y: int, z: int, m: int)
    ensures x * m + y * m + z * m == (x + y + z) * m
    ensures (-x) * m == -(x * m)
  {
  }

  lemma AbsMul(x: int, k: int)
    ensures Abs(x * k) == Abs(x) * Abs(k)
  {
    if x < 0 && k >= 0 {
      assert x * k == -((-x) * k);
    } else if x >= 0 && k < 0 {
      assert x * k == -(x * (-k));
    } else if x < 0 && k < 0 {
      assert x * k == (-x) * (-k);
    }
  }

  lemma AddCommutes(a: Hex, b: Hex)
    ensures Add(a, b) == Add(b, a)
  {
  }

  lemma AddSubtractRoundTrip(a: Hex, b: Hex)
    ensures Subtract(Add(a, b), b) == a
    ensures Add(Subtract(a, b), b) == a
  {
  }

  lemma AddAssociates(a: Hex, b: Hex, c: Hex)
    ensures Add(Add(a, b), c) == Add(a, Add(b, c))
  {
  }

  /** Scaling by `k + 1` takes one more step of the same vector. */
  lemma ScaleStep(a: Hex, k: int)
    ensures Scale(a, k + 1) == Add(Scale(a, k), a)
  {
  }

  // ------------------------------------------------------------ length, distance

  /** Mathematical hex length, the number of steps from the origin: the
      largest absolute cube coordinate. The three absolute values always sum to
      twice it, which is why the source's halving is exact. */
  function Norm(h: Hex): (n: nat)
    ensures 2 * n == Abs(h.q) + Abs(h.r) + Abs(h.S())
    ensures n == 0 <==> h == zero
  {
    Max3(Abs(h.q), Abs(h.r), Abs(h.S()))
  }

  /** Hex distance over mathematical integers. */
  function GridDistance(a: Hex, b: Hex): (d: nat)
    ensures d == 0 <==> a == b
  {
    var v := Subtract(a, b);
    assert v == zero <==> a == b;
    Norm(v)
  }

  lemma GridDistanceSymmetric(a: Hex, b: Hex)
    ensures GridDistance(a, b) == GridDistance(b, a)
  {
    var _ := GridDistance(a, b);
    var _ := GridDistance(b, a);
  }

  /** Every coordinate is bounded by the length. */
  lemma NormBounds(h: Hex)
    ensures Abs(h.q) <= Norm(h) && Abs(h.r) <= Norm(h) && Abs(h.S()) <= Norm(h)
  {
  }

  lemma NormTriangle(a: Hex, b: Hex)
    ensures Norm(Add(a, b)) <= Norm(a) + Norm(b)
  {
    var c := Add(a, b);
    NormBounds(a);
    NormBounds(b);
    assert Abs(c.q) <= Abs(a.q) + Abs(b.q);
    assert Abs(c.r) <= Abs(a.r) + Abs(b.r);
    assert Abs(c.S()) <= Abs(a.S()) + Abs(b.S());
    var n := Norm(c);
    assert n == Abs(c.q) || n == Abs(c.r) || n == Abs(c.S());
  }

  lemma {:induction false} DistanceTriangle(a: Hex, b: Hex, c: Hex)
    ensures GridDistance(a, c) <= GridDistance(a, b) + GridDistance(b, c)
  {
    assert Subtract(a, c) == Add(Subtract(a, b), Subtract(b, c));
    NormTriangle(Subtract(a, b), Subtract(b, c));
  }

  /** The C# guard: `q`, `r` or the `int`-computed `s` is `int.MinValue`, whose
      absolute value does not fit an `int`. */
  predicate HitsMinValue(h: Hex) {
    h.q == MinInt || h.r == MinInt || Wrap32(-h.q - h.r) == MinInt
  }

  /** `Length` is only modelled where C# computes it without overflow: either
      the guard fires, or the sum of absolute values fits an `int`. */
  predicate LengthDefined(h: Hex) {
    && InRange32(h)
    && (HitsMinValue(h) || Abs(h.q) + Abs(h.r) + Abs(h.S()) <= MaxInt)
  }

  function Length(h: Hex): (n: int)
    requires LengthDefined(h)
    ensures HitsMinValue(h) ==> n == MaxInt
    ensures !HitsMinValue(h) ==> n == Norm(h)
    ensures n >= 0
    ensures n == 0 <==> h == zero
  {
    if h.q == MinInt || h.r == MinInt || Wrap32(-h.q - h.r) == MinInt then
      MaxInt
    else
      (Abs(h.q) + Abs(h.r) + Abs(-h.q - h.r)) / 2
  }

  /** `Distance` computes `Subtract` in `int` and then `Length`; it is modelled
      where the subtraction does not overflow. */
  predicate DistanceDefined(a: Hex, b: Hex) {
    && InRange32(a)
    && InRange32(b)
    && InRange32(Subtract(a, b))
    && LengthDefined(Subtract(a, b))
  }

  function Distance(a: Hex, b: Hex): (d: int)
    requires DistanceDefined(a, b)
    ensures !HitsMinValue(Subtract(a, b)) ==> d == GridDistance(a, b)
    ensures HitsMinValue(Subtract(a, b)) ==> d == MaxInt
  {
    Length(Subtract(a, b))
  }

  lemma DistanceToSelf(a: Hex)
    requires InRange32(a)
    ensures DistanceDefined(a, a)
    ensures Distance(a, a) == 0
  {
    assert Subtract(a, a) == zero;
  }

  /** Symmetric wherever both directions are computable, including when the
      sentinel branch fires: that can only happen through the `s` coordinate,
      which then hits `int.MinValue` both ways. */
  lemma DistanceSymmetric(a: Hex, b: Hex)
    requires DistanceDefined(a, b) && DistanceDefined(b, a)
    ensures Distance(a, b) == Distance(b, a)
  {
    var d := Subtract(a, b);
    var e := Subtract(b, a);
    assert e.q == -d.q && e.r == -d.r;
    if HitsMinValue(d) {
      assert d.q != MinInt && d.r != MinInt;
      var s := -d.q - d.r;
      assert s == MaxInt + 1 || s == MinInt;
      assert Wrap32(-e.q - e.r) == MinInt by {
        if s == MinInt {
          assert -e.q - e.r == MaxInt + 1;
          ShiftByModulus(MinInt, 1);
        } else {
          ShiftByModulus(MinInt, 1);
        }
      }
    } else {
      assert !HitsMinValue(e) by {
        assert IsInt32(-d.q - d.r);
        assert -e.q - e.r == d.q + d.r;
      }
    }
  }

  // ------------------------------------------------------------------- rotation

  /** A 60-degree turn about the origin: a signed cyclic shift of `(q, r, s)`. */
  function Rotate(h: Hex, clockwise: bool): (t: Hex)
    ensures clockwise ==> t.q == -h.r && t.r == -h.S() && t.S() == -h.q
    ensures !clockwise ==> t.q == -h.S() && t.r == -h.q && t.S() == -h.r
  {
    if clockwise then Hex(-h.r, -h.S()) else Hex(-h.S(), -h.q)
  }

  /** A turn keeps the length, and only the origin turns into the origin. */
  lemma RotateKeepsLength(h: Hex, clockwise: bool)
    ensures Norm(Rotate(h, clockwise)) == Norm(h)
    ensures Rotate(h, clockwise) == zero <==> h == zero
  {
    var t := Rotate(h, clockwise);
    if clockwise {
      assert Abs(t.q) == Abs(h.r) && Abs(t.r) == Abs(h.S()) && Abs(t.S()) == Abs(h.q);
      Max3Cycles(Abs(h.q), Abs(h.r), Abs(h.S()));
    } else {
      assert Abs(t.q) == Abs(h.S()) && Abs(t.r) == Abs(h.q) && Abs(t.S()) == Abs(h.r);
      Max3Cycles(Abs(h.r), Abs(h.S()), Abs(h.q));
    }
  }

  lemma Max3Cycles(a: int, b: int, c: int)
    ensures Max3(b, c, a) == Max3(a, b, c)
  {
  }

  /** Turning one way undoes turning the other way. */
  lemma RotateInverse(h: Hex, clockwise: bool)
    ensures Rotate(Rotate(h, clockwise), !clockwise) == h
  {
  }

  /** `n` successive turns in the same sense. */
  function RotateTimes(h: Hex, clockwise: bool, n: nat): Hex
    decreases n
  {
    if n == 0 then h else Rotate(RotateTimes(h, clockwise, n - 1), clockwise)
  }

  /** Three turns are a half turn: the point reflection through the origin. */
  lemma {:induction false} HalfTurnNegates(h: Hex, clockwise: bool)
    ensures RotateTimes(h, clockwise, 3) == Hex(-h.q, -h.r)
  {
    assert RotateTimes(h, clockwise, 1) == Rotate(h, clockwise);
    assert RotateTimes(h, clockwise, 2) == Rotate(Rotate(h, clockwise), clockwise);
  }

  /** Rotation has order six in either sense. */
  lemma {:induction false} SixTurnsAreIdentity(h: Hex, clockwise: bool)
    ensures RotateTimes(h, clockwise, 6) == h
  {
    HalfTurnNegates(h, clockwise);
    var m := RotateTimes(h, clockwise, 3);
    HalfTurnNegates(m, clockwise);
    RotateTimesSplits(h, clockwise, 3, 3);
  }

  lemma {:induction false} RotateTimesSplits(h: Hex, clockwise: bool, m: nat, n: nat)
    ensures RotateTimes(h, clockwise, m + n) == RotateTimes(RotateTimes(h, clockwise, m), clockwise, n)
    decreases n
  {
    if n > 0 {
      RotateTimesSplits(h, clockwise, m, n - 1);
    }
  }

  /** Rotation is linear, so it commutes with translation differences. */
  lemma RotateIsLinear(a: Hex, b: Hex, clockwise: bool)
    ensures Rotate(Add(a, b), clockwise) == Add(Rotate(a, clockwise), Rotate(b, clockwise))
  {
  }

  /** Translate `center` to the origin, turn, translate back. */
  function RotateAroundCenter(h: Hex, clockwise: bool, center: Hex): (t: Hex)
    ensures GridDistance(t, center) == GridDistance(h, center)
    ensures t == center <==> h == center
  {
    var vector := Subtract(h, center);
    var rotated := Rotate(vector, clockwise);
    RotateKeepsLength(vector, clockwise);
    assert Subtract(Add(center, rotated), center) == rotated;
    Add(center, rotated)
  }

  lemma RotateAroundCenterInverse(h: Hex, clockwise: bool, center: Hex)
    ensures RotateAroundCenter(RotateAroundCenter(h, clockwise, center), !clockwise, center) == h
  {
    var t := RotateAroundCenter(h, clockwise, center);
    assert Subtract(t, center) == Rotate(Subtract(h, center), clockwise);
    RotateInverse(Subtract(h, center), clockwise);
  }
}
