/** The 32-bit signed integer semantics the hex-grid code relies on: the range
    of C#'s `int`, unchecked wrap-around, the two's-complement `& 1` parity test
    and C#'s truncating division. */
module Int32 {

  const MinInt: int := -0x8000_0000
  const MaxInt: int := 0x7fff_ffff
  const Modulus: int := 0x1_0000_0000

  predicate IsInt32(x: int) {
    MinInt <= x <= MaxInt
  }

  /** Unchecked C# arithmetic: the value `x` takes once it is stored in an `int`. */
  function Wrap32(x: int): (w: int)
    ensures IsInt32(w)
    ensures IsInt32(x) ==> w == x
  {
    (x - MinInt) % Modulus + MinInt
  }

  /** Wrapping commutes with adding a further term: both sides are the same
      residue modulo 2^32. */
  lemma WrapAbsorbs(x: int, y: int)
    ensures Wrap32(Wrap32(x) + y) == Wrap32(x + y)
  {
    var k := (x - MinInt) / Modulus;
    assert Wrap32(x) == x - k * Modulus;
    ShiftByModulus(x + y, -k);
  }

  lemma ShiftByModulus(x: int, k: int)
    ensures Wrap32(x + k * Modulus) == Wrap32(x)
  {
    var a := x - MinInt;
    var b := a + k * Modulus;
    assert b % Modulus == a % Modulus by {
      var qa := a / Modulus;
      var ra := a % Modulus;
      assert a == qa * Modulus + ra;
      assert b == (qa + k) * Modulus + ra;
      DivModUnique(b, qa + k, ra);
    }
  }

  lemma DivModUnique(b: int, q: int, r: int)
    requires 0 <= r < Modulus
    requires b == q * Modulus + r
    ensures b % Modulus == r
  {
  }

  /** The 32-bit pattern C# stores for an `int`, read as an unsigned number. */
  function Unsigned(x: int): (u: nat)
    requires IsInt32(x)
    ensures u < Modulus
  {
    if x < 0 then x + Modulus else x
  }

  /** C#'s `x & 1` on an `int`: the lowest bit of its two's-complement pattern. */
  function LowBit(x: int): (b: int)
    requires IsInt32(x)
    ensures b == 0 || b == 1
  {
    Unsigned(x) % 2
  }

  /** On negative numbers `x & 1` is the Euclidean remainder modulo 2 (it is
      1 for -1, -3, ...), not C#'s truncating `x % 2` (which is -1 there). */
  lemma LowBitIsEuclideanParity(x: int)
    requires IsInt32(x)
    ensures LowBit(x) == x % 2
  {
    if x < 0 {
      assert Unsigned(x) == x + 2 * 0x8000_0000;
    }
  }

  /** C#'s `a / 2`: the quotient is rounded toward zero, so the remainder
      takes the sign of `a`. */
  function TruncHalf(a: int): (d: int)
    ensures var m := a - 2 * d; (a >= 0 ==> 0 <= m < 2) && (a < 0 ==> -2 < m <= 0)
  {
    if a >= 0 then a / 2 else -((-a) / 2)
  }

  /** Removing the parity bit leaves an even number, so C#'s truncating halving
      of it is exact and agrees with Euclidean halving. */
  lemma HalveWithoutParity(x: int)
    requires IsInt32(x)
    ensures (x - LowBit(x)) % 2 == 0
    ensures TruncHalf(x - LowBit(x)) == (x - x % 2) / 2
    ensures 2 * TruncHalf(x - LowBit(x)) == x - LowBit(x)
  {
    LowBitIsEuclideanParity(x);
  }
}
