/** Java number semantics that matter to the model: doubles are exact reals except that a
    division by zero leaves the finite numbers, and `int` is 32-bit two's complement with
    truncating division. */
module Numeric {

  /** A Java `double`: a finite value, or NaN / an infinity (not told apart). */
  datatype Double = Finite(value: real) | NonFinite

  /** Java's `a / b` on doubles. */
  function Divide(a: real, b: real): (r: Double)
    ensures r.NonFinite? <==> b == 0.0
    ensures r.Finite? ==> r.value * b == a
  {
    if b == 0.0 then NonFinite else Finite(a / b)
  }

  const Int32Modulus: int := 0x1_0000_0000
  const Int32Min: int := -0x8000_0000
  const Int32Max: int := 0x7fff_ffff

  predicate IsInt32(x: int) {
    Int32Min <= x <= Int32Max
  }

  /** Wrap-around of an exact integer into the 32-bit range, as Java's `int` arithmetic does. */
  function Wrap(x: int): (r: int)
    ensures IsInt32(r)
    ensures (r - x) % Int32Modulus == 0
    ensures IsInt32(x) ==> r == x
  {
    var m := (x - Int32Min) % Int32Modulus;
    m + Int32Min
  }

  /** Integer quotient rounded toward zero (Dafny's `/` rounds toward minus infinity for a
      positive divisor). */
  function TruncDiv(a: int, b: int): (q: int)
    requires b != 0
    ensures Abs(q) == Abs(a) / Abs(b)
    ensures (a >= 0) == (b > 0) ==> q == Abs(a) / Abs(b)
    ensures (a >= 0) != (b > 0) ==> q == -(Abs(a) / Abs(b))
  {
    var q0: int := NatDiv(Abs(a), Abs(b));
    if (a >= 0) == (b > 0) then q0 else -q0
  }

  function NatDiv(n: nat, d: nat): (q: nat)
    requires d > 0
    ensures q == n / d
  {
    n / d
  }

  function Abs(x: int): nat {
    if x < 0 then -x else x
  }

  /** Java's `a / b` on two `int`s: truncation toward zero, then wrap-around (only
      `Int32Min / -1` wraps). */
  function JavaDiv(a: int, b: int): (r: int)
    requires IsInt32(a) && IsInt32(b) && b != 0
    ensures IsInt32(r)
    ensures !(a == Int32Min && b == -1) ==> r == TruncDiv(a, b)
  {
    Wrap(TruncDiv(a, b))
  }

  lemma NonNegProduct(a: real, b: real)
    requires a >= 0.0 && b >= 0.0
    ensures a * b >= 0.0
  {
  }
}
