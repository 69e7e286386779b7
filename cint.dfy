/** C++ `int` semantics that the model needs: the 32-bit limit and the
    remainder operator `%`, which truncates toward zero (Dafny's `%` is
    Euclidean and never negative). */
module CInt {
  import opened ModMath

  /** INT_MAX of a 32-bit signed `int`. */
  const IntMax: int := 0x7fff_ffff

  /** The largest modulus m for which (m - 1) * (m - 1), the biggest product
      formed by the modular loops of the model, still fits in an `int`. */
  const MaxModulus: int := 46341

  /** The value range of a 32-bit `int`. */
  predicate InIntRange(v: int) { -IntMax - 1 <= v <= IntMax }

  function Abs(x: int): nat { if x < 0 then -x else x }

  /** C++ `a % b`: the sign follows the dividend and |a % b| < |b|. */
  function Rem(a: int, b: int): (r: int)
    requires b != 0
    ensures Abs(r) < Abs(b)
    ensures a >= 0 ==> 0 <= r
    ensures a <= 0 ==> r <= 0
  {
    if a >= 0 then a % b else -((-a) % b)
  }

  /** The sign of the divisor does not matter: C++ `a % -b == a % b`. */
  lemma RemAbs(a: int, b: int)
    requires b != 0
    ensures Rem(a, b) == Rem(a, Abs(b))
  {
    if b < 0 {
      var x := Abs(a);
      DivModUnique(x, -b, -(x / b), x % b);
    }
  }

  /** On a non-negative dividend and a positive divisor the two remainders agree. */
  lemma RemOfNonNegative(a: int, b: int)
    requires a >= 0 && b > 0
    ensures Rem(a, b) == a % b
  {
  }

  /** Negating the dividend negates the remainder. */
  lemma RemNegate(a: int, m: int)
    requires m > 0
    ensures Rem(-a, m) == -Rem(a, m)
  {
  }

  /** A value already inside (-m, m) is its own remainder. */
  lemma RemSmall(x: int, m: int)
    requires m > 0 && Abs(x) < m
    ensures Rem(x, m) == x
  {
    if x >= 0 {
      DivModUnique(x, m, 0, x);
    } else {
      DivModUnique(-x, m, 0, -x);
    }
  }

  /** For a non-negative z and a sign s, the remainder of s * z is s times
      that of z. */
  lemma RemSigned(s: int, z: int, m: int)
    requires m > 0 && z >= 0 && (s == 1 || s == -1)
    ensures Rem(s * z, m) == s * (z % m)
  {
    if s == -1 {
      assert s * z == -z;
    }
  }

  /** Reducing the left factor first does not change the remainder of a
      product, for the truncating remainder as for the Euclidean one. */
  lemma RemMulLeft(x: int, y: int, m: int)
    requires m > 0
    ensures Rem(Rem(x, m) * y, m) == Rem(x * y, m)
  {
    var sx: int := if x >= 0 then 1 else -1;
    var sy: int := if y >= 0 then 1 else -1;
    var ax, ay := Abs(x), Abs(y);
    assert x == sx * ax && y == sy * ay;
    RemSigned(sx, ax, m);
    assert Rem(x, m) == sx * (ax % m);
    var s := sx * sy;
    assert s == 1 || s == -1;
    assert Rem(x, m) * y == s * ((ax % m) * ay) by {
      assert Rem(x, m) * y == (sx * (ax % m)) * (sy * ay);
    }
    assert x * y == s * (ax * ay) by {
      assert x * y == (sx * ax) * (sy * ay);
    }
    MulNonNegative(ax % m, ay);
    MulNonNegative(ax, ay);
    RemSigned(s, (ax % m) * ay, m);
    RemSigned(s, ax * ay, m);
    ModMulLeft(ax, ay, m);
  }

  /** Reducing the base first does not change the truncating remainder of a
      power. */
  lemma {:induction false} PowRemBase(b: int, k: nat, m: int)
    requires m > 0
    ensures Rem(Pow(Rem(b, m), k), m) == Rem(Pow(b, k), m)
  {
    if k > 0 {
      var r := Rem(b, m);
      PowRemBase(b, k - 1, m);
      calc {
        Rem(Pow(r, k), m);
        Rem(r * Pow(r, k - 1), m);
        { RemMulLeft(b, Pow(r, k - 1), m); }
        Rem(b * Pow(r, k - 1), m);
        { assert b * Pow(r, k - 1) == Pow(r, k - 1) * b;
          RemMulLeft(Pow(r, k - 1), b, m); }
        Rem(Rem(Pow(r, k - 1), m) * b, m);
        Rem(Rem(Pow(b, k - 1), m) * b, m);
        { RemMulLeft(Pow(b, k - 1), b, m); }
        Rem(Pow(b, k - 1) * b, m);
        { assert Pow(b, k - 1) * b == Pow(b, k); }
        Rem(Pow(b, k), m);
      }
    }
  }
}
