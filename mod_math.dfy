/** Integer facts that the modular arithmetic of the chat rests on: uniqueness
    of Euclidean division, remainders of sums and products, and powers. */
module ModMath {

  function Pow(b: int, k: nat): int
  {
    if k == 0 then 1 else b * Pow(b, k - 1)
  }

  lemma MulAtLeast(c: int, t: int)
    requires c > 0 && t >= 1
    ensures c * t >= c
  {
  }

  lemma MulNonNegative(x: int, y: int)
    requires x >= 0 && y >= 0
    ensures x * y >= 0
  {
  }

  lemma MulMono(x: int, y: int, z: int)
    requires 0 <= z && x <= y
    ensures x * z <= y * z
  {
  }

  /** x == c * q + r with 0 <= r < c fixes quotient and remainder. */
  lemma DivModUnique(x: int, c: int, q: int, r: int)
    requires c > 0 && 0 <= r < c && x == c * q + r
    ensures x / c == q && x % c == r
  {
    var t := q - x / c;
    assert c * t == x % c - r;
    if t >= 1 {
      MulAtLeast(c, t);
    } else if t <= -1 {
      MulAtLeast(c, -t);
    }
  }

  lemma MulModZero(c: int, k: int)
    requires c > 0
    ensures (c * k) % c == 0
  {
    DivModUnique(c * k, c, k, 0);
  }

  lemma ModAddMultiple(x: int, c: int, k: int)
    requires c > 0
    ensures (x + c * k) % c == x % c
  {
    DivModUnique(x + c * k, c, x / c + k, x % c);
  }

  /** A multiple of c is divisible by c, and conversely. */
  lemma DividesIff(c: int, x: int)
    requires c > 0
    ensures x % c == 0 <==> x == c * (x / c)
  {
    if x == c * (x / c) {
      MulModZero(c, x / c);
    }
  }

  lemma DividesSum(c: int, x: int, y: int)
    requires c > 0 && x % c == 0 && y % c == 0
    ensures (x + y) % c == 0 && (x - y) % c == 0
  {
    DividesIff(c, x);
    DividesIff(c, y);
    ModAddMultiple(0, c, x / c + y / c);
    ModAddMultiple(0, c, x / c - y / c);
    assert x + y == 0 + c * (x / c + y / c);
    assert x - y == 0 + c * (x / c - y / c);
  }

  lemma DividesProduct(c: int, x: int, y: int)
    requires c > 0 && x % c == 0
    ensures (x * y) % c == 0
  {
    DividesIff(c, x);
    assert x * y == c * ((x / c) * y);
    MulModZero(c, (x / c) * y);
  }

  /** If c divides d and d divides n, then c divides n. */
  lemma DividesTrans(c: int, d: int, n: int)
    requires c > 0 && d > 0 && d % c == 0 && n % d == 0
    ensures n % c == 0
  {
    DividesIff(d, n);
    DividesProduct(c, d, n / d);
  }

  /** x and y leave the same remainder exactly when c divides x - y. */
  lemma SameRemainder(c: int, x: int, y: int)
    requires c > 0
    ensures x % c == y % c <==> (x - y) % c == 0
  {
    var qx, rx := x / c, x % c;
    var qy, ry := y / c, y % c;
    if rx == ry {
      DivModUnique(x - y, c, qx - qy, 0);
    } else {
      if rx > ry {
        DivModUnique(x - y, c, qx - qy, rx - ry);
      } else {
        DivModUnique(x - y, c, qx - qy - 1, c + rx - ry);
      }
    }
  }

  lemma ModMul(a: int, b: int, m: int)
    requires m > 0
    ensures (a * b) % m == ((a % m) * (b % m)) % m
  {
    var qa, ra, qb, rb := a / m, a % m, b / m, b % m;
    ExpandProduct(m, qa, ra, qb, rb);
    assert a == m * qa + ra;
    assert b == m * qb + rb;
    ModAddMultiple(ra * rb, m, m * qa * qb + qa * rb + ra * qb);
  }

  lemma ExpandProduct(m: int, qa: int, ra: int, qb: int, rb: int)
    ensures (m * qa + ra) * (m * qb + rb) == ra * rb + m * (m * qa * qb + qa * rb + ra * qb)
  {
  }

  lemma ModMulLeft(a: int, b: int, m: int)
    requires m > 0
    ensures ((a % m) * b) % m == (a * b) % m
  {
    var q, r := a / m, a % m;
    assert a * b == r * b + m * (q * b) by {
      assert a == m * q + r;
    }
    ModAddMultiple(r * b, m, q * b);
  }

  lemma ModOfRemainder(x: int, m: int)
    requires m > 0
    ensures (x % m) % m == x % m
  {
  }

  lemma {:induction false} PowNonNegative(b: int, k: nat)
    requires b >= 0
    ensures Pow(b, k) >= 0
  {
    if k > 0 {
      PowNonNegative(b, k - 1);
    }
  }

  lemma {:induction false} PowOfOne(k: nat)
    ensures Pow(1, k) == 1
  {
    if k > 0 {
      PowOfOne(k - 1);
    }
  }

  lemma {:induction false} PowAdd(b: int, i: nat, j: nat)
    ensures Pow(b, i + j) == Pow(b, i) * Pow(b, j)
  {
    if i > 0 {
      PowAdd(b, i - 1, j);
      assert Pow(b, i + j) == b * Pow(b, i - 1 + j);
    }
  }

  lemma {:induction false} PowMul(b: int, i: nat, j: nat)
    ensures Pow(Pow(b, i), j) == Pow(b, i * j)
  {
    if j > 0 {
      PowMul(b, i, j - 1);
      assert i * j == i + i * (j - 1);
      PowAdd(b, i, i * (j - 1));
    }
  }

  lemma {:induction false} PowSquare(b: int, k: nat)
    ensures Pow(b * b, k) == Pow(b, 2 * k)
  {
    assert Pow(b, 1) == b;
    assert Pow(b, 2) == b * b;
    PowMul(b, 2, k);
  }

  /** Reducing the base first does not change the power's remainder. */
  lemma {:induction false} PowModBase(b: int, k: nat, m: int)
    requires m > 0
    ensures Pow(b % m, k) % m == Pow(b, k) % m
  {
    if k > 0 {
      PowModBase(b, k - 1, m);
      calc {
        Pow(b % m, k) % m;
        ((b % m) * Pow(b % m, k - 1)) % m;
        { ModMul(b % m, Pow(b % m, k - 1), m); }
        (((b % m) % m) * (Pow(b % m, k - 1) % m)) % m;
        { ModOfRemainder(b, m); }
        ((b % m) * (Pow(b, k - 1) % m)) % m;
        { ModMul(b, Pow(b, k - 1), m); }
        Pow(b, k) % m;
      }
    }
  }

  /** A base that leaves remainder 1 has every power leave remainder 1. */
  lemma PowOfUnit(b: int, k: nat, m: int)
    requires m > 1 && b % m == 1
    ensures Pow(b, k) % m == 1
  {
    PowModBase(b, k, m);
    PowOfOne(k);
  }

  lemma PowOfMultiple(b: int, k: nat, m: int)
    requires m > 0 && k >= 1 && b % m == 0
    ensures Pow(b, k) % m == 0
  {
    DividesProduct(m, b, Pow(b, k - 1));
  }

  /** A power of a negated base: the sign flips exactly for odd exponents. */
  lemma {:induction false} PowNegate(b: int, k: nat)
    ensures Pow(-b, k) == if k % 2 == 0 then Pow(b, k) else -Pow(b, k)
  {
    if k > 0 {
      PowNegate(b, k - 1);
    }
  }
}
