/** The number theory of server.cpp: the 6k +/- 1 primality test, Euclid's
    gcd, the linear-search modular inverse and square-and-multiply modular
    exponentiation. RSA.cpp carries identical copies of isPrime and gcd,
    which these members model as well. */
module ServerArith {
  import opened CInt
  import opened ModMath

  /** n is prime: greater than 1 with no divisor in [2, n). */
  predicate Prime(n: int)
  {
    n > 1 && forall d :: 2 <= d < n ==> n % d != 0
  }

  /** For n below this bound the test `i * i <= n` of isPrime never
      overflows: the largest square it forms is 46337 * 46337. */
  const PrimeLimit: int := 46337 * 46337

  /** Any divisor d of n in [i, n) has a cofactor n / d in [2, i). */
  lemma SmallDivisorsSuffice(n: int, i: int)
    requires n > 1 && i >= 2 && i * i > n
    requires forall d :: 2 <= d < i ==> n % d != 0
    ensures Prime(n)
  {
    forall d | i <= d < n
      ensures n % d != 0
    {
      NoLargeDivisor(n, i, d);
    }
  }

  lemma NoLargeDivisor(n: int, i: int, d: int)
    requires n > 1 && i >= 2 && i * i > n && i <= d < n
    requires forall d :: 2 <= d < i ==> n % d != 0
    ensures n % d != 0
  {
    if n % d == 0 {
      var c := n / d;
      DividesIff(d, n);
      CofactorBelow(n, i, d, c);
      MulModZero(c, d);
    }
  }

  /** A factorisation n == d * c with i <= d < n and i * i > n has 2 <= c < i. */
  lemma CofactorBelow(n: int, i: int, d: int, c: int)
    requires n > 1 && i >= 2 && i * i > n && i <= d < n && n == d * c
    ensures 2 <= c < i
  {
    if c <= 0 {
      MulMono(c, 0, d);
    } else if c == 1 {
    } else if c >= i {
      MulMono(i, c, d);
      MulMono(i, d, i);
    }
  }

  /** One round of the loop: after i and i + 2, the numbers i + 1, i + 3,
      i + 4 and i + 5 are multiples of 2 or 3, which n avoids. */
  lemma NoDivisorStep(n: int, i: int)
    requires n % 2 != 0 && n % 3 != 0 && i >= 5 && i % 6 == 5
    requires forall d :: 2 <= d < i ==> n % d != 0
    requires n % i != 0 && n % (i + 2) != 0
    ensures forall d :: 2 <= d < i + 6 ==> n % d != 0
  {
    forall d | i <= d < i + 6
      ensures n % d != 0
    {
      if d != i && d != i + 2 {
        SmallFactorOfStep(i, d);
        if n % d == 0 {
          if d % 2 == 0 {
            DividesTrans(2, d, n);
          } else {
            DividesTrans(3, d, n);
          }
        }
      }
    }
  }

  /** Of i, ..., i + 5 with i == 5 (mod 6), all but i and i + 2 are even or
      multiples of 3. */
  lemma SmallFactorOfStep(i: int, d: int)
    requires i >= 5 && i % 6 == 5 && i <= d < i + 6 && d != i && d != i + 2
    ensures d % 2 == 0 || d % 3 == 0
  {
  }

  /** The next square the loop test forms stays within an `int`. */
  lemma NextSquareFits(i: int, n: int)
    requires i >= 5 && i % 6 == 5 && i * i <= n < PrimeLimit
    ensures (i + 6) * (i + 6) <= IntMax
  {
    if i >= 46337 {
      MulMono(46337, i, 46337);
      MulMono(46337, i, i);
    }
    assert i + 6 <= 46337;
    MulMono(i + 6, 46337, i + 6);
    MulMono(i + 6, 46337, 46337);
  }

  /** A divisor strictly between 1 and n shows that n is not prime. */
  lemma CompositeWitness(n: int, d: int)
    requires 2 <= d < n && n % d == 0
    ensures !Prime(n)
  {
  }

  /** isPrime (server.cpp:24-32, RSA.cpp:23-34): trial division by 2, 3 and
      then by 6k - 1 and 6k + 1 while the square stays at most n. */
  method IsPrime(n: int) returns (r: bool)
    requires n < PrimeLimit
    ensures r == Prime(n)
  {
    if n <= 1 {
      return false;
    }
    if n <= 3 {
      return true;
    }
    if n % 2 == 0 || n % 3 == 0 {
      CompositeWitness(n, if n % 2 == 0 then 2 else 3);
      return false;
    }
    var i := 5;
    while i * i <= n
      invariant i >= 5 && i % 6 == 5
      invariant i * i <= IntMax
      invariant forall d :: 2 <= d < i ==> n % d != 0
    {
      CandidatesBelow(n, i);
      if n % i == 0 || n % (i + 2) == 0 {
        CompositeWitness(n, if n % i == 0 then i else i + 2);
        return false;
      }
      NoDivisorStep(n, i);
      NextSquareFits(i, n);
      i := i + 6;
    }
    SmallDivisorsSuffice(n, i);
    return true;
  }

  /** While i * i <= n both candidates i and i + 2 lie below n. */
  lemma CandidatesBelow(n: int, i: int)
    requires i >= 5 && i * i <= n
    ensures i + 2 < n
  {
    MulMono(5, i, i);
  }

  /** gcd (server.cpp:45-48, RSA.cpp:7-11), with C++'s truncating `%`. It
      terminates because |a % b| < |b|. */
  function Gcd(a: int, b: int): (g: int)
    ensures b == 0 ==> g == a
    ensures a >= 0 && b >= 0 ==> g >= 0 && (g == 0 <==> a == 0 && b == 0)
    decreases Abs(b)
  {
    if b == 0 then a else Gcd(b, Rem(a, b))
  }

  /** The gcd of two non-negative numbers, not both zero, divides both. */
  lemma {:induction false} GcdDividesBoth(a: int, b: int)
    requires a >= 0 && b >= 0 && (a > 0 || b > 0)
    ensures a % Gcd(a, b) == 0 && b % Gcd(a, b) == 0
    decreases b
  {
    if b == 0 {
      MulModZero(a, 1);
    } else {
      RemOfNonNegative(a, b);
      var r := a % b;
      var g := Gcd(b, r);
      assert Gcd(a, b) == g;
      GcdDividesBoth(b, r);
      assert g > 0;
      var q := a / b;
      assert a == b * q + r;
      DividesProduct(g, b, q);
      assert (b * q) % g == 0;
      DividesSum(g, b * q, r);
    }
  }

  /** Every positive common divisor of a and b divides their gcd. */
  lemma {:induction false} GcdIsGreatest(a: int, b: int, c: int)
    requires a >= 0 && b >= 0 && c > 0 && a % c == 0 && b % c == 0
    ensures Gcd(a, b) % c == 0
    decreases b
  {
    if b != 0 {
      RemOfNonNegative(a, b);
      assert a % b == a - b * (a / b);
      DividesProduct(c, b, a / b);
      DividesSum(c, a, b * (a / b));
      GcdIsGreatest(b, a % b, c);
    }
  }

  /** Coefficients x, y with x * a + y * b == gcd(a, b) (extended Euclid). */
  function Bezout(a: int, b: int): (r: (int, int))
    requires a >= 0 && b >= 0
    ensures r.0 * a + r.1 * b == Gcd(a, b)
    decreases b
  {
    if b == 0 then (1, 0)
    else
      var q, rest := a / b, a % b;
      GcdStep(a, b);
      var (x, y) := Bezout(b, rest);
      BezoutCombine(a, b, q, rest, x, y);
      (y, x - y * q)
  }

  /** Coefficients for (b, a % b) give coefficients for (a, b). */
  lemma BezoutCombine(a: int, b: int, q: int, r: int, x: int, y: int)
    requires a == b * q + r && x * b + y * r == Gcd(b, r) == Gcd(a, b)
    ensures y * a + (x - y * q) * b == Gcd(a, b)
  {
    BezoutStep(a, b, q, r, x, y);
  }

  /** One step of Euclid on non-negative numbers keeps the gcd. */
  lemma GcdStep(a: int, b: int)
    requires a >= 0 && b > 0
    ensures Gcd(a, b) == Gcd(b, a % b)
  {
    RemOfNonNegative(a, b);
  }

  lemma BezoutStep(a: int, b: int, q: int, r: int, x: int, y: int)
    requires a == b * q + r
    ensures y * a + (x - y * q) * b == x * b + y * r
  {
    assert y * a == y * (b * q) + y * r;
    assert (x - y * q) * b == x * b - (y * q) * b;
    assert y * (b * q) == (y * q) * b;
  }

  /** x passes the test `(a * x) % m == 1` of modInverse, after `a = a % m`. */
  predicate IsInverse(a: int, m: int, x: int)
    requires m != 0
  {
    Rem(Rem(a, m) * x, m) == 1
  }

  predicate HasInverse(a: int, m: int)
    requires m != 0
  {
    exists x :: 1 <= x < m && IsInverse(a, m, x)
  }

  /** x is the first value of [1, m) that the search accepts. */
  predicate IsLeastInverse(a: int, m: int, x: int)
    requires m != 0
  {
    1 <= x < m && IsInverse(a, m, x) && forall y :: 1 <= y < x ==> !IsInverse(a, m, y)
  }

  /** (m - 1) * (m - 1) fits in an `int` whenever m <= MaxModulus. */
  lemma ProductFits(x: int, y: int, m: int)
    requires 0 <= x < m && 0 <= y < m && m <= MaxModulus
    ensures x * y <= IntMax
  {
    MulMono(x, MaxModulus - 1, y);
    MulMono(y, MaxModulus - 1, MaxModulus - 1);
    assert x * y <= (MaxModulus - 1) * y;
    assert y * (MaxModulus - 1) <= (MaxModulus - 1) * (MaxModulus - 1);
  }

  lemma SignedProductFits(u: int, x: int, m: int)
    requires Abs(u) < m && Abs(x) < m && m <= MaxModulus
    ensures -IntMax <= u * x <= IntMax
  {
    ProductFits(Abs(u), Abs(x), m);
    if u < 0 {
      assert u * x == -(Abs(u) * x);
    }
    if x < 0 {
      assert Abs(u) * x == -(Abs(u) * Abs(x));
    }
  }

  /** modInverse (server.cpp:50-56): the smallest x in [1, m) with
      (a % m) * x % m == 1, or -1 when there is none. */
  method ModInverse(a: int, m: int) returns (r: int)
    requires m != 0 && m <= MaxModulus
    ensures r == -1 <==> !HasInverse(a, m)
    ensures r != -1 ==> IsLeastInverse(a, m, r)
  {
    var a' := Rem(a, m);
    var x := 1;
    while x < m
      invariant 1 <= x
      invariant forall y :: 1 <= y < x ==> !IsInverse(a, m, y)
    {
      SignedProductFits(a', x, m);
      if Rem(a' * x, m) == 1 {
        assert IsInverse(a, m, x);
        return x;
      }
      x := x + 1;
    }
    return -1;
  }

  /** For a non-negative a and m > 1 the C++ test is the congruence
      a * x == 1 (mod m). */
  lemma IsInverseMeansCongruence(a: int, m: int, x: int)
    requires a >= 0 && m > 1 && x >= 0
    ensures IsInverse(a, m, x) <==> (a * x) % m == 1
  {
    RemOfNonNegative(a, m);
    MulNonNegative(a % m, x);
    RemOfNonNegative((a % m) * x, m);
    ModMulLeft(a, x, m);
  }

  lemma CoprimeHasInverse(a: int, m: int)
    requires a >= 0 && m > 1 && Gcd(a, m) == 1
    ensures HasInverse(a, m)
  {
    var (x, y) := Bezout(a, m);
    var x' := x % m;
    BezoutCongruence(a, m, x, y);
    IsInverseMeansCongruence(a, m, x');
    assert IsInverse(a, m, x');
  }

  /** With x * a + y * m == 1, x % m is a non-zero inverse of a modulo m. */
  lemma BezoutCongruence(a: int, m: int, x: int, y: int)
    requires m > 1 && x * a + y * m == 1
    ensures (a * (x % m)) % m == 1 && 1 <= x % m < m
  {
    BezoutRemainder(a, m, x, y);
    ModMulRight(a, x, m);
    if x % m == 0 {
      assert false;
    }
  }

  lemma BezoutRemainder(a: int, m: int, x: int, y: int)
    requires m > 1 && x * a + y * m == 1
    ensures (a * x) % m == 1
  {
    ModAddMultiple(1, m, -y);
    assert a * x == 1 + m * (-y);
  }

  lemma ModMulRight(a: int, b: int, m: int)
    requires m > 0
    ensures (a * (b % m)) % m == (a * b) % m
  {
    ModMulLeft(b, a, m);
    assert a * (b % m) == (b % m) * a;
    assert a * b == b * a;
  }

  lemma InverseImpliesCoprime(a: int, m: int)
    requires a >= 0 && m > 1 && HasInverse(a, m)
    ensures Gcd(a, m) == 1
  {
    var x :| 1 <= x < m && IsInverse(a, m, x);
    IsInverseMeansCongruence(a, m, x);
    GcdDividesBoth(a, m);
    DividesOne(Gcd(a, m), a, x, m);
  }

  /** A positive common divisor of a and m divides a * x - m * k; when
      a * x == 1 (mod m), that is 1, so the divisor is 1. */
  lemma DividesOne(g: int, a: int, x: int, m: int)
    requires g > 0 && m > 1 && a % g == 0 && m % g == 0 && (a * x) % m == 1
    ensures g == 1
  {
    var k := (a * x) / m;
    assert a * x == m * k + 1;
    DividesProduct(g, a, x);
    DividesProduct(g, m, k);
    DividesSum(g, a * x, m * k);
    assert a * x - m * k == 1;
  }

  /** An inverse modulo m > 1 exists exactly when a and m are coprime. */
  lemma InverseExistsIffCoprime(a: int, m: int)
    requires a >= 0 && m > 1
    ensures HasInverse(a, m) <==> Gcd(a, m) == 1
  {
    if Gcd(a, m) == 1 {
      CoprimeHasInverse(a, m);
    }
    if HasInverse(a, m) {
      InverseImpliesCoprime(a, m);
    }
  }

  /** A modulus modPow can use: `%` by it is defined (it is not 0) and
      the product of two remainders fits in an `int`. */
  predicate UsableModulus(m: int)
  {
    m != 0 && Abs(m) <= MaxModulus
  }

  /** modPow's result: the truncating remainder of b^k when k > 0, and 1
      when the loop does not run (k <= 0), even for m == 1. */
  function PowMod(b: int, k: int, m: int): (r: int)
    requires m != 0
    ensures k > 0 ==> Abs(r) < Abs(m)
    ensures b >= 0 ==> r >= 0
  {
    if k <= 0 then 1 else PowNonNegativeIfBase(b, k); Rem(Pow(b, k), m)
  }

  /** A negative modulus gives the same result as its absolute value. */
  lemma PowModAbs(b: int, k: int, m: int)
    requires m != 0
    ensures PowMod(b, k, m) == PowMod(b, k, Abs(m))
  {
    if k > 0 {
      RemAbs(Pow(b, k), m);
    }
  }

  /** The sign of a power of a non-negative base. */
  lemma PowNonNegativeIfBase(b: int, k: nat)
    ensures b >= 0 ==> Pow(b, k) >= 0
  {
    if b >= 0 {
      PowNonNegative(b, k);
    }
  }

  /** For a non-negative base PowMod is the usual b^k mod m, in [0, m). */
  lemma PowModOfNonNegative(b: int, k: int, m: int)
    requires b >= 0 && k > 0 && m > 0
    ensures PowMod(b, k, m) == Pow(b, k) % m
    ensures 0 <= PowMod(b, k, m) < m
  {
    PowNonNegative(b, k);
    RemOfNonNegative(Pow(b, k), m);
  }

  /** Two factors with the same remainder give products with the same
      remainder. */
  lemma ReduceFactor(x: int, y: int, z: int, m: int)
    requires m > 0 && Rem(x, m) == Rem(y, m)
    ensures Rem(x * z, m) == Rem(y * z, m)
  {
    RemMulLeft(x, z, m);
    RemMulLeft(y, z, m);
  }

  /** One round of square-and-multiply keeps result * base^exponent fixed
      modulo m. */
  lemma SquareAndMultiplyStep(result: int, b: int, e: nat, m: int)
    requires m > 0 && e > 0
    ensures var r' := if e % 2 == 1 then Rem(result * b, m) else result;
            Rem(r' * Pow(Rem(b * b, m), e / 2), m) == Rem(result * Pow(b, e), m)
  {
    var h := e / 2;
    var p := Pow(Rem(b * b, m), h);
    var q := Pow(b, 2 * h);
    PowRemBase(b * b, h, m);
    PowSquare(b, h);
    assert Rem(p, m) == Rem(q, m);
    if e % 2 == 1 {
      assert e == 1 + 2 * h;
      PowAdd(b, 1, 2 * h);
      assert Pow(b, 1) == b;
      assert Pow(b, e) == b * q;
      OddRound(result, b, p, q, m);
    } else {
      assert e == 2 * h;
      assert result * p == p * result && result * q == q * result;
      ReduceFactor(p, q, result, m);
    }
  }

  /** The odd round: multiplying result by b first and by b's square power
      later agrees with multiplying by b * q, when p == q modulo m. */
  lemma OddRound(result: int, b: int, p: int, q: int, m: int)
    requires m > 0 && Rem(p, m) == Rem(q, m)
    ensures Rem(Rem(result * b, m) * p, m) == Rem(result * (b * q), m)
  {
    calc {
      Rem(Rem(result * b, m) * p, m);
      { RemMulLeft(result * b, p, m); }
      Rem((result * b) * p, m);
      { assert (result * b) * p == p * (result * b); }
      Rem(p * (result * b), m);
      { ReduceFactor(p, q, result * b, m); }
      Rem(q * (result * b), m);
      { assert q * (result * b) == result * (b * q); }
      Rem(result * (b * q), m);
    }
  }

  /** The products formed by modPow's loop fit in an `int`. */
  lemma StepFits(result: int, b: int, m: int)
    requires Abs(b) < m <= MaxModulus && (Abs(result) < m || result == 1)
    ensures -IntMax <= result * b <= IntMax
    ensures -IntMax <= b * b <= IntMax
  {
    SignedProductFits(b, b, m);
    if result == 1 {
      assert result * b == b;
    } else {
      SignedProductFits(result, b, m);
    }
  }

  /** modPow (server.cpp:58-68): right-to-left binary exponentiation with
      C++'s truncating `%`, for any base and any usable modulus, negative
      ones included. */
  method ModPow(base: int, exponent: int, modulus: int) returns (result: int)
    requires UsableModulus(modulus)
    ensures result == PowMod(base, exponent, modulus)
  {
    ghost var m := Abs(modulus);
    ghost var goal := if exponent > 0 then Rem(Pow(base, exponent), m) else 1;
    RemAbs(base, modulus);
    var b := Rem(base, modulus);
    var e := exponent;
    result := 1;
    if exponent > 0 {
      PowRemBase(base, exponent, m);
      assert 1 * Pow(b, e) == Pow(b, e);
    }
    while e > 0
      invariant Abs(b) < m
      invariant Abs(result) < m || result == 1
      invariant exponent > 0 ==> 0 <= e && Rem(result * Pow(b, e), m) == goal
      invariant exponent > 0 && e == 0 ==> Abs(result) < m
      invariant exponent <= 0 ==> e == exponent && result == 1
    {
      SquareAndMultiplyStep(result, b, e, m);
      StepFits(result, b, m);
      RemAbs(result * b, modulus);
      RemAbs(b * b, modulus);
      // e > 0 here, so C++'s e % 2 and e >> 1 are Dafny's e % 2 and e / 2
      if e % 2 == 1 {
        result := Rem(result * b, modulus);
      }
      e := e / 2;
      b := Rem(b * b, modulus);
    }
    if exponent > 0 {
      assert e == 0 && Pow(b, e) == 1;
      assert result * Pow(b, e) == result;
      RemSmall(result, m);
    }
    PowModAbs(base, exponent, modulus);
  }

  /** modPow(0, k, m) == 0 for k > 0 and m > 1, and modPow(b, 0, m) == 1. */
  lemma PowModEdgeCases(b: int, k: int, m: int)
    requires m > 1
    ensures PowMod(b, 0, m) == 1
    ensures k > 0 ==> PowMod(0, k, m) == 0
  {
    if k > 0 {
      PowOfMultiple(0, k, m);
      PowModOfNonNegative(0, k, m);
    }
  }

  /** Raising a modPow result to a further power is one power with the
      product of the exponents. */
  lemma PowModCompose(g: int, a: int, b: int, m: int)
    requires a > 0 && b > 0 && m > 0
    ensures PowMod(PowMod(g, a, m), b, m) == Rem(Pow(g, a * b), m)
  {
    PowRemBase(Pow(g, a), b, m);
    PowMul(g, a, b);
  }
}
