/** Why RSA decryption undoes encryption: Euclid's lemma, the binomial
    theorem, Fermat's little theorem and the identity
    m^(e*d) == m (mod p*q) for e*d == 1 (mod (p-1)*(q-1)). */
module RsaMath {
  import opened ModMath
  import opened ServerArith

  /** A positive divisor of a prime is 1 or the prime itself. */
  lemma PrimeDivisor(p: int, g: int)
    requires Prime(p) && g > 0 && p % g == 0
    ensures g == 1 || g == p
  {
    DividesIff(g, p);
    var k := p / g;
    if k <= 0 {
      MulMono(k, 0, g);
      assert false;
    }
    MulAtLeast(g, k);
    assert g <= p;
  }

  /** Euclid's lemma: a prime that divides a product divides a factor. */
  lemma EuclidLemma(p: int, a: int, b: int)
    requires Prime(p) && (a * b) % p == 0
    ensures a % p == 0 || b % p == 0
  {
    var r := a % p;
    if r != 0 {
      var g := Gcd(p, r);
      GcdDividesBoth(p, r);
      PrimeDivisor(p, g);
      if g == p {
        DivModUnique(r, p, 0, r);
        assert false;
      }
      var (x, y) := Bezout(p, r);
      ModMulLeft(a, b, p);
      CoprimeFactor(p, r, b, x, y);
    }
  }

  /** If x * p + y * r == 1 and p divides r * b, then p divides b. */
  lemma CoprimeFactor(p: int, r: int, b: int, x: int, y: int)
    requires p > 0 && x * p + y * r == 1 && (r * b) % p == 0
    ensures b % p == 0
  {
    assert b == p * (x * b) + (r * b) * y by {
      assert b == (x * p + y * r) * b;
    }
    DividesProduct(p, r * b, y);
    MulModZero(p, x * b);
    DividesSum(p, p * (x * b), (r * b) * y);
  }

  /** Binomial coefficients by Pascal's rule. */
  function Choose(n: nat, k: nat): nat
  {
    if k == 0 then 1 else if n == 0 then 0 else Choose(n - 1, k - 1) + Choose(n - 1, k)
  }

  lemma {:induction false} ChooseAboveIsZero(n: nat, k: nat)
    requires k > n
    ensures Choose(n, k) == 0
  {
    if n > 0 {
      ChooseAboveIsZero(n - 1, k - 1);
      ChooseAboveIsZero(n - 1, k);
    }
  }

  lemma {:induction false} ChooseSelf(n: nat)
    ensures Choose(n, n) == 1
  {
    if n > 0 {
      ChooseSelf(n - 1);
      ChooseAboveIsZero(n - 1, n);
    }
  }

  /** The absorption identity k * C(n, k) == n * C(n - 1, k - 1). */
  lemma {:induction false} ChooseAbsorb(n: nat, k: nat)
    requires n >= 1 && k >= 1
    ensures k * Choose(n, k) == n * Choose(n - 1, k - 1)
  {
    if n == 1 {
      if k >= 2 {
        ChooseAboveIsZero(0, k - 1);
      }
    } else if k == 1 {
      ChooseAbsorb(n - 1, 1);
    } else {
      ChooseAbsorb(n - 1, k);
      ChooseAbsorb(n - 1, k - 1);
      AbsorbAlgebra(n, k, Choose(n, k), Choose(n - 1, k - 1), Choose(n - 1, k),
                    Choose(n - 2, k - 2), Choose(n - 2, k - 1));
    }
  }

  lemma AbsorbAlgebra(n: int, k: int, all: int, a: int, b: int, c: int, d: int)
    requires all == a + b && a == c + d
    requires k * b == (n - 1) * d && (k - 1) * a == (n - 1) * c
    ensures k * all == n * a
  {
    calc {
      k * all;
      k * a + k * b;
      a + (k - 1) * a + k * b;
      a + (n - 1) * c + (n - 1) * d;
      a + (n - 1) * (c + d);
      n * a;
    }
  }

  /** A prime p divides C(p, k) for 0 < k < p. */
  lemma PrimeDividesChoose(p: nat, k: nat)
    requires Prime(p) && 0 < k < p
    ensures Choose(p, k) % p == 0
  {
    ChooseAbsorb(p, k);
    MulModZero(p, Choose(p - 1, k - 1));
    EuclidLemma(p, k, Choose(p, k));
    DivModUnique(k, p, 0, k);
  }

  /** The sum over i in [0, k] of C(n, i) * a^i. */
  function BinomialSum(n: nat, a: int, k: nat): int
  {
    if k == 0 then 1 else BinomialSum(n, a, k - 1) + Choose(n, k) * Pow(a, k)
  }

  lemma {:induction false} PascalSum(n: nat, a: int, k: nat)
    requires k >= 1
    ensures BinomialSum(n + 1, a, k) == a * BinomialSum(n, a, k - 1) + BinomialSum(n, a, k)
  {
    assert Pow(a, 1) == a;
    if k == 1 {
      assert Choose(n + 1, 1) == 1 + Choose(n, 1);
      PascalAlgebraBase(a, Choose(n, 1));
    } else {
      PascalSum(n, a, k - 1);
      PascalAlgebra(a, BinomialSum(n + 1, a, k), BinomialSum(n + 1, a, k - 1),
                    BinomialSum(n, a, k), BinomialSum(n, a, k - 1), BinomialSum(n, a, k - 2),
                    Choose(n, k - 1), Choose(n, k), Pow(a, k), Pow(a, k - 1));
    }
  }

  lemma PascalAlgebraBase(a: int, c: int)
    ensures 1 + (1 + c) * a == a * 1 + (1 + c * a)
  {
  }

  lemma PascalAlgebra(a: int, l: int, l1: int, s0: int, s1: int, s2: int,
                      c1: int, c2: int, pk: int, pk1: int)
    requires l == l1 + (c1 + c2) * pk && l1 == a * s2 + s1
    requires pk == a * pk1 && s1 == s2 + c1 * pk1 && s0 == s1 + c2 * pk
    ensures l == a * s1 + s0
  {
    calc {
      a * s1 + s0;
      a * s2 + a * (c1 * pk1) + s1 + c2 * pk;
      { assert a * (c1 * pk1) == c1 * (a * pk1); }
      a * s2 + c1 * pk + s1 + c2 * pk;
      l;
    }
  }

  lemma {:induction false} SumStable(n: nat, a: int, k: nat)
    requires k >= n
    ensures BinomialSum(n, a, k) == BinomialSum(n, a, n)
    decreases k
  {
    if k > n {
      SumStable(n, a, k - 1);
      ChooseAboveIsZero(n, k);
    }
  }

  /** The binomial theorem for (a + 1)^n. */
  lemma {:induction false} BinomialTheorem(n: nat, a: int)
    ensures Pow(a + 1, n) == BinomialSum(n, a, n)
  {
    if n > 0 {
      BinomialTheorem(n - 1, a);
      SumStable(n - 1, a, n);
      PascalSum(n - 1, a, n);
      var s := BinomialSum(n - 1, a, n - 1);
      assert Pow(a + 1, n) == (a + 1) * Pow(a + 1, n - 1);
      DistributeOne(a, s);
    }
  }

  lemma DistributeOne(a: int, s: int)
    ensures (a + 1) * s == a * s + s
  {
  }

  lemma {:induction false} MiddleTermsDivisible(p: nat, a: int, k: nat)
    requires Prime(p) && k < p
    ensures (BinomialSum(p, a, k) - 1) % p == 0
  {
    if k > 0 {
      MiddleTermsDivisible(p, a, k - 1);
      MiddleTermDivisible(p, a, k);
      DividesSum(p, BinomialSum(p, a, k - 1) - 1, Choose(p, k) * Pow(a, k));
    }
  }

  lemma MiddleTermDivisible(p: nat, a: int, k: nat)
    requires Prime(p) && 0 < k < p
    ensures (Choose(p, k) * Pow(a, k)) % p == 0
  {
    PrimeDividesChoose(p, k);
    DividesProduct(p, Choose(p, k), Pow(a, k));
  }

  /** (a + 1)^p == a^p + 1 (mod p). */
  lemma FreshmanStep(p: nat, a: int)
    requires Prime(p)
    ensures (Pow(a + 1, p) - Pow(a, p) - 1) % p == 0
  {
    BinomialTheorem(p, a);
    ChooseSelf(p);
    MiddleTermsDivisible(p, a, p - 1);
    assert BinomialSum(p, a, p) == BinomialSum(p, a, p - 1) + Pow(a, p);
  }

  /** Fermat's little theorem: a^p == a (mod p). */
  lemma {:induction false} FermatLittle(p: nat, a: nat)
    requires Prime(p)
    ensures (Pow(a, p) - a) % p == 0
  {
    if a > 0 {
      FermatLittle(p, a - 1);
      FermatStep(p, a - 1);
    } else {
      FermatZero(p);
    }
  }

  lemma FermatZero(p: nat)
    requires p >= 1
    ensures (Pow(0, p) - 0) % p == 0
  {
    PowOfMultiple(0, p, p);
  }

  lemma FermatStep(p: nat, a: nat)
    requires Prime(p) && (Pow(a, p) - a) % p == 0
    ensures (Pow(a + 1, p) - (a + 1)) % p == 0
  {
    FreshmanStep(p, a);
    DividesSum(p, Pow(a + 1, p) - Pow(a, p) - 1, Pow(a, p) - a);
  }

  /** For a not divisible by p, a^(p-1) == 1 (mod p). */
  lemma FermatUnit(p: nat, a: nat)
    requires Prime(p) && a % p != 0
    ensures Pow(a, p - 1) % p == 1
  {
    var u := Pow(a, p - 1);
    assert (a * (u - 1)) % p == 0 by {
      FermatLittle(p, a);
      assert Pow(a, p) - a == a * (u - 1);
    }
    EuclidLemma(p, a, u - 1);
    SameRemainder(p, u, 1);
    DivModUnique(1, p, 0, 1);
  }

  /** m^ex == m (mod p) for ex == 1 + (p-1)*t, whether or not p divides m. */
  lemma PowCongruentModPrime(p: nat, m: nat, t: nat, ex: nat)
    requires Prime(p) && ex == 1 + (p - 1) * t
    ensures (Pow(m, ex) - m) % p == 0
  {
    var j := (p - 1) * t;
    MulNonNegative(p - 1, t);
    if m % p == 0 {
      PowOfMultiple(m, ex, p);
      SameRemainder(p, Pow(m, ex), m);
    } else {
      var u := Pow(Pow(m, p - 1), t);
      assert Pow(m, ex) == m * u by {
        PowAdd(m, 1, j);
        PowMul(m, p - 1, t);
        assert Pow(m, 1) == m;
      }
      assert u % p == 1 by {
        FermatUnit(p, m);
        PowOfUnit(Pow(m, p - 1), t, p);
      }
      assert (m * u) % p == m % p by {
        ModMul(m, u, p);
        ModOfRemainder(m, p);
        assert (m % p) * 1 == m % p;
      }
      SameRemainder(p, Pow(m, ex), m);
    }
  }

  /** Two distinct primes that both divide x divide it together. */
  lemma TwoPrimesDivide(p: int, q: int, x: int)
    requires Prime(p) && Prime(q) && p != q && x % p == 0 && x % q == 0
    ensures x % (p * q) == 0
  {
    DividesIff(p, x);
    var y := x / p;
    assert (p * y) % q == 0;
    EuclidLemma(q, p, y);
    if p % q == 0 {
      PrimeDivisor(p, q);
      assert false;
    }
    DividesIff(q, y);
    var z := y / q;
    assert x == (p * q) * z;
    MulModZero(p * q, z);
  }

  /** Euler's totient of p * q for distinct primes p and q. */
  function Totient(p: int, q: int): (phi: int)
    ensures p > 1 && q > 1 ==> phi >= 1
  {
    TotientPositive(p, q);
    (p - 1) * (q - 1)
  }

  lemma TotientPositive(p: int, q: int)
    ensures p > 1 && q > 1 ==> (p - 1) * (q - 1) >= 1
  {
    if p > 1 && q > 1 {
      MulAtLeast(p - 1, q - 1);
    }
  }

  /** The RSA identity: for distinct primes p, q and e*d == 1 modulo
      (p-1)*(q-1), m^(e*d) == m modulo p*q. */
  lemma RsaIdentity(p: nat, q: nat, m: nat, ed: nat)
    requires Prime(p) && Prime(q) && p != q
    requires ed % Totient(p, q) == 1
    ensures Pow(m, ed) % (p * q) == m % (p * q)
  {
    var tp, tq := ExponentSplit(p, q, ed);
    PowCongruentModPrime(p, m, tp, ed);
    PowCongruentModPrime(q, m, tq, ed);
    CombineModuli(p, q, Pow(m, ed), m);
  }

  /** Two congruences modulo distinct primes give one modulo their product. */
  lemma CombineModuli(p: int, q: int, a: int, b: int)
    requires Prime(p) && Prime(q) && p != q
    requires (a - b) % p == 0 && (a - b) % q == 0
    ensures a % (p * q) == b % (p * q)
  {
    TwoPrimesDivide(p, q, a - b);
    SameRemainder(p * q, a, b);
  }

  /** e*d == 1 (mod (p-1)*(q-1)) writes e*d as 1 + (p-1)*tp and as 1 + (q-1)*tq. */
  lemma ExponentSplit(p: int, q: int, ed: int) returns (tp: nat, tq: nat)
    requires p > 1 && q > 1 && ed >= 0
    requires ed % Totient(p, q) == 1
    ensures ed == 1 + (p - 1) * tp && ed == 1 + (q - 1) * tq
  {
    var phi := Totient(p, q);
    var t := ed / phi;
    assert ed == phi * t + 1;
    assert t >= 0;
    MulNonNegative(q - 1, t);
    MulNonNegative(p - 1, t);
    tp, tq := (q - 1) * t, (p - 1) * t;
    assert phi * t == (p - 1) * tp;
    assert phi * t == (q - 1) * tq;
  }
}
