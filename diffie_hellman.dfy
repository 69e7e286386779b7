/** Diffie-Hellman arithmetic (diffieHellman.cpp): a fixed table of
    (prime, generator) pairs and two repeated-multiplication power loops. */
module DiffieHellman {
  import opened CInt
  import opened ModMath
  import opened ServerArith

  /** The (p, g) pairs of genParameters (diffieHellman.cpp:15-17). */
  const ParamPairs: seq<(int, int)> :=
    [(23, 2), (47, 5), (17, 3), (29, 2), (31, 5), (19, 3), (37, 2)]

  /** genParameters (diffieHellman.cpp:14-21), with the value of `rand()`
      as a parameter. */
  function GenParameters(randValue: int): (r: (int, int))
    requires randValue >= 0
    ensures r in ParamPairs
  {
    ParamPairs[randValue % |ParamPairs|]
  }

  /** An odd n below 49 with no factor 3 or 5 is prime. */
  lemma SmallPrime(n: int)
    requires 7 <= n < 49 && n % 2 != 0 && n % 3 != 0 && n % 5 != 0
    ensures Prime(n)
  {
    forall d | 2 <= d < 7
      ensures n % d != 0
    {
      if d == 4 && n % 4 == 0 {
        DividesTrans(2, 4, n);
      }
      if d == 6 && n % 6 == 0 {
        DividesTrans(2, 6, n);
      }
    }
    SmallDivisorsSuffice(n, 7);
  }

  /** Every listed modulus is prime and every generator lies in [2, p). */
  lemma ParametersValid()
    ensures forall i :: 0 <= i < |ParamPairs| ==>
              Prime(ParamPairs[i].0) && 2 <= ParamPairs[i].1 < ParamPairs[i].0
  {
    SmallPrime(23);
    SmallPrime(47);
    SmallPrime(17);
    SmallPrime(29);
    SmallPrime(31);
    SmallPrime(19);
    SmallPrime(37);
  }

  /** The product formed by the loops below fits in an `int`. */
  lemma LoopProductFits(result: int, g: int, p: int)
    requires p >= 1 && (Abs(result) < p || result == 1) && Abs(g) * p <= IntMax
    ensures InIntRange(result * g)
  {
    MulMono(Abs(result), p, Abs(g));
    assert Abs(result * g) == Abs(result) * Abs(g) by {
      if result < 0 {
        assert result * g == -(Abs(result) * g);
      }
      if g < 0 {
        assert Abs(result) * g == -(Abs(result) * Abs(g));
      }
    }
  }

  /** One more multiplication by g advances the reduced power by one. */
  lemma PowerStep(result: int, g: int, p: int, i: nat)
    requires p >= 1 && (if i == 0 then result == 1 else result == Rem(Pow(g, i), p))
    ensures Rem(result * g, p) == Rem(Pow(g, i + 1), p)
  {
    assert Pow(g, i + 1) == Pow(g, i) * g;
    if i == 0 {
      assert Pow(g, 0) == 1;
    } else {
      RemMulLeft(Pow(g, i), g, p);
    }
  }

  /** computePublic (diffieHellman.cpp:23-32): g^k reduced after every
      multiplication. */
  method ComputePublic(gVal: int, pVal: int, privateKey: int) returns (result: int)
    requires pVal >= 1 && Abs(gVal) * pVal <= IntMax
    ensures result == PowMod(gVal, privateKey, pVal)
  {
    result := 1;
    var i := 0;
    while i < privateKey
      invariant 0 <= i && (i <= privateKey || i == 0)
      invariant if i == 0 then result == 1 else result == Rem(Pow(gVal, i), pVal)
    {
      LoopProductFits(result, gVal, pVal);
      PowerStep(result, gVal, pVal, i);
      result := Rem(result * gVal, pVal);
      i := i + 1;
    }
  }

  /** resolveKey (diffieHellman.cpp:34-42): the shared key from the other
      side's public value and this side's private key. */
  method ResolveKey(otherKey: int, yourKey: int, pVal: int) returns (result: int)
    requires pVal >= 1 && Abs(otherKey) * pVal <= IntMax
    ensures result == PowMod(otherKey, yourKey, pVal)
  {
    result := 1;
    var i := 0;
    while i < yourKey
      invariant 0 <= i && (i <= yourKey || i == 0)
      invariant if i == 0 then result == 1 else result == Rem(Pow(otherKey, i), pVal)
    {
      LoopProductFits(result, otherKey, pVal);
      PowerStep(result, otherKey, pVal, i);
      result := Rem(result * otherKey, pVal);
      i := i + 1;
    }
  }

  /** A modPow by a key of 0 on one side, or of the value 1, is 1. */
  lemma PowModOfOne(k: int, p: int)
    requires p > 1
    ensures PowMod(1, k, p) == 1
  {
    if k > 0 {
      PowOfOne(k);
      RemSmall(1, p);
    }
  }

  /** Key agreement: for p > 1 and private keys a, b >= 0 both sides reach
      the same key, g^(a*b) reduced modulo p. */
  lemma KeyAgreement(g: int, p: int, a: int, b: int)
    requires p > 1 && a >= 0 && b >= 0
    ensures PowMod(PowMod(g, b, p), a, p) == PowMod(PowMod(g, a, p), b, p)
    ensures a > 0 && b > 0 ==> PowMod(PowMod(g, b, p), a, p) == Rem(Pow(g, a * b), p)
  {
    if a == 0 || b == 0 {
      PowModOfOne(a, p);
      PowModOfOne(b, p);
    } else {
      PowModCompose(g, a, b, p);
      PowModCompose(g, b, a, p);
      assert a * b == b * a;
    }
  }

  /** With p == 1 the two sides can disagree: a private key 0 on one side
      keeps the loop result 1, while any real multiplication reduces to 0. */
  lemma AgreementNeedsModulusAboveOne(g: int)
    ensures PowMod(PowMod(g, 0, 1), 1, 1) == 0
    ensures PowMod(PowMod(g, 1, 1), 0, 1) == 1
  {
  }

  /** A public value or a shared key is small enough to be passed on to
      resolveKey without overflow. */
  lemma ReducedValueFits(v: int, p: int)
    requires 1 < p <= MaxModulus && (Abs(v) < p || v == 1)
    ensures Abs(v) * p <= IntMax
  {
    MulMono(Abs(v), p - 1, p);
    MulMono(p, MaxModulus, p);
    MulMono(p, MaxModulus, MaxModulus);
  }

  /** The protocol run by two parties with private keys a and b: each
      computes a public value and resolves the other's; the keys agree. */
  method Exchange(g: int, p: int, a: int, b: int) returns (aliceKey: int, bobKey: int)
    requires 1 < p <= MaxModulus && Abs(g) * p <= IntMax && a >= 0 && b >= 0
    ensures aliceKey == bobKey
    ensures a > 0 && b > 0 ==> aliceKey == Rem(Pow(g, a * b), p)
  {
    var alicePublic := ComputePublic(g, p, a);
    var bobPublic := ComputePublic(g, p, b);
    ReducedValueFits(alicePublic, p);
    ReducedValueFits(bobPublic, p);
    aliceKey := ResolveKey(bobPublic, a, p);
    bobKey := ResolveKey(alicePublic, b, p);
    KeyAgreement(g, p, a, b);
  }

  /** The table's pair (31, 5) has a generator of order 3: every public
      value and key for p = 31, g = 5 is one of 1, 5 and 25. */
  lemma {:induction false} GeneratorFiveModThirtyOne(k: nat)
    ensures Pow(5, k) % 31 == 1 || Pow(5, k) % 31 == 5 || Pow(5, k) % 31 == 25
  {
    if k > 0 {
      GeneratorFiveModThirtyOne(k - 1);
      ModMul(5, Pow(5, k - 1), 31);
    }
  }

  /** So with (31, 5) computePublic takes at most three values. */
  lemma SmallSubgroup(k: int)
    ensures PowMod(5, k, 31) == 1 || PowMod(5, k, 31) == 5 || PowMod(5, k, 31) == 25
  {
    if k > 0 {
      GeneratorFiveModThirtyOne(k);
      PowModOfNonNegative(5, k, 31);
    }
  }
}
