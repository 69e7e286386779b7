/** The stand-alone RSA demonstration (RSA.cpp). Its `gcd` (RSA.cpp:7-11) and
    `isPrime` (RSA.cpp:23-34) are the same code as the server's and are
    modelled by `ServerArith.Gcd` and `ServerArith.IsPrime`; only its
    `modInverse` differs. */
module RsaTool {
  import opened CInt
  import opened ServerArith

  /** modInverse (RSA.cpp:14-20): the same search as the server's, but 1
      instead of -1 when no inverse exists. */
  method ModInverse(a: int, m: int) returns (r: int)
    requires m != 0 && m <= MaxModulus
    ensures HasInverse(a, m) ==> IsLeastInverse(a, m, r)
    ensures !HasInverse(a, m) ==> r == 1
  {
    var a' := Rem(a, m);
    var x := 1;
    while x < m
      invariant 1 <= x
      invariant forall y :: 1 <= y < x ==> !IsInverse(a, m, y)
    {
      SignedProductFits(a', x, m);
      if Rem(a' * x, m) == 1 {
        assert IsInverse(a, m, x);
        return x;
      }
      x := x + 1;
    }
    return 1;
  }

  /** The failure value 1 is also a genuine answer: 2 has no inverse modulo 4
      and 1 is the least inverse of 1 modulo 4, so both calls return 1 and a
      caller cannot tell them apart. The server's version returns -1 for the
      first, which is never a genuine answer. */
  lemma FailureIsIndistinguishable()
    ensures !HasInverse(2, 4) && IsLeastInverse(1, 4, 1)
    ensures forall a, m, x :: m != 0 && IsLeastInverse(a, m, x) ==> x != -1
  {
    forall x | 1 <= x < 4
      ensures !IsInverse(2, 4, x)
    {
      assert x == 1 || x == 2 || x == 3;
    }
  }
}
