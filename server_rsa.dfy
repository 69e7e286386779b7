/** The server's RSA layer (server.cpp): key generation and the text codec
    that turns a message into space-separated decimal ciphertexts and back. */
module ServerRsa {
  import opened Wrappers
  import opened CInt
  import opened ModMath
  import opened ServerArith
  import opened RsaMath
  import opened DecimalText

  // ---------------------------------------------------------------------
  // Key generation (server.cpp:70-80)
  // ---------------------------------------------------------------------

  /** e is where generateKeys's search for the public exponent stops: the
      least e in [2, phi) coprime to phi, or the loop bound when there is
      none. */
  predicate PublicExponent(phi: int, e: int)
  {
    (forall c :: 2 <= c < e ==> Gcd(c, phi) != 1) &&
    ((2 <= e < phi && Gcd(e, phi) == 1) || e == (if phi > 2 then phi else 2))
  }

  /** r is what the server's modInverse returns for a and m. */
  predicate InverseResult(a: int, m: int, r: int)
    requires m != 0
  {
    (r == -1 <==> !HasInverse(a, m)) && (r != -1 ==> IsLeastInverse(a, m, r))
  }

  /** (n, e, d) is what generateKeys produces from p and q. */
  predicate KeysFor(p: int, q: int, n: int, e: int, d: int)
    requires Totient(p, q) != 0
  {
    n == p * q && PublicExponent(Totient(p, q), e) && InverseResult(e, Totient(p, q), d)
  }

  /** generateKeys (server.cpp:70-80). */
  method GenerateKeys(p: int, q: int) returns (n: int, e: int, d: int)
    requires Totient(p, q) != 0
    requires InIntRange(p * q) && InIntRange(Totient(p, q)) && Totient(p, q) <= MaxModulus
    ensures KeysFor(p, q, n, e, d)
  {
    n := p * q;
    var phi := (p - 1) * (q - 1);
    e := 2;
    while e < phi
      invariant 2 <= e && (phi > 2 ==> e <= phi) && (phi <= 2 ==> e == 2)
      invariant forall c :: 2 <= c < e ==> Gcd(c, phi) != 1
    {
      if Gcd(e, phi) == 1 {
        break;
      }
      e := e + 1;
    }
    d := ModInverse(e, phi);
  }

  /** phi - 1 is coprime to phi, so the exponent search succeeds whenever
      phi > 2. */
  lemma CoprimeNeighbour(phi: int)
    requires phi > 2
    ensures Gcd(phi - 1, phi) == 1
  {
    RemSmall(phi - 1, phi);
    DivModUnique(phi, phi - 1, 1, 1);
    RemOfNonNegative(phi, phi - 1);
    assert Gcd(phi - 1, phi) == Gcd(phi, phi - 1);
    assert Gcd(phi, phi - 1) == Gcd(phi - 1, 1);
  }

  /** For phi > 2 the public exponent is in [2, phi) and coprime to phi. */
  lemma ExponentBelowTotient(phi: int, e: int)
    requires phi > 2 && PublicExponent(phi, e)
    ensures 2 <= e < phi && Gcd(e, phi) == 1
  {
    if e >= phi {
      CoprimeNeighbour(phi);
      assert false;
    }
  }

  /** A prime other than 2 is odd. */
  lemma OddPrime(p: int)
    requires Prime(p) && p != 2
    ensures p % 2 == 1
  {
    assert p % 2 != 0;
  }

  /** Distinct primes with a product above 6 have a totient above 2. */
  lemma TotientAboveTwo(p: int, q: int)
    requires Prime(p) && Prime(q) && p != q && p * q > 6
    ensures Totient(p, q) > 2
  {
    if p == 2 {
      assert q != 3;
      MulMono(1, p - 1, q - 1);
    } else if q == 2 {
      assert p != 3;
      MulMono(1, q - 1, p - 1);
      assert Totient(p, q) == (q - 1) * (p - 1);
    } else {
      assert p >= 3 && q >= 3;
      MulMono(2, p - 1, q - 1);
      MulMono(2, q - 1, 2);
    }
  }

  /** The totient of distinct primes is even, since one of them is odd. */
  lemma TotientEven(p: int, q: int)
    requires Prime(p) && Prime(q) && p != q
    ensures Totient(p, q) % 2 == 0
  {
    if p != 2 {
      OddPrime(p);
      DivModUnique(p - 1, 2, (p - 1) / 2, 0);
      DividesProduct(2, p - 1, q - 1);
    } else {
      OddPrime(q);
      DivModUnique(q - 1, 2, (q - 1) / 2, 0);
      DividesProduct(2, q - 1, p - 1);
      assert Totient(p, q) == (q - 1) * (p - 1);
    }
  }

  /** For distinct primes with p * q > 6 the generated keys are usable: e is
      coprime to phi and d is its inverse, so e * d == 1 modulo phi. */
  lemma KeysAreInverse(p: int, q: int, n: int, e: int, d: int)
    requires Prime(p) && Prime(q) && p != q && p * q > 6
    requires Totient(p, q) != 0 && KeysFor(p, q, n, e, d)
    ensures 2 <= e < Totient(p, q) && 1 <= d < Totient(p, q)
    ensures (e * d) % Totient(p, q) == 1
  {
    var phi := Totient(p, q);
    TotientAboveTwo(p, q);
    ExponentBelowTotient(phi, e);
    InverseExistsIffCoprime(e, phi);
    assert IsLeastInverse(e, phi, d);
    IsInverseMeansCongruence(e, phi, d);
  }

  /** With p = 2 and q = 3 (phi = 2) the exponent search does not run, e = 2
      shares the factor 2 with phi and modInverse reports -1: the product
      bound p * q > 6 above is needed. */
  lemma SmallestPrimesGiveNoKey(n: int, e: int, d: int)
    requires Totient(2, 3) != 0 && KeysFor(2, 3, n, e, d)
    ensures n == 6 && e == 2 && d == -1
  {
    assert Totient(2, 3) == 2;
    assert Rem(Rem(2, 2) * 1, 2) == 0;
    assert !HasInverse(2, 2);
  }

  /** 7 * 1783 == 1 + 4 * 3120, so every inverse of 7 modulo 3120 is
      1783 modulo 3120. */
  lemma InverseOfSeven(y: int)
    requires y >= 0 && (7 * y) % 3120 == 1
    ensures y % 3120 == 1783
  {
    var k := (7 * y) / 3120;
    assert 7 * y == 3120 * k + 1;
    assert y == 1783 * (7 * y) - 12480 * y;
    assert y == 3120 * (1783 * k - 4 * y) + 1783;
    DivModUnique(y, 3120, 1783 * k - 4 * y, 1783);
  }

  /** The keys of the running server: main calls generateKeys(61, 53, ...)
      (server.cpp:182-183, 210), which yields n = 3233, e = 7, d = 1783, and
      nothing else. */
  lemma ServerKeys(n: int, e: int, d: int)
    ensures KeysFor(61, 53, n, e, d) <==> n == 3233 && e == 7 && d == 1783
  {
    var phi := Totient(61, 53);
    assert phi == 3120;
    assert Gcd(7, 3120) == 1;
    assert forall c :: 2 <= c < 7 ==> Gcd(c, 3120) != 1 by {
      forall c | 2 <= c < 7
        ensures Gcd(c, 3120) != 1
      {
        assert c == 2 || c == 3 || c == 4 || c == 5 || c == 6;
        assert Gcd(2, 3120) == 2 && Gcd(3, 3120) == 3 && Gcd(4, 3120) == 4;
        assert Gcd(5, 3120) == 5 && Gcd(6, 3120) == 6;
      }
    }
    assert IsInverse(7, 3120, 1783);
    assert IsLeastInverse(7, 3120, 1783) by {
      forall y | 1 <= y < 1783
        ensures !IsInverse(7, 3120, y)
      {
        if IsInverse(7, 3120, y) {
          IsInverseMeansCongruence(7, 3120, y);
          InverseOfSeven(y);
          DivModUnique(y, 3120, 0, y);
          assert false;
        }
      }
    }
    if KeysFor(61, 53, n, e, d) {
      if e != 7 {
        assert false;
      }
      assert HasInverse(7, 3120);
      assert IsLeastInverse(7, 3120, d);
      IsInverseMeansCongruence(7, 3120, d);
      InverseOfSeven(d);
      DivModUnique(d, 3120, 0, d);
    }
  }

  // ---------------------------------------------------------------------
  // Characters as bytes (server.cpp:119, 127)
  // ---------------------------------------------------------------------

  /** A C++ std::string is a string of bytes: characters below 256. */
  predicate IsBytes(s: string) { forall i :: 0 <= i < |s| ==> s[i] as int < 256 }

  /** `static_cast<int>(c)` for a signed 8-bit `char`. */
  function CharValue(c: char): (v: int)
    requires c as int < 256
    ensures -128 <= v < 128
    ensures v % 256 == c as int
  {
    if c as int < 128 then c as int else c as int - 256
  }

  /** `static_cast<char>(v)`: the byte v modulo 256. */
  function ByteChar(v: int): (c: char)
    ensures c as int < 256
    ensures -128 <= v < 128 ==> CharValue(c) == v
  {
    (v % 256) as char
  }

  /** Casting a character to `int` and back gives the character. */
  lemma ByteCharOfValue(c: char)
    requires c as int < 256
    ensures ByteChar(CharValue(c)) == c
  {
  }

  // ---------------------------------------------------------------------
  // Stream extraction `iss >> encrypted` (server.cpp:114-116)
  // ---------------------------------------------------------------------

  /** One `iss >> encrypted` on the unread text s: the integer read and the
      text left, or None when extraction fails (no number, or one outside
      the range of `int`), which ends the read loop. */
  function NextToken(s: string): (r: Option<(int, string)>)
    ensures r.Some? ==> |r.value.1| < |s| && InIntRange(r.value.0)
  {
    match ScanInt(s)
    case None => None
    case Some((v, k)) => if InIntRange(v) then Some((v, s[k..])) else None
  }

  /** The integers the read loop extracts from s, in order. */
  function Tokens(s: string): (ts: seq<int>)
    ensures forall i :: 0 <= i < |ts| ==> InIntRange(ts[i])
    decreases |s|
  {
    match NextToken(s)
    case None => []
    case Some((v, rest)) => [v] + Tokens(rest)
  }

  /** White space between numbers is skipped. */
  lemma TokensSkipSpace(c: char, s: string)
    requires IsSpace(c)
    ensures Tokens([c] + s) == Tokens(s)
  {
    ScanIntSpace(c, s);
    if ScanInt(s).Some? {
      var k := ScanInt(s).value.1;
      assert ([c] + s)[k + 1..] == s[k..];
    }
  }

  /** Extraction reads back the text of an `int` written with a space after
      it. */
  lemma TokensOfNumber(v: int, rest: string)
    requires InIntRange(v)
    ensures Tokens(IntText(v) + " " + rest) == [v] + Tokens(rest)
  {
    var t := IntText(v);
    var tail := " " + rest;
    assert t + " " + rest == t + tail;
    ScanIntText(v, tail);
    assert (t + tail)[|t|..] == tail;
    assert tail == [' '] + rest;
    TokensSkipSpace(' ', rest);
  }

  // ---------------------------------------------------------------------
  // rsaEncrypt (server.cpp:124-132)
  // ---------------------------------------------------------------------

  /** The ciphertext of one character: modPow of its value, as text, and a
      space. */
  function Piece(c: char, e: int, n: int): string
    requires c as int < 256 && n != 0
  {
    IntText(PowMod(CharValue(c), e, n)) + " "
  }

  /** The text rsaEncrypt builds: the pieces of all characters in order. */
  function EncryptText(msg: string, e: int, n: int): string
    requires IsBytes(msg) && n != 0
  {
    if |msg| == 0 then "" else Piece(msg[0], e, n) + EncryptText(msg[1..], e, n)
  }

  /** rsaEncrypt (server.cpp:124-132). */
  method Encrypt(message: string, publicKey: int, modulus: int) returns (encrypted: string)
    requires IsBytes(message) && UsableModulus(modulus)
    ensures encrypted == EncryptText(message, publicKey, modulus)
  {
    encrypted := "";
    var i := 0;
    while i < |message|
      invariant 0 <= i <= |message|
      invariant encrypted + EncryptText(message[i..], publicKey, modulus)
             == EncryptText(message, publicKey, modulus)
    {
      var m := CharValue(message[i]);
      var c := ModPow(m, publicKey, modulus);
      assert message[i..][1..] == message[i + 1..];
      encrypted := encrypted + (IntText(c) + " ");
      i := i + 1;
    }
    assert message[i..] == [];
  }

  /** The ciphertext holds exactly one number per character of the message,
      and the i-th is modPow of the i-th character's value. */
  lemma {:induction false} EncryptTokens(msg: string, e: int, n: int)
    requires IsBytes(msg) && n != 0 && Abs(n) <= IntMax
    ensures |Tokens(EncryptText(msg, e, n))| == |msg|
    ensures forall i :: 0 <= i < |msg| ==>
              Tokens(EncryptText(msg, e, n))[i] == PowMod(CharValue(msg[i]), e, n)
  {
    if |msg| > 0 {
      var v := PowMod(CharValue(msg[0]), e, n);
      var tail := EncryptText(msg[1..], e, n);
      EncryptTokens(msg[1..], e, n);
      assert EncryptText(msg, e, n) == IntText(v) + " " + tail;
      TokensOfNumber(v, tail);
      var ts := Tokens(EncryptText(msg, e, n));
      assert ts == [v] + Tokens(tail);
      forall i | 0 <= i < |msg|
        ensures ts[i] == PowMod(CharValue(msg[i]), e, n)
      {
        if i > 0 {
          assert ts[i] == Tokens(tail)[i - 1];
          assert msg[1..][i - 1] == msg[i];
        }
      }
    }
  }

  // ---------------------------------------------------------------------
  // rsaDecrypt (server.cpp:112-122)
  // ---------------------------------------------------------------------

  /** The character decrypted from one integer: modPow, `% 256`, then the
      cast to `char`. */
  function Plain(v: int, d: int, n: int): char
    requires n != 0
  {
    ByteChar(Rem(PowMod(v, d, n), 256))
  }

  /** The characters decrypted from a sequence of integers, in order. */
  function DecryptValues(ts: seq<int>, d: int, n: int): (s: string)
    requires n != 0
    ensures |s| == |ts| && IsBytes(s)
    ensures forall i :: 0 <= i < |ts| ==> s[i] == Plain(ts[i], d, n)
  {
    if |ts| == 0 then "" else [Plain(ts[0], d, n)] + DecryptValues(ts[1..], d, n)
  }

  /** The text rsaDecrypt builds from the received text s. */
  function DecryptText(s: string, d: int, n: int): string
    requires n != 0
  {
    DecryptValues(Tokens(s), d, n)
  }

  /** rsaDecrypt (server.cpp:112-122): one character per extracted integer. */
  method Decrypt(encryptedMessage: string, privateKey: int, modulus: int)
    returns (decryptedMessage: string)
    requires UsableModulus(modulus)
    ensures decryptedMessage == DecryptText(encryptedMessage, privateKey, modulus)
  {
    decryptedMessage := "";
    var unread := encryptedMessage;
    while true
      invariant decryptedMessage + DecryptText(unread, privateKey, modulus)
             == DecryptText(encryptedMessage, privateKey, modulus)
      decreases |unread|
    {
      var next := NextToken(unread);
      DecryptStep(unread, privateKey, modulus);
      if next.None? {
        assert decryptedMessage + "" == decryptedMessage;
        break;
      }
      var (encrypted, rest) := next.value;
      var decrypted := ModPow(encrypted, privateKey, modulus);
      decrypted := Rem(decrypted, 256);
      AppendAssociates(decryptedMessage, [ByteChar(decrypted)], DecryptText(rest, privateKey, modulus));
      decryptedMessage := decryptedMessage + [ByteChar(decrypted)];
      unread := rest;
    }
  }

  /** One extraction: decryption of the unread text is the character of the
      next integer followed by decryption of what remains, or nothing when
      extraction fails. */
  lemma DecryptStep(s: string, d: int, n: int)
    requires n != 0
    ensures NextToken(s).None? ==> DecryptText(s, d, n) == ""
    ensures NextToken(s).Some? ==>
              DecryptText(s, d, n) ==
              [Plain(NextToken(s).value.0, d, n)] + DecryptText(NextToken(s).value.1, d, n)
  {
    if NextToken(s).Some? {
      var (v, rest) := NextToken(s).value;
      assert Tokens(s) == [v] + Tokens(rest);
      assert ([v] + Tokens(rest))[1..] == Tokens(rest);
    }
  }

  lemma AppendAssociates<T>(a: seq<T>, b: seq<T>, c: seq<T>)
    ensures (a + b) + c == a + (b + c)
  {
  }

  // ---------------------------------------------------------------------
  // The round trip
  // ---------------------------------------------------------------------

  /** e * d == 1 modulo an even totient makes e * d odd. */
  lemma OddExponent(p: int, q: int, ed: int)
    requires Prime(p) && Prime(q) && p != q && ed >= 0
    requires Totient(p, q) != 0 && ed % Totient(p, q) == 1
    ensures ed % 2 == 1
  {
    var phi := Totient(p, q);
    TotientEven(p, q);
    var t := ed / phi;
    var h := phi / 2;
    assert phi == 2 * h;
    assert ed == phi * t + 1;
    assert phi * t == 2 * (h * t);
    DivModUnique(ed, 2, h * t, 1);
  }

  /** The RSA identity for a value in [0, p * q). */
  lemma NonNegativeRoundTrip(p: int, q: int, a: int, ed: int)
    requires Prime(p) && Prime(q) && p != q && 0 <= a < p * q && ed >= 0
    requires Totient(p, q) != 0 && ed % Totient(p, q) == 1
    ensures Rem(Pow(a, ed), p * q) == a
  {
    RsaIdentity(p, q, a, ed);
    PowNonNegative(a, ed);
    RemOfNonNegative(Pow(a, ed), p * q);
    DivModUnique(a, p * q, 0, a);
  }

  /** For distinct primes and e * d == 1 modulo the totient, every value of
      magnitude below n comes back: the RSA identity for non-negative
      values, and for negative ones because e * d is odd. */
  lemma ValueRoundTrip(p: int, q: int, v: int, ed: int)
    requires Prime(p) && Prime(q) && p != q && Abs(v) < p * q && ed >= 0
    requires Totient(p, q) != 0 && ed % Totient(p, q) == 1
    ensures Rem(Pow(v, ed), p * q) == v
  {
    NonNegativeRoundTrip(p, q, Abs(v), ed);
    if v < 0 {
      OddExponent(p, q, ed);
      PowNegate(Abs(v), ed);
      RemNegate(Pow(Abs(v), ed), p * q);
    }
  }

  /** Every byte survives encryption with generated keys and decryption. */
  lemma CharRoundTrip(p: int, q: int, n: int, e: int, d: int, c: char)
    requires Prime(p) && Prime(q) && p != q && n > 128
    requires Totient(p, q) != 0 && KeysFor(p, q, n, e, d)
    requires c as int < 256
    ensures Plain(PowMod(CharValue(c), e, n), d, n) == c
  {
    KeysAreInverse(p, q, n, e, d);
    var v := CharValue(c);
    PowModCompose(v, e, d, n);
    MulNonNegative(e, d);
    ValueRoundTrip(p, q, v, e * d);
    RemSmall(v, 256);
    ByteCharOfValue(c);
  }

  /** rsaDecrypt(rsaEncrypt(msg, e, n), d, n) == msg for keys generated from
      two distinct primes with n > 128, for every byte string. */
  lemma RoundTrip(p: int, q: int, n: int, e: int, d: int, msg: string)
    requires Prime(p) && Prime(q) && p != q && 128 < n <= IntMax
    requires Totient(p, q) != 0 && KeysFor(p, q, n, e, d)
    requires IsBytes(msg)
    ensures DecryptText(EncryptText(msg, e, n), d, n) == msg
  {
    EncryptTokens(msg, e, n);
    var r := DecryptText(EncryptText(msg, e, n), d, n);
    forall i | 0 <= i < |msg|
      ensures r[i] == msg[i]
    {
      CharRoundTrip(p, q, n, e, d, msg[i]);
    }
  }

  /** 61 and 53, the primes main passes to generateKeys, are prime. */
  lemma ServerPrimes()
    ensures Prime(61) && Prime(53)
  {
    assert forall d :: 2 <= d < 8 ==> 61 % d != 0 by {
      forall d | 2 <= d < 8
        ensures 61 % d != 0
      {
        assert d == 2 || d == 3 || d == 4 || d == 5 || d == 6 || d == 7;
      }
    }
    assert forall d :: 2 <= d < 8 ==> 53 % d != 0 by {
      forall d | 2 <= d < 8
        ensures 53 % d != 0
      {
        assert d == 2 || d == 3 || d == 4 || d == 5 || d == 6 || d == 7;
      }
    }
    SmallDivisorsSuffice(61, 8);
    SmallDivisorsSuffice(53, 8);
  }

  /** The running server's keys (n = 3233, e = 7, d = 1783) decrypt what
      they encrypt, for every byte string. */
  lemma ServerRoundTrip(msg: string)
    requires IsBytes(msg)
    ensures DecryptText(EncryptText(msg, 7, 3233), 1783, 3233) == msg
  {
    ServerPrimes();
    ServerKeys(3233, 7, 1783);
    RoundTrip(61, 53, 3233, 7, 1783, msg);
  }
}
