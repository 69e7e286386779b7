/** The Caesar cipher (CaesarCipher.cpp): each function reads 1024 bytes,
    shifts the ASCII letters by the key within their own case, copies every
    other byte, and writes a fresh 1024-byte buffer whose last byte is NUL. */
module Caesar {
  import opened CInt
  import opened ModMath

  /** A byte of a `char` buffer. */
  type Byte = x: int | 0 <= x < 256

  /** The fixed buffer length of both functions. */
  const BufferSize: int := 1024

  /** `isupper`, `islower` and `isalpha` in the "C" locale. */
  predicate IsUpper(c: int) { 'A' as int <= c <= 'Z' as int }
  predicate IsLower(c: int) { 'a' as int <= c <= 'z' as int }
  predicate IsAlpha(c: int) { IsUpper(c) || IsLower(c) }

  /** The `alphaCase` the functions pick for a letter. */
  function CaseBase(c: int): int
    requires IsAlpha(c)
  {
    if IsUpper(c) then 'A' as int else 'a' as int
  }

  /** Keys for which `c - alphaCase + key` cannot overflow. */
  predicate EncryptKey(key: int) { -IntMax - 1 <= key <= IntMax - 25 }

  /** Keys for which `c - alphaCase - key + 26` cannot overflow. */
  predicate DecryptKey(key: int) { 51 - IntMax <= key <= IntMax }

  /** The byte caesarEncrypt writes for input byte c (CaesarCipher.cpp:10-22). */
  function EncryptByte(key: int, c: Byte): Byte
    requires EncryptKey(key)
  {
    if IsAlpha(c) then Rem(c - CaseBase(c) + key, 26) + CaseBase(c) else c
  }

  /** The byte caesarDecrypt writes for input byte c (CaesarCipher.cpp:33-45). */
  function DecryptByte(key: int, c: Byte): Byte
    requires DecryptKey(key)
  {
    if IsAlpha(c) then Rem(c - CaseBase(c) - key + 26, 26) + CaseBase(c) else c
  }

  /** The whole output buffer of caesarEncrypt for a 1024-byte input. */
  function EncryptBuffer(key: int, t: seq<Byte>): (r: seq<Byte>)
    requires EncryptKey(key) && |t| == BufferSize
    ensures |r| == BufferSize
  {
    seq(BufferSize, i requires 0 <= i < BufferSize =>
      if i == BufferSize - 1 then 0 else EncryptByte(key, t[i]))
  }

  /** The whole output buffer of caesarDecrypt for a 1024-byte input. */
  function DecryptBuffer(key: int, t: seq<Byte>): (r: seq<Byte>)
    requires DecryptKey(key) && |t| == BufferSize
    ensures |r| == BufferSize
  {
    seq(BufferSize, i requires 0 <= i < BufferSize =>
      if i == BufferSize - 1 then 0 else DecryptByte(key, t[i]))
  }

  /** caesarEncrypt (CaesarCipher.cpp:6-26). */
  method CaesarEncrypt(key: int, plainText: array<Byte>) returns (cipherText: array<Byte>)
    requires EncryptKey(key) && plainText.Length == BufferSize
    ensures fresh(cipherText) && cipherText.Length == BufferSize
    ensures cipherText[..] == EncryptBuffer(key, plainText[..])
  {
    cipherText := new Byte[BufferSize];
    for i := 0 to BufferSize
      invariant forall j :: 0 <= j < i ==> cipherText[j] == EncryptByte(key, plainText[j])
    {
      if IsAlpha(plainText[i]) {
        var alphaCase: int;
        if IsUpper(plainText[i]) {
          alphaCase := 'A' as int;
        } else {
          alphaCase := 'a' as int;
        }
        cipherText[i] := Rem(plainText[i] - alphaCase + key, 26) + alphaCase;
      } else {
        cipherText[i] := plainText[i];
      }
    }
    cipherText[BufferSize - 1] := 0;
  }

  /** caesarDecrypt (CaesarCipher.cpp:29-49). */
  method CaesarDecrypt(key: int, cipherText: array<Byte>) returns (plainText: array<Byte>)
    requires DecryptKey(key) && cipherText.Length == BufferSize
    ensures fresh(plainText) && plainText.Length == BufferSize
    ensures plainText[..] == DecryptBuffer(key, cipherText[..])
  {
    plainText := new Byte[BufferSize];
    for i := 0 to BufferSize
      invariant forall j :: 0 <= j < i ==> plainText[j] == DecryptByte(key, cipherText[j])
    {
      if IsAlpha(cipherText[i]) {
        var alphaCase: int;
        if IsUpper(cipherText[i]) {
          alphaCase := 'A' as int;
        } else {
          alphaCase := 'a' as int;
        }
        plainText[i] := Rem(cipherText[i] - alphaCase - key + 26, 26) + alphaCase;
      } else {
        plainText[i] := cipherText[i];
      }
    }
    plainText[BufferSize - 1] := 0;
  }

  /** Both functions copy every byte that is not a letter, whatever the key. */
  lemma NonLettersCopied(key: int, c: Byte)
    requires !IsAlpha(c)
    ensures EncryptKey(key) ==> EncryptByte(key, c) == c
    ensures DecryptKey(key) ==> DecryptByte(key, c) == c
  {
  }

  /** For a non-negative key, an upper-case letter encrypts to
      ((c - 'A' + key) % 26) + 'A' and a lower-case one likewise; the output
      has the case of the input. */
  lemma EncryptKeepsCase(key: int, c: Byte)
    requires EncryptKey(key) && key >= 0
    ensures IsUpper(c) ==> EncryptByte(key, c) == (c - 'A' as int + key) % 26 + 'A' as int
    ensures IsLower(c) ==> EncryptByte(key, c) == (c - 'a' as int + key) % 26 + 'a' as int
    ensures IsUpper(EncryptByte(key, c)) <==> IsUpper(c)
    ensures IsLower(EncryptByte(key, c)) <==> IsLower(c)
  {
    if IsAlpha(c) {
      RemOfNonNegative(c - CaseBase(c) + key, 26);
    }
  }

  /** For a key in [0, 26], decryption keeps letters in their own case:
      the + 26 keeps the operand of % non-negative. */
  lemma DecryptKeepsCase(key: int, c: Byte)
    requires DecryptKey(key) && 0 <= key <= 26
    ensures IsUpper(DecryptByte(key, c)) <==> IsUpper(c)
    ensures IsLower(DecryptByte(key, c)) <==> IsLower(c)
  {
    if IsAlpha(c) {
      RemOfNonNegative(c - CaseBase(c) - key + 26, 26);
    }
  }

  /** For a key in [0, 26] decryption undoes encryption on every byte. */
  lemma ByteRoundTrip(key: int, c: Byte)
    requires EncryptKey(key) && DecryptKey(key) && 0 <= key <= 26
    ensures DecryptByte(key, EncryptByte(key, c)) == c
  {
    if IsAlpha(c) {
      var base := CaseBase(c);
      var x := c - base;
      RemOfNonNegative(x + key, 26);
      EncryptKeepsCase(key, c);
      assert CaseBase(EncryptByte(key, c)) == base;
      ShiftBack(x, key);
      RemOfNonNegative((x + key) % 26 - key + 26, 26);
    }
  }

  /** Shifting a letter offset forward by key and back by key (+ 26)
      modulo 26 gives the offset back. */
  lemma ShiftBack(x: int, key: int)
    requires 0 <= x < 26 && 0 <= key <= 26
    ensures 0 <= (x + key) % 26 - key + 26
    ensures ((x + key) % 26 - key + 26) % 26 == x
  {
    var y := (x + key) % 26;
    var t := (x + key) / 26;
    assert x + key == 26 * t + y;
    assert y - key + 26 == 26 * (1 - t) + x;
    DivModUnique(y - key + 26, 26, 1 - t, x);
  }

  /** Outside [0, 26] some letter does not come back. */
  lemma RoundTripFailsOutside(key: int) returns (c: Byte)
    requires EncryptKey(key) && DecryptKey(key) && (key < 0 || key > 26)
    ensures IsAlpha(c) && DecryptByte(key, EncryptByte(key, c)) != c
  {
    var r := key % 26;
    var t := key / 26;
    assert key == 26 * t + r;
    if key < 0 {
      if r != 0 {
        // 'A' encrypts to a byte below 'A', which decryption copies
        c := 'A' as int;
        assert -key == 26 * (-t - 1) + (26 - r);
        DivModUnique(-key, 26, -t - 1, 26 - r);
        assert EncryptByte(key, c) == 65 - (26 - r);
      } else {
        // 'B' encrypts to '(' (40), which decryption copies
        c := 'B' as int;
        assert -1 - key == 26 * (-t - 1) + 25;
        DivModUnique(-1 - key, 26, -t - 1, 25);
        assert EncryptByte(key, c) == 40;
      }
    } else {
      if r != 0 {
        // 'A' + (26 - r) encrypts to 'A', which decrypts below 'A'
        c := 'A' as int + 26 - r;
        assert 26 - r + key == 26 * (t + 1) + 0;
        DivModUnique(26 - r + key, 26, t + 1, 0);
        assert EncryptByte(key, c) == 65;
        assert key - 26 == 26 * (t - 1) + r;
        DivModUnique(key - 26, 26, t - 1, r);
        assert DecryptByte(key, 65) == 65 - r;
      } else {
        // key >= 52: 'B' encrypts to 'B', which decrypts to '(' (40)
        c := 'B' as int;
        assert 1 + key == 26 * t + 1;
        DivModUnique(1 + key, 26, t, 1);
        assert EncryptByte(key, c) == 66;
        assert key - 27 == 26 * (t - 2) + 25;
        DivModUnique(key - 27, 26, t - 2, 25);
        assert DecryptByte(key, 66) == 40;
      }
    }
  }

  /** Decryption undoes encryption on every byte exactly for the keys in
      [0, 26]. */
  lemma RoundTripExactlyForSmallKeys(key: int)
    requires EncryptKey(key) && DecryptKey(key)
    ensures (forall c: Byte :: DecryptByte(key, EncryptByte(key, c)) == c) <==> 0 <= key <= 26
  {
    if 0 <= key <= 26 {
      forall c: Byte
        ensures DecryptByte(key, EncryptByte(key, c)) == c
      {
        ByteRoundTrip(key, c);
      }
    } else {
      var c := RoundTripFailsOutside(key);
    }
  }

  /** At buffer level: for a key in [0, 26], decrypting the encrypted buffer
      gives back bytes 0..1022 of the input, and byte 1023 is NUL. */
  lemma BufferRoundTrip(key: int, t: seq<Byte>)
    requires EncryptKey(key) && DecryptKey(key) && 0 <= key <= 26 && |t| == BufferSize
    ensures DecryptBuffer(key, EncryptBuffer(key, t))[..BufferSize - 1] == t[..BufferSize - 1]
    ensures DecryptBuffer(key, EncryptBuffer(key, t))[BufferSize - 1] == 0
  {
    forall i | 0 <= i < BufferSize - 1
      ensures DecryptBuffer(key, EncryptBuffer(key, t))[i] == t[i]
    {
      ByteRoundTrip(key, t[i]);
    }
  }

  /** Key 0 leaves bytes 0..1022 unchanged. */
  lemma KeyZeroIsIdentity(t: seq<Byte>)
    requires |t| == BufferSize
    ensures EncryptBuffer(0, t)[..BufferSize - 1] == t[..BufferSize - 1]
  {
    forall i | 0 <= i < BufferSize - 1
      ensures EncryptBuffer(0, t)[i] == t[i]
    {
      if IsAlpha(t[i]) {
        RemSmall(t[i] - CaseBase(t[i]), 26);
      }
    }
  }

  /** Each output byte depends only on the key and the input byte at the
      same index, and the last byte is always NUL. */
  lemma EncryptIsLocal(key: int, t: seq<Byte>, u: seq<Byte>, i: int)
    requires EncryptKey(key) && |t| == BufferSize && |u| == BufferSize && 0 <= i < BufferSize
    requires i < BufferSize - 1 ==> t[i] == u[i]
    ensures EncryptBuffer(key, t)[i] == EncryptBuffer(key, u)[i]
    ensures EncryptBuffer(key, t)[BufferSize - 1] == 0
  {
  }
}
