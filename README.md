# Encrypted chat relay: arithmetic, codecs and client registry

This project models the core of a small C++ encrypted chat program.

The server (server.cpp) builds an RSA key pair from two fixed primes. It
exchanges public keys with every client that connects, as the text
"<e>,<n>". It keeps a registry of the connected clients. Each message a
client sends arrives as space-separated decimal ciphertexts. The server
decrypts it with its private key and re-encrypts it for every other client
under that client's key.

Three stand-alone files sit next to the server:

- RSA.cpp: a variant of the number theory, whose `modInverse` returns 1 on failure.
- CaesarCipher.cpp: a Caesar cipher over 1024-byte buffers.
- diffieHellman.cpp: Diffie-Hellman parameter and key arithmetic.

The model makes the C++ semantics explicit:

- `int` is a mathematical integer. Each operation requires what keeps its
  products within 32 bits. Moduli are non-zero with absolute value at most
  46341, so the product of two residues fits.
- `%` is C++'s truncating remainder (`CInt.Rem`). This matters for the
  negative values that a signed `char` produces.
- `char` is a signed byte: a string is a sequence of characters below 256
  (`ServerRsa.IsBytes`).
- `std::to_string`, `std::stoi` and `operator>>` are written out as
  functions on text (`DecimalText`, `KeyMessage`).
- Sockets become parameters (what `read` returned, whether `send`
  succeeded) and an outbox of sends (`Relay.Server`).

Modules, one file each:

- `CInt` (cint.dfy): `INT_MAX`, truncating `%` and its laws.
- `ModMath` (mod_math.dfy): powers, divisibility, modular products.
- `ServerArith` (server_arith.dfy): `isPrime`, `gcd`, `modInverse` and
  `modPow` of server.cpp. `gcd` and `isPrime` in RSA.cpp are textually the
  same, so these members model them too.
- `RsaMath` (rsa_math.dfy): Euclid's lemma, the binomial theorem, Fermat's
  little theorem and the RSA identity.
- `RsaTool` (rsa_tool.dfy): RSA.cpp's `modInverse`.
- `DecimalText` (decimal_text.dfy): decimal text of integers and the scanner
  behind `stoi` and `>>`.
- `KeyMessage` (key_message.dfy): the public-key message.
- `ServerRsa` (server_rsa.dfy): `generateKeys`, `rsaEncrypt`, `rsaDecrypt`
  and their round trip.
- `Relay` (relay.dfy): `handleClient`'s registry and relay steps as a class.
- `Caesar` (caesar.dfy), `DiffieHellman` (diffie_hellman.dfy), and
  `Wrappers` (wrappers.dfy), which holds `Option`.

## Model

| member | source | states |
|---|---|---|
| ServerArith.IsPrime | server.cpp:24-32 | the 6k±1 trial division returns true exactly when n is prime, for n below 46337² where `i * i` cannot overflow |
| ServerArith.SmallDivisorsSuffice | server.cpp:28-31 | a number above 1 with no divisor below i, where i² > n, is prime: the reason the loop may stop at √n |
| ServerArith.Gcd | server.cpp:45-48 | Euclid's recursion with C++ `%`; gcd(a, 0) = a; for non-negative inputs the result is non-negative and is 0 only when both inputs are |
| ServerArith.GcdDividesBoth | server.cpp:45-48 | gcd(a, b) divides both a and b |
| ServerArith.GcdIsGreatest | server.cpp:45-48 | every common divisor of a and b divides gcd(a, b) |
| ServerArith.Bezout | server.cpp:45-48 | Bezout coefficients x, y with x·a + y·b = gcd(a, b) |
| ServerArith.ModInverse | server.cpp:50-56 | returns -1 exactly when no x in [1, m) has (a % m)·x % m == 1; otherwise returns the least such x |
| ServerArith.InverseExistsIffCoprime | server.cpp:50-56 | for a ≥ 0 and m > 1, modInverse succeeds if and only if gcd(a, m) = 1 |
| ServerArith.IsInverseMeansCongruence | server.cpp:51-53 | reducing a first does not change the test: (a % m)·x % m == 1 iff a·x % m == 1 |
| ServerArith.ModPow | server.cpp:58-68 | square-and-multiply returns base^exponent reduced with C++ `%` (1 for exponent ≤ 0), for negative bases too, with no intermediate product leaving `int` |
| ServerArith.PowModAbs | server.cpp:58-68 | a negative modulus gives the same result as its absolute value, since C++ `%` ignores the divisor's sign |
| ServerArith.PowModOfNonNegative | server.cpp:58-68 | for a non-negative base and positive exponent the result is base^k mod m, in [0, m) |
| ServerArith.PowModEdgeCases | server.cpp:59-61 | exponent 0 gives 1; base 0 with a positive exponent gives 0 |
| ServerArith.PowModCompose | server.cpp:58-68 | raising modPow(g, a) to b is g^(a·b) reduced modulo m |
| RsaMath.FermatLittle | server.cpp:70-80 | Fermat's little theorem: p divides a^p − a for prime p and a ≥ 0 |
| RsaMath.RsaIdentity | server.cpp:70-80 | for distinct primes p, q and ed ≡ 1 modulo (p−1)(q−1), m^ed ≡ m modulo p·q |
| RsaTool.ModInverse | RSA.cpp:14-20 | returns the least inverse when one exists, and 1 when none does |
| RsaTool.FailureIsIndistinguishable | RSA.cpp:19 | the failure value 1 is also a genuine answer (2 has no inverse modulo 4, while 1 is 1's inverse), whereas server.cpp's -1 is never one |
| ServerRsa.GenerateKeys | server.cpp:70-80 | n = p·q; e is the least value in [2, phi) coprime to phi (or the loop bound); d is modInverse(e, phi) |
| ServerRsa.KeysAreInverse | server.cpp:70-80 | for distinct primes with p·q > 6: 2 ≤ e < phi, 1 ≤ d < phi and e·d ≡ 1 modulo phi |
| ServerRsa.SmallestPrimesGiveNoKey | server.cpp:70-80 | p = 2, q = 3 gives e = 2 and d = -1: no usable key |
| ServerRsa.ServerKeys | server.cpp:182-183 | main's generateKeys(61, 53) gives exactly n = 3233, e = 7, d = 1783 |
| ServerRsa.ByteCharOfValue | server.cpp:119 | casting a character to `int` and back to `char` gives the same character |
| ServerRsa.NextToken | server.cpp:116 | one `iss >> encrypted`: an integer that fits an `int` and strictly less unread text, or failure |
| ServerRsa.Tokens | server.cpp:114-116 | the integers the read loop extracts, in order, all within `int` |
| ServerRsa.TokensOfNumber | server.cpp:114-116 | extraction from "<v> " + rest reads v, then continues on rest |
| ServerRsa.TokensSkipSpace | server.cpp:116 | white space before a number is skipped |
| ServerRsa.Encrypt | server.cpp:124-132 | the loop builds, for each character in order, the text of modPow(signed value, e, n) followed by a space |
| ServerRsa.EncryptTokens | server.cpp:124-132 | the ciphertext reads back as one integer per character, the i-th being modPow of the i-th character's value |
| ServerRsa.DecryptValues | server.cpp:116-120 | one character per extracted integer: modPow, C++ `% 256`, cast to `char` |
| ServerRsa.Decrypt | server.cpp:112-122 | the extraction loop decrypts every integer up to the first failed extraction, in order |
| ServerRsa.RoundTrip | server.cpp:112-132 | with keys from generateKeys for distinct primes and n > 128, decrypting the encryption of any byte string gives the string back |
| ServerRsa.ServerPrimes | server.cpp:182-183 | the fixed p = 61 and q = 53 are prime |
| ServerRsa.ServerRoundTrip | server.cpp:182-210 | with the running server's keys (n = 3233, e = 7, d = 1783) every byte string survives encryption and decryption unchanged |
| ServerRsa.CharRoundTrip | server.cpp:117-128 | the same for one character, negative signed values included |
| KeyMessage.KeyText | server.cpp:83 | the key message has exactly one comma, right after the exponent's text |
| KeyMessage.Stoi | server.cpp:106-107 | `std::stoi`: a value within `int`, or failure where stoi throws |
| KeyMessage.StoiText | server.cpp:106-107 | stoi reads back `to_string(x)` whatever non-digit text follows |
| KeyMessage.StoiSkipsSpace | server.cpp:106-107 | a leading white-space character does not change what stoi reads |
| KeyMessage.StoiSkipsSpaces | server.cpp:106-107 | nor does any run of leading white space |
| KeyMessage.PaddedKey | server.cpp:99-109 | a key whose halves carry leading white space and trailing non-digit text (no comma after the exponent) is read back exactly |
| KeyMessage.Find | server.cpp:100-101 | `find(",")` gives the first comma, or npos exactly when there is none |
| KeyMessage.ParseKey | server.cpp:99-109 | the parse says "no delimiter" exactly when the message has no comma |
| KeyMessage.KeyRoundTrip | server.cpp:83-109 | parsing the text sendPublicKey builds gives back the same exponent and modulus |
| KeyMessage.PaddedKeyAccepted | server.cpp:106-107 | an instance of PaddedKey: " 7,3233\n" parses as (7, 3233) |
| KeyMessage.TrailingTextIgnored | server.cpp:106 | an instance of PaddedKey: "7x,3233" parses as (7, 3233) |
| KeyMessage.EmptyHalfRejected | server.cpp:106 | an empty half makes stoi throw: ",3233" is not a key |
| DecimalText.IntText | server.cpp:83 | `std::to_string`: non-empty, starting with '-' exactly for negative values, never with white space or '+' |
| DecimalText.DecimalRoundTrip | server.cpp:83 | reading the digits of a natural number's decimal text gives the number |
| DecimalText.ScanIntText | server.cpp:106-116 | scanning `to_string(x)` followed by a non-digit reads x and stops after its text |
| Relay.Server.constructor | server.cpp:182-210 | the server holds generateKeys(p, q) and starts with no clients, nothing sent and not halted |
| Relay.Server.Connect | server.cpp:135-148 | a failed read, a message without a comma or a failed send leaves everything unchanged; a bad number makes stoi throw, which halts the server; otherwise the reply key is sent and the client is appended to the registry |
| Relay.Server.Broadcast | server.cpp:163-168 | sends the text, encrypted under each client's own key, to every client except the sender, in registry order; the registry is unchanged |
| Relay.Server.Relay | server.cpp:160-168 | decrypts one received message with the server's key and broadcasts it |
| Relay.Server.ReadLoop | server.cpp:151-169 | relays each received message in turn |
| Relay.Server.Disconnect | server.cpp:171-176 | removes the first entry with the socket, if any, and sends nothing |
| Relay.Server.Session | server.cpp:151-176 | the read loop's relays followed by removal of the client's entry |
| Relay.Server.HandleClient | server.cpp:134-179 | a whole client session: registration outcome, reply key, all relays, then the registry without the client; the server halts exactly when stoi throws |
| Relay.FanoutTargets | server.cpp:163-168 | a send is in a broadcast iff it goes to a registered client other than the sender, with the text under that client's key |
| Relay.FanoutLength | server.cpp:163-168 | a broadcast sends once per registry entry not belonging to the sender |
| Relay.RemoveFirstAt | server.cpp:171-176 | erasing at the first match is the registry with that one entry cut out |
| Relay.RemoveFirstLength | server.cpp:171-176 | disconnecting removes exactly one entry of that socket when there is one and changes nothing otherwise |
| Relay.RelayForwardsPlaintext | server.cpp:160-168 | with properly generated server keys, relaying the server-key encryption of a message broadcasts exactly that message |
| Caesar.CaesarEncrypt | CaesarCipher.cpp:6-26 | a fresh 1024-byte buffer holding each input byte shifted (letters) or copied (others), with byte 1023 set to NUL |
| Caesar.CaesarDecrypt | CaesarCipher.cpp:29-49 | the same with the backward shift `- key + 26` |
| Caesar.NonLettersCopied | CaesarCipher.cpp:20-44 | for every key the functions accept, encryption and decryption copy each non-letter byte |
| Caesar.EncryptKeepsCase | CaesarCipher.cpp:10-22 | for key ≥ 0 a letter stays a letter of the same case, shifted by key modulo 26 |
| Caesar.DecryptKeepsCase | CaesarCipher.cpp:33-45 | for 0 ≤ key ≤ 26 decryption keeps a letter in its case |
| Caesar.ByteRoundTrip | CaesarCipher.cpp:18-41 | for 0 ≤ key ≤ 26 decryption undoes encryption on every byte |
| Caesar.RoundTripFailsOutside | CaesarCipher.cpp:18-41 | for any other key some letter does not come back |
| Caesar.RoundTripExactlyForSmallKeys | CaesarCipher.cpp:18-41 | decryption undoes encryption on all bytes iff 0 ≤ key ≤ 26 |
| Caesar.BufferRoundTrip | CaesarCipher.cpp:6-49 | for those keys the first 1023 bytes come back, and the last is NUL |
| Caesar.KeyZeroIsIdentity | CaesarCipher.cpp:18 | key 0 copies the first 1023 bytes |
| Caesar.EncryptIsLocal | CaesarCipher.cpp:9-24 | each output byte depends only on the same input byte, and byte 1023 is always NUL |
| DiffieHellman.GenParameters | diffieHellman.cpp:14-21 | the pair chosen by `rand() % 7` is one of the seven table entries |
| DiffieHellman.ParametersValid | diffieHellman.cpp:15-17 | every table modulus is prime and every generator lies in [2, p) |
| DiffieHellman.ComputePublic | diffieHellman.cpp:23-32 | the repeated multiplication gives g^privateKey reduced with C++ `%` (1 for privateKey ≤ 0) |
| DiffieHellman.ResolveKey | diffieHellman.cpp:34-42 | the same loop gives otherKey^yourKey reduced modulo p |
| DiffieHellman.KeyAgreement | diffieHellman.cpp:23-42 | for p > 1 and non-negative private keys, both parties resolve the same key, g^(a·b) modulo p |
| DiffieHellman.AgreementNeedsModulusAboveOne | diffieHellman.cpp:23-42 | with p = 1 the two sides can differ (0 against 1), so p > 1 is needed |
| DiffieHellman.Exchange | diffieHellman.cpp:23-42 | running computePublic and resolveKey for both parties yields equal keys |
| DiffieHellman.SmallSubgroup | diffieHellman.cpp:16 | the pair (31, 5) only ever yields keys 1, 5 or 25: 5 has order 3 modulo 31 |

## Left out

- Sockets, `accept`, `close` and the listening set-up of `main` are left out as I/O. The result of
  `read` and whether `send` succeeded are parameters. Every `send` is appended to an outbox.
- Threads are left out. `handleClient` runs detached per client and shares `clients` without a lock. The
  model runs one session at a time with no other client connecting or leaving during it.
- `generateRandomPrime` (server.cpp:34-43), `genPrivate` (diffieHellman.cpp:7-12) and
  `srand`/`rand` are left out as randomness. The value of `rand()` is a parameter of
  `DiffieHellman.GenParameters`, and private keys are parameters.
- The console output (`std::cout`, `std::cerr`) is left out.
- RSA.cpp's `main` is left out: it uses floating-point `pow`.
- The second `sendPublicKey` call in `main` (server.cpp:221) is left out. The model sends the server's key
  once, from `handleClient`.
- The NUL termination of the receive buffers (server.cpp:99, 157) is left out. Received data is a string
  of at most what `read` returned. A NUL byte inside a message is not modelled as cutting it short.
- 32-bit overflow is excluded by preconditions, not modelled as wrap-around. `ServerArith.ModInverse`
  requires m of at most 46341. `ServerArith.IsPrime` requires n below 46337². `Caesar` keys must keep
  `c - alphaCase ± key` within `int`. The model excludes inputs beyond these bounds, where the C++
  products may overflow.
- Moduli of 0 and moduli above 46341 in absolute value are excluded. `ServerArith.ModPow`,
  `ServerRsa.Encrypt` and `ServerRsa.Decrypt` require `ServerArith.UsableModulus`: non-zero, absolute
  value at most 46341. Negative moduli are modelled. `Relay.Server.Broadcast`, `Relay.Server.Relay`,
  `Relay.Server.ReadLoop`, `Relay.Server.Session` and `Relay.Server.HandleClient` require this of every
  other registered client (`Relay.ModuliUsable`). `Connect` registers whatever modulus stoi reads, so
  after a client registers modulus 0 (a division by zero in the next broadcast to it) or a larger one
  (possible overflow), the model does not describe what the server does.
- `std::stoi` throwing (no digits, or out of range) is the `NotANumber` parse and the `Aborted` outcome.
  The exception escapes the detached thread, so `std::terminate` ends the whole server process. The
  model records this in `Relay.Server.halted`: every `Server` method requires it to be false. What the
  process does as it ends (closing sockets, unfinished sends of other threads) is not modelled.
- `operator>>` overflow: a number that does not fit sets the fail bit, and the model ends extraction there,
  as the loop does.
- Caesar buffers are modelled as bytes 0..255, with `isalpha` as in the "C" locale. A negative `char` passed
  to `isalpha` is undefined behaviour in C++ and is not modelled. The functions read all 1024 input bytes
  however long the text is.
- Each Caesar output buffer is a fresh array, returned to the caller. Its deallocation is not modelled.
- ServerRsa.RoundTrip: needs n > 128, so that every signed byte value lies below n. It is stated only for
  keys `generateKeys` produces from distinct primes.
- Relay.FanoutTargets: states which sends a broadcast contains, not how often each occurs.
  `Relay.FanoutLength` gives the count, and `Relay.Server.Broadcast` gives the exact sequence.
