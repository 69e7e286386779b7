/** The public-key message exchanged when a client connects (server.cpp):
    `sendPublicKey` writes "<e>,<n>" and `receivePublicKey` splits the text
    at the first comma and reads both halves with `std::stoi`. */
module KeyMessage {
  import opened Wrappers
  import opened DecimalText
  import opened CInt

  /** The message sendPublicKey sends (server.cpp:83). */
  function KeyText(publicKey: int, modulus: int): (m: string)
    ensures |m| > |IntText(publicKey)| && m[|IntText(publicKey)|] == ','
    ensures forall i :: 0 <= i < |m| && i != |IntText(publicKey)| ==> m[i] != ','
  {
    IntTextHasNoComma(publicKey);
    IntTextHasNoComma(modulus);
    var a, b := IntText(publicKey), IntText(modulus);
    assert forall i :: |a| < i < |a| + 1 + |b| ==> (a + "," + b)[i] == b[i - |a| - 1];
    a + "," + b
  }

  /** `s.find(c)`: the index of the first c in s, or None (npos). */
  function Find(s: string, c: char): (r: Option<nat>)
    ensures r.None? <==> forall i :: 0 <= i < |s| ==> s[i] != c
    ensures r.Some? ==> r.value < |s| && s[r.value] == c &&
                        forall i :: 0 <= i < r.value ==> s[i] != c
  {
    if |s| == 0 then None
    else if s[0] == c then Some(0)
    else match Find(s[1..], c)
      case None => None
      case Some(i) => Some(i + 1)
  }

  /** `std::stoi(s)`: the number at the front of s after white space; None
      where stoi throws, because there is no number or it does not fit in
      an `int`. Text after the number is ignored. */
  function Stoi(s: string): (r: Option<int>)
    ensures r.Some? ==> InIntRange(r.value)
  {
    match ScanInt(s)
    case None => None
    case Some((v, _)) => if InIntRange(v) then Some(v) else None
  }

  /** What receivePublicKey makes of a received message. */
  datatype KeyParse =
    | Key(publicKey: int, modulus: int)  // returns true with both values set
    | NoDelimiter                        // returns false: no comma
    | NotANumber                         // std::stoi throws

  /** The parse of receivePublicKey (server.cpp:99-109). */
  function ParseKey(message: string): (r: KeyParse)
    ensures r.NoDelimiter? <==> forall i :: 0 <= i < |message| ==> message[i] != ','
  {
    match Find(message, ',')
    case None => NoDelimiter
    case Some(pos) =>
      match (Stoi(message[..pos]), Stoi(message[pos + 1..]))
      case (Some(e), Some(n)) => Key(e, n)
      case _ => NotANumber
  }

  /** The text of an integer holds no comma. */
  lemma IntTextHasNoComma(x: int)
    ensures forall i :: 0 <= i < |IntText(x)| ==> IntText(x)[i] != ','
  {
    var d := Decimal(if x < 0 then -x else x);
    if x < 0 {
      assert forall i :: 1 <= i < |IntText(x)| ==> IntText(x)[i] == d[i - 1];
    }
  }

  /** Parsing the message sendPublicKey writes gives back both values. */
  lemma KeyRoundTrip(publicKey: int, modulus: int)
    requires InIntRange(publicKey) && InIntRange(modulus)
    ensures ParseKey(KeyText(publicKey, modulus)) == Key(publicKey, modulus)
  {
    var a, b := IntText(publicKey), IntText(modulus);
    var m := KeyText(publicKey, modulus);
    IntTextHasNoComma(publicKey);
    assert m[|a|] == ',';
    assert Find(m, ',') == Some(|a|);
    assert m[..|a|] == a + "";
    assert m[|a| + 1..] == b + "";
    StoiText(publicKey, "");
    StoiText(modulus, "");
    ParseKeyHalves(m, |a|, publicKey, modulus);
  }

  /** stoi reads back the text of an in-range x, whatever non-digit text
      follows it. */
  lemma StoiText(x: int, rest: string)
    requires InIntRange(x) && (|rest| == 0 || !IsDigit(rest[0]))
    ensures Stoi(IntText(x) + rest) == Some(x)
  {
    ScanIntText(x, rest);
  }

  /** The parse of a message with its first comma at pos and two readable
      halves. */
  lemma ParseKeyHalves(message: string, pos: nat, e: int, n: int)
    requires Find(message, ',') == Some(pos)
    requires Stoi(message[..pos]) == Some(e) && Stoi(message[pos + 1..]) == Some(n)
    ensures ParseKey(message) == Key(e, n)
  {
  }

  /** std::stoi skips one leading white-space character. */
  lemma StoiSkipsSpace(c: char, s: string)
    requires IsSpace(c)
    ensures Stoi([c] + s) == Stoi(s)
  {
    ScanIntSpace(c, s);
  }

  /** Text made only of white space. */
  predicate AllSpace(s: string) { forall i :: 0 <= i < |s| ==> IsSpace(s[i]) }

  /** std::stoi skips any run of leading white space. */
  lemma {:induction false} StoiSkipsSpaces(pad: string, s: string)
    requires AllSpace(pad)
    ensures Stoi(pad + s) == Stoi(s)
  {
    if |pad| > 0 {
      assert pad + s == [pad[0]] + (pad[1..] + s);
      StoiSkipsSpace(pad[0], pad[1..] + s);
      StoiSkipsSpaces(pad[1..], s);
    } else {
      assert pad + s == s;
    }
  }

  /** stoi reads a half made of white space, the text of x and trailing
      text that does not start with a digit. */
  lemma StoiPadded(pad: string, x: int, rest: string)
    requires AllSpace(pad) && InIntRange(x) && (|rest| == 0 || !IsDigit(rest[0]))
    ensures Stoi(pad + (IntText(x) + rest)) == Some(x)
  {
    StoiSkipsSpaces(pad, IntText(x) + rest);
    StoiText(x, rest);
  }

  /** A message whose first half has no comma is split right after it. */
  lemma SplitAtComma(half1: string, half2: string, e: int, n: int)
    requires forall i :: 0 <= i < |half1| ==> half1[i] != ','
    requires Stoi(half1) == Some(e) && Stoi(half2) == Some(n)
    ensures ParseKey(half1 + [','] + half2) == Key(e, n)
  {
    var m := half1 + [','] + half2;
    assert m[|half1|] == ',';
    assert forall i :: 0 <= i < |half1| ==> m[i] == half1[i];
    assert Find(m, ',') == Some(|half1|);
    assert m[..|half1|] == half1;
    assert m[|half1| + 1..] == half2;
    ParseKeyHalves(m, |half1|, e, n);
  }

  /** White space, the text of an integer and comma-free trailing text
      together hold no comma. */
  lemma PaddedHalfHasNoComma(pad: string, x: int, rest: string)
    requires AllSpace(pad) && forall i :: 0 <= i < |rest| ==> rest[i] != ','
    ensures forall i :: 0 <= i < |pad + (IntText(x) + rest)| ==> (pad + (IntText(x) + rest))[i] != ','
  {
    IntTextHasNoComma(x);
    var t := IntText(x) + rest;
    assert forall i :: 0 <= i < |t| ==> t[i] != ',' by {
      forall i | 0 <= i < |t|
        ensures t[i] != ','
      {
        if i >= |IntText(x)| {
          assert t[i] == rest[i - |IntText(x)|];
        }
      }
    }
    forall i | 0 <= i < |pad + t|
      ensures (pad + t)[i] != ','
    {
      if i >= |pad| {
        assert (pad + t)[i] == t[i - |pad|];
      }
    }
  }

  /** receivePublicKey accepts a key whose halves carry leading white space
      and trailing non-digit text, as long as the text after the exponent
      holds no comma: both values are read back. */
  lemma PaddedKey(pre1: string, e: int, post1: string, pre2: string, n: int, post2: string)
    requires InIntRange(e) && InIntRange(n) && AllSpace(pre1) && AllSpace(pre2)
    requires |post1| == 0 || !IsDigit(post1[0])
    requires |post2| == 0 || !IsDigit(post2[0])
    requires forall i :: 0 <= i < |post1| ==> post1[i] != ','
    ensures ParseKey(pre1 + (IntText(e) + post1) + [','] + (pre2 + (IntText(n) + post2))) == Key(e, n)
  {
    PaddedHalfHasNoComma(pre1, e, post1);
    StoiPadded(pre1, e, post1);
    StoiPadded(pre2, n, post2);
    SplitAtComma(pre1 + (IntText(e) + post1), pre2 + (IntText(n) + post2), e, n);
  }

  /** The text of the server's modulus 61 * 53. */
  lemma ModulusText()
    ensures IntText(3233) == "3233"
  {
    assert Decimal(3233) == Decimal(323) + "3";
    assert Decimal(323) == Decimal(32) + "3";
    assert Decimal(32) == Decimal(3) + "2";
  }

  /** An instance of PaddedKey: a leading space and a trailing newline. */
  lemma PaddedKeyAccepted()
    ensures ParseKey(" 7,3233\n") == Key(7, 3233)
  {
    var m := " " + (IntText(7) + "") + [','] + ("" + (IntText(3233) + "\n"));
    assert m == " 7,3233\n" by {
      ModulusText();
      assert IntText(7) == "7";
    }
    PaddedKey(" ", 7, "", "", 3233, "\n");
  }

  /** An instance of PaddedKey: text after the exponent's digits is ignored. */
  lemma TrailingTextIgnored()
    ensures ParseKey("7x,3233") == Key(7, 3233)
  {
    var m := "" + (IntText(7) + "x") + [','] + ("" + (IntText(3233) + ""));
    assert m == "7x,3233" by {
      ModulusText();
      assert IntText(7) == "7";
    }
    PaddedKey("", 7, "x", "", 3233, "");
  }

  /** An empty half has no number: std::stoi throws. */
  lemma EmptyHalfRejected()
    ensures ParseKey(",3233") == NotANumber
  {
    assert Find(",3233", ',') == Some(0);
    assert ",3233"[..0] == "";
  }
}
