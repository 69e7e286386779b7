/** Decimal text of C++ integers: `std::to_string` and the number scanning
    shared by `std::stoi` and stream extraction `>>` into an `int`, in the
    "C" locale. */
module DecimalText {
  import opened Wrappers
  import opened CInt
  import opened ModMath

  predicate IsDigit(c: char) { '0' <= c <= '9' }

  /** `isspace` in the "C" locale: space, \t, \n, \v, \f and \r. */
  predicate IsSpace(c: char) { c == ' ' || '\t' <= c <= '\r' }

  predicate AllDigits(s: string) { forall i :: 0 <= i < |s| ==> IsDigit(s[i]) }

  function DigitChar(d: int): (c: char)
    requires 0 <= d < 10
    ensures IsDigit(c) && DigitValue(c) == d
  {
    ('0' as int + d) as char
  }

  function DigitValue(c: char): int
    requires IsDigit(c)
  {
    c as int - '0' as int
  }

  /** The decimal digits of x, most significant first, without leading zeros. */
  function Decimal(x: nat): (s: string)
    ensures |s| >= 1 && AllDigits(s)
    ensures s[0] == '0' <==> x == 0
    ensures x == 0 ==> s == "0"
  {
    if x < 10 then [DigitChar(x)] else Decimal(x / 10) + [DigitChar(x % 10)]
  }

  /** The value of a string of digits. */
  function DigitsValue(s: string): nat
    requires AllDigits(s)
  {
    if |s| == 0 then 0 else 10 * DigitsValue(s[..|s| - 1]) + DigitValue(s[|s| - 1])
  }

  /** Reading back the digits of x gives x. */
  lemma {:induction false} DecimalRoundTrip(x: nat)
    ensures DigitsValue(Decimal(x)) == x
  {
    var s := Decimal(x);
    if x >= 10 {
      DecimalRoundTrip(x / 10);
      assert s[..|s| - 1] == Decimal(x / 10);
    } else {
      assert s[..|s| - 1] == [];
    }
  }

  /** A string of digits without a leading zero is the decimal text of its
      value: the text form of a number is unique. */
  lemma {:induction false} DecimalOfDigits(s: string)
    requires |s| >= 1 && AllDigits(s) && (|s| > 1 ==> s[0] != '0')
    ensures Decimal(DigitsValue(s)) == s
  {
    var init := s[..|s| - 1];
    var last := DigitValue(s[|s| - 1]);
    if |s| == 1 {
      assert init == [];
      assert DigitChar(last) == s[0];
    } else {
      var w := DigitsValue(init);
      DecimalOfDigits(init);
      LeadingDigitPositive(init);
      assert DigitsValue(s) == 10 * w + last;
      DecimalStep(w, last);
      assert DigitChar(last) == s[|s| - 1];
      assert s == init + [s[|s| - 1]];
    }
  }

  /** Appending a digit to a positive number appends it to the text. */
  lemma DecimalStep(w: nat, last: int)
    requires w > 0 && 0 <= last < 10
    ensures Decimal(10 * w + last) == Decimal(w) + [DigitChar(last)]
  {
    DivModUnique(10 * w + last, 10, w, last);
  }

  /** Digits that start with a non-zero digit have a positive value. */
  lemma {:induction false} LeadingDigitPositive(s: string)
    requires |s| >= 1 && AllDigits(s) && s[0] != '0'
    ensures DigitsValue(s) > 0
  {
    if |s| > 1 {
      LeadingDigitPositive(s[..|s| - 1]);
    }
  }

  /** `std::to_string(x)`: an optional '-' and the digits of |x|. */
  function IntText(x: int): (s: string)
    ensures |s| >= 1 && (s[0] == '-' <==> x < 0)
    ensures !IsSpace(s[0]) && s[0] != '+'
  {
    if x < 0 then "-" + Decimal(-x) else Decimal(x)
  }

  /** The length of the run of digits at the front of s. */
  function LeadingDigits(s: string): (n: nat)
    ensures n <= |s|
    ensures forall i :: 0 <= i < n ==> IsDigit(s[i])
    ensures n < |s| ==> !IsDigit(s[n])
  {
    if |s| > 0 && IsDigit(s[0]) then 1 + LeadingDigits(s[1..]) else 0
  }

  /** Scans white space, an optional sign and a run of digits from the front
      of s, as `strtol` does in base 10: the value read and the index just
      after its last digit, or None when no digit follows. The range check
      is left to the caller. */
  function ScanInt(s: string): (r: Option<(int, nat)>)
    ensures r.Some? ==> 0 < r.value.1 <= |s| && IsDigit(s[r.value.1 - 1])
    ensures r.Some? && r.value.1 < |s| ==> !IsDigit(s[r.value.1])
  {
    if |s| > 0 && IsSpace(s[0]) then
      match ScanInt(s[1..])
      case None => None
      case Some((v, k)) => Some((v, k + 1))
    else
      ScanNumber(s)
  }

  /** An optional sign and a run of digits at the very front of s. */
  function ScanNumber(s: string): (r: Option<(int, nat)>)
    ensures r.Some? ==> 0 < r.value.1 <= |s| && IsDigit(s[r.value.1 - 1])
    ensures r.Some? && r.value.1 < |s| ==> !IsDigit(s[r.value.1])
    ensures r.None? <==> LeadingDigits(s[SignLength(s)..]) == 0
  {
    var j := SignLength(s);
    var k := LeadingDigits(s[j..]);
    if k == 0 then None
    else
      var magnitude: int := DigitsValue(s[j..][..k]);
      var value := if j == 1 && s[0] == '-' then -magnitude else magnitude;
      Some((value, j + k))
  }

  /** 1 when s starts with a sign character, else 0. */
  function SignLength(s: string): (j: nat)
    ensures j <= |s|
  {
    if |s| > 0 && (s[0] == '+' || s[0] == '-') then 1 else 0
  }

  /** Digits followed by a non-digit: the digit run is exactly the digits. */
  lemma {:induction false} LeadingDigitsOfDigits(d: string, rest: string)
    requires AllDigits(d) && (|rest| == 0 || !IsDigit(rest[0]))
    ensures LeadingDigits(d + rest) == |d|
  {
    if |d| > 0 {
      assert (d + rest)[1..] == d[1..] + rest;
      LeadingDigitsOfDigits(d[1..], rest);
    } else {
      assert d + rest == rest;
    }
  }

  /** The text of x with rest after it: a sign, the digits of |x|, rest. */
  lemma IntTextShape(x: int, rest: string)
    ensures IntText(x) + rest == (if x < 0 then "-" else "") + (Decimal(Abs(x)) + rest)
  {
  }

  /** Scanning the text of x, followed by anything that is not a digit,
      reads back x and stops right after its text. */
  lemma ScanIntText(x: int, rest: string)
    requires |rest| == 0 || !IsDigit(rest[0])
    ensures ScanInt(IntText(x) + rest) == Some((x, |IntText(x)|))
  {
    var s := IntText(x) + rest;
    assert s[0] == IntText(x)[0];
    ScanIntNoSpace(s);
    ScanNumberText(x, rest);
  }

  /** The sign and digit part of the scan reads the text of x back. */
  lemma ScanNumberText(x: int, rest: string)
    requires |rest| == 0 || !IsDigit(rest[0])
    ensures ScanNumber(IntText(x) + rest) == Some((x, |IntText(x)|))
  {
    DecimalRoundTrip(Abs(x));
    if x < 0 {
      ScanNegativeText(x, rest);
    } else {
      ScanSignedDigits(Decimal(x) + rest, 0, Decimal(x), rest);
    }
  }

  lemma ScanNegativeText(x: int, rest: string)
    requires x < 0 && (|rest| == 0 || !IsDigit(rest[0]))
    requires DigitsValue(Decimal(-x)) == -x
    ensures ScanNumber(IntText(x) + rest) == Some((x, |IntText(x)|))
  {
    var s := IntText(x) + rest;
    var d := Decimal(-x);
    assert s == "-" + (d + rest);
    assert s[1..] == d + rest;
    ScanSignedDigits(s, 1, d, rest);
  }

  /** Without leading white space the scan starts at the sign. */
  lemma ScanIntNoSpace(s: string)
    requires |s| > 0 && !IsSpace(s[0])
    ensures ScanInt(s) == ScanNumber(s)
  {
  }

  /** An optional '-' (j == 1), a run of digits d and then no digit: the scan
      reads the value of d with that sign and stops after the last digit. */
  lemma ScanSignedDigits(s: string, j: nat, d: string, rest: string)
    requires |d| >= 1 && AllDigits(d) && (|rest| == 0 || !IsDigit(rest[0]))
    requires j <= 1 && j < |s| && (j == 1 ==> s[0] == '-') && s[j..] == d + rest
    ensures ScanNumber(s) == Some((if j == 1 then -(DigitsValue(d) as int) else DigitsValue(d), j + |d|))
  {
    LeadingDigitsOfDigits(d, rest);
    assert s[j..][..|d|] == d;
    ScanNumberParts(s, j, |d|, DigitsValue(d));
  }

  /** ScanNumber in terms of its parts: the sign length, the digit run and
      its value. */
  lemma ScanNumberParts(s: string, j: nat, k: nat, v: int)
    requires j == SignLength(s) && k == LeadingDigits(s[j..]) && k > 0
    requires v == DigitsValue(s[j..][..k])
    ensures ScanNumber(s) == Some((if j == 1 && s[0] == '-' then -v else v, j + k))
  {
  }

  /** A leading white-space character only shifts where the scan stops. */
  lemma ScanIntSpace(c: char, s: string)
    requires IsSpace(c)
    ensures ScanInt(s).None? ==> ScanInt([c] + s).None?
    ensures ScanInt(s).Some? ==>
              ScanInt([c] + s) == Some((ScanInt(s).value.0, ScanInt(s).value.1 + 1))
  {
    assert ([c] + s)[1..] == s;
  }
}
