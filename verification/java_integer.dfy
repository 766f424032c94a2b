/** Java's 32-bit `int`, `String.valueOf(int)` and `Integer.parseInt(String)`
    in radix 10, over ASCII digits. */
module JavaInteger {
  import opened Wrappers
  import opened Errors

  const MinValue: int := -0x8000_0000
  const MaxValue: int := 0x7fff_ffff

  /** The values of a Java `int`. */
  type Int32 = x: int | MinValue <= x <= MaxValue

  predicate IsDigit(c: char) {
    '0' <= c <= '9'
  }

  predicate AllDigits(s: string) {
    forall i :: 0 <= i < |s| ==> IsDigit(s[i])
  }

  function DigitValue(c: char): nat
    requires IsDigit(c)
  {
    (c as int) - ('0' as int)
  }

  function DigitChar(d: nat): (c: char)
    requires d < 10
    ensures IsDigit(c) && DigitValue(c) == d
  {
    (('0' as int) + d) as char
  }

  /** The number a string of decimal digits denotes, most significant first. */
  function DigitsValue(s: string): nat
    requires AllDigits(s)
  {
    if s == [] then 0
    else 10 * DigitsValue(s[..|s| - 1]) + DigitValue(s[|s| - 1])
  }

  /** The form `String.valueOf` gives a non-negative number: digits only,
      no leading zero unless the number is 0 itself. */
  predicate IsCanonicalNat(s: string) {
    |s| >= 1 && AllDigits(s) && (s[0] != '0' || |s| == 1)
  }

  /** `String.valueOf(n)` for n >= 0. */
  function ShowNat(n: nat): (s: string)
    ensures IsCanonicalNat(s)
    ensures DigitsValue(s) == n
    ensures n > 0 ==> s[0] != '0'
  {
    if n < 10 then [DigitChar(n)]
    else
      var s := ShowNat(n / 10) + [DigitChar(n % 10)];
      assert s[..|s| - 1] == ShowNat(n / 10);
      s
  }

  /** `String.valueOf(n)`: a minus sign before the digits of |n| when n < 0. */
  function ShowInt(n: int): (s: string)
    ensures |s| >= 1 && (s[0] == '-' <==> n < 0)
    ensures n >= 0 ==> IsCanonicalNat(s) && DigitsValue(s) == n
    ensures n < 0 ==> IsCanonicalNat(s[1..]) && DigitsValue(s[1..]) == -n
  {
    if n < 0 then
      var s := "-" + ShowNat(-n);
      assert s[1..] == ShowNat(-n);
      s
    else ShowNat(n)
  }

  /** A sign `Integer.parseInt` accepts in front of the digits. */
  predicate IsSign(c: char) {
    c == '+' || c == '-'
  }

  /** The text of a decimal integer: digits only, or one sign followed by
      at least one digit. */
  predicate IsDecimal(s: string) {
    (s != [] && AllDigits(s)) || (|s| >= 2 && IsSign(s[0]) && AllDigits(s[1..]))
  }

  /** The number a decimal text denotes, of any size. */
  function SignedValue(s: string): int
    requires IsDecimal(s)
  {
    if s[0] == '-' then -(DigitsValue(s[1..]) as int)
    else if s[0] == '+' then DigitsValue(s[1..])
    else DigitsValue(s)
  }

  /** `Integer.parseInt(s)`: an optional sign, then at least one digit, and
      the value must fit in an `int`; anything else is a NumberFormatException. */
  function ParseInt(s: string): (r: Result<Int32, Error>)
    ensures r.Success? <==> IsDecimal(s) && MinValue <= SignedValue(s) <= MaxValue
    ensures r.Success? ==> r.value == SignedValue(s)
    ensures r.Failure? ==> r.error == NumberFormat(s)
    ensures r.Success? ==> (r.value < 0 <==> s[0] == '-' && r.value != 0)
  {
    if s == [] then Failure(NumberFormat(s))
    else
      var negative := s[0] == '-';
      var digits := if s[0] == '-' || s[0] == '+' then s[1..] else s;
      if digits == [] || !AllDigits(digits) then Failure(NumberFormat(s))
      else
        var magnitude: int := DigitsValue(digits);
        var v := if negative then -magnitude else magnitude;
        if MinValue <= v <= MaxValue then Success(v) else Failure(NumberFormat(s))
  }

  /** Any character other than a digit, save one sign in front, makes
      `Integer.parseInt` throw; so do the empty string and a lone sign. */
  lemma ParseIntRejects(s: string, i: nat)
    requires i < |s|
    requires !IsDigit(s[i]) && !(i == 0 && IsSign(s[i]) && |s| >= 2)
    ensures ParseInt(s) == Failure(NumberFormat(s))
  {
  }

  /** `Integer.parseInt` on a few inputs. */
  lemma ParseIntExamples()
    ensures ParseInt("abc") == Failure(NumberFormat("abc"))
    ensures ParseInt("") == Failure(NumberFormat(""))
    ensures ParseInt("-") == Failure(NumberFormat("-"))
    ensures ParseInt("-5") == Success(-5)
    ensures ParseInt("+7") == Success(7)
  {
    ParseIntRejects("abc", 0);
    ParseIntRejects("-", 0);
    assert "-5"[1..] == "5";
    assert "+7"[1..] == "7";
  }

  /** Parsing a sign followed by a canonical digit string. */
  lemma ParseSigned(sign: string, digits: string, v: int)
    requires sign == [] || sign == "-"
    requires IsCanonicalNat(digits)
    requires v == (if sign == [] then DigitsValue(digits) else -(DigitsValue(digits) as int))
    requires MinValue <= v <= MaxValue
    ensures ParseInt(sign + digits) == Success(v)
  {
    var s := sign + digits;
    if sign == [] {
      assert s == digits;
      assert s[0] != '-' && s[0] != '+';
    } else {
      assert s[0] == '-';
      assert s[1..] == digits;
    }
  }

  /** `Integer.parseInt(String.valueOf(n)) == n` for every `int` n. */
  lemma ParseShowRoundTrip(n: Int32)
    ensures ParseInt(ShowInt(n)) == Success(n)
  {
    if n < 0 {
      ParseSigned("-", ShowNat(-(n as int)), n);
    } else {
      ParseSigned([], ShowNat(n), n);
      assert [] + ShowNat(n) == ShowNat(n);
    }
  }

  /** A digit string that is all zeros has value 0; so a digit string
      starting with a non-zero digit has a positive value. */
  lemma {:induction false} LeadingDigitPositive(s: string)
    requires |s| >= 1 && AllDigits(s) && s[0] != '0'
    ensures DigitsValue(s) >= 1
  {
    if |s| > 1 {
      LeadingDigitPositive(s[..|s| - 1]);
    }
  }

  /** The other direction of the round trip: a canonical digit string is
      what `String.valueOf` gives for its own value. */
  lemma {:induction false} ShowDigitsValue(s: string)
    requires IsCanonicalNat(s)
    ensures ShowNat(DigitsValue(s)) == s
  {
    var last := s[|s| - 1];
    if |s| == 1 {
      assert DigitChar(DigitValue(last)) == last;
    } else {
      var prefix := s[..|s| - 1];
      assert prefix[0] == s[0];
      assert IsCanonicalNat(prefix);
      LeadingDigitPositive(prefix);
      ShowDigitsValue(prefix);
      var v, d := DigitsValue(prefix), DigitValue(last);
      assert DigitsValue(s) == 10 * v + d;
      assert (10 * v + d) / 10 == v && (10 * v + d) % 10 == d;
      assert ShowNat(10 * v + d) == ShowNat(v) + [DigitChar(d)];
      assert DigitChar(d) == last;
      assert s == prefix + [last];
    }
  }
}
