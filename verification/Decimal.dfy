/** Decimal numbers as printf writes and atoi reads them. */
module Decimal {

  predicate Digit(c: char) { '0' <= c <= '9' }

  function Digits(n: nat): (s: string)
    ensures s != "" && forall i :: 0 <= i < |s| ==> Digit(s[i])
  {
    var d := ('0' as int + n % 10) as char;
    if n < 10 then [d] else Digits(n / 10) + [d]
  }

  /** What %d prints. */
  function Text(n: int): string {
    if n < 0 then "-" + Digits(-n) else Digits(n)
  }

  function ReadDigits(s: string, n: nat): nat {
    if s != "" && Digit(s[0]) then ReadDigits(s[1..], 10 * n + (s[0] as int - '0' as int)) else n
  }

  predicate Space(c: char) { c == ' ' || 9 <= c as int <= 13 }

  /** White space, a sign and then as many digits as there are. */
  function Atoi(s: string): int {
    if s == "" then 0
    else if Space(s[0]) then Atoi(s[1..])
    else if s[0] == '-' then 0 - ReadDigits(s[1..], 0)
    else if s[0] == '+' then ReadDigits(s[1..], 0)
    else ReadDigits(s, 0)
  }

  lemma {:induction false} ReadsDigits(n: nat, rest: string)
    ensures ReadDigits(Digits(n) + rest, 0) == ReadDigits(rest, n)
    decreases n
  {
    var d := ('0' as int + n % 10) as char;
    assert ([d] + rest)[1..] == rest;
    if n >= 10 {
      ReadsDigits(n / 10, [d] + rest);
      assert Digits(n) + rest == Digits(n / 10) + ([d] + rest);
    }
  }

  lemma ReadsNothing(s: string, n: nat)
    requires s == "" || !Digit(s[0])
    ensures ReadDigits(s, n) == n
  {
  }

  lemma AtoiMinus(s: string)
    ensures Atoi("-" + s) == 0 - ReadDigits(s, 0)
  {
    assert ("-" + s)[1..] == s;
  }

  lemma AtoiDigits(s: string)
    requires s != "" && Digit(s[0])
    ensures Atoi(s) == ReadDigits(s, 0)
  {
  }

  lemma FirstDigit(n: nat)
    ensures Digits(n) != "" && Digit(Digits(n)[0])
  {
  }

  /** Reading a printed number gives that number, if no digit follows it. */
  lemma NumberRoundTrip(n: int, rest: string)
    requires rest == "" || !Digit(rest[0])
    ensures Atoi(Text(n) + rest) == n
  {
    hide ReadDigits, Digits, Atoi;
    if n < 0 {
      ReadsDigits(-n, rest);
      ReadsNothing(rest, -n);
      AtoiMinus(Digits(-n) + rest);
      assert Text(n) + rest == "-" + (Digits(-n) + rest);
    } else {
      ReadsDigits(n, rest);
      ReadsNothing(rest, n);
      FirstDigit(n);
      assert (Digits(n) + rest)[0] == Digits(n)[0];
      AtoiDigits(Digits(n) + rest);
    }
  }

  function Power10(k: nat): nat {
    if k == 0 then 1 else 10 * Power10(k - 1)
  }

  /** A number below 10^k has at most k digits. */
  lemma {:induction false} DigitCount(n: nat, k: nat)
    requires k > 0 && n < Power10(k)
    ensures |Digits(n)| <= k
    decreases k
  {
    if n >= 10 {
      assert Power10(k) == 10 * Power10(k - 1);
      assert k > 1;
      DigitCount(n / 10, k - 1);
    }
  }

  const INT_MIN := -0x8000_0000
  const INT_MAX := 0x7fff_ffff

  /** The values of an int, for which neither printing nor reading overflows. */
  predicate FitsInt(n: int) { INT_MIN <= n <= INT_MAX }

  /** An int takes at most eleven characters. */
  lemma IntLength(n: int)
    requires FitsInt(n)
    ensures |Text(n)| <= 11
  {
    hide Digits, Power10;
    Power10Of10();
    DigitCount(if n < 0 then -n else n, 10);
  }

  lemma Power10Of10()
    ensures Power10(10) == 10000000000
  {
    assert Power10(2) == 100;
    assert Power10(4) == 100 * Power10(2);
    assert Power10(6) == 100 * Power10(4);
    assert Power10(8) == 100 * Power10(6);
  }
}
