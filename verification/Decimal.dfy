/** Decimal text: what `printf("%ld")` writes and what `strtol(.., 10)` reads back. */
module Decimal {

  const LONG_MAX := 0x7fff_ffff_ffff_ffff
  const LONG_MIN := -0x8000_0000_0000_0000
  const INT_MAX := 0x7fff_ffff
  const ULONG_SPAN := 0x1_0000_0000_0000_0000

  predicate IsDigit(c: char) {
    '0' <= c <= '9'
  }

  predicate IsSpace(c: char) {
    c == ' ' || '\t' <= c <= '\r'
  }

  predicate AllDigits(s: string) {
    forall i | 0 <= i < |s| :: IsDigit(s[i])
  }

  function DigitChar(d: nat): char
    requires d < 10
  {
    '0' + d as char
  }

  function DigitValue(c: char): nat
    requires IsDigit(c)
  {
    c as int - '0' as int
  }

  /** The decimal digits of n, most significant first. */
  function Dec(n: nat): (s: string)
    ensures AllDigits(s) && |s| >= 1
  {
    if n < 10 then [DigitChar(n)] else Dec(n / 10) + [DigitChar(n % 10)]
  }

  function DecVal(s: string): nat
    requires AllDigits(s)
  {
    if s == "" then 0 else 10 * DecVal(s[..|s| - 1]) + DigitValue(s[|s| - 1])
  }

  function Print(n: int): string {
    if n < 0 then "-" + Dec(-n) else Dec(n)
  }

  function SpaceRun(s: string): (n: nat)
    ensures n <= |s|
  {
    if s == "" || !IsSpace(s[0]) then 0 else 1 + SpaceRun(s[1..])
  }

  function DigitRun(s: string): (n: nat)
    ensures n <= |s| && AllDigits(s[..n])
    ensures n < |s| ==> !IsDigit(s[n])
  {
    if s == "" || !IsDigit(s[0]) then 0
    else
      var n := DigitRun(s[1..]);
      assert s[..n + 1] == [s[0]] + s[1..][..n];
      n + 1
  }

  function Signed(negative: bool, magnitude: int): int {
    if negative then -magnitude else magnitude
  }

  /** Result of `strtol`: no digits at all (endptr == start), or the exact value and how much was used. */
  datatype Number = NoNumber | Number(value: int, used: nat)

  /** `strtol` before clamping: callers compare `value` with the range of long (ERANGE). */
  function Strtol(s: string): (r: Number)
    ensures r.Number? ==> 0 < r.used <= |s|
  {
    var blanks := SpaceRun(s);
    var signed := blanks < |s| && (s[blanks] == '-' || s[blanks] == '+');
    var start := if signed then blanks + 1 else blanks;
    FromDigits(s[start..], signed && s[blanks] == '-', start)
  }

  function FromDigits(body: string, negative: bool, start: nat): (r: Number)
    ensures r.Number? ==> start < r.used <= start + |body|
  {
    var digits := DigitRun(body);
    if digits == 0 then NoNumber
    else Number(Signed(negative, DecVal(body[..digits])), start + digits)
  }

  predicate FitsLong(n: int) {
    LONG_MIN <= n <= LONG_MAX
  }

  function Pow10(k: nat): nat {
    if k == 0 then 1 else 10 * Pow10(k - 1)
  }

  lemma {:induction false} DecRoundTrip(n: nat)
    ensures DecVal(Dec(n)) == n
  {
    if n < 10 {
      assert Dec(n)[..0] == "";
    } else {
      DecRoundTrip(n / 10);
      assert Dec(n)[..|Dec(n)| - 1] == Dec(n / 10);
    }
  }

  lemma {:induction false} DecLength(n: nat, k: nat)
    requires 1 <= k && n < Pow10(k)
    ensures |Dec(n)| <= k
  {
    if n >= 10 {
      DecLength(n / 10, k - 1);
    }
  }

  lemma LongLength(n: int)
    requires LONG_MIN <= n < ULONG_SPAN
    ensures 1 <= |Print(n)| <= 21
  {
    assert Pow10(20) == 1_0000_0000_0000_0000_0000 by {
      assert Pow10(10) == 100_0000_0000;
      Pow10Sum(10, 10);
    }
    DecLength(if n < 0 then -n else n, 20);
  }

  lemma {:induction false} Pow10Sum(a: nat, b: nat)
    ensures Pow10(a + b) == Pow10(a) * Pow10(b)
  {
    if a > 0 {
      Pow10Sum(a - 1, b);
    }
  }

  lemma {:induction false} DigitRunAppend(d: string, rest: string)
    requires AllDigits(d)
    requires rest == "" || !IsDigit(rest[0])
    ensures DigitRun(d + rest) == |d|
  {
    if d == "" {
      assert d + rest == rest;
    } else {
      assert (d + rest)[1..] == d[1..] + rest;
      DigitRunAppend(d[1..], rest);
    }
  }

  lemma FromDigitsAppend(d: string, rest: string, negative: bool, start: nat)
    requires AllDigits(d) && d != ""
    requires rest == "" || !IsDigit(rest[0])
    ensures FromDigits(d + rest, negative, start) == Number(Signed(negative, DecVal(d)), start + |d|)
  {
    DigitRunAppend(d, rest);
    assert (d + rest)[..|d|] == d;
  }

  lemma StrtolPlain(s: string, d: string, rest: string)
    requires AllDigits(d) && d != "" && s == d + rest
    requires rest == "" || !IsDigit(rest[0])
    ensures Strtol(s) == Number(DecVal(d), |d|)
  {
    assert IsDigit(s[0]);
    assert SpaceRun(s) == 0;
    assert s[0..] == s;
    FromDigitsAppend(d, rest, false, 0);
  }

  lemma StrtolMinus(s: string, d: string, rest: string)
    requires AllDigits(d) && d != "" && s == "-" + d + rest
    requires rest == "" || !IsDigit(rest[0])
    ensures Strtol(s) == Number(Signed(true, DecVal(d)), 1 + |d|)
  {
    assert s[0] == '-';
    assert SpaceRun(s) == 0;
    assert s[1..] == d + rest;
    FromDigitsAppend(d, rest, true, 1);
  }

  /** Reading back a printed number gives that number and stops right behind it. */
  lemma StrtolPrint(n: int, rest: string)
    requires rest == "" || !IsDigit(rest[0])
    ensures Strtol(Print(n) + rest) == Number(n, |Print(n)|)
  {
    DecRoundTrip(if n < 0 then -n else n);
    if n < 0 {
      StrtolMinus(Print(n) + rest, Dec(-n), rest);
    } else {
      StrtolPlain(Print(n) + rest, Dec(n), rest);
    }
  }

  lemma StrtolWhole(n: int)
    ensures Strtol(Print(n)) == Number(n, |Print(n)|)
  {
    StrtolPrint(n, "");
    assert Print(n) + "" == Print(n);
  }
}
