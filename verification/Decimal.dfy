/**
 Integers as decimal text: how `fmt` prints them, how the sharded store's own parser and `strconv`
 read them back.
 */
module Decimal {
  import opened Wrappers

  predicate IsDigit(c: char) {
    '0' <= c <= '9'
  }

  function DigitValue(c: char): (d: nat)
    requires IsDigit(c)
    ensures d < 10
  {
    c as int - '0' as int
  }

  function DigitChar(d: nat): (c: char)
    requires d < 10
    ensures IsDigit(c) && DigitValue(c) == d
  {
    ('0' as int + d) as char
  }

  predicate AllDigits(s: string) {
    forall i :: 0 <= i < |s| ==> IsDigit(s[i])
  }

  /** The value of the first n digits. */
  function DigitsTo(s: string, n: nat): nat
    requires n <= |s| && AllDigits(s)
  {
    if n == 0 then 0 else 10 * DigitsTo(s, n - 1) + DigitValue(s[n - 1])
  }

  function DigitsValue(s: string): nat
    requires AllDigits(s)
  {
    DigitsTo(s, |s|)
  }

  lemma {:induction false} DigitsToDependsOnPrefix(s: string, t: string, n: nat)
    requires AllDigits(s) && AllDigits(t) && n <= |s| && n <= |t| && s[..n] == t[..n]
    ensures DigitsTo(s, n) == DigitsTo(t, n)
  {
    if n > 0 {
      assert s[n - 1] == s[..n][n - 1] && s[..n - 1] == s[..n][..n - 1] && t[..n - 1] == t[..n][..n - 1];
      DigitsToDependsOnPrefix(s, t, n - 1);
    }
  }

  // ---------- Printing ----------

  function FormatNat(n: nat): (s: string)
    ensures s != [] && AllDigits(s)
  {
    if n < 10 then [DigitChar(n)] else FormatNat(n / 10) + [DigitChar(n % 10)]
  }

  /** Decimal text of an integer, as `%d` prints it. */
  function FormatInt(n: int): (s: string)
    ensures s != []
  {
    if n < 0 then ['-'] + FormatNat(-n) else FormatNat(n)
  }

  // ---------- Reading ----------

  predicate Signed(s: string) {
    s != [] && (s[0] == '-' || s[0] == '+')
  }

  function Unsigned(s: string): string {
    if Signed(s) then s[1..] else s
  }

  function Sign(s: string): int {
    if s != [] && s[0] == '-' then -1 else 1
  }

  /** What the sharded store's parser reads: a sign alone counts as zero, the empty text is an error. */
  function ParseLenient(s: string): Option<int> {
    if s != [] && AllDigits(Unsigned(s)) then Some(DigitsValue(Unsigned(s)) * Sign(s)) else None
  }

  /** What `strconv.ParseInt(s, 10, 64)` accepts: at least one digit after the sign. */
  function ParseStrict(s: string): Option<int> {
    if Unsigned(s) != [] then ParseLenient(s) else None
  }

  /** What `strconv.ParseUint(s, 10, 64)` accepts: digits only. */
  function ParseNat(s: string): Option<nat> {
    if s != [] && AllDigits(s) then Some(DigitsValue(s)) else None
  }

  /** The value callers get when they drop the error `strconv.ParseInt` returns. */
  function ParseOrZero(s: string): int {
    match ParseStrict(s)
    case Some(n) => n
    case None => 0
  }

  /** The parser of the sharded store: a loop over the characters after the sign. */
  method ParseInt64(s: string) returns (r: Option<int>)
    ensures r == ParseLenient(s)
  {
    if |s| == 0 {
      return None;
    }
    var result, sign, i := 0, 1, 0;
    if s[0] == '-' {
      sign, i := -1, 1;
    } else if s[0] == '+' {
      i := 1;
    }
    ghost var start, digits := i, s[i..];
    assert Unsigned(s) == digits;
    while i < |s|
      invariant start <= i <= |s|
      invariant AllDigits(digits[..i - start]) && result == DigitsValue(digits[..i - start])
    {
      if s[i] < '0' || s[i] > '9' {
        assert digits[i - start] == s[i];
        return None;
      }
      ghost var read := digits[..i - start + 1];
      DigitsToDependsOnPrefix(read, digits[..i - start], i - start);
      result := result * 10 + (s[i] as int - '0' as int);
      i := i + 1;
    }
    assert digits[..|s| - start] == digits;
    return Some(result * sign);
  }

  // ---------- Round trips ----------

  lemma {:induction false} DigitsOfFormatNat(n: nat)
    ensures DigitsValue(FormatNat(n)) == n
  {
    var s := FormatNat(n);
    if n >= 10 {
      DigitsOfFormatNat(n / 10);
      assert s[..|s| - 1] == FormatNat(n / 10)[..|s| - 1];
      DigitsToDependsOnPrefix(s, FormatNat(n / 10), |s| - 1);
    } else {
      assert DigitsTo(s, 0) == 0;
    }
  }

  /** Reading back a printed integer gives the same integer, for every value and with either reader. */
  lemma RoundTrip(n: int)
    ensures ParseLenient(FormatInt(n)) == Some(n)
    ensures ParseStrict(FormatInt(n)) == Some(n)
    ensures ParseOrZero(FormatInt(n)) == n
    ensures n >= 0 ==> ParseNat(FormatInt(n)) == Some(n)
  {
    var s := FormatInt(n);
    if n < 0 {
      DigitsOfFormatNat(-n);
      assert Unsigned(s) == FormatNat(-n);
    } else {
      DigitsOfFormatNat(n);
      assert IsDigit(s[0]);
      assert Unsigned(s) == s;
    }
  }

  function Pow10(n: nat): nat {
    if n == 0 then 1 else 10 * Pow10(n - 1)
  }

  /** A numeral is read in base ten, its first digit weighing most. */
  lemma {:induction false} ReadsPositionally(s: string)
    requires s != [] && AllDigits(s)
    ensures DigitsValue(s) == (s[0] as int - '0' as int) * Pow10(|s| - 1) + DigitsValue(s[1..])
  {
    var n := |s| - 1;
    if n == 0 {
      assert DigitsTo(s, 0) == 0 && s[1..] == [];
    } else {
      var front, rest := s[..n], s[1..];
      ReadsPositionally(front);
      DigitsToDependsOnPrefix(s, front, n);
      assert front[1..] == rest[..n - 1];
      DigitsToDependsOnPrefix(rest, front[1..], n - 1);
      Shift(s[0] as int - '0' as int, Pow10(n - 1));
    }
  }

  lemma Shift(digit: int, power: int)
    ensures 10 * (digit * power) == digit * (10 * power)
  {
  }

  /** What is printed has no leading zero, and a numeral without one is what its value is printed as. */
  lemma {:induction false} PrintedIsCanonical(s: string)
    requires s != [] && AllDigits(s)
    ensures s == FormatInt(DigitsValue(s)) <==> |s| == 1 || s[0] != '0'
  {
    var n := |s| - 1;
    if n == 0 {
      assert DigitsTo(s, 0) == 0;
    } else {
      var front := s[..n];
      PrintedIsCanonical(front);
      DigitsToDependsOnPrefix(s, front, n);
      DigitIsPrinted(s[n]);
      assert DigitsValue(s) / 10 == DigitsValue(front);
      assert s == front + [s[n]];
      if s[0] != '0' {
        PositiveNumeral(s);
      } else {
        LeadingZero(s);
      }
    }
  }

  lemma DigitIsPrinted(c: char)
    requires IsDigit(c)
    ensures DigitChar(DigitValue(c)) == c
  {
  }

  lemma {:induction false} PositiveNumeral(s: string)
    requires s != [] && AllDigits(s) && s[0] != '0'
    ensures DigitsValue(s) >= Pow10(|s| - 1) > 0
  {
    if |s| == 1 {
      assert DigitsTo(s, 0) == 0;
    } else {
      PositiveNumeral(s[..|s| - 1]);
      DigitsToDependsOnPrefix(s, s[..|s| - 1], |s| - 1);
    }
  }

  lemma {:induction false} LeadingZero(s: string)
    requires |s| > 1 && AllDigits(s) && s[0] == '0'
    ensures FormatInt(DigitsValue(s)) != s
  {
    PrintedStart(DigitsValue(s));
  }

  lemma {:induction false} PrintedStart(n: nat)
    ensures |FormatNat(n)| == 1 || FormatNat(n)[0] != '0'
  {
    if n >= 10 {
      PrintedStart(n / 10);
      if |FormatNat(n / 10)| == 1 {
        assert n / 10 < 10;
      }
    }
  }

  /** Two integers never share their text. */
  lemma FormatIsInjective(m: int, n: int)
    requires FormatInt(m) == FormatInt(n)
    ensures m == n
  {
    RoundTrip(m);
    RoundTrip(n);
  }

  /**
   The two readers give the same integer exactly when the sharded store's parser accepts the text:
   it rejects what `strconv` turns into a dropped error, and on a bare sign both give zero.
   */
  lemma ReadersAgree(s: string)
    ensures ParseLenient(s).Some? ==> ParseLenient(s) == Some(ParseOrZero(s))
    ensures ParseStrict(s).Some? ==> ParseLenient(s) == ParseStrict(s)
    ensures ParseLenient(s).Some? && ParseStrict(s) == None <==> s == "-" || s == "+"
  {
    if ParseLenient(s).Some? && Unsigned(s) == [] {
      assert |s| == 1 && s == [s[0]];
    }
  }
}
