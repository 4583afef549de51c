/** Digit strings and their values: the parts of Go's strconv that the resolver calls
    (ParseInt and ParseUint with an explicit base and bit size 64, Atoi) and their
    inverse, decimal formatting. */
module Numerals {
  import opened Outcomes
  import opened Text
  import opened TwosComplement

  /** strconv's value of a digit character: 0-9, then the letters of either case from 10
      up; 36 for anything else, which no base accepts. */
  function DigitValue(c: char): (d: nat)
    ensures d <= 36
    ensures IsDigit(c) <==> d < 10
  {
    if '0' <= c <= '9' then c as int - '0' as int
    else if 'a' <= c <= 'z' then c as int - 'a' as int + 10
    else if 'A' <= c <= 'Z' then c as int - 'A' as int + 10
    else 36
  }

  predicate AllDigitsIn(s: string, base: nat) {
    forall i | 0 <= i < |s| :: DigitValue(s[i]) < base
  }

  /** The value of a digit string in a base, most significant digit first. */
  function DigitsValue(s: string, base: nat): nat
    decreases |s|
  {
    if s == [] then 0 else DigitsValue(s[..|s| - 1], base) * base + DigitValue(s[|s| - 1])
  }

  /** strconv.ParseUint(s, base, 64): no sign, at least one digit, every character a digit
      of the base, and a value that fits 64 bits; None stands for the returned error. */
  function ParseUint64(s: string, base: nat): (r: Option<nat>)
    ensures r.Some? <==> s != [] && AllDigitsIn(s, base) && DigitsValue(s, base) <= MaxUint64
    ensures r.Some? ==> r.value == DigitsValue(s, base)
  {
    if s != [] && AllDigitsIn(s, base) && DigitsValue(s, base) <= MaxUint64
    then Some(DigitsValue(s, base))
    else None
  }

  /** strconv.ParseInt(s, base, 64): an optional '+' or '-', then what ParseUint accepts,
      and a signed value within int64. */
  function ParseInt64(s: string, base: nat): (r: Option<int>)
    ensures r.Some? ==> MinInt64 <= r.value <= MaxInt64
  {
    if s == [] then None
    else
      var body := if s[0] == '-' || s[0] == '+' then s[1..] else s;
      match ParseUint64(body, base)
      case None => None
      case Some(u) =>
        var v: int := if s[0] == '-' then 0 - u else u;
        if MinInt64 <= v <= MaxInt64 then Some(v) else None
  }

  /** The value of a numeral with an optional sign: the value of its digits, negated after
      a '-'. */
  function SignedDigitsValue(s: string, base: nat): int {
    var v: int := DigitsValue(AfterSign(s), base);
    if s != [] && s[0] == '-' then -v else v
  }

  /** What strconv.ParseInt accepts and returns: a non-empty numeral of the base after at
      most one sign, whose signed value lies within int64; that value. */
  lemma ParseInt64Value(s: string, base: nat)
    ensures ParseInt64(s, base).Some? <==>
      && s != [] && AfterSign(s) != [] && AllDigitsIn(AfterSign(s), base)
      && MinInt64 <= SignedDigitsValue(s, base) <= MaxInt64
    ensures ParseInt64(s, base).Some? ==> ParseInt64(s, base).value == SignedDigitsValue(s, base)
  {
  }

  /** strconv.Atoi on a string of ASCII digits: the value, clamped to the largest int64
      (Atoi returns that, with an error the resolver discards, when the value overflows). */
  function Atoi(s: string): (n: nat)
    requires AllDigits(s)
    ensures n <= MaxInt64
    ensures DigitsValue(s, 10) <= MaxInt64 ==> n == DigitsValue(s, 10)
    ensures DigitsValue(s, 10) > MaxInt64 ==> n == MaxInt64
  {
    if DigitsValue(s, 10) <= MaxInt64 then DigitsValue(s, 10) else MaxInt64
  }

  // ---------------------------------------------------------------------------
  // Decimal formatting (strconv.FormatUint / FormatInt), the inverse of parsing
  // ---------------------------------------------------------------------------

  function DigitChar(d: nat): (c: char)
    requires d < 10
    ensures DigitValue(c) == d && IsDigit(c)
  {
    ['0', '1', '2', '3', '4', '5', '6', '7', '8', '9'][d]
  }

  /** The shortest decimal numeral of n: digits only, no leading zero, value n. */
  function DecimalString(n: nat): (s: string)
    ensures s != [] && AllDigitsIn(s, 10) && AllDigits(s)
    ensures s[0] == '0' ==> n == 0 && s == "0"
    ensures DigitsValue(s, 10) == n
    decreases n
  {
    if n < 10 then [DigitChar(n)]
    else
      var prefix := DecimalString(n / 10);
      var s := prefix + [DigitChar(n % 10)];
      assert s[..|s| - 1] == prefix;
      s
  }

  /** strconv.FormatInt(x, 10). */
  function FormatInt(x: int): string {
    if x < 0 then "-" + DecimalString(-x) else DecimalString(x)
  }

  /** Parsing the decimal numeral of any unsigned 64-bit value gives it back. */
  lemma ParseUintFormat(n: nat)
    requires n <= MaxUint64
    ensures ParseUint64(DecimalString(n), 10) == Some(n)
  {
  }

  /** Parsing the decimal numeral of an int64 gives it back. */
  lemma ParseIntFormat(x: int)
    requires MinInt64 <= x <= MaxInt64
    ensures ParseInt64(FormatInt(x), 10) == Some(x)
  {
    if x < 0 {
      assert FormatInt(x)[1..] == DecimalString(-x);
    }
  }

  /** b^e. */
  function Pow(b: nat, e: nat): nat
    decreases e
  {
    if e == 0 then 1 else Pow(b, e - 1) * b
  }

  /** The value of a numeral of k digits is below base^k. */
  lemma {:induction false} DigitsBelowPower(s: string)
    requires AllDigits(s)
    ensures DigitsValue(s, 10) < Pow(10, |s|)
    decreases |s|
  {
    if s != [] {
      var p := s[..|s| - 1];
      assert AllDigits(p) by { assert forall i | 0 <= i < |p| :: p[i] == s[i]; }
      DigitsBelowPower(p);
      assert DigitValue(s[|s| - 1]) < 10;
    }
  }

  lemma {:induction false} PowMonotone(a: nat, b: nat)
    requires a <= b
    ensures Pow(10, a) <= Pow(10, b)
    decreases b - a
  {
    if a < b {
      PowMonotone(a, b - 1);
    }
  }

  /** The value of a numeral of two or three digits, written out. */
  lemma DigitsValueOfTwo(s: string, base: nat)
    requires |s| == 2
    ensures DigitsValue(s, base) == DigitValue(s[0]) * base + DigitValue(s[1])
  {
    var p := s[..1];
    assert s[..|s| - 1] == p && p[..|p| - 1] == [] && p[|p| - 1] == s[0];
    assert DigitsValue(p, base) == DigitValue(s[0]);
  }

  lemma DigitsValueOfThree(s: string, base: nat)
    requires |s| == 3
    ensures DigitsValue(s, base) == (DigitValue(s[0]) * base + DigitValue(s[1])) * base + DigitValue(s[2])
  {
    DigitsValueOfTwo(s[..2], base);
  }
}
