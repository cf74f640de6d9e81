/** Decimal numerals as `strconv` writes and reads them. */
module Decimal {
  import opened Options

  predicate IsDigit(c: char) { '0' <= c <= '9' }

  function Digit(n: nat): (c: char)
    requires n < 10
    ensures IsDigit(c)
  {
    '0' + (n as char)
  }

  function Digits(n: nat): (s: string)
    ensures |s| >= 1 && forall i :: 0 <= i < |s| ==> IsDigit(s[i])
  {
    if n < 10 then [Digit(n)] else Digits(n / 10) + [Digit(n % 10)]
  }

  /** `strconv.Itoa` of a length. */
  function Itoa(n: nat): (s: string)
    ensures s != ""
  {
    Digits(n)
  }

  function Value(s: string): nat
    requires forall i :: 0 <= i < |s| ==> IsDigit(s[i])
  {
    if s == "" then 0
    else
      var last := s[|s| - 1];
      assert IsDigit(last);
      10 * Value(s[..|s| - 1]) + (last as int - '0' as int)
  }

  const MAX_INT: nat := 0x7FFF_FFFF_FFFF_FFFF

  predicate AllDigits(s: string) {
    forall i :: 0 <= i < |s| ==> IsDigit(s[i])
  }

  predicate Signed(s: string) {
    s != "" && (s[0] == '-' || s[0] == '+')
  }

  /** `strconv.Atoi`, and `ParseInt` in base 10: an optional sign, digits, and a value that fits in 64
      bits. */
  function Atoi(s: string): Option<int> {
    var digits := if Signed(s) then s[1..] else s;
    if digits == "" || !AllDigits(digits) then None
    else
      var n: int := Value(digits);
      if s[0] == '-' then if n <= MAX_INT + 1 then Some(-n) else None
      else if n <= MAX_INT then Some(n) else None
  }

  /** A numeral is the digit of its value, or the numeral of a tenth of it and one more digit. */
  lemma ItoaIs(n: nat)
    ensures n < 10 ==> Itoa(n) == ["0123456789"[n]]
    ensures n >= 10 ==> Itoa(n) == Itoa(n / 10) + ["0123456789"[n % 10]]
  {
    var d := n % 10;
    assert "0123456789"[d] as int == '0' as int + d;
  }

  lemma {:induction false} ValueOfDigits(n: nat)
    ensures Value(Digits(n)) == n
  {
    if n >= 10 {
      ValueOfDigits(n / 10);
      var s := Digits(n);
      assert s[..|s| - 1] == Digits(n / 10);
    }
  }

  /** A length written out reads back as itself. */
  lemma AtoiItoa(n: nat)
    requires n <= MAX_INT
    ensures Atoi(Itoa(n)) == Some(n)
  {
    ValueOfDigits(n);
    assert IsDigit(Itoa(n)[0]);
  }

  predicate IsNumeral(s: string) {
    s != "" && forall i :: 0 <= i < |s| ==> '0' <= s[i] <= '9'
  }

  /** What is read: a numeral behind an optional sign, and nothing else. */
  lemma AtoiIff(s: string)
    ensures Atoi(s).Some? ==> IsNumeral(s) || (s != "" && (s[0] == '+' || s[0] == '-') && IsNumeral(s[1..]))
  {
    if Atoi(s).Some? {
      assert AllDigits(if Signed(s) then s[1..] else s);
    }
  }

  /** A numeral may have a sign, and must fit in 64 bits. */
  lemma AtoiSigned(n: int)
    requires n >= 0
    ensures Atoi(Itoa(n)) == if n <= 0x7FFF_FFFF_FFFF_FFFF then Some(n) else None
    ensures Atoi("+" + Itoa(n)) == if n <= 0x7FFF_FFFF_FFFF_FFFF then Some(n) else None
    ensures Atoi("-" + Itoa(n)) == if n <= 0x8000_0000_0000_0000 then Some(-n) else None
  {
    hide Value, Digits;
    var digits := Itoa(n);
    ValueOfDigits(n);
    assert IsDigit(digits[0]);
    AtoiOf("", digits);
    AtoiOf("+", digits);
    AtoiOf("-", digits);
    assert "" + digits == digits;
  }

  lemma AtoiOf(sign: string, digits: string)
    requires sign == "" || sign == "+" || sign == "-"
    requires digits != "" && forall i :: 0 <= i < |digits| ==> IsDigit(digits[i])
    ensures var n: int := Value(digits);
            Atoi(sign + digits) == if sign == "-" then (if n <= MAX_INT + 1 then Some(-n) else None)
                                   else if n <= MAX_INT then Some(n) else None
  {
    hide Value;
    var s := sign + digits;
    assert IsDigit(digits[0]);
    if sign == "" {
      assert s == digits && s[0] != '-' && s[0] != '+';
    } else {
      assert s[0] == sign[0] && s[1..] == digits;
    }
  }
}
