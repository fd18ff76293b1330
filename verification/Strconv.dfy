/** Decimal text, as strconv.Atoi reads it and %d writes it. */
module Strconv {
  const MAX_INT: int := 0x7FFF_FFFF_FFFF_FFFF

  datatype Parsed = Bad | Num(value: int)

  predicate IsDigit(c: char) { '0' <= c <= '9' }

  function DigitOf(c: char): nat
    requires IsDigit(c)
  {
    c as nat - '0' as nat
  }

  function CharOf(d: nat): (c: char)
    requires d < 10
    ensures IsDigit(c) && DigitOf(c) == d
  {
    ('0' as nat + d) as char
  }

  predicate AllDigits(s: string) { forall i :: 0 <= i < |s| ==> IsDigit(s[i]) }

  function Value(s: string): (v: int)
    requires AllDigits(s)
    ensures v >= 0
  {
    if s == "" then 0 else Value(s[..|s| - 1]) * 10 + DigitOf(s[|s| - 1])
  }

  /** %d of a number that is not negative. */
  function Decimal(n: nat): (s: string)
    ensures s != "" && AllDigits(s)
  {
    if n < 10 then [CharOf(n)] else Decimal(n / 10) + [CharOf(n % 10)]
  }

  lemma {:induction false} DecimalValue(n: nat)
    ensures Value(Decimal(n)) == n
  {
    if n < 10 {
      assert [CharOf(n)][..0] == "";
    } else {
      DecimalValue(n / 10);
      var d := Decimal(n / 10);
      assert (d + [CharOf(n % 10)])[..|d|] == d;
    }
  }

  /** The digits are decimal ones. */
  lemma DecimalIsBaseTen(n: nat)
    ensures n < 10 ==> Decimal(n) == ["0123456789"[n]]
    ensures n >= 10 ==> Decimal(n) == Decimal(n / 10) + ["0123456789"[n % 10]]
  {
    var d := if n < 10 then n else n % 10;
    assert forall k :: 0 <= k < 10 ==> "0123456789"[k] == CharOf(k);
  }

  /** An optional sign and at least one digit, within a signed 64-bit int. */
  function Atoi(s: string): Parsed {
    var signed := s != "" && (s[0] == '+' || s[0] == '-');
    var digits := if signed then s[1..] else s;
    if digits == "" || !AllDigits(digits) then Bad
    else
      var n := if signed && s[0] == '-' then -Value(digits) else Value(digits);
      if -MAX_INT - 1 <= n <= MAX_INT then Num(n) else Bad
  }

  lemma AtoiDecimal(n: nat)
    requires n <= MAX_INT
    ensures Atoi(Decimal(n)) == Num(n)
  {
    DecimalValue(n);
    assert IsDigit(Decimal(n)[0]);
  }
}
