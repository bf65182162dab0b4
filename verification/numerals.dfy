/**
 * Decimal numerals as Rust writes and reads them: `Display` for integers
 * (used by `format!` in the cursor, URL and TTL builders) and `u64::from_str`
 * (used to read the `retry-after` header).
 */
module Numerals {
  import opened Wrappers

  const U64_MAX: nat := 0xFFFF_FFFF_FFFF_FFFF

  predicate IsDigit(c: char) {
    '0' <= c <= '9'
  }

  predicate AllDigits(s: string) {
    forall i :: 0 <= i < |s| ==> IsDigit(s[i])
  }

  function DigitChar(d: nat): (c: char)
    requires d < 10
    ensures IsDigit(c) && c as int - '0' as int == d
  {
    ('0' as int + d) as char
  }

  /** Value of a string of ASCII digits, most significant first. */
  function DigitsValue(s: string): nat
    requires AllDigits(s)
  {
    if s == [] then 0
    else DigitsValue(s[..|s| - 1]) * 10 + (s[|s| - 1] as int - '0' as int)
  }

  /** `n` written in base ten, as `Display` prints an unsigned integer. */
  function Decimal(n: nat): (s: string)
    ensures |s| >= 1 && AllDigits(s)
    ensures s[0] == '0' ==> n == 0 && s == "0"
  {
    if n < 10 then [DigitChar(n)] else Decimal(n / 10) + [DigitChar(n % 10)]
  }

  /** `i` as `Display` prints a signed integer: a '-' in front of negatives. */
  function IntToString(i: int): (s: string)
    ensures i >= 0 ==> s == Decimal(i)
    ensures i < 0 ==> |s| >= 2 && s[0] == '-' && s[1..] == Decimal(-i)
  {
    if i < 0 then "-" + Decimal(-i) else Decimal(i)
  }

  /** The digits `u64::from_str` examines: everything after one optional leading '+'. */
  function UnsignedDigits(s: string): string {
    if |s| > 0 && s[0] == '+' then s[1..] else s
  }

  /**
   * `u64::from_str`: one optional '+', then at least one ASCII digit and
   * nothing else, with a value that fits in 64 bits; `None` for every other
   * string (empty, a lone '+', a '-' sign, other characters, overflow).
   */
  function ParseU64(s: string): (r: Option<nat>)
    ensures r.Some? ==> r.value <= U64_MAX
    ensures r.Some? ==> |s| > 0 && (IsDigit(s[0]) || s[0] == '+')
    ensures s == "" || s == "+" ==> r.None?
  {
    var digits := UnsignedDigits(s);
    if |digits| > 0 && AllDigits(digits) && DigitsValue(digits) <= U64_MAX
    then Some(DigitsValue(digits))
    else None
  }

  lemma {:induction false} DecimalValue(n: nat)
    ensures DigitsValue(Decimal(n)) == n
  {
    if n >= 10 {
      var s := Decimal(n);
      assert s[..|s| - 1] == Decimal(n / 10);
      DecimalValue(n / 10);
    }
  }

  /** Reading back what `Display` wrote gives the number again (for every `u64`). */
  lemma ParseDecimal(n: nat)
    requires n <= U64_MAX
    ensures ParseU64(Decimal(n)) == Some(n)
  {
    DecimalValue(n);
  }

  /** A numeral beyond the 64-bit range is refused. */
  lemma ParseDecimalOverflow(n: nat)
    requires n > U64_MAX
    ensures ParseU64(Decimal(n)) == None
  {
    DecimalValue(n);
  }

  /** A leading '+' is accepted and ignored. */
  lemma ParsePlusDecimal(n: nat)
    requires n <= U64_MAX
    ensures ParseU64("+" + Decimal(n)) == Some(n)
  {
    assert UnsignedDigits("+" + Decimal(n)) == Decimal(n);
    DecimalValue(n);
  }
}
