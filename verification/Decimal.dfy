/** Decimal numerals: writing a number, and the parsers of Rust's integers and of num-bigint. */
module Decimal {
  import opened Wrappers
  import opened Radix

  predicate IsDigit(c: char) {
    '0' <= c <= '9'
  }

  predicate AllDigits(s: string) {
    forall i :: 0 <= i < |s| ==> IsDigit(s[i])
  }

  function DigitOf(c: char): nat
    requires IsDigit(c)
  {
    c as int - '0' as int
  }

  function CharOf(d: nat): char
    requires d < 10
  {
    (d + '0' as int) as char
  }

  function DigitsOf(s: string): (ds: seq<nat>)
    requires AllDigits(s)
    ensures |ds| == |s| && Digits(ds, 10)
  {
    seq(|s|, i requires 0 <= i < |s| => DigitOf(s[i]))
  }

  function CharsOf(ds: seq<nat>): (s: string)
    requires Digits(ds, 10)
    ensures |s| == |ds| && AllDigits(s) && DigitsOf(s) == ds
  {
    seq(|ds|, i requires 0 <= i < |ds| => CharOf(ds[i]))
  }

  /** The number a digit string writes. */
  function NumOf(s: string): nat
    requires AllDigits(s)
  {
    Value(DigitsOf(s), 10)
  }

  /** `n` in decimal, without leading zeros. */
  function Dec(n: nat): (s: string)
    ensures s != [] && AllDigits(s)
    ensures n != 0 ==> s[0] != '0'
  {
    if n == 0 then "0" else CharsOf(Minimal(n, 10))
  }

  lemma NumOfDec(n: nat)
    ensures NumOf(Dec(n)) == n
  {
    if n != 0 {
      ValueOfMinimal(n, 10);
    } else {
      assert DigitsOf("0") == [0];
      assert [0][..0] == [];
    }
  }

  /** Writing one string after another scales the first. */
  lemma NumOfConcat(s: string, t: string)
    requires AllDigits(s) && AllDigits(t)
    ensures AllDigits(s + t) && NumOf(s + t) == NumOf(s) * Pow(10, |t|) + NumOf(t)
  {
    ValueConcat(DigitsOf(s), DigitsOf(t), 10);
    assert DigitsOf(s + t) == DigitsOf(s) + DigitsOf(t);
  }

  function ZeroText(z: nat): (s: string)
    ensures |s| == z && AllDigits(s)
  {
    seq(z, i => '0')
  }

  lemma NumOfZeroText(z: nat)
    ensures NumOf(ZeroText(z)) == 0
  {
    assert DigitsOf(ZeroText(z)) == Zeros(z);
    ValueOfZeros(z, 10);
  }

  lemma NumOfPadded(z: nat, s: string)
    requires AllDigits(s)
    ensures AllDigits(ZeroText(z) + s) && NumOf(ZeroText(z) + s) == NumOf(s)
  {
    NumOfConcat(ZeroText(z), s);
    NumOfZeroText(z);
  }

  /** Rust's unsigned `str::parse`: an optional plus sign, then digits within the type. */
  function ParseUnsigned(s: string, max: nat): (r: Option<nat>)
    ensures r.Some? ==> r.value <= max
  {
    var digits := if s != [] && s[0] == '+' then s[1..] else s;
    if digits != [] && AllDigits(digits) && NumOf(digits) <= max then Some(NumOf(digits)) else None
  }

  /** num-bigint's base-10 parse: an optional sign, then digits. */
  function ParseBigInt(s: string): Option<int> {
    var body := if s != [] && (s[0] == '-' || s[0] == '+') then s[1..] else s;
    if body == [] || !AllDigits(body) then None
    else Some(if s[0] == '-' then -(NumOf(body) as int) else NumOf(body))
  }
}
