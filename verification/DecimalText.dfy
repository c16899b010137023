/**
  Decimal amount texts and their parsers: satoshi amounts (rust/src/bitfi.rs format_units, rust/src/bitcoin.rs
  parse_btc_amount on a JSON string) and Amount texts (rust/src/amount.rs to_display_string, from_string).
*/
module DecimalText {
  import opened Wrappers
  import opened Radix
  import opened Text
  import opened Decimal

  const U64_MAX := 0xFFFF_FFFF_FFFF_FFFF
  const COIN := 100_000_000

  // ---- satoshi amounts ----

  function TrimZeros(s: string): string {
    if s != [] && s[|s| - 1] == '0' then TrimZeros(s[..|s| - 1]) else s
  }

  function PadLeft(s: string, width: nat): string {
    if |s| < width then ZeroText(width - |s|) + s else s
  }

  /** Base units as a decimal amount, without trailing zeros. */
  function FormatUnits(value: string, decimals: nat): string {
    var digits := PadLeft(value, decimals + 1);
    var whole, fraction := digits[..|digits| - decimals], TrimZeros(digits[|digits| - decimals..]);
    if fraction == [] then whole else whole + ("." + fraction)
  }

  datatype BtcError = BadHex | BadInt | TooManyDecimals | BadDecimal | Overflow

  /** A hexadecimal string as an unsigned 64-bit number; its digits are no part of this model. */
  type HexParser = string -> Option<nat>

  function ParseBtc(text: string, hex: HexParser): Result<nat, BtcError> {
    var s := Trim(text);
    if StartsWith(s, "0x") then
      match hex(s[2..])
      case Some(v) => Success(v)
      case None => Failure(BadHex)
    else
      match Find(s, '.')
      case None =>
        (match ParseUnsigned(s, U64_MAX)
         case None => Failure(BadInt)
         case Some(v) => if v * COIN <= U64_MAX then Success(v * COIN) else Failure(Overflow))
      case Some(p) =>
        ParsePointed(s[..p], s[p + 1..])
  }

  function ParsePointed(whole: string, frac: string): Result<nat, BtcError> {
    if |frac| > 8 then Failure(TooManyDecimals)
    else
      match ParseUnsigned(whole + frac, U64_MAX)
      case None => Failure(BadDecimal)
      case Some(v) =>
        var scaled := v * Pow(10, 8 - |frac|);
        if scaled <= U64_MAX then Success(scaled) else Failure(Overflow)
  }

  lemma PrefixFits(s: string, prefix: string)
    ensures StartsWith(s, prefix) ==> |prefix| <= |s|
  {
  }

  method ParseBtcAmount(text: string, hex: HexParser) returns (r: Result<nat, BtcError>)
    ensures r == ParseBtc(text, hex)
  {
    hide Trim, StartsWith, Find, ParseUnsigned, Pow;
    var s := Trim(text);
    PrefixFits(s, "0x");
    if StartsWith(s, "0x") {
      var h := hex(s[2..]);
      return if h.Some? then Success(h.value) else Failure(BadHex);
    }
    var dot := Find(s, '.');
    if dot.None? {
      var v := ParseUnsigned(s, U64_MAX);
      if v.None? {
        return Failure(BadInt);
      }
      return if v.value * COIN <= U64_MAX then Success(v.value * COIN) else Failure(Overflow);
    }
    var frac := s[dot.value + 1..];
    if |frac| > 8 {
      return Failure(TooManyDecimals);
    }
    var parsed := ParseUnsigned(s[..dot.value] + frac, U64_MAX);
    if parsed.None? {
      return Failure(BadDecimal);
    }
    var scaled := ScaleUp(parsed.value, 8 - |frac|);
    return if scaled.Some? then Success(scaled.value) else Failure(Overflow);
  }

  /** The scaling loop, with its overflow check at every step. */
  method ScaleUp(start: nat, places: nat) returns (r: Option<nat>)
    requires start <= U64_MAX
    ensures r == if start * Pow(10, places) <= U64_MAX then Some(start * Pow(10, places)) else None
  {
    var v := start;
    for k := 0 to places
      invariant v == start * Pow(10, k) <= U64_MAX
    {
      OneMorePlace(start, k, places);
      if v * 10 > U64_MAX {
        return None;
      }
      v := v * 10;
    }
    return Some(v);
  }

  lemma OneMorePlace(v: nat, k: nat, places: nat)
    requires k < places
    ensures v * Pow(10, k + 1) == (v * Pow(10, k)) * 10 <= v * Pow(10, places)
  {
    var p := Pow(10, k);
    assert v * (10 * p) == (v * p) * 10;
    PowMonotone(10, k + 1, places);
    TimesMonotone(Pow(10, k + 1), Pow(10, places), v);
  }

  lemma {:induction false} TrimZerosPads(s: string)
    requires AllDigits(s)
    ensures var t := TrimZeros(s); |t| <= |s| && AllDigits(t) && s == t + ZeroText(|s| - |t|)
  {
    if s != [] && s[|s| - 1] == '0' {
      TrimZerosPads(s[..|s| - 1]);
    }
  }

  lemma PaddedDigits(sats: nat, width: nat)
    ensures var digits := PadLeft(Dec(sats), width);
            |digits| >= width && AllDigits(digits) && NumOf(digits) == sats
  {
    hide Dec, NumOf;
    NumOfDec(sats);
    if |Dec(sats)| < width {
      NumOfPadded(width - |Dec(sats)|, Dec(sats));
    }
  }

  /** Dropping the zeros at the end divides by their power of ten. */
  lemma DroppedZeros(whole: string, fraction: string)
    requires AllDigits(whole) && AllDigits(fraction)
    ensures var kept := TrimZeros(fraction);
            && |kept| <= |fraction| && AllDigits(kept) && AllDigits(whole + kept) && AllDigits(whole + fraction)
            && NumOf(whole + kept) * Pow(10, |fraction| - |kept|) == NumOf(whole + fraction)
  {
    var kept := TrimZeros(fraction);
    TrimZerosPads(fraction);
    var z := |fraction| - |kept|;
    assert whole + fraction == (whole + kept) + ZeroText(z);
    NumOfConcat(whole + kept, ZeroText(z));
    NumOfZeroText(z);
  }

  lemma SplitDigits(whole: string, fraction: string)
    requires AllDigits(whole + fraction)
    ensures AllDigits(whole) && AllDigits(fraction)
  {
    assert forall i :: 0 <= i < |whole| ==> whole[i] == (whole + fraction)[i];
    assert forall i :: 0 <= i < |fraction| ==> fraction[i] == (whole + fraction)[|whole| + i];
  }

  /** Neither end keeps a zero that says nothing. */
  lemma NoIdleZeros(sats: nat, places: nat, fraction: string)
    ensures var digits := PadLeft(Dec(sats), places + 1);
            |digits| - places > 1 ==> digits[0] != '0'
    ensures TrimZeros(fraction) != [] ==> TrimZeros(fraction)[|TrimZeros(fraction)| - 1] != '0'
  {
    hide Dec;
    TrimmedEnd(fraction);
    DecOfZero();
    assert sats != 0 ==> Dec(sats)[0] != '0';
  }

  lemma DecOfZero()
    ensures Dec(0) == "0"
  {
  }

  lemma {:induction false} TrimmedEnd(s: string)
    ensures TrimZeros(s) != [] ==> TrimZeros(s)[|TrimZeros(s)| - 1] != '0'
  {
    if s != [] && s[|s| - 1] == '0' {
      TrimmedEnd(s[..|s| - 1]);
    }
  }

  /** Whole units and what is left of them, with no idle zero at either end. */
  lemma FormatShape(sats: nat, places: nat) returns (whole: string, kept: string)
    ensures whole != [] && AllDigits(whole) && AllDigits(kept) && AllDigits(whole + kept) && |kept| <= places
    ensures FormatUnits(Dec(sats), places) == if kept == [] then whole else whole + ("." + kept)
    ensures NumOf(whole + kept) * Pow(10, places - |kept|) == sats
    ensures (kept != [] ==> kept[|kept| - 1] != '0') && (|whole| > 1 ==> whole[0] != '0')
  {
    hide PadLeft, Dec, NumOf, Pow, TrimZeros;
    var digits := PadLeft(Dec(sats), places + 1);
    PaddedDigits(sats, places + 1);
    NoIdleZeros(sats, places, digits[|digits| - places..]);
    var fraction := digits[|digits| - places..];
    whole, kept := digits[..|digits| - places], TrimZeros(fraction);
    assert whole + fraction == digits;
    SplitDigits(whole, fraction);
    DroppedZeros(whole, fraction);
  }

  /** Every satoshi amount of 64 bits survives being shown in whole coins and read back. */
  lemma SatoshiRoundTrip(sats: nat, hex: HexParser)
    requires sats <= U64_MAX
    ensures ParseBtc(FormatUnits(Dec(sats), 8), hex) == Success(sats)
  {
    var whole, kept := FormatShape(sats, 8);
    ReadBack(whole, kept, hex);
  }

  lemma UnitGrows(v: nat, places: nat)
    ensures v <= v * Pow(10, places)
  {
    PowPositive(10, places);
    TimesMonotone(1, Pow(10, places), v);
  }

  lemma ReadBack(whole: string, kept: string, hex: HexParser)
    requires whole != [] && AllDigits(whole) && AllDigits(kept) && AllDigits(whole + kept) && |kept| <= 8
    requires NumOf(whole + kept) * Pow(10, 8 - |kept|) <= U64_MAX
    ensures var text := if kept == [] then whole else whole + ("." + kept);
            ParseBtc(text, hex) == Success(NumOf(whole + kept) * Pow(10, 8 - |kept|))
  {
    hide Pow, NumOf, ParseBtc;
    UnitGrows(NumOf(whole + kept), 8 - |kept|);
    if kept == [] {
      assert whole + kept == whole;
      CoinIsPower();
      ParseWhole(whole, hex);
    } else {
      ParseFraction(whole, kept, hex);
    }
  }

  lemma CoinIsPower()
    ensures Pow(10, 8) == COIN
  {
  }

  lemma NotHex(s: string)
    requires |s| < 2 || s[1] != 'x'
    ensures !StartsWith(s, "0x")
  {
    assert |s| >= 2 ==> s[..2][1] == s[1];
  }

  lemma ParseWhole(whole: string, hex: HexParser)
    requires whole != [] && AllDigits(whole) && NumOf(whole) * COIN <= U64_MAX
    ensures ParseBtc(whole, hex) == Success(NumOf(whole) * COIN)
  {
    TrimKeeps(whole);
    NotHex(whole);
    assert '.' !in whole;
  }

  lemma ParseFraction(whole: string, kept: string, hex: HexParser)
    requires whole != [] && kept != [] && |kept| <= 8 && AllDigits(whole) && AllDigits(kept) && AllDigits(whole + kept)
    requires NumOf(whole + kept) <= U64_MAX && NumOf(whole + kept) * Pow(10, 8 - |kept|) <= U64_MAX
    ensures ParseBtc(whole + ("." + kept), hex) == Success(NumOf(whole + kept) * Pow(10, 8 - |kept|))
  {
    hide Pow, NumOf, ParsePointed, Trim, StartsWith, Find, ParseUnsigned;
    var s := whole + ("." + kept);
    assert s[0] == whole[0] && s[|s| - 1] == kept[|kept| - 1];
    assert |s| > 1 && s[1] != 'x';
    TrimKeeps(s);
    NotHex(s);
    PointSplits(whole, kept);
    ParsePointedDigits(whole, kept);
  }

  lemma ParsePointedDigits(whole: string, kept: string)
    requires whole != [] && AllDigits(whole + kept) && |kept| <= 8 && NumOf(whole + kept) <= U64_MAX
    requires NumOf(whole + kept) * Pow(10, 8 - |kept|) <= U64_MAX
    ensures ParsePointed(whole, kept) == Success(NumOf(whole + kept) * Pow(10, 8 - |kept|))
  {
    hide Pow, NumOf;
    assert (whole + kept)[0] == whole[0];
  }

  // ---- Amount texts ----

  const MAX_LEN := 128

  /** A resolved amount: its significand and how many of its decimals are fractional. */
  datatype Number = Number(value: int, exp: nat)

  function Magnitude(v: int): nat {
    if v < 0 then -v else v
  }

  function Sign(v: int): string {
    if v < 0 then "-" else ""
  }

  function ToDisplayString(a: Number): string {
    var mag := Dec(Magnitude(a.value));
    if a.exp == 0 then Sign(a.value) + mag
    else if |mag| > a.exp then Sign(a.value) + mag[..|mag| - a.exp] + ("." + mag[|mag| - a.exp..])
    else if |mag| < a.exp then Sign(a.value) + "0" + ("." + (ZeroText(a.exp - |mag|) + mag))
    else Sign(a.value) + "0" + ("." + mag)
  }

  datatype TextError = TooLong | BadExponent | NotANumber

  /** Where an exponent mark first occurs. */
  function FindExponent(s: string): Option<nat> {
    match (Find(s, 'e'), Find(s, 'E'))
    case (None, r) => r
    case (Some(i), None) => Some(i)
    case (Some(i), Some(j)) => Some(if i < j then i else j)
  }

  /** Scientific notation scales by `10^-e`; a negative exponent goes into the significand. */
  function Scaled(v: int, e: int): Number {
    if e < 0 then Number(v * Pow(10, -e), 0) else Number(v, e)
  }

  function ParseI64(s: string): Option<int> {
    var v := ParseBigInt(s);
    if v.Some? && -0x8000_0000_0000_0000 <= v.value < 0x8000_0000_0000_0000 then v else None
  }

  function FromString(text: string): Result<Number, TextError> {
    if |text| > MAX_LEN then Failure(TooLong)
    else
      var mark := FindExponent(text);
      var power := if mark.None? then Some(0) else ParseI64(text[mark.value + 1..]);
      if power.None? then Failure(BadExponent)
      else
        var s := if mark.None? then text else text[..mark.value];
        FromPlain(s, power.value)
  }

  /** A numeral without an exponent mark, times ten to the `power`. */
  function FromPlain(s: string, power: int): Result<Number, TextError> {
    match Find(s, '.')
    case None =>
      (match ParseBigInt(s)
       case None => Failure(NotANumber)
       case Some(v) => Success(Scaled(v, -power)))
    case Some(p) =>
      match ParseBigInt(s[..p] + s[p + 1..])
      case None => Failure(NotANumber)
      case Some(v) => Success(Scaled(v, |s| - p - 1 - power))
  }

  /** A sign and digits parse to the number they write, whatever zeros lead. */
  lemma ParseSigned(v: int, digits: string)
    requires digits != [] && AllDigits(digits) && NumOf(digits) == Magnitude(v)
    ensures ParseBigInt(Sign(v) + digits) == Some(v)
  {
    if v < 0 {
      assert (Sign(v) + digits)[1..] == digits;
    } else {
      assert Sign(v) + digits == digits;
    }
  }

  /** The digits before and after the point. */
  function Whole(a: Number): string {
    var mag := Dec(Magnitude(a.value));
    if |mag| > a.exp then mag[..|mag| - a.exp] else "0"
  }

  function Fraction(a: Number): string {
    var mag := Dec(Magnitude(a.value));
    if |mag| > a.exp then mag[|mag| - a.exp..] else ZeroText(a.exp - |mag|) + mag
  }

  /** They are digits that together write the significand. */
  lemma DisplayDigits(a: Number)
    ensures Whole(a) != [] && AllDigits(Whole(a)) && AllDigits(Fraction(a)) && |Fraction(a)| == a.exp
    ensures AllDigits(Whole(a) + Fraction(a)) && NumOf(Whole(a) + Fraction(a)) == Magnitude(a.value)
  {
    hide Dec, NumOf, Magnitude;
    var mag := Dec(Magnitude(a.value));
    NumOfDec(Magnitude(a.value));
    if |mag| > a.exp {
      assert Whole(a) + Fraction(a) == mag;
    } else {
      var z := a.exp - |mag|;
      assert Whole(a) + Fraction(a) == ZeroText(z + 1) + mag;
      NumOfPadded(z + 1, mag);
    }
  }

  lemma DisplayShape(a: Number)
    ensures a.exp == 0 ==> ToDisplayString(a) == Sign(a.value) + Whole(a)
    ensures a.exp != 0 ==> ToDisplayString(a) == Sign(a.value) + Whole(a) + ("." + Fraction(a))
  {
    var mag := Dec(Magnitude(a.value));
    if a.exp == 0 {
      assert mag[..|mag|] == mag;
    } else if |mag| == a.exp {
      assert ZeroText(0) + mag == mag;
    }
  }

  /** An amount survives its text, significand and exponent, exactly when the text fits the parser's length limit. */
  lemma AmountTextRoundTripIff(a: Number)
    ensures FromString(ToDisplayString(a)) == Success(a) <==> |ToDisplayString(a)| <= MAX_LEN
  {
    if |ToDisplayString(a)| <= MAX_LEN {
      DisplayShape(a);
      DisplayDigits(a);
      ParseSigned(a.value, Whole(a) + Fraction(a));
      if a.exp == 0 {
        assert Whole(a) + Fraction(a) == Whole(a);
        ParseWithoutPoint(a.value, Whole(a));
      } else {
        ParseWithPoint(a.value, Whole(a), Fraction(a));
      }
    }
  }

  lemma ParseWithoutPoint(v: int, whole: string)
    requires AllDigits(whole) && ParseBigInt(Sign(v) + whole) == Some(v) && |Sign(v) + whole| <= MAX_LEN
    ensures FromString(Sign(v) + whole) == Success(Number(v, 0))
  {
    hide FromString;
    ParseInteger(Sign(v) + whole, v);
  }

  lemma ParseWithPoint(v: int, whole: string, fraction: string)
    requires AllDigits(whole) && AllDigits(fraction) && ParseBigInt(Sign(v) + (whole + fraction)) == Some(v)
    requires |Sign(v) + whole + ("." + fraction)| <= MAX_LEN
    ensures FromString(Sign(v) + whole + ("." + fraction)) == Success(Number(v, |fraction|))
  {
    hide FromString, ParseBigInt;
    var front := Sign(v) + whole;
    assert front + fraction == Sign(v) + (whole + fraction);
    ParsePoint(front, fraction, v);
  }

  predicate Plain(c: char) {
    IsDigit(c) || c == '-' || c == '.'
  }

  lemma Unmarked(s: string)
    requires |s| <= MAX_LEN && forall i :: 0 <= i < |s| ==> Plain(s[i])
    ensures FromString(s) == FromPlain(s, 0)
  {
    assert 'e' !in s && 'E' !in s;
  }

  lemma ParseInteger(front: string, v: int)
    requires forall i :: 0 <= i < |front| ==> Plain(front[i]) && front[i] != '.'
    requires ParseBigInt(front) == Some(v) && |front| <= MAX_LEN
    ensures FromString(front) == Success(Number(v, 0))
  {
    Unmarked(front);
    assert '.' !in front;
  }

  lemma ParsePoint(front: string, fraction: string, v: int)
    requires (forall i :: 0 <= i < |front| ==> Plain(front[i]) && front[i] != '.') && AllDigits(fraction)
    requires ParseBigInt(front + fraction) == Some(v) && |front + ("." + fraction)| <= MAX_LEN
    ensures FromString(front + ("." + fraction)) == Success(Number(v, |fraction|))
  {
    Unmarked(front + ("." + fraction));
    FromPlainPoint(front, fraction, v);
  }

  lemma FromPlainPoint(front: string, fraction: string, v: int)
    requires '.' !in front && ParseBigInt(front + fraction) == Some(v)
    ensures FromPlain(front + ("." + fraction), 0) == Success(Number(v, |fraction|))
  {
    PointSplits(front, fraction);
  }

  lemma PointSplits(front: string, fraction: string)
    requires '.' !in front
    ensures var s := front + ("." + fraction);
            Find(s, '.') == Some(|front|) && s[..|front|] == front && s[|front| + 1..] == fraction
  {
    var s := front + ("." + fraction);
    assert s[..|front|] == front;
    FindIs(s, '.', |front|);
  }

  // ---- scientific notation ----

  lemma MarkSplits(front: string, mark: char, tail: string)
    requires (mark == 'e' || mark == 'E') && 'e' !in front && 'E' !in front
    ensures var s := front + ([mark] + tail);
            FindExponent(s) == Some(|front|) && s[..|front|] == front && s[|front| + 1..] == tail
  {
    var s := front + ([mark] + tail);
    assert s[..|front|] == front && s[|front|] == mark && s[|front| + 1..] == tail;
    FindIs(s, mark, |front|);
    FirstMark(s, mark, |front|);
  }

  /** The other mark, if there is one, comes later. */
  lemma FirstMark(s: string, mark: char, i: nat)
    requires (mark == 'e' || mark == 'E') && Find(s, mark) == Some(i) && 'e' !in s[..i] && 'E' !in s[..i]
    ensures FindExponent(s) == Some(i)
  {
    NotEarlier(s, if mark == 'e' then 'E' else 'e', i);
  }

  lemma NotEarlier(s: string, c: char, i: nat)
    requires i <= |s| && c !in s[..i]
    ensures Find(s, c).Some? ==> i <= Find(s, c).value
  {
    assert forall k :: 0 <= k < i ==> s[..i][k] == s[k];
  }

  /**
    A numeral with `places` digits after its point and an exponent `k` keeps its digits: the point moves by `k`, and
    where it would move past the last digit, zeros are appended.
  */
  lemma ScientificMeans(v: int, whole: string, fraction: string, mark: char, tail: string, k: int)
    requires mark == 'e' || mark == 'E'
    requires whole != "" && AllDigits(whole) && AllDigits(fraction) && AllDigits(whole + fraction)
    requires NumOf(whole + fraction) == Magnitude(v) && ParseI64(tail) == Some(k)
    requires |Sign(v) + whole + ("." + fraction) + ([mark] + tail)| <= MAX_LEN
    ensures var r := FromString(Sign(v) + whole + ("." + fraction) + ([mark] + tail));
            && r.Success?
            && (k <= |fraction| ==> r.value == Number(v, |fraction| - k))
            && (k > |fraction| ==> r.value == Number(v * Pow(10, k - |fraction|), 0))
  {
    hide Pow, ParseI64, ParseBigInt, FindExponent, NumOf;
    var front := Sign(v) + whole;
    var plain := front + ("." + fraction);
    assert 'e' !in plain && 'E' !in plain by {
      NoMark(front, fraction);
    }
    MarkSplits(plain, mark, tail);
    assert front + fraction == Sign(v) + (whole + fraction);
    ParseSigned(v, whole + fraction);
    PlainMeans(front, fraction, v, k);
  }

  lemma NoMark(front: string, fraction: string)
    requires (forall i :: 0 <= i < |front| ==> Plain(front[i])) && AllDigits(fraction)
    ensures 'e' !in front + ("." + fraction) && 'E' !in front + ("." + fraction)
  {
  }

  lemma PlainMeans(front: string, fraction: string, v: int, k: int)
    requires '.' !in front && ParseBigInt(front + fraction) == Some(v)
    ensures FromPlain(front + ("." + fraction), k)
         == Success(if k <= |fraction| then Number(v, |fraction| - k) else Number(v * Pow(10, k - |fraction|), 0))
  {
    hide Pow, ParseBigInt;
    PointSplits(front, fraction);
  }

  // ---- why a text is refused ----

  predicate Unsigned(s: string) {
    var digits := if s != [] && s[0] == '+' then s[1..] else s;
    digits != [] && AllDigits(digits) && NumOf(digits) <= U64_MAX
  }

  /** Without a point: no 64-bit number, or too many coins for 64 bits of satoshi. */
  lemma WholeRefused(text: string, hex: HexParser)
    requires !StartsWith(Trim(text), "0x") && '.' !in Trim(text)
    ensures var s, r := Trim(text), ParseBtc(text, hex);
            && (r == Failure(BadInt) <==> !Unsigned(s))
            && (r.Failure? && Unsigned(s) ==> r.error == Overflow)
            && (r.Success? ==> r.value <= U64_MAX)
  {
    hide Trim, StartsWith, NumOf;
  }

  /** With a point: more than eight decimals, then digits that are no 64-bit number, then too many satoshi. */
  lemma PointedRefused(whole: string, frac: string)
    ensures var r := ParsePointed(whole, frac);
            && (r == Failure(TooManyDecimals) <==> |frac| > 8)
            && (r == Failure(BadDecimal) <==> |frac| <= 8 && !Unsigned(whole + frac))
            && (r.Failure? && |frac| <= 8 && Unsigned(whole + frac) ==> r.error == Overflow)
            && (r.Success? ==> r.value <= U64_MAX)
  {
    hide Pow, NumOf;
  }

  /** Too long, then an exponent that is no 64-bit number, then digits that are no number. */
  lemma TextRefused(text: string)
    ensures var mark, r := FindExponent(text), FromString(text);
            var bad := mark.Some? && ParseI64(text[mark.value + 1..]).None?;
            && (r == Failure(TooLong) <==> |text| > MAX_LEN)
            && (r == Failure(BadExponent) <==> |text| <= MAX_LEN && bad)
            && (r.Failure? && |text| <= MAX_LEN && !bad ==> r.error == NotANumber)
  {
    hide FindExponent, ParseI64, ParseBigInt, Pow, Scaled;
  }
}
