/** The binary form of an amount (rust/src/amount.rs): a version, a zigzag varint exponent, a big-endian magnitude. */
module AmountCodec {
  import opened Wrappers
  import opened Radix
  import opened FixedPoint

  const TWO_63 := 0x8000_0000_0000_0000
  const TWO_64 := 0x1_0000_0000_0000_0000

  type I64 = x: int | -TWO_63 <= x < TWO_63
  type U64 = n: nat | n < TWO_64

  // ---- zigzag ----

  /** `((x << 1) ^ (x >> 63)) as u64`: the shift drops the top bit, the mask is all ones for a negative number. */
  function ZigZag(x: I64): U64 {
    var shifted := (2 * x) % TWO_64;
    if x < 0 then TWO_64 - 1 - shifted else shifted
  }

  /** `((ux >> 1) as i64) ^ -((ux & 1) as i64)`. */
  function UnZigZag(ux: U64): I64 {
    if ux % 2 == 0 then ux / 2 else -(ux / 2) - 1
  }

  lemma ZigZagRoundTrip(x: I64)
    ensures UnZigZag(ZigZag(x)) == x
  {
    if x < 0 {
      assert (2 * x) % TWO_64 == 2 * x + TWO_64;
    }
  }

  // ---- varints ----

  method PutVarint(buf: Bytes, x: I64) returns (out: Bytes)
    ensures out == buf + Varint(ZigZag(x))
  {
    out := buf;
    var ux := ZigZag(x);
    hide ZigZag, Varint;
    while ux >= 128
      invariant 0 <= ux && out + Varint(ux) == buf + Varint(ZigZag(x))
    {
      OneGroup(ux);
      out := out + [ux % 256 % 128 + 128];
      ux := ux / 128;
    }
    LastGroup(ux);
    out := out + [ux];
  }

  lemma OneGroup(ux: nat)
    requires ux >= 128
    ensures ux / 128 >= 0 && [ux % 256 % 128 + 128] + Varint(ux / 128) == Varint(ux)
  {
    SevenOfEight(ux);
  }

  lemma SevenOfEight(ux: nat)
    ensures ux % 256 % 128 == ux % 128
  {
    SameResidue(ux % 256, ux, -(ux / 256 * 2), 128);
  }

  lemma LastGroup(ux: nat)
    requires ux < 128
    ensures Varint(ux) == [ux]
  {
  }

  /** The weight of byte `i`. */
  function Weight(i: nat): (w: nat)
    ensures w > 0
  {
    PowPositive(2, 7 * i);
    Pow(2, 7 * i)
  }

  lemma Weights(i: nat)
    requires i <= 9
    ensures 0 < Weight(i) <= TWO_63 && Weight(i + 1) == 128 * Weight(i)
    ensures i < 9 ==> Weight(i + 1) <= TWO_63
    ensures i == 9 ==> Weight(i) == TWO_63
  {
    PowPositive(2, 7 * i);
    SevenMore(7 * i);
    PowOf63();
    hide Pow;
    PowMonotone(2, 7 * i, 63);
    if i < 9 {
      PowMonotone(2, 7 * i + 7, 63);
    }
  }

  lemma SevenMore(n: nat)
    ensures Pow(2, n + 7) == 128 * Pow(2, n)
  {
    PowAdd(2, 7, n);
    assert Pow(2, 7) == 128;
  }

  lemma PowOf63()
    ensures Pow(2, 63) == TWO_63
  {
    SevenMore(56);
    SevenMore(49);
    SevenMore(42);
    SevenMore(35);
    SevenMore(28);
    SevenMore(21);
    SevenMore(14);
    SevenMore(7);
    assert Pow(2, 7) == 128;
  }

  /** `acc | ((b & 0x7f) << shift)` in 64 bits: the bits do not overlap, and any shifted past the top are lost. */
  function OrShifted(acc: nat, b: byte, i: nat): nat {
    acc + (b % 128 * Weight(i)) % TWO_64
  }

  lemma OrFits(acc: nat, b: byte, i: nat)
    requires i <= 9 && acc < Weight(i)
    ensures OrShifted(acc, b, i) < TWO_64 && (i < 9 ==> OrShifted(acc, b, i) < Weight(i + 1))
    ensures i < 9 ==> OrShifted(acc, b, i) == acc + b % 128 * Weight(i)
  {
    Weights(i);
    hide Weight;
    if i == 9 {
      TopBit(b % 128);
    } else {
      TimesMonotone(b % 128, 127, Weight(i));
      Small(b % 128 * Weight(i));
    }
  }

  lemma TopBit(m: nat)
    ensures (m * TWO_63) % TWO_64 <= TWO_63
  {
  }

  lemma Small(n: nat)
    requires n < TWO_64
    ensures n % TWO_64 == n
  {
  }

  /** Reading from byte `i` on, with `acc` read so far. */
  ghost function ReadFrom(data: Bytes, i: nat, acc: nat): (r: Option<(I64, nat)>)
    requires i > 9 || acc < Weight(i)
    ensures r.Some? ==> i < r.value.1 <= |data| && r.value.1 <= 10
    decreases |data| - i
  {
    if i >= |data| || i > 9 then None
    else
      OrFits(acc, data[i], i);
      var now := OrShifted(acc, data[i], i);
      if data[i] >= 128 then ReadFrom(data, i + 1, now)
      else if i == 9 && data[i] > 1 then None
      else Some((UnZigZag(now), i + 1))
  }

  method ReadVarint(data: Bytes) returns (r: Option<(I64, nat)>)
    ensures r == ReadFrom(data, 0, 0)
  {
    hide Weight, OrShifted, UnZigZag;
    var ux, shift := 0, 0;
    for i := 0 to |data|
      invariant shift == 7 * i && 0 <= ux && (i > 9 || ux < Weight(i))
      invariant ReadFrom(data, i, ux) == ReadFrom(data, 0, 0)
    {
      if i > 9 {
        return None;
      }
      var b := data[i];
      assert shift < 64;
      OrFits(ux, b, i);
      if b < 128 {
        if i == 9 && b > 1 {
          return None;
        }
        return Some((UnZigZag(OrShifted(ux, b, i)), i + 1));
      }
      ux := OrShifted(ux, b, i);
      shift := shift + 7;
    }
    return None;
  }

  /**
    A varint is self-delimiting: read back with any bytes after it, it gives the number and its own length, in at most
    ten bytes.
  */
  lemma {:induction false} ReadOfVarint(u: nat, before: Bytes, rest: Bytes, acc: nat)
    requires |before| <= 9 && acc < Weight(|before|) && acc + u * Weight(|before|) < TWO_64
    ensures |before| + |Varint(u)| <= 10
    ensures ReadFrom(before + Varint(u) + rest, |before|, acc)
         == Some((UnZigZag(acc + u * Weight(|before|)), |before| + |Varint(u)|))
  {
    hide Weight, UnZigZag;
    var i := |before|;
    var data := before + Varint(u) + rest;
    Weights(i);
    if u < 128 {
      LastByte(acc, u, i);
      assert data[i] == u;
    } else {
      var b := u % 128 + 128;
      MiddleByte(acc, u, i);
      assert data == (before + [b]) + Varint(u / 128) + rest;
      assert data[i] == b;
      ReadOfVarint(u / 128, before + [b], rest, OrShifted(acc, b, i));
    }
  }

  lemma LastByte(acc: nat, u: nat, i: nat)
    requires i <= 9 && u < 128 && acc < Weight(i) && acc + u * Weight(i) < TWO_64
    ensures OrShifted(acc, u, i) == acc + u * Weight(i) && (i == 9 ==> u <= 1)
  {
    Weights(i);
    hide Weight;
    if i == 9 {
      LastBit(acc, u);
    } else {
      SmallGroup(u);
      OrFits(acc, u, i);
    }
  }

  lemma SmallGroup(u: nat)
    requires u < 128
    ensures u % 128 == u
  {
  }

  lemma LastBit(acc: nat, u: nat)
    requires u < 128 && acc < TWO_63 && acc + u * TWO_63 < TWO_64
    ensures u <= 1 && acc + (u % 128 * TWO_63) % TWO_64 == acc + u * TWO_63
  {
  }

  lemma MiddleByte(acc: nat, u: nat, i: nat)
    requires i <= 9 && u >= 128 && acc < Weight(i) && acc + u * Weight(i) < TWO_64
    ensures i < 9 && OrShifted(acc, u % 128 + 128, i) < Weight(i + 1)
    ensures OrShifted(acc, u % 128 + 128, i) + (u / 128) * Weight(i + 1) == acc + u * Weight(i)
  {
    NotLast(acc, u, i);
    Weights(i);
    hide Weight, OrShifted;
    OrFits(acc, u % 128 + 128, i);
    LowBits(u);
    SplitDigit(u / 128, u % 128, Weight(i));
  }

  lemma LowBits(u: nat)
    ensures (u % 128 + 128) % 128 == u % 128 && u == u / 128 * 128 + u % 128 && u / 128 >= 0
  {
  }

  lemma NotLast(acc: nat, u: nat, i: nat)
    requires i <= 9 && u >= 128 && acc + u * Weight(i) < TWO_64
    ensures i < 9
  {
    Weights(i);
    hide Weight;
    TimesMonotone(128, u, Weight(i));
  }

  lemma SplitDigit(q: nat, r: nat, w: nat)
    ensures (q * 128 + r) * w == q * (128 * w) + r * w
  {
  }

  /** Every 64-bit exponent is read back, whatever follows it. */
  lemma ReadOfPut(x: I64, rest: Bytes)
    ensures ReadFrom(Varint(ZigZag(x)) + rest, 0, 0) == Some((x, |Varint(ZigZag(x))|))
    ensures 1 <= |Varint(ZigZag(x))| <= 10
  {
    ZigZagRoundTrip(x);
    assert Weight(0) == 1;
    hide ZigZag, UnZigZag, ReadFrom, Weight;
    ReadOfVarint(ZigZag(x), [], rest, 0);
    assert [] + Varint(ZigZag(x)) == Varint(ZigZag(x));
  }

  // ---- whole amounts ----

  datatype Error = TooShort | InvalidVersion | InvalidEncoding | MissingSign

  /** num-bigint's magnitude of zero is one zero byte. */
  function Magnitude(n: nat): Bytes {
    if n == 0 then [0] else Minimal(n, 256)
  }

  ghost function ToBytes(a: Resolved): Bytes
    requires -TWO_63 <= a.exp < TWO_63
  {
    match a.value
    case Some(v) =>
      if v < 0 then [1] + Varint(ZigZag(a.exp)) + [1] + Magnitude(-v)
      else if v == 0 then [0] + Varint(ZigZag(a.exp))
      else [0] + Varint(ZigZag(a.exp)) + Magnitude(v)
    case None => [0] + Varint(ZigZag(a.exp))
  }

  ghost function FromBytes(data: Bytes): Result<Resolved, Error> {
    if |data| < 2 then Failure(TooShort)
    else if data[0] != 0 && data[0] != 1 then Failure(InvalidVersion)
    else
      match ReadFrom(data[1..], 0, 0)
      case None => Failure(InvalidEncoding)
      case Some((exp, n)) => FromRest(data[0], exp, data[1 + n..])
  }

  function FromRest(version: byte, exp: int, rest: Bytes): Result<Resolved, Error> {
    if version == 0 then Success(Resolved(Some(Value(rest, 256)), exp, false))
    else if rest == [] then Failure(MissingSign)
    else
      var v: int := Value(rest[1..], 256);
      Success(Resolved(Some(if rest[0] == 1 then -v else v), exp, false))
  }

  method Encode(a: Resolved) returns (buf: Bytes)
    requires -TWO_63 <= a.exp < TWO_63
    ensures buf == ToBytes(a)
  {
    hide ZigZag;
    if a.value.Some? && a.value.value < 0 {
      buf := PutVarint([1], a.exp);
      buf := buf + [1];
      buf := buf + Magnitude(-a.value.value);
      return;
    }
    buf := PutVarint([0], a.exp);
    if a.value.Some? && a.value.value != 0 {
      buf := buf + Magnitude(a.value.value);
    }
  }

  method Decode(data: Bytes) returns (r: Result<Resolved, Error>)
    ensures r == FromBytes(data)
  {
    if |data| < 2 {
      return Failure(TooShort);
    }
    if data[0] != 0 && data[0] != 1 {
      return Failure(InvalidVersion);
    }
    var exp := ReadVarint(data[1..]);
    if exp.None? {
      return Failure(InvalidEncoding);
    }
    return FromRest(data[0], exp.value.0, data[1 + exp.value.1..]);
  }

  lemma MagnitudeValue(n: nat)
    ensures Value(Magnitude(n), 256) == n
  {
    if n > 0 {
      ValueOfMinimal(n, 256);
    }
  }

  /** A version, an exponent and any remaining bytes are taken apart again. */
  lemma FromParts(version: byte, exp: I64, rest: Bytes)
    requires version <= 1
    ensures FromBytes([version] + Varint(ZigZag(exp)) + rest) == FromRest(version, exp, rest)
  {
    ReadOfPut(exp, rest);
    hide ReadFrom, ZigZag, Varint, FromRest;
    var v := Varint(ZigZag(exp));
    var data := [version] + v + rest;
    assert data[1..] == v + rest && data[1 + |v|..] == rest;
  }

  lemma NegativeParts(exp: I64, n: nat)
    requires n > 0
    ensures FromBytes([1] + Varint(ZigZag(exp)) + [1] + Magnitude(n))
         == Success(Resolved(Some(-(n as int)), exp, false))
  {
    hide ZigZag, Varint, FromBytes, Value, Magnitude;
    var rest := [1] + Magnitude(n);
    FromParts(1, exp, rest);
    MagnitudeValue(n);
    assert rest[1..] == Magnitude(n);
    assert [1] + Varint(ZigZag(exp)) + rest == [1] + Varint(ZigZag(exp)) + [1] + Magnitude(n);
  }

  lemma ZeroParts(exp: I64)
    ensures FromBytes([0] + Varint(ZigZag(exp))) == Success(Resolved(Some(0), exp, false))
  {
    hide ZigZag, Varint, FromBytes;
    FromParts(0, exp, []);
    assert [0] + Varint(ZigZag(exp)) + [] == [0] + Varint(ZigZag(exp));
  }

  lemma PositiveParts(exp: I64, n: nat)
    ensures FromBytes([0] + Varint(ZigZag(exp)) + Magnitude(n)) == Success(Resolved(Some(n), exp, false))
  {
    hide ZigZag, Varint, FromBytes, Value, Magnitude;
    FromParts(0, exp, Magnitude(n));
    MagnitudeValue(n);
  }

  /**
    An amount of either sign survives its binary form exactly when it is resolved: an unresolved MAX is written like
    zero and comes back as zero.
  */
  lemma BytesRoundTripIff(a: Resolved)
    requires -TWO_63 <= a.exp < TWO_63
    ensures FromBytes(ToBytes(a)) == Success(a) <==> a.value.Some? && !a.isMax
    ensures FromBytes(ToBytes(a)) == Success(Resolved(Some(a.value.GetOr(0)), a.exp, false))
  {
    hide ZigZag, Varint, FromBytes, Value, Magnitude;
    var v := a.value.GetOr(0);
    if v < 0 {
      NegativeParts(a.exp, -v);
    } else if v == 0 {
      ZeroParts(a.exp);
    } else {
      PositiveParts(a.exp, v);
    }
  }

  // ---- what the bytes say, read without the codec ----

  /** Non-negative exponents are the even numbers, negative ones the odd. */
  lemma ZigZagIs(x: I64)
    ensures ZigZag(x) == if x >= 0 then 2 * x else -2 * x - 1
  {
  }

  /**
    A version that is 1 exactly for a negative amount, the exponent in seven-bit groups, a sign byte for a negative
    amount only, and the magnitude from its highest byte on; nothing for zero or an unresolved MAX.
  */
  lemma BytesSay(a: Resolved) returns (groups: Bytes, magnitude: Bytes)
    requires -TWO_63 <= a.exp < TWO_63
    ensures var v := a.value.GetOr(0);
            && ToBytes(a) == [if v < 0 then 1 else 0] + groups + (if v < 0 then [1] else []) + magnitude
            && SevenBitValue(groups) == (if a.exp >= 0 then 2 * a.exp else -2 * a.exp - 1)
            && groups != [] && groups[|groups| - 1] < 128 && (forall i :: 0 <= i < |groups| - 1 ==> groups[i] >= 128)
            && Places(magnitude, 256) == Abs(v) && (magnitude != [] ==> magnitude[0] != 0)
  {
    hide ZigZag, Varint, Value, Places, SevenBitValue, Minimal;
    ZigZagIs(a.exp);
    VarintMeans(ZigZag(a.exp));
    groups := Varint(ZigZag(a.exp));
    var v := a.value.GetOr(0);
    magnitude := if v == 0 then [] else Minimal(Abs(v), 256);
    MagnitudeSays(Abs(v));
  }

  lemma MagnitudeSays(n: nat)
    ensures Places([], 256) == 0
    ensures n > 0 ==> Places(Minimal(n, 256), 256) == n && Minimal(n, 256) != [] && Minimal(n, 256)[0] != 0
  {
    ValueOfMinimal(n, 256);
    ValueIsPlaces(Minimal(n, 256), 256);
    NoLeadingZero(n);
  }

  lemma {:induction false} NoLeadingZero(n: nat)
    ensures n > 0 ==> Minimal(n, 256) != [] && Minimal(n, 256)[0] != 0
  {
    if n >= 256 {
      DivMod(n, 256);
      NoLeadingZero(n / 256);
    }
  }

  // ---- why bytes are refused ----

  /** Fewer than two bytes, then an unknown version, then an unreadable exponent, then a missing sign byte. */
  lemma BytesRefused(data: Bytes)
    ensures var r := FromBytes(data);
            var exp := if data == [] then None else ReadFrom(data[1..], 0, 0);
            && (r == Failure(TooShort) <==> |data| < 2)
            && (r == Failure(InvalidVersion) <==> |data| >= 2 && data[0] > 1)
            && (r == Failure(InvalidEncoding) <==> |data| >= 2 && data[0] <= 1 && exp.None?)
            && (r == Failure(MissingSign) <==>
                  |data| >= 2 && data[0] == 1 && exp.Some? && |data| == 1 + exp.value.1)
  {
    hide ReadFrom, Value;
  }

  /** What the accepted bytes mean: version 1 negates on a sign byte of one and on no other. */
  lemma BytesMean(data: Bytes)
    requires FromBytes(data).Success?
    ensures |data| >= 2 && data[0] <= 1 && ReadFrom(data[1..], 0, 0).Some?
    ensures var (exp, n) := ReadFrom(data[1..], 0, 0).value;
            var a, rest := FromBytes(data).value, data[1 + n..];
            && a.exp == exp && !a.isMax
            && (data[0] == 0 ==> a.value == Some(Places(rest, 256)))
            && (data[0] == 1 ==>
                  && rest != []
                  && a.value == Some(if rest[0] == 1 then 0 - Places(rest[1..], 256) else Places(rest[1..], 256)))
  {
    hide ReadFrom, Value, Places;
    var rest := data[1 + ReadFrom(data[1..], 0, 0).value.1..];
    ValueIsPlaces(rest, 256);
    if rest != [] {
      ValueIsPlaces(rest[1..], 256);
    }
  }
}
