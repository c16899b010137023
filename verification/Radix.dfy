/**
  Fixed-width big-endian digits in any base. The same four laws carry the byte strings of the key and amount
  codecs, the bit groups of BIP-39, the base58 blocks and the decimal texts.
*/
module Radix {

  type byte = b: int | 0 <= b < 256
  type Bytes = seq<byte>

  /** Thirty-two bytes: a hash, a key, a chain code or a word of typed data. */
  type Word = b: Bytes | |b| == 32 witness seq(32, i => 0)

  function Pow(b: nat, e: nat): nat {
    if e == 0 then 1 else b * Pow(b, e - 1)
  }

  ghost predicate Digits(ds: seq<nat>, b: nat) {
    forall i :: 0 <= i < |ds| ==> ds[i] < b
  }

  /** The number written by `ds` in base `b`, most significant digit first. */
  function Value(ds: seq<nat>, b: nat): nat {
    if ds == [] then 0 else Value(ds[..|ds| - 1], b) * b + ds[|ds| - 1]
  }

  /** The low `w` digits of `n`. */
  function Fixed(n: nat, b: nat, w: nat): (ds: seq<nat>)
    requires b > 0
    ensures |ds| == w && Digits(ds, b)
    decreases w
  {
    DivMod(n, b);
    if w == 0 then [] else Fixed(n / b, b, w - 1) + [n % b]
  }

  /** The digits of `n` with no leading zero; none for zero. */
  function Minimal(n: nat, b: nat): (ds: seq<nat>)
    requires b > 1
    ensures Digits(ds, b)
    ensures ds != [] ==> ds[0] != 0
    ensures ds == [] <==> n == 0
  {
    DivMod(n, b);
    if n == 0 then
      []
    else
      QuotientSmaller(n, b);
      Minimal(n / b, b) + [n % b]
  }

  /** Seven bits a byte, least significant first, the top bit set on all but the last. */
  function Varint(n: nat): (b: Bytes)
    ensures |b| >= 1
  {
    if n < 128 then [n] else [n % 128 + 128] + Varint(n / 128)
  }

  // ---- multiplication and division facts, one product at a time ----

  lemma TimesAtLeast(k: int, b: int)
    requires k >= 1 && b >= 0
    ensures k * b >= b
  {
  }

  lemma TimesMonotone(x: nat, y: nat, b: nat)
    requires x <= y
    ensures x * b <= y * b
  {
    Distribute(y, x, b);
    if x < y {
      TimesAtLeast(y - x, b);
    }
  }

  lemma TimesAssociate(a: nat, b: nat, c: nat)
    ensures a * (b * c) == (a * b) * c
  {
  }

  lemma Distribute(q: int, p: int, b: int)
    ensures (q - p) * b == q * b - p * b
  {
  }

  lemma DivMod(n: nat, b: nat)
    requires b > 0
    ensures n == (n / b) * b + n % b
    ensures n / b >= 0 && 0 <= n % b < b
  {
  }

  /** A quotient and a remainder in range are the quotient and the remainder. */
  lemma DivModUnique(q: nat, r: nat, b: nat)
    requires r < b
    ensures (q * b + r) / b == q && (q * b + r) % b == r
  {
    var n := q * b + r;
    DivMod(n, b);
    Distribute(q, n / b, b);
    Distribute(n / b, q, b);
    if q > n / b {
      TimesAtLeast(q - n / b, b);
    } else if q < n / b {
      TimesAtLeast(n / b - q, b);
    }
  }

  lemma ResidueIs(a: int, q: int, r: nat, n: nat)
    requires r < n && a == q * n + r
    ensures a % n == r
  {
    var s := a % n;
    assert a == (a / n) * n + s;
    Distribute(a / n, q, n);
    Distribute(q, a / n, n);
    if a / n > q {
      TimesAtLeast(a / n - q, n);
    } else if a / n < q {
      TimesAtLeast(q - a / n, n);
    }
  }

  /** Numbers a multiple of `n` apart leave the same remainder. */
  lemma SameResidue(a: int, b: int, k: int, n: nat)
    requires n > 0 && a == b + k * n
    ensures a % n == b % n
  {
    var q, r := b / n, b % n;
    assert b == q * n + r;
    Distribute(q, -k, n);
    ResidueIs(a, q + k, r, n);
  }

  lemma QuotientSmaller(n: nat, b: nat)
    requires b > 1 && n > 0
    ensures 0 <= n / b < n
  {
    DivMod(n, b);
    var q := n / b;
    if q >= n {
      assert q * b >= q * 2 by {
        TimesMonotone(2, b, q);
      }
    }
  }

  /** Dividing a number below `p * b` by `b` leaves one below `p`. */
  lemma QuotientBound(n: nat, b: nat, p: nat)
    requires b > 0 && n < p * b
    ensures n / b < p
  {
    DivMod(n, b);
    if n / b >= p {
      TimesMonotone(p, n / b, b);
    }
  }

  /** Appending a digit to a number below `p` gives one below `b * p`. */
  lemma AppendBound(v: nat, digit: nat, b: nat, p: nat)
    requires v < p && digit < b
    ensures v * b + digit < b * p
  {
    TimesMonotone(v + 1, p, b);
    Distribute(v + 1, 1, b);
  }

  // ---- powers ----

  lemma {:induction false} PowPositive(b: nat, e: nat)
    requires b > 0
    ensures Pow(b, e) > 0
  {
    if e > 0 {
      PowPositive(b, e - 1);
    }
  }

  lemma {:induction false} PowAdd(b: nat, d: nat, e: nat)
    ensures Pow(b, d + e) == Pow(b, d) * Pow(b, e)
  {
    if d > 0 {
      PowAdd(b, d - 1, e);
      TimesAssociate(b, Pow(b, d - 1), Pow(b, e));
    }
  }

  lemma {:induction false} PowMonotone(b: nat, d: nat, e: nat)
    requires b > 0 && d <= e
    ensures Pow(b, d) <= Pow(b, e)
  {
    hide Pow;
    PowAdd(b, d, e - d);
    PowPositive(b, e - d);
    TimesMonotone(1, Pow(b, e - d), Pow(b, d));
  }

  // ---- the laws ----

  lemma {:induction false} ValueBound(ds: seq<nat>, b: nat)
    requires Digits(ds, b)
    ensures Value(ds, b) < Pow(b, |ds|)
  {
    if ds != [] {
      var front := ds[..|ds| - 1];
      ValueBound(front, b);
      AppendBound(Value(front, b), ds[|ds| - 1], b, Pow(b, |front|));
    }
  }

  lemma ValueOfAppend(front: seq<nat>, last: nat, b: nat)
    ensures Value(front + [last], b) == Value(front, b) * b + last
  {
    assert (front + [last])[..|front|] == front;
  }

  lemma {:induction false} ValueOfFixed(n: nat, b: nat, w: nat)
    requires b > 0 && n < Pow(b, w)
    ensures Value(Fixed(n, b, w), b) == n
    decreases w
  {
    if w > 0 {
      PeelDigit(n, b, w);
      ValueOfFixed(n / b, b, w - 1);
      DivMod(n, b);
      hide Pow, Fixed, Value;
      ValueOfAppend(Fixed(n / b, b, w - 1), n % b, b);
    }
  }

  /** Dividing takes the last digit off. */
  lemma PeelDigit(n: nat, b: nat, w: nat)
    requires b > 0 && w > 0 && n < Pow(b, w)
    ensures 0 <= n / b < Pow(b, w - 1) && 0 <= n % b < b
    ensures Fixed(n, b, w) == Fixed(n / b, b, w - 1) + [n % b]
  {
    DivMod(n, b);
    QuotientBound(n, b, Pow(b, w - 1));
  }

  lemma {:induction false} FixedOfValue(ds: seq<nat>, b: nat)
    requires b > 0 && Digits(ds, b)
    ensures Fixed(Value(ds, b), b, |ds|) == ds
  {
    if ds != [] {
      var front, last := ds[..|ds| - 1], ds[|ds| - 1];
      FixedOfValue(front, b);
      DivModUnique(Value(front, b), last, b);
    }
  }

  lemma {:induction false} ValueConcat(xs: seq<nat>, ys: seq<nat>, b: nat)
    ensures Value(xs + ys, b) == Value(xs, b) * Pow(b, |ys|) + Value(ys, b)
  {
    if ys == [] {
      assert xs + ys == xs;
    } else {
      var front, last := ys[..|ys| - 1], ys[|ys| - 1];
      ValueConcat(xs, front, b);
      assert (xs + ys)[..|xs + ys| - 1] == xs + front;
      Regroup(Value(xs, b), Pow(b, |front|), Value(front, b), b);
    }
  }

  lemma Regroup(x: nat, p: nat, v: nat, b: nat)
    ensures (x * p + v) * b == x * (b * p) + v * b
  {
  }

  lemma {:induction false} ValueOfMinimal(n: nat, b: nat)
    requires b > 1
    ensures Value(Minimal(n, b), b) == n
  {
    if n > 0 {
      DivMod(n, b);
      QuotientSmaller(n, b);
      ValueOfMinimal(n / b, b);
      ValueOfAppend(Minimal(n / b, b), n % b, b);
    }
  }

  /** Leading zeros do not change the number written. */
  lemma {:induction false} ValueOfPadded(z: nat, ds: seq<nat>, b: nat)
    ensures Value(Zeros(z) + ds, b) == Value(ds, b)
  {
    ValueConcat(Zeros(z), ds, b);
    ValueOfZeros(z, b);
  }

  function Zeros(z: nat): seq<nat> {
    seq(z, i => 0)
  }

  lemma {:induction false} ValueOfZeros(z: nat, b: nat)
    ensures Value(Zeros(z), b) == 0
  {
    if z > 0 {
      ValueOfZeros(z - 1, b);
      assert Zeros(z)[..z - 1] == Zeros(z - 1);
    }
  }

  // ---- thirty-two bytes ----

  /** A number as 32 bytes: its shortest bytes, padded on the left or cut to the low 32. */
  function ToBe32(n: nat): (w: Word) {
    var shortest := Minimal(n, 256);
    var low := if |shortest| > 32 then shortest[|shortest| - 32..] else shortest;
    Zeros(32 - |low|) + low
  }

  lemma {:induction false} MinimalLength(n: nat, b: nat, w: nat)
    requires b > 1 && n < Pow(b, w)
    ensures |Minimal(n, b)| <= w
    decreases w
  {
    if n > 0 && w > 0 {
      DivMod(n, b);
      QuotientBound(n, b, Pow(b, w - 1));
      MinimalLength(n / b, b, w - 1);
    }
  }

  /** Numbers below 256^32 are written in full. */
  lemma ToBe32Value(n: nat)
    requires n < Pow(256, 32)
    ensures Value(ToBe32(n), 256) == n
  {
    hide Pow, Value, Minimal;
    MinimalLength(n, 256, 32);
    ValueOfMinimal(n, 256);
    ValueOfPadded(32 - |Minimal(n, 256)|, Minimal(n, 256), 256);
  }

  // ---- what the digits mean ----

  /** Digits weighted by place, the first one most. */
  function Places(ds: seq<nat>, b: nat): nat {
    if ds == [] then 0 else ds[0] * Pow(b, |ds| - 1) + Places(ds[1..], b)
  }

  lemma {:induction false} ValueIsPlaces(ds: seq<nat>, b: nat)
    ensures Value(ds, b) == Places(ds, b)
  {
    if ds != [] {
      ValueIsPlaces(ds[1..], b);
      assert [ds[0]] + ds[1..] == ds && [ds[0]][..0] == [];
      hide Pow;
      ValueConcat([ds[0]], ds[1..], b);
    }
  }

  /** Seven-bit groups, the lowest first. */
  function SevenBitValue(b: Bytes): nat {
    if b == [] then 0 else b[0] % 128 + 128 * SevenBitValue(b[1..])
  }

  /** Seven bits a byte, the lowest first; every byte but the last is marked, and the last is not an idle zero. */
  lemma {:induction false} VarintMeans(n: nat)
    ensures SevenBitValue(Varint(n)) == n
    ensures var b := Varint(n);
            && (forall i :: 0 <= i < |b| - 1 ==> b[i] >= 128)
            && b[|b| - 1] < 128 && (|b| > 1 ==> b[|b| - 1] != 0)
  {
    if n >= 128 {
      VarintMeans(n / 128);
      assert Varint(n)[1..] == Varint(n / 128);
      DivMod(n, 128);
    } else {
      assert [n][1..] == [];
    }
  }
}
