/**
  Fixed-point amounts (rust/src/amount.rs): a significand and a count of decimals, rescaled in place with rounding half
  away from zero. An unresolved MAX amount has no significand.
*/
module FixedPoint {
  import opened Wrappers
  import opened Radix

  /** Rust's `as u32` on a difference of exponents. */
  function AsU32(n: nat): nat {
    n % 0x1_0000_0000
  }

  function Abs(n: int): nat {
    if n < 0 then -n else n
  }

  /** Division truncating toward zero, as num-bigint divides. */
  function Quo(a: int, b: int): int
    requires b != 0
  {
    var q := Abs(a) / Abs(b);
    if (a < 0) == (b < 0) then q else -q
  }

  /** `set_exp`'s division: half the divisor, with the dividend's sign, is added first. */
  function RoundDiv(v: int, d: nat): int
    requires d > 0
  {
    var half := d / 2;
    Quo(v + (if v < 0 then -half else half), d)
  }

  function Rescaled(v: int, from: int, to: int): int {
    if to >= from then v * Pow(10, AsU32(to - from))
    else
      PowPositive(10, AsU32(from - to));
      RoundDiv(v, Pow(10, AsU32(from - to)))
  }

  datatype Resolved = Resolved(value: Option<int>, exp: int, isMax: bool)

  class Amount {
    var value: Option<int>
    var exp: int
    var isMax: bool

    ghost function Contents(): Resolved
      reads this
    {
      Resolved(value, exp, isMax)
    }

    constructor (value: Option<int>, exp: int, isMax: bool)
      ensures Contents() == Resolved(value, exp, isMax)
    {
      this.value, this.exp, this.isMax := value, exp, isMax;
    }

    method SetExp(e: int)
      requires value.Some? || exp == e
      modifies this
      ensures exp == e && isMax == old(isMax)
      ensures value == if old(value).Some? then Some(Rescaled(old(value).value, old(exp), e)) else None
    {
      if exp == e {
        assert Pow(10, AsU32(0)) == 1;
        return;
      }
      var v := value.value;
      if e > exp {
        var add := AsU32(e - exp);
        v := v * Pow(10, add);
        value, exp := Some(v), e;
        return;
      }
      var sub := AsU32(exp - e);
      PowPositive(10, sub);
      var e10 := Pow(10, sub);
      var half: int := e10 / 2;
      if v < 0 {
        half := -half;
      }
      v := v + half;
      value, exp := Some(Quo(v, e10)), e;
    }

    /** A copy at `e` decimals; the original stays as it is. */
    method RescaledCopy(e: int) returns (copy: Amount)
      requires value.Some?
      ensures fresh(copy) && copy.Contents() == Resolved(Some(Rescaled(value.value, exp, e)), e, isMax)
    {
      copy := new Amount(value, exp, isMax);
      copy.SetExp(e);
    }

    method Add(x: Amount, y: Amount)
      requires x != this && y != this && x.value.Some? && y.value.Some?
      modifies this
      ensures exp == old(exp) && isMax == old(isMax)
      ensures value == Some(Rescaled(x.value.value, x.exp, exp) + Rescaled(y.value.value, y.exp, exp))
    {
      var xs := x.RescaledCopy(exp);
      var ys := y.RescaledCopy(exp);
      value := Some(xs.value.value + ys.value.value);
    }

    method Sub(x: Amount, y: Amount)
      requires x != this && y != this && x.value.Some? && y.value.Some?
      modifies this
      ensures exp == old(exp) && isMax == old(isMax)
      ensures value == Some(Rescaled(x.value.value, x.exp, exp) - Rescaled(y.value.value, y.exp, exp))
    {
      var xs := x.RescaledCopy(exp);
      var ys := y.RescaledCopy(exp);
      value := Some(xs.value.value - ys.value.value);
    }

    method Mul(x: Amount, y: Amount)
      requires x != this && y != this && x.value.Some? && y.value.Some?
      modifies this
      ensures exp == old(exp) && isMax == old(isMax)
      ensures value == Some(Rescaled(x.value.value * y.value.value, x.exp + y.exp, exp))
    {
      var target := exp;
      value := Some(x.value.value * y.value.value);
      exp := x.exp + y.exp;
      SetExp(target);
    }

    method Div(x: Amount, y: Amount)
      requires x != this && y != this && x.value.Some? && y.value.Some? && y.value.value != 0
      modifies this
      ensures exp == old(exp) && isMax == old(isMax)
      ensures value == Some(Quo(Rescaled(x.value.value, x.exp, y.exp + exp), y.value.value))
    {
      var xd := x.RescaledCopy(y.exp + exp);
      value := Some(Quo(xd.value.value, y.value.value));
    }
  }

  // ---- rounding half away from zero ----

  /** `x` is within half of `d` of `v`, and when exactly half away it is on the side away from zero. */
  ghost predicate Near(v: int, d: nat, x: int) {
    var error := Abs(x - v);
    2 * error < d || (2 * error == d && Abs(x) > Abs(v))
  }

  /** Rounding half away from zero gives the one multiple of `d` near `v`: at most half a unit off, ties outward. */
  lemma RoundDivIff(v: int, d: nat, q: int)
    requires d > 0
    ensures Near(v, d, q * d) <==> q == RoundDiv(v, d)
  {
    var m := (Abs(v) + d / 2) / d;
    assert RoundDiv(v, d) == if v < 0 then -m else m;
    DivMod(Abs(v) + d / 2, d);
    hide Quo, RoundDiv;
    if v < 0 {
      Negated(q, d);
      NearNat(-v, d, -q, m);
    } else {
      NearNat(v, d, q, m);
    }
  }

  lemma Negated(q: int, d: int)
    ensures (-q) * d == -(q * d)
  {
  }

  lemma NearNat(v: nat, d: nat, q: int, m: nat)
    requires d > 0 && m * d <= v + d / 2 < m * d + d
    ensures Near(v, d, q * d) <==> q == m
  {
    var p, x := m * d, q * d;
    Distribute(q, m, d);
    Distribute(m, q, d);
    if q > m {
      TimesAtLeast(q - m, d);
      NotNear(v, d, p, x);
    } else if q < m {
      TimesAtLeast(m - q, d);
      if m > 0 {
        TimesAtLeast(m, d);
      }
      NotNear(v, d, p, x);
    } else {
      assert x == p;
      IsNear(v, d, p);
    }
  }

  lemma NotNear(v: nat, d: nat, p: nat, x: int)
    requires d > 0 && p <= v + d / 2 < p + d && (x >= p + d || (x <= p - d && (p >= d || p == 0)))
    ensures !Near(v, d, x)
  {
  }

  lemma IsNear(v: nat, d: nat, p: nat)
    requires d > 0 && p <= v + d / 2 < p + d
    ensures Near(v, d, p)
  {
  }

  lemma RoundIsNear(v: int, d: nat)
    requires d > 0
    ensures Near(v, d, RoundDiv(v, d) * d)
  {
    hide RoundDiv, Near;
    RoundDivIff(v, d, RoundDiv(v, d));
  }

  /** Changing the sign before rounding or after it is the same. */
  lemma RoundIsOdd(v: int, d: nat)
    requires d > 0
    ensures RoundDiv(-v, d) == -RoundDiv(v, d)
  {
    hide RoundDiv;
    RoundIsNear(v, d);
    Negated(RoundDiv(v, d), d);
    assert Near(-v, d, -(RoundDiv(v, d) * d));
    hide Near;
    RoundDivIff(-v, d, -RoundDiv(v, d));
  }

  lemma RoundIsMonotone(v: int, w: int, d: nat)
    requires d > 0 && v <= w
    ensures RoundDiv(v, d) <= RoundDiv(w, d)
  {
    var a, b := RoundDiv(v, d), RoundDiv(w, d);
    hide RoundDiv;
    RoundIsNear(v, d);
    RoundIsNear(w, d);
    if a > b {
      Distribute(a, b, d);
      TimesAtLeast(a - b, d);
      RoundDivIff(w, d, a);
      Ordered(v, w, d, a * d, b * d);
    }
  }

  lemma Ordered(v: int, w: int, d: nat, x: int, y: int)
    requires d > 0 && v <= w && x >= y + d && Near(v, d, x) && Near(w, d, y)
    ensures v == w && 2 * Abs(x - v) == d == 2 * Abs(y - w) && x - v == w - y > 0
  {
  }

  // ---- rescaling ----

  const LIMIT := 0x1_0000_0000

  lemma Exponent(n: nat)
    requires n < LIMIT
    ensures AsU32(n) == n && Pow(10, n) > 0
  {
    PowPositive(10, n);
  }

  /** More decimals are exact; fewer are the nearest, ties away from zero. */
  lemma RescaledIs(v: int, from: int, to: int, r: int)
    requires Abs(to - from) < LIMIT
    ensures to >= from ==> Rescaled(v, from, to) == v * Pow(10, to - from)
    ensures to < from ==> (Near(v, Pow(10, from - to), r * Pow(10, from - to)) <==> r == Rescaled(v, from, to))
  {
    hide Pow, RoundDiv, Near, AsU32;
    Exponent(Abs(to - from));
    if to < from {
      RoundDivIff(v, Pow(10, from - to), r);
    }
  }

  lemma RescaledIsOdd(v: int, from: int, to: int)
    ensures Rescaled(-v, from, to) == -Rescaled(v, from, to)
  {
    hide Pow, RoundDiv, AsU32;
    if to < from {
      PowPositive(10, AsU32(from - to));
      RoundIsOdd(v, Pow(10, AsU32(from - to)));
    } else {
      Negated(v, Pow(10, AsU32(to - from)));
    }
  }

  lemma RescaledIsMonotone(v: int, w: int, from: int, to: int)
    requires v <= w
    ensures Rescaled(v, from, to) <= Rescaled(w, from, to)
  {
    hide Pow, RoundDiv, AsU32;
    if to < from {
      PowPositive(10, AsU32(from - to));
      RoundIsMonotone(v, w, Pow(10, AsU32(from - to)));
    } else {
      var d := Pow(10, AsU32(to - from));
      PowPositive(10, AsU32(to - from));
      Distribute(w, v, d);
      if v < w {
        TimesAtLeast(w - v, d);
      }
    }
  }

  /** Scaling up and back down is the identity. */
  lemma UpThenDown(v: int, from: int, to: int)
    requires from <= to
    ensures Rescaled(Rescaled(v, from, to), to, from) == v
  {
    hide Pow, RoundDiv, AsU32, Near;
    var d := Pow(10, AsU32(to - from));
    PowPositive(10, AsU32(to - from));
    if from < to {
      IsExact(v * d, d);
      RoundDivIff(v * d, d, v);
    } else {
      NoScale();
    }
  }

  lemma NoScale()
    ensures Pow(10, AsU32(0)) == 1
  {
  }

  lemma IsExact(x: int, d: nat)
    requires d > 0
    ensures Near(x, d, x)
  {
  }

  // ---- sums, products and quotients ----

  /** A sum is exact when no operand loses decimals, and a difference is the sum with the second operand negated. */
  lemma SumIs(x: int, y: int, xExp: int, yExp: int, e: int)
    requires Abs(e - xExp) < LIMIT && Abs(e - yExp) < LIMIT
    ensures xExp <= e && yExp <= e ==>
              Rescaled(x, xExp, e) + Rescaled(y, yExp, e) == x * Pow(10, e - xExp) + y * Pow(10, e - yExp)
    ensures Rescaled(x, xExp, e) - Rescaled(y, yExp, e) == Rescaled(x, xExp, e) + Rescaled(-y, yExp, e)
  {
    hide Pow, Rescaled, AsU32;
    RescaledIs(x, xExp, e, 0);
    RescaledIs(y, yExp, e, 0);
    RescaledIsOdd(y, yExp, e);
  }

  /** At one exponent a rounded sum is within a whole unit of the exact one. */
  lemma SumIsWithinUnit(x: int, y: int, from: int, e: int)
    requires e < from && from - e < LIMIT
    ensures Abs((Rescaled(x, from, e) + Rescaled(y, from, e)) * Pow(10, from - e) - (x + y)) <= Pow(10, from - e)
  {
    var a, b, d := Rescaled(x, from, e), Rescaled(y, from, e), Pow(10, from - e);
    hide Pow, Rescaled, AsU32;
    RescaledIs(x, from, e, a);
    RescaledIs(y, from, e, b);
    Distribute(a, -b, d);
    Negated(b, d);
  }

  /** A product is within half a unit of the exact one, and exact when it keeps all its decimals. */
  lemma ProductIsNearest(x: int, y: int, xExp: int, yExp: int, e: int)
    requires Abs(xExp + yExp - e) < LIMIT
    ensures var value, k := Rescaled(x * y, xExp + yExp, e), xExp + yExp - e;
            && (k <= 0 ==> value == x * y * Pow(10, -k))
            && (k > 0 ==> 2 * Abs(value * Pow(10, k) - x * y) <= Pow(10, k))
  {
    hide Pow, Rescaled, AsU32;
    RescaledIs(x * y, xExp + yExp, e, Rescaled(x * y, xExp + yExp, e));
  }

  /** `q * b` is `a` cut toward zero: what is left is smaller than `b` and has `a`'s sign. */
  ghost predicate Truncates(a: int, b: int, q: int) {
    var left := a - q * b;
    Abs(left) < Abs(b) && (left == 0 || (left < 0) == (a < 0))
  }

  lemma QuoIff(a: int, b: int, q: int)
    requires b != 0
    ensures Truncates(a, b, q) <==> q == Quo(a, b)
  {
    DivMod(Abs(a), Abs(b));
    var m := Abs(a) / Abs(b);
    var s := if (a < 0) == (b < 0) then q else -q;
    Negated(q, b);
    Negated(q, -b);
    assert s * Abs(b) == if a < 0 then -(q * b) else q * b by {
      Signs(q, b);
    }
    hide Quo, Truncates;
    Cuts(Abs(a), Abs(b), s, m);
    CutSigns(a, b, q, s);
    QuoSign(a, b);
  }

  lemma Signs(q: int, b: int)
    ensures q * (-b) == -(q * b) && (-q) * b == -(q * b) && (-q) * (-b) == q * b
  {
  }

  lemma QuoSign(a: int, b: int)
    requires b != 0
    ensures Quo(a, b) == if (a < 0) == (b < 0) then Abs(a) / Abs(b) else -(Abs(a) / Abs(b))
  {
  }

  lemma CutSigns(a: int, b: int, q: int, s: int)
    requires b != 0 && s * Abs(b) == if a < 0 then -(q * b) else q * b
    ensures Truncates(a, b, q) <==> 0 <= Abs(a) - s * Abs(b) < Abs(b)
  {
  }

  lemma Cuts(a: nat, b: nat, s: int, m: nat)
    requires b > 0 && m * b <= a < m * b + b
    ensures 0 <= a - s * b < b <==> s == m
  {
    Distribute(s, m, b);
    Distribute(m, s, b);
    if s > m {
      TimesAtLeast(s - m, b);
    } else if s < m {
      TimesAtLeast(m - s, b);
    }
  }

  /** A quotient is the rescaled dividend over the divisor, cut toward zero; a dividend gaining decimals is exact. */
  lemma QuotientIs(x: int, y: int, xExp: int, yExp: int, e: int, q: int)
    requires y != 0 && Abs(yExp + e - xExp) < LIMIT
    ensures q == Quo(Rescaled(x, xExp, yExp + e), y) <==> Truncates(Rescaled(x, xExp, yExp + e), y, q)
    ensures xExp <= yExp + e ==> Rescaled(x, xExp, yExp + e) == x * Pow(10, yExp + e - xExp)
  {
    hide Pow, AsU32, Rescaled, Truncates, Quo;
    RescaledIs(x, xExp, yExp + e, 0);
    QuoIff(Rescaled(x, xExp, yExp + e), y, q);
  }

  // ---- division of a dividend that loses decimals ----

  /** Rounding by `d`, then dividing by `b`: off by one exactly in the last half unit before a multiple of both. */
  lemma NatQuotientIff(a: nat, b: nat, d: nat)
    requires b > 0 && d > 0
    ensures d * b > 0
    ensures a % (d * b) < d * b - d / 2 ==> (a + d / 2) / d / b == a / (d * b)
    ensures a % (d * b) >= d * b - d / 2 ==> (a + d / 2) / d / b == a / (d * b) + 1
  {
    TimesAtLeast(b, d);
    assert d * b == b * d;
    var n, h := d * b, d / 2;
    DivMod(a, n);
    var q, r := a / n, a % n;
    DivMod(r + h, d);
    var u := (r + h) / d;
    Groups(q, b, d);
    hide Abs;
    SumDivides(a + h, q * b, r + h, d);
    assert (a + h) / d == q * b + u;
    if r < n - h {
      QuotientBound(r + h, d, b);
      DivModUnique(q, u, b);
    } else {
      FullGroup(r + h, b, d);
      Distribute(q, -1, b);
      DivModUnique(q + 1, 0, b);
    }
  }

  lemma Groups(q: nat, b: nat, d: nat)
    ensures q * (d * b) == (q * b) * d
  {
  }

  /** A multiple of `d` comes out of the quotient. */
  lemma SumDivides(n: nat, k: nat, r: nat, d: nat)
    requires d > 0 && n == k * d + r
    ensures n / d == k + r / d
  {
    DivMod(r, d);
    var v, w := r / d, r % d;
    Distribute(k, -v, d);
    assert n == (k + v) * d + w;
    DivModUnique(k + v, w, d);
  }

  lemma FullGroup(n: nat, b: nat, d: nat)
    requires d > 0 && b * d <= n < b * d + d
    ensures n / d == b
  {
    DivModUnique(b, n - b * d, d);
  }

  /** With signs: the rounded dividend gives the truncated exact quotient, or one farther from zero. */
  lemma RoundedQuotientIff(x: int, y: int, d: nat)
    requires d > 0 && y != 0
    ensures d * y != 0 && d * Abs(y) > 0
    ensures Abs(x) % (d * Abs(y)) < d * Abs(y) - d / 2 ==> Quo(RoundDiv(x, d), y) == Quo(x, d * y)
    ensures Abs(x) % (d * Abs(y)) >= d * Abs(y) - d / 2 ==>
              Quo(RoundDiv(x, d), y) == Quo(x, d * y) + if (x < 0) == (y < 0) then 1 else -1
  {
    NatQuotientIff(Abs(x), Abs(y), d);
    ProductSign(d, y);
    var m := (Abs(x) + d / 2) / d;
    DivMod(Abs(x) + d / 2, d);
    assert RoundDiv(x, d) == if x < 0 then -m else m;
    hide RoundDiv;
    SignedQuo(m, x < 0, y);
    SignedQuo(Abs(x), x < 0, d * y);
  }

  lemma ProductSign(d: nat, y: int)
    requires d > 0 && y != 0
    ensures d * y != 0 && (d * y < 0 <==> y < 0) && Abs(d * y) == d * Abs(y)
  {
    Signs(d, y);
    TimesAtLeast(Abs(y), d);
    assert d * Abs(y) == Abs(y) * d;
  }

  lemma SignedQuo(m: nat, negative: bool, y: int)
    requires y != 0
    ensures Quo(if negative then -(m as int) else m, y) == if negative == (y < 0) then m / Abs(y) else -(m / Abs(y))
  {
    if m == 0 {
      SmallQuotient(Abs(y));
    }
  }

  lemma SmallQuotient(n: nat)
    requires n > 0
    ensures 0 / n == 0
  {
  }

  /**
    Division against the exact quotient cut toward zero, for all operands: always equal when the dividend keeps its
    decimals; when it loses `k` of them, exactly when the dividend is not within half a unit below a multiple of the
    divisor, and one too far from zero otherwise.
  */
  lemma DivisionExactIff(x: int, y: int, xExp: int, yExp: int, e: int)
    requires y != 0 && Abs(yExp + e - xExp) < LIMIT
    ensures var q, k := Quo(Rescaled(x, xExp, yExp + e), y), xExp - yExp - e;
            && (k <= 0 ==> q == Quo(x * Pow(10, -k), y))
            && (k > 0 ==>
                  var d := Pow(10, k);
                  && d * y != 0 && d * Abs(y) > 0
                  && (q == Quo(x, d * y) <==> Abs(x) % (d * Abs(y)) < d * Abs(y) - d / 2)
                  && (q != Quo(x, d * y) ==> q == Quo(x, d * y) + if (x < 0) == (y < 0) then 1 else -1))
  {
    var k := xExp - yExp - e;
    hide Pow, Quo, RoundDiv, AsU32;
    Exponent(Abs(k));
    if k > 0 {
      RoundedQuotientIff(x, y, Pow(10, k));
    }
  }

  /** Otherwise the dividend is rounded first: 0.5 over 1 with no decimals gives 1, not the truncated 0. */
  lemma RoundedDividend()
    ensures Quo(Rescaled(5, 1, 0), 1) == 1 && Truncates(5, 10, 0)
  {
    assert Pow(10, AsU32(1)) == 10;
  }
}
