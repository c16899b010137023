/** Regrouping: numbers as runs of binary digits of one width, and binary digits as numbers of another. */
module Bits {
  import opened Radix

  /** The digits of every number, `w` each. */
  function Expand(ns: seq<nat>, w: nat): (bits: seq<nat>)
    ensures |bits| == |ns| * w && Digits(bits, 2)
  {
    if ns == [] then []
    else
      Distribute(|ns|, 1, w);
      Expand(ns[..|ns| - 1], w) + Fixed(ns[|ns| - 1], 2, w)
  }

  /** `bits` cut into numbers of `w` digits; a short rest at the front is dropped. */
  function Group(bits: seq<nat>, w: nat): (ns: seq<nat>)
    requires w > 0
  {
    if |bits| < w then [] else Group(bits[..|bits| - w], w) + [Value(bits[|bits| - w..], 2)]
  }

  lemma {:induction false} GroupOfExpand(ns: seq<nat>, w: nat)
    requires w > 0 && forall i :: 0 <= i < |ns| ==> ns[i] < Pow(2, w)
    ensures Group(Expand(ns, w), w) == ns
  {
    hide Pow, Fixed, Value;
    if ns != [] {
      var front, last := ns[..|ns| - 1], ns[|ns| - 1];
      GroupOfExpand(front, w);
      ValueOfFixed(last, 2, w);
      var bits := Expand(ns, w);
      assert bits[..|bits| - w] == Expand(front, w) && bits[|bits| - w..] == Fixed(last, 2, w);
    } else {
      assert Expand(ns, w) == [];
    }
  }

  lemma {:induction false} ExpandOfGroup(bits: seq<nat>, w: nat, count: nat)
    requires w > 0 && |bits| == count * w && Digits(bits, 2)
    ensures |Group(bits, w)| == count && Expand(Group(bits, w), w) == bits
    ensures forall i :: 0 <= i < count ==> Group(bits, w)[i] < Pow(2, w)
  {
    hide Pow, Value, Fixed;
    if count > 0 {
      Distribute(count, 1, w);
      TimesAtLeast(count, w);
      var front, last := bits[..|bits| - w], bits[|bits| - w..];
      ExpandOfGroup(front, w, count - 1);
      ValueBound(last, 2);
      FixedOfValue(last, 2);
      assert Group(bits, w)[..count - 1] == Group(front, w);
      assert front + last == bits;
    }
  }

  /** Group `j` is the value of its own digits. */
  lemma {:induction false} GroupAt(bits: seq<nat>, w: nat, count: nat, j: nat)
    requires w > 0 && |bits| == count * w && j < count
    ensures |Group(bits, w)| == count && j * w + w <= |bits|
    ensures Group(bits, w)[j] == Value(bits[j * w..j * w + w], 2)
  {
    hide Value;
    Before(j, count, w);
    TimesAtLeast(count, w);
    Before(count - 1, count, w);
    var front := bits[..|bits| - w];
    GroupLength(front, w, count - 1);
    var at := j * w;
    if j < count - 1 {
      GroupAt(front, w, count - 1, j);
      assert Group(bits, w)[j] == Group(front, w)[j];
      hide Group;
      assert front[at..at + w] == bits[at..at + w];
    } else {
      assert bits[at..at + w] == bits[|bits| - w..];
    }
  }

  /** Group `j` of `count` ends inside them. */
  lemma Before(j: nat, count: nat, w: nat)
    requires j < count
    ensures j * w + w <= count * w && (count - 1) * w == count * w - w
  {
    Distribute(count, 1, w);
    TimesMonotone(j + 1, count, w);
    Distribute(j + 1, 1, w);
  }

  lemma {:induction false} GroupLength(bits: seq<nat>, w: nat, count: nat)
    requires w > 0 && |bits| == count * w
    ensures |Group(bits, w)| == count
  {
    if count > 0 {
      Distribute(count, 1, w);
      TimesAtLeast(count, w);
      GroupLength(bits[..|bits| - w], w, count - 1);
    }
  }

  // ---- single digits ----

  /** The digit of weight `2^k`, as `(n >> k) & 1` reads it. */
  function Bit(n: nat, k: nat): nat {
    PowPositive(2, k);
    DivMod(n, Pow(2, k));
    DivMod(n / Pow(2, k), 2);
    (n / Pow(2, k)) % 2
  }

  lemma {:induction false} BitOfValue(ds: seq<nat>, k: nat)
    requires Digits(ds, 2) && k < |ds|
    ensures Bit(Value(ds, 2), k) == ds[|ds| - 1 - k]
  {
    var front, last := ds[..|ds| - 1], ds[|ds| - 1];
    DivModUnique(Value(front, 2), last, 2);
    if k == 0 {
      DivModUnique(Value(ds, 2), 0, 1);
    } else {
      BitOfValue(front, k - 1);
      HalvedBit(Value(ds, 2), k);
    }
  }

  lemma HalvedBit(n: nat, k: nat)
    requires k > 0
    ensures n / 2 >= 0 && Bit(n, k) == Bit(n / 2, k - 1)
  {
    var p := Pow(2, k - 1);
    PowPositive(2, k - 1);
    DivMod(n, 2);
    DivMod(n / 2, p);
    var q, r := n / 2 / p, n / 2 % p;
    assert n == q * (2 * p) + (r * 2 + n % 2);
    DivModUnique(q, r * 2 + n % 2, 2 * p);
  }

  lemma {:induction false} BitOfFixed(n: nat, w: nat, k: nat)
    requires k < w
    ensures Bit(n, k) == Fixed(n, 2, w)[w - 1 - k]
    decreases w
  {
    DivMod(n, 2);
    if k == 0 {
      DivModUnique(n, 0, 1);
    } else {
      HalvedBit(n, k);
      BitOfFixed(n / 2, w - 1, k - 1);
    }
  }

  lemma {:induction false} ExpandAt(ns: seq<nat>, w: nat, j: nat, k: nat)
    requires j < |ns| && k < w
    ensures j * w + k < |ns| * w && Expand(ns, w)[j * w + k] == Bit(ns[j], w - 1 - k)
  {
    Distribute(|ns|, 1, w);
    TimesMonotone(j + 1, |ns|, w);
    Distribute(j + 1, 1, w);
    if j < |ns| - 1 {
      ExpandAt(ns[..|ns| - 1], w, j, k);
    } else {
      BitOfFixed(ns[j], w, w - 1 - k);
    }
  }

  /** Setting a clear digit adds its weight. */
  lemma {:induction false} SetDigit(ds: seq<nat>, k: nat)
    requires Digits(ds, 2) && k < |ds| && ds[k] == 0
    ensures Value(ds[k := 1], 2) == Value(ds, 2) + Pow(2, |ds| - 1 - k)
  {
    var front, last := ds[..|ds| - 1], ds[|ds| - 1];
    var now := ds[k := 1];
    if k < |front| {
      SetDigit(front, k);
      assert now[..|ds| - 1] == front[k := 1];
    } else {
      assert now[..|ds| - 1] == front;
    }
  }
}
