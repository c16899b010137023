/**
  Greedy largest-first coin selection with a fee that depends on the coins chosen, and the fee and change split of
  the transaction built from them (rust/src/bitcoin.rs). Amounts and fee rates are unbounded here.
*/
module CoinSelection {
  import opened Wrappers
  import opened Radix

  datatype Utxo = Utxo(txo: string, amount: nat, script: string, path: string)

  const OVERHEAD := 11
  const PER_OUTPUT := 31
  const DUST := 546

  function AmountOf(u: Utxo): int {
    u.amount
  }

  function VSize(u: Utxo): int {
    if u.script == "p2wpkh" || u.script == "p2wsh" then 68
    else if u.script == "p2sh:p2wpkh" || u.script == "p2sh-p2wpkh" then 91
    else 148
  }

  /** A measure added up over a list of coins. */
  function Total(us: seq<Utxo>, f: Utxo -> int): int {
    if us == [] then 0 else f(us[0]) + Total(us[1..], f)
  }

  function EstimateVSize(ins: seq<Utxo>, outs: nat): int {
    OVERHEAD + outs * PER_OUTPUT + Total(ins, VSize)
  }

  /** The coins pay `want` and the fee of a two-output transaction spending exactly them. */
  predicate Covers(us: seq<Utxo>, want: nat, rate: nat) {
    Total(us, AmountOf) >= want + EstimateVSize(us, 2) * rate
  }

  /** A non-empty choice among `all`, each coin used at most as often as it occurs there. */
  ghost predicate Choice(pick: seq<Utxo>, all: seq<Utxo>) {
    pick != [] && multiset(pick) <= multiset(all)
  }

  /** No coin worth at least as much as another is larger to spend; true when all have one script class. */
  ghost predicate Aligned(all: seq<Utxo>) {
    forall u, v :: u in all && v in all && u.amount >= v.amount ==> VSize(u) <= VSize(v)
  }

  // ---- the stable sort, largest first ----

  function Insert(u: Utxo, s: seq<Utxo>): seq<Utxo> {
    if s == [] || s[0].amount <= u.amount then [u] + s else [s[0]] + Insert(u, s[1..])
  }

  function SortDescending(s: seq<Utxo>): (r: seq<Utxo>)
    ensures Descending(r, AmountOf) && multiset(r) == multiset(s) && |r| == |s|
  {
    if s == [] then
      []
    else
      var rest := SortDescending(s[1..]);
      InsertKeepsOrder(s[0], rest);
      assert s == [s[0]] + s[1..];
      Insert(s[0], rest)
  }

  lemma {:induction false} InsertKeepsOrder(u: Utxo, s: seq<Utxo>)
    requires Descending(s, AmountOf)
    ensures var r := Insert(u, s);
            |r| == |s| + 1 && multiset(r) == multiset(s) + multiset{u} && Descending(r, AmountOf)
  {
    if s != [] && s[0].amount > u.amount {
      InsertKeepsOrder(u, s[1..]);
      var rest := Insert(u, s[1..]);
      HeadStaysLargest(u, s);
      hide Descending;
      assert s == [s[0]] + s[1..] && Insert(u, s) == [s[0]] + rest;
      assert multiset([s[0]] + rest) == multiset{s[0]} + multiset(rest);
    } else {
      NewHeadIsLargest(u, s);
      hide Descending;
      assert multiset([u] + s) == multiset{u} + multiset(s);
    }
  }

  lemma NewHeadIsLargest(u: Utxo, s: seq<Utxo>)
    requires Descending(s, AmountOf) && (s == [] || s[0].amount <= u.amount)
    ensures Descending([u] + s, AmountOf)
  {
    forall j | 0 <= j < |s|
      ensures AmountOf(s[j]) <= AmountOf(s[0])
    {
      if j > 0 {
        assert AmountOf(s[0]) >= AmountOf(s[j]);
      }
    }
  }

  lemma HeadStaysLargest(u: Utxo, s: seq<Utxo>)
    requires s != [] && s[0].amount > u.amount && Descending(s, AmountOf)
    requires var rest := Insert(u, s[1..]);
             multiset(rest) == multiset(s[1..]) + multiset{u} && Descending(rest, AmountOf)
    ensures Descending([s[0]] + Insert(u, s[1..]), AmountOf)
  {
    hide Insert;
    var rest := Insert(u, s[1..]);
    forall j | 0 <= j < |rest| ensures AmountOf(s[0]) >= AmountOf(rest[j]) {
      assert rest[j] in multiset(rest);
      assert rest[j] == u || rest[j] in s[1..];
    }
  }

  ghost predicate Descending(s: seq<Utxo>, f: Utxo -> int) {
    forall i, j :: 0 <= i < j < |s| ==> f(s[i]) >= f(s[j])
  }

  // ---- selection ----

  datatype SelectError = InsufficientFunds(have: int, coins: nat)

  /** Some non-empty prefix of the sorted coins covers. */
  ghost predicate GreedySucceeds(all: seq<Utxo>, want: nat, rate: nat) {
    exists k :: 1 <= k <= |all| && Covers(SortDescending(all)[..k], want, rate)
  }

  ghost predicate Coverable(all: seq<Utxo>, want: nat, rate: nat) {
    exists pick :: Choice(pick, all) && Covers(pick, want, rate)
  }

  lemma CoversIs(us: seq<Utxo>, want: nat, rate: nat)
    ensures Covers(us, want, rate) <==> Total(us, AmountOf) >= want + EstimateVSize(us, 2) * rate
  {
  }

  method SelectUtxos(all: seq<Utxo>, want: nat, rate: nat) returns (r: Result<(seq<Utxo>, int), SelectError>)
    ensures r.Success? <==> GreedySucceeds(all, want, rate)
    ensures r.Success? ==>
              && var (out, total) := r.value;
              && Choice(out, all) && total == Total(out, AmountOf) && Covers(out, want, rate)
              && |out| <= |all| && out == SortDescending(all)[..|out|]
              && forall k :: 1 <= k < |out| ==> !Covers(SortDescending(all)[..k], want, rate)
    ensures r.Success? && Aligned(all) ==>
              forall pick :: Choice(pick, all) && Covers(pick, want, rate) ==> |r.value.0| <= |pick|
    ensures r.Failure? ==> r.error == InsufficientFunds(Total(SortDescending(all), AmountOf), |all|)
    ensures r.Failure? && Aligned(all) ==> !Coverable(all, want, rate)
  {
    assert Total([], AmountOf) == 0;
    hide Total, EstimateVSize, SortDescending, Descending, Choice, Aligned, Coverable, Covers;
    var sorted := SortDescending(all);
    var total := 0;
    var out: seq<Utxo> := [];
    for i := 0 to |sorted|
      invariant out == sorted[..i]
      invariant total == Total(out, AmountOf)
      invariant forall k :: 1 <= k <= i ==> !Covers(sorted[..k], want, rate)
    {
      TotalAppend(out, sorted[i], AmountOf);
      total := total + sorted[i].amount;
      out := out + [sorted[i]];
      assert out == sorted[..i + 1];
      var fee := EstimateVSize(out, 2) * rate;
      CoversIs(out, want, rate);
      if total >= want + fee {
        PrefixIsChoice(all, |out|);
        FewestCoins(all, want, rate, |out|);
        return Success((out, total));
      }
    }
    assert sorted[..|sorted|] == sorted;
    NothingCovers(all, want, rate);
    return Failure(InsufficientFunds(total, |out|));
  }

  // ---- the exchange argument ----

  lemma {:induction false} TotalAppend(us: seq<Utxo>, u: Utxo, f: Utxo -> int)
    ensures Total(us + [u], f) == Total(us, f) + f(u)
  {
    if us != [] {
      assert (us + [u])[1..] == us[1..] + [u];
      TotalAppend(us[1..], u, f);
    }
  }

  lemma {:induction false} TotalRemove(us: seq<Utxo>, i: nat, f: Utxo -> int)
    requires i < |us|
    ensures Total(us, f) == f(us[i]) + Total(Without(us, i), f)
  {
    if i == 0 {
      assert Without(us, 0) == us[1..];
    } else {
      TotalRemove(us[1..], i - 1, f);
      assert Without(us, i)[1..] == Without(us[1..], i - 1);
    }
  }

  function Without(us: seq<Utxo>, i: nat): seq<Utxo>
    requires i < |us|
  {
    us[..i] + us[i + 1..]
  }

  lemma MultisetWithout(us: seq<Utxo>, i: nat)
    requires i < |us|
    ensures multiset(us) == multiset(Without(us, i)) + multiset{us[i]}
  {
    assert us == us[..i] + [us[i]] + us[i + 1..];
  }

  /** Taking the same coin off both sides keeps a choice within its supply. */
  lemma TakeSame(pick: seq<Utxo>, i: nat, all: seq<Utxo>, j: nat)
    requires i < |pick| && j < |all| && pick[i] == all[j]
    requires multiset(pick) <= multiset(all)
    ensures multiset(Without(pick, i)) <= multiset(Without(all, j))
  {
    MultisetWithout(pick, i);
    MultisetWithout(all, j);
    forall x ensures multiset(Without(pick, i))[x] <= multiset(Without(all, j))[x] {
      assert multiset(pick)[x] <= multiset(all)[x];
    }
  }

  lemma {:induction false} TotalPointwise(xs: seq<Utxo>, ys: seq<Utxo>, f: Utxo -> int)
    requires |xs| == |ys| && forall i :: 0 <= i < |xs| ==> f(xs[i]) <= f(ys[i])
    ensures Total(xs, f) <= Total(ys, f)
  {
    if xs != [] {
      TotalPointwise(xs[1..], ys[1..], f);
    }
  }

  lemma SkipHead(pick: seq<Utxo>, s: seq<Utxo>)
    requires s != [] && s[0] !in pick && multiset(pick) <= multiset(s)
    ensures multiset(pick) <= multiset(s[1..])
  {
    MultisetWithout(s, 0);
    assert Without(s, 0) == s[1..];
    forall x ensures multiset(pick)[x] <= multiset(s[1..])[x] {
      assert s[0] !in multiset(pick);
      assert multiset(pick)[x] <= multiset(s)[x];
    }
  }

  lemma ShiftDown(s: seq<Utxo>, k: nat, f: Utxo -> int)
    requires Descending(s, f) && k < |s|
    ensures Total(s[1..][..k], f) <= Total(s[..k], f)
  {
    TotalPointwise(s[1..][..k], s[..k], f);
  }

  /** Along a descending list no choice of `n` coins beats the first `n`. */
  lemma {:induction false} Exchange(s: seq<Utxo>, pick: seq<Utxo>, f: Utxo -> int)
    requires Descending(s, f) && multiset(pick) <= multiset(s)
    ensures |pick| <= |s| && Total(pick, f) <= Total(s[..|pick|], f)
  {
    hide Total, Descending;
    if pick == [] {
      assert s[..0] == [];
    } else {
      HasHead(s, pick);
      if s[0] in pick {
        var i :| 0 <= i < |pick| && pick[i] == s[0];
        DropHead(s, pick, i);
        TailDescends(s, f);
        Exchange(s[1..], Without(pick, i), f);
        hide Without;
        PutBack(s, pick, i, f);
      } else {
        SkipHead(pick, s);
        TailDescends(s, f);
        Exchange(s[1..], pick, f);
        ShiftDown(s, |pick|, f);
      }
    }
  }

  lemma HasHead(s: seq<Utxo>, pick: seq<Utxo>)
    requires pick != [] && multiset(pick) <= multiset(s)
    ensures s != []
  {
    assert pick[0] in multiset(pick);
  }

  lemma DropHead(s: seq<Utxo>, pick: seq<Utxo>, i: nat)
    requires s != [] && i < |pick| && pick[i] == s[0] && multiset(pick) <= multiset(s)
    ensures |Without(pick, i)| == |pick| - 1 && multiset(Without(pick, i)) <= multiset(s[1..])
  {
    TakeSame(pick, i, s, 0);
    assert Without(s, 0) == s[1..];
  }

  lemma PutBack(s: seq<Utxo>, pick: seq<Utxo>, i: nat, f: Utxo -> int)
    requires s != [] && i < |pick| && pick[i] == s[0] && |pick| <= |s|
    requires Total(Without(pick, i), f) <= Total(s[1..][..|pick| - 1], f)
    ensures Total(pick, f) <= Total(s[..|pick|], f)
  {
    TotalRemove(pick, i, f);
    assert s[..|pick|][1..] == s[1..][..|pick| - 1];
  }

  lemma TailDescends(s: seq<Utxo>, f: Utxo -> int)
    requires s != [] && Descending(s, f)
    ensures Descending(s[1..], f)
  {
  }

  function NegVSize(u: Utxo): int {
    -VSize(u)
  }

  lemma {:induction false} TotalNegated(us: seq<Utxo>)
    ensures Total(us, NegVSize) == -Total(us, VSize)
  {
    if us != [] {
      TotalNegated(us[1..]);
    }
  }

  lemma PrefixWithin(s: seq<Utxo>, k: nat)
    requires k <= |s|
    ensures multiset(s[..k]) <= multiset(s)
  {
    assert s == s[..k] + s[k..];
  }

  lemma PrefixIsChoice(all: seq<Utxo>, k: nat)
    requires 1 <= k <= |all|
    ensures Choice(SortDescending(all)[..k], all)
  {
    var s := SortDescending(all);
    PrefixWithin(s, k);
  }

  lemma FewerBytesCheaper(size: int, larger: int, rate: nat)
    requires size <= larger
    ensures size * rate <= larger * rate
  {
    Distribute(larger, size, rate);
    if size < larger {
      TimesAtLeast(larger - size, rate);
    }
  }

  lemma AlignedSizesAscend(all: seq<Utxo>)
    requires Aligned(all)
    ensures Descending(SortDescending(all), NegVSize)
  {
    var s := SortDescending(all);
    forall i, j | 0 <= i < j < |s| ensures NegVSize(s[i]) >= NegVSize(s[j]) {
      assert s[i] in multiset(s) && s[j] in multiset(s);
      assert AmountOf(s[i]) >= AmountOf(s[j]);
    }
  }

  /** When sizes are aligned with values, any covering choice is matched by the prefix of the same length. */
  lemma AlignedCoversByPrefix(all: seq<Utxo>, want: nat, rate: nat, pick: seq<Utxo>)
    requires Aligned(all) && Choice(pick, all) && Covers(pick, want, rate)
    ensures |pick| <= |all| && Covers(SortDescending(all)[..|pick|], want, rate)
  {
    var s := SortDescending(all);
    AlignedSizesAscend(all);
    Exchange(s, pick, AmountOf);
    Exchange(s, pick, NegVSize);
    TotalNegated(pick);
    TotalNegated(s[..|pick|]);
    FewerBytesCheaper(EstimateVSize(s[..|pick|], 2), EstimateVSize(pick, 2), rate);
  }

  lemma FewestCoins(all: seq<Utxo>, want: nat, rate: nat, k: nat)
    requires 1 <= k <= |all| && forall j :: 1 <= j < k ==> !Covers(SortDescending(all)[..j], want, rate)
    ensures Aligned(all) ==> forall pick :: Choice(pick, all) && Covers(pick, want, rate) ==> k <= |pick|
  {
    if Aligned(all) {
      forall pick | Choice(pick, all) && Covers(pick, want, rate) ensures k <= |pick| {
        AlignedCoversByPrefix(all, want, rate, pick);
      }
    }
  }

  lemma NothingCovers(all: seq<Utxo>, want: nat, rate: nat)
    requires forall j :: 1 <= j <= |all| ==> !Covers(SortDescending(all)[..j], want, rate)
    ensures Aligned(all) ==> !Coverable(all, want, rate)
  {
    if Aligned(all) && Coverable(all, want, rate) {
      var pick :| Choice(pick, all) && Covers(pick, want, rate);
      AlignedCoversByPrefix(all, want, rate, pick);
      assert false;
    }
  }

  /** Coins of one script class are aligned, whatever their values. */
  lemma OneClassIsOptimal(all: seq<Utxo>, want: nat, rate: nat)
    requires forall u, v :: u in all && v in all ==> VSize(u) == VSize(v)
    ensures Coverable(all, want, rate) <==> GreedySucceeds(all, want, rate)
  {
    if Coverable(all, want, rate) {
      var pick :| Choice(pick, all) && Covers(pick, want, rate);
      AlignedCoversByPrefix(all, want, rate, pick);
    }
    if GreedySucceeds(all, want, rate) {
      var k :| 1 <= k <= |all| && Covers(SortDescending(all)[..k], want, rate);
      PrefixIsChoice(all, k);
    }
  }

  // ---- mixed script classes: exactly when nothing is missed ----

  /** What a coin adds after paying for its own bytes. */
  function NetOf(rate: nat): Utxo -> int {
    (u: Utxo) => u.amount - VSize(u) * rate
  }

  function GainOf(rate: nat): Utxo -> int {
    (u: Utxo) => if NetOf(rate)(u) > 0 then NetOf(rate)(u) else 0
  }

  lemma AddTimes(v: int, w: int, rate: int)
    ensures (v + w) * rate == v * rate + w * rate
  {
  }

  lemma {:induction false} NetSplit(us: seq<Utxo>, rate: nat)
    ensures Total(us, NetOf(rate)) == Total(us, AmountOf) - Total(us, VSize) * rate
  {
    if us != [] {
      hide VSize;
      NetSplit(us[1..], rate);
      AddTimes(VSize(us[0]), Total(us[1..], VSize), rate);
      assert NetOf(rate)(us[0]) == us[0].amount - VSize(us[0]) * rate;
    }
  }

  lemma CoversByNet(us: seq<Utxo>, want: nat, rate: nat)
    ensures Covers(us, want, rate) <==> Total(us, NetOf(rate)) >= want + 73 * rate
  {
    NetSplit(us, rate);
    AddTimes(73, Total(us, VSize), rate);
  }

  /** No choice nets more than the coins that pay for themselves. */
  lemma {:induction false} NetAtMostGain(all: seq<Utxo>, pick: seq<Utxo>, rate: nat)
    requires multiset(pick) <= multiset(all)
    ensures Total(pick, NetOf(rate)) <= Total(all, GainOf(rate))
  {
    if pick == [] {
      GainNonNegative(all, rate);
    } else {
      var u := pick[0];
      assert u in multiset(pick);
      var i :| 0 <= i < |all| && all[i] == u;
      TakeSame(pick, 0, all, i);
      assert Without(pick, 0) == pick[1..];
      NetAtMostGain(Without(all, i), pick[1..], rate);
      TotalRemove(all, i, GainOf(rate));
    }
  }

  lemma {:induction false} GainNonNegative(us: seq<Utxo>, rate: nat)
    ensures Total(us, GainOf(rate)) >= 0
  {
    if us != [] {
      GainNonNegative(us[1..], rate);
    }
  }

  function Paying(all: seq<Utxo>, rate: nat): seq<Utxo> {
    if all == [] then []
    else (if NetOf(rate)(all[0]) > 0 then [all[0]] else []) + Paying(all[1..], rate)
  }

  lemma {:induction false} PayingReachesGain(all: seq<Utxo>, rate: nat)
    ensures multiset(Paying(all, rate)) <= multiset(all)
    ensures Total(Paying(all, rate), NetOf(rate)) == Total(all, GainOf(rate))
  {
    if all != [] {
      PayingReachesGain(all[1..], rate);
      assert all == [all[0]] + all[1..];
      var rest := Paying(all[1..], rate);
      if NetOf(rate)(all[0]) > 0 {
        assert ([all[0]] + rest)[1..] == rest;
      } else {
        assert [] + rest == rest;
      }
    }
  }

  /** Some prefix sum reaches what the self-paying coins are worth together. */
  ghost predicate PrefixReachesGain(all: seq<Utxo>, rate: nat) {
    exists k :: 1 <= k <= |all| && Total(SortDescending(all)[..k], NetOf(rate)) >= Total(all, GainOf(rate))
  }

  lemma CompleteByPrefix(all: seq<Utxo>, rate: nat)
    ensures (forall want: nat :: Coverable(all, want, rate) ==> GreedySucceeds(all, want, rate))
       <==> all == [] || Total(all, GainOf(rate)) < 73 * rate || PrefixReachesGain(all, rate)
  {
    var gain := Total(all, GainOf(rate));
    if all == [] || gain < 73 * rate || PrefixReachesGain(all, rate) {
      forall want: nat | Coverable(all, want, rate) ensures GreedySucceeds(all, want, rate) {
        var pick :| Choice(pick, all) && Covers(pick, want, rate);
        assert all != [] by {
          assert pick[0] in multiset(pick);
        }
        NetAtMostGain(all, pick, rate);
        CoversByNet(pick, want, rate);
        var k :| 1 <= k <= |all| && Total(SortDescending(all)[..k], NetOf(rate)) >= gain;
        CoversByNet(SortDescending(all)[..k], want, rate);
      }
    } else {
      var want: nat := gain - 73 * rate;
      var pick := Paying(all, rate);
      PayingReachesGain(all, rate);
      if pick == [] {
        SmallestGain(all, rate);
        assert false;
      }
      CoversByNet(pick, want, rate);
      assert Coverable(all, want, rate);
      forall k | 1 <= k <= |all| ensures !Covers(SortDescending(all)[..k], want, rate) {
        CoversByNet(SortDescending(all)[..k], want, rate);
      }
      assert !GreedySucceeds(all, want, rate);
    }
  }

  // ---- the same test, coin by coin ----

  /** No coin that costs more than it is worth comes before one that pays for itself. */
  ghost predicate Orderly(s: seq<Utxo>, rate: nat) {
    forall i, j :: 0 <= i < j < |s| ==> NetOf(rate)(s[i]) >= 0 || NetOf(rate)(s[j]) <= 0
  }

  ghost predicate NoneLoses(s: seq<Utxo>, rate: nat) {
    forall i :: 0 <= i < |s| ==> NetOf(rate)(s[i]) >= 0
  }

  ghost predicate NonePays(s: seq<Utxo>, rate: nat) {
    forall i :: 0 <= i < |s| ==> NetOf(rate)(s[i]) <= 0
  }

  lemma {:induction false} TotalConcat(p: seq<Utxo>, q: seq<Utxo>, f: Utxo -> int)
    ensures Total(p + q, f) == Total(p, f) + Total(q, f)
  {
    if p == [] {
      assert p + q == q;
    } else {
      assert (p + q)[1..] == p[1..] + q;
      TotalConcat(p[1..], q, f);
    }
  }

  lemma TotalFront(p: seq<Utxo>, f: Utxo -> int)
    requires p != []
    ensures Total(p, f) == f(p[0]) + Total(p[1..], f)
  {
  }

  lemma {:induction false} TotalPermuted(p: seq<Utxo>, q: seq<Utxo>, f: Utxo -> int)
    requires multiset(p) == multiset(q)
    ensures Total(p, f) == Total(q, f)
  {
    if p == [] {
      assert |q| == |multiset(q)| == 0;
    } else {
      assert p[0] in multiset(q);
      var j :| 0 <= j < |q| && q[j] == p[0];
      TotalRemove(q, j, f);
      assert Without(p, 0) == p[1..];
      hide Total, Without;
      TakeSame(p, 0, q, j);
      TakeSame(q, j, p, 0);
      TotalPermuted(p[1..], Without(q, j), f);
      TotalFront(p, f);
    }
  }

  /** Nets fall short of gains exactly when some coin loses. */
  lemma {:induction false} NetWithinGain(s: seq<Utxo>, rate: nat)
    ensures Total(s, NetOf(rate)) <= Total(s, GainOf(rate))
    ensures Total(s, NetOf(rate)) == Total(s, GainOf(rate)) <==> NoneLoses(s, rate)
  {
    hide NetOf;
    if s != [] {
      NetWithinGain(s[1..], rate);
      NoneLosesSplit(s, rate);
      hide NoneLoses;
    }
  }

  lemma NoneLosesSplit(s: seq<Utxo>, rate: nat)
    requires s != []
    ensures NoneLoses(s, rate) <==> NetOf(rate)(s[0]) >= 0 && NoneLoses(s[1..], rate)
  {
    hide NetOf;
    assert forall i :: 1 <= i < |s| ==> s[i] == s[1..][i - 1];
  }

  lemma {:induction false} GainIsZeroIff(s: seq<Utxo>, rate: nat)
    ensures Total(s, GainOf(rate)) == 0 <==> NonePays(s, rate)
  {
    hide NetOf;
    if s != [] {
      GainIsZeroIff(s[1..], rate);
      GainNonNegative(s[1..], rate);
      NonePaysSplit(s, rate);
      hide NonePays;
    }
  }

  lemma NonePaysSplit(s: seq<Utxo>, rate: nat)
    requires s != []
    ensures NonePays(s, rate) <==> NetOf(rate)(s[0]) <= 0 && NonePays(s[1..], rate)
  {
    hide NetOf;
    assert forall i :: 1 <= i < |s| ==> s[i] == s[1..][i - 1];
  }

  /** A prefix reaches the whole gain exactly when no coin in it loses and none after it pays. */
  lemma PrefixReachesIff(s: seq<Utxo>, rate: nat, k: nat)
    requires k <= |s|
    ensures Total(s[..k], NetOf(rate)) >= Total(s, GainOf(rate)) <==> NoneLoses(s[..k], rate) && NonePays(s[k..], rate)
  {
    hide *;
    assert s == s[..k] + s[k..];
    TotalConcat(s[..k], s[k..], GainOf(rate));
    NetWithinGain(s[..k], rate);
    GainIsZeroIff(s[k..], rate);
    GainNonNegative(s[k..], rate);
  }

  lemma SplitIsOrderly(s: seq<Utxo>, rate: nat, k: nat)
    requires k <= |s| && NoneLoses(s[..k], rate) && NonePays(s[k..], rate)
    ensures Orderly(s, rate)
  {
    hide NetOf;
    assert forall j :: k <= j < |s| ==> s[j] == s[k..][j - k];
    assert forall i :: 0 <= i < k ==> s[i] == s[..k][i];
  }

  /** An orderly list splits after its last paying coin. */
  lemma {:induction false} OrderlySplits(s: seq<Utxo>, rate: nat) returns (k: nat)
    requires Orderly(s, rate)
    ensures k <= |s| && NoneLoses(s[..k], rate) && NonePays(s[k..], rate)
  {
    hide NetOf;
    if s == [] {
      k := 0;
    } else if NetOf(rate)(s[|s| - 1]) > 0 {
      k := |s|;
    } else {
      var front := s[..|s| - 1];
      k := OrderlySplits(front, rate);
      assert front[..k] == s[..k] && s[k..] == front[k..] + [s[|s| - 1]];
    }
  }

  /** For a wallet whose paying coins can cover some request, the two tests agree. */
  lemma OrderlyIff(all: seq<Utxo>, rate: nat)
    requires all != [] && Total(all, GainOf(rate)) >= 73 * rate
    ensures PrefixReachesGain(all, rate) <==> Orderly(SortDescending(all), rate)
  {
    var s := SortDescending(all);
    TotalPermuted(s, all, GainOf(rate));
    hide SortDescending, Total, NetOf, GainOf, Orderly, NoneLoses, NonePays;
    if PrefixReachesGain(all, rate) {
      var k :| 1 <= k <= |all| && Total(s[..k], NetOf(rate)) >= Total(all, GainOf(rate));
      PrefixReachesIff(s, rate, k);
      SplitIsOrderly(s, rate, k);
    }
    if Orderly(s, rate) {
      var k := OrderlySplits(s, rate);
      if k == 0 {
        assert s[0..] == s;
        GainIsZeroIff(s, rate);
        SmallestGain(all, rate);
      } else {
        PrefixReachesIff(s, rate, k);
        assert Total(s[..k], NetOf(rate)) >= Total(all, GainOf(rate));
      }
    }
  }

  /**
    Selection finds coins for every request that some coins cover exactly when no request is coverable at all or, among
    the coins sorted largest first, none that costs more than it is worth comes before one that pays for itself.
  */
  lemma GreedyCompleteIff(all: seq<Utxo>, rate: nat)
    ensures (forall want: nat :: Coverable(all, want, rate) ==> GreedySucceeds(all, want, rate))
       <==> all == [] || Total(all, GainOf(rate)) < 73 * rate || Orderly(SortDescending(all), rate)
  {
    CompleteByPrefix(all, rate);
    hide Coverable, GreedySucceeds, PrefixReachesGain, Orderly, Total, SortDescending;
    if all != [] && Total(all, GainOf(rate)) >= 73 * rate {
      OrderlyIff(all, rate);
    }
  }

  /** With a zero gain a zero rate leaves only worthless coins, and one of them reaches it. */
  lemma SmallestGain(all: seq<Utxo>, rate: nat)
    requires all != [] && Total(all, GainOf(rate)) == 0 && rate == 0
    ensures PrefixReachesGain(all, rate)
  {
    var first := SortDescending(all)[..1];
    assert first[1..] == [];
    assert Total(first, NetOf(rate)) == NetOf(rate)(first[0]) + Total(first[1..], NetOf(rate));
    assert NetOf(rate)(first[0]) == first[0].amount;
  }

  lemma SortTwo(u: Utxo, v: Utxo)
    requires u.amount < v.amount
    ensures SortDescending([u, v]) == [v, u]
  {
    assert [u, v][1..] == [v] && [v][1..] == [];
    assert SortDescending([v]) == [v];
  }

  /** A wallet of two classes on which selection fails although its smaller coin alone covers the request. */
  lemma MixedClassesCanBeMissed()
    ensures var legacy := Utxo("a:0", 146000, "p2pkh", "m/0/0");
            var segwit := Utxo("b:0", 145000, "p2wpkh", "m/0/1");
            && Covers([segwit], 4000, 1000)
            && !GreedySucceeds([segwit, legacy], 4000, 1000)
  {
    var legacy := Utxo("a:0", 146000, "p2pkh", "m/0/0");
    var segwit := Utxo("b:0", 145000, "p2wpkh", "m/0/1");
    SortTwo(segwit, legacy);
    hide SortDescending;
    assert VSize(legacy) == 148 && VSize(segwit) == 68;
    hide VSize;
    TotalOne(segwit, AmountOf);
    TotalOne(segwit, VSize);
    TotalTwo(legacy, segwit, AmountOf);
    TotalTwo(legacy, segwit, VSize);
    TotalOne(legacy, AmountOf);
    TotalOne(legacy, VSize);
    hide Total;
    assert !Covers([legacy], 4000, 1000) && !Covers([legacy, segwit], 4000, 1000);
    hide Covers;
    forall k | 1 <= k <= 2 ensures !Covers([legacy, segwit][..k], 4000, 1000) {
      assert [legacy, segwit][..k] == if k == 1 then [legacy] else [legacy, segwit];
    }
  }

  lemma TotalOne(u: Utxo, f: Utxo -> int)
    ensures Total([u], f) == f(u)
  {
    assert [u][1..] == [];
  }

  lemma TotalTwo(u: Utxo, v: Utxo, f: Utxo -> int)
    ensures Total([u, v], f) == f(u) + f(v)
  {
    assert [u, v][1..] == [v];
    TotalOne(v, f);
  }

  // ---- fee and change of the transaction built from the selection ----

  datatype Plan = Plan(inputs: seq<Utxo>, recipient: nat, change: Option<int>) {
    function Inputs(): int {
      Total(inputs, AmountOf)
    }

    function MinerFee(): int {
      Inputs() - recipient - change.GetOr(0)
    }
  }

  datatype PlanError = NoSpendableUtxos | Insufficient

  method PlanSend(all: seq<Utxo>, want: nat, rate: nat) returns (r: Result<Plan, PlanError>)
    ensures r.Success? <==> GreedySucceeds(all, want, rate)
    ensures r.Failure? ==> (r.error == NoSpendableUtxos <==> all == [])
    ensures r.Success? ==>
              && var plan := r.value;
              && var fee := EstimateVSize(plan.inputs, 2) * rate;
              && Choice(plan.inputs, all) && plan.recipient == want
              && plan.recipient + plan.change.GetOr(0) + plan.MinerFee() == plan.Inputs()
              && fee <= plan.MinerFee() <= fee + DUST
              && (plan.change.Some? ==> plan.change.value > DUST && plan.MinerFee() == fee)
              && (plan.change.None? ==> plan.Inputs() - want - fee <= DUST)
  {
    if all == [] {
      return Failure(NoSpendableUtxos);
    }
    var s := SelectUtxos(all, want, rate);
    if s.Failure? {
      return Failure(Insufficient);
    }
    var (selected, totalIn) := s.value;
    var fee := EstimateVSize(selected, 2) * rate;
    var change := totalIn - want - fee;
    return Success(Plan(selected, want, if change > DUST then Some(change) else None));
  }

  // ---- ties keep the order given ----

  /** The coins of one amount, in order. */
  function OfAmount(us: seq<Utxo>, amount: nat): seq<Utxo> {
    if us == [] then []
    else (if us[0].amount == amount then [us[0]] else []) + OfAmount(us[1..], amount)
  }

  lemma OfAmountFirst(u: Utxo, us: seq<Utxo>, amount: nat)
    ensures OfAmount([u] + us, amount) == (if u.amount == amount then [u] else []) + OfAmount(us, amount)
  {
    assert ([u] + us)[1..] == us;
  }

  lemma {:induction false} InsertIsStable(u: Utxo, s: seq<Utxo>, amount: nat)
    ensures OfAmount(Insert(u, s), amount) == (if u.amount == amount then [u] else []) + OfAmount(s, amount)
  {
    hide OfAmount;
    if s == [] || s[0].amount <= u.amount {
      OfAmountFirst(u, s, amount);
    } else {
      assert s == [s[0]] + s[1..];
      InsertIsStable(u, s[1..], amount);
      OfAmountFirst(s[0], s[1..], amount);
      OfAmountFirst(s[0], Insert(u, s[1..]), amount);
    }
  }

  /** Coins of equal amount are tried in the order they were given. */
  lemma {:induction false} SortIsStable(s: seq<Utxo>, amount: nat)
    ensures OfAmount(SortDescending(s), amount) == OfAmount(s, amount)
  {
    if s != [] {
      SortIsStable(s[1..], amount);
      InsertIsStable(s[0], SortDescending(s[1..]), amount);
    }
  }

  /** One native segwit coin, two outputs, 141 virtual bytes; a nested one 164; any other 221. */
  lemma TwoOutputSizes(u: Utxo)
    ensures u.script == "p2wpkh" || u.script == "p2wsh" ==> EstimateVSize([u], 2) == 141
    ensures u.script == "p2sh:p2wpkh" || u.script == "p2sh-p2wpkh" ==> EstimateVSize([u], 2) == 164
    ensures u.script == "p2pkh" ==> EstimateVSize([u], 2) == 221
  {
    TotalOne(u, VSize);
  }
}
