/**
  Amount, fee and change of `spend_bitcoin` (rust/src/bitfi.rs), in the checked and saturating 64-bit arithmetic it
  uses. The main result is that the machine arithmetic decides exactly what unbounded integers would.
*/
module BitfiSpend {
  import opened Wrappers

  const U64_MAX := 0xFFFF_FFFF_FFFF_FFFF
  type U64 = n: nat | n <= U64_MAX

  datatype Amount = Max | Exact(sats: U64)
  datatype Kind = Legacy | Segwit
  datatype Spend = Spend(amount: nat, fee: nat, change: nat)
  datatype Error = NothingToSpend | Overflow | NotCovered | TooSmall

  function CheckedAdd(a: U64, b: U64): Option<U64> {
    if a + b <= U64_MAX then Some(a + b) else None
  }

  function CheckedSub(a: U64, b: U64): Option<U64> {
    if a >= b then Some(a - b) else None
  }

  function SaturatingMul(a: nat, b: U64): U64 {
    if a * b <= U64_MAX then a * b else U64_MAX
  }

  function CheckedSum(amounts: seq<U64>): Option<U64> {
    if amounts == [] then Some(0)
    else
      match CheckedSum(amounts[..|amounts| - 1])
      case None => None
      case Some(sum) => CheckedAdd(sum, amounts[|amounts| - 1])
  }

  function Dust(isDoge: bool): U64 {
    if isDoge then 1_000_000 else 546
  }

  function EstimateVsize(kind: Kind, inputs: nat, outputs: nat): nat {
    (if kind == Segwit then 11 + inputs * 68 else 10 + inputs * 180) + outputs * 43
  }

  function SpendBitcoin(isDoge: bool, kind: Kind, amounts: seq<U64>, amount: Amount, feeRate: U64):
      Result<Spend, Error>
  {
    if amounts == [] then Failure(NothingToSpend)
    else
      match CheckedSum(amounts)
      case None => Failure(Overflow)
      case Some(total) =>
        match Split(isDoge, kind, |amounts|, total, amount, feeRate)
        case None => Failure(NotCovered)
        case Some((sent, change)) =>
          if sent <= Dust(isDoge) then Failure(TooSmall) else Success(Spend(sent, total - sent - change, change))
  }

  /** What is sent and what comes back, if the inputs cover it. */
  function Split(isDoge: bool, kind: Kind, count: nat, total: U64, amount: Amount, feeRate: U64):
      (r: Option<(U64, U64)>)
    ensures r.Some? ==> r.value.0 + r.value.1 <= total
  {
    match amount
    case Max =>
      (match CheckedSub(total, SaturatingMul(EstimateVsize(kind, count, 1), feeRate))
       case None => None
       case Some(sent) => Some((sent, 0)))
    case Exact(sent) =>
      match CheckedAdd(sent, SaturatingMul(EstimateVsize(kind, count, 2), feeRate))
      case None => None
      case Some(needed) =>
        match CheckedSub(total, needed)
        case None => None
        case Some(spare) => Some((sent, if spare > Dust(isDoge) then spare else 0))
  }

  // ---- the same decision over unbounded integers ----

  ghost function Sum(amounts: seq<U64>): nat {
    if amounts == [] then 0 else Sum(amounts[..|amounts| - 1]) + amounts[|amounts| - 1]
  }

  lemma {:induction false} CheckedSumIs(amounts: seq<U64>)
    ensures CheckedSum(amounts) == if Sum(amounts) <= U64_MAX then Some(Sum(amounts)) else None
  {
    if amounts != [] {
      CheckedSumIs(amounts[..|amounts| - 1]);
    }
  }

  /** The network fee at the given rate, with one output or with one for change. */
  ghost function Fee(kind: Kind, count: nat, amount: Amount, feeRate: nat): nat {
    EstimateVsize(kind, count, if amount == Max then 1 else 2) * feeRate
  }

  /** What the sender asks for: all that the fee leaves, or an amount. */
  ghost function Wanted(kind: Kind, amounts: seq<U64>, amount: Amount, feeRate: nat): int {
    if amount == Max then Sum(amounts) - Fee(kind, |amounts|, amount, feeRate) else amount.sats
  }

  /**
    A spend is built exactly when the inputs fit 64 bits, cover the wanted amount and the true fee, and the amount is
    above dust: saturation and checked arithmetic never let through, or refuse, anything else.
  */
  lemma SpendsIff(isDoge: bool, kind: Kind, amounts: seq<U64>, amount: Amount, feeRate: U64)
    ensures SpendBitcoin(isDoge, kind, amounts, amount, feeRate).Success? <==>
            && amounts != []
            && Sum(amounts) <= U64_MAX
            && Wanted(kind, amounts, amount, feeRate) + Fee(kind, |amounts|, amount, feeRate) <= Sum(amounts)
            && Wanted(kind, amounts, amount, feeRate) > Dust(isDoge)
  {
    CheckedSumIs(amounts);
  }

  /**
    Amount, fee and change account for every input; no unrelayable output is made; the miners get the true fee, plus at
    most the dust a dropped change was.
  */
  lemma SpendConserves(isDoge: bool, kind: Kind, amounts: seq<U64>, amount: Amount, feeRate: U64)
    requires SpendBitcoin(isDoge, kind, amounts, amount, feeRate).Success?
    ensures var s := SpendBitcoin(isDoge, kind, amounts, amount, feeRate).value;
            && s.amount + s.fee + s.change == Sum(amounts)
            && s.amount == Wanted(kind, amounts, amount, feeRate) > Dust(isDoge)
            && (s.change == 0 || s.change > Dust(isDoge))
            && Fee(kind, |amounts|, amount, feeRate) <= s.fee <= Fee(kind, |amounts|, amount, feeRate) + Dust(isDoge)
            && (s.change > 0 || amount == Max ==> s.fee == Fee(kind, |amounts|, amount, feeRate))
  {
    CheckedSumIs(amounts);
    SpendsIff(isDoge, kind, amounts, amount, feeRate);
  }

  /** Plain numbers: a segwit input of 100000 at rate 10, half of it sent, all of it sent, and a change that is dust. */
  lemma OrdinarySpends()
    ensures SpendBitcoin(false, Segwit, [100_000], Exact(50_000), 10) == Success(Spend(50_000, 1_650, 48_350))
    ensures SpendBitcoin(false, Segwit, [100_000], Max, 10) == Success(Spend(98_780, 1_220, 0))
    ensures SpendBitcoin(false, Segwit, [60_000, 40_000], Exact(97_200), 10) == Success(Spend(97_200, 2_800, 0))
    ensures SpendBitcoin(false, Legacy, [100_000], Exact(50_000), 10) == Success(Spend(50_000, 2_760, 47_240))
    ensures SpendBitcoin(true, Legacy, [100_000], Exact(50_000), 10) == Failure(TooSmall)
  {
    CheckedSumIs([100_000]);
    CheckedSumIs([60_000, 40_000]);
    assert Sum([100_000]) == 100_000 by {
      assert [100_000][..0] == [];
    }
    assert Sum([60_000, 40_000]) == 100_000 by {
      assert [60_000, 40_000][..1] == [60_000] && [60_000][..0] == [];
      assert Sum([60_000]) == 60_000;
    }
  }

  /**
    Nothing to spend, then inputs beyond 64 bits, then amount and fee not covered, then an amount of dust. A fee beyond
    64 bits counts as the largest number there is, so at most the reason given differs, never the refusal.
  */
  lemma SpendRefused(isDoge: bool, kind: Kind, amounts: seq<U64>, amount: Amount, feeRate: U64)
    ensures var r := SpendBitcoin(isDoge, kind, amounts, amount, feeRate);
            var exact := Fee(kind, |amounts|, amount, feeRate);
            var fee := if exact <= U64_MAX then exact else U64_MAX;
            var asked := if amount == Max then Sum(amounts) - fee else amount.sats;
            var covered := asked >= 0 && asked + fee <= Sum(amounts);
            && (r == Failure(NothingToSpend) <==> amounts == [])
            && (r == Failure(Overflow) <==> amounts != [] && Sum(amounts) > U64_MAX)
            && (r == Failure(NotCovered) <==> amounts != [] && Sum(amounts) <= U64_MAX && !covered)
            && (r == Failure(TooSmall) <==>
                  amounts != [] && Sum(amounts) <= U64_MAX && covered && asked <= Dust(isDoge))
  {
    CheckedSumIs(amounts);
  }
}
