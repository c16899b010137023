/**
  Bitcoin history rows (rust/src/txhistory.rs) read as a ledger: what the rows of a whole chain add up to, against
  the value of the account's unspent outputs. Satoshi sums are unbounded here; addresses are already normalised.
*/
module Ledger {
  import opened Wrappers

  type Address = string
  type TxId = string

  datatype Output = Output(value: Option<nat>, address: Option<Address>)
  /** `key` is the address the signing public key encodes to, when the input shows one. */
  datatype Input = Input(key: Option<Address>, prev: TxId, vout: Option<nat>)
  datatype Tx = Tx(txid: TxId, confirmations: int, outs: seq<Output>, ins: seq<Input>)
  datatype Row = Row(from: Address, to: Address, amount: nat, fee: Option<nat>, hash: TxId)

  type Resolver = (TxId, nat) -> Option<nat>

  // ---- what the row builder accumulates ----

  predicate Pays(o: Output, ours: set<Address>) {
    o.address.Some? && o.address.value in ours
  }

  predicate Mine(i: Input, ours: set<Address>) {
    i.key.Some? && i.key.value in ours
  }

  function Received(outs: seq<Output>, ours: set<Address>): nat {
    if outs == [] then 0
    else Received(outs[..|outs| - 1], ours) + (var o := outs[|outs| - 1]; if Pays(o, ours) then o.value.GetOr(0) else 0)
  }

  function TotalOut(outs: seq<Output>): nat {
    if outs == [] then 0 else TotalOut(outs[..|outs| - 1]) + outs[|outs| - 1].value.GetOr(0)
  }

  /** The first address, in output order, that is not ours. */
  function Payee(outs: seq<Output>, ours: set<Address>): Option<Address> {
    if outs == [] then None
    else
      var before := Payee(outs[..|outs| - 1], ours);
      var o := outs[|outs| - 1];
      if before.None? && !Pays(o, ours) then o.address else before
  }

  function ValueSpent(i: Input, prevout: Resolver): Option<nat> {
    if i.vout.Some? then prevout(i.prev, i.vout.value) else None
  }

  function Spent(ins: seq<Input>, ours: set<Address>, prevout: Resolver): nat {
    if ins == [] then 0
    else
      Spent(ins[..|ins| - 1], ours, prevout)
      + (var i := ins[|ins| - 1]; if Mine(i, ours) then ValueSpent(i, prevout).GetOr(0) else 0)
  }

  ghost predicate AnyOurs(ins: seq<Input>, ours: set<Address>) {
    exists k :: 0 <= k < |ins| && Mine(ins[k], ours)
  }

  ghost predicate AllOurs(ins: seq<Input>, ours: set<Address>) {
    forall k :: 0 <= k < |ins| ==> Mine(ins[k], ours)
  }

  ghost predicate SpentKnown(ins: seq<Input>, ours: set<Address>, prevout: Resolver) {
    forall k :: 0 <= k < |ins| && Mine(ins[k], ours) ==> ValueSpent(ins[k], prevout).Some?
  }

  function Floored(x: int): nat {
    if x < 0 then 0 else x
  }

  function Min(x: nat, y: nat): nat {
    if x < y then x else y
  }

  /** The row of one transaction from the account's point of view. */
  ghost function HistoryRow(account: Address, ours: set<Address>, tx: Tx, prevout: Resolver): Option<Row> {
    var received := Received(tx.outs, ours);
    var sentOut := TotalOut(tx.outs) - received;
    var spent := Spent(tx.ins, ours, prevout);
    var spentKnown := SpentKnown(tx.ins, ours, prevout);
    var allOursKnown := AllOurs(tx.ins, ours) && spentKnown;
    ReceivedWithinTotal(tx.outs, ours);
    if tx.confirmations <= 0 then
      None
    else if AnyOurs(tx.ins, ours) then
      Some(Row(account, Payee(tx.outs, ours).GetOr(account),
               if !allOursKnown && spentKnown then Min(sentOut, Floored(spent - received)) else sentOut,
               if allOursKnown then Some(Floored(spent - TotalOut(tx.outs))) else None,
               tx.txid))
    else if received > 0 then
      Some(Row("", account, received, None, tx.txid))
    else
      None
  }

  lemma {:induction false} ReceivedWithinTotal(outs: seq<Output>, ours: set<Address>)
    ensures Received(outs, ours) <= TotalOut(outs)
  {
    if outs != [] {
      ReceivedWithinTotal(outs[..|outs| - 1], ours);
    }
  }

  method ScanOutputs(outs: seq<Output>, ours: set<Address>)
      returns (received: nat, sentOut: nat, totalOut: nat, payee: Option<Address>)
    ensures received == Received(outs, ours) && totalOut == TotalOut(outs) == received + sentOut
    ensures payee == Payee(outs, ours)
  {
    received, sentOut, totalOut, payee := 0, 0, 0, None;
    for k := 0 to |outs|
      invariant received == Received(outs[..k], ours)
      invariant totalOut == TotalOut(outs[..k]) == received + sentOut
      invariant payee == Payee(outs[..k], ours)
    {
      assert outs[..k + 1][..k] == outs[..k];
      var o := outs[k];
      var sats := o.value.GetOr(0);
      totalOut := totalOut + sats;
      if Pays(o, ours) {
        received := received + sats;
      } else {
        sentOut := sentOut + sats;
        if payee.None? {
          payee := o.address;
        }
      }
    }
    assert outs[..|outs|] == outs;
  }

  lemma OneMoreInput(ins: seq<Input>, i: Input, ours: set<Address>, prevout: Resolver)
    ensures AnyOurs(ins + [i], ours) <==> AnyOurs(ins, ours) || Mine(i, ours)
    ensures AllOurs(ins + [i], ours) <==> AllOurs(ins, ours) && Mine(i, ours)
    ensures SpentKnown(ins + [i], ours, prevout)
       <==> SpentKnown(ins, ours, prevout) && (Mine(i, ours) ==> ValueSpent(i, prevout).Some?)
  {
    var all := ins + [i];
    assert all[|ins|] == i && forall k :: 0 <= k < |ins| ==> all[k] == ins[k];
  }

  method ScanInputs(ins: seq<Input>, ours: set<Address>, prevout: Resolver)
      returns (spent: nat, allOursKnown: bool, spentKnown: bool, anyOurs: bool)
    ensures spent == Spent(ins, ours, prevout)
    ensures anyOurs <==> AnyOurs(ins, ours)
    ensures spentKnown <==> SpentKnown(ins, ours, prevout)
    ensures allOursKnown <==> AllOurs(ins, ours) && spentKnown
  {
    spent, allOursKnown, spentKnown, anyOurs := 0, true, true, false;
    assert AllOurs([], ours) && SpentKnown([], ours, prevout) && !AnyOurs([], ours);
    hide AllOurs, SpentKnown, AnyOurs, ValueSpent, Mine;
    for k := 0 to |ins|
      invariant spent == Spent(ins[..k], ours, prevout)
      invariant anyOurs <==> AnyOurs(ins[..k], ours)
      invariant spentKnown <==> SpentKnown(ins[..k], ours, prevout)
      invariant allOursKnown <==> AllOurs(ins[..k], ours) && spentKnown
    {
      assert ins[..k + 1][..k] == ins[..k];
      assert ins[..k + 1] == ins[..k] + [ins[k]];
      OneMoreInput(ins[..k], ins[k], ours, prevout);
      var i := ins[k];
      if !Mine(i, ours) {
        allOursKnown := false;
      } else {
        anyOurs := true;
        match ValueSpent(i, prevout)
        case Some(v) => spent := spent + v;
        case None => allOursKnown, spentKnown := false, false;
      }
    }
    assert ins[..|ins|] == ins;
  }

  method BuildBitcoinHistoryTx(account: Address, ours: set<Address>, tx: Tx, prevout: Resolver)
      returns (row: Option<Row>)
    ensures row == HistoryRow(account, ours, tx, prevout)
  {
    if tx.confirmations <= 0 {
      return None;
    }
    var received, sentOut, totalOut, payee := ScanOutputs(tx.outs, ours);
    var spent, allOursKnown, spentKnown, anyOurs := ScanInputs(tx.ins, ours, prevout);
    if anyOurs {
      var overOutputs := spent as int - totalOut as int;
      var netLoss := spent as int - received as int;
      var fee := if allOursKnown then Some(Floored(overOutputs)) else None;
      var amount := if !allOursKnown && spentKnown then Min(sentOut, Floored(netLoss)) else sentOut;
      return Some(Row(account, payee.GetOr(account), amount, fee, tx.txid));
    } else if received > 0 {
      return Some(Row("", account, received, None, tx.txid));
    } else {
      return None;
    }
  }

  // ---- what a row says, case by case ----

  /** The sum of the outputs that do not pay us. */
  function PaidOthers(outs: seq<Output>, ours: set<Address>): nat {
    if outs == [] then 0
    else (if Pays(outs[0], ours) then 0 else outs[0].value.GetOr(0)) + PaidOthers(outs[1..], ours)
  }

  lemma {:induction false} PaidOthersMore(outs: seq<Output>, o: Output, ours: set<Address>)
    ensures PaidOthers(outs + [o], ours) == PaidOthers(outs, ours) + if Pays(o, ours) then 0 else o.value.GetOr(0)
  {
    if outs == [] {
      assert [] + [o] == [o];
    } else {
      assert (outs + [o])[1..] == outs[1..] + [o];
      PaidOthersMore(outs[1..], o, ours);
    }
  }

  lemma {:induction false} PaidOthersIs(outs: seq<Output>, ours: set<Address>)
    ensures PaidOthers(outs, ours) == TotalOut(outs) - Received(outs, ours)
  {
    if outs != [] {
      var front, o := outs[..|outs| - 1], outs[|outs| - 1];
      PaidOthersIs(front, ours);
      PaidOthersMore(front, o, ours);
      assert outs == front + [o];
    }
  }

  /** The address of some output that does not pay us, before which every output pays us or shows no address. */
  ghost predicate FirstStranger(outs: seq<Output>, ours: set<Address>, a: Address) {
    exists k :: 0 <= k < |outs| && IsFirstStranger(outs, ours, a, k)
  }

  ghost predicate IsFirstStranger(outs: seq<Output>, ours: set<Address>, a: Address, k: nat)
    requires k < |outs|
  {
    && outs[k].address == Some(a) && a !in ours
    && forall i :: 0 <= i < k ==> outs[i].address.None? || outs[i].address.value in ours
  }

  /** The payee is the first stranger paid, if there is one. */
  lemma {:induction false} PayeeIsFirst(outs: seq<Output>, ours: set<Address>)
    ensures Payee(outs, ours).None? <==> forall i :: 0 <= i < |outs| ==> outs[i].address.None? || Pays(outs[i], ours)
    ensures Payee(outs, ours).Some? ==> FirstStranger(outs, ours, Payee(outs, ours).value)
  {
    if outs != [] {
      var front, last := outs[..|outs| - 1], |outs| - 1;
      PayeeIsFirst(front, ours);
      assert forall i :: 0 <= i < last ==> front[i] == outs[i];
      if Payee(front, ours).Some? {
        var a := Payee(front, ours).value;
        var k :| 0 <= k < |front| && IsFirstStranger(front, ours, a, k);
        assert IsFirstStranger(outs, ours, a, k);
      } else if Payee(outs, ours).Some? {
        assert IsFirstStranger(outs, ours, Payee(outs, ours).value, last);
      }
    }
  }

  /** There is a row exactly when the transaction is confirmed and spends or pays what is ours. */
  lemma RowIff(account: Address, ours: set<Address>, tx: Tx, prevout: Resolver)
    ensures HistoryRow(account, ours, tx, prevout).Some?
       <==> tx.confirmations > 0 && (AnyOurs(tx.ins, ours) || Received(tx.outs, ours) > 0)
    ensures HistoryRow(account, ours, tx, prevout).Some? ==>
              HistoryRow(account, ours, tx, prevout).value.hash == tx.txid
  {
  }

  /** Coins that only came in: from nobody, to the account, all that was received, and no fee of ours. */
  lemma IncomingRow(account: Address, ours: set<Address>, tx: Tx, prevout: Resolver)
    requires tx.confirmations > 0 && !AnyOurs(tx.ins, ours) && Received(tx.outs, ours) > 0
    ensures var row := HistoryRow(account, ours, tx, prevout).value;
            row.from == "" && row.to == account && row.amount == Received(tx.outs, ours) && row.fee.None?
  {
  }

  /** Coins that went out go to the first stranger paid, or to ourselves when there is none. */
  lemma OutgoingRow(account: Address, ours: set<Address>, tx: Tx, prevout: Resolver)
    requires tx.confirmations > 0 && AnyOurs(tx.ins, ours)
    ensures var row := HistoryRow(account, ours, tx, prevout).value;
            && row.from == account
            && (FirstStranger(tx.outs, ours, row.to)
                || (row.to == account
                    && forall i :: 0 <= i < |tx.outs| ==> tx.outs[i].address.None? || Pays(tx.outs[i], ours)))
  {
    PayeeIsFirst(tx.outs, ours);
  }

  /**
    The amount and the fee of coins that went out. With a prevout of ours unknown, or nobody else's inputs, the amount
    is all that did not come back; when strangers' inputs joined and ours are known it is at most what we lost. The fee
    is what all the inputs hold beyond the outputs, said only when they are all ours and known.
  */
  lemma OutgoingAmount(account: Address, ours: set<Address>, tx: Tx, prevout: Resolver)
    requires tx.confirmations > 0 && AnyOurs(tx.ins, ours)
    ensures var row := HistoryRow(account, ours, tx, prevout).value;
            var others, spent := PaidOthers(tx.outs, ours), Spent(tx.ins, ours, prevout);
            && (!SpentKnown(tx.ins, ours, prevout) ==> row.amount == others && row.fee.None?)
            && (AllOurs(tx.ins, ours) ==> row.amount == others)
            && (!AllOurs(tx.ins, ours) ==> row.fee.None?)
            && (!AllOurs(tx.ins, ours) && SpentKnown(tx.ins, ours, prevout) ==>
                  && row.amount <= others
                  && (row.amount == others || row.amount == spent - Received(tx.outs, ours) || row.amount == 0)
                  && (spent >= Received(tx.outs, ours) ==> row.amount <= spent - Received(tx.outs, ours))
                  && (row.amount == 0 ==> others == 0 || spent <= Received(tx.outs, ours)))
            && (AllOurs(tx.ins, ours) && SpentKnown(tx.ins, ours, prevout) ==>
                  && row.fee.Some?
                  && (spent >= TotalOut(tx.outs) ==> TotalOut(tx.outs) + row.fee.value == spent)
                  && (spent < TotalOut(tx.outs) ==> row.fee.value == 0))
  {
    PaidOthersIs(tx.outs, ours);
  }

  // ---- the chain the rows describe ----

  type Outpoint = (TxId, nat)
  type Utxos = map<Outpoint, Output>

  function Worth(o: Output, ours: set<Address>): nat {
    if Pays(o, ours) then o.value.GetOr(0) else 0
  }

  /** What the account owns: the value of its unspent outputs. */
  ghost function OurValue(u: Utxos, ours: set<Address>): nat {
    if u == map[] then 0 else var op :| op in u; Worth(u[op], ours) + OurValue(u - {op}, ours)
  }

  function PointOf(i: Input): Outpoint
    requires i.vout.Some?
  {
    (i.prev, i.vout.value)
  }

  /** Every input mints (a coinbase names no output) or spends an output that is still unspent when its turn comes. */
  ghost predicate Spendable(u: Utxos, ins: seq<Input>)
    decreases |ins|, 0
  {
    ins == [] || (var front, i := ins[..|ins| - 1], ins[|ins| - 1];
                  Spendable(u, front) && (i.vout.Some? ==> PointOf(i) in SpendAll(u, front)))
  }

  ghost function SpendAll(u: Utxos, ins: seq<Input>): Utxos
    requires Spendable(u, ins)
    ensures SpendAll(u, ins).Keys <= u.Keys && forall op :: op in SpendAll(u, ins) ==> SpendAll(u, ins)[op] == u[op]
    decreases |ins|, 1
  {
    if ins == [] then u
    else
      var before, i := SpendAll(u, ins[..|ins| - 1]), ins[|ins| - 1];
      if i.vout.Some? then before - {PointOf(i)} else before
  }

  ghost function CreateAll(u: Utxos, txid: TxId, outs: seq<Output>): Utxos {
    if outs == [] then u
    else CreateAll(u, txid, outs[..|outs| - 1])[(txid, |outs| - 1) := outs[|outs| - 1]]
  }

  ghost predicate FreshId(u: Utxos, txid: TxId) {
    forall n: nat :: (txid, n) !in u
  }

  ghost function InputValue(u: Utxos, ins: seq<Input>): nat
    requires Spendable(u, ins)
  {
    if ins == [] then 0
    else
      var front, i := ins[..|ins| - 1], ins[|ins| - 1];
      InputValue(u, front) + (if i.vout.Some? then SpendAll(u, front)[PointOf(i)].value.GetOr(0) else 0)
  }

  /**
    An input as the node reports it: a coinbase, which names no output and is not ours, or one spending an output of
    `u`, signed by our key exactly when that output pays us and then with a value the resolver knows.
  */
  ghost predicate Sound(u: Utxos, i: Input, ours: set<Address>, prevout: Resolver) {
    if i.vout.None? then !Mine(i, ours)
    else
      && PointOf(i) in u
      && (Mine(i, ours) <==> Pays(u[PointOf(i)], ours))
      && (Mine(i, ours) ==> u[PointOf(i)].value.Some? && ValueSpent(i, prevout) == u[PointOf(i)].value)
  }

  /** A confirmed transaction the network accepts on top of `u`. */
  ghost predicate Accepted(u: Utxos, tx: Tx, ours: set<Address>, prevout: Resolver) {
    && tx.confirmations > 0
    && Spendable(u, tx.ins)
    && FreshId(u, tx.txid)
    && (forall k :: 0 <= k < |tx.outs| ==> tx.outs[k].value.Some?)
    && (forall k :: 0 <= k < |tx.ins| ==> Sound(u, tx.ins[k], ours, prevout))
    && (AnyOurs(tx.ins, ours) ==> InputValue(u, tx.ins) >= TotalOut(tx.outs))
  }

  ghost function Apply(u: Utxos, tx: Tx): Utxos
    requires Spendable(u, tx.ins)
  {
    CreateAll(SpendAll(u, tx.ins), tx.txid, tx.outs)
  }

  ghost predicate ValidChain(u: Utxos, txs: seq<Tx>, ours: set<Address>, prevout: Resolver)
    decreases txs
  {
    txs == [] || (Accepted(u, txs[0], ours, prevout) && ValidChain(Apply(u, txs[0]), txs[1..], ours, prevout))
  }

  ghost function Replay(u: Utxos, txs: seq<Tx>, ours: set<Address>, prevout: Resolver): Utxos
    requires ValidChain(u, txs, ours, prevout)
    decreases txs
  {
    if txs == [] then u else Replay(Apply(u, txs[0]), txs[1..], ours, prevout)
  }

  // ---- reading the rows ----

  /** What a reader of the history adds or subtracts for one row. */
  function RowNet(row: Option<Row>): int {
    match row
    case None => 0
    case Some(r) => if r.from == "" then r.amount else -(r.amount + r.fee.GetOr(0))
  }

  ghost function HistoryNet(account: Address, txs: seq<Tx>, ours: set<Address>, prevout: Resolver): int {
    if txs == [] then 0
    else RowNet(HistoryRow(account, ours, txs[0], prevout)) + HistoryNet(account, txs[1..], ours, prevout)
  }

  /** Strangers' inputs joined ours. */
  ghost predicate Joint(tx: Tx, ours: set<Address>) {
    AnyOurs(tx.ins, ours) && !AllOurs(tx.ins, ours)
  }

  /** What the row of a joint transaction leaves out of the ledger. */
  ghost function Gap(tx: Tx, ours: set<Address>, prevout: Resolver): int {
    var received := Received(tx.outs, ours);
    var spent := Spent(tx.ins, ours, prevout);
    ReceivedWithinTotal(tx.outs, ours);
    if Joint(tx, ours) then (spent - received) - Min(TotalOut(tx.outs) - received, Floored(spent - received)) else 0
  }

  ghost function GapSum(txs: seq<Tx>, ours: set<Address>, prevout: Resolver): int {
    if txs == [] then 0 else Gap(txs[0], ours, prevout) + GapSum(txs[1..], ours, prevout)
  }

  // ---- sums over the unspent set ----

  lemma {:induction false} OurValueRemove(u: Utxos, op: Outpoint, ours: set<Address>)
    requires op in u
    ensures OurValue(u, ours) == Worth(u[op], ours) + OurValue(u - {op}, ours)
    decreases |u|
  {
    var first :| first in u && OurValue(u, ours) == Worth(u[first], ours) + OurValue(u - {first}, ours);
    if first != op {
      OurValueRemove(u - {first}, op, ours);
      OurValueRemove(u - {op}, first, ours);
      assert u - {first} - {op} == u - {op} - {first};
    }
  }

  lemma {:induction false} SpendLowersByOurs(u: Utxos, ins: seq<Input>, ours: set<Address>, prevout: Resolver)
    requires Spendable(u, ins)
    requires forall k :: 0 <= k < |ins| ==> Sound(u, ins[k], ours, prevout)
    ensures OurValue(u, ours) == OurValue(SpendAll(u, ins), ours) + Spent(ins, ours, prevout)
  {
    if ins != [] {
      var front, i := ins[..|ins| - 1], ins[|ins| - 1];
      SpendLowersByOurs(u, front, ours, prevout);
      assert Sound(u, i, ours, prevout);
      if i.vout.Some? {
        OurValueRemove(SpendAll(u, front), PointOf(i), ours);
      }
    }
  }

  lemma {:induction false} CreateKeepsForeign(u: Utxos, txid: TxId, outs: seq<Output>, n: nat)
    requires FreshId(u, txid) && n >= |outs|
    ensures (txid, n) !in CreateAll(u, txid, outs)
  {
    if outs != [] {
      CreateKeepsForeign(u, txid, outs[..|outs| - 1], n);
    }
  }

  lemma {:induction false} CreateRaisesByReceived(u: Utxos, txid: TxId, outs: seq<Output>, ours: set<Address>)
    requires FreshId(u, txid)
    ensures OurValue(CreateAll(u, txid, outs), ours) == OurValue(u, ours) + Received(outs, ours)
  {
    if outs != [] {
      var front := outs[..|outs| - 1];
      CreateRaisesByReceived(u, txid, front, ours);
      CreateKeepsForeign(u, txid, front, |front|);
      var before := CreateAll(u, txid, front);
      var after := CreateAll(u, txid, outs);
      OurValueRemove(after, (txid, |front|), ours);
      assert after - {(txid, |front|)} == before;
    }
  }

  lemma {:induction false} AllOursSpendEverything(u: Utxos, ins: seq<Input>, ours: set<Address>, prevout: Resolver)
    requires Spendable(u, ins)
    requires forall k :: 0 <= k < |ins| ==> Sound(u, ins[k], ours, prevout) && Mine(ins[k], ours)
    ensures InputValue(u, ins) == Spent(ins, ours, prevout)
  {
    if ins != [] {
      AllOursSpendEverything(u, ins[..|ins| - 1], ours, prevout);
      assert Sound(u, ins[|ins| - 1], ours, prevout);
    }
  }

  lemma {:induction false} NothingOursSpendsNothing(ins: seq<Input>, ours: set<Address>, prevout: Resolver)
    requires !AnyOurs(ins, ours)
    ensures Spent(ins, ours, prevout) == 0
  {
    if ins != [] {
      var front := ins[..|ins| - 1];
      assert forall k :: 0 <= k < |front| ==> front[k] == ins[k];
      NothingOursSpendsNothing(front, ours, prevout);
    }
  }

  // ---- the ledger theorem ----

  /** One accepted transaction: its row and its gap account for the change in what we own. */
  lemma RowMatchesChange(account: Address, u: Utxos, tx: Tx, ours: set<Address>, prevout: Resolver)
    requires account != "" && Accepted(u, tx, ours, prevout)
    ensures OurValue(Apply(u, tx), ours) - OurValue(u, ours)
         == RowNet(HistoryRow(account, ours, tx, prevout)) - Gap(tx, ours, prevout)
  {
    SpendLowersByOurs(u, tx.ins, ours, prevout);
    CreateRaisesByReceived(SpendAll(u, tx.ins), tx.txid, tx.outs, ours);
    ReceivedWithinTotal(tx.outs, ours);
    if !AnyOurs(tx.ins, ours) {
      NothingOursSpendsNothing(tx.ins, ours, prevout);
    } else if AllOurs(tx.ins, ours) {
      AllOursSpendEverything(u, tx.ins, ours, prevout);
    }
  }

  /** Over any accepted chain the rows add up to what we own, plus exactly the gaps of the joint transactions. */
  lemma {:induction false} LedgerWithGaps(
      account: Address, u: Utxos, txs: seq<Tx>, ours: set<Address>, prevout: Resolver)
    requires account != "" && ValidChain(u, txs, ours, prevout)
    ensures HistoryNet(account, txs, ours, prevout)
         == OurValue(Replay(u, txs, ours, prevout), ours) - OurValue(u, ours) + GapSum(txs, ours, prevout)
    decreases txs
  {
    if txs != [] {
      RowMatchesChange(account, u, txs[0], ours, prevout);
      LedgerWithGaps(account, Apply(u, txs[0]), txs[1..], ours, prevout);
    }
  }

  lemma GapIsZeroIff(tx: Tx, ours: set<Address>, prevout: Resolver)
    requires Joint(tx, ours)
    ensures Gap(tx, ours, prevout) == 0
       <==> Received(tx.outs, ours) <= Spent(tx.ins, ours, prevout) <= TotalOut(tx.outs)
  {
    ReceivedWithinTotal(tx.outs, ours);
  }

  /**
    The row of a joint transaction is the change in what we own exactly when we lost coins and spent no more than the
    outputs hold.
  */
  lemma JointRowExactIff(account: Address, u: Utxos, tx: Tx, ours: set<Address>, prevout: Resolver)
    requires account != "" && Accepted(u, tx, ours, prevout) && Joint(tx, ours)
    ensures RowNet(HistoryRow(account, ours, tx, prevout)) == OurValue(Apply(u, tx), ours) - OurValue(u, ours)
       <==> Received(tx.outs, ours) <= Spent(tx.ins, ours, prevout) <= TotalOut(tx.outs)
  {
    RowMatchesChange(account, u, tx, ours, prevout);
    GapIsZeroIff(tx, ours, prevout);
  }

  /** Without joint transactions, from an empty wallet, the history is the balance. */
  lemma {:induction false} LedgerBalances(account: Address, txs: seq<Tx>, ours: set<Address>, prevout: Resolver)
    requires account != "" && ValidChain(map[], txs, ours, prevout)
    requires forall k :: 0 <= k < |txs| ==> AnyOurs(txs[k].ins, ours) ==> AllOurs(txs[k].ins, ours)
    ensures HistoryNet(account, txs, ours, prevout) == OurValue(Replay(map[], txs, ours, prevout), ours)
  {
    LedgerWithGaps(account, map[], txs, ours, prevout);
    NoJointNoGap(txs, ours, prevout);
  }

  lemma {:induction false} NoJointNoGap(txs: seq<Tx>, ours: set<Address>, prevout: Resolver)
    requires forall k :: 0 <= k < |txs| ==> !Joint(txs[k], ours)
    ensures GapSum(txs, ours, prevout) == 0
  {
    if txs != [] {
      NoJointNoGap(txs[1..], ours, prevout);
    }
  }

  /** When strangers' inputs join and our prevouts are known, the row never claims more than our net loss. */
  lemma JointRowWithinLoss(account: Address, tx: Tx, ours: set<Address>, prevout: Resolver)
    requires tx.confirmations > 0 && Joint(tx, ours) && SpentKnown(tx.ins, ours, prevout)
    ensures var row := HistoryRow(account, ours, tx, prevout);
            && row.Some? && row.value.fee == None
            && row.value.amount <= Floored(Spent(tx.ins, ours, prevout) - Received(tx.outs, ours))
  {
    ReceivedWithinTotal(tx.outs, ours);
  }

  // ---- two chains ----

  function Known(prev: TxId, n: nat): Option<nat> {
    if prev == "ours" && n == 0 then Some(10) else None
  }

  /** A coinbase as the node reports it starts a chain from nothing, and its row is the balance. */
  lemma CoinbaseStartsChain(account: Address, txid: TxId, reward: nat, prevout: Resolver)
    requires account != "" && reward > 0
    ensures var tx := Tx(txid, 1, [Output(Some(reward), Some(account))], [Input(None, "", None)]);
            && ValidChain(map[], [tx], {account}, prevout)
            && HistoryNet(account, [tx], {account}, prevout) == reward
            && OurValue(Replay(map[], [tx], {account}, prevout), {account}) == reward
  {
    var ours := {account};
    var input := Input(None, "", None);
    var tx := Tx(txid, 1, [Output(Some(reward), Some(account))], [input]);
    assert [input][..0] == [] && tx.outs[..0] == [];
    assert Spendable(map[], [input]);
    assert forall k :: 0 <= k < 1 ==> !Mine([input][k], ours);
    assert !AnyOurs([input], ours);
    assert Accepted(map[], tx, ours, prevout);
    assert [tx][1..] == [];
    assert Received(tx.outs, ours) == reward;
    assert HistoryNet(account, [tx], ours, prevout) == reward + HistoryNet(account, [], ours, prevout);
    LedgerBalances(account, [tx], ours, prevout);
  }

  const OURS_INPUT := Input(Some("me"), "ours", Some(0))
  const THEIR_INPUT := Input(None, "theirs", Some(0))
  const BEFORE: Utxos :=
    map[("ours", 0) := Output(Some(10), Some("me")), ("theirs", 0) := Output(Some(1), Some("them"))]
  const JOINT := Tx("t", 1, [Output(Some(5), Some("shop"))], [OURS_INPUT, THEIR_INPUT])

  lemma JointInputs()
    ensures Spendable(BEFORE, JOINT.ins) && InputValue(BEFORE, JOINT.ins) == 11
  {
    assert JOINT.ins[..1] == [OURS_INPUT] && [OURS_INPUT][..0] == [];
    var left := BEFORE - {("ours", 0)};
    assert ("theirs", 0) in left && left[("theirs", 0)] == BEFORE[("theirs", 0)] == Output(Some(1), Some("them"));
    assert Spendable(BEFORE, []) && SpendAll(BEFORE, []) == BEFORE && PointOf(OURS_INPUT) == ("ours", 0);
    assert Spendable(BEFORE, [OURS_INPUT]) && SpendAll(BEFORE, [OURS_INPUT]) == left;
    assert InputValue(BEFORE, [OURS_INPUT]) == 10;
  }

  lemma JointSums(ours: set<Address>)
    requires ours == {"me"}
    ensures Spent(JOINT.ins, ours, Known) == 10 && TotalOut(JOINT.outs) == 5 && Received(JOINT.outs, ours) == 0
    ensures Payee(JOINT.outs, ours) == Some("shop")
    ensures Joint(JOINT, ours) && SpentKnown(JOINT.ins, ours, Known)
  {
    assert JOINT.ins[..1] == [OURS_INPUT] && [OURS_INPUT][..0] == [] && JOINT.outs[..0] == [];
    assert Mine(JOINT.ins[0], ours) && !Mine(JOINT.ins[1], ours);
    assert Spent([OURS_INPUT], ours, Known) == 10;
  }

  /** We spend 10 and a stranger 1 for outputs of 5: the account lost 10 and the row says 5. */
  lemma JointRowUnderstates()
    ensures var ours: set<Address> := {"me"};
            && Accepted(BEFORE, JOINT, ours, Known) && Joint(JOINT, ours)
            && HistoryRow("me", ours, JOINT, Known) == Some(Row("me", "shop", 5, None, "t"))
            && OurValue(Apply(BEFORE, JOINT), ours) - OurValue(BEFORE, ours) == -10
  {
    var ours: set<Address> := {"me"};
    JointInputs();
    JointSums(ours);
    assert Sound(BEFORE, OURS_INPUT, ours, Known) && Sound(BEFORE, THEIR_INPUT, ours, Known);
    hide Spendable, InputValue, Spent, TotalOut, Received, Payee, SpentKnown, OurValue;
    assert Accepted(BEFORE, JOINT, ours, Known);
    RowMatchesChange("me", BEFORE, JOINT, ours, Known);
  }
}
