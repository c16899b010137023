/**
  What the chain makes of a message's bytes: a reader of the legacy message format and the meaning its programs give to
  instructions, neither of which knows the builders. Every transfer built in rust/src/solana.rs and
  rust/src/solana_spl.rs is then shown to move exactly what was asked for.
*/
module SolanaPrograms {
  import opened Wrappers
  import opened Radix
  import opened Solana
  import opened SolanaMessages

  // ---- reading the wire format ----

  /** A compact length and as many bytes, with what follows. */
  ghost function ReadBlock(b: Bytes): Option<(Bytes, Bytes)> {
    match Compact(b)
    case None => None
    case Some((n, used)) => if used + n > |b| then None else Some((b[used..used + n], b[used + n..]))
  }

  ghost function ReadKeys(b: Bytes, n: nat): Option<(seq<Key>, Bytes)> {
    if n == 0 then Some(([], b))
    else if |b| < 32 then None
    else
      match ReadKeys(b[32..], n - 1)
      case None => None
      case Some((keys, rest)) => Some(([b[..32]] + keys, rest))
  }

  ghost function ReadInstruction(b: Bytes): Option<(Instruction, Bytes)> {
    if b == [] then None
    else
      match ReadBlock(b[1..])
      case None => None
      case Some((accounts, tail)) =>
        match ReadBlock(tail)
        case None => None
        case Some((data, rest)) => Some((Instruction(b[0], accounts, data), rest))
  }

  ghost function ReadInstructions(b: Bytes, n: nat): Option<(seq<Instruction>, Bytes)>
    decreases n
  {
    if n == 0 then Some(([], b))
    else
      match ReadInstruction(b)
      case None => None
      case Some((i, tail)) =>
        match ReadInstructions(tail, n - 1)
        case None => None
        case Some((list, rest)) => Some(([i] + list, rest))
  }

  /** The instructions of a message, to its last byte. */
  ghost function ReadTail(b: Bytes): Option<seq<Instruction>> {
    match Compact(b)
    case None => None
    case Some((n, used)) =>
      match ReadInstructions(b[used..], n)
      case None => None
      case Some((list, rest)) => if rest == [] then Some(list) else None
  }

  /** A whole legacy message. */
  ghost function ReadMessage(b: Bytes): Option<LegacyMessage> {
    if |b| < 3 || b[0] >= 128 then None
    else
      match Compact(b[3..])
      case None => None
      case Some((n, used)) =>
        match ReadKeys(b[3 + used..], n)
        case None => None
        case Some((keys, tail)) =>
          if |tail| < 32 then None
          else
            match ReadTail(tail[32..])
            case None => None
            case Some(list) => Some(LegacyMessage(b[0], b[1], b[2], keys, tail[..32], list))
  }

  // ---- the reader inverts the writer ----

  predicate Short(i: Instruction) {
    |i.accounts| <= U16_MAX && |i.data| <= U16_MAX
  }

  predicate Sendable(m: LegacyMessage) {
    && m.required < 128 && |m.keys| <= U16_MAX && |m.instructions| <= U16_MAX
    && forall k :: 0 <= k < |m.instructions| ==> Short(m.instructions[k])
  }

  lemma BlockReadsBack(block: Bytes, rest: Bytes)
    requires |block| <= U16_MAX
    ensures ReadBlock(Varint(|block|) + block + rest) == Some((block, rest))
  {
    hide Varint, Compact;
    CompactOfVarint(|block|, block + rest);
    Behind(Varint(|block|), block, rest);
  }

  lemma Behind(a: Bytes, b: Bytes, c: Bytes)
    ensures var all := a + b + c;
            all == a + (b + c) && all[|a|..|a| + |b|] == b && all[|a| + |b|..] == c
  {
  }

  lemma InstructionReadsBack(i: Instruction, rest: Bytes)
    requires Short(i)
    ensures ReadInstruction(SerializeInstruction(i) + rest) == Some((i, rest))
  {
    hide Varint, ReadBlock;
    var tail := Varint(|i.data|) + i.data + rest;
    var b := SerializeInstruction(i) + rest;
    assert b[1..] == Varint(|i.accounts|) + i.accounts + tail;
    BlockReadsBack(i.accounts, tail);
    BlockReadsBack(i.data, rest);
  }

  /** The writer adds instructions at the end, the reader takes them from the front. */
  lemma {:induction false} FirstInstruction(list: seq<Instruction>)
    requires list != []
    ensures SerializeInstructions(list) == SerializeInstruction(list[0]) + SerializeInstructions(list[1..])
  {
    hide SerializeInstruction;
    if |list| == 1 {
      assert list[..0] == [] && list[1..] == [];
    } else {
      var front := list[..|list| - 1];
      FirstInstruction(front);
      assert front[1..] == list[1..][..|list| - 2];
      assert list[1..][|list| - 2] == list[|list| - 1];
    }
  }

  lemma {:induction false} InstructionsReadBack(list: seq<Instruction>)
    requires forall k :: 0 <= k < |list| ==> Short(list[k])
    ensures ReadInstructions(SerializeInstructions(list), |list|) == Some((list, []))
  {
    hide SerializeInstruction, ReadInstruction;
    if list != [] {
      var rest := SerializeInstructions(list[1..]);
      FirstInstruction(list);
      InstructionReadsBack(list[0], rest);
      InstructionsReadBack(list[1..]);
      assert [list[0]] + list[1..] == list;
    }
  }

  lemma {:induction false} FirstKeyOf(keys: seq<Key>)
    requires keys != []
    ensures Flatten(keys) == keys[0] + Flatten(keys[1..])
  {
    if |keys| == 1 {
      assert keys[..0] == [] && keys[1..] == [];
    } else {
      var front := keys[..|keys| - 1];
      FirstKeyOf(front);
      assert front[1..] == keys[1..][..|keys| - 2];
      assert keys[1..][|keys| - 2] == keys[|keys| - 1];
    }
  }

  lemma {:induction false} KeysReadBack(keys: seq<Key>, rest: Bytes)
    ensures ReadKeys(Flatten(keys) + rest, |keys|) == Some((keys, rest))
  {
    if keys == [] {
      assert Flatten(keys) + rest == rest;
    } else {
      FirstKeyOf(keys);
      var b, tail := Flatten(keys) + rest, Flatten(keys[1..]) + rest;
      KeysReadBack(keys[1..], rest);
      hide Flatten;
      assert b == keys[0] + tail;
      assert b[..32] == keys[0] && b[32..] == tail;
      assert [keys[0]] + keys[1..] == keys;
    }
  }

  /** Every message that is written reads back, to the last byte. */
  lemma MessageReadsBack(m: LegacyMessage)
    requires Sendable(m)
    ensures ReadMessage(Serialize(m)) == Some(m)
  {
    hide Varint, Compact, Flatten, ReadKeys, ReadInstructions, SerializeInstructions;
    var b := Serialize(m);
    var list := SerializeInstructions(m.instructions);
    var body := Flatten(m.keys) + TailBytes(m);
    assert b[3..] == Varint(|m.keys|) + body;
    CompactOfVarint(|m.keys|, body);
    assert b[3 + |Varint(|m.keys|)|..] == body;
    KeysReadBack(m.keys, TailBytes(m));
    assert TailBytes(m)[..32] == m.blockhash;
    assert TailBytes(m)[32..] == Varint(|m.instructions|) + list;
    CompactOfVarint(|m.instructions|, list);
    assert (Varint(|m.instructions|) + list)[|Varint(|m.instructions|)|..] == list;
    InstructionsReadBack(m.instructions);
  }

  // ---- what the programs do ----

  /** A little-endian number. */
  function FromLe(b: Bytes): nat {
    if b == [] then 0 else b[0] + 256 * FromLe(b[1..])
  }

  lemma {:induction false} LeReadsBack(n: nat, w: nat)
    requires n < Pow(256, w)
    ensures FromLe(Le(n, w)) == n
    decreases w
  {
    if w > 0 {
      DivMod(n, 256);
      QuotientBound(n, 256, Pow(256, w - 1));
      LeReadsBack(n / 256, w - 1);
      assert Le(n, w)[1..] == Le(n / 256, w - 1);
    }
  }

  datatype Programs = Programs(token: Key, ata: Key, budget: Key)

  datatype Effect =
    | Pay(payer: Key, payee: Key, lamports: nat)
    | OpenAccount(funder: Key, account: Key, owner: Key, mint: Key)
    | PayToken(source: Key, mint: Key, destination: Key, authority: Key, amount: nat, decimals: nat)
    | UnitLimit(units: nat)
    | UnitPrice(microLamports: nat)
    | Unknown

  predicate Indexed(m: LegacyMessage, i: Instruction) {
    i.program < |m.keys| && forall j :: 0 <= j < |i.accounts| ==> i.accounts[j] < |m.keys|
  }

  /** The key an instruction lists at place `j`. */
  function Account(m: LegacyMessage, i: Instruction, j: nat): Key
    requires Indexed(m, i) && j < |i.accounts|
  {
    m.keys[i.accounts[j]]
  }

  /** The System Program's Transfer: discriminant 2 in four bytes, then the lamports. */
  function SystemEffect(m: LegacyMessage, i: Instruction): Effect
    requires Indexed(m, i)
  {
    if |i.accounts| == 2 && |i.data| == 12 && i.data[..4] == [2, 0, 0, 0] then
      Pay(Account(m, i, 0), Account(m, i, 1), FromLe(i.data[4..]))
    else Unknown
  }

  /** The Token Program's TransferChecked, opcode 12: source, mint, destination, authority. */
  function TokenEffect(m: LegacyMessage, i: Instruction): Effect
    requires Indexed(m, i)
  {
    if |i.accounts| == 4 && |i.data| == 10 && i.data[0] == 12 then
      PayToken(Account(m, i, 0), Account(m, i, 1), Account(m, i, 2), Account(m, i, 3), FromLe(i.data[1..9]), i.data[9])
    else Unknown
  }

  /** CreateIdempotent, opcode 1: funder, account, owner, mint, then the two programs it calls. */
  function AtaEffect(p: Programs, m: LegacyMessage, i: Instruction): Effect
    requires Indexed(m, i)
  {
    if |i.accounts| == 6 && i.data == [1] && Account(m, i, 4) == SystemProgram() && Account(m, i, 5) == p.token then
      OpenAccount(Account(m, i, 0), Account(m, i, 1), Account(m, i, 2), Account(m, i, 3))
    else Unknown
  }

  /** SetComputeUnitLimit, opcode 2, and SetComputeUnitPrice, opcode 3. */
  function BudgetEffect(i: Instruction): Effect {
    if |i.data| == 5 && i.data[0] == 2 then UnitLimit(FromLe(i.data[1..]))
    else if |i.data| == 9 && i.data[0] == 3 then UnitPrice(FromLe(i.data[1..]))
    else Unknown
  }

  function EffectOf(p: Programs, m: LegacyMessage, i: Instruction): Effect
    requires Indexed(m, i)
  {
    var program := m.keys[i.program];
    if program == SystemProgram() then SystemEffect(m, i)
    else if program == p.token then TokenEffect(m, i)
    else if program == p.ata then AtaEffect(p, m, i)
    else if program == p.budget then BudgetEffect(i)
    else Unknown
  }

  function Signs(m: LegacyMessage, k: nat): bool {
    k < m.required
  }

  /** The header's read-only counts: the last signers and the last of the others. */
  function Writable(m: LegacyMessage, k: nat): bool {
    if k < m.required then k + m.readonlySigned < m.required else k + m.readonlyUnsigned < |m.keys|
  }

  /** The accounts an effect debits or credits are writable, and whoever it takes from has signed. */
  predicate Authorised(m: LegacyMessage, i: Instruction, e: Effect) {
    match e
    case Pay(_, _, _) =>
      && |i.accounts| == 2
      && Signs(m, i.accounts[0]) && Writable(m, i.accounts[0]) && Writable(m, i.accounts[1])
    case OpenAccount(_, _, _, _) =>
      && |i.accounts| == 6
      && Signs(m, i.accounts[0]) && Writable(m, i.accounts[0]) && Writable(m, i.accounts[1])
    case PayToken(_, _, _, _, _, _) =>
      && |i.accounts| == 4
      && Writable(m, i.accounts[0]) && Writable(m, i.accounts[2]) && Signs(m, i.accounts[3])
    case UnitLimit(_) => true
    case UnitPrice(_) => true
    case Unknown => false
  }

  /** The bytes are a message at `blockhash` signed by `signer` alone, whose instructions do exactly `effects`. */
  ghost predicate Does(p: Programs, b: Bytes, signer: Key, blockhash: Key, effects: seq<Effect>) {
    var read := ReadMessage(b);
    && read.Some?
    && var m := read.value;
       && m.blockhash == blockhash && m.required == 1 && m.keys != [] && m.keys[0] == signer
       && |m.instructions| == |effects|
       && forall k :: 0 <= k < |effects| ==>
            && Indexed(m, m.instructions[k]) && EffectOf(p, m, m.instructions[k]) == effects[k]
            && Authorised(m, m.instructions[k], effects[k])
  }

  /** Only the first `n` keys can be changed by the message. */
  ghost predicate OnlyWrites(b: Bytes, n: nat) {
    && ReadMessage(b).Some?
    && var m := ReadMessage(b).value;
       forall k: nat :: k < |m.keys| ==> (Writable(m, k) <==> k < n)
  }

  // ---- the builders' messages ----

  /** A SOL transfer takes the lamports from its signer and gives them to the recipient, and does nothing else. */
  lemma TransferPays(p: Programs, from: Key, to: Key, lamports: nat, blockhash: Key)
    requires lamports < Pow(256, 8)
    ensures var b := Serialize(Transfer(from, to, lamports, blockhash));
            Does(p, b, from, blockhash, [Pay(from, to, lamports)]) && OnlyWrites(b, 2)
  {
    var m := Transfer(from, to, lamports, blockhash);
    hide Le, Pow, SystemProgram, FromLe;
    var i := m.instructions[0];
    MessageReadsBack(m);
    hide Serialize, ReadMessage;
    LeReadsBack(lamports, 8);
    assert i.data[..4] == [2, 0, 0, 0] && i.data[4..] == Le(lamports, 8);
  }

  /** The programs an SPL transfer addresses are four different ones. */
  predicate FourPrograms(a: SplArgs) {
    && a.tokenProgram != SystemProgram() && a.ataProgram != SystemProgram() && a.computeBudget != SystemProgram()
    && a.tokenProgram != a.ataProgram && a.tokenProgram != a.computeBudget && a.ataProgram != a.computeBudget
  }

  function SplEffects(a: SplArgs): seq<Effect> {
    (if a.cuLimit > 0 then [UnitLimit(a.cuLimit)] else [])
    + (if a.cuPrice > 0 then [UnitPrice(a.cuPrice)] else [])
    + [OpenAccount(a.sender, a.recipientAta, a.recipient, a.mint)]
    + [PayToken(a.senderAta, a.mint, a.recipientAta, a.sender, a.amount, a.decimals)]
  }

  /**
    An SPL transfer sets the budget asked for, opens the recipient's account at the sender's cost, and moves the amount
    from the sender's account to it under the sender's authority, and does nothing else.
  */
  lemma SplTransferPays(a: SplArgs)
    requires FourPrograms(a)
    requires a.amount < Pow(256, 8) && a.cuLimit < Pow(256, 4) && a.cuPrice < Pow(256, 8)
    ensures var b := Serialize(SplTransfer(a));
            && Does(Programs(a.tokenProgram, a.ataProgram, a.computeBudget), b, a.sender, a.blockhash, SplEffects(a))
            && OnlyWrites(b, 3)
  {
    hide Le, Pow, SystemProgram, FromLe, Serialize, ReadMessage;
    var m, p := SplTransfer(a), Programs(a.tokenProgram, a.ataProgram, a.computeBudget);
    MessageReadsBack(m);
    SplKeysAre(a);
    var list, effects := m.instructions, SplEffects(a);
    BudgetDoes(a, p);
    OpenDoes(a, p);
    TokenDoes(a, p);
    hide SplKeys, EffectOf, Authorised, Indexed, CreateIdempotent, TransferChecked;
    forall k | 0 <= k < |effects|
      ensures Indexed(m, list[k]) && EffectOf(p, m, list[k]) == effects[k] && Authorised(m, list[k], effects[k])
    {
    }
  }

  lemma SplKeysAre(a: SplArgs)
    ensures var m := SplTransfer(a);
            && |m.keys| == (if HasBudget(a) then 9 else 8)
            && m.keys[..8]
            == [a.sender, a.senderAta, a.recipientAta, a.recipient, a.mint, a.tokenProgram, SystemProgram(),
                a.ataProgram]
            && (HasBudget(a) ==> m.keys[8] == a.computeBudget)
            && (forall k: nat :: k < |m.keys| ==> (Writable(m, k) <==> k < 3))
  {
    hide SystemProgram, Le;
  }

  lemma BudgetDoes(a: SplArgs, p: Programs)
    requires FourPrograms(a) && p == Programs(a.tokenProgram, a.ataProgram, a.computeBudget)
    requires a.cuLimit < Pow(256, 4) && a.cuPrice < Pow(256, 8)
    ensures var m, i := SplTransfer(a), Instruction(8, [], [2] + Le(a.cuLimit, 4));
            a.cuLimit > 0 ==> Indexed(m, i) && EffectOf(p, m, i) == UnitLimit(a.cuLimit)
    ensures var m, i := SplTransfer(a), Instruction(8, [], [3] + Le(a.cuPrice, 8));
            a.cuPrice > 0 ==> Indexed(m, i) && EffectOf(p, m, i) == UnitPrice(a.cuPrice)
  {
    hide SystemProgram, Le, Pow, FromLe;
    SplKeysAre(a);
    LeReadsBack(a.cuLimit, 4);
    LeReadsBack(a.cuPrice, 8);
    assert ([2] + Le(a.cuLimit, 4))[1..] == Le(a.cuLimit, 4);
    assert ([3] + Le(a.cuPrice, 8))[1..] == Le(a.cuPrice, 8);
  }

  lemma OpenDoes(a: SplArgs, p: Programs)
    requires FourPrograms(a) && p == Programs(a.tokenProgram, a.ataProgram, a.computeBudget)
    ensures var m, i := SplTransfer(a), CreateIdempotent();
            var e := OpenAccount(a.sender, a.recipientAta, a.recipient, a.mint);
            Indexed(m, i) && EffectOf(p, m, i) == e && Authorised(m, i, e)
  {
    hide SystemProgram, Le;
    SplKeysAre(a);
  }

  lemma TokenDoes(a: SplArgs, p: Programs)
    requires FourPrograms(a) && p == Programs(a.tokenProgram, a.ataProgram, a.computeBudget)
    requires a.amount < Pow(256, 8)
    ensures var m, i := SplTransfer(a), TransferChecked(a);
            var e := PayToken(a.senderAta, a.mint, a.recipientAta, a.sender, a.amount, a.decimals);
            Indexed(m, i) && EffectOf(p, m, i) == e && Authorised(m, i, e)
  {
    hide SystemProgram, Le, Pow, FromLe;
    SplKeysAre(a);
    LeReadsBack(a.amount, 8);
    assert TransferChecked(a).data[1..9] == Le(a.amount, 8);
  }
}
