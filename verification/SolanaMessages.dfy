/** Message builders for SOL and SPL transfers (rust/src/solana.rs, rust/src/solana_spl.rs) and the signing guard. */
module SolanaMessages {
  import opened Wrappers
  import opened Radix
  import opened Solana

  /** Little-endian bytes. */
  function Le(n: nat, w: nat): (b: Bytes)
    ensures |b| == w
    decreases w
  {
    if w == 0 then [] else [n % 256] + Le(n / 256, w - 1)
  }

  /** The System Program's id is all zeros. */
  function SystemProgram(): Key {
    seq(32, i => 0)
  }

  // ---- the wire format ----

  datatype Instruction = Instruction(program: byte, accounts: Bytes, data: Bytes)
  datatype LegacyMessage = LegacyMessage(
    required: byte, readonlySigned: byte, readonlyUnsigned: byte, keys: seq<Key>, blockhash: Key,
    instructions: seq<Instruction>)

  function Flatten(keys: seq<Key>): (b: Bytes)
    ensures |b| == 32 * |keys|
  {
    if keys == [] then [] else Flatten(keys[..|keys| - 1]) + keys[|keys| - 1]
  }

  function SerializeInstruction(i: Instruction): Bytes {
    [i.program] + Varint(|i.accounts|) + i.accounts + Varint(|i.data|) + i.data
  }

  function SerializeInstructions(list: seq<Instruction>): Bytes {
    if list == [] then [] else SerializeInstructions(list[..|list| - 1]) + SerializeInstruction(list[|list| - 1])
  }

  function Serialize(m: LegacyMessage): Bytes {
    [m.required, m.readonlySigned, m.readonlyUnsigned] + Varint(|m.keys|) + Flatten(m.keys) + TailBytes(m)
  }

  /** What follows the keys. */
  function TailBytes(m: LegacyMessage): Bytes {
    m.blockhash + Varint(|m.instructions|) + SerializeInstructions(m.instructions)
  }

  // ---- recognising a serialized message ----

  lemma {:induction false} FlattenAt(keys: seq<Key>, i: nat)
    requires i < |keys|
    ensures Flatten(keys)[i * 32..i * 32 + 32] == keys[i]
  {
    var front := keys[..|keys| - 1];
    if i < |front| {
      FlattenAt(front, i);
      assert Flatten(keys)[i * 32..i * 32 + 32] == Flatten(front)[i * 32..i * 32 + 32];
    }
  }

  /** The reader finds a serialized message's own keys, behind a version byte too, whatever follows the message. */
  lemma KeysOfPrefixed(version: Bytes, m: LegacyMessage, rest: Bytes)
    requires |m.keys| <= U16_MAX
    requires if version == [] then m.required < 128 else |version| == 1 && version[0] >= 128
    ensures var msg, at := version + Serialize(m) + rest, |version| + 3 + |Varint(|m.keys|)|;
            && KeysOf(msg) == Some(Keys(m.required, at, |m.keys|))
            && forall i :: 0 <= i < |m.keys| ==> KeyAt(msg, at, i) == m.keys[i]
  {
    hide Varint, Compact, TailBytes, Flatten;
    var tail := TailBytes(m) + rest;
    var msg := version + Serialize(m) + rest;
    var length, pos := Varint(|m.keys|), |version| + 3;
    CompactOfVarint(|m.keys|, Flatten(m.keys) + tail);
    assert msg[|version|] == m.required;
    assert msg[pos..] == length + (Flatten(m.keys) + tail);
    var at := pos + |length|;
    forall i | 0 <= i < |m.keys|
      ensures KeyAt(msg, at, i) == m.keys[i]
    {
      FlattenAt(m.keys, i);
      assert msg[at + i * 32..at + i * 32 + 32] == Flatten(m.keys)[i * 32..i * 32 + 32];
    }
  }

  lemma KeysOfSerialized(m: LegacyMessage)
    requires m.required < 128 && |m.keys| <= U16_MAX
    ensures KeysOf(Serialize(m)) == Some(Keys(m.required, 3 + |Varint(|m.keys|)|, |m.keys|))
    ensures forall i :: 0 <= i < |m.keys| ==> KeyAt(Serialize(m), 3 + |Varint(|m.keys|)|, i) == m.keys[i]
  {
    hide Varint, Serialize, KeysOf, KeyAt;
    KeysOfPrefixed([], m, []);
    assert [] + Serialize(m) + [] == Serialize(m);
  }

  /** The slot found is where the key is first listed, when that place is a signer's; no other key has one. */
  lemma SlotOfPrefixed(version: Bytes, m: LegacyMessage, rest: Bytes, key: Key, j: nat)
    requires |m.keys| <= U16_MAX && j < |m.keys|
    requires if version == [] then m.required < 128 else |version| == 1 && version[0] >= 128
    ensures FindSlot(version + Serialize(m) + rest, key) == Some(j)
       <==> j < m.required && m.keys[j] == key && key !in m.keys[..j]
  {
    hide Varint, Serialize, KeysOf, KeyAt, FirstKey;
    KeysOfPrefixed(version, m, rest);
    var msg := version + Serialize(m) + rest;
    var k := KeysOf(msg).value;
    FirstKeyIs(msg, k, key, 0, j);
    forall x | 0 <= x < j ensures KeyAt(msg, k.at, x) == m.keys[..j][x] {
    }
  }

  lemma SlotOfSerialized(m: LegacyMessage, key: Key, j: nat)
    requires m.required < 128 && |m.keys| <= U16_MAX && j < |m.keys|
    ensures FindSlot(Serialize(m), key) == Some(j)
       <==> j < m.required && m.keys[j] == key && key !in m.keys[..j]
  {
    hide Serialize, FindSlot;
    SlotOfPrefixed([], m, [], key, j);
    assert [] + Serialize(m) + [] == Serialize(m);
  }

  /** One signature in front of a message, as `assemble_tx` writes it. */
  method AssembleTx(message: Bytes, signature: Bytes) returns (tx: Bytes)
    ensures tx == Varint(1) + signature + message
  {
    tx := Shortvec(1, []);
    tx := tx + signature;
    tx := tx + message;
  }

  lemma ExtractAssembled(message: Bytes, sig: Signature)
    ensures ExtractMessage(Varint(1) + sig + message) == Some(message)
    ensures Layout(Varint(1) + sig + message) == Some((1, 65)) && Compact(Varint(1) + sig + message) == Some((1, 1))
    ensures Message(Varint(1) + sig + message) == Some(message)
  {
    var tx := Varint(1) + sig + message;
    assert Varint(1) == [1];
    CompactOfVarint(1, sig + message);
    assert Varint(1) + (sig + message) == tx;
    hide Compact;
    assert tx[65..] == message;
  }

  /** Signatures in front of a message, one for each signer, are stripped again. */
  lemma ExtractSigned(message: Bytes, count: nat, sigs: Bytes)
    requires 0 < count <= U16_MAX && |sigs| == count * 64
    ensures var tx := Varint(count) + sigs + message;
            && Compact(tx).Some? && Compact(tx).value.0 == count
            && ExtractMessage(tx) == Some(message) && Message(tx) == Some(message)
  {
    hide Compact, Varint;
    var tx := Varint(count) + sigs + message;
    CompactOfVarint(count, sigs + message);
    assert Varint(count) + (sigs + message) == tx;
    assert tx[|Varint(count)| + count * 64..] == message;
  }

  /** Any message, legacy or versioned, is recognised for each of its signers, bare and signed, at the signer's slot. */
  lemma SignersAreRecognised(version: Bytes, m: LegacyMessage, rest: Bytes, j: nat, sigs: Bytes)
    requires |m.keys| <= U16_MAX && j < |m.keys| && j < m.required && m.keys[j] !in m.keys[..j]
    requires if version == [] then m.required < 128 else |version| == 1 && version[0] >= 128
    requires |sigs| == m.required * 64
    ensures var msg := version + Serialize(m) + rest;
            && Signable(msg, m.keys[j])
            && Signable(Varint(m.required) + sigs + msg, m.keys[j])
            && SignerSlot(Varint(m.required) + sigs + msg, m.keys[j]) == Some(j)
  {
    var msg := version + Serialize(m) + rest;
    SlotOfPrefixed(version, m, rest, m.keys[j], j);
    ExtractSigned(msg, m.required, sigs);
    assert msg[|version|] == m.required;
    hide FindSlot, Serialize, Compact, Varint, ExtractMessage, Message;
  }

  /** A message that names a signer is refused by the signing guard, bare or with a signature, and its slot is found. */
  lemma NamedIsSignable(m: LegacyMessage, key: Key, sig: Signature)
    requires m.required == 1 && |m.keys| <= U16_MAX && |m.keys| > 0 && m.keys[0] == key
    ensures Signable(Serialize(m), key)
    ensures Signable(Varint(1) + sig + Serialize(m), key)
    ensures SignerSlot(Varint(1) + sig + Serialize(m), key) == Some(0)
  {
    SlotOfSerialized(m, key, 0);
    ExtractAssembled(Serialize(m), sig);
    assert Serialize(m)[0] == 1;
    hide FindSlot, Serialize, Compact, Layout, Varint;
  }

  // ---- the SOL transfer ----

  /** The message of `from` sending `lamports` to `to`. */
  function Transfer(from: Key, to: Key, lamports: nat, blockhash: Key): LegacyMessage {
    LegacyMessage(1, 0, 1, [from, to, SystemProgram()], blockhash,
                  [Instruction(2, [0, 1], [2, 0, 0, 0] + Le(lamports, 8))])
  }

  method BuildTransferMessage(from: Key, to: Key, lamports: nat, blockhash: Key) returns (m: Bytes)
    ensures m == Serialize(Transfer(from, to, lamports, blockhash))
  {
    hide Le, Varint, SystemProgram, Flatten, SerializeInstructions;
    m := [1];
    m := m + [0];
    m := m + [1];
    m := Shortvec(3, m);
    ghost var head := m;
    m := m + from;
    m := m + to;
    m := m + SystemProgram();
    ThreeKeys(head, from, to, SystemProgram());
    ghost var keyed := m;
    m := m + blockhash;
    m := Shortvec(1, m);
    ghost var counted := m;
    m := m + [2];
    m := Shortvec(2, m);
    m := m + [0];
    m := m + [1];
    var data := [2, 0, 0, 0];
    data := data + Le(lamports, 8);
    m := Shortvec(|data|, m);
    m := m + data;
    OneInstruction(counted, Instruction(2, [0, 1], data));
    Tail(keyed, blockhash, Varint(1), SerializeInstructions([Instruction(2, [0, 1], data)]));
    assert m == keyed + (blockhash + Varint(1) + SerializeInstructions([Instruction(2, [0, 1], data)]));
  }

  lemma FlattenMore(head: Bytes, keys: seq<Key>, key: Key)
    ensures head + Flatten(keys) + key == head + Flatten(keys + [key])
  {
    assert (keys + [key])[..|keys|] == keys;
  }

  lemma ThreeKeys(head: Bytes, a: Key, b: Key, c: Key)
    ensures head + a + b + c == head + Flatten([a, b, c])
  {
    assert head + Flatten([]) == head;
    hide Flatten;
    FlattenMore(head, [], a);
    FlattenMore(head, [a], b);
    FlattenMore(head, [a, b], c);
    assert [] + [a] == [a] && [a] + [b] == [a, b] && [a, b] + [c] == [a, b, c];
  }

  lemma OneInstruction(head: Bytes, i: Instruction)
    requires |i.accounts| == 2
    ensures head + [i.program] + Varint(2) + [i.accounts[0]] + [i.accounts[1]] + Varint(|i.data|) + i.data
         == head + SerializeInstructions([i])
  {
    hide Varint;
    assert [i][..0] == [];
    assert [i.accounts[0]] + [i.accounts[1]] == i.accounts;
    assert SerializeInstructions([i]) == [] + SerializeInstruction(i);
  }

  lemma Tail(a: Bytes, b: Bytes, c: Bytes, d: Bytes)
    ensures a + b + c + d == a + (b + c + d)
  {
  }

  // ---- a transfer's bytes say what it does ----

  lemma {:induction false} LeInjective(a: nat, b: nat, w: nat)
    requires a < Pow(256, w) && b < Pow(256, w) && Le(a, w) == Le(b, w)
    ensures a == b
    decreases w
  {
    if w > 0 {
      DivMod(a, 256);
      DivMod(b, 256);
      QuotientBound(a, 256, Pow(256, w - 1));
      QuotientBound(b, 256, Pow(256, w - 1));
      assert Le(a, w)[1..] == Le(a / 256, w - 1) && Le(b, w)[1..] == Le(b / 256, w - 1);
      assert Le(a, w)[0] == Le(b, w)[0];
      LeInjective(a / 256, b / 256, w - 1);
    }
  }

  /** Two transfers with the same bytes are the same transfer. */
  lemma TransferIsInjective(
      from: Key, to: Key, lamports: nat, blockhash: Key, from': Key, to': Key, lamports': nat, blockhash': Key)
    requires lamports < Pow(256, 8) && lamports' < Pow(256, 8)
    requires Serialize(Transfer(from, to, lamports, blockhash))
          == Serialize(Transfer(from', to', lamports', blockhash'))
    ensures from == from' && to == to' && lamports == lamports' && blockhash == blockhash'
  {
    TransferFields(from, to, lamports, blockhash);
    TransferFields(from', to', lamports', blockhash');
    hide Serialize, Transfer, Le, Pow, KeyAt;
    LeInjective(lamports, lamports', 8);
  }

  /** Where each field of a transfer is found. */
  lemma TransferFields(from: Key, to: Key, lamports: nat, blockhash: Key)
    ensures var msg := Serialize(Transfer(from, to, lamports, blockhash));
            && |msg| == 150
            && KeyAt(msg, 4, 0) == from && KeyAt(msg, 4, 1) == to
            && msg[100..][..32] == blockhash && msg[142..] == Le(lamports, 8)
  {
    var m := Transfer(from, to, lamports, blockhash);
    KeysOfSerialized(m);
    TailOf(m);
    TransferTail(from, to, lamports, blockhash);
    assert Varint(3) == [3];
    hide Serialize, Varint, KeysOf, KeyAt, Le, Pow, Flatten, TailBytes, SystemProgram;
    assert m.keys[0] == from && m.keys[1] == to;
    assert Serialize(m)[100..][42..] == Serialize(m)[142..];
  }

  lemma TailOf(m: LegacyMessage)
    ensures var at := 3 + |Varint(|m.keys|)| + 32 * |m.keys|;
            at <= |Serialize(m)| && Serialize(m)[at..] == TailBytes(m)
  {
    hide Varint, TailBytes, Flatten;
  }

  lemma TransferTail(from: Key, to: Key, lamports: nat, blockhash: Key)
    ensures var tail := TailBytes(Transfer(from, to, lamports, blockhash));
            |tail| == 50 && tail[..32] == blockhash && tail[42..] == Le(lamports, 8)
  {
    hide Le;
    var i := Instruction(2, [0, 1], [2, 0, 0, 0] + Le(lamports, 8));
    OneInstruction([], i);
    assert Varint(1) == [1] && Varint(2) == [2] && Varint(12) == [12];
    hide SerializeInstructions, Varint;
    assert TailBytes(Transfer(from, to, lamports, blockhash))
        == blockhash + [1] + ([2] + [2] + [0] + [1] + [12] + [2, 0, 0, 0] + Le(lamports, 8));
  }

  // ---- the SPL transfer ----

  /** The addresses of the two programs are constants of the source, decoded from base58. */
  datatype SplArgs = SplArgs(
    sender: Key, recipient: Key, mint: Key, senderAta: Key, recipientAta: Key, tokenProgram: Key, ataProgram: Key,
    computeBudget: Key, amount: nat, decimals: byte, blockhash: Key, cuLimit: nat, cuPrice: nat)

  function HasBudget(a: SplArgs): bool {
    a.cuLimit > 0 || a.cuPrice > 0
  }

  function BudgetInstructions(a: SplArgs): seq<Instruction> {
    (if a.cuLimit > 0 then [Instruction(8, [], [2] + Le(a.cuLimit, 4))] else [])
    + (if a.cuPrice > 0 then [Instruction(8, [], [3] + Le(a.cuPrice, 8))] else [])
  }

  function CreateIdempotent(): Instruction {
    Instruction(7, [0, 2, 3, 4, 6, 5], [1])
  }

  function TransferChecked(a: SplArgs): Instruction {
    Instruction(5, [1, 4, 2, 0], [12] + Le(a.amount, 8) + [a.decimals])
  }

  function SplKeys(a: SplArgs): seq<Key> {
    [a.sender, a.senderAta, a.recipientAta, a.recipient, a.mint, a.tokenProgram, SystemProgram(), a.ataProgram]
    + (if HasBudget(a) then [a.computeBudget] else [])
  }

  function SplTransfer(a: SplArgs): LegacyMessage {
    LegacyMessage(1, 0, if HasBudget(a) then 6 else 5, SplKeys(a), a.blockhash,
                  BudgetInstructions(a) + [CreateIdempotent()] + [TransferChecked(a)])
  }

  method PushKeys(keys: seq<Key>, m: Bytes) returns (r: Bytes)
    ensures r == m + Flatten(keys)
  {
    r := m;
    for k := 0 to |keys|
      invariant r == m + Flatten(keys[..k])
    {
      FlattenMore(m, keys[..k], keys[k]);
      assert keys[..k] + [keys[k]] == keys[..k + 1];
      r := r + keys[k];
    }
    assert keys[..|keys|] == keys;
  }

  method PushInstruction(i: Instruction, m: Bytes) returns (r: Bytes)
    requires |i.accounts| <= U16_MAX && |i.data| <= U16_MAX
    ensures r == m + SerializeInstruction(i)
  {
    hide Varint;
    r := m + [i.program];
    r := PushCompactU16(|i.accounts|, r);
    r := r + i.accounts;
    r := PushCompactU16(|i.data|, r);
    r := r + i.data;
  }

  lemma InstructionMore(head: Bytes, done: seq<Instruction>, i: Instruction)
    ensures head + SerializeInstructions(done) + SerializeInstruction(i) == head + SerializeInstructions(done + [i])
  {
    hide SerializeInstruction;
    assert (done + [i])[..|done|] == done;
  }

  method BuildSplTransferMessage(a: SplArgs) returns (msg: Bytes)
    ensures msg == Serialize(SplTransfer(a))
  {
    hide Varint, Flatten, Le, SystemProgram, SerializeInstruction, SerializeInstructions;
    msg := [1];
    msg := msg + [0];
    msg := msg + [if HasBudget(a) then 6 else 5];
    msg := PushCompactU16(if HasBudget(a) then 9 else 8, msg);
    msg := PushKeys([a.sender, a.senderAta, a.recipientAta, a.recipient, a.mint, a.tokenProgram, SystemProgram(),
                     a.ataProgram] + if HasBudget(a) then [a.computeBudget] else [], msg);
    ghost var keyed := msg;
    msg := msg + a.blockhash;
    var count := 2;
    if a.cuLimit > 0 {
      count := count + 1;
    }
    if a.cuPrice > 0 {
      count := count + 1;
    }
    msg := PushCompactU16(count, msg);
    ghost var counted := msg;
    msg := PushInstructions(a, msg);
    ghost var all := SplTransfer(a).instructions;
    assert |all| == count;
    Tail(keyed, a.blockhash, Varint(count), SerializeInstructions(all));
  }

  method PushInstructions(a: SplArgs, m: Bytes) returns (r: Bytes)
    ensures r == m + SerializeInstructions(SplTransfer(a).instructions)
  {
    NoInstructions(m);
    hide Le, SerializeInstruction, SerializeInstructions;
    r := m;
    ghost var done: seq<Instruction> := [];
    if a.cuLimit > 0 {
      r := PushInstruction(Instruction(8, [], [2] + Le(a.cuLimit, 4)), r);
      InstructionMore(m, done, Instruction(8, [], [2] + Le(a.cuLimit, 4)));
      done := done + [Instruction(8, [], [2] + Le(a.cuLimit, 4))];
    }
    if a.cuPrice > 0 {
      r := PushInstruction(Instruction(8, [], [3] + Le(a.cuPrice, 8)), r);
      InstructionMore(m, done, Instruction(8, [], [3] + Le(a.cuPrice, 8)));
      done := done + [Instruction(8, [], [3] + Le(a.cuPrice, 8))];
    }
    assert done == BudgetInstructions(a);
    r := PushInstruction(CreateIdempotent(), r);
    InstructionMore(m, done, CreateIdempotent());
    r := PushInstruction(TransferChecked(a), r);
    InstructionMore(m, done + [CreateIdempotent()], TransferChecked(a));
  }

  lemma NoInstructions(m: Bytes)
    ensures m + SerializeInstructions([]) == m
  {
  }

  // ---- what both builders promise ----

  /** Every program and account index names a listed key, and the read-only tail starts after the signers. */
  ghost predicate InBounds(m: LegacyMessage) {
    && m.required + m.readonlyUnsigned <= |m.keys|
    && forall i :: 0 <= i < |m.instructions| ==>
         && m.instructions[i].program < |m.keys|
         && forall j :: 0 <= j < |m.instructions[i].accounts| ==> m.instructions[i].accounts[j] < |m.keys|
  }

  lemma TransfersInBounds(from: Key, to: Key, lamports: nat, blockhash: Key, a: SplArgs)
    ensures InBounds(Transfer(from, to, lamports, blockhash)) && InBounds(SplTransfer(a))
  {
    hide Le, SystemProgram;
  }

  /** The signing guard recognises every transfer either builder makes, bare or signed, for its sender. */
  lemma TransfersAreRecognised(from: Key, to: Key, lamports: nat, blockhash: Key, a: SplArgs, sig: Signature)
    ensures var sol := Serialize(Transfer(from, to, lamports, blockhash));
            && Signable(sol, from)
            && Signable(Varint(1) + sig + sol, from)
            && SignerSlot(Varint(1) + sig + sol, from) == Some(0)
    ensures var spl := Serialize(SplTransfer(a));
            && Signable(spl, a.sender)
            && Signable(Varint(1) + sig + spl, a.sender)
            && SignerSlot(Varint(1) + sig + spl, a.sender) == Some(0)
  {
    hide Le, SystemProgram, Serialize, Signable, SignerSlot, Varint;
    NamedIsSignable(Transfer(from, to, lamports, blockhash), from, sig);
    NamedIsSignable(SplTransfer(a), a.sender, sig);
  }

  /** And for nobody else: the sender is the only signer. */
  lemma OnlySenderHasSlot(from: Key, to: Key, lamports: nat, blockhash: Key, a: SplArgs, other: Key)
    ensures FindSlot(Serialize(Transfer(from, to, lamports, blockhash)), other).Some? <==> other == from
    ensures FindSlot(Serialize(SplTransfer(a)), other).Some? <==> other == a.sender
  {
    hide Le, SystemProgram, Serialize, Varint;
    OneSigner(Transfer(from, to, lamports, blockhash), other);
    OneSigner(SplTransfer(a), other);
  }

  lemma OneSigner(m: LegacyMessage, other: Key)
    requires m.required == 1 && 0 < |m.keys| <= U16_MAX
    ensures FindSlot(Serialize(m), other).Some? <==> other == m.keys[0]
  {
    KeysOfSerialized(m);
    SlotOfSerialized(m, other, 0);
    hide Serialize, Varint, KeysOf, KeyAt;
  }
}
