/** Compact lengths, signature slots and splicing of serialized transactions (rust/src/solana.rs, solana_spl.rs). */
module Solana {
  import opened Wrappers
  import opened Radix

  type Key = Word
  type Signature = b: Bytes | |b| == 64 witness seq(64, i => 0)

  const U16_MAX := 0xFFFF

  // ---- compact-u16 ----

  method Shortvec(n: nat, out: Bytes) returns (r: Bytes)
    ensures r == out + Varint(n)
  {
    r := out;
    var left := n;
    while true
      invariant r + Varint(left) == out + Varint(n)
      decreases left
    {
      var b := left % 128;
      var next := left / 128;
      if next == 0 {
        r := r + [b];
        return;
      }
      assert [b + 128] + Varint(next) == Varint(left);
      r := r + [b + 128];
      left := next;
    }
  }

  /** The unrolled writer of solana_spl.rs: `v` has 16 bits. */
  method PushCompactU16(v: nat, out: Bytes) returns (r: Bytes)
    requires v <= U16_MAX
    ensures r == out + Varint(v)
  {
    if v <= 0x7F {
      r := out + [v];
    } else if v <= 0x3FFF {
      r := out + [v % 128 + 128, v / 128];
      assert Varint(v / 128) == [v / 128];
    } else {
      r := out + [v % 128 + 128, v / 128 % 128 + 128, v / 128 / 128];
      assert Varint(v / 128 / 128) == [v / 128 / 128];
      assert Varint(v / 128) == [v / 128 % 128 + 128, v / 128 / 128];
    }
  }

  /** Reading from byte `i` on, with `val` read so far: at most three bytes. */
  ghost function CompactFrom(bytes: Bytes, i: nat, val: nat): (r: Option<(nat, nat)>)
    requires i < 3
    ensures r.Some? ==> r.value.0 <= U16_MAX && i < r.value.1 <= |bytes| && r.value.1 <= 3
    decreases 3 - i
  {
    if i >= |bytes| then None
    else
      var now := val + bytes[i] % 128 * Pow(128, i);
      if bytes[i] < 128 then if now > U16_MAX then None else Some((now, i + 1))
      else if i + 1 >= 3 then None
      else CompactFrom(bytes, i + 1, now)
  }

  ghost function Compact(bytes: Bytes): (r: Option<(nat, nat)>)
    ensures r.Some? ==> r.value.0 <= U16_MAX && 0 < r.value.1 <= |bytes| && r.value.1 <= 3
  {
    CompactFrom(bytes, 0, 0)
  }

  method ReadCompactU16(bytes: Bytes) returns (r: Option<(nat, nat)>)
    ensures r == Compact(bytes)
  {
    hide Pow;
    var val, i := 0, 0;
    while true
      invariant 0 <= i < 3 && 0 <= val && CompactFrom(bytes, i, val) == Compact(bytes)
      decreases 3 - i
    {
      if i >= |bytes| {
        return None;
      }
      var b := bytes[i];
      TimesMonotone(0, b % 128, Pow(128, i));
      val := val + b % 128 * Pow(128, i);
      i := i + 1;
      if b < 128 {
        break;
      }
      if i >= 3 {
        return None;
      }
    }
    return if val > U16_MAX then None else Some((val, i));
  }

  lemma Pow128()
    ensures Pow(128, 0) == 1 && Pow(128, 1) == 128 && Pow(128, 2) == 16384
  {
  }

  /** A length written in seven-bit groups reads back, before any bytes, exactly when it fits sixteen bits. */
  lemma CompactOfVarint(n: nat, rest: Bytes)
    ensures n <= U16_MAX ==> Compact(Varint(n) + rest) == Some((n, |Varint(n)|)) && |Varint(n)| <= 3
    ensures n > U16_MAX ==> Compact(Varint(n) + rest).None?
  {
    Pow128();
    hide Pow;
    if n < 128 {
      assert (Varint(n) + rest)[0] == n;
    } else {
      var q := n / 128;
      assert Varint(n) + rest == [n % 128 + 128] + (Varint(q) + rest);
      hide Varint;
      SecondByte(n % 128, q, rest);
    }
  }

  lemma SecondByte(low: nat, q: nat, rest: Bytes)
    requires low < 128 && q > 0
    ensures var data := [low + 128] + (Varint(q) + rest);
            Compact(data) == if low + 128 * q <= U16_MAX then Some((low + 128 * q, 1 + |Varint(q)|)) else None
    ensures low + 128 * q <= U16_MAX ==> |Varint(q)| <= 2
  {
    FirstByte([low + 128] + (Varint(q) + rest), low);
    hide Compact, CompactFrom;
    if q < 128 {
      TwoBytes(low, q, rest);
    } else {
      MoreBytes(low, q % 128, q / 128, rest);
      hide Varint;
      VarintMore(q, [low + 128], rest);
    }
  }

  lemma VarintMore(q: nat, before: Bytes, rest: Bytes)
    requires q >= 128
    ensures |Varint(q)| == 1 + |Varint(q / 128)|
    ensures before + (Varint(q) + rest) == before + [q % 128 + 128] + (Varint(q / 128) + rest)
  {
  }

  lemma TwoBytes(low: nat, q: nat, rest: Bytes)
    requires low < 128 && 0 < q < 128
    ensures CompactFrom([low + 128] + (Varint(q) + rest), 1, low) == Some((low + 128 * q, 2)) && |Varint(q)| == 1
  {
    Pow128();
    hide Pow;
    assert ([low + 128] + (Varint(q) + rest))[1] == q;
  }

  lemma FirstByte(data: Bytes, low: nat)
    requires low < 128 && data != [] && data[0] == low + 128
    ensures Compact(data) == CompactFrom(data, 1, low)
  {
    Pow128();
    hide Pow;
  }

  lemma MoreBytes(low: nat, middle: nat, p: nat, rest: Bytes)
    requires low < 128 && middle < 128 && p > 0
    ensures var data := [low + 128] + [middle + 128] + (Varint(p) + rest);
            var n := low + 128 * middle + 16384 * p;
            CompactFrom(data, 1, low) == if n <= U16_MAX then Some((n, 2 + |Varint(p)|)) else None
    ensures low + 128 * middle + 16384 * p <= U16_MAX ==> |Varint(p)| == 1
  {
    ThirdByte(low, middle, p, rest);
    Pow128();
    hide Pow, Varint;
    var data := [low + 128] + [middle + 128] + (Varint(p) + rest);
    assert data[1] == middle + 128;
  }

  lemma ThirdByte(low: nat, middle: nat, p: nat, rest: Bytes)
    requires low < 128 && middle < 128 && p > 0
    ensures var data := [low + 128] + [middle + 128] + (Varint(p) + rest);
            var n := low + 128 * middle + 16384 * p;
            CompactFrom(data, 2, low + 128 * middle) == if n <= U16_MAX then Some((n, 2 + |Varint(p)|)) else None
    ensures low + 128 * middle + 16384 * p <= U16_MAX ==> |Varint(p)| == 1
  {
    Pow128();
    hide Pow;
    var data := [low + 128] + [middle + 128] + (Varint(p) + rest);
    assert data[2] == Varint(p)[0];
  }

  // ---- messages: the account keys and the signers among them ----

  /** Where a message keeps its keys: how many signers, the first key's offset, and how many keys. */
  datatype Keys = Keys(required: nat, at: nat, count: nat)

  /** A version byte has its top bit set and is skipped. */
  function HeaderAt(msg: Bytes): nat
    requires msg != []
  {
    if msg[0] >= 128 then 1 else 0
  }

  ghost function KeysOf(msg: Bytes): (r: Option<Keys>)
    ensures r.Some? ==> r.value.at + r.value.count * 32 <= |msg|
  {
    if msg == [] || |msg| < HeaderAt(msg) + 3 then None
    else
      var pos := HeaderAt(msg) + 3;
      match Compact(msg[pos..])
      case None => None
      case Some((count, consumed)) =>
        if pos + consumed + count * 32 > |msg| then None
        else Some(Keys(msg[pos - 3], pos + consumed, count))
  }

  function KeyAt(msg: Bytes, at: nat, i: nat): Key
    requires at + i * 32 + 32 <= |msg|
  {
    msg[at + i * 32..at + i * 32 + 32]
  }

  /** First of the keys from `i` on that is `key`. */
  ghost function FirstKey(msg: Bytes, k: Keys, key: Key, i: nat): (r: Option<nat>)
    requires k.at + k.count * 32 <= |msg|
    ensures r.Some? ==> i <= r.value < k.count && KeyAt(msg, k.at, r.value) == key
    decreases k.count - i
  {
    if i >= k.count then None
    else if KeyAt(msg, k.at, i) == key then Some(i)
    else FirstKey(msg, k, key, i + 1)
  }

  ghost function FindSlot(msg: Bytes, key: Key): Option<nat> {
    match KeysOf(msg)
    case None => None
    case Some(k) =>
      match FirstKey(msg, k, key, 0)
      case Some(i) => if i < k.required then Some(i) else None
      case None => None
  }

  method FindSignerSlot(msg: Bytes, key: Key) returns (r: Option<nat>)
    ensures r == FindSlot(msg, key)
  {
    hide Compact, KeyAt;
    if msg == [] {
      return None;
    }
    var pos := if msg[0] >= 128 then 1 else 0;
    if |msg| < pos + 3 {
      return None;
    }
    var required := msg[pos];
    pos := pos + 3;
    var length := ReadCompactU16(msg[pos..]);
    if length.None? {
      return None;
    }
    var (count, consumed) := length.value;
    pos := pos + consumed;
    if pos + count * 32 > |msg| {
      return None;
    }
    ghost var k := Keys(required, pos, count);
    for i := 0 to count
      invariant FirstKey(msg, k, key, i) == FirstKey(msg, k, key, 0)
    {
      if KeyAt(msg, pos, i) == key {
        return if i < required then Some(i) else None;
      }
    }
    return None;
  }

  /** A slot is the first place a key is listed, when that place is a signer's. */
  lemma {:induction false} FirstKeyIs(msg: Bytes, k: Keys, key: Key, i: nat, j: nat)
    requires k.at + k.count * 32 <= |msg| && i <= j < k.count
    ensures FirstKey(msg, k, key, i) == Some(j)
       <==> KeyAt(msg, k.at, j) == key && forall x :: i <= x < j ==> KeyAt(msg, k.at, x) != key
    decreases j - i
  {
    hide KeyAt;
    if KeyAt(msg, k.at, i) != key && i < j {
      FirstKeyIs(msg, k, key, i + 1, j);
    }
  }

  // ---- transactions: signatures, then the message ----

  ghost function ExtractMessage(tx: Bytes): Option<Bytes> {
    match Compact(tx)
    case None => None
    case Some((count, consumed)) => if consumed + count * 64 > |tx| then None else Some(tx[consumed + count * 64..])
  }

  ghost predicate Signable(payload: Bytes, key: Key) {
    || FindSlot(payload, key).Some?
    || (ExtractMessage(payload).Some? && FindSlot(ExtractMessage(payload).value, key).Some?)
  }

  method PayloadIsSignableTx(payload: Bytes, key: Key) returns (r: bool)
    ensures r == Signable(payload, key)
  {
    hide Compact, FindSlot;
    var slot := FindSignerSlot(payload, key);
    if slot.Some? {
      return true;
    }
    var length := ReadCompactU16(payload);
    if length.None? || length.value.1 + length.value.0 * 64 > |payload| {
      return false;
    }
    slot := FindSignerSlot(payload[length.value.1 + length.value.0 * 64..], key);
    return slot.Some?;
  }

  /** First signature's offset and the message's, when there is a signature at all. */
  ghost function Layout(tx: Bytes): (r: Option<(nat, nat)>)
    ensures r.Some? ==> 0 < r.value.0 < r.value.1 <= |tx|
  {
    match Compact(tx)
    case None => None
    case Some((count, consumed)) =>
      if count < 1 || consumed + count * 64 > |tx| then None else Some((consumed, consumed + count * 64))
  }

  ghost function Message(tx: Bytes): Option<Bytes> {
    match Layout(tx)
    case None => None
    case Some((_, start)) => Some(tx[start..])
  }

  ghost function Splice(tx: Bytes, slot: nat, sig: Signature): Option<Bytes> {
    match Layout(tx)
    case None => None
    case Some((first, end)) =>
      var start := first + slot * 64;
      if start + 64 > end then None else Some(tx[..start] + sig + tx[start + 64..])
  }

  ghost function SignerSlot(tx: Bytes, key: Key): Option<nat> {
    if Compact(tx).None? || Message(tx).None? then None
    else
      var msg := Message(tx).value;
      if msg == [] || HeaderAt(msg) >= |msg| || msg[HeaderAt(msg)] != Compact(tx).value.0 then None
      else FindSlot(msg, key)
  }

  method TxSigLayout(tx: Bytes) returns (r: Option<(nat, nat)>)
    ensures r == Layout(tx)
  {
    hide Compact;
    var length := ReadCompactU16(tx);
    if length.None? {
      return None;
    }
    var (count, consumed) := length.value;
    if count < 1 || consumed + count * 64 > |tx| {
      return None;
    }
    return Some((consumed, consumed + count * 64));
  }

  method SpliceSignatureAt(tx: Bytes, slot: nat, sig: Signature) returns (r: Option<Bytes>)
    ensures r == Splice(tx, slot, sig)
  {
    hide Layout;
    var layout := TxSigLayout(tx);
    if layout.None? {
      return None;
    }
    var (first, end) := layout.value;
    var start := first + slot * 64;
    if start + 64 > end {
      return None;
    }
    var out := new byte[|tx|](i requires 0 <= i < |tx| => tx[i]);
    for k := 0 to 64
      invariant forall i :: 0 <= i < |tx| ==> out[i] == if start <= i < start + k then sig[i - start] else tx[i]
    {
      out[start + k] := sig[k];
    }
    assert out[..] == tx[..start] + sig + tx[start + 64..];
    return Some(out[..]);
  }

  method TxSignerSlot(tx: Bytes, key: Key) returns (r: Option<nat>)
    ensures r == SignerSlot(tx, key)
  {
    hide Compact, FindSlot;
    var length := ReadCompactU16(tx);
    if length.None? {
      return None;
    }
    var layout := TxSigLayout(tx);
    if layout.None? {
      return None;
    }
    var msg := tx[layout.value.1..];
    if msg == [] || HeaderAt(msg) >= |msg| || msg[HeaderAt(msg)] != length.value.0 {
      return None;
    }
    r := FindSignerSlot(msg, key);
  }

  // ---- splicing ----

  /** A slot can be spliced exactly when the transaction has that many signatures. */
  lemma SpliceIff(tx: Bytes, slot: nat, sig: Signature)
    ensures Splice(tx, slot, sig).Some? <==> Layout(tx).Some? && slot < Compact(tx).value.0
  {
  }

  /** Any slot found for a key can be spliced. */
  lemma SlotCanBeSpliced(tx: Bytes, key: Key, sig: Signature)
    requires SignerSlot(tx, key).Some?
    ensures Splice(tx, SignerSlot(tx, key).value, sig).Some?
  {
    hide Compact, FirstKey;
    SpliceIff(tx, SignerSlot(tx, key).value, sig);
  }

  /** Reading a length looks at no more bytes than it consumes. */
  lemma {:induction false} CompactDepends(a: Bytes, b: Bytes, i: nat, val: nat)
    requires i < 3 && CompactFrom(a, i, val).Some?
    requires |b| == |a| && forall k :: 0 <= k < CompactFrom(a, i, val).value.1 ==> a[k] == b[k]
    ensures CompactFrom(b, i, val) == CompactFrom(a, i, val)
    decreases 3 - i
  {
    hide Pow;
    if a[i] >= 128 {
      CompactDepends(a, b, i + 1, val + a[i] % 128 * Pow(128, i));
    }
  }

  /**
    Splicing writes the signature into its own 64 bytes and nowhere else: the length, the layout, the message and every
    key's slot stay.
  */
  lemma SpliceKeeps(tx: Bytes, slot: nat, sig: Signature)
    requires Splice(tx, slot, sig).Some?
    ensures var out, start := Splice(tx, slot, sig).value, Layout(tx).value.0 + slot * 64;
            && |out| == |tx| && start + 64 <= |tx|
            && out[start..start + 64] == sig
            && (forall i :: 0 <= i < |tx| && !(start <= i < start + 64) ==> out[i] == tx[i])
            && Compact(out) == Compact(tx) && Layout(out) == Layout(tx) && Message(out) == Message(tx)
            && forall key: Key :: SignerSlot(out, key) == SignerSlot(tx, key)
  {
    var out := Splice(tx, slot, sig).value;
    var (first, end) := Layout(tx).value;
    CompactDepends(tx, out, 0, 0);
    hide CompactFrom, FindSlot;
    assert Layout(out) == Layout(tx);
    assert out[end..] == tx[end..];
  }

  lemma PutsCommute(tx: Bytes, x: nat, y: nat, s: Signature, t: Signature)
    requires x + 64 <= |tx| && y + 64 <= |tx| && (x + 64 <= y || y + 64 <= x)
    ensures var a, b := tx[..x] + s + tx[x + 64..], tx[..y] + t + tx[y + 64..];
            |a| == |b| == |tx| && a[..y] + t + a[y + 64..] == b[..x] + s + b[x + 64..]
  {
  }

  /** Signatures of different signers can be spliced in either order. */
  lemma SplicesCommute(tx: Bytes, a: nat, b: nat, s: Signature, t: Signature)
    requires a != b && Splice(tx, a, s).Some? && Splice(tx, b, t).Some?
    ensures Splice(Splice(tx, a, s).value, b, t).Some?
    ensures Splice(Splice(tx, a, s).value, b, t) == Splice(Splice(tx, b, t).value, a, s)
  {
    SpliceKeeps(tx, a, s);
    SpliceKeeps(tx, b, t);
    hide Compact, SignerSlot, Message, Layout;
    var first := Layout(tx).value.0;
    var x, y := first + a * 64, first + b * 64;
    PutsCommute(tx, x, y, s, t);
  }

  /** A second splice into the same slot replaces the first. */
  lemma SpliceAgain(tx: Bytes, a: nat, s: Signature, t: Signature)
    requires Splice(tx, a, s).Some?
    ensures Splice(Splice(tx, a, s).value, a, t) == Splice(tx, a, t)
  {
    SpliceKeeps(tx, a, s);
    hide Compact, SignerSlot, Message;
    assert Splice(Splice(tx, a, s).value, a, t).value == Splice(tx, a, t).value;
  }
}
