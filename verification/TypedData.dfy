/**
  EIP-712 struct hashing (rust/src/eip712.rs) over any type table and any JSON value. Keccak-256, UTF-8 and the
  digits of big integers are parameters; the rest is what the encoder does.
*/
module TypedData {
  import opened Wrappers
  import opened Radix
  import opened Text
  import opened Decimal
  import opened TypeGraph

  /** `parse` reads digits in a radix, as num-bigint does. */
  datatype Primitives = Primitives(keccak: Bytes -> Word, utf8: string -> Bytes, parse: (string, nat) -> Option<int>)

  datatype Json =
    | Null | Bool(b: bool) | Number(text: string) | Str(s: string) | Arr(items: seq<Json>) | Obj(members: seq<Member>)
  datatype Member = Member(key: string, value: Json)

  datatype Error =
    | UnknownType(name: string) | ExpectedArray | WrongLength(expected: nat, got: nat) | ExpectedObject
    | ExpectedHexString | BadHex | BadNumber | Negative | Unsupported(name: string)
    | InField(struct: string, field: string, inner: Error)

  // ---- type syntax ----

  const USIZE_MAX := 0xFFFF_FFFF_FFFF_FFFF

  /** Element type and fixed length of an array type; None when it is not one. */
  function ArrayElemType(typ: string): (r: Option<(string, Option<nat>)>)
    ensures r.Some? ==> |r.value.0| < |typ|
  {
    if typ == [] || typ[|typ| - 1] != ']' then None
    else
      match FindLast(typ, '[')
      case None => None
      case Some(open) =>
        var inner := typ[open + 1..|typ| - 1];
        if inner == [] then Some((typ[..open], None))
        else
          match ParseUnsigned(inner, USIZE_MAX)
          case None => None
          case Some(n) => Some((typ[..open], Some(n)))
  }

  // ---- atomic encodings ----

  const TWO_255 := 0x8000000000000000000000000000000000000000000000000000000000000000
  const TWO_256 := 2 * TWO_255

  function EncodeUint256(n: int): Word {
    ToBe32(n % TWO_256)
  }

  function EncodeInt256(n: int): Word {
    ToBe32(if n >= 0 then n % TWO_256 else (TWO_256 + n) % TWO_256)
  }

  function PadLeft32(b: Bytes): Word {
    if |b| >= 32 then b[|b| - 32..] else Zeros(32 - |b|) + b
  }

  function PadRight32(b: Bytes): Word {
    if |b| >= 32 then b[..32] else b + Zeros(32 - |b|)
  }

  function HexDigit(c: char): Option<nat> {
    if '0' <= c <= '9' then Some(c as int - '0' as int)
    else if 'a' <= c <= 'f' then Some(c as int - 'a' as int + 10)
    else if 'A' <= c <= 'F' then Some(c as int - 'A' as int + 10)
    else None
  }

  /** Rust's `u8::from_str_radix` on two characters; it allows a plus sign in front. */
  function HexPair(c: char, d: char): Option<byte> {
    match (HexDigit(c), HexDigit(d))
    case (Some(h), Some(l)) => Some(16 * h + l)
    case (None, Some(l)) => if c == '+' then Some(l) else None
    case _ => None
  }

  function HexPairs(s: string): Result<Bytes, Error>
    requires |s| % 2 == 0
  {
    if s == [] then Success([])
    else
      match HexPair(s[0], s[1])
      case None => Failure(BadHex)
      case Some(b) =>
        var rest :- HexPairs(s[2..]);
        Success([b] + rest)
  }

  function HexDecode(s: string): Result<Bytes, Error> {
    var bare := if StartsWith(s, "0x") || StartsWith(s, "0X") then s[2..] else s;
    HexPairs(if |bare| % 2 != 0 then "0" + bare else bare)
  }

  function BigIntFromVal(p: Primitives, val: Json): Option<int> {
    match val
    case Str(text) =>
      var s := Trim(text);
      var neg := StartsWith(s, "-");
      var body := if neg then s[1..] else s;
      var n := if StartsWith(body, "0x") || StartsWith(body, "0X") then p.parse(body[2..], 16) else p.parse(body, 10);
      if n.None? then None else Some(if neg then -n.value else n.value)
    case Number(text) => p.parse(text, 10)
    case _ => None
  }

  function AsStr(val: Json): Option<string> {
    if val.Str? then Some(val.s) else None
  }

  /** The atomic types; anything that is neither an array nor a struct. */
  function EncodeAtom(p: Primitives, typ: string, val: Json): Result<Word, Error> {
    if typ == "string" then Success(p.keccak(p.utf8(AsStr(val).GetOr(""))))
    else if typ == "bytes" then
      if AsStr(val).None? then Failure(ExpectedHexString)
      else
        var b :- HexDecode(val.s);
        Success(p.keccak(b))
    else if typ == "bool" then Success(PadLeft32([if val == Bool(true) then 1 else 0]))
    else if typ == "address" then
      var b :- HexDecode(AsStr(val).GetOr(""));
      Success(PadLeft32(b))
    else if StartsWith(typ, "uint") then
      (match BigIntFromVal(p, val)
       case None => Failure(BadNumber)
       case Some(n) => if n < 0 then Failure(Negative) else Success(EncodeUint256(n)))
    else if StartsWith(typ, "int") then
      (match BigIntFromVal(p, val)
       case None => Failure(BadNumber)
       case Some(n) => Success(EncodeInt256(n)))
    else if StartsWith(typ, "bytes") then
      var b :- HexDecode(AsStr(val).GetOr(""));
      Success(PadRight32(b))
    else Failure(Unsupported(typ))
  }

  // ---- the recursion: every value shrinks, whatever the type table ----

  function Size(v: Json): nat {
    match v
    case Arr(items) => 1 + SizeOfItems(items)
    case Obj(members) => 1 + SizeOfMembers(members)
    case _ => 0
  }

  function SizeOfItems(items: seq<Json>): nat {
    if items == [] then 0 else SizeOfItems(items[..|items| - 1]) + 1 + Size(items[|items| - 1])
  }

  function SizeOfMembers(members: seq<Member>): nat {
    if members == [] then 0 else Size(members[0].value) + SizeOfMembers(members[1..])
  }

  /** A missing member reads as null. */
  function Lookup(members: seq<Member>, key: string): (v: Json)
    ensures Size(v) <= SizeOfMembers(members)
  {
    if members == [] then Null
    else if members[0].key == key then members[0].value
    else Lookup(members[1..], key)
  }

  ghost function EncodeValue(p: Primitives, types: Types, typ: string, val: Json): Result<Word, Error>
    decreases Size(val), 1, 0
  {
    var shape := ArrayElemType(typ);
    if shape.Some? then
      var (elem, fixed) := shape.value;
      if !val.Arr? then Failure(ExpectedArray)
      else if fixed.Some? && |val.items| != fixed.value then Failure(WrongLength(fixed.value, |val.items|))
      else
        var inner :- EncodeItems(p, types, elem, val.items);
        Success(p.keccak(inner))
    else if typ in types then
      if !val.Obj? then Failure(ExpectedObject) else HashStruct(p, types, typ, val.members)
    else EncodeAtom(p, typ, val)
  }

  ghost function EncodeItems(p: Primitives, types: Types, elem: string, items: seq<Json>): (r: Result<Bytes, Error>)
    ensures r.Success? ==> |r.value| == 32 * |items|
    decreases SizeOfItems(items), 2, 0
  {
    if items == [] then Success([])
    else
      var front :- EncodeItems(p, types, elem, items[..|items| - 1]);
      var last :- EncodeValue(p, types, elem, items[|items| - 1]);
      Success(front + last)
  }

  ghost function HashStruct(p: Primitives, types: Types, name: string, members: seq<Member>): Result<Word, Error>
    decreases SizeOfMembers(members) + 1, 0, 0
  {
    if name !in types then Failure(UnknownType(name))
    else
      var encoded :- EncodeFields(p, types, name, types[name], members);
      Success(p.keccak(p.keccak(p.utf8(TypeString(types, name))) + encoded))
  }

  ghost function EncodeFields(p: Primitives, types: Types, name: string, fields: seq<Field>, members: seq<Member>):
      (r: Result<Bytes, Error>)
    ensures r.Success? ==> |r.value| == 32 * |fields|
    decreases SizeOfMembers(members), 2, |fields|
  {
    if fields == [] then Success([])
    else
      var front :- EncodeFields(p, types, name, fields[..|fields| - 1], members);
      var field := fields[|fields| - 1];
      match EncodeValue(p, types, field.typ, Lookup(members, field.name))
      case Success(word) => Success(front + word)
      case Failure(e) => Failure(InField(name, field.name, e))
  }

  // ---- the encoder ----

  method EncodeValueOf(p: Primitives, types: Types, typ: string, val: Json) returns (r: Result<Word, Error>)
    ensures r == EncodeValue(p, types, typ, val)
    decreases Size(val), 1
  {
    hide ArrayElemType, EncodeAtom, HashStruct, EncodeFields;
    var shape := ArrayElemType(typ);
    if shape.Some? {
      var (elem, fixed) := shape.value;
      if !val.Arr? {
        return Failure(ExpectedArray);
      }
      if fixed.Some? && |val.items| != fixed.value {
        return Failure(WrongLength(fixed.value, |val.items|));
      }
      var inner: Bytes := [];
      for k := 0 to |val.items|
        invariant EncodeItems(p, types, elem, val.items[..k]) == Success(inner)
      {
        SizeOfItem(val.items, k);
        assert val.items[..k + 1][..k] == val.items[..k];
        var word := EncodeValueOf(p, types, elem, val.items[k]);
        if word.Failure? {
          FailedPrefix(p, types, elem, val.items, k + 1);
          return Failure(word.error);
        }
        inner := inner + word.value;
      }
      assert val.items[..|val.items|] == val.items;
      return Success(p.keccak(inner));
    }
    if typ in types {
      if !val.Obj? {
        return Failure(ExpectedObject);
      }
      r := HashStructOf(p, types, typ, val.members);
      return;
    }
    return EncodeAtom(p, typ, val);
  }

  method HashStructOf(p: Primitives, types: Types, name: string, members: seq<Member>) returns (r: Result<Word, Error>)
    ensures r == HashStruct(p, types, name, members)
    decreases SizeOfMembers(members) + 1, 0
  {
    var text := EncodeType(types, name);
    if text.None? {
      return Failure(UnknownType(name));
    }
    var encoded: Bytes := [];
    var fields := types[name];
    assert EncodeFields(p, types, name, fields[..0], members) == Success([]);
    hide EncodeFields, EncodeValue, Lookup, TypeString;
    for k := 0 to |fields|
      invariant EncodeFields(p, types, name, fields[..k], members) == Success(encoded)
    {
      var val := Lookup(members, fields[k].name);
      var word := EncodeValueOf(p, types, fields[k].typ, val);
      NextField(p, types, name, fields, members, k);
      if word.Failure? {
        FailedFields(p, types, name, fields, members, k + 1);
        return Failure(InField(name, fields[k].name, word.error));
      }
      encoded := encoded + word.value;
    }
    assert fields[..|fields|] == fields;
    return Success(p.keccak(p.keccak(p.utf8(text.value)) + encoded));
  }

  /** One more field adds its word or stops with its error. */
  lemma NextField(p: Primitives, types: Types, name: string, fields: seq<Field>, members: seq<Member>, k: nat)
    requires k < |fields| && EncodeFields(p, types, name, fields[..k], members).Success?
    ensures
      var before := EncodeFields(p, types, name, fields[..k], members);
      var word := EncodeValue(p, types, fields[k].typ, Lookup(members, fields[k].name));
      EncodeFields(p, types, name, fields[..k + 1], members)
      == if word.Success? then Success(before.value + word.value)
         else Failure(InField(name, fields[k].name, word.error))
  {
    hide EncodeValue, Lookup;
    assert fields[..k + 1][..k] == fields[..k];
  }

  lemma {:induction false} SizeOfItem(items: seq<Json>, k: nat)
    requires k < |items|
    ensures Size(items[k]) < SizeOfItems(items)
  {
    if k < |items| - 1 {
      SizeOfItem(items[..|items| - 1], k);
    }
  }

  lemma {:induction false} FailedPrefix(p: Primitives, types: Types, elem: string, items: seq<Json>, k: nat)
    requires k <= |items| && EncodeItems(p, types, elem, items[..k]).Failure?
    ensures EncodeItems(p, types, elem, items) == EncodeItems(p, types, elem, items[..k])
  {
    if k < |items| {
      var front := items[..|items| - 1];
      assert front[..k] == items[..k];
      FailedPrefix(p, types, elem, front, k);
    } else {
      assert items[..k] == items;
    }
  }

  lemma {:induction false} FailedFields(
      p: Primitives, types: Types, name: string, fields: seq<Field>, members: seq<Member>, k: nat)
    requires k <= |fields| && EncodeFields(p, types, name, fields[..k], members).Failure?
    ensures EncodeFields(p, types, name, fields, members) == EncodeFields(p, types, name, fields[..k], members)
  {
    if k < |fields| {
      var front := fields[..|fields| - 1];
      assert front[..k] == fields[..k];
      FailedFields(p, types, name, front, members, k);
    } else {
      assert fields[..k] == fields;
    }
  }

  // ---- encodeData is its fields' words, in order ----

  function WordAt(data: Bytes, k: nat): Word
    requires 32 * k + 32 <= |data|
  {
    data[32 * k..32 * k + 32]
  }

  /** The first `j` fields fill the first `j` words. */
  lemma {:induction false} FirstFields(
      p: Primitives, types: Types, name: string, fields: seq<Field>, members: seq<Member>, data: Bytes, j: nat)
    requires j <= |fields| && EncodeFields(p, types, name, fields, members) == Success(data)
    ensures |data| == 32 * |fields| && EncodeFields(p, types, name, fields[..j], members) == Success(data[..32 * j])
  {
    if j == |fields| {
      assert fields[..j] == fields && data[..32 * j] == data;
    } else {
      var before, word := LastField(p, types, name, fields, members, data);
      hide *;
      FirstFields(p, types, name, fields[..|fields| - 1], members, before, j);
      assert fields[..|fields| - 1][..j] == fields[..j];
      assert data[..32 * j] == before[..32 * j];
    }
  }

  /** Word `k` of an encoded struct is the encoding of its field `k`. */
  lemma FieldWord(
      p: Primitives, types: Types, name: string, fields: seq<Field>, members: seq<Member>, data: Bytes, k: nat)
    requires k < |fields| && EncodeFields(p, types, name, fields, members) == Success(data)
    ensures |data| == 32 * |fields|
    ensures EncodeValue(p, types, fields[k].typ, Lookup(members, fields[k].name)) == Success(WordAt(data, k))
  {
    FirstFields(p, types, name, fields, members, data, k + 1);
    hide EncodeFields, EncodeValue, Lookup;
    var upTo := data[..32 * (k + 1)];
    var before, word := LastField(p, types, name, fields[..k + 1], members, upTo);
    assert fields[..k + 1][k] == fields[k];
    assert WordAt(data, k) == upTo[32 * k..] == word;
  }

  lemma LastField(p: Primitives, types: Types, name: string, fields: seq<Field>, members: seq<Member>, data: Bytes)
    returns (before: Bytes, word: Word)
    requires fields != [] && EncodeFields(p, types, name, fields, members) == Success(data)
    ensures var front, last := fields[..|fields| - 1], fields[|fields| - 1];
            && EncodeFields(p, types, name, front, members) == Success(before)
            && EncodeValue(p, types, last.typ, Lookup(members, last.name)) == Success(word)
            && |before| == 32 * |front|
            && data == before + word
  {
    hide EncodeValue, Lookup;
    before := EncodeFields(p, types, name, fields[..|fields| - 1], members).value;
    word := EncodeValue(p, types, fields[|fields| - 1].typ, Lookup(members, fields[|fields| - 1].name)).value;
  }

  // ---- integers: two's complement ----

  lemma Pow256To32()
    ensures Pow(256, 32) == TWO_256
  {
    PowAdd(256, 16, 16);
    PowAdd(256, 8, 8);
    PowAdd(256, 4, 4);
    assert Pow(256, 4) == 0x1_0000_0000;
  }

  function DecodeInt256(w: Word): int {
    var v := Value(w, 256);
    if v >= TWO_255 then v - TWO_256 else v
  }

  /** The encoding is two's complement: it is read back exactly from the 256-bit range, and from nowhere else. */
  lemma Int256RoundTripIff(n: int)
    ensures DecodeInt256(EncodeInt256(n)) == n <==> -TWO_255 <= n < TWO_255
  {
    hide Value, ToBe32, Pow;
    EncodedInt(n);
    if 0 <= n < TWO_256 {
      ResidueIs(n, 0, n, TWO_256);
    } else if -TWO_256 <= n < 0 {
      ResidueIs(TWO_256 + n, 0, TWO_256 + n, TWO_256);
    }
  }

  lemma EncodedInt(n: int)
    ensures Value(EncodeInt256(n), 256) == if n >= 0 then n % TWO_256 else (TWO_256 + n) % TWO_256
    ensures 0 <= Value(EncodeInt256(n), 256) < TWO_256
  {
    Pow256To32();
    hide Pow, Value, ToBe32;
    ToBe32Value(if n >= 0 then n % TWO_256 else (TWO_256 + n) % TWO_256);
  }

  lemma Uint256RoundTripIff(n: nat)
    ensures Value(EncodeUint256(n), 256) == n <==> n < TWO_256
  {
    EncodedUint(n);
    hide Value, ToBe32, Pow, EncodeUint256;
    if n < TWO_256 {
      ResidueIs(n, 0, n, TWO_256);
    }
  }

  lemma EncodedUint(n: nat)
    ensures Value(EncodeUint256(n), 256) == n % TWO_256 < TWO_256
  {
    Pow256To32();
    hide Pow, Value, ToBe32;
    ToBe32Value(n % TWO_256);
  }

  // ---- what the atoms' words hold ----

  function HexChar(d: nat): char
    requires d < 16
  {
    if d < 10 then (d + '0' as int) as char else (d - 10 + 'a' as int) as char
  }

  function HexText(b: Bytes): string {
    if b == [] then "" else [HexChar(b[0] / 16)] + [HexChar(b[0] % 16)] + HexText(b[1..])
  }

  lemma OnePair(n: byte)
    ensures HexPair(HexChar(n / 16), HexChar(n % 16)) == Some(n)
  {
  }

  lemma {:induction false} HexPairsReadBack(b: Bytes)
    ensures |HexText(b)| == 2 * |b| && HexPairs(HexText(b)) == Success(b)
  {
    if b != [] {
      HexPairsReadBack(b[1..]);
      OnePair(b[0]);
      hide HexPair, HexChar;
      assert HexText(b)[2..] == HexText(b[1..]);
      assert [b[0]] + b[1..] == b;
    }
  }

  /** Bytes written in hexadecimal are read back. */
  lemma HexRoundTrip(b: Bytes)
    ensures HexDecode("0x" + HexText(b)) == Success(b)
  {
    HexPairsReadBack(b);
    hide HexPairs, HexText;
    assert ("0x" + HexText(b))[2..] == HexText(b) && ("0x" + HexText(b))[..2] == "0x";
  }

  lemma Padded(b: Bytes)
    ensures PadLeft32(b) == (Zeros(32) + b)[|b|..] && PadRight32(b) == (b + Zeros(32))[..32]
  {
  }

  /** An address is right-aligned in its word; longer bytes lose their front. */
  lemma AddressWord(p: Primitives, b: Bytes)
    ensures EncodeAtom(p, "address", Str("0x" + HexText(b))) == Success((Zeros(32) + b)[|b|..])
  {
    var val := Str("0x" + HexText(b));
    HexRoundTrip(b);
    Padded(b);
    assert AsStr(val).GetOr("") == "0x" + HexText(b);
    AddressAtom(p, val);
    hide *;
  }

  lemma AddressAtom(p: Primitives, val: Json)
    requires HexDecode(AsStr(val).GetOr("")).Success?
    ensures EncodeAtom(p, "address", val) == Success(PadLeft32(HexDecode(AsStr(val).GetOr("")).value))
  {
    hide HexDecode, PadLeft32, AsStr;
  }

  /** A bytesN is left-aligned in its word; longer bytes lose their end. */
  lemma FixedBytesWord(p: Primitives, typ: string, b: Bytes)
    requires StartsWith(typ, "bytes") && typ != "bytes"
    ensures EncodeAtom(p, typ, Str("0x" + HexText(b))) == Success((b + Zeros(32))[..32])
  {
    HexRoundTrip(b);
    Padded(b);
    assert typ[0] == typ[..5][0] == 'b' && typ[1] == typ[..5][1] == 'y';
    NotNumeric(typ);
    hide HexDecode, HexText, PadRight32, StartsWith;
  }

  /** Dynamic bytes are hashed. */
  lemma BytesWord(p: Primitives, b: Bytes)
    ensures EncodeAtom(p, "bytes", Str("0x" + HexText(b))) == Success(p.keccak(b))
  {
    HexRoundTrip(b);
    hide HexDecode, HexText;
  }

  lemma NotNumeric(typ: string)
    requires |typ| > 1 && typ[0] == 'b' && typ[1] == 'y'
    ensures !StartsWith(typ, "uint") && !StartsWith(typ, "int") && typ != "string" && typ != "bool" && typ != "address"
  {
    assert |typ| >= 4 ==> typ[..4][0] == 'b';
    assert |typ| >= 3 ==> typ[..3][0] == 'b';
  }

  /** A signed integer's word reads back exactly within the 256-bit range, whatever width its type names. */
  lemma IntWordIff(p: Primitives, typ: string, val: Json, n: int)
    requires StartsWith(typ, "int") && BigIntFromVal(p, val) == Some(n)
    ensures EncodeAtom(p, typ, val).Success?
    ensures DecodeInt256(EncodeAtom(p, typ, val).value) == n <==> -TWO_255 <= n < TWO_255
  {
    hide BigIntFromVal, EncodeInt256, DecodeInt256;
    assert typ[0] == typ[..3][0] == 'i';
    assert |typ| >= 4 ==> typ[..4][0] == 'i';
    Int256RoundTripIff(n);
  }

  /** An unsigned integer is refused exactly when negative, and wraps beyond 256 bits. */
  lemma UintWordIff(p: Primitives, typ: string, val: Json, n: int)
    requires StartsWith(typ, "uint") && BigIntFromVal(p, val) == Some(n)
    ensures EncodeAtom(p, typ, val) == Failure(Negative) <==> n < 0
    ensures n >= 0 ==>
      EncodeAtom(p, typ, val).Success? && (Value(EncodeAtom(p, typ, val).value, 256) == n <==> n < TWO_256)
  {
    hide BigIntFromVal, EncodeUint256, Value;
    assert typ[0] == typ[..4][0] == 'u';
    if n >= 0 {
      Uint256RoundTripIff(n);
    }
  }

  // ---- array types ----

  /** `T[]` is an array of `T` of any length. */
  lemma DynamicArrayType(t: string)
    ensures ArrayElemType(t + "[]") == Some((t, None))
  {
    var typ := t + "[]";
    FindLastIs(typ, '[', |t|);
    assert typ[|t| + 1..|typ| - 1] == [] && typ[..|t|] == t;
  }

  /** `T[n]` is an array of exactly `n`, whatever brackets `T` has. */
  lemma FixedArrayType(t: string, n: nat)
    requires n <= USIZE_MAX
    ensures ArrayElemType(t + ("[" + Dec(n) + "]")) == Some((t, Some(n)))
  {
    ParseOfDec(n);
    hide *;
    FixedSuffix(t, Dec(n), n);
  }

  lemma Suffixed(t: string, inner: string)
    ensures var typ := t + ("[" + inner + "]");
            && |typ| == |t| + |inner| + 2 && typ[|t|] == '[' && typ[|typ| - 1] == ']'
            && typ[..|t|] == t && typ[|t| + 1..] == inner + "]" && typ[|t| + 1..|typ| - 1] == inner
  {
    var suffix := "[" + inner + "]";
    assert |suffix| == |inner| + 2 && suffix[0] == '[' && suffix[|inner| + 1] == ']';
    var typ := t + suffix;
    assert forall i :: 0 <= i < |suffix| ==> typ[|t| + i] == suffix[i];
    assert forall i :: 0 <= i < |inner| ==> suffix[1 + i] == inner[i];
  }

  lemma FixedSuffix(t: string, inner: string, n: nat)
    requires inner != "" && '[' !in inner + "]" && ParseUnsigned(inner, USIZE_MAX) == Some(n)
    ensures ArrayElemType(t + ("[" + inner + "]")) == Some((t, Some(n)))
  {
    hide ParseUnsigned, FindLast;
    var typ := t + ("[" + inner + "]");
    Suffixed(t, inner);
    FindLastIs(typ, '[', |t|);
  }

  lemma ParseOfDec(n: nat)
    requires n <= USIZE_MAX
    ensures Dec(n) != "" && ParseUnsigned(Dec(n), USIZE_MAX) == Some(n) && '[' !in Dec(n) + "]"
  {
    NumOfDec(n);
    hide Dec, NumOf;
    assert IsDigit(Dec(n)[0]);
  }

  // ---- every struct hashed is listed by encodeType ----

  /** `typ` peels to `u` by taking array suffixes off. */
  ghost predicate PeelsTo(typ: string, u: string)
    decreases |typ|
  {
    typ == u || (ArrayElemType(typ).Some? && PeelsTo(ArrayElemType(typ).value.0, u))
  }

  lemma {:induction false} PeelingFindsBase(typ: string, u: string)
    requires PeelsTo(typ, u) && '[' !in u
    ensures StripArraySuffix(typ) == u
    decreases |typ|
  {
    if typ != u {
      var elem := ArrayElemType(typ).value.0;
      PeelingFindsBase(elem, u);
      var open := FindLast(typ, '[').value;
      assert elem == typ[..open];
      match Find(elem, '[') {
        case Some(i) =>
          assert typ[..i] == elem[..i];
          FindIs(typ, '[', i);
        case None =>
          FindIs(typ, '[', open);
      }
    }
  }

  lemma StrippedHasNoBracket(t: string)
    ensures '[' !in StripArraySuffix(t)
  {
  }

  /**
    A struct that a field's values reach through arrays is a reference of the enclosing type exactly when its name has
    no bracket; a type is always a reference of itself.
  */
  lemma HashedStructListedIff(types: Types, name: string, k: nat, u: string)
    requires name in types && k < |types[name]| && PeelsTo(types[name][k].typ, u) && u in types
    ensures Reaches(types, name, u) <==> u == name || '[' !in u
    ensures Edge(types, name, u) <==> '[' !in u
  {
    ReachesItself(types, u);
    forall i | 0 <= i < |types[name]| ensures '[' !in StripArraySuffix(types[name][i].typ) {
      StrippedHasNoBracket(types[name][i].typ);
    }
    hide StripArraySuffix, PeelsTo;
    if '[' !in u {
      PeelingFindsBase(types[name][k].typ, u);
      ReachesThrough(types, name, u, u);
    } else if Reaches(types, name, u) {
      var p :| Path(types, p) && p[0] == name && p[|p| - 1] == u;
      if |p| > 1 {
        assert Edge(types, p[|p| - 2], p[|p| - 2 + 1]);
        var i :| 0 <= i < |types[p[|p| - 2]]| && StripArraySuffix(types[p[|p| - 2]][i].typ) == u;
        StrippedHasNoBracket(types[p[|p| - 2]][i].typ);
      }
    }
  }

  const BRACKETED: Types := map["A" := [Field("x", "B[k]")], "B[k]" := []]

  lemma BracketedIsNoArray()
    ensures ArrayElemType("B[k]").None? && StripArraySuffix("B[k]") == "B"
  {
    var b := "B[k]";
    FindIs(b, '[', 1);
    assert b[..1] == "B";
    FindLastIs(b, '[', 1);
    assert b[2..3] == "k" && !IsDigit('k');
  }

  lemma BracketedIsUnreached()
    ensures !Reaches(BRACKETED, "A", "B[k]")
    ensures forall d :: Reaches(BRACKETED, "A", d) ==> d == "A"
  {
    BracketedIsNoArray();
    hide StripArraySuffix;
    var only: set<string> := {"A"};
    assert Closed(BRACKETED, only, only);
    forall d | Reaches(BRACKETED, "A", d) ensures d == "A" {
      var p :| Path(BRACKETED, p) && p[0] == "A" && p[|p| - 1] == d;
      ClosedHoldsPath(BRACKETED, only, p);
    }
  }

  lemma TypeStringAlone(types: Types, name: string)
    requires name in types && forall d :: Reaches(types, name, d) ==> d == name
    ensures TypeString(types, name) == FormatType(name, types[name])
  {
    ReachesItself(types, name);
    hide Reaches, FormatType;
    assert References(types, name, []);
    ReferencesExist(types, name);
    forall order | References(types, name, order) ensures order == [] {
      ReferencesUnique(types, name, order, []);
    }
  }

  /**
    A struct whose name holds a bracket is hashed as a field while the type string leaves it out: the encoding of
    `A` carries the hash of a `B[k]`, and its type string is that of `A` alone.
  */
  lemma BracketedNameIsUnlisted(p: Primitives)
    ensures var inner := p.keccak(p.keccak(p.utf8(TypeString(BRACKETED, "B[k]"))));
            && EncodeValue(p, BRACKETED, "B[k]", Obj([])) == Success(inner)
            && HashStruct(p, BRACKETED, "A", [Member("x", Obj([]))])
            == Success(p.keccak(p.keccak(p.utf8(TypeString(BRACKETED, "A"))) + inner))
    ensures !Reaches(BRACKETED, "A", "B[k]")
    ensures TypeString(BRACKETED, "A") == FormatType("A", BRACKETED["A"])
  {
    BracketedIsUnreached();
    BracketedIsNoArray();
    TypeStringAlone(BRACKETED, "A");
    hide Reaches, TypeString, FormatType, ArrayElemType;
    EmptyStruct(p, BRACKETED, "B[k]");
    OneFieldStruct(p, BRACKETED, "A", Field("x", "B[k]"), Obj([]));
  }

  lemma EmptyStruct(p: Primitives, types: Types, name: string)
    requires name in types && types[name] == [] && ArrayElemType(name).None?
    ensures EncodeValue(p, types, name, Obj([])) == Success(p.keccak(p.keccak(p.utf8(TypeString(types, name)))))
  {
    hide ArrayElemType, TypeString;
    var typeHash := p.keccak(p.utf8(TypeString(types, name)));
    assert EncodeFields(p, types, name, [], []) == Success([]);
    assert typeHash + [] == typeHash;
  }

  lemma OneFieldStruct(p: Primitives, types: Types, name: string, field: Field, val: Json)
    requires name in types && types[name] == [field] && EncodeValue(p, types, field.typ, val).Success?
    ensures var word := EncodeValue(p, types, field.typ, val).value;
            HashStruct(p, types, name, [Member(field.name, val)])
            == Success(p.keccak(p.keccak(p.utf8(TypeString(types, name))) + word))
  {
    hide ArrayElemType, TypeString, EncodeValue;
    var members := [Member(field.name, val)];
    var word := EncodeValue(p, types, field.typ, val).value;
    assert [field][..0] == [];
    assert EncodeFields(p, types, name, [], members) == Success([]);
    assert Lookup(members, field.name) == val;
    assert [] + word == word;
    assert EncodeFields(p, types, name, [field], members) == Success(word);
  }
}
