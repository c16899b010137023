/**
  What an EIP-712 encoding holds, word by word, and what the signed digest is made of (rust/src/eip712.rs): arrays and
  structs as their elements' words in order, numbers and truth values by their meaning.
*/
module TypedWords {
  import opened Wrappers
  import opened Radix
  import opened Text
  import opened Decimal
  import opened TypeGraph
  import opened TypedData

  // ---- arrays and structs ----

  /** Words side by side, the first one in front. */
  function Joined(words: seq<Word>): Bytes {
    if words == [] then [] else words[0] + Joined(words[1..])
  }

  lemma {:induction false} JoinedMore(words: seq<Word>, w: Word)
    ensures Joined(words + [w]) == Joined(words) + w
  {
    if words == [] {
      assert [] + [w] == [w] && [w][1..] == [];
    } else {
      assert (words + [w])[1..] == words[1..] + [w];
      JoinedMore(words[1..], w);
    }
  }

  /** `words[k]` encodes element `k`. */
  ghost predicate ItemWords(p: Primitives, types: Types, elem: string, items: seq<Json>, words: seq<Word>) {
    |words| == |items| && forall k :: 0 <= k < |items| ==> EncodeValue(p, types, elem, items[k]) == Success(words[k])
  }

  lemma {:induction false} ItemsJoined(p: Primitives, types: Types, elem: string, items: seq<Json>, words: seq<Word>)
    requires ItemWords(p, types, elem, items, words)
    ensures EncodeItems(p, types, elem, items) == Success(Joined(words))
  {
    hide EncodeValue;
    if items != [] {
      var k := |items| - 1;
      ItemsJoined(p, types, elem, items[..k], words[..k]);
      JoinedMore(words[..k], words[k]);
      assert words[..k] + [words[k]] == words;
    }
  }

  lemma {:induction false} ItemsHaveWords(p: Primitives, types: Types, elem: string, items: seq<Json>)
    returns (words: seq<Word>)
    requires EncodeItems(p, types, elem, items).Success?
    ensures ItemWords(p, types, elem, items, words)
  {
    hide EncodeValue;
    words := [];
    if items != [] {
      var k := |items| - 1;
      var front := ItemsHaveWords(p, types, elem, items[..k]);
      words := front + [EncodeValue(p, types, elem, items[k]).value];
      assert forall i :: 0 <= i < k ==> items[i] == items[..k][i];
    }
  }

  /** An array's word is the hash of its elements' words in their order; a fixed length must be met. */
  lemma ArrayWordIff(
      p: Primitives, types: Types, typ: string, elem: string, fixed: Option<nat>, items: seq<Json>, w: Word)
    requires ArrayElemType(typ) == Some((elem, fixed))
    ensures EncodeValue(p, types, typ, Arr(items)) == Success(w)
       <==> && (fixed.Some? ==> |items| == fixed.value)
            && exists words :: ItemWords(p, types, elem, items, words) && w == p.keccak(Joined(words))
  {
    hide ArrayElemType, ItemWords, Joined;
    ArrayIs(p, types, typ, elem, fixed, items);
    hide EncodeValue, EncodeItems;
    if EncodeItems(p, types, elem, items).Success? {
      var words := ItemsHaveWords(p, types, elem, items);
      ItemsJoined(p, types, elem, items, words);
    }
    forall words | ItemWords(p, types, elem, items, words)
      ensures EncodeItems(p, types, elem, items) == Success(Joined(words))
    {
      ItemsJoined(p, types, elem, items, words);
    }
  }

  lemma ArrayIs(p: Primitives, types: Types, typ: string, elem: string, fixed: Option<nat>, items: seq<Json>)
    requires ArrayElemType(typ) == Some((elem, fixed))
    ensures EncodeValue(p, types, typ, Arr(items))
         == if fixed.Some? && |items| != fixed.value then Failure(WrongLength(fixed.value, |items|))
            else
              var inner := EncodeItems(p, types, elem, items);
              if inner.Success? then Success(p.keccak(inner.value)) else Failure(inner.error)
  {
    hide ArrayElemType;
  }

  /** The first element that does not encode is the array's error. */
  lemma ArrayFails(
      p: Primitives, types: Types, typ: string, elem: string, fixed: Option<nat>, items: seq<Json>, k: nat,
      words: seq<Word>)
    requires ArrayElemType(typ) == Some((elem, fixed)) && (fixed.Some? ==> |items| == fixed.value)
    requires k < |items| && ItemWords(p, types, elem, items[..k], words)
    requires EncodeValue(p, types, elem, items[k]).Failure?
    ensures EncodeValue(p, types, typ, Arr(items)) == Failure(EncodeValue(p, types, elem, items[k]).error)
  {
    hide ArrayElemType;
    ArrayIs(p, types, typ, elem, fixed, items);
    hide EncodeValue;
    ItemsJoined(p, types, elem, items[..k], words);
    assert items[..k + 1][..k] == items[..k];
    FailedPrefix(p, types, elem, items, k + 1);
  }

  /** Only an array encodes as an array type, and only an object as a struct. */
  lemma ShapesMustMatch(p: Primitives, types: Types, typ: string, val: Json)
    ensures ArrayElemType(typ).Some? && !val.Arr? ==> EncodeValue(p, types, typ, val) == Failure(ExpectedArray)
    ensures ArrayElemType(typ).None? && typ in types && !val.Obj? ==>
              EncodeValue(p, types, typ, val) == Failure(ExpectedObject)
  {
    hide ArrayElemType;
  }

  /** Member `i` is the first with this key. */
  ghost predicate FirstAt(members: seq<Member>, key: string, i: nat) {
    i < |members| && members[i].key == key && forall j :: 0 <= j < i ==> members[j].key != key
  }

  /** What a key names: its first member's value, null when there is none. */
  lemma {:induction false} LookupIs(members: seq<Member>, key: string)
    ensures forall i: nat :: FirstAt(members, key, i) ==> Lookup(members, key) == members[i].value
    ensures (forall i :: 0 <= i < |members| ==> members[i].key != key) ==> Lookup(members, key) == Null
  {
    if members != [] {
      var rest := members[1..];
      LookupIs(rest, key);
      forall i: nat | FirstAt(members, key, i)
        ensures Lookup(members, key) == members[i].value
      {
        if i > 0 {
          assert forall j :: 0 <= j < |rest| ==> rest[j] == members[j + 1];
          assert FirstAt(rest, key, i - 1);
        }
      }
    }
  }

  ghost predicate FieldWords(p: Primitives, types: Types, fields: seq<Field>, members: seq<Member>, words: seq<Word>) {
    && |words| == |fields|
    && forall k :: 0 <= k < |fields| ==>
         EncodeValue(p, types, fields[k].typ, Lookup(members, fields[k].name)) == Success(words[k])
  }

  lemma {:induction false} FieldsJoined(
      p: Primitives, types: Types, name: string, fields: seq<Field>, members: seq<Member>, words: seq<Word>)
    requires FieldWords(p, types, fields, members, words)
    ensures EncodeFields(p, types, name, fields, members) == Success(Joined(words))
  {
    hide EncodeValue, Lookup;
    if fields != [] {
      var k := |fields| - 1;
      FieldsJoined(p, types, name, fields[..k], members, words[..k]);
      JoinedMore(words[..k], words[k]);
      assert words[..k] + [words[k]] == words;
    }
  }

  lemma {:induction false} FieldsHaveWords(
      p: Primitives, types: Types, name: string, fields: seq<Field>, members: seq<Member>) returns (words: seq<Word>)
    requires EncodeFields(p, types, name, fields, members).Success?
    ensures FieldWords(p, types, fields, members, words)
  {
    hide EncodeValue, Lookup;
    words := [];
    if fields != [] {
      var k := |fields| - 1;
      var front := FieldsHaveWords(p, types, name, fields[..k], members);
      words := front + [EncodeValue(p, types, fields[k].typ, Lookup(members, fields[k].name)).value];
      assert forall i :: 0 <= i < k ==> fields[i] == fields[..k][i];
    }
  }

  /** A struct's word is the hash of its type's hash and its fields' words in the order the type lists them. */
  lemma StructWordIff(p: Primitives, types: Types, name: string, members: seq<Member>, w: Word)
    requires name in types
    ensures HashStruct(p, types, name, members) == Success(w)
       <==> exists words :: && FieldWords(p, types, types[name], members, words)
                            && w == p.keccak(p.keccak(p.utf8(TypeString(types, name))) + Joined(words))
  {
    hide FieldWords, Joined, TypeString, EncodeFields;
    var fields := types[name];
    if EncodeFields(p, types, name, fields, members).Success? {
      var words := FieldsHaveWords(p, types, name, fields, members);
      FieldsJoined(p, types, name, fields, members, words);
    }
    forall words | FieldWords(p, types, fields, members, words)
      ensures EncodeFields(p, types, name, fields, members) == Success(Joined(words))
    {
      FieldsJoined(p, types, name, fields, members, words);
    }
  }

  // ---- numbers ----

  /** A decimal text means its number, with a minus sign in front its negation. */
  lemma SignedText(p: Primitives, n: nat)
    requires p.parse(Dec(n), 10) == Some(n as int)
    ensures BigIntFromVal(p, Str(Dec(n))) == Some(n as int)
    ensures BigIntFromVal(p, Str("-" + Dec(n))) == Some(0 - n)
  {
    DecShape(n);
    hide Dec;
    var s := Dec(n);
    assert IsDigit(s[0]) && IsDigit(s[|s| - 1]);
    TrimKeeps(s);
    TrimKeeps("-" + s);
    assert ("-" + s)[1..] == s && ("-" + s)[..1] == "-";
    assert s[..1] != "-" by {
      assert s[..1][0] == s[0];
    }
    NoPrefix(s, "0x");
    NoPrefix(s, "0X");
    hide Trim, StartsWith;
  }

  lemma NoPrefix(s: string, prefix: string)
    requires |prefix| == 2 && !IsDigit(prefix[1]) && AllDigits(s)
    ensures !StartsWith(s, prefix)
  {
    assert |s| >= 2 ==> s[..2][1] == s[1];
  }

  lemma DecShape(n: nat)
    ensures Dec(n) != "" && AllDigits(Dec(n))
  {
  }

  /** A text in hexadecimal means its number, with a minus sign in front its negation. */
  lemma HexNumber(p: Primitives, h: string, n: int)
    requires h != "" && !IsSpace(h[|h| - 1]) && p.parse(h, 16) == Some(n)
    ensures BigIntFromVal(p, Str("0x" + h)) == Some(n) && BigIntFromVal(p, Str("0X" + h)) == Some(n)
    ensures BigIntFromVal(p, Str("-0x" + h)) == Some(-n) && BigIntFromVal(p, Str("-0X" + h)) == Some(-n)
  {
    hide BigIntFromVal;
    Prefixed(p, "0x", h, n);
    Prefixed(p, "0X", h, n);
    assert "-0x" + h == "-" + ("0x" + h) && "-0X" + h == "-" + ("0X" + h);
  }

  lemma Prefixed(p: Primitives, x: string, h: string, n: int)
    requires x == "0x" || x == "0X"
    requires h != "" && !IsSpace(h[|h| - 1]) && p.parse(h, 16) == Some(n)
    ensures BigIntFromVal(p, Str(x + h)) == Some(n) && BigIntFromVal(p, Str("-" + (x + h))) == Some(-n)
  {
    var s := x + h;
    assert s[..2] == x && s[2..] == h && s[0] == '0';
    assert s[..1][0] == '0';
    TrimKeeps(s);
    TrimKeeps("-" + s);
    assert ("-" + s)[1..] == s && ("-" + s)[..1] == "-";
    hide Trim;
  }

  /** Space around a number does not matter; anything but a text or a number is none. */
  lemma NumberForms(p: Primitives, val: Json)
    ensures val.Str? ==> BigIntFromVal(p, val) == BigIntFromVal(p, Str(Trim(val.s)))
    ensures val.Number? ==> BigIntFromVal(p, val) == p.parse(val.text, 10)
    ensures !val.Str? && !val.Number? ==> BigIntFromVal(p, val).None?
  {
    if val.Str? {
      TrimTwice(val.s);
    }
    hide Trim, StartsWith;
  }

  /** A signed integer written in decimal encodes to the word that reads back as it, whatever its sign. */
  lemma SignedTextWord(p: Primitives, typ: string, n: nat)
    requires StartsWith(typ, "int") && p.parse(Dec(n), 10) == Some(n as int) && n < TWO_255
    ensures EncodeAtom(p, typ, Str(Dec(n))).Success? && EncodeAtom(p, typ, Str("-" + Dec(n))).Success?
    ensures DecodeInt256(EncodeAtom(p, typ, Str(Dec(n))).value) == n
    ensures DecodeInt256(EncodeAtom(p, typ, Str("-" + Dec(n))).value) == 0 - n
  {
    hide EncodeAtom, DecodeInt256, BigIntFromVal, Dec, StartsWith;
    SignedText(p, n);
    IntWordIff(p, typ, Str(Dec(n)), n);
    IntWordIff(p, typ, Str("-" + Dec(n)), 0 - n);
  }

  /** A truth value's word is one for true and zero for anything else. */
  lemma BoolWord(p: Primitives, val: Json)
    ensures EncodeAtom(p, "bool", val).Success?
    ensures Value(EncodeAtom(p, "bool", val).value, 256) == if val == Bool(true) then 1 else 0
  {
    var b := if val == Bool(true) then 1 else 0;
    assert PadLeft32([b]) == Zeros(31) + [b];
    BoolAtom(p, val);
    hide EncodeAtom, PadLeft32, Value, Zeros;
    ValueOfPadded(31, [b], 256);
    OneDigit(b);
  }

  lemma BoolAtom(p: Primitives, val: Json)
    ensures EncodeAtom(p, "bool", val) == Success(PadLeft32([if val == Bool(true) then 1 else 0]))
  {
    hide PadLeft32;
  }

  lemma OneDigit(b: nat)
    ensures Value([b], 256) == b
  {
    assert [b][..0] == [];
  }

  // ---- texts and bytes ----

  /** A text is hashed; anything else is hashed as the empty text. */
  lemma StringWord(p: Primitives, val: Json)
    ensures EncodeAtom(p, "string", val) == Success(p.keccak(p.utf8(if val.Str? then val.s else "")))
  {
  }

  /** Hexadecimal without a prefix. */
  lemma BareHex(b: Bytes)
    ensures HexDecode(HexText(b)) == Success(b)
  {
    HexPairsReadBack(b);
    NoX(b);
    hide HexPairs, HexText, HexDecode, HexChar;
    DecodeBare(HexText(b));
  }

  /** With an odd number of digits the first stands alone. */
  lemma OddHex(d: nat, b: Bytes)
    requires d < 16
    ensures HexDecode("0x" + ([HexChar(d)] + HexText(b))) == Success([d] + b)
  {
    hide HexPairs, HexText, HexDecode, HexChar;
    HexPairsReadBack([d] + b);
    OddText(d, b);
    var text := [HexChar(d)] + HexText(b);
    assert |"0" + text| == 2 * |[d] + b|;
    DecodePrefixed(text);
  }

  /** Upper-case digits mean the same; a sign is read as a digit pair's plus sign. */
  lemma OtherDigits(d: nat)
    requires d < 16
    ensures d >= 10 ==> HexDigit((d - 10 + 'A' as int) as char) == Some(d)
    ensures HexPair('+', HexChar(d)) == Some(d)
  {
  }

  lemma OddText(d: nat, b: Bytes)
    requires d < 16
    ensures HexText([d] + b) == "0" + ([HexChar(d)] + HexText(b))
  {
    assert ([d] + b)[1..] == b && HexChar(0) == '0';
  }

  lemma DecodeBare(text: string)
    requires |text| % 2 == 0 && forall i :: 0 <= i < |text| ==> text[i] != 'x' && text[i] != 'X'
    ensures HexDecode(text) == HexPairs(text)
  {
    hide HexPairs;
    assert |text| >= 2 ==> text[..2][1] == text[1];
  }

  lemma DecodePrefixed(text: string)
    ensures HexDecode("0x" + text) == HexPairs(if |text| % 2 != 0 then "0" + text else text)
  {
    hide HexPairs;
    assert ("0x" + text)[2..] == text && ("0x" + text)[..2] == "0x";
  }

  lemma {:induction false} NoX(b: Bytes)
    ensures forall i :: 0 <= i < |HexText(b)| ==> HexText(b)[i] != 'x' && HexText(b)[i] != 'X'
  {
    if b != [] {
      NoX(b[1..]);
    }
  }

  // ---- the signable digest ----

  datatype Typed = Typed(types: Types, primary: string, domain: seq<Member>, message: seq<Member>)

  method SignableHash(p: Primitives, d: Typed) returns (r: Result<Word, Error>)
    ensures r == Digest(p, d)
  {
    hide HashStruct;
    var domain := HashStructOf(p, d.types, "EIP712Domain", d.domain);
    if domain.Failure? {
      return Failure(domain.error);
    }
    var message := HashStructOf(p, d.types, d.primary, d.message);
    if message.Failure? {
      return Failure(message.error);
    }
    var raw: Bytes := [0x19, 0x01];
    raw := raw + domain.value;
    raw := raw + message.value;
    return Success(p.keccak(raw));
  }

  ghost function Digest(p: Primitives, d: Typed): Result<Word, Error> {
    var domain :- HashStruct(p, d.types, "EIP712Domain", d.domain);
    var message :- HashStruct(p, d.types, d.primary, d.message);
    Success(p.keccak([0x19, 0x01] + domain + message))
  }

  /** The two structs behind a digest, at their places in what was hashed. */
  lemma DigestHolds(p: Primitives, d: Typed) returns (raw: Bytes)
    requires Digest(p, d).Success?
    ensures Digest(p, d) == Success(p.keccak(raw)) && |raw| == 66 && raw[0] == 25 && raw[1] == 1
    ensures HashStruct(p, d.types, "EIP712Domain", d.domain) == Success(raw[2..34])
    ensures HashStruct(p, d.types, d.primary, d.message) == Success(raw[34..])
  {
    hide HashStruct;
    raw := [25, 1] + HashStruct(p, d.types, "EIP712Domain", d.domain).value
         + HashStruct(p, d.types, d.primary, d.message).value;
  }
}
