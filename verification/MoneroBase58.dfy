/**
  Monero's block-wise base58 (`monero_base58` of rust/src/bitfi.rs): each block of up to eight bytes becomes a run of
  base-58 digits whose length depends only on the block's.
*/
module MoneroBase58 {
  import opened Wrappers
  import opened Radix

  const NUMERALS := "123456789"
  const CAPITALS := "ABCDEFGH" + "JKLMN" + "PQRSTUVWXYZ"
  const SMALL := "abcdefghijk" + "mnopqrstuvwxyz"
  const ALPHABET := NUMERALS + CAPITALS + SMALL
  const ENCODED_LENGTH := [0, 2, 3, 5, 6, 7, 9, 10, 11]

  /** How many characters a block of `n` bytes takes. */
  function CharsFor(n: nat): nat
    requires n <= 8
  {
    ENCODED_LENGTH[n]
  }

  function CharOf(d: nat): char
    requires d < 58
  {
    ALPHABET[d]
  }

  function CharsOf58(digits: seq<nat>): string
    requires Digits(digits, 58)
  {
    seq(|digits|, i requires 0 <= i < |digits| => CharOf(digits[i]))
  }

  /** A block's value in its own number of base-58 digits. */
  function EncodeBlock(block: Bytes): (s: string)
    requires |block| <= 8
    ensures |s| == CharsFor(|block|)
  {
    CharsOf58(Fixed(Value(block, 256), 58, CharsFor(|block|)))
  }

  function Encode(data: Bytes): string {
    if |data| <= 8 then EncodeBlock(data) else EncodeBlock(data[..8]) + Encode(data[8..])
  }

  // ---- the loops ----

  method MoneroEncode(data: Bytes) returns (out: string)
    ensures out == Encode(data)
  {
    hide Encode, EncodeBlock;
    out := "";
    var at := 0;
    while at < |data|
      invariant 0 <= at <= |data| && out + Encode(data[at..]) == Encode(data)
    {
      var end := if at + 8 <= |data| then at + 8 else |data|;
      var block := data[at..end];
      var chars := EncodeInPlace(block);
      out := out + chars;
      OneBlock(data[at..]);
      assert data[at..][..|block|] == block && data[at..][|block|..] == data[end..];
      at := end;
    }
    NothingLeft();
    assert data[at..] == [] && out + "" == out;
  }

  lemma NothingLeft()
    ensures Encode([]) == ""
  {
  }

  lemma WholeBlock(data: Bytes)
    requires |data| <= 8
    ensures Encode(data) == EncodeBlock(data)
  {
    hide EncodeBlock;
  }

  /** The first chunk of what is left, then the rest. */
  lemma OneBlock(rest: Bytes)
    ensures var n := if |rest| <= 8 then |rest| else 8;
            Encode(rest) == EncodeBlock(rest[..n]) + Encode(rest[n..])
  {
    hide EncodeBlock;
    if |rest| <= 8 {
      NothingLeft();
      hide Encode;
      WholeBlock(rest);
      assert rest[..|rest|] == rest && rest[|rest|..] == [];
    }
  }

  /** One block: digits are written from the back while the value is divided, and the division always reaches zero. */
  method EncodeInPlace(block: Bytes) returns (s: string)
    requires 0 < |block| <= 8
    ensures s == EncodeBlock(block)
  {
    var value := FoldBytes(block);
    BlockFits(block);
    s := WriteDigits(value, CharsFor(|block|));
  }

  method WriteDigits(n: nat, width: nat) returns (s: string)
    requires n < Pow(58, width)
    ensures s == CharsOf58(Fixed(n, 58, width))
  {
    hide Pow, Fixed, CharOf;
    var value := n;
    var chars := new char[width](_ => '1');
    ghost var digits := Fixed(n, 58, width);
    var k := width;
    while k > 0
      invariant 0 <= k <= width && 0 <= value < Pow(58, k)
      invariant Fixed(value, 58, k) == digits[..k]
      invariant forall i :: k <= i < width ==> chars[i] == CharOf(digits[i])
    {
      PeelDigit(value, 58, k);
      k := k - 1;
      LastOf(digits, k, Fixed(value / 58, 58, k), value % 58);
      chars[k] := CharOf(value % 58);
      value := value / 58;
    }
    assert value == 0 by {
      PowZero(58);
    }
    s := chars[..];
  }

  lemma LastOf(digits: seq<nat>, k: nat, front: seq<nat>, last: nat)
    requires k < |digits| && |front| == k && digits[..k + 1] == front + [last]
    ensures digits[..k] == front && digits[k] == last
  {
    assert digits[..k] == digits[..k + 1][..k];
    assert digits[k] == digits[..k + 1][k];
  }

  /** `(n << 8) | b` over the block; eight bytes never overflow 64 bits. */
  method FoldBytes(block: Bytes) returns (value: nat)
    requires |block| <= 8
    ensures value == Value(block, 256) < Pow(256, |block|)
  {
    value := 0;
    for i := 0 to |block|
      invariant value == Value(block[..i], 256)
    {
      assert block[..i + 1][..i] == block[..i];
      value := value * 256 + block[i];
    }
    assert block[..|block|] == block;
    ValueBound(block, 256);
  }

  // ---- the digits suffice ----

  lemma PowZero(b: nat)
    ensures Pow(b, 0) == 1
  {
  }

  /** The digits of a block's length hold its value: 256^n <= 58^CharsFor(n). */
  lemma LengthSuffices(n: nat)
    requires n <= 8
    ensures Pow(256, n) <= Pow(58, CharsFor(n))
  {
    assert Pow(256, 4) == 0x1_0000_0000;
    assert Pow(58, 5) == 656356768 && Pow(58, 6) == 38068692544;
    PowAdd(256, 4, 4);
    PowAdd(58, 5, 5);
    PowAdd(58, 5, 6);
  }

  lemma BlockFits(block: Bytes)
    requires |block| <= 8
    ensures Value(block, 256) < Pow(58, CharsFor(|block|))
  {
    ValueBound(block, 256);
    hide Value, Pow;
    LengthSuffices(|block|);
  }

  // ---- a decoder that inverts it ----

  function DigitOf(c: char): Option<nat> {
    if '1' <= c <= '9' then Some(c as int - '1' as int)
    else if 'A' <= c <= 'H' then Some(c as int - 'A' as int + 9)
    else if 'J' <= c <= 'N' then Some(c as int - 'J' as int + 17)
    else if 'P' <= c <= 'Z' then Some(c as int - 'P' as int + 22)
    else if 'a' <= c <= 'k' then Some(c as int - 'a' as int + 33)
    else if 'm' <= c <= 'z' then Some(c as int - 'm' as int + 44)
    else None
  }

  function DigitsOf58(s: string): (r: Option<seq<nat>>)
    ensures r.Some? ==> |r.value| == |s|
  {
    if s == [] then Some([])
    else
      match (DigitsOf58(s[..|s| - 1]), DigitOf(s[|s| - 1]))
      case (Some(front), Some(last)) => Some(front + [last])
      case _ => None
  }

  /** The block size behind a run of characters, if there is one. */
  function BytesFor(chars: nat): (r: Option<nat>)
    ensures r.Some? ==> r.value <= 8 && CharsFor(r.value) == chars
  {
    match chars
    case 0 => Some(0)
    case 2 => Some(1)
    case 3 => Some(2)
    case 5 => Some(3)
    case 6 => Some(4)
    case 7 => Some(5)
    case 9 => Some(6)
    case 10 => Some(7)
    case 11 => Some(8)
    case _ => None
  }

  function DecodeBlock(s: string): Option<Bytes> {
    match (BytesFor(|s|), DigitsOf58(s))
    case (Some(n), Some(digits)) =>
      var value := Value(digits, 58);
      if value < Pow(256, n) then Some(Fixed(value, 256, n)) else None
    case _ => None
  }

  function Decode(s: string): Option<Bytes> {
    if |s| <= 11 then DecodeBlock(s)
    else
      match (DecodeBlock(s[..11]), Decode(s[11..]))
      case (Some(block), Some(rest)) => Some(block + rest)
      case _ => None
  }

  lemma NumeralAt(d: nat)
    requires d < 9
    ensures NUMERALS[d] as int == '1' as int + d
  {
  }

  lemma CapitalAt(d: nat)
    requires d < 24
    ensures CAPITALS[d] as int == 'A' as int + (if d < 8 then d else if d < 13 then d + 1 else d + 2)
  {
  }

  lemma SmallAt(d: nat)
    requires d < 25
    ensures SMALL[d] as int == 'a' as int + (if d < 11 then d else d + 1)
  {
  }

  lemma DigitOfChar(d: nat)
    requires d < 58
    ensures DigitOf(CharOf(d)) == Some(d)
  {
    if d < 9 {
      NumeralAt(d);
    } else if d < 33 {
      CapitalAt(d - 9);
    } else {
      SmallAt(d - 33);
    }
  }

  lemma {:induction false} DigitsOfChars(digits: seq<nat>)
    requires Digits(digits, 58)
    ensures DigitsOf58(CharsOf58(digits)) == Some(digits)
  {
    if digits != [] {
      var front, last := digits[..|digits| - 1], digits[|digits| - 1];
      DigitsOfChars(front);
      DigitOfChar(last);
      hide DigitOf, CharOf;
      assert CharsOf58(digits)[..|digits| - 1] == CharsOf58(front);
      assert CharsOf58(digits)[|digits| - 1] == CharOf(last);
      assert front + [last] == digits;
    }
  }

  lemma SizeOfLength(n: nat)
    requires n <= 8
    ensures BytesFor(CharsFor(n)) == Some(n)
  {
  }

  lemma BlockRoundTrip(block: Bytes)
    requires |block| <= 8
    ensures DecodeBlock(EncodeBlock(block)) == Some(block)
  {
    BlockFits(block);
    ValueBound(block, 256);
    hide Pow, Value, Fixed, DigitsOf58, CharsOf58, BytesFor;
    var digits := Fixed(Value(block, 256), 58, CharsFor(|block|));
    DigitsOfChars(digits);
    ValueOfFixed(Value(block, 256), 58, CharsFor(|block|));
    FixedOfValue(block, 256);
    SizeOfLength(|block|);
  }

  /** Decoding inverts encoding on byte strings of every length. */
  lemma {:induction false} RoundTrip(data: Bytes)
    ensures Decode(Encode(data)) == Some(data)
  {
    hide DecodeBlock, EncodeBlock;
    if |data| <= 8 {
      BlockRoundTrip(data);
    } else {
      var first := EncodeBlock(data[..8]);
      BlockRoundTrip(data[..8]);
      RoundTrip(data[8..]);
      NonEmpty(data[8..]);
      assert Encode(data)[..11] == first && Encode(data)[11..] == Encode(data[8..]);
      assert data[..8] + data[8..] == data;
    }
  }

  lemma NonEmpty(data: Bytes)
    requires data != []
    ensures Encode(data) != ""
  {
  }

  /** No two byte strings share an encoding, whatever their lengths. */
  lemma Injective(a: Bytes, b: Bytes)
    ensures Encode(a) == Encode(b) <==> a == b
  {
    hide Encode, Decode;
    RoundTrip(a);
    RoundTrip(b);
  }

  lemma FullBlock()
    ensures CharsFor(8) == 11 && CharsFor(0) == 0
  {
  }

  /** The length of the text: eleven characters a full block, and the rest by its size. */
  lemma {:induction false} EncodedLengthIs(data: Bytes)
    ensures |Encode(data)| == 11 * (|data| / 8) + CharsFor(|data| % 8)
  {
    FullBlock();
    hide EncodeBlock, CharsFor;
    if |data| > 8 {
      EncodedLengthIs(data[8..]);
    }
  }

  // ---- what the characters mean ----

  /** Characters weighted by place in base 58, the first one most; a character counts by its place in the alphabet. */
  ghost predicate Writes(s: string, digits: seq<nat>, n: nat) {
    && |digits| == |s| && Digits(digits, 58)
    && (forall i :: 0 <= i < |s| ==> s[i] == ALPHABET[digits[i]])
    && Places(digits, 58) == n
  }

  /** A block's text writes the number its bytes write, both from the highest place on, in the length of its size. */
  lemma BlockWrites(block: Bytes) returns (digits: seq<nat>)
    requires |block| <= 8
    ensures Writes(EncodeBlock(block), digits, Places(block, 256))
    ensures |EncodeBlock(block)| == [0, 2, 3, 5, 6, 7, 9, 10, 11][|block|]
  {
    hide Value, Fixed, Places, Pow;
    digits := Fixed(Value(block, 256), 58, CharsFor(|block|));
    BlockFits(block);
    ValueOfFixed(Value(block, 256), 58, CharsFor(|block|));
    ValueIsPlaces(digits, 58);
    ValueIsPlaces(block, 256);
  }

  /** Block `k` of the data; the last one may be shorter. */
  function BlockAt(data: Bytes, k: nat): Bytes
    requires 8 * k < |data|
  {
    data[8 * k..if 8 * k + 8 <= |data| then 8 * k + 8 else |data|]
  }

  lemma NextBlocks(data: Bytes, k: nat)
    requires k > 0 && 8 * k < |data|
    ensures 8 * (k - 1) < |data[8..]| && BlockAt(data[8..], k - 1) == BlockAt(data, k)
  {
  }

  lemma SliceBehind(first: string, rest: string, at: nat, n: nat)
    requires at + n <= |rest|
    ensures (first + rest)[|first| + at..|first| + at + n] == rest[at..at + n]
  {
  }

  /** Characters 11k and on are block `k`'s, in the order of the blocks, and nothing follows the last one's. */
  lemma {:induction false} BlocksInOrder(data: Bytes, k: nat)
    requires 8 * k < |data|
    ensures var text := EncodeBlock(BlockAt(data, k));
            && 11 * k + |text| <= |Encode(data)|
            && Encode(data)[11 * k..11 * k + |text|] == text
            && (8 * k + 8 >= |data| ==> 11 * k + |text| == |Encode(data)|)
  {
    hide EncodeBlock, CharsFor;
    FullBlock();
    if k > 0 {
      NextBlocks(data, k);
      BlocksInOrder(data[8..], k - 1);
      var text := EncodeBlock(BlockAt(data, k));
      assert Encode(data) == EncodeBlock(data[..8]) + Encode(data[8..]);
      SliceBehind(EncodeBlock(data[..8]), Encode(data[8..]), 11 * (k - 1), |text|);
    } else if |data| <= 8 {
      assert data[0..|data|] == data;
    }
  }
}
