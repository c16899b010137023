/**
  BIP-39 mnemonics (rust/src/bip39.rs) over any list of 2048 distinct words and any 32-byte hash. A bit is a digit in
  base 2; eleven of them make a word index and eight a byte.
*/
module Bip39 {
  import opened Wrappers
  import opened Radix
  import opened Bits
  import opened Text

  datatype Error = BadLength | UnknownWord | BadChecksum

  ghost predicate WordList(list: seq<string>) {
    && |list| == 2048
    && (forall i :: 0 <= i < |list| ==> IsWord(list[i]))
    && (forall i, j :: 0 <= i < j < |list| ==> list[i] != list[j])
  }

  /** First position of a word in the list. */
  function FindWord(list: seq<string>, w: string): (r: Option<nat>)
    ensures r.Some? ==> r.value < |list| && list[r.value] == w
    ensures r.None? ==> w !in list
  {
    if list == [] then None
    else if list[0] == w then Some(0)
    else
      match FindWord(list[1..], w)
      case None => None
      case Some(i) => Some(i + 1)
  }

  function Indices(list: seq<string>, words: seq<string>): (r: Option<seq<nat>>)
    ensures r.Some? ==>
      |r.value| == |words| && forall i :: 0 <= i < |words| ==> r.value[i] < |list| && list[r.value[i]] == words[i]
  {
    if words == [] then Some([])
    else
      match (Indices(list, words[..|words| - 1]), FindWord(list, words[|words| - 1]))
      case (Some(front), Some(last)) => Some(front + [last])
      case _ => None
  }

  function WordsAt(list: seq<string>, ns: seq<nat>): seq<string>
    requires forall i :: 0 <= i < |ns| ==> ns[i] < |list|
  {
    seq(|ns|, i requires 0 <= i < |ns| => list[ns[i]])
  }

  // ---- what the two functions compute ----

  lemma Pow2To8()
    ensures Pow(2, 8) == 256
  {
    PowAdd(2, 4, 4);
  }

  lemma Pow2To11()
    ensures Pow(2, 11) == 2048
  {
    Pow2To8();
    PowAdd(2, 8, 3);
  }

  lemma GroupsFit(bits: seq<nat>, w: nat)
    requires w > 0 && |bits| % w == 0 && Digits(bits, 2)
    ensures |Group(bits, w)| == |bits| / w && forall i :: 0 <= i < |bits| / w ==> Group(bits, w)[i] < Pow(2, w)
  {
    DivMod(|bits|, w);
    ExpandOfGroup(bits, w, |bits| / w);
  }

  ghost function ToBytes(bits: seq<nat>): (b: Bytes)
    requires |bits| % 8 == 0 && Digits(bits, 2)
    ensures |b| == |bits| / 8
  {
    GroupsFit(bits, 8);
    Pow2To8();
    Group(bits, 8)
  }

  /** The first `n` bits of the hash of `entropy`. */
  ghost function Checksum(sha256: Bytes -> Word, entropy: Bytes, n: nat): seq<nat>
    requires n <= 256
  {
    Expand(sha256(entropy), 8)[..n]
  }

  ghost predicate AcceptedWordCount(n: nat) {
    n == 12 || n == 15 || n == 18 || n == 21 || n == 24
  }

  ghost predicate AcceptedSize(n: nat) {
    n == 16 || n == 20 || n == 24 || n == 28 || n == 32
  }

  lemma WordBits(n: nat)
    requires AcceptedWordCount(n)
    ensures (n * 11) % 33 == 0 && n * 11 <= 264
  {
  }

  ghost function DecodeBits(sha256: Bytes -> Word, bits: seq<nat>): Result<Bytes, Error>
    requires Digits(bits, 2) && |bits| % 33 == 0 && |bits| <= 264
  {
    var sum := |bits| / 33;
    var entropy := ToBytes(bits[..|bits| - sum]);
    if bits[|bits| - sum..] == Checksum(sha256, entropy, sum) then Success(entropy) else Failure(BadChecksum)
  }

  ghost function Decode(list: seq<string>, sha256: Bytes -> Word, mnemonic: string): Result<Bytes, Error> {
    var words := SplitWhitespace(mnemonic);
    if !AcceptedWordCount(|words|) then Failure(BadLength)
    else
      match Indices(list, words)
      case None => Failure(UnknownWord)
      case Some(ns) =>
        WordBits(|ns|);
        DecodeBits(sha256, Expand(ns, 11))
  }

  ghost function EncodeBits(sha256: Bytes -> Word, entropy: Bytes): (bits: seq<nat>)
    requires AcceptedSize(|entropy|)
    ensures Digits(bits, 2) && |bits| == 11 * (3 * (|entropy| / 4)) && |bits| % 11 == 0
  {
    Expand(entropy, 8) + Checksum(sha256, entropy, |entropy| * 8 / 32)
  }

  ghost function Encode(list: seq<string>, sha256: Bytes -> Word, entropy: Bytes): Result<string, Error>
    requires |list| == 2048
  {
    if !AcceptedSize(|entropy|) then Failure(BadLength)
    else
      GroupsFit(EncodeBits(sha256, entropy), 11);
      Pow2To11();
      Success(JoinSpaced(WordsAt(list, Group(EncodeBits(sha256, entropy), 11))))
  }

  // ---- the round trips ----

  lemma SizeFacts(n: nat)
    requires AcceptedSize(n)
    ensures n * 8 / 32 == n / 4 && n * 8 + n / 4 == 33 * (n / 4) && AcceptedWordCount(3 * (n / 4))
  {
  }

  lemma DecodeOfEncodedBits(sha256: Bytes -> Word, entropy: Bytes)
    requires AcceptedSize(|entropy|)
    ensures |EncodeBits(sha256, entropy)| % 33 == 0
    ensures DecodeBits(sha256, EncodeBits(sha256, entropy)) == Success(entropy)
  {
    SizeFacts(|entropy|);
    Pow2To8();
    hide Pow, Group, Fixed, Value;
    var bits := EncodeBits(sha256, entropy);
    var kept := |entropy| * 8;
    assert |bits| / 33 == |entropy| / 4 && |bits| - |bits| / 33 == kept;
    assert bits[..kept] == Expand(entropy, 8) && bits[kept..] == Checksum(sha256, entropy, |entropy| / 4);
    hide Expand;
    GroupOfExpand(entropy, 8);
  }

  lemma EncodeOfDecodedBits(sha256: Bytes -> Word, bits: seq<nat>, words: nat)
    requires AcceptedWordCount(words) && Digits(bits, 2) && |bits| == words * 11 && |bits| % 33 == 0
    requires DecodeBits(sha256, bits).Success?
    ensures var entropy := DecodeBits(sha256, bits).value;
            AcceptedSize(|entropy|) && EncodeBits(sha256, entropy) == bits
  {
    hide Pow, Group, Fixed, Value, Expand;
    var sum := |bits| / 33;
    var kept := bits[..|bits| - sum];
    var entropy := DecodeBits(sha256, bits).value;
    assert |kept| == |entropy| * 8 && |entropy| * 8 / 32 == sum && AcceptedSize(|entropy|);
    ExpandOfGroup(kept, 8, |entropy|);
    assert kept + bits[|bits| - sum..] == bits;
  }

  lemma {:induction false} FindWordAt(list: seq<string>, i: nat)
    requires i < |list| && forall j, k :: 0 <= j < k < |list| ==> list[j] != list[k]
    ensures FindWord(list, list[i]) == Some(i)
  {
    var r := FindWord(list, list[i]);
    assert list[i] in list;
    assert list[r.value] == list[i];
  }

  lemma {:induction false} IndicesOfWords(list: seq<string>, ns: seq<nat>)
    requires forall j, k :: 0 <= j < k < |list| ==> list[j] != list[k]
    requires forall i :: 0 <= i < |ns| ==> ns[i] < |list|
    ensures Indices(list, WordsAt(list, ns)) == Some(ns)
  {
    if ns != [] {
      var front, last := ns[..|ns| - 1], ns[|ns| - 1];
      IndicesOfWords(list, front);
      FindWordAt(list, last);
      assert WordsAt(list, ns)[..|ns| - 1] == WordsAt(list, front);
      assert front + [last] == ns;
    }
  }

  lemma WordsOfIndices(list: seq<string>, words: seq<string>)
    requires Indices(list, words).Some?
    ensures WordsAt(list, Indices(list, words).value) == words
  {
  }

  lemma AreListed(list: seq<string>, ns: seq<nat>)
    requires WordList(list) && forall i :: 0 <= i < |ns| ==> ns[i] < |list|
    ensures |WordsAt(list, ns)| == |ns| && forall i :: 0 <= i < |ns| ==> IsWord(WordsAt(list, ns)[i])
  {
  }

  /** Every entropy of a permitted size is encoded, and decoding the mnemonic gives it back. */
  lemma DecodeOfEncode(list: seq<string>, sha256: Bytes -> Word, entropy: Bytes)
    requires WordList(list)
    ensures Encode(list, sha256, entropy).Success? <==> AcceptedSize(|entropy|)
    ensures AcceptedSize(|entropy|) ==> Decode(list, sha256, Encode(list, sha256, entropy).value) == Success(entropy)
  {
    hide Pow, Group, Fixed, Value, Expand, EncodeBits, DecodeBits, Indices, WordsAt;
    if AcceptedSize(|entropy|) {
      var bits := EncodeBits(sha256, entropy);
      SizeFacts(|entropy|);
      GroupsFit(bits, 11);
      Pow2To11();
      var ns := Group(bits, 11);
      AreListed(list, ns);
      SplitOfJoin(WordsAt(list, ns));
      IndicesOfWords(list, ns);
      ExpandOfGroup(bits, 11, 3 * (|entropy| / 4));
      DecodeOfEncodedBits(sha256, entropy);
    }
  }

  /** Any accepted mnemonic, whatever its spacing, re-encodes to its own words with single spaces. */
  lemma EncodeOfDecode(list: seq<string>, sha256: Bytes -> Word, mnemonic: string)
    requires WordList(list) && Decode(list, sha256, mnemonic).Success?
    ensures Encode(list, sha256, Decode(list, sha256, mnemonic).value) == Success(JoinSpaced(SplitWhitespace(mnemonic)))
  {
    var words := SplitWhitespace(mnemonic);
    var ns := Indices(list, words).value;
    WordsOfIndices(list, words);
    Pow2To11();
    hide Pow, Group, Fixed, Value, Expand, EncodeBits, DecodeBits, Indices, WordsAt;
    WordBits(|words|);
    EncodeOfDecodedBits(sha256, Expand(ns, 11), |words|);
    GroupOfExpand(ns, 11);
  }

  /** A mnemonic is accepted as `entropy` exactly when its words, single-spaced, are the encoding of `entropy`. */
  lemma AcceptedIff(list: seq<string>, sha256: Bytes -> Word, mnemonic: string, entropy: Bytes)
    requires WordList(list)
    ensures Decode(list, sha256, mnemonic) == Success(entropy)
       <==> Encode(list, sha256, entropy) == Success(JoinSpaced(SplitWhitespace(mnemonic)))
  {
    if Decode(list, sha256, mnemonic) == Success(entropy) {
      EncodeOfDecode(list, sha256, mnemonic);
    } else {
      hide Indices, Expand, DecodeBits, Encode;
      SplitOfJoin(SplitWhitespace(mnemonic));
      DecodeOfEncode(list, sha256, entropy);
    }
  }

  // ---- the loops ----

  method PushBits(bits: seq<nat>, n: nat, w: nat) returns (r: seq<nat>)
    ensures r == bits + Fixed(n, 2, w)
  {
    r := bits;
    var i := w;
    while i > 0
      invariant 0 <= i <= w && r == bits + Fixed(n, 2, w)[..w - i]
    {
      i := i - 1;
      BitOfFixed(n, w, i);
      r := r + [Bit(n, i)];
    }
  }

  /** The first `count` bits of `bytes`, most significant first. */
  method PushBytes(bits: seq<nat>, bytes: Bytes, count: nat) returns (r: seq<nat>)
    requires count <= |bytes| * 8
    ensures r == bits + Expand(bytes, 8)[..count]
  {
    hide Expand, Bit;
    r := bits;
    for i := 0 to count
      invariant r == bits + Expand(bytes, 8)[..i]
    {
      ExpandAt(bytes, 8, i / 8, i % 8);
      r := r + [Bit(bytes[i / 8], 7 - i % 8)];
    }
  }

  /** `n | 1 << k`. */
  function OrBit(n: nat, k: nat): nat {
    if Bit(n, k) == 1 then n else n + Pow(2, k)
  }

  /** Bits not read yet count as zero. */
  ghost function Padded(bits: seq<nat>, i: nat): seq<nat>
    requires i <= |bits|
  {
    bits[..i] + Zeros(|bits| - i)
  }

  lemma OrOneBit(slice: seq<nat>, k: nat, bit: nat)
    requires Digits(slice, 2) && k < |slice| && slice[k] == 0 && bit < 2
    ensures Value(slice[k := bit], 2) == if bit == 1 then OrBit(Value(slice, 2), |slice| - 1 - k) else Value(slice, 2)
  {
    hide Value, Bit, Pow;
    BitOfValue(slice, |slice| - 1 - k);
    if bit == 1 {
      SetDigit(slice, k);
    } else {
      assert slice[k := bit] == slice;
    }
  }

  lemma OwnSlice(bits: seq<nat>, i: nat, at: nat, w: nat)
    requires Digits(bits, 2) && at <= i < at + w <= |bits|
    ensures Value(Padded(bits, i + 1)[at..at + w], 2)
         == var before := Value(Padded(bits, i)[at..at + w], 2);
            if bits[i] == 1 then OrBit(before, w - 1 - (i - at)) else before
  {
    hide Value, OrBit;
    var slice := Padded(bits, i)[at..at + w];
    assert Padded(bits, i)[i] == 0 && slice[i - at] == 0;
    assert forall k :: 0 <= k < w ==> slice[k] == Padded(bits, i)[at + k];
    assert Padded(bits, i + 1)[at..at + w] == slice[i - at := bits[i]];
    OrOneBit(slice, i - at, bits[i]);
  }

  lemma OtherSlice(bits: seq<nat>, i: nat, at: nat, w: nat)
    requires i < |bits| && at + w <= |bits| && !(at <= i < at + w)
    ensures Padded(bits, i + 1)[at..at + w] == Padded(bits, i)[at..at + w]
  {
  }

  /** Reading one more bit ors it into its own byte and changes no other. */
  lemma ReadBit(bits: seq<nat>, i: nat, count: nat, j: nat)
    requires Digits(bits, 2) && |bits| == count * 8 && i < |bits| && j < count
    ensures |Group(Padded(bits, i), 8)| == |Group(Padded(bits, i + 1), 8)| == count
    ensures var before := Group(Padded(bits, i), 8)[j];
            Group(Padded(bits, i + 1), 8)[j] == if j == i / 8 && bits[i] == 1 then OrBit(before, 7 - i % 8) else before
  {
    hide Value, OrBit, Group, Pow;
    GroupAt(Padded(bits, i), 8, count, j);
    GroupAt(Padded(bits, i + 1), 8, count, j);
    hide Padded;
    if j == i / 8 {
      OwnSlice(bits, i, j * 8, 8);
    } else {
      OtherSlice(bits, i, j * 8, 8);
    }
  }

  method PackBytes(bits: seq<nat>) returns (a: array<byte>)
    requires |bits| % 8 == 0 && Digits(bits, 2)
    ensures fresh(a) && a[..] == ToBytes(bits)
  {
    hide OrBit, Group;
    a := new byte[|bits| / 8](_ => 0);
    ClearGroups(bits);
    for i := 0 to |bits|
      invariant Digits(Padded(bits, i), 2) && a[..] == ToBytes(Padded(bits, i))
    {
      forall j | 0 <= j < |bits| / 8 {
        ReadBit(bits, i, |bits| / 8, j);
      }
      if bits[i] == 1 {
        assert OrBit(a[i / 8], 7 - i % 8) == ToBytes(Padded(bits, i + 1))[i / 8];
        a[i / 8] := OrBit(a[i / 8], 7 - i % 8);
      }
    }
    assert Padded(bits, |bits|) == bits;
  }

  lemma ClearGroups(bits: seq<nat>)
    requires |bits| % 8 == 0 && Digits(bits, 2)
    ensures ToBytes(Padded(bits, 0)) == Zeros(|bits| / 8)
  {
    var zeros := Padded(bits, 0);
    forall j | 0 <= j < |bits| / 8
      ensures ToBytes(zeros)[j] == 0
    {
      GroupAt(zeros, 8, |bits| / 8, j);
      assert zeros[j * 8..j * 8 + 8] == Zeros(8);
      ValueOfZeros(8, 2);
    }
  }

  lemma {:induction false} UnknownPrefix(list: seq<string>, words: seq<string>, k: nat)
    requires k <= |words| && Indices(list, words[..k]).None?
    ensures Indices(list, words).None?
  {
    if k < |words| {
      assert words[..|words| - 1][..k] == words[..k];
      UnknownPrefix(list, words[..|words| - 1], k);
    } else {
      assert words[..k] == words;
    }
  }

  lemma NoWords(list: seq<string>)
    ensures Indices(list, []) == Some([]) && Expand([], 11) == []
  {
  }

  /** One more word adds its eleven bits, or is the first not listed. */
  lemma NextWord(list: seq<string>, words: seq<string>, k: nat)
    requires k < |words| && Indices(list, words[..k]).Some?
    ensures Indices(list, words[..k + 1]).Some? == FindWord(list, words[k]).Some?
    ensures FindWord(list, words[k]).Some? ==>
      Expand(Indices(list, words[..k + 1]).value, 11)
      == Expand(Indices(list, words[..k]).value, 11) + Fixed(FindWord(list, words[k]).value, 2, 11)
  {
    hide FindWord, Fixed;
    assert words[..k + 1][..k] == words[..k];
    var before, at := Indices(list, words[..k]).value, FindWord(list, words[k]);
    if at.Some? {
      assert (before + [at.value])[..|before|] == before;
    }
  }

  method MnemonicToEntropy(list: seq<string>, sha256: Bytes -> Word, mnemonic: string) returns (r: Result<Bytes, Error>)
    ensures r == Decode(list, sha256, mnemonic)
  {
    hide Pow, Fixed, Group, Value, FindWord, SplitWhitespace, DecodeBits, Expand, Indices;
    var words := SplitWhitespace(mnemonic);
    var n := |words|;
    if n != 12 && n != 15 && n != 18 && n != 21 && n != 24 {
      return Failure(BadLength);
    }
    var bits: seq<nat> := [];
    NoWords(list);
    assert words[..0] == [];
    for k := 0 to |words|
      invariant Indices(list, words[..k]).Some? && bits == Expand(Indices(list, words[..k]).value, 11)
    {
      NextWord(list, words, k);
      var at := FindWord(list, words[k]);
      if at.None? {
        UnknownPrefix(list, words, k + 1);
        return Failure(UnknownWord);
      }
      bits := PushBits(bits, at.value, 11);
      assert bits == Expand(Indices(list, words[..k + 1]).value, 11);
    }
    assert words[..|words|] == words;
    WordBits(|words|);
    r := CheckedEntropy(sha256, bits);
  }

  method CheckedEntropy(sha256: Bytes -> Word, bits: seq<nat>) returns (r: Result<Bytes, Error>)
    requires Digits(bits, 2) && |bits| % 33 == 0 && |bits| <= 264
    ensures r == DecodeBits(sha256, bits)
  {
    hide Expand, Bit, ToBytes;
    var sum := |bits| / 33;
    var kept := |bits| - sum;
    var a := PackBytes(bits[..kept]);
    var entropy := a[..];
    var hash := sha256(entropy);
    for i := 0 to sum
      invariant bits[kept..kept + i] == Expand(hash, 8)[..i]
    {
      ExpandAt(hash, 8, i / 8, i % 8);
      if bits[kept + i] != Bit(hash[i / 8], 7 - i % 8) {
        assert bits[kept..][i] != Expand(hash, 8)[..sum][i];
        return Failure(BadChecksum);
      }
      assert Expand(hash, 8)[..i + 1] == Expand(hash, 8)[..i] + [Bit(hash[i / 8], 7 - i % 8)];
    }
    return Success(entropy);
  }

  method EntropyToMnemonic(list: seq<string>, sha256: Bytes -> Word, entropy: Bytes) returns (r: Result<string, Error>)
    requires |list| == 2048
    ensures r == Encode(list, sha256, entropy)
  {
    hide Pow, Fixed, Expand, Value, Group;
    var n := |entropy|;
    if n != 16 && n != 20 && n != 24 && n != 28 && n != 32 {
      return Failure(BadLength);
    }
    SizeFacts(n);
    var bits := PushBytes([], entropy, n * 8);
    bits := PushBytes(bits, sha256(entropy), n * 8 / 32);
    assert bits == EncodeBits(sha256, entropy);
    Pow2To11();
    GroupsFit(bits, 11);
    hide EncodeBits;
    var words: seq<string> := [];
    for k := 0 to |bits| / 11
      invariant words == WordsAt(list, Group(bits, 11)[..k])
    {
      GroupAt(bits, 11, |bits| / 11, k);
      var idx := FoldBits(bits[k * 11..k * 11 + 11]);
      words := words + [list[idx]];
    }
    assert Group(bits, 11)[..|bits| / 11] == Group(bits, 11);
    return Success(JoinSpaced(words));
  }

  method FoldBits(chunk: seq<nat>) returns (idx: nat)
    ensures idx == Value(chunk, 2)
  {
    idx := 0;
    for i := 0 to |chunk|
      invariant idx == Value(chunk[..i], 2)
    {
      assert chunk[..i + 1][..i] == chunk[..i];
      idx := idx * 2 + chunk[i];
    }
    assert chunk[..|chunk|] == chunk;
  }

  // ---- what the words mean ----

  lemma {:induction false} ValueOfExpand(ns: seq<nat>, w: nat)
    requires forall i :: 0 <= i < |ns| ==> ns[i] < Pow(2, w)
    ensures Value(Expand(ns, w), 2) == Value(ns, Pow(2, w))
  {
    hide Pow;
    if ns != [] {
      var front, last := ns[..|ns| - 1], ns[|ns| - 1];
      ValueOfExpand(front, w);
      ValueOfFixed(last, 2, w);
      hide Fixed;
      ValueConcat(Expand(front, w), Fixed(last, 2, w), 2);
    }
  }

  /** The leading digits of a number are its quotient. */
  lemma LeadingDigits(ds: seq<nat>, b: nat, k: nat)
    requires Digits(ds, b) && b > 0 && k <= |ds|
    ensures Pow(b, |ds| - k) > 0 && Value(ds[..k], b) == Value(ds, b) / Pow(b, |ds| - k)
  {
    PowPositive(b, |ds| - k);
    ValueBound(ds[k..], b);
    ValueConcat(ds[..k], ds[k..], b);
    assert ds[..k] + ds[k..] == ds;
    hide Value, Pow;
    DivModUnique(Value(ds[..k], b), Value(ds[k..], b), Pow(b, |ds| - k));
  }

  /** The number that the highest `k` bits of a hash write: all it writes, less the other bits. */
  function TopBits(hash: Word, k: nat): nat {
    var rest := Pow(2, if k <= 256 then 256 - k else 0);
    if rest == 0 then 0 else Value(hash, 256) / rest
  }

  /** The numbers of a mnemonic's words. */
  ghost function WordNumbers(sha256: Bytes -> Word, entropy: Bytes): (ns: seq<nat>)
    requires AcceptedSize(|entropy|)
    ensures |ns| == 3 * (|entropy| / 4) && forall i :: 0 <= i < |ns| ==> ns[i] < 2048
  {
    GroupsFit(EncodeBits(sha256, entropy), 11);
    Pow2To11();
    Group(EncodeBits(sha256, entropy), 11)
  }

  lemma EncodeIsItsWords(list: seq<string>, sha256: Bytes -> Word, entropy: Bytes)
    requires |list| == 2048 && AcceptedSize(|entropy|)
    ensures Encode(list, sha256, entropy) == Success(JoinSpaced(WordsAt(list, WordNumbers(sha256, entropy))))
  {
    hide JoinSpaced, WordsAt, Group, EncodeBits;
  }

  /**
    The mnemonic's word numbers, read in base 2048, are the entropy read in base 256 followed by the leading bits of
    its hash: one bit of hash for every four bytes, highest first.
  */
  lemma MnemonicNumber(sha256: Bytes -> Word, entropy: Bytes)
    requires AcceptedSize(|entropy|)
    ensures Value(WordNumbers(sha256, entropy), 2048)
         == Value(entropy, 256) * Pow(2, |entropy| / 4) + TopBits(sha256(entropy), |entropy| / 4)
  {
    hide Pow, Value, Expand, Group, EncodeBits;
    Pow2To11();
    var bits := EncodeBits(sha256, entropy);
    GroupsFit(bits, 11);
    ExpandOfGroup(bits, 11, |bits| / 11);
    ValueOfExpand(WordNumbers(sha256, entropy), 11);
    BitsNumber(sha256, entropy);
  }

  lemma BitsNumber(sha256: Bytes -> Word, entropy: Bytes)
    requires AcceptedSize(|entropy|)
    ensures Value(EncodeBits(sha256, entropy), 2)
         == Value(entropy, 256) * Pow(2, |entropy| / 4) + TopBits(sha256(entropy), |entropy| / 4)
  {
    hide Pow, Value, Expand, Checksum, TopBits;
    SizeFacts(|entropy|);
    var k := |entropy| / 4;
    var body, sum := Expand(entropy, 8), Checksum(sha256, entropy, k);
    HashNumber(sha256, entropy, k);
    BytesNumber(entropy);
    ValueConcat(body, sum, 2);
    assert EncodeBits(sha256, entropy) == body + sum;
  }

  lemma BytesNumber(b: Bytes)
    ensures Value(Expand(b, 8), 2) == Value(b, 256)
  {
    hide Pow, Value, Expand;
    Pow2To8();
    ValueOfExpand(b, 8);
  }

  lemma HashNumber(sha256: Bytes -> Word, entropy: Bytes, k: nat)
    requires k <= 256
    ensures |Checksum(sha256, entropy, k)| == k && Value(Checksum(sha256, entropy, k), 2) == TopBits(sha256(entropy), k)
  {
    hide Pow, Value, Expand;
    BytesNumber(sha256(entropy));
    LeadingDigits(Expand(sha256(entropy), 8), 2, k);
  }

  // ---- why a mnemonic is refused ----

  lemma {:induction false} IndicesIff(list: seq<string>, words: seq<string>)
    ensures Indices(list, words).Some? <==> forall i :: 0 <= i < |words| ==> words[i] in list
  {
    if words != [] {
      var front := words[..|words| - 1];
      IndicesIff(list, front);
      assert forall i :: 0 <= i < |front| ==> front[i] == words[i];
    }
  }

  /** A wrong number of words, then a word that is not listed, then the checksum. */
  lemma MnemonicRefused(list: seq<string>, sha256: Bytes -> Word, mnemonic: string)
    ensures var words, r := SplitWhitespace(mnemonic), Decode(list, sha256, mnemonic);
            var counted := |words| == 12 || |words| == 15 || |words| == 18 || |words| == 21 || |words| == 24;
            var listed := forall i :: 0 <= i < |words| ==> words[i] in list;
            && (r == Failure(BadLength) <==> !counted)
            && (r == Failure(UnknownWord) <==> counted && !listed)
            && (r.Failure? && counted && listed ==> r.error == BadChecksum)
  {
    hide SplitWhitespace, Expand, Indices, DecodeBits;
    IndicesIff(list, SplitWhitespace(mnemonic));
    if AcceptedWordCount(|SplitWhitespace(mnemonic)|) && Indices(list, SplitWhitespace(mnemonic)).Some? {
      ChecksumOnly(list, sha256, mnemonic);
    }
  }

  lemma ChecksumOnly(list: seq<string>, sha256: Bytes -> Word, mnemonic: string)
    requires AcceptedWordCount(|SplitWhitespace(mnemonic)|) && Indices(list, SplitWhitespace(mnemonic)).Some?
    ensures Decode(list, sha256, mnemonic).Failure? ==> Decode(list, sha256, mnemonic).error == BadChecksum
  {
    hide SplitWhitespace, Expand, Indices;
  }
}
