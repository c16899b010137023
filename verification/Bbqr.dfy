/**
  Cutting a file into BBQr parts and joining them again (rust/src/airgap/mod.rs). The header and base32 codec and
  deflate are parameters, with the laws stated in `Laws`.
*/
module Bbqr {
  import opened Wrappers
  import opened Radix

  datatype Encoding = Hex | Base32 | Zlib
  datatype Header = Header(encoding: Encoding, fileType: char, numParts: nat, index: nat)

  /** `header` and `decode` read one part; `inflate` gives up beyond a length. */
  datatype Codec = Codec(
    encode: (Header, Bytes) -> Option<string>,
    header: string -> Option<Header>,
    decode: string -> Option<Bytes>,
    deflate: Bytes -> Option<Bytes>,
    inflate: (Bytes, nat) -> Option<Bytes>)

  datatype Error =
    | DeflateFailed | PartLengthTooSmall | TooManyParts(parts: nat) | EncodeFailed
    | NoParts | BadHeader | DifferentFiles | BadPart | IndexOutOfRange | Missing(index: nat) | InflateFailed

  const DEFAULT_PART_LEN := 1000
  const MAX_PARTS := 1295
  const MAX_PAYLOAD_LEN := 0x40_0000

  predicate Encodable(h: Header) {
    h.encoding != Hex && h.index < h.numParts <= MAX_PARTS
  }

  /** A part is its eight-character header and its bytes in base32, and is read back as written. */
  ghost predicate Laws(c: Codec) {
    && (forall h: Header, b: Bytes :: Encodable(h) ==>
          && c.encode(h, b).Some?
          && c.header(c.encode(h, b).value) == Some(h)
          && c.decode(c.encode(h, b).value) == Some(b)
          && |c.encode(h, b).value| == 8 + (8 * |b| + 4) / 5)
    && (forall x: Bytes, cap: nat :: c.deflate(x).Some? ==>
          c.inflate(c.deflate(x).value, cap) == if |x| <= cap then Some(x) else None)
  }

  lemma PartLaws(c: Codec, h: Header, b: Bytes)
    requires Laws(c) && Encodable(h)
    ensures c.encode(h, b).Some?
    ensures c.header(c.encode(h, b).value) == Some(h) && c.decode(c.encode(h, b).value) == Some(b)
    ensures |c.encode(h, b).value| == 8 + (8 * |b| + 4) / 5
  {
  }

  lemma InflateLaw(c: Codec, x: Bytes)
    requires Laws(c) && c.deflate(x).Some?
    ensures c.inflate(c.deflate(x).value, MAX_PAYLOAD_LEN) == if |x| <= MAX_PAYLOAD_LEN then Some(x) else None
  {
  }

  // ---- cutting ----

  function Min(a: nat, b: nat): nat {
    if a <= b then a else b
  }

  /** Chunk `i` of `n` bytes; the last one may be shorter. */
  function Chunk(body: Bytes, n: nat, i: nat): Bytes {
    Before(i, n);
    body[Min(i * n, |body|)..Min((i + 1) * n, |body|)]
  }

  lemma Before(i: nat, n: nat)
    ensures 0 <= i * n <= (i + 1) * n == i * n + n
  {
    Distribute(i + 1, 1, n);
  }

  /** What is cut: the file, or its deflated form when asked for and shorter. */
  function Body(c: Codec, data: Bytes, compress: bool): Result<(Bytes, Encoding), Error> {
    if !compress then Success((data, Base32))
    else
      match c.deflate(data)
      case None => Failure(DeflateFailed)
      case Some(z) => Success(if |z| < |data| then (z, Zlib) else (data, Base32))
  }

  function BytesPerPart(maxPartLen: nat): Option<nat> {
    if maxPartLen >= 16 then Some((maxPartLen - 8) / 8 * 5) else None
  }

  function PartsNeeded(length: nat, n: nat): nat
    requires n > 0
  {
    if length == 0 then 1 else (length + n - 1) / n
  }

  function EncodeUpTo(c: Codec, h: Header, body: Bytes, n: nat, k: nat): (r: Result<seq<string>, Error>)
    ensures r.Success? ==> |r.value| == k
  {
    if k == 0 then Success([])
    else
      var front :- EncodeUpTo(c, h, body, n, k - 1);
      match c.encode(h.(index := k - 1), Chunk(body, n, k - 1))
      case None => Failure(EncodeFailed)
      case Some(part) => Success(front + [part])
  }

  function Parts(c: Codec, data: Bytes, fileType: char, maxPartLen: Option<nat>, compress: bool):
      Result<seq<string>, Error>
  {
    var (body, encoding) :- Body(c, data, compress);
    match BytesPerPart(maxPartLen.GetOr(DEFAULT_PART_LEN))
    case None => Failure(PartLengthTooSmall)
    case Some(n) =>
      var count := PartsNeeded(|body|, n);
      if count > MAX_PARTS then Failure(TooManyParts(count))
      else EncodeUpTo(c, Header(encoding, fileType, count, 0), body, n, count)
  }

  // ---- joining ----

  datatype State = State(first: Option<Header>, slots: seq<Option<Bytes>>)

  predicate SameFile(a: Header, b: Header) {
    a.numParts == b.numParts && a.fileType == b.fileType && a.encoding == b.encoding
  }

  function Step(c: Codec, s: State, part: string): Result<State, Error> {
    match c.header(part)
    case None => Failure(BadHeader)
    case Some(h) =>
      var begun := if s.first.Some? then s else State(Some(h), seq(h.numParts, i => None));
      if !SameFile(begun.first.value, h) then Failure(DifferentFiles)
      else
        match c.decode(part)
        case None => Failure(BadPart)
        case Some(b) =>
          if h.index >= |begun.slots| then Failure(IndexOutOfRange)
          else Success(begun.(slots := begun.slots[h.index := Some(b)]))
  }

  ghost function Filled(c: Codec, parts: seq<string>): (r: Result<State, Error>)
    ensures r.Success? && parts != [] ==> r.value.first.Some?
  {
    if parts == [] then Success(State(None, []))
    else
      var s :- Filled(c, parts[..|parts| - 1]);
      Step(c, s, parts[|parts| - 1])
  }

  function Gather(slots: seq<Option<Bytes>>): Result<Bytes, Error> {
    if slots == [] then Success([])
    else
      var front :- Gather(slots[..|slots| - 1]);
      match slots[|slots| - 1]
      case None => Failure(Missing(|slots| - 1))
      case Some(b) => Success(front + b)
  }

  ghost function Join(c: Codec, parts: seq<string>): Result<(char, Bytes), Error> {
    if parts == [] then Failure(NoParts)
    else
      var s :- Filled(c, parts);
      Contents(c, s.first.value, s.slots)
  }

  /** The file in a full set of slots. */
  ghost function Contents(c: Codec, h: Header, slots: seq<Option<Bytes>>): Result<(char, Bytes), Error> {
    var data :- Gather(slots);
    if h.encoding == Zlib then
      match c.inflate(data, MAX_PAYLOAD_LEN)
      case None => Failure(InflateFailed)
      case Some(x) => Success((h.fileType, x))
    else Success((h.fileType, data))
  }

  // ---- the loops ----

  method BbqrParts(c: Codec, data: Bytes, fileType: char, maxPartLen: Option<nat>, compress: bool)
    returns (r: Result<seq<string>, Error>)
    ensures r == Parts(c, data, fileType, maxPartLen, compress)
  {
    var cut := Body(c, data, compress);
    if cut.Failure? {
      return Failure(cut.error);
    }
    var (body, encoding) := cut.value;
    var capacity := BytesPerPart(maxPartLen.GetOr(DEFAULT_PART_LEN));
    if capacity.None? {
      return Failure(PartLengthTooSmall);
    }
    var n := capacity.value;
    var count := PartsNeeded(|body|, n);
    if count > MAX_PARTS {
      return Failure(TooManyParts(count));
    }
    var h := Header(encoding, fileType, count, 0);
    r := EncodeChunks(c, h, body, n, count);
  }

  method EncodeChunks(c: Codec, h: Header, body: Bytes, n: nat, count: nat) returns (r: Result<seq<string>, Error>)
    requires n > 0 && count == PartsNeeded(|body|, n) && h.index == 0
    ensures r == EncodeUpTo(c, h, body, n, count)
  {
    var out: seq<string> := [];
    var at, k := 0, 0;
    EnoughParts(|body|, n);
    while at < |body|
      invariant k <= count && at == Min(k * n, |body|) && (at < |body| ==> k < count)
      invariant body != [] && at == |body| ==> k == count
      invariant EncodeUpTo(c, h, body, n, k) == Success(out)
    {
      var end := Min(at + n, |body|);
      Before(k, n);
      LastPart(|body|, n, k);
      assert Chunk(body, n, k) == body[at..end];
      var part := c.encode(h.(index := k), body[at..end]);
      if part.None? {
        FailedUpTo(c, h, body, n, k + 1, count);
        return Failure(EncodeFailed);
      }
      out := out + [part.value];
      at, k := end, k + 1;
    }
    if out == [] {
      assert Chunk(body, n, 0) == [];
      var part := c.encode(h, []);
      if part.None? {
        return Failure(EncodeFailed);
      }
      out := out + [part.value];
    }
    return Success(out);
  }

  /** The parts needed cover the body, and one fewer would not. */
  lemma EnoughParts(length: nat, n: nat)
    requires n > 0
    ensures PartsNeeded(length, n) > 0 && length <= PartsNeeded(length, n) * n
    ensures length > 0 ==> (PartsNeeded(length, n) - 1) * n < length
  {
    if length == 0 {
      TimesAtLeast(1, n);
    } else {
      DivMod(length + n - 1, n);
      var q := (length + n - 1) / n;
      Distribute(q, 1, n);
      assert q >= 1;
    }
  }

  /** Only the last part reaches the end. */
  lemma LastPart(length: nat, n: nat, k: nat)
    requires n > 0 && length > 0 && k < PartsNeeded(length, n)
    ensures k * n < length && ((k + 1) * n >= length <==> k + 1 == PartsNeeded(length, n))
  {
    var count := PartsNeeded(length, n);
    EnoughParts(length, n);
    TimesMonotone(k, count - 1, n);
    if k + 1 < count {
      TimesMonotone(k + 1, count - 1, n);
    }
  }

  lemma {:induction false} FailedUpTo(c: Codec, h: Header, body: Bytes, n: nat, k: nat, count: nat)
    requires k <= count && EncodeUpTo(c, h, body, n, k).Failure?
    ensures EncodeUpTo(c, h, body, n, count) == EncodeUpTo(c, h, body, n, k)
  {
    if k < count {
      FailedUpTo(c, h, body, n, k, count - 1);
    }
  }

  method BbqrJoin(c: Codec, parts: seq<string>) returns (r: Result<(char, Bytes), Error>)
    ensures r == Join(c, parts)
  {
    if parts == [] {
      return Failure(NoParts);
    }
    hide Contents;
    var decoded := new Option<Bytes>[0];
    var first: Option<Header> := None;
    assert decoded[..] == [];
    for k := 0 to |parts|
      invariant fresh(decoded) && Filled(c, parts[..k]) == Success(State(first, decoded[..]))
    {
      assert parts[..k + 1][..k] == parts[..k];
      var h := c.header(parts[k]);
      if h.None? {
        FailedFilled(c, parts, k + 1);
        return Failure(BadHeader);
      }
      if first.None? {
        decoded := new Option<Bytes>[h.value.numParts](_ => None);
        assert decoded[..] == seq(h.value.numParts, i => None);
        first := h;
      } else if !SameFile(first.value, h.value) {
        FailedFilled(c, parts, k + 1);
        return Failure(DifferentFiles);
      }
      var body := c.decode(parts[k]);
      if body.None? {
        FailedFilled(c, parts, k + 1);
        return Failure(BadPart);
      }
      if h.value.index >= decoded.Length {
        FailedFilled(c, parts, k + 1);
        return Failure(IndexOutOfRange);
      }
      decoded[h.value.index] := body;
    }
    assert parts[..|parts|] == parts;
    hide Filled;
    r := Finish(c, first.value, decoded[..]);
  }

  method Finish(c: Codec, h: Header, slots: seq<Option<Bytes>>) returns (r: Result<(char, Bytes), Error>)
    ensures r == Contents(c, h, slots)
  {
    var data := GatherSlots(slots);
    if data.Failure? {
      return Failure(data.error);
    }
    if h.encoding == Zlib {
      var x := c.inflate(data.value, MAX_PAYLOAD_LEN);
      return if x.None? then Failure(InflateFailed) else Success((h.fileType, x.value));
    }
    return Success((h.fileType, data.value));
  }

  method GatherSlots(slots: seq<Option<Bytes>>) returns (r: Result<Bytes, Error>)
    ensures r == Gather(slots)
  {
    var data: Bytes := [];
    for i := 0 to |slots|
      invariant Gather(slots[..i]) == Success(data)
    {
      assert slots[..i + 1][..i] == slots[..i];
      if slots[i].None? {
        FailedGather(slots, i + 1);
        return Failure(Missing(i));
      }
      data := data + slots[i].value;
    }
    assert slots[..|slots|] == slots;
    return Success(data);
  }

  lemma {:induction false} FailedFilled(c: Codec, parts: seq<string>, k: nat)
    requires k <= |parts| && Filled(c, parts[..k]).Failure?
    ensures Filled(c, parts) == Failure(Filled(c, parts[..k]).error)
  {
    if k < |parts| {
      assert parts[..|parts| - 1][..k] == parts[..k];
      FailedFilled(c, parts[..|parts| - 1], k);
    } else {
      assert parts[..k] == parts;
    }
  }

  lemma {:induction false} FailedGather(slots: seq<Option<Bytes>>, k: nat)
    requires k <= |slots| && Gather(slots[..k]).Failure?
    ensures Gather(slots) == Gather(slots[..k])
  {
    if k < |slots| {
      assert slots[..|slots| - 1][..k] == slots[..k];
      FailedGather(slots[..|slots| - 1], k);
    } else {
      assert slots[..k] == slots;
    }
  }

  // ---- cutting: when it works, and how long the parts are ----

  /** The header every part of a file carries, index aside. */
  ghost predicate Common(h: Header) {
    h.index == 0 && Encodable(h)
  }

  lemma {:induction false} EncodedParts(c: Codec, h: Header, body: Bytes, n: nat, k: nat)
    requires Laws(c) && Common(h) && k <= h.numParts
    ensures EncodeUpTo(c, h, body, n, k).Success?
    ensures forall i :: 0 <= i < k ==> EncodeUpTo(c, h, body, n, k).value[i] == PartAt(c, h, body, n, i)
  {
    if k > 0 {
      EncodedParts(c, h, body, n, k - 1);
      PartLaws(c, h.(index := k - 1), Chunk(body, n, k - 1));
    }
  }

  /** Part `i` of a file. */
  ghost function PartAt(c: Codec, h: Header, body: Bytes, n: nat, i: nat): string {
    c.encode(h.(index := i), Chunk(body, n, i)).GetOr("")
  }

  lemma PartReadsBack(c: Codec, h: Header, body: Bytes, n: nat, i: nat)
    requires Laws(c) && Common(h) && i < h.numParts
    ensures c.header(PartAt(c, h, body, n, i)) == Some(h.(index := i))
    ensures c.decode(PartAt(c, h, body, n, i)) == Some(Chunk(body, n, i))
    ensures |PartAt(c, h, body, n, i)| == 8 + (8 * |Chunk(body, n, i)| + 4) / 5
  {
    PartLaws(c, h.(index := i), Chunk(body, n, i));
  }

  /** Cutting fails only when deflate does, the length leaves no room for a group, or there are too many parts. */
  lemma CutsIff(c: Codec, data: Bytes, fileType: char, maxPartLen: Option<nat>, compress: bool)
    requires Laws(c)
    ensures Parts(c, data, fileType, maxPartLen, compress).Success? <==>
            && Body(c, data, compress).Success?
            && maxPartLen.GetOr(DEFAULT_PART_LEN) >= 16
            && var n := BytesPerPart(maxPartLen.GetOr(DEFAULT_PART_LEN)).value;
               PartsNeeded(|Body(c, data, compress).value.0|, n) <= MAX_PARTS
  {
    hide Laws, EncodeUpTo;
    var length := maxPartLen.GetOr(DEFAULT_PART_LEN);
    if Body(c, data, compress).Success? && length >= 16 {
      var (body, encoding) := Body(c, data, compress).value;
      var n := BytesPerPart(length).value;
      EnoughParts(|body|, n);
      var count := PartsNeeded(|body|, n);
      if count <= MAX_PARTS {
        EncodedParts(c, Header(encoding, fileType, count, 0), body, n, count);
      }
    }
  }

  /** What a successful cut is made of. */
  lemma CutParts(c: Codec, data: Bytes, fileType: char, maxPartLen: Option<nat>, compress: bool)
    returns (h: Header, body: Bytes, n: nat)
    requires Laws(c) && Parts(c, data, fileType, maxPartLen, compress).Success?
    ensures var parts := Parts(c, data, fileType, maxPartLen, compress).value;
            && Body(c, data, compress) == Success((body, h.encoding))
            && BytesPerPart(maxPartLen.GetOr(DEFAULT_PART_LEN)) == Some(n)
            && Common(h) && h.fileType == fileType
            && |parts| == h.numParts == PartsNeeded(|body|, n)
            && forall i :: 0 <= i < |parts| ==> parts[i] == PartAt(c, h, body, n, i)
  {
    hide Laws, EncodeUpTo, PartAt;
    body := Body(c, data, compress).value.0;
    n := BytesPerPart(maxPartLen.GetOr(DEFAULT_PART_LEN)).value;
    h := Header(Body(c, data, compress).value.1, fileType, PartsNeeded(|body|, n), 0);
    EnoughParts(|body|, n);
    EncodedParts(c, h, body, n, h.numParts);
  }

  /** Every part fits the length asked for. */
  lemma PartsFit(c: Codec, data: Bytes, fileType: char, maxPartLen: Option<nat>, compress: bool, i: nat)
    requires Laws(c) && Parts(c, data, fileType, maxPartLen, compress).Success?
    requires i < |Parts(c, data, fileType, maxPartLen, compress).value|
    ensures |Parts(c, data, fileType, maxPartLen, compress).value[i]| <= maxPartLen.GetOr(DEFAULT_PART_LEN)
  {
    hide Laws, Parts, PartAt;
    var h, body, n := CutParts(c, data, fileType, maxPartLen, compress);
    PartReadsBack(c, h, body, n, i);
    Before(i, n);
    assert |Chunk(body, n, i)| <= n;
  }

  /** The deflated form is cut exactly when it was asked for and is shorter than the file. */
  lemma BodyIsShorter(c: Codec, data: Bytes, compress: bool)
    requires Body(c, data, compress).Success?
    ensures var (body, encoding) := Body(c, data, compress).value;
            && (encoding == Zlib || encoding == Base32)
            && (encoding == Zlib <==> compress && |c.deflate(data).value| < |data|)
            && (encoding == Zlib ==> c.deflate(data) == Some(body))
            && (encoding == Base32 ==> body == data)
  {
  }

  /** The bytes of a part are whole base32 groups, as many as the length asked for holds behind the header. */
  lemma PartsAreLargest(maxPartLen: nat)
    ensures BytesPerPart(maxPartLen).Some? <==> maxPartLen >= 16
    ensures BytesPerPart(maxPartLen).Some? ==>
              var n := BytesPerPart(maxPartLen).value;
              && n > 0 && n % 5 == 0
              && 8 + (8 * n + 4) / 5 <= maxPartLen < 8 + (8 * (n + 5) + 4) / 5
  {
  }

  // ---- joining: what the slots hold after any run of parts ----

  /** The slots after scanning `scanned`, all of them parts of one file. */
  ghost function SlotsOf(c: Codec, h: Header, body: Bytes, n: nat, scanned: seq<string>): seq<Option<Bytes>> {
    seq(h.numParts, i requires 0 <= i < h.numParts =>
      if PartAt(c, h, body, n, i) in scanned then Some(Chunk(body, n, i)) else None)
  }

  ghost predicate IsPart(c: Codec, h: Header, body: Bytes, n: nat, p: string) {
    exists i: nat :: i < h.numParts && p == PartAt(c, h, body, n, i)
  }

  ghost predicate PartsOnly(c: Codec, h: Header, body: Bytes, n: nat, scanned: seq<string>) {
    forall p :: p in scanned ==> IsPart(c, h, body, n, p)
  }

  lemma SamePart(c: Codec, h: Header, body: Bytes, n: nat, i: nat, j: nat)
    requires Laws(c) && Common(h) && i < h.numParts && j < h.numParts
    ensures PartAt(c, h, body, n, i) == PartAt(c, h, body, n, j) <==> i == j
  {
    hide Laws, PartAt;
    PartReadsBack(c, h, body, n, i);
    PartReadsBack(c, h, body, n, j);
  }

  /** One part put into its slot. */
  lemma StepPart(c: Codec, h: Header, s: State, part: string, i: nat, chunk: Bytes)
    requires i < h.numParts && c.header(part) == Some(h.(index := i)) && c.decode(part) == Some(chunk)
    requires s.first.Some? ==> SameFile(s.first.value, h) && |s.slots| == h.numParts
    ensures Step(c, s, part).Success? && Step(c, s, part).value.first.Some?
    ensures SameFile(Step(c, s, part).value.first.value, h)
    ensures var slots := if s.first.Some? then s.slots else seq(h.numParts, i => None);
            Step(c, s, part).value.slots == slots[i := Some(chunk)]
  {
  }

  lemma SlotsGrow(c: Codec, h: Header, body: Bytes, n: nat, front: seq<string>, i: nat)
    requires Laws(c) && Common(h) && i < h.numParts
    ensures SlotsOf(c, h, body, n, front + [PartAt(c, h, body, n, i)])
         == SlotsOf(c, h, body, n, front)[i := Some(Chunk(body, n, i))]
    ensures front == [] ==> SlotsOf(c, h, body, n, front) == seq(h.numParts, i => None)
  {
    hide Laws, PartAt, Chunk;
    forall j | 0 <= j < h.numParts
      ensures SlotsOf(c, h, body, n, front + [PartAt(c, h, body, n, i)])[j]
           == SlotsOf(c, h, body, n, front)[i := Some(Chunk(body, n, i))][j]
    {
      SamePart(c, h, body, n, i, j);
    }
  }

  lemma LastPartOf(c: Codec, h: Header, body: Bytes, n: nat, scanned: seq<string>) returns (i: nat)
    requires PartsOnly(c, h, body, n, scanned) && scanned != []
    ensures i < h.numParts && scanned == scanned[..|scanned| - 1] + [PartAt(c, h, body, n, i)]
    ensures PartsOnly(c, h, body, n, scanned[..|scanned| - 1])
  {
    hide PartAt;
    assert scanned[|scanned| - 1] in scanned && IsPart(c, h, body, n, scanned[|scanned| - 1]);
    i :| i < h.numParts && scanned[|scanned| - 1] == PartAt(c, h, body, n, i);
  }

  /** Scanning parts of one file, in any order and with repeats, fills exactly the slots scanned. */
  lemma {:induction false} FilledIs(c: Codec, h: Header, body: Bytes, n: nat, scanned: seq<string>)
    requires Laws(c) && Common(h) && PartsOnly(c, h, body, n, scanned) && scanned != []
    ensures Filled(c, scanned).Success?
    ensures Filled(c, scanned).value.first.Some? && SameFile(Filled(c, scanned).value.first.value, h)
    ensures Filled(c, scanned).value.slots == SlotsOf(c, h, body, n, scanned)
  {
    hide Laws, PartAt, PartsOnly, Chunk, Step;
    var front := scanned[..|scanned| - 1];
    var i := LastPartOf(c, h, body, n, scanned);
    PartReadsBack(c, h, body, n, i);
    SlotsGrow(c, h, body, n, front, i);
    if front != [] {
      FilledIs(c, h, body, n, front);
    }
    StepPart(c, h, Filled(c, front).value, PartAt(c, h, body, n, i), i, Chunk(body, n, i));
  }

  // ---- gathering ----

  lemma {:induction false} GatherAll(slots: seq<Option<Bytes>>, body: Bytes, n: nat, k: nat)
    requires k <= |slots| && forall i :: 0 <= i < k ==> slots[i] == Some(Chunk(body, n, i))
    ensures 0 <= k * n && Gather(slots[..k]) == Success(body[..Min(k * n, |body|)])
  {
    if k == 0 {
      assert slots[..0] == [] && 0 * n == 0;
    } else {
      GatherAll(slots, body, n, k - 1);
      Before(k - 1, n);
      assert slots[..k][..k - 1] == slots[..k - 1];
      assert slots[..k][k - 1] == Some(Chunk(body, n, k - 1));
      hide Chunk;
      ChunkFollows(body, n, k - 1);
    }
  }

  lemma ChunkFollows(body: Bytes, n: nat, i: nat)
    ensures 0 <= i * n <= (i + 1) * n
    ensures body[..Min(i * n, |body|)] + Chunk(body, n, i) == body[..Min((i + 1) * n, |body|)]
  {
    Before(i, n);
    TakeMore(body, Min(i * n, |body|), Min((i + 1) * n, |body|));
  }

  lemma TakeMore(b: Bytes, from: nat, to: nat)
    requires from <= to <= |b|
    ensures b[..from] + b[from..to] == b[..to]
  {
  }

  /** The first missing slot is reported. */
  lemma {:induction false} GatherMisses(slots: seq<Option<Bytes>>, k: nat)
    requires k < |slots| && slots[k].None? && forall i :: 0 <= i < k ==> slots[i].Some?
    ensures Gather(slots) == Failure(Missing(k))
  {
    if k < |slots| - 1 {
      GatherMisses(slots[..|slots| - 1], k);
    } else {
      GatherSome(slots[..k]);
    }
  }

  lemma {:induction false} GatherSome(slots: seq<Option<Bytes>>)
    requires forall i :: 0 <= i < |slots| ==> slots[i].Some?
    ensures Gather(slots).Success?
  {
    if slots != [] {
      GatherSome(slots[..|slots| - 1]);
    }
  }

  // ---- the round trip ----

  /** Whether a cut file can be joined: a deflated one must inflate within the cap. */
  ghost predicate Restores(c: Codec, data: Bytes, compress: bool) {
    Body(c, data, compress).Success? && (Body(c, data, compress).value.1 == Zlib ==> |data| <= MAX_PAYLOAD_LEN)
  }

  /**
    Scanning every part at least once, in any order and with any repeats, joins to the file and its type, unless the
    file was deflated and is longer than the inflate cap, when joining always fails.
  */
  lemma JoinOfParts(
      c: Codec, data: Bytes, fileType: char, maxPartLen: Option<nat>, compress: bool, scanned: seq<string>)
    requires Laws(c) && Parts(c, data, fileType, maxPartLen, compress).Success?
    requires forall p :: p in scanned <==> p in Parts(c, data, fileType, maxPartLen, compress).value
    ensures Join(c, scanned)
         == if Restores(c, data, compress) then Success((fileType, data)) else Failure(InflateFailed)
  {
    var parts := Parts(c, data, fileType, maxPartLen, compress).value;
    hide Laws, Parts, PartAt, Filled, Gather, SlotsOf, PartsOnly;
    var h, body, n := CutParts(c, data, fileType, maxPartLen, compress);
    EnoughParts(|body|, n);
    assert parts[0] in scanned;
    ScannedParts(c, h, body, n, parts, scanned);
    FilledIs(c, h, body, n, scanned);
    GatheredBody(c, h, body, n, parts, scanned);
    if h.encoding == Zlib {
      InflateLaw(c, data);
    }
  }

  lemma GatheredBody(c: Codec, h: Header, body: Bytes, n: nat, parts: seq<string>, scanned: seq<string>)
    requires n > 0 && |parts| == h.numParts == PartsNeeded(|body|, n)
    requires forall i :: 0 <= i < |parts| ==> parts[i] == PartAt(c, h, body, n, i) && parts[i] in scanned
    ensures Gather(SlotsOf(c, h, body, n, scanned)) == Success(body)
  {
    hide PartAt, Gather, Chunk;
    var slots := SlotsOf(c, h, body, n, scanned);
    EnoughParts(|body|, n);
    GatherAll(slots, body, n, |slots|);
    assert slots[..|slots|] == slots && body[..|body|] == body;
  }

  lemma ScannedParts(c: Codec, h: Header, body: Bytes, n: nat, parts: seq<string>, scanned: seq<string>)
    requires |parts| == h.numParts && forall i :: 0 <= i < |parts| ==> parts[i] == PartAt(c, h, body, n, i)
    requires forall p :: p in scanned ==> p in parts
    ensures PartsOnly(c, h, body, n, scanned)
  {
    hide PartAt;
    forall p | p in scanned
      ensures IsPart(c, h, body, n, p)
    {
      var i :| 0 <= i < |parts| && parts[i] == p;
      assert p == PartAt(c, h, body, n, i);
    }
  }

  /** Joining too early names the first part not scanned. */
  lemma JoinMisses(
      c: Codec, data: Bytes, fileType: char, maxPartLen: Option<nat>, compress: bool, scanned: seq<string>, k: nat)
    requires Laws(c) && Parts(c, data, fileType, maxPartLen, compress).Success? && scanned != []
    requires var parts := Parts(c, data, fileType, maxPartLen, compress).value;
             && (forall p :: p in scanned ==> p in parts)
             && k < |parts| && parts[k] !in scanned
             && forall i :: 0 <= i < k ==> parts[i] in scanned
    ensures Join(c, scanned) == Failure(Missing(k))
  {
    var parts := Parts(c, data, fileType, maxPartLen, compress).value;
    hide Laws, Parts, PartAt, Filled, Gather;
    var h, body, n := CutParts(c, data, fileType, maxPartLen, compress);
    ScannedParts(c, h, body, n, parts, scanned);
    FilledIs(c, h, body, n, scanned);
    var slots := SlotsOf(c, h, body, n, scanned);
    assert forall i :: 0 <= i <= k ==> parts[i] == PartAt(c, h, body, n, i);
    GatherMisses(slots, k);
  }

  // ---- why cutting and joining are refused ----

  /** Deflate, then the length asked for, then the number of parts. */
  lemma CutRefused(c: Codec, data: Bytes, fileType: char, maxPartLen: Option<nat>, compress: bool)
    requires Laws(c)
    ensures var r, length := Parts(c, data, fileType, maxPartLen, compress), maxPartLen.GetOr(DEFAULT_PART_LEN);
            && (r == Failure(DeflateFailed) <==> compress && c.deflate(data).None?)
            && (r == Failure(PartLengthTooSmall) <==> Body(c, data, compress).Success? && length < 16)
            && (Body(c, data, compress).Success? && length >= 16 ==>
                  var needed := PartsNeeded(|Body(c, data, compress).value.0|, BytesPerPart(length).value);
                  r.Failure? ==> needed > MAX_PARTS && r.error == TooManyParts(needed))
  {
    hide Laws, EncodeUpTo;
    CutsIff(c, data, fileType, maxPartLen, compress);
  }

  /** One more part: no header, then another file's, then a body that does not decode, then a place beyond the count. */
  lemma PartRefused(c: Codec, parts: seq<string>, part: string)
    requires Filled(c, parts).Success?
    ensures var first, r, h := Filled(c, parts).value.first, Filled(c, parts + [part]), c.header(part);
            var other := h.Some? && first.Some? && !SameFile(first.value, h.value);
            && (r == Failure(BadHeader) <==> h.None?)
            && (r == Failure(DifferentFiles) <==> other)
            && (r == Failure(BadPart) <==> h.Some? && !other && c.decode(part).None?)
            && (r.Failure? && h.Some? && !other && c.decode(part).Some? ==> r.error == IndexOutOfRange)
  {
    assert (parts + [part])[..|parts|] == parts;
  }
}
