/**
  The laws asked of the BBQr codec contradict nothing: a plain textual codec meets them, with a "deflate" that writes a
  run of one byte as that byte and its length. On it, a file over the inflate cap is cut and can never be joined.
*/
module BbqrLaws {
  import opened Wrappers
  import opened Radix
  import opened Text
  import opened Bbqr
  import opened AirgapDecoder
  import opened StrayFrames

  const PREFIX := "B$"
  const FILLER := "00"

  function HeaderText(h: Header): string
    requires Encodable(h)
  {
    PREFIX + [if h.encoding == Zlib then 'Z' else '2', h.fileType, h.numParts as char, h.index as char] + FILLER
  }

  function WriteByte(b: byte): char {
    (256 + b as int) as char
  }

  /** One character a byte, then zeros up to the length of base32. */
  function BodyText(b: Bytes): (s: string)
    ensures |s| == (8 * |b| + 4) / 5
  {
    seq(|b|, i requires 0 <= i < |b| => WriteByte(b[i])) + seq((8 * |b| + 4) / 5 - |b|, i => '0')
  }

  function Write(h: Header, b: Bytes): Option<string> {
    if Encodable(h) then Some(HeaderText(h) + BodyText(b)) else None
  }

  function ReadHeader(s: string): Option<Header> {
    if |s| >= 8 then Some(Header(if s[2] == 'Z' then Zlib else Base32, s[3], s[4] as int, s[5] as int)) else None
  }

  function ReadByte(c: char): byte {
    if 256 <= c as int < 512 then c as int - 256 else 0
  }

  function ReadBody(s: string): Option<Bytes> {
    if |s| < 8 || '!' in s[8..] then None
    else Some(seq((|s| - 8) * 5 / 8, i requires 0 <= i < (|s| - 8) * 5 / 8 => ReadByte(s[8 + i])))
  }

  predicate IsRun(x: Bytes) {
    x != [] && |x| < 0x1_0000_0000 && forall i :: 0 <= i < |x| ==> x[i] == x[0]
  }

  function Pack(x: Bytes): Option<Bytes> {
    Some(if IsRun(x) then [1, x[0]] + Fixed(|x|, 256, 4) else [0] + x)
  }

  function Unpack(z: Bytes, cap: nat): Option<Bytes> {
    if z == [] then None
    else if z[0] == 0 then if |z| - 1 <= cap then Some(z[1..]) else None
    else if |z| < 2 || Value(z[2..], 256) > cap then None
    else Some(seq(Value(z[2..], 256), i => z[1]))
  }

  function Plain(): Codec {
    Codec(Write, ReadHeader, ReadBody, Pack, Unpack)
  }

  lemma PacksBack(x: Bytes, cap: nat)
    ensures Pack(x).Some? && Unpack(Pack(x).value, cap) == if |x| <= cap then Some(x) else None
  {
    var z := Pack(x).value;
    if IsRun(x) {
      assert Pow(256, 4) == 0x1_0000_0000;
      hide Pow;
      ValueOfFixed(|x|, 256, 4);
      hide Fixed, Value;
      assert z[2..] == Fixed(|x|, 256, 4);
      if |x| <= cap {
        assert Unpack(z, cap).value == x;
      }
    } else {
      assert z[1..] == x;
    }
  }

  lemma BodyReadsBack(head: string, b: Bytes)
    requires |head| == 8
    ensures ReadBody(head + BodyText(b)) == Some(b)
  {
    var s := head + BodyText(b);
    assert s[8..] == BodyText(b);
    assert (|s| - 8) * 5 / 8 == |b|;
    assert forall i :: 0 <= i < |b| ==> s[8 + i] == WriteByte(b[i]);
    assert ReadBody(s).value == b;
  }

  lemma ReadsBack(h: Header, b: Bytes)
    requires Encodable(h)
    ensures ReadHeader(HeaderText(h) + BodyText(b)) == Some(h)
    ensures ReadBody(HeaderText(h) + BodyText(b)) == Some(b)
    ensures |HeaderText(h) + BodyText(b)| == 8 + (8 * |b| + 4) / 5
  {
    var head, body := HeaderText(h), BodyText(b);
    assert (head + body)[8..] == body;
    BodyReadsBack(head, b);
  }

  lemma IsMarked(h: Header, b: Bytes)
    requires Encodable(h)
    ensures StartsWith(HeaderText(h) + BodyText(b), "B$")
    ensures Trim(HeaderText(h) + BodyText(b)) == HeaderText(h) + BodyText(b)
  {
    var s := HeaderText(h) + BodyText(b);
    assert s[..2] == "B$";
    TrimKeeps(s);
  }

  lemma LawsCanBeMet()
    ensures Laws(Plain()) && Marked(Plain())
  {
    hide HeaderText, BodyText, ReadHeader, ReadBody, Trim, StartsWith;
    forall h: Header, b: Bytes | Encodable(h)
      ensures Write(h, b).Some? && ReadHeader(Write(h, b).value) == Some(h) && ReadBody(Write(h, b).value) == Some(b)
      ensures |Write(h, b).value| == 8 + (8 * |b| + 4) / 5
      ensures StartsWith(Write(h, b).value, "B$") && Trim(Write(h, b).value) == Write(h, b).value
    {
      ReadsBack(h, b);
      IsMarked(h, b);
    }
    forall x: Bytes, cap: nat
      ensures Pack(x).Some? && Unpack(Pack(x).value, cap) == if |x| <= cap then Some(x) else None
    {
      PacksBack(x, cap);
    }
  }

  // ---- a file beyond the inflate cap ----

  function Blank(n: nat): Bytes {
    seq(n, i => 0)
  }

  lemma BlankPacks(n: nat)
    requires 10 < n < 0x1_0000_0000
    ensures Body(Plain(), Blank(n), true).Success? && Body(Plain(), Blank(n), true).value.1 == Zlib
    ensures |Body(Plain(), Blank(n), true).value.0| == 6
  {
    assert IsRun(Blank(n));
  }

  lemma OverlongCut()
    ensures var data := Blank(MAX_PAYLOAD_LEN + 1);
            Parts(Plain(), data, 'J', None, true).Success? && !Restores(Plain(), data, true)
  {
    LawsCanBeMet();
    BlankPacks(MAX_PAYLOAD_LEN + 1);
    hide Laws, Marked, Plain, Body, Blank, Parts;
    CutsIff(Plain(), Blank(MAX_PAYLOAD_LEN + 1), 'J', None, true);
  }

  /** One byte over the cap: cutting succeeds, joining what was cut fails, and no scan of the parts ever completes. */
  lemma OverlongFileIsLost(env: Env, fs: seq<string>)
    requires env.codec == Plain()
    requires Parts(Plain(), Blank(MAX_PAYLOAD_LEN + 1), 'J', None, true).Success? ==>
               forall f :: f in fs ==> f in Parts(Plain(), Blank(MAX_PAYLOAD_LEN + 1), 'J', None, true).value
    ensures var cut := Parts(Plain(), Blank(MAX_PAYLOAD_LEN + 1), 'J', None, true);
            && cut.Success?
            && !Restores(Plain(), Blank(MAX_PAYLOAD_LEN + 1), true)
            && Join(Plain(), cut.value) == Failure(InflateFailed)
            && !Whole(cut.value, Run(env, fs).frames)
  {
    var data := Blank(MAX_PAYLOAD_LEN + 1);
    LawsCanBeMet();
    OverlongCut();
    hide *;
    JoinOfParts(Plain(), data, 'J', None, true, Parts(Plain(), data, 'J', None, true).value);
    TooLongNeverCompletes(env, data, 'J', None, true, fs);
  }

  // ---- a frame that is accepted and can never be joined ----

  const TORN := PREFIX + "2J" + [2 as char, 0 as char] + FILLER + "!"

  /** A frame torn after its header: a new context keeps it and never completes, whatever is scanned afterwards. */
  lemma TornFrameIsKept(env: Env, more: seq<string>)
    requires env.codec == Plain()
    ensures Fed(env, FRESH, TORN).1.Success? && Fed(env, FRESH, TORN).0 == Ctx(Some(BbqrKind), [TORN])
    ensures var s := Continue(env, Fed(env, FRESH, TORN).0, more);
            Decoded(env, s.kind, s.frames).Success? ==> !Decoded(env, s.kind, s.frames).value.0.complete
  {
    var t := TORN;
    TrimKeeps(t);
    assert t[..2] == "B$";
    assert ToLower(t[..3])[0] == 'b';
    assert t[8] == '!' && t[8] in t[8..];
    hide Trim, Classify, Fed, Decoded, Continue;
    UndecodableIsKept(env, t, more);
  }

  // ---- two files of one header ----

  function Marks(b: byte): Bytes {
    [b, b, b, b, b, b]
  }

  lemma MarksCut(b: byte) returns (x: File)
    ensures Parts(Plain(), Marks(b), 'J', Some(16), false) == Success(x.parts) && Sound(Plain(), x)
    ensures x.h == Header(Base32, 'J', 2, 0) && |x.parts| == |x.chunks| == 2
    ensures x.chunks[0] == [b, b, b, b, b] && x.chunks[1] == [b]
  {
    LawsCanBeMet();
    hide Laws, Marked, Plain, Parts, Sound;
    assert PartsNeeded(6, 5) == 2;
    CutsIff(Plain(), Marks(b), 'J', Some(16), false);
    x := CutIsSound(Plain(), Marks(b), 'J', Some(16), false);
  }

  /** The first part of one file and the last of another join without complaint into a third. */
  lemma TwoFilesJoin(env: Env) returns (p: seq<string>, q: seq<string>)
    requires env.codec == Plain()
    ensures Parts(Plain(), Marks(1), 'J', Some(16), false) == Success(p) && |p| == 2
    ensures Parts(Plain(), Marks(2), 'J', Some(16), false) == Success(q) && |q| == 2
    ensures var s := Continue(env, FRESH, [p[0], q[1]]);
            Decoded(env, s.kind, s.frames).Success? && Decoded(env, s.kind, s.frames).value.0.complete
            && Decoded(env, s.kind, s.frames).value.1 == Some(BbqrPayload('J', [1, 1, 1, 1, 1, 2]))
  {
    var x := MarksCut(1);
    var y := MarksCut(2);
    p, q := x.parts, y.parts;
    assert [1, 1, 1, 1, 1] + [2] == [1, 1, 1, 1, 1, 2];
    assert SameFile(x.h, y.h);
    hide *;
    TwoFilesMix(env, x, y);
  }

  /** Scanned after its own counterpart, a part of another file loses the file for good. */
  lemma LateStrayLoses(env: Env) returns (x: File, stray: string)
    requires env.codec == Plain()
    ensures Parts(Plain(), Marks(1), 'J', Some(16), false) == Success(x.parts) && Sound(Plain(), x) && |x.parts| == 2
    ensures var after := Fed(env, Ctx(Some(BbqrKind), [x.parts[0]]), stray);
            after.1.Success? && !CanCollect(env, x, after.0)
  {
    hide *;
    x := MarksCut(1);
    var y := MarksCut(2);
    stray := y.parts[0];
    SoundAt(Plain(), x, 0);
    SoundAt(Plain(), y, 0);
    LateLoses(env, x, stray);
  }

  lemma LateLoses(env: Env, x: File, stray: string)
    requires Sound(env.codec, x) && x.h.numParts == |x.parts| == |x.chunks| == 2 && x.h.encoding != Zlib
    requires Scanned(stray) && env.codec.header(stray) == Some(x.h.(index := 0))
    requires env.codec.decode(stray).Some? && env.codec.decode(stray) != Some(x.chunks[0])
    ensures var after := Fed(env, Ctx(Some(BbqrKind), [x.parts[0]]), stray);
            after.1.Success? && !CanCollect(env, x, after.0)
  {
    hide Sound, Fed, BbqrView, Decoded, Join, Trim, Classify;
    var c, s := env.codec, Ctx(Some(BbqrKind), [x.parts[0]]);
    SoundAt(c, x, 0);
    TwoInOneSlot(c, x.h, x.parts[0], stray);
    FedPart(env, s, stray);
    LateStrayIff(c, x, stray);
    assert Late(c, x, s.frames, stray);
    StrayFrameIff(env, x, s, stray);
  }

  /** Two frames for the first slot of two leave the second empty. */
  lemma TwoInOneSlot(c: Codec, h: Header, p: string, q: string)
    requires h.numParts == 2 && p != q
    requires c.header(p) == Some(h.(index := 0)) && c.decode(p).Some?
    requires c.header(q) == Some(h.(index := 0)) && c.decode(q).Some?
    ensures BbqrView(c, [p] + [q]).Success? && BbqrView(c, [p] + [q]).value.1.None?
  {
    hide BbqrView;
    var both := [p] + [q];
    assert both[..1] == [p] && [p][..0] == [];
    assert Slot(c, [], 1).None? && Slot(c, [p], 1).None? && Slot(c, both, 1).None?;
    ViewFits(c, h, both);
  }
}
