/**
  What one stray scan does to a context that is collecting a BBQr file (rust/src/airgap/decoder.rs). A stray is any
  frame at all, fed at any moment of the collection; the file's own parts are then scanned in any order with repeats.
*/
module StrayFrames {
  import opened Wrappers
  import opened Radix
  import opened Text
  import opened Bbqr
  import opened AirgapDecoder

  /** The context after feeding more frames, rejected ones included. */
  ghost function Continue(env: Env, s: Ctx, more: seq<string>): Ctx {
    if more == [] then s else Fed(env, Continue(env, s, more[..|more| - 1]), more[|more| - 1]).0
  }

  lemma {:induction false} ContinueConcat(env: Env, s: Ctx, a: seq<string>, b: seq<string>)
    ensures Continue(env, s, a + b) == Continue(env, Continue(env, s, a), b)
  {
    if b == [] {
      assert a + b == a;
    } else {
      assert (a + b)[..|a + b| - 1] == a + b[..|b| - 1];
      ContinueConcat(env, s, a, b[..|b| - 1]);
    }
  }

  // ---- frames that fit a file, whatever they hold ----

  function IndexOf(c: Codec, f: string): nat {
    match c.header(f)
    case Some(h) => h.index
    case None => 0
  }

  /** A frame that can be put into a slot of a file with header `h`. */
  ghost predicate Fits(c: Codec, h: Header, f: string) {
    && c.header(f) == Some(h.(index := IndexOf(c, f)))
    && IndexOf(c, f) < h.numParts
    && c.decode(f).Some?
  }

  ghost predicate AllFit(c: Codec, h: Header, frames: seq<string>) {
    forall f :: f in frames ==> Fits(c, h, f)
  }

  /** What slot `j` holds after `frames`: the last one put there. */
  function Slot(c: Codec, frames: seq<string>, j: nat): Option<Bytes> {
    if frames == [] then None
    else
      var last := frames[|frames| - 1];
      if IndexOf(c, last) == j then c.decode(last) else Slot(c, frames[..|frames| - 1], j)
  }

  function SlotsAfter(c: Codec, h: Header, frames: seq<string>): seq<Option<Bytes>> {
    seq(h.numParts, j requires 0 <= j < h.numParts => Slot(c, frames, j))
  }

  ghost predicate Full(c: Codec, h: Header, frames: seq<string>) {
    forall j: nat :: j < h.numParts ==> Slot(c, frames, j).Some?
  }

  lemma AllFitFront(c: Codec, h: Header, frames: seq<string>)
    requires AllFit(c, h, frames) && frames != []
    ensures AllFit(c, h, frames[..|frames| - 1]) && Fits(c, h, frames[|frames| - 1])
  {
  }

  lemma {:induction false} FilledFits(c: Codec, h: Header, frames: seq<string>)
    requires AllFit(c, h, frames) && frames != []
    ensures Filled(c, frames).Success? && SameFile(Filled(c, frames).value.first.value, h)
    ensures Filled(c, frames).value.slots == SlotsAfter(c, h, frames)
  {
    hide AllFit;
    var front, last := frames[..|frames| - 1], frames[|frames| - 1];
    AllFitFront(c, h, frames);
    if front != [] {
      FilledFits(c, h, front);
    }
    SlotsGrowBy(c, h, frames);
    hide Step, SlotsAfter;
    StepPart(c, h, Filled(c, front).value, last, IndexOf(c, last), c.decode(last).value);
  }

  lemma SlotsGrowBy(c: Codec, h: Header, frames: seq<string>)
    requires frames != [] && IndexOf(c, frames[|frames| - 1]) < h.numParts
    ensures var last := frames[|frames| - 1];
            SlotsAfter(c, h, frames) == SlotsAfter(c, h, frames[..|frames| - 1])[IndexOf(c, last) := c.decode(last)]
    ensures SlotsAfter(c, h, []) == seq(h.numParts, j => None)
  {
  }

  lemma {:induction false} ScanFits(c: Codec, h: Header, frames: seq<string>)
    requires AllFit(c, h, frames)
    ensures Scan(c, frames).Success? && (frames != [] ==> SameFile(Scan(c, frames).value.0.value, h))
    ensures forall j: nat :: j in Scan(c, frames).value.1 <==> j < h.numParts && Slot(c, frames, j).Some?
  {
    hide AllFit;
    if frames != [] {
      AllFitFront(c, h, frames);
      ScanFits(c, h, frames[..|frames| - 1]);
    }
  }

  /** As many indices as the header promises means every slot. */
  lemma FullIff(c: Codec, h: Header, frames: seq<string>, seen: set<nat>)
    requires forall j: nat :: j in seen <==> j < h.numParts && Slot(c, frames, j).Some?
    ensures |seen| >= h.numParts <==> Full(c, h, frames)
  {
    hide Slot;
    var all := Upto(h.numParts);
    SubsetSize(seen, all);
    if Full(c, h, frames) {
      SubsetSize(all, seen);
    }
  }

  /** A context of fitting frames shows the contents of its slots once all are filled, and is incomplete until then. */
  lemma ViewFits(c: Codec, h: Header, frames: seq<string>)
    requires AllFit(c, h, frames) && frames != [] && h.numParts > 0
    ensures !Full(c, h, frames) ==>
              && BbqrView(c, frames).Success?
              && !BbqrView(c, frames).value.0.complete && BbqrView(c, frames).value.1.None?
    ensures Full(c, h, frames) ==>
              var held := Contents(c, h, SlotsAfter(c, h, frames));
              if held.Failure? then BbqrView(c, frames) == Failure(JoinFailed(held.error))
              else
                && BbqrView(c, frames).Success? && BbqrView(c, frames).value.0.complete
                && BbqrView(c, frames).value.1 == Some(BbqrPayload(held.value.0, held.value.1))
  {
    hide AllFit, Scan, Filled, SlotsAfter, Full, Pct;
    ScanFits(c, h, frames);
    FilledFits(c, h, frames);
    FullIff(c, h, frames, Scan(c, frames).value.1);
  }

  lemma {:induction false} SlotConcat(c: Codec, h: Header, a: seq<string>, b: seq<string>, j: nat)
    requires AllFit(c, h, b)
    ensures Slot(c, a + b, j) == if Slot(c, b, j).Some? then Slot(c, b, j) else Slot(c, a, j)
  {
    if b == [] {
      assert a + b == a;
    } else {
      assert (a + b)[..|a + b| - 1] == a + b[..|b| - 1] && (a + b)[|a + b| - 1] == b[|b| - 1];
      AllFitFront(c, h, b);
      SlotConcat(c, h, a, b[..|b| - 1], j);
    }
  }

  // ---- a frame that can be stored and never joined ----

  /** A frame with a readable header whose body does not decode, or whose index is beyond its count. */
  ghost predicate Unjoinable(c: Codec, f: string) {
    c.header(f).Some? && (c.decode(f).None? || c.header(f).value.index >= c.header(f).value.numParts)
  }

  lemma {:induction false} UnjoinableFails(c: Codec, frames: seq<string>, f: string)
    requires f in frames && Unjoinable(c, f)
    ensures Filled(c, frames).Failure?
  {
    var front, last := frames[..|frames| - 1], frames[|frames| - 1];
    if f in front {
      UnjoinableFails(c, front, f);
    } else {
      assert frames == front + [last];
      SlotsAsPromised(c, front);
    }
  }

  lemma {:induction false} SlotsAsPromised(c: Codec, parts: seq<string>)
    ensures Filled(c, parts).Success? && parts != [] ==>
              |Filled(c, parts).value.slots| == Filled(c, parts).value.first.value.numParts
    ensures parts == [] ==> Filled(c, parts).Success? && Filled(c, parts).value.first.None?
  {
    if parts != [] {
      SlotsAsPromised(c, parts[..|parts| - 1]);
    }
  }

  /** Once such a frame is stored the context never completes, whatever is fed to it. */
  lemma {:induction false} NeverCompletes(env: Env, s: Ctx, f: string, more: seq<string>)
    requires s.kind == Some(BbqrKind) && f in s.frames && Unjoinable(env.codec, f)
    ensures var s' := Continue(env, s, more);
            && s'.kind == Some(BbqrKind) && f in s'.frames
            && (Decoded(env, s'.kind, s'.frames).Success? ==> !Decoded(env, s'.kind, s'.frames).value.0.complete)
  {
    if more == [] {
      UnjoinableFails(env.codec, s.frames, f);
    } else {
      var front := Continue(env, s, more[..|more| - 1]);
      NeverCompletes(env, s, f, more[..|more| - 1]);
      FramesStay(env, front, more[|more| - 1]);
      UnjoinableFails(env.codec, Continue(env, s, more).frames, f);
    }
  }

  lemma FramesStay(env: Env, s: Ctx, frame: string)
    ensures s.frames <= Fed(env, s, frame).0.frames
    ensures s.kind.Some? ==> Fed(env, s, frame).0.kind == s.kind
  {
    hide Classify, Trim, Validate, Decoded, Normalized;
  }

  lemma {:induction false} FramesStayed(env: Env, s: Ctx, more: seq<string>)
    ensures s.frames <= Continue(env, s, more).frames
  {
    if more != [] {
      FramesStayed(env, s, more[..|more| - 1]);
      FramesStay(env, Continue(env, s, more[..|more| - 1]), more[|more| - 1]);
    }
  }

  /** A frame of the right look: recognised as BBQr, nothing around it. */
  ghost predicate Scanned(p: string) {
    Trim(p) == p != "" && Classify(p) == BbqrKind
  }

  /** A new context accepts a frame of two or more parts on its header alone, and can never complete afterwards. */
  lemma UndecodableIsKept(env: Env, f: string, more: seq<string>)
    requires Scanned(f) && env.codec.header(f).Some? && env.codec.header(f).value.numParts >= 2
    requires env.codec.decode(f).None?
    ensures Fed(env, FRESH, f).1.Success? && Fed(env, FRESH, f).0 == Ctx(Some(BbqrKind), [f])
    ensures var s := Continue(env, Fed(env, FRESH, f).0, more);
            Decoded(env, s.kind, s.frames).Success? ==> !Decoded(env, s.kind, s.frames).value.0.complete
  {
    FedPart(env, FRESH, f);
    OneFrame(env.codec, f);
    assert [] + [f] == [f];
    hide Fed, BbqrView, Decoded;
    NeverCompletes(env, Ctx(Some(BbqrKind), [f]), f, more);
  }

  lemma OneFrame(c: Codec, f: string)
    requires c.header(f).Some? && c.header(f).value.numParts >= 2
    ensures BbqrView(c, [f]).Success?
  {
    assert [f][..0] == [];
    assert Scan(c, [f]) == Success((c.header(f), {} + {c.header(f).value.index}));
  }

  // ---- one file and its parts ----

  /** A file as its parts show it: `parts[i]` carries `chunks[i]` under header `h`. */
  datatype File = File(h: Header, parts: seq<string>, chunks: seq<Bytes>, data: Bytes)

  function Chunks(chunks: seq<Bytes>): seq<Option<Bytes>> {
    seq(|chunks|, i requires 0 <= i < |chunks| => Some(chunks[i]))
  }

  ghost predicate Sound(c: Codec, x: File) {
    && |x.parts| == |x.chunks| == x.h.numParts > 0
    && (forall i :: 0 <= i < |x.parts| ==> Carries(c, x, i))
    && Contents(c, x.h, Chunks(x.chunks)) == Success((x.h.fileType, x.data))
  }

  ghost predicate Carries(c: Codec, x: File, i: nat)
    requires i < |x.parts| == |x.chunks|
  {
    && Scanned(x.parts[i])
    && c.header(x.parts[i]) == Some(x.h.(index := i))
    && c.decode(x.parts[i]) == Some(x.chunks[i])
  }

  /** Every file that is cut, and that inflate can restore, is one. */
  lemma CutIsSound(c: Codec, data: Bytes, fileType: char, maxPartLen: Option<nat>, compress: bool) returns (x: File)
    requires Laws(c) && Marked(c) && Parts(c, data, fileType, maxPartLen, compress).Success?
    requires Restores(c, data, compress)
    ensures Sound(c, x) && x.parts == Parts(c, data, fileType, maxPartLen, compress).value
    ensures x.data == data && x.h == Header(Body(c, data, compress).value.1, fileType, |x.parts|, 0)
    ensures var body, n := Body(c, data, compress).value.0, BytesPerPart(maxPartLen.GetOr(DEFAULT_PART_LEN)).value;
            && n > 0 && |x.parts| == |x.chunks| == PartsNeeded(|body|, n)
            && forall i :: 0 <= i < |x.chunks| ==> x.chunks[i] == Chunk(body, n, i)
  {
    hide Laws, Marked, Parts, PartAt, Restores, Contents, Filled, SlotsOf, PartsOnly, Chunk, Classify, Trim;
    var parts := Parts(c, data, fileType, maxPartLen, compress).value;
    var h, body, n := CutParts(c, data, fileType, maxPartLen, compress);
    x := File(h, parts, seq(|parts|, i requires 0 <= i < |parts| => Chunk(body, n, i)), data);
    EnoughParts(|body|, n);
    forall i | 0 <= i < |parts|
      ensures Carries(c, x, i)
    {
      PartReadsBack(c, h, body, n, i);
      PartIsBbqr(c, h, body, n, i);
    }
    JoinOfParts(c, data, fileType, maxPartLen, compress, parts);
    ScannedParts(c, h, body, n, parts, parts);
    FilledIs(c, h, body, n, parts);
    AllSlots(c, h, body, n, parts, x.chunks);
    SameContents(c, Filled(c, parts).value.first.value, h, Chunks(x.chunks));
  }

  lemma AllSlots(c: Codec, h: Header, body: Bytes, n: nat, parts: seq<string>, chunks: seq<Bytes>)
    requires |parts| == |chunks| == h.numParts
    requires forall i :: 0 <= i < |parts| ==> parts[i] == PartAt(c, h, body, n, i) && chunks[i] == Chunk(body, n, i)
    ensures SlotsOf(c, h, body, n, parts) == Chunks(chunks)
  {
    hide PartAt, Chunk;
    assert forall i :: 0 <= i < |parts| ==> parts[i] in parts;
  }

  lemma SameContents(c: Codec, g: Header, h: Header, slots: seq<Option<Bytes>>)
    requires SameFile(g, h)
    ensures Contents(c, g, slots) == Contents(c, h, slots)
  {
  }

  lemma PartFits(c: Codec, x: File, p: string) returns (i: nat)
    requires Sound(c, x) && p in x.parts
    ensures i < |x.parts| && p == x.parts[i] && Carries(c, x, i)
    ensures Fits(c, x.h, p) && IndexOf(c, p) == i
  {
    i :| 0 <= i < |x.parts| && x.parts[i] == p;
    assert Carries(c, x, i);
  }

  lemma {:induction false} SlotOfParts(c: Codec, x: File, g: seq<string>, j: nat)
    requires Sound(c, x) && (forall f :: f in g ==> f in x.parts) && j < x.h.numParts
    ensures Slot(c, g, j) == if x.parts[j] in g then Some(x.chunks[j]) else None
    ensures AllFit(c, x.h, g)
  {
    hide Sound;
    SoundAt(c, x, j);
    if g != [] {
      var front, last := g[..|g| - 1], g[|g| - 1];
      SlotOfParts(c, x, front, j);
      var i := PartFits(c, x, last);
      assert g == front + [last];
    }
  }

  lemma SoundSizes(c: Codec, x: File)
    requires Sound(c, x)
    ensures |x.parts| == |x.chunks| == x.h.numParts > 0
  {
  }

  lemma SoundAt(c: Codec, x: File, j: nat)
    requires Sound(c, x) && j < x.h.numParts
    ensures |x.parts| == |x.chunks| == x.h.numParts && Carries(c, x, j)
  {
  }

  ghost predicate Shows(v: Result<View, FeedError>, x: File) {
    v.Success? && v.value.0.complete && v.value.1 == Some(BbqrPayload(x.h.fileType, x.data))
  }

  ghost predicate Showing(env: Env, s: Ctx, x: File) {
    Shows(Decoded(env, s.kind, s.frames), x)
  }

  ghost predicate PartsOf(x: File, fs: seq<string>) {
    forall f :: f in fs ==> f in x.parts
  }

  /** A scan of the file's parts, in any order with repeats, that misses none. */
  ghost predicate Pass(x: File, fs: seq<string>) {
    PartsOf(x, fs) && forall p :: p in x.parts ==> p in fs
  }

  // ---- no stray: one pass shows the file ----

  lemma FeedOwn(env: Env, x: File, s: Ctx, p: string)
    requires Sound(env.codec, x) && Collecting(s, x.parts) && p in x.parts
    ensures Fed(env, s, p).0 == Ctx(Some(BbqrKind), Kept(s.frames, p))
    ensures Collecting(Fed(env, s, p).0, x.parts)
  {
    var c := env.codec;
    var frames := Kept(s.frames, p);
    var i := PartFits(c, x, p);
    FedPart(env, s, p);
    KeptCollects(s, p, x.parts);
    hide Fed, Fits, AllFit, Contents, BbqrView, SlotsAfter, Full;
    OwnView(c, x, frames);
  }

  lemma OwnView(c: Codec, x: File, frames: seq<string>)
    requires Sound(c, x) && PartsOf(x, frames) && frames != []
    ensures BbqrView(c, frames).Success?
    ensures (forall p :: p in x.parts ==> p in frames) ==> Shows(BbqrView(c, frames), x)
  {
    hide AllFit, Contents, BbqrView;
    SlotOfParts(c, x, frames, 0);
    ViewFits(c, x.h, frames);
    forall j: nat | j < x.h.numParts
      ensures Slot(c, frames, j) == if x.parts[j] in frames then Some(x.chunks[j]) else None
    {
      SlotOfParts(c, x, frames, j);
    }
    hide Slot;
    if Full(c, x.h, frames) {
      assert SlotsAfter(c, x.h, frames) == Chunks(x.chunks);
    }
  }

  lemma {:induction false} OwnPass(env: Env, x: File, s: Ctx, fs: seq<string>)
    requires Sound(env.codec, x) && Collecting(s, x.parts) && PartsOf(x, fs)
    ensures var s' := Continue(env, s, fs);
            && Collecting(s', x.parts) && (forall f :: f in fs ==> f in s'.frames)
            && (fs != [] ==> s'.kind == Some(BbqrKind) && s'.frames != [])
  {
    if fs != [] {
      var front, last := fs[..|fs| - 1], fs[|fs| - 1];
      OwnPass(env, x, s, front);
      hide Sound, Collecting, Fed;
      FeedOwn(env, x, Continue(env, s, front), last);
      assert fs == front + [last];
    }
  }

  lemma OwnPassShows(env: Env, x: File, s: Ctx, fs: seq<string>)
    requires Sound(env.codec, x) && Collecting(s, x.parts) && Pass(x, fs)
    ensures Showing(env, Continue(env, s, fs), x)
  {
    OwnPass(env, x, s, fs);
    assert x.parts[0] in fs;
    hide Sound, BbqrView;
    OwnView(env.codec, x, Continue(env, s, fs).frames);
  }

  // ---- a stray that fits: its slot ----

  /** The collection went on from `before` with the stray `t`, and only the file's parts were stored since. */
  ghost predicate Strayed(x: File, before: seq<string>, t: string, s: Ctx) {
    && s.kind == Some(BbqrKind) && Distinct(s.frames) && PartsOf(x, before)
    && before + [t] <= s.frames
    && PartsOf(x, s.frames[|before| + 1..])
  }

  /** The stray came after the file's own part for its slot. */
  predicate Late(c: Codec, x: File, before: seq<string>, t: string) {
    IndexOf(c, t) < |x.parts| && x.parts[IndexOf(c, t)] in before
  }

  /** What the slots hold when every part was stored. */
  function FinalSlots(c: Codec, x: File, before: seq<string>, t: string): seq<Option<Bytes>> {
    if Late(c, x, before, t) && IndexOf(c, t) < |x.chunks| then Chunks(x.chunks)[IndexOf(c, t) := c.decode(t)]
    else Chunks(x.chunks)
  }

  lemma StrayedSlot(c: Codec, x: File, before: seq<string>, t: string, s: Ctx, j: nat)
    requires Sound(c, x) && Fits(c, x.h, t) && t !in x.parts && Strayed(x, before, t, s) && j < x.h.numParts
    ensures AllFit(c, x.h, s.frames)
    ensures j != IndexOf(c, t) ==> Slot(c, s.frames, j) == if x.parts[j] in s.frames then Some(x.chunks[j]) else None
    ensures j == IndexOf(c, t) ==>
              && Slot(c, s.frames, j).Some?
              && (x.parts[j] in s.frames ==> Slot(c, s.frames, j) == FinalSlots(c, x, before, t)[j])
  {
    var g := s.frames[|before| + 1..];
    assert s.frames == (before + [t]) + g;
    SlotOfParts(c, x, before, j);
    SlotOfParts(c, x, g, j);
    assert Slot(c, [t], j) == if IndexOf(c, t) == j then c.decode(t) else None by {
      assert [t][..0] == [];
    }
    SlotConcat(c, x.h, before, [t], j);
    SlotConcat(c, x.h, before + [t], g, j);
    DistinctSplit(before + [t], g);
  }

  lemma DistinctSplit(a: seq<string>, b: seq<string>)
    requires Distinct(a + b)
    ensures forall f :: f in a ==> f !in b
  {
    forall i, k | 0 <= i < |a| && 0 <= k < |b|
      ensures a[i] != b[k]
    {
      assert (a + b)[i] == a[i] && (a + b)[|a| + k] == b[k];
    }
  }

  /** Once the slot's own part is stored, full slots are the final ones. */
  lemma StrayedView(c: Codec, x: File, before: seq<string>, t: string, s: Ctx)
    requires Sound(c, x) && Fits(c, x.h, t) && t !in x.parts && Strayed(x, before, t, s)
    requires x.parts[IndexOf(c, t)] in s.frames
    ensures Full(c, x.h, s.frames) <==> forall p :: p in x.parts ==> p in s.frames
    ensures !Full(c, x.h, s.frames) ==> BbqrView(c, s.frames).Success? && BbqrView(c, s.frames).value.1.None?
    ensures Full(c, x.h, s.frames) ==>
              var held := Contents(c, x.h, FinalSlots(c, x, before, t));
              if held.Failure? then BbqrView(c, s.frames).Failure?
              else
                && BbqrView(c, s.frames).Success? && BbqrView(c, s.frames).value.0.complete
                && BbqrView(c, s.frames).value.1 == Some(BbqrPayload(held.value.0, held.value.1))
  {
    hide AllFit, Contents, BbqrView, Slot, Strayed;
    StrayedSlot(c, x, before, t, s, 0);
    ViewFits(c, x.h, s.frames);
    forall j: nat | j < x.h.numParts
      ensures Slot(c, s.frames, j).Some? <==> x.parts[j] in s.frames
      ensures x.parts[j] in s.frames ==> Slot(c, s.frames, j) == FinalSlots(c, x, before, t)[j]
    {
      StrayedSlot(c, x, before, t, s, j);
    }
    if Full(c, x.h, s.frames) {
      assert SlotsAfter(c, x.h, s.frames) == FinalSlots(c, x, before, t);
    }
  }

  // ---- scanning on after such a stray ----

  /** With the stray where it is, storing every part still yields the file. */
  ghost predicate Settles(c: Codec, x: File, before: seq<string>, t: string) {
    Contents(c, x.h, FinalSlots(c, x, before, t)) == Success((x.h.fileType, x.data))
  }

  lemma EarlySettles(c: Codec, x: File, before: seq<string>, t: string)
    requires Sound(c, x) && !Late(c, x, before, t)
    ensures Settles(c, x, before, t)
  {
  }

  lemma KeptStrayed(x: File, before: seq<string>, t: string, s: Ctx, p: string)
    requires Strayed(x, before, t, s) && p in x.parts
    ensures Strayed(x, before, t, Ctx(Some(BbqrKind), Kept(s.frames, p))) && s.frames <= Kept(s.frames, p)
  {
    if p !in s.frames {
      var after := s.frames + [p];
      assert after[|before| + 1..] == s.frames[|before| + 1..] + [p];
    }
  }

  lemma FeedStrayed(env: Env, x: File, before: seq<string>, t: string, s: Ctx, p: string)
    requires Sound(env.codec, x) && Fits(env.codec, x.h, t) && t !in x.parts
    requires Strayed(x, before, t, s) && p in x.parts
    ensures Strayed(x, before, t, Fed(env, s, p).0) && s.frames <= Fed(env, s, p).0.frames
    ensures Settles(env.codec, x, before, t) && x.parts[IndexOf(env.codec, t)] in Kept(s.frames, p) ==>
              Fed(env, s, p).0.frames == Kept(s.frames, p)
  {
    var c := env.codec;
    var i := PartFits(c, x, p);
    FedPart(env, s, p);
    KeptStrayed(x, before, t, s, p);
    var k := Ctx(Some(BbqrKind), Kept(s.frames, p));
    hide Fed, Strayed, Sound, Contents, BbqrView, Full, FinalSlots;
    SoundAt(c, x, i);
    if x.parts[IndexOf(c, t)] in k.frames {
      StrayedView(c, x, before, t, k);
    }
  }

  lemma {:induction false} StrayedRun(env: Env, x: File, before: seq<string>, t: string, s: Ctx, fs: seq<string>)
    requires Sound(env.codec, x) && Fits(env.codec, x.h, t) && t !in x.parts
    requires Strayed(x, before, t, s) && PartsOf(x, fs)
    ensures Strayed(x, before, t, Continue(env, s, fs)) && s.frames <= Continue(env, s, fs).frames
    ensures var own := x.parts[IndexOf(env.codec, t)];
            Settles(env.codec, x, before, t) ==>
              && (own in s.frames || own in fs ==> own in Continue(env, s, fs).frames)
              && (own in s.frames ==> forall f :: f in fs ==> f in Continue(env, s, fs).frames)
  {
    hide Strayed, Settles, Fed, Sound;
    SoundAt(env.codec, x, IndexOf(env.codec, t));
    if fs != [] {
      var front, last := fs[..|fs| - 1], fs[|fs| - 1];
      StrayedRun(env, x, before, t, s, front);
      FeedStrayed(env, x, before, t, Continue(env, s, front), last);
      assert fs == front + [last];
    }
  }

  /** A stray that settles costs at most one more pass over the parts. */
  lemma StrayedPasses(env: Env, x: File, before: seq<string>, t: string, s: Ctx, fs: seq<string>, again: seq<string>)
    requires Sound(env.codec, x) && Fits(env.codec, x.h, t) && t !in x.parts
    requires Strayed(x, before, t, s) && Settles(env.codec, x, before, t) && Pass(x, fs) && Pass(x, again)
    ensures Showing(env, Continue(env, s, fs + again), x)
  {
    var c := env.codec;
    ContinueConcat(env, s, fs, again);
    var s' := Continue(env, s, fs);
    hide Fed, Strayed, Sound, Contents, BbqrView, FinalSlots, Continue;
    SoundAt(c, x, IndexOf(c, t));
    StrayedRun(env, x, before, t, s, fs);
    StrayedRun(env, x, before, t, s', again);
    StrayedView(c, x, before, t, Continue(env, s', again));
    StrayedKind(x, before, t, Continue(env, s', again));
  }

  lemma StrayedKind(x: File, before: seq<string>, t: string, s: Ctx)
    requires Strayed(x, before, t, s)
    ensures s.kind == Some(BbqrKind) && (forall f :: f in before ==> f in s.frames)
  {
    forall f | f in before
      ensures f in s.frames
    {
      var i :| 0 <= i < |before| && before[i] == f;
      assert s.frames[i] == (before + [t])[i];
    }
  }

  /** A stray that came after its slot's own part and does not settle keeps the file away for good. */
  lemma LateStrayNever(env: Env, x: File, before: seq<string>, t: string, s: Ctx, fs: seq<string>)
    requires Sound(env.codec, x) && Fits(env.codec, x.h, t) && t !in x.parts
    requires Strayed(x, before, t, s) && PartsOf(x, fs)
    requires Late(env.codec, x, before, t) && !Settles(env.codec, x, before, t)
    ensures !Showing(env, Continue(env, s, fs), x)
  {
    var c := env.codec;
    hide Fed, Strayed, Sound, Contents, BbqrView, FinalSlots, Continue;
    StrayedRun(env, x, before, t, s, fs);
    StrayedKind(x, before, t, Continue(env, s, fs));
    SoundAt(c, x, IndexOf(c, t));
    StrayedView(c, x, before, t, Continue(env, s, fs));
  }

  // ---- strays of another kind or another file ----

  lemma {:induction false} OtherFileStays(env: Env, x: File, t: string, fs: seq<string>)
    requires Sound(env.codec, x) && PartsOf(x, fs)
    requires env.codec.header(t).Some? && !SameFile(env.codec.header(t).value, x.h)
    ensures Continue(env, Ctx(Some(BbqrKind), [t]), fs) == Ctx(Some(BbqrKind), [t])
  {
    if fs != [] {
      var s, last := Ctx(Some(BbqrKind), [t]), fs[|fs| - 1];
      OtherFileStays(env, x, t, fs[..|fs| - 1]);
      var i := PartFits(env.codec, x, last);
      FedPart(env, s, last);
      ScanTwo(env.codec, t, last);
      hide Fed, Sound, Scan;
    }
  }

  lemma ScanTwo(c: Codec, f: string, g: string)
    requires c.header(f).Some? && c.header(g).Some? && !SameFile(c.header(f).value, c.header(g).value)
    ensures f != g && Scan(c, [f] + [g]) == Failure(OtherFile)
  {
    assert ([f] + [g])[..1] == [f] && [f][..0] == [];
    assert Scan(c, [f]) == Success((c.header(f), {} + {c.header(f).value.index}));
  }

  lemma {:induction false} OtherKindStays(env: Env, x: File, s: Ctx, fs: seq<string>)
    requires Sound(env.codec, x) && PartsOf(x, fs) && s.kind.Some? && s.kind != Some(BbqrKind)
    ensures Continue(env, s, fs) == s && !Showing(env, s, x)
  {
    hide Classify, Trim, Validate, BbqrView, Normalized;
    if fs != [] {
      OtherKindStays(env, x, s, fs[..|fs| - 1]);
      var i := PartFits(env.codec, x, fs[|fs| - 1]);
      hide Sound;
    }
  }

  // ---- the exact condition ----

  /** Some scan of the file's parts makes the context show the file. */
  ghost predicate CanCollect(env: Env, x: File, s: Ctx) {
    exists fs :: PartsOf(x, fs) && Showing(env, Continue(env, s, fs), x)
  }

  /**
    A stray harms nothing exactly when the context is not bound to another kind by it and it was rejected, or already
    is all of the file, or fits a slot of the file whose own part is still to come, or agrees with the one that came.
  */
  ghost predicate Harmless(env: Env, x: File, s: Ctx, stray: string) {
    var c, t := env.codec, Trim(stray);
    var (after, r) := Fed(env, s, stray);
    && (after.kind.None? || after.kind == Some(BbqrKind))
    && (r.Failure? || Shows(r, x)
        || (Fits(c, x.h, t)
            && (Late(c, x, s.frames, t) ==> Join(c, x.parts + [t]) == Success((x.h.fileType, x.data)))))
  }

  /** The context after any frame: bound to its kind, and holding it when it was accepted. */
  lemma StrayFed(env: Env, s: Ctx, stray: string)
    requires s.kind == Some(BbqrKind) || s == FRESH
    ensures var t := Trim(stray);
            var (after, r) := Fed(env, s, stray);
            && (s.kind.Some? ==> after.kind == s.kind)
            && (r.Failure? ==> after.frames == s.frames)
            && (r.Success? ==> after.kind.Some?)
            && (r.Success? && after.kind == Some(BbqrKind) ==>
                  && env.codec.header(t).Some? && after == Ctx(Some(BbqrKind), Kept(s.frames, t))
                  && r == BbqrView(env.codec, after.frames))
  {
    hide Classify, Trim, BbqrView, UrView, RawView;
  }

  lemma CollectingOn(s: Ctx, after: Ctx, parts: seq<string>)
    requires Collecting(s, parts) && after.frames == s.frames
    requires after.kind == Some(BbqrKind) || (after.kind.None? && s.kind.None?)
    ensures Collecting(after, parts)
  {
  }

  /** Joining every part and then the stray gives what the final slots hold. */
  lemma JoinAfter(c: Codec, x: File, before: seq<string>, t: string)
    requires Sound(c, x) && Fits(c, x.h, t) && Late(c, x, before, t)
    ensures Join(c, x.parts + [t]) == Success((x.h.fileType, x.data)) <==> Settles(c, x, before, t)
  {
    var all := x.parts + [t];
    assert all != [] && all[..|all| - 1] == x.parts && all[|all| - 1] == t;
    SlotOfParts(c, x, x.parts, 0);
    FilledFits(c, x.h, all);
    hide Contents;
    forall j: nat | j < x.h.numParts
      ensures Slot(c, all, j) == FinalSlots(c, x, before, t)[j]
    {
      SlotOfParts(c, x, x.parts, j);
    }
    assert SlotsAfter(c, x.h, all) == FinalSlots(c, x, before, t);
    SameContents(c, Filled(c, all).value.first.value, x.h, SlotsAfter(c, x.h, all));
  }

  /** An accepted frame that is not one of the parts begins a strayed collection. */
  lemma BeginsStrayed(x: File, s: Ctx, t: string)
    requires Collecting(s, x.parts) && t !in x.parts
    ensures Kept(s.frames, t) == s.frames + [t]
    ensures Strayed(x, s.frames, t, Ctx(Some(BbqrKind), s.frames + [t]))
  {
    assert (s.frames + [t])[|s.frames| + 1..] == [];
  }

  /** Only in an empty context can an accepted frame be of another file. */
  lemma AcceptedIsSameFile(c: Codec, x: File, frames: seq<string>, t: string)
    requires Sound(c, x) && PartsOf(x, frames) && frames != [] && c.header(t).Some?
    requires BbqrView(c, frames + [t]).Success?
    ensures SameFile(c.header(t).value, x.h)
  {
    SlotOfParts(c, x, frames, 0);
    ScanFits(c, x.h, frames);
    assert (frames + [t])[..|frames| + 1 - 1] == frames;
  }

  lemma FitsOrNot(c: Codec, x: File, t: string)
    requires c.header(t).Some? && SameFile(c.header(t).value, x.h)
    ensures Fits(c, x.h, t) <==> !Unjoinable(c, t)
  {
  }

  lemma OwnIsHarmless(env: Env, x: File, s: Ctx, t: string)
    requires Sound(env.codec, x) && Collecting(s, x.parts) && t in x.parts
    ensures Join(env.codec, x.parts + [t]) == Success((x.h.fileType, x.data))
  {
    var c := env.codec;
    var i := PartFits(c, x, t);
    assert Late(c, x, x.parts, t);
    JoinAfter(c, x, x.parts, t);
    hide Contents;
    assert FinalSlots(c, x, x.parts, t) == Chunks(x.chunks);
  }

  /** After a harmless stray two passes over the parts, each in any order with repeats, always show the file. */
  lemma HarmlessCollects(env: Env, x: File, s: Ctx, stray: string, fs: seq<string>, again: seq<string>)
    requires Sound(env.codec, x) && Collecting(s, x.parts) && Harmless(env, x, s, stray)
    requires Pass(x, fs) && Pass(x, again)
    ensures Showing(env, Continue(env, Fed(env, s, stray).0, fs + again), x)
  {
    hide Fed, Sound, Contents, BbqrView, Fits, FinalSlots, Settles, Continue, Late, Strayed;
    var c, t := env.codec, Trim(stray);
    var (after, r) := Fed(env, s, stray);
    StrayFed(env, s, stray);
    if r.Failure? || t in x.parts {
      if r.Failure? {
        CollectingOn(s, after, x.parts);
      } else {
        KeptCollects(s, t, x.parts);
      }
      OwnPassShows(env, x, after, fs + again);
    } else if SameFile(c.header(t).value, x.h) {
      FittingCollects(env, x, s, t, after, fs, again);
    } else {
      NotSameNotFits(c, x, t);
      FreshBefore(c, x, s, t);
      OtherFileStays(env, x, t, fs + again);
    }
  }

  lemma FreshBefore(c: Codec, x: File, s: Ctx, t: string)
    requires Sound(c, x) && Collecting(s, x.parts) && t !in x.parts
    requires c.header(t).Some? && !SameFile(c.header(t).value, x.h) && BbqrView(c, Kept(s.frames, t)).Success?
    ensures Kept(s.frames, t) == [t]
  {
    hide Sound, BbqrView;
    BeginsStrayed(x, s, t);
    if s.frames != [] {
      AcceptedIsSameFile(c, x, s.frames, t);
    }
  }

  lemma FittingCollects(env: Env, x: File, s: Ctx, t: string, after: Ctx, fs: seq<string>, again: seq<string>)
    requires Sound(env.codec, x) && Collecting(s, x.parts) && t !in x.parts && Pass(x, fs) && Pass(x, again)
    requires env.codec.header(t).Some? && SameFile(env.codec.header(t).value, x.h)
    requires after == Ctx(Some(BbqrKind), Kept(s.frames, t))
    requires Showing(env, after, x) || (Fits(env.codec, x.h, t) && (Late(env.codec, x, s.frames, t) ==>
               Join(env.codec, x.parts + [t]) == Success((x.h.fileType, x.data))))
    ensures Showing(env, Continue(env, after, fs + again), x)
  {
    hide Fed, Sound, Contents, Fits, FinalSlots, Settles, Continue, Late, Strayed, BbqrView, Unjoinable;
    var c := env.codec;
    BeginsStrayed(x, s, t);
    FitsOrNot(c, x, t);
    if Unjoinable(c, t) {
      NeverCompletes(env, after, t, []);
      ContinueNone(env, after);
    }
    if Late(c, x, s.frames, t) {
      LateShows(env, x, s.frames, t, after);
      JoinAfter(c, x, s.frames, t);
    } else {
      EarlySettles(c, x, s.frames, t);
    }
    StrayedPasses(env, x, s.frames, t, after, fs, again);
  }

  lemma NotSameNotFits(c: Codec, x: File, t: string)
    requires c.header(t).Some? && !SameFile(c.header(t).value, x.h)
    ensures !Fits(c, x.h, t)
  {
  }

  lemma ContinueNone(env: Env, s: Ctx)
    ensures Continue(env, s, []) == s
  {
  }

  /** A late stray that does not settle never shows the file, not even at once. */
  lemma LateShows(env: Env, x: File, before: seq<string>, t: string, s: Ctx)
    requires Sound(env.codec, x) && Fits(env.codec, x.h, t) && t !in x.parts && Strayed(x, before, t, s)
    requires Late(env.codec, x, before, t)
    ensures Showing(env, s, x) ==> Settles(env.codec, x, before, t)
  {
    if !Settles(env.codec, x, before, t) {
      LateStrayNever(env, x, before, t, s, []);
    }
  }

  /** After a harmful stray no scan of the parts, however long, ever shows the file. */
  lemma HarmfulNever(env: Env, x: File, s: Ctx, stray: string, fs: seq<string>)
    requires Sound(env.codec, x) && Collecting(s, x.parts) && !Harmless(env, x, s, stray) && PartsOf(x, fs)
    ensures !Showing(env, Continue(env, Fed(env, s, stray).0, fs), x)
  {
    hide Fed, Contents, BbqrView, FinalSlots, Settles, Continue, Late, Strayed;
    var c, t := env.codec, Trim(stray);
    var (after, r) := Fed(env, s, stray);
    StrayFed(env, s, stray);
    if after.kind.Some? && after.kind != Some(BbqrKind) {
      OtherKindStays(env, x, after, fs);
    } else if t in x.parts {
      OwnIsHarmless(env, x, s, t);
      var i := PartFits(c, x, t);
    } else if !SameFile(c.header(t).value, x.h) {
      FreshBefore(c, x, s, t);
      OtherFileStays(env, x, t, fs);
    } else {
      BeginsStrayed(x, s, t);
      FitsOrNot(c, x, t);
      if Unjoinable(c, t) {
        NeverCompletes(env, after, t, fs);
      } else {
        JoinAfter(c, x, s.frames, t);
        LateStrayNever(env, x, s.frames, t, after, fs);
      }
    }
  }

  /**
    Whatever frame strays into the collection of a file, and whenever: the file can still be collected exactly when
    the stray is harmless.
  */
  lemma StrayFrameIff(env: Env, x: File, s: Ctx, stray: string)
    requires Sound(env.codec, x) && Collecting(s, x.parts)
    ensures CanCollect(env, x, Fed(env, s, stray).0) <==> Harmless(env, x, s, stray)
  {
    var after := Fed(env, s, stray).0;
    hide Fed, Sound, Collecting, Harmless, Showing;
    if Harmless(env, x, s, stray) {
      HarmlessCollects(env, x, s, stray, x.parts, x.parts);
      assert PartsOf(x, x.parts + x.parts);
    } else if CanCollect(env, x, after) {
      var fs :| PartsOf(x, fs) && Showing(env, Continue(env, after, fs), x);
      HarmfulNever(env, x, s, stray, fs);
    }
  }

  /** The same of a file cut by the library. */
  lemma StrayThenFileIff(
      env: Env, data: Bytes, fileType: char, maxPartLen: Option<nat>, compress: bool, s: Ctx, stray: string)
    returns (x: File)
    requires Laws(env.codec) && Marked(env.codec) && Restores(env.codec, data, compress)
    requires Parts(env.codec, data, fileType, maxPartLen, compress).Success?
    requires Collecting(s, Parts(env.codec, data, fileType, maxPartLen, compress).value)
    ensures x.parts == Parts(env.codec, data, fileType, maxPartLen, compress).value
    ensures x.data == data && x.h.fileType == fileType && Sound(env.codec, x)
    ensures CanCollect(env, x, Fed(env, s, stray).0) <==> Harmless(env, x, s, stray)
  {
    hide *;
    x := CutIsSound(env.codec, data, fileType, maxPartLen, compress);
    StrayFrameIff(env, x, s, stray);
  }

  function Flatten(chunks: seq<Bytes>): Bytes {
    if chunks == [] then [] else Flatten(chunks[..|chunks| - 1]) + chunks[|chunks| - 1]
  }

  lemma {:induction false} GatherChunks(chunks: seq<Bytes>)
    ensures Gather(Chunks(chunks)) == Success(Flatten(chunks))
  {
    if chunks != [] {
      GatherChunks(chunks[..|chunks| - 1]);
      assert Chunks(chunks)[..|chunks| - 1] == Chunks(chunks[..|chunks| - 1]);
    }
  }

  /** Another chunk in one place makes another file. */
  lemma {:induction false} OtherChunkOtherFile(chunks: seq<Bytes>, i: nat, b: Bytes)
    requires i < |chunks|
    ensures Flatten(chunks[i := b]) == Flatten(chunks) <==> b == chunks[i]
  {
    var front, last := chunks[..|chunks| - 1], chunks[|chunks| - 1];
    if i < |front| {
      OtherChunkOtherFile(front, i, b);
      assert chunks[i := b][..|front|] == front[i := b];
      SameTail(Flatten(front[i := b]), Flatten(front), last);
    } else {
      assert chunks[i := b][..|front|] == front;
      SameHead(Flatten(front), b, last);
    }
  }

  lemma SameTail(a: Bytes, b: Bytes, tail: Bytes)
    ensures a + tail == b + tail <==> a == b
  {
    if a + tail == b + tail {
      assert a == (a + tail)[..|a + tail| - |tail|] == b;
    }
  }

  lemma SameHead(head: Bytes, a: Bytes, b: Bytes)
    ensures head + a == head + b <==> a == b
  {
    if head + a == head + b {
      assert a == (head + a)[|head|..] == b;
    }
  }

  /** In a file that is not deflated, a stray after its slot's own part agrees only when it holds the same bytes. */
  lemma LateStrayIff(c: Codec, x: File, t: string)
    requires Sound(c, x) && Fits(c, x.h, t) && x.h.encoding != Zlib
    ensures Join(c, x.parts + [t]) == Success((x.h.fileType, x.data))
       <==> IndexOf(c, t) < |x.chunks| && c.decode(t) == Some(x.chunks[IndexOf(c, t)])
  {
    var i, b := IndexOf(c, t), c.decode(t).value;
    assert Late(c, x, x.parts, t);
    JoinAfter(c, x, x.parts, t);
    assert Chunks(x.chunks)[i := Some(b)] == Chunks(x.chunks[i := b]);
    GatherChunks(x.chunks);
    GatherChunks(x.chunks[i := b]);
    OtherChunkOtherFile(x.chunks, i, b);
    hide Gather, Flatten;
  }

  /** For a stray that comes first: it is a BBQr frame, and was rejected, or is a whole copy, or fits a slot. */
  lemma FirstStrayIff(env: Env, x: File, stray: string)
    requires Sound(env.codec, x) && Trim(stray) != ""
    ensures CanCollect(env, x, Fed(env, FRESH, stray).0)
       <==> && Classify(stray) == BbqrKind
            && var r := Fed(env, FRESH, stray).1;
               r.Failure? || Shows(r, x) || Fits(env.codec, x.h, Trim(stray))
  {
    hide Sound;
    StrayFrameIff(env, x, FRESH, stray);
    TrimmedClass(stray);
    hide Classify, Trim, Fits, Validate, Decoded, Normalized, Shows, CanCollect;
  }

  // ---- any number of strays, in a file that is not deflated ----

  /** Whatever was accepted so far, each frame fits a slot. */
  ghost predicate Mixed(c: Codec, x: File, s: Ctx) {
    s.kind == Some(BbqrKind) && Distinct(s.frames) && AllFit(c, x.h, s.frames)
  }

  /** Every part of the file that was stored still holds its slot. */
  ghost predicate Owned(c: Codec, x: File, frames: seq<string>)
    requires |x.parts| == |x.chunks|
  {
    forall j: nat :: j < |x.parts| && x.parts[j] in frames ==> Slot(c, frames, j) == Some(x.chunks[j])
  }

  /** Strays carry as many bytes as the file's own parts. */
  ghost predicate SameLengths(c: Codec, x: File, frames: seq<string>)
    requires |x.parts| == |x.chunks|
  {
    forall j: nat :: j < |x.chunks| && Slot(c, frames, j).Some? ==> |Slot(c, frames, j).value| == |x.chunks[j]|
  }

  /** Without inflating, fitting frames are always accepted, and full slots show their bytes. */
  lemma PlainView(c: Codec, h: Header, frames: seq<string>)
    requires AllFit(c, h, frames) && frames != [] && h.numParts > 0 && h.encoding != Zlib
    ensures BbqrView(c, frames).Success?
    ensures Full(c, h, frames) ==>
              var held := seq(h.numParts, j requires 0 <= j < h.numParts => Slot(c, frames, j).GetOr([]));
              && BbqrView(c, frames).value.0.complete
              && BbqrView(c, frames).value.1 == Some(BbqrPayload(h.fileType, Flatten(held)))
    ensures !Full(c, h, frames) ==> BbqrView(c, frames).value.1.None?
  {
    hide AllFit, BbqrView, Slot, Gather, Flatten;
    ViewFits(c, h, frames);
    if Full(c, h, frames) {
      var held := seq(h.numParts, j requires 0 <= j < h.numParts => Slot(c, frames, j).GetOr([]));
      assert SlotsAfter(c, h, frames) == Chunks(held);
      GatherChunks(held);
    }
  }

  lemma FeedMixed(env: Env, x: File, s: Ctx, p: string)
    requires Sound(env.codec, x) && x.h.encoding != Zlib && Mixed(env.codec, x, s) && p in x.parts
    ensures Fed(env, s, p).0 == Ctx(Some(BbqrKind), Kept(s.frames, p)) && Mixed(env.codec, x, Fed(env, s, p).0)
    ensures forall j: nat :: j < |x.parts| ==>
              Slot(env.codec, Kept(s.frames, p), j)
              == if p !in s.frames && x.parts[j] == p then Some(x.chunks[j]) else Slot(env.codec, s.frames, j)
  {
    var c := env.codec;
    var i := PartFits(c, x, p);
    FedPart(env, s, p);
    hide Fed, Sound, BbqrView;
    PlainView(c, x.h, Kept(s.frames, p));
    forall j: nat | j < |x.parts|
      ensures x.parts[j] == p <==> j == i
    {
      SoundAt(c, x, j);
    }
    if p !in s.frames {
      var after := s.frames + [p];
      assert after[..|after| - 1] == s.frames;
    }
  }

  lemma {:induction false} MixedRun(env: Env, x: File, s: Ctx, fs: seq<string>)
    requires Sound(env.codec, x) && x.h.encoding != Zlib && Mixed(env.codec, x, s) && PartsOf(x, fs)
    ensures var s' := Continue(env, s, fs);
            && Mixed(env.codec, x, s') && (forall f :: f in fs || f in s.frames ==> f in s'.frames)
            && (Owned(env.codec, x, s.frames) ==> Owned(env.codec, x, s'.frames))
            && (SameLengths(env.codec, x, s.frames) ==> SameLengths(env.codec, x, s'.frames))
            && (forall j: nat :: j < |x.parts| && x.parts[j] in s.frames ==>
                  Slot(env.codec, s'.frames, j) == Slot(env.codec, s.frames, j))
  {
    hide Fed, Sound, Mixed, Slot;
    SoundSizes(env.codec, x);
    if fs != [] {
      var front, last := fs[..|fs| - 1], fs[|fs| - 1];
      MixedRun(env, x, s, front);
      FeedMixed(env, x, Continue(env, s, front), last);
      assert fs == front + [last];
    }
  }

  /** Same lengths, same bytes in a row: the same chunks. */
  lemma {:induction false} SameChunks(a: seq<Bytes>, b: seq<Bytes>)
    requires |a| == |b| && (forall i :: 0 <= i < |a| ==> |a[i]| == |b[i]|) && Flatten(a) == Flatten(b)
    ensures a == b
  {
    if a != [] {
      var m := |a| - 1;
      var f, g := Flatten(a[..m]), Flatten(b[..m]);
      assert f + a[m] == g + b[m];
      assert f == (f + a[m])[..|f + a[m]| - |a[m]|] == g && a[m] == (f + a[m])[|f|..] == b[m];
      SameChunks(a[..m], b[..m]);
      assert a == a[..m] + [a[m]] && b == b[..m] + [b[m]];
    }
  }

  lemma PlainData(c: Codec, x: File)
    requires Sound(c, x) && x.h.encoding != Zlib
    ensures x.data == Flatten(x.chunks)
  {
    GatherChunks(x.chunks);
  }

  /** When every stored part still holds its slot, one pass shows the file, however many strays were accepted. */
  lemma OwnedCollects(env: Env, x: File, s: Ctx, fs: seq<string>)
    requires Sound(env.codec, x) && x.h.encoding != Zlib && Mixed(env.codec, x, s) && Pass(x, fs)
    requires Owned(env.codec, x, s.frames)
    ensures Showing(env, Continue(env, s, fs), x)
  {
    hide Fed, BbqrView, Slot, Flatten, Contents, Continue;
    var c, s' := env.codec, Continue(env, s, fs);
    SoundAt(c, x, 0);
    MixedRun(env, x, s, fs);
    assert forall j: nat :: j < |x.parts| ==> x.parts[j] in x.parts;
    PlainView(c, x.h, s'.frames);
    var held := seq(x.h.numParts, j requires 0 <= j < x.h.numParts => Slot(c, s'.frames, j).GetOr([]));
    assert held == x.chunks;
    PlainData(c, x);
  }

  /** Strays as long as the parts: the file can be collected exactly when every stored part still holds its slot. */
  lemma SeveralStraysIff(env: Env, x: File, s: Ctx)
    requires Sound(env.codec, x) && x.h.encoding != Zlib && Mixed(env.codec, x, s)
    requires SameLengths(env.codec, x, s.frames)
    ensures CanCollect(env, x, s) <==> Owned(env.codec, x, s.frames)
  {
    hide Fed, Sound, BbqrView, Slot, Flatten, Continue;
    SoundSizes(env.codec, x);
    if Owned(env.codec, x, s.frames) {
      OwnedCollects(env, x, s, x.parts);
    }
    if CanCollect(env, x, s) {
      var fs :| PartsOf(x, fs) && Showing(env, Continue(env, s, fs), x);
      ShowingMeansOwned(env, x, s, fs);
    }
  }

  lemma ShowingMeansOwned(env: Env, x: File, s: Ctx, fs: seq<string>)
    requires Sound(env.codec, x) && x.h.encoding != Zlib && Mixed(env.codec, x, s)
    requires SameLengths(env.codec, x, s.frames) && PartsOf(x, fs) && Showing(env, Continue(env, s, fs), x)
    ensures Owned(env.codec, x, s.frames)
  {
    hide Fed, BbqrView, Slot, Flatten, Contents, Continue;
    var c, s' := env.codec, Continue(env, s, fs);
    SoundAt(c, x, 0);
    MixedRun(env, x, s, fs);
    ShowsSomething(c, s'.frames, x);
    PlainView(c, x.h, s'.frames);
    var held := seq(x.h.numParts, j requires 0 <= j < x.h.numParts => Slot(c, s'.frames, j).GetOr([]));
    PlainData(c, x);
    SameChunks(held, x.chunks);
    assert forall j: nat :: j < x.h.numParts ==> held[j] == x.chunks[j];
  }

  lemma ShowsSomething(c: Codec, frames: seq<string>, x: File)
    requires Shows(BbqrView(c, frames), x)
    ensures frames != []
  {
  }

  // ---- parts of two files ----

  /** A part of another file is refused as such exactly when its count, type or encoding differs. */
  lemma OtherFileIff(env: Env, x: File, y: File, s: Ctx, p: string)
    requires Sound(env.codec, x) && Sound(env.codec, y)
    requires Collecting(s, x.parts) && s.frames != [] && p in y.parts
    ensures Fed(env, s, p).1 == Failure(OtherFile) <==> !SameFile(x.h, y.h)
  {
    var c := env.codec;
    var i := PartFits(c, y, p);
    FedPart(env, s, p);
    SlotOfParts(c, x, s.frames, 0);
    ScanFits(c, x.h, s.frames);
    if p in s.frames {
      OwnView(c, x, s.frames);
      var k := PartFits(c, x, p);
    } else {
      assert (s.frames + [p])[..|s.frames| + 1 - 1] == s.frames;
    }
    hide Fed, Contents, Filled, Slot;
  }

  /** The first part of one file and the second of another with the same header join into neither. */
  lemma TwoFilesMix(env: Env, x: File, y: File)
    requires Sound(env.codec, x) && Sound(env.codec, y) && SameFile(x.h, y.h)
    requires x.h.numParts == 2 && x.h.encoding != Zlib && |x.parts| == |x.chunks| == |y.parts| == |y.chunks|
    ensures var s := Continue(env, FRESH, [x.parts[0], y.parts[1]]);
            Decoded(env, s.kind, s.frames).Success? && Decoded(env, s.kind, s.frames).value.0.complete
            && Decoded(env, s.kind, s.frames).value.1 == Some(BbqrPayload(x.h.fileType, x.chunks[0] + y.chunks[1]))
  {
    hide Sound, Fed, BbqrView, Contents;
    SoundAt(env.codec, x, 0);
    SoundAt(env.codec, y, 1);
    var p, q := x.parts[0], y.parts[1];
    MixView(env.codec, x.h, p, q, x.chunks[0], y.chunks[1]);
    FedPart(env, FRESH, p);
    FedPart(env, Ctx(Some(BbqrKind), [p]), q);
    assert [p, q][..1] == [p] && [p][..0] == [] && [] + [p] == [p];
    assert Continue(env, FRESH, [p]) == Fed(env, FRESH, p).0;
    assert Continue(env, FRESH, [p, q]) == Fed(env, Ctx(Some(BbqrKind), [p]), q).0;
  }

  lemma MixView(c: Codec, h: Header, p: string, q: string, a: Bytes, b: Bytes)
    requires h.numParts == 2 && h.encoding != Zlib
    requires c.header(p) == Some(h.(index := 0)) && c.decode(p) == Some(a)
    requires c.header(q) == Some(h.(index := 1)) && c.decode(q) == Some(b)
    ensures p != q && BbqrView(c, [p]).Success? && BbqrView(c, [p] + [q]).Success?
    ensures BbqrView(c, [p] + [q]).value.0.complete
    ensures BbqrView(c, [p] + [q]).value.1 == Some(BbqrPayload(h.fileType, a + b))
  {
    hide BbqrView, Gather;
    var both := [p] + [q];
    assert both[..1] == [p] && [p][..0] == [];
    assert Slot(c, [p], 1).None? && Slot(c, both, 0) == Some(a) && Slot(c, both, 1) == Some(b);
    ViewFits(c, h, [p]);
    ViewFits(c, h, both);
    assert SlotsAfter(c, h, both) == [Some(a), Some(b)];
    TwoGathered(a, b);
  }

  lemma TwoGathered(a: Bytes, b: Bytes)
    ensures Gather([Some(a), Some(b)]) == Success(a + b)
  {
    var one: seq<Option<Bytes>>, two: seq<Option<Bytes>> := [Some(a)], [Some(a), Some(b)];
    assert two[..|two| - 1] == one && one[..|one| - 1] == [];
    assert Gather(one) == Success([] + a) && [] + a == a;
  }
}
