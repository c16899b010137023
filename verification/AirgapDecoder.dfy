/**
  Frame-at-a-time reassembly of a scanned payload (rust/src/airgap/decoder.rs). The UR codec is a parameter, as is the
  BBQr one; text is ASCII.
*/
module AirgapDecoder {
  import opened Wrappers
  import opened Radix
  import opened Text
  import opened Bbqr

  datatype Kind = Ur | BbqrKind | Raw

  datatype UrState = UrState(urType: string, fragments: nat, received: nat, done: bool, message: Bytes)

  /** `receive` is the fountain decoder after all the given frames, unless it rejects one. */
  datatype Env = Env(codec: Codec, urParses: string -> bool, receive: seq<string> -> Option<UrState>)

  datatype Payload =
    | UrPayload(urType: string, cbor: Bytes)
    | BbqrPayload(fileType: char, data: Bytes)
    | RawPayload(text: string)

  datatype Progress = Progress(
    kind: Option<Kind>, received: nat, frames: nat, expected: nat, percent: nat, complete: bool)

  datatype FeedError =
    | EmptyFrame | OtherKind | BadFrame | RawAlreadyReceived | UrRejected | OtherFile | JoinFailed(inner: Bbqr.Error)

  type View = (Progress, Option<Payload>)

  function Lower(c: char): char {
    if 'A' <= c <= 'Z' then (c as int + 32) as char else c
  }

  function ToLower(s: string): string {
    seq(|s|, i requires 0 <= i < |s| => Lower(s[i]))
  }

  function Classify(frame: string): Kind {
    var t := Trim(frame);
    if |t| >= 3 && ToLower(t[..3]) == "ur:" then Ur
    else if |t| >= 8 && StartsWith(t, "B$") then BbqrKind
    else Raw
  }

  function Pct(received: nat, expected: nat, complete: bool): (p: nat)
    ensures p <= 100
  {
    if complete then 100
    else if expected == 0 then 0
    else
      DivMod(received * 100, expected);
      Min(received * 100 / expected, 99)
  }

  // ---- decoding a list of frames ----

  /** The first header and the indices of the frames, if they belong together. */
  function Scan(c: Codec, frames: seq<string>): (r: Result<(Option<Header>, set<nat>), FeedError>)
    ensures r.Success? ==> (r.value.0.None? <==> frames == [])
  {
    if frames == [] then Success((None, {}))
    else
      var (first, seen) :- Scan(c, frames[..|frames| - 1]);
      match c.header(frames[|frames| - 1])
      case None => Failure(BadFrame)
      case Some(h) =>
        if first.Some? && !SameFile(first.value, h) then Failure(OtherFile)
        else Success((if first.Some? then first else Some(h), seen + {h.index}))
  }

  ghost function BbqrView(c: Codec, frames: seq<string>): Result<View, FeedError> {
    var (first, seen) :- Scan(c, frames);
    var expected := if first.Some? then first.value.numParts else 0;
    var complete := expected > 0 && |seen| >= expected;
    var p := Progress(Some(BbqrKind), |seen|, |frames|, expected, Pct(|seen|, expected, complete), complete);
    if !complete then Success((p, None))
    else
      match Join(c, frames)
      case Failure(e) => Failure(JoinFailed(e))
      case Success((fileType, data)) => Success((p, Some(BbqrPayload(fileType, data))))
  }

  function UrView(receive: seq<string> -> Option<UrState>, frames: seq<string>): Result<View, FeedError> {
    match receive(frames)
    case None => Failure(UrRejected)
    case Some(u) =>
      var least := if frames == [] then 0 else 1;
      var expected := if u.fragments >= least then u.fragments else least;
      var received := if u.fragments > 0 then Min(u.received, u.fragments) else |frames|;
      var p := Progress(Some(Ur), received, |frames|, expected, Pct(received, expected, u.done), u.done);
      Success((p, if u.done then Some(UrPayload(u.urType, u.message)) else None))
  }

  function RawView(frames: seq<string>): View {
    var complete := frames != [];
    var p := Progress(Some(Raw), Min(|frames|, 1), |frames|, 1, if complete then 100 else 0, complete);
    (p, if complete then Some(RawPayload(frames[0])) else None)
  }

  ghost function Decoded(env: Env, kind: Option<Kind>, frames: seq<string>): Result<View, FeedError> {
    match kind
    case None => Success((Progress(None, |frames|, |frames|, 0, 0, false), None))
    case Some(Ur) => UrView(env.receive, frames)
    case Some(BbqrKind) => BbqrView(env.codec, frames)
    case Some(Raw) => Success(RawView(frames))
  }

  // ---- feeding one frame ----

  datatype Ctx = Ctx(kind: Option<Kind>, frames: seq<string>)

  const FRESH := Ctx(None, [])

  /** Whether a frame is well-formed on its own, and for raw text the one already received. */
  function Validate(env: Env, kind: Kind, t: string, frames: seq<string>): Option<FeedError> {
    match kind
    case Ur => if env.urParses(t) then None else Some(BadFrame)
    case BbqrKind => if env.codec.header(t).Some? then None else Some(BadFrame)
    case Raw => if frames != [] && frames[0] != t then Some(RawAlreadyReceived) else None
  }

  function Normalized(kind: Kind, t: string): string {
    if kind == Ur then ToLower(t) else t
  }

  ghost function Fed(env: Env, s: Ctx, frame: string): (Ctx, Result<View, FeedError>) {
    var t := Trim(frame);
    var kind := Classify(t);
    if t == "" then (s, Failure(EmptyFrame))
    else if s.kind.Some? && s.kind.value != kind then (s, Failure(OtherKind))
    else
      var chosen := s.(kind := Some(kind));
      match Validate(env, kind, t, s.frames)
      case Some(e) => (chosen, Failure(e))
      case None =>
        var f := Normalized(kind, t);
        if f in s.frames then (chosen, Decoded(env, chosen.kind, s.frames))
        else
          match Decoded(env, chosen.kind, s.frames + [f])
          case Failure(e) => (chosen, Failure(e))
          case Success(view) => (chosen.(frames := s.frames + [f]), Success(view))
  }

  class Context {
    var kind: Option<Kind>
    var frames: seq<string>

    ghost function Abs(): Ctx
      reads this
    {
      Ctx(kind, frames)
    }

    constructor ()
      ensures Abs() == FRESH
    {
      kind, frames := None, [];
    }

    method Feed(env: Env, frame: string) returns (r: Result<View, FeedError>)
      modifies this
      ensures (Abs(), r) == Fed(env, old(Abs()), frame)
    {
      hide Classify, Trim, Validate, BbqrView;
      var t := Trim(frame);
      if t == "" {
        return Failure(EmptyFrame);
      }
      var k := Classify(t);
      if kind.None? {
        kind := Some(k);
      } else if kind.value != k {
        return Failure(OtherKind);
      }
      var bad := Validate(env, k, t, frames);
      if bad.Some? {
        return Failure(bad.value);
      }
      var f := Normalized(k, t);
      if f !in frames {
        var tried := DecodeInner(env, [f]);
        if tried.Failure? {
          return Failure(tried.error);
        }
        frames := frames + [f];
      }
      assert frames + [] == frames;
      r := DecodeInner(env, []);
    }

    /** Decodes the stored frames and `extra`, without storing it. */
    method DecodeInner(env: Env, extra: seq<string>) returns (r: Result<View, FeedError>)
      ensures r == Decoded(env, kind, frames + extra)
    {
      var all := frames + extra;
      match kind
      case None =>
        return Success((Progress(None, |all|, |all|, 0, 0, false), None));
      case Some(Ur) =>
        return UrView(env.receive, all);
      case Some(BbqrKind) =>
        r := DecodeBbqr(env.codec, all);
      case Some(Raw) =>
        return Success(RawView(all));
    }
  }

  method DecodeBbqr(c: Codec, frames: seq<string>) returns (r: Result<View, FeedError>)
    ensures r == BbqrView(c, frames)
  {
    var first: Option<Header>, seen: set<nat> := None, {};
    for k := 0 to |frames|
      invariant Scan(c, frames[..k]) == Success((first, seen))
    {
      assert frames[..k + 1][..k] == frames[..k];
      var h := c.header(frames[k]);
      if h.None? {
        FailedScan(c, frames, k + 1);
        return Failure(BadFrame);
      }
      if first.None? {
        first := h;
      } else if !SameFile(first.value, h.value) {
        FailedScan(c, frames, k + 1);
        return Failure(OtherFile);
      }
      seen := seen + {h.value.index};
    }
    assert frames[..|frames|] == frames;
    hide Scan, Pct;
    var expected := if first.Some? then first.value.numParts else 0;
    var complete := expected > 0 && |seen| >= expected;
    var p := Progress(Some(BbqrKind), |seen|, |frames|, expected, Pct(|seen|, expected, complete), complete);
    if !complete {
      return Success((p, None));
    }
    var joined := BbqrJoin(c, frames);
    if joined.Failure? {
      return Failure(JoinFailed(joined.error));
    }
    return Success((p, Some(BbqrPayload(joined.value.0, joined.value.1))));
  }

  lemma {:induction false} FailedScan(c: Codec, frames: seq<string>, k: nat)
    requires k <= |frames| && Scan(c, frames[..k]).Failure?
    ensures Scan(c, frames) == Scan(c, frames[..k])
  {
    if k < |frames| {
      assert frames[..|frames| - 1][..k] == frames[..k];
      FailedScan(c, frames[..|frames| - 1], k);
    } else {
      assert frames[..k] == frames;
    }
  }

  // ---- runs ----

  /** The context after a run of feeds, rejected ones included. */
  ghost function Run(env: Env, fs: seq<string>): Ctx {
    if fs == [] then FRESH else Fed(env, Run(env, fs[..|fs| - 1]), fs[|fs| - 1]).0
  }

  /** The first error of a run, if any. */
  ghost function RunError(env: Env, fs: seq<string>): Option<FeedError> {
    if fs == [] then None
    else if RunError(env, fs[..|fs| - 1]).Some? then RunError(env, fs[..|fs| - 1])
    else
      match Fed(env, Run(env, fs[..|fs| - 1]), fs[|fs| - 1]).1
      case Failure(e) => Some(e)
      case Success(_) => None
  }

  method DecodeAll(env: Env, fs: seq<string>) returns (r: Result<View, FeedError>)
    ensures r == if RunError(env, fs).Some? then Failure(RunError(env, fs).value)
                 else Decoded(env, Run(env, fs).kind, Run(env, fs).frames)
  {
    var ctx := new Context();
    for k := 0 to |fs|
      invariant fresh(ctx) && ctx.Abs() == Run(env, fs[..k]) && RunError(env, fs[..k]).None?
    {
      assert fs[..k + 1][..k] == fs[..k];
      hide Fed;
      var fed := ctx.Feed(env, fs[k]);
      if fed.Failure? {
        FirstError(env, fs, k + 1);
        return Failure(fed.error);
      }
    }
    assert fs[..|fs|] == fs;
    r := ctx.DecodeInner(env, []);
    assert ctx.frames + [] == ctx.frames;
  }

  lemma {:induction false} FirstError(env: Env, fs: seq<string>, k: nat)
    requires k <= |fs| && RunError(env, fs[..k]).Some?
    ensures RunError(env, fs) == RunError(env, fs[..k])
  {
    if k < |fs| {
      assert fs[..|fs| - 1][..k] == fs[..k];
      FirstError(env, fs[..|fs| - 1], k);
    } else {
      assert fs[..k] == fs;
    }
  }

  // ---- what every feed keeps ----

  ghost predicate Distinct(frames: seq<string>) {
    forall i, j :: 0 <= i < j < |frames| ==> frames[i] != frames[j]
  }

  /** The empty list of frames must be acceptable to the UR decoder: it has rejected nothing. */
  ghost predicate UrLaws(env: Env) {
    env.receive([]).Some?
  }

  ghost predicate Good(env: Env, s: Ctx) {
    && Distinct(s.frames)
    && (s.kind.None? ==> s.frames == [])
    && Decoded(env, s.kind, s.frames).Success?
  }

  lemma NoFrames(env: Env, kind: Option<Kind>)
    requires UrLaws(env)
    ensures Decoded(env, kind, []).Success?
  {
  }

  /**
    Whatever the frame: a rejected one leaves the stored frames alone, an accepted one is stored last unless it already
    was there, frames stay distinct and the stored frames can always be decoded.
  */
  lemma FeedKeeps(env: Env, s: Ctx, frame: string)
    requires UrLaws(env) && Good(env, s)
    ensures var (after, r) := Fed(env, s, frame);
            && Good(env, after)
            && (r.Failure? ==> after.frames == s.frames)
            && (r.Success? ==>
                  var f := Normalized(Classify(Trim(frame)), Trim(frame));
                  && after.frames == (if f in s.frames then s.frames else s.frames + [f])
                  && after.kind == Some(Classify(Trim(frame))))
            && (s.kind.Some? ==> after.kind == s.kind)
            && (r.Success? ==> r == Decoded(env, after.kind, after.frames))
  {
    hide Classify, Trim, Validate, BbqrView, Normalized, UrView, ToLower;
    TrimmedClass(frame);
    if s.kind.None? {
      NoFrames(env, Some(Classify(Trim(frame))));
    }
  }

  lemma TrimmedClass(frame: string)
    ensures Trim(Trim(frame)) == Trim(frame) && Classify(Trim(frame)) == Classify(frame)
  {
    TrimTwice(frame);
  }

  lemma {:induction false} RunsKeep(env: Env, fs: seq<string>)
    requires UrLaws(env)
    ensures Good(env, Run(env, fs))
  {
    hide Good, UrLaws, Fed;
    if fs == [] {
      FreshIsGood(env);
    } else {
      RunsKeep(env, fs[..|fs| - 1]);
      FeedKeeps(env, Run(env, fs[..|fs| - 1]), fs[|fs| - 1]);
    }
  }

  lemma FreshIsGood(env: Env)
    ensures Good(env, FRESH)
  {
  }

  // ---- a rejected first frame still fixes the kind ----

  /**
    After a rejected first frame, a frame a new context would accept is accepted exactly when it has the rejected
    frame's kind. What an accepted stray does is the subject of `StrayFrames`.
  */
  lemma StrayFramePoisonsIff(env: Env, stray: string, frame: string)
    requires UrLaws(env)
    requires Trim(stray) != "" && Fed(env, FRESH, stray).1.Failure? && Fed(env, FRESH, frame).1.Success?
    ensures Fed(env, Fed(env, FRESH, stray).0, frame).1.Success? <==> Classify(stray) == Classify(frame)
  {
    hide Classify, Trim, Validate, BbqrView, Normalized, UrView, ToLower;
    TrimmedClass(stray);
    TrimmedClass(frame);
  }

  /** A code with a damaged BBQr header, then a good extended public key: the key is refused. */
  lemma StrayFramePoisons(env: Env)
    requires env.codec.header("B$??????").None?
    ensures Fed(env, FRESH, "xpub").1.Success?
    ensures Fed(env, FRESH, "B$??????").1 == Failure(BadFrame)
    ensures Fed(env, Fed(env, FRESH, "B$??????").0, "xpub").1 == Failure(OtherKind)
  {
    TrimKeeps("xpub");
    TrimKeeps("B$??????");
    var t := "B$??????";
    assert t[..2] == "B$";
    assert ToLower(t[..3])[0] == 'b';
    assert Classify("B$??????") == BbqrKind;
    assert Classify("xpub") == Raw by {
      var x := "xpub";
      assert ToLower(x[..3])[0] == 'x';
    }
  }

  // ---- progress never goes back ----

  lemma {:induction false} SubsetSize(a: set<nat>, b: set<nat>)
    requires a <= b
    ensures |a| <= |b| && (|a| == |b| ==> a == b)
  {
    if a != {} {
      var x :| x in a;
      SubsetSize(a - {x}, b - {x});
      assert a == (a - {x}) + {x} && b == (b - {x}) + {x};
    } else if b != {} {
      assert |b| > 0;
    }
  }

  lemma PctGrows(received: nat, more: nat, expected: nat, complete: bool, done: bool)
    requires received <= more && (complete ==> done)
    ensures Pct(received, expected, complete) <= Pct(more, expected, done)
  {
    if expected > 0 && !done {
      var n, m := received * 100, more * 100;
      DivMod(n, expected);
      DivMod(m, expected);
      Distribute(m / expected, n / expected, expected);
      Distribute(n / expected, m / expected, expected);
      if n / expected > m / expected {
        TimesAtLeast(n / expected - m / expected, expected);
      }
    }
  }

  /** One more BBqr frame: the same file, and at least the parts seen before. */
  lemma BbqrGrows(c: Codec, frames: seq<string>, f: string)
    requires BbqrView(c, frames).Success? && BbqrView(c, frames + [f]).Success?
    ensures var was, now := BbqrView(c, frames).value.0, BbqrView(c, frames + [f]).value.0;
            && was.received <= now.received && was.percent <= now.percent && (was.complete ==> now.complete)
            && (frames != [] ==> now.expected == was.expected)
  {
    assert (frames + [f])[..|frames|] == frames;
    var (first, seen) := Scan(c, frames).value;
    var (first', seen') := Scan(c, frames + [f]).value;
    SubsetSize(seen, seen');
    if frames != [] {
      var expected := first.value.numParts;
      PctGrows(|seen|, |seen'|, expected, expected > 0 && |seen| >= expected, expected > 0 && |seen'| >= expected);
    }
  }

  /** Whatever BBqr or raw frame is accepted, received and percent never fall and complete is never taken back. */
  lemma PercentNeverLowers(env: Env, s: Ctx, frame: string)
    requires UrLaws(env) && Good(env, s) && s.kind != Some(Ur)
    requires Fed(env, s, frame).1.Success? && Fed(env, s, frame).0.kind != Some(Ur)
    ensures var was, now := Decoded(env, s.kind, s.frames).value.0, Fed(env, s, frame).1.value.0;
            was.received <= now.received && was.percent <= now.percent && (was.complete ==> now.complete)
  {
    FeedKeeps(env, s, frame);
    var f := Normalized(Classify(Trim(frame)), Trim(frame));
    hide Fed, Classify, Trim, Normalized, UrView, BbqrView;
    if s.kind == Some(BbqrKind) && f !in s.frames {
      BbqrGrows(env.codec, s.frames, f);
    }
  }

  // ---- one file's frames ----

  /** A part is recognisable: it starts with its marker and has no space around it. */
  ghost predicate Marked(c: Codec) {
    forall h: Header, b: Bytes :: Encodable(h) && c.encode(h, b).Some? ==>
      StartsWith(c.encode(h, b).value, "B$") && Trim(c.encode(h, b).value) == c.encode(h, b).value
  }

  lemma PartIsBbqr(c: Codec, h: Header, body: Bytes, n: nat, i: nat)
    requires Laws(c) && Marked(c) && Common(h) && i < h.numParts
    ensures Trim(PartAt(c, h, body, n, i)) == PartAt(c, h, body, n, i)
    ensures Classify(PartAt(c, h, body, n, i)) == BbqrKind
    ensures PartAt(c, h, body, n, i) != ""
  {
    PartLaws(c, h.(index := i), Chunk(body, n, i));
    hide Laws;
    var t := PartAt(c, h, body, n, i);
    assert StartsWith(t, "B$") && Trim(t) == t;
    assert t[0] == t[..2][0] == 'B';
    assert ToLower(t[..3])[0] == 'b';
  }

  ghost function SeenOf(c: Codec, h: Header, body: Bytes, n: nat, frames: seq<string>): set<nat> {
    set i: nat | i < h.numParts && PartAt(c, h, body, n, i) in frames
  }

  lemma WhichPart(c: Codec, h: Header, body: Bytes, n: nat, frames: seq<string>) returns (i: nat)
    requires PartsOnly(c, h, body, n, frames) && Distinct(frames) && frames != []
    ensures i < h.numParts && frames[|frames| - 1] == PartAt(c, h, body, n, i)
    ensures PartsOnly(c, h, body, n, frames[..|frames| - 1]) && Distinct(frames[..|frames| - 1])
    ensures frames[|frames| - 1] !in frames[..|frames| - 1]
  {
    hide PartAt;
    assert frames[|frames| - 1] in frames && IsPart(c, h, body, n, frames[|frames| - 1]);
    i :| i < h.numParts && frames[|frames| - 1] == PartAt(c, h, body, n, i);
  }

  lemma ScanLast(c: Codec, frames: seq<string>, h: Header, i: nat)
    requires frames != [] && c.header(frames[|frames| - 1]) == Some(h.(index := i))
    requires var front := Scan(c, frames[..|frames| - 1]);
             front.Success? && (front.value.0.Some? ==> SameFile(front.value.0.value, h))
    ensures Scan(c, frames).Success? && Scan(c, frames).value.1 == Scan(c, frames[..|frames| - 1]).value.1 + {i}
    ensures SameFile(Scan(c, frames).value.0.value, h)
  {
  }

  lemma {:induction false} ScanIs(c: Codec, h: Header, body: Bytes, n: nat, frames: seq<string>)
    requires Laws(c) && Common(h) && PartsOnly(c, h, body, n, frames) && Distinct(frames)
    ensures Scan(c, frames).Success?
    ensures Scan(c, frames).value.1 == SeenOf(c, h, body, n, frames) && |SeenOf(c, h, body, n, frames)| == |frames|
    ensures frames != [] ==> SameFile(Scan(c, frames).value.0.value, h)
  {
    if frames == [] {
      assert SeenOf(c, h, body, n, frames) == {};
    } else {
      var front, last := frames[..|frames| - 1], frames[|frames| - 1];
      var i := WhichPart(c, h, body, n, frames);
      ScanIs(c, h, body, n, front);
      PartReadsBack(c, h, body, n, i);
      ScanLast(c, frames, h, i);
      hide *;
      assert frames == front + [last];
      SeenGrows(c, h, body, n, front, last, i);
    }
  }

  lemma SeenGrows(c: Codec, h: Header, body: Bytes, n: nat, front: seq<string>, last: string, i: nat)
    requires Laws(c) && Common(h) && i < h.numParts && last == PartAt(c, h, body, n, i) && last !in front
    ensures SeenOf(c, h, body, n, front + [last]) == SeenOf(c, h, body, n, front) + {i}
    ensures i !in SeenOf(c, h, body, n, front)
  {
    hide Laws, PartAt;
    forall j: nat | j < h.numParts
      ensures PartAt(c, h, body, n, j) in front + [last] <==> PartAt(c, h, body, n, j) in front || j == i
    {
      SamePart(c, h, body, n, i, j);
    }
  }

  lemma {:induction false} Upto(n: nat) returns (all: set<nat>)
    ensures |all| == n && forall i: nat :: i in all <==> i < n
  {
    if n == 0 {
      all := {};
    } else {
      var fewer := Upto(n - 1);
      all := fewer + {n - 1};
    }
  }

  /** As many parts as the header promises means every part. */
  lemma AllSeenIff(c: Codec, h: Header, body: Bytes, n: nat, frames: seq<string>)
    ensures |SeenOf(c, h, body, n, frames)| <= h.numParts
    ensures |SeenOf(c, h, body, n, frames)| >= h.numParts
       <==> forall i: nat :: i < h.numParts ==> PartAt(c, h, body, n, i) in frames
  {
    hide PartAt;
    var all := Upto(h.numParts);
    var seen := SeenOf(c, h, body, n, frames);
    SubsetSize(seen, all);
    if |seen| >= h.numParts {
      forall i: nat | i < h.numParts
        ensures PartAt(c, h, body, n, i) in frames
      {
        assert i in all && i in seen;
      }
    } else if forall i: nat :: i < h.numParts ==> PartAt(c, h, body, n, i) in frames {
      assert all <= seen;
      SubsetSize(all, seen);
      assert false;
    }
  }

  ghost predicate Whole(parts: seq<string>, frames: seq<string>) {
    forall p :: p in parts ==> p in frames
  }

  /** What the context shows for a set of one file's parts. */
  ghost function FileView(parts: seq<string>, fileType: char, data: Bytes, frames: seq<string>): View {
    var whole := Whole(parts, frames);
    (Progress(Some(BbqrKind), |frames|, |frames|, |parts|, Pct(|frames|, |parts|, whole), whole),
     if whole then Some(BbqrPayload(fileType, data)) else None)
  }

  lemma ViewOfFile(
      c: Codec, data: Bytes, fileType: char, maxPartLen: Option<nat>, compress: bool, frames: seq<string>)
    requires Laws(c) && Parts(c, data, fileType, maxPartLen, compress).Success?
    requires frames != [] && Distinct(frames)
    requires forall f :: f in frames ==> f in Parts(c, data, fileType, maxPartLen, compress).value
    ensures var parts := Parts(c, data, fileType, maxPartLen, compress).value;
            BbqrView(c, frames)
            == if Whole(parts, frames) && !Restores(c, data, compress) then Failure(JoinFailed(InflateFailed))
               else Success(FileView(parts, fileType, data, frames))
  {
    var parts := Parts(c, data, fileType, maxPartLen, compress).value;
    hide Laws, Parts, PartAt, Scan, Join, Restores, Pct, PartsOnly;
    var h, body, n := CutParts(c, data, fileType, maxPartLen, compress);
    ScannedParts(c, h, body, n, parts, frames);
    ScanIs(c, h, body, n, frames);
    AllSeenIff(c, h, body, n, frames);
    assert h.numParts > 0;
    if Whole(parts, frames) {
      assert forall i: nat :: i < h.numParts ==> parts[i] in parts;
      JoinOfParts(c, data, fileType, maxPartLen, compress, frames);
    } else {
      var p :| p in parts && p !in frames;
      var i: nat :| i < |parts| && parts[i] == p;
      assert PartAt(c, h, body, n, i) !in frames;
    }
  }

  /** Where a context stands while it collects one file. */
  ghost predicate Collecting(s: Ctx, parts: seq<string>) {
    && (s.kind == Some(BbqrKind) || s == FRESH)
    && Distinct(s.frames)
    && forall f :: f in s.frames ==> f in parts
  }

  function Kept(frames: seq<string>, f: string): seq<string> {
    if f in frames then frames else frames + [f]
  }

  lemma KeptCollects(s: Ctx, p: string, parts: seq<string>)
    requires Collecting(s, parts) && p in parts
    ensures var frames := Kept(s.frames, p);
            && frames != [] && Distinct(frames) && (forall f :: f in frames ==> f in parts)
            && Collecting(Ctx(Some(BbqrKind), frames), parts)
    ensures Collecting(Ctx(Some(BbqrKind), s.frames), parts) && (s.kind == Some(BbqrKind) || s == FRESH)
  {
  }

  /** A well-formed BBqr frame is stored exactly when the frames then decode. */
  lemma FedPart(env: Env, s: Ctx, p: string)
    requires Trim(p) == p != "" && Classify(p) == BbqrKind && env.codec.header(p).Some?
    requires s.kind == Some(BbqrKind) || s == FRESH
    ensures Fed(env, s, p)
         == match BbqrView(env.codec, Kept(s.frames, p))
            case Failure(e) => (Ctx(Some(BbqrKind), s.frames), Failure(e))
            case Success(view) => (Ctx(Some(BbqrKind), Kept(s.frames, p)), Success(view))
  {
    hide Classify, Trim, BbqrView;
  }

  /** Feeding a part: stored unless already there, refused only when it completes a file too long to inflate. */
  lemma FeedPart(
      env: Env, data: Bytes, fileType: char, maxPartLen: Option<nat>, compress: bool, s: Ctx, p: string)
    requires Laws(env.codec) && Marked(env.codec) && Parts(env.codec, data, fileType, maxPartLen, compress).Success?
    requires var parts := Parts(env.codec, data, fileType, maxPartLen, compress).value;
             && p in parts && Collecting(s, parts)
             && (Whole(parts, s.frames) ==> Restores(env.codec, data, compress))
    ensures var parts := Parts(env.codec, data, fileType, maxPartLen, compress).value;
            var frames := Kept(s.frames, p);
            var refused := Whole(parts, frames) && !Restores(env.codec, data, compress);
            && Collecting(Fed(env, s, p).0, parts)
            && Fed(env, s, p)
            == if refused then (Ctx(Some(BbqrKind), s.frames), Failure(JoinFailed(InflateFailed)))
               else (Ctx(Some(BbqrKind), frames), Success(FileView(parts, fileType, data, frames)))
  {
    var parts := Parts(env.codec, data, fileType, maxPartLen, compress).value;
    hide Laws, Marked, Parts, PartAt, Classify, Trim, BbqrView, Restores, Pct, Fed;
    var h, body, n := CutParts(env.codec, data, fileType, maxPartLen, compress);
    var i: nat :| i < |parts| && parts[i] == p;
    PartIsBbqr(env.codec, h, body, n, i);
    PartReadsBack(env.codec, h, body, n, i);
    FedPart(env, s, p);
    KeptCollects(s, p, parts);
    hide FileView, Whole, Collecting, Distinct, Kept;
    ViewOfFile(env.codec, data, fileType, maxPartLen, compress, Kept(s.frames, p));
  }

  lemma KeptMembers(frames: seq<string>, fs: seq<string>)
    requires fs != [] && forall f :: f in frames <==> f in fs[..|fs| - 1]
    ensures forall f :: f in Kept(frames, fs[|fs| - 1]) <==> f in fs
  {
    assert fs == fs[..|fs| - 1] + [fs[|fs| - 1]];
  }

  /**
    Feeding frames of one file in any order with any repeats: each is accepted, they are stored once each, the count is
    the number of distinct ones, and the payload appears exactly when every part has been seen.
  */
  lemma {:induction false} CollectsFile(
      env: Env, data: Bytes, fileType: char, maxPartLen: Option<nat>, compress: bool, fs: seq<string>)
    requires Laws(env.codec) && Marked(env.codec) && Parts(env.codec, data, fileType, maxPartLen, compress).Success?
    requires Restores(env.codec, data, compress)
    requires forall f :: f in fs ==> f in Parts(env.codec, data, fileType, maxPartLen, compress).value
    ensures var parts := Parts(env.codec, data, fileType, maxPartLen, compress).value;
            var s := Run(env, fs);
            && RunError(env, fs).None?
            && Collecting(s, parts)
            && (forall f :: f in s.frames <==> f in fs)
            && (fs != [] ==> Decoded(env, s.kind, s.frames) == Success(FileView(parts, fileType, data, s.frames)))
  {
    if fs != [] {
      var front, last := fs[..|fs| - 1], fs[|fs| - 1];
      CollectsFile(env, data, fileType, maxPartLen, compress, front);
      var s := Run(env, front);
      hide Laws, Marked, Parts, Fed, Restores, FileView, Decoded, BbqrView, Collecting, Kept;
      FeedPart(env, data, fileType, maxPartLen, compress, s, last);
      KeptMembers(s.frames, fs);
      ShownIsDecoded(env, s, last);
    }
  }

  /** An accepted frame shows what the stored frames decode to. */
  lemma ShownIsDecoded(env: Env, s: Ctx, frame: string)
    requires Fed(env, s, frame).1.Success?
    ensures Fed(env, s, frame).1 == Decoded(env, Fed(env, s, frame).0.kind, Fed(env, s, frame).0.frames)
  {
    hide Classify, Trim, Validate, BbqrView, Normalized, UrView;
  }

  /** A deflated file longer than the inflate cap never completes: some part is always missing. */
  lemma {:induction false} TooLongNeverCompletes(
      env: Env, data: Bytes, fileType: char, maxPartLen: Option<nat>, compress: bool, fs: seq<string>)
    requires Laws(env.codec) && Marked(env.codec) && Parts(env.codec, data, fileType, maxPartLen, compress).Success?
    requires !Restores(env.codec, data, compress)
    requires forall f :: f in fs ==> f in Parts(env.codec, data, fileType, maxPartLen, compress).value
    ensures var parts := Parts(env.codec, data, fileType, maxPartLen, compress).value;
            Collecting(Run(env, fs), parts) && !Whole(parts, Run(env, fs).frames)
  {
    var parts := Parts(env.codec, data, fileType, maxPartLen, compress).value;
    if fs == [] {
      hide Parts;
      var h, body, n := CutParts(env.codec, data, fileType, maxPartLen, compress);
      assert parts[0] in parts;
    } else {
      var front, last := fs[..|fs| - 1], fs[|fs| - 1];
      TooLongNeverCompletes(env, data, fileType, maxPartLen, compress, front);
      hide Laws, Marked, Parts, Fed, Restores, FileView, Decoded, BbqrView;
      FeedPart(env, data, fileType, maxPartLen, compress, Run(env, front), last);
    }
  }

  // ---- what progress and classification mean ----

  /** Complete is 100; anything else is the hundredths received, rounded down, and never 100. */
  lemma PercentMeans(received: nat, expected: nat, complete: bool)
    ensures var p := Pct(received, expected, complete);
            && (p == 100 <==> complete)
            && (!complete && expected == 0 ==> p == 0)
            && (!complete && 0 < expected && received < expected ==>
                  p * expected <= 100 * received < (p + 1) * expected)
            && (!complete && 0 < expected <= received ==> p == 99)
  {
    if !complete && expected > 0 {
      DivMod(received * 100, expected);
      var p := received * 100 / expected;
      if received < expected {
        TimesAbove(p, expected, received);
      } else {
        TimesBelow(p, expected, received);
      }
    }
  }

  lemma TimesAbove(p: nat, expected: nat, received: nat)
    requires received < expected && p * expected <= 100 * received
    ensures p < 100
  {
    if p >= 100 {
      TimesMonotone(100, p, expected);
    }
  }

  lemma TimesBelow(p: nat, expected: nat, received: nat)
    requires 0 < expected <= received && 100 * received < p * expected + expected
    ensures p >= 100
  {
    if p < 100 {
      TimesMonotone(p, 99, expected);
    }
  }

  /** Two upper- or lower-case letters and a colon, a marker with room for a header, or neither. */
  lemma ClassifyMeans(frame: string)
    ensures var t := Trim(frame);
            var ur := |t| >= 3 && (t[0] == 'u' || t[0] == 'U') && (t[1] == 'r' || t[1] == 'R') && t[2] == ':';
            Classify(frame)
            == if ur then Ur else if |t| >= 8 && t[0] == 'B' && t[1] == '$' then BbqrKind else Raw
  {
    var t := Trim(frame);
    if |t| >= 3 {
      var front := ToLower(t[..3]);
      assert front == "ur:" <==> front[0] == 'u' && front[1] == 'r' && front[2] == ':';
      assert t[..3][0] == t[0] && t[..3][1] == t[1] && t[..3][2] == t[2];
    }
    if |t| >= 8 {
      assert t[..2] == "B$" <==> t[..2][0] == 'B' && t[..2][1] == '$';
    }
  }

  // ---- raw texts and URs ----

  /** A raw text is shown at once, without the space around it; again it changes nothing, and any other is refused. */
  lemma RawShowsAtOnce(env: Env, text: string, other: string)
    requires Classify(text) == Raw && Classify(other) == Raw && Trim(text) != "" && Trim(other) != ""
    ensures var (s, r) := Fed(env, FRESH, text);
            && s == Ctx(Some(Raw), [Trim(text)])
            && r == Success((Progress(Some(Raw), 1, 1, 1, 100, true), Some(RawPayload(Trim(text)))))
            && Fed(env, s, text) == (s, r)
            && (Trim(other) != Trim(text) ==> Fed(env, s, other) == (s, Failure(RawAlreadyReceived)))
  {
    TrimmedClass(text);
    TrimmedClass(other);
    hide Trim, Classify;
    assert [] + [Trim(text)] == [Trim(text)];
  }

  /** A part of a multi-part UR counts as what the fountain decoder recovered, capped; a single part is one of one. */
  lemma UrProgressMeans(env: Env, frames: seq<string>)
    requires frames != [] && env.receive(frames).Some?
    ensures var u, view := env.receive(frames).value, UrView(env.receive, frames);
            && view.Success? && view.value.0.complete == u.done && view.value.0.frames == |frames|
            && (u.fragments == 0 ==> view.value.0.expected == 1 && view.value.0.received == |frames|)
            && (u.fragments > 0 ==>
                  && view.value.0.expected == u.fragments && view.value.0.received <= u.fragments
                  && view.value.0.received <= u.received
                  && (view.value.0.received == u.received || view.value.0.received == u.fragments))
            && view.value.1 == if u.done then Some(UrPayload(u.urType, u.message)) else None
  {
    hide Pct;
  }

  /** The case of a UR frame does not matter: one that differs from a stored one in nothing else is a duplicate. */
  lemma SameUrTwice(env: Env, s: Ctx, frame: string, again: string)
    requires UrLaws(env) && Good(env, s) && s.kind == Some(Ur)
    requires Classify(frame) == Ur && Classify(again) == Ur && Trim(frame) != "" && Trim(again) != ""
    requires Fed(env, s, frame).1.Success? && ToLower(Trim(again)) == ToLower(Trim(frame)) && env.urParses(Trim(again))
    ensures Fed(env, Fed(env, s, frame).0, again) == Fed(env, s, frame)
  {
    TrimmedClass(frame);
    TrimmedClass(again);
    hide Trim, Classify, ToLower, UrView;
  }

  // ---- why a frame is refused ----

  /** An empty frame, then one of another kind, then one that is malformed or another raw text. */
  lemma FrameRefused(env: Env, s: Ctx, frame: string)
    ensures var t, r := Trim(frame), Fed(env, s, frame).1;
            var kind := Classify(frame);
            var other := s.kind.Some? && s.kind.value != kind;
            && (t == "" ==> r == Failure(EmptyFrame))
            && (t != "" && other ==> r == Failure(OtherKind))
            && (t != "" && !other && kind == Ur && !env.urParses(t) ==> r == Failure(BadFrame))
            && (t != "" && !other && kind == BbqrKind && env.codec.header(t).None? ==> r == Failure(BadFrame))
            && (t != "" && !other && kind == Raw && s.frames != [] && s.frames[0] != t ==>
                  r == Failure(RawAlreadyReceived))
  {
    TrimmedClass(frame);
    hide Trim, Classify, Decoded, ToLower;
  }
}
