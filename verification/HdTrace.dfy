/**
  Derivation written out: the keys, chain codes and MAC halves met along a path, with no reference to the functions
  that compute them (rust/src/hdderive.rs). Each derivation succeeds exactly when such a trace exists, and returns its
  end; the tweak is the plain sum of the left halves.
*/
module HdTrace {
  import opened Wrappers
  import opened Radix
  import opened HdDerive

  /** A path index as four bytes, the most significant first. */
  function BigEndian(index: Index): Bytes {
    [index / 0x100_0000, index / 0x1_0000 % 256, index / 0x100 % 256, index % 256]
  }

  lemma Ser32Is(index: Index)
    ensures Ser32(index) == BigEndian(index)
  {
    assert index / 256 / 256 == index / 0x1_0000 && index / 256 / 256 / 256 == index / 0x100_0000;
    assert Fixed(index, 256, 0) == [];
    FourDigits(index);
  }

  lemma FourDigits(n: nat)
    requires n < 0x1_0000_0000
    ensures Fixed(n, 256, 4) == [n / 256 / 256 / 256, n / 256 / 256 % 256, n / 256 % 256, n % 256]
  {
    assert Fixed(n / 256 / 256 / 256, 256, 1) == [n / 256 / 256 / 256];
    assert Fixed(n / 256 / 256, 256, 2) == [n / 256 / 256 / 256, n / 256 / 256 % 256];
    assert Fixed(n / 256, 256, 3) == [n / 256 / 256 / 256, n / 256 / 256 % 256, n / 256 % 256];
  }

  /** The sum of the numbers the words write. */
  function SumOf(words: seq<Word>): nat {
    if words == [] then 0 else SumOf(words[..|words| - 1]) + Value(words[|words| - 1], 256)
  }

  lemma SumOfNone()
    ensures SumOf([]) == 0
  {
  }

  lemma SumGrows(words: seq<Word>, w: Word)
    ensures SumOf(words + [w]) == SumOf(words) + Value(w, 256)
  {
    assert (words + [w])[..|words|] == words;
  }

  /** Adding modulo `n` step by step or once at the end. */
  lemma SumStep(a: nat, b: nat, n: nat)
    requires n > 0
    ensures AddMod(a % n, b, n) == (a + b) % n
  {
    DivMod(a, n);
    SameResidue(a + b, a % n + b, a / n, n);
  }

  // ---- public derivation ----

  /** The nodes along a path and the left halves that lead from each to the next. */
  datatype PubTrace = PubTrace(pubs: seq<Bytes>, codes: seq<Word>, lefts: seq<Word>)

  /** What stops a public step, in the order it is looked for. */
  ghost function PubStop<P>(c: Curve<P>, hmac: Mac, pub: Bytes, code: Word, index: Index): Option<DeriveError> {
    var left := Value(hmac(code, pub + BigEndian(index)).0, 256);
    if index >= HARDENED then Some(HardenedIndex)
    else if left >= c.order then Some(TweakTooLarge)
    else if c.decode(pub).None? then Some(BadParent)
    else if c.add(c.times(left), c.decode(pub).value) == c.identity then Some(ChildIdentity)
    else None
  }

  /** One step: the left half of the MAC moves the point, the right half is the next chain code. */
  ghost predicate PubLink<P>(
      c: Curve<P>, hmac: Mac, pub: Bytes, code: Word, index: Index, left: Word, childPub: Bytes, childCode: Word)
  {
    && PubStop(c, hmac, pub, code, index).None?
    && left == hmac(code, pub + BigEndian(index)).0 && childCode == hmac(code, pub + BigEndian(index)).1
    && childPub == c.encode(c.add(c.times(Value(left, 256)), c.decode(pub).value))
  }

  ghost predicate PubTraced<P>(c: Curve<P>, hmac: Mac, parent: Bytes, code: Word, path: seq<Index>, t: PubTrace) {
    && |t.pubs| == |t.codes| == |path| + 1 && |t.lefts| == |path|
    && t.pubs[0] == parent && t.codes[0] == code
    && forall i :: 0 <= i < |path| ==>
         PubLink(c, hmac, t.pubs[i], t.codes[i], path[i], t.lefts[i], t.pubs[i + 1], t.codes[i + 1])
  }

  lemma PubStepIs<P>(c: Curve<P>, hmac: Mac, pub: Bytes, code: Word, index: Index)
    ensures CkdPub(c, hmac, pub, code, index)
         == if PubStop(c, hmac, pub, code, index).Some? then Failure(PubStop(c, hmac, pub, code, index).value)
            else
              var mac := hmac(code, pub + BigEndian(index));
              Success((c.encode(c.add(c.times(Value(mac.0, 256)), c.decode(pub).value)), mac.1, mac.0))
  {
    Ser32Is(index);
    hide Value, Ser32;
  }

  /** A walk that succeeds leaves a trace, and ends where the trace ends. */
  lemma {:induction false} PubWalkTraces<P>(c: Curve<P>, hmac: Mac, parent: Bytes, code: Word, path: seq<Index>)
    returns (t: PubTrace)
    requires c.order > 0 && PubWalk(c, hmac, PubNode(parent, code, 0), path).Success?
    ensures PubTraced(c, hmac, parent, code, path, t)
    ensures PubWalk(c, hmac, PubNode(parent, code, 0), path)
         == Success(PubNode(t.pubs[|path|], t.codes[|path|], SumOf(t.lefts) % c.order))
  {
    hide CkdPub, PubStop, Value, AddMod, SumOf;
    SumOfNone();
    if path == [] {
      t := PubTrace([parent], [code], []);
    } else {
      var front, index := path[..|path| - 1], path[|path| - 1];
      var u := PubWalkTraces(c, hmac, parent, code, front);
      var pub, cc := u.pubs[|front|], u.codes[|front|];
      PubStepIs(c, hmac, pub, cc, index);
      var (childPub, childCode, left) := CkdPub(c, hmac, pub, cc, index).value;
      t := PubTrace(u.pubs + [childPub], u.codes + [childCode], u.lefts + [left]);
      SumGrows(u.lefts, left);
      SumStep(SumOf(u.lefts), Value(left, 256), c.order);
    }
  }

  /** A trace is a walk that succeeds. */
  lemma {:induction false} TracedPubWalk<P>(
      c: Curve<P>, hmac: Mac, parent: Bytes, code: Word, path: seq<Index>, t: PubTrace)
    requires c.order > 0 && PubTraced(c, hmac, parent, code, path, t)
    ensures PubWalk(c, hmac, PubNode(parent, code, 0), path)
         == Success(PubNode(t.pubs[|path|], t.codes[|path|], SumOf(t.lefts) % c.order))
  {
    hide CkdPub, PubStop, Value, AddMod;
    if path != [] {
      var k := |path| - 1;
      var u := PubTrace(t.pubs[..k + 1], t.codes[..k + 1], t.lefts[..k]);
      assert path[..k][..k] == path[..k];
      TracedPubWalk(c, hmac, parent, code, path[..k], u);
      PubStepIs(c, hmac, t.pubs[k], t.codes[k], path[k]);
      assert PubLink(c, hmac, t.pubs[k], t.codes[k], path[k], t.lefts[k], t.pubs[k + 1], t.codes[k + 1]);
      SumStep(SumOf(u.lefts), Value(t.lefts[k], 256), c.order);
    }
  }

  /** The trace `t` ends in this child and this tweak: the sum of the left halves modulo the order. */
  ghost predicate PubEnds<P>(
      c: Curve<P>, hmac: Mac, parent: Bytes, code: Word, path: seq<Index>, t: PubTrace, child: Bytes, tweak: Word)
    requires c.order > 0
  {
    PubTraced(c, hmac, parent, code, path, t) && child == t.pubs[|path|] && tweak == ToBe32(SumOf(t.lefts) % c.order)
  }

  /** Public derivation gives a child and a tweak exactly when a trace does. */
  lemma PubTweakIff<P>(
      c: Curve<P>, hmac: Mac, parent: Bytes, code: Bytes, path: seq<Index>, child: Bytes, tweak: Word)
    requires c.order > 0
    ensures PubTweak(c, hmac, parent, code, path) == Success((child, tweak))
       <==> |parent| == 33 && |code| == 32 && exists t :: PubEnds(c, hmac, parent, code, path, t, child, tweak)
  {
    hide PubWalk, PubTraced, ToBe32, SumOf;
    if |parent| == 33 && |code| == 32 {
      if PubTweak(c, hmac, parent, code, path) == Success((child, tweak)) {
        var t := PubWalkTraces(c, hmac, parent, code, path);
        TraceLength(c, hmac, parent, code, path, t);
        assert PubEnds(c, hmac, parent, code, path, t, child, tweak);
      }
      if exists t :: PubEnds(c, hmac, parent, code, path, t, child, tweak) {
        var t :| PubEnds(c, hmac, parent, code, path, t, child, tweak);
        TraceLength(c, hmac, parent, code, path, t);
        TracedPubWalk(c, hmac, parent, code, path, t);
      }
    }
  }

  lemma TraceLength<P>(c: Curve<P>, hmac: Mac, parent: Bytes, code: Word, path: seq<Index>, t: PubTrace)
    requires PubTraced(c, hmac, parent, code, path, t)
    ensures |t.pubs| == |t.codes| == |path| + 1
  {
  }

  /** A walk that fails traces a part of the path and stops at the next index, for the first reason there is. */
  lemma {:induction false} PubWalkStops<P>(c: Curve<P>, hmac: Mac, parent: Bytes, code: Word, path: seq<Index>)
    returns (k: nat, t: PubTrace)
    requires c.order > 0 && PubWalk(c, hmac, PubNode(parent, code, 0), path).Failure?
    ensures k < |path| && PubTraced(c, hmac, parent, code, path[..k], t)
    ensures PubStop(c, hmac, t.pubs[k], t.codes[k], path[k])
         == Some(PubWalk(c, hmac, PubNode(parent, code, 0), path).error)
  {
    hide CkdPub, PubStop, AddMod, PubTraced;
    var front := path[..|path| - 1];
    if PubWalk(c, hmac, PubNode(parent, code, 0), front).Failure? {
      k, t := PubWalkStops(c, hmac, parent, code, front);
      assert front[..k] == path[..k];
      TraceLength(c, hmac, parent, code, front[..k], t);
    } else {
      k := |front|;
      t := PubWalkTraces(c, hmac, parent, code, front);
      TraceLength(c, hmac, parent, code, front, t);
      PubStepIs(c, hmac, t.pubs[k], t.codes[k], path[k]);
    }
  }

  // ---- private derivation ----

  datatype PrivTrace = PrivTrace(keys: seq<Word>, codes: seq<Word>, lefts: seq<Word>)

  /** A hardened index hashes the key behind a zero byte, any other the public key. */
  ghost function Hashed<P>(c: Curve<P>, key: Word, index: Index): Bytes {
    (if index < HARDENED then c.encode(c.times(Value(key, 256))) else [0] + key) + BigEndian(index)
  }

  ghost function PrivStop<P>(c: Curve<P>, hmac: Mac, key: Word, code: Word, index: Index): Option<DeriveError>
    requires c.order > 0
  {
    var k, left := Value(key, 256), Value(hmac(code, Hashed(c, key, index)).0, 256);
    if index < HARDENED && k >= c.order then Some(ParentTooLarge)
    else if index < HARDENED && c.times(k) == c.identity then Some(ParentIdentity)
    else if left >= c.order then Some(TweakTooLarge)
    else if (left + k) % c.order == 0 then Some(ZeroChild)
    else None
  }

  /** One step: the child is the key plus the left half modulo the order, the right half its chain code. */
  ghost predicate PrivLink<P>(
      c: Curve<P>, hmac: Mac, key: Word, code: Word, index: Index, left: Word, childKey: Word, childCode: Word)
    requires c.order > 0
  {
    && PrivStop(c, hmac, key, code, index).None?
    && left == hmac(code, Hashed(c, key, index)).0 && childCode == hmac(code, Hashed(c, key, index)).1
    && Value(childKey, 256) == (Value(key, 256) + Value(left, 256)) % c.order
  }

  ghost predicate PrivTraced<P>(c: Curve<P>, hmac: Mac, root: Word, code: Word, path: seq<Index>, t: PrivTrace)
    requires c.order > 0
  {
    && |t.keys| == |t.codes| == |path| + 1 && |t.lefts| == |path|
    && t.keys[0] == root && t.codes[0] == code
    && forall i :: 0 <= i < |path| ==>
         PrivLink(c, hmac, t.keys[i], t.codes[i], path[i], t.lefts[i], t.keys[i + 1], t.codes[i + 1])
  }

  lemma PrivStepIs<P>(c: Curve<P>, hmac: Mac, key: Word, code: Word, index: Index)
    requires 0 < c.order <= Pow(256, 32)
    ensures CkdPriv(c, hmac, key, code, index).Failure? <==> PrivStop(c, hmac, key, code, index).Some?
    ensures CkdPriv(c, hmac, key, code, index).Failure? ==>
              PrivStop(c, hmac, key, code, index) == Some(CkdPriv(c, hmac, key, code, index).error)
    ensures CkdPriv(c, hmac, key, code, index).Success? ==>
              var mac := hmac(code, Hashed(c, key, index));
              var (childKey, childCode) := CkdPriv(c, hmac, key, code, index).value;
              PrivLink(c, hmac, key, code, index, mac.0, childKey, childCode)
  {
    Ser32Is(index);
    hide Value, Ser32, ToBe32, Pow;
    var left := Value(hmac(code, Hashed(c, key, index)).0, 256);
    ToBe32Value((left + Value(key, 256)) % c.order);
  }

  lemma SameWord(a: Word, b: Word)
    requires Value(a, 256) == Value(b, 256)
    ensures a == b
  {
    FixedOfValue(a, 256);
    FixedOfValue(b, 256);
  }

  lemma {:induction false} PrivWalkTraces<P>(c: Curve<P>, hmac: Mac, root: Word, code: Word, path: seq<Index>)
    returns (t: PrivTrace)
    requires 0 < c.order <= Pow(256, 32) && PrivWalk(c, hmac, PrivNode(root, code), path).Success?
    ensures PrivTraced(c, hmac, root, code, path, t)
    ensures PrivWalk(c, hmac, PrivNode(root, code), path) == Success(PrivNode(t.keys[|path|], t.codes[|path|]))
  {
    hide CkdPriv, PrivLink, PrivStop, Hashed, Pow, Value;
    if path == [] {
      t := PrivTrace([root], [code], []);
    } else {
      var front, index := path[..|path| - 1], path[|path| - 1];
      var u := PrivWalkTraces(c, hmac, root, code, front);
      var key, cc := u.keys[|front|], u.codes[|front|];
      PrivStepIs(c, hmac, key, cc, index);
      var (childKey, childCode) := CkdPriv(c, hmac, key, cc, index).value;
      t := PrivTrace(u.keys + [childKey], u.codes + [childCode], u.lefts + [hmac(cc, Hashed(c, key, index)).0]);
    }
  }

  lemma {:induction false} TracedPrivWalk<P>(
      c: Curve<P>, hmac: Mac, root: Word, code: Word, path: seq<Index>, t: PrivTrace)
    requires 0 < c.order <= Pow(256, 32) && PrivTraced(c, hmac, root, code, path, t)
    ensures PrivWalk(c, hmac, PrivNode(root, code), path) == Success(PrivNode(t.keys[|path|], t.codes[|path|]))
  {
    hide CkdPriv, PrivStop, Hashed, Pow, Value;
    if path != [] {
      var k := |path| - 1;
      var u := PrivTrace(t.keys[..k + 1], t.codes[..k + 1], t.lefts[..k]);
      assert path[..k][..k] == path[..k];
      TracedPrivWalk(c, hmac, root, code, path[..k], u);
      PrivStepIs(c, hmac, t.keys[k], t.codes[k], path[k]);
      assert PrivLink(c, hmac, t.keys[k], t.codes[k], path[k], t.lefts[k], t.keys[k + 1], t.codes[k + 1]);
      SameWord(CkdPriv(c, hmac, t.keys[k], t.codes[k], path[k]).value.0, t.keys[k + 1]);
    }
  }

  /** The bytes of "Bitcoin seed". */
  const BITCOIN_SEED: Bytes := [66, 105, 116, 99, 111, 105, 110, 32, 115, 101, 101, 100]

  lemma BitcoinSeedIs()
    ensures Ascii("Bitcoin seed") == BITCOIN_SEED
  {
  }

  ghost predicate PrivEnds<P>(c: Curve<P>, hmac: Mac, seed: Bytes, path: seq<Index>, t: PrivTrace, n: PrivNode)
    requires c.order > 0
  {
    var master := hmac(BITCOIN_SEED, seed);
    PrivTraced(c, hmac, master.0, master.1, path, t) && n == PrivNode(t.keys[|path|], t.codes[|path|])
  }

  /** Private derivation from a seed gives a node exactly when a trace from the two halves of the master MAC does. */
  lemma PrivWalkIff<P>(c: Curve<P>, hmac: Mac, seed: Bytes, path: seq<Index>, n: PrivNode)
    requires 0 < c.order <= Pow(256, 32)
    ensures PrivWalk(c, hmac, Master(hmac, seed), path) == Success(n)
       <==> exists t :: PrivEnds(c, hmac, seed, path, t, n)
  {
    hide PrivWalk, PrivTraced, Pow, Ascii;
    BitcoinSeedIs();
    var master := hmac(BITCOIN_SEED, seed);
    if PrivWalk(c, hmac, Master(hmac, seed), path) == Success(n) {
      var t := PrivWalkTraces(c, hmac, master.0, master.1, path);
      PrivTraceLength(c, hmac, master.0, master.1, path, t);
      assert PrivEnds(c, hmac, seed, path, t, n);
    }
    if exists t :: PrivEnds(c, hmac, seed, path, t, n) {
      var t :| PrivEnds(c, hmac, seed, path, t, n);
      PrivTraceLength(c, hmac, master.0, master.1, path, t);
      TracedPrivWalk(c, hmac, master.0, master.1, path, t);
    }
  }

  lemma PrivTraceLength<P>(c: Curve<P>, hmac: Mac, root: Word, code: Word, path: seq<Index>, t: PrivTrace)
    requires c.order > 0 && PrivTraced(c, hmac, root, code, path, t)
    ensures |t.keys| == |t.codes| == |path| + 1
  {
  }

  /** A private walk that fails stops at the first index that cannot be followed, for the first reason there is. */
  lemma {:induction false} PrivWalkStops<P>(c: Curve<P>, hmac: Mac, root: Word, code: Word, path: seq<Index>)
    returns (k: nat, t: PrivTrace)
    requires 0 < c.order <= Pow(256, 32) && PrivWalk(c, hmac, PrivNode(root, code), path).Failure?
    ensures k < |path| && PrivTraced(c, hmac, root, code, path[..k], t)
    ensures PrivStop(c, hmac, t.keys[k], t.codes[k], path[k])
         == Some(PrivWalk(c, hmac, PrivNode(root, code), path).error)
  {
    hide CkdPriv, PrivStop, PrivLink, Pow, PrivTraced;
    var front := path[..|path| - 1];
    if PrivWalk(c, hmac, PrivNode(root, code), front).Failure? {
      k, t := PrivWalkStops(c, hmac, root, code, front);
      assert front[..k] == path[..k];
      PrivTraceLength(c, hmac, root, code, front[..k], t);
    } else {
      k := |front|;
      t := PrivWalkTraces(c, hmac, root, code, front);
      PrivTraceLength(c, hmac, root, code, front, t);
      PrivStepIs(c, hmac, t.keys[k], t.codes[k], path[k]);
    }
  }

  lemma FirstSum(a: nat, b: nat, n: nat)
    requires n > 0
    ensures AddMod(a, b, n) == (a + b) % n
  {
  }

  /** The last step of a trace, and the trace before it. */
  lemma LastPrivLink<P>(c: Curve<P>, hmac: Mac, root: Word, code: Word, path: seq<Index>, t: PrivTrace)
    returns (u: PrivTrace)
    requires c.order > 0 && PrivTraced(c, hmac, root, code, path, t) && path != []
    ensures var k := |path| - 1;
            && |t.keys| == k + 2 && |t.lefts| == k + 1 && |u.keys| == k + 1
            && PrivTraced(c, hmac, root, code, path[..k], u) && u.lefts == t.lefts[..k] && u.keys == t.keys[..k + 1]
            && t.keys[0] == root
            && Value(t.keys[k + 1], 256) == AddMod(Value(t.keys[k], 256), Value(t.lefts[k], 256), c.order)
  {
    hide PrivStop, Hashed, Value;
    var k := |path| - 1;
    u := PrivTrace(t.keys[..k + 1], t.codes[..k + 1], t.lefts[..k]);
    assert PrivLink(c, hmac, t.keys[k], t.codes[k], path[k], t.lefts[k], t.keys[k + 1], t.codes[k + 1]);
  }

  /** Along a non-empty path the key is the root plus all the left halves, modulo the order. */
  lemma {:induction false} KeyIsSum<P>(c: Curve<P>, hmac: Mac, root: Word, code: Word, path: seq<Index>, t: PrivTrace)
    requires c.order > 0 && PrivTraced(c, hmac, root, code, path, t) && path != []
    ensures Value(t.keys[|path|], 256) == (Value(root, 256) + SumOf(t.lefts)) % c.order
  {
    hide Value, SumOf, PrivTraced, AddMod;
    SumOfNone();
    var k := |path| - 1;
    var u := LastPrivLink(c, hmac, root, code, path, t);
    SumGrows(u.lefts, t.lefts[k]);
    assert u.lefts + [t.lefts[k]] == t.lefts;
    if k > 0 {
      KeyIsSum(c, hmac, root, code, path[..k], u);
      SumStep(Value(root, 256) + SumOf(u.lefts), Value(t.lefts[k], 256), c.order);
    } else {
      assert u.lefts == [];
      FirstSum(Value(root, 256), Value(t.lefts[0], 256), c.order);
    }
  }

  // ---- ed25519 ----

  datatype EdTrace<P> = EdTrace(points: seq<P>, codes: seq<Word>, lefts: seq<Word>)

  /** The bytes of "FROST-Ed25519-HD-v1" and of "FROST-Ed25519-chaincode-v1". */
  const HD_DOMAIN: Bytes := [70, 82, 79, 83, 84, 45, 69, 100, 50, 53, 53, 49, 57, 45, 72, 68, 45, 118, 49]
  const CODE_DOMAIN: Bytes :=
    [70, 82, 79, 83, 84, 45, 69, 100, 50, 53, 53, 49, 57, 45, 99, 104, 97, 105, 110, 99, 111, 100, 101, 45, 118, 49]

  lemma HdDomainIs()
    ensures Ascii("FROST-Ed25519-HD-v1") == HD_DOMAIN
  {
  }

  lemma CodeDomainIs()
    ensures Ascii("FROST-Ed25519-chaincode-v1") == CODE_DOMAIN
  {
  }

  ghost function EdStop<P>(c: Curve<P>, hmac: Mac, point: P, code: Word, index: Index): Option<DeriveError>
    requires c.order > 0
  {
    var il := Value(hmac(code, HD_DOMAIN + c.encode(point) + BigEndian(index)).0, 256) % c.order;
    if il == 0 then Some(TweakIsZero)
    else if c.add(point, c.times(il)) == c.identity then Some(ChildIdentity)
    else None
  }

  ghost predicate EdLink<P>(
      c: Curve<P>, hmac: Mac, point: P, code: Word, index: Index, left: Word, child: P, childCode: Word)
    requires c.order > 0
  {
    var mac := hmac(code, HD_DOMAIN + c.encode(point) + BigEndian(index));
    && EdStop(c, hmac, point, code, index).None?
    && left == mac.0 && childCode == mac.1
    && child == c.add(point, c.times(Value(left, 256) % c.order))
  }

  ghost predicate EdTraced<P>(c: Curve<P>, hmac: Mac, point: P, code: Word, path: seq<Index>, t: EdTrace<P>)
    requires c.order > 0
  {
    && |t.points| == |t.codes| == |path| + 1 && |t.lefts| == |path|
    && t.points[0] == point && t.codes[0] == code
    && forall i :: 0 <= i < |path| ==>
         EdLink(c, hmac, t.points[i], t.codes[i], path[i], t.lefts[i], t.points[i + 1], t.codes[i + 1])
  }

  lemma EdStepIs<P>(c: Curve<P>, hmac: Mac, point: P, code: Word, acc: nat, index: Index)
    requires c.order > 0
    ensures EdStep(c, hmac, EdNode(point, code, acc), index)
         == if EdStop(c, hmac, point, code, index).Some? then Failure(EdStop(c, hmac, point, code, index).value)
            else
              var mac := hmac(code, HD_DOMAIN + c.encode(point) + BigEndian(index));
              var il := Value(mac.0, 256) % c.order;
              Success(EdNode(c.add(point, c.times(il)), mac.1, (acc + il) % c.order))
  {
    hide Value, Ser32, Ascii;
    Ser32Is(index);
    HdDomainIs();
  }

  lemma ReducedSum(a: nat, b: nat, n: nat)
    requires n > 0
    ensures (a % n + b % n) % n == (a + b) % n
  {
    DivMod(a, n);
    DivMod(b, n);
    Distribute(a / n, b / n, n);
    SameResidue(a + b, a % n + b % n, a / n + b / n, n);
  }

  lemma {:induction false} EdWalkTraces<P>(c: Curve<P>, hmac: Mac, point: P, code: Word, path: seq<Index>)
    returns (t: EdTrace<P>)
    requires c.order > 0 && EdWalk(c, hmac, EdNode(point, code, 0), path).Success?
    ensures EdTraced(c, hmac, point, code, path, t)
    ensures EdWalk(c, hmac, EdNode(point, code, 0), path)
         == Success(EdNode(t.points[|path|], t.codes[|path|], SumOf(t.lefts) % c.order))
  {
    hide EdStep, EdStop, Value, SumOf;
    SumOfNone();
    if path == [] {
      t := EdTrace([point], [code], []);
    } else {
      var front, index := path[..|path| - 1], path[|path| - 1];
      var u := EdWalkTraces(c, hmac, point, code, front);
      var at, cc := u.points[|front|], u.codes[|front|];
      EdStepIs(c, hmac, at, cc, SumOf(u.lefts) % c.order, index);
      var mac := hmac(cc, HD_DOMAIN + c.encode(at) + BigEndian(index));
      t := EdTrace(u.points + [c.add(at, c.times(Value(mac.0, 256) % c.order))], u.codes + [mac.1], u.lefts + [mac.0]);
      SumGrows(u.lefts, mac.0);
      ReducedSum(SumOf(u.lefts), Value(mac.0, 256), c.order);
    }
  }

  lemma {:induction false} TracedEdWalk<P>(
      c: Curve<P>, hmac: Mac, point: P, code: Word, path: seq<Index>, t: EdTrace<P>)
    requires c.order > 0 && EdTraced(c, hmac, point, code, path, t)
    ensures EdWalk(c, hmac, EdNode(point, code, 0), path)
         == Success(EdNode(t.points[|path|], t.codes[|path|], SumOf(t.lefts) % c.order))
  {
    hide EdStep, EdStop, Value;
    if path != [] {
      var k := |path| - 1;
      var u := EdTrace(t.points[..k + 1], t.codes[..k + 1], t.lefts[..k]);
      assert path[..k][..k] == path[..k];
      TracedEdWalk(c, hmac, point, code, path[..k], u);
      EdStepIs(c, hmac, t.points[k], t.codes[k], SumOf(u.lefts) % c.order, path[k]);
      assert EdLink(c, hmac, t.points[k], t.codes[k], path[k], t.lefts[k], t.points[k + 1], t.codes[k + 1]);
      ReducedSum(SumOf(u.lefts), Value(t.lefts[k], 256), c.order);
    }
  }

  ghost predicate EdEnds<P>(
      c: Curve<P>, hmac: Mac, sha256: Bytes -> Word, point: P, path: seq<Index>, t: EdTrace<P>, tweak: Word,
      child: Bytes)
    requires c.order > 0
  {
    && EdTraced(c, hmac, point, sha256(CODE_DOMAIN + c.encode(point)), path, t)
    && tweak == ToBe32(SumOf(t.lefts) % c.order) && child == c.encode(t.points[|path|])
  }

  /** Ed25519 derivation gives a tweak and a child exactly when no index is hardened and a trace does. */
  lemma EdTweakIff<P>(
      c: Curve<P>, hmac: Mac, sha256: Bytes -> Word, groupPub: Word, path: seq<Index>, tweak: Word, child: Bytes)
    requires c.order > 0
    ensures EdTweak(c, hmac, sha256, groupPub, path) == Success((tweak, child))
       <==> && (forall i :: 0 <= i < |path| ==> path[i] < HARDENED)
            && c.decode(groupPub).Some?
            && exists t :: EdEnds(c, hmac, sha256, c.decode(groupPub).value, path, t, tweak, child)
  {
    hide EdWalk, EdTraced, ToBe32, SumOf, Ascii;
    CodeDomainIs();
    if c.decode(groupPub).Some? && forall i :: 0 <= i < |path| ==> path[i] < HARDENED {
      var point := c.decode(groupPub).value;
      var code := sha256(CODE_DOMAIN + c.encode(point));
      if EdTweak(c, hmac, sha256, groupPub, path) == Success((tweak, child)) {
        var t := EdWalkTraces(c, hmac, point, code, path);
        EdTraceLength(c, hmac, point, code, path, t);
        assert EdEnds(c, hmac, sha256, point, path, t, tweak, child);
      }
      if exists t :: EdEnds(c, hmac, sha256, point, path, t, tweak, child) {
        var t :| EdEnds(c, hmac, sha256, point, path, t, tweak, child);
        EdTraceLength(c, hmac, point, code, path, t);
        TracedEdWalk(c, hmac, point, code, path, t);
      }
    }
  }

  lemma EdTraceLength<P>(c: Curve<P>, hmac: Mac, point: P, code: Word, path: seq<Index>, t: EdTrace<P>)
    requires c.order > 0 && EdTraced(c, hmac, point, code, path, t)
    ensures |t.points| == |t.codes| == |path| + 1
  {
  }
}
