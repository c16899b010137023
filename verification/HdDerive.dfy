/**
  Hierarchical key derivation (rust/src/hdderive.rs, `combine_tweak` of rust/src/bitcoin.rs). The curve is any group
  with the laws below and HMAC-SHA512 is any function, so every theorem holds whatever values HMAC returns.
*/
module HdDerive {
  import opened Wrappers
  import opened Radix

  const HARDENED := 0x8000_0000
  const SECP_N := 0xFFFFFFFF_FFFFFFFF_FFFFFFFF_FFFFFFFE_BAAEDCE6_AF48A03B_BFD25E8C_D0364141

  type Index = i: nat | i < 0x1_0000_0000

  /** HMAC-SHA512 as its two halves, IL and IR. */
  type Mac = (Bytes, Bytes) -> (Word, Word)

  /** Points of `P`; `times(k)` is k times the generator. */
  datatype Curve<!P(==)> = Curve(
    order: nat, identity: P, add: (P, P) -> P, times: nat -> P, encode: P -> Bytes, decode: Bytes -> Option<P>)

  ghost predicate Invertible<P(!new)>(c: Curve<P>, p: P) {
    exists q :: c.add(q, p) == c.identity
  }

  ghost predicate GroupLaws<P(!new)>(c: Curve<P>) {
    && 1 < c.order <= Pow(256, 32)
    && Abelian(c)
    && Multiples(c)
    && c.times(0) == c.identity
  }

  ghost predicate Abelian<P(!new)>(c: Curve<P>) {
    && (forall p, q, r :: c.add(c.add(p, q), r) == c.add(p, c.add(q, r)))
    && (forall p, q :: c.add(p, q) == c.add(q, p))
    && (forall p :: c.add(p, c.identity) == p)
    && (forall p :: Invertible(c, p))
  }

  ghost predicate AddsUp<P(!new)>(c: Curve<P>, a: nat, b: nat) {
    c.add(c.times(a), c.times(b)) == c.times(a + b)
  }

  ghost predicate Repeats<P(!new)>(c: Curve<P>, a: nat, b: nat)
    requires c.order != 0
  {
    c.times(a) == c.times(b) <==> a % c.order == b % c.order
  }

  /** Multiples of the base point add like their scalars and repeat with the order. */
  ghost predicate Multiples<P(!new)>(c: Curve<P>) {
    && (forall a: nat, b: nat :: AddsUp(c, a, b))
    && c.order != 0
    && (forall a: nat, b: nat :: Repeats(c, a, b))
  }

  /** Compressed SEC1: every point but the identity has an encoding and is read back from it. */
  ghost predicate SecpLaws<P(!new)>(c: Curve<P>) {
    && GroupLaws(c)
    && c.order == SECP_N
    && (forall p :: p != c.identity ==> |c.encode(p)| == 33 && c.decode(c.encode(p)) == Some(p))
    && (forall b :: c.decode(b).Some? ==> c.decode(b).value != c.identity)
  }

  // ---- the laws, one instance at a time ----

  lemma OrderFits<P(!new)>(c: Curve<P>)
    requires GroupLaws(c)
    ensures 1 < c.order <= Pow(256, 32)
  {
  }

  lemma SecpGroup<P(!new)>(c: Curve<P>)
    requires SecpLaws(c)
    ensures GroupLaws(c)
  {
  }

  lemma ReadBack<P(!new)>(c: Curve<P>, p: P)
    requires SecpLaws(c) && p != c.identity
    ensures |c.encode(p)| == 33 && c.decode(c.encode(p)) == Some(p)
  {
  }

  lemma AddTimes<P(!new)>(c: Curve<P>, a: nat, b: nat)
    requires GroupLaws(c)
    ensures c.add(c.times(a), c.times(b)) == c.times(a + b)
  {
    assert AddsUp(c, a, b);
  }

  lemma SameMultiple<P(!new)>(c: Curve<P>, a: nat, b: nat)
    requires GroupLaws(c)
    ensures c.times(a) == c.times(b) <==> a % c.order == b % c.order
  {
    assert Repeats(c, a, b);
  }

  /** The sum of two scalars modulo the order. */
  function AddMod(a: nat, b: nat, n: nat): nat
    requires n > 0
  {
    (a + b) % n
  }

  lemma SumOfMultiples<P(!new)>(c: Curve<P>, a: nat, b: nat)
    requires GroupLaws(c)
    ensures AddMod(a, b, c.order) < c.order
    ensures c.add(c.times(a), c.times(b)) == c.times(AddMod(a, b, c.order))
  {
    AddTimes(c, a, b);
    hide GroupLaws;
    OrderFits(c);
    DivMod(a + b, c.order);
    SmallMod((a + b) % c.order, c.order);
    SameMultiple(c, (a + b) % c.order, a + b);
  }

  lemma IdentityIff<P(!new)>(c: Curve<P>, k: nat)
    requires GroupLaws(c) && k < c.order
    ensures c.times(k) == c.identity <==> k == 0
  {
    SmallMod(0, c.order);
    SmallMod(k, c.order);
    SameMultiple(c, k, 0);
  }

  lemma Assoc<P(!new)>(c: Curve<P>, p: P, q: P, r: P)
    requires GroupLaws(c)
    ensures c.add(c.add(p, q), r) == c.add(p, c.add(q, r))
  {
  }

  lemma Unit<P(!new)>(c: Curve<P>, p: P)
    requires GroupLaws(c)
    ensures c.add(p, c.identity) == p && c.add(p, c.times(0)) == p && c.add(c.identity, p) == p
  {
    assert c.add(c.identity, p) == c.add(p, c.identity);
  }

  lemma HasInverse<P(!new)>(c: Curve<P>, p: P)
    requires GroupLaws(c)
    ensures Invertible(c, p)
  {
    hide Invertible;
  }

  lemma InverseOf<P(!new)>(c: Curve<P>, p: P) returns (q: P)
    requires GroupLaws(c)
    ensures c.add(q, p) == c.identity
  {
    hide GroupLaws;
    HasInverse(c, p);
    q :| c.add(q, p) == c.identity;
  }

  lemma Regrouped<P(!new)>(c: Curve<P>, p: P, a: nat, b: nat)
    requires GroupLaws(c)
    ensures AddMod(a, b, c.order) < c.order
    ensures c.add(c.add(p, c.times(a)), c.times(b)) == c.add(p, c.times(AddMod(a, b, c.order)))
  {
    hide GroupLaws;
    Assoc(c, p, c.times(a), c.times(b));
    SumOfMultiples(c, a, b);
  }

  lemma Swapped<P(!new)>(c: Curve<P>, p: P, q: P)
    requires GroupLaws(c)
    ensures c.add(p, q) == c.add(q, p)
  {
  }

  /** Adding the same point keeps different points different. */
  lemma Cancel<P(!new)>(c: Curve<P>, p: P, a: nat, b: nat)
    requires GroupLaws(c) && a < c.order && b < c.order && c.add(p, c.times(a)) == c.add(p, c.times(b))
    ensures a == b
  {
    hide GroupLaws;
    OrderFits(c);
    var q := InverseOf(c, p);
    Assoc(c, q, p, c.times(a));
    Assoc(c, q, p, c.times(b));
    Unit(c, c.times(a));
    Unit(c, c.times(b));
    SameMultiple(c, a, b);
    SmallMod(a, c.order);
    SmallMod(b, c.order);
  }

  lemma SmallMod(a: nat, n: nat)
    requires a < n
    ensures a % n == a
  {
    DivModUnique(0, a, n);
  }

  // ---- single steps ----

  datatype DeriveError =
    | HardenedIndex | TweakTooLarge | BadParent | ChildIdentity | ParentTooLarge | ParentIdentity | ZeroChild
    | BadPubLength | BadCodeLength | BadGroupKey | TweakIsZero

  function Ascii(text: string): Bytes {
    seq(|text|, i requires 0 <= i < |text| => text[i] as int % 256)
  }

  function Ser32(index: Index): Bytes {
    Fixed(index, 256, 4)
  }

  function CkdPub<P(==)>(c: Curve<P>, hmac: Mac, parent: Bytes, code: Word, index: Index):
      Result<(Bytes, Word, Word), DeriveError>
  {
    if index >= HARDENED then Failure(HardenedIndex)
    else
      var (il, ir) := hmac(code, parent + Ser32(index));
      if Value(il, 256) >= c.order then Failure(TweakTooLarge)
      else
        match c.decode(parent)
        case None => Failure(BadParent)
        case Some(point) =>
          var child := c.add(c.times(Value(il, 256)), point);
          if child == c.identity then Failure(ChildIdentity) else Success((c.encode(child), ir, il))
  }

  /** What a private step hashes: the key itself for a hardened index, else the public key. */
  function MacInput<P>(c: Curve<P>, key: Word, index: Index): Bytes {
    (if index >= HARDENED then [0] + key else c.encode(c.times(Value(key, 256)))) + Ser32(index)
  }

  function CkdPriv<P(==)>(c: Curve<P>, hmac: Mac, key: Word, code: Word, index: Index):
      Result<(Word, Word), DeriveError>
    requires c.order > 0
  {
    var k := Value(key, 256);
    if index < HARDENED && k >= c.order then Failure(ParentTooLarge)
    else if index < HARDENED && c.times(k) == c.identity then Failure(ParentIdentity)
    else
      var (il, ir) := hmac(code, MacInput(c, key, index));
      if Value(il, 256) >= c.order then Failure(TweakTooLarge)
      else
        var child := AddMod(Value(il, 256), k, c.order);
        if child == 0 then Failure(ZeroChild) else Success((ToBe32(child), ir))
  }

  // ---- walks along a path ----

  datatype PubNode = PubNode(pub: Bytes, code: Word, total: nat)
  datatype PrivNode = PrivNode(key: Word, code: Word)

  function PubStep<P(==)>(c: Curve<P>, hmac: Mac, n: PubNode, index: Index): Result<PubNode, DeriveError>
    requires c.order > 0
  {
    var (pub, code, il) :- CkdPub(c, hmac, n.pub, n.code, index);
    Success(PubNode(pub, code, AddMod(n.total, Value(il, 256), c.order)))
  }

  ghost function PubWalk<P>(c: Curve<P>, hmac: Mac, start: PubNode, path: seq<Index>): Result<PubNode, DeriveError>
    requires c.order > 0
  {
    if path == [] then Success(start)
    else
      var n :- PubWalk(c, hmac, start, path[..|path| - 1]);
      PubStep(c, hmac, n, path[|path| - 1])
  }

  function PrivStep<P(==)>(c: Curve<P>, hmac: Mac, n: PrivNode, index: Index): Result<PrivNode, DeriveError>
    requires c.order > 0
  {
    var (key, code) :- CkdPriv(c, hmac, n.key, n.code, index);
    Success(PrivNode(key, code))
  }

  ghost function PrivWalk<P>(c: Curve<P>, hmac: Mac, start: PrivNode, path: seq<Index>): Result<PrivNode, DeriveError>
    requires c.order > 0
  {
    if path == [] then Success(start)
    else
      var n :- PrivWalk(c, hmac, start, path[..|path| - 1]);
      PrivStep(c, hmac, n, path[|path| - 1])
  }

  lemma {:induction false} FailedPubPrefix<P>(c: Curve<P>, hmac: Mac, start: PubNode, path: seq<Index>, k: nat)
    requires c.order > 0 && k <= |path| && PubWalk(c, hmac, start, path[..k]).Failure?
    ensures PubWalk(c, hmac, start, path) == PubWalk(c, hmac, start, path[..k])
  {
    if k < |path| {
      assert path[..|path| - 1][..k] == path[..k];
      FailedPubPrefix(c, hmac, start, path[..|path| - 1], k);
    } else {
      assert path[..k] == path;
    }
  }

  lemma {:induction false} FailedPrivPrefix<P>(c: Curve<P>, hmac: Mac, start: PrivNode, path: seq<Index>, k: nat)
    requires c.order > 0 && k <= |path| && PrivWalk(c, hmac, start, path[..k]).Failure?
    ensures PrivWalk(c, hmac, start, path) == PrivWalk(c, hmac, start, path[..k])
  {
    if k < |path| {
      assert path[..|path| - 1][..k] == path[..k];
      FailedPrivPrefix(c, hmac, start, path[..|path| - 1], k);
    } else {
      assert path[..k] == path;
    }
  }

  /** Walking a path in two parts. */
  lemma {:induction false} PrivWalkConcat<P>(c: Curve<P>, hmac: Mac, start: PrivNode, p: seq<Index>, q: seq<Index>)
    requires c.order > 0 && PrivWalk(c, hmac, start, p).Success?
    ensures PrivWalk(c, hmac, start, p + q) == PrivWalk(c, hmac, PrivWalk(c, hmac, start, p).value, q)
  {
    if q == [] {
      assert p + q == p;
    } else {
      assert (p + q)[..|p + q| - 1] == p + q[..|q| - 1];
      PrivWalkConcat(c, hmac, start, p, q[..|q| - 1]);
    }
  }

  // ---- the path functions ----

  /** What `derive_pub_tweak` returns: the child's public key and the accumulated tweak. */
  ghost function PubTweak<P>(c: Curve<P>, hmac: Mac, parent: Bytes, code: Bytes, path: seq<Index>):
      Result<(Bytes, Word), DeriveError>
    requires c.order > 0
  {
    if |parent| != 33 then Failure(BadPubLength)
    else if |code| != 32 then Failure(BadCodeLength)
    else
      var n :- PubWalk(c, hmac, PubNode(parent, code, 0), path);
      Success((n.pub, ToBe32(n.total)))
  }

  method DerivePubTweak<P(==)>(c: Curve<P>, hmac: Mac, parent: Bytes, code: Bytes, path: seq<Index>)
    returns (r: Result<(Bytes, Word), DeriveError>)
    requires c.order > 0
    ensures r == PubTweak(c, hmac, parent, code, path)
  {
    if |parent| != 33 {
      return Failure(BadPubLength);
    }
    if |code| != 32 {
      return Failure(BadCodeLength);
    }
    hide Value, ToBe32, CkdPub, AddMod;
    var pk, cc, total: nat := parent, code, 0;
    ghost var start := PubNode(parent, code, 0);
    for k := 0 to |path|
      invariant |cc| == 32 && PubWalk(c, hmac, start, path[..k]) == Success(PubNode(pk, cc, total))
    {
      assert path[..k + 1][..k] == path[..k];
      var step := CkdPub(c, hmac, pk, cc, path[k]);
      if step.Failure? {
        FailedPubPrefix(c, hmac, start, path, k + 1);
        return Failure(step.error);
      }
      var (childPub, childCode, il) := step.value;
      total := AddMod(total, Value(il, 256), c.order);
      pk, cc := childPub, childCode;
    }
    assert path[..|path|] == path;
    return Success((pk, ToBe32(total)));
  }

  function Master(hmac: Mac, seed: Bytes): PrivNode {
    var (key, code) := hmac(Ascii("Bitcoin seed"), seed);
    PrivNode(key, code)
  }

  method DerivePrivKeyAndChainCode<P(==)>(c: Curve<P>, hmac: Mac, seed: Bytes, path: seq<Index>)
    returns (r: Result<PrivNode, DeriveError>)
    requires c.order > 0
    ensures r == PrivWalk(c, hmac, Master(hmac, seed), path)
  {
    var (key, cc) := hmac(Ascii("Bitcoin seed"), seed);
    ghost var start := Master(hmac, seed);
    for k := 0 to |path|
      invariant PrivWalk(c, hmac, start, path[..k]) == Success(PrivNode(key, cc))
    {
      assert path[..k + 1][..k] == path[..k];
      var step := CkdPriv(c, hmac, key, cc, path[k]);
      if step.Failure? {
        FailedPrivPrefix(c, hmac, start, path, k + 1);
        return Failure(step.error);
      }
      var (childKey, childCode) := step.value;
      key, cc := childKey, childCode;
    }
    assert path[..|path|] == path;
    return Success(PrivNode(key, cc));
  }

  // ---- public and private derivation commute ----

  /** A usable private key: a point's discrete logarithm. */
  ghost predicate Usable<P>(c: Curve<P>, key: Word) {
    0 < Value(key, 256) < c.order
  }

  function PublicOf<P>(c: Curve<P>, key: Word): Bytes {
    c.encode(c.times(Value(key, 256)))
  }

  /** The private step's failure and the public step's failure for the same reason. */
  predicate SameFailure(priv: DeriveError, pub: DeriveError) {
    (priv == TweakTooLarge && pub == TweakTooLarge) || (priv == ZeroChild && pub == ChildIdentity)
  }

  /** The two derivations agree: both fail for the same reason or both reach the same node. */
  ghost predicate Agree<P>(
      c: Curve<P>, root: Word, priv: Result<PrivNode, DeriveError>, pub: Result<PubNode, DeriveError>)
    requires c.order > 0
  {
    match (priv, pub)
    case (Success(a), Success(b)) =>
      && Usable(c, a.key)
      && b.pub == PublicOf(c, a.key)
      && b.code == a.code
      && b.total < c.order
      && Value(a.key, 256) == AddMod(Value(root, 256), b.total, c.order)
    case (Failure(e), Failure(f)) => SameFailure(e, f)
    case _ => false
  }

  lemma KeyOf<P(!new)>(c: Curve<P>, child: nat)
    requires GroupLaws(c) && 0 < child < c.order
    ensures Value(ToBe32(child), 256) == child && Usable(c, ToBe32(child))
  {
    hide Pow, Value, ToBe32;
    ToBe32Value(child);
  }

  lemma StepsCommute<P(!new)>(c: Curve<P>, hmac: Mac, key: Word, code: Word, total: nat, root: Word, index: Index)
    requires SecpLaws(c) && Usable(c, key) && index < HARDENED
    requires total < c.order && Value(key, 256) == AddMod(Value(root, 256), total, c.order)
    ensures Agree(c, root, PrivStep(c, hmac, PrivNode(key, code), index),
                  PubStep(c, hmac, PubNode(PublicOf(c, key), code, total), index))
  {
    hide GroupLaws, SecpLaws, Value, ToBe32, Pow, Ser32, AddMod;
    SecpGroup(c);
    OrderFits(c);
    var k := Value(key, 256);
    IdentityIff(c, k);
    ReadBack(c, c.times(k));
    var il := Value(hmac(code, c.encode(c.times(k)) + Ser32(index)).0, 256);
    var child := AddMod(il, k, c.order);
    SumOfMultiples(c, il, k);
    IdentityIff(c, child);
    if il < c.order && child != 0 {
      KeyOf(c, child);
      SumOfMultiples(c, total, il);
      TotalsAgree(Value(root, 256), total, il, c.order);
    }
  }

  lemma TotalsAgree(root: nat, total: nat, il: nat, n: nat)
    requires n > 0
    ensures AddMod(il, AddMod(root, total, n), n) == AddMod(root, AddMod(total, il, n), n)
  {
    DivMod(root + total, n);
    DivMod(total + il, n);
    var d, e := (total + il) / n, (root + total) / n;
    Distribute(d, e, n);
    SameResidue(il + (root + total) % n, root + (total + il) % n, d - e, n);
  }

  lemma KeyIsReduced<P(!new)>(c: Curve<P>, key: Word)
    requires Usable(c, key)
    ensures Value(key, 256) == AddMod(Value(key, 256), 0, c.order)
  {
    SmallMod(Value(key, 256), c.order);
  }

  /** Private and public derivation agree along every non-hardened path, failures included. */
  lemma {:induction false} WalksCommute<P(!new)>(c: Curve<P>, hmac: Mac, key: Word, code: Word, path: seq<Index>)
    requires SecpLaws(c) && Usable(c, key) && forall i :: 0 <= i < |path| ==> path[i] < HARDENED
    ensures Agree(c, key, PrivWalk(c, hmac, PrivNode(key, code), path),
                  PubWalk(c, hmac, PubNode(PublicOf(c, key), code, 0), path))
  {
    hide GroupLaws, SecpLaws, Value, PublicOf, PubStep, PrivStep, AddMod;
    SecpGroup(c);
    OrderFits(c);
    if path == [] {
      KeyIsReduced(c, key);
    } else {
      var front := path[..|path| - 1];
      WalksCommute(c, hmac, key, code, front);
      var a := PrivWalk(c, hmac, PrivNode(key, code), front);
      var b := PubWalk(c, hmac, PubNode(PublicOf(c, key), code, 0), front);
      if a.Success? {
        assert b.value == PubNode(PublicOf(c, a.value.key), a.value.code, b.value.total);
        StepsCommute(c, hmac, a.value.key, a.value.code, b.value.total, key, path[|path| - 1]);
      }
    }
  }

  /** Every node below a usable one, and every node at the end of a non-empty path, has a usable key. */
  lemma {:induction false} DerivedKeyIsUsable<P(!new)>(c: Curve<P>, hmac: Mac, start: PrivNode, path: seq<Index>)
    requires GroupLaws(c) && PrivWalk(c, hmac, start, path).Success? && (path != [] || Usable(c, start.key))
    ensures Usable(c, PrivWalk(c, hmac, start, path).value.key)
  {
    hide GroupLaws, Value, ToBe32, Pow, Ser32, AddMod;
    OrderFits(c);
    if path != [] {
      var n := PrivWalk(c, hmac, start, path[..|path| - 1]).value;
      var k := Value(n.key, 256);
      var il := Value(hmac(n.code, MacInput(c, n.key, path[|path| - 1])).0, 256);
      SumOfMultiples(c, il, k);
      assert PrivStep(c, hmac, n, path[|path| - 1]).value.key == ToBe32(AddMod(il, k, c.order));
      KeyOf(c, AddMod(il, k, c.order));
    }
  }

  /** Under one chain code no two usable keys or indices hash the same bytes, hardened or not. */
  lemma MacInputsDiffer<P(!new)>(c: Curve<P>, key: Word, key': Word, index: Index, index': Index)
    requires SecpLaws(c) && Usable(c, key) && Usable(c, key')
    ensures MacInput(c, key, index) == MacInput(c, key', index') <==> key == key' && index == index'
  {
    hide GroupLaws, SecpLaws, Pow, Value;
    EncodedLength(c, key);
    EncodedLength(c, key');
    Ser32Injective(index, index');
    if MacInput(c, key, index) == MacInput(c, key', index') {
      var m, m' := MacInput(c, key, index), MacInput(c, key', index');
      hide Ser32;
      assert m[33..] == Ser32(index) && m'[33..] == Ser32(index');
      if index >= HARDENED {
        assert m[1..33] == key && m'[1..33] == key';
      } else {
        assert m[..33] == PublicOf(c, key) && m'[..33] == PublicOf(c, key');
        SamePublic(c, key, key');
      }
    }
  }

  lemma Ser32Injective(index: Index, index': Index)
    ensures Ser32(index) == Ser32(index') <==> index == index'
  {
    assert Pow(256, 4) == 0x1_0000_0000;
    hide Pow;
    ValueOfFixed(index, 256, 4);
    ValueOfFixed(index', 256, 4);
  }

  lemma SamePublic<P(!new)>(c: Curve<P>, key: Word, key': Word)
    requires SecpLaws(c) && Usable(c, key) && Usable(c, key') && PublicOf(c, key) == PublicOf(c, key')
    ensures key == key'
  {
    hide GroupLaws, SecpLaws;
    SecpGroup(c);
    var a, b := Value(key, 256), Value(key', 256);
    IdentityIff(c, a);
    IdentityIff(c, b);
    ReadBack(c, c.times(a));
    ReadBack(c, c.times(b));
    SameMultiple(c, a, b);
    SmallMod(a, c.order);
    SmallMod(b, c.order);
    FixedOfValue(key, 256);
    FixedOfValue(key', 256);
  }

  /**
    A wallet that keeps only the public key and chain code at `p` derives, along any non-hardened `q`, the public key
    of the private key at `p + q`, and a tweak that takes the one private key to the other; it fails exactly when the
    private derivation does, and for the same reason.
  */
  lemma AccountKeyMatches<P(!new)>(c: Curve<P>, hmac: Mac, seed: Bytes, p: seq<Index>, q: seq<Index>)
    requires SecpLaws(c) && PrivWalk(c, hmac, Master(hmac, seed), p).Success?
    requires p != [] || Usable(c, Master(hmac, seed).key)
    requires forall i :: 0 <= i < |q| ==> q[i] < HARDENED
    ensures var account := PrivWalk(c, hmac, Master(hmac, seed), p).value;
            var priv := PrivWalk(c, hmac, Master(hmac, seed), p + q);
            var pub := PubTweak(c, hmac, PublicOf(c, account.key), account.code, q);
            && pub.Success? == priv.Success?
            && (pub.Success? ==>
                  && pub.value.0 == PublicOf(c, priv.value.key)
                  && Value(priv.value.key, 256) == AddMod(Value(account.key, 256), Value(pub.value.1, 256), c.order))
            && (pub.Failure? ==> SameFailure(priv.error, pub.error))
  {
    hide GroupLaws, SecpLaws, Value, ToBe32, Pow, PublicOf, AddMod;
    SecpGroup(c);
    OrderFits(c);
    var account := PrivWalk(c, hmac, Master(hmac, seed), p).value;
    DerivedKeyIsUsable(c, hmac, Master(hmac, seed), p);
    EncodedLength(c, account.key);
    PrivWalkConcat(c, hmac, Master(hmac, seed), p, q);
    WalksCommute(c, hmac, account.key, account.code, q);
    hide PrivWalk, Master;
    var pub := PubWalk(c, hmac, PubNode(PublicOf(c, account.key), account.code, 0), q);
    if pub.Success? {
      hide PubWalk;
      ToBe32Value(pub.value.total);
    }
  }

  lemma EncodedLength<P(!new)>(c: Curve<P>, key: Word)
    requires SecpLaws(c) && Usable(c, key)
    ensures |PublicOf(c, key)| == 33
  {
    hide GroupLaws, SecpLaws, Value;
    SecpGroup(c);
    IdentityIff(c, Value(key, 256));
    SmallMod(Value(key, 256), c.order);
    ReadBack(c, c.times(Value(key, 256)));
  }

  // ---- the tweak, from public data alone ----

  /** Along any path the total is the multiple of the generator between the two points. */
  lemma {:induction false} PubWalkLands<P(!new)>(c: Curve<P>, hmac: Mac, start: PubNode, path: seq<Index>)
    requires SecpLaws(c) && start.total == 0 && PubWalk(c, hmac, start, path).Success?
    ensures var n := PubWalk(c, hmac, start, path).value;
            && n.total < c.order
            && (path == [] ==> n == start)
            && (path != [] ==> c.decode(start.pub).Some?)
            && (c.decode(start.pub).Some? ==>
                  c.decode(n.pub) == Some(c.add(c.decode(start.pub).value, c.times(n.total))))
  {
    hide GroupLaws, SecpLaws, Value, CkdPub, PubStep, AddMod;
    SecpGroup(c);
    OrderFits(c);
    if path == [] {
      if c.decode(start.pub).Some? {
        Unit(c, c.decode(start.pub).value);
      }
    } else {
      PubWalkLands(c, hmac, start, path[..|path| - 1]);
      var n := PubWalk(c, hmac, start, path[..|path| - 1]).value;
      PubStepLands(c, hmac, n, path[|path| - 1]);
      var il := Value(CkdPub(c, hmac, n.pub, n.code, path[|path| - 1]).value.2, 256);
      hide PubWalk;
      var p := c.decode(start.pub).value;
      Regrouped(c, p, n.total, il);
    }
  }

  lemma NotIdentity<P(!new)>(c: Curve<P>, parent: Bytes, left: Word)
    requires SecpLaws(c) && c.decode(parent).Some?
    requires c.add(c.times(Value(left, 256)), c.decode(parent).value) != c.identity
    ensures var child := c.add(c.times(Value(left, 256)), c.decode(parent).value);
            c.decode(c.encode(child)) == Some(c.add(c.decode(parent).value, c.times(Value(left, 256))))
  {
    hide GroupLaws, SecpLaws, Value;
    SecpGroup(c);
    Swapped(c, c.times(Value(left, 256)), c.decode(parent).value);
    ReadBack(c, c.add(c.times(Value(left, 256)), c.decode(parent).value));
  }

  /** What a successful public step is made of. */
  lemma CkdPubGives<P>(c: Curve<P>, hmac: Mac, parent: Bytes, code: Word, index: Index) returns (il: Word)
    requires CkdPub(c, hmac, parent, code, index).Success?
    ensures c.decode(parent).Some?
    ensures var child := c.add(c.times(Value(il, 256)), c.decode(parent).value);
            && child != c.identity
            && CkdPub(c, hmac, parent, code, index).value.2 == il
            && CkdPub(c, hmac, parent, code, index).value.0 == c.encode(child)
  {
    hide Value, Ser32;
    il := hmac(code, parent + Ser32(index)).0;
  }

  lemma PubStepLands<P(!new)>(c: Curve<P>, hmac: Mac, n: PubNode, index: Index)
    requires SecpLaws(c) && PubStep(c, hmac, n, index).Success?
    ensures c.decode(n.pub).Some? && CkdPub(c, hmac, n.pub, n.code, index).Success?
    ensures var il := Value(CkdPub(c, hmac, n.pub, n.code, index).value.2, 256);
            && PubStep(c, hmac, n, index).value.total == AddMod(n.total, il, c.order)
            && c.decode(PubStep(c, hmac, n, index).value.pub) == Some(c.add(c.decode(n.pub).value, c.times(il)))
  {
    var il := CkdPubGives(c, hmac, n.pub, n.code, index);
    hide GroupLaws, SecpLaws, AddMod, Value, CkdPub;
    NotIdentity(c, n.pub, il);
  }

  /** The child is the parent plus the tweak times the generator, and no other number below the order does that. */
  lemma TweakLands<P(!new)>(c: Curve<P>, hmac: Mac, parent: Bytes, code: Bytes, path: seq<Index>, other: nat)
    requires SecpLaws(c) && PubTweak(c, hmac, parent, code, path).Success?
    requires c.decode(parent).Some? && other < c.order
    ensures var (child, tweak) := PubTweak(c, hmac, parent, code, path).value;
            && Value(tweak, 256) < c.order
            && c.decode(child) == Some(c.add(c.decode(parent).value, c.times(Value(tweak, 256))))
            && (c.decode(child) == Some(c.add(c.decode(parent).value, c.times(other))) <==> other == Value(tweak, 256))
  {
    hide GroupLaws, SecpLaws, Value, ToBe32, Pow, PubWalk;
    SecpGroup(c);
    OrderFits(c);
    PubWalkLands(c, hmac, PubNode(parent, code, 0), path);
    var n := PubWalk(c, hmac, PubNode(parent, code, 0), path).value;
    var p := c.decode(parent).value;
    if c.add(p, c.times(n.total)) == c.add(p, c.times(other)) {
      Cancel(c, p, n.total, other);
    }
    ToBe32Value(n.total);
  }

  lemma {:induction false} UndecodableWalkFails<P>(c: Curve<P>, hmac: Mac, start: PubNode, path: seq<Index>)
    requires c.order > 0 && c.decode(start.pub).None? && path != []
    ensures PubWalk(c, hmac, start, path).Failure?
  {
    hide Value, Ser32, AddMod;
    if |path| > 1 {
      UndecodableWalkFails(c, hmac, start, path[..|path| - 1]);
    } else {
      assert path[..0] == [];
    }
  }

  /** A key that does not decode is accepted exactly on the empty path, where it comes back with a zero tweak. */
  lemma UndecodableParentIff<P>(c: Curve<P>, hmac: Mac, parent: Bytes, code: Bytes, path: seq<Index>)
    requires c.order > 0 && |parent| == 33 && |code| == 32 && c.decode(parent).None?
    ensures PubTweak(c, hmac, parent, code, path).Success? <==> path == []
    ensures path == [] ==> PubTweak(c, hmac, parent, code, path) == Success((parent, ToBe32(0)))
  {
    hide PubStep, ToBe32;
    if path != [] {
      UndecodableWalkFails(c, hmac, PubNode(parent, code, 0), path);
    }
  }

  /** One hardened index anywhere makes public derivation fail. */
  lemma {:induction false} HardenedPathFails<P>(c: Curve<P>, hmac: Mac, start: PubNode, path: seq<Index>, k: nat)
    requires c.order > 0 && k < |path| && path[k] >= HARDENED
    ensures PubWalk(c, hmac, start, path).Failure?
  {
    if k < |path| - 1 {
      HardenedPathFails(c, hmac, start, path[..|path| - 1], k);
    }
  }

  // ---- the tweak from the wallet's root (bitcoin.rs) ----

  /** Rust's remainder: it takes the sign of the dividend. */
  function Rem(a: int, n: nat): int
    requires n > 0
  {
    if a >= 0 then a % n else -((-a) % n)
  }

  function CombineTweak(accountIl: int, childTweak: Word): Word {
    var sum := Rem(Rem(accountIl + Value(childTweak, 256), SECP_N) + SECP_N, SECP_N);
    ToBe32(if sum >= 0 then sum else -sum)
  }

  lemma RemTwice(a: int, n: nat)
    requires n > 0
    ensures Rem(Rem(a, n) + n, n) == a % n
  {
    if a >= 0 {
      DivMod(a, n);
      SameResidue(a % n + n, a % n, 1, n);
      SameResidue(a, a % n, a / n, n);
    } else {
      DivMod(-a, n);
      var q, r := (-a) / n, (-a) % n;
      Distribute(-q, 1, n);
      SameResidue(n - r, a, q + 1, n);
    }
  }

  /** The remainder in `[0, n)`, for negative numbers too. */
  function Mod(a: int, n: nat): nat
    requires n > 0
  {
    a % n
  }

  lemma LandsByTweak<P(!new)>(c: Curve<P>, hmac: Mac, parent: Bytes, code: Bytes, path: seq<Index>) returns (t: nat)
    requires SecpLaws(c) && PubTweak(c, hmac, parent, code, path).Success? && c.decode(parent).Some?
    ensures t == Value(PubTweak(c, hmac, parent, code, path).value.1, 256)
    ensures c.decode(PubTweak(c, hmac, parent, code, path).value.0) == Some(c.add(c.decode(parent).value, c.times(t)))
  {
    hide GroupLaws, Value, PubTweak;
    SecpGroup(c);
    OrderFits(c);
    hide SecpLaws;
    TweakLands(c, hmac, parent, code, path, 0);
    t := Value(PubTweak(c, hmac, parent, code, path).value.1, 256);
  }

  /** The combined tweak takes the wallet's root to the input's own key, for any account offset, negative or not. */
  lemma InputKeyIsRootPlusTweak<P(!new)>(
      c: Curve<P>, hmac: Mac, root: P, accountIl: int, account: Bytes, code: Bytes, path: seq<Index>)
    requires SecpLaws(c) && PubTweak(c, hmac, account, code, path).Success?
    requires c.decode(account) == Some(c.add(root, c.times(Mod(accountIl, c.order))))
    ensures var (key, tweak) := PubTweak(c, hmac, account, code, path).value;
            && Value(CombineTweak(accountIl, tweak), 256) < c.order
            && c.decode(key) == Some(c.add(root, c.times(Value(CombineTweak(accountIl, tweak), 256))))
  {
    hide GroupLaws, SecpLaws, Value, ToBe32, Pow, PubTweak, CombineTweak, AddMod, Mod;
    SecpGroup(c);
    OrderFits(c);
    var t := LandsByTweak(c, hmac, account, code, path);
    CombinedValue(c, accountIl, PubTweak(c, hmac, account, code, path).value.1);
    OffsetMod(accountIl, t, c.order);
    Regrouped(c, root, Mod(accountIl, c.order), t);
  }

  lemma OffsetMod(a: int, t: nat, n: nat)
    requires n > 0
    ensures AddMod(Mod(a, n), t, n) == Mod(a + t, n)
  {
    assert a == (a / n) * n + a % n;
    SameResidue(a + t, a % n + t, a / n, n);
  }

  lemma CombinedValue<P(!new)>(c: Curve<P>, accountIl: int, childTweak: Word)
    requires SecpLaws(c)
    ensures Value(CombineTweak(accountIl, childTweak), 256) == Mod(accountIl + Value(childTweak, 256), c.order)
  {
    hide GroupLaws, Value, ToBe32, Pow;
    OrderFits(c);
    var sum := accountIl + Value(childTweak, 256);
    RemTwice(sum, c.order);
    assert 0 <= sum % c.order < c.order;
    ToBe32Value(sum % c.order);
  }

  // ---- ed25519: the same additive tweak in any group ----

  datatype EdNode<P> = EdNode(point: P, code: Word, acc: nat)

  function EdStep<P(==)>(c: Curve<P>, hmac: Mac, n: EdNode<P>, index: Index): Result<EdNode<P>, DeriveError>
    requires c.order > 0
  {
    var (left, code) := hmac(n.code, Ascii("FROST-Ed25519-HD-v1") + c.encode(n.point) + Ser32(index));
    var il := Value(left, 256) % c.order;
    if il == 0 then Failure(TweakIsZero)
    else
      var next := c.add(n.point, c.times(il));
      if next == c.identity then Failure(ChildIdentity)
      else Success(EdNode(next, code, AddMod(n.acc, il, c.order)))
  }

  ghost function EdWalk<P>(c: Curve<P>, hmac: Mac, start: EdNode<P>, path: seq<Index>): Result<EdNode<P>, DeriveError>
    requires c.order > 0
  {
    if path == [] then Success(start)
    else
      var n :- EdWalk(c, hmac, start, path[..|path| - 1]);
      EdStep(c, hmac, n, path[|path| - 1])
  }

  lemma {:induction false} FailedEdPrefix<P>(c: Curve<P>, hmac: Mac, start: EdNode<P>, path: seq<Index>, k: nat)
    requires c.order > 0 && k <= |path| && EdWalk(c, hmac, start, path[..k]).Failure?
    ensures EdWalk(c, hmac, start, path) == EdWalk(c, hmac, start, path[..k])
  {
    if k < |path| {
      assert path[..|path| - 1][..k] == path[..k];
      FailedEdPrefix(c, hmac, start, path[..|path| - 1], k);
    } else {
      assert path[..k] == path;
    }
  }

  function EdMaster<P>(c: Curve<P>, sha256: Bytes -> Word, point: P): EdNode<P> {
    EdNode(point, sha256(Ascii("FROST-Ed25519-chaincode-v1") + c.encode(point)), 0)
  }

  ghost function EdTweak<P>(c: Curve<P>, hmac: Mac, sha256: Bytes -> Word, groupPub: Word, path: seq<Index>):
      Result<(Word, Bytes), DeriveError>
    requires c.order > 0
  {
    if exists i :: 0 <= i < |path| && path[i] >= HARDENED then Failure(HardenedIndex)
    else
      match c.decode(groupPub)
      case None => Failure(BadGroupKey)
      case Some(point) =>
        var n :- EdWalk(c, hmac, EdMaster(c, sha256, point), path);
        Success((ToBe32(n.acc), c.encode(n.point)))
  }

  method Ed25519DerivePubTweak<P(==)>(c: Curve<P>, hmac: Mac, sha256: Bytes -> Word, groupPub: Word, path: seq<Index>)
    returns (r: Result<(Word, Bytes), DeriveError>)
    requires c.order > 0
    ensures r == EdTweak(c, hmac, sha256, groupPub, path)
  {
    hide EdStep, EdMaster, ToBe32;
    for k := 0 to |path|
      invariant forall i :: 0 <= i < k ==> path[i] < HARDENED
    {
      if path[k] >= HARDENED {
        return Failure(HardenedIndex);
      }
    }
    var decoded := c.decode(groupPub);
    if decoded.None? {
      return Failure(BadGroupKey);
    }
    var start := EdMaster(c, sha256, decoded.value);
    var n := start;
    for k := 0 to |path|
      invariant EdWalk(c, hmac, start, path[..k]) == Success(n)
    {
      assert path[..k + 1][..k] == path[..k];
      var step := EdStep(c, hmac, n, path[k]);
      if step.Failure? {
        FailedEdPrefix(c, hmac, start, path, k + 1);
        return Failure(step.error);
      }
      n := step.value;
    }
    assert path[..|path|] == path;
    return Success((ToBe32(n.acc), c.encode(n.point)));
  }

  lemma {:induction false} EdWalkLands<P(!new)>(c: Curve<P>, hmac: Mac, start: EdNode<P>, path: seq<Index>)
    requires GroupLaws(c) && start.acc == 0 && EdWalk(c, hmac, start, path).Success?
    ensures var n := EdWalk(c, hmac, start, path).value;
            && n.acc < c.order
            && n.point == c.add(start.point, c.times(n.acc))
            && (path != [] ==> n.point != c.identity)
  {
    hide GroupLaws, Value, Ascii, Ser32, AddMod;
    OrderFits(c);
    if path == [] {
      Unit(c, start.point);
    } else {
      EdWalkLands(c, hmac, start, path[..|path| - 1]);
      var n := EdWalk(c, hmac, start, path[..|path| - 1]).value;
      var data := Ascii("FROST-Ed25519-HD-v1") + c.encode(n.point) + Ser32(path[|path| - 1]);
      var il := Value(hmac(n.code, data).0, 256) % c.order;
      assert EdStep(c, hmac, n, path[|path| - 1]).value.point == c.add(n.point, c.times(il));
      hide EdWalk;
      Regrouped(c, start.point, n.acc, il);
    }
  }

  lemma StartsAtZero<P(!new)>(c: Curve<P>, sha256: Bytes -> Word, point: P)
    ensures EdMaster(c, sha256, point).acc == 0 && EdMaster(c, sha256, point).point == point
  {
  }

  /** The ed25519 child key is the group key plus the returned tweak times the base point. */
  lemma EdTweakLands<P(!new)>(c: Curve<P>, hmac: Mac, sha256: Bytes -> Word, groupPub: Word, path: seq<Index>)
    requires GroupLaws(c) && EdTweak(c, hmac, sha256, groupPub, path).Success?
    ensures c.decode(groupPub).Some?
    ensures var (tweak, child) := EdTweak(c, hmac, sha256, groupPub, path).value;
            var point := c.add(c.decode(groupPub).value, c.times(Value(tweak, 256)));
            && Value(tweak, 256) < c.order
            && child == c.encode(point)
            && (path != [] ==> point != c.identity)
  {
    hide GroupLaws, Value, ToBe32, Pow, EdWalk, EdMaster;
    OrderFits(c);
    var start := EdMaster(c, sha256, c.decode(groupPub).value);
    StartsAtZero(c, sha256, c.decode(groupPub).value);
    EdWalkLands(c, hmac, start, path);
    ToBe32Value(EdWalk(c, hmac, start, path).value.acc);
  }

  // ---- the laws can be met ----

  type Residue = k: nat | k < SECP_N

  function AddResidues(p: Residue, q: Residue): Residue {
    (p + q) % SECP_N
  }

  function ResidueOf(k: nat): Residue {
    k % SECP_N
  }

  function WriteResidue(p: Residue): Bytes {
    Fixed(p, 256, 33)
  }

  function ReadResidue(b: Bytes): Option<Residue> {
    if |b| == 33 && 0 < Value(b, 256) < SECP_N then Some(Value(b, 256)) else None
  }

  /** The numbers modulo the order, under addition, written in 33 bytes. */
  function Residues(): Curve<Residue> {
    Curve(SECP_N, 0, AddResidues, ResidueOf, WriteResidue, ReadResidue)
  }

  lemma OrderIsSmall()
    ensures 1 < SECP_N <= Pow(256, 32) <= Pow(256, 33)
  {
    PowAdd(256, 16, 16);
    PowAdd(256, 8, 8);
    PowAdd(256, 4, 4);
    assert Pow(256, 4) == 0x1_0000_0000;
    PowMonotone(256, 32, 33);
  }

  lemma ResiduesAssociate(p: Residue, q: Residue, r: Residue)
    ensures AddResidues(AddResidues(p, q), r) == AddResidues(p, AddResidues(q, r))
    ensures AddResidues(p, q) == AddResidues(q, p)
  {
    SameResidue((p + q) % SECP_N + r, p + (q + r) % SECP_N, (q + r) / SECP_N - (p + q) / SECP_N, SECP_N);
  }

  lemma ResiduesInvert(p: Residue)
    ensures AddResidues(p, 0) == p && AddResidues(ResidueOf(SECP_N - p), p) == 0
  {
  }

  lemma ResiduesAdd(a: nat, b: nat)
    ensures AddsUp(Residues(), a, b)
  {
    SameResidue(a + b, a % SECP_N + b % SECP_N, a / SECP_N + b / SECP_N, SECP_N);
  }

  lemma ResiduesRepeat(a: nat, b: nat)
    ensures Residues().order != 0 && Repeats(Residues(), a, b)
  {
  }

  lemma ResidueReadsBack(p: Residue)
    requires p != 0
    ensures |WriteResidue(p)| == 33 && ReadResidue(WriteResidue(p)) == Some(p)
  {
    OrderIsSmall();
    hide Pow, Fixed, Value;
    ValueOfFixed(p, 256, 33);
  }

  lemma ResiduesAreAbelian()
    ensures Abelian(Residues())
  {
    var c := Residues();
    hide AddResidues, ResidueOf;
    forall p: Residue, q: Residue, r: Residue
      ensures c.add(c.add(p, q), r) == c.add(p, c.add(q, r)) && c.add(p, q) == c.add(q, p)
    {
      ResiduesAssociate(p, q, r);
    }
    forall p: Residue, q: Residue
      ensures c.add(p, q) == c.add(q, p)
    {
      ResiduesAssociate(p, q, 0);
    }
    forall p: Residue
      ensures c.add(p, c.identity) == p && Invertible(c, p)
    {
      ResiduesInvert(p);
      assert c.add(ResidueOf(SECP_N - p), p) == c.identity;
    }
  }

  lemma ResiduesHaveMultiples()
    ensures Multiples(Residues())
  {
    hide Residues, AddsUp, Repeats;
    ResiduesRepeat(0, 0);
    forall a: nat, b: nat
      ensures AddsUp(Residues(), a, b) && Repeats(Residues(), a, b)
    {
      ResiduesAdd(a, b);
      ResiduesRepeat(a, b);
    }
  }

  lemma ResiduesAreGroup()
    ensures GroupLaws(Residues())
  {
    OrderIsSmall();
    ReadsNoIdentity();
    ResiduesAreAbelian();
    ResiduesHaveMultiples();
    hide Pow, Abelian, Multiples;
  }

  /** The laws asked of the curve contradict nothing: the residues modulo the order meet them. */
  lemma LawsCanBeMet()
    ensures SecpLaws(Residues())
  {
    ResiduesAreGroup();
    ReadsNoIdentity();
    hide GroupLaws, AddResidues, ResidueOf, WriteResidue, ReadResidue;
    var c := Residues();
    forall p: Residue | p != c.identity
      ensures |c.encode(p)| == 33 && c.decode(c.encode(p)) == Some(p)
    {
      ResidueReadsBack(p);
    }
  }

  lemma ReadsNoIdentity()
    ensures Residues().times(0) == Residues().identity
    ensures forall b: Bytes :: ReadResidue(b).Some? ==> ReadResidue(b).value != 0
  {
  }
}
