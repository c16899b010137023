/**
  EIP-712 type strings (rust/src/eip712.rs): the depth-first search for referenced types over any type table, cyclic
  ones included, and encodeType, which lists them after the primary type in sorted order.
*/
module TypeGraph {
  import opened Wrappers
  import opened Text

  datatype Field = Field(name: string, typ: string)

  type Types = map<string, seq<Field>>

  /** The base of a field type: everything before its first bracket. */
  function StripArraySuffix(t: string): string {
    match Find(t, '[')
    case Some(i) => t[..i]
    case None => t
  }

  // ---- reachability ----

  /** `a` has a field whose base type is the struct `b`. */
  ghost predicate Edge(types: Types, a: string, b: string) {
    a in types && b in types && exists i :: 0 <= i < |types[a]| && StripArraySuffix(types[a][i].typ) == b
  }

  ghost predicate Path(types: Types, p: seq<string>) {
    p != [] && p[0] in types && forall i :: 0 <= i < |p| - 1 ==> Edge(types, p[i], p[i + 1])
  }

  ghost predicate Reaches(types: Types, a: string, b: string) {
    exists p :: Path(types, p) && p[0] == a && p[|p| - 1] == b
  }

  lemma ReachesItself(types: Types, a: string)
    requires a in types
    ensures Reaches(types, a, a)
  {
    assert Path(types, [a]);
  }

  lemma ReachesThrough(types: Types, a: string, b: string, c: string)
    requires a in types && Edge(types, a, b) && Reaches(types, b, c)
    ensures Reaches(types, a, c)
  {
    var p :| Path(types, p) && p[0] == b && p[|p| - 1] == c;
    hide Edge;
    var q := [a] + p;
    forall i | 0 <= i < |q| - 1 ensures Edge(types, q[i], q[i + 1]) {
      if i > 0 {
        assert Edge(types, p[i - 1], p[i - 1 + 1]);
      }
    }
    assert Path(types, q);
  }

  /** Every node of `s` has its successors in `r`. */
  ghost predicate Closed(types: Types, s: set<string>, r: set<string>) {
    forall d, b :: d in s && Edge(types, d, b) ==> b in r
  }

  lemma {:induction false} ClosedHoldsPath(types: Types, r: set<string>, p: seq<string>)
    requires Closed(types, r, r) && Path(types, p) && p[0] in r
    ensures p[|p| - 1] in r
  {
    if |p| > 1 {
      assert Edge(types, p[0], p[1]);
      assert Path(types, p[1..]) by {
        forall i | 0 <= i < |p| - 2 ensures Edge(types, p[1..][i], p[1..][i + 1]) {
          assert Edge(types, p[i + 1], p[i + 2]);
        }
      }
      ClosedHoldsPath(types, r, p[1..]);
    }
  }

  // ---- the search ----

  /** Adds `name` and what it references to the shared set, leaving every new member closed. */
  method FindDeps(types: Types, name: string, deps: set<string>) returns (r: set<string>)
    requires deps <= types.Keys
    ensures deps <= r <= types.Keys
    ensures name in types ==> name in r
    ensures forall d :: d in r - deps ==> Reaches(types, name, d)
    ensures Closed(types, r - deps, r)
    decreases types.Keys - deps
  {
    if name in deps || name !in types {
      return deps;
    }
    r := deps + {name};
    ReachesItself(types, name);
    var fields := types[name];
    for k := 0 to |fields|
      invariant deps + {name} <= r <= types.Keys
      invariant forall d :: d in r - deps ==> Reaches(types, name, d)
      invariant forall i :: 0 <= i < k && StripArraySuffix(fields[i].typ) in types ==>
                  StripArraySuffix(fields[i].typ) in r
      invariant Closed(types, r - deps - {name}, r)
    {
      var base := StripArraySuffix(fields[k].typ);
      if base in types {
        ghost var before := r;
        r := FindDeps(types, base, r);
        forall d | d in r - before ensures Reaches(types, name, d) {
          assert Edge(types, name, base);
          ReachesThrough(types, name, base, d);
        }
      }
    }
  }

  /** From an empty set the search finds exactly the reachable types. */
  method Dependencies(types: Types, name: string) returns (r: set<string>)
    requires name in types
    ensures forall d :: d in r <==> Reaches(types, name, d)
    ensures r <= types.Keys
  {
    r := FindDeps(types, name, {});
    assert r - {} == r;
    forall d | Reaches(types, name, d) ensures d in r {
      var p :| Path(types, p) && p[0] == name && p[|p| - 1] == d;
      ClosedHoldsPath(types, r, p);
    }
  }

  // ---- the order of a BTreeSet of strings ----

  predicate Less(a: string, b: string) {
    b != [] && (a == [] || a[0] < b[0] || (a[0] == b[0] && Less(a[1..], b[1..])))
  }

  lemma {:induction false} LessIsTotal(a: string, b: string)
    ensures a == b || Less(a, b) || Less(b, a)
    ensures !(Less(a, b) && Less(b, a)) && (a == b ==> !Less(a, b))
  {
    if a != [] && b != [] {
      LessIsTotal(a[1..], b[1..]);
      if a[0] == b[0] && a[1..] == b[1..] {
        assert a == [a[0]] + a[1..] && b == [b[0]] + b[1..];
      }
    }
  }

  lemma {:induction false} LessIsTransitive(a: string, b: string, c: string)
    requires Less(a, b) && Less(b, c)
    ensures Less(a, c)
  {
    if a != [] && a[0] == b[0] && b[0] == c[0] {
      LessIsTransitive(a[1..], b[1..], c[1..]);
    }
  }

  ghost predicate Sorted(s: seq<string>) {
    forall i, j :: 0 <= i < j < |s| ==> Less(s[i], s[j])
  }

  /** `order` lists the members of `s`, each once, in increasing order. */
  ghost predicate Lists(order: seq<string>, s: set<string>) {
    Sorted(order) && forall x :: x in order <==> x in s
  }

  /** There is only one such list. */
  lemma {:induction false} ListIsUnique(p: seq<string>, q: seq<string>, s: set<string>)
    requires Lists(p, s) && Lists(q, s)
    ensures p == q
    decreases |p|
  {
    if p == [] {
      assert forall i :: 0 <= i < |q| ==> q[i] in q;
    } else {
      assert p[0] in s;
      assert q != [];
      SameFirst(p, q, s);
      SmallerTail(p, s);
      SmallerTail(q, s);
      ListIsUnique(p[1..], q[1..], s - {p[0]});
      assert p == [p[0]] + p[1..] && q == [q[0]] + q[1..];
    }
  }

  lemma SameFirst(p: seq<string>, q: seq<string>, s: set<string>)
    requires Lists(p, s) && Lists(q, s) && p != [] && q != []
    ensures p[0] == q[0]
  {
    assert p[0] in q && q[0] in p;
    var i :| 0 <= i < |q| && q[i] == p[0];
    var j :| 0 <= j < |p| && p[j] == q[0];
    LessIsTotal(p[0], q[0]);
  }

  lemma SmallerTail(p: seq<string>, s: set<string>)
    requires Lists(p, s) && p != []
    ensures Lists(p[1..], s - {p[0]})
  {
    forall x ensures x in p[1..] <==> x in s - {p[0]} {
      if x in p[1..] {
        var i :| 0 <= i < |p[1..]| && p[1..][i] == x;
        LessIsTotal(p[0], p[i + 1]);
      }
      if x in s && x != p[0] {
        var i :| 0 <= i < |p| && p[i] == x;
        assert p[1..][i - 1] == x;
      }
    }
  }

  function Inserted(order: seq<string>, x: string): seq<string> {
    if order == [] || Less(x, order[0]) then [x] + order else [order[0]] + Inserted(order[1..], x)
  }

  lemma {:induction false} InsertedLists(order: seq<string>, x: string, s: set<string>)
    requires Lists(order, s) && x !in s
    ensures Lists(Inserted(order, x), s + {x})
  {
    var r := Inserted(order, x);
    if order == [] || Less(x, order[0]) {
      forall j | 0 <= j < |order| ensures Less(x, order[j]) {
        if j > 0 {
          LessIsTransitive(x, order[0], order[j]);
        }
      }
    } else {
      var first, rest := order[0], Inserted(order[1..], x);
      assert first in s;
      LessIsTotal(x, first);
      SmallerTail(order, s);
      InsertedLists(order[1..], x, s - {first});
      assert s + {x} == (s - {first} + {x}) + {first};
      forall j | 0 <= j < |rest| ensures Less(first, rest[j]) {
        assert rest[j] in rest;
        if rest[j] != x {
          var i :| 0 <= i < |order| && order[i] == rest[j];
        }
      }
    }
  }

  lemma {:induction false} ListExists(s: set<string>)
    ensures exists order :: Lists(order, s)
  {
    if s == {} {
      assert Lists([], s);
    } else {
      var x :| x in s;
      ListExists(s - {x});
      var order :| Lists(order, s - {x});
      InsertedLists(order, x, s - {x});
      assert s - {x} + {x} == s;
    }
  }

  method InOrder(s: set<string>) returns (order: seq<string>)
    ensures Lists(order, s)
  {
    order := [];
    var left := s;
    while left != {}
      invariant left <= s && Lists(order, s - left)
      decreases left
    {
      var x :| x in left;
      InsertedLists(order, x, s - left);
      order := Inserted(order, x);
      assert s - left + {x} == s - (left - {x});
      left := left - {x};
    }
    assert s - {} == s;
  }

  // ---- encodeType ----

  function FieldText(f: Field): string {
    f.typ + " " + f.name
  }

  function FieldTexts(fields: seq<Field>): string {
    if fields == [] then ""
    else if |fields| == 1 then FieldText(fields[0])
    else FieldTexts(fields[..|fields| - 1]) + "," + FieldText(fields[|fields| - 1])
  }

  function FormatType(name: string, fields: seq<Field>): string {
    name + "(" + FieldTexts(fields) + ")"
  }

  /** The type strings of `order`, one after another; every name must be in the table. */
  function FormatAll(types: Types, order: seq<string>): string
    requires forall x :: x in order ==> x in types
  {
    if order == [] then ""
    else FormatAll(types, order[..|order| - 1]) + FormatType(order[|order| - 1], types[order[|order| - 1]])
  }

  /** The sorted list of the types `name` references, itself left out. */
  ghost predicate References(types: Types, name: string, order: seq<string>) {
    Sorted(order) && forall d :: d in order <==> d != name && Reaches(types, name, d)
  }

  lemma {:induction false} ReachesOnlyTypes(types: Types, a: string, b: string)
    requires Reaches(types, a, b)
    ensures b in types
  {
    var p :| Path(types, p) && p[0] == a && p[|p| - 1] == b;
    if |p| > 1 {
      assert Edge(types, p[|p| - 2], p[|p| - 1]);
    }
  }

  /** The references are one list, so the type string is one string. */
  lemma ReferencesUnique(types: Types, name: string, p: seq<string>, q: seq<string>)
    requires References(types, name, p) && References(types, name, q)
    ensures p == q
  {
    var s := set x | x in p;
    assert Lists(p, s) && Lists(q, s);
    ListIsUnique(p, q, s);
  }

  lemma ReferencesInTable(types: Types, name: string, order: seq<string>)
    requires References(types, name, order)
    ensures forall x :: x in order ==> x in types
  {
    forall x | x in order ensures x in types {
      ReachesOnlyTypes(types, name, x);
    }
  }

  lemma ReferencesExist(types: Types, name: string)
    ensures exists order :: References(types, name, order)
  {
    var s := set d | d in types && d != name && Reaches(types, name, d);
    ListExists(s);
    var order :| Lists(order, s);
    forall d | d != name && Reaches(types, name, d) ensures d in s {
      ReachesOnlyTypes(types, name, d);
    }
    assert References(types, name, order);
  }

  /** The primary type comes first, then every other reachable type exactly once, sorted. */
  ghost function TypeString(types: Types, name: string): string
    requires name in types
  {
    ReferencesExist(types, name);
    var order :| References(types, name, order);
    ReferencesInTable(types, name, order);
    FormatType(name, types[name]) + FormatAll(types, order)
  }

  /** Any listing of the references gives the type string. */
  lemma TypeStringIs(types: Types, name: string, order: seq<string>)
    requires name in types && References(types, name, order)
    ensures forall x :: x in order ==> x in types
    ensures TypeString(types, name) == FormatType(name, types[name]) + FormatAll(types, order)
  {
    ReferencesInTable(types, name, order);
    ghost var listed :| References(types, name, listed)
      && (ReferencesInTable(types, name, listed);
          TypeString(types, name) == FormatType(name, types[name]) + FormatAll(types, listed));
    hide References, FormatType, FormatAll, TypeString;
    ReferencesUnique(types, name, order, listed);
  }

  lemma ListingReferences(types: Types, name: string, deps: set<string>, order: seq<string>)
    requires Lists(order, deps - {name}) && forall d :: d in deps <==> Reaches(types, name, d)
    ensures References(types, name, order)
  {
    hide Sorted, Reaches;
  }

  /** The text after `k` of the listed types. */
  function TextSoFar(types: Types, name: string, order: seq<string>, k: nat): string
    requires name in types && k <= |order| && forall x :: x in order ==> x in types
  {
    FormatType(name, types[name]) + FormatAll(types, order[..k])
  }

  lemma TextGrows(types: Types, name: string, order: seq<string>, k: nat)
    requires name in types && k < |order| && forall x :: x in order ==> x in types
    ensures TextSoFar(types, name, order, k + 1)
         == TextSoFar(types, name, order, k) + FormatType(order[k], types[order[k]])
  {
    hide FormatType;
    assert order[..k + 1][..k] == order[..k];
  }

  lemma TextEnds(types: Types, name: string, order: seq<string>)
    requires name in types && forall x :: x in order ==> x in types
    ensures TextSoFar(types, name, order, 0) == FormatType(name, types[name])
    ensures TextSoFar(types, name, order, |order|) == FormatType(name, types[name]) + FormatAll(types, order)
  {
    hide FormatType;
    assert order[..|order|] == order;
  }

  method EncodeType(types: Types, name: string) returns (r: Option<string>)
    ensures r.Some? <==> name in types
    ensures r.Some? ==> r.value == TypeString(types, name)
  {
    if name !in types {
      return None;
    }
    var deps := Dependencies(types, name);
    var order := InOrder(deps - {name});
    hide *;
    ListingReferences(types, name, deps, order);
    TypeStringIs(types, name, order);
    TextEnds(types, name, order);
    var text := FormatType(name, types[name]);
    for k := 0 to |order|
      invariant text == TextSoFar(types, name, order, k)
    {
      TextGrows(types, name, order, k);
      text := text + FormatType(order[k], types[order[k]]);
    }
    return Some(text);
  }

  // ---- the order of strings ----

  /** The strings agree up to `k`, where the first ends or has the smaller character. */
  ghost predicate LessAt(a: string, b: string, k: nat) {
    k <= |a| && k < |b| && a[..k] == b[..k] && (k == |a| || a[k] < b[k])
  }

  lemma SameHead(a: string, b: string, k: nat)
    requires LessAt(a, b, k)
    ensures k > 0 ==> a != [] && b != [] && a[0] == b[0]
  {
    if k > 0 {
      assert a[..k][0] == a[0] && b[..k][0] == b[0];
    }
  }

  /** The order of the references is lexicographic. */
  lemma {:induction false} LessMeans(a: string, b: string)
    ensures Less(a, b) <==> exists k: nat :: LessAt(a, b, k)
  {
    if a != [] && b != [] && a[0] == b[0] {
      LessMeans(a[1..], b[1..]);
      if Less(a, b) {
        var k: nat :| LessAt(a[1..], b[1..], k);
        assert a[..k + 1] == [a[0]] + a[1..][..k] && b[..k + 1] == [b[0]] + b[1..][..k];
        assert LessAt(a, b, k + 1);
      }
      if k: nat :| LessAt(a, b, k) {
        assert k > 0;
        assert a[1..][..k - 1] == a[..k][1..] && b[1..][..k - 1] == b[..k][1..];
        assert LessAt(a[1..], b[1..], k - 1);
      }
    } else {
      if Less(a, b) {
        assert LessAt(a, b, 0);
      }
      forall k: nat | LessAt(a, b, k)
        ensures k > 0 ==> a != [] && b != [] && a[0] == b[0]
      {
        SameHead(a, b, k);
      }
    }
  }
}
