/** The string operations of Rust's standard library that the models use, over ASCII text. */
module Text {
  import opened Wrappers

  predicate IsSpace(c: char) {
    c == ' ' || c == '\t' || c == '\n' || c == '\r' || c == 11 as char || c == 12 as char
  }

  function TrimStart(s: string): (t: string)
    ensures |t| <= |s| && (t != [] ==> !IsSpace(t[0]))
  {
    if s != [] && IsSpace(s[0]) then TrimStart(s[1..]) else s
  }

  function TrimEnd(s: string): string {
    if s != [] && IsSpace(s[|s| - 1]) then TrimEnd(s[..|s| - 1]) else s
  }

  function Trim(s: string): string {
    TrimEnd(TrimStart(s))
  }

  lemma TrimKeeps(s: string)
    requires s != [] && !IsSpace(s[0]) && !IsSpace(s[|s| - 1])
    ensures Trim(s) == s
  {
  }

  lemma {:induction false} TrimEndStops(s: string)
    ensures TrimEnd(s) <= s && (TrimEnd(s) != [] ==> !IsSpace(TrimEnd(s)[|TrimEnd(s)| - 1]))
  {
    if s != [] && IsSpace(s[|s| - 1]) {
      TrimEndStops(s[..|s| - 1]);
    }
  }

  lemma TrimTwice(s: string)
    ensures Trim(Trim(s)) == Trim(s)
  {
    TrimEndStops(TrimStart(s));
  }

  /** Where `c` first occurs. */
  function Find(s: string, c: char): (r: Option<nat>)
    ensures r.Some? ==> r.value < |s| && s[r.value] == c && c !in s[..r.value]
    ensures r.None? <==> c !in s
  {
    if s == [] then None
    else if s[0] == c then Some(0)
    else
      assert s == [s[0]] + s[1..];
      match Find(s[1..], c)
      case None => None
      case Some(i) =>
        assert s[..i + 1] == [s[0]] + s[1..][..i];
        Some(i + 1)
  }

  /** Where `c` last occurs. */
  function FindLast(s: string, c: char): (r: Option<nat>)
    ensures r.Some? ==> r.value < |s| && s[r.value] == c && c !in s[r.value + 1..]
    ensures r.None? <==> c !in s
  {
    if s == [] then None
    else if s[|s| - 1] == c then Some(|s| - 1)
    else
      var front := s[..|s| - 1];
      assert s == front + [s[|s| - 1]];
      match FindLast(front, c)
      case None => None
      case Some(i) =>
        assert s[i + 1..] == front[i + 1..] + [s[|s| - 1]];
        Some(i)
  }

  /** A first occurrence is the only place the search can stop. */
  lemma FindIs(s: string, c: char, i: nat)
    requires i < |s| && s[i] == c && c !in s[..i]
    ensures Find(s, c) == Some(i)
  {
    var r := Find(s, c).value;
    assert forall k :: 0 <= k < i ==> s[k] == s[..i][k];
    assert forall k :: 0 <= k < r ==> s[k] == s[..r][k];
  }

  lemma FindLastIs(s: string, c: char, i: nat)
    requires i < |s| && s[i] == c && c !in s[i + 1..]
    ensures FindLast(s, c) == Some(i)
  {
    var r := FindLast(s, c).value;
    assert forall k :: i < k < |s| ==> s[k] == s[i + 1..][k - i - 1];
    assert forall k :: r < k < |s| ==> s[k] == s[r + 1..][k - r - 1];
  }

  predicate StartsWith(s: string, prefix: string) {
    |prefix| <= |s| && s[..|prefix|] == prefix
  }

  // ---- words between spaces ----

  ghost predicate IsWord(w: string) {
    w != [] && forall c :: c in w ==> !IsSpace(c)
  }

  /** Where the word at the front of `s` ends. */
  function WordEnd(s: string): (n: nat)
    ensures n <= |s| && (forall c :: c in s[..n] ==> !IsSpace(c))
    ensures s != [] && !IsSpace(s[0]) ==> n > 0
  {
    if s == [] || IsSpace(s[0]) then 0
    else
      assert s[..1 + WordEnd(s[1..])] == [s[0]] + s[1..][..WordEnd(s[1..])];
      1 + WordEnd(s[1..])
  }

  function SplitWhitespace(s: string): (ws: seq<string>)
    ensures forall i :: 0 <= i < |ws| ==> IsWord(ws[i])
    decreases |s|
  {
    var t := TrimStart(s);
    if t == [] then [] else [t[..WordEnd(t)]] + SplitWhitespace(t[WordEnd(t)..])
  }

  function JoinSpaced(ws: seq<string>): string {
    if ws == [] then "" else if |ws| == 1 then ws[0] else ws[0] + " " + JoinSpaced(ws[1..])
  }

  lemma {:induction false} WordEndIs(w: string, rest: string)
    requires (forall c :: c in w ==> !IsSpace(c)) && (rest == [] || IsSpace(rest[0]))
    ensures WordEnd(w + rest) == |w|
  {
    if w == [] {
      assert w + rest == rest;
    } else {
      assert (w + rest)[1..] == w[1..] + rest;
      WordEndIs(w[1..], rest);
    }
  }

  /** The word in front comes off first. */
  lemma SplitFront(w: string, rest: string)
    requires IsWord(w) && (rest == [] || IsSpace(rest[0]))
    ensures SplitWhitespace(w + rest) == [w] + SplitWhitespace(rest)
  {
    WordEndIs(w, rest);
    hide WordEnd;
    assert TrimStart(w + rest) == w + rest by {
      assert (w + rest)[0] == w[0];
    }
    assert (w + rest)[..|w|] == w && (w + rest)[|w|..] == rest;
  }

  lemma SplitSpace(s: string)
    ensures SplitWhitespace(" " + s) == SplitWhitespace(s)
  {
    hide WordEnd;
    assert (" " + s)[1..] == s;
  }

  /** Words joined by single spaces split into themselves. */
  lemma {:induction false} SplitOfJoin(ws: seq<string>)
    requires forall i :: 0 <= i < |ws| ==> IsWord(ws[i])
    ensures SplitWhitespace(JoinSpaced(ws)) == ws
  {
    if |ws| == 1 {
      assert ws[0] + "" == ws[0];
      SplitFront(ws[0], "");
    } else if ws != [] {
      var rest := " " + JoinSpaced(ws[1..]);
      assert JoinSpaced(ws) == ws[0] + rest;
      SplitOfJoin(ws[1..]);
      hide SplitWhitespace, JoinSpaced;
      SplitFront(ws[0], rest);
      SplitSpace(JoinSpaced(ws[1..]));
    }
  }
}
