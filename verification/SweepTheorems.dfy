/** What the sweeps store, against the whole history the node could have shown. */
module SweepTheorems {
  import opened Sweep

  type Pages = seq<seq<Entry>>

  /** From `key` on, the node shows exactly these pages. */
  ghost predicate Serves(node: Node, key: string, pages: Pages)
    decreases |pages|
  {
    if pages == [] then node(key).results == []
    else
      && pages[0] != [] && node(key).results == pages[0]
      && if node(key).continueKey == "" then |pages| == 1 else Serves(node, node(key).continueKey, pages[1..])
  }

  function Flat(pages: Pages): seq<Entry> {
    if pages == [] then [] else pages[0] + Flat(pages[1..])
  }

  function First(pages: Pages, n: nat): Pages {
    if |pages| <= n then pages else pages[..n]
  }

  /** The txids of `h` that should still be stored, in order. */
  function Fresh(h: seq<Entry>, rows: seq<string>): seq<string> {
    if h == [] then []
    else
      Fresh(h[..|h| - 1], rows)
      + (var e := h[|h| - 1]; if Storable(e) && e.txid !in rows then [e.txid] else [])
  }

  ghost predicate Distinct(h: seq<Entry>) {
    forall i, j :: 0 <= i < j < |h| && h[i].txid != "" ==> h[i].txid != h[j].txid
  }

  /** The stop-at-known invariant: behind a page that shows a stored entry everything that can be stored is. */
  ghost predicate Settled(pages: Pages, rows: seq<string>) {
    forall k :: 0 <= k < |pages| && ShowsKnown(pages[k], rows) ==> Fresh(Flat(pages[k + 1..]), rows) == []
  }

  /** How many pages a sweep visits: up to the first that shows a stored entry, at most `n`. */
  ghost function Reach(pages: Pages, n: nat, rows: seq<string>): (m: nat)
    ensures m <= n && m <= |pages|
    ensures m < n && m < |pages| ==> m > 0 && ShowsKnown(pages[m - 1], rows)
  {
    if n == 0 || pages == [] then 0
    else if ShowsKnown(pages[0], rows) then 1
    else 1 + Reach(pages[1..], n - 1, rows)
  }

  /** The pages a sweep visits. */
  ghost function Visited(pages: Pages, n: nat, rows: seq<string>): Pages {
    pages[..Reach(pages, n, rows)]
  }

  /** Once an entry is stored, so is everything older that can be: the same for every way to cut pages. */
  ghost predicate OlderKnown(h: seq<Entry>, rows: seq<string>) {
    forall i, j :: 0 <= i < j < |h| && h[i].txid != "" && h[i].txid in rows && Storable(h[j]) ==> h[j].txid in rows
  }

  /** Nothing unstored lies past the page cap. */
  ghost predicate Fits(pages: Pages, n: nat, rows: seq<string>) {
    |pages| <= n || Fresh(Flat(pages[n..]), rows) == []
  }

  ghost predicate ShowsKnown(h: seq<Entry>, rows: seq<string>) {
    exists i :: 0 <= i < |h| && h[i].txid != "" && h[i].txid in rows
  }

  // ---- the pieces ----

  lemma {:induction false} FreshConcat(g: seq<Entry>, h: seq<Entry>, rows: seq<string>)
    ensures Fresh(g + h, rows) == Fresh(g, rows) + Fresh(h, rows)
  {
    if h == [] {
      assert g + h == g;
    } else {
      assert (g + h)[..|g + h| - 1] == g + h[..|h| - 1];
      FreshConcat(g, h[..|h| - 1], rows);
    }
  }

  lemma {:induction false} FreshMember(h: seq<Entry>, rows: seq<string>, t: string)
    ensures t in Fresh(h, rows) <==> exists i :: 0 <= i < |h| && h[i].txid == t && Storable(h[i]) && t !in rows
  {
    if h != [] {
      var front := h[..|h| - 1];
      FreshMember(front, rows, t);
      assert forall i :: 0 <= i < |front| ==> front[i] == h[i];
      if t in Fresh(front, rows) {
        var i :| 0 <= i < |front| && front[i].txid == t && Storable(front[i]);
        assert h[i] == front[i];
      }
    }
  }

  /** Only what `rows` says of the history's own entries matters. */
  lemma {:induction false} FreshAgrees(h: seq<Entry>, rows: seq<string>, rows': seq<string>)
    requires forall i :: 0 <= i < |h| && h[i].txid != "" ==> (h[i].txid in rows <==> h[i].txid in rows')
    ensures Fresh(h, rows) == Fresh(h, rows')
  {
    if h != [] {
      FreshAgrees(h[..|h| - 1], rows, rows');
    }
  }

  lemma NotFreshBefore(front: seq<Entry>, e: Entry, rows: seq<string>)
    requires Distinct(front + [e]) && e.txid != ""
    ensures e.txid !in Fresh(front, rows)
  {
    FreshMember(front, rows, e.txid);
    var h := front + [e];
    assert h[|front|] == e;
    assert forall i :: 0 <= i < |front| ==> h[i] == front[i];
  }

  lemma {:induction false} PageStoresFresh(h: seq<Entry>, rows: seq<string>)
    requires Distinct(h)
    ensures EvmPage(h, rows).0 == rows + Fresh(h, rows)
    ensures EvmPage(h, rows).1 <==> ShowsKnown(h, rows)
  {
    if h != [] {
      var front, e := h[..|h| - 1], h[|h| - 1];
      assert h == front + [e];
      PageStoresFresh(front, rows);
      if e.txid != "" {
        NotFreshBefore(front, e, rows);
      }
      ShowsKnownGrows(front, e, rows);
      hide ShowsKnown, Distinct;
    }
  }

  lemma {:induction false} FlatSplit(pages: Pages, n: nat)
    requires n <= |pages|
    ensures Flat(pages) == Flat(pages[..n]) + Flat(pages[n..])
  {
    if n > 0 {
      FlatSplit(pages[1..], n - 1);
      assert pages[..n][1..] == pages[1..][..n - 1];
      assert pages[n..] == pages[1..][n - 1..];
    } else {
      assert pages[0..] == pages;
    }
  }

  /** Rows added from a distinct history say nothing about its other pages. */
  lemma StoredPageIsForeign(page: seq<Entry>, rest: seq<Entry>, rows: seq<string>)
    requires Distinct(page + rest)
    ensures Distinct(page) && Distinct(rest)
    ensures forall i :: 0 <= i < |rest| && rest[i].txid != "" ==>
              (rest[i].txid in rows <==> rest[i].txid in rows + Fresh(page, rows))
  {
    var h := page + rest;
    forall i | 0 <= i < |rest| && rest[i].txid != ""
      ensures rest[i].txid in rows <==> rest[i].txid in rows + Fresh(page, rows)
    {
      FreshMember(page, rows, rest[i].txid);
      assert h[|page| + i] == rest[i];
      assert forall k :: 0 <= k < |page| ==> h[k] == page[k];
    }
    assert forall k :: 0 <= k < |page| ==> h[k] == page[k];
    assert forall k :: 0 <= k < |rest| ==> h[|page| + k] == rest[k];
  }

  lemma FreshNone(rows: seq<string>)
    ensures Fresh([], rows) == []
  {
  }

  lemma FlatOne(page: seq<Entry>)
    ensures Flat([page]) == page
  {
    assert [page][1..] == [];
  }

  /** A sweep stores the fresh entries of the pages it visits, never more than `n` of them. */
  lemma {:induction false} SweepVisits(node: Node, key: string, pages: Pages, n: nat, rows: seq<string>)
    requires Serves(node, key, pages) && Distinct(Flat(pages))
    ensures EvmSweep(node, key, n, rows) == rows + Fresh(Flat(pages[..Reach(pages, n, rows)]), rows)
    decreases n
  {
    hide Distinct, Fresh, ShowsKnown, EvmPage;
    if n == 0 || pages == [] {
      FreshNone(rows);
      assert pages[..0] == [];
    } else {
      var page, rest := pages[0], Flat(pages[1..]);
      StoredPageIsForeign(page, rest, rows);
      PageStoresFresh(page, rows);
      FlatOne(page);
      assert pages[..1] == [page];
      if !EvmPage(page, rows).1 && node(key).continueKey != "" {
        var rows' := rows + Fresh(page, rows);
        SweepVisits(node, node(key).continueKey, pages[1..], n - 1, rows');
        ReachAgrees(pages[1..], n - 1, rows, rows');
        var m := Reach(pages[1..], n - 1, rows);
        ContinueSweep(page, pages[1..], m, rows);
        assert pages[..m + 1][1..] == pages[1..][..m];
        assert Flat(pages[..m + 1]) == page + Flat(pages[1..][..m]);
      }
    }
  }

  ghost predicate Agrees(h: seq<Entry>, rows: seq<string>, rows': seq<string>) {
    forall i :: 0 <= i < |h| && h[i].txid != "" ==> (h[i].txid in rows <==> h[i].txid in rows')
  }

  lemma AgreesSplit(g: seq<Entry>, h: seq<Entry>, rows: seq<string>, rows': seq<string>)
    requires Agrees(g + h, rows, rows')
    ensures Agrees(g, rows, rows') && Agrees(h, rows, rows')
    ensures ShowsKnown(g, rows) <==> ShowsKnown(g, rows')
  {
    assert forall i :: 0 <= i < |g| ==> (g + h)[i] == g[i];
    assert forall i :: 0 <= i < |h| ==> (g + h)[|g| + i] == h[i];
  }

  lemma {:induction false} ReachAgrees(pages: Pages, n: nat, rows: seq<string>, rows': seq<string>)
    requires Agrees(Flat(pages), rows, rows')
    ensures Reach(pages, n, rows) == Reach(pages, n, rows')
  {
    hide Agrees, ShowsKnown;
    if n > 0 && pages != [] {
      AgreesSplit(pages[0], Flat(pages[1..]), rows, rows');
      ReachAgrees(pages[1..], n - 1, rows, rows');
    }
  }

  /** What the later pages add, said of the rows the sweep started from. */
  lemma ContinueSweep(page: seq<Entry>, tail: Pages, m: nat, rows: seq<string>)
    requires m <= |tail| && Distinct(page + Flat(tail))
    ensures var rows' := rows + Fresh(page, rows);
            var seen := Flat(tail[..m]);
            rows' + Fresh(seen, rows') == rows + Fresh(page + seen, rows)
  {
    hide Flat, Distinct, Fresh, ShowsKnown;
    var rows', seen := rows + Fresh(page, rows), Flat(tail[..m]);
    StoredPageIsForeign(page, Flat(tail), rows);
    FlatSplit(tail, m);
    assert forall i :: 0 <= i < |seen| ==> seen[i] == Flat(tail)[i];
    FreshAgrees(seen, rows, rows');
    FreshConcat(page, seen, rows);
  }

  lemma {:induction false} FreshEmpty(h: seq<Entry>, rows: seq<string>)
    requires forall i :: 0 <= i < |h| && Storable(h[i]) ==> h[i].txid in rows
    ensures Fresh(h, rows) == []
  {
    if h != [] {
      FreshEmpty(h[..|h| - 1], rows);
    }
  }

  lemma PageInFlat(pages: Pages, k: nat)
    requires k < |pages|
    ensures Flat(pages) == Flat(pages[..k]) + (pages[k] + Flat(pages[k + 1..]))
  {
    FlatSplit(pages, k);
    assert pages[k..][1..] == pages[k + 1..];
  }

  /** Where page `k` and what lies behind it stand in the whole history. */
  lemma PageAt(pages: Pages, k: nat)
    requires k < |pages|
    ensures var at, rest := |Flat(pages[..k])|, Flat(pages[k + 1..]);
            && |Flat(pages)| == at + |pages[k]| + |rest|
            && (forall i :: 0 <= i < |pages[k]| ==> Flat(pages)[at + i] == pages[k][i])
            && (forall j :: 0 <= j < |rest| ==> Flat(pages)[at + |pages[k]| + j] == rest[j])
  {
    hide Flat;
    PageInFlat(pages, k);
    ThreeParts(Flat(pages[..k]), pages[k], Flat(pages[k + 1..]));
  }

  lemma ThreeParts(a: seq<Entry>, b: seq<Entry>, c: seq<Entry>)
    ensures var h := a + (b + c);
            && |h| == |a| + |b| + |c|
            && (forall i :: 0 <= i < |b| ==> h[|a| + i] == b[i])
            && (forall j :: 0 <= j < |c| ==> h[|a| + |b| + j] == c[j])
  {
    var h, tail := a + (b + c), b + c;
    forall i | 0 <= i < |b|
      ensures h[|a| + i] == b[i]
    {
      assert h[|a| + i] == tail[i];
    }
    forall j | 0 <= j < |c|
      ensures h[|a| + |b| + j] == c[j]
    {
      assert h[|a| + (|b| + j)] == tail[|b| + j];
    }
  }

  /** An intact history is settled however it is cut into pages. */
  lemma OlderKnownSettles(pages: Pages, rows: seq<string>)
    requires OlderKnown(Flat(pages), rows)
    ensures Settled(pages, rows)
  {
    hide Flat, Fresh;
    forall k | 0 <= k < |pages| && ShowsKnown(pages[k], rows)
      ensures Fresh(Flat(pages[k + 1..]), rows) == []
    {
      PageAt(pages, k);
      OlderBehind(Flat(pages), |Flat(pages[..k])|, pages[k], Flat(pages[k + 1..]), rows);
      FreshEmpty(Flat(pages[k + 1..]), rows);
    }
  }

  lemma OlderBehind(h: seq<Entry>, at: nat, page: seq<Entry>, rest: seq<Entry>, rows: seq<string>)
    requires OlderKnown(h, rows) && ShowsKnown(page, rows) && |h| == at + |page| + |rest|
    requires forall i :: 0 <= i < |page| ==> h[at + i] == page[i]
    requires forall j :: 0 <= j < |rest| ==> h[at + |page| + j] == rest[j]
    ensures forall j :: 0 <= j < |rest| && Storable(rest[j]) ==> rest[j].txid in rows
  {
    var i :| 0 <= i < |page| && page[i].txid != "" && page[i].txid in rows;
    forall j | 0 <= j < |rest| && Storable(rest[j]) ensures rest[j].txid in rows {
      assert h[at + i] == page[i] && h[at + |page| + j] == rest[j];
    }
  }

  /** Whatever the store holds: a sweep is complete exactly when nothing fresh lies behind the pages it visits. */
  lemma EvmSweepMissesIff(node: Node, pages: Pages, rows: seq<string>, n: nat)
    requires Serves(node, "", pages) && Distinct(Flat(pages))
    ensures EvmSweep(node, "", n, rows) == rows + Fresh(Flat(pages), rows)
       <==> Fresh(Flat(pages[Reach(pages, n, rows)..]), rows) == []
  {
    var m := Reach(pages, n, rows);
    SweepVisits(node, "", pages, n, rows);
    FlatSplit(pages, m);
    FreshConcat(Flat(pages[..m]), Flat(pages[m..]), rows);
  }

  /**
    An incremental EVM sweep stores every storable unknown transaction of the whole history, once and in order,
    exactly when the unknown part fits under the page cap.
  */
  lemma EvmSweepCompleteIff(node: Node, pages: Pages, rows: seq<string>, n: nat)
    requires Serves(node, "", pages) && Distinct(Flat(pages)) && Settled(pages, rows)
    ensures EvmSweep(node, "", n, rows) == rows + Fresh(Flat(pages), rows) <==> Fits(pages, n, rows)
  {
    hide Serves, Distinct, Fresh, Flat, Reach;
    var m := Reach(pages, n, rows);
    EvmSweepMissesIff(node, pages, rows, n);
    if m == |pages| {
      assert pages[m..] == [];
      FlatNone(rows);
    } else if m < n && |pages| > n {
      FlatSplit(pages[m..], n - m);
      assert pages[m..][n - m..] == pages[n..];
      FreshConcat(Flat(pages[m..][..n - m]), Flat(pages[n..]), rows);
    }
  }

  lemma FlatNone(rows: seq<string>)
    ensures Fresh(Flat([]), rows) == []
  {
  }

  /** Sweeping again stores nothing, whatever the first sweep missed and whatever the store held before. */
  lemma SecondSweepStoresNothing(node: Node, pages: Pages, rows: seq<string>, n: nat)
    requires Serves(node, "", pages) && Distinct(Flat(pages))
    ensures var after := EvmSweep(node, "", n, rows);
            EvmSweep(node, "", n, after) == after
  {
    var after := EvmSweep(node, "", n, rows);
    SweepVisits(node, "", pages, n, rows);
    SweepVisits(node, "", pages, n, after);
    var m, m' := Reach(pages, n, rows), Reach(pages, n, after);
    ReachShrinks(pages, n, rows, after);
    FlatPrefix(pages[..m], m');
    assert pages[..m][..m'] == pages[..m'];
    PrefixNotFresh(Flat(pages[..m']), Flat(pages[..m]), rows);
    assert after + [] == after;
  }

  /** The more is stored, the sooner a sweep stops. */
  lemma {:induction false} ReachShrinks(pages: Pages, n: nat, rows: seq<string>, more: seq<string>)
    requires forall t :: t in rows ==> t in more
    ensures Reach(pages, n, more) <= Reach(pages, n, rows)
  {
    if n > 0 && pages != [] {
      ReachShrinks(pages[1..], n - 1, rows, more);
    }
  }

  // ---- a store other code writes to ----

  function SentNode(): Node {
    key => if key == "" then Page([Entry("sent", MakesRow)], "next") else Page([Entry("older", MakesRow)], "")
  }

  /**
    The wallet stored its own send before the first sweep: the newest page shows it, so the sweep stops there, stores
    nothing, and misses the rest of the history however often it is repeated.
  */
  lemma OwnSendHidesHistory(n: nat)
    requires n > 0
    ensures var pages := [[Entry("sent", MakesRow)], [Entry("older", MakesRow)]];
            && Serves(SentNode(), "", pages) && Distinct(Flat(pages)) && !Settled(pages, ["sent"])
            && Fresh(Flat(pages), ["sent"]) == ["older"] && EvmSweep(SentNode(), "", n, ["sent"]) == ["sent"]
  {
    var sent, older := Entry("sent", MakesRow), Entry("older", MakesRow);
    var pages: Pages := [[sent], [older]];
    var rows := ["sent"];
    assert pages[1..] == [[older]] && [[older]][1..] == [];
    FlatOne([older]);
    assert Flat(pages) == [sent, older];
    FreshOf(sent, older);
    assert ShowsKnown(pages[0], rows) by {
      assert pages[0][0] == sent;
    }
    SweepVisits(SentNode(), "", pages, n, rows);
    assert pages[..1] == [[sent]];
    FlatOne([sent]);
    assert rows + [] == rows;
  }

  lemma FreshOf(sent: Entry, older: Entry)
    requires Storable(sent) && Storable(older) && sent.txid != older.txid
    ensures Fresh([sent], [sent.txid]) == [] && Fresh([older], [sent.txid]) == [older.txid]
    ensures Fresh([sent, older], [sent.txid]) == [older.txid]
  {
    assert [sent][..0] == [] && [older][..0] == [];
    assert [sent, older][..1] == [sent];
  }

  lemma FlatPrefix(pages: Pages, m: nat)
    requires m <= |pages|
    ensures |Flat(pages[..m])| <= |Flat(pages)| && Flat(pages)[..|Flat(pages[..m])|] == Flat(pages[..m])
  {
    FlatSplit(pages, m);
  }

  lemma PrefixNotFresh(seen: seq<Entry>, h: seq<Entry>, rows: seq<string>)
    requires |seen| <= |h| && h[..|seen|] == seen
    ensures Fresh(seen, rows + Fresh(h, rows)) == []
  {
    forall i | 0 <= i < |seen| && Storable(seen[i]) ensures seen[i].txid in rows + Fresh(h, rows) {
      assert h[i] == seen[i];
      FreshMember(h, rows, seen[i].txid);
    }
    FreshEmpty(seen, rows + Fresh(h, rows));
  }

  // ---- the Bitcoin sweep: several addresses, one store read before the first call ----

  ghost predicate Unstored(e: Entry, known: seq<string>) {
    e.txid != "" && !e.body.Missing? && e.txid !in known
  }

  ghost predicate NoRepeats(es: seq<Entry>) {
    forall i, j :: 0 <= i < j < |es| ==> es[i].txid != es[j].txid
  }

  /** Everything fetched is new, each transaction once. */
  ghost predicate Clean(es: seq<Entry>, known: seq<string>) {
    NoRepeats(es) && forall i :: 0 <= i < |es| ==> Unstored(es[i], known)
  }

  /** `after` extends `before` by entries of `h`, and holds every unstored one of them. */
  ghost predicate Fetches(before: seq<Entry>, after: seq<Entry>, h: seq<Entry>, known: seq<string>) {
    && |before| <= |after| && after[..|before|] == before
    && (forall k :: |before| <= k < |after| ==> after[k] in h)
    && (forall i :: 0 <= i < |h| && Unstored(h[i], known) ==> Holds(after, h[i].txid))
  }

  lemma {:induction false} BtcPageFetches(h: seq<Entry>, known: seq<string>, fetched: seq<Entry>)
    requires Clean(fetched, known)
    ensures var (after, saw) := BtcPage(h, known, fetched);
            && Clean(after, known) && Fetches(fetched, after, h, known) && (saw <==> ShowsKnown(h, known))
  {
    if h != [] {
      var front, e := h[..|h| - 1], h[|h| - 1];
      BtcPageFetches(front, known, fetched);
      assert h == front + [e];
      FetchOne(fetched, BtcPage(front, known, fetched).0, front, e, known);
      ShowsKnownGrows(front, e, known);
      hide Clean, Fetches, ShowsKnown;
    }
  }

  lemma ShowsKnownGrows(h: seq<Entry>, e: Entry, known: seq<string>)
    ensures ShowsKnown(h + [e], known) <==> ShowsKnown(h, known) || (e.txid != "" && e.txid in known)
  {
    if ShowsKnown(h, known) {
      var i :| 0 <= i < |h| && h[i].txid != "" && h[i].txid in known;
      assert (h + [e])[i] == h[i];
    }
    if e.txid != "" && e.txid in known {
      assert (h + [e])[|h|] == e;
    }
  }

  /** One more entry is either fetched, held already, or not to be fetched. */
  lemma FetchOne(fetched: seq<Entry>, before: seq<Entry>, h: seq<Entry>, e: Entry, known: seq<string>)
    requires Clean(before, known) && Fetches(fetched, before, h, known)
    ensures !Unstored(e, known) || Holds(before, e.txid) ==> Fetches(fetched, before, h + [e], known)
    ensures Unstored(e, known) && !Holds(before, e.txid) ==>
              Clean(before + [e], known) && Fetches(fetched, before + [e], h + [e], known)
  {
    if Unstored(e, known) && !Holds(before, e.txid) {
      var after := before + [e];
      assert after[|before|] == e;
      forall i | 0 <= i < |h + [e]| && Unstored((h + [e])[i], known) ensures Holds(after, (h + [e])[i].txid) {
        if i < |h| {
          var k :| 0 <= k < |before| && before[k].txid == h[i].txid;
          assert after[k] == before[k];
        }
      }
    }
  }

  lemma FetchesCompose(a: seq<Entry>, b: seq<Entry>, c: seq<Entry>, g: seq<Entry>, h: seq<Entry>, known: seq<string>)
    requires Fetches(a, b, g, known) && Fetches(b, c, h, known)
    ensures Fetches(a, c, g + h, known)
  {
    assert c[..|a|] == c[..|b|][..|a|];
    forall k | |a| <= k < |c| ensures c[k] in g + h {
      if k < |b| {
        assert c[k] == c[..|b|][k];
      }
    }
    forall i | 0 <= i < |g + h| && Unstored((g + h)[i], known) ensures Holds(c, (g + h)[i].txid) {
      if i < |g| {
        var k :| 0 <= k < |b| && b[k].txid == g[i].txid;
        assert c[k] == c[..|b|][k];
      }
    }
  }

  lemma {:induction false} BtcAddressFetches(
      node: Node, key: string, pages: Pages, n: nat, known: seq<string>, fetched: seq<Entry>)
    requires Serves(node, key, pages) && Clean(fetched, known)
    ensures var after := BtcAddress(node, key, n, known, fetched);
            Clean(after, known) && Fetches(fetched, after, Flat(Visited(pages, n, known)), known)
    decreases n
  {
    hide ShowsKnown, BtcPage, Clean;
    if n == 0 || pages == [] {
      FetchesNone(fetched, known);
    } else {
      var page := pages[0];
      var after := BtcPage(page, known, fetched).0;
      BtcPageFetches(page, known, fetched);
      FlatOne(page);
      assert pages[..1] == [page];
      if !BtcPage(page, known, fetched).1 && node(key).continueKey != "" {
        BtcAddressFetches(node, node(key).continueKey, pages[1..], n - 1, known, after);
        var m := Reach(pages[1..], n - 1, known);
        var seen := Flat(pages[1..][..m]);
        assert pages[..m + 1][1..] == pages[1..][..m];
        assert Flat(pages[..m + 1]) == page + seen;
        FetchesCompose(fetched, after, BtcAddress(node, key, n, known, fetched), page, seen, known);
      }
    }
  }

  lemma FetchesNone(fetched: seq<Entry>, known: seq<string>)
    ensures Fetches(fetched, fetched, [], known)
  {
  }

  /** `t` can be stored, is not, and is shown by a page the sweep visits for some address. */
  ghost predicate FreshVisited(hs: seq<Pages>, n: nat, known: seq<string>, t: string) {
    exists a :: 0 <= a < |hs| && t in Fresh(Flat(Visited(hs[a], n, known)), known)
  }

  /** `t` can be stored, is not, and lies within the first `n` pages of some address. */
  ghost predicate FreshWithin(hs: seq<Pages>, n: nat, known: seq<string>, t: string) {
    exists a :: 0 <= a < |hs| && t in Fresh(Flat(First(hs[a], n)), known)
  }

  /** Every address is served completely and its history is settled. */
  ghost predicate Intact(addrs: seq<Node>, hs: seq<Pages>, known: seq<string>) {
    && Served(addrs, hs)
    && (forall a :: 0 <= a < |hs| ==> Settled(hs[a], known))
  }

  /** A transaction looks the same from every address it touches. */
  ghost predicate Consistent(hs: seq<Pages>) {
    forall d, e :: InHistory(hs, d) && InHistory(hs, e) && d.txid == e.txid ==> d == e
  }

  ghost predicate InHistory(hs: seq<Pages>, e: Entry) {
    exists a :: 0 <= a < |hs| && e in Flat(hs[a])
  }

  lemma ShownIsInHistory(hs: seq<Pages>, n: nat, known: seq<string>, e: Entry)
    requires ShownBy(hs, n, known, e)
    ensures InHistory(hs, e)
  {
    var a :| 0 <= a < |hs| && e in Flat(Visited(hs[a], n, known));
    FlatSplit(hs[a], Reach(hs[a], n, known));
  }

  /** One address: what it adds comes from the pages visited, and nothing fresh there is missed. */
  lemma BtcAddressComplete(node: Node, pages: Pages, n: nat, known: seq<string>, fetched: seq<Entry>)
    requires Serves(node, "", pages) && Clean(fetched, known)
    ensures var after, h := BtcAddress(node, "", n, known, fetched), Flat(Visited(pages, n, known));
            && Clean(after, known) && |fetched| <= |after| && after[..|fetched|] == fetched
            && (forall k :: |fetched| <= k < |after| ==> after[k] in h)
            && (forall t :: t in Fresh(h, known) ==> Holds(after, t))
  {
    hide Flat, Fresh, Visited;
    BtcAddressFetches(node, "", pages, n, known, fetched);
    var h := Flat(Visited(pages, n, known));
    forall t | t in Fresh(h, known) ensures Holds(BtcAddress(node, "", n, known, fetched), t) {
      FreshMember(h, known, t);
    }
  }

  /** In a settled history the pages visited show everything fresh within the cap. */
  lemma SettledVisits(pages: Pages, n: nat, known: seq<string>)
    requires Settled(pages, known)
    ensures Fresh(Flat(First(pages, n)), known) == Fresh(Flat(Visited(pages, n, known)), known)
  {
    hide Flat, Fresh, Settled, ShowsKnown;
    var l, m := |First(pages, n)|, Reach(pages, n, known);
    assert First(pages, n) == pages[..l];
    if m < l {
      NothingBehind(pages, l, m, known);
    }
  }

  /** Nothing fresh among the first `l` pages lies behind page `m - 1`. */
  lemma NothingBehind(pages: Pages, l: nat, m: nat, known: seq<string>)
    requires 0 < m <= l <= |pages| && Settled(pages, known) && ShowsKnown(pages[m - 1], known)
    ensures Fresh(Flat(pages[..l]), known) == Fresh(Flat(pages[..m]), known)
  {
    hide Fresh, Flat, ShowsKnown;
    FlatSplit(pages[..l], m);
    assert pages[..l][..m] == pages[..m];
    FreshConcat(Flat(pages[..m]), Flat(pages[..l][m..]), known);
    FlatSplit(pages[m..], l - m);
    assert pages[m..][..l - m] == pages[..l][m..] && pages[m - 1 + 1..] == pages[m..];
    FreshConcat(Flat(pages[..l][m..]), Flat(pages[m..][l - m..]), known);
  }

  ghost predicate ShownBy(hs: seq<Pages>, n: nat, known: seq<string>, e: Entry) {
    exists a :: 0 <= a < |hs| && e in Flat(Visited(hs[a], n, known))
  }

  ghost predicate Served(addrs: seq<Node>, hs: seq<Pages>) {
    |addrs| == |hs| && forall a :: 0 <= a < |hs| ==> Serves(addrs[a], "", hs[a])
  }

  lemma {:induction false} BtcFetchIsClean(addrs: seq<Node>, hs: seq<Pages>, n: nat, known: seq<string>)
    requires Served(addrs, hs)
    ensures var es := BtcFetch(addrs, n, known);
            Clean(es, known) && forall k :: 0 <= k < |es| ==> ShownBy(hs, n, known, es[k])
  {
    if addrs != [] {
      var last := |addrs| - 1;
      var before, after := BtcFetch(addrs[..last], n, known), BtcFetch(addrs, n, known);
      BtcFetchIsClean(addrs[..last], hs[..last], n, known);
      BtcAddressComplete(addrs[last], hs[last], n, known, before);
      forall k | 0 <= k < |after| ensures ShownBy(hs, n, known, after[k]) {
        if k < |before| {
          assert before[k] == after[..|before|][k] == after[k];
          assert ShownBy(hs[..last], n, known, before[k]);
          var a :| 0 <= a < last && before[k] in Flat(Visited(hs[..last][a], n, known));
          assert hs[a] == hs[..last][a];
        }
      }
    }
  }

  lemma {:induction false} BtcFetchMissesNothing(
      addrs: seq<Node>, hs: seq<Pages>, n: nat, known: seq<string>, t: string)
    requires Served(addrs, hs) && FreshVisited(hs, n, known, t)
    ensures Holds(BtcFetch(addrs, n, known), t)
  {
    var last := |addrs| - 1;
    var before := BtcFetch(addrs[..last], n, known);
    assert Clean(before, known) by {
      BtcFetchIsClean(addrs[..last], hs[..last], n, known);
    }
    BtcAddressComplete(addrs[last], hs[last], n, known, before);
    if t !in Fresh(Flat(Visited(hs[last], n, known)), known) {
      FreshElsewhere(hs, n, known, t);
      BtcFetchMissesNothing(addrs[..last], hs[..last], n, known, t);
      HoldsGrows(addrs[last], hs[last], n, known, before, t);
    }
  }

  lemma FreshElsewhere(hs: seq<Pages>, n: nat, known: seq<string>, t: string)
    requires hs != [] && FreshVisited(hs, n, known, t) && t !in Fresh(Flat(Visited(hs[|hs| - 1], n, known)), known)
    ensures FreshVisited(hs[..|hs| - 1], n, known, t)
  {
    var a :| 0 <= a < |hs| && t in Fresh(Flat(Visited(hs[a], n, known)), known);
    assert hs[..|hs| - 1][a] == hs[a];
  }

  lemma HoldsGrows(node: Node, pages: Pages, n: nat, known: seq<string>, fetched: seq<Entry>, t: string)
    requires Serves(node, "", pages) && Clean(fetched, known) && Holds(fetched, t)
    ensures Holds(BtcAddress(node, "", n, known, fetched), t)
  {
    var after := BtcAddress(node, "", n, known, fetched);
    BtcAddressComplete(node, pages, n, known, fetched);
    var k :| 0 <= k < |fetched| && fetched[k].txid == t;
    assert after[k] == after[..|fetched|][k];
  }

  lemma {:induction false} RowsOfMember(es: seq<Entry>, t: string)
    ensures t in RowsOf(es) <==> exists k :: 0 <= k < |es| && es[k].txid == t && es[k].body.MakesRow?
  {
    if es != [] {
      RowsOfMember(es[..|es| - 1], t);
      assert forall k :: 0 <= k < |es| - 1 ==> es[..|es| - 1][k] == es[k];
    }
  }

  lemma {:induction false} RowsOfOnce(es: seq<Entry>)
    requires NoRepeats(es)
    ensures forall i, j :: 0 <= i < j < |RowsOf(es)| ==> RowsOf(es)[i] != RowsOf(es)[j]
  {
    if es != [] {
      var front := es[..|es| - 1];
      RowsOfOnce(front);
      RowsOfMember(front, es[|es| - 1].txid);
    }
  }

  /**
    Whatever the store holds, the sweep of an account stores, once each, exactly the transactions that are not stored
    yet and that a page shows which it visits for some address.
  */
  lemma BitcoinSweepStoresVisited(addrs: seq<Node>, hs: seq<Pages>, n: nat, known: seq<string>)
    requires Served(addrs, hs) && Consistent(hs)
    ensures var rows := RowsOf(BtcFetch(addrs, n, known));
            && (forall i, j :: 0 <= i < j < |rows| ==> rows[i] != rows[j])
            && (forall t :: t in rows <==> FreshVisited(hs, n, known, t))
  {
    var es := BtcFetch(addrs, n, known);
    BtcFetchIsClean(addrs, hs, n, known);
    RowsOfOnce(es);
    forall t ensures t in RowsOf(es) <==> FreshVisited(hs, n, known, t) {
      if t in RowsOf(es) {
        StoredIsFreshVisited(es, hs, n, known, t);
      }
      if FreshVisited(hs, n, known, t) {
        BtcFetchMissesNothing(addrs, hs, n, known, t);
        HeldIsStored(es, hs, n, known, t);
      }
    }
  }

  /**
    With settled histories that is everything within the page cap of at least one address, so the sweep is complete
    exactly when every missing transaction is.
  */
  lemma BitcoinSweepStores(addrs: seq<Node>, hs: seq<Pages>, n: nat, known: seq<string>)
    requires Intact(addrs, hs, known) && Consistent(hs)
    ensures var rows := RowsOf(BtcFetch(addrs, n, known));
            && (forall i, j :: 0 <= i < j < |rows| ==> rows[i] != rows[j])
            && (forall t :: t in rows <==> FreshWithin(hs, n, known, t))
  {
    BitcoinSweepStoresVisited(addrs, hs, n, known);
    hide Fresh, Flat, Visited;
    forall a | 0 <= a < |hs|
      ensures Fresh(Flat(First(hs[a], n)), known) == Fresh(Flat(Visited(hs[a], n, known)), known)
    {
      SettledVisits(hs[a], n, known);
    }
  }

  lemma StoredIsFreshVisited(es: seq<Entry>, hs: seq<Pages>, n: nat, known: seq<string>, t: string)
    requires Clean(es, known) && t in RowsOf(es)
    requires forall k :: 0 <= k < |es| ==> ShownBy(hs, n, known, es[k])
    ensures FreshVisited(hs, n, known, t)
  {
    RowsOfMember(es, t);
    var k :| 0 <= k < |es| && es[k].txid == t && es[k].body.MakesRow?;
    assert ShownBy(hs, n, known, es[k]);
    var a :| 0 <= a < |hs| && es[k] in Flat(Visited(hs[a], n, known));
    FreshMember(Flat(Visited(hs[a], n, known)), known, t);
  }

  lemma HeldIsStored(es: seq<Entry>, hs: seq<Pages>, n: nat, known: seq<string>, t: string)
    requires Holds(es, t) && FreshVisited(hs, n, known, t) && Consistent(hs)
    requires forall k :: 0 <= k < |es| ==> ShownBy(hs, n, known, es[k])
    ensures t in RowsOf(es)
  {
    var a :| 0 <= a < |hs| && t in Fresh(Flat(Visited(hs[a], n, known)), known);
    var h := Flat(Visited(hs[a], n, known));
    FreshMember(h, known, t);
    var i :| 0 <= i < |h| && h[i].txid == t && Storable(h[i]);
    var k :| 0 <= k < |es| && es[k].txid == t;
    assert h[i] in h && ShownBy(hs, n, known, h[i]);
    ShownIsInHistory(hs, n, known, h[i]);
    ShownIsInHistory(hs, n, known, es[k]);
    RowsOfMember(es, t);
  }

  /** What a larger store still misses on the pages visited, the smaller one missed on those it visits. */
  lemma FreshForSmallerStore(hs: seq<Pages>, n: nat, known: seq<string>, rows: seq<string>, t: string)
    requires FreshVisited(hs, n, known + rows, t)
    ensures FreshVisited(hs, n, known, t) && t !in rows
  {
    var a :| 0 <= a < |hs| && t in Fresh(Flat(Visited(hs[a], n, known + rows)), known + rows);
    var pages := hs[a];
    ReachShrinks(pages, n, known, known + rows);
    var m, m' := Reach(pages, n, known), Reach(pages, n, known + rows);
    FlatPrefix(pages[..m], m');
    assert pages[..m][..m'] == pages[..m'];
    var seen, all := Flat(pages[..m']), Flat(pages[..m]);
    FreshMember(seen, known + rows, t);
    FreshMember(all, known, t);
    assert forall i :: 0 <= i < |seen| ==> seen[i] == all[i];
  }

  /** An immediate second sweep of the account stores nothing, whatever the first one missed. */
  lemma SecondBitcoinSweepStoresNothing(addrs: seq<Node>, hs: seq<Pages>, n: nat, known: seq<string>)
    requires Served(addrs, hs) && Consistent(hs)
    ensures var known' := known + RowsOf(BtcFetch(addrs, n, known));
            RowsOf(BtcFetch(addrs, n, known')) == []
  {
    var rows := RowsOf(BtcFetch(addrs, n, known));
    BitcoinSweepStoresVisited(addrs, hs, n, known);
    BitcoinSweepStoresVisited(addrs, hs, n, known + rows);
    var again := RowsOf(BtcFetch(addrs, n, known + rows));
    if again != [] {
      FreshForSmallerStore(hs, n, known, rows, again[0]);
      assert false;
    }
  }

  // ---- the order of the rows ----

  /** The entries of `h` to fetch, in the order shown: unstored, and each transaction when it is first met. */
  ghost function NewOnes(h: seq<Entry>, known: seq<string>, held: seq<Entry>): seq<Entry> {
    if h == [] then []
    else if Unstored(h[0], known) && !Holds(held, h[0].txid) then [h[0]] + NewOnes(h[1..], known, held + [h[0]])
    else NewOnes(h[1..], known, held)
  }

  lemma {:induction false} NewOnesConcat(g: seq<Entry>, h: seq<Entry>, known: seq<string>, held: seq<Entry>)
    ensures NewOnes(g + h, known, held) == NewOnes(g, known, held) + NewOnes(h, known, held + NewOnes(g, known, held))
  {
    hide Unstored, Holds;
    if g == [] {
      assert g + h == h && held + [] == held;
    } else {
      var e, all := g[0], g + h;
      assert all[1..] == g[1..] + h;
      if Unstored(e, known) && !Holds(held, e.txid) {
        NewOnesConcat(g[1..], h, known, held + [e]);
        var rest := NewOnes(g[1..], known, held + [e]);
        assert held + [e] + rest == held + ([e] + rest);
      } else {
        NewOnesConcat(g[1..], h, known, held);
      }
    }
  }

  lemma NewOnesOne(e: Entry, known: seq<string>, held: seq<Entry>)
    ensures NewOnes([e], known, held) == if Unstored(e, known) && !Holds(held, e.txid) then [e] else []
  {
    hide Unstored, Holds;
    assert [e][1..] == [];
  }

  lemma {:induction false} BtcPageAdds(h: seq<Entry>, known: seq<string>, fetched: seq<Entry>)
    ensures BtcPage(h, known, fetched).0 == fetched + NewOnes(h, known, fetched)
  {
    if h == [] {
      assert fetched + [] == fetched;
    } else {
      var front, e := h[..|h| - 1], h[|h| - 1];
      BtcPageAdds(front, known, fetched);
      assert h == front + [e];
      NewOnesConcat(front, [e], known, fetched);
      hide NewOnes;
      NewOnesOne(e, known, BtcPage(front, known, fetched).0);
    }
  }

  /** One address appends what is new on the pages it visits, in the order they show it. */
  lemma {:induction false} BtcAddressAdds(
      node: Node, key: string, pages: Pages, n: nat, known: seq<string>, fetched: seq<Entry>)
    requires Serves(node, key, pages) && Clean(fetched, known)
    ensures BtcAddress(node, key, n, known, fetched)
         == fetched + NewOnes(Flat(Visited(pages, n, known)), known, fetched)
    decreases n
  {
    hide ShowsKnown, BtcPage, Clean, NewOnes;
    if n == 0 || pages == [] {
      NewOnesNone(known, fetched);
    } else {
      var page := pages[0];
      var after := BtcPage(page, known, fetched).0;
      BtcPageFetches(page, known, fetched);
      BtcPageAdds(page, known, fetched);
      FlatOne(page);
      assert pages[..1] == [page];
      if !BtcPage(page, known, fetched).1 && node(key).continueKey != "" {
        BtcAddressAdds(node, node(key).continueKey, pages[1..], n - 1, known, after);
        var m := Reach(pages[1..], n - 1, known);
        var seen := Flat(pages[1..][..m]);
        assert pages[..m + 1][1..] == pages[1..][..m];
        assert Flat(pages[..m + 1]) == page + seen;
        NewOnesConcat(page, seen, known, fetched);
      }
    }
  }

  lemma NewOnesNone(known: seq<string>, fetched: seq<Entry>)
    ensures fetched + NewOnes([], known, fetched) == fetched
  {
  }

  /** What the visited pages show, one address after another. */
  ghost function ShownInOrder(hs: seq<Pages>, n: nat, known: seq<string>): seq<Entry> {
    if hs == [] then []
    else ShownInOrder(hs[..|hs| - 1], n, known) + Flat(Visited(hs[|hs| - 1], n, known))
  }

  /** The sweep fetches in order: address by address, page by page, each new transaction where it is first shown. */
  lemma {:induction false} FetchedInOrder(addrs: seq<Node>, hs: seq<Pages>, n: nat, known: seq<string>)
    requires Served(addrs, hs)
    ensures BtcFetch(addrs, n, known) == NewOnes(ShownInOrder(hs, n, known), known, [])
  {
    hide NewOnes, Clean, Visited, Flat;
    if addrs == [] {
      NewOnesNone(known, []);
    } else {
      var last := |addrs| - 1;
      var before := BtcFetch(addrs[..last], n, known);
      FetchedInOrder(addrs[..last], hs[..last], n, known);
      BtcFetchIsClean(addrs[..last], hs[..last], n, known);
      BtcAddressAdds(addrs[last], "", hs[last], n, known, before);
      NewOnesConcat(ShownInOrder(hs[..last], n, known), Flat(Visited(hs[last], n, known)), known, []);
      assert [] + before == before;
    }
  }

  /** The rows come in the order of the entries that make one. */
  lemma {:induction false} RowsInOrder(es: seq<Entry>)
    requires es != []
    ensures RowsOf(es) == (if es[0].body.MakesRow? then [es[0].txid] else []) + RowsOf(es[1..])
  {
    if |es| == 1 {
      assert es[..0] == [] && es[1..] == [];
    } else {
      var front := es[..|es| - 1];
      RowsInOrder(front);
      assert front[1..] == es[1..][..|es| - 2];
    }
  }
}
