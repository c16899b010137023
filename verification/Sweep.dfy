/**
  The paged history sweeps (rust/src/txhistory.rs): newest to oldest, stopping after the page that shows a
  transaction the store already holds. A node is a function from continue key to page; calls do not fail.
*/
module Sweep {

  const MAX_PAGES := 40

  /** What the node sent with an entry: nothing, a body the row builder makes no row of, or one it does. */
  datatype Body = Missing | NoRow | MakesRow
  datatype Entry = Entry(txid: string, body: Body)
  datatype Page = Page(results: seq<Entry>, continueKey: string)

  type Node = string -> Page

  predicate Storable(e: Entry) {
    e.txid != "" && e.body.MakesRow?
  }

  /** The rows persisted so far, oldest call first. */
  class Store {
    var rows: seq<string>

    constructor ()
      ensures rows == []
    {
      rows := [];
    }

    method Persist(txid: string)
      modifies this
      ensures rows == old(rows) + [txid]
    {
      rows := rows + [txid];
    }
  }

  // ---- the EVM sweep ----

  /** The rows after one page, and whether a known transaction was seen on it. */
  function EvmPage(results: seq<Entry>, rows: seq<string>): (seq<string>, bool) {
    if results == [] then (rows, false)
    else
      var (before, saw) := EvmPage(results[..|results| - 1], rows);
      var e := results[|results| - 1];
      if e.txid == "" then (before, saw)
      else if e.txid in before then (before, true)
      else if e.body.MakesRow? then (before + [e.txid], saw)
      else (before, saw)
  }

  function EvmSweep(node: Node, key: string, pages: nat, rows: seq<string>): seq<string>
    decreases pages
  {
    var page := node(key);
    if pages == 0 || page.results == [] then
      rows
    else
      var (after, saw) := EvmPage(page.results, rows);
      if saw || page.continueKey == "" then after else EvmSweep(node, page.continueKey, pages - 1, after)
  }

  method BackfillEvm(node: Node, store: Store) returns (total: nat)
    modifies store
    ensures store.rows == EvmSweep(node, "", MAX_PAGES, old(store.rows))
    ensures |store.rows| == |old(store.rows)| + total
  {
    var key := "";
    total := 0;
    var left := MAX_PAGES;
    while left > 0
      invariant 0 <= left <= MAX_PAGES
      invariant |store.rows| == |old(store.rows)| + total
      invariant EvmSweep(node, key, left, store.rows) == EvmSweep(node, "", MAX_PAGES, old(store.rows))
    {
      var page := node(key);
      if page.results == [] {
        return;
      }
      ghost var start := store.rows;
      var sawKnown := false;
      for k := 0 to |page.results|
        invariant (store.rows, sawKnown) == EvmPage(page.results[..k], start)
        invariant |store.rows| == |old(store.rows)| + total
      {
        assert page.results[..k + 1][..k] == page.results[..k];
        var e := page.results[k];
        if e.txid != "" {
          if e.txid in store.rows {
            sawKnown := true;
          } else if e.body.MakesRow? {
            store.Persist(e.txid);
            total := total + 1;
          }
        }
      }
      assert page.results[..|page.results|] == page.results;
      if sawKnown || page.continueKey == "" {
        return;
      }
      key := page.continueKey;
      left := left - 1;
    }
  }

  // ---- the Bitcoin sweep over every used address ----

  /** Entries fetched so far, in order, from one page; `known` is the store before the sweep. */
  function BtcPage(results: seq<Entry>, known: seq<string>, fetched: seq<Entry>): (seq<Entry>, bool) {
    if results == [] then (fetched, false)
    else
      var (before, saw) := BtcPage(results[..|results| - 1], known, fetched);
      var e := results[|results| - 1];
      if e.txid == "" || Holds(before, e.txid) then (before, saw)
      else if e.txid in known then (before, true)
      else if !e.body.Missing? then (before + [e], saw)
      else (before, saw)
  }

  predicate Holds(es: seq<Entry>, txid: string) {
    exists k :: 0 <= k < |es| && es[k].txid == txid
  }

  function BtcAddress(node: Node, key: string, pages: nat, known: seq<string>, fetched: seq<Entry>): seq<Entry>
    decreases pages
  {
    var page := node(key);
    if pages == 0 || page.results == [] then
      fetched
    else
      var (after, saw) := BtcPage(page.results, known, fetched);
      if saw || page.continueKey == "" then after else BtcAddress(node, page.continueKey, pages - 1, known, after)
  }

  function BtcFetch(addrs: seq<Node>, pages: nat, known: seq<string>): seq<Entry> {
    if addrs == [] then []
    else BtcAddress(addrs[|addrs| - 1], "", pages, known, BtcFetch(addrs[..|addrs| - 1], pages, known))
  }

  function RowsOf(es: seq<Entry>): seq<string> {
    if es == [] then []
    else RowsOf(es[..|es| - 1]) + (if es[|es| - 1].body.MakesRow? then [es[|es| - 1].txid] else [])
  }

  method BackfillBitcoin(addrs: seq<Node>, store: Store) returns (total: nat)
    modifies store
    ensures store.rows == old(store.rows) + RowsOf(BtcFetch(addrs, MAX_PAGES, old(store.rows)))
    ensures |store.rows| == |old(store.rows)| + total
  {
    var order: seq<Entry> := [];
    for a := 0 to |addrs|
      invariant order == BtcFetch(addrs[..a], MAX_PAGES, old(store.rows))
      invariant store.rows == old(store.rows)
    {
      assert addrs[..a + 1][..a] == addrs[..a];
      order := FetchAddress(addrs[a], order, store);
    }
    assert addrs[..|addrs|] == addrs;
    total := 0;
    for k := 0 to |order|
      invariant store.rows == old(store.rows) + RowsOf(order[..k])
      invariant |store.rows| == |old(store.rows)| + total
    {
      assert order[..k + 1][..k] == order[..k];
      if order[k].body.MakesRow? {
        store.Persist(order[k].txid);
        total := total + 1;
      }
    }
    assert order[..|order|] == order;
  }

  method FetchAddress(node: Node, fetched: seq<Entry>, store: Store) returns (order: seq<Entry>)
    ensures order == BtcAddress(node, "", MAX_PAGES, store.rows, fetched)
  {
    order := fetched;
    var key := "";
    var left := MAX_PAGES;
    while left > 0
      invariant 0 <= left <= MAX_PAGES
      invariant BtcAddress(node, key, left, store.rows, order) == BtcAddress(node, "", MAX_PAGES, store.rows, fetched)
    {
      var page := node(key);
      if page.results == [] {
        return;
      }
      ghost var start := order;
      var sawKnown := false;
      for k := 0 to |page.results|
        invariant (order, sawKnown) == BtcPage(page.results[..k], store.rows, start)
      {
        assert page.results[..k + 1][..k] == page.results[..k];
        var e := page.results[k];
        if e.txid != "" && !Holds(order, e.txid) {
          if e.txid in store.rows {
            sawKnown := true;
          } else if !e.body.Missing? {
            order := order + [e];
          }
        }
      }
      assert page.results[..|page.results|] == page.results;
      if sawKnown || page.continueKey == "" {
        return;
      }
      key := page.continueKey;
      left := left - 1;
    }
  }
}
