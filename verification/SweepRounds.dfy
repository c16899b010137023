/**
  Sweeping again and again while the history grows and transactions get confirmed: each round leaves what the next one
  relies on, for one EVM address and for a Bitcoin account of any number of addresses. And what happens when a round
  does not fit, or a transaction is confirmed behind a stored one.
*/
module SweepRounds {
  import opened Sweep
  import opened SweepTheorems

  /** The history of every address, newest first. */
  type Histories = seq<seq<Entry>>

  ghost predicate ShownAnywhere(hs: Histories, t: string) {
    exists a :: 0 <= a < |hs| && ShownIn(hs[a], t)
  }

  ghost predicate ShownIn(h: seq<Entry>, t: string) {
    exists i :: 0 <= i < |h| && h[i].txid == t && Storable(h[i])
  }

  ghost predicate Once(rows: seq<string>) {
    forall i, j :: 0 <= i < j < |rows| ==> rows[i] != rows[j]
  }

  /** The store holds each storable transaction of the histories exactly once, and nothing else. */
  ghost predicate Complete(rows: seq<string>, hs: Histories) {
    Once(rows) && forall t :: t in rows <==> ShownAnywhere(hs, t)
  }

  // ---- what a history may do between two rounds ----

  /** The page shows something the last round could store. */
  ghost predicate ShowsOld(before: Histories, page: seq<Entry>) {
    exists i :: 0 <= i < |page| && ShownAnywhere(before, page[i].txid)
  }

  /** Everything of `h` that can be stored could be stored in the last round. */
  ghost predicate AllOld(before: Histories, h: seq<Entry>) {
    forall i :: 0 <= i < |h| && Storable(h[i]) ==> ShownAnywhere(before, h[i].txid)
  }

  ghost predicate InOrder(before: Histories, pages: Pages) {
    forall k :: 0 <= k < |pages| && ShowsOld(before, pages[k]) ==> AllOld(before, Flat(pages[k + 1..]))
  }

  /**
    Nothing that could be stored vanishes, and behind a page that shows such an entry nothing else can be stored: new
    entries come in front, and an entry confirmed late is not behind a page that shows an older row.
  */
  ghost predicate Continues(before: Histories, hs: seq<Pages>) {
    && (forall t :: ShownAnywhere(before, t) ==> ShownAnywhere(Flats(hs), t))
    && (forall a :: 0 <= a < |hs| ==> InOrder(before, hs[a]))
  }

  ghost predicate Seen(hs: Histories, t: string) {
    exists a, i :: 0 <= a < |hs| && 0 <= i < |hs[a]| && hs[a][i].txid == t
  }

  /** `later` is `h`, some of its entries confirmed since, with entries in front that no history showed before. */
  ghost predicate Grows(h: seq<Entry>, later: seq<Entry>, before: Histories) {
    && |h| <= |later|
    && (forall i :: 0 <= i < |h| ==> later[|later| - |h| + i].txid == h[i].txid)
    && (forall i :: 0 <= i < |h| && Storable(h[i]) ==> Storable(later[|later| - |h| + i]))
    && (forall i :: 0 <= i < |later| - |h| ==> later[i].txid == "" || !Seen(before, later[i].txid))
  }

  /** An entry confirmed since the last round is not behind a page that shows what could be stored then. */
  ghost predicate ConfirmedInFront(before: Histories, pages: Pages) {
    forall k :: 0 <= k < |pages| && ShowsOld(before, pages[k]) ==> NoneConfirmed(before, Flat(pages[k + 1..]))
  }

  ghost predicate NoneConfirmed(before: Histories, h: seq<Entry>) {
    forall i :: 0 <= i < |h| && Storable(h[i]) && Seen(before, h[i].txid) ==> ShownAnywhere(before, h[i].txid)
  }

  /** Growth in front, with confirmations in front of what was stored, is what a next round can rely on. */
  lemma GrowthContinues(before: Histories, hs: seq<Pages>)
    requires |before| == |hs|
    requires forall a :: 0 <= a < |hs| ==> Grows(before[a], Flat(hs[a]), before) && ConfirmedInFront(before, hs[a])
    ensures Continues(before, hs)
  {
    forall t | ShownAnywhere(before, t)
      ensures ShownAnywhere(Flats(hs), t)
    {
      var a :| 0 <= a < |before| && ShownIn(before[a], t);
      var i :| 0 <= i < |before[a]| && before[a][i].txid == t && Storable(before[a][i]);
      assert Grows(before[a], Flat(hs[a]), before);
      var later := Flat(hs[a]);
      assert later[|later| - |before[a]| + i].txid == t;
      assert ShownIn(Flats(hs)[a], t);
    }
    forall a | 0 <= a < |hs|
      ensures InOrder(before, hs[a])
    {
      GrowthInOrder(before, hs, a);
    }
  }

  lemma GrowthInOrder(before: Histories, hs: seq<Pages>, a: nat)
    requires a < |hs| == |before| && Grows(before[a], Flat(hs[a]), before) && ConfirmedInFront(before, hs[a])
    ensures InOrder(before, hs[a])
  {
    hide Flat, Grows;
    var pages := hs[a];
    forall k | 0 <= k < |pages| && ShowsOld(before, pages[k])
      ensures AllOld(before, Flat(pages[k + 1..]))
    {
      PageAt(pages, k);
      OldBehind(before, a, Flat(pages), |Flat(pages[..k])|, pages[k], Flat(pages[k + 1..]));
    }
  }

  /** Behind a page that shows an old entry there are only old ones. */
  lemma OldBehind(before: Histories, a: nat, later: seq<Entry>, at: nat, page: seq<Entry>, rest: seq<Entry>)
    requires a < |before| && Grows(before[a], later, before) && ShowsOld(before, page) && NoneConfirmed(before, rest)
    requires |later| == at + |page| + |rest|
    requires forall i :: 0 <= i < |page| ==> later[at + i] == page[i]
    requires forall j :: 0 <= j < |rest| ==> later[at + |page| + j] == rest[j]
    ensures AllOld(before, rest)
  {
    hide ShownAnywhere;
    var h := before[a];
    var i :| 0 <= i < |page| && ShownAnywhere(before, page[i].txid);
    ShownIsSeen(before, page[i].txid);
    assert later[at + i] == page[i];
    assert at + i >= |later| - |h|;
    forall j | 0 <= j < |rest| && Storable(rest[j])
      ensures ShownAnywhere(before, rest[j].txid)
    {
      var x := at + |page| + j - (|later| - |h|);
      assert later[at + |page| + j] == rest[j] && later[|later| - |h| + x].txid == h[x].txid;
      assert Seen(before, h[x].txid);
    }
  }

  lemma ShownIsSeen(hs: Histories, t: string)
    requires ShownAnywhere(hs, t)
    ensures t != "" && Seen(hs, t)
  {
    var a :| 0 <= a < |hs| && ShownIn(hs[a], t);
    var i :| 0 <= i < |hs[a]| && hs[a][i].txid == t && Storable(hs[a][i]);
  }

  /** Then a store complete for the last round leaves every history settled. */
  lemma ContinuesSettled(before: Histories, pages: Pages, rows: seq<string>)
    requires Complete(rows, before) && InOrder(before, pages)
    ensures Settled(pages, rows)
  {
    hide Flat, Fresh;
    forall k | 0 <= k < |pages| && ShowsKnown(pages[k], rows)
      ensures Fresh(Flat(pages[k + 1..]), rows) == []
    {
      var i :| 0 <= i < |pages[k]| && pages[k][i].txid != "" && pages[k][i].txid in rows;
      assert ShownAnywhere(before, pages[k][i].txid);
      assert AllOld(before, Flat(pages[k + 1..]));
      FreshEmpty(Flat(pages[k + 1..]), rows);
    }
  }

  lemma OnceConcat(p: seq<string>, q: seq<string>)
    requires Once(p) && Once(q) && forall t :: t in q ==> t !in p
    ensures Once(p + q)
  {
    var all := p + q;
    forall i, j | 0 <= i < j < |all| ensures all[i] != all[j] {
      if i < |p| <= j {
        assert all[i] in p && all[j] in q;
      }
    }
  }

  // ---- one EVM address ----

  lemma {:induction false} FreshOnce(h: seq<Entry>, rows: seq<string>)
    requires Distinct(h)
    ensures Once(Fresh(h, rows))
  {
    if h != [] {
      var front := h[..|h| - 1];
      FreshOnce(front, rows);
      FreshMember(front, rows, h[|h| - 1].txid);
    }
  }

  /** Storing what is fresh of a history completes a store that held nothing else. */
  lemma FreshCompletes(h: seq<Entry>, rows: seq<string>)
    requires Distinct(h) && Once(rows) && forall t :: t in rows ==> ShownIn(h, t)
    ensures Complete(rows + Fresh(h, rows), [h])
  {
    FreshOnce(h, rows);
    hide Fresh, Distinct, ShownIn, Once;
    forall t ensures t in Fresh(h, rows) <==> ShownIn(h, t) && t !in rows {
      FreshIsShownIn(h, rows, t);
    }
    OnceConcat(rows, Fresh(h, rows));
    forall t ensures t in rows + Fresh(h, rows) <==> ShownAnywhere([h], t) {
      assert [h][0] == h;
    }
  }

  lemma FreshIsShownIn(h: seq<Entry>, rows: seq<string>, t: string)
    ensures t in Fresh(h, rows) <==> ShownIn(h, t) && t !in rows
  {
    FreshMember(h, rows, t);
    hide Fresh;
  }

  /** One round: what the node shows, and the sweep. */
  datatype Round = Round(node: Node, pages: Pages)

  ghost function Sweeps(rounds: seq<Round>, n: nat): seq<string> {
    if rounds == [] then []
    else EvmSweep(rounds[|rounds| - 1].node, "", n, Sweeps(rounds[..|rounds| - 1], n))
  }

  ghost function HistoryOf(rounds: seq<Round>): seq<Entry> {
    if rounds == [] then [] else Flat(rounds[|rounds| - 1].pages)
  }

  /** Each node shows a duplicate-free history that continues the last one and whose unknown part fits the page cap. */
  ghost predicate Steady(rounds: seq<Round>, n: nat) {
    rounds == [] ||
    var front, last := rounds[..|rounds| - 1], rounds[|rounds| - 1];
    && Steady(front, n)
    && Serves(last.node, "", last.pages)
    && Distinct(Flat(last.pages))
    && Continues([HistoryOf(front)], [last.pages])
    && Fits(last.pages, n, Sweeps(front, n))
  }

  /**
    From an empty store, any number of rounds in which the history continues and fits: the store holds each storable
    transaction of the last history exactly once.
  */
  lemma {:induction false} EveryRoundCompletes(rounds: seq<Round>, n: nat)
    requires Steady(rounds, n)
    ensures Complete(Sweeps(rounds, n), [HistoryOf(rounds)])
  {
    if rounds != [] {
      var front, last := rounds[..|rounds| - 1], rounds[|rounds| - 1];
      EveryRoundCompletes(front, n);
      var rows, before := Sweeps(front, n), [HistoryOf(front)];
      hide HistoryOf, Sweeps, Flat, Serves, Distinct, Settled;
      assert [last.pages][0] == last.pages;
      ContinuesSettled(before, last.pages, rows);
      EvmSweepCompleteIff(last.node, last.pages, rows, n);
      assert Flats([last.pages]) == [Flat(last.pages)];
      forall t | t in rows ensures ShownIn(Flat(last.pages), t) {
        assert ShownAnywhere(before, t);
        assert ShownAnywhere(Flats([last.pages]), t);
      }
      FreshCompletes(Flat(last.pages), rows);
      LastRound(rounds, n);
    }
  }

  lemma LastRound(rounds: seq<Round>, n: nat)
    requires rounds != []
    ensures var last, rows := rounds[|rounds| - 1], Sweeps(rounds[..|rounds| - 1], n);
            Sweeps(rounds, n) == EvmSweep(last.node, "", n, rows) && HistoryOf(rounds) == Flat(last.pages)
  {
  }

  // ---- a Bitcoin account ----

  /** One round over all addresses; an address not used yet shows nothing. */
  datatype AccountRound = AccountRound(addrs: seq<Node>, pages: seq<Pages>)

  function Flats(pages: seq<Pages>): Histories {
    seq(|pages|, a requires 0 <= a < |pages| => Flat(pages[a]))
  }

  ghost function AccountSweeps(rounds: seq<AccountRound>, n: nat): seq<string> {
    if rounds == [] then []
    else
      var rows := AccountSweeps(rounds[..|rounds| - 1], n);
      rows + RowsOf(BtcFetch(rounds[|rounds| - 1].addrs, n, rows))
  }

  /** Before the first round no address has shown anything. */
  ghost function HistoriesOf(rounds: seq<AccountRound>, count: nat): Histories {
    if rounds == [] then seq(count, a => []) else Flats(rounds[|rounds| - 1].pages)
  }

  /** Every storable transaction not stored lies within the page cap of at least one of its addresses. */
  ghost predicate AccountFits(pages: seq<Pages>, n: nat, rows: seq<string>) {
    forall t :: ShownAnywhere(Flats(pages), t) && t !in rows ==> FreshWithin(pages, n, rows, t)
  }

  ghost predicate SteadyAccount(rounds: seq<AccountRound>, count: nat, n: nat) {
    rounds == [] ||
    var front, last := rounds[..|rounds| - 1], rounds[|rounds| - 1];
    && SteadyAccount(front, count, n)
    && |last.pages| == count
    && Served(last.addrs, last.pages)
    && Consistent(last.pages)
    && Continues(HistoriesOf(front, count), last.pages)
    && AccountFits(last.pages, n, AccountSweeps(front, n))
  }

  /** The same for an account: each storable transaction of any address exactly once. */
  lemma {:induction false} EveryAccountRoundCompletes(rounds: seq<AccountRound>, count: nat, n: nat)
    requires SteadyAccount(rounds, count, n)
    ensures Complete(AccountSweeps(rounds, n), HistoriesOf(rounds, count))
  {
    if rounds == [] {
      var none: Histories := seq(count, a => []);
      forall t ensures !ShownAnywhere(none, t) {
      }
    } else {
      var front, last := rounds[..|rounds| - 1], rounds[|rounds| - 1];
      EveryAccountRoundCompletes(front, count, n);
      AccountRoundCompletes(last, HistoriesOf(front, count), AccountSweeps(front, n), n);
    }
  }

  lemma AccountRoundCompletes(last: AccountRound, before: Histories, rows: seq<string>, n: nat)
    requires Complete(rows, before) && Continues(before, last.pages)
    requires Served(last.addrs, last.pages) && Consistent(last.pages) && AccountFits(last.pages, n, rows)
    ensures Complete(rows + RowsOf(BtcFetch(last.addrs, n, rows)), Flats(last.pages))
  {
    var hs, stored := Flats(last.pages), RowsOf(BtcFetch(last.addrs, n, rows));
    hide BtcFetch, RowsOf, Consistent, Served, Flat, Settled, InOrder;
    forall a | 0 <= a < |last.pages| ensures Settled(last.pages[a], rows) {
      ContinuesSettled(before, last.pages[a], rows);
    }
    BitcoinSweepStores(last.addrs, last.pages, n, rows);
    StoredOnce(last, n, rows);
    forall t ensures t in rows + stored <==> ShownAnywhere(hs, t) {
      if t in rows {
        assert ShownAnywhere(before, t);
      } else if t in stored {
        FreshIsShown(last.pages, n, rows, t);
      }
    }
    forall t | t in stored ensures t !in rows {
      FreshIsShown(last.pages, n, rows, t);
    }
    OnceConcat(rows, stored);
  }

  lemma StoredOnce(last: AccountRound, n: nat, rows: seq<string>)
    requires Served(last.addrs, last.pages)
    ensures Once(RowsOf(BtcFetch(last.addrs, n, rows)))
  {
    BtcFetchIsClean(last.addrs, last.pages, n, rows);
    RowsOfOnce(BtcFetch(last.addrs, n, rows));
  }

  lemma FreshIsShown(pages: seq<Pages>, n: nat, rows: seq<string>, t: string)
    requires FreshWithin(pages, n, rows, t)
    ensures ShownAnywhere(Flats(pages), t) && t !in rows
  {
    var a :| 0 <= a < |pages| && t in Fresh(Flat(First(pages[a], n)), rows);
    var h := Flat(First(pages[a], n));
    FreshMember(h, rows, t);
    var i :| 0 <= i < |h| && h[i].txid == t && Storable(h[i]);
    if |pages[a]| > n {
      FlatSplit(pages[a], n);
    }
    assert h[i] in h && h[i] in Flat(pages[a]);
    var k :| 0 <= k < |Flat(pages[a])| && Flat(pages[a])[k] == h[i];
    assert ShownIn(Flats(pages)[a], t);
  }

  // ---- a round that does not fit ----

  function Marks(k: nat): (s: string)
    ensures |s| == k
  {
    seq(k, i => 'x')
  }

  function LongEntry(k: nat): Entry {
    Entry("t" + Marks(k), MakesRow)
  }

  lemma LongEntryLength(k: nat)
    ensures |LongEntry(k).txid| == k + 1 && Storable(LongEntry(k))
  {
  }

  /** A node whose page `k` shows one transaction, up to page `n`. */
  function LongNode(n: nat): Node {
    key => Page([LongEntry(|key|)], if |key| < n then Marks(|key| + 1) else "")
  }

  function LongPages(n: nat, from: nat): Pages
    requires from <= n + 1
  {
    seq(n + 1 - from, i requires 0 <= i < n + 1 - from => [LongEntry(from + i)])
  }

  lemma {:induction false} LongServes(n: nat, from: nat)
    requires from <= n
    ensures Serves(LongNode(n), Marks(from), LongPages(n, from))
    decreases n - from
  {
    var pages := LongPages(n, from);
    if from < n {
      LongServes(n, from + 1);
      assert pages[1..] == LongPages(n, from + 1);
      assert Marks(from + 1) != "";
    } else {
      assert |pages| == 1;
    }
  }

  lemma {:induction false} LongFlat(n: nat, from: nat)
    requires from <= n + 1
    ensures Flat(LongPages(n, from)) == seq(n + 1 - from, i requires 0 <= i < n + 1 - from => LongEntry(from + i))
    decreases n + 1 - from
  {
    var pages := LongPages(n, from);
    if from <= n {
      LongFlat(n, from + 1);
      assert pages[1..] == LongPages(n, from + 1);
    }
  }

  /**
    A history one page longer than the cap: the sweep stores nothing of the last page, sweeping again stores nothing
    at all, and the last transaction stays missing.
  */
  lemma CapLeavesGap(n: nat)
    ensures var node, pages := LongNode(n), LongPages(n, 0);
            && Serves(node, "", pages) && Distinct(Flat(pages)) && Settled(pages, [])
            && !Fits(pages, n, [])
            && Storable(LongEntry(n)) && LongEntry(n) in Flat(pages)
            && var after := EvmSweep(node, "", n, []);
               LongEntry(n).txid !in after && EvmSweep(node, "", n, after) == after
  {
    var node, pages := LongNode(n), LongPages(n, 0);
    LongServes(n, 0);
    assert Marks(0) == "";
    LongHistory(n);
    OlderKnownSettles(pages, []);
    hide LongNode, LongPages, LongEntry, Serves, Flat, Distinct, Settled;
    var m := Reach(pages, n, []);
    SweepVisits(node, "", pages, n, []);
    LastIsUnvisited(pages, n, m);
    assert [] + Fresh(Flat(pages[..m]), []) == Fresh(Flat(pages[..m]), []);
    SecondSweepStoresNothing(node, pages, [], n);
  }

  lemma LongHistory(n: nat)
    ensures var h := Flat(LongPages(n, 0));
            && |h| == n + 1 && (forall i :: 0 <= i <= n ==> h[i] == LongEntry(i))
            && Distinct(h) && OlderKnown(h, []) && LongEntry(n) in h && Storable(LongEntry(n))
    ensures !Fits(LongPages(n, 0), n, [])
  {
    LongFlat(n, 0);
    var h := Flat(LongPages(n, 0));
    assert forall i :: 0 <= i <= n ==> h[i] == LongEntry(i);
    assert h[n] == LongEntry(n);
    forall i | 0 <= i <= n ensures |h[i].txid| == i + 1 {
      LongEntryLength(i);
    }
    assert LongPages(n, 0)[n..] == [[LongEntry(n)]];
    assert Flat([[LongEntry(n)]]) == [LongEntry(n)];
    LongEntryLength(n);
    hide Flat, LongPages;
    FreshMember([LongEntry(n)], [], LongEntry(n).txid);
  }

  lemma LastIsUnvisited(pages: Pages, n: nat, m: nat)
    requires pages == LongPages(n, 0) && m <= n
    ensures LongEntry(n).txid !in Fresh(Flat(pages[..m]), [])
  {
    LongHistory(n);
    FlatPrefix(pages, m);
    PagesShow(n, m);
    var seen, h := Flat(pages[..m]), Flat(pages);
    hide Flat, LongPages, LongEntry;
    FreshMember(seen, [], LongEntry(n).txid);
    LongEntryLength(n);
    forall i | 0 <= i < |seen| ensures |seen[i].txid| == i + 1 {
      assert seen[i] == h[..|seen|][i] == h[i] == LongEntry(i);
      LongEntryLength(i);
    }
  }

  lemma {:induction false} PagesShow(n: nat, m: nat)
    requires m <= n + 1
    ensures |Flat(LongPages(n, 0)[..m])| == m
  {
    if m > 0 {
      PagesShow(n, m - 1);
      FlatSplit(LongPages(n, 0)[..m], m - 1);
      assert LongPages(n, 0)[..m][..m - 1] == LongPages(n, 0)[..m - 1];
      assert LongPages(n, 0)[..m][m - 1..] == [[LongEntry(m - 1)]];
      assert Flat([[LongEntry(m - 1)]]) == [LongEntry(m - 1)];
    }
  }

  // ---- a transaction confirmed behind a stored one ----

  /** Page one shows `recent`, page two `late`, which is confirmed only in the second round. */
  function TwoPages(confirmed: bool): Pages {
    [[Entry("recent", MakesRow)], [Entry("late", if confirmed then MakesRow else NoRow)]]
  }

  function TwoPageNode(confirmed: bool): Node {
    key => if key == "" then Page(TwoPages(confirmed)[0], "next") else Page(TwoPages(confirmed)[1], "")
  }

  lemma TwoPagesServe(confirmed: bool)
    ensures Served([TwoPageNode(confirmed)], [TwoPages(confirmed)]) && Consistent([TwoPages(confirmed)])
    ensures Flat(TwoPages(confirmed)) == TwoPages(confirmed)[0] + TwoPages(confirmed)[1]
  {
    var pages := TwoPages(confirmed);
    assert pages[1..] == [pages[1]] && [pages[1]][1..] == [];
    FlatOne(pages[1]);
    assert Serves(TwoPageNode(confirmed), "next", [pages[1]]);
    assert Flat(pages) == pages[0] + pages[1];
    assert [pages][0] == pages;
  }

  /**
    The first sweep leaves an unconfirmed transaction for a later one. Once it is confirmed it can be stored, but the
    page in front of it shows a stored row, so the second sweep stores nothing, nor does any sweep after it.
  */
  lemma LateConfirmationIsMissed(n: nat)
    requires n >= 2
    ensures RowsOf(BtcFetch([TwoPageNode(false)], n, [])) == ["recent"]
    ensures RowsOf(BtcFetch([TwoPageNode(true)], n, ["recent"])) == []
    ensures Storable(Entry("late", MakesRow)) && Entry("late", MakesRow) in Flat(TwoPages(true))
    ensures !Continues([Flat(TwoPages(false))], [TwoPages(true)])
  {
    FirstSweep(n);
    SecondSweep(n);
    NotInOrder();
    TwoPagesServe(true);
    assert (TwoPages(true)[0] + TwoPages(true)[1])[1] == Entry("late", MakesRow);
    hide Flat, BtcFetch, RowsOf, Continues;
  }

  lemma FirstSweep(n: nat)
    requires n >= 2
    ensures RowsOf(BtcFetch([TwoPageNode(false)], n, [])) == ["recent"]
  {
    hide TwoPages, TwoPageNode, BtcFetch, RowsOf, FreshVisited;
    TwoPagesServe(false);
    BitcoinSweepStoresVisited([TwoPageNode(false)], [TwoPages(false)], n, []);
    FirstStores(n);
    var rows := RowsOf(BtcFetch([TwoPageNode(false)], n, []));
    assert FreshVisited([TwoPages(false)], n, [], "recent");
    assert "recent" in rows;
    OnlyRow(rows, "recent");
  }

  lemma SecondSweep(n: nat)
    requires n >= 2
    ensures RowsOf(BtcFetch([TwoPageNode(true)], n, ["recent"])) == []
  {
    hide TwoPages, TwoPageNode, BtcFetch, RowsOf, FreshVisited;
    TwoPagesServe(true);
    BitcoinSweepStoresVisited([TwoPageNode(true)], [TwoPages(true)], n, ["recent"]);
    SecondStops(n);
    FirstIsIn(RowsOf(BtcFetch([TwoPageNode(true)], n, ["recent"])));
  }

  lemma OnlyRow(rows: seq<string>, t: string)
    requires Once(rows) && t in rows && forall u :: u in rows ==> u == t
    ensures rows == [t]
  {
    forall i | 0 <= i < |rows|
      ensures rows[i] == t
    {
      assert rows[i] in rows;
    }
    OnceDiffers(rows);
  }

  lemma OnceDiffers(rows: seq<string>)
    requires Once(rows)
    ensures |rows| > 1 ==> rows[0] != rows[1]
  {
  }

  lemma FirstIsIn(rows: seq<string>)
    ensures rows != [] ==> rows[0] in rows
  {
  }

  lemma FirstStores(n: nat)
    requires n >= 2
    ensures forall t :: FreshVisited([TwoPages(false)], n, [], t) <==> t == "recent"
  {
    var pages := TwoPages(false);
    assert Reach(pages[1..], n - 1, []) == 1;
    assert Visited(pages, n, []) == pages;
    TwoPagesServe(false);
    var h := Flat(pages);
    assert h[0] == Entry("recent", MakesRow) && h[1] == Entry("late", Body.NoRow);
    hide Fresh, Flat, Visited;
    forall t ensures t in Fresh(h, []) <==> t == "recent" {
      FreshMember(h, [], t);
    }
    assert [pages][0] == pages;
  }

  lemma SecondStops(n: nat)
    requires n >= 2
    ensures forall t :: !FreshVisited([TwoPages(true)], n, ["recent"], t)
  {
    var pages: Pages, rows := TwoPages(true), ["recent"];
    assert pages[0][0] == Entry("recent", MakesRow);
    assert Visited(pages, n, rows) == [pages[0]];
    FlatOne(pages[0]);
    forall t ensures t !in Fresh(pages[0], rows) {
      FreshMember(pages[0], rows, t);
    }
  }

  lemma NotInOrder()
    ensures !Continues([Flat(TwoPages(false))], [TwoPages(true)])
  {
    TwoPagesServe(false);
    TwoPagesServe(true);
    var before, pages: Pages := [Flat(TwoPages(false))], TwoPages(true);
    var late := Entry("late", MakesRow);
    assert pages[0 + 1..] == [[late]];
    FlatOne([late]);
    assert before[0][0] == Entry("recent", MakesRow) && before[0][1] == Entry("late", Body.NoRow);
    assert ShownIn(before[0], "recent");
    assert ShowsOld(before, pages[0]) by {
      assert pages[0][0].txid == "recent";
    }
    assert !ShownIn(before[0], "late");
    assert !AllOld(before, [late]) by {
      assert Storable([late][0]);
    }
    assert [pages][0] == pages;
  }
}
