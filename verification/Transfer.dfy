/**
  Single-use device transfer (rust/src/env.rs): export sessions keyed by sid, queries that claim, check a token,
  announce a pairing, wait for the host's answer and seal. The class holds the shared state; the system interleaves
  any number of queries and host answers, one lock or atomic operation per step.
*/
module Transfer {
  import opened Wrappers

  type Shares = string

  /** A pair event: the query that announced it and the token its peer presented. */
  datatype Pairing = Pairing(query: nat, token: string)

  /** A sealed payload: the query that returned it and the shares inside. */
  datatype Payload = Payload(query: nat, shares: Shares)

  /**
    One registered session. `receiver` says the channel's receiver is still there to be taken and `alive` that it has
    not been dropped; `sent` are the host's answers that reached the channel, in order (Some confirms, None cancels).
    `owner` is the query that won the claim; `announced` and `sealed` record what the session was used for.
  */
  datatype Session = Session(token: string, claimed: bool, receiver: bool, alive: bool, sent: seq<Option<Shares>>,
                             owner: Option<nat>, announced: seq<Pairing>, sealed: seq<Payload>)

  datatype Vault = Vault(table: map<string, nat>, sessions: seq<Session>)

  function Register(v: Vault, sid: string, token: string): Vault {
    Vault(v.table[sid := |v.sessions|], v.sessions + [Session(token, false, true, true, [], None, [], [])])
  }

  /** The atomic swap of the claimed flag by query `q`: true when this query won. */
  function Claim(v: Vault, x: nat, q: nat): (Vault, bool)
    requires x < |v.sessions|
  {
    var s := v.sessions[x];
    (v.(sessions := v.sessions[x := s.(claimed := true, owner := if s.claimed then s.owner else Some(q))]), !s.claimed)
  }

  function TakeReceiver(v: Vault, x: nat): (Vault, bool)
    requires x < |v.sessions|
  {
    (v.(sessions := v.sessions[x := v.sessions[x].(receiver := false)]), v.sessions[x].receiver)
  }

  /** A send into the session's channel; it fails once the receiver has been dropped. */
  function Send(v: Vault, x: nat, answer: Option<Shares>): (Vault, bool)
    requires x < |v.sessions|
  {
    var s := v.sessions[x];
    (if s.alive then v.(sessions := v.sessions[x := s.(sent := s.sent + [answer])]) else v, s.alive)
  }

  class Sessions {
    var table: map<string, nat>
    var sessions: seq<Session>

    function View(): Vault
      reads this
    {
      Vault(table, sessions)
    }

    method TransferRegister(sid: string, token: string)
      modifies this
      ensures View() == Register(old(View()), sid, token)
    {
      table := table[sid := |sessions|];
      sessions := sessions + [Session(token, false, true, true, [], None, [], [])];
    }

    method SwapClaimed(x: nat, q: nat) returns (won: bool)
      requires x < |sessions|
      modifies this
      ensures (View(), won) == Claim(old(View()), x, q)
    {
      won := !sessions[x].claimed;
      sessions := sessions[x := sessions[x].(claimed := true, owner := if won then Some(q) else sessions[x].owner)];
    }

    method TakeConfirmReceiver(x: nat) returns (taken: bool)
      requires x < |sessions|
      modifies this
      ensures (View(), taken) == TakeReceiver(old(View()), x)
    {
      taken := sessions[x].receiver;
      sessions := sessions[x := sessions[x].(receiver := false)];
    }

    method TransferResolve(sid: string, answer: Option<Shares>) returns (sent: bool)
      requires sid in table ==> table[sid] < |sessions|
      modifies this
      ensures (View(), sent)
           == if sid in old(table) then Send(old(View()), old(table)[sid], answer) else (old(View()), false)
    {
      if sid !in table {
        return false;
      }
      var x := table[sid];
      if !sessions[x].alive {
        return false;
      }
      sessions := sessions[x := sessions[x].(sent := sessions[x].sent + [answer])];
      return true;
    }
  }

  // ---- queries ----

  /**
    Where a query is; `token` is what the peer presented, None when it does not decode. `Leaving` has removed the
    session and is about to return, dropping the receiver.
  */
  datatype Query =
    | Arrived(sid: string, token: Option<string>)
    | Found(sid: string, x: nat, token: Option<string>)
    | Won(sid: string, x: nat, token: Option<string>)
    | Matched(sid: string, x: nat, got: string)
    | Announced(sid: string, x: nat)
    | Listening(sid: string, x: nat)
    | Heard(sid: string, x: nat, answer: Option<Shares>)
    | Accepted(x: nat, shares: Shares)
    | Leaving(x: nat)
    | Served(x: nat)
    | Refused

  datatype Host = Asking(x: nat, answer: Option<Shares>) | Told

  /** `presented` records the token of every query, by its number. */
  datatype System = System(vault: Vault, queries: seq<Query>, presented: seq<Option<string>>, hosts: seq<Host>)

  const START := System(Vault(map[], []), [], [], [])

  datatype Action =
    | NewSession(sid: string, token: string)
    | NewQuery(sid: string, presented: Option<string>)
    | Answer(sid: string, answer: Option<Shares>)  // the host looks the session up
    | Deliver(h: nat)                              // and sends into its channel
    | Advance(q: nat, ok: bool)                    // the query's next operation; not ok: it times out or fails to seal

  function Quit(s: System, q: nat): System
    requires q < |s.queries|
  {
    s.(queries := s.queries[q := Refused])
  }

  function Remove(s: System, sid: string): System {
    s.(vault := s.vault.(table := s.vault.table - {sid}))
  }

  function Goto(s: System, q: nat, next: Query): System
    requires q < |s.queries|
  {
    s.(queries := s.queries[q := next])
  }

  function Edit(s: System, x: nat, e: Session): System
    requires x < |s.vault.sessions|
  {
    s.(vault := s.vault.(sessions := s.vault.sessions[x := e]))
  }

  function QueryStep(s: System, q: nat, ok: bool): System
    requires q < |s.queries|
  {
    var n := |s.vault.sessions|;
    match s.queries[q]
    case Arrived(sid, token) =>
      if sid in s.vault.table then Goto(s, q, Found(sid, s.vault.table[sid], token)) else Quit(s, q)
    case Found(sid, x, token) =>
      if x >= n then s
      else
        var (vault, won) := Claim(s.vault, x, q);
        Goto(s.(vault := vault), q, if won then Won(sid, x, token) else Refused)
    case Won(sid, x, token) =>
      if x >= n then s
      else if token.None? then Quit(s, q)
      else if token.value != s.vault.sessions[x].token then Quit(Remove(s, sid), q)
      else Goto(s, q, Matched(sid, x, token.value))
    case Matched(sid, x, got) =>
      if x >= n then s
      else
        var e := s.vault.sessions[x];
        Goto(Edit(s, x, e.(announced := e.announced + [Pairing(q, got)])), q, Announced(sid, x))
    case Announced(sid, x) =>
      if x >= n then s
      else
        var (vault, taken) := TakeReceiver(s.vault, x);
        Goto(s.(vault := vault), q, if taken then Listening(sid, x) else Refused)
    case Listening(sid, x) =>
      if x >= n then s
      else if !ok then Goto(Remove(s, sid), q, Leaving(x))
      else if s.vault.sessions[x].sent == [] then s
      else Goto(s, q, Heard(sid, x, s.vault.sessions[x].sent[0]))
    case Heard(sid, x, answer) =>
      Goto(Remove(s, sid), q, if answer.Some? then Accepted(x, answer.value) else Leaving(x))
    case Accepted(x, shares) =>
      if x >= n then s
      else if !ok then Goto(s, q, Leaving(x))
      else
        var e := s.vault.sessions[x];
        Goto(Edit(s, x, e.(sealed := e.sealed + [Payload(q, shares)], alive := false)), q, Served(x))
    case Leaving(x) =>
      if x >= n then s else Goto(Edit(s, x, s.vault.sessions[x].(alive := false)), q, Refused)
    case Served(_) => s
    case Refused => s
  }

  /** One atomic step; an action that is not enabled changes nothing. */
  function Step(s: System, a: Action): System {
    match a
    case NewSession(sid, token) => s.(vault := Register(s.vault, sid, token))
    case NewQuery(sid, token) =>
      s.(queries := s.queries + [if sid == "" then Refused else Arrived(sid, token)],
         presented := s.presented + [token])
    case Answer(sid, answer) =>
      if sid in s.vault.table then s.(hosts := s.hosts + [Asking(s.vault.table[sid], answer)]) else s
    case Deliver(h) =>
      if h < |s.hosts| && s.hosts[h].Asking? && s.hosts[h].x < |s.vault.sessions| then
        s.(vault := Send(s.vault, s.hosts[h].x, s.hosts[h].answer).0, hosts := s.hosts[h := Told])
      else s
    case Advance(q, ok) => if q < |s.queries| then QueryStep(s, q, ok) else s
  }

  function Exec(s: System, actions: seq<Action>): System {
    if actions == [] then s else Step(Exec(s, actions[..|actions| - 1]), actions[|actions| - 1])
  }

  // ---- the invariant ----

  /** Past the claim and still going, on session `x`. */
  predicate Holds(k: Query, x: nat) {
    match k
    case Won(_, y, _) => x == y
    case Matched(_, y, _) => x == y
    case Announced(_, y) => x == y
    case Listening(_, y) => x == y
    case Heard(_, y, _) => x == y
    case Accepted(y, _) => x == y
    case Leaving(y) => x == y
    case _ => false
  }

  /** What the session shows when query `q`, which presented `token`, is at `k` on it. */
  ghost predicate Agrees(k: Query, q: nat, token: Option<string>, e: Session) {
    && e.claimed && e.sealed == []
    && (k.Won? || token == Some(e.token))
    && (if k.Won? || k.Matched? then e.announced == [] else e.announced == [Pairing(q, e.token)])
    && (e.receiver <==> k.Won? || k.Matched? || k.Announced?)
    && (!k.Leaving? ==> e.alive)
    && (k.Won? ==> k.token == token)
    && (k.Matched? ==> k.got == e.token)
    && (k.Heard? ==> e.sent != [] && e.sent[0] == k.answer)
    && (k.Accepted? ==> e.sent != [] && e.sent[0] == Some(k.shares))
  }

  /** A session was used by its owner alone, for its own token, and sealed only the confirmed shares. */
  ghost predicate SessionOk(e: Session) {
    && (e.announced == [] || (e.owner.Some? && e.announced == [Pairing(e.owner.value, e.token)]))
    && (e.sealed == [] ||
        (e.announced != [] && e.sent != [] && e.sent[0].Some? && e.sealed == [Payload(e.owner.value, e.sent[0].value)]))
    && (!e.claimed ==> e.owner == None && e.announced == [] && e.sealed == [] && e.receiver)
    && (e.receiver ==> e.alive)
  }

  /** A session was announced only after the query behind it presented the session's token. */
  ghost predicate Proven(s: System, x: nat) {
    x < |s.vault.sessions| && s.vault.sessions[x].announced != [] ==>
      var e := s.vault.sessions[x];
      e.announced[0].query < |s.presented| && s.presented[e.announced[0].query] == Some(e.token)
  }

  /** A query still carries the token it presented. */
  ghost predicate Carries(s: System, q: nat)
    requires |s.presented| == |s.queries|
  {
    q < |s.queries| ==>
      match s.queries[q]
      case Arrived(_, token) => s.presented[q] == token
      case Found(_, _, token) => s.presented[q] == token
      case _ => true
  }

  /** Query `q` owns what it holds, and the session shows how far it got. */
  ghost predicate Owns(s: System, q: nat, x: nat)
    requires |s.presented| == |s.queries|
  {
    q < |s.queries| && Holds(s.queries[q], x) ==>
      && x < |s.vault.sessions|
      && s.vault.sessions[x].owner == Some(q)
      && Agrees(s.queries[q], q, s.presented[q], s.vault.sessions[x])
  }

  ghost predicate Inv(s: System) {
    && |s.presented| == |s.queries|
    && (forall x :: 0 <= x < |s.vault.sessions| ==> SessionOk(s.vault.sessions[x]))
    && (forall x: nat :: Proven(s, x))
    && (forall q: nat :: Carries(s, q))
    && (forall q: nat, x: nat :: Owns(s, q, x))
  }

  /** A step of query `q` touches no session another query holds. */
  lemma AdvanceKeeps(s: System, q: nat, ok: bool)
    requires Inv(s) && q < |s.queries|
    ensures Inv(QueryStep(s, q, ok))
  {
    hide SessionOk, Proven, Carries, Owns, QueryStep;
    forall p: nat, x: nat
      ensures |QueryStep(s, q, ok).presented| == |QueryStep(s, q, ok).queries| && Owns(QueryStep(s, q, ok), p, x)
    {
      AdvanceKeepsOwner(s, q, ok, p, x);
    }
    AdvanceKeepsOwner(s, q, ok, q, 0);
    forall p: nat ensures Carries(QueryStep(s, q, ok), p) {
      AdvanceKeepsTokens(s, q, ok, p);
    }
    forall x | 0 <= x < |QueryStep(s, q, ok).vault.sessions| ensures SessionOk(QueryStep(s, q, ok).vault.sessions[x]) {
      AdvanceKeepsSession(s, q, ok, x);
    }
    forall x: nat ensures Proven(QueryStep(s, q, ok), x) {
      AdvanceKeepsProof(s, q, ok, x);
    }
  }

  lemma AdvanceKeepsTokens(s: System, q: nat, ok: bool, p: nat)
    requires Inv(s) && q < |s.queries|
    ensures |QueryStep(s, q, ok).presented| == |QueryStep(s, q, ok).queries| && Carries(QueryStep(s, q, ok), p)
  {
    assert Carries(s, p) && Carries(s, q);
    hide Owns, Proven, SessionOk;
  }

  lemma AdvanceKeepsSession(s: System, q: nat, ok: bool, x: nat)
    requires Inv(s) && q < |s.queries| && x < |QueryStep(s, q, ok).vault.sessions|
    ensures SessionOk(QueryStep(s, q, ok).vault.sessions[x])
  {
    hide Proven, Carries;
    assert x < |s.vault.sessions|;
    assert SessionOk(s.vault.sessions[x]) && Owns(s, q, x);
  }

  lemma AdvanceKeepsProof(s: System, q: nat, ok: bool, x: nat)
    requires Inv(s) && q < |s.queries|
    ensures Proven(QueryStep(s, q, ok), x)
  {
    assert Proven(s, x) && Owns(s, q, x);
    hide Carries;
  }

  lemma AdvanceKeepsOwner(s: System, q: nat, ok: bool, p: nat, x: nat)
    requires Inv(s) && q < |s.queries|
    ensures |QueryStep(s, q, ok).presented| == |QueryStep(s, q, ok).queries| && Owns(QueryStep(s, q, ok), p, x)
  {
    assert Owns(s, p, x) && Owns(s, q, x) && Carries(s, q);
    hide Proven;
    if s.queries[q].Found? {
      assert s.queries[q].x < |s.vault.sessions| ==> SessionOk(s.vault.sessions[s.queries[q].x]);
    }
  }

  lemma OutsideKeeps(s: System, a: Action)
    requires Inv(s) && !a.Advance?
    ensures Inv(Step(s, a))
  {
    forall q: nat, x: nat ensures Owns(Step(s, a), q, x) {
      assert Owns(s, q, x);
      hide SessionOk, Proven, Carries;
    }
    forall q: nat ensures Carries(Step(s, a), q) {
      assert Carries(s, q);
      hide SessionOk, Proven, Owns;
    }
    forall x: nat ensures Proven(Step(s, a), x) {
      assert Proven(s, x);
      hide SessionOk, Carries, Owns;
    }
    forall x | 0 <= x < |Step(s, a).vault.sessions| ensures SessionOk(Step(s, a).vault.sessions[x]) {
      hide Owns, Proven, Carries;
      assert x < |s.vault.sessions| ==> SessionOk(s.vault.sessions[x]);
    }
  }

  lemma SentGrows(s: System, a: Action)
    ensures |s.vault.sessions| <= |Step(s, a).vault.sessions|
    ensures forall x :: 0 <= x < |s.vault.sessions| ==>
              s.vault.sessions[x].sent <= Step(s, a).vault.sessions[x].sent
  {
  }

  /** A query's token and a session's token are never changed. */
  lemma TokensStay(s: System, a: Action)
    ensures s.presented <= Step(s, a).presented && |s.queries| <= |Step(s, a).queries|
    ensures forall x :: 0 <= x < |s.vault.sessions| ==>
              x < |Step(s, a).vault.sessions| && Step(s, a).vault.sessions[x].token == s.vault.sessions[x].token
  {
  }

  lemma StepKeeps(s: System, a: Action)
    requires Inv(s)
    ensures Inv(Step(s, a)) && |s.vault.sessions| <= |Step(s, a).vault.sessions|
    ensures forall x :: 0 <= x < |s.vault.sessions| ==>
              s.vault.sessions[x].sent <= Step(s, a).vault.sessions[x].sent
  {
    SentGrows(s, a);
    if a.Advance? {
      if a.q < |s.queries| {
        AdvanceKeeps(s, a.q, a.ok);
      }
    } else {
      OutsideKeeps(s, a);
    }
  }

  lemma {:induction false} EveryRunKeeps(actions: seq<Action>)
    ensures Inv(Exec(START, actions))
  {
    if actions != [] {
      EveryRunKeeps(actions[..|actions| - 1]);
      StepKeeps(Exec(START, actions[..|actions| - 1]), actions[|actions| - 1]);
    }
  }

  // ---- results over every interleaving ----

  /** At most one query is past the claim of a session. */
  lemma OneQueryPastTheClaim(actions: seq<Action>, x: nat, p: nat, q: nat)
    requires var s := Exec(START, actions);
             p < |s.queries| && q < |s.queries| && Holds(s.queries[p], x) && Holds(s.queries[q], x)
    ensures p == q
  {
    EveryRunKeeps(actions);
    OneHolder(Exec(START, actions), x, p, q);
  }

  lemma OneHolder(s: System, x: nat, p: nat, q: nat)
    requires Inv(s) && p < |s.queries| && q < |s.queries| && Holds(s.queries[p], x) && Holds(s.queries[q], x)
    ensures p == q
  {
    assert Owns(s, p, x) && Owns(s, q, x);
  }

  /**
    A session announces at most once and seals at most once, both for one query, which presented the session's own
    token; what is sealed is the host's first answer, a confirm.
  */
  lemma SingleUse(actions: seq<Action>, x: nat)
    requires x < |Exec(START, actions).vault.sessions|
    ensures var s := Exec(START, actions);
            var e := s.vault.sessions[x];
            && |e.announced| <= 1 && |e.sealed| <= 1
            && (e.announced != [] ==>
                  && e.announced[0].query < |s.presented|
                  && s.presented[e.announced[0].query] == Some(e.token)
                  && e.announced[0].token == e.token)
            && (e.sealed != [] ==>
                  && e.announced != [] && e.sealed[0].query == e.announced[0].query
                  && e.sent != [] && e.sent[0] == Some(e.sealed[0].shares))
  {
    EveryRunKeeps(actions);
    var s := Exec(START, actions);
    assert SessionOk(s.vault.sessions[x]) && Proven(s, x);
  }

  /** Query `q` is behind no pair event and no payload of session `e`. */
  predicate Unused(e: Session, q: nat) {
    && (forall i :: 0 <= i < |e.announced| ==> e.announced[i].query != q)
    && (forall i :: 0 <= i < |e.sealed| ==> e.sealed[i].query != q)
  }

  /** A query with a wrong token, or one that does not decode, never pairs or gets a payload, whatever follows. */
  lemma {:induction false} WrongTokenNeverPairs(s: System, more: seq<Action>, q: nat, x: nat)
    requires Inv(s) && q < |s.presented| && x < |s.vault.sessions|
    requires s.presented[q] != Some(s.vault.sessions[x].token)
    ensures var s' := Exec(s, more);
            && Inv(s') && q < |s'.presented| && s'.presented[q] == s.presented[q]
            && x < |s'.vault.sessions| && s'.vault.sessions[x].token == s.vault.sessions[x].token
            && Unused(s'.vault.sessions[x], q)
  {
    if more == [] {
      assert SessionOk(s.vault.sessions[x]) && Proven(s, x);
    } else {
      var before, last := Exec(s, more[..|more| - 1]), more[|more| - 1];
      WrongTokenNeverPairs(s, more[..|more| - 1], q, x);
      StepKeeps(before, last);
      TokensStay(before, last);
      var s' := Step(before, last);
      hide Step, Exec;
      assert SessionOk(s'.vault.sessions[x]) && Proven(s', x);
    }
  }

  /** Once the first answer is a cancel, nothing is ever sealed, whatever is answered later. */
  lemma {:induction false} CancelIsFinal(s: System, more: seq<Action>, x: nat)
    requires Inv(s) && x < |s.vault.sessions| && s.vault.sessions[x].sent != []
    requires s.vault.sessions[x].sent[0] == None
    ensures var s' := Exec(s, more);
            && Inv(s') && x < |s'.vault.sessions| && s'.vault.sessions[x].sealed == []
            && s.vault.sessions[x].sent <= s'.vault.sessions[x].sent
  {
    if more == [] {
      assert SessionOk(s.vault.sessions[x]);
    } else {
      var before, last := Exec(s, more[..|more| - 1]), more[|more| - 1];
      CancelIsFinal(s, more[..|more| - 1], x);
      StepKeeps(before, last);
      hide Step;
      assert SessionOk(Step(before, last).vault.sessions[x]);
    }
  }
}
