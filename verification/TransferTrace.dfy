/**
  Who a device transfer serves (rust/src/env.rs), read off a run's actions alone: a payload goes to a query for the sid
  its session was registered under, with that session's token, and holds what the host answered for that very sid.
*/
module TransferTrace {
  import opened Wrappers
  import opened Transfer

  type Registration = (string, string)
  type Question = (string, Option<string>)

  /** The sids and tokens registered, in order: session `x` is registration `x`. */
  function Registrations(actions: seq<Action>): seq<Registration> {
    if actions == [] then []
    else
      match actions[|actions| - 1]
      case NewSession(sid, token) => Registrations(actions[..|actions| - 1]) + [(sid, token)]
      case _ => Registrations(actions[..|actions| - 1])
  }

  /** The sids asked for and the tokens presented, in order: query `q` is question `q`. */
  function Questions(actions: seq<Action>): seq<Question> {
    if actions == [] then []
    else
      match actions[|actions| - 1]
      case NewQuery(sid, token) => Questions(actions[..|actions| - 1]) + [(sid, token)]
      case _ => Questions(actions[..|actions| - 1])
  }

  /** The query asked for the sid that session `x` was registered under. */
  ghost predicate AsksFor(actions: seq<Action>, q: nat, x: nat) {
    q < |Questions(actions)| && x < |Registrations(actions)| && Questions(actions)[q].0 == Registrations(actions)[x].0
  }

  /** The host gave this answer for the sid that session `x` was registered under. */
  ghost predicate Answered(actions: seq<Action>, x: nat, answer: Option<Shares>) {
    x < |Registrations(actions)| && Action.Answer(Registrations(actions)[x].0, answer) in actions
  }

  /** The sid a query still carries, and the session it is on. */
  function SidOf(k: Query): Option<string> {
    match k
    case Arrived(sid, _) => Some(sid)
    case Found(sid, _, _) => Some(sid)
    case Won(sid, _, _) => Some(sid)
    case Matched(sid, _, _) => Some(sid)
    case Announced(sid, _) => Some(sid)
    case Listening(sid, _) => Some(sid)
    case Heard(sid, _, _) => Some(sid)
    case _ => None
  }

  function SessionOf(k: Query): Option<nat> {
    match k
    case Found(_, x, _) => Some(x)
    case Won(_, x, _) => Some(x)
    case Matched(_, x, _) => Some(x)
    case Announced(_, x) => Some(x)
    case Listening(_, x) => Some(x)
    case Heard(_, x, _) => Some(x)
    case Accepted(x, _) => Some(x)
    case Leaving(x) => Some(x)
    case Served(x) => Some(x)
    case _ => None
  }

  ghost predicate QueryLinked(actions: seq<Action>, s: System, q: nat)
    requires q < |s.queries|
  {
    var k := s.queries[q];
    && q < |Questions(actions)|
    && (SidOf(k).Some? ==> SidOf(k).value == Questions(actions)[q].0)
    && (SessionOf(k).Some? ==> AsksFor(actions, q, SessionOf(k).value))
  }

  ghost predicate SessionLinked(actions: seq<Action>, e: Session, x: nat) {
    && x < |Registrations(actions)| && e.token == Registrations(actions)[x].1
    && (forall i :: 0 <= i < |e.sent| ==> Answered(actions, x, e.sent[i]))
    && (forall i :: 0 <= i < |e.announced| ==> AsksFor(actions, e.announced[i].query, x))
    && (forall i :: 0 <= i < |e.sealed| ==> AsksFor(actions, e.sealed[i].query, x))
  }

  ghost predicate Linked(actions: seq<Action>, s: System) {
    && |s.vault.sessions| == |Registrations(actions)| && |s.queries| == |s.presented| == |Questions(actions)|
    && (forall q :: 0 <= q < |s.presented| ==> s.presented[q] == Questions(actions)[q].1)
    && (forall sid :: sid in s.vault.table ==>
          s.vault.table[sid] < |Registrations(actions)| && Registrations(actions)[s.vault.table[sid]].0 == sid)
    && (forall q :: 0 <= q < |s.queries| ==> QueryLinked(actions, s, q))
    && (forall h :: 0 <= h < |s.hosts| && s.hosts[h].Asking? ==> Answered(actions, s.hosts[h].x, s.hosts[h].answer))
    && (forall x :: 0 <= x < |s.vault.sessions| ==> SessionLinked(actions, s.vault.sessions[x], x))
  }

  // ---- later actions keep every link ----

  lemma ListsGrow(actions: seq<Action>, a: Action)
    ensures Registrations(actions + [a])
         == Registrations(actions) + if a.NewSession? then [(a.sid, a.token)] else []
    ensures Questions(actions + [a]) == Questions(actions) + if a.NewQuery? then [(a.sid, a.presented)] else []
  {
    assert (actions + [a])[..|actions|] == actions;
  }

  lemma LinksStay(actions: seq<Action>, a: Action)
    ensures forall q: nat, x: nat :: AsksFor(actions, q, x) ==> AsksFor(actions + [a], q, x)
    ensures forall x: nat, answer :: Answered(actions, x, answer) ==> Answered(actions + [a], x, answer)
  {
    ListsGrow(actions, a);
    hide Registrations, Questions;
  }

  lemma SessionStays(actions: seq<Action>, a: Action, e: Session, x: nat)
    requires SessionLinked(actions, e, x)
    ensures SessionLinked(actions + [a], e, x)
  {
    ListsGrow(actions, a);
    LinksStay(actions, a);
    hide Registrations, Questions, AsksFor, Answered;
  }

  // ---- what a step does to the links ----

  /** A query moves on with its sid, to the session the table names for it, and leaves every other query alone. */
  lemma QueryMoves(s: System, q: nat, ok: bool, p: nat)
    requires q < |s.queries| && p < |s.queries|
    ensures var s' := QueryStep(s, q, ok);
            && |s'.queries| == |s.queries| && s'.presented == s.presented && s'.hosts == s.hosts
            && |s'.vault.sessions| == |s.vault.sessions|
            && (p != q ==> s'.queries[p] == s.queries[p])
            && (SidOf(s'.queries[q]).Some? ==> SidOf(s'.queries[q]) == SidOf(s.queries[q]))
            && (SessionOf(s'.queries[q]).Some? ==>
                  || SessionOf(s'.queries[q]) == SessionOf(s.queries[q])
                  || (SidOf(s.queries[q]).Some? && SidOf(s.queries[q]).value in s.vault.table
                      && SessionOf(s'.queries[q]).value == s.vault.table[SidOf(s.queries[q]).value]))
            && s'.vault.table.Keys <= s.vault.table.Keys
            && forall sid :: sid in s'.vault.table ==> s'.vault.table[sid] == s.vault.table[sid]
  {
  }

  /** A session's answers stay; only a query on it is recorded with it. */
  lemma SessionMoves(s: System, q: nat, ok: bool, x: nat)
    requires q < |s.queries| && x < |s.vault.sessions|
    ensures |QueryStep(s, q, ok).vault.sessions| == |s.vault.sessions|
    ensures var e, e' := s.vault.sessions[x], QueryStep(s, q, ok).vault.sessions[x];
            && e'.token == e.token && e'.sent == e.sent
            && (e'.announced == e.announced
                || (|e'.announced| == |e.announced| + 1 && e'.announced[..|e.announced|] == e.announced
                    && e'.announced[|e.announced|].query == q && SessionOf(s.queries[q]) == Some(x)))
            && (e'.sealed == e.sealed
                || (|e'.sealed| == |e.sealed| + 1 && e'.sealed[..|e.sealed|] == e.sealed
                    && e'.sealed[|e.sealed|].query == q && SessionOf(s.queries[q]) == Some(x)))
  {
  }

  lemma AdvanceLinks(actions: seq<Action>, s: System, q: nat, ok: bool)
    requires Linked(actions, s) && q < |s.queries|
    ensures Linked(actions, QueryStep(s, q, ok))
  {
    hide QueryStep, Registrations, Questions, Answered;
    var s' := QueryStep(s, q, ok);
    QueryMoves(s, q, ok, q);
    forall p | 0 <= p < |s'.queries|
      ensures QueryLinked(actions, s', p)
    {
      QueryMoves(s, q, ok, p);
      assert QueryLinked(actions, s, p);
    }
    forall x | 0 <= x < |s'.vault.sessions|
      ensures SessionLinked(actions, s'.vault.sessions[x], x)
    {
      SessionMoves(s, q, ok, x);
      assert SessionLinked(actions, s.vault.sessions[x], x) && QueryLinked(actions, s, q);
      LongerLogs(actions, s.vault.sessions[x], s'.vault.sessions[x], q, x);
    }
  }

  lemma LongerLogs(actions: seq<Action>, e: Session, e': Session, q: nat, x: nat)
    requires SessionLinked(actions, e, x) && e'.token == e.token && e'.sent == e.sent
    requires || e'.announced == e.announced
             || (|e'.announced| == |e.announced| + 1 && e'.announced[..|e.announced|] == e.announced
                 && e'.announced[|e.announced|].query == q && AsksFor(actions, q, x))
    requires || e'.sealed == e.sealed
             || (|e'.sealed| == |e.sealed| + 1 && e'.sealed[..|e.sealed|] == e.sealed
                 && e'.sealed[|e.sealed|].query == q && AsksFor(actions, q, x))
    ensures SessionLinked(actions, e', x)
  {
    hide Registrations, AsksFor, Answered;
    assert forall i :: 0 <= i < |e.announced| && e'.announced != e.announced ==>
        e'.announced[i] == e'.announced[..|e.announced|][i];
    assert forall i :: 0 <= i < |e.sealed| && e'.sealed != e.sealed ==> e'.sealed[i] == e'.sealed[..|e.sealed|][i];
  }

  /** What is linked stays linked when actions are added. */
  lemma LinkedStays(actions: seq<Action>, a: Action, s: System)
    requires Linked(actions, s) && !a.NewSession? && !a.NewQuery?
    ensures Linked(actions + [a], s)
  {
    ListsGrow(actions, a);
    LinksStay(actions, a);
    hide Registrations, Questions, AsksFor, Answered, SessionLinked;
    forall x | 0 <= x < |s.vault.sessions|
      ensures SessionLinked(actions + [a], s.vault.sessions[x], x)
    {
      SessionStays(actions, a, s.vault.sessions[x], x);
    }
    forall q | 0 <= q < |s.queries|
      ensures QueryLinked(actions + [a], s, q)
    {
      assert QueryLinked(actions, s, q);
    }
  }

  lemma NewSessionLinks(actions: seq<Action>, s: System, a: Action)
    requires Linked(actions, s) && a.NewSession?
    ensures Linked(actions + [a], Step(s, a))
  {
    ListsGrow(actions, a);
    LinksStay(actions, a);
    hide Registrations, Questions, AsksFor, Answered, SessionLinked;
    var s' := Step(s, a);
    forall x | 0 <= x < |s'.vault.sessions|
      ensures SessionLinked(actions + [a], s'.vault.sessions[x], x)
    {
      if x < |s.vault.sessions| {
        SessionStays(actions, a, s.vault.sessions[x], x);
      } else {
        FreshLinked(actions + [a], s'.vault.sessions[x], x);
      }
    }
    forall q | 0 <= q < |s'.queries|
      ensures QueryLinked(actions + [a], s', q)
    {
      assert QueryLinked(actions, s, q);
    }
  }

  lemma FreshLinked(actions: seq<Action>, e: Session, x: nat)
    requires x < |Registrations(actions)| && e.token == Registrations(actions)[x].1
    requires e.sent == [] && e.announced == [] && e.sealed == []
    ensures SessionLinked(actions, e, x)
  {
  }

  lemma NewQueryLinks(actions: seq<Action>, s: System, a: Action)
    requires Linked(actions, s) && a.NewQuery?
    ensures Linked(actions + [a], Step(s, a))
  {
    ListsGrow(actions, a);
    LinksStay(actions, a);
    hide Registrations, Questions, AsksFor, Answered, SessionLinked;
    var s' := Step(s, a);
    forall x | 0 <= x < |s'.vault.sessions|
      ensures SessionLinked(actions + [a], s'.vault.sessions[x], x)
    {
      SessionStays(actions, a, s.vault.sessions[x], x);
    }
    forall q | 0 <= q < |s'.queries|
      ensures QueryLinked(actions + [a], s', q)
    {
      if q < |s.queries| {
        assert QueryLinked(actions, s, q);
      }
    }
  }

  lemma HostLinks(actions: seq<Action>, s: System, a: Action)
    requires Linked(actions, s) && (a.Answer? || a.Deliver?)
    ensures Linked(actions + [a], Step(s, a))
  {
    LinkedStays(actions, a, s);
    ListsGrow(actions, a);
    hide Registrations, Questions, AsksFor;
    var s', all := Step(s, a), actions + [a];
    assert a in all;
    forall x | 0 <= x < |s'.vault.sessions|
      ensures SessionLinked(all, s'.vault.sessions[x], x)
    {
      assert SessionLinked(all, s.vault.sessions[x], x);
    }
    forall q | 0 <= q < |s'.queries|
      ensures QueryLinked(all, s', q)
    {
      assert QueryLinked(all, s, q);
    }
  }

  lemma {:induction false} RunsAreLinked(actions: seq<Action>)
    ensures Linked(actions, Exec(START, actions))
  {
    if actions != [] {
      var front, a := actions[..|actions| - 1], actions[|actions| - 1];
      var s := Exec(START, front);
      RunsAreLinked(front);
      assert actions == front + [a];
      hide Linked;
      match a
      case NewSession(_, _) => NewSessionLinks(front, s, a);
      case NewQuery(_, _) => NewQueryLinks(front, s, a);
      case Answer(_, _) => HostLinks(front, s, a);
      case Deliver(_) => HostLinks(front, s, a);
      case Advance(q, ok) =>
        LinkedStays(front, a, s);
        if q < |s.queries| {
          AdvanceLinks(actions, s, q, ok);
        }
    }
  }

  /**
    Over every run: the token of session `x` is the one it was registered with, and a payload sealed from it went to a
    query that asked for its sid and presented that token, and holds shares the host confirmed for that sid.
  */
  lemma PayloadGoesWhereItBelongs(actions: seq<Action>, x: nat)
    requires x < |Exec(START, actions).vault.sessions|
    ensures x < |Registrations(actions)|
    ensures var e, (sid, token) := Exec(START, actions).vault.sessions[x], Registrations(actions)[x];
            && e.token == token
            && (e.sealed != [] ==>
                  && e.sealed[0].query < |Questions(actions)|
                  && Questions(actions)[e.sealed[0].query] == (sid, Some(token))
                  && Action.Answer(sid, Some(e.sealed[0].shares)) in actions)
            && (e.announced != [] ==>
                  && e.announced[0].query < |Questions(actions)|
                  && Questions(actions)[e.announced[0].query] == (sid, Some(token)))
  {
    RunsAreLinked(actions);
    SingleUse(actions, x);
    hide Exec, Registrations, Questions;
    assert SessionLinked(actions, Exec(START, actions).vault.sessions[x], x);
  }

  // ---- an honest transfer succeeds ----

  /** What an honest query does from its arrival to the host's answer. */
  function HonestRun(sid: string, token: string, shares: Shares): seq<Action> {
    [NewSession(sid, token), NewQuery(sid, Some(token))] + [Advance(0, true), Advance(0, true), Advance(0, true)]
    + [Advance(0, true), Advance(0, true)] + [Action.Answer(sid, Some(shares)), Action.Deliver(0)]
    + [Advance(0, true), Advance(0, true), Advance(0, true)]
  }

  /** Registered, asked for with the right token, confirmed: the shares are announced and sealed for the one query. */
  lemma HonestTransferSucceeds(sid: string, token: string, shares: Shares)
    requires sid != ""
    ensures var s := Exec(START, HonestRun(sid, token, shares));
            && |s.vault.sessions| == 1 && sid !in s.vault.table
            && s.vault.sessions[0].announced == [Pairing(0, token)]
            && s.vault.sessions[0].sealed == [Payload(0, shares)]
  {
    var s1 := Step(Step(START, NewSession(sid, token)), NewQuery(sid, Some(token)));
    var s2 := Step(Step(Step(s1, Advance(0, true)), Advance(0, true)), Advance(0, true));
    var s3 := Step(Step(s2, Advance(0, true)), Advance(0, true));
    var s4 := Step(Step(s3, Action.Answer(sid, Some(shares))), Action.Deliver(0));
    var s5 := Step(Step(Step(s4, Advance(0, true)), Advance(0, true)), Advance(0, true));
    Opening(sid, token);
    Claiming(sid, token);
    Pairs(sid, token);
    Confirming(sid, token, shares);
    Sealing(sid, token, shares);
    hide Step;
    TwoSteps(START, NewSession(sid, token), NewQuery(sid, Some(token)));
    ThreeSteps(s1, Advance(0, true), Advance(0, true), Advance(0, true));
    TwoSteps(s2, Advance(0, true), Advance(0, true));
    TwoSteps(s3, Action.Answer(sid, Some(shares)), Action.Deliver(0));
    ThreeSteps(s4, Advance(0, true), Advance(0, true), Advance(0, true));
    var p1 := [NewSession(sid, token), NewQuery(sid, Some(token))];
    var p2 := [Advance(0, true), Advance(0, true), Advance(0, true)];
    var p3 := [Advance(0, true), Advance(0, true)];
    var p4 := [Action.Answer(sid, Some(shares)), Action.Deliver(0)];
    ExecConcat(START, p1, p2);
    ExecConcat(START, p1 + p2, p3);
    ExecConcat(START, p1 + p2 + p3, p4);
    ExecConcat(START, p1 + p2 + p3 + p4, p2);
  }

  function At(sid: string, token: string, k: Query, e: Session): System {
    System(Vault(map[sid := 0], [e]), [k], [Some(token)], [])
  }

  lemma Opening(sid: string, token: string)
    requires sid != ""
    ensures Step(Step(START, NewSession(sid, token)), NewQuery(sid, Some(token)))
         == At(sid, token, Arrived(sid, Some(token)), Unclaimed(token))
  {
  }

  function Unclaimed(token: string): Session {
    Session(token, false, true, true, [], None, [], [])
  }

  function Claimed(token: string): Session {
    Session(token, true, true, true, [], Some(0), [], [])
  }

  function Paired(token: string): Session {
    Session(token, true, false, true, [], Some(0), [Pairing(0, token)], [])
  }

  lemma Claiming(sid: string, token: string)
    ensures Step(Step(Step(At(sid, token, Arrived(sid, Some(token)), Unclaimed(token)), Advance(0, true)),
                      Advance(0, true)), Advance(0, true))
         == At(sid, token, Matched(sid, 0, token), Claimed(token))
  {
  }

  lemma Pairs(sid: string, token: string)
    ensures Step(Step(At(sid, token, Matched(sid, 0, token), Claimed(token)), Advance(0, true)), Advance(0, true))
         == At(sid, token, Listening(sid, 0), Paired(token))
  {
    var s := Step(At(sid, token, Matched(sid, 0, token), Claimed(token)), Advance(0, true));
    assert s.vault.sessions[0].announced == [Pairing(0, token)];
    assert Step(s, Advance(0, true)).vault.sessions == [Paired(token)];
  }

  lemma Confirming(sid: string, token: string, shares: Shares)
    ensures Step(Step(At(sid, token, Listening(sid, 0), Paired(token)), Action.Answer(sid, Some(shares))),
                 Action.Deliver(0))
         == At(sid, token, Listening(sid, 0), Paired(token).(sent := [Some(shares)])).(hosts := [Told])
  {
    var s := Step(At(sid, token, Listening(sid, 0), Paired(token)), Action.Answer(sid, Some(shares)));
    assert s.hosts == [Asking(0, Some(shares))];
    var s' := Step(s, Action.Deliver(0));
    assert s'.vault.sessions[0].sent == [Some(shares)];
    assert s'.vault.sessions == [Paired(token).(sent := [Some(shares)])] && s'.hosts == [Told];
  }

  lemma Sealing(sid: string, token: string, shares: Shares)
    ensures var e := Paired(token).(sent := [Some(shares)]);
            var s := At(sid, token, Listening(sid, 0), e).(hosts := [Told]);
            var s' := Step(Step(Step(s, Advance(0, true)), Advance(0, true)), Advance(0, true));
            && s'.vault.sessions == [e.(sealed := [Payload(0, shares)], alive := false)] && sid !in s'.vault.table
  {
    var e := Paired(token).(sent := [Some(shares)]);
    var s := At(sid, token, Listening(sid, 0), e).(hosts := [Told]);
    var s1 := Step(s, Advance(0, true));
    assert s1.queries == [Heard(sid, 0, Some(shares))] && s1.vault == s.vault;
    var s2 := Step(s1, Advance(0, true));
    assert s2.queries == [Accepted(0, shares)] && s2.vault.sessions == [e] && sid !in s2.vault.table;
    var s3 := Step(s2, Advance(0, true));
    assert s3.vault.sessions[0].sealed == [Payload(0, shares)];
  }

  lemma TwoSteps(s: System, a: Action, b: Action)
    ensures Exec(s, [a, b]) == Step(Step(s, a), b)
  {
    hide Step;
    assert [a, b][..1] == [a] && [a][..0] == [];
    assert Exec(s, [a]) == Step(s, a);
  }

  lemma ThreeSteps(s: System, a: Action, b: Action, c: Action)
    ensures Exec(s, [a, b, c]) == Step(Step(Step(s, a), b), c)
  {
    hide Step;
    TwoSteps(s, a, b);
    assert [a, b, c][..2] == [a, b];
  }

  lemma {:induction false} ExecConcat(s: System, xs: seq<Action>, ys: seq<Action>)
    ensures Exec(s, xs + ys) == Exec(Exec(s, xs), ys)
  {
    hide Step;
    if ys == [] {
      assert xs + ys == xs;
    } else {
      assert (xs + ys)[..|xs + ys| - 1] == xs + ys[..|ys| - 1];
      ExecConcat(s, xs, ys[..|ys| - 1]);
    }
  }

  // ---- a used session cannot be found again ----

  /** The query is past waiting for the host's answer. */
  function DoneWith(k: Query): Option<nat> {
    match k
    case Accepted(x, _) => Some(x)
    case Leaving(x) => Some(x)
    case Served(x) => Some(x)
    case _ => None
  }

  ghost predicate Gone(s: System, x: nat) {
    forall sid :: sid in s.vault.table ==> s.vault.table[sid] != x
  }

  /** A wrong token burns the session: nobody finds it under its sid again. */
  lemma WrongTokenBurns(s: System, q: nat, ok: bool)
    requires q < |s.queries| && s.queries[q].Won? && s.queries[q].x < |s.vault.sessions|
    requires s.queries[q].token.Some? && s.queries[q].token.value != s.vault.sessions[s.queries[q].x].token
    ensures var s' := Step(s, Advance(q, ok));
            s'.queries[q] == Refused && s.queries[q].sid !in s'.vault.table
  {
  }

  lemma DoneStep(s: System, a: Action, q: nat)
    requires q < |Step(s, a).queries| && DoneWith(Step(s, a).queries[q]).Some?
    ensures q < |s.queries|
    ensures var x := DoneWith(Step(s, a).queries[q]).value;
            || DoneWith(s.queries[q]) == Some(x)
            || (SessionOf(s.queries[q]) == Some(x) && SidOf(s.queries[q]).Some?
                && SidOf(s.queries[q]).value !in Step(s, a).vault.table)
    ensures forall sid :: sid in Step(s, a).vault.table && !(a.NewSession? && a.sid == sid) ==>
              sid in s.vault.table && Step(s, a).vault.table[sid] == s.vault.table[sid]
    ensures a.NewSession? ==> Step(s, a).vault.table[a.sid] == |s.vault.sessions|
  {
  }

  /** Once a query is past waiting, timed out or declined included, its session is in the table no more. */
  lemma {:induction false} DoneSessionsAreGone(actions: seq<Action>, q: nat)
    requires var s := Exec(START, actions);
             q < |s.queries| && DoneWith(s.queries[q]).Some?
    ensures var s := Exec(START, actions);
            Gone(s, DoneWith(s.queries[q]).value)
  {
    if actions != [] {
      var front, a := actions[..|actions| - 1], actions[|actions| - 1];
      var s, s' := Exec(START, front), Exec(START, actions);
      assert actions == front + [a] && s' == Step(s, a);
      DoneStep(s, a, q);
      RunsAreLinked(front);
      hide Exec, Step, Registrations, Questions;
      var x := DoneWith(s'.queries[q]).value;
      assert QueryLinked(front, s, q);
      if DoneWith(s.queries[q]) == Some(x) {
        DoneSessionsAreGone(front, q);
      }
    }
  }
}
