/**
  The shutdown barrier of a handle (rust/src/handle.rs) with the request workers of rust/src/lib.rs: requests begin
  and end under the in-flight lock, destroy sets the flag under the same lock and sleeps on the condition variable
  until the count is zero. The class holds what the lock guards; the system interleaves any number of requests.
*/
module Shutdown {
  /** What the in-flight lock guards. */
  datatype Gate = Gate(inflight: nat, shutdown: bool)

  /** A request asks to begin; it gets a guard unless the flag is up. */
  function BeginGate(g: Gate): (Gate, bool) {
    if g.shutdown then (g, false) else (g.(inflight := g.inflight + 1), true)
  }

  /** A guard is dropped; the last one notifies the waiters. */
  function EndGate(g: Gate): (Gate, bool)
    requires g.inflight > 0
  {
    (g.(inflight := g.inflight - 1), g.inflight == 1)
  }

  /** The flag goes up; true when there is nothing to wait for. */
  function RaiseGate(g: Gate): (Gate, bool) {
    (g.(shutdown := true), g.inflight == 0)
  }

  class Handle {
    var inflight: nat
    var shutdown: bool

    function View(): Gate
      reads this
    {
      Gate(inflight, shutdown)
    }

    constructor ()
      ensures View() == Gate(0, false)
    {
      inflight, shutdown := 0, false;
    }

    method BeginRequest() returns (guarded: bool)
      modifies this
      ensures (View(), guarded) == BeginGate(old(View()))
    {
      if shutdown {
        return false;
      }
      inflight := inflight + 1;
      return true;
    }

    method EndRequest() returns (notify: bool)
      requires inflight > 0
      modifies this
      ensures (View(), notify) == EndGate(old(View()))
    {
      inflight := inflight - 1;
      return inflight == 0;
    }

    method RaiseFlag() returns (done: bool)
      modifies this
      ensures (View(), done) == RaiseGate(old(View()))
    {
      shutdown := true;
      return inflight == 0;
    }
  }

  // ---- one request worker ----

  /**
    Where a request is: not begun, turned away, running its handler, cleared to send a progress update, cleared to
    send its response, dropping its guard, finished. Everything from Running to Dropping holds a guard.
  */
  datatype Worker = NotBegun | Rejected | Running | SendingProgress | SendingResponse | Dropping | Finished

  predicate Live(w: Worker) {
    w.Running? || w.SendingProgress? || w.SendingResponse? || w.Dropping?
  }

  /** The destroyer: not called, asleep on the condition variable, woken, returned. */
  datatype Destroyer = NotCalled | Asleep | Woken | Returned

  /** `callbacks` lists, in order, the request behind each progress or response callback fired. */
  datatype System = System(gate: Gate, workers: seq<Worker>, destroyer: Destroyer, callbacks: seq<nat>)

  datatype Action =
    | Begin(r: nat)
    | CheckProgress(r: nat)   // the progress sink reads the flag
    | FireProgress(r: nat)
    | CheckResponse(r: nat)   // the worker reads the flag before its response
    | FireResponse(r: nat)
    | Unwind(r: nat)          // a panic outside the handler drops the guard
    | End(r: nat)
    | Destroy
    | SpuriousWake
    | Recheck

  /** Any number of requests yet to come. */
  function Start(n: nat): System {
    System(Gate(0, false), seq(n, i => NotBegun), NotCalled, [])
  }

  function At(s: System, r: nat): Worker {
    if r < |s.workers| then s.workers[r] else Finished
  }

  function Move(s: System, r: nat, w: Worker): System
    requires r < |s.workers|
  {
    s.(workers := s.workers[r := w])
  }

  /** One atomic step; an action that is not enabled changes nothing. */
  function Step(s: System, a: Action): System {
    match a
    case Begin(r) =>
      if At(s, r) == NotBegun then
        var (gate, guarded) := BeginGate(s.gate);
        Move(s, r, if guarded then Running else Rejected).(gate := gate)
      else s
    case CheckProgress(r) =>
      if At(s, r) == Running && !s.gate.shutdown then Move(s, r, SendingProgress) else s
    case FireProgress(r) =>
      if At(s, r) == SendingProgress then Move(s, r, Running).(callbacks := s.callbacks + [r]) else s
    case CheckResponse(r) =>
      if At(s, r) == Running then Move(s, r, if s.gate.shutdown then Dropping else SendingResponse) else s
    case FireResponse(r) =>
      if At(s, r) == SendingResponse then Move(s, r, Dropping).(callbacks := s.callbacks + [r]) else s
    case Unwind(r) =>
      if Live(At(s, r)) then Move(s, r, Dropping) else s
    case End(r) =>
      if At(s, r) == Dropping && s.gate.inflight > 0 then
        var (gate, notify) := EndGate(s.gate);
        Move(s, r, Finished).(gate := gate,
                              destroyer := if notify && s.destroyer == Asleep then Woken else s.destroyer)
      else s
    case Destroy =>
      if s.destroyer == NotCalled then
        var (gate, done) := RaiseGate(s.gate);
        s.(gate := gate, destroyer := if done then Returned else Asleep)
      else s
    case SpuriousWake =>
      if s.destroyer == Asleep then s.(destroyer := Woken) else s
    case Recheck =>
      if s.destroyer == Woken then s.(destroyer := if s.gate.inflight > 0 then Asleep else Returned) else s
  }

  function Exec(s: System, actions: seq<Action>): System {
    if actions == [] then s else Step(Exec(s, actions[..|actions| - 1]), actions[|actions| - 1])
  }

  // ---- the invariant ----

  function Guards(ws: seq<Worker>): nat {
    if ws == [] then 0 else Guards(ws[..|ws| - 1]) + if Live(ws[|ws| - 1]) then 1 else 0
  }

  /** The counter counts the guards, and a sleeper always has a guard left to wake it. */
  ghost predicate Inv(s: System) {
    && s.gate.inflight == Guards(s.workers)
    && (s.destroyer == NotCalled <==> !s.gate.shutdown)
    && (s.destroyer == Asleep ==> s.gate.inflight > 0)
    && (s.destroyer == Returned ==> s.gate.inflight == 0)
  }

  lemma {:induction false} GuardsUpdate(ws: seq<Worker>, r: nat, w: Worker)
    requires r < |ws|
    ensures Guards(ws[r := w]) == Guards(ws) - (if Live(ws[r]) then 1 else 0) + if Live(w) then 1 else 0
  {
    var front := ws[..|ws| - 1];
    if r == |ws| - 1 {
      assert ws[r := w][..r] == front;
    } else {
      GuardsUpdate(front, r, w);
      assert ws[r := w][..|ws| - 1] == front[r := w];
    }
  }

  lemma {:induction false} GuardHolder(ws: seq<Worker>, r: nat)
    requires r < |ws| && Live(ws[r])
    ensures Guards(ws) > 0
  {
    if r < |ws| - 1 {
      GuardHolder(ws[..|ws| - 1], r);
    }
  }

  lemma StepKeeps(s: System, a: Action)
    requires Inv(s)
    ensures Inv(Step(s, a)) && (s.gate.shutdown ==> Step(s, a).gate.shutdown)
  {
    hide Guards;
    match a
    case Begin(r) => if r < |s.workers| { GuardsUpdate(s.workers, r, Running); GuardsUpdate(s.workers, r, Rejected); }
    case CheckProgress(r) => if r < |s.workers| { GuardsUpdate(s.workers, r, SendingProgress); }
    case FireProgress(r) => if r < |s.workers| { GuardsUpdate(s.workers, r, Running); }
    case CheckResponse(r) =>
      if r < |s.workers| {
        GuardsUpdate(s.workers, r, SendingResponse);
        GuardsUpdate(s.workers, r, Dropping);
      }
    case FireResponse(r) => if r < |s.workers| { GuardsUpdate(s.workers, r, Dropping); }
    case Unwind(r) => if r < |s.workers| { GuardsUpdate(s.workers, r, Dropping); }
    case End(r) => if r < |s.workers| { GuardsUpdate(s.workers, r, Finished); }
    case Destroy =>
    case SpuriousWake =>
    case Recheck =>
  }

  /** In every interleaving the in-flight counter is the number of live guards and no wake-up is lost. */
  lemma {:induction false} EveryRunKeeps(n: nat, actions: seq<Action>)
    ensures Inv(Exec(Start(n), actions))
  {
    if actions == [] {
      NoGuardsYet(n);
    } else {
      EveryRunKeeps(n, actions[..|actions| - 1]);
      StepKeeps(Exec(Start(n), actions[..|actions| - 1]), actions[|actions| - 1]);
    }
  }

  lemma {:induction false} NoGuardsYet(n: nat)
    ensures Guards(Start(n).workers) == 0
  {
    if n > 0 {
      NoGuardsYet(n - 1);
      assert Start(n).workers[..n - 1] == Start(n - 1).workers;
    }
  }

  // ---- results over every interleaving ----

  /** After the flag is set no worker comes alive, and the count never grows. */
  lemma NoGuardAfterFlag(s: System, a: Action, r: nat)
    requires Inv(s) && s.gate.shutdown
    ensures Live(At(Step(s, a), r)) ==> Live(At(s, r))
    ensures Step(s, a).gate.inflight <= s.gate.inflight
  {
  }

  /** The same, over any continuation. */
  lemma {:induction false} NoGuardEverAfterFlag(s: System, more: seq<Action>, r: nat)
    requires Inv(s) && s.gate.shutdown
    ensures var s' := Exec(s, more);
            Inv(s') && s'.gate.shutdown && s'.gate.inflight <= s.gate.inflight && (Live(At(s', r)) ==> Live(At(s, r)))
  {
    if more != [] {
      var before := Exec(s, more[..|more| - 1]);
      NoGuardEverAfterFlag(s, more[..|more| - 1], r);
      StepKeeps(before, more[|more| - 1]);
      NoGuardAfterFlag(before, more[|more| - 1], r);
    }
  }

  /** Once destroy has returned, no callback fires in any continuation of the run. */
  lemma {:induction false} NoCallbackAfterDestroy(n: nat, actions: seq<Action>, more: seq<Action>)
    requires Exec(Start(n), actions).destroyer == Returned
    ensures var s := Exec(Exec(Start(n), actions), more);
            && s.destroyer == Returned && s.gate.inflight == 0
            && s.callbacks == Exec(Start(n), actions).callbacks
            && forall r :: 0 <= r < |s.workers| ==> !Live(s.workers[r])
  {
    var s0 := Exec(Start(n), actions);
    EveryRunKeeps(n, actions);
    AfterReturn(s0, more);
  }

  lemma {:induction false} AfterReturn(s: System, more: seq<Action>)
    requires Inv(s) && s.destroyer == Returned
    ensures var s' := Exec(s, more);
            && Inv(s') && s'.destroyer == Returned && s'.callbacks == s.callbacks
            && forall r :: 0 <= r < |s'.workers| ==> !Live(s'.workers[r])
  {
    if more != [] {
      var before, last := Exec(s, more[..|more| - 1]), more[|more| - 1];
      AfterReturn(s, more[..|more| - 1]);
      StepKeeps(before, last);
    }
    var s' := Exec(s, more);
    forall r | 0 <= r < |s'.workers| ensures !Live(s'.workers[r]) {
      if Live(s'.workers[r]) {
        GuardHolder(s'.workers, r);
      }
    }
  }

  // ---- after the flag: the callbacks still to come ----

  /** A worker past its flag check has one callback to fire. */
  function Pending(w: Worker): nat {
    if w == SendingProgress || w == SendingResponse then 1 else 0
  }

  lemma CallbackStep(s: System, a: Action, r: nat)
    requires s.gate.shutdown
    ensures Step(s, a).gate.shutdown
    ensures multiset(Step(s, a).callbacks)[r] + Pending(At(Step(s, a), r))
         <= multiset(s.callbacks)[r] + Pending(At(s, r))
  {
    if Step(s, a).callbacks != s.callbacks {
      assert multiset(s.callbacks + [a.r]) == multiset(s.callbacks) + multiset{a.r};
    }
  }

  /** After the flag a request fires at most one more callback, and only if it was already past its flag check. */
  lemma {:induction false} LastCallbacks(s: System, more: seq<Action>, r: nat)
    requires s.gate.shutdown
    ensures Exec(s, more).gate.shutdown
    ensures multiset(Exec(s, more).callbacks)[r] + Pending(At(Exec(s, more), r))
         <= multiset(s.callbacks)[r] + Pending(At(s, r))
  {
    if more != [] {
      hide Step, At, Pending;
      LastCallbacks(s, more[..|more| - 1], r);
      CallbackStep(Exec(s, more[..|more| - 1]), more[|more| - 1], r);
    }
  }

  // ---- the wait ends ----

  /** The step that brings the guard holder `r` closer to its end, and how many are left. */
  function NextStep(w: Worker, r: nat): Action {
    match w
    case Running => CheckResponse(r)
    case SendingProgress => FireProgress(r)
    case SendingResponse => FireResponse(r)
    case _ => End(r)
  }

  function StepsLeft(w: Worker): nat {
    match w
    case SendingProgress => 3
    case Running => 2
    case SendingResponse => 2
    case Dropping => 1
    case _ => 0
  }

  function TotalLeft(ws: seq<Worker>): nat {
    if ws == [] then 0 else TotalLeft(ws[..|ws| - 1]) + StepsLeft(ws[|ws| - 1])
  }

  lemma {:induction false} TotalUpdate(ws: seq<Worker>, r: nat, w: Worker)
    requires r < |ws|
    ensures TotalLeft(ws[r := w]) == TotalLeft(ws) - StepsLeft(ws[r]) + StepsLeft(w)
  {
    var front := ws[..|ws| - 1];
    if r == |ws| - 1 {
      assert ws[r := w][..r] == front;
    } else {
      TotalUpdate(front, r, w);
      assert ws[r := w][..|ws| - 1] == front[r := w];
    }
  }

  lemma {:induction false} LeftWhileGuarded(ws: seq<Worker>)
    ensures Guards(ws) <= TotalLeft(ws) <= 3 * Guards(ws)
  {
    if ws != [] {
      LeftWhileGuarded(ws[..|ws| - 1]);
    }
  }

  predicate ByWorker(a: Action) {
    !a.Destroy? && !a.SpuriousWake? && !a.Recheck?
  }

  /** After the flag every effective step of a worker uses up one of the steps left, and no step adds any. */
  lemma StepRunsDown(s: System, a: Action)
    requires Inv(s) && s.gate.shutdown
    ensures Step(s, a) != s && ByWorker(a) && At(s, a.r) != NotBegun ==>
              TotalLeft(Step(s, a).workers) < TotalLeft(s.workers)
    ensures TotalLeft(Step(s, a).workers) <= TotalLeft(s.workers)
  {
    if Step(s, a).workers != s.workers {
      TotalUpdate(s.workers, a.r, Step(s, a).workers[a.r]);
    }
  }

  /** The steps workers really took in a run, refusals of new requests aside. */
  ghost function Taken(s: System, more: seq<Action>): nat {
    if more == [] then 0
    else
      var before, a := Exec(s, more[..|more| - 1]), more[|more| - 1];
      Taken(s, more[..|more| - 1])
      + if Step(before, a) != before && ByWorker(a) && At(before, a.r) != NotBegun then 1 else 0
  }

  /**
    After the flag no schedule can keep the workers busy: they take at most three steps a guard, and once none is left
    to take nothing is in flight.
  */
  lemma {:induction false} EveryScheduleRunsDown(s: System, more: seq<Action>)
    requires Inv(s) && s.gate.shutdown
    ensures var s' := Exec(s, more);
            && Inv(s') && s'.gate.shutdown
            && Taken(s, more) + TotalLeft(s'.workers) <= TotalLeft(s.workers) <= 3 * s.gate.inflight
            && (TotalLeft(s'.workers) == 0 ==> s'.gate.inflight == 0)
  {
    LeftWhileGuarded(s.workers);
    if more != [] {
      hide Step, At, ByWorker;
      var before := Exec(s, more[..|more| - 1]);
      EveryScheduleRunsDown(s, more[..|more| - 1]);
      StepKeeps(before, more[|more| - 1]);
      StepRunsDown(before, more[|more| - 1]);
    }
    LeftWhileGuarded(Exec(s, more).workers);
  }

  /** Each worker that finishes brings the count down, so the count ranks the wait. */
  lemma {:induction false} FinishingLowersCount(s: System, r: nat) returns (steps: seq<Action>)
    requires Inv(s) && s.gate.shutdown && Live(At(s, r))
    ensures var s' := Exec(s, steps); Inv(s') && s'.gate.shutdown && s'.gate.inflight == s.gate.inflight - 1
    decreases StepsLeft(At(s, r))
  {
    var a := NextStep(At(s, r), r);
    GuardHolder(s.workers, r);
    StepKeeps(s, a);
    assert Exec(s, [a]) == Step(s, a) by {
      assert [a][..0] == [];
    }
    if At(s, r) == Dropping {
      steps := [a];
    } else {
      var rest := FinishingLowersCount(Step(s, a), r);
      steps := [a] + rest;
      ExecConcat(s, [a], rest);
    }
  }

  lemma {:induction false} ExecConcat(s: System, xs: seq<Action>, ys: seq<Action>)
    ensures Exec(s, xs + ys) == Exec(Exec(s, xs), ys)
  {
    if ys == [] {
      assert xs + ys == xs;
    } else {
      assert (xs + ys)[..|xs + ys| - 1] == xs + ys[..|ys| - 1];
      ExecConcat(s, xs, ys[..|ys| - 1]);
    }
  }

  lemma {:induction false} SomeGuard(ws: seq<Worker>) returns (r: nat)
    requires Guards(ws) > 0
    ensures r < |ws| && Live(ws[r])
  {
    if Live(ws[|ws| - 1]) {
      r := |ws| - 1;
    } else {
      r := SomeGuard(ws[..|ws| - 1]);
    }
  }

  /** From every state in which destroy was called, some continuation lets it return: the barrier cannot deadlock. */
  lemma {:induction false} DestroyCanReturn(s: System) returns (more: seq<Action>)
    requires Inv(s) && s.gate.shutdown
    ensures Exec(s, more).destroyer == Returned
    decreases s.gate.inflight
  {
    if s.gate.inflight == 0 {
      more := [Recheck];
      assert Exec(s, more[..0]) == s;
    } else {
      var r := SomeGuard(s.workers);
      var steps := FinishingLowersCount(s, r);
      var rest := DestroyCanReturn(Exec(s, steps));
      more := steps + rest;
      ExecConcat(s, steps, rest);
    }
  }

  // ---- before destroy every request is answered once ----

  /** How often the progress callback of request `r` fired in a run. */
  ghost function ProgressFired(n: nat, actions: seq<Action>, r: nat): nat {
    if actions == [] then 0
    else
      var front, last := actions[..|actions| - 1], actions[|actions| - 1];
      var s := Exec(Start(n), front);
      ProgressFired(n, front, r) + if last == FireProgress(r) && At(s, r) == SendingProgress then 1 else 0
  }

  /** Nobody is turned away, and whoever has only to drop its guard has answered. */
  ghost predicate Answered(s: System, r: nat, fired: nat) {
    && !s.gate.shutdown && At(s, r) != Rejected
    && multiset(s.callbacks)[r]
       == fired + if r < |s.workers| && (s.workers[r] == Dropping || s.workers[r] == Finished) then 1 else 0
  }

  lemma OneMoreCallback(callbacks: seq<nat>, x: nat, r: nat)
    ensures multiset(callbacks + [x])[r] == multiset(callbacks)[r] + if x == r then 1 else 0
  {
  }

  lemma StepAnswers(s: System, a: Action, r: nat, fired: nat)
    requires Answered(s, r, fired) && !a.Destroy? && !a.Unwind?
    ensures Answered(Step(s, a), r, fired + if a == FireProgress(r) && At(s, r) == SendingProgress then 1 else 0)
  {
    if Step(s, a).callbacks != s.callbacks {
      OneMoreCallback(s.callbacks, a.r, r);
    }
  }

  /**
    In a run without destroy and without panics outside the handler, the callbacks of a request are its progress
    updates and, once it is done, exactly one response.
  */
  lemma {:induction false} EveryRequestIsAnsweredOnce(n: nat, actions: seq<Action>, r: nat)
    requires forall a :: a in actions ==> !a.Destroy? && !a.Unwind?
    ensures Answered(Exec(Start(n), actions), r, ProgressFired(n, actions, r))
  {
    if actions != [] {
      var front, last := actions[..|actions| - 1], actions[|actions| - 1];
      EveryRequestIsAnsweredOnce(n, front, r);
      hide Step, Answered;
      StepAnswers(Exec(Start(n), front), last, r, ProgressFired(n, front, r));
    }
  }

  function Alone(w: Worker, inflight: nat, callbacks: seq<nat>): System {
    System(Gate(inflight, false), [w], NotCalled, callbacks)
  }

  /** A request that runs alone: accepted, one progress update, one response, and the count is back at zero. */
  lemma OrdinaryRequest()
    ensures Exec(Start(1), [Begin(0), CheckProgress(0), FireProgress(0), CheckResponse(0), FireResponse(0), End(0)])
         == Alone(Finished, 0, [0, 0])
  {
    assert Start(1) == Alone(NotBegun, 0, []);
    AloneSteps();
    hide Step, Start;
    var run := [Begin(0), CheckProgress(0), FireProgress(0), CheckResponse(0), FireResponse(0), End(0)];
    assert run[..0] == [];
    assert run[..1][..0] == run[..0] && Exec(Start(1), run[..1]) == Alone(Running, 1, []);
    assert run[..2][..1] == run[..1] && Exec(Start(1), run[..2]) == Alone(SendingProgress, 1, []);
    assert run[..3][..2] == run[..2] && Exec(Start(1), run[..3]) == Alone(Running, 1, [0]);
    assert run[..4][..3] == run[..3] && Exec(Start(1), run[..4]) == Alone(SendingResponse, 1, [0]);
    assert run[..5][..4] == run[..4] && Exec(Start(1), run[..5]) == Alone(Dropping, 1, [0, 0]);
  }

  lemma AloneSteps()
    ensures Step(Alone(NotBegun, 0, []), Begin(0)) == Alone(Running, 1, [])
    ensures Step(Alone(Running, 1, []), CheckProgress(0)) == Alone(SendingProgress, 1, [])
    ensures Step(Alone(SendingProgress, 1, []), FireProgress(0)) == Alone(Running, 1, [0])
    ensures Step(Alone(Running, 1, [0]), CheckResponse(0)) == Alone(SendingResponse, 1, [0])
    ensures Step(Alone(SendingResponse, 1, [0]), FireResponse(0)) == Alone(Dropping, 1, [0, 0])
    ensures Step(Alone(Dropping, 1, [0, 0]), End(0)) == Alone(Finished, 0, [0, 0])
  {
  }
}
