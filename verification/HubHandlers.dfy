/**
  Which handler is called, and in which order (rust/src/tss.rs), over every run: a delivered message goes to the handler
  connected last when it arrived, a buffered one to the handler whose connect took it, in the order of arrival.
*/
module HubHandlers {
  import opened Wrappers
  import opened LocalHub

  // ---- what a run says of handlers, read off its actions alone ----

  /** The handler connected last for a type at a hub. */
  function LatestAttach(n: nat, actions: seq<Action>, j: nat, typ: string): Option<Handler> {
    if actions == [] then None
    else
      var last := actions[|actions| - 1];
      if last.Attach? && last.hub == j < n && last.typ == typ then Some(last.dest)
      else LatestAttach(n, actions[..|actions| - 1], j, typ)
  }

  ghost function After(n: nat, actions: seq<Action>, i: nat): System
    requires i <= |actions|
  {
    Exec(Wired(n), actions[..i])
  }

  /** The messages of a type delivered to a hub, in order. */
  function OfType(ds: seq<Delivery>, j: nat, typ: string): seq<Msg> {
    if ds == [] then []
    else
      var d := ds[|ds| - 1];
      OfType(ds[..|ds| - 1], j, typ) + if d.hub == j && d.msg.typ == typ then [d.msg] else []
  }

  /** The messages task `t` called handlers with, in order. */
  function CallsOf(calls: seq<Call>, t: nat): seq<Msg> {
    if calls == [] then []
    else
      var c := calls[|calls| - 1];
      CallsOf(calls[..|calls| - 1], t) + if c.task == t then [c.msg] else []
  }

  /** The hubs task `t` delivered to, in order. */
  function HubsOf(ds: seq<Delivery>, t: nat): seq<nat> {
    if ds == [] then []
    else
      var d := ds[|ds| - 1];
      HubsOf(ds[..|ds| - 1], t) + if d.task == t then [d.hub] else []
  }

  lemma OfTypeMore(ds: seq<Delivery>, d: Delivery, j: nat, typ: string)
    ensures OfType(ds + [d], j, typ) == OfType(ds, j, typ) + if d.hub == j && d.msg.typ == typ then [d.msg] else []
  {
    assert (ds + [d])[..|ds|] == ds;
  }

  lemma CallsOfMore(calls: seq<Call>, c: Call, t: nat)
    ensures CallsOf(calls + [c], t) == CallsOf(calls, t) + if c.task == t then [c.msg] else []
  {
    assert (calls + [c])[..|calls|] == calls;
  }

  lemma HubsOfMore(ds: seq<Delivery>, d: Delivery, t: nat)
    ensures HubsOf(ds + [d], t) == HubsOf(ds, t) + if d.task == t then [d.hub] else []
  {
    assert (ds + [d])[..|ds|] == ds;
  }

  // ---- what one step does ----

  lemma HandlersStep(s: System, a: Action, j: nat)
    requires j < |s.hubs|
    ensures |Step(s, a).hubs| == |s.hubs|
    ensures Step(s, a).hubs[j].handlers
         == if a.Attach? && a.hub == j then s.hubs[j].handlers[a.typ := a.dest] else s.hubs[j].handlers
  {
  }

  /** What waits for a type: a connect takes it, and a delivery of that type to nobody adds to it. */
  lemma WaitingStep(s: System, a: Action, j: nat, typ: string)
    requires j < |s.hubs|
    ensures |Step(s, a).hubs| == |s.hubs|
    ensures a.Attach? ==>
              Waiting(Step(s, a).hubs[j], typ) == if a.hub == j && a.typ == typ then [] else Waiting(s.hubs[j], typ)
    ensures !a.Attach? && Step(s, a).deliveries == s.deliveries ==>
              Waiting(Step(s, a).hubs[j], typ) == Waiting(s.hubs[j], typ)
    ensures Step(s, a).deliveries != s.deliveries ==>
              && a.Arrive? && |Step(s, a).deliveries| == |s.deliveries| + 1
              && var d := Step(s, a).deliveries[|s.deliveries|];
                 && Step(s, a).deliveries == s.deliveries + [d] && d.task == a.task
                 && Waiting(Step(s, a).hubs[j], typ)
                    == Waiting(s.hubs[j], typ)
                       + if d.hub == j && d.msg.typ == typ && typ !in s.hubs[j].handlers then [d.msg] else []
  {
    hide Route;
  }

  /** The call of a step: of a send the handler it found, of a replay the handler it was connected with. */
  lemma CallStep(s: System, a: Action)
    ensures Step(s, a).calls == s.calls
         || (a.task < |s.tasks| && |Step(s, a).calls| == |s.calls| + 1
             && var c := Step(s, a).calls[|s.calls|];
                var k := s.tasks[a.task];
                && Step(s, a).calls == s.calls + [c] && c.task == a.task
                && if a.Handle? then
                     && k.Sending? && k.calling == Some(c.handler) && k.todo != []
                     && c.hub == k.todo[0] && c.msg == k.msg
                   else
                     && a.Drain? && k.Draining? && k.handler == c.handler && k.hub == c.hub
                     && k.queue != [] && k.queue[0] == c.msg)
    ensures !a.Handle? && !a.Drain? ==> Step(s, a).calls == s.calls
  {
    hide Route, Deliver, Connect;
  }

  // ---- the handler of every call ----

  lemma {:induction false} HandlersAreLatest(n: nat, actions: seq<Action>, j: nat, typ: string)
    requires j < n
    ensures var s := Exec(Wired(n), actions);
            && |s.hubs| == n
            && LatestAttach(n, actions, j, typ)
               == if typ in s.hubs[j].handlers then Some(s.hubs[j].handlers[typ]) else None
  {
    hide Step;
    if actions != [] {
      var front, last := actions[..|actions| - 1], actions[|actions| - 1];
      HandlersAreLatest(n, front, j, typ);
      HandlersStep(Exec(Wired(n), front), last, j);
    }
  }

  /** Action `i` is the delivery `d`. */
  ghost predicate DeliversAt(n: nat, actions: seq<Action>, i: nat, d: Delivery) {
    && i < |actions| && actions[i] == Arrive(d.task)
    && After(n, actions, i + 1).deliveries == After(n, actions, i).deliveries + [d]
  }

  /** The handler is the one connected last when action `i` delivered the message. */
  ghost predicate DirectAt(n: nat, actions: seq<Action>, i: nat, c: Call) {
    && DeliversAt(n, actions, i, Delivery(c.task, c.hub, c.msg))
    && LatestAttach(n, actions[..i], c.hub, c.msg.typ) == Some(c.handler)
  }

  /** Action `i` connected the handler, and took the message from the buffer for the task that calls it. */
  ghost predicate ReplayAt(n: nat, actions: seq<Action>, i: nat, c: Call) {
    && i < |actions| && actions[i] == Attach(c.hub, c.msg.typ, c.handler) && c.hub < |After(n, actions, i).hubs|
    && |After(n, actions, i).tasks| == c.task
    && c.msg in Waiting(After(n, actions, i).hubs[c.hub], c.msg.typ)
  }

  ghost predicate Right(n: nat, actions: seq<Action>, c: Call) {
    exists i :: DirectAt(n, actions, i, c) || ReplayAt(n, actions, i, c)
  }

  /** A send about to call holds the right handler, and so does a replay for all it has left. */
  ghost predicate Ready(n: nat, actions: seq<Action>, t: nat)
    requires t < |Exec(Wired(n), actions).tasks|
  {
    var k := Exec(Wired(n), actions).tasks[t];
    match k
    case Sending(_, msg, todo, Some(h), _, _) =>
      todo != [] && exists i :: DirectAt(n, actions, i, Call(t, todo[0], msg, h))
    case Sending(_, _, _, None, _, _) => true
    case Draining(j, typ, h, queue) =>
      exists i :: AttachedAt(n, actions, i, t, j, typ, h) && forall m :: m in queue ==>
        m.typ == typ && m in Waiting(After(n, actions, i).hubs[j], typ)
  }

  /** Action `i` connected `h` and started task `t`. */
  ghost predicate AttachedAt(n: nat, actions: seq<Action>, i: nat, t: nat, j: nat, typ: string, h: Handler) {
    && i < |actions| && actions[i] == Attach(j, typ, h) && j < |After(n, actions, i).hubs|
    && |After(n, actions, i).tasks| == t
  }

  lemma PrefixOf(actions: seq<Action>, a: Action, i: nat)
    requires i <= |actions|
    ensures (actions + [a])[..i] == actions[..i]
  {
  }

  lemma DirectStays(n: nat, actions: seq<Action>, a: Action, i: nat, c: Call)
    requires DirectAt(n, actions, i, c)
    ensures DirectAt(n, actions + [a], i, c)
  {
    hide Exec, LatestAttach;
    PrefixOf(actions, a, i);
    PrefixOf(actions, a, i + 1);
  }

  lemma ReplayStays(n: nat, actions: seq<Action>, a: Action, i: nat, c: Call)
    requires ReplayAt(n, actions, i, c)
    ensures ReplayAt(n, actions + [a], i, c)
  {
    hide Exec, Waiting;
    PrefixOf(actions, a, i);
  }

  lemma RightStays(n: nat, actions: seq<Action>, a: Action, c: Call)
    requires Right(n, actions, c)
    ensures Right(n, actions + [a], c)
  {
    var i :| DirectAt(n, actions, i, c) || ReplayAt(n, actions, i, c);
    hide DirectAt, ReplayAt;
    if DirectAt(n, actions, i, c) {
      DirectStays(n, actions, a, i, c);
    } else {
      ReplayStays(n, actions, a, i, c);
    }
  }

  lemma AttachedStays(n: nat, actions: seq<Action>, a: Action, i: nat, t: nat, j: nat, typ: string, h: Handler)
    requires AttachedAt(n, actions, i, t, j, typ, h)
    ensures AttachedAt(n, actions + [a], i, t, j, typ, h) && After(n, actions + [a], i) == After(n, actions, i)
  {
    hide Exec;
    PrefixOf(actions, a, i);
  }

  lemma ExecMore(n: nat, actions: seq<Action>, a: Action)
    ensures Exec(Wired(n), actions + [a]) == Step(Exec(Wired(n), actions), a)
    ensures After(n, actions + [a], |actions|) == Exec(Wired(n), actions)
    ensures After(n, actions + [a], |actions| + 1) == Step(Exec(Wired(n), actions), a)
  {
    var all := actions + [a];
    assert all[..|all| - 1] == actions && all[..|actions| + 1] == all;
  }

  /** A step leaves a task alone, or it is its own. */
  lemma TaskStep(s: System, a: Action, t: nat)
    requires t < |s.tasks|
    ensures |s.tasks| <= |Step(s, a).tasks|
    ensures Step(s, a).tasks[t] == s.tasks[t] || (ByTask(a) && a.task == t)
  {
    hide Deliver, Connect, Route;
  }

  /** An arrival that finds a handler is about to call the one installed. */
  lemma ArriveStep(s: System, t: nat)
    requires t < |s.tasks| && Step(s, Arrive(t)).tasks[t] != s.tasks[t]
    ensures var k, k' := s.tasks[t], Step(s, Arrive(t)).tasks[t];
            && k.Sending? && k'.Sending? && k.todo != [] && k.todo[0] < |s.hubs| && k'.msg == k.msg
            && Step(s, Arrive(t)).deliveries == s.deliveries + [Delivery(t, k.todo[0], k.msg)]
            && (k'.calling.Some? ==>
                  && k'.todo == k.todo
                  && k.msg.typ in s.hubs[k.todo[0]].handlers
                  && k'.calling.value == s.hubs[k.todo[0]].handlers[k.msg.typ])
  {
    hide Waiting;
  }

  lemma OwnStep(s: System, a: Action)
    requires a.Handle? || a.Drain?
    requires a.task < |s.tasks|
    ensures var k, k' := s.tasks[a.task], Step(s, a).tasks[a.task];
            && |Step(s, a).tasks| == |s.tasks|
            && (k.Sending? ==> k'.Sending? && (k' == k || k'.calling.None?))
            && (k.Draining? ==> k'.Draining? && k'.hub == k.hub && k'.typ == k.typ && k'.handler == k.handler
                                && forall m :: m in k'.queue ==> m in k.queue)
  {
  }

  lemma ReadyStays(n: nat, actions: seq<Action>, a: Action, t: nat)
    requires t < |Exec(Wired(n), actions).tasks| && Ready(n, actions, t)
    requires t < |Exec(Wired(n), actions + [a]).tasks|
    requires var k, k' := Exec(Wired(n), actions).tasks[t], Exec(Wired(n), actions + [a]).tasks[t];
             || k' == k
             || (k'.Sending? && k'.calling.None?)
             || (k.Draining? && k'.Draining? && k'.hub == k.hub && k'.typ == k.typ && k'.handler == k.handler
                 && forall m :: m in k'.queue ==> m in k.queue)
    ensures Ready(n, actions + [a], t)
  {
    var k, k' := Exec(Wired(n), actions).tasks[t], Exec(Wired(n), actions + [a]).tasks[t];
    hide Exec, Waiting;
    if k'.Sending? && k'.calling.Some? {
      var c := Call(t, k.todo[0], k.msg, k.calling.value);
      var i :| DirectAt(n, actions, i, c);
      DirectStays(n, actions, a, i, c);
    } else if k'.Draining? {
      var i :| AttachedAt(n, actions, i, t, k.hub, k.typ, k.handler) && forall m :: m in k.queue ==>
        m.typ == k.typ && m in Waiting(After(n, actions, i).hubs[k.hub], k.typ);
      AttachedStays(n, actions, a, i, t, k.hub, k.typ, k.handler);
    }
  }

  /** An arrival readies its task. */
  lemma ArriveReadies(n: nat, actions: seq<Action>, t: nat)
    requires var s := Exec(Wired(n), actions);
             t < |s.tasks| && Step(s, Arrive(t)).tasks[t] != s.tasks[t]
    ensures Exec(Wired(n), actions + [Arrive(t)]) == Step(Exec(Wired(n), actions), Arrive(t))
    ensures t < |Exec(Wired(n), actions + [Arrive(t)]).tasks| && Ready(n, actions + [Arrive(t)], t)
  {
    var s, all := Exec(Wired(n), actions), actions + [Arrive(t)];
    ExecMore(n, actions, Arrive(t));
    TaskStep(s, Arrive(t), t);
    ArriveStep(s, t);
    var k' := Step(s, Arrive(t)).tasks[t];
    if k'.calling.Some? {
      var j := k'.todo[0];
      HubCount(n, actions);
      HandlersAreLatest(n, actions, j, k'.msg.typ);
      hide Exec, Step;
      assert all[..|actions|] == actions && all[|actions|] == Arrive(t);
      assert DirectAt(n, all, |actions|, Call(t, j, k'.msg, k'.calling.value));
    }
  }

  lemma {:induction false} HubCount(n: nat, actions: seq<Action>)
    ensures |Exec(Wired(n), actions).hubs| == n
  {
    hide Step;
    if actions != [] {
      HubCount(n, actions[..|actions| - 1]);
      HubsStay(Exec(Wired(n), actions[..|actions| - 1]), actions[|actions| - 1]);
    }
  }

  /** A task that a step starts is ready. */
  lemma StartsReady(n: nat, actions: seq<Action>, a: Action, t: nat)
    requires var s := Exec(Wired(n), actions);
             |s.tasks| <= t < |Step(s, a).tasks| && Inv(s)
    ensures Exec(Wired(n), actions + [a]) == Step(Exec(Wired(n), actions), a)
    ensures Ready(n, actions + [a], t)
  {
    var s, all := Exec(Wired(n), actions), actions + [a];
    ExecMore(n, actions, a);
    StartStep(s, a, t);
    if a.Attach? {
      hide Exec, Step, Waiting, Inv;
      assert all[|actions|] == a;
      assert AttachedAt(n, all, |actions|, t, a.hub, a.typ, a.dest);
    }
  }

  lemma StartStep(s: System, a: Action, t: nat)
    requires Inv(s) && |s.tasks| <= t < |Step(s, a).tasks|
    ensures t == |s.tasks| && (a.Receive? || a.Attach?)
    ensures a.Receive? ==> Step(s, a).tasks[t].Sending? && Step(s, a).tasks[t].calling.None?
    ensures a.Attach? ==>
              && a.hub < |s.hubs|
              && Step(s, a).tasks[t] == Draining(a.hub, a.typ, a.dest, Waiting(s.hubs[a.hub], a.typ))
              && forall m :: m in Waiting(s.hubs[a.hub], a.typ) ==> m.typ == a.typ
  {
    hide Deliver, Route, Conserved, Delivered;
    if a.Attach? {
      assert HubOk(s.hubs[a.hub]);
    }
  }

  lemma {:induction false} TasksAreReady(n: nat, actions: seq<Action>, t: nat)
    requires t < |Exec(Wired(n), actions).tasks|
    ensures Ready(n, actions, t)
  {
    var front, a := actions[..|actions| - 1], actions[|actions| - 1];
    var s := Exec(Wired(n), front);
    assert actions == front + [a];
    ExecMore(n, front, a);
    EveryRunKeeps(n, front);
    hide Exec, Step, Inv, Ready;
    if t >= |s.tasks| {
      StartsReady(n, front, a, t);
    } else {
      TasksAreReady(n, front, t);
      TaskStep(s, a, t);
      if Step(s, a).tasks[t] != s.tasks[t] {
        if a.Arrive? {
          ArriveReadies(n, front, t);
        } else {
          OwnStep(s, a);
          ReadyStays(n, front, a, t);
        }
      } else {
        ReadyStays(n, front, a, t);
      }
    }
  }

  lemma LastIs(calls: seq<Call>, c: Call)
    ensures calls + [c] != calls && (calls + [c])[|calls|] == c
  {
  }

  /** A call made by a ready task is right. */
  lemma ReadyCalls(n: nat, actions: seq<Action>, a: Action, c: Call)
    requires var s := Exec(Wired(n), actions);
             && (a.Handle? || a.Drain?) && a.task < |s.tasks| && Step(s, a).calls == s.calls + [c]
             && Ready(n, actions, a.task)
    ensures Right(n, actions + [a], c)
  {
    hide Exec, Step, Waiting;
    var s := Exec(Wired(n), actions);
    var k := s.tasks[a.task];
    CallStep(s, a);
    LastIs(s.calls, c);
    if a.Handle? {
      var i :| DirectAt(n, actions, i, c);
      DirectStays(n, actions, a, i, c);
    } else {
      var i :| AttachedAt(n, actions, i, a.task, k.hub, k.typ, k.handler) && forall m :: m in k.queue ==>
        m.typ == k.typ && m in Waiting(After(n, actions, i).hubs[k.hub], k.typ);
      assert k.queue[0] in k.queue;
      assert ReplayAt(n, actions, i, c);
      ReplayStays(n, actions, a, i, c);
    }
  }

  /**
    Over every run each handler call is the right one: the message was delivered to its hub by the same task when that
    handler was the last one connected for its type, or it was waiting there when that handler was connected.
  */
  lemma {:induction false} EveryCallIsRight(n: nat, actions: seq<Action>, c: Call)
    requires c in Exec(Wired(n), actions).calls
    ensures Right(n, actions, c)
  {
    var front, a := actions[..|actions| - 1], actions[|actions| - 1];
    var s := Exec(Wired(n), front);
    assert actions == front + [a];
    ExecMore(n, front, a);
    CallStep(s, a);
    hide Exec, Step, Ready, Right;
    if c in s.calls {
      EveryCallIsRight(n, front, c);
      RightStays(n, front, a, c);
    } else {
      TasksAreReady(n, front, a.task);
      ReadyCalls(n, front, a, c);
    }
  }

  // ---- a task delivers to a hub once ----

  /** The hubs a send has delivered to, the one about to be called included. */
  function Sent(k: Task): seq<nat> {
    match k
    case Sending(_, _, todo, calling, reached, _) => reached + if calling.Some? && todo != [] then [todo[0]] else []
    case Draining(_, _, _, _) => []
  }

  /** They are the beginning of its route, and the deliveries it made. */
  ghost predicate OnRoute(s: System, t: nat)
    requires t < |s.tasks|
  {
    var k := s.tasks[t];
    && HubsOf(s.deliveries, t) == Sent(k)
    && (k.Sending? ==> Route(|s.hubs|, k.self, k.msg).Some? && Sent(k) <= Route(|s.hubs|, k.self, k.msg).value)
  }

  ghost predicate Logged(s: System) {
    && (forall t :: 0 <= t < |s.tasks| ==> OnRoute(s, t))
    && (forall i :: 0 <= i < |s.deliveries| ==> s.deliveries[i].task < |s.tasks|)
    && (forall i :: 0 <= i < |s.calls| ==> s.calls[i].task < |s.tasks|)
  }

  lemma {:induction false} NoHubsOf(ds: seq<Delivery>, t: nat)
    requires forall i :: 0 <= i < |ds| ==> ds[i].task < t
    ensures HubsOf(ds, t) == []
  {
    if ds != [] {
      NoHubsOf(ds[..|ds| - 1], t);
    }
  }

  lemma {:induction false} NoCallsOf(calls: seq<Call>, t: nat)
    requires forall i :: 0 <= i < |calls| ==> calls[i].task < t
    ensures CallsOf(calls, t) == []
  {
    if calls != [] {
      NoCallsOf(calls[..|calls| - 1], t);
    }
  }

  lemma ArriveOnRoute(s: System, t: nat)
    requires Shape(s) && t < |s.tasks| && OnRoute(s, t)
    ensures t < |Step(s, Arrive(t)).tasks| && OnRoute(Step(s, Arrive(t)), t)
  {
    var k, s' := s.tasks[t], Step(s, Arrive(t));
    hide Deliver, Route, HubsOf;
    assert TaskOk(|s.hubs|, k);
    if s' != s {
      var j := k.todo[0];
      HubsOfMore(s.deliveries, Delivery(t, j, k.msg), t);
      assert Sent(s'.tasks[t]) == Sent(k) + [j];
      assert k.reached + k.todo == Route(|s.hubs|, k.self, k.msg).value;
    }
  }

  lemma HandleOnRoute(s: System, a: Action)
    requires (a.Handle? || a.Drain?) && a.task < |s.tasks| && OnRoute(s, a.task)
    ensures a.task < |Step(s, a).tasks| && OnRoute(Step(s, a), a.task)
  {
    hide Route, HubsOf;
  }

  /** A step that is not a task's own changes neither the task nor its deliveries. */
  lemma OtherOnRoute(s: System, a: Action, t: nat)
    requires t < |s.tasks| && OnRoute(s, t) && !(ByTask(a) && a.task == t)
    ensures t < |Step(s, a).tasks| && OnRoute(Step(s, a), t)
  {
    TaskStep(s, a, t);
    HubsStay(s, a);
    DeliveryStep(s, a);
    hide Step, Route, HubsOf;
    if Step(s, a).deliveries != s.deliveries {
      HubsOfMore(s.deliveries, Step(s, a).deliveries[|s.deliveries|], t);
    }
  }

  lemma DeliveryStep(s: System, a: Action)
    ensures Step(s, a).deliveries == s.deliveries
         || (a.Arrive? && a.task < |s.tasks| && |Step(s, a).deliveries| == |s.deliveries| + 1
             && Step(s, a).deliveries[..|s.deliveries|] == s.deliveries
             && Step(s, a).deliveries == s.deliveries + [Step(s, a).deliveries[|s.deliveries|]]
             && Step(s, a).deliveries[|s.deliveries|].task == a.task)
  {
    hide Route, Deliver, Connect;
  }

  lemma StepIsLogged(s: System, a: Action)
    requires Inv(s) && Logged(s)
    ensures Logged(Step(s, a))
  {
    hide Step, OnRoute;
    var s' := Step(s, a);
    CallStep(s, a);
    DeliveryStep(s, a);
    forall t | 0 <= t < |s'.tasks|
      ensures OnRoute(s', t)
    {
      if t >= |s.tasks| {
        StartOnRoute(s, a, t);
      } else if ByTask(a) && a.task == t {
        if a.Arrive? {
          ArriveOnRoute(s, t);
        } else {
          HandleOnRoute(s, a);
        }
      } else {
        OtherOnRoute(s, a, t);
      }
    }
    TasksGrow(s, a);
  }

  lemma TasksGrow(s: System, a: Action)
    ensures |s.tasks| <= |Step(s, a).tasks|
  {
    hide Route, Deliver, Connect;
  }

  lemma StartOnRoute(s: System, a: Action, t: nat)
    requires Inv(s) && Logged(s) && |s.tasks| <= t < |Step(s, a).tasks|
    ensures OnRoute(Step(s, a), t)
  {
    StartStep(s, a, t);
    hide Deliver, Connect, Conserved, Delivered, Shape;
    NoHubsOf(s.deliveries, t);
  }

  lemma {:induction false} RunsAreLogged(n: nat, actions: seq<Action>)
    ensures Inv(Exec(Wired(n), actions)) && Logged(Exec(Wired(n), actions))
  {
    EveryRunKeeps(n, actions);
    if actions != [] {
      var front := actions[..|actions| - 1];
      RunsAreLogged(n, front);
      hide Inv, Logged, Step;
      StepIsLogged(Exec(Wired(n), front), actions[|actions| - 1]);
    }
  }

  lemma {:induction false} RouteOnce(n: nat, self: nat, msg: Msg, i: nat, k: nat)
    requires self < n && Route(n, self, msg).Some? && i < k < |Route(n, self, msg).value|
    ensures Route(n, self, msg).value[i] != Route(n, self, msg).value[k]
  {
    OthersOnce(n, self, i, k);
  }

  lemma {:induction false} OthersOnce(n: nat, self: int, i: nat, k: nat)
    requires i < k
    ensures k < |Others(n, self)| ==> Others(n, self)[i] != Others(n, self)[k]
    ensures forall x :: 0 <= x < |Others(n, self)| ==> Others(n, self)[x] < n
  {
    if n > 0 {
      OthersOnce(n - 1, self, i, k);
    }
  }

  /** No task delivers to a hub twice, so a call's delivery is the only one of its task there. */
  lemma DeliversOnce(n: nat, actions: seq<Action>, t: nat, i: nat, k: nat)
    requires var s := Exec(Wired(n), actions);
             t < |s.tasks| && i < k < |HubsOf(s.deliveries, t)|
    ensures HubsOf(Exec(Wired(n), actions).deliveries, t)[i] != HubsOf(Exec(Wired(n), actions).deliveries, t)[k]
  {
    var s := Exec(Wired(n), actions);
    RunsAreLogged(n, actions);
    hide Exec, HubsOf;
    var task := s.tasks[t];
    assert OnRoute(s, t) && TaskOk(|s.hubs|, task);
    RouteOnce(|s.hubs|, task.self, task.msg, i, k);
  }

  // ---- the logs are what the counts count ----

  function LettersOf(ds: seq<Delivery>): multiset<Letter> {
    if ds == [] then multiset{}
    else LettersOf(ds[..|ds| - 1]) + multiset{(ds[|ds| - 1].hub, ds[|ds| - 1].msg)}
  }

  function CallLetters(calls: seq<Call>): multiset<Letter> {
    if calls == [] then multiset{}
    else CallLetters(calls[..|calls| - 1]) + multiset{(calls[|calls| - 1].hub, calls[|calls| - 1].msg)}
  }

  lemma LettersMore(ds: seq<Delivery>, d: Delivery)
    ensures LettersOf(ds + [d]) == LettersOf(ds) + multiset{(d.hub, d.msg)}
  {
    assert (ds + [d])[..|ds|] == ds;
  }

  lemma CallLettersMore(calls: seq<Call>, c: Call)
    ensures CallLetters(calls + [c]) == CallLetters(calls) + multiset{(c.hub, c.msg)}
  {
    assert (calls + [c])[..|calls|] == calls;
  }

  lemma CountStep(s: System, a: Action)
    requires s.arrived == LettersOf(s.deliveries) && s.handled == CallLetters(s.calls)
    ensures Step(s, a).arrived == LettersOf(Step(s, a).deliveries)
    ensures Step(s, a).handled == CallLetters(Step(s, a).calls)
  {
    hide Route, Deliver, Connect, LettersOf, CallLetters;
    var s' := Step(s, a);
    if s'.deliveries != s.deliveries {
      LettersMore(s.deliveries, s'.deliveries[|s.deliveries|]);
    }
    if s'.calls != s.calls {
      CallLettersMore(s.calls, s'.calls[|s.calls|]);
    }
  }

  /** Every counted arrival and handling is logged, and the other way round. */
  lemma {:induction false} CountsAreLogs(n: nat, actions: seq<Action>)
    ensures var s := Exec(Wired(n), actions);
            s.arrived == LettersOf(s.deliveries) && s.handled == CallLetters(s.calls)
  {
    if actions != [] {
      CountsAreLogs(n, actions[..|actions| - 1]);
      hide Step;
      CountStep(Exec(Wired(n), actions[..|actions| - 1]), actions[|actions| - 1]);
    }
  }

  // ---- buffers and replays keep the order of arrival ----

  /** Until a handler is connected a hub holds all messages of its type in the order they arrived; then none. */
  lemma {:induction false} BufferIsInOrder(n: nat, actions: seq<Action>, j: nat, typ: string)
    requires j < n
    ensures var s := Exec(Wired(n), actions);
            && |s.hubs| == n
            && Waiting(s.hubs[j], typ)
               == if LatestAttach(n, actions, j, typ).None? then OfType(s.deliveries, j, typ) else []
  {
    if actions != [] {
      var front, a := actions[..|actions| - 1], actions[|actions| - 1];
      var s := Exec(Wired(n), front);
      BufferIsInOrder(n, front, j, typ);
      HandlersAreLatest(n, front, j, typ);
      WaitingStep(s, a, j, typ);
      hide Exec, Step, OfType, Waiting;
      assert Exec(Wired(n), actions) == Step(s, a) by {
        assert actions == front + [a];
        ExecMore(n, front, a);
      }
      DeliveryStep(s, a);
      if Step(s, a).deliveries != s.deliveries {
        OfTypeMore(s.deliveries, Step(s, a).deliveries[|s.deliveries|], j, typ);
      }
    } else {
      assert Waiting(EMPTY_HUB, typ) == [];
    }
  }

  /** The replay that action `i` started: what it has called for and what it has left are what it took, in order. */
  lemma {:induction false} ReplayIsInOrder(n: nat, actions: seq<Action>, i: nat)
    requires i < |actions| && actions[i].Attach? && actions[i].hub < n
    ensures var a, before, s := actions[i], After(n, actions, i), Exec(Wired(n), actions);
            var t := |before.tasks|;
            && t < |s.tasks| && s.tasks[t].Draining? && |before.hubs| == n
            && s.tasks[t].(queue := []) == Draining(a.hub, a.typ, a.dest, [])
            && CallsOf(s.calls, t) + s.tasks[t].queue == Waiting(before.hubs[a.hub], a.typ)
  {
    var last := |actions| - 1;
    var front := actions[..last];
    var s := Exec(Wired(n), front);
    assert actions == front + [actions[last]];
    HubCount(n, front);
    ExecMore(n, front, actions[last]);
    if i == last {
      RunsAreLogged(n, front);
      AttachStarts(s, actions[i]);
      hide Exec, Step;
      NoCallsOf(s.calls, |s.tasks|);
    } else {
      assert front[..i] == actions[..i];
      ReplayIsInOrder(n, front, i);
      var t := |After(n, actions, i).tasks|;
      hide Exec;
      ReplayStep(s, actions[last], t);
    }
  }

  lemma AttachStarts(s: System, a: Action)
    requires a.Attach? && a.hub < |s.hubs|
    ensures Step(s, a).tasks == s.tasks + [Draining(a.hub, a.typ, a.dest, Waiting(s.hubs[a.hub], a.typ))]
    ensures Step(s, a).calls == s.calls
  {
  }

  lemma ReplayStep(s: System, a: Action, t: nat)
    requires t < |s.tasks| && s.tasks[t].Draining?
    ensures t < |Step(s, a).tasks| && Step(s, a).tasks[t].Draining?
    ensures Step(s, a).tasks[t].(queue := []) == s.tasks[t].(queue := [])
    ensures CallsOf(Step(s, a).calls, t) + Step(s, a).tasks[t].queue == CallsOf(s.calls, t) + s.tasks[t].queue
  {
    hide Route, Deliver, Connect, CallsOf;
    var s' := Step(s, a);
    if s'.calls != s.calls {
      CallsOfMore(s.calls, s'.calls[|s.calls|], t);
    }
  }

  /** The first handler connected for a type is called with its messages in the order they arrived before. */
  lemma ReplaysInOrderOfArrival(n: nat, actions: seq<Action>, i: nat)
    requires i < |actions| && actions[i].Attach? && actions[i].hub < n
    ensures var a, before, s := actions[i], After(n, actions, i), Exec(Wired(n), actions);
            var t := |before.tasks|;
            && t < |s.tasks| && s.tasks[t].Draining?
            && CallsOf(s.calls, t) + s.tasks[t].queue
               == if LatestAttach(n, actions[..i], a.hub, a.typ).Some? then []
                  else OfType(before.deliveries, a.hub, a.typ)
  {
    hide Exec;
    ReplayIsInOrder(n, actions, i);
    BufferIsInOrder(n, actions[..i], actions[i].hub, actions[i].typ);
  }

  // ---- the first refusal ends a send ----

  /** A send that has been refused, and delivers no more. */
  ghost predicate Ended(s: System, t: nat) {
    t < |s.tasks| && s.tasks[t].Sending? && s.tasks[t].failed && s.tasks[t].todo == []
  }

  lemma EndedStep(s: System, a: Action, t: nat)
    requires Ended(s, t)
    ensures Ended(Step(s, a), t) && HubsOf(Step(s, a).deliveries, t) == HubsOf(s.deliveries, t)
  {
    TaskStep(s, a, t);
    DeliveryStep(s, a);
    hide HubsOf, Deliver, Connect, Route;
    if Step(s, a).deliveries != s.deliveries {
      HubsOfMore(s.deliveries, Step(s, a).deliveries[|s.deliveries|], t);
    }
  }

  lemma {:induction false} EndedStays(s: System, more: seq<Action>, t: nat)
    requires Ended(s, t)
    ensures Ended(Exec(s, more), t) && HubsOf(Exec(s, more).deliveries, t) == HubsOf(s.deliveries, t)
  {
    if more != [] {
      EndedStays(s, more[..|more| - 1], t);
      hide Ended, Step, HubsOf;
      EndedStep(Exec(s, more[..|more| - 1]), more[|more| - 1], t);
    }
  }

  /** Once a handler refuses a message its sender delivers it to nobody else, whatever follows. */
  lemma RefusalEndsSend(s: System, t: nat, more: seq<Action>)
    requires t < |s.tasks| && s.tasks[t].Sending? && s.tasks[t].calling.Some? && s.tasks[t].todo != []
    ensures HubsOf(Exec(Step(s, Handle(t, false)), more).deliveries, t) == HubsOf(s.deliveries, t)
  {
    assert Ended(Step(s, Handle(t, false)), t) && Step(s, Handle(t, false)).deliveries == s.deliveries;
    hide Step, Ended;
    EndedStays(Step(s, Handle(t, false)), more, t);
  }
}
