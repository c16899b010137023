/**
  The in-process message broker of a signing ceremony (rust/src/tss.rs): one hub per party, each with connected
  handlers by message type and a buffer for the types nobody handles yet. The class holds one hub's state and its two
  critical sections; the system below interleaves them, one section or one handler call per step.
*/
module LocalHub {
  import opened Wrappers

  type Handler(!new, ==) = nat

  datatype Msg = Msg(typ: string, from: Option<int>, to: Option<int>, body: string)

  /** What one hub's mutex guards. */
  datatype Hub = Hub(handlers: map<string, Handler>, pending: map<string, seq<Msg>>)

  const EMPTY_HUB := Hub(map[], map[])

  /** The messages buffered for a type; an absent entry holds none. */
  function Waiting(h: Hub, typ: string): seq<Msg> {
    if typ in h.pending then h.pending[typ] else []
  }

  /** The critical section of an inbound delivery: the handler to call, or the message buffered. */
  function Deliver(h: Hub, msg: Msg): (Hub, Option<Handler>) {
    if msg.typ in h.handlers then (h, Some(h.handlers[msg.typ]))
    else (h.(pending := h.pending[msg.typ := Waiting(h, msg.typ) + [msg]]), None)
  }

  /** The critical section of a connect: the buffer handed to the new handler. */
  function Connect(h: Hub, typ: string, dest: Handler): (Hub, seq<Msg>) {
    (Hub(h.handlers[typ := dest], h.pending - {typ}), Waiting(h, typ))
  }

  class HubCell {
    var handlers: map<string, Handler>
    var pending: map<string, seq<Msg>>

    function View(): Hub
      reads this
    {
      Hub(handlers, pending)
    }

    constructor ()
      ensures View() == EMPTY_HUB
    {
      handlers := map[];
      pending := map[];
    }

    method DeliverInbound(msg: Msg) returns (handler: Option<Handler>)
      modifies this
      ensures (View(), handler) == Deliver(old(View()), msg)
    {
      if msg.typ in handlers {
        return Some(handlers[msg.typ]);
      }
      var queue := if msg.typ in pending then pending[msg.typ] else [];
      pending := pending[msg.typ := queue + [msg]];
      return None;
    }

    method ConnectHandler(typ: string, dest: Handler) returns (queued: seq<Msg>)
      modifies this
      ensures (View(), queued) == Connect(old(View()), typ, dest)
    {
      handlers := handlers[typ := dest];
      queued := if typ in pending then pending[typ] else [];
      pending := pending - {typ};
    }
  }

  // ---- routing ----

  /** The hubs, in order, a broadcast from `self` goes to. */
  function Others(n: nat, self: int): seq<nat> {
    if n == 0 then [] else Others(n - 1, self) + (if n - 1 == self then [] else [n - 1])
  }

  /** Where party `self` of `n` sends a message it receives; None when the addressee does not exist (a panic). */
  function Route(n: nat, self: nat, msg: Msg): Option<seq<nat>> {
    if msg.from.GetOr(-1) != self then Some([self])
    else
      match msg.to
      case Some(to) => if 0 <= to < n then Some([to]) else None
      case None => Some(Others(n, self))
  }

  /** A broadcast names every other party once and its sender never. */
  lemma {:induction false} BroadcastReachesOthersOnce(n: nat, self: nat, j: nat)
    ensures multiset(Others(n, self))[j] == if j < n && j != self then 1 else 0
  {
    if n > 0 {
      BroadcastReachesOthersOnce(n - 1, self, j);
      var last := if n - 1 == self then [] else [n - 1];
      var others := Others(n - 1, self);
      assert Others(n, self) == others + last;
      hide Others;
      assert multiset(others + last) == multiset(others) + multiset(last);
    }
  }

  // ---- the system of hubs and threads ----

  /**
    `Sending` is a message `self` received and passes on: `calling` is the handler found for the first target left,
    about to run, `reached` are the hubs already served and `failed` says a handler refused. `Draining` replays a
    buffer to a newly connected handler.
  */
  datatype Task =
    | Sending(self: nat, msg: Msg, todo: seq<nat>, calling: Option<Handler>, reached: seq<nat>, failed: bool)
    | Draining(hub: nat, typ: string, handler: Handler, queue: seq<Msg>)

  type Letter = (nat, Msg)

  /** A message that task `task` delivered to a hub, and a handler that `task` called with a message there. */
  datatype Delivery = Delivery(task: nat, hub: nat, msg: Msg)
  datatype Call = Call(task: nat, hub: nat, msg: Msg, handler: Handler)

  /**
    `arrived` and `handled` count every delivery to a hub and every handler call made for one; `deliveries` and `calls`
    are the same in the order they happened.
  */
  datatype System = System(
    hubs: seq<Hub>, tasks: seq<Task>, arrived: multiset<Letter>, handled: multiset<Letter>,
    deliveries: seq<Delivery>, calls: seq<Call>)

  datatype Action =
    | Receive(self: nat, msg: Msg)
    | Arrive(task: nat)
    | Handle(task: nat, accepted: bool)
    | Attach(hub: nat, typ: string, dest: Handler)
    | Drain(task: nat)

  function Wired(n: nat): System {
    System(seq(n, i => EMPTY_HUB), [], multiset{}, multiset{}, [], [])
  }

  /** One atomic step; an action that is not enabled changes nothing. */
  function Step(s: System, a: Action): System {
    match a
    case Receive(self, msg) =>
      if self < |s.hubs| && Route(|s.hubs|, self, msg).Some? then
        s.(tasks := s.tasks + [Sending(self, msg, Route(|s.hubs|, self, msg).value, None, [], false)])
      else s
    case Arrive(t) =>
      if t < |s.tasks| && s.tasks[t].Sending? && s.tasks[t].calling.None? && s.tasks[t].todo != []
         && s.tasks[t].todo[0] < |s.hubs| then
        var k := s.tasks[t];
        var j := k.todo[0];
        var (hub, handler) := Deliver(s.hubs[j], k.msg);
        var next := if handler.Some? then k.(calling := handler)
                    else k.(todo := k.todo[1..], reached := k.reached + [j]);
        s.(hubs := s.hubs[j := hub], tasks := s.tasks[t := next], arrived := s.arrived + multiset{(j, k.msg)},
           deliveries := s.deliveries + [Delivery(t, j, k.msg)])
      else s
    case Handle(t, accepted) =>
      if t < |s.tasks| && s.tasks[t].Sending? && s.tasks[t].calling.Some? && s.tasks[t].todo != [] then
        var k := s.tasks[t];
        var j := k.todo[0];
        var next := k.(calling := None, todo := if accepted then k.todo[1..] else [],
                       reached := k.reached + [j], failed := k.failed || !accepted);
        s.(tasks := s.tasks[t := next], handled := s.handled + multiset{(j, k.msg)},
           calls := s.calls + [Call(t, j, k.msg, k.calling.value)])
      else s
    case Attach(j, typ, dest) =>
      if j < |s.hubs| then
        var (hub, queued) := Connect(s.hubs[j], typ, dest);
        s.(hubs := s.hubs[j := hub], tasks := s.tasks + [Draining(j, typ, dest, queued)])
      else s
    case Drain(t) =>
      if t < |s.tasks| && s.tasks[t].Draining? && s.tasks[t].queue != [] then
        var k := s.tasks[t];
        s.(tasks := s.tasks[t := k.(queue := k.queue[1..])], handled := s.handled + multiset{(k.hub, k.queue[0])},
           calls := s.calls + [Call(t, k.hub, k.queue[0], k.handler)])
      else s
  }

  function Exec(s: System, actions: seq<Action>): System {
    if actions == [] then s else Step(Exec(s, actions[..|actions| - 1]), actions[|actions| - 1])
  }

  // ---- where a letter can be ----

  function Buffered(s: System, l: Letter): nat {
    if l.0 < |s.hubs| then multiset(Waiting(s.hubs[l.0], l.1.typ))[l.1] else 0
  }

  /** Copies of a letter a task still has to hand to a handler. */
  function Carried(k: Task, l: Letter): nat {
    match k
    case Sending(_, msg, todo, calling, _, _) =>
      if calling.Some? && todo != [] && (todo[0], msg) == l then 1 else 0
    case Draining(hub, _, _, queue) =>
      if hub == l.0 then multiset(queue)[l.1] else 0
  }

  /** Deliveries of a letter a task has made: targets served, and the one whose handler is about to run. */
  function Served(k: Task, l: Letter): nat {
    match k
    case Sending(_, msg, todo, calling, reached, _) =>
      if msg != l.1 then 0
      else multiset(reached)[l.0] + if calling.Some? && todo != [] && todo[0] == l.0 then 1 else 0
    case Draining(_, _, _, _) => 0
  }

  /** Deliveries of a letter a task's route asks for. */
  function Planned(n: nat, k: Task, l: Letter): nat {
    if k.Sending? && k.msg == l.1 && Route(n, k.self, k.msg).Some? then
      multiset(Route(n, k.self, k.msg).value)[l.0]
    else 0
  }

  function CarriedOf(l: Letter): Task -> nat {
    k => Carried(k, l)
  }

  function ServedOf(l: Letter): Task -> nat {
    k => Served(k, l)
  }

  function PlannedOf(n: nat, l: Letter): Task -> nat {
    k => Planned(n, k, l)
  }

  /** A count added up over all tasks. */
  function Over(tasks: seq<Task>, f: Task -> nat): nat {
    if tasks == [] then 0 else Over(tasks[..|tasks| - 1], f) + f(tasks[|tasks| - 1])
  }

  function InHand(tasks: seq<Task>, l: Letter): nat {
    Over(tasks, CarriedOf(l))
  }

  ghost predicate TaskOk(n: nat, k: Task) {
    match k
    case Sending(self, msg, todo, calling, reached, failed) =>
      && self < n && Route(n, self, msg).Some?
      && (forall i :: 0 <= i < |todo| ==> todo[i] < n)
      && (calling.Some? ==> todo != [])
      && (failed ==> todo == [])
      && (!failed ==> reached + todo == Route(n, self, msg).value)
    case Draining(hub, typ, _, queue) =>
      hub < n && forall i :: 0 <= i < |queue| ==> queue[i].typ == typ
  }

  /** Each delivered letter is buffered, in some task's hands, or handled: exactly one of the three. */
  ghost predicate Conserved(s: System) {
    forall l: Letter :: Balanced(s, l)
  }

  ghost predicate Balanced(s: System, l: Letter) {
    s.arrived[l] == s.handled[l] + Buffered(s, l) + InHand(s.tasks, l)
  }

  /** Every delivery to a hub is one some task made, and every one a task made is a delivery to a hub. */
  ghost predicate Delivered(s: System) {
    forall l: Letter :: Accounted(s, l)
  }

  ghost predicate Accounted(s: System, l: Letter) {
    s.arrived[l] == Over(s.tasks, ServedOf(l))
  }

  ghost predicate HubOk(h: Hub) {
    && (forall typ :: typ in h.pending ==> forall i :: 0 <= i < |h.pending[typ]| ==> h.pending[typ][i].typ == typ)
    && h.handlers.Keys !! h.pending.Keys
  }

  ghost predicate Shape(s: System) {
    && (forall j :: 0 <= j < |s.hubs| ==> HubOk(s.hubs[j]))
    && (forall t :: 0 <= t < |s.tasks| ==> TaskOk(|s.hubs|, s.tasks[t]))
  }

  ghost predicate Inv(s: System) {
    Shape(s) && Conserved(s) && Delivered(s)
  }

  lemma {:induction false} OverUpdate(tasks: seq<Task>, t: nat, next: Task, f: Task -> nat)
    requires t < |tasks|
    ensures Over(tasks[t := next], f) == Over(tasks, f) - f(tasks[t]) + f(next)
  {
    var front := tasks[..|tasks| - 1];
    if t == |tasks| - 1 {
      assert tasks[t := next][..t] == front;
    } else {
      OverUpdate(front, t, next, f);
      assert tasks[t := next][..|tasks| - 1] == front[t := next];
    }
  }

  lemma OverAppend(tasks: seq<Task>, k: Task, f: Task -> nat)
    ensures Over(tasks + [k], f) == Over(tasks, f) + f(k)
  {
    assert (tasks + [k])[..|tasks|] == tasks;
  }

  lemma {:induction false} OverAtLeast(tasks: seq<Task>, t: nat, f: Task -> nat)
    requires t < |tasks|
    ensures f(tasks[t]) <= Over(tasks, f)
  {
    if t < |tasks| - 1 {
      OverAtLeast(tasks[..|tasks| - 1], t, f);
    }
  }

  lemma {:induction false} OverAgrees(tasks: seq<Task>, f: Task -> nat, g: Task -> nat)
    requires forall t :: 0 <= t < |tasks| ==> f(tasks[t]) == g(tasks[t])
    ensures Over(tasks, f) == Over(tasks, g)
  {
    if tasks != [] {
      OverAgrees(tasks[..|tasks| - 1], f, g);
    }
  }

  lemma {:induction false} OverZero(tasks: seq<Task>, f: Task -> nat)
    requires forall t :: 0 <= t < |tasks| ==> f(tasks[t]) == 0
    ensures Over(tasks, f) == 0
  {
    if tasks != [] {
      OverZero(tasks[..|tasks| - 1], f);
    }
  }

  lemma RouteInRange(n: nat, self: nat, msg: Msg)
    requires self < n && Route(n, self, msg).Some?
    ensures forall i :: 0 <= i < |Route(n, self, msg).value| ==> Route(n, self, msg).value[i] < n
  {
    var route := Route(n, self, msg).value;
    forall i | 0 <= i < |route| ensures route[i] < n {
      BroadcastReachesOthersOnce(n, self, route[i]);
      assert route[i] in multiset(route);
    }
  }

  // ---- every step keeps the shape ----

  lemma DeliverKeepsHub(h: Hub, msg: Msg)
    requires HubOk(h)
    ensures HubOk(Deliver(h, msg).0)
  {
  }

  lemma ConnectKeepsHub(h: Hub, typ: string, dest: Handler)
    requires HubOk(h)
    ensures HubOk(Connect(h, typ, dest).0)
  {
  }

  lemma ArriveShape(s: System, t: nat)
    requires Shape(s)
    ensures Shape(Step(s, Arrive(t)))
  {
    if t < |s.tasks| && s.tasks[t].Sending? && s.tasks[t].todo != [] && s.tasks[t].todo[0] < |s.hubs| {
      assert TaskOk(|s.hubs|, s.tasks[t]);
      DeliverKeepsHub(s.hubs[s.tasks[t].todo[0]], s.tasks[t].msg);
      hide HubOk, Route;
    }
  }

  lemma HandleShape(s: System, t: nat, accepted: bool)
    requires Shape(s)
    ensures Shape(Step(s, Handle(t, accepted)))
  {
    hide HubOk, Route;
    if t < |s.tasks| && s.tasks[t].Sending? && s.tasks[t].todo != [] {
      var k := s.tasks[t];
      assert TaskOk(|s.hubs|, k);
      assert (k.reached + [k.todo[0]]) + k.todo[1..] == k.reached + k.todo;
    }
  }

  lemma AttachShape(s: System, j: nat, typ: string, dest: Handler)
    requires Shape(s)
    ensures Shape(Step(s, Attach(j, typ, dest)))
  {
    if j < |s.hubs| {
      assert HubOk(s.hubs[j]);
      ConnectKeepsHub(s.hubs[j], typ, dest);
      var queued := Waiting(s.hubs[j], typ);
      assert TaskOk(|s.hubs|, Draining(j, typ, dest, queued));
      hide HubOk, TaskOk;
    }
  }

  lemma DrainShape(s: System, t: nat)
    requires Shape(s)
    ensures Shape(Step(s, Drain(t)))
  {
    hide HubOk;
    if t < |s.tasks| {
      assert TaskOk(|s.hubs|, s.tasks[t]);
    }
  }

  // ---- every step keeps each letter's balance ----

  lemma DeliverBuffers(h: Hub, msg: Msg, m: Msg)
    ensures var h' := Deliver(h, msg).0;
            multiset(Waiting(h', m.typ))[m]
            == multiset(Waiting(h, m.typ))[m] + if m == msg && msg.typ !in h.handlers then 1 else 0
  {
    if msg.typ !in h.handlers {
      assert multiset(Waiting(h, msg.typ) + [msg]) == multiset(Waiting(h, msg.typ)) + multiset([msg]);
    }
  }

  lemma ArriveBalances(s: System, t: nat, l: Letter)
    requires Balanced(s, l)
    ensures Balanced(Step(s, Arrive(t)), l)
  {
    hide Over, Waiting;
    var s' := Step(s, Arrive(t));
    if s' != s {
      var k := s.tasks[t];
      var j := k.todo[0];
      OverUpdate(s.tasks, t, s'.tasks[t], CarriedOf(l));
      DeliverBuffers(s.hubs[j], k.msg, l.1);
      assert Carried(k, l) == 0;
      assert Carried(s'.tasks[t], l) == if l == (j, k.msg) && k.msg.typ in s.hubs[j].handlers then 1 else 0;
    }
  }

  lemma HandleBalances(s: System, t: nat, accepted: bool, l: Letter)
    requires Balanced(s, l)
    ensures Balanced(Step(s, Handle(t, accepted)), l)
  {
    var s' := Step(s, Handle(t, accepted));
    if s' != s {
      OverUpdate(s.tasks, t, s'.tasks[t], CarriedOf(l));
      hide Over, Waiting;
    }
  }

  lemma AttachBalances(s: System, j: nat, typ: string, dest: Handler, l: Letter)
    requires Balanced(s, l) && Shape(s)
    ensures Balanced(Step(s, Attach(j, typ, dest)), l)
  {
    if j < |s.hubs| {
      assert HubOk(s.hubs[j]);
      ConnectMoves(s.hubs[j], typ, dest, l.1);
      var queued := Waiting(s.hubs[j], typ);
      OverAppend(s.tasks, Draining(j, typ, dest, queued), CarriedOf(l));
      hide Over, Waiting, HubOk, Connect;
    }
  }

  /** Connecting hands over what waited for the type and leaves the other types alone. */
  lemma ConnectMoves(h: Hub, typ: string, dest: Handler, m: Msg)
    requires HubOk(h)
    ensures Connect(h, typ, dest).1 == Waiting(h, typ)
    ensures Waiting(Connect(h, typ, dest).0, m.typ) == if m.typ == typ then [] else Waiting(h, m.typ)
    ensures m.typ != typ ==> m !in multiset(Waiting(h, typ))
  {
  }

  lemma DrainBalances(s: System, t: nat, l: Letter)
    requires Balanced(s, l) && Shape(s)
    ensures Balanced(Step(s, Drain(t)), l)
  {
    var s' := Step(s, Drain(t));
    if s' != s {
      var k := s.tasks[t];
      assert TaskOk(|s.hubs|, k);
      assert k.queue == [k.queue[0]] + k.queue[1..];
      OverUpdate(s.tasks, t, s'.tasks[t], CarriedOf(l));
      hide Over, Waiting, TaskOk, HubOk;
    }
  }

  lemma ReceiveKeeps(s: System, self: nat, msg: Msg)
    requires Inv(s)
    ensures Inv(Step(s, Receive(self, msg)))
  {
    if self < |s.hubs| && Route(|s.hubs|, self, msg).Some? {
      RouteInRange(|s.hubs|, self, msg);
      var s' := Step(s, Receive(self, msg));
      var k := Sending(self, msg, Route(|s.hubs|, self, msg).value, None, [], false);
      assert s'.tasks == s.tasks + [k];
      hide HubOk, Route, Over;
      forall l: Letter ensures Balanced(s', l) && Accounted(s', l) {
        assert Balanced(s, l) && Accounted(s, l);
        OverAppend(s.tasks, k, CarriedOf(l));
        OverAppend(s.tasks, k, ServedOf(l));
      }
    }
  }

  // ---- every step accounts for each delivery ----

  lemma ArriveAccounts(s: System, t: nat, l: Letter)
    requires Accounted(s, l)
    ensures Accounted(Step(s, Arrive(t)), l)
  {
    var s' := Step(s, Arrive(t));
    if s' != s {
      var k := s.tasks[t];
      var j := k.todo[0];
      OverUpdate(s.tasks, t, s'.tasks[t], ServedOf(l));
      assert multiset(k.reached + [j]) == multiset(k.reached) + multiset{j};
      assert Served(s'.tasks[t], l) == Served(k, l) + if l == (j, k.msg) then 1 else 0;
      hide Over, Served, Deliver;
    }
  }

  lemma HandleAccounts(s: System, t: nat, accepted: bool, l: Letter)
    requires Accounted(s, l)
    ensures Accounted(Step(s, Handle(t, accepted)), l)
  {
    var s' := Step(s, Handle(t, accepted));
    if s' != s {
      var k := s.tasks[t];
      OverUpdate(s.tasks, t, s'.tasks[t], ServedOf(l));
      assert multiset(k.reached + [k.todo[0]]) == multiset(k.reached) + multiset{k.todo[0]};
      assert Served(s'.tasks[t], l) == Served(k, l);
      hide Over, Served;
    }
  }

  lemma OtherAccounts(s: System, a: Action, l: Letter)
    requires Accounted(s, l) && (a.Attach? || a.Drain?)
    ensures Accounted(Step(s, a), l)
  {
    if a.Attach? && a.hub < |s.hubs| {
      OverAppend(s.tasks, Draining(a.hub, a.typ, a.dest, Waiting(s.hubs[a.hub], a.typ)), ServedOf(l));
    } else if a.Drain? && a.task < |s.tasks| {
      OverUpdate(s.tasks, a.task, Step(s, a).tasks[a.task], ServedOf(l));
    }
    hide Over, Waiting;
  }

  lemma StepShape(s: System, a: Action)
    requires Shape(s) && !a.Receive?
    ensures Shape(Step(s, a))
  {
    hide Step, Shape;
    match a
    case Arrive(t) => ArriveShape(s, t);
    case Handle(t, accepted) => HandleShape(s, t, accepted);
    case Attach(j, typ, dest) => AttachShape(s, j, typ, dest);
    case Drain(t) => DrainShape(s, t);
  }

  lemma StepBalances(s: System, a: Action, l: Letter)
    requires Shape(s) && Balanced(s, l) && !a.Receive?
    ensures Balanced(Step(s, a), l)
  {
    hide Step, Shape, Balanced;
    match a
    case Arrive(t) => ArriveBalances(s, t, l);
    case Handle(t, accepted) => HandleBalances(s, t, accepted, l);
    case Attach(j, typ, dest) => AttachBalances(s, j, typ, dest, l);
    case Drain(t) => DrainBalances(s, t, l);
  }

  lemma StepAccounts(s: System, a: Action, l: Letter)
    requires Accounted(s, l) && !a.Receive?
    ensures Accounted(Step(s, a), l)
  {
    hide Step, Accounted;
    match a
    case Arrive(t) => ArriveAccounts(s, t, l);
    case Handle(t, accepted) => HandleAccounts(s, t, accepted, l);
    case Attach(_, _, _) => OtherAccounts(s, a, l);
    case Drain(_) => OtherAccounts(s, a, l);
  }

  lemma HubsStay(s: System, a: Action)
    ensures |Step(s, a).hubs| == |s.hubs|
  {
  }

  lemma StepKeeps(s: System, a: Action)
    requires Inv(s)
    ensures Inv(Step(s, a)) && |Step(s, a).hubs| == |s.hubs|
  {
    hide Step, Shape, Balanced, Accounted;
    HubsStay(s, a);
    if a.Receive? {
      ReceiveKeeps(s, a.self, a.msg);
    } else {
      StepShape(s, a);
      forall l: Letter ensures Balanced(Step(s, a), l) && Accounted(Step(s, a), l) {
        assert Balanced(s, l) && Accounted(s, l);
        StepBalances(s, a, l);
        StepAccounts(s, a, l);
      }
    }
  }

  // ---- results over every interleaving ----

  lemma {:induction false} EveryRunKeeps(n: nat, actions: seq<Action>)
    ensures Inv(Exec(Wired(n), actions)) && |Exec(Wired(n), actions).hubs| == n
  {
    if actions != [] {
      EveryRunKeeps(n, actions[..|actions| - 1]);
      StepKeeps(Exec(Wired(n), actions[..|actions| - 1]), actions[|actions| - 1]);
    }
  }

  /** Once a type has a handler it keeps one, whatever happens next, and never buffers again. */
  lemma {:induction false} HandledTypesStayUnbuffered(s: System, more: seq<Action>, j: nat, typ: string)
    requires Inv(s) && j < |s.hubs| && typ in s.hubs[j].handlers
    ensures var s' := Exec(s, more);
            && Inv(s') && |s'.hubs| == |s.hubs|
            && typ in s'.hubs[j].handlers && Waiting(s'.hubs[j], typ) == []
  {
    if more == [] {
      assert HubOk(s.hubs[j]);
    } else {
      var before, last := Exec(s, more[..|more| - 1]), more[|more| - 1];
      HandledTypesStayUnbuffered(s, more[..|more| - 1], j, typ);
      StepKeeps(before, last);
      HandlersStay(before, last, j, typ);
      assert HubOk(Step(before, last).hubs[j]);
    }
  }

  lemma HandlersStay(s: System, a: Action, j: nat, typ: string)
    requires j < |s.hubs| && typ in s.hubs[j].handlers
    ensures |Step(s, a).hubs| == |s.hubs| && typ in Step(s, a).hubs[j].handlers
  {
  }

  /** When a type has its handler and no task still carries the letter, it was handled once per delivery. */
  lemma NothingLostOrDuplicated(n: nat, actions: seq<Action>, l: Letter)
    requires var s := Exec(Wired(n), actions);
             l.0 < |s.hubs| && l.1.typ in s.hubs[l.0].handlers && InHand(s.tasks, l) == 0
    ensures var s := Exec(Wired(n), actions);
            s.handled[l] == s.arrived[l]
  {
    var s := Exec(Wired(n), actions);
    EveryRunKeeps(n, actions);
    assert HubOk(s.hubs[l.0]);
    assert Balanced(s, l);
  }

  /** Deliveries to a hub are exactly those the tasks made: targets served plus handlers about to run. */
  lemma DeliveriesAreTheTasks(n: nat, actions: seq<Action>, l: Letter)
    ensures var s := Exec(Wired(n), actions);
            s.arrived[l] == Over(s.tasks, ServedOf(l)) == s.handled[l] + Buffered(s, l) + InHand(s.tasks, l)
  {
    EveryRunKeeps(n, actions);
    assert Accounted(Exec(Wired(n), actions), l) && Balanced(Exec(Wired(n), actions), l);
  }

  /** A finished send that no handler refused delivered along its route; a broadcast, to every other party once. */
  lemma FinishedSendReachedItsRoute(n: nat, actions: seq<Action>, t: nat, j: nat)
    requires var s := Exec(Wired(n), actions);
             t < |s.tasks| && s.tasks[t].Sending? && s.tasks[t].todo == [] && !s.tasks[t].failed
    ensures var s := Exec(Wired(n), actions);
            var k := s.tasks[t];
            && Route(n, k.self, k.msg) == Some(k.reached)
            && multiset(k.reached)[j] <= s.arrived[(j, k.msg)]
            && (k.msg.from == Some(k.self) && k.msg.to.None? ==>
                  multiset(k.reached)[j] == if j < n && j != k.self then 1 else 0)
  {
    var s := Exec(Wired(n), actions);
    EveryRunKeeps(n, actions);
    var k := s.tasks[t];
    assert TaskOk(|s.hubs|, k);
    assert k.reached + [] == k.reached;
    BroadcastReachesOthersOnce(n, k.self, j);
    assert Accounted(s, (j, k.msg));
    OverAtLeast(s.tasks, t, ServedOf((j, k.msg)));
  }

  // ---- from the messages received to the handlers run ----

  /** How many deliveries to `l.0` an action asks for: its place in the route of a message a party receives. */
  function AsksFor(n: nat, a: Action, l: Letter): nat {
    if a.Receive? && a.self < n && a.msg == l.1 && Route(n, a.self, a.msg).Some? then
      multiset(Route(n, a.self, a.msg).value)[l.0]
    else 0
  }

  function Asked(n: nat, actions: seq<Action>, l: Letter): nat {
    if actions == [] then 0 else Asked(n, actions[..|actions| - 1], l) + AsksFor(n, actions[|actions| - 1], l)
  }

  /** A broadcast asks once for every other party, a direct message once for its addressee, a foreign one for `self`. */
  lemma AsksForIs(n: nat, self: nat, msg: Msg, j: nat)
    requires self < n
    ensures AsksFor(n, Receive(self, msg), (j, msg))
         == if msg.from.GetOr(-1) != self then (if j == self then 1 else 0)
            else if msg.to.Some? then (if 0 <= msg.to.value < n && j == msg.to.value then 1 else 0)
            else if j < n && j != self then 1 else 0
  {
    BroadcastReachesOthersOnce(n, self, j);
    hide Others;
  }

  lemma {:induction false} TasksKeepThePlan(n: nat, actions: seq<Action>, l: Letter)
    ensures |Exec(Wired(n), actions).hubs| == n
    ensures Over(Exec(Wired(n), actions).tasks, PlannedOf(n, l)) == Asked(n, actions, l)
  {
    hide Step, AsksFor, PlannedOf;
    if actions != [] {
      var before, last := Exec(Wired(n), actions[..|actions| - 1]), actions[|actions| - 1];
      TasksKeepThePlan(n, actions[..|actions| - 1], l);
      HubsStay(before, last);
      hide Over;
      StepKeepsThePlan(n, before, last, l);
    }
  }

  lemma StepKeepsThePlan(n: nat, s: System, a: Action, l: Letter)
    requires |s.hubs| == n
    ensures Over(Step(s, a).tasks, PlannedOf(n, l)) == Over(s.tasks, PlannedOf(n, l)) + AsksFor(n, a, l)
  {
    hide Over, Route, Deliver, Connect;
    var s' := Step(s, a);
    if s'.tasks != s.tasks {
      if |s'.tasks| > |s.tasks| {
        OverAppend(s.tasks, s'.tasks[|s.tasks|], PlannedOf(n, l));
      } else {
        var t := a.task;
        OverUpdate(s.tasks, t, s'.tasks[t], PlannedOf(n, l));
      }
    }
  }

  /** A task is through with a message: its send is complete and unrefused, its replay holds no copy. */
  ghost predicate Through(k: Task, msg: Msg) {
    match k
    case Sending(_, m, todo, _, _, failed) => m == msg ==> todo == [] && !failed
    case Draining(_, _, _, queue) => msg !in queue
  }

  /**
    End to end, over every interleaving: once every task is through with a message and its addressee has a handler,
    the handlers there ran for it exactly as often as the parties were asked to pass it on. For a broadcast that is
    once per receipt at every other party.
  */
  lemma EveryRequestIsHandledOnce(n: nat, actions: seq<Action>, j: nat, msg: Msg)
    requires var s := Exec(Wired(n), actions);
             && j < |s.hubs| && msg.typ in s.hubs[j].handlers
             && forall t :: 0 <= t < |s.tasks| ==> Through(s.tasks[t], msg)
    ensures Exec(Wired(n), actions).handled[(j, msg)] == Asked(n, actions, (j, msg))
  {
    var s := Exec(Wired(n), actions);
    EveryRunKeeps(n, actions);
    hide Exec;
    forall t | 0 <= t < |s.tasks|
      ensures Carried(s.tasks[t], (j, msg)) == 0
      ensures Served(s.tasks[t], (j, msg)) == Planned(n, s.tasks[t], (j, msg))
    {
      assert TaskOk(n, s.tasks[t]) && Through(s.tasks[t], msg);
      ThroughMeansServed(n, s.tasks[t], j, msg);
    }
    hide Step, Carried, Served, Planned, Through, TaskOk, Inv;
    OverZero(s.tasks, CarriedOf((j, msg)));
    OverAgrees(s.tasks, ServedOf((j, msg)), PlannedOf(n, (j, msg)));
    NothingLostOrDuplicated(n, actions, (j, msg));
    DeliveriesAreTheTasks(n, actions, (j, msg));
    TasksKeepThePlan(n, actions, (j, msg));
  }

  lemma ThroughMeansServed(n: nat, k: Task, j: nat, msg: Msg)
    requires TaskOk(n, k) && Through(k, msg)
    ensures Carried(k, (j, msg)) == 0 && Served(k, (j, msg)) == Planned(n, k, (j, msg))
  {
    hide Route;
    if k.Sending? && k.msg == msg {
      assert k.reached + [] == k.reached;
    }
  }

  // ---- every schedule drains ----

  /** Targets a send has not been delivered to yet. */
  function Undelivered(k: Task): nat {
    match k
    case Sending(_, _, todo, calling, _, _) => if calling.Some? && todo != [] then |todo| - 1 else |todo|
    case Draining(_, _, _, _) => 0
  }

  /** Two steps for every delivery to come, one for every letter delivered and not handled. */
  function StepsLeft(s: System): int {
    2 * Over(s.tasks, Undelivered) + |s.arrived| - |s.handled|
  }

  predicate ByTask(a: Action) {
    a.Arrive? || a.Handle? || a.Drain?
  }

  lemma StepsLeftIsNat(s: System)
    requires Inv(s)
    ensures StepsLeft(s) >= 0
  {
    forall l: Letter
      ensures s.handled[l] <= s.arrived[l]
    {
      assert Balanced(s, l);
    }
    SmallerMultiset(s.handled, s.arrived);
  }

  lemma SmallerMultiset(a: multiset<Letter>, b: multiset<Letter>)
    requires forall l: Letter :: a[l] <= b[l]
    ensures |a| <= |b|
  {
    assert b == a + (b - a);
  }

  /** A step a task really takes uses one up, connecting a handler none; only a message received adds any. */
  lemma StepRunsDown(s: System, a: Action)
    requires Shape(s) && !a.Receive?
    ensures StepsLeft(Step(s, a)) <= StepsLeft(s)
    ensures ByTask(a) && Step(s, a) != s ==> StepsLeft(Step(s, a)) < StepsLeft(s)
  {
    hide Over, Deliver, Connect, Route, HubOk;
    var s' := Step(s, a);
    if s'.tasks != s.tasks {
      if a.Attach? {
        OverAppend(s.tasks, s'.tasks[|s.tasks|], Undelivered);
      } else {
        OverUpdate(s.tasks, a.task, s'.tasks[a.task], Undelivered);
      }
    }
  }

  /** How often a task really took a step. */
  ghost function Taken(s: System, more: seq<Action>): nat {
    if more == [] then 0
    else
      var before, last := Exec(s, more[..|more| - 1]), more[|more| - 1];
      Taken(s, more[..|more| - 1]) + if ByTask(last) && Step(before, last) != before then 1 else 0
  }

  /** Until the next message is received every schedule runs down: tasks can take only so many more steps. */
  lemma {:induction false} EveryScheduleRunsDown(s: System, more: seq<Action>)
    requires Inv(s) && forall a :: a in more ==> !a.Receive?
    ensures var s' := Exec(s, more);
            Inv(s') && |s'.hubs| == |s.hubs| && 0 <= StepsLeft(s') && Taken(s, more) + StepsLeft(s') <= StepsLeft(s)
  {
    if more != [] {
      var before, last := Exec(s, more[..|more| - 1]), more[|more| - 1];
      EveryScheduleRunsDown(s, more[..|more| - 1]);
      StepKeeps(before, last);
      StepRunsDown(before, last);
      hide Step, StepsLeft, Inv;
      StepsLeftIsNat(Step(before, last));
    } else {
      StepsLeftIsNat(s);
    }
  }

  ghost predicate Done(k: Task) {
    match k
    case Sending(_, _, todo, _, _, _) => todo == []
    case Draining(_, _, _, queue) => queue == []
  }

  ghost predicate AllDone(s: System) {
    forall t :: 0 <= t < |s.tasks| ==> Done(s.tasks[t])
  }

  ghost predicate Refused(s: System) {
    exists t :: 0 <= t < |s.tasks| && s.tasks[t].Sending? && s.tasks[t].failed
  }

  /** What task `t` does next when its handler accepts. */
  function NextStep(k: Task, t: nat): Action {
    if k.Draining? then Drain(t) else if k.calling.Some? then Handle(t, true) else Arrive(t)
  }

  /** A task that is not done can always take a step. */
  lemma NeverStuck(s: System, t: nat)
    requires Shape(s) && t < |s.tasks| && !Done(s.tasks[t])
    ensures var a := NextStep(s.tasks[t], t);
            ByTask(a) && Step(s, a) != s && (Refused(Step(s, a)) ==> Refused(s))
  {
    hide HubOk, Deliver, Route;
    var k := s.tasks[t];
    var s' := Step(s, NextStep(k, t));
    assert TaskOk(|s.hubs|, k);
    assert k.Sending? ==> k.todo[0] < |s.hubs|;
    assert s'.tasks[t] != k by {
      assert k.Sending? ==> |k.todo[1..]| < |k.todo|;
      assert k.Draining? ==> |k.queue[1..]| < |k.queue|;
    }
    if Refused(s') {
      var i :| 0 <= i < |s'.tasks| && s'.tasks[i].Sending? && s'.tasks[i].failed;
      assert s.tasks[i].Sending? && s.tasks[i].failed;
    }
  }

  /** From every reachable state the tasks can finish, with no refusal, whatever was received so far. */
  lemma {:induction false} CanFinish(s: System) returns (more: seq<Action>)
    requires Inv(s)
    ensures (forall a :: a in more ==> ByTask(a)) && AllDone(Exec(s, more))
    ensures Refused(Exec(s, more)) ==> Refused(s)
    decreases StepsLeft(s)
  {
    if AllDone(s) {
      more := [];
    } else {
      var t :| 0 <= t < |s.tasks| && !Done(s.tasks[t]);
      var a := NextStep(s.tasks[t], t);
      NeverStuck(s, t);
      StepKeeps(s, a);
      StepRunsDown(s, a);
      StepsLeftIsNat(s);
      hide Step, StepsLeft, Inv, Refused, AllDone;
      var rest := CanFinish(Step(s, a));
      more := [a] + rest;
      assert [a][..0] == [];
      assert Exec(s, [a]) == Step(s, a);
      ExecConcat(s, [a], rest);
    }
  }

  lemma {:induction false} ExecConcat(s: System, xs: seq<Action>, ys: seq<Action>)
    ensures Exec(s, xs + ys) == Exec(Exec(s, xs), ys)
  {
    if ys == [] {
      assert xs + ys == xs;
    } else {
      assert (xs + ys)[..|xs + ys| - 1] == xs + ys[..|ys| - 1];
      ExecConcat(s, xs, ys[..|ys| - 1]);
    }
  }

  lemma {:induction false} AskedConcat(n: nat, xs: seq<Action>, ys: seq<Action>, l: Letter)
    requires forall a :: a in ys ==> ByTask(a)
    ensures Asked(n, xs + ys, l) == Asked(n, xs, l)
  {
    if ys == [] {
      assert xs + ys == xs;
    } else {
      assert (xs + ys)[..|xs + ys| - 1] == xs + ys[..|ys| - 1] && (xs + ys)[|xs + ys| - 1] == ys[|ys| - 1];
      AskedConcat(n, xs, ys[..|ys| - 1], l);
      assert ByTask(ys[|ys| - 1]);
    }
  }

  /**
    Liveness, over every run in which no handler refused: the tasks can finish, and then every party with a handler for
    its type has handled each message exactly as often as the run asked for.
  */
  lemma EveryRequestCanBeHandled(n: nat, actions: seq<Action>) returns (more: seq<Action>)
    requires !Refused(Exec(Wired(n), actions))
    ensures forall a :: a in more ==> ByTask(a)
    ensures var s := Exec(Wired(n), actions + more);
            && AllDone(s)
            && forall j: nat, msg: Msg :: j < |s.hubs| && msg.typ in s.hubs[j].handlers ==>
                 s.handled[(j, msg)] == Asked(n, actions, (j, msg))
  {
    EveryRunKeeps(n, actions);
    hide Inv, Step;
    more := CanFinish(Exec(Wired(n), actions));
    ExecConcat(Wired(n), actions, more);
    var s := Exec(Wired(n), actions + more);
    hide Exec, Asked;
    forall j: nat, msg: Msg | j < |s.hubs| && msg.typ in s.hubs[j].handlers
      ensures s.handled[(j, msg)] == Asked(n, actions, (j, msg))
    {
      forall t | 0 <= t < |s.tasks|
        ensures Through(s.tasks[t], msg)
      {
        assert Done(s.tasks[t]);
      }
      EveryRequestIsHandledOnce(n, actions + more, j, msg);
      AskedConcat(n, actions, more, (j, msg));
    }
  }
}
