/** Requests the peer makes of the host: they wait for the user, go in flight once taken, and
    are answered by a background task if they are still in flight when it is done. */
module HostBridge {
  import opened Seqs
  import opened Wrappers

  type Id = string

  /** `PendingHostToolCall` and `PendingHostUriRequest`; arguments are not looked into. */
  datatype Request =
    | ToolCall(requestId: Id, toolCallId: string, toolName: string, arguments: string)
    | UriRequest(requestId: Id, operation: string, url: string)

  /** The frames of interest; the cancel frames for calls and for URIs act alike. */
  datatype Frame =
    | HostToolCall(id: Id, toolCallId: string, toolName: string, arguments: string)
    | HostUriRequest(id: Id, rawOperation: Option<string>, url: string)
    | HostCancel(targetId: Id)
    | OtherFrame

  // ----- lists of requests --------------------------------------------------

  function IdOf(r: Request): Id {
    r.requestId
  }

  function Count(s: seq<Request>, id: Id): nat {
    if s == [] then 0 else (if s[0].requestId == id then 1 else 0) + Count(s[1..], id)
  }

  /** The position of the first request with this id; the length if there is none. */
  function Position(s: seq<Request>, id: Id): (i: nat)
    ensures i <= |s| && (i < |s| ==> s[i].requestId == id)
  {
    if s == [] || s[0].requestId == id then 0 else 1 + Position(s[1..], id)
  }

  function RemoveAt(s: seq<Request>, i: nat): seq<Request>
    requires i < |s|
  {
    s[..i] + s[i + 1..]
  }

  lemma {:induction false} CountJoin(a: seq<Request>, b: seq<Request>, id: Id)
    ensures Count(a + b, id) == Count(a, id) + Count(b, id)
  {
    if a == [] {
      JoinEmpty(b);
    } else {
      CountJoin(a[1..], b, id);
      assert (a + b)[1..] == a[1..] + b;
    }
  }

  lemma CountSnoc(s: seq<Request>, r: Request, id: Id)
    ensures Count(s + [r], id) == Count(s, id) + (if r.requestId == id then 1 else 0)
  {
    CountJoin(s, [r], id);
    assert [r][1..] == [];
  }

  lemma {:induction false} CountWithout(s: seq<Request>, target: Id, id: Id)
    ensures Count(Without(s, IdOf, target), id) == if id == target then 0 else Count(s, id)
  {
    if s != [] {
      CountWithout(s[1..], target, id);
      var rest := Without(s[1..], IdOf, target);
      JoinEmpty(rest);
      PartsOfJoin([s[0]], rest);
    }
  }

  lemma CountRemove(s: seq<Request>, i: nat, id: Id)
    requires i < |s|
    ensures Count(RemoveAt(s, i), id) == Count(s, id) - (if s[i].requestId == id then 1 else 0)
  {
    SplitAt(s, i);
    CountJoin(s[..i], s[i..], id);
    CountJoin(s[..i], s[i + 1..], id);
    assert s[i..][1..] == s[i + 1..];
  }

  lemma {:induction false} PositionExactly(s: seq<Request>, id: Id)
    ensures Position(s, id) < |s| <==> Count(s, id) > 0
  {
    if s != [] {
      PositionExactly(s[1..], id);
    }
  }

  // ----- the state ----------------------------------------------------------

  datatype Bridge = Bridge(enabled: bool, calls: seq<Request>, uris: seq<Request>, inFlight: set<Id>)

  /** The request a frame makes, if it makes one. */
  function RequestOf(f: Frame): Option<Request> {
    match f
    case HostToolCall(id, toolCallId, toolName, arguments) =>
      Some(ToolCall(id, toolCallId, toolName, arguments))
    case HostUriRequest(id, operation, url) =>
      Some(UriRequest(id, if operation.Some? then operation.value else "unknown", url))
    case _ => None
  }

  function CancelTarget(b: Bridge, id: Id): Bridge {
    b.(calls := Without(b.calls, IdOf, id), uris := Without(b.uris, IdOf, id), inFlight := b.inFlight - {id})
  }

  /** Whether a frame is a new request: enabled, and its id neither waits in the list it
      belongs to nor is in flight. */
  predicate Accepts(b: Bridge, f: Frame) {
    && b.enabled && RequestOf(f).Some?
    && Count(if f.HostToolCall? then b.calls else b.uris, f.id) == 0
    && f.id !in b.inFlight
  }

  function ObserveFrame(b: Bridge, f: Frame): Bridge {
    if Accepts(b, f) then
      if f.HostToolCall? then b.(calls := b.calls + [RequestOf(f).value])
      else b.(uris := b.uris + [RequestOf(f).value])
    else if b.enabled && f.HostCancel? then CancelTarget(b, f.targetId)
    else b
  }

  function TakePending(b: Bridge, id: Id): (Bridge, Option<Request>) {
    var i := Position(b.calls, id);
    if i == |b.calls| then (b, None)
    else (b.(calls := RemoveAt(b.calls, i), inFlight := b.inFlight + {id}), Some(b.calls[i]))
  }

  function TakePendingUri(b: Bridge, id: Id): (Bridge, Option<Request>) {
    var i := Position(b.uris, id);
    if i == |b.uris| then (b, None)
    else (b.(uris := RemoveAt(b.uris, i), inFlight := b.inFlight + {id}), Some(b.uris[i]))
  }

  function FinishInFlight(b: Bridge, id: Id): Bridge {
    b.(inFlight := b.inFlight - {id})
  }

  function Reset(b: Bridge): Bridge {
    b.(calls := [], uris := [], inFlight := {})
  }

  // ----- the bridge with its tasks ------------------------------------------

  /** The requests accepted so far, the background tasks under way, and the requests whose
      result frame was handed to the client, in order. */
  datatype System = System(bridge: Bridge, asked: seq<Request>, tasks: seq<Request>, sent: seq<Request>)

  /** A frame arrives; the user settles a waiting call (by approving or denying it) or denies
      a waiting URI request, with or without a connection; a task gets to its end; the
      session resets the bridge. */
  datatype Action =
    | Arrive(frame: Frame)
    | SettleCall(id: Id, connected: bool)
    | SettleUri(id: Id, connected: bool)
    | Done(task: nat)
    | ResetAll

  function Settle(s: System, taken: (Bridge, Option<Request>), id: Id, connected: bool): System {
    if taken.1.None? then s
    else if connected then s.(bridge := taken.0, tasks := s.tasks + [taken.1.value])
    else s.(bridge := FinishInFlight(taken.0, id))
  }

  function Step(s: System, a: Action): System {
    match a
    case Arrive(f) =>
      s.(bridge := ObserveFrame(s.bridge, f),
         asked := if Accepts(s.bridge, f) then s.asked + [RequestOf(f).value] else s.asked)
    case SettleCall(id, connected) => Settle(s, TakePending(s.bridge, id), id, connected)
    case SettleUri(id, connected) => Settle(s, TakePendingUri(s.bridge, id), id, connected)
    case Done(k) =>
      if k >= |s.tasks| then s
      else
        var r := s.tasks[k];
        var s' := s.(tasks := RemoveAt(s.tasks, k), bridge := FinishInFlight(s.bridge, r.requestId));
        if r.requestId in s.bridge.inFlight then s'.(sent := s.sent + [r]) else s'
    case ResetAll => s.(bridge := Reset(s.bridge))
  }

  function Run(s: System, actions: seq<Action>): System
    decreases |actions|
  {
    if actions == [] then s else Run(Step(s, actions[0]), actions[1..])
  }

  function Start(enabled: bool): System {
    System(Bridge(enabled, [], [], {}), [], [], [])
  }

  // ----- accounting ---------------------------------------------------------

  function InFlight(b: Bridge, id: Id): nat {
    if id in b.inFlight then 1 else 0
  }

  /** How many times an id waits or is in flight. */
  function Live(b: Bridge, id: Id): nat {
    Count(b.calls, id) + Count(b.uris, id) + InFlight(b, id)
  }

  /** Results sent and requests still open never outnumber the requests accepted. */
  predicate Conserved(s: System, id: Id) {
    Count(s.sent, id) + Live(s.bridge, id) <= Count(s.asked, id)
  }

  lemma ObserveCounts(b: Bridge, f: Frame, id: Id)
    ensures Live(ObserveFrame(b, f), id)
            == if b.enabled && f == HostCancel(id) then 0
               else Live(b, id) + (if Accepts(b, f) && f.id == id then 1 else 0)
  {
    if Accepts(b, f) {
      CountSnoc(b.calls, RequestOf(f).value, id);
      CountSnoc(b.uris, RequestOf(f).value, id);
    } else if f.HostCancel? {
      CancelCounts(b, f.targetId, id);
    }
    hide Count, Without;
  }

  /** A cancel takes its target out of everything, and nothing else out of anything. */
  lemma CancelCounts(b: Bridge, target: Id, id: Id)
    ensures Live(CancelTarget(b, target), id) == if id == target then 0 else Live(b, id)
  {
    CountWithout(b.calls, target, id);
    CountWithout(b.uris, target, id);
    hide Count, Without;
  }

  lemma TakeCounts(b: Bridge, target: Id, id: Id)
    ensures Live(TakePending(b, target).0, id)
            == Live(b, id) - (if id == target && Count(b.calls, id) > 0 && id in b.inFlight then 1 else 0)
    ensures Live(TakePendingUri(b, target).0, id)
            == Live(b, id) - (if id == target && Count(b.uris, id) > 0 && id in b.inFlight then 1 else 0)
  {
    var i, j := Position(b.calls, target), Position(b.uris, target);
    PositionExactly(b.calls, target);
    PositionExactly(b.uris, target);
    if i < |b.calls| {
      CountRemove(b.calls, i, id);
    }
    if j < |b.uris| {
      CountRemove(b.uris, j, id);
    }
    hide Count, RemoveAt;
  }

  /** An enabled bridge accepts a request whose id is nowhere. */
  lemma FirstIsAccepted(b: Bridge, f: Frame)
    requires b.enabled && RequestOf(f).Some? && Live(b, f.id) == 0
    ensures Accepts(b, f) && Live(ObserveFrame(b, f), f.id) == 1
  {
    ObserveCounts(b, f, f.id);
    hide Count, ObserveFrame;
  }

  /** What one step does to the count of an id. */
  lemma StepCounts(s: System, a: Action, id: Id)
    ensures var s' := Step(s, a);
            && Count(s'.sent, id) + Live(s'.bridge, id) - Count(s'.asked, id)
               <= Count(s.sent, id) + Live(s.bridge, id) - Count(s.asked, id)
            && Count(s.sent, id) <= Count(s'.sent, id) <= Count(s.sent, id) + InFlight(s.bridge, id)
  {
    match a
    case Arrive(f) =>
      ObserveCounts(s.bridge, f, id);
      if Accepts(s.bridge, f) {
        CountSnoc(s.asked, RequestOf(f).value, id);
      }
      hide Count, ObserveFrame, Live, Accepts;
    case SettleCall(target, connected) =>
      TakeCounts(s.bridge, target, id);
      SettleCounts(s, TakePending(s.bridge, target), target, connected, id);
      hide Count, TakePending, Settle, Live;
    case SettleUri(target, connected) =>
      TakeCounts(s.bridge, target, id);
      SettleCounts(s, TakePendingUri(s.bridge, target), target, connected, id);
      hide Count, TakePendingUri, Settle, Live;
    case Done(k) =>
      if k < |s.tasks| {
        DoneCounts(s, k, id);
      }
      hide Step, Count, Live;
    case ResetAll =>
  }

  lemma SettleCounts(s: System, taken: (Bridge, Option<Request>), target: Id, connected: bool, id: Id)
    requires Live(taken.0, id) <= Live(s.bridge, id)
    ensures var s' := Settle(s, taken, target, connected);
            Live(s'.bridge, id) <= Live(s.bridge, id) && s'.sent == s.sent && s'.asked == s.asked
  {
    hide Count;
  }

  lemma DoneCounts(s: System, k: nat, id: Id)
    requires k < |s.tasks|
    ensures var s' := Step(s, Done(k));
            && Count(s'.sent, id) + Live(s'.bridge, id) == Count(s.sent, id) + Live(s.bridge, id)
            && Count(s.sent, id) <= Count(s'.sent, id) <= Count(s.sent, id) + InFlight(s.bridge, id)
            && s'.asked == s.asked
  {
    CountSnoc(s.sent, s.tasks[k], id);
    hide Count, RemoveAt;
  }

  lemma {:induction false} RunConserves(s: System, actions: seq<Action>, id: Id)
    requires Conserved(s, id)
    ensures Conserved(Run(s, actions), id)
    decreases |actions|
  {
    hide Step, Live, Count;
    if actions != [] {
      StepCounts(s, actions[0], id);
      RunConserves(Step(s, actions[0]), actions[1..], id);
    }
  }

  // ----- at most one result -------------------------------------------------

  /** How many request frames with this id arrive. */
  function Asks(actions: seq<Action>, id: Id): nat {
    if actions == [] then 0
    else
      var a := actions[0];
      (if a.Arrive? && RequestOf(a.frame).Some? && a.frame.id == id then 1 else 0) + Asks(actions[1..], id)
  }

  lemma StepAsks(s: System, a: Action, id: Id)
    ensures Count(Step(s, a).asked, id) <= Count(s.asked, id) + Asks([a], id)
  {
    assert [a][1..] == [];
    if a.Arrive? && Accepts(s.bridge, a.frame) {
      CountSnoc(s.asked, RequestOf(a.frame).value, id);
    }
    hide Count;
  }

  lemma AsksFirst(actions: seq<Action>, id: Id)
    requires actions != []
    ensures Asks(actions, id) == Asks([actions[0]], id) + Asks(actions[1..], id)
  {
    assert [actions[0]][1..] == [];
  }

  lemma {:induction false} RunAsks(s: System, actions: seq<Action>, id: Id)
    ensures Count(Run(s, actions).asked, id) <= Count(s.asked, id) + Asks(actions, id)
    decreases |actions|
  {
    if actions != [] {
      AsksFirst(actions, id);
      hide Step, Count, Asks;
      StepAsks(s, actions[0], id);
      RunAsks(Step(s, actions[0]), actions[1..], id);
    }
  }

  /** In every run, an id never has more results than the peer made requests with it. If it
      made at most one, the id waits in at most one list or is in flight, and then has no
      result; and it never has two. */
  lemma AtMostOneResult(enabled: bool, actions: seq<Action>, id: Id)
    ensures var s := Run(Start(enabled), actions);
            && Count(s.sent, id) + Live(s.bridge, id) <= Asks(actions, id)
            && (Asks(actions, id) <= 1 ==> Count(s.sent, id) + Live(s.bridge, id) <= 1)
  {
    RunConserves(Start(enabled), actions, id);
    RunAsks(Start(enabled), actions, id);
    hide Run, Asks;
  }

  // ----- nothing after the end ----------------------------------------------

  /** An id that is neither waiting nor in flight stays silent until the peer asks again. */
  lemma {:induction false} DeadStaysSilent(s: System, actions: seq<Action>, id: Id)
    requires Live(s.bridge, id) == 0 && Asks(actions, id) == 0
    ensures var e := Run(s, actions);
            Live(e.bridge, id) == 0 && Count(e.sent, id) == Count(s.sent, id)
    decreases |actions|
  {
    if actions != [] {
      AsksFirst(actions, id);
      StepCounts(s, actions[0], id);
      StepAsks(s, actions[0], id);
      var s' := Step(s, actions[0]);
      assert InFlight(s.bridge, id) == 0;
      hide Step, Count, Asks, Live;
      DeadStaysSilent(s', actions[1..], id);
    }
  }

  lemma {:induction false} RunSplits(s: System, xs: seq<Action>, ys: seq<Action>)
    ensures Run(s, xs + ys) == Run(Run(s, xs), ys)
    decreases |xs|
  {
    hide Step;
    if xs == [] {
      JoinEmpty(ys);
    } else {
      assert (xs + ys)[1..] == xs[1..] + ys;
      RunSplits(Step(s, xs[0]), xs[1..], ys);
    }
  }

  lemma {:induction false} StaysEnabled(s: System, actions: seq<Action>)
    ensures Run(s, actions).bridge.enabled == s.bridge.enabled
    decreases |actions|
  {
    hide Count, Without, RemoveAt;
    if actions != [] {
      StaysEnabled(Step(s, actions[0]), actions[1..]);
    }
  }

  lemma {:induction false} DisabledAsksNothing(s: System, actions: seq<Action>)
    requires !s.bridge.enabled
    ensures Run(s, actions).asked == s.asked
    decreases |actions|
  {
    hide Count, Without, RemoveAt;
    if actions != [] {
      DisabledAsksNothing(Step(s, actions[0]), actions[1..]);
    }
  }

  lemma CancelEnds(enabled: bool, before: seq<Action>, id: Id)
    ensures Live(Step(Run(Start(enabled), before), Arrive(HostCancel(id))).bridge, id) == 0
  {
    var s := Run(Start(enabled), before);
    StaysEnabled(Start(enabled), before);
    ObserveCounts(s.bridge, HostCancel(id), id);
    if !enabled {
      DisabledAsksNothing(Start(enabled), before);
      RunConserves(Start(enabled), before, id);
    }
    hide Run, Live, ObserveFrame;
  }

  lemma ResetEnds(s: System, id: Id)
    ensures Live(Step(s, ResetAll).bridge, id) == 0 && Step(s, ResetAll).sent == s.sent
  {
  }

  /** After a cancel, or after a reset, no result is sent for the id, however late its task
      is done, unless the peer uses the id again. */
  lemma NoneAfterTheEnd(enabled: bool, before: seq<Action>, end: Action, rest: seq<Action>, id: Id)
    requires end == Arrive(HostCancel(id)) || end == ResetAll
    requires Asks(rest, id) == 0
    ensures var s := Run(Start(enabled), before);
            Count(Run(Start(enabled), before + [end] + rest).sent, id) == Count(s.sent, id)
  {
    var s := Run(Start(enabled), before);
    RunSplits(Start(enabled), before + [end], rest);
    RunSplits(Start(enabled), before, [end]);
    assert Run(s, [end]) == Step(s, end) by {
      assert [end][1..] == [];
    }
    assert Step(s, end).sent == s.sent;
    if end.ResetAll? {
      ResetEnds(s, id);
    } else {
      CancelEnds(enabled, before, id);
    }
    hide Run, Step, Live, Count;
    DeadStaysSilent(Step(s, end), rest, id);
  }

  // ----- every task answers -------------------------------------------------

  /** What is in flight has a task that will answer it. */
  predicate Served(s: System, id: Id) {
    id in s.bridge.inFlight ==> Count(s.tasks, id) > 0
  }

  lemma StepServes(s: System, a: Action, id: Id)
    requires Served(s, id)
    ensures Served(Step(s, a), id)
  {
    match a
    case Arrive(f) =>
      hide Count;
    case SettleCall(target, connected) =>
      var t := TakePending(s.bridge, target);
      if t.1.Some? {
        CountSnoc(s.tasks, t.1.value, id);
      }
      hide Count, RemoveAt;
    case SettleUri(target, connected) =>
      var t := TakePendingUri(s.bridge, target);
      if t.1.Some? {
        CountSnoc(s.tasks, t.1.value, id);
      }
      hide Count, RemoveAt;
    case Done(k) =>
      if k < |s.tasks| {
        CountRemove(s.tasks, k, id);
      }
      hide Count, RemoveAt;
    case ResetAll =>
  }

  lemma {:induction false} RunServes(s: System, actions: seq<Action>, id: Id)
    requires Served(s, id)
    ensures Served(Run(s, actions), id)
    decreases |actions|
  {
    hide Step, Served;
    if actions != [] {
      StepServes(s, actions[0], id);
      RunServes(Step(s, actions[0]), actions[1..], id);
    }
  }

  /** All tasks get to their end, one after the other. */
  function Drain(s: System): System
    decreases |s.tasks|
  {
    if s.tasks == [] then s else Drain(Step(s, Done(0)))
  }

  lemma DoneAnswers(s: System, id: Id)
    requires s.tasks != [] && Served(s, id)
    ensures var s' := Step(s, Done(0));
            && Served(s', id)
            && Count(s'.sent, id) + InFlight(s'.bridge, id) == Count(s.sent, id) + InFlight(s.bridge, id)
  {
    StepServes(s, Done(0), id);
    CountSnoc(s.sent, s.tasks[0], id);
    hide Count, RemoveAt, Served;
  }

  lemma {:induction false} DrainAnswers(s: System, id: Id)
    requires Served(s, id)
    ensures var e := Drain(s);
            Count(e.sent, id) == Count(s.sent, id) + InFlight(s.bridge, id) && id !in e.bridge.inFlight
    decreases |s.tasks|
  {
    if s.tasks != [] {
      DoneAnswers(s, id);
      hide Count, InFlight, Served;
      DrainAnswers(Step(s, Done(0)), id);
    }
  }

  /** In every run, letting the tasks finish sends exactly one more result for each id in
      flight, and none for any other. */
  lemma TasksAnswerOnce(enabled: bool, actions: seq<Action>, id: Id)
    ensures var s := Run(Start(enabled), actions);
            Count(Drain(s).sent, id) == Count(s.sent, id) + (if id in s.bridge.inFlight then 1 else 0)
  {
    RunServes(Start(enabled), actions, id);
    DrainAnswers(Run(Start(enabled), actions), id);
    hide Run, Drain, Count;
  }

  /** A request is refused exactly when the bridge is off, one of its kind waits under its id,
      or the id is in flight; else it is listed last, and nothing else changes. */
  lemma RefusedExactly(b: Bridge, id: Id, x: string, y: string, z: string)
    ensures ObserveFrame(b, HostToolCall(id, x, y, z))
            == if !b.enabled || Count(b.calls, id) > 0 || id in b.inFlight then b
               else b.(calls := b.calls + [ToolCall(id, x, y, z)])
    ensures ObserveFrame(b, HostUriRequest(id, Some(x), y))
            == if !b.enabled || Count(b.uris, id) > 0 || id in b.inFlight then b
               else b.(uris := b.uris + [UriRequest(id, x, y)])
  {
    hide Count;
  }

  /** At most one call, and at most one URI request, waits under an id. */
  predicate Once(b: Bridge, id: Id) {
    Count(b.calls, id) <= 1 && Count(b.uris, id) <= 1
  }

  lemma StepKeepsOnce(s: System, a: Action, id: Id)
    requires Once(s.bridge, id)
    ensures Once(Step(s, a).bridge, id)
  {
    var b := s.bridge;
    match a
    case Arrive(f) =>
      if Accepts(b, f) {
        CountSnoc(b.calls, RequestOf(f).value, id);
        CountSnoc(b.uris, RequestOf(f).value, id);
      } else if f.HostCancel? {
        CountWithout(b.calls, f.targetId, id);
        CountWithout(b.uris, f.targetId, id);
      }
      hide Count, Without;
    case SettleCall(target, connected) =>
      SettledCall(s, target, connected, id);
      hide Step, Count;
    case SettleUri(target, connected) =>
      SettledUri(s, target, connected, id);
      hide Step, Count;
    case Done(k) =>
      hide Count, RemoveAt;
    case ResetAll =>
  }

  /** A call that is settled is taken off its list; with a connection a task works on it, and
      without one nothing is left of it. */
  lemma SettledCall(s: System, target: Id, connected: bool, id: Id)
    ensures var s' := Step(s, SettleCall(target, connected));
            if Count(s.bridge.calls, target) == 0 then s' == s
            else
              && Count(s'.bridge.calls, id) == Count(s.bridge.calls, id) - (if id == target then 1 else 0)
              && s'.bridge.uris == s.bridge.uris && s'.sent == s.sent
              && TakenUp(s, s', target, connected)
  {
    PositionExactly(s.bridge.calls, target);
    var i := Position(s.bridge.calls, target);
    if i < |s.bridge.calls| {
      CountRemove(s.bridge.calls, i, id);
    }
    hide Count, RemoveAt;
  }

  lemma SettledUri(s: System, target: Id, connected: bool, id: Id)
    ensures var s' := Step(s, SettleUri(target, connected));
            if Count(s.bridge.uris, target) == 0 then s' == s
            else
              && Count(s'.bridge.uris, id) == Count(s.bridge.uris, id) - (if id == target then 1 else 0)
              && s'.bridge.calls == s.bridge.calls && s'.sent == s.sent
              && TakenUp(s, s', target, connected)
  {
    PositionExactly(s.bridge.uris, target);
    var i := Position(s.bridge.uris, target);
    if i < |s.bridge.uris| {
      CountRemove(s.bridge.uris, i, id);
    }
    hide Count, RemoveAt;
  }

  /** With a connection one more task works on the id, which is in flight; without one no task
      does, and the id is free. */
  ghost predicate TakenUp(s: System, s': System, id: Id, connected: bool) {
    if connected then
      && s'.bridge.inFlight == s.bridge.inFlight + {id}
      && exists r: Request :: r.requestId == id && s'.tasks == s.tasks + [r]
    else s'.bridge.inFlight == s.bridge.inFlight - {id} && s'.tasks == s.tasks
  }

  lemma {:induction false} RunKeepsOnce(s: System, actions: seq<Action>, id: Id)
    requires Once(s.bridge, id)
    ensures Once(Run(s, actions).bridge, id)
    decreases |actions|
  {
    hide Step, Once;
    if actions != [] {
      StepKeepsOnce(s, actions[0], id);
      RunKeepsOnce(Step(s, actions[0]), actions[1..], id);
    }
  }

  /** In every run, an id that is settled waits no more. */
  lemma SettledWaitsNoMore(enabled: bool, actions: seq<Action>, id: Id, connected: bool)
    ensures var s := Run(Start(enabled), actions);
            && Count(Step(s, SettleCall(id, connected)).bridge.calls, id) == 0
            && Count(Step(s, SettleUri(id, connected)).bridge.uris, id) == 0
  {
    RunKeepsOnce(Start(enabled), actions, id);
    var s := Run(Start(enabled), actions);
    SettledCall(s, id, connected, id);
    SettledUri(s, id, connected, id);
    hide Run, Step, Count;
  }

  /** What a frame asks for: its own fields, with `unknown` for a missing operation. */
  lemma RequestsAreNamed(id: Id, a: string, b: string, c: string)
    ensures RequestOf(HostToolCall(id, a, b, c)) == Some(ToolCall(id, a, b, c))
    ensures RequestOf(HostUriRequest(id, Some(a), b)) == Some(UriRequest(id, a, b))
    ensures RequestOf(HostUriRequest(id, None, b)) == Some(UriRequest(id, "unknown", b))
    ensures RequestOf(HostCancel(id)) == None && RequestOf(OtherFrame) == None
  {
  }

  // ----- whose result -------------------------------------------------------

  /** Whatever waits, is worked on or has been answered is a request that was accepted. */
  ghost predicate AllAsked(s: System) {
    forall r :: r in s.bridge.calls || r in s.bridge.uris || r in s.tasks || r in s.sent ==> r in s.asked
  }

  lemma StepKeepsAsked(s: System, a: Action)
    requires AllAsked(s)
    ensures AllAsked(Step(s, a))
  {
    forall id, r | r in Without(s.bridge.calls, IdOf, id)
      ensures r in s.bridge.calls
    {
      WithoutMembers(s.bridge.calls, IdOf, id, r);
    }
    forall id, r | r in Without(s.bridge.uris, IdOf, id)
      ensures r in s.bridge.uris
    {
      WithoutMembers(s.bridge.uris, IdOf, id, r);
    }
    hide Count, Without;
  }

  /** `a` is `b` with some requests left out. */
  predicate Among(a: seq<Request>, b: seq<Request>)
    decreases |b|
  {
    if b == [] then a == []
    else Among(a, b[..|b| - 1])
         || (a != [] && a[|a| - 1] == b[|b| - 1] && Among(a[..|a| - 1], b[..|b| - 1]))
  }

  lemma {:induction false} AmongItself(a: seq<Request>)
    ensures Among(a, a)
    decreases |a|
  {
    if a != [] {
      AmongItself(a[..|a| - 1]);
    }
  }

  lemma {:induction false} NoneAmong(b: seq<Request>)
    ensures Among([], b)
    decreases |b|
  {
    if b != [] {
      NoneAmong(b[..|b| - 1]);
    }
  }

  lemma AmongSnoc(a: seq<Request>, b: seq<Request>, r: Request)
    requires Among(a, b)
    ensures Among(a + [r], b + [r]) && Among(a, b + [r])
  {
    PartsOfJoin(a, [r]);
    PartsOfJoin(b, [r]);
  }

  lemma {:induction false} AmongJoin(a: seq<Request>, b: seq<Request>, tail: seq<Request>)
    requires Among(a, b)
    ensures Among(a + tail, b + tail)
    decreases |tail|
  {
    if tail == [] {
      JoinEmpty(a);
      JoinEmpty(b);
    } else {
      var n := |tail| - 1;
      SplitLast(tail);
      AmongJoin(a, b, tail[..n]);
      AmongSnoc(a + tail[..n], b + tail[..n], tail[n]);
      JoinAssoc(a, tail[..n], [tail[n]]);
      JoinAssoc(b, tail[..n], [tail[n]]);
    }
  }

  lemma {:induction false} AmongTransitive(a: seq<Request>, b: seq<Request>, c: seq<Request>)
    requires Among(a, b) && Among(b, c)
    ensures Among(a, c)
    decreases |b| + |c|
  {
    if c != [] {
      var c' := c[..|c| - 1];
      if Among(b, c') {
        AmongTransitive(a, b, c');
      } else {
        var b' := b[..|b| - 1];
        if Among(a, b') {
          AmongTransitive(a, b', c');
        } else {
          AmongTransitive(a[..|a| - 1], b', c');
        }
      }
    }
  }

  lemma {:induction false} WithoutAmong(s: seq<Request>, id: Id)
    ensures Among(Without(s, IdOf, id), s)
    decreases |s|
  {
    if s == [] {
    } else {
      var n := |s| - 1;
      SplitLast(s);
      WithoutAmong(s[..n], id);
      WithoutSnoc(s[..n], s[n], IdOf, id);
      AmongSnoc(Without(s[..n], IdOf, id), s[..n], s[n]);
      JoinEmpty(Without(s[..n], IdOf, id));
    }
  }

  lemma RemoveAmong(s: seq<Request>, i: nat)
    requires i < |s|
    ensures Among(RemoveAt(s, i), s)
  {
    AmongItself(s[..i]);
    AmongSnoc(s[..i], s[..i], s[i]);
    AmongJoin(s[..i], s[..i] + [s[i]], s[i + 1..]);
    SplitAround(s, i);
  }

  /** The requests that wait are in the order in which they were accepted. */
  predicate InOrder(s: System) {
    Among(s.bridge.calls, s.asked) && Among(s.bridge.uris, s.asked)
  }

  lemma StepKeepsOrder(s: System, a: Action)
    requires InOrder(s)
    ensures InOrder(Step(s, a))
  {
    match a {
      case Arrive(f) => ArriveKeepsOrder(s, f);
      case SettleCall(id, _) =>
        var i := Position(s.bridge.calls, id);
        if i < |s.bridge.calls| {
          RemoveAmong(s.bridge.calls, i);
          AmongTransitive(RemoveAt(s.bridge.calls, i), s.bridge.calls, s.asked);
        }
        hide Among, RemoveAt;
      case SettleUri(id, _) =>
        var i := Position(s.bridge.uris, id);
        if i < |s.bridge.uris| {
          RemoveAmong(s.bridge.uris, i);
          AmongTransitive(RemoveAt(s.bridge.uris, i), s.bridge.uris, s.asked);
        }
        hide Among, RemoveAt;
      case Done(_) => hide Among, RemoveAt;
      case ResetAll => NoneAmong(s.asked);
    }
  }

  lemma ArriveKeepsOrder(s: System, f: Frame)
    requires InOrder(s)
    ensures InOrder(Step(s, Arrive(f)))
  {
    if Accepts(s.bridge, f) {
      AmongSnoc(s.bridge.calls, s.asked, RequestOf(f).value);
      AmongSnoc(s.bridge.uris, s.asked, RequestOf(f).value);
    } else if f.HostCancel? {
      WithoutAmong(s.bridge.calls, f.targetId);
      WithoutAmong(s.bridge.uris, f.targetId);
      AmongTransitive(Without(s.bridge.calls, IdOf, f.targetId), s.bridge.calls, s.asked);
      AmongTransitive(Without(s.bridge.uris, IdOf, f.targetId), s.bridge.uris, s.asked);
    }
    hide Among, Count, Without;
  }

  /** In every run the waiting calls and the waiting URI requests are listed in the order in
      which they were accepted. */
  lemma {:induction false} RunKeepsOrder(s: System, actions: seq<Action>)
    requires InOrder(s)
    ensures InOrder(Run(s, actions))
    decreases |actions|
  {
    hide Step, InOrder;
    if actions != [] {
      StepKeepsOrder(s, actions[0]);
      RunKeepsOrder(Step(s, actions[0]), actions[1..]);
    }
  }

  /** Some frame of the run made this request. */
  ghost predicate Came(actions: seq<Action>, r: Request) {
    exists i :: 0 <= i < |actions| && actions[i].Arrive? && RequestOf(actions[i].frame) == Some(r)
  }

  lemma {:induction false} RunKeepsAsked(s: System, actions: seq<Action>)
    requires AllAsked(s)
    ensures var e := Run(s, actions);
            AllAsked(e) && forall r :: r in e.asked ==> r in s.asked || Came(actions, r)
    decreases |actions|
  {
    if actions != [] {
      var s' := Step(s, actions[0]);
      StepKeepsAsked(s, actions[0]);
      assert forall r :: r in s'.asked ==> r in s.asked || Came(actions, r);
      hide Step, AllAsked;
      RunKeepsAsked(s', actions[1..]);
      forall r | Came(actions[1..], r)
        ensures Came(actions, r)
      {
        var i :| 0 <= i < |actions| - 1 && actions[1..][i].Arrive? && RequestOf(actions[1..][i].frame) == Some(r);
        assert actions[i + 1] == actions[1..][i];
      }
    }
  }

  /** Every result answers a request just as a frame made it. */
  lemma SentWasRequested(enabled: bool, actions: seq<Action>, r: Request)
    requires r in Run(Start(enabled), actions).sent
    ensures Came(actions, r)
  {
    RunKeepsAsked(Start(enabled), actions);
    hide Run, Came;
  }

  lemma CallArrives(s: System, f: Frame)
    requires f.HostToolCall? && s.bridge == Bridge(true, [], [], {})
    ensures Step(s, Arrive(f)) == s.(bridge := Bridge(true, [RequestOf(f).value], [], {}),
                                     asked := s.asked + [RequestOf(f).value])
  {
  }

  lemma CallSettles(s: System, r: Request)
    requires s.bridge == Bridge(true, [r], [], {})
    ensures Step(s, SettleCall(r.requestId, true)) ==
            s.(bridge := Bridge(true, [], [], {r.requestId}), tasks := s.tasks + [r])
  {
    assert RemoveAt([r], 0) == [];
  }

  lemma TaskAnswers(s: System, r: Request, rest: seq<Request>)
    requires s.tasks == [r] + rest
    ensures Step(s, Done(0)) == s.(bridge := FinishInFlight(s.bridge, r.requestId), tasks := rest,
                                   sent := if r.requestId in s.bridge.inFlight then s.sent + [r] else s.sent)
  {
    assert RemoveAt([r] + rest, 0) == rest;
  }

  /** An id that is used again after a cancel gets the result of the request it had before:
      the first task finds the id in flight and answers, and the second finds it gone. */
  lemma ReusedIdGetsOldResult(before: Frame, after: Frame)
    requires before.HostToolCall? && after.HostToolCall? && before.id == after.id
    ensures var settle := SettleCall(before.id, true);
            var s := Step(Step(Start(true), Arrive(before)), settle);
            var cancelled := Step(s, Arrive(HostCancel(before.id)));
            var again := Step(Step(cancelled, Arrive(after)), settle);
            var e := Step(Step(again, Done(0)), Done(0));
            e.sent == [RequestOf(before).value] && e.tasks == [] && e.bridge.inFlight == {}
  {
    var a, b := RequestOf(before).value, RequestOf(after).value;
    var settle := SettleCall(before.id, true);
    var s1 := Step(Start(true), Arrive(before));
    CallArrives(Start(true), before);
    CallSettles(s1, a);
    var s3 := Step(Step(s1, settle), Arrive(HostCancel(before.id)));
    assert s3.bridge == Bridge(true, [], [], {}) && s3.tasks == [a] && s3.sent == [];
    hide Step;
    CallArrives(s3, after);
    var s4 := Step(s3, Arrive(after));
    CallSettles(s4, b);
    var s5 := Step(s4, settle);
    TaskAnswers(s5, a, [b]);
    JoinEmpty([b]);
    TaskAnswers(Step(s5, Done(0)), b, []);
  }

  lemma RunOne(s: System, actions: seq<Action>, k: nat)
    requires k < |actions|
    ensures Run(s, actions[k..]) == Run(Step(s, actions[k]), actions[k + 1..])
  {
    assert actions[k..][1..] == actions[k + 1..];
    hide Step;
  }

  /** A call and a URI request may wait under one id. */
  lemma CallAndUriShareId()
    ensures Live(Run(Start(true), [Arrive(HostToolCall("1", "", "t", "")),
                                   Arrive(HostUriRequest("1", None, "u"))]).bridge, "1") == 2
  {
    var f, g := HostToolCall("1", "", "t", ""), HostUriRequest("1", None, "u");
    var actions := [Arrive(f), Arrive(g)];
    var s1 := Step(Start(true), actions[0]);
    assert s1.bridge == Bridge(true, [RequestOf(f).value], [], {});
    var s2 := Step(s1, actions[1]);
    assert s2.bridge == Bridge(true, [RequestOf(f).value], [RequestOf(g).value], {});
    RunOne(Start(true), actions, 0);
    RunOne(s1, actions, 1);
    assert actions[0..] == actions && actions[2..] == [];
    hide Step;
  }

  // ----- when an id is used again -------------------------------------------

  lemma {:induction false} SentGrows(s: System, actions: seq<Action>)
    ensures s.sent <= Run(s, actions).sent
    decreases |actions|
  {
    if actions != [] {
      StepSends(s, actions[0]);
      hide Step;
      SentGrows(Step(s, actions[0]), actions[1..]);
    }
  }

  lemma StepSends(s: System, a: Action)
    ensures s.sent <= Step(s, a).sent
  {
    hide Count, Without, RemoveAt;
  }

  /** The result of this request is sent in the course of the actions. */
  ghost predicate SendsResult(s: System, actions: seq<Action>, r: Request) {
    s.sent <= Run(s, actions).sent && r in Run(s, actions).sent[|s.sent|..]
  }

  lemma {:induction false} CountMember(s: seq<Request>, r: Request)
    requires r in s
    ensures Count(s, r.requestId) > 0
  {
    if s[0] != r {
      CountMember(s[1..], r);
    }
  }

  lemma SilentSendsNothing(s: System, actions: seq<Action>, r: Request)
    requires Live(s.bridge, r.requestId) == 0 && Asks(actions, r.requestId) == 0
    ensures !SendsResult(s, actions, r)
  {
    var e, id := Run(s, actions), r.requestId;
    DeadStaysSilent(s, actions, id);
    SentGrows(s, actions);
    hide Run, Asks, Live;
    var later := e.sent[|s.sent|..];
    assert e.sent == s.sent + later;
    CountJoin(s.sent, later, id);
    if r in later {
      CountMember(later, r);
      assert false;
    }
  }

  lemma {:induction false} PositionAtEnd(s: seq<Request>, q: Request)
    requires Count(s, q.requestId) == 0
    ensures Position(s + [q], q.requestId) == |s|
  {
    if s != [] {
      PositionAtEnd(s[1..], q);
      assert (s + [q])[1..] == s[1..] + [q];
    }
  }

  /** A peer that uses the id again, a user who settles the new call, and the old task. */
  function Reuse(id: Id, task: nat): seq<Action> {
    [Arrive(HostToolCall(id, "", "", "")), SettleCall(id, true), Done(task)]
  }

  lemma NewCallSettles(s: System, id: Id)
    requires s.bridge.enabled && Live(s.bridge, id) == 0
    ensures var q := ToolCall(id, "", "", "");
            var t := Step(Step(s, Arrive(HostToolCall(id, "", "", ""))), SettleCall(id, true));
            t.tasks == s.tasks + [q] && id in t.bridge.inFlight && t.sent == s.sent
  {
    var q := ToolCall(id, "", "", "");
    PositionAtEnd(s.bridge.calls, q);
    hide Position, RemoveAt;
    var s1 := Step(s, Arrive(HostToolCall(id, "", "", "")));
    assert s1.bridge.calls == s.bridge.calls + [q] && s1.tasks == s.tasks && s1.sent == s.sent;
  }

  lemma ReuseSendsOld(s: System, k: nat)
    requires s.bridge.enabled && k < |s.tasks| && Live(s.bridge, s.tasks[k].requestId) == 0
    ensures SendsResult(s, Reuse(s.tasks[k].requestId, k), s.tasks[k])
    ensures Asks(Reuse(s.tasks[k].requestId, k), s.tasks[k].requestId) == 1
  {
    var r := s.tasks[k];
    var id := r.requestId;
    var actions := Reuse(id, k);
    ReuseAsks(id, k);
    NewCallSettles(s, id);
    hide Count, Asks, Live;
    var s1 := Step(s, actions[0]);
    var s2 := Step(s1, actions[1]);
    var s3 := Step(s2, actions[2]);
    assert s2.tasks[k] == r;
    assert s3.sent == s.sent + [r];
    hide Step;
    RunThree(s, actions);
    assert s3.sent[|s.sent|..] == [r];
  }

  lemma ReuseAsks(id: Id, k: nat)
    ensures Asks(Reuse(id, k), id) == 1
  {
    var actions := Reuse(id, k);
    var two, one := [SettleCall(id, true), Done(k)], [Done(k)];
    assert actions[1..] == two && two[1..] == one && one[1..] == [];
    assert Asks(one, id) == 0;
    assert Asks(two, id) == 0;
  }

  lemma RunThree(s: System, actions: seq<Action>)
    requires |actions| == 3
    ensures Run(s, actions) == Step(Step(Step(s, actions[0]), actions[1]), actions[2])
  {
    RunOne(s, actions, 0);
    RunOne(Step(s, actions[0]), actions, 1);
    RunOne(Step(Step(s, actions[0]), actions[1]), actions, 2);
    assert actions[0..] == actions && actions[3..] == [];
    hide Step;
  }

  /** A bridge with a task under way was enabled all along. */
  lemma TasksNeedEnabled(enabled: bool, before: seq<Action>, r: Request)
    requires r in Run(Start(enabled), before).tasks
    ensures enabled && Run(Start(enabled), before).bridge.enabled
  {
    RunKeepsAsked(Start(enabled), before);
    StaysEnabled(Start(enabled), before);
    if !enabled {
      DisabledAsksNothing(Start(enabled), before);
    }
    hide Run;
  }

  /** In every run, when a cancel or a reset comes while a task is under way, some further
      run with at most `n` more requests for its id sends the task's result exactly when
      there can be one: the peer that does not use an id again, and no other, is safe. */
  lemma OldResultExactly(enabled: bool, before: seq<Action>, r: Request, end: Action, n: nat)
    requires r in Run(Start(enabled), before).tasks
    requires end == Arrive(HostCancel(r.requestId)) || end == ResetAll
    ensures var s := Step(Run(Start(enabled), before), end);
            (exists rest :: Asks(rest, r.requestId) <= n && SendsResult(s, rest, r)) <==> n > 0
  {
    var s0 := Run(Start(enabled), before);
    var s, id := Step(s0, end), r.requestId;
    TasksNeedEnabled(enabled, before, r);
    if end.ResetAll? {
      ResetEnds(s0, id);
    } else {
      CancelEnds(enabled, before, id);
    }
    assert s.tasks == s0.tasks && s.bridge.enabled;
    hide Run, Step, Live, Asks, SendsResult;
    if n > 0 {
      var k :| 0 <= k < |s.tasks| && s.tasks[k] == r;
      ReuseSendsOld(s, k);
    } else {
      forall rest | Asks(rest, id) <= n
        ensures !SendsResult(s, rest, r)
      {
        SilentSendsNothing(s, rest, r);
      }
    }
  }

  // ----- the program --------------------------------------------------------

  method PositionOf(s: seq<Request>, id: Id) returns (index: nat)
    ensures index == Position(s, id) && (index < |s| <==> Count(s, id) > 0)
  {
    PositionExactly(s, id);
    hide Count;
    index := 0;
    assert s[0..] == s;
    while index < |s| && s[index].requestId != id
      invariant index <= |s| && index + Position(s[index..], id) == Position(s, id)
    {
      assert s[index..][0] == s[index] && s[index..][1..] == s[index + 1..];
      index := index + 1;
    }
    assert index < |s| ==> s[index..][0] == s[index];
  }

  class HostBridgeState {
    var enabled: bool
    var pendingCalls: seq<Request>
    var pendingUriRequests: seq<Request>
    var inFlight: set<Id>

    constructor (on: bool)
      ensures State() == Bridge(on, [], [], {})
    {
      enabled, pendingCalls, pendingUriRequests, inFlight := on, [], [], {};
    }

    function State(): Bridge
      reads this
    {
      Bridge(enabled, pendingCalls, pendingUriRequests, inFlight)
    }

    method Clear()
      modifies this
      ensures State() == Reset(old(State()))
    {
      pendingCalls, pendingUriRequests, inFlight := [], [], {};
    }

    /** `observe_frame`: a request is listed unless it is a repetition; a cancel removes its
        target wherever it is. */
    method Observe(frame: Frame)
      modifies this
      ensures State() == ObserveFrame(old(State()), frame)
      ensures forall id :: Live(State(), id)
                           == if enabled && frame == HostCancel(id) then 0
                              else old(Live(State(), id))
                                   + (if old(Accepts(State(), frame)) && frame.id == id then 1 else 0)
    {
      forall id {
        ObserveCounts(State(), frame, id);
      }
      hide Count, Without, Live;
      if !enabled {
        return;
      }
      match frame {
        case HostToolCall(id, toolCallId, toolName, arguments) =>
          var index := PositionOf(pendingCalls, id);
          if index < |pendingCalls| || id in inFlight {
            return;
          }
          pendingCalls := pendingCalls + [ToolCall(id, toolCallId, toolName, arguments)];
        case HostUriRequest(id, rawOperation, url) =>
          var index := PositionOf(pendingUriRequests, id);
          if index < |pendingUriRequests| || id in inFlight {
            return;
          }
          var operation := if rawOperation.Some? then rawOperation.value else "unknown";
          pendingUriRequests := pendingUriRequests + [UriRequest(id, operation, url)];
        case HostCancel(targetId) =>
          Cancel(targetId);
        case OtherFrame =>
      }
    }

    /** `cancel_target`. */
    method Cancel(targetId: Id)
      modifies this`pendingCalls, this`pendingUriRequests, this`inFlight
      ensures State() == CancelTarget(old(State()), targetId) && Live(State(), targetId) == 0
      ensures forall id :: id != targetId ==> Live(State(), id) == old(Live(State(), id))
    {
      forall id
        ensures Live(CancelTarget(State(), targetId), id) == if id == targetId then 0 else Live(State(), id)
      {
        CancelCounts(State(), targetId, id);
      }
      hide Count, Live;
      pendingCalls := RetainOthers(pendingCalls, IdOf, targetId);
      pendingUriRequests := RetainOthers(pendingUriRequests, IdOf, targetId);
      inFlight := inFlight - {targetId};
    }

    method TakeCall(requestId: Id) returns (call: Option<Request>)
      modifies this`pendingCalls, this`inFlight
      ensures (State(), call) == TakePending(old(State()), requestId)
      ensures call.Some? <==> old(Count(pendingCalls, requestId)) > 0
      ensures call.Some? ==> call.value.requestId == requestId && requestId in inFlight
    {
      hide Count;
      call := None;
      var index := PositionOf(pendingCalls, requestId);
      if index < |pendingCalls| {
        call := Some(pendingCalls[index]);
        pendingCalls := pendingCalls[..index] + pendingCalls[index + 1..];
        inFlight := inFlight + {requestId};
      }
    }

    method TakeUri(requestId: Id) returns (request: Option<Request>)
      modifies this`pendingUriRequests, this`inFlight
      ensures (State(), request) == TakePendingUri(old(State()), requestId)
      ensures request.Some? <==> old(Count(pendingUriRequests, requestId)) > 0
      ensures request.Some? ==> request.value.requestId == requestId && requestId in inFlight
    {
      hide Count;
      request := None;
      var index := PositionOf(pendingUriRequests, requestId);
      if index < |pendingUriRequests| {
        request := Some(pendingUriRequests[index]);
        pendingUriRequests := pendingUriRequests[..index] + pendingUriRequests[index + 1..];
        inFlight := inFlight + {requestId};
      }
    }

    /** `finish_in_flight`: whether the id was still in flight, which it no longer is. */
    method Finish(requestId: Id) returns (removed: bool)
      modifies this`inFlight
      ensures State() == FinishInFlight(old(State()), requestId)
      ensures removed <==> requestId in old(inFlight)
    {
      removed := requestId in inFlight;
      inFlight := inFlight - {requestId};
    }
  }
}
