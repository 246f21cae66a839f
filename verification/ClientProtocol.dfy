/** Request correlation as interleaved steps of callers, the frame reader, the writer and
    the closing tasks. Each action is one critical section or one uninterrupted stretch of
    the program; any order in which the actions are enabled is a run. */
module ClientProtocol {
  import opened Wrappers

  type Id = nat

  /** A logical frame, numbered in the order of routing; `id` is that of a response. */
  datatype Frame = Frame(serial: nat, id: Option<Id>)

  datatype Outcome = Response(frame: Frame) | ChildDied | Timeout

  /** Where a call of `send` stands. `Removing` has decided its outcome but not yet taken its
      entry out of the pending map; `Cancelled` was dropped by its caller. */
  datatype Phase =
    | Enqueue
    | Waiting
    | Removing(outcome: Outcome)
    | Done(outcome: Outcome)
    | Cancelled

  datatype Event = Delivered(frame: Frame) | Closed

  /** `pending` holds the ids whose sender is still in the map; `slot` what was put into a
      one-shot slot; `reader` a frame that the reader is about to send as an event. */
  datatype Client = Client(
    pending: set<Id>,
    phase: map<Id, Phase>,
    slot: map<Id, Frame>,
    reader: Option<Frame>,
    routed: nat,
    events: seq<Event>,
    dropped: set<nat>,
    closed: bool,
    finished: bool,
    writerGone: bool)

  const INITIAL := Client({}, map[], map[], None, 0, [], {}, false, false, false)

  datatype Action =
    | Begin(id: Id)
    | EnqueueOk(id: Id)
    | EnqueueFail(id: Id)
    | Receive(id: Id)
    | TimeOut(id: Id)
    | SenderGone(id: Id)
    | Remove(id: Id)
    | Cancel(id: Id)
    | Route(target: Option<Id>)
    | SendEvent
    | WriterStops
    | CloseEnter
    | CloseFinish

  predicate InPhase(s: Client, id: Id, p: Phase) {
    id in s.phase && s.phase[id] == p
  }

  function To(s: Client, id: Id, p: Phase): Client {
    s.(phase := s.phase[id := p])
  }

  predicate Deciding(p: Phase) {
    p == Enqueue || p == Waiting || p.Removing?
  }

  /** When an action can happen. Ids are never reused, and the reader routes one frame at a
      time. The receive side is polled before the timer, but a response can come, or the
      sender go, between the two polls or while the receive side fetches its error, so a
      timeout can win at any point of the wait. */
  predicate Enabled(s: Client, a: Action) {
    match a
    case Begin(id) => id !in s.phase
    case EnqueueOk(id) => InPhase(s, id, Enqueue) && !s.writerGone
    case EnqueueFail(id) => InPhase(s, id, Enqueue) && s.writerGone
    case Receive(id) => InPhase(s, id, Waiting) && id in s.slot
    case TimeOut(id) => InPhase(s, id, Waiting)
    case SenderGone(id) => InPhase(s, id, Waiting) && id !in s.slot && id !in s.pending
    case Remove(id) => id in s.phase && s.phase[id].Removing?
    case Cancel(id) => id in s.phase && Deciding(s.phase[id])
    case Route(_) => s.reader == None
    case SendEvent => s.reader.Some?
    case WriterStops => true
    case CloseEnter => true
    case CloseFinish => s.closed && !s.finished
  }

  /** `route_frame` up to the release of the pending lock. */
  function RouteFrame(s: Client, f: Frame): Client {
    var s1 := s.(routed := s.routed + 1);
    if f.id.Some? && f.id.value in s.pending then
      var id := f.id.value;
      var s2 := s1.(pending := s.pending - {id});
      if InPhase(s, id, Cancelled) then s2.(reader := Some(f)) else s2.(slot := s.slot[id := f])
    else s1.(reader := Some(f))
  }

  function Next(s: Client, a: Action): Client
    requires Enabled(s, a)
  {
    match a
    case Begin(id) =>
      if s.closed then To(s, id, Done(ChildDied))
      else To(s, id, Enqueue).(pending := s.pending + {id})
    case EnqueueOk(id) => To(s, id, Waiting)
    case EnqueueFail(id) => To(s, id, Removing(ChildDied))
    case Receive(id) => To(s, id, Done(Response(s.slot[id])))
    case TimeOut(id) => To(s, id, Removing(Timeout))
    case SenderGone(id) => To(s, id, Removing(ChildDied))
    case Remove(id) => To(s, id, Done(s.phase[id].outcome)).(pending := s.pending - {id})
    case Cancel(id) => To(s, id, Cancelled)
    case Route(target) => RouteFrame(s, Frame(s.routed, target))
    case SendEvent =>
      if s.finished then s.(reader := None, dropped := s.dropped + {s.reader.value.serial})
      else s.(reader := None, events := s.events + [Delivered(s.reader.value)])
    case WriterStops => s.(writerGone := true)
    case CloseEnter => if s.closed then s else s.(closed := true, pending := {})
    case CloseFinish => s.(events := s.events + [Closed], finished := true, writerGone := true)
  }

  /** `s` leads to `t` by the actions `run`. */
  ghost predicate Reaches(s: Client, run: seq<Action>, t: Client)
    decreases |run|
  {
    if run == [] then s == t
    else Enabled(s, run[0]) && Reaches(Next(s, run[0]), run[1..], t)
  }

  ghost predicate Reachable(s: Client) {
    exists run :: Reaches(INITIAL, run, s)
  }

  // ----- invariants ---------------------------------------------------------

  /** Nothing is pending after close, and only calls that still run or were cancelled own an
      entry. */
  ghost predicate PendingSound(s: Client) {
    && (s.closed ==> s.pending == {})
    && forall id :: id in s.pending ==>
         id in s.phase && (Deciding(s.phase[id]) || s.phase[id] == Cancelled) && id !in s.slot
  }

  /** A slot holds a response to its own id, for a call that registered; the only response a
      call returns is the one in its slot. */
  ghost predicate SlotsSound(s: Client) {
    && (forall id :: id in s.slot ==> id in s.phase && s.slot[id].id == Some(id))
    && forall id :: id in s.phase ==>
         && (s.phase[id].Done? && s.phase[id].outcome.Response? ==>
               id in s.slot && s.phase[id].outcome == Response(s.slot[id]))
         && (s.phase[id].Removing? ==> !s.phase[id].outcome.Response?)
  }

  /** `Closed` is sent once, by the task that closed, and is the last event. */
  ghost predicate EventsSound(s: Client) {
    && (s.finished ==> s.closed && s.writerGone && s.events != [] && s.events[|s.events| - 1] == Closed)
    && forall k :: 0 <= k < |s.events| && s.events[k] == Closed ==> s.finished && k == |s.events| - 1
  }

  ghost predicate Slotted(s: Client, n: nat) {
    exists id :: id in s.slot && s.slot[id].serial == n
  }

  ghost predicate Sent(s: Client, n: nat) {
    exists k :: 0 <= k < |s.events| && s.events[k].Delivered? && s.events[k].frame.serial == n
  }

  predicate Held(s: Client, n: nat) {
    s.reader.Some? && s.reader.value.serial == n
  }

  function Bit(b: bool): nat {
    if b then 1 else 0
  }

  /** In how many places the frame with number `n` is. */
  ghost function Places(s: Client, n: nat): nat {
    Bit(Slotted(s, n)) + Bit(Sent(s, n)) + Bit(Held(s, n)) + Bit(n in s.dropped)
  }

  /** Every routed frame is in exactly one place, and no other number is in any. */
  ghost predicate Conserved(s: Client) {
    && (forall n: nat :: n < s.routed ==> Places(s, n) == 1)
    && (forall n: nat :: n >= s.routed ==> Places(s, n) == 0)
    && (s.dropped != {} ==> s.finished)
  }

  /** No frame is in two slots, nor twice among the events. */
  ghost predicate Distinct(s: Client) {
    && (forall i, j :: i in s.slot && j in s.slot && s.slot[i].serial == s.slot[j].serial ==> i == j)
    && (forall i, j :: 0 <= i < j < |s.events| && s.events[i].Delivered? && s.events[j].Delivered? ==>
          s.events[i].frame.serial != s.events[j].frame.serial)
  }

  // ----- every action keeps them --------------------------------------------

  lemma PendingKept(s: Client, a: Action)
    requires PendingSound(s) && SlotsSound(s) && Enabled(s, a)
    ensures PendingSound(Next(s, a))
  {
    match a {
      case Begin(id) => BeginKeepsPending(s, id);
      case Route(target) => RouteKeepsPending(s, target);
      case Remove(id) => RemoveKeepsPending(s, id);
      case _ =>
    }
  }

  lemma BeginKeepsPending(s: Client, id: Id)
    requires PendingSound(s) && SlotsSound(s) && Enabled(s, Begin(id))
    ensures PendingSound(Next(s, Begin(id)))
  {
  }

  lemma RouteKeepsPending(s: Client, target: Option<Id>)
    requires PendingSound(s) && Enabled(s, Route(target))
    ensures PendingSound(Next(s, Route(target)))
  {
  }

  lemma RemoveKeepsPending(s: Client, id: Id)
    requires PendingSound(s) && Enabled(s, Remove(id))
    ensures PendingSound(Next(s, Remove(id)))
  {
  }

  lemma SlotsKept(s: Client, a: Action)
    requires PendingSound(s) && SlotsSound(s) && Enabled(s, a)
    ensures SlotsSound(Next(s, a))
  {
    match a {
      case Route(target) => RouteKeepsSlots(s, target);
      case Begin(id) => BeginKeepsSlots(s, id);
      case Receive(id) => ReceiveKeepsSlots(s, id);
      case Remove(id) => RemoveKeepsSlots(s, id);
      case _ => OthersKeepSlots(s, a);
    }
    hide PendingSound, SlotsSound, Next;
  }

  lemma BeginKeepsSlots(s: Client, id: Id)
    requires SlotsSound(s) && Enabled(s, Begin(id))
    ensures SlotsSound(Next(s, Begin(id)))
  {
  }

  lemma ReceiveKeepsSlots(s: Client, id: Id)
    requires SlotsSound(s) && Enabled(s, Receive(id))
    ensures SlotsSound(Next(s, Receive(id)))
  {
  }

  lemma RemoveKeepsSlots(s: Client, id: Id)
    requires SlotsSound(s) && Enabled(s, Remove(id))
    ensures SlotsSound(Next(s, Remove(id)))
  {
  }

  lemma OthersKeepSlots(s: Client, a: Action)
    requires SlotsSound(s) && Enabled(s, a)
    requires !a.Route? && !a.Begin? && !a.Receive? && !a.Remove?
    ensures SlotsSound(Next(s, a))
  {
    assert Next(s, a).slot == s.slot;
  }

  lemma RouteKeepsSlots(s: Client, target: Option<Id>)
    requires PendingSound(s) && SlotsSound(s) && s.reader == None
    ensures SlotsSound(Next(s, Route(target)))
  {
  }

  lemma EventsKept(s: Client, a: Action)
    requires EventsSound(s) && Enabled(s, a)
    ensures EventsSound(Next(s, a))
  {
    var t := Next(s, a);
    if !a.SendEvent? && !a.CloseFinish? {
      assert t.events == s.events;
    }
  }

  /** The places of frames depend on four fields only. */
  predicate SamePlaces(s: Client, t: Client) {
    s.slot == t.slot && s.events == t.events && s.reader == t.reader && s.dropped == t.dropped
  }

  lemma RouteKeepsFrames(s: Client, target: Option<Id>)
    requires PendingSound(s) && Conserved(s) && Distinct(s) && s.reader == None
    ensures Conserved(Next(s, Route(target))) && Distinct(Next(s, Route(target)))
  {
    var t := Next(s, Route(target));
    var f := Frame(s.routed, target);
    assert t.reader == Some(f) ==> t == s.(routed := t.routed, reader := t.reader, pending := t.pending);
    assert t.reader != Some(f) ==> target.value !in s.slot;
    assert t.reader != Some(f) ==>
             t == s.(routed := t.routed, slot := s.slot[target.value := f], pending := t.pending);
    hide PendingSound, Next, Conserved, Distinct;
    if t.reader == Some(f) {
      ReaderHolds(s, t, f);
    } else {
      SlotAdded(s, t, target.value, f);
    }
  }

  lemma ReaderHolds(s: Client, t: Client, f: Frame)
    requires Conserved(s) && Distinct(s) && s.reader == None && t.reader == Some(f)
    requires f.serial == s.routed && t.routed == s.routed + 1
    requires t.slot == s.slot && t.events == s.events && t.dropped == s.dropped && t.finished == s.finished
    ensures Conserved(t) && Distinct(t)
  {
    assert Places(s, s.routed) == 0;
    forall n: nat
      ensures Places(t, n) == Places(s, n) + Bit(n == s.routed)
    {
      assert Slotted(t, n) <==> Slotted(s, n);
      assert Sent(t, n) <==> Sent(s, n);
    }
  }

  lemma SlotAdded(s: Client, t: Client, id: Id, f: Frame)
    requires Conserved(s) && Distinct(s) && id !in s.slot
    requires t.slot == s.slot[id := f] && f.serial == s.routed && t.routed == s.routed + 1
    requires t.events == s.events && t.reader == s.reader && t.dropped == s.dropped && t.finished == s.finished
    ensures Conserved(t) && Distinct(t)
  {
    assert Places(s, s.routed) == 0;
    forall n: nat
      ensures Places(t, n) == Places(s, n) + Bit(n == s.routed)
    {
      assert t.slot[id].serial == s.routed;
      assert forall i :: i in s.slot ==> t.slot[i] == s.slot[i];
      assert Slotted(t, n) <==> Slotted(s, n) || n == s.routed;
      assert Sent(t, n) <==> Sent(s, n);
    }
    assert !Slotted(s, s.routed);
  }

  lemma SendKeepsFrames(s: Client)
    requires Conserved(s) && Distinct(s) && s.reader.Some?
    ensures Conserved(Next(s, SendEvent)) && Distinct(Next(s, SendEvent))
  {
    var t, m := Next(s, SendEvent), s.reader.value.serial;
    assert Held(s, m);
    assert m < s.routed && !Sent(s, m) && !Slotted(s, m) && m !in s.dropped by {
      assert Places(s, m) >= 1;
    }
    forall n: nat
      ensures Places(t, n) == Places(s, n)
    {
      assert Slotted(t, n) <==> Slotted(s, n);
      if s.finished {
        assert Sent(t, n) <==> Sent(s, n);
      } else {
        SentGrows(s, t, Delivered(s.reader.value), n);
      }
    }
  }

  lemma SentGrows(s: Client, t: Client, e: Event, n: nat)
    requires t.events == s.events + [e]
    ensures Sent(t, n) <==> Sent(s, n) || (e.Delivered? && e.frame.serial == n)
  {
    assert t.events[|s.events|] == e;
    assert forall k :: 0 <= k < |s.events| ==> t.events[k] == s.events[k];
  }

  lemma FinishKeepsFrames(s: Client)
    requires Conserved(s) && Distinct(s) && Enabled(s, CloseFinish)
    ensures Conserved(Next(s, CloseFinish)) && Distinct(Next(s, CloseFinish))
  {
    var t := Next(s, CloseFinish);
    forall n: nat
      ensures Places(t, n) == Places(s, n)
    {
      assert Slotted(t, n) <==> Slotted(s, n);
      SentGrows(s, t, Closed, n);
    }
  }

  lemma FramesKept(s: Client, a: Action)
    requires PendingSound(s) && Conserved(s) && Distinct(s) && Enabled(s, a)
    ensures Conserved(Next(s, a)) && Distinct(Next(s, a))
  {
    match a {
      case Route(target) => RouteKeepsFrames(s, target);
      case SendEvent => SendKeepsFrames(s);
      case CloseFinish => FinishKeepsFrames(s);
      case _ =>
        OtherActionsMoveNothing(s, a);
        var t := Next(s, a);
        hide Next, Enabled, PendingSound;
        UnmovedKeepsFrames(s, t);
    }
  }

  lemma OtherActionsMoveNothing(s: Client, a: Action)
    requires Enabled(s, a) && !a.Route? && !a.SendEvent? && !a.CloseFinish?
    ensures SamePlaces(s, Next(s, a))
    ensures Next(s, a).routed == s.routed && Next(s, a).finished == s.finished
  {
  }

  lemma UnmovedKeepsFrames(s: Client, t: Client)
    requires Conserved(s) && Distinct(s) && SamePlaces(s, t)
    requires t.routed == s.routed && t.finished == s.finished
    ensures Conserved(t) && Distinct(t)
  {
    forall n: nat
      ensures Places(t, n) == Places(s, n)
    {
      assert Slotted(t, n) <==> Slotted(s, n);
      assert Sent(t, n) <==> Sent(s, n);
    }
  }

  ghost predicate Sound(s: Client) {
    PendingSound(s) && SlotsSound(s) && EventsSound(s) && Conserved(s) && Distinct(s)
  }

  lemma StepKeepsSound(s: Client, a: Action)
    requires Sound(s) && Enabled(s, a)
    ensures Sound(Next(s, a))
  {
    PendingKept(s, a);
    SlotsKept(s, a);
    EventsKept(s, a);
    FramesKept(s, a);
  }

  lemma {:induction false} RunKeepsSound(s: Client, run: seq<Action>, t: Client)
    requires Sound(s) && Reaches(s, run, t)
    ensures Sound(t)
    decreases |run|
  {
    if run != [] {
      StepKeepsSound(s, run[0]);
      RunKeepsSound(Next(s, run[0]), run[1..], t);
    }
  }

  lemma InitialSound()
    ensures Sound(INITIAL)
  {
    forall n: nat
      ensures Places(INITIAL, n) == 0
    {
      assert !Slotted(INITIAL, n) && !Sent(INITIAL, n);
    }
  }

  /** Every state of every run is sound. */
  lemma ReachableSound(s: Client)
    requires Reachable(s)
    ensures Sound(s)
  {
    InitialSound();
    var run :| Reaches(INITIAL, run, s);
    RunKeepsSound(INITIAL, run, s);
  }

  // ----- what follows for runs ----------------------------------------------

  /** What later states keep of earlier ones: close is final, an outcome is final, a slot
      and the sent events are never taken back. */
  ghost predicate Grows(s: Client, t: Client) {
    && (s.closed ==> t.closed) && (s.finished ==> t.finished && t.events == s.events)
    && s.events <= t.events
    && (forall id :: id in s.phase ==> id in t.phase)
    && (forall id :: id in s.phase && s.phase[id].Done? ==> t.phase[id] == s.phase[id])
    && (forall id :: id in s.slot ==> id in t.slot && t.slot[id] == s.slot[id])
  }

  lemma StepGrows(s: Client, a: Action)
    requires Sound(s) && Enabled(s, a)
    ensures Grows(s, Next(s, a))
  {
    hide Conserved, Distinct, SlotsSound;
  }

  /** In every run: once closed the pending map is and stays empty, a call never gets a
      second outcome, and nothing follows `Closed`. */
  lemma {:induction false} RunGrows(s: Client, run: seq<Action>, t: Client)
    requires Sound(s) && Reaches(s, run, t)
    ensures Grows(s, t)
    ensures s.closed ==> t.pending == {}
    decreases |run|
  {
    if run == [] {
    } else {
      var s' := Next(s, run[0]);
      StepKeepsSound(s, run[0]);
      StepGrows(s, run[0]);
      hide Next, Conserved, Distinct, SlotsSound;
      RunGrows(s', run[1..], t);
    }
  }

  ghost function CountClosed(events: seq<Event>): nat {
    if events == [] then 0 else Bit(events[0] == Closed) + CountClosed(events[1..])
  }

  lemma {:induction false} ClosedCount(events: seq<Event>, closed: bool)
    requires closed ==> events != [] && events[|events| - 1] == Closed
    requires forall k :: 0 <= k < |events| && events[k] == Closed ==> closed && k == |events| - 1
    ensures CountClosed(events) == Bit(closed)
    decreases |events|
  {
    if |events| > 1 {
      ClosedCount(events[1..], closed);
    }
  }

  /** The events of every reachable state: frames, and one `Closed` after them once closing
      has finished; every response sits in the slot of the call that registered its id, or
      is an event, never both. */
  lemma EventsAndSlots(s: Client)
    requires Reachable(s)
    ensures CountClosed(s.events) == Bit(s.finished)
    ensures s.finished ==> s.events[|s.events| - 1] == Closed
    ensures forall id :: id in s.slot ==> s.slot[id].id == Some(id) && !Sent(s, s.slot[id].serial)
    ensures forall n: nat :: n < s.routed ==> Places(s, n) == 1
  {
    ReachableSound(s);
    ClosedCount(s.events, s.finished);
    forall id | id in s.slot
      ensures !Sent(s, s.slot[id].serial)
    {
      var n := s.slot[id].serial;
      assert Slotted(s, n);
      assert Places(s, n) <= 1;
    }
  }

  /** A call decides to return a response only if that response carries its id and came in
      its own slot. */
  lemma OutcomeIsOwnResponse(s: Client, id: Id)
    requires Reachable(s) && id in s.phase && s.phase[id].Done? && s.phase[id].outcome.Response?
    ensures s.phase[id].outcome.frame.id == Some(id)
    ensures id in s.slot && s.slot[id] == s.phase[id].outcome.frame && id !in s.pending
  {
    ReachableSound(s);
    hide Conserved, Distinct;
  }

  /** The actions that finish call `id` from where it stands, none of them waiting for the
      timer or the peer. */
  function Finish(s: Client, id: Id): seq<Action>
    requires id in s.phase
  {
    match s.phase[id]
    case Enqueue =>
      if s.writerGone then [EnqueueFail(id), Remove(id)]
      else if id in s.slot then [EnqueueOk(id), Receive(id)]
      else [EnqueueOk(id), SenderGone(id), Remove(id)]
    case Waiting => if id in s.slot then [Receive(id)] else [SenderGone(id), Remove(id)]
    case Removing(_) => [Remove(id)]
    case _ => []
  }

  lemma ReachesCons(s: Client, a: Action, run: seq<Action>, t: Client)
    requires Enabled(s, a) && Reaches(Next(s, a), run, t)
    ensures Reaches(s, [a] + run, t)
  {
    assert ([a] + run)[1..] == run;
  }

  lemma ReachesOne(s: Client, a: Action)
    requires Enabled(s, a)
    ensures Reaches(s, [a], Next(s, a))
  {
    assert [a][1..] == [];
  }

  lemma RemovingFinishes(s: Client, id: Id) returns (t: Client)
    requires id in s.phase && s.phase[id].Removing?
    ensures Reaches(s, [Remove(id)], t) && InPhase(t, id, Done(s.phase[id].outcome))
  {
    ReachesOne(s, Remove(id));
    t := Next(s, Remove(id));
  }

  lemma WaitingFinishes(s: Client, id: Id) returns (t: Client)
    requires InPhase(s, id, Waiting) && id !in s.pending
    ensures Reaches(s, Finish(s, id), t)
    ensures InPhase(t, id, Done(if id in s.slot then Response(s.slot[id]) else ChildDied))
  {
    hide Reaches;
    if id in s.slot {
      ReachesOne(s, Receive(id));
      t := Next(s, Receive(id));
    } else {
      t := RemovingFinishes(Next(s, SenderGone(id)), id);
      ReachesCons(s, SenderGone(id), [Remove(id)], t);
      assert Finish(s, id) == [SenderGone(id)] + [Remove(id)];
    }
  }

  /** What a call returns if it is left to itself after close. */
  function Final(s: Client, id: Id): Outcome
    requires id in s.phase && Deciding(s.phase[id])
  {
    match s.phase[id]
    case Removing(outcome) => outcome
    case Waiting => if id in s.slot then Response(s.slot[id]) else ChildDied
    case _ => if id in s.slot && !s.writerGone then Response(s.slot[id]) else ChildDied
  }

  /** After close every call that still waits can finish by itself, in at most three steps:
      with the response in its slot if it can still get at it, with the failure it has
      decided on, and else because the child died. */
  lemma WaitersFinish(s: Client, id: Id) returns (t: Client)
    requires Reachable(s) && s.closed && id in s.phase && Deciding(s.phase[id])
    ensures |Finish(s, id)| <= 3
    ensures Reaches(s, Finish(s, id), t) && InPhase(t, id, Done(Final(s, id)))
  {
    ReachableSound(s);
    assert s.pending == {};
    hide Sound, Reaches, Reachable;
    match s.phase[id] {
      case Removing(_) => t := RemovingFinishes(s, id);
      case Waiting => t := WaitingFinishes(s, id);
      case Enqueue =>
        var first := if s.writerGone then EnqueueFail(id) else EnqueueOk(id);
        var s1 := Next(s, first);
        if s.writerGone {
          t := RemovingFinishes(s1, id);
        } else {
          t := WaitingFinishes(s1, id);
        }
        ReachesCons(s, first, Finish(s1, id), t);
        assert Finish(s, id) == [first] + Finish(s1, id);
    }
  }

  /** Whatever has happened, the writer can stop and the client can be closed to the end; a
      second close changes nothing. */
  lemma CanAlwaysClose(s: Client) returns (t: Client)
    requires Reachable(s)
    ensures Enabled(s, WriterStops) && Next(s, WriterStops) == s.(writerGone := true)
    ensures s.closed ==> Reaches(s, [CloseEnter], s)
    ensures Reaches(s, if s.finished then [CloseEnter] else [CloseEnter, CloseFinish], t)
    ensures t.closed && t.finished && t.pending == {} && t.writerGone
    ensures t.events == if s.finished then s.events else s.events + [Closed]
  {
    ReachableSound(s);
    var s1 := Next(s, CloseEnter);
    ReachesOne(s, CloseEnter);
    t := s1;
    if !s.finished {
      t := Next(s1, CloseFinish);
      ReachesOne(s1, CloseFinish);
      hide Reaches;
      ReachesCons(s, CloseEnter, [CloseFinish], t);
      assert [CloseEnter] + [CloseFinish] == [CloseEnter, CloseFinish];
    }
    hide Conserved, Distinct, SlotsSound;
  }

  // ----- why a call fails ---------------------------------------------------

  /** A call that waits has its sender in the map or its response in the slot, unless the
      client was closed. */
  ghost predicate Registered(s: Client) {
    forall id :: IsRegistered(s, id)
  }

  predicate IsRegistered(s: Client, id: Id) {
    InPhase(s, id, Enqueue) || InPhase(s, id, Waiting) ==> id in s.pending || id in s.slot || s.closed
  }

  lemma RegisteredKept(s: Client, a: Action)
    requires Registered(s) && Enabled(s, a)
    ensures Registered(Next(s, a))
  {
    forall id
      ensures IsRegistered(Next(s, a), id)
    {
      StaysRegistered(s, a, id);
    }
  }

  lemma StaysRegistered(s: Client, a: Action, id: Id)
    requires IsRegistered(s, id) && Enabled(s, a)
    ensures IsRegistered(Next(s, a), id)
  {
  }

  /** The call has decided on this outcome. */
  predicate Decided(s: Client, id: Id, o: Outcome) {
    InPhase(s, id, Removing(o)) || InPhase(s, id, Done(o))
  }

  /** No step but its timer decides a call on a timeout, and none but a dead child or writer
      on a death. */
  lemma StepDecides(s: Client, a: Action, id: Id)
    requires IsRegistered(s, id) && Enabled(s, a)
    ensures Decided(Next(s, a), id, Timeout) ==> Decided(s, id, Timeout) || a == TimeOut(id)
    ensures a == TimeOut(id) ==> Decided(Next(s, a), id, Timeout)
    ensures Decided(Next(s, a), id, ChildDied) ==> Decided(s, id, ChildDied) || s.closed || s.writerGone
    ensures s.closed ==> Next(s, a).closed
    ensures s.writerGone ==> Next(s, a).writerGone
  {
  }

  lemma {:induction false} RunDecides(s: Client, run: seq<Action>, t: Client, id: Id)
    requires Registered(s) && Reaches(s, run, t)
    ensures Registered(t)
    ensures Decided(t, id, Timeout) ==> Decided(s, id, Timeout) || TimeOut(id) in run
    ensures Decided(t, id, ChildDied) ==> Decided(s, id, ChildDied) || t.closed || t.writerGone
    ensures s.closed ==> t.closed
    ensures s.writerGone ==> t.writerGone
    decreases |run|
  {
    if run != [] {
      RegisteredKept(s, run[0]);
      StepDecides(s, run[0], id);
      hide Next, Enabled, Registered, Decided;
      RunDecides(Next(s, run[0]), run[1..], t, id);
    }
  }

  /** In every run a call that reports a timeout had its timer fire, and a call that reports
      a dead child had the client closed or the writer stopped. */
  lemma FailuresHaveCauses(run: seq<Action>, t: Client, id: Id)
    requires Reaches(INITIAL, run, t)
    ensures Decided(t, id, Timeout) ==> TimeOut(id) in run
    ensures Decided(t, id, ChildDied) ==> t.closed || t.writerGone
  {
    RunDecides(INITIAL, run, t, id);
  }

  /** A timer that fires is final: the call then reports a timeout, unless it is dropped. */
  lemma {:induction false} TimeoutIsReported(s: Client, run: seq<Action>, t: Client, id: Id)
    requires InPhase(s, id, Removing(Timeout)) && Reaches(s, run, t) && Cancel(id) !in run
    ensures Decided(t, id, Timeout)
    decreases |run|
  {
    if run != [] {
      RemovingStep(s, run[0], id);
      hide Next, Enabled, Decided;
      var s' := Next(s, run[0]);
      if InPhase(s', id, Removing(Timeout)) {
        TimeoutIsReported(s', run[1..], t, id);
      } else {
        EndedStays(s', run[1..], t, id);
        DoneIsDecided(t, id, Timeout);
      }
    } else {
      hide Next, Enabled;
    }
  }

  lemma DoneIsDecided(t: Client, id: Id, o: Outcome)
    requires InPhase(t, id, Done(o))
    ensures Decided(t, id, o)
  {
  }

  lemma RemovingStep(s: Client, a: Action, id: Id)
    requires InPhase(s, id, Removing(Timeout)) && Enabled(s, a) && a != Cancel(id)
    ensures InPhase(Next(s, a), id, Removing(Timeout)) || InPhase(Next(s, a), id, Done(Timeout))
  {
  }

  /** A call that is dropped keeps its entry in the map, and nothing else changes. */
  lemma CancelKeepsEntry(s: Client, id: Id)
    requires Enabled(s, Cancel(id))
    ensures var t := Next(s, Cancel(id));
            && InPhase(t, id, Cancelled) && t.pending == s.pending && SamePlaces(s, t)
            && t.routed == s.routed && t.closed == s.closed && t.finished == s.finished
            && t.writerGone == s.writerGone && forall i :: i in s.phase && i != id ==> t.phase[i] == s.phase[i]
  {
  }

  /** A call that starts after close fails at once and leaves nothing behind. */
  lemma LateCallFails(s: Client, id: Id)
    requires Reachable(s) && s.closed && Enabled(s, Begin(id))
    ensures InPhase(Next(s, Begin(id)), id, Done(ChildDied)) && Next(s, Begin(id)).pending == {}
  {
    ReachableSound(s);
    hide Conserved, Distinct;
  }

  /** A response that is in its slot while its call waits is what the call returns, in every
      run in which neither the timer fires for the call nor its caller drops it. */
  lemma {:induction false} WaitingCallReceives(s: Client, run: seq<Action>, t: Client, id: Id)
    requires InPhase(s, id, Waiting) && id in s.slot && Sound(s) && Reaches(s, run, t)
    requires TimeOut(id) !in run && Cancel(id) !in run
    ensures id in t.phase
    ensures t.phase[id] == Waiting || t.phase[id] == Done(Response(s.slot[id]))
    decreases |run|
  {
    if run != [] {
      var s' := Next(s, run[0]);
      StepKeepsSound(s, run[0]);
      StepGrows(s, run[0]);
      WaitingStep(s, run[0], id);
      hide Next, Enabled, Sound;
      if s'.phase[id] == Waiting {
        WaitingCallReceives(s', run[1..], t, id);
      } else {
        EndedStays(s', run[1..], t, id);
      }
    }
  }

  lemma WaitingStep(s: Client, a: Action, id: Id)
    requires InPhase(s, id, Waiting) && id in s.slot && Enabled(s, a)
    requires a != TimeOut(id) && a != Cancel(id)
    ensures var t := Next(s, a);
            id in t.phase && t.phase[id] in {Waiting, Done(Response(s.slot[id]))}
  {
  }

  lemma {:induction false} EndedStays(s: Client, run: seq<Action>, t: Client, id: Id)
    requires id in s.phase && !Deciding(s.phase[id]) && Reaches(s, run, t)
    ensures id in t.phase && t.phase[id] == s.phase[id]
    decreases |run|
  {
    if run != [] {
      EndedStep(s, run[0], id);
      hide Next, Enabled;
      EndedStays(Next(s, run[0]), run[1..], t, id);
    }
  }

  lemma EndedStep(s: Client, a: Action, id: Id)
    requires id in s.phase && !Deciding(s.phase[id]) && Enabled(s, a)
    ensures id in Next(s, a).phase && Next(s, a).phase[id] == s.phase[id]
  {
  }

  // ----- what becomes of a response -----------------------------------------

  /** Where the reader puts a response: it is about to be sent as an event exactly when no
      sender is registered for its id or the receiver is gone, and else it is in the slot. */
  lemma ResponseGoes(s: Client, id: Id)
    requires Reachable(s) && s.reader == None
    ensures var t, f := Next(s, Route(Some(id))), Frame(s.routed, Some(id));
            && (t.reader == Some(f) <==> id !in s.pending || InPhase(s, id, Cancelled))
            && (t.reader != Some(f) ==> t.reader == None && id !in s.slot && t.slot == s.slot[id := f])
            && (t.reader == Some(f) ==> t.slot == s.slot)
  {
    ReachableSound(s);
    hide Conserved, Distinct, SlotsSound;
  }

  /** The call can still get at its slot, or has. */
  predicate CanReturn(s: Client, id: Id)
    requires id in s.slot
  {
    || InPhase(s, id, Waiting)
    || (InPhase(s, id, Enqueue) && !s.writerGone)
    || InPhase(s, id, Done(Response(s.slot[id])))
  }

  lemma {:induction false} LostStays(s: Client, run: seq<Action>, t: Client, id: Id)
    requires Sound(s) && Reaches(s, run, t) && id in s.slot && !CanReturn(s, id)
    ensures id in t.slot && t.slot[id] == s.slot[id] && !CanReturn(t, id)
    decreases |run|
  {
    if run != [] {
      StepKeepsSound(s, run[0]);
      StepGrows(s, run[0]);
      LostStep(s, run[0], id);
      hide Next, Enabled, Sound, CanReturn;
      LostStays(Next(s, run[0]), run[1..], t, id);
    }
  }

  lemma LostStep(s: Client, a: Action, id: Id)
    requires PendingSound(s) && SlotsSound(s) && Enabled(s, a) && id in s.slot && !CanReturn(s, id)
    ensures id in Next(s, a).slot && !CanReturn(Next(s, a), id)
  {
    if a.Route? {
      assert id in Next(s, a).slot;
    }
  }

  /** Some continuation makes the call return the response in its slot. */
  ghost predicate CanStillReturn(s: Client, id: Id)
    requires id in s.slot
  {
    exists run, t :: Reaches(s, run, t) && InPhase(t, id, Done(Response(s.slot[id])))
  }

  /** A response in a slot can still be returned exactly when its call waits, or has yet to
      hand its line to a living writer, or has returned it. From any other point on, it is
      lost in every run. */
  lemma ReturnableExactly(s: Client, id: Id)
    requires Reachable(s) && id in s.slot
    ensures CanStillReturn(s, id) <==> CanReturn(s, id)
  {
    ReachableSound(s);
    if CanReturn(s, id) {
      ReturnsFrom(s, id);
    }
    if !CanReturn(s, id) {
      forall run, t | Reaches(s, run, t)
        ensures !InPhase(t, id, Done(Response(s.slot[id])))
      {
        LostStays(s, run, t, id);
      }
    }
  }

  /** Even from a wait whose slot is filled the timer can win, and the response is lost. */
  lemma FilledSlotCanTimeOut(s: Client, id: Id) returns (t: Client)
    requires Reachable(s) && InPhase(s, id, Waiting) && id in s.slot
    ensures Reaches(s, [TimeOut(id), Remove(id)], t) && InPhase(t, id, Done(Timeout))
    ensures id in t.slot && t.slot[id] == s.slot[id] && !CanReturn(t, id)
  {
    var s1 := Next(s, TimeOut(id));
    t := Next(s1, Remove(id));
    hide Reaches;
    ReachesOne(s1, Remove(id));
    ReachesCons(s, TimeOut(id), [Remove(id)], t);
    assert [TimeOut(id)] + [Remove(id)] == [TimeOut(id), Remove(id)];
  }

  lemma ReturnsFrom(s: Client, id: Id)
    requires id in s.slot && CanReturn(s, id)
    ensures CanStillReturn(s, id)
  {
    hide Reaches;
    if InPhase(s, id, Waiting) {
      ReachesOne(s, Receive(id));
      assert InPhase(Next(s, Receive(id)), id, Done(Response(s.slot[id])));
    } else if InPhase(s, id, Enqueue) {
      var s1 := Next(s, EnqueueOk(id));
      ReachesOne(s1, Receive(id));
      ReachesCons(s, EnqueueOk(id), [Receive(id)], Next(s1, Receive(id)));
      assert InPhase(Next(s1, Receive(id)), id, Done(Response(s.slot[id])));
    } else {
      ReachesNone(s);
    }
  }

  lemma ReachesNone(s: Client)
    ensures Reaches(s, [], s)
  {
  }

  /** A response that comes while its call still has its sender in the map, and that the
      caller has not dropped, is lost from the start exactly when the call has already
      decided to fail or is bound to. */
  lemma LostOnArrivalExactly(s: Client, id: Id)
    requires Reachable(s) && s.reader == None && id in s.pending && !InPhase(s, id, Cancelled)
    ensures var t := Next(s, Route(Some(id)));
            && id in t.slot && id in s.phase
            && (!CanStillReturn(t, id) <==> s.phase[id].Removing? || (s.phase[id] == Enqueue && s.writerGone))
  {
    ReachableSound(s);
    ResponseGoes(s, id);
    var t := Next(s, Route(Some(id)));
    ReachableNext(s, Route(Some(id)));
    ReturnableExactly(t, id);
    hide Conserved, Distinct, CanStillReturn, Reachable;
  }

  lemma {:induction false} ReachesSnoc(s: Client, run: seq<Action>, t: Client, a: Action)
    requires Reaches(s, run, t) && Enabled(t, a)
    ensures Reaches(s, run + [a], Next(t, a))
    decreases |run|
  {
    hide Next, Enabled;
    if run == [] {
      assert [] + [a] == [a];
      ReachesOne(s, a);
    } else {
      ReachesSnoc(Next(s, run[0]), run[1..], t, a);
      assert (run + [a])[1..] == run[1..] + [a];
    }
  }

  lemma ReachableNext(s: Client, a: Action)
    requires Reachable(s) && Enabled(s, a)
    ensures Reachable(Next(s, a))
  {
    var run :| Reaches(INITIAL, run, s);
    ReachesSnoc(INITIAL, run, s, a);
  }

  /** Between deciding a timeout and taking the entry out there is a window: a response that
      arrives in it is neither returned nor sent as an event. */
  lemma LateResponseCanVanish() returns (s: Client)
    ensures Reachable(s) && InPhase(s, 1, Done(Timeout))
    ensures s.slot == map[1 := Frame(0, Some(1))] && s.events == [] && s.reader == None
  {
    var s1 := Next(INITIAL, Begin(1));
    var s2 := Next(s1, EnqueueOk(1));
    var s3 := Next(s2, TimeOut(1));
    var s4 := Next(s3, Route(Some(1)));
    s := Next(s4, Remove(1));
    hide Reaches;
    ReachesOne(s4, Remove(1));
    ReachesCons(s3, Route(Some(1)), [Remove(1)], s);
    ReachesCons(s2, TimeOut(1), [Route(Some(1))] + [Remove(1)], s);
    ReachesCons(s1, EnqueueOk(1), [TimeOut(1)] + ([Route(Some(1))] + [Remove(1)]), s);
    ReachesCons(INITIAL, Begin(1), [EnqueueOk(1)] + ([TimeOut(1)] + ([Route(Some(1))] + [Remove(1)])), s);
  }
}
