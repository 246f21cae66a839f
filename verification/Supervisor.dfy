/** Supervision of the child process: the stderr tail, the crash-loop breaker, and the
    lifecycle over them. */
module Supervision {
  import opened Seqs
  import opened Utf8
  import opened Wrappers

  // ----- stderr tail --------------------------------------------------------

  /** The last `cap` bytes, or all if there are fewer. */
  function LastBytes(cap: nat, s: bytes): (r: bytes)
    ensures |r| <= cap && |r| <= |s|
  {
    if |s| <= cap then s else s[|s| - cap..]
  }

  /** Forgetting old bytes early does not change which bytes are last. */
  lemma LastAbsorbs(cap: nat, a: bytes, b: bytes)
    ensures LastBytes(cap, LastBytes(cap, a) + b) == LastBytes(cap, a + b)
  {
  }

  /** The ring contents after a sequence of pushes. */
  function Pushed(cap: nat, chunks: seq<bytes>): bytes {
    if chunks == [] then [] else LastBytes(cap, Pushed(cap, chunks[..|chunks| - 1]) + chunks[|chunks| - 1])
  }

  /** After any pushes the ring holds exactly the last bytes of the stream. */
  lemma {:induction false} RingHoldsTail(cap: nat, chunks: seq<bytes>)
    ensures Pushed(cap, chunks) == LastBytes(cap, Concat(chunks))
    decreases |chunks|
  {
    if chunks != [] {
      var front, last := chunks[..|chunks| - 1], chunks[|chunks| - 1];
      RingHoldsTail(cap, front);
      SplitLast(chunks);
      ConcatSnoc(front, last);
      LastAbsorbs(cap, Concat(front), last);
    }
  }

  const STDERR_TAIL_CAPACITY: nat := 64 * 1024

  class StderrRing {
    var buf: bytes
    const cap: nat

    constructor (capacity: nat)
      ensures buf == [] && cap == capacity
    {
      buf, cap := [], capacity;
    }

    method Push(chunk: bytes)
      requires |buf| <= cap
      modifies this
      ensures buf == LastBytes(cap, old(buf) + chunk)
    {
      if cap == 0 {
        return;
      }
      if |chunk| >= cap {
        buf := chunk[|chunk| - cap..];
        return;
      }
      var overflow := if |buf| + |chunk| > cap then |buf| + |chunk| - cap else 0;
      for i := 0 to overflow
        invariant buf == old(buf)[i..]
      {
        SuffixOfSuffix(old(buf), i, 1);
        buf := buf[1..];
      }
      DropOfJoin(old(buf), chunk, overflow);
      buf := buf + chunk;
    }
  }

  /** The client's own loop over the bytes of one read: evict one, append one. */
  method AppendBytewise(cap: nat, tail0: bytes, chunk: bytes) returns (tail: bytes)
    requires cap > 0 && |tail0| <= cap
    ensures tail == LastBytes(cap, tail0 + chunk)
  {
    tail := tail0;
    assert tail0 + chunk[..0] == tail0;
    for i := 0 to |chunk|
      invariant tail == LastBytes(cap, tail0 + chunk[..i])
    {
      assert tail0 + chunk[..i + 1] == tail0 + chunk[..i] + [chunk[i]];
      LastAbsorbs(cap, tail0 + chunk[..i], [chunk[i]]);
      if |tail| == cap {
        tail := tail[1..];
      }
      tail := tail + [chunk[i]];
    }
    assert chunk[..|chunk|] == chunk;
  }

  // ----- crash-loop breaker -------------------------------------------------

  type Instant = nat

  /** `duration_since`, which never goes below zero. */
  function Since(now: Instant, earlier: Instant): nat {
    if now >= earlier then now - earlier else 0
  }

  /** Evict from the front while the window excludes it. */
  function DropOld(window: nat, ds: seq<Instant>, now: Instant): seq<Instant> {
    if ds != [] && Since(now, ds[0]) >= window then DropOld(window, ds[1..], now) else ds
  }

  /** The deaths less than the window before `now`. */
  function Recent(window: nat, ds: seq<Instant>, now: Instant): seq<Instant> {
    if ds == [] then []
    else (if Since(now, ds[0]) < window then [ds[0]] else []) + Recent(window, ds[1..], now)
  }

  predicate Ordered(ds: seq<Instant>) {
    forall i, j :: 0 <= i <= j < |ds| ==> ds[i] <= ds[j]
  }

  /** With ordered deaths, evicting from the front is selecting by age. */
  lemma {:induction false} DropIsRecent(window: nat, ds: seq<Instant>, now: Instant)
    requires Ordered(ds)
    ensures DropOld(window, ds, now) == Recent(window, ds, now)
    decreases |ds|
  {
    if ds != [] {
      DropIsRecent(window, ds[1..], now);
      if Since(now, ds[0]) < window && |ds| > 1 {
        assert Since(now, ds[1]) < window;
      }
      assert [ds[0]] + ds[1..] == ds;
    }
  }

  /** Evicting at an earlier death first does not change what a later one leaves. */
  lemma {:induction false} DropTwice(window: nat, ds: seq<Instant>, t: Instant, now: Instant)
    requires t <= now
    ensures DropOld(window, DropOld(window, ds, t) + [now], now) == DropOld(window, ds + [now], now)
    decreases |ds|
  {
    if ds != [] && Since(t, ds[0]) >= window {
      DropTwice(window, ds[1..], t, now);
      assert (ds + [now])[1..] == ds[1..] + [now];
    }
  }

  function Clamp32(n: nat): nat {
    if n > 0xFFFF_FFFF then 0xFFFF_FFFF else n
  }

  /** The count in 32 bits. */
  lemma ClampExactly(n: nat)
    ensures Clamp32(n) == n || (Clamp32(n) == 4_294_967_295 && n > 4_294_967_295)
    ensures Clamp32(n) <= 4_294_967_295
  {
  }

  const WINDOW: nat := 60_000
  const LIMIT: nat := 3

  /** Three deaths in a minute, and 64 KiB of stderr. */
  lemma PlanDefaults()
    ensures WINDOW == 60_000 && LIMIT == 3 && STDERR_TAIL_CAPACITY == 65_536
  {
  }

  class RestartBreaker {
    const window: nat
    const limit: nat
    var events: seq<Instant>

    constructor (limit: nat, window: nat)
      ensures this.limit == limit && this.window == window && events == []
    {
      this.limit, this.window, events := limit, window, [];
    }

    method Record(now: Instant) returns (tripped: bool)
      modifies this
      ensures events == DropOld(window, old(events) + [now], now)
      ensures tripped <==> Clamp32(|events|) >= limit
    {
      events := events + [now];
      while events != [] && Since(now, events[0]) >= window
        invariant DropOld(window, events, now) == DropOld(window, old(events) + [now], now)
        decreases |events|
      {
        events := events[1..];
      }
      tripped := Clamp32(|events|) >= limit;
    }

    method Clear()
      modifies this
      ensures events == []
    {
      events := [];
    }
  }

  // ----- lifecycle ----------------------------------------------------------

  datatype DeathReason = CrashLoop | Explicit | Fatal(message: bytes)

  datatype Lifecycle =
    | Running
    | Restarting(attempt: nat)
    | Dead(reason: DeathReason, exitCode: Option<int>, stderrTail: bytes)

  /** One call on the supervisor. */
  datatype Call =
    | ChildDied(now: Instant, exitCode: Option<int>, tail: bytes)
    | ChildRunning
    | ExplicitShutdown(exitCode: Option<int>, tail: bytes)
    | FatalError(message: bytes, exitCode: Option<int>, tail: bytes)
    | Reset
    | RecordStderr(data: bytes)

  datatype Model = Model(state: Lifecycle, events: seq<Instant>, ring: bytes, log: seq<Lifecycle>)

  const FRESH := Model(Running, [], [], [])

  function Enter(m: Model, s: Lifecycle): Model {
    m.(state := s, log := m.log + [s])
  }

  /** The effect of one call; `Reset` outside `Dead` is refused and changes nothing. */
  function Apply(m: Model, c: Call): Model {
    match c
    case ChildDied(now, exit, tail) =>
      var m1 := m.(events := DropOld(WINDOW, m.events + [now], now));
      var attempts := Clamp32(|m1.events|);
      Enter(m1, if attempts >= LIMIT then Dead(CrashLoop, exit, if tail == [] then m.ring else tail)
                else Restarting(attempts))
    case ChildRunning => Enter(m, Running)
    case ExplicitShutdown(exit, tail) => Enter(m, Dead(Explicit, exit, tail))
    case FatalError(message, exit, tail) => Enter(m, Dead(Fatal(message), exit, tail))
    case Reset => if m.state.Dead? then Enter(m.(events := [], ring := []), Restarting(0)) else m
    case RecordStderr(data) => m.(ring := LastBytes(STDERR_TAIL_CAPACITY, m.ring + data))
  }

  function After(calls: seq<Call>): Model {
    if calls == [] then FRESH else Apply(After(calls[..|calls| - 1]), calls[|calls| - 1])
  }

  /** The times of the deaths since the last reset that was not refused. */
  function Deaths(calls: seq<Call>): seq<Instant> {
    if calls == [] then []
    else
      var front, c := calls[..|calls| - 1], calls[|calls| - 1];
      match c
      case ChildDied(now, _, _) => Deaths(front) + [now]
      case Reset => if After(front).state.Dead? then [] else Deaths(front)
      case _ => Deaths(front)
  }

  /** The deaths that count at the latest one. */
  function Counting(ds: seq<Instant>): seq<Instant> {
    if ds == [] then [] else Recent(WINDOW, ds, ds[|ds| - 1])
  }

  lemma OrderedFront(ds: seq<Instant>, now: Instant)
    requires Ordered(ds + [now])
    ensures Ordered(ds) && (ds != [] ==> ds[|ds| - 1] <= now)
  {
    var all := ds + [now];
    assert forall i :: 0 <= i < |ds| ==> all[i] == ds[i];
    assert all[|ds|] == now;
  }

  /** Under a clock that does not go back, the breaker holds exactly the deaths since the
      last reset that lie less than the window before the latest one. */
  lemma {:induction false} BreakerHoldsRecent(calls: seq<Call>)
    requires Ordered(Deaths(calls))
    ensures After(calls).events == Counting(Deaths(calls))
    decreases |calls|
  {
    if calls != [] {
      var front, c := calls[..|calls| - 1], calls[|calls| - 1];
      var ds := Deaths(front);
      match c {
        case ChildDied(now, _, _) =>
          OrderedFront(ds, now);
          BreakerHoldsRecent(front);
          DropIsRecent(WINDOW, ds + [now], now);
          if ds != [] {
            DropIsRecent(WINDOW, ds, ds[|ds| - 1]);
            DropTwice(WINDOW, ds, ds[|ds| - 1], now);
          }
        case Reset =>
          if !After(front).state.Dead? {
            BreakerHoldsRecent(front);
          }
        case _ => BreakerHoldsRecent(front);
      }
    }
  }

  /** A death trips the breaker exactly when at least three deaths count, and otherwise
      restarts with their number. */
  lemma DeathVerdict(calls: seq<Call>, now: Instant, exit: Option<int>, tail: bytes)
    requires Ordered(Deaths(calls) + [now])
    ensures var n := |Counting(Deaths(calls) + [now])|;
            var s := After(calls + [ChildDied(now, exit, tail)]).state;
            && (n >= LIMIT <==> s.Dead?)
            && (s.Dead? ==> s == Dead(CrashLoop, exit, if tail == [] then After(calls).ring else tail))
            && (!s.Dead? ==> s == Restarting(n))
  {
    var c := ChildDied(now, exit, tail);
    var all := calls + [c];
    PartsOfJoin(calls, [c]);
    assert all[..|all| - 1] == calls && all[|all| - 1] == c;
    BreakerHoldsRecent(all);
    hide DropOld, Recent;
  }

  /** The states entered by a sequence of calls, one for each call that is not refused and
      not about stderr. */
  function Entered(calls: seq<Call>): seq<Lifecycle> {
    if calls == [] then []
    else
      var front, c := calls[..|calls| - 1], calls[|calls| - 1];
      var enters := !c.RecordStderr? && (c.Reset? ==> After(front).state.Dead?);
      Entered(front) + if enters then [After(calls).state] else []
  }

  /** The event log lists the states entered, and the current state is the last of them. */
  lemma {:induction false} LogIsComplete(calls: seq<Call>)
    ensures After(calls).log == Entered(calls)
    ensures After(calls).state == if Entered(calls) == [] then Running else Entered(calls)[|Entered(calls)| - 1]
    decreases |calls|
  {
    if calls != [] {
      LogStep(calls);
      hide After, Entered;
      LogIsComplete(calls[..|calls| - 1]);
    }
  }

  /** One call more: what it enters, and what it logs. */
  lemma LogStep(calls: seq<Call>)
    requires calls != []
    ensures var front, c := calls[..|calls| - 1], calls[|calls| - 1];
            var m, enters := After(front), !c.RecordStderr? && (c.Reset? ==> After(front).state.Dead?);
            && Entered(calls) == Entered(front) + (if enters then [After(calls).state] else [])
            && After(calls).log == m.log + (if enters then [After(calls).state] else [])
            && (!enters ==> After(calls).state == m.state)
  {
    hide DropOld, LastBytes;
  }

  /** The calls that entered a state. */
  predicate Enters(m: Model, c: Call) {
    !c.RecordStderr? && (c.Reset? ==> m.state.Dead?)
  }

  /** The latest call that entered a state. */
  function LastEntering(calls: seq<Call>): Option<Call> {
    if calls == [] then None
    else
      var front, c := calls[..|calls| - 1], calls[|calls| - 1];
      if Enters(After(front), c) then Some(c) else LastEntering(front)
  }

  /** In every run the state says what was last reported, with its exit code and its text. */
  lemma {:induction false} StateSaysWhy(calls: seq<Call>)
    ensures var s := After(calls).state;
            match LastEntering(calls)
            case None => s == Running
            case Some(ChildRunning) => s == Running
            case Some(ExplicitShutdown(exit, tail)) => s == Dead(Explicit, exit, tail)
            case Some(FatalError(message, exit, tail)) => s == Dead(Fatal(message), exit, tail)
            case Some(Reset) => s == Restarting(0)
            case Some(ChildDied(_, exit, tail)) =>
              || (s.Dead? && s.reason == CrashLoop && s.exitCode == exit && (tail != [] ==> s.stderrTail == tail))
              || s.Restarting?
            case Some(RecordStderr(_)) => false
    decreases |calls|
  {
    if calls != [] {
      StateSaysWhy(calls[..|calls| - 1]);
      hide DropOld, LastBytes;
    }
  }

  /** The stderr bytes recorded since the last reset that was not refused. */
  function Recorded(calls: seq<Call>): bytes {
    if calls == [] then []
    else
      var front, c := calls[..|calls| - 1], calls[|calls| - 1];
      match c
      case RecordStderr(data) => Recorded(front) + data
      case Reset => if After(front).state.Dead? then [] else Recorded(front)
      case _ => Recorded(front)
  }

  /** In every run the ring holds the last 64 KiB of them. */
  lemma {:induction false} RingHoldsRecorded(calls: seq<Call>)
    ensures After(calls).ring == LastBytes(65536, Recorded(calls))
    decreases |calls|
  {
    if calls != [] {
      var front, c := calls[..|calls| - 1], calls[|calls| - 1];
      RingHoldsRecorded(front);
      if c.RecordStderr? {
        LastAbsorbs(65536, Recorded(front), c.data);
      }
      hide DropOld, LastBytes;
      NothingRecorded();
    }
  }

  lemma NothingRecorded()
    ensures LastBytes(65536, []) == []
  {
  }

  /** The lifecycle after a call that leaves `Dead`. */
  lemma DeadIsLeft(m: Model, c: Call)
    requires m.state.Dead?
    ensures !Apply(m, c).state.Dead? <==>
            || c.ChildRunning? || c.Reset?
            || (c.ChildDied? && |DropOld(WINDOW, m.events + [c.now], c.now)| < LIMIT)
    ensures c.ChildRunning? ==> Apply(m, c).state == Running
    ensures c.RecordStderr? ==> Apply(m, c).state == m.state
  {
    hide DropOld;
  }

  /** In every run with a clock that does not go back, `Dead` is left by exactly three calls:
      a healthy report, a reset, and a death with which fewer than three count. */
  lemma DeadIsLeftExactly(calls: seq<Call>, c: Call)
    requires After(calls).state.Dead?
    requires Ordered(Deaths(calls)) && (c.ChildDied? ==> Ordered(Deaths(calls) + [c.now]))
    ensures !After(calls + [c]).state.Dead? <==>
            || c.ChildRunning? || c.Reset?
            || (c.ChildDied? && |Counting(Deaths(calls) + [c.now])| < LIMIT)
  {
    PartsOfJoin(calls, [c]);
    assert After(calls + [c]) == Apply(After(calls), c);
    if c.ChildDied? {
      DeathVerdict(calls, c.now, c.exitCode, c.tail);
    }
    hide DropOld, Recent, After;
  }

  /** A fatal error followed by a healthy report, with no reset between them, ends in
      `Running`; followed by a death, in a first restart. */
  lemma DeadWithoutReset(fatal: Call, now: Instant, exit: Option<int>, tail: bytes)
    requires fatal.FatalError?
    ensures After([fatal]).state.Dead?
    ensures After([fatal, ChildRunning]).state == Running
    ensures After([fatal, ChildDied(now, exit, tail)]).state == Restarting(1)
  {
    AfterTwo(fatal, ChildRunning);
    AfterTwo(fatal, ChildDied(now, exit, tail));
    assert [] + [now] == [now];
    assert DropOld(WINDOW, [now], now) == [now];
    hide After;
  }

  lemma AfterTwo(c: Call, d: Call)
    ensures After([c]) == Apply(FRESH, c) && After([c, d]) == Apply(Apply(FRESH, c), d)
  {
    assert [c][..0] == [] && [c, d][..1] == [c];
    hide Apply;
  }

  class Supervisor {
    var state: Lifecycle
    const breaker: RestartBreaker
    var stderr: StderrRing
    var log: seq<Lifecycle>

    ghost predicate Sound()
      reads this, breaker, stderr
    {
      && breaker.window == WINDOW && breaker.limit == LIMIT
      && stderr.cap == STDERR_TAIL_CAPACITY && |stderr.buf| <= stderr.cap
    }

    ghost function State(): Model
      reads this, breaker, stderr
    {
      Model(state, breaker.events, stderr.buf, log)
    }

    constructor ()
      ensures Sound() && State() == FRESH && fresh(breaker) && fresh(stderr)
    {
      state, log := Running, [];
      breaker := new RestartBreaker(LIMIT, WINDOW);
      stderr := new StderrRing(STDERR_TAIL_CAPACITY);
    }

    method EnterState(s: Lifecycle)
      modifies this`state, this`log
      ensures state == s && log == old(log) + [s]
    {
      state := s;
      log := log + [s];
    }

    method OnChildDied(now: Instant, exitCode: Option<int>, tail: bytes) returns (next: Lifecycle)
      requires Sound()
      modifies this`state, this`log, breaker
      ensures Sound() && State() == Apply(old(State()), ChildDied(now, exitCode, tail)) && next == state
    {
      var combined := if tail == [] then stderr.buf else tail;
      var tripped := breaker.Record(now);
      next := if tripped then Dead(CrashLoop, exitCode, combined) else Restarting(Clamp32(|breaker.events|));
      EnterState(next);
    }

    method OnChildRunning()
      requires Sound()
      modifies this`state, this`log
      ensures Sound() && State() == Apply(old(State()), ChildRunning)
    {
      EnterState(Running);
    }

    method OnExplicitShutdown(exitCode: Option<int>, tail: bytes)
      requires Sound()
      modifies this`state, this`log
      ensures Sound() && State() == Apply(old(State()), ExplicitShutdown(exitCode, tail))
    {
      EnterState(Dead(Explicit, exitCode, tail));
    }

    method OnFatal(message: bytes, exitCode: Option<int>, tail: bytes)
      requires Sound()
      modifies this`state, this`log
      ensures Sound() && State() == Apply(old(State()), FatalError(message, exitCode, tail))
    {
      EnterState(Dead(Fatal(message), exitCode, tail));
    }

    method ResetBreaker() returns (ok: bool)
      requires Sound()
      modifies this, breaker
      ensures Sound() && State() == Apply(old(State()), Reset) && ok == old(state).Dead?
      ensures stderr == old(stderr) || fresh(stderr)
    {
      if !state.Dead? {
        return false;
      }
      breaker.Clear();
      stderr := new StderrRing(STDERR_TAIL_CAPACITY);
      EnterState(Restarting(0));
      return true;
    }

    method RecordStderrBytes(data: bytes)
      requires Sound()
      modifies stderr
      ensures Sound() && State() == Apply(old(State()), RecordStderr(data))
    {
      stderr.Push(data);
    }
  }
}
