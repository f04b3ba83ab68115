/**
  The life of one SSH worker, pkg/control/worker/worker.go: the run-loop goroutine, a stopper, the parent
  context and the network, interleaved one atomic step at a time.
*/
module Lifecycle {
  import opened Options

  /** worker/state.go */
  datatype Status =
    | Created | Starting | Connecting | Connected | Ready | Running | Degraded | Reconnecting | Stopping | Stopped

  /** The steps of cleanup(): load, close and clear the client, then the connection. */
  datatype Cleanup =
    | LoadClient | CloseClient(c: nat) | ClearClient | LoadConn | CloseConn(c: nat) | ClearConn

  /** Where runLoop is, with connect() and monitor() unfolded; a number is a transport held in a local variable. */
  datatype LoopPc =
    | NotStarted
    | Top
    | MarkConnecting
    | Dialing
    | Tunnelling(t: nat)
    | StoreConn(t: nat)
    | SshHandshake(t: nat)
    | StoreClient(t: nat)
    | MarkConnected
    | ConnectFailed
    | BackingOff
    | ConnectOk
    | MarkRunning
    | Monitoring
    | LostMark
    | Cleaning(step: Cleanup)
    | Exiting
    | Exited

  datatype StopPc = NoStop | Cancel | MarkStopping | Waiting | StopCleaning(step: Cleanup) | MarkStopped | Returned

  datatype State = State(
    status: Status,
    client: Option<nat>,     // the transport under the stored SSH client
    conn: Option<nat>,       // the transport stored in w.conn
    open: set<nat>,          // transports not closed
    nextId: nat,             // transports dialled so far have lower numbers
    cancelled: bool,
    loop: LoopPc,
    stop: StopPc,
    attempt: nat,
    outcomes: seq<bool>      // results of connect() so far, true for success
  )

  const INIT: State := State(Created, None, None, {}, 0, false, NotStarted, NoStop, 0, [])

  /** What the world decides: an attempt succeeds or fails, a timer fires, a cancellation is noticed. */
  datatype Choice = Ok | Fail | NoticeCancel

  datatype Action =
    | Start
    | Loop(choice: Choice)
    | CallStop
    | Stop
    | ParentCancel
    | TransportDies(t: nat)

  predicate Live(pc: LoopPc) { !pc.NotStarted? && !pc.Exited? }

  predicate Enabled(s: State, a: Action) {
    match a
    case Start => s.loop.NotStarted? && s.stop.NoStop?
    case Loop(choice) =>
      && Live(s.loop)
      && (choice.NoticeCancel? ==> s.cancelled && (s.loop.BackingOff? || s.loop.Monitoring?))
      && (choice.Fail? ==> s.loop.Dialing? || s.loop.Tunnelling? || s.loop.SshHandshake? || s.loop.Monitoring?)
    case CallStop => s.stop.NoStop?
    case Stop => !s.stop.NoStop? && !s.stop.Returned? && (s.stop.Waiting? ==> !Live(s.loop))
    case ParentCancel => true
    case TransportDies(_) => true
  }

  function CleanStep(s: State, step: Cleanup): (State, Option<Cleanup>) {
    match step
    case LoadClient => (s, Some(if s.client.Some? then CloseClient(s.client.value) else LoadConn))
    case CloseClient(c) => (s.(open := s.open - {c}), Some(ClearClient))
    case ClearClient => (s.(client := None), Some(LoadConn))
    case LoadConn => (s, if s.conn.Some? then Some(CloseConn(s.conn.value)) else None)
    case CloseConn(c) => (s.(open := s.open - {c}), Some(ClearConn))
    case ClearConn => (s.(conn := None), None)
  }

  function LoopStep(s: State, choice: Choice): State
    requires Enabled(s, Loop(choice))
  {
    match s.loop
    case Top => s.(loop := if s.cancelled then Exiting else MarkConnecting)
    case MarkConnecting => s.(status := Connecting, loop := Dialing)
    case Dialing =>
      if choice.Fail? then Failed(s, {})
      else s.(open := s.open + {s.nextId}, nextId := s.nextId + 1, loop := Tunnelling(s.nextId))
    case Tunnelling(t) => if choice.Fail? then Failed(s, {t}) else s.(loop := StoreConn(t))
    case StoreConn(t) => s.(conn := Some(t), loop := SshHandshake(t))
    case SshHandshake(t) => if choice.Fail? then Failed(s, {t}) else s.(loop := StoreClient(t))
    case StoreClient(t) => s.(client := Some(t), loop := MarkConnected)
    case MarkConnected => s.(status := Connected, loop := ConnectOk, outcomes := s.outcomes + [true])
    case ConnectFailed => s.(status := Reconnecting, loop := BackingOff, attempt := s.attempt + 1)
    case BackingOff => s.(loop := if choice.NoticeCancel? then Exiting else Top)
    case ConnectOk => s.(status := Ready, loop := MarkRunning, attempt := 0)
    case MarkRunning => s.(status := Running, loop := Monitoring)
    case Monitoring =>
      if choice.NoticeCancel? then s.(loop := Cleaning(LoadClient))
      else if choice.Fail? || s.client.None? then s.(loop := LostMark)
      else s
    case LostMark => s.(status := Degraded, loop := Cleaning(LoadClient))
    case Cleaning(step) =>
      var (s', next) := CleanStep(s, step);
      s'.(loop := if next.Some? then Cleaning(next.value) else Top)
    case Exiting => s.(loop := Exited)
  }

  /** connect() returns an error after closing the transport it held, if any. */
  function Failed(s: State, held: set<nat>): State {
    s.(open := s.open - held, loop := ConnectFailed, outcomes := s.outcomes + [false])
  }

  function StopStep(s: State): State
    requires Enabled(s, Stop)
  {
    match s.stop
    case Cancel => s.(cancelled := true, stop := MarkStopping)
    case MarkStopping => s.(status := Stopping, stop := Waiting)
    case Waiting => s.(stop := StopCleaning(LoadClient))
    case StopCleaning(step) =>
      var (s', next) := CleanStep(s, step);
      s'.(stop := if next.Some? then StopCleaning(next.value) else MarkStopped)
    case MarkStopped => s.(status := Stopped, stop := Returned)
  }

  function Do(s: State, a: Action): State
    requires Enabled(s, a)
  {
    match a
    case Start => s.(status := Starting, loop := Top)
    case Loop(choice) => LoopStep(s, choice)
    case CallStop => s.(stop := Cancel)
    case Stop => StopStep(s)
    case ParentCancel => s.(cancelled := true)
    case TransportDies(t) => s.(open := s.open - {t})
  }

  ghost predicate Legal(s: State, run: seq<Action>)
    decreases |run|
  {
    run == [] || (Enabled(s, run[0]) && Legal(Do(s, run[0]), run[1..]))
  }

  ghost function Exec(s: State, run: seq<Action>): State
    requires Legal(s, run)
    decreases |run|
  {
    if run == [] then s else Exec(Do(s, run[0]), run[1..])
  }

  // Invariants

  /** Without a cancellation only the loop stores the status, so its position determines it. */
  predicate StatusFits(s: State) {
    s.cancelled ||
    match s.loop
    case NotStarted => s.status.Created?
    case Top => s.status.Starting? || s.status.Degraded? || s.status.Reconnecting?
    case MarkConnecting => s.status.Starting? || s.status.Degraded? || s.status.Reconnecting?
    case ConnectOk => s.status.Connected?
    case MarkRunning => s.status.Ready?
    case Monitoring => s.status.Running?
    case LostMark => s.status.Running?
    case Cleaning(_) => s.status.Degraded?
    case BackingOff => s.status.Reconnecting?
    case Exiting => false
    case Exited => false
    case _ => s.status.Connecting?
  }

  predicate OnlyOpen(s: State, t: nat) { s.open <= {t} && t < s.nextId }

  /** Client and connection are over the same transport `t`, the only one that may be open. */
  predicate Attached(s: State, t: nat) { s.client == Some(t) && s.conn == Some(t) && OnlyOpen(s, t) }

  predicate CleanupFits(s: State, step: Cleanup) {
    match step
    case LoadClient => s.client.Some? ==> Attached(s, s.client.value)
    case CloseClient(c) => Attached(s, c)
    case ClearClient => s.client.Some? && s.conn == s.client && s.open == {}
    case LoadConn => s.client.None? && s.open == {}
    case CloseConn(c) => s.client.None? && s.conn == Some(c) && s.open == {}
    case ClearConn => s.client.None? && s.open == {}
  }

  /** What each position of the loop says about client, connection and open transports. */
  predicate TransportsFit(s: State) {
    match s.loop
    case Tunnelling(t) => s.client.None? && OnlyOpen(s, t)
    case StoreConn(t) => s.client.None? && OnlyOpen(s, t)
    case SshHandshake(t) => s.client.None? && s.conn == Some(t) && OnlyOpen(s, t)
    case StoreClient(t) => s.client.None? && s.conn == Some(t) && OnlyOpen(s, t)
    case MarkConnected => s.client.Some? && Attached(s, s.client.value)
    case ConnectOk => s.client.Some? && Attached(s, s.client.value)
    case MarkRunning => s.client.Some? && Attached(s, s.client.value)
    case Monitoring => s.client.Some? && Attached(s, s.client.value)
    case LostMark => s.client.Some? && Attached(s, s.client.value)
    case Cleaning(step) => CleanupFits(s, step) && (step.LoadClient? ==> s.client.Some?)
    case _ => s.client.None? && s.open == {}
  }

  predicate StopFits(s: State) {
    && (!s.stop.NoStop? && !s.stop.Cancel? ==> s.cancelled)
    && (s.stop.StopCleaning? || s.stop.MarkStopped? || s.stop.Returned? ==> !Live(s.loop))
    && (s.stop.StopCleaning? ==> CleanupFits(s, s.stop.step) && !s.stop.step.CloseClient? && !s.stop.step.ClearClient?)
    && (s.stop.MarkStopped? || s.stop.Returned? ==> s.conn.None?)
    && (s.stop.Returned? ==> s.status.Stopped?)
  }

  function TrailingFailures(outcomes: seq<bool>): nat {
    if outcomes == [] || outcomes[|outcomes| - 1] then 0 else 1 + TrailingFailures(outcomes[..|outcomes| - 1])
  }

  /** `attempt` counts the failures since the last success, one behind while a result is being handled. */
  predicate AttemptFits(s: State) {
    match s.loop
    case ConnectFailed => s.outcomes != [] && !s.outcomes[|s.outcomes| - 1]
                          && s.attempt == TrailingFailures(s.outcomes[..|s.outcomes| - 1])
    case ConnectOk => TrailingFailures(s.outcomes) == 0
    case _ => s.attempt == TrailingFailures(s.outcomes)
  }

  predicate Inv(s: State) {
    StatusFits(s) && TransportsFit(s) && StopFits(s) && AttemptFits(s)
  }

  lemma InitInv()
    ensures Inv(INIT)
  {
  }

  lemma StatusKept(s: State, a: Action)
    requires StatusFits(s) && StopFits(s) && Enabled(s, a)
    ensures StatusFits(Do(s, a))
  {
  }

  lemma TransportsKept(s: State, a: Action)
    requires TransportsFit(s) && StopFits(s) && Enabled(s, a)
    ensures TransportsFit(Do(s, a))
  {
    hide LoopStep;
    if a.Loop? {
      LoopTransportsKept(s, a.choice);
    }
  }

  lemma LoopTransportsKept(s: State, choice: Choice)
    requires TransportsFit(s) && Enabled(s, Loop(choice))
    ensures TransportsFit(LoopStep(s, choice))
  {
  }

  lemma StopKept(s: State, a: Action)
    requires TransportsFit(s) && StopFits(s) && Enabled(s, a)
    ensures StopFits(Do(s, a))
  {
  }

  lemma AttemptKept(s: State, a: Action)
    requires AttemptFits(s) && Enabled(s, a)
    ensures AttemptFits(Do(s, a))
  {
    hide TrailingFailures, LoopStep;
    if a.Loop? {
      LoopAttemptKept(s, a.choice);
    }
  }

  lemma LoopAttemptKept(s: State, choice: Choice)
    requires AttemptFits(s) && Enabled(s, Loop(choice))
    ensures AttemptFits(LoopStep(s, choice))
  {
    hide TrailingFailures;
    TrailingAfter(s.outcomes);
  }

  lemma TrailingAfter(outcomes: seq<bool>)
    ensures TrailingFailures(outcomes + [true]) == 0
    ensures (outcomes + [false])[..|outcomes|] == outcomes
    ensures outcomes != [] && !outcomes[|outcomes| - 1] ==>
              TrailingFailures(outcomes) == 1 + TrailingFailures(outcomes[..|outcomes| - 1])
  {
  }

  lemma StepKeepsInv(s: State, a: Action)
    requires Inv(s) && Enabled(s, a)
    ensures Inv(Do(s, a))
  {
    StatusKept(s, a);
    TransportsKept(s, a);
    StopKept(s, a);
    AttemptKept(s, a);
  }

  lemma {:induction false} RunKeepsInv(s: State, run: seq<Action>)
    requires Inv(s) && Legal(s, run)
    ensures Inv(Exec(s, run))
    decreases |run|
  {
    hide Inv, Do;
    if run != [] {
      StepKeepsInv(s, run[0]);
      RunKeepsInv(Do(s, run[0]), run[1..]);
    }
  }

  // Theorems over every interleaving

  predicate Usable(status: Status) { status.Connected? || status.Ready? || status.Running? }

  /** A worker that reports itself connected, ready or running, and is not cancelled, has a client to dial through. */
  lemma UsableHasClient(run: seq<Action>)
    requires Legal(INIT, run)
    ensures var s := Exec(INIT, run); Usable(s.status) && !s.cancelled ==> s.client.Some?
  {
    InitInv();
    RunKeepsInv(INIT, run);
  }

  /** The transport the running connect() holds in a local variable. */
  function HeldByConnect(pc: LoopPc): set<nat> {
    match pc
    case Tunnelling(t) => {t}
    case StoreConn(t) => {t}
    case SshHandshake(t) => {t}
    case StoreClient(t) => {t}
    case _ => {}
  }

  /** At most one transport is open, and the running connect() or w.conn holds it; none is once the loop is gone. */
  lemma AtMostOneTransport(run: seq<Action>)
    requires Legal(INIT, run)
    ensures var s := Exec(INIT, run);
            && (forall t, u :: t in s.open && u in s.open ==> t == u)
            && (forall t :: t in s.open ==> t in HeldByConnect(s.loop) || s.conn == Some(t))
            && (!Live(s.loop) ==> s.open == {} && s.client.None?)
  {
    InitInv();
    RunKeepsInv(INIT, run);
  }

  /** A failed attempt backs off by the number of consecutive failures before it. */
  lemma AttemptCountsFailures(run: seq<Action>)
    requires Legal(INIT, run)
    ensures var s := Exec(INIT, run); s.loop.ConnectFailed? ==> s.attempt + 1 == TrailingFailures(s.outcomes)
  {
    InitInv();
    RunKeepsInv(INIT, run);
    TrailingAfter(Exec(INIT, run).outcomes);
  }

  predicate StoppedForGood(s: State) {
    s.status.Stopped? && !Live(s.loop) && s.client.None? && s.conn.None? && s.open == {} && s.stop.Returned?
  }

  lemma {:induction false} StoppedStays(s: State, run: seq<Action>)
    requires StoppedForGood(s) && Legal(s, run)
    ensures StoppedForGood(Exec(s, run))
    decreases |run|
  {
    if run != [] {
      StoppedStays(Do(s, run[0]), run[1..]);
    }
  }

  /** Once Stop has returned, the worker is stopped with everything released, in that state and every later one. */
  lemma StopIsFinal(before: seq<Action>, after: seq<Action>)
    requires Legal(INIT, before) && Exec(INIT, before).stop.Returned?
    requires Legal(Exec(INIT, before), after)
    ensures StoppedForGood(Exec(Exec(INIT, before), after))
  {
    InitInv();
    RunKeepsInv(INIT, before);
    StoppedStays(Exec(INIT, before), after);
  }

  // The loop gets somewhere

  /** The loop's own next `n` steps, each with the outcome Ok. */
  function Oks(n: nat): (run: seq<Action>)
    ensures |run| == n
  {
    if n == 0 then [] else [Loop(Ok)] + Oks(n - 1)
  }

  /** The status after each step of a run. */
  ghost function Trail(s: State, run: seq<Action>): seq<Status>
    requires Legal(s, run)
    decreases |run|
  {
    if run == [] then [] else [Do(s, run[0]).status] + Trail(Do(s, run[0]), run[1..])
  }

  lemma OneStep(s: State, a: Action, rest: seq<Action>)
    requires Enabled(s, a) && Legal(Do(s, a), rest)
    ensures Legal(s, [a] + rest) && Exec(s, [a] + rest) == Exec(Do(s, a), rest)
    ensures Trail(s, [a] + rest) == [Do(s, a).status] + Trail(Do(s, a), rest)
  {
    hide Do, Enabled;
    assert ([a] + rest)[1..] == rest;
  }

  lemma NoSteps(s: State)
    ensures Legal(s, []) && Exec(s, []) == s && Trail(s, []) == [] && Oks(0) == []
  {
  }

  lemma OkStep(s: State, n: nat)
    requires Enabled(s, Loop(Ok)) && Legal(LoopStep(s, Ok), Oks(n))
    ensures Legal(s, Oks(n + 1)) && Exec(s, Oks(n + 1)) == Exec(LoopStep(s, Ok), Oks(n))
    ensures Trail(s, Oks(n + 1)) == [LoopStep(s, Ok).status] + Trail(LoopStep(s, Ok), Oks(n))
  {
    hide LoopStep, Legal, Exec, Trail;
    OneStep(s, Loop(Ok), Oks(n));
  }

  lemma {:induction false} OksJoin(s: State, m: nat, n: nat)
    requires Legal(s, Oks(m)) && Legal(Exec(s, Oks(m)), Oks(n))
    ensures Legal(s, Oks(m + n)) && Exec(s, Oks(m + n)) == Exec(Exec(s, Oks(m)), Oks(n))
    ensures Trail(s, Oks(m + n)) == Trail(s, Oks(m)) + Trail(Exec(s, Oks(m)), Oks(n))
    decreases m
  {
    hide Do, Enabled;
    if m == 0 {
      NoSteps(s);
    } else {
      var s' := Do(s, Loop(Ok));
      assert Oks(m)[1..] == Oks(m - 1) && Oks(m)[0] == Loop(Ok);
      OksJoin(s', m - 1, n);
      OneStep(s, Loop(Ok), Oks(m - 1 + n));
    }
  }

  lemma TopHoldsNothing(s: State)
    requires Inv(s) && s.loop.Top?
    ensures s.open == {}
  {
  }

  lemma MonitoringIsAttached(s: State)
    requires Inv(s) && s.loop.Monitoring?
    ensures s.client.Some? && Attached(s, s.client.value)
  {
  }

  lemma FailureReleases(s: State)
    requires Inv(s) && CanFail(s.loop)
    ensures LoopStep(s, Fail) == s.(open := {}, loop := ConnectFailed, outcomes := s.outcomes + [false])
  {
  }

  lemma Dials(s: State)
    requires s.loop.Top? && !s.cancelled
    ensures Legal(s, Oks(3)) && Trail(s, Oks(3)) == [s.status, Connecting, Connecting]
    ensures Exec(s, Oks(3))
         == s.(status := Connecting, open := s.open + {s.nextId}, nextId := s.nextId + 1, loop := Tunnelling(s.nextId))
  {
    hide Legal, Exec, Trail, Inv, Do, Oks;
    var s1 := LoopStep(s, Ok);
    var s2 := LoopStep(s1, Ok);
    var s3 := LoopStep(s2, Ok);
    NoSteps(s3);
    OkStep(s2, 0);
    OkStep(s1, 1);
    OkStep(s, 2);
  }

  lemma TunnelsAndShakesHands(s: State, t: nat)
    requires s.loop == Tunnelling(t)
    ensures Legal(s, Oks(3)) && Trail(s, Oks(3)) == [s.status, s.status, s.status]
    ensures Exec(s, Oks(3)) == s.(conn := Some(t), loop := StoreClient(t))
  {
    hide Legal, Exec, Trail, Inv, Do, Oks;
    var s1 := LoopStep(s, Ok);
    var s2 := LoopStep(s1, Ok);
    var s3 := LoopStep(s2, Ok);
    NoSteps(s3);
    OkStep(s2, 0);
    OkStep(s1, 1);
    OkStep(s, 2);
  }

  lemma BecomesConnected(s: State, t: nat)
    requires s.loop == StoreClient(t)
    ensures Legal(s, Oks(2)) && Trail(s, Oks(2)) == [s.status, Connected]
    ensures Exec(s, Oks(2)) == s.(status := Connected, client := Some(t), loop := ConnectOk, outcomes := s.outcomes + [true])
  {
    hide Legal, Exec, Trail, Inv, Do, Oks;
    var s1 := LoopStep(s, Ok);
    var s2 := LoopStep(s1, Ok);
    NoSteps(s2);
    OkStep(s1, 0);
    OkStep(s, 1);
  }

  lemma BecomesRunning(s: State)
    requires s.loop.ConnectOk?
    ensures Legal(s, Oks(2)) && Trail(s, Oks(2)) == [Ready, Running]
    ensures Exec(s, Oks(2)) == s.(status := Running, loop := Monitoring, attempt := 0)
  {
    hide Legal, Exec, Trail, Inv, Do, Oks;
    var s1 := LoopStep(s, Ok);
    var s2 := LoopStep(s1, Ok);
    NoSteps(s2);
    OkStep(s1, 0);
    OkStep(s, 1);
  }

  /**
    An attempt that meets no failure connects: from the top of an uncancelled loop its own steps are enabled
    in turn, the status passes Connecting, Connected, Ready and Running in that order, and the loop ends up
    monitoring a client over a new transport, the only open one, with the failure count back at zero.
  */
  lemma AttemptConnects(s: State)
    requires Inv(s) && s.loop.Top? && !s.cancelled
    ensures Legal(s, Oks(10))
    ensures Trail(s, Oks(10)) == [s.status, Connecting, Connecting, Connecting, Connecting, Connecting, Connecting,
                                  Connected, Ready, Running]
    ensures s.nextId !in s.open
    ensures Exec(s, Oks(10))
         == s.(status := Running, client := Some(s.nextId), conn := Some(s.nextId), open := {s.nextId}, nextId := s.nextId + 1,
               loop := Monitoring, attempt := 0, outcomes := s.outcomes + [true])
  {
    hide *;
    TopHoldsNothing(s);
    Dials(s);
    var s3 := Exec(s, Oks(3));
    TunnelsAndShakesHands(s3, s.nextId);
    OksJoin(s, 3, 3);
    var s6 := Exec(s, Oks(6));
    BecomesConnected(s6, s.nextId);
    OksJoin(s, 6, 2);
    var s8 := Exec(s, Oks(8));
    BecomesRunning(s8);
    OksJoin(s, 8, 2);
  }

  /** So does a worker just started. */
  lemma StartConnects()
    ensures Legal(INIT, [Start] + Oks(10))
    ensures Trail(INIT, [Start] + Oks(10)) == [Starting, Starting, Connecting, Connecting, Connecting, Connecting, Connecting,
                                               Connecting, Connected, Ready, Running]
    ensures Exec(INIT, [Start] + Oks(10)) == State(Running, Some(0), Some(0), {0}, 1, false, Monitoring, NoStop, 0, [true])
  {
    hide Legal, Exec, Trail, Oks;
    InitInv();
    StepKeepsInv(INIT, Start);
    AttemptConnects(Do(INIT, Start));
    OneStep(INIT, Start, Oks(10));
  }

  lemma CleansUpClient(s: State)
    requires s.loop == Cleaning(LoadClient) && s.client.Some?
    ensures Legal(s, Oks(3))
    ensures Exec(s, Oks(3)) == s.(client := None, open := s.open - {s.client.value}, loop := Cleaning(LoadConn))
  {
    hide Legal, Exec, Trail, Inv, Do, Oks;
    var s1 := LoopStep(s, Ok);
    var s2 := LoopStep(s1, Ok);
    var s3 := LoopStep(s2, Ok);
    NoSteps(s3);
    OkStep(s2, 0);
    OkStep(s1, 1);
    OkStep(s, 2);
  }

  lemma CleansUpConn(s: State)
    requires s.loop == Cleaning(LoadConn) && s.conn.Some?
    ensures Legal(s, Oks(3))
    ensures Exec(s, Oks(3)) == s.(conn := None, open := s.open - {s.conn.value}, loop := Top)
  {
    hide Legal, Exec, Trail, Inv, Do, Oks;
    var s1 := LoopStep(s, Ok);
    var s2 := LoopStep(s1, Ok);
    var s3 := LoopStep(s2, Ok);
    NoSteps(s3);
    OkStep(s2, 0);
    OkStep(s1, 1);
    OkStep(s, 2);
  }

  /** A connection that is lost is cleaned up, and the loop is at its top again with status Degraded. */
  lemma LostConnectionIsRetried(s: State)
    requires Inv(s) && s.loop.Monitoring?
    ensures Legal(s, [Loop(Fail)] + Oks(7))
    ensures Exec(s, [Loop(Fail)] + Oks(7))
         == s.(status := Degraded, client := None, conn := None, open := {}, loop := Top)
  {
    hide Legal, Exec, Trail, Oks, Inv, TransportsFit;
    MonitoringIsAttached(s);
    var s1 := LoopStep(s, Fail);
    var s2 := LoopStep(s1, Ok);
    assert s2 == s.(status := Degraded, loop := Cleaning(LoadClient));
    hide LoopStep, CleanStep;
    CleansUpClient(s2);
    CleansUpConn(Exec(s2, Oks(3)));
    OksJoin(s2, 3, 3);
    OkStep(s1, 6);
    OneStep(s, Loop(Fail), Oks(7));
  }

  /** Where an attempt can fail, whatever it holds at that point. */
  predicate CanFail(pc: LoopPc) { pc.Dialing? || pc.Tunnelling? || pc.SshHandshake? }

  /** A failed attempt leaves nothing open, is counted, and after its wait the loop is at its top with status Reconnecting. */
  lemma FailedAttemptIsRetried(s: State)
    requires Inv(s) && CanFail(s.loop)
    ensures Legal(s, [Loop(Fail)] + Oks(2))
    ensures Exec(s, [Loop(Fail)] + Oks(2))
         == s.(status := Reconnecting, open := {}, loop := Top, attempt := s.attempt + 1, outcomes := s.outcomes + [false])
  {
    hide Legal, Exec, Trail, Inv, Oks;
    FailureReleases(s);
    var s1 := LoopStep(s, Fail);
    var s2 := LoopStep(s1, Ok);
    var s3 := LoopStep(s2, Ok);
    NoSteps(s3);
    OkStep(s2, 0);
    OkStep(s1, 1);
    OneStep(s, Loop(Fail), Oks(2));
  }

  /** A keepalive that is answered changes nothing. */
  lemma KeepaliveKeeps(s: State)
    requires Inv(s) && s.loop.Monitoring?
    ensures Legal(s, Oks(1)) && Exec(s, Oks(1)) == s
  {
    MonitoringIsAttached(s);
    hide Legal, Exec, Trail, Inv, Do, Oks, TransportsFit;
    NoSteps(s);
    OkStep(s, 0);
  }

  function Stops(n: nat): seq<Action> { if n == 0 then [] else [Stop] + Stops(n - 1) }

  lemma StopFinishes(s: State)
    requires s.stop.Waiting? && !Live(s.loop) && s.client.None? && s.conn.None?
    ensures Legal(s, Stops(4)) && Trail(s, Stops(4)) == [s.status, s.status, s.status, Stopped]
    ensures Exec(s, Stops(4)) == s.(status := Stopped, stop := Returned)
  {
    hide Legal, Exec, Trail;
    var s1 := StopStep(s);
    var s2 := StopStep(s1);
    var s3 := StopStep(s2);
    var s4 := StopStep(s3);
    NoSteps(s4);
    OneStep(s3, Stop, Stops(0));
    OneStep(s2, Stop, Stops(1));
    OneStep(s1, Stop, Stops(2));
    OneStep(s, Stop, Stops(3));
  }

  /** Stopping a worker whose loop is not running announces Stopping, then Stopped. */
  lemma StopAnnounces(s: State)
    requires Inv(s) && s.stop.NoStop? && !Live(s.loop) && s.conn.None?
    ensures Legal(s, [CallStop] + Stops(6))
    ensures Trail(s, [CallStop] + Stops(6)) == [s.status, s.status, Stopping, Stopping, Stopping, Stopping, Stopped]
    ensures StoppedForGood(Exec(s, [CallStop] + Stops(6)))
  {
    hide Legal, Exec, Trail, Inv;
    GoneHoldsNothing(s);
    var s1 := Do(s, CallStop);
    var s2 := StopStep(s1);
    var s3 := StopStep(s2);
    StopFinishes(s3);
    OneStep(s2, Stop, Stops(4));
    OneStep(s1, Stop, Stops(5));
    OneStep(s, CallStop, Stops(6));
  }

  lemma GoneHoldsNothing(s: State)
    requires Inv(s) && !Live(s.loop)
    ensures s.client.None? && s.open == {}
  {
  }

  // Stop returns

  /** How many steps of its own a cancelled loop has left at most, keepalives that succeed aside. */
  function StepsLeft(pc: LoopPc): nat {
    match pc
    case NotStarted => 0
    case Exited => 0
    case Exiting => 1
    case Top => 2
    case BackingOff => 3
    case ConnectFailed => 4
    case Cleaning(step) => 2 + CleanupLeft(step)
    case LostMark => 9
    case Monitoring => 10
    case MarkRunning => 11
    case ConnectOk => 12
    case MarkConnected => 13
    case StoreClient(_) => 14
    case SshHandshake(_) => 15
    case StoreConn(_) => 16
    case Tunnelling(_) => 17
    case Dialing => 18
    case MarkConnecting => 19
  }

  function CleanupLeft(step: Cleanup): nat {
    match step
    case LoadClient => 6
    case CloseClient(_) => 5
    case ClearClient => 4
    case LoadConn => 3
    case CloseConn(_) => 2
    case ClearConn => 1
  }

  predicate Keepalive(s: State, a: Action) {
    s.loop.Monitoring? && a == Loop(Ok) && s.client.Some?
  }

  /** After a cancellation the loop always has a step to take, and each but a successful keepalive
      brings it closer to its end. */
  lemma CancelledLoopEnds(s: State, a: Action)
    requires Inv(s) && s.cancelled && Live(s.loop)
    ensures exists c :: Enabled(s, Loop(c)) && !Keepalive(s, Loop(c))
    ensures Enabled(s, a) && a.Loop? && !Keepalive(s, a) ==> StepsLeft(Do(s, a).loop) < StepsLeft(s.loop)
    ensures Enabled(s, a) && !a.Loop? ==> Do(s, a).loop == s.loop
  {
    assert Enabled(s, Loop(if s.loop.Monitoring? then NoticeCancel else Ok));
  }

  ghost function ProgressIn(s: State, run: seq<Action>): nat
    requires Legal(s, run)
    decreases |run|
  {
    if run == [] then 0
    else (if run[0].Loop? && !Keepalive(s, run[0]) then 1 else 0) + ProgressIn(Do(s, run[0]), run[1..])
  }

  /** In every run from a cancelled state the loop takes at most nineteen steps besides successful keepalives. */
  lemma {:induction false} CancelledLoopIsShort(s: State, run: seq<Action>)
    requires Inv(s) && s.cancelled && Live(s.loop) && Legal(s, run)
    ensures ProgressIn(s, run) + StepsLeft(Exec(s, run).loop) <= StepsLeft(s.loop) <= 19
    decreases |run|
  {
    if run != [] {
      hide Inv;
      var s' := Do(s, run[0]);
      CancelledLoopEnds(s, run[0]);
      StepKeepsInv(s, run[0]);
      assert s'.cancelled;
      if Live(s'.loop) {
        CancelledLoopIsShort(s', run[1..]);
      } else {
        GoneStaysGone(s', run[1..]);
      }
    }
  }

  lemma {:induction false} GoneStaysGone(s: State, run: seq<Action>)
    requires s.loop.Exited? && Legal(s, run)
    ensures Exec(s, run).loop.Exited? && ProgressIn(s, run) == 0
    decreases |run|
  {
    if run != [] {
      GoneStaysGone(Do(s, run[0]), run[1..]);
    }
  }
}
