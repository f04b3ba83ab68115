/**
  Connection accounting: dialViaWorker and trackedConn of pkg/control/outbound/manager.go as SOCKS handlers
  use them (pkg/dataplane/socks5/conn.go, pkg/dataplane/transport/pipe.go), with any number of other
  goroutines closing the same connections, one atomic step at a time.
*/
module ConnAccounting {
  import opened Options

  /** A worker object, not its id: a worker made again under the same id is another one with its own counter. */
  type Worker = string
  type Handler = nat

  /** Where one run of Handle is, from the choice of a worker to its end. */
  datatype Stage =
    | Idle
    | Picked(w: Worker)
    | Counted(w: Worker)          // IncrConn done, DialChannel under way
    | Failing(w: Worker)          // the dial failed, DecrConn due
    | Connected(w: Worker)        // holds the tracked connection
    | RelayClosing(w: Worker)     // the Close at the end of Relay
    | DeferredClosing(w: Worker)  // the deferred Close of Handle
    | Done

  /** Who calls Close: the handler itself or any other goroutine. */
  datatype Caller = Own(h: Handler) | Other(n: nat)

  datatype Call = NotCalling | Entering(h: Handler) | DecrDue(h: Handler) | InnerDue(h: Handler) | FinishDue(h: Handler)

  datatype Once = Fresh | Held(who: Caller) | Finished

  datatype Tracked = Tracked(w: Worker, once: Once, released: bool, innerOpen: bool)

  datatype State = State(
    active: map<Worker, int>,
    handlers: map<Handler, Stage>,
    conns: map<Handler, Tracked>,     // by the handler that dialled it
    calls: map<Caller, Call>
  )

  const INIT: State := State(map[], map[], map[], map[])

  function ActiveConns(s: State, w: Worker): int { if w in s.active then s.active[w] else 0 }
  function StageOf(s: State, h: Handler): Stage { if h in s.handlers then s.handlers[h] else Idle }
  function CallOf(s: State, c: Caller): Call { if c in s.calls then s.calls[c] else NotCalling }

  datatype Action =
    | Pick(h: Handler, w: Worker)
    | Incr(h: Handler)
    | DialFails(h: Handler)
    | DialSucceeds(h: Handler)
    | Decr(h: Handler)
    | RelayEnds(h: Handler)
    | ReplyFails(h: Handler)
    | RelayCloseReturned(h: Handler)
    | Return(h: Handler)
    | OtherCloses(n: nat, h: Handler)
    | CloseStep(c: Caller)

  predicate Enabled(s: State, a: Action) {
    match a
    case Pick(h, _) => StageOf(s, h).Idle?
    case Incr(h) => StageOf(s, h).Picked?
    case DialFails(h) => StageOf(s, h).Counted?
    case DialSucceeds(h) => StageOf(s, h).Counted?
    case Decr(h) => StageOf(s, h).Failing?
    case RelayEnds(h) => StageOf(s, h).Connected?
    case ReplyFails(h) => StageOf(s, h).Connected?
    case RelayCloseReturned(h) => StageOf(s, h).RelayClosing? && CallOf(s, Own(h)).NotCalling?
    case Return(h) => StageOf(s, h).DeferredClosing? && CallOf(s, Own(h)).NotCalling?
    case OtherCloses(n, h) => CallOf(s, Other(n)).NotCalling? && h in s.conns
    case CloseStep(c) =>
      match CallOf(s, c)
      case NotCalling => false
      case Entering(h) => h in s.conns && !s.conns[h].once.Held?   // once.Do blocks while another call is inside
      case DecrDue(h) => h in s.conns
      case InnerDue(h) => h in s.conns
      case FinishDue(h) => h in s.conns
  }

  function Add(s: State, w: Worker, d: int): State { s.(active := s.active[w := ActiveConns(s, w) + d]) }
  function At(s: State, h: Handler, g: Stage): State { s.(handlers := s.handlers[h := g]) }
  function Calling(s: State, c: Caller, call: Call): State { s.(calls := s.calls[c := call]) }
  function Conn(s: State, h: Handler, t: Tracked): State { s.(conns := s.conns[h := t]) }

  function Do(s: State, a: Action): State
    requires Enabled(s, a)
  {
    match a
    case Pick(h, w) => At(s, h, Picked(w))
    case Incr(h) => var w := StageOf(s, h).w; Add(At(s, h, Counted(w)), w, 1)
    case DialFails(h) => At(s, h, Failing(StageOf(s, h).w))
    case DialSucceeds(h) => var w := StageOf(s, h).w; Conn(At(s, h, Connected(w)), h, Tracked(w, Fresh, false, true))
    case Decr(h) => Add(At(s, h, Done), StageOf(s, h).w, -1)
    case RelayEnds(h) => Calling(At(s, h, RelayClosing(StageOf(s, h).w)), Own(h), Entering(h))
    case ReplyFails(h) => Calling(At(s, h, DeferredClosing(StageOf(s, h).w)), Own(h), Entering(h))
    case RelayCloseReturned(h) => Calling(At(s, h, DeferredClosing(StageOf(s, h).w)), Own(h), Entering(h))
    case Return(h) => At(s, h, Done)
    case OtherCloses(n, h) => Calling(s, Other(n), Entering(h))
    case CloseStep(c) =>
      match CallOf(s, c)
      case Entering(h) =>
        if s.conns[h].once.Finished? then Calling(s, c, NotCalling)
        else Calling(Conn(s, h, s.conns[h].(once := Held(c))), c, DecrDue(h))
      case DecrDue(h) => Calling(Conn(Add(s, s.conns[h].w, -1), h, s.conns[h].(released := true)), c, InnerDue(h))
      case InnerDue(h) => Calling(Conn(s, h, s.conns[h].(innerOpen := false)), c, FinishDue(h))
      case FinishDue(h) => Calling(Conn(s, h, s.conns[h].(once := Finished)), c, NotCalling)
  }

  ghost predicate Legal(s: State, run: seq<Action>)
    decreases |run|
  {
    run == [] || (Enabled(s, run[0]) && Legal(Do(s, run[0]), run[1..]))
  }

  ghost function Exec(s: State, run: seq<Action>): State
    requires Legal(s, run)
    decreases |run|
  {
    if run == [] then s else Exec(Do(s, run[0]), run[1..])
  }

  // What is counted

  /** Handlers with a dial to `w` in flight. */
  function InFlight(s: State, w: Worker): set<Handler> {
    set h | h in s.handlers && (s.handlers[h] == Counted(w) || s.handlers[h] == Failing(w))
  }

  /** Handlers whose tracked connection to `w` is not closed: no Close has given its count back. */
  function Unclosed(s: State, w: Worker): set<Handler> {
    set h | h in s.conns && s.conns[h].w == w && !s.conns[h].released
  }

  ghost predicate Balanced(s: State) {
    forall w: Worker :: ActiveConns(s, w) == |InFlight(s, w)| + |Unclosed(s, w)|
  }

  // Invariants

  function ConnOf(s: State, h: Handler): Option<Tracked> { if h in s.conns then Some(s.conns[h]) else None }

  /** What a handler's stage says about its connection, given where its own Close call is. */
  predicate StageOk(g: Stage, conn: Option<Tracked>, own: Call) {
    match g
    case Idle => conn.None? && own.NotCalling?
    case Picked(_) => conn.None? && own.NotCalling?
    case Counted(_) => conn.None? && own.NotCalling?
    case Failing(_) => conn.None? && own.NotCalling?
    case Done => own.NotCalling? && (conn.Some? ==> conn.value.once.Finished?)
    case Connected(_) => conn.Some? && own.NotCalling?
    case RelayClosing(_) => conn.Some? && (own.NotCalling? ==> conn.value.once.Finished?)
    case DeferredClosing(_) => conn.Some? && (own.NotCalling? ==> conn.value.once.Finished?)
  }

  /** What a Close call in progress says about its connection: the once lets one caller inside. */
  predicate CallOk(c: Caller, call: Call, conn: Option<Tracked>)
    requires !call.NotCalling?
  {
    && conn.Some?
    && (c.Own? ==> c.h == call.h)
    && (!call.Entering? ==> conn.value.once == Held(c) && (conn.value.released <==> !call.DecrDue?))
    && (call.FinishDue? ==> !conn.value.innerOpen)
  }

  predicate ConnOk(h: Handler, t: Tracked, holder: Call) {
    match t.once
    case Fresh => !t.released
    case Held(_) => !holder.NotCalling? && !holder.Entering? && holder.h == h
    case Finished => t.released && !t.innerOpen
  }

  ghost predicate StagesFit(s: State) {
    forall h: Handler :: StageOk(StageOf(s, h), ConnOf(s, h), CallOf(s, Own(h)))
  }

  ghost predicate CallsFit(s: State) {
    forall c: Caller :: !CallOf(s, c).NotCalling? ==> CallOk(c, CallOf(s, c), ConnOf(s, CallOf(s, c).h))
  }

  function HolderCall(s: State, t: Tracked): Call { if t.once.Held? then CallOf(s, t.once.who) else NotCalling }

  ghost predicate ConnsFit(s: State) {
    forall h: Handler :: h in s.conns ==> ConnOk(h, s.conns[h], HolderCall(s, s.conns[h]))
  }

  ghost predicate Inv(s: State) { StagesFit(s) && CallsFit(s) && ConnsFit(s) && Balanced(s) }

  lemma InitInv()
    ensures Inv(INIT)
  {
  }

  /** The handler whose stage or connection a step may change, and the caller whose call it may change. */
  function Touches(s: State, a: Action): (Handler, Caller)
    requires Enabled(s, a)
  {
    match a
    case CloseStep(c) => (CallOf(s, c).h, c)
    case OtherCloses(n, h) => (h, Other(n))
    case _ => (a.h, Own(a.h))
  }

  lemma OthersUntouched(s: State, a: Action)
    requires Enabled(s, a)
    ensures var (h, c) := Touches(s, a);
            && (forall k: Handler :: k != h ==>
                 StageOf(Do(s, a), k) == StageOf(s, k) && ConnOf(Do(s, a), k) == ConnOf(s, k))
            && (forall d: Caller :: d != c ==> CallOf(Do(s, a), d) == CallOf(s, d))
  {
  }

  lemma StagesKept(s: State, a: Action)
    requires StagesFit(s) && CallsFit(s) && ConnsFit(s) && Enabled(s, a)
    ensures StagesFit(Do(s, a))
  {
    var s' := Do(s, a);
    var (h, c) := Touches(s, a);
    assert StageOk(StageOf(s, h), ConnOf(s, h), CallOf(s, Own(h)));
    assert !CallOf(s, c).NotCalling? ==> CallOk(c, CallOf(s, c), ConnOf(s, CallOf(s, c).h));
    TouchedStageOk(s, a);
    OthersUntouched(s, a);
    hide Do;
    forall k: Handler ensures StageOk(StageOf(s', k), ConnOf(s', k), CallOf(s', Own(k))) {
      assert StageOk(StageOf(s, k), ConnOf(s, k), CallOf(s, Own(k)));
    }
  }

  lemma TouchedStageOk(s: State, a: Action)
    requires Enabled(s, a)
    requires var (h, c) := Touches(s, a);
             && StageOk(StageOf(s, h), ConnOf(s, h), CallOf(s, Own(h)))
             && (!CallOf(s, c).NotCalling? ==> CallOk(c, CallOf(s, c), ConnOf(s, CallOf(s, c).h)))
    ensures var h := Touches(s, a).0;
            StageOk(StageOf(Do(s, a), h), ConnOf(Do(s, a), h), CallOf(Do(s, a), Own(h)))
  {
  }

  lemma CallsKept(s: State, a: Action)
    requires StagesFit(s) && CallsFit(s) && ConnsFit(s) && Enabled(s, a)
    ensures CallsFit(Do(s, a))
  {
    var s' := Do(s, a);
    var (h, c) := Touches(s, a);
    assert StageOk(StageOf(s, h), ConnOf(s, h), CallOf(s, Own(h)));
    assert !CallOf(s, c).NotCalling? ==> CallOk(c, CallOf(s, c), ConnOf(s, CallOf(s, c).h));
    TouchedCallOk(s, a);
    OthersUntouched(s, a);
    forall d: Caller | !CallOf(s', d).NotCalling? ensures CallOk(d, CallOf(s', d), ConnOf(s', CallOf(s', d).h)) {
      if d != c {
        assert CallOk(d, CallOf(s, d), ConnOf(s, CallOf(s, d).h));
      }
    }
  }

  lemma TouchedCallOk(s: State, a: Action)
    requires Enabled(s, a)
    requires var (h, c) := Touches(s, a);
             && StageOk(StageOf(s, h), ConnOf(s, h), CallOf(s, Own(h)))
             && (!CallOf(s, c).NotCalling? ==> CallOk(c, CallOf(s, c), ConnOf(s, CallOf(s, c).h)))
    requires forall h: Handler :: h in s.conns ==> ConnOk(h, s.conns[h], HolderCall(s, s.conns[h]))
    ensures var c := Touches(s, a).1; var call := CallOf(Do(s, a), c);
            !call.NotCalling? ==> CallOk(c, call, ConnOf(Do(s, a), call.h))
  {
  }

  lemma ConnsKept(s: State, a: Action)
    requires StagesFit(s) && CallsFit(s) && ConnsFit(s) && Enabled(s, a)
    ensures ConnsFit(Do(s, a))
  {
    var s' := Do(s, a);
    var (h, c) := Touches(s, a);
    assert StageOk(StageOf(s, h), ConnOf(s, h), CallOf(s, Own(h)));
    assert !CallOf(s, c).NotCalling? ==> CallOk(c, CallOf(s, c), ConnOf(s, CallOf(s, c).h));
    OthersUntouched(s, a);
    forall k: Handler | k in s'.conns ensures ConnOk(k, s'.conns[k], HolderCall(s', s'.conns[k])) {
      if k in s.conns {
        assert ConnOk(k, s.conns[k], HolderCall(s, s.conns[k]));
      }
      assert k != h ==> ConnOf(s', k) == ConnOf(s, k);
    }
  }

  /** How a step moves the two sets that are counted. */
  lemma SetsAfter(s: State, a: Action, w: Worker)
    requires StagesFit(s) && CallsFit(s) && Enabled(s, a)
    ensures var (h, c) := Touches(s, a);
            && InFlight(Do(s, a), w) - {h} == InFlight(s, w) - {h}
            && Unclosed(Do(s, a), w) - {h} == Unclosed(s, w) - {h}
  {
    OthersUntouched(s, a);
    var s' := Do(s, a);
    var (h, c) := Touches(s, a);
    hide Do;
    forall k: Handler | k != h
      ensures (k in InFlight(s', w) <==> k in InFlight(s, w)) && (k in Unclosed(s', w) <==> k in Unclosed(s, w))
    {
      assert StageOf(s', k) == StageOf(s, k) && ConnOf(s', k) == ConnOf(s, k);
    }
  }

  lemma Split(handlers: set<Handler>, h: Handler)
    ensures |handlers| == |handlers - {h}| + if h in handlers then 1 else 0
  {
    if h in handlers {
      assert handlers == (handlers - {h}) + {h};
    } else {
      assert handlers == handlers - {h};
    }
  }

  /** For the handler it touches, a step changes the counter by as much as it changes the sets. */
  lemma TouchedBalance(s: State, a: Action, w: Worker)
    requires StagesFit(s) && CallsFit(s) && Enabled(s, a)
    ensures var (h, c) := Touches(s, a); var s' := Do(s, a);
            ActiveConns(s', w) - ActiveConns(s, w) == Weight(s', h, w) - Weight(s, h, w)
  {
    var (h, c) := Touches(s, a);
    assert StageOk(StageOf(s, h), ConnOf(s, h), CallOf(s, Own(h)));
    assert !CallOf(s, c).NotCalling? ==> CallOk(c, CallOf(s, c), ConnOf(s, CallOf(s, c).h));
    hide StagesFit, CallsFit;
  }

  function Weight(s: State, h: Handler, w: Worker): nat {
    (if StageOf(s, h) == Counted(w) || StageOf(s, h) == Failing(w) then 1 else 0)
    + (if h in s.conns && s.conns[h].w == w && !s.conns[h].released then 1 else 0)
  }

  lemma CountWithout(s: State, h: Handler, w: Worker)
    ensures |InFlight(s, w)| + |Unclosed(s, w)| == |InFlight(s, w) - {h}| + |Unclosed(s, w) - {h}| + Weight(s, h, w)
  {
    Split(InFlight(s, w), h);
    Split(Unclosed(s, w), h);
  }

  lemma BalanceKept(s: State, a: Action)
    requires StagesFit(s) && CallsFit(s) && Balanced(s) && Enabled(s, a)
    ensures Balanced(Do(s, a))
  {
    var s' := Do(s, a);
    var h := Touches(s, a).0;
    hide Do, StagesFit, CallsFit, InFlight, Unclosed, Weight, Touches, Enabled, ActiveConns;
    forall w: Worker ensures ActiveConns(s', w) == |InFlight(s', w)| + |Unclosed(s', w)| {
      assert ActiveConns(s, w) == |InFlight(s, w)| + |Unclosed(s, w)|;
      SetsAfter(s, a, w);
      TouchedBalance(s, a, w);
      CountWithout(s, h, w);
      CountWithout(s', h, w);
    }
  }

  lemma {:induction false} RunKeepsInv(s: State, run: seq<Action>)
    requires Inv(s) && Legal(s, run)
    ensures Inv(Exec(s, run))
    decreases |run|
  {
    if run != [] {
      hide StagesFit, CallsFit, ConnsFit, Balanced, Do;
      StagesKept(s, run[0]);
      CallsKept(s, run[0]);
      ConnsKept(s, run[0]);
      BalanceKept(s, run[0]);
      RunKeepsInv(Do(s, run[0]), run[1..]);
    }
  }

  // Theorems over every interleaving

  /** A worker's counter is its in-flight dials plus its tracked connections not yet closed; never negative. */
  lemma Conservation(run: seq<Action>, w: Worker)
    requires Legal(INIT, run)
    ensures var s := Exec(INIT, run);
            ActiveConns(s, w) == |InFlight(s, w)| + |Unclosed(s, w)| && ActiveConns(s, w) >= 0
  {
    InitInv();
    RunKeepsInv(INIT, run);
  }

  ghost predicate NoHandlerInProgress(s: State) {
    forall h: Handler :: StageOf(s, h).Idle? || StageOf(s, h).Done?
  }

  /** With no handler in progress every counter is zero and every tracked connection is closed underneath. */
  lemma QuietMeansZero(run: seq<Action>, w: Worker)
    requires Legal(INIT, run) && NoHandlerInProgress(Exec(INIT, run))
    ensures ActiveConns(Exec(INIT, run), w) == 0
    ensures forall h :: h in Exec(INIT, run).conns ==> !Exec(INIT, run).conns[h].innerOpen
  {
    InitInv();
    RunKeepsInv(INIT, run);
    var s := Exec(INIT, run);
    forall h: Handler ensures h !in InFlight(s, w) && h !in Unclosed(s, w) && (h in s.conns ==> !s.conns[h].innerOpen) {
      assert StageOf(s, h).Idle? || StageOf(s, h).Done?;
      assert StageOk(StageOf(s, h), ConnOf(s, h), CallOf(s, Own(h)));
    }
    assert InFlight(s, w) == {} && Unclosed(s, w) == {};
  }

  // Sessions get through

  lemma OneStep(s: State, a: Action, rest: seq<Action>)
    requires Enabled(s, a) && Legal(Do(s, a), rest)
    ensures Legal(s, [a] + rest) && Exec(s, [a] + rest) == Exec(Do(s, a), rest)
  {
    hide Do, Enabled;
    assert ([a] + rest)[1..] == rest;
  }

  lemma NoSteps(s: State)
    ensures Legal(s, []) && Exec(s, []) == s
  {
  }

  /** A handler that has not dialled. */
  predicate Unused(s: State, h: Handler) {
    StageOf(s, h).Idle? && h !in s.conns && CallOf(s, Own(h)).NotCalling?
  }

  /** Holds an open connection through `w` that nobody is closing. */
  predicate Holds(s: State, h: Handler, w: Worker) {
    StageOf(s, h) == Connected(w) && ConnOf(s, h) == Some(Tracked(w, Fresh, false, true)) && CallOf(s, Own(h)).NotCalling?
  }

  /** A dial that succeeds counts one connection and hands it over. */
  lemma DialCounts(s: State, h: Handler, w: Worker) returns (run: seq<Action>)
    requires Unused(s, h)
    ensures Legal(s, run) && Holds(Exec(s, run), h, w)
    ensures ActiveConns(Exec(s, run), w) == ActiveConns(s, w) + 1
  {
    hide Legal, Exec;
    var s1 := Do(s, Pick(h, w));
    var s2 := Do(s1, Incr(h));
    var s3 := Do(s2, DialSucceeds(h));
    NoSteps(s3);
    OneStep(s2, DialSucceeds(h), []);
    OneStep(s1, Incr(h), [DialSucceeds(h)] + []);
    OneStep(s, Pick(h, w), [Incr(h)] + ([DialSucceeds(h)] + []));
    run := [Pick(h, w)] + ([Incr(h)] + ([DialSucceeds(h)] + []));
  }

  /** A dial that fails leaves the count as it was and no connection. */
  lemma FailedDialUncounts(s: State, h: Handler, w: Worker) returns (run: seq<Action>)
    requires Unused(s, h)
    ensures Legal(s, run) && StageOf(Exec(s, run), h).Done? && h !in Exec(s, run).conns
    ensures ActiveConns(Exec(s, run), w) == ActiveConns(s, w)
  {
    hide Legal, Exec;
    var s1 := Do(s, Pick(h, w));
    var s2 := Do(s1, Incr(h));
    var s3 := Do(s2, DialFails(h));
    var s4 := Do(s3, Decr(h));
    NoSteps(s4);
    OneStep(s3, Decr(h), []);
    OneStep(s2, DialFails(h), [Decr(h)] + []);
    OneStep(s1, Incr(h), [DialFails(h)] + ([Decr(h)] + []));
    OneStep(s, Pick(h, w), [Incr(h)] + ([DialFails(h)] + ([Decr(h)] + [])));
    run := [Pick(h, w)] + ([Incr(h)] + ([DialFails(h)] + ([Decr(h)] + [])));
  }

  /** Undisturbed, the first Close of a connection runs to its end: one count back, then the inner close. */
  lemma FirstCloseRuns(s: State, h: Handler, w: Worker) returns (run: seq<Action>)
    requires CallOf(s, Own(h)) == Entering(h) && ConnOf(s, h) == Some(Tracked(w, Fresh, false, true))
    ensures Legal(s, run) && ActiveConns(Exec(s, run), w) == ActiveConns(s, w) - 1
    ensures ConnOf(Exec(s, run), h) == Some(Tracked(w, Finished, true, false))
    ensures CallOf(Exec(s, run), Own(h)).NotCalling? && StageOf(Exec(s, run), h) == StageOf(s, h)
  {
    hide Legal, Exec;
    var a := CloseStep(Own(h));
    var s1 := Do(s, a);
    var s2 := Do(s1, a);
    var s3 := Do(s2, a);
    var s4 := Do(s3, a);
    NoSteps(s4);
    OneStep(s3, a, []);
    OneStep(s2, a, [a] + []);
    OneStep(s1, a, [a] + ([a] + []));
    OneStep(s, a, [a] + ([a] + ([a] + [])));
    run := [a] + ([a] + ([a] + ([a] + [])));
  }

  /** The deferred Close after it finds the once finished and does nothing. */
  lemma SecondCloseReturns(s: State, h: Handler, w: Worker) returns (run: seq<Action>)
    requires StageOf(s, h) == RelayClosing(w) && CallOf(s, Own(h)).NotCalling?
    requires ConnOf(s, h) == Some(Tracked(w, Finished, true, false))
    ensures Legal(s, run) && StageOf(Exec(s, run), h).Done? && ActiveConns(Exec(s, run), w) == ActiveConns(s, w)
    ensures ConnOf(Exec(s, run), h) == ConnOf(s, h)
  {
    hide Legal, Exec;
    var s1 := Do(s, RelayCloseReturned(h));
    var s2 := Do(s1, CloseStep(Own(h)));
    var s3 := Do(s2, Return(h));
    NoSteps(s3);
    OneStep(s2, Return(h), []);
    OneStep(s1, CloseStep(Own(h)), [Return(h)] + []);
    OneStep(s, RelayCloseReturned(h), [CloseStep(Own(h))] + ([Return(h)] + []));
    run := [RelayCloseReturned(h)] + ([CloseStep(Own(h))] + ([Return(h)] + []));
  }

  lemma {:induction false} RunsJoin(s: State, a: seq<Action>, b: seq<Action>)
    requires Legal(s, a) && Legal(Exec(s, a), b)
    ensures Legal(s, a + b) && Exec(s, a + b) == Exec(Exec(s, a), b)
    decreases |a|
  {
    hide Do, Enabled;
    if a == [] {
      assert a + b == b;
    } else {
      RunsJoin(Do(s, a[0]), a[1..], b);
      assert (a + b)[1..] == a[1..] + b;
    }
  }

  /** A whole session, from the dial to the second close, gives back exactly what it took. */
  lemma SessionGetsThrough(s: State, h: Handler, w: Worker) returns (run: seq<Action>)
    requires Unused(s, h)
    ensures Legal(s, run) && StageOf(Exec(s, run), h).Done?
    ensures ActiveConns(Exec(s, run), w) == ActiveConns(s, w)
    ensures ConnOf(Exec(s, run), h) == Some(Tracked(w, Finished, true, false))
  {
    hide Legal, Exec;
    run := DialCounts(s, h, w);
    var s1 := Exec(s, run);
    var s2 := Do(s1, RelayEnds(h));
    var close := FirstCloseRuns(s2, h, w);
    OneStep(s1, RelayEnds(h), close);
    RunsJoin(s, run, [RelayEnds(h)] + close);
    run := run + ([RelayEnds(h)] + close);
    var last := SecondCloseReturns(Exec(s, run), h, w);
    RunsJoin(s, run, last);
    run := run + last;
  }
}
