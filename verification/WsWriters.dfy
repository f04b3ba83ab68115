/**
  Concurrent writers on one connection of pkg/dataplane/websocket/conn.go: any number of goroutines in
  Write, in the pong of Read or in Close, one atomic step at a time. `writeMu` spans the two socket
  writes of a frame; closing the socket does not take it.
*/
module WsWriters {
  import opened Bytes
  import opened WsFrame
  import opened WsStream
  import opened Seqs
  import WsConn

  type Thread = nat

  datatype Stage =
    | Idle
    | HeaderDue(f: Frame, key: Key)
    | BodyDue(f: Frame, key: Key)
    | UnlockDue(f: Frame, ok: bool)
    | SocketDue

  datatype State = State(
    output: seq<byte>,
    open: bool,
    holder: set<Thread>,              // who holds writeMu: nobody or one thread
    stage: map<Thread, Stage>,
    log: seq<(Thread, Frame)>,        // frames whose last byte is out, in order
    acked: map<Thread, seq<Frame>>,   // per thread, the frames whose call returned without error
    partial: seq<byte>                // bytes of a frame not completed at the end of output
  )

  datatype Action =
    | Lock(t: Thread, f: Frame, key: Key)
    | WriteHeader(t: Thread)
    | WriteBody(t: Thread)
    | Unlock(t: Thread)
    | CloseSocket(t: Thread)

  function StageOf(s: State, t: Thread): Stage { if t in s.stage then s.stage[t] else Idle }
  function AckedOf(s: State, t: Thread): seq<Frame> { if t in s.acked then s.acked[t] else [] }

  const INIT: State := State([], true, {}, map[], [], map[], [])

  predicate Enabled(s: State, a: Action) {
    match a
    case Lock(t, f, _) => s.holder == {} && StageOf(s, t).Idle? && f.Fits()
    case WriteHeader(t) => StageOf(s, t).HeaderDue?
    case WriteBody(t) => StageOf(s, t).BodyDue?
    case Unlock(t) => StageOf(s, t).UnlockDue?
    case CloseSocket(t) => StageOf(s, t).SocketDue?
  }

  /** The frame is out: an empty payload needs no second socket write (conn.go:281). */
  function Complete(s: State, t: Thread, f: Frame, bytes: seq<byte>): State {
    s.(output := s.output + bytes, partial := [], log := s.log + [(t, f)], stage := s.stage[t := UnlockDue(f, true)])
  }

  function Do(s: State, a: Action): State
    requires Enabled(s, a)
  {
    match a
    case Lock(t, f, key) => s.(holder := {t}, stage := s.stage[t := HeaderDue(f, key)])
    case WriteHeader(t) =>
      var HeaderDue(f, key) := StageOf(s, t);
      var header := Header(f.opcode, |f.payload|, key);
      if !s.open then s.(stage := s.stage[t := UnlockDue(f, false)])
      else if f.payload == [] then Complete(s, t, f, header)
      else s.(output := s.output + header, partial := header, stage := s.stage[t := BodyDue(f, key)])
    case WriteBody(t) =>
      var BodyDue(f, key) := StageOf(s, t);
      if !s.open then s.(stage := s.stage[t := UnlockDue(f, false)])
      else Complete(s, t, f, Mask(key, f.payload))
    case Unlock(t) =>
      var UnlockDue(f, ok) := StageOf(s, t);
      s.(holder := {}, stage := s.stage[t := if IsClose(f) then SocketDue else Idle],
         acked := if ok then s.acked[t := AckedOf(s, t) + [f]] else s.acked)
    case CloseSocket(t) => s.(open := false, stage := s.stage[t := Idle])
  }

  ghost predicate Legal(s: State, run: seq<Action>)
    decreases |run|
  {
    run == [] || (Enabled(s, run[0]) && Legal(Do(s, run[0]), run[1..]))
  }

  ghost function Exec(s: State, run: seq<Action>): State
    requires Legal(s, run)
    decreases |run|
  {
    if run == [] then s else Exec(Do(s, run[0]), run[1..])
  }

  function FramesOf(log: seq<(Thread, Frame)>): (fs: seq<Frame>)
    ensures |fs| == |log|
  {
    seq(|log|, i requires 0 <= i < |log| => log[i].1)
  }

  /** The frames of one thread, in the order they went out. */
  function By(t: Thread, log: seq<(Thread, Frame)>): seq<Frame> {
    if log == [] then []
    else
      var last := log[|log| - 1];
      By(t, log[..|log| - 1]) + if last.0 == t then [last.1] else []
  }

  // Invariants

  /** At most one thread is between locking and unlocking, and it is the holder. */
  ghost predicate MutualExclusion(s: State) {
    && (forall t: Thread :: Busy(StageOf(s, t)) <==> t in s.holder)
    && (forall t, u :: t in s.holder && u in s.holder ==> t == u)
  }

  predicate Busy(st: Stage) { st.HeaderDue? || st.BodyDue? || st.UnlockDue? }

  /** The output is whole frames, then possibly the header of one whose body is due or was refused. */
  ghost predicate Wire(s: State) {
    && |s.partial| <= |s.output|
    && s.output[|s.output| - |s.partial|..] == s.partial
    && var whole := s.output[..|s.output| - |s.partial|];
       Frames(whole) == FramesOf(s.log) && Tail(whole) == []
  }

  ghost predicate PartialOk(s: State) {
    && (forall t: Thread :: StageOf(s, t).HeaderDue? ==> StageOf(s, t).f.Fits() && (s.open ==> s.partial == []))
    && (forall t: Thread :: StageOf(s, t).BodyDue? ==>
          var st := StageOf(s, t);
          st.f.Fits() && st.f.payload != [] && s.partial == Header(st.f.opcode, |st.f.payload|, st.key))
    && (s.partial != [] ==> !s.open || exists t: Thread :: StageOf(s, t).BodyDue?)
    && (s.partial != [] ==> Decode(s.partial).Short?)
  }

  ghost predicate HasClose(fs: seq<Frame>) { exists f :: f in fs && IsClose(f) }

  /** The socket is closed only after a close frame is out whole. */
  ghost predicate CloseFirst(s: State) {
    && (!s.open ==> HasClose(FramesOf(s.log)))
    && (forall t: Thread :: StageOf(s, t).SocketDue? ==> HasClose(FramesOf(s.log)))
    && (forall t: Thread :: StageOf(s, t).UnlockDue? && s.open ==> StageOf(s, t).ok)
    && (forall t: Thread :: StageOf(s, t).UnlockDue? && StageOf(s, t).ok ==> StageOf(s, t).f in FramesOf(s.log))
  }

  /** Each thread's acknowledged frames, and one about to be acknowledged, are its frames on the wire. */
  ghost predicate Acknowledged(s: State) {
    forall t: Thread :: By(t, s.log) == AckedOf(s, t) + Pending(StageOf(s, t))
  }

  function Pending(st: Stage): seq<Frame> {
    if st.UnlockDue? && st.ok then [st.f] else []
  }

  ghost predicate Inv(s: State) {
    MutualExclusion(s) && Wire(s) && PartialOk(s) && CloseFirst(s) && Acknowledged(s)
  }

  lemma InitInv()
    ensures Inv(INIT)
  {
    hide Decode, Frames, Tail;
    FramesStep([]);
    assert INIT.output[..0] == [];
  }

  /** A step changes the stage of its own thread only. */
  lemma OthersUntouched(s: State, a: Action)
    requires Enabled(s, a)
    ensures forall t: Thread :: t != a.t ==> StageOf(Do(s, a), t) == StageOf(s, t)
  {
    hide Header, Mask;
  }

  lemma MutualExclusionKept(s: State, a: Action)
    requires MutualExclusion(s) && Enabled(s, a)
    ensures MutualExclusion(Do(s, a))
  {
    hide Header, Mask;
    OthersUntouched(s, a);
  }

  lemma PartialKept(s: State, a: Action)
    requires MutualExclusion(s) && PartialOk(s) && Enabled(s, a)
    ensures PartialOk(Do(s, a))
  {
    hide Header, Mask, Decode;
    OthersUntouched(s, a);
    if a.WriteHeader? {
      var HeaderDue(f, key) := StageOf(s, a.t);
      if s.open && f.payload != [] {
        HeaderIsShort(f, key);
        assert StageOf(Do(s, a), a.t).BodyDue?;
      }
    }
    if s.partial != [] && s.open {
      var t: Thread :| StageOf(s, t).BodyDue?;
      assert t != a.t ==> StageOf(Do(s, a), t).BodyDue?;
    }
  }

  /** A header on its own is a strict prefix of its frame. */
  lemma HeaderIsShort(f: Frame, key: Key)
    requires f.Fits() && f.payload != []
    ensures Decode(Header(f.opcode, |f.payload|, key)).Short?
  {
    hide Decode;
    var whole, n := Encode(f, key), |Header(f.opcode, |f.payload|, key)|;
    RoundTrip(f, key, []);
    assert whole + [] == whole;
    StrictPrefixFails(whole, n);
    assert whole[..n] == Header(f.opcode, |f.payload|, key);
  }

  lemma WireKept(s: State, a: Action)
    requires MutualExclusion(s) && PartialOk(s) && Wire(s) && Enabled(s, a)
    ensures Wire(Do(s, a))
  {
    hide Header, Mask, Decode, Frames, Tail;
    var whole := s.output[..|s.output| - |s.partial|];
    assert s.output == whole + s.partial;
    if a.WriteHeader? && s.open {
      var HeaderDue(f, key) := StageOf(s, a.t);
      var header := Header(f.opcode, |f.payload|, key);
      assert s.partial == [] && whole == s.output;
      if f.payload == [] {
        assert Encode(f, key) == header + [];
        Completed(s, a.t, f, key, whole, header);
      } else {
        assert (whole + header)[..|whole|] == whole && (whole + header)[|whole|..] == header;
      }
    } else if a.WriteBody? && s.open {
      var BodyDue(f, key) := StageOf(s, a.t);
      Assoc(whole, s.partial, Mask(key, f.payload));
      Completed(s, a.t, f, key, whole, Mask(key, f.payload));
    }
  }

  lemma Completed(s: State, t: Thread, f: Frame, key: Key, whole: seq<byte>, bytes: seq<byte>)
    requires Frames(whole) == FramesOf(s.log) && Tail(whole) == [] && f.Fits()
    requires s.output + bytes == whole + Encode(f, key)
    ensures Wire(Complete(s, t, f, bytes))
  {
    hide Encode, Frames, Tail;
    WriteOne(whole, f, key);
    assert FramesOf(s.log + [(t, f)]) == FramesOf(s.log) + [f];
    assert (s.output + bytes)[..|s.output + bytes|] == s.output + bytes;
  }

  lemma CloseFirstKept(s: State, a: Action)
    requires MutualExclusion(s) && CloseFirst(s) && Enabled(s, a)
    ensures CloseFirst(Do(s, a))
  {
    hide Header, Mask;
    OthersUntouched(s, a);
    var s' := Do(s, a);
    if |s'.log| > |s.log| {
      assert s'.log == s.log + [s'.log[|s.log|]];
      LogGrows(s.log, s'.log[|s.log|]);
    }
  }

  lemma LogGrows(log: seq<(Thread, Frame)>, last: (Thread, Frame))
    ensures FramesOf(log + [last]) == FramesOf(log) + [last.1]
    ensures HasClose(FramesOf(log)) ==> HasClose(FramesOf(log + [last]))
  {
    assert FramesOf(log + [last]) == FramesOf(log) + [last.1];
    if HasClose(FramesOf(log)) {
      var f :| f in FramesOf(log) && IsClose(f);
      assert f in FramesOf(log + [last]);
    }
  }

  lemma AcknowledgedKept(s: State, a: Action)
    requires MutualExclusion(s) && Acknowledged(s) && Enabled(s, a)
    ensures Acknowledged(Do(s, a))
  {
    hide MutualExclusion, By, Do, Pending;
    var s' := Do(s, a);
    forall t: Thread ensures By(t, s'.log) == AckedOf(s', t) + Pending(StageOf(s', t)) {
      assert By(t, s.log) == AckedOf(s, t) + Pending(StageOf(s, t));
      LogAfter(s, a, t);
    }
  }

  /** A step adds to the log exactly what it adds to what is, or is about to be, acknowledged. */
  lemma LogAfter(s: State, a: Action, t: Thread)
    requires Enabled(s, a)
    requires By(t, s.log) == AckedOf(s, t) + Pending(StageOf(s, t))
    ensures var s' := Do(s, a); By(t, s'.log) == AckedOf(s', t) + Pending(StageOf(s', t))
  {
    hide Header, Mask, By;
    var s' := Do(s, a);
    if |s'.log| > |s.log| {
      assert s'.log == s.log + [s'.log[|s.log|]];
      BySnoc(t, s.log, s'.log[|s.log|]);
    }
  }

  lemma BySnoc(t: Thread, log: seq<(Thread, Frame)>, last: (Thread, Frame))
    ensures By(t, log + [last]) == By(t, log) + if last.0 == t then [last.1] else []
  {
    assert (log + [last])[..|log|] == log;
  }

  lemma {:induction false} RunKeepsInv(s: State, run: seq<Action>)
    requires Inv(s) && Legal(s, run)
    ensures Inv(Exec(s, run))
    decreases |run|
  {
    if run != [] {
      hide MutualExclusion, Wire, PartialOk, CloseFirst, Acknowledged, Do;
      MutualExclusionKept(s, run[0]);
      PartialKept(s, run[0]);
      WireKept(s, run[0]);
      CloseFirstKept(s, run[0]);
      AcknowledgedKept(s, run[0]);
      RunKeepsInv(Do(s, run[0]), run[1..]);
    }
  }

  // Theorems over every interleaving

  /**
    The output is a concatenation of whole frames; bytes of an unfinished frame follow only while a
    writer holds the lock between its two writes, or once the socket is closed after a whole close frame.
  */
  lemma OutputIsWholeFrames(run: seq<Action>)
    requires Legal(INIT, run)
    ensures var s := Exec(INIT, run);
            && Frames(s.output) == FramesOf(s.log)
            && Tail(s.output) == s.partial
            && (s.open && s.holder == {} ==> Tail(s.output) == [])
            && (!s.open ==> HasClose(Frames(s.output)))
  {
    hide Inv, Exec, Legal, INIT;
    InitInv();
    RunKeepsInv(INIT, run);
    InvReads(Exec(INIT, run));
  }

  lemma InvReads(s: State)
    requires Inv(s)
    ensures Frames(s.output) == FramesOf(s.log) && Tail(s.output) == s.partial
    ensures s.open && s.holder == {} ==> s.partial == []
    ensures !s.open ==> HasClose(Frames(s.output))
  {
    hide Decode, Frames, Tail, Header, Acknowledged;
    var whole := s.output[..|s.output| - |s.partial|];
    assert s.output == whole + s.partial;
    FramesAppend(whole, s.partial);
    FramesStep(s.partial);
    assert FramesOf(s.log) + [] == FramesOf(s.log);
  }

  /** No acknowledged frame is lost, duplicated or reordered against its own thread's others. */
  lemma AcknowledgedFramesAreOnTheWire(run: seq<Action>, t: Thread)
    requires Legal(INIT, run)
    ensures var s := Exec(INIT, run);
            && AckedOf(s, t) <= By(t, s.log)
            && (!StageOf(s, t).UnlockDue? ==> By(t, s.log) == AckedOf(s, t))
  {
    InitInv();
    RunKeepsInv(INIT, run);
  }

  /**
    A peer reading the output with nonempty buffers gets exactly the data before the first close, and
    once the socket is closed there is such a close, so everything sent before it arrives.
  */
  method PeerReads(run: seq<Action>, s: State, sizes: nat -> nat) returns (peer: WsConn.Conn)
    requires Legal(INIT, run) && s == Exec(INIT, run)
    ensures peer.delivered == DataOf(UpToClose(FramesOf(s.log)))
    ensures !s.open ==> exists i :: 0 <= i < |s.log| && IsClose(s.log[i].1)
                                    && (forall k :: 0 <= k < i ==> !IsClose(s.log[k].1))
                                    && peer.delivered == DataOf(FramesOf(s.log[..i]))
  {
    hide Exec, Legal, Frames, Tail, DataOf, UpToClose;
    peer := new WsConn.Conn(s.output);
    var err := WsConn.ReadToEnd(peer, sizes);
    OutputIsWholeFrames(run);
    if !s.open {
      ghost var i := FirstClose(s.log);
      SplitAtClose(s.log, i);
    }
  }

  lemma {:induction false} FirstClose(log: seq<(Thread, Frame)>) returns (i: nat)
    requires HasClose(FramesOf(log))
    ensures i < |log| && IsClose(log[i].1) && forall k :: 0 <= k < i ==> !IsClose(log[k].1)
  {
    i := 0;
    var f :| f in FramesOf(log) && IsClose(f);
    var j :| 0 <= j < |log| && FramesOf(log)[j] == f;
    while !IsClose(log[i].1)
      invariant i <= j && forall k :: 0 <= k < i ==> !IsClose(log[k].1)
      decreases j - i
    {
      i := i + 1;
    }
  }

  lemma SplitAtClose(log: seq<(Thread, Frame)>, i: nat)
    requires i < |log| && IsClose(log[i].1) && forall k :: 0 <= k < i ==> !IsClose(log[k].1)
    ensures DataOf(UpToClose(FramesOf(log))) == DataOf(FramesOf(log[..i]))
  {
    var before, after := FramesOf(log[..i]), FramesOf(log[i + 1..]);
    assert FramesOf(log) == before + [log[i].1] + after;
    DataBeforeClose(before, log[i].1, after);
  }

  lemma {:induction false} RunSplits(s: State, before: seq<Action>, after: seq<Action>)
    requires Legal(s, before + after)
    ensures Legal(s, before) && Legal(Exec(s, before), after)
    ensures Exec(s, before + after) == Exec(Exec(s, before), after)
    decreases |before|
  {
    hide Do, Enabled;
    if before == [] {
      EmptyRun(s);
      assert before + after == after;
    } else {
      assert (before + after)[0] == before[0] && (before + after)[1..] == before[1..] + after;
      RunSplits(Do(s, before[0]), before[1..], after);
    }
  }

  lemma {:induction false} LogOnlyGrows(s: State, run: seq<Action>)
    requires Legal(s, run)
    ensures s.log <= Exec(s, run).log
    decreases |run|
  {
    hide Header, Mask;
    if run != [] {
      LogOnlyGrows(Do(s, run[0]), run[1..]);
    }
  }

  predicate CallsClose(a: Action) { a.Lock? && IsClose(a.f) }

  /** A thread with a frame to write or to unlock does not have a close frame, and none is on the wire. */
  ghost predicate NoCloseYet(s: State) {
    && !HasClose(FramesOf(s.log))
    && (forall t: Thread :: Busy(StageOf(s, t)) ==> !IsClose(StageOf(s, t).f))
  }

  lemma NoCloseKept(s: State, a: Action)
    requires NoCloseYet(s) && Enabled(s, a) && !CallsClose(a)
    ensures NoCloseYet(Do(s, a))
  {
    hide Header, Mask;
    OthersUntouched(s, a);
    var s' := Do(s, a);
    if |s'.log| > |s.log| {
      var last := s'.log[|s.log|];
      assert s'.log == s.log + [last];
      LogGrows(s.log, last);
      assert !IsClose(last.1);
    }
  }

  lemma {:induction false} NoCloseCalled(s: State, run: seq<Action>)
    requires NoCloseYet(s) && Legal(s, run) && forall a <- run :: !CallsClose(a)
    ensures NoCloseYet(Exec(s, run))
    decreases |run|
  {
    hide Do, Enabled, NoCloseYet;
    if run != [] {
      NoCloseKept(s, run[0]);
      NoCloseCalled(Do(s, run[0]), run[1..]);
    }
  }

  /**
    However a run goes on from a moment at which no close frame is out, the peer of the whole run is given
    the data of every frame completed up to that moment, from the start and in order.
  */
  lemma CompletedBeforeCloseArrives(before: seq<Action>, after: seq<Action>)
    requires Legal(INIT, before + after) && Legal(INIT, before)
    requires !HasClose(FramesOf(Exec(INIT, before).log))
    ensures DataOf(FramesOf(Exec(INIT, before).log)) <= DataOf(UpToClose(FramesOf(Exec(INIT, before + after).log)))
  {
    hide Do, Enabled, Frames, Tail, DataOf;
    RunSplits(INIT, before, after);
    var earlier, later := Exec(INIT, before), Exec(INIT, before + after);
    LogOnlyGrows(earlier, after);
    var fs, gs := FramesOf(earlier.log), FramesOf(later.log);
    assert fs <= gs;
    DataOfPrefix(fs, gs);
    assert forall f <- fs :: !IsClose(f);
    StopsAtClose(fs, fs);
  }

  /** Hence what was acknowledged before anybody called Close arrives, each thread's frames in its order. */
  lemma AcknowledgedBeforeCloseArrives(before: seq<Action>, after: seq<Action>, t: Thread)
    requires Legal(INIT, before + after) && forall a <- before :: !CallsClose(a)
    ensures Legal(INIT, before)
    ensures var earlier := Exec(INIT, before);
            && AckedOf(earlier, t) <= By(t, earlier.log)
            && DataOf(FramesOf(earlier.log)) <= DataOf(UpToClose(FramesOf(Exec(INIT, before + after).log)))
  {
    hide Do, Enabled, DataOf, UpToClose;
    RunSplits(INIT, before, after);
    NoCloseCalled(INIT, before);
    AcknowledgedFramesAreOnTheWire(before, t);
    CompletedBeforeCloseArrives(before, after);
  }

  /** A peer whose stream is cut anywhere gets a prefix of that data. */
  lemma CutStreamIsPrefix(run: seq<Action>, k: nat)
    requires Legal(INIT, run) && k <= |Exec(INIT, run).output|
    ensures var s := Exec(INIT, run);
            DataOf(UpToClose(Frames(s.output[..k]))) <= DataOf(UpToClose(FramesOf(s.log)))
  {
    OutputIsWholeFrames(run);
    var s := Exec(INIT, run);
    assert s.output == s.output[..k] + s.output[k..];
    FramesOfPrefix(s.output[..k], s.output[k..]);
    DataOfPrefix(Frames(s.output[..k]), FramesOf(s.log));
  }

  lemma OneStep(s: State, a: Action, rest: seq<Action>)
    requires Enabled(s, a) && Legal(Do(s, a), rest)
    ensures Legal(s, [a] + rest) && Exec(s, [a] + rest) == Exec(Do(s, a), rest)
  {
    hide Do, Enabled;
    assert ([a] + rest)[1..] == rest;
  }

  /**
    An undisturbed writer gets through: whenever the lock is free and the socket open, an idle thread's own
    steps are enabled in turn, put its whole frame on the wire and acknowledge it, and free the lock again.
    A thread that sent a close frame (opcode 8) can then close the socket.
  */
  lemma WriteCompletes(s: State, t: Thread, f: Frame, key: Key) returns (run: seq<Action>)
    requires s.open && s.holder == {} && StageOf(s, t).Idle? && f.Fits()
    ensures Legal(s, run)
    ensures var s' := Exec(s, run);
            && s'.output == s.output + Encode(f, key) && s'.log == s.log + [(t, f)]
            && AckedOf(s', t) == AckedOf(s, t) + [f]
            && s'.open && s'.holder == {}
            && (if f.opcode == 8 then Enabled(s', CloseSocket(t)) && !Do(s', CloseSocket(t)).open else StageOf(s', t).Idle?)
  {
    hide Header, Mask, Exec, Legal;
    var s1 := Do(s, Lock(t, f, key));
    var s2 := Do(s1, WriteHeader(t));
    var s3 := if f.payload == [] then s2 else Do(s2, WriteBody(t));
    var s4 := Do(s3, Unlock(t));
    EmptyRun(s4);
    OneStep(s3, Unlock(t), []);
    run := [Unlock(t)] + [];
    if f.payload != [] {
      OneStep(s2, WriteBody(t), run);
      run := [WriteBody(t)] + run;
      Assoc(s.output, Header(f.opcode, |f.payload|, key), Mask(key, f.payload));
    }
    OneStep(s1, WriteHeader(t), run);
    run := [WriteHeader(t)] + run;
    OneStep(s, Lock(t, f, key), run);
    run := [Lock(t, f, key)] + run;
    assert f.payload == [] ==> Mask(key, f.payload) == [];
  }

  /**
    Whole frames are not guaranteed after Close: it closes the socket without the lock, and here that falls
    between the two socket writes of another thread, whose frame stays torn with nobody left to finish it.
  */
  lemma CloseCanTearAFrame(f: Frame, close: Frame, key: Key) returns (run: seq<Action>)
    requires f.Fits() && f.payload != [] && close.Fits() && close.payload != [] && IsClose(close) && !IsClose(f)
    ensures Legal(INIT, run)
    ensures var s := Exec(INIT, run);
            !s.open && s.holder == {} && Tail(s.output) == Header(f.opcode, |f.payload|, key) && StageOf(s, 0).Idle?
  {
    hide Header, Mask, Tail, Frames, Exec, Legal;
    var header := Header(f.opcode, |f.payload|, key);
    var s1 := Do(INIT, Lock(1, close, key));
    var s2 := Do(s1, WriteHeader(1));
    var s3 := Do(s2, WriteBody(1));
    var s4 := Do(s3, Unlock(1));
    var s5 := Do(s4, Lock(0, f, key));
    var s6 := Do(s5, WriteHeader(0));
    var s7 := Do(s6, CloseSocket(1));
    var s8 := Do(s7, WriteBody(0));
    var s9 := Do(s8, Unlock(0));
    assert s9.partial == header && !s9.open && s9.holder == {} && StageOf(s9, 0).Idle?;
    EmptyRun(s9);
    OneStep(s8, Unlock(0), []);
    OneStep(s7, WriteBody(0), [Unlock(0)] + []);
    OneStep(s6, CloseSocket(1), [WriteBody(0)] + ([Unlock(0)] + []));
    OneStep(s5, WriteHeader(0), [CloseSocket(1)] + ([WriteBody(0)] + ([Unlock(0)] + [])));
    var last := [WriteHeader(0)] + ([CloseSocket(1)] + ([WriteBody(0)] + ([Unlock(0)] + [])));
    OneStep(s4, Lock(0, f, key), last);
    OneStep(s3, Unlock(1), [Lock(0, f, key)] + last);
    OneStep(s2, WriteBody(1), [Unlock(1)] + ([Lock(0, f, key)] + last));
    OneStep(s1, WriteHeader(1), [WriteBody(1)] + ([Unlock(1)] + ([Lock(0, f, key)] + last)));
    run := [Lock(1, close, key)] + ([WriteHeader(1)] + ([WriteBody(1)] + ([Unlock(1)] + ([Lock(0, f, key)] + last))));
    OneStep(INIT, Lock(1, close, key), run[1..]);
    assert run == [run[0]] + run[1..];
    OutputIsWholeFrames(run);
  }

  lemma EmptyRun(s: State)
    ensures Legal(s, []) && Exec(s, []) == s
  {
  }

  lemma {:induction false} ClosedOutputStays(s: State, run: seq<Action>)
    requires !s.open && Legal(s, run)
    ensures Exec(s, run).output == s.output
    decreases |run|
  {
    hide Header, Mask;
    if run != [] {
      ClosedOutputStays(Do(s, run[0]), run[1..]);
    }
  }

  /**
    Exactly when a frame is torn for good: the socket was closed while some thread was between the two
    socket writes of its frame. Nothing that happens afterwards makes or mends one.
  */
  lemma TornIffClosedMidFrame(before: seq<Action>, t: Thread, after: seq<Action>)
    requires Legal(INIT, before)
    requires var s := Exec(INIT, before);
             s.open && StageOf(s, t).SocketDue? && Legal(Do(s, CloseSocket(t)), after)
    ensures var s := Exec(INIT, before);
            Tail(Exec(Do(s, CloseSocket(t)), after).output) != [] <==> exists u: Thread :: StageOf(s, u).BodyDue?
  {
    var s := Exec(INIT, before);
    hide Exec, Legal, INIT, Frames, Tail, Decode, Acknowledged, CloseFirst, Wire, Header;
    InitInv();
    RunKeepsInv(INIT, before);
    ClosedOutputStays(Do(s, CloseSocket(t)), after);
    InvReads(s);
    if u: Thread :| StageOf(s, u).BodyDue? {
      var st := StageOf(s, u);
      assert Header(st.f.opcode, |st.f.payload|, st.key) != [] by { HeaderNotEmpty(st.f.opcode, |st.f.payload|, st.key); }
    }
  }

  lemma HeaderNotEmpty(opcode: byte, length: nat, key: Key)
    ensures Header(opcode, length, key) != []
  {
  }
}
