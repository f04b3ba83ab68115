/**
  The two-way copy of pkg/dataplane/transport/pipe.go: one copy loop on its own, then both loops and the
  caller that waits for them, one read, write or close at a time, in every order.
*/
module Relay {
  import opened Bytes
  import opened Seqs

  const BUFFER: nat := 32 * 1024

  // One copy loop

  class Endpoint {
    var input: seq<byte>     // what the peer sent and has not been read; then its end
    var output: seq<byte>    // what was written to the peer
    var room: nat            // bytes still accepted; the write that exceeds it fails after them
    var writeClosed: bool
    const tcp: bool          // only a TCP connection can close its write side alone

    constructor (input: seq<byte>, room: nat, tcp: bool)
      ensures this.input == input && this.room == room && this.tcp == tcp && output == [] && !writeClosed
    {
      this.input, this.room, this.tcp, output, writeClosed := input, room, tcp, [], false;
    }

    /** Up to `wanted` bytes of those there are, possibly none, with or without an error. */
    method Read(buf: array<byte>, wanted: nat) returns (n: nat)
      modifies this`input, buf
      ensures n == Least(wanted, buf.Length, |old(input)|)
      ensures buf[..n] == old(input)[..n] && input == old(input)[n..]
    {
      n := Least(wanted, buf.Length, |input|);
      var i := 0;
      while i < n
        modifies buf
        invariant 0 <= i <= n
        invariant buf[..i] == input[..i]
      {
        buf[i] := input[i];
        i := i + 1;
      }
      input := input[n..];
    }

    method Write(bs: seq<byte>) returns (n: nat, failed: bool)
      modifies this`output, this`room
      ensures n == if |bs| <= old(room) then |bs| else old(room)
      ensures failed <==> n < |bs|
      ensures output == old(output) + bs[..n] && room == old(room) - n
    {
      n := if |bs| <= room then |bs| else room;
      failed := n < |bs|;
      output, room := output + bs[..n], room - n;
    }
  }

  function Least(a: nat, b: nat, c: nat): nat {
    if a <= b && a <= c then a else if b <= c then b else c
  }

  /** What one read gives: how many bytes at most, and whether it reports an error or the end. */
  datatype ReadPlan = ReadPlan(wanted: nat, failed: bool)

  /** The read after those planned is the end or an error. */
  function PlanAt(plans: seq<ReadPlan>, round: nat): (plan: ReadPlan)
    ensures !plan.failed ==> round < |plans|
  {
    if round < |plans| then plans[round] else ReadPlan(0, true)
  }

  /** How many of `left` bytes a loop whose writes succeed takes from its source. */
  function Taken(plans: seq<ReadPlan>, left: nat): (n: nat)
    ensures n <= left
  {
    if plans == [] then 0
    else
      var n := Least(plans[0].wanted, BUFFER, left);
      if plans[0].failed then n else n + Taken(plans[1..], left - n)
  }

  /**
    Whatever the reads give, in bytes, empty rounds and errors: the destination gets in order the bytes
    taken up to the first read error, as far as it accepts them, the counter is their number, at most one
    buffer taken from the source is missing, and the write side of a TCP destination is closed at the end.
    A loop that ends makes finitely many reads; the one after those planned is the end or an error.
  */
  method CopyStream(dst: Endpoint, src: Endpoint, plans: seq<ReadPlan>) returns (written: nat)
    requires dst != src
    modifies dst`output, dst`room, dst`writeClosed, src`input
    ensures var taken := Taken(plans, |old(src.input)|);
            written == if taken <= old(dst.room) then taken else old(dst.room)
    ensures dst.output == old(dst.output) + old(src.input)[..written]
    ensures var read := |old(src.input)| - |src.input|;
            written <= read <= written + BUFFER && src.input == old(src.input)[read..]
    ensures dst.writeClosed == (dst.tcp || old(dst.writeClosed))
  {
    hide Taken, Least, PlanAt;
    ghost var stream, before, read := src.input, dst.output, 0;
    assert plans[0..] == plans && before + stream[..0] == before;
    var buf := new byte[BUFFER];
    var round := 0;
    written := 0;
    var stop := false;
    while !stop
      modifies dst`output, dst`room, src`input, buf
      invariant round <= |plans| || stop
      invariant written <= read <= |stream| && read <= written + BUFFER && (!stop ==> read == written)
      invariant src.input == stream[read..] && dst.room == old(dst.room) - written
      invariant dst.output == before + stream[..written]
      invariant !stop ==> Taken(plans, |stream|) == written + Taken(plans[round..], |stream| - written)
      invariant stop ==> written == Taken(plans, |stream|) || (dst.room == 0 && written <= Taken(plans, |stream|))
      decreases !stop, |plans| - round
    {
      var plan := PlanAt(plans, round);
      TakenStep(plans, round, |stream| - written);
      var nr, nw;
      nr, nw, stop := Round(dst, src, buf, plan);
      Extends(before, stream, written, nr, nw);
      read := read + nr;
      written := written + nw;
      round := round + 1;
    }
    if dst.tcp {
      dst.writeClosed := true;
    }
  }

  /** One read and, if it gave anything, one write. */
  method Round(dst: Endpoint, src: Endpoint, buf: array<byte>, plan: ReadPlan) returns (nr: nat, nw: nat, stop: bool)
    requires dst != src && buf.Length == BUFFER
    modifies dst`output, dst`room, src`input, buf
    ensures nr == Least(plan.wanted, BUFFER, |old(src.input)|) <= BUFFER && nr <= |old(src.input)|
    ensures nw == if nr <= old(dst.room) then nr else old(dst.room)
    ensures src.input == old(src.input)[nr..]
    ensures dst.output == old(dst.output) + old(src.input)[..nr][..nw] && dst.room == old(dst.room) - nw
    ensures stop <==> plan.failed || nw < nr
  {
    nr := src.Read(buf, plan.wanted);
    nw, stop := 0, plan.failed;
    if nr > 0 {
      var n, werr := dst.Write(buf[..nr]);
      nw := n;
      stop := werr || stop;
    }
  }

  /**
    Read by read: as long as no read has failed, the next one adds what it asks for, a buffer or what is
    left, whichever is least, even if it reports an error with its bytes; after an error nothing is added.
  */
  lemma {:induction false} TakenByReads(done: seq<ReadPlan>, next: ReadPlan, later: seq<ReadPlan>, left: nat)
    requires forall p <- done :: !p.failed
    ensures var so := Taken(done, left); var n := Taken(done + [next], left) - so;
            && n <= next.wanted && n <= BUFFER && n <= left - so
            && (n == next.wanted || n == BUFFER || n == left - so)
            && (next.failed ==> Taken(done + [next] + later, left) == so + n)
  {
    if done == [] {
      assert done + [next] == [next] && [next][1..] == [];
      assert (done + [next] + later)[0] == next;
    } else {
      var first := Least(done[0].wanted, BUFFER, left);
      TakenByReads(done[1..], next, later, left - first);
      assert (done + [next])[1..] == done[1..] + [next];
      assert (done + [next] + later)[1..] == done[1..] + [next] + later;
    }
  }

  lemma TakenStep(plans: seq<ReadPlan>, round: nat, left: nat)
    requires round <= |plans|
    ensures var plan := PlanAt(plans, round);
            Taken(plans[round..], left) ==
            var n := Least(plan.wanted, BUFFER, left);
            if plan.failed then n else n + Taken(plans[round + 1..], left - n)
  {
    if round < |plans| {
      assert plans[round..][1..] == plans[round + 1..];
    }
  }

  /** Writing the first `nw` of the next `nr` bytes extends the copy by as much. */
  lemma Extends(before: seq<byte>, stream: seq<byte>, written: nat, nr: nat, nw: nat)
    requires nw <= nr && written + nr <= |stream|
    ensures before + stream[..written] + stream[written..][..nr][..nw] == before + stream[..written + nw]
    ensures stream[written..][nr..] == stream[written + nr..]
  {
    assert stream[written..][..nr][..nw] == stream[written..written + nw];
    assert stream[..written] + stream[written..written + nw] == stream[..written + nw];
    Assoc(before, stream[..written], stream[written..written + nw]);
  }

  // Both loops and the caller, interleaved

  datatype Direction = ToClient | ToRemote

  datatype Stage = Reading | Writing(chunk: seq<byte>, readFailed: bool) | HalfClosing | DoneDue | Gone

  /** One loop: what its source will still give, what it has read and written, and its counter. */
  datatype Copy = Copy(stage: Stage, pending: seq<byte>, read: seq<byte>, written: seq<byte>, count: nat,
                       writeFailed: bool, halfClosed: bool)

  datatype Caller = Waiting | ClientClosed | BothClosed

  /** `waiting` is the counter of the wait group. */
  datatype State = State(toClient: Copy, toRemote: Copy, waiting: int, caller: Caller)

  datatype Action =
    | Read(d: Direction, n: nat, failed: bool)
    | Write(d: Direction, n: nat, failed: bool)
    | CloseWrite(d: Direction, tcp: bool)
    | WgDone(d: Direction)
    | CloseClient
    | CloseRemote

  function Of(s: State, d: Direction): Copy { if d.ToClient? then s.toClient else s.toRemote }

  function With(s: State, d: Direction, c: Copy): State {
    if d.ToClient? then s.(toClient := c) else s.(toRemote := c)
  }

  function Fresh(stream: seq<byte>): Copy { Copy(Reading, stream, [], [], 0, false, false) }

  function Init(fromRemote: seq<byte>, fromClient: seq<byte>): State {
    State(Fresh(fromRemote), Fresh(fromClient), 2, Waiting)
  }

  predicate OfLoop(a: Action) { a.Read? || a.Write? || a.CloseWrite? || a.WgDone? }

  /** A socket write that is short reports an error. */
  predicate CopyEnabled(c: Copy, a: Action)
    requires OfLoop(a)
  {
    match a
    case Read(_, n, _) => c.stage.Reading? && n <= BUFFER && n <= |c.pending|
    case Write(_, n, failed) => c.stage.Writing? && n <= |c.stage.chunk| && (n < |c.stage.chunk| ==> failed)
    case CloseWrite(_, _) => c.stage.HalfClosing?
    case WgDone(_) => c.stage.DoneDue?
  }

  function CopyStep(c: Copy, a: Action): Copy
    requires OfLoop(a) && CopyEnabled(c, a)
  {
    match a
    case Read(_, n, failed) =>
      c.(pending := c.pending[n..], read := c.read + c.pending[..n],
         stage := if n > 0 then Writing(c.pending[..n], failed) else if failed then HalfClosing else Reading)
    case Write(_, n, failed) =>
      c.(written := c.written + c.stage.chunk[..n], count := c.count + n, writeFailed := failed,
         stage := if failed || c.stage.readFailed then HalfClosing else Reading)
    case CloseWrite(_, tcp) => c.(stage := DoneDue, halfClosed := tcp)
    case WgDone(_) => c.(stage := Gone)
  }

  predicate Enabled(s: State, a: Action) {
    if OfLoop(a) then CopyEnabled(Of(s, a.d), a)
    else if a.CloseClient? then s.caller.Waiting? && s.waiting == 0   // wg.Wait returns
    else s.caller.ClientClosed?
  }

  function Do(s: State, a: Action): State
    requires Enabled(s, a)
  {
    if OfLoop(a) then With(s, a.d, CopyStep(Of(s, a.d), a)).(waiting := s.waiting - if a.WgDone? then 1 else 0)
    else if a.CloseClient? then s.(caller := ClientClosed)
    else s.(caller := BothClosed)
  }

  ghost predicate Legal(s: State, run: seq<Action>)
    decreases |run|
  {
    run == [] || (Enabled(s, run[0]) && Legal(Do(s, run[0]), run[1..]))
  }

  ghost function Exec(s: State, run: seq<Action>): State
    requires Legal(s, run)
    decreases |run|
  {
    if run == [] then s else Exec(Do(s, run[0]), run[1..])
  }

  /** The loop has ended. */
  predicate Over(c: Copy) { c.stage.DoneDue? || c.stage.Gone? }

  /** Loops whose deferred Done has not run. */
  function Counted(s: State): nat {
    (if s.toClient.stage.Gone? then 0 else 1) + (if s.toRemote.stage.Gone? then 0 else 1)
  }

  /** The bytes read but not written: at most one buffer, and after the loop only if a write failed. */
  ghost predicate CopyInv(c: Copy, stream: seq<byte>) {
    && c.read + c.pending == stream
    && c.count == |c.written|
    && (c.halfClosed ==> Over(c))
    && match c.stage
       case Reading => c.read == c.written && !c.writeFailed
       case Writing(chunk, _) => c.read == c.written + chunk && chunk != [] && |chunk| <= BUFFER && !c.writeFailed
       case _ => c.written <= c.read && |c.read| <= |c.written| + BUFFER && (!c.writeFailed ==> c.read == c.written)
  }

  lemma CopyInvKept(c: Copy, a: Action, stream: seq<byte>)
    requires OfLoop(a) && CopyEnabled(c, a) && CopyInv(c, stream)
    ensures CopyInv(CopyStep(c, a), stream)
  {
    if a.Read? {
      assert c.pending == c.pending[..a.n] + c.pending[a.n..];
      Assoc(c.read, c.pending[..a.n], c.pending[a.n..]);
    } else if a.Write? {
      assert c.stage.chunk == c.stage.chunk[..a.n] + c.stage.chunk[a.n..];
      Assoc(c.written, c.stage.chunk[..a.n], c.stage.chunk[a.n..]);
    }
  }

  ghost predicate Inv(s: State, fromRemote: seq<byte>, fromClient: seq<byte>) {
    && CopyInv(s.toClient, fromRemote) && CopyInv(s.toRemote, fromClient)
    && s.waiting == Counted(s)
    && (!s.caller.Waiting? ==> s.waiting == 0)
  }

  lemma {:induction false} RunKeepsInv(s: State, run: seq<Action>, fromRemote: seq<byte>, fromClient: seq<byte>)
    requires Inv(s, fromRemote, fromClient) && Legal(s, run)
    ensures Inv(Exec(s, run), fromRemote, fromClient)
    decreases |run|
  {
    if run != [] {
      if OfLoop(run[0]) {
        hide CopyInv, CopyStep;
        CopyInvKept(Of(s, run[0].d), run[0], if run[0].d.ToClient? then fromRemote else fromClient);
      }
      RunKeepsInv(Do(s, run[0]), run[1..], fromRemote, fromClient);
    }
  }

  // Theorems over every interleaving and every chunking

  /**
    Each destination has been written a prefix of what its source sent, the counter is its length, at most
    one buffer of what was read is missing, and nothing read is missing once a loop ends without a failed
    write.
  */
  lemma Fidelity(fromRemote: seq<byte>, fromClient: seq<byte>, run: seq<Action>, d: Direction)
    requires Legal(Init(fromRemote, fromClient), run)
    ensures var c := Of(Exec(Init(fromRemote, fromClient), run), d);
            var stream := if d.ToClient? then fromRemote else fromClient;
            && c.read + c.pending == stream
            && c.written <= c.read && c.written <= stream
            && c.count == |c.written|
            && |c.read| - |c.written| <= BUFFER
            && (Over(c) && !c.writeFailed ==> c.written == c.read)
            && (Over(c) && !c.writeFailed && c.pending == [] ==> c.written == stream)
  {
    RunKeepsInv(Init(fromRemote, fromClient), run, fromRemote, fromClient);
    var c := Of(Exec(Init(fromRemote, fromClient), run), d);
    assert c.written <= c.read;
    assert c.pending == [] ==> c.read + c.pending == c.read;
  }

  /**
    The wait group counts the loops whose Done has not run; so when the caller gets past its wait and closes a
    socket, both loops have ended, and nothing is read or written any more, nor to a half-closed side before.
  */
  lemma ClosesAfterBothLoops(fromRemote: seq<byte>, fromClient: seq<byte>, run: seq<Action>, a: Action)
    requires Legal(Init(fromRemote, fromClient), run)
    ensures var s := Exec(Init(fromRemote, fromClient), run);
            && s.waiting == Counted(s)
            && (Enabled(s, CloseClient) || !s.caller.Waiting? ==> s.toClient.stage.Gone? && s.toRemote.stage.Gone?)
            && (!s.caller.Waiting? && OfLoop(a) ==> !Enabled(s, a))
            && (a.Write? && Of(s, a.d).halfClosed ==> !Enabled(s, a))
  {
    RunKeepsInv(Init(fromRemote, fromClient), run, fromRemote, fromClient);
  }

  /** The steps of one direction, in order. */
  function Only(run: seq<Action>, d: Direction): (steps: seq<Action>)
    ensures forall a :: a in steps ==> OfLoop(a)
  {
    if run == [] then []
    else (if OfLoop(run[0]) && run[0].d == d then [run[0]] else []) + Only(run[1..], d)
  }

  ghost predicate LegalAlone(c: Copy, steps: seq<Action>)
    decreases |steps|
  {
    steps == [] || (OfLoop(steps[0]) && CopyEnabled(c, steps[0]) && LegalAlone(CopyStep(c, steps[0]), steps[1..]))
  }

  ghost function Alone(c: Copy, steps: seq<Action>): Copy
    requires LegalAlone(c, steps)
    decreases |steps|
  {
    if steps == [] then c else Alone(CopyStep(c, steps[0]), steps[1..])
  }

  /** The directions do not disturb each other: in any interleaving each is as if it ran alone. */
  lemma {:induction false} DirectionsAreIndependent(s: State, run: seq<Action>, d: Direction)
    requires Legal(s, run)
    ensures LegalAlone(Of(s, d), Only(run, d))
    ensures Of(Exec(s, run), d) == Alone(Of(s, d), Only(run, d))
    decreases |run|
  {
    if run != [] {
      hide CopyStep, CopyEnabled;
      DirectionsAreIndependent(Do(s, run[0]), run[1..], d);
      if OfLoop(run[0]) && run[0].d == d {
        assert Only(run, d)[1..] == Only(run[1..], d);
      } else {
        assert Only(run, d) == Only(run[1..], d);
      }
    }
  }

  // A relay without failures delivers everything

  /** A chunk read and written whole is forwarded, and the loop reads on. */
  lemma ChunkForwarded(c: Copy, d: Direction, n: nat, rest: seq<Action>)
    requires c.stage.Reading? && 0 < n <= BUFFER && n <= |c.pending|
    requires LegalAlone(Forwarded(c, n), rest)
    ensures LegalAlone(c, [Read(d, n, false)] + ([Write(d, n, false)] + rest))
    ensures Alone(c, [Read(d, n, false)] + ([Write(d, n, false)] + rest)) == Alone(Forwarded(c, n), rest)
  {
    var c1 := CopyStep(c, Read(d, n, false));
    var c2 := CopyStep(c1, Write(d, n, false));
    assert c.pending[..n][..n] == c.pending[..n];
    assert c2 == Forwarded(c, n);
    hide LegalAlone, Alone, CopyStep;
    OneStepAlone(c1, Write(d, n, false), rest);
    OneStepAlone(c, Read(d, n, false), [Write(d, n, false)] + rest);
  }

  function Forwarded(c: Copy, n: nat): Copy
    requires n <= |c.pending|
  {
    c.(pending := c.pending[n..], read := c.read + c.pending[..n], written := c.written + c.pending[..n],
       count := c.count + n, writeFailed := false)
  }

  lemma OneStepAlone(c: Copy, a: Action, rest: seq<Action>)
    requires OfLoop(a) && CopyEnabled(c, a) && LegalAlone(CopyStep(c, a), rest)
    ensures LegalAlone(c, [a] + rest) && Alone(c, [a] + rest) == Alone(CopyStep(c, a), rest)
  {
    hide CopyEnabled, CopyStep;
    assert ([a] + rest)[1..] == rest;
  }

  lemma NoStepsAlone(c: Copy)
    ensures LegalAlone(c, []) && Alone(c, []) == c
  {
  }

  /** From the first chunk to the end of the source: all of it is written, then the loop is done. */
  lemma {:induction false} StreamForwarded(c: Copy, d: Direction, tcp: bool) returns (steps: seq<Action>)
    requires c.stage.Reading?
    ensures LegalAlone(c, steps) && forall a <- steps :: OfLoop(a) && a.d == d
    ensures var c' := Alone(c, steps);
            && c'.stage.Gone? && c'.pending == [] && c'.written == c.written + c.pending
            && c'.count == c.count + |c.pending| && c'.halfClosed == tcp
    decreases |c.pending|
  {
    hide LegalAlone, Alone;
    if c.pending == [] {
      var c1 := CopyStep(c, Read(d, 0, true));
      var c2 := CopyStep(c1, CloseWrite(d, tcp));
      var c3 := CopyStep(c2, WgDone(d));
      NoStepsAlone(c3);
      OneStepAlone(c2, WgDone(d), []);
      OneStepAlone(c1, CloseWrite(d, tcp), [WgDone(d)] + []);
      OneStepAlone(c, Read(d, 0, true), [CloseWrite(d, tcp)] + ([WgDone(d)] + []));
      steps := [Read(d, 0, true)] + ([CloseWrite(d, tcp)] + ([WgDone(d)] + []));
    } else {
      hide CopyStep;
      var n := if |c.pending| <= BUFFER then |c.pending| else BUFFER;
      steps := StreamForwarded(Forwarded(c, n), d, tcp);
      ChunkForwarded(c, d, n, steps);
      Assoc(c.written, c.pending[..n], c.pending[n..]);
      assert c.pending == c.pending[..n] + c.pending[n..];
      steps := [Read(d, n, false)] + ([Write(d, n, false)] + steps);
    }
  }

  /** Steps of one direction may be taken in the whole, and leave the other direction and the caller alone. */
  lemma {:induction false} Lift(s: State, d: Direction, steps: seq<Action>)
    requires LegalAlone(Of(s, d), steps) && forall a <- steps :: OfLoop(a) && a.d == d
    ensures Legal(s, steps) && Of(Exec(s, steps), d) == Alone(Of(s, d), steps)
    ensures Exec(s, steps).caller == s.caller
    ensures if d.ToClient? then Exec(s, steps).toRemote == s.toRemote else Exec(s, steps).toClient == s.toClient
    decreases |steps|
  {
    if steps != [] {
      assert steps[0] in steps;
      hide CopyStep, CopyEnabled;
      Lift(Do(s, steps[0]), d, steps[1..]);
    }
  }

  lemma {:induction false} RunsJoin(s: State, a: seq<Action>, b: seq<Action>)
    requires Legal(s, a) && Legal(Exec(s, a), b)
    ensures Legal(s, a + b) && Exec(s, a + b) == Exec(Exec(s, a), b)
    decreases |a|
  {
    hide Do, Enabled;
    if a == [] {
      assert a + b == b;
    } else {
      RunsJoin(Do(s, a[0]), a[1..], b);
      assert (a + b)[1..] == a[1..] + b;
    }
  }

  lemma Closes(s: State)
    requires s.caller.Waiting? && s.waiting == 0
    ensures Legal(s, [CloseClient, CloseRemote]) && Exec(s, [CloseClient, CloseRemote]) == s.(caller := BothClosed)
  {
    var s1 := Do(s, CloseClient);
    assert [CloseClient, CloseRemote][1..] == [CloseRemote] && [CloseRemote][1..] == [];
    assert Legal(s1, [CloseRemote]);
  }

  /** There is a run in which both streams arrive whole, both counters are their lengths, and both sockets are closed. */
  lemma RelayFinishes(fromRemote: seq<byte>, fromClient: seq<byte>) returns (run: seq<Action>)
    ensures Legal(Init(fromRemote, fromClient), run)
    ensures var s := Exec(Init(fromRemote, fromClient), run);
            && s.toClient.written == fromRemote && s.toClient.count == |fromRemote|
            && s.toRemote.written == fromClient && s.toRemote.count == |fromClient|
            && s.caller.BothClosed?
  {
    hide Legal, Exec, LegalAlone, Alone, CopyInv, CopyStep;
    var s := Init(fromRemote, fromClient);
    var down := StreamForwarded(s.toClient, ToClient, true);
    Lift(s, ToClient, down);
    var s1 := Exec(s, down);
    var up := StreamForwarded(s1.toRemote, ToRemote, true);
    Lift(s1, ToRemote, up);
    RunsJoin(s, down, up);
    run := down + up;
    ClosesAfterBothLoops(fromRemote, fromClient, run, CloseClient);
    Closes(Exec(s, run));
    RunsJoin(s, run, [CloseClient, CloseRemote]);
    run := run + [CloseClient, CloseRemote];
  }
}
