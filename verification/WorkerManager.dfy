/** The set of workers and its reconciliation with a configuration: pkg/control/worker/manager.go. */
module WorkerManager {
  import opened Lifecycle

  /** A worker object: its shared state moves by the steps of the lifecycle only. */
  class SSHWorker {
    const id: string
    var s: State
    ghost var run: seq<Action>   // the steps taken since NewSSHWorker

    ghost predicate Valid()
      reads this
    {
      Legal(INIT, run) && s == Exec(INIT, run)
    }

    constructor (id: string)
      ensures Valid() && s == INIT && run == [] && this.id == id
    {
      this.id, s, run := id, INIT, [];
    }

    method Step(a: Action)
      requires Valid() && Enabled(s, a)
      modifies this
      ensures Valid() && s == Do(old(s), a) && run == old(run) + [a]
    {
      ExecSnoc(INIT, run, a);
      s := Do(s, a);
      run := run + [a];
    }

    method Start()
      requires Valid() && Unstarted()
      modifies this
      ensures Valid() && Running() && Starts(run) == old(Starts(run)) + 1
    {
      StartsSnoc(run, Action.Start);
      Step(Action.Start);
    }

    ghost predicate Unstarted()
      reads this
    {
      s.loop.NotStarted? && s.stop.NoStop?
    }

    /** Started and not told to stop. */
    ghost predicate Running()
      reads this
    {
      !s.loop.NotStarted? && s.stop.NoStop?
    }

    /** Whatever the run loop, the network and the parent context do on their own for a while. */
    method Drift()
      requires Valid() && !s.loop.NotStarted?
      modifies this
      ensures Valid() && !s.loop.NotStarted? && s.stop == old(s.stop) && Starts(run) == old(Starts(run))
      ensures old(s.cancelled) ==> s.cancelled
    {
      var n: nat := *;
      while n > 0
        invariant Valid() && !s.loop.NotStarted? && s.stop == old(s.stop) && Starts(run) == old(Starts(run))
        invariant old(s.cancelled) ==> s.cancelled
        decreases n
      {
        var a: Action := *;
        if Enabled(s, a) && !a.Start? && !a.CallStop? && !a.Stop? {
          StartsSnoc(run, a);
          Step(a);
        }
        n := n - 1;
      }
    }

    /** One step of the stopper, its own thread's turn. */
    method StopperStep()
      requires Valid() && !s.loop.NotStarted? && Enabled(s, Action.Stop)
      modifies this
      ensures Valid() && !s.loop.NotStarted? && s == StopStep(old(s)) && Starts(run) == old(Starts(run))
    {
      StartsSnoc(run, Action.Stop);
      Step(Action.Stop);
    }

    /** Stop(): cancel, wait for the loop, clean up; the loop and the network go on between its steps. */
    method Stop()
      requires Valid() && Running()
      modifies this
      ensures Valid() && StoppedForGood(s) && Starts(run) == old(Starts(run))
    {
      hide Legal, Exec, LoopStep, StoppedForGood;
      Drift();
      StartsSnoc(run, CallStop);
      Step(CallStop);
      Drift();
      StopperStep();
      Drift();
      StopperStep();
      Drift();
      WaitForLoop();
      StopperStep();
      while s.stop.StopCleaning?
        invariant Valid() && !s.loop.NotStarted? && Starts(run) == old(Starts(run))
        invariant s.stop.StopCleaning? || s.stop.MarkStopped?
        decreases if s.stop.StopCleaning? then CleanupLeft(s.stop.step) else 0
      {
        StopperStep();
      }
      StopperStep();
      Settled();
    }

    lemma Settled()
      requires Valid() && s.stop.Returned?
      ensures StoppedForGood(s)
    {
      InitInv();
      RunKeepsInv(INIT, run);
    }

    /** `wg.Wait()`: the cancelled loop runs to its end, any finite number of keepalives in between. */
    method WaitForLoop()
      requires Valid() && !s.loop.NotStarted? && s.cancelled && s.stop.Waiting?
      modifies this
      ensures Valid() && s.loop.Exited? && s.stop.Waiting? && Starts(run) == old(Starts(run))
    {
      var keepalives: nat := *;
      while Live(s.loop)
        invariant Valid() && !s.loop.NotStarted? && s.cancelled && s.stop.Waiting? && Starts(run) == old(Starts(run))
        decreases StepsLeft(s.loop), keepalives
      {
        InitInv();
        RunKeepsInv(INIT, run);
        var c: Choice := *;
        if !Enabled(s, Loop(c)) || (Keepalive(s, Loop(c)) && keepalives == 0) {
          c := if s.loop.Monitoring? then NoticeCancel else Ok;
        }
        if Keepalive(s, Loop(c)) {
          keepalives := keepalives - 1;
        }
        CancelledLoopEnds(s, Loop(c));
        StartsSnoc(run, Loop(c));
        Step(Loop(c));
      }
    }
  }

  class Manager {
    var workers: map<string, SSHWorker>
    ghost var spawned: set<SSHWorker>   // every worker ever made by this manager

    /** Every worker ever spawned was started exactly once, and is in the map and not told to stop, or stopped for good. */
    ghost predicate Valid()
      reads this, spawned
    {
      && (forall id :: id in workers ==> workers[id] in spawned && workers[id].id == id)
      && (forall w :: w in spawned ==> Accounted(w))
    }

    ghost predicate Accounted(w: SSHWorker)
      reads this, w
    {
      && w.Valid() && Starts(w.run) == 1
      && if w.id in workers && workers[w.id] == w then w.Running() else StoppedForGood(w.s)
    }

    constructor ()
      ensures Valid() && workers == map[] && spawned == {}
    {
      workers, spawned := map[], {};
    }

    /** Between calls every worker in the map goes on by itself. */
    method Drift()
      requires Valid()
      modifies spawned
      ensures Valid()
    {
      hide Legal, Exec, Starts, StoppedForGood;
      var n: nat := *;
      while n > 0
        modifies spawned
        invariant Valid()
        decreases n
      {
        var id: string := *;
        if id in workers {
          workers[id].Drift();
        }
        n := n - 1;
      }
    }

    /** Stops one worker and takes it out of the map. */
    method Remove(id: string)
      requires Valid() && id in workers
      modifies this`workers, spawned
      ensures Valid() && workers == old(workers) - {id} && spawned == old(spawned)
    {
      hide Legal, Exec, Starts, StoppedForGood;
      var w := workers[id];
      w.Stop();
      workers := workers - {id};
    }

    /** Makes and starts a worker for an id not in the map. */
    method Spawn(id: string)
      requires Valid() && id !in workers
      modifies this
      ensures Valid() && workers.Keys == old(workers).Keys + {id}
      ensures forall k :: k in old(workers) ==> workers[k] == old(workers)[k]
      ensures fresh(workers[id]) && spawned == old(spawned) + {workers[id]}
    {
      hide Legal, Exec, StoppedForGood, Live;
      var w := new SSHWorker(id);
      workers := workers[id := w];
      w.Start();
      spawned := spawned + {w};
    }

    /** After a sync the map holds exactly the configured ids, and workers present before are the same objects. */
    method SyncWithConfig(workerCfgs: set<string>)
      requires Valid()
      modifies this, spawned
      ensures Valid() && workers.Keys == workerCfgs
      ensures forall id :: id in old(workers) && id in workerCfgs ==> workers[id] == old(workers)[id]
      ensures forall id :: id in workerCfgs && id !in old(workers) ==> fresh(workers[id])
      ensures old(spawned) <= spawned && fresh(spawned - old(spawned))
    {
      hide Accounted;
      var gone := workers.Keys - workerCfgs;
      while gone != {}
        invariant Valid() && spawned == old(spawned)
        invariant gone == workers.Keys - workerCfgs
        invariant workers.Keys <= old(workers).Keys && old(workers).Keys * workerCfgs <= workers.Keys
        invariant forall id :: id in workers ==> workers[id] == old(workers)[id]
        decreases gone
      {
        var id :| id in gone;
        Remove(id);
        gone := gone - {id};
      }
      assert forall id :: id in workers && id !in workerCfgs ==> id in gone;
      var missing := workerCfgs - workers.Keys;
      while missing != {}
        invariant Valid() && old(spawned) <= spawned && fresh(spawned - old(spawned))
        invariant missing == workerCfgs - workers.Keys && workers.Keys <= workerCfgs
        invariant forall id :: id in workers && id in old(workers) ==> workers[id] == old(workers)[id]
        invariant forall id :: id in workers && id !in old(workers) ==> fresh(workers[id])
        invariant old(workers).Keys * workerCfgs <= workers.Keys
        decreases missing
      {
        var id :| id in missing;
        Spawn(id);
        missing := missing - {id};
      }
    }

    method StopAll()
      requires Valid()
      modifies this, spawned
      ensures Valid() && workers == map[] && spawned == old(spawned)
    {
      hide Legal, Exec, Starts, StoppedForGood;
      var rest := workers.Keys;
      while rest != {}
        modifies spawned
        invariant workers == old(workers) && spawned == old(spawned) && rest <= workers.Keys
        invariant forall w :: w in spawned ==> w.Valid() && Starts(w.run) == 1
        invariant forall w :: w in spawned ==>
                    if w.id in rest && workers[w.id] == w then w.Running() else StoppedForGood(w.s)
        decreases rest
      {
        var id :| id in rest;
        workers[id].Stop();
        rest := rest - {id};
      }
      workers := map[];
    }
  }

  datatype Request = Sync(ids: set<string>) | StopEverything

  /** Any sequence of reloads and shutdowns, workers going on by themselves in between. */
  method Serve(m: Manager, requests: seq<Request>)
    requires m.Valid() && m.workers == map[]
    modifies m, m.spawned
    ensures m.Valid() && fresh(m.spawned - old(m.spawned))
    ensures m.workers.Keys == KeysAfter(requests)
  {
    hide Manager.Valid;
    var n := 0;
    assert requests[..0] == [];
    while n < |requests|
      invariant 0 <= n <= |requests|
      invariant m.Valid() && fresh(m.spawned - old(m.spawned))
      invariant m.workers.Keys == KeysAfter(requests[..n])
      decreases |requests| - n
    {
      m.Drift();
      match requests[n] {
        case Sync(ids) => m.SyncWithConfig(ids);
        case StopEverything => m.StopAll();
      }
      assert requests[..n + 1][n] == requests[n];
      n := n + 1;
    }
    assert requests[..n] == requests;
  }

  /** What the last request asks for. */
  function KeysAfter(requests: seq<Request>): set<string> {
    if requests == [] then {}
    else match requests[|requests| - 1]
      case Sync(ids) => ids
      case StopEverything => {}
  }

  function Starts(run: seq<Action>): nat {
    if run == [] then 0 else Starts(run[..|run| - 1]) + if run[|run| - 1].Start? then 1 else 0
  }

  lemma StartsSnoc(run: seq<Action>, a: Action)
    ensures Starts(run + [a]) == Starts(run) + if a.Start? then 1 else 0
  {
    assert (run + [a])[..|run|] == run;
  }

  lemma {:induction false} ExecSnoc(s: State, run: seq<Action>, a: Action)
    requires Legal(s, run) && Enabled(Exec(s, run), a)
    ensures Legal(s, run + [a]) && Exec(s, run + [a]) == Do(Exec(s, run), a)
    decreases |run|
  {
    hide Do, Enabled;
    if run == [] {
      assert run + [a] == [a];
      assert Legal(Do(s, a), []) && Exec(Do(s, a), []) == Do(s, a);
    } else {
      assert (run + [a])[1..] == run[1..] + [a];
      ExecSnoc(Do(s, run[0]), run[1..], a);
    }
  }
}
