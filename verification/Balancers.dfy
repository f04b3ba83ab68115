/** The three load balancers of pkg/control/outbound/balancer/strategies.go, one snapshot of the workers per call. */
module Balancers {
  import opened Arithmetic
  import opened Lifecycle
  import opened Options

  type Worker = string

  /** What one call sees of a worker. */
  datatype View = View(status: Status, active: int, latencyMs: int)

  type Snapshot = Worker -> View

  const MAX_INT64: int := 0x7FFF_FFFF_FFFF_FFFF
  const TWO_64: nat := 0x1_0000_0000_0000_0000

  predicate ReadyView(v: View) { v.status.Running? || v.status.Ready? }

  /** The ready workers of the list, in order. */
  function ReadyList(view: Snapshot, workers: seq<Worker>): seq<Worker> {
    if workers == [] then []
    else ReadyList(view, workers[..|workers| - 1])
         + if ReadyView(view(workers[|workers| - 1])) then [workers[|workers| - 1]] else []
  }

  lemma {:induction false} ReadyListMembers(view: Snapshot, workers: seq<Worker>)
    ensures forall w :: w in ReadyList(view, workers) <==> w in workers && ReadyView(view(w))
  {
    if workers != [] {
      var n := |workers| - 1;
      ReadyListMembers(view, workers[..n]);
      assert workers == workers[..n] + [workers[n]];
    }
  }

  /** The ready list is the list without the workers that are neither Running nor Ready. */
  lemma {:induction false} ReadyListIsFilter(view: Snapshot, a: seq<Worker>, w: Worker, b: seq<Worker>)
    ensures ReadyList(view, a + b) == ReadyList(view, a) + ReadyList(view, b)
    ensures ReadyList(view, [w]) == if view(w).status == Running || view(w).status == Ready then [w] else []
    decreases |b|
  {
    assert [w][..0] == [] && ReadyList(view, []) == [];
    if b == [] {
      assert a + b == a;
    } else {
      var n := |b| - 1;
      ReadyListIsFilter(view, a, w, b[..n]);
      assert (a + b)[..|a| + n] == a + b[..n];
    }
  }

  method CollectReady(view: Snapshot, workers: seq<Worker>) returns (ready: seq<Worker>)
    ensures ready == ReadyList(view, workers)
  {
    ready := [];
    var i := 0;
    while i < |workers|
      invariant 0 <= i <= |workers| && ready == ReadyList(view, workers[..i])
    {
      assert workers[..i + 1][..i] == workers[..i];
      if ReadyView(view(workers[i])) {
        ready := ready + [workers[i]];
      }
      i := i + 1;
    }
    assert workers[..i] == workers;
  }

  // Round robin

  class RoundRobinBalancer {
    var index: nat

    constructor ()
      ensures index == 0
    {
      index := 0;
    }

    method Select(view: Snapshot, workers: seq<Worker>) returns (w: Option<Worker>, ghost position: nat)
      requires index < TWO_64
      modifies this
      ensures index < TWO_64
      ensures var ready := ReadyList(view, workers);
              && (ready == [] ==> w.None? && index == old(index))
              && (ready != [] ==> position == (old(index) + 1) % TWO_64 % |ready| && w == Some(ready[position])
                                  && index == (old(index) + 1) % TWO_64)
    {
      position := 0;
      var ready := CollectReady(view, workers);
      if |ready| == 0 {
        return None, 0;
      }
      index := (index + 1) % TWO_64;
      position := index % |ready|;
      w := Some(ready[index % |ready|]);
    }
  }

  /** How often position `j` is picked in the `m` calls after the counter stood at `start`. */
  function Picks(start: nat, m: nat, n: nat, j: nat): nat
    requires n > 0
  {
    if m == 0 then 0 else Picks(start, m - 1, n, j) + if (start + m) % n == j then 1 else 0
  }

  /** Moving one call on changes a quotient exactly at the multiples. */
  lemma QuotientStep(x: int, n: nat)
    requires n > 0
    ensures (x + 1) / n - x / n == if (x + 1) % n == 0 then 1 else 0
  {
    var q, r := x / n, x % n;
    assert x == q * n + r;
    if r + 1 == n {
      assert x + 1 == (q + 1) * n;
      DivMod(q + 1, 0, n);
    } else {
      assert x + 1 == q * n + (r + 1);
      DivMod(q, r + 1, n);
    }
  }

  lemma ShiftedMultiple(x: nat, j: nat, n: nat)
    requires j < n
    ensures (x - j) % n == 0 <==> x % n == j
  {
    var q, r := x / n, x % n;
    assert x == q * n + r;
    if r >= j {
      DivMod(q, r - j, n);
    } else {
      assert x - j == (q - 1) * n + (n + r - j);
      DivMod(q - 1, n + r - j, n);
    }
  }

  lemma {:induction false} PicksAreQuotients(start: nat, m: nat, n: nat, j: nat)
    requires j < n
    ensures Picks(start, m, n, j) == (start + m - j) / n - (start - j) / n
  {
    if m > 0 {
      PicksAreQuotients(start, m - 1, n, j);
      QuotientStep(start + m - 1 - j, n);
      ShiftedMultiple(start + m, j, n);
    }
  }

  /** Between `m / n` and that plus one, whatever the start. */
  lemma QuotientSpread(a: int, m: nat, n: nat)
    requires n > 0
    ensures m / n <= (a + m) / n - a / n <= m / n + 1
    ensures m % n == 0 ==> (a + m) / n - a / n == m / n
  {
    var q, r, k, t := a / n, a % n, m / n, m % n;
    assert a == q * n + r && m == k * n + t;
    if r + t < n {
      assert a + m == (q + k) * n + (r + t);
      DivMod(q + k, r + t, n);
    } else {
      assert a + m == (q + k + 1) * n + (r + t - n);
      DivMod(q + k + 1, r + t - n, n);
    }
  }

  /** Over any window two positions are picked equally often up to one, and over `k` rounds exactly `k` times each. */
  lemma RoundRobinIsFair(start: nat, m: nat, n: nat, i: nat, j: nat)
    requires i < n && j < n
    ensures -1 <= Picks(start, m, n, i) - Picks(start, m, n, j) <= 1
    ensures m % n == 0 ==> Picks(start, m, n, i) == m / n
  {
    PicksAreQuotients(start, m, n, i);
    PicksAreQuotients(start, m, n, j);
    QuotientSpread(start - i, m, n);
    QuotientSpread(start - j, m, n);
  }

  /**
    A window of `m` calls with an unchanged ready list and no wrap-around of the counter. Everything else a
    call sees may change from one to the next: loads, latencies, who is offered, and the statuses of the rest.
  */
  method SelectWindow(rr: RoundRobinBalancer, views: nat -> Snapshot, lists: nat -> seq<Worker>, ready: seq<Worker>, m: nat)
    returns (picked: seq<Worker>, counts: seq<nat>)
    requires ready != [] && rr.index + m < TWO_64
    requires forall k: nat :: k < m ==> ReadyList(views(k), lists(k)) == ready
    modifies rr
    ensures |counts| == |ready| && |picked| == m
    ensures forall k :: 0 <= k < m ==> picked[k] == ready[(old(rr.index) + k + 1) % |ready|]
    ensures forall j :: 0 <= j < |ready| ==> counts[j] == Picks(old(rr.index), m, |ready|, j)
    ensures forall i, j :: 0 <= i < |ready| && 0 <= j < |ready| ==> counts[i] <= counts[j] + 1
    ensures m % |ready| == 0 ==> forall j :: 0 <= j < |ready| ==> counts[j] == m / |ready|
  {
    hide ReadyList;
    ghost var start := rr.index;
    picked, counts := [], seq(|ready|, _ => 0);
    var k := 0;
    while k < m
      invariant 0 <= k <= m && rr.index == start + k && |counts| == |ready| && |picked| == k
      invariant forall i :: 0 <= i < k ==> picked[i] == ready[(start + i + 1) % |ready|]
      invariant forall j :: 0 <= j < |ready| ==> counts[j] == Picks(start, k, |ready|, j)
    {
      var w, position := rr.Select(views(k), lists(k));
      k := k + 1;
      var at := rr.index % |ready|;
      assert at == (start + k) % |ready|;
      picked := picked + [w.value];
      counts := counts[at := counts[at] + 1];
    }
    forall i, j | 0 <= i < |ready| && 0 <= j < |ready|
      ensures counts[i] <= counts[j] + 1 && (m % |ready| == 0 ==> counts[i] == m / |ready|)
    {
      RoundRobinIsFair(start, m, |ready|, i, j);
    }
  }

  // The first ready worker of least score

  /** Scores at or above the initial bound of the source never win. */
  function Best(view: Snapshot, workers: seq<Worker>, score: View -> int): Option<Worker> {
    if workers == [] then None
    else
      var n := |workers| - 1;
      var best := Best(view, workers[..n], score);
      if ReadyView(view(workers[n])) && score(view(workers[n])) < Bound(view, best, score) then Some(workers[n]) else best
  }

  function Bound(view: Snapshot, best: Option<Worker>, score: View -> int): int {
    if best.Some? then score(view(best.value)) else MAX_INT64
  }

  ghost predicate FirstOfLeast(view: Snapshot, workers: seq<Worker>, score: View -> int, k: nat) {
    && k < |workers| && ReadyView(view(workers[k])) && score(view(workers[k])) < MAX_INT64
    && (forall i :: 0 <= i < |workers| && ReadyView(view(workers[i])) ==>
         score(view(workers[k])) <= score(view(workers[i])))
    && (forall i :: 0 <= i < k && ReadyView(view(workers[i])) ==> score(view(workers[k])) < score(view(workers[i])))
  }

  lemma {:induction false} BestIsFirstOfLeast(view: Snapshot, workers: seq<Worker>, score: View -> int)
    ensures match Best(view, workers, score)
            case None => forall i :: 0 <= i < |workers| && ReadyView(view(workers[i])) ==>
                        score(view(workers[i])) >= MAX_INT64
            case Some(w) => exists k: nat :: FirstOfLeast(view, workers, score, k) && workers[k] == w
  {
    hide ReadyView;
    if workers != [] {
      var n := |workers| - 1;
      var front := workers[..n];
      BestIsFirstOfLeast(view, front, score);
      assert forall i :: 0 <= i < n ==> workers[i] == front[i];
      var best := Best(view, front, score);
      if ReadyView(view(workers[n])) && score(view(workers[n])) < Bound(view, best, score) {
        assert FirstOfLeast(view, workers, score, n);
      } else if best.Some? {
        var k: nat :| FirstOfLeast(view, front, score, k) && front[k] == best.value;
        assert FirstOfLeast(view, workers, score, k);
      }
    }
  }

  lemma BestIsLeast(view: Snapshot, workers: seq<Worker>, score: View -> int)
    ensures var best := Best(view, workers, score);
            && (best.Some? ==> best.value in workers && ReadyView(view(best.value)))
            && (best.Some? ==> forall w <- workers :: ReadyView(view(w)) ==> score(view(best.value)) <= score(view(w)))
            && (best.None? ==> forall w <- workers :: ReadyView(view(w)) ==> score(view(w)) >= MAX_INT64)
  {
    hide Best, ReadyView;
    BestIsFirstOfLeast(view, workers, score);
  }

  // Least connections

  function Load(v: View): int { v.active }

  predicate Serving(v: View) { v.status == Running || v.status == Ready }

  /** Worker `k` is Running or Ready with the fewest connections among those that are, and the first such. */
  ghost predicate FirstIdlest(view: Snapshot, workers: seq<Worker>, k: nat) {
    && k < |workers| && Serving(view(workers[k])) && view(workers[k]).active < MAX_INT64
    && (forall i :: 0 <= i < |workers| && Serving(view(workers[i])) ==> view(workers[k]).active <= view(workers[i]).active)
    && (forall i :: 0 <= i < k && Serving(view(workers[i])) ==> view(workers[k]).active < view(workers[i]).active)
  }

  lemma LeastIsIdlest(view: Snapshot, workers: seq<Worker>, k: nat)
    requires FirstOfLeast(view, workers, Load, k)
    ensures FirstIdlest(view, workers, k)
  {
    assert forall i :: 0 <= i < |workers| ==> Serving(view(workers[i])) == ReadyView(view(workers[i]));
  }

  class LeastConnBalancer {
    constructor () {
    }

    method Select(view: Snapshot, workers: seq<Worker>) returns (selected: Option<Worker>)
      ensures selected == Best(view, workers, Load)
      ensures selected.Some? ==> exists k: nat :: FirstIdlest(view, workers, k) && workers[k] == selected.value
      ensures selected.None? ==> forall w <- workers :: Serving(view(w)) ==> view(w).active >= MAX_INT64
    {
      selected := None;
      var minConn := MAX_INT64;
      var i := 0;
      while i < |workers|
        invariant 0 <= i <= |workers|
        invariant selected == Best(view, workers[..i], Load) && minConn == Bound(view, selected, Load)
      {
        assert workers[..i + 1][..i] == workers[..i];
        var w := workers[i];
        if ReadyView(view(w)) {
          var active := view(w).active;
          if active < minConn {
            minConn, selected := active, Some(w);
          }
        }
        i := i + 1;
      }
      assert workers[..i] == workers;
      BestIsFirstOfLeast(view, workers, Load);
      if selected.Some? {
        ghost var k: nat :| FirstOfLeast(view, workers, Load, k) && workers[k] == selected.value;
        LeastIsIdlest(view, workers, k);
      }
    }
  }

  /** No two loads differ by more than `d`. */
  ghost predicate Within(loads: map<Worker, int>, d: int) {
    forall a, b :: a in loads && b in loads ==> loads[a] <= loads[b] + d
  }

  /** The spread after `n` rounds from an initial spread of `d`. */
  function Allowed(n: nat, d: int): int { if n == 0 || d >= 1 then d else 1 }

  lemma WithinMore(loads: map<Worker, int>, d: int, e: int)
    requires Within(loads, d) && d <= e
    ensures Within(loads, e)
  {
  }

  lemma IncrementLeast(loads: map<Worker, int>, w: Worker, d: int)
    requires w in loads && forall a :: a in loads ==> loads[w] <= loads[a]
    requires Within(loads, d)
    ensures Within(loads[w := loads[w] + 1], if d < 1 then 1 else d)
  {
  }

  ghost function ReadySet(view: Snapshot, workers: seq<Worker>): set<Worker> {
    set w | w in workers && ReadyView(view(w))
  }

  /** The snapshot in which the workers of `loads` have those loads. */
  function Loaded(view: Snapshot, loads: map<Worker, int>): Snapshot {
    w => if w in loads then view(w).(active := loads[w]) else view(w)
  }

  /** The round's pick, made on current loads, is a ready worker of least load. */
  lemma PickIsLeast(view: Snapshot, workers: seq<Worker>, loads: map<Worker, int>, pick: Option<Worker>)
    requires ReadySet(view, workers) == loads.Keys && loads != map[]
    requires forall w :: w in loads ==> loads[w] < MAX_INT64
    requires pick == Best(Loaded(view, loads), workers, Load)
    ensures pick.Some? && pick.value in loads && forall a :: a in loads ==> loads[pick.value] <= loads[a]
  {
    hide Best;
    var now := Loaded(view, loads);
    BestIsLeast(now, workers, Load);
    forall a | a in loads ensures a in workers && ReadyView(now(a)) && Load(now(a)) == loads[a] {
      assert a in ReadySet(view, workers);
    }
    var one :| one in loads;
    assert one in workers;
    assert pick.value in ReadySet(view, workers);
  }

  /**
    `n` rounds of select-then-increment (outbound/manager.go:112-125) one after another, with the same set
    of workers ready at every call and no connection closed: the spread never exceeds the larger of its
    initial value and 1, and each round adds one connection, to the worker picked. The lists offered, their
    order, latencies and every other status may change from round to round.
  */
  method SelectAndDial(lc: LeastConnBalancer, views: nat -> Snapshot, lists: nat -> seq<Worker>, initial: map<Worker, int>,
                       n: nat, ghost d: int)
    returns (loads: map<Worker, int>, picked: seq<Worker>)
    requires forall k: nat :: k < n ==> ReadySet(views(k), lists(k)) == initial.Keys
    requires initial != map[] && forall w :: w in initial ==> initial[w] + n < MAX_INT64
    requires Within(initial, d)
    ensures loads.Keys == initial.Keys && Within(loads, if d < 1 then 1 else d)
    ensures |picked| == n && forall w <- picked :: w in initial
    ensures forall w :: w in loads ==> loads[w] == initial[w] + multiset(picked)[w]
  {
    hide Best, FirstOfLeast, Within, ReadySet;
    loads, picked := initial, [];
    var i := 0;
    while i < n
      invariant 0 <= i <= n && loads.Keys == initial.Keys
      invariant Within(loads, Allowed(i, d))
      invariant |picked| == i && forall w <- picked :: w in initial
      invariant forall w :: w in loads ==> loads[w] == initial[w] + multiset(picked)[w] <= initial[w] + i
    {
      var w := lc.Select(Loaded(views(i), loads), lists(i));
      PickIsLeast(views(i), lists(i), loads, w);
      IncrementLeast(loads, w.value, Allowed(i, d));
      loads := loads[w.value := loads[w.value] + 1];
      picked := picked + [w.value];
      i := i + 1;
    }
    WithinMore(loads, Allowed(i, d), if d < 1 then 1 else d);
  }

  // Adaptive, with hysteresis

  function Score(v: View): int { v.active * 10 + v.latencyMs }

  datatype Memory = Memory(last: Option<Worker>, time: int)

  datatype Call = Call(view: Snapshot, workers: seq<Worker>, now: int)

  /** The remembered worker is kept: it is running, was chosen within the cooldown, and is not
      worse than the best by the ratio. */
  predicate Keeps(m: Memory, c: Call, cooldown: int, epsilon: real, best: int) {
    && m.last.Some?
    && c.view(m.last.value).status.Running?
    && c.now - m.time < cooldown
    && var current := Score(c.view(m.last.value)) as real;
       current - best as real < current * epsilon
  }

  function Choose(m: Memory, c: Call, cooldown: int, epsilon: real): (Option<Worker>, Memory) {
    var best := Best(c.view, c.workers, Score);
    if best.None? then (None, m)
    else if Keeps(m, c, cooldown, epsilon, Score(c.view(best.value))) then (m.last, m)
    else (best, Memory(best, c.now))
  }

  class AdaptiveHysteresisBalancer {
    var lastSelected: Option<Worker>
    var lastSelectTime: int
    const cooldown: int
    const epsilonRatio: real

    constructor (cooldown: int, epsilon: real)
      ensures lastSelected == None && lastSelectTime == 0 && this.cooldown == cooldown && epsilonRatio == epsilon
    {
      lastSelected, lastSelectTime := None, 0;
      this.cooldown, this.epsilonRatio := cooldown, epsilon;
    }

    method Select(c: Call) returns (selected: Option<Worker>)
      modifies this
      ensures (selected, Memory(lastSelected, lastSelectTime))
           == Choose(old(Memory(lastSelected, lastSelectTime)), c, cooldown, epsilonRatio)
    {
      var best: Option<Worker> := None;
      var bestScore := MAX_INT64;
      var i := 0;
      while i < |c.workers|
        modifies {}
        invariant 0 <= i <= |c.workers|
        invariant best == Best(c.view, c.workers[..i], Score) && bestScore == Bound(c.view, best, Score)
      {
        assert c.workers[..i + 1][..i] == c.workers[..i];
        var w := c.workers[i];
        if ReadyView(c.view(w)) {
          var score := c.view(w).active * 10 + c.view(w).latencyMs;
          if score < bestScore {
            bestScore, best := score, Some(w);
          }
        }
        i := i + 1;
      }
      assert c.workers[..i] == c.workers;
      if best.None? {
        return None;
      }
      if lastSelected.Some? && c.view(lastSelected.value).status.Running? {
        if c.now - lastSelectTime < cooldown {
          var currentScore := Score(c.view(lastSelected.value)) as real;
          if currentScore - bestScore as real < currentScore * epsilonRatio {
            return lastSelected;
          }
        }
      }
      lastSelected, lastSelectTime := best, c.now;
      selected := best;
    }
  }

  // What the score weighs, in connections and milliseconds

  /** Worker `k` is the first, among those Running or Ready, of least ten times its connections plus its latency. */
  ghost predicate FirstCheapest(c: Call, k: nat) {
    && k < |c.workers| && Serving(c.view(c.workers[k]))
    && (forall i :: 0 <= i < |c.workers| && Serving(c.view(c.workers[i])) ==>
          10 * c.view(c.workers[k]).active + c.view(c.workers[k]).latencyMs
          <= 10 * c.view(c.workers[i]).active + c.view(c.workers[i]).latencyMs)
    && (forall i :: 0 <= i < k && Serving(c.view(c.workers[i])) ==>
          10 * c.view(c.workers[k]).active + c.view(c.workers[k]).latencyMs
          < 10 * c.view(c.workers[i]).active + c.view(c.workers[i]).latencyMs)
  }

  lemma LeastIsCheapest(c: Call, k: nat)
    requires FirstOfLeast(c.view, c.workers, Score, k)
    ensures FirstCheapest(c, k)
  {
    assert forall i :: 0 <= i < |c.workers| ==> Serving(c.view(c.workers[i])) == ReadyView(c.view(c.workers[i]));
  }

  /**
    A call returns either the worker chosen last, which is then Running, within the cooldown, and cheaper by
    the ratio than the cheapest one offered, or else the first cheapest, which it remembers with the time of
    the call. It returns nobody, and remembers what it did, only if every worker offered is out of reach.
  */
  lemma SelectionInNumbers(m: Memory, c: Call, cooldown: int, epsilon: real)
    ensures var (r, m') := Choose(m, c, cooldown, epsilon);
            if r.None? then
              && m' == m
              && forall w <- c.workers :: Serving(c.view(w)) ==> 10 * c.view(w).active + c.view(w).latencyMs >= MAX_INT64
            else
              exists k: nat :: FirstCheapest(c, k) && KeepsOrTakes(m, c, cooldown, epsilon, k, r, m')
  {
    hide Best, FirstCheapest;
    BestIsFirstOfLeast(c.view, c.workers, Score);
    var best := Best(c.view, c.workers, Score);
    if best.Some? {
      var k: nat :| FirstOfLeast(c.view, c.workers, Score, k) && c.workers[k] == best.value;
      LeastIsCheapest(c, k);
      var least := 10 * c.view(c.workers[k]).active + c.view(c.workers[k]).latencyMs;
      assert Score(c.view(best.value)) == least;
      if m.last.Some? {
        Share((10 * c.view(m.last.value).active + c.view(m.last.value).latencyMs) as real, epsilon, least as real);
      }
    }
  }

  predicate KeepsOrTakes(m: Memory, c: Call, cooldown: int, epsilon: real, k: nat, r: Option<Worker>, m': Memory)
    requires k < |c.workers|
  {
    var least := 10 * c.view(c.workers[k]).active + c.view(c.workers[k]).latencyMs;
    if KeptInNumbers(m, c, cooldown, epsilon, least) then r == m.last && m' == m
    else r == Some(c.workers[k]) && m' == Memory(r, c.now)
  }

  predicate KeptInNumbers(m: Memory, c: Call, cooldown: int, epsilon: real, least: int) {
    && m.last.Some? && c.view(m.last.value).status == Running && c.now - m.time < cooldown
    && (10 * c.view(m.last.value).active + c.view(m.last.value).latencyMs) as real * (1.0 - epsilon) < least as real
  }

  /** One connection more weighs as much as ten milliseconds: below that the loaded worker wins, at it list order decides. */
  lemma OneConnectionIsTenMilliseconds(view: Snapshot, a: Worker, b: Worker, now: int, cooldown: int, epsilon: real)
    requires a != b && view(a).status == Running && view(b).status == Running
    requires view(a).active == view(b).active + 1
    requires 10 * view(a).active + view(a).latencyMs < MAX_INT64 && 10 * view(b).active + view(b).latencyMs < MAX_INT64
    ensures var r := Choose(Memory(None, 0), Call(view, [a, b], now), cooldown, epsilon).0;
            r == if view(b).latencyMs - view(a).latencyMs >= 10 then Some(a) else Some(b)
    ensures var r := Choose(Memory(None, 0), Call(view, [b, a], now), cooldown, epsilon).0;
            r == if view(b).latencyMs - view(a).latencyMs > 10 then Some(a) else Some(b)
  {
    assert [a, b][..1] == [a] && [b, a][..1] == [b] && [a][..0] == [] && [b][..0] == [];
    assert Best(view, [], Score) == None;
    assert Best(view, [a], Score) == Some(a) && Best(view, [b], Score) == Some(b);
  }

  // Hysteresis over runs of calls

  function After(calls: seq<Call>, cooldown: int, epsilon: real): Memory {
    if calls == [] then Memory(None, 0)
    else Choose(After(calls[..|calls| - 1], cooldown, epsilon), calls[|calls| - 1], cooldown, epsilon).1
  }

  /** What the last call that selected anything returned. */
  function LastResult(calls: seq<Call>, cooldown: int, epsilon: real): Option<Worker> {
    if calls == [] then None
    else
      var n := |calls| - 1;
      var r := Choose(After(calls[..n], cooldown, epsilon), calls[n], cooldown, epsilon).0;
      if r.Some? then r else LastResult(calls[..n], cooldown, epsilon)
  }

  lemma {:induction false} MemoryIsLastResult(calls: seq<Call>, cooldown: int, epsilon: real)
    ensures After(calls, cooldown, epsilon).last == LastResult(calls, cooldown, epsilon)
  {
    hide Best, Keeps;
    if calls != [] {
      MemoryIsLastResult(calls[..|calls| - 1], cooldown, epsilon);
    }
  }

  /** `least` is the minimum score among the ready workers offered. */
  ghost predicate LeastScore(c: Call, least: int) {
    && (exists w :: w in c.workers && ReadyView(c.view(w)) && Score(c.view(w)) == least)
    && (forall w <- c.workers :: ReadyView(c.view(w)) ==> least <= Score(c.view(w)))
  }

  /**
    After any run of calls: a worker selected is running or ready, and its score is the least or, less the
    ratio, below the least; and within the cooldown a change of worker means that the old one stopped
    running or that its score, less the ratio, was not below the least.
  */
  lemma HysteresisOverRuns(calls: seq<Call>, c: Call, cooldown: int, epsilon: real, least: int)
    requires LeastScore(c, least)
    ensures var m := After(calls, cooldown, epsilon);
            var r := Choose(m, c, cooldown, epsilon).0;
            var former := LastResult(calls, cooldown, epsilon);
            && (r.Some? ==> ReadyView(c.view(r.value))
                            && var score := Score(c.view(r.value));
                               score == least || score as real * (1.0 - epsilon) < least as real)
            && (r.Some? && former.Some? && r != former && c.now - m.time < cooldown ==>
                  !c.view(former.value).status.Running?
                  || Score(c.view(former.value)) as real * (1.0 - epsilon) >= least as real)
  {
    hide Best, After, LastResult;
    MemoryIsLastResult(calls, cooldown, epsilon);
    BestIsLeast(c.view, c.workers, Score);
    var m := After(calls, cooldown, epsilon);
    if m.last.Some? {
      Share(Score(c.view(m.last.value)) as real, epsilon, least as real);
    }
  }

  lemma Share(score: real, epsilon: real, least: real)
    ensures score - least < score * epsilon <==> score * (1.0 - epsilon) < least
  {
    assert score * (1.0 - epsilon) == score - score * epsilon;
  }

  /** A call that finds a ready worker while the remembered one still qualifies. */
  ghost predicate Steady(m: Memory, c: Call, cooldown: int, epsilon: real) {
    exists least :: LeastScore(c, least) && least < MAX_INT64 && Keeps(m, c, cooldown, epsilon, least)
  }

  /** While the remembered worker qualifies, every call of the window returns it and none renews the cooldown. */
  lemma {:induction false} NoChangeWhileSteady(m: Memory, calls: seq<Call>, more: seq<Call>, cooldown: int, epsilon: real)
    requires m == After(calls, cooldown, epsilon)
    requires forall c <- more :: Steady(m, c, cooldown, epsilon)
    ensures After(calls + more, cooldown, epsilon) == m
    ensures more != [] ==> LastResult(calls + more, cooldown, epsilon) == m.last
  {
    if more == [] {
      assert calls + more == calls;
    } else {
      var n := |more| - 1;
      assert (calls + more)[..|calls| + n] == calls + more[..n];
      NoChangeWhileSteady(m, calls, more[..n], cooldown, epsilon);
      SteadyKeeps(m, more[n], cooldown, epsilon);
    }
  }

  lemma SteadyKeeps(m: Memory, c: Call, cooldown: int, epsilon: real)
    requires Steady(m, c, cooldown, epsilon)
    ensures Choose(m, c, cooldown, epsilon) == (m.last, m)
  {
    hide Best;
    BestIsLeast(c.view, c.workers, Score);
    var least :| LeastScore(c, least) && least < MAX_INT64 && Keeps(m, c, cooldown, epsilon, least);
    assert Score(c.view(Best(c.view, c.workers, Score).value)) == least;
  }

  /** The worker returned is one that was not offered exactly when the remembered one qualifies and was not. */
  lemma ElsewhereIff(m: Memory, c: Call, cooldown: int, epsilon: real, least: int)
    requires LeastScore(c, least) && least < MAX_INT64
    ensures var r := Choose(m, c, cooldown, epsilon).0;
            r.Some? && (r.value !in c.workers <==> Keeps(m, c, cooldown, epsilon, least) && m.last.value !in c.workers)
  {
    hide Best;
    BestIsLeast(c.view, c.workers, Score);
  }

  /** Two calls in a row, the second of which returns a worker offered only to the first. */
  lemma KeptWorkerMayBeElsewhere()
    ensures var view := (w: Worker) => View(Running, 0, 10);
            Choose(After([Call(view, ["a"], 0)], 5, 0.2), Call(view, ["b"], 1), 5, 0.2).0 == Some("a")
  {
    var view := (w: Worker) => View(Running, 0, 10);
    assert ["a"][..0] == [] && ["b"][..0] == [];
    assert Best(view, ["a"], Score) == Some("a") && Best(view, ["b"], Score) == Some("b");
    assert [Call(view, ["a"], 0)][..0] == [];
  }
}
