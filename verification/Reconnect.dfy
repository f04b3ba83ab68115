/** Capped exponential backoff with jitter: pkg/control/worker/reconnect.go, durations in nanoseconds, floats as reals. */
module Reconnect {
  import Bytes
  import opened Lifecycle

  /** `base` doubled `k` times. */
  function Doubled(base: int, k: nat): int { if k == 0 then base else 2 * Doubled(base, k - 1) }

  function Min(a: int, b: int): int { if a < b then a else b }
  function Max(a: int, b: int): int { if a < b then b else a }

  /** Conversion of a float to an integer, towards zero. */
  function Truncate(x: real): int { if x >= 0.0 then x.Floor else -((-x).Floor) }

  /** The random share of the ceiling. */
  function Drawn(random: real, ceiling: real): int { Truncate(random * ceiling) }

  /** The ceiling of the k-th wait. */
  function Ceiling(base: int, max: int, k: nat): int { Min(Doubled(base, k), max) }

  lemma {:induction false} DoublingGrows(base: int, k: nat, n: nat)
    requires 0 < base && k <= n
    ensures 0 < Doubled(base, k) <= Doubled(base, n)
    decreases n
  {
    if k < n {
      DoublingGrows(base, k, n - 1);
    } else if n > 0 {
      DoublingGrows(base, n - 1, n - 1);
    }
  }

  lemma {:induction false} DoubledIsPower(base: int, k: nat)
    ensures Doubled(base, k) == base * Bytes.Pow2(k)
  {
    if k > 0 {
      DoubledIsPower(base, k - 1);
      assert base * (2 * Bytes.Pow2(k - 1)) == 2 * (base * Bytes.Pow2(k - 1));
    }
  }

  class Backoff {
    const base: int
    const max: int
    const factor: real := 2.0

    constructor (base: int, max: int)
      ensures this.base == base && this.max == max
    {
      this.base, this.max := base, max;
    }

    /** One wait; `random` is the random float in [0, 1). */
    method Duration(attempt: nat, random: real) returns (sleep: int)
      requires 0.0 <= random < 1.0
      ensures sleep <= max && (base <= max ==> base <= sleep)
      ensures 0 < base <= max ==> sleep <= Ceiling(base, max, attempt)
      ensures 0 < base <= max ==>
                var share := random * Ceiling(base, max, attempt) as real;
                if share < base as real then sleep == base else sleep as real <= share < (sleep + 1) as real
      ensures 0 < base <= max ==> sleep == Max(base, Drawn(random, Ceiling(base, max, attempt) as real))
    {
      hide Drawn;
      var temp := Grow(attempt);
      if 0 < base <= max {
        DoublingGrows(base, 0, attempt);
        DrawnBelow(random, Ceiling(base, max, attempt));
      }
      sleep := Drawn(random, temp);
      if sleep < base {
        sleep := base;
      }
      if sleep > max {
        sleep := max;
      }
    }

    /**
      The loop that doubles up to the cap and leaves early: doubling that has reached the cap would stay
      there, so nothing is lost.
    */
    method Grow(attempt: nat) returns (temp: real)
      ensures 0 < base <= max ==> temp == Ceiling(base, max, attempt) as real
    {
      temp := base as real;
      var i := 0;
      while i < attempt
        invariant 0 <= i <= attempt
        invariant temp == Doubled(base, i) as real
        invariant 0 < base <= max ==> temp <= max as real
      {
        temp := temp * factor;
        i := i + 1;
        if temp >= max as real {
          if 0 < base <= max {
            DoublingGrows(base, i, attempt);
          }
          temp := max as real;
          break;
        }
      }
    }
  }

  lemma DrawnBelow(random: real, ceiling: int)
    requires 0.0 <= random < 1.0 && ceiling > 0
    ensures 0 <= Drawn(random, ceiling as real) <= ceiling
    ensures Drawn(random, ceiling as real) as real <= random * ceiling as real < (Drawn(random, ceiling as real) + 1) as real
  {
    ShareBelow(random, ceiling as real);
  }

  lemma ShareBelow(random: real, whole: real)
    requires 0.0 <= random < 1.0 && whole > 0.0
    ensures 0.0 <= random * whole <= whole
  {
  }

  /**
    In every run of the worker, the wait after a failed attempt that follows k consecutive failures lies
    between the base and the smaller of base doubled k times and the cap.
  */
  method DelayAfterFailure(run: seq<Action>, backoff: Backoff, attempt: nat, random: real) returns (delay: int)
    requires Legal(INIT, run) && Exec(INIT, run).loop.ConnectFailed? && attempt == Exec(INIT, run).attempt
    requires 0 < backoff.base <= backoff.max && 0.0 <= random < 1.0
    ensures var k := TrailingFailures(Exec(INIT, run).outcomes) - 1;
            k >= 0 && backoff.base <= delay <= Min(Doubled(backoff.base, k), backoff.max)
  {
    hide Exec, Legal, INIT;
    AttemptCountsFailures(run);
    delay := backoff.Duration(attempt, random);
  }
}
