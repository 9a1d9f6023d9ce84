/**
 * The stat counter animation: an interval timer that grows `current` by a fixed
 * increment every 16 ms, shows `floor(current)` and, on the first tick where
 * `current` reaches the target, shows the target and clears itself.
 */
module Counter {

  /** Milliseconds between two ticks of the interval timer. */
  const Interval: int := 16
  /** The duration the stats block passes to every counter. */
  const StatsDuration: int := 2000

  /** `target / (duration / 16)`: what `current` grows by on each tick. */
  function Increment(target: int, duration: int): real
    requires duration > 0
  {
    target as real / (duration as real / Interval as real)
  }

  /** The value of `current` after `k` ticks, computed with exact arithmetic. */
  function Current(target: int, duration: int, k: nat): real
    requires duration > 0
  {
    k as real * Increment(target, duration)
  }

  /** Tick `k` finds `current >= target`: it shows the target and clears the timer. */
  predicate Reached(target: int, duration: int, k: nat)
    requires duration > 0
  {
    Current(target, duration, k) >= target as real
  }

  /** The number the element shows after tick `k`. */
  function Shown(target: int, duration: int, k: nat): (r: int)
    requires duration > 0
    ensures 0 <= target ==> 0 <= r <= target
  {
    if Reached(target, duration, k) then target
    else
      assert 0 <= target ==> 0.0 <= Increment(target, duration) && 0.0 <= Current(target, duration, k);
      Current(target, duration, k).Floor
  }

  /** The number of ticks the timer runs for: one for a target of zero or less, else `ceil(duration / 16)`. */
  function TickCount(target: int, duration: int): (n: nat)
    requires duration >= Interval
    ensures n >= 1
    ensures 0 < target ==> Interval * (n - 1) < duration <= Interval * n
  {
    if target <= 0 then 1 else (duration + Interval - 1) / Interval
  }

  /** Reaching the target, restated over the integers: `16 * k * target >= target * duration`. */
  lemma ReachedIff(target: int, duration: int, k: nat)
    requires duration > 0
    ensures Reached(target, duration, k) <==> Interval * k * target >= target * duration
  {
  }

  /** `TickCount` is the first tick on which `current` reaches the target. */
  lemma {:induction false} TickCountIsFirstReached(target: int, duration: int)
    requires duration >= Interval
    ensures Reached(target, duration, TickCount(target, duration))
    ensures forall k :: 1 <= k < TickCount(target, duration) ==> !Reached(target, duration, k)
  {
    var n := TickCount(target, duration);
    ReachedIff(target, duration, n);
    if target > 0 {
      assert Interval * n >= duration;
      forall k | 1 <= k < n
        ensures !Reached(target, duration, k)
      {
        ReachedIff(target, duration, k);
        assert Interval * k < duration;
      }
    }
  }

  /** With a non-negative target, the displayed number never goes down from one tick to a later one. */
  lemma ShownNonDecreasing(target: int, duration: int, j: nat, k: nat)
    requires duration >= Interval && 0 <= target
    requires 1 <= j <= k <= TickCount(target, duration)
    ensures Shown(target, duration, j) <= Shown(target, duration, k)
  {
    TickCountIsFirstReached(target, duration);
    if j < k {
      var cj, ck := Current(target, duration, j), Current(target, duration, k);
      assert !Reached(target, duration, j);
      assert Increment(target, duration) >= 0.0;
      assert cj <= ck by {
        assert ck - cj == (k - j) as real * Increment(target, duration);
      }
    }
  }

  /**
   * The interval callback of `animateCounter`, run until it clears its own timer.
   * Each loop iteration is one tick; the result lists the numbers written to the
   * element, one per tick.
   */
  method AnimateCounter(target: int, duration: int) returns (shown: seq<int>)
    requires duration >= Interval
    ensures |shown| >= 1 && shown[|shown| - 1] == target
    ensures Reached(target, duration, |shown|)
    ensures forall k :: 1 <= k < |shown| ==> !Reached(target, duration, k)
    ensures forall k :: 0 <= k < |shown| ==> shown[k] == Shown(target, duration, k + 1)
    ensures 0 <= target ==> forall j, k :: 0 <= j <= k < |shown| ==> shown[j] <= shown[k]
    ensures 0 < target && duration == StatsDuration ==> |shown| == 125
  {
    var increment := target as real / (duration as real / Interval as real);
    var current := 0.0;
    var running := true;
    shown := [];
    TickCountIsFirstReached(target, duration);
    while running
      invariant |shown| <= TickCount(target, duration)
      invariant current == Current(target, duration, |shown|)
      invariant running <==> |shown| < TickCount(target, duration)
      invariant forall k :: 0 <= k < |shown| ==> shown[k] == Shown(target, duration, k + 1)
      decreases TickCount(target, duration) - |shown|
    {
      current := current + increment;
      assert current == Current(target, duration, |shown| + 1);
      assert |shown| + 1 < TickCount(target, duration) ==> !Reached(target, duration, |shown| + 1);
      if current >= target as real {
        shown := shown + [target];
        running := false;
      } else {
        shown := shown + [current.Floor];
      }
    }
    if 0 <= target {
      forall j, k | 0 <= j <= k < |shown|
        ensures shown[j] <= shown[k]
      {
        ShownNonDecreasing(target, duration, j + 1, k + 1);
      }
    }
  }
}
