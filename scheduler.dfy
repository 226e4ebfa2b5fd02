/**
 * The drift-free tick loop of `event_loop`. Times are integers counting
 * microseconds, the resolution of Python's `datetime`; the loop keeps an
 * anchor `clock` that advances by one tick per iteration whatever the
 * observed times, reports late arrivals and naps until the next anchor.
 */
module Scheduler {
  import opened Timestamp
  import opened Dispatch

  const Second: int := 1000000

  /** `timedelta(minutes = interval)`: a whole number of seconds, growing with the interval. */
  function Tick(interval: int): (t: int)
    ensures t % Second == 0 && t / Second == 60 * interval
  {
    60 * Second * interval
  }

  /** `timedelta(minutes = interval * 0.10).total_seconds()`: a tenth of the interval. */
  function Margin(interval: int): (m: int)
    ensures 10 * m == Tick(interval)
  {
    6 * Second * interval
  }

  /**
   * The overrun test `delta < 0 and abs(delta) > margin` on
   * `delta = clock - now`: the arrival is later than the anchor by more
   * than the margin (and late at all, which only matters for a negative margin).
   */
  function Overrun(clock: int, now: int, margin: int): (late: bool)
    ensures late <==> now > clock && now - clock > margin
  {
    var delta := clock - now;
    delta < 0 && (if delta < 0 then -delta else delta) > margin
  }

  /** `max(0.0, clock - now)`: how long to sleep until the anchor, never negative. */
  function Nap(clock: int, now: int): (nap: int)
    ensures nap >= 0 && now + nap >= clock
    ensures nap > 0 ==> now + nap == clock
    ensures nap == 0 <==> now >= clock
  {
    var delta := clock - now;
    if delta > 0 then delta else 0
  }

  /** With a non-negative margin, an arrival is reported exactly when it is later than the anchor by more than the margin. */
  lemma OverrunExactly(clock: int, now: int, interval: int)
    requires interval >= 0
    ensures Overrun(clock, now, Margin(interval)) <==> now - clock > Margin(interval)
    ensures now - clock <= Margin(interval) ==> !Overrun(clock, now, Margin(interval))
  {
  }

  /** The anchor of iteration `k`: the start plus `k` ticks. */
  function Anchor(start: int, tick: int, k: nat): int {
    start + k * tick
  }

  /** Consecutive anchors are one tick apart. */
  lemma AnchorStep(start: int, tick: int, k: nat)
    ensures Anchor(start, tick, k + 1) == Anchor(start, tick, k) + tick
  {
    assert (k + 1) * tick == k * tick + tick;
  }

  /**
   * The anchor state of `event_loop`: `clock` is the time the next cycle
   * should start. The ghost count of past iterations ties it to the start.
   */
  class Ticker {
    const tick: int
    const margin: int
    const start: int
    var clock: int
    ghost var ticks: nat

    ghost predicate Valid()
      reads this
    {
      clock == Anchor(start, tick, ticks)
    }

    /** The ticker `event_loop` sets up for `interval` at time `boot`, after `k` iterations. */
    ghost predicate Running(interval: int, boot: int, k: nat)
      reads this
    {
      Valid() && ticks == k && tick == Tick(interval) && margin == Margin(interval) && start == boot + 5 * Second
    }

    /** The set-up before the loop: the first cycle is due five seconds after `now`. */
    constructor(interval: int, now: int)
      ensures Valid() && ticks == 0
      ensures tick == Tick(interval) && margin == Margin(interval) && start == now + 5 * Second
      ensures clock == now + 5 * Second
    {
      tick := Tick(interval);
      margin := Margin(interval);
      start := now + 5 * Second;
      clock := now + 5 * Second;
      ticks := 0;
    }

    /**
     * The top of an iteration: the lateness `clock - now` is measured and
     * judged against the margin, and the anchor moves on by one tick,
     * whatever time it is.
     */
    method Arrive(now: int) returns (delta: int, overrun: bool)
      requires Valid()
      modifies this
      ensures delta == old(clock) - now && overrun == Overrun(old(clock), now, margin)
      ensures clock == old(clock) + tick && ticks == old(ticks) + 1
      ensures Valid()
    {
      delta := clock - now;
      overrun := delta < 0 && (if delta < 0 then -delta else delta) > margin;
      clock := clock + tick;
      ticks := ticks + 1;
    }

    /** The bottom of an iteration: the sleep until the next anchor. */
    method NapUntilNext(now: int) returns (nap: int)
      ensures nap == Nap(clock, now)
    {
      var delta := clock - now;
      nap := if delta > 0 then delta else 0;
    }
  }

  /** What the loop observes in one iteration: the time on arrival, the wall-clock label time, the results, the time after the cycle. */
  datatype Observation = Observation(now: int, wall: DateTime, results: seq<Result>, after: int)

  /** What one iteration does: the lateness it measured, whether it reported an overrun, its report, and its sleep. */
  datatype Iteration = Iteration(anchor: int, delta: int, overrun: bool, stderr: seq<string>, nap: int)

  /**
   * What iteration `k` of `event_loop` does with observation `o` (a valid
   * wall-clock time, results only for groups of the inventory): it is
   * judged against the anchor `boot + 5 s + k ticks`, reports the cycle
   * for the wall-clock label, and sleeps until the next anchor.
   */
  predicate IterationOf(it: Iteration, o: Observation, interval: int, boot: int, inventory: map<string, string>, k: nat)
  {
    var anchor := Anchor(boot + 5 * Second, Tick(interval), k);
    var next := Anchor(boot + 5 * Second, Tick(interval), k + 1);
    && Valid(o.wall) && Known(inventory, o.results)
    && it.anchor == anchor
    && it.delta == anchor - o.now
    && it.overrun == Overrun(anchor, o.now, Margin(interval))
    && it.stderr == DoOneEventLoop(Format(o.wall), inventory, o.results).stderr
    && it.nap == Nap(next, o.after)
  }

  /**
   * `event_loop` over a finite run of observations. The cancellation
   * branch is there, but the cycle never asks to quit, so the loop goes
   * through every observation: iteration `k` is judged against the anchor
   * `boot + 5 s + k ticks` whatever the earlier times were, and it sleeps
   * exactly until the next anchor, or not at all when that has passed.
   */
  method EventLoop(interval: int, boot: int, inventory: map<string, string>, obs: seq<Observation>)
    returns (log: seq<Iteration>)
    requires forall k :: 0 <= k < |obs| ==> Valid(obs[k].wall) && Known(inventory, obs[k].results)
    ensures |log| == |obs|
    ensures forall k :: 0 <= k < |obs| ==> IterationOf(log[k], obs[k], interval, boot, inventory, k)
  {
    var ticker := new Ticker(interval, boot);
    log := [];
    var k := 0;
    while k < |obs|
      invariant 0 <= k <= |obs| && |log| == k
      invariant ticker.Running(interval, boot, k)
      invariant forall j :: 0 <= j < k ==> IterationOf(log[j], obs[j], interval, boot, inventory, j)
    {
      var quit;
      log, quit := RunIteration(ticker, interval, boot, inventory, obs, log);
      if quit {
        break;
      }
      k := k + 1;
    }
  }

  /**
   * One pass through the body of `event_loop`'s loop: measure the
   * lateness against the anchor and move the anchor on, run the cycle,
   * then compute the nap until the next anchor; what iteration `|log|`
   * did is appended to the log.
   */
  method RunIteration(ticker: Ticker, interval: int, boot: int, inventory: map<string, string>, obs: seq<Observation>, log: seq<Iteration>)
    returns (log': seq<Iteration>, quit: bool)
    requires |log| < |obs| && forall j :: 0 <= j < |obs| ==> Valid(obs[j].wall) && Known(inventory, obs[j].results)
    requires forall j :: 0 <= j < |log| ==> IterationOf(log[j], obs[j], interval, boot, inventory, j)
    requires ticker.Running(interval, boot, |log|)
    modifies ticker
    ensures ticker.Running(interval, boot, |log| + 1)
    ensures !quit && |log'| == |log| + 1 && log'[..|log|] == log
    ensures forall j :: 0 <= j < |log'| ==> IterationOf(log'[j], obs[j], interval, boot, inventory, j)
  {
    var k := |log|;
    var o := obs[k];
    var anchor := ticker.clock;
    AnchorStep(boot + 5 * Second, Tick(interval), k);
    var delta, overrun := ticker.Arrive(o.now);
    var cycle := DoOneEventLoop(Format(o.wall), inventory, o.results);
    quit := cycle.quit;
    var nap := ticker.NapUntilNext(o.after);
    log' := log + [Iteration(anchor, delta, overrun, cycle.stderr, nap)];
  }

  /**
   * However late a cycle ends, the next one starts at its anchor when
   * there is time left, and at once otherwise: the wake-up time is the
   * later of the two, so lateness never carries over into later anchors.
   */
  lemma WakeAtAnchor(start: int, tick: int, k: nat, after: int)
    ensures var next := Anchor(start, tick, k + 1);
      after + Nap(next, after) == (if after > next then after else next)
  {
  }
}
