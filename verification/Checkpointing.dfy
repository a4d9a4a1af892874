/**
 Periodic checkpoints, gem5/configs/common/Simulation.py (scriptCheckpoints,
 lines 231-266), against an arbitrary simulator.

 The simulator is an environment that decides at every call to simulate() why and
 when it returns.  A run is determined by the finite list of decisions it makes.
 */
module Checkpointing {

  /** Why simulate() returned: the tick limit, a checkpoint request of the benchmark, or anything else. */
  datatype Cause = Limit | Request | Other

  /** One decision: run to the limit, or stop after `delay` ticks (but not beyond the limit). */
  datatype Decision = RunToLimit | Stop(delay: nat, request: bool)

  /** One call to simulate(): the tick it started at, how far it was to go, and why it returned. */
  datatype Call = Call(start: nat, ticks: nat, cause: Cause)

  class Simulator {
    var now: nat
    var decisions: seq<Decision>
    var calls: seq<Call>

    constructor (now: nat, decisions: seq<Decision>)
      ensures this.now == now && this.decisions == decisions && calls == []
    {
      this.now, this.decisions, calls := now, decisions, [];
    }

    /** m5.simulate(ticks): after its last decision the simulator always runs to the limit. */
    method Simulate(ticks: nat) returns (cause: Cause)
      modifies this
      ensures old(now) <= now <= old(now) + ticks
      ensures cause == Limit ==> now == old(now) + ticks
      ensures cause != Limit ==> |decisions| < |old(decisions)|
      ensures |decisions| <= |old(decisions)|
      ensures calls == old(calls) + [Call(old(now), ticks, cause)]
      ensures old(decisions) == [] ==> cause == Limit
      ensures old(decisions) != [] ==>
          cause == match old(decisions)[0] {
                     case RunToLimit => Limit
                     case Stop(_, request) => if request then Request else Other
                   }
      ensures old(decisions) != [] && old(decisions)[0].Stop? ==>
          now == old(now) + if old(decisions)[0].delay <= ticks then old(decisions)[0].delay else ticks
    {
      if decisions == [] {
        cause, calls, now := Limit, calls + [Call(now, ticks, Limit)], now + ticks;
        return;
      }
      var d := decisions[0];
      decisions := decisions[1..];
      cause := if d.RunToLimit? then Limit else if d.request then Request else Other;
      calls := calls + [Call(now, ticks, cause)];
      now := now + if d.RunToLimit? || d.delay > ticks then ticks else d.delay;
    }

    /** Runs to tick `target`, carrying on after every checkpoint request (lines 237-241 and 260-261). */
    method RunTo(target: nat) returns (cause: Cause)
      requires now <= target
      modifies this
      ensures old(now) <= now <= target && cause != Request && (cause == Limit ==> now == target)
      ensures old(calls) < calls && CarriesOn(calls[|old(calls)|..], target, cause)
    {
      cause := Simulate(target - now);
      while cause == Request
        invariant old(now) <= now <= target && (cause == Limit ==> now == target)
        invariant old(calls) < calls && CarriesOn(calls[|old(calls)|..], target, cause)
        decreases |decisions|, if cause == Request then 1 else 0
      {
        ghost var before := calls;
        cause := Simulate(target - now);
        assert calls[|old(calls)|..] == before[|old(calls)|..] + [calls[|calls| - 1]];
      }
    }

    /** One more period (lines 257-261): why its first call returned, and why its last one did. */
    method RunPeriod(period: nat) returns (exitCause: Cause, cause: Cause)
      modifies this
      ensures old(now) <= now <= old(now) + period && (cause == Limit ==> now == old(now) + period)
      ensures old(calls) < calls && calls[|old(calls)|] == Call(old(now), period, exitCause)
      ensures calls[|calls| - 1].cause == cause != Request
      ensures exitCause != Request ==> exitCause == cause && |calls| == |old(calls)| + 1
      ensures cause == Limit ==> now == calls[|calls| - 1].start + calls[|calls| - 1].ticks
      ensures exitCause == Request ==>
          |calls| > |old(calls)| + 1 && CarriesOn(calls[|old(calls)| + 1..], old(now) + period, cause)
    {
      var target := now + period;
      exitCause := Simulate(period);
      cause := exitCause;
      if cause == Request {
        cause := RunTo(target);
      }
    }
  }

  /** Calls that all aim at `target`, each but the last ended by a checkpoint request. */
  ghost predicate CarriesOn(cs: seq<Call>, target: nat, cause: Cause) {
    && |cs| > 0 && cs[|cs| - 1].cause == cause
    && (forall k :: 0 <= k < |cs| ==> cs[k].start + cs[k].ticks == target)
    && (forall k :: 0 <= k < |cs| - 1 ==> cs[k].cause == Request)
  }

  /** The ticks at which checkpoints are due. */
  function Due(when: nat, period: nat, k: nat): nat {
    if k == 0 then when else Due(when, period, k - 1) + period
  }

  lemma {:induction false} DueInClosedForm(when: nat, period: nat, k: nat)
    ensures Due(when, period, k) == when + k * period
  {
    if k > 0 {
      DueInClosedForm(when, period, k - 1);
      assert k * period == (k - 1) * period + period;
    }
  }

  ghost predicate OnSchedule(written: seq<nat>, when: nat, period: nat) {
    forall k :: 0 <= k < |written| ==> written[k] == Due(when, period, k)
  }

  /** Each of the checkpoints 1 .. n - 1 was reached by one call for a whole period: those after call `first`. */
  ghost predicate OneCallEach(calls: seq<Call>, first: nat, n: int, when: nat, period: nat) {
    && (n > 1 ==> first + n <= |calls|)
    && forall j :: first < j < first + n ==> calls[j] == Call(Due(when, period, j - first - 1), period, Limit)
  }

  /** Later calls leave the earlier checkpoints as they are, and one more whole period makes one more. */
  lemma {:induction false} OneCallMore(before: seq<Call>, calls: seq<Call>, first: nat, n: nat, when: nat, period: nat)
    requires n > 0 && OneCallEach(before, first, n, when, period) && before < calls && |before| == first + n
    ensures OneCallEach(calls, first, n, when, period)
    ensures calls[|before|] == Call(Due(when, period, n - 1), period, Limit) ==>
        OneCallEach(calls, first, n + 1, when, period)
  {
    forall j | first < j < first + n ensures calls[j] == before[j] {
    }
  }

  lemma {:induction false} FirstPart(head: seq<Call>, calls: seq<Call>, from: nat)
    requires head <= calls && from <= |head|
    ensures calls[from..|head|] == head[from..]
  {
  }

  ghost predicate Interrupted(calls: seq<Call>, first: nat) {
    exists k :: first <= k < |calls| && calls[k].cause != Limit
  }

  /**
   How a run ends after `done` checkpoints that were reached without interruption: at once; or with
   the rest of the ticks up to maxTick; or with a period that is cut short; or with one that a
   checkpoint request interrupts, which is carried on to its end and gives one more checkpoint.
   */
  ghost predicate Ending(tail: seq<Call>, done: nat, extra: bool, when: nat, period: nat, maxCheckpoints: nat,
                         maxTick: nat)
  {
    if done == 0 || done >= maxCheckpoints then tail == [] && !extra
    else
      var last, next := Due(when, period, done - 1), Due(when, period, done);
      if next > maxTick then
        if last > maxTick then tail == [] && !extra
        else |tail| == 1 && tail[0].start == last && tail[0].ticks == maxTick - last && !extra
      else
        && |tail| > 0 && tail[0].start == last && tail[0].ticks == period && tail[0].cause != Limit
        && (tail[0].cause == Other ==> |tail| == 1 && !extra)
        && (tail[0].cause == Request ==>
              CarriesOn(tail[1..], next, tail[|tail| - 1].cause) && tail[|tail| - 1].cause != Request
              && (extra <==> tail[|tail| - 1].cause == Limit))
  }

  /** The run was as the source prescribes, from the end of the first phase on. */
  ghost predicate Prescribed(calls: seq<Call>, first: nat, written: seq<nat>, done: nat, when: nat, period: nat,
                             maxCheckpoints: nat, maxTick: nat)
  {
    && done <= |written| <= done + 1 && first + (if done == 0 then 1 else done) <= |calls|
    && OneCallEach(calls, first, done, when, period)
    && Ending(calls[first + (if done == 0 then 1 else done)..], done, |written| == done + 1, when, period,
              maxCheckpoints, maxTick)
  }

  /** Whatever follows `n` uninterrupted checkpoints ends the run as prescribed if it is an ending. */
  lemma {:induction false} EndsHere(before: seq<Call>, calls: seq<Call>, first: nat, written: seq<nat>, n: nat,
                                    when: nat, period: nat, maxCheckpoints: nat, maxTick: nat)
    requires n > 0 && OneCallEach(before, first, n, when, period) && before <= calls && |before| == first + n
    requires n <= |written| <= n + 1
    requires Ending(calls[|before|..], n, |written| == n + 1, when, period, maxCheckpoints, maxTick)
    ensures Prescribed(calls, first, written, n, when, period, maxCheckpoints, maxTick)
  {
    forall j | first < j < first + n ensures calls[j] == before[j] {
    }
  }

  lemma {:induction false} EndsAtMaxTick(before: seq<Call>, calls: seq<Call>, first: nat, written: seq<nat>, when: nat,
                                         period: nat, maxCheckpoints: nat, maxTick: nat, cause: Cause)
    requires 0 < |written| < maxCheckpoints && OneCallEach(before, first, |written|, when, period)
    requires |before| == first + |written| && Due(when, period, |written|) > maxTick
    requires var last := Due(when, period, |written| - 1);
             calls == if last > maxTick then before else before + [Call(last, maxTick - last, cause)]
    ensures Prescribed(calls, first, written, |written|, when, period, maxCheckpoints, maxTick)
  {
    EndsHere(before, calls, first, written, |written|, when, period, maxCheckpoints, maxTick);
  }

  lemma {:induction false} EndsInPeriod(before: seq<Call>, calls: seq<Call>, first: nat, written: seq<nat>, n: nat,
                                        when: nat, period: nat, maxCheckpoints: nat, maxTick: nat, cause: Cause)
    requires 0 < n < maxCheckpoints && OneCallEach(before, first, n, when, period) && |before| == first + n
    requires Due(when, period, n) <= maxTick && before < calls && calls[|calls| - 1].cause == cause != Request
    requires |written| == if cause == Limit then n + 1 else n
    requires var c := calls[|before|];
             && c.start == Due(when, period, n - 1) && c.ticks == period && c.cause != Limit
             && (c.cause == Other ==> |calls| == |before| + 1)
             && (c.cause == Request ==> CarriesOn(calls[|before| + 1..], Due(when, period, n), cause))
    ensures Prescribed(calls, first, written, n, when, period, maxCheckpoints, maxTick)
  {
    var tail := calls[|before|..];
    assert tail[1..] == calls[|before| + 1..] && tail[0] == calls[|before|] && tail[|tail| - 1] == calls[|calls| - 1];
    EndsHere(before, calls, first, written, n, when, period, maxCheckpoints, maxTick);
  }

  /** The schedule is kept, and no checkpoint is written after maxTick. */
  ghost predicate InTime(written: seq<nat>, when: nat, period: nat, maxTick: nat) {
    OnSchedule(written, when, period) && (when <= maxTick ==> forall k :: 0 <= k < |written| ==> written[k] <= maxTick)
  }

  /** One more checkpoint, one period after the last. */
  lemma {:induction false} InTimeMore(written: seq<nat>, tick: nat, when: nat, period: nat, maxTick: nat)
    requires InTime(written, when, period, maxTick) && tick == Due(when, period, |written|) <= maxTick
    ensures InTime(written + [tick], when, period, maxTick)
  {
  }

  /** The cause of the last call, and where it left the simulator. */
  ghost predicate LastCall(sim: Simulator, cause: Cause)
    reads sim
  {
    && |sim.calls| > 0 && sim.calls[|sim.calls| - 1].cause == cause
    && (cause == Limit ==> sim.now == sim.calls[|sim.calls| - 1].start + sim.calls[|sim.calls| - 1].ticks)
  }

  /** The next checkpoint would be too late: run to maxTick, if that is still ahead (lines 252-255). */
  method Finish(sim: Simulator, simTicks: nat, when: nat, period: nat, maxCheckpoints: nat, maxTick: nat,
                ghost first: nat, ghost written: seq<nat>) returns (cause: Cause, badLimit: bool)
    requires LastCall(sim, Limit) && UpTo(sim, first, written, simTicks, when, period)
    requires |written| < maxCheckpoints && simTicks + period > maxTick
    modifies sim
    ensures badLimit <==> simTicks > maxTick
    ensures old(sim.calls) <= sim.calls && LastCall(sim, cause) && (simTicks <= maxTick ==> sim.now <= maxTick)
    ensures Prescribed(sim.calls, first, written, |written|, when, period, maxCheckpoints, maxTick)
  {
    ghost var before := sim.calls;
    cause, badLimit := Limit, maxTick < simTicks;
    if !badLimit {
      cause := sim.Simulate(maxTick - simTicks);
    }
    EndsAtMaxTick(before, sim.calls, first, written, when, period, maxCheckpoints, maxTick, cause);
  }

  /** One more period (lines 257-264): to plan, or the end of the run. */
  method Period(sim: Simulator, when: nat, period: nat, maxCheckpoints: nat, maxTick: nat, ghost first: nat,
                ghost written: seq<nat>) returns (exitCause: Cause, cause: Cause)
    requires LastCall(sim, Limit) && UpTo(sim, first, written, sim.now, when, period)
    requires |written| < maxCheckpoints && sim.now + period <= maxTick
    requires InTime(written, when, period, maxTick)
    modifies sim
    ensures old(sim.calls) <= sim.calls && LastCall(sim, cause) && sim.now <= maxTick
    ensures cause == Limit ==> InTime(written + [sim.now], when, period, maxTick)
    ensures exitCause == Limit ==> cause == Limit && UpTo(sim, first, written + [sim.now], sim.now, when, period)
    ensures exitCause != Limit ==>
        Prescribed(sim.calls, first, if cause == Limit then written + [sim.now] else written, |written|, when, period,
                   maxCheckpoints, maxTick)
  {
    ghost var before := sim.calls;
    exitCause, cause := sim.RunPeriod(period);
    ghost var all := if cause == Limit then written + [sim.now] else written;
    if cause == Limit {
      InTimeMore(written, sim.now, when, period, maxTick);
    }
    if exitCause == Limit {
      OneCallMore(before, sim.calls, first, |written|, when, period);
    } else {
      EndsInPeriod(before, sim.calls, first, all, |written|, when, period, maxCheckpoints, maxTick, cause);
    }
  }

  /** The loop (lines 250-264), once the first checkpoint has been written. */
  method MoreCheckpoints(sim: Simulator, when: nat, period: nat, maxCheckpoints: nat, maxTick: nat, ghost first: nat)
      returns (written: seq<nat>, cause: Cause, badLimit: bool, ghost done: nat)
    requires sim.now == when && |sim.calls| == first + 1 && sim.calls[first].cause == Limit && LastCall(sim, Limit)
    modifies sim
    ensures written != [] && InTime(written, when, period, maxTick)
    ensures |written| <= if maxCheckpoints > 1 then maxCheckpoints else 1
    ensures when <= maxTick ==> sim.now <= maxTick
    ensures badLimit <==> when > maxTick && maxCheckpoints > 1
    ensures old(sim.calls) <= sim.calls && LastCall(sim, cause)
    ensures done > 0 && Prescribed(sim.calls, first, written, done, when, period, maxCheckpoints, maxTick)
  {
    badLimit, cause := false, Limit;
    written, done := [sim.now], 1;
    var simTicks: nat := when;
    while |written| < maxCheckpoints
      invariant !badLimit && cause == Limit && LastCall(sim, Limit) && old(sim.calls) <= sim.calls
      invariant |written| <= maxCheckpoints || |written| <= 1
      invariant InTime(written, when, period, maxTick) && (when <= maxTick ==> sim.now <= maxTick)
      invariant when > maxTick ==> |written| <= 1
      invariant done == |written| && UpTo(sim, first, written, simTicks, when, period)
      decreases maxCheckpoints - |written|
    {
      if simTicks + period > maxTick {
        cause, badLimit := Finish(sim, simTicks, when, period, maxCheckpoints, maxTick, first, written);
        return;
      }
      var exitCause;
      exitCause, cause := Period(sim, when, period, maxCheckpoints, maxTick, first, written);
      simTicks := simTicks + period;
      if cause == Limit {
        written := written + [sim.now];
      }
      if exitCause != Limit {
        return;
      }
      done := |written|;
    }
    assert sim.calls[|sim.calls|..] == [];
    EndsHere(sim.calls, sim.calls, first, written, done, when, period, maxCheckpoints, maxTick);
  }

  /**
   The periodic branch of scriptCheckpoints.  `written` are the ticks at which checkpoints
   were taken; `badLimit` stands for handing simulate(), whose argument is unsigned, a
   negative number of ticks.  `first` is the last call of the run up to `when`, and `done` the
   number of checkpoints reached without interruption.

   The loop looks at the cause of the first call of a period only, so a checkpoint request
   ends the series after one more checkpoint.
   */
  method ScriptCheckpoints(sim: Simulator, when: nat, period: nat, maxCheckpoints: nat, maxTick: nat)
      returns (written: seq<nat>, cause: Cause, badLimit: bool, ghost first: nat, ghost done: nat)
    requires sim.now <= when
    modifies sim
    ensures InTime(written, when, period, maxTick) && (when <= maxTick ==> sim.now <= maxTick)
    ensures |written| <= if maxCheckpoints > 1 then maxCheckpoints else 1
    ensures badLimit <==> when > maxTick && maxCheckpoints > 1 && written != []
    ensures |old(sim.calls)| <= first < |sim.calls|
    ensures CarriesOn(sim.calls[|old(sim.calls)|..first + 1], when, sim.calls[first].cause)
    ensures written == [] <==> sim.calls[first].cause != Limit
    ensures LastCall(sim, cause) && Prescribed(sim.calls, first, written, done, when, period, maxCheckpoints, maxTick)
    ensures badLimit || |written| >= maxCheckpoints || when + |written| * period > maxTick ||
        Interrupted(sim.calls, first)
    ensures !badLimit && 0 < |written| < maxCheckpoints && !Interrupted(sim.calls, first) ==>
        var last := when + (|written| - 1) * period;
        && sim.now == maxTick && last <= maxTick
        && sim.calls[|sim.calls| - 1] == Call(last, maxTick - last, Limit)
  {
    cause := sim.RunTo(when);
    first := |sim.calls| - 1;
    ghost var head := sim.calls;
    written, badLimit, done := [], false, 0;
    if cause == Limit {
      written, cause, badLimit, done := MoreCheckpoints(sim, when, period, maxCheckpoints, maxTick, first);
    }
    FirstPart(head, sim.calls, |old(sim.calls)|);
    if !badLimit && |written| < maxCheckpoints && !Interrupted(sim.calls, first) {
      assert sim.calls[first].cause == Limit;
      UninterruptedEnd(sim.calls, first, written, done, when, period, maxCheckpoints, maxTick);
      assert when + |written| * period == when + (|written| - 1) * period + period;
    }
  }

  /**
   A run that nothing interrupts, and that has room for more checkpoints, ends at maxTick with one call
   for the ticks that are left after the last checkpoint.
   */
  lemma {:induction false} UninterruptedEnd(calls: seq<Call>, first: nat, written: seq<nat>, done: nat, when: nat,
                                            period: nat, maxCheckpoints: nat, maxTick: nat)
    requires Prescribed(calls, first, written, done, when, period, maxCheckpoints, maxTick) && when <= maxTick
    requires 0 < |written| < maxCheckpoints && first < |calls| && !Interrupted(calls, first)
    requires written == [] <==> calls[first].cause != Limit
    requires InTime(written, when, period, maxTick)
    ensures var last := when + (|written| - 1) * period;
            last <= maxTick < last + period && calls[|calls| - 1] == Call(last, maxTick - last, Limit)
  {
    var base := first + if done == 0 then 1 else done;
    var tail := calls[base..];
    assert forall k :: 0 <= k < |tail| ==> tail[k] == calls[base + k];
    DueInClosedForm(when, period, |written| - 1);
    if done > 0 {
      DueInClosedForm(when, period, done);
      assert tail != [] ==> tail[0].cause == Limit;
    }
  }

  /** Everything went to plan so far: one call for every checkpoint after the first. */
  ghost predicate UpTo(sim: Simulator, first: nat, written: seq<nat>, simTicks: nat, when: nat, period: nat)
    reads sim
  {
    && |written| > 0 && simTicks == Due(when, period, |written| - 1) == sim.now
    && |sim.calls| == first + |written| && OneCallEach(sim.calls, first, |written|, when, period)
  }
}
