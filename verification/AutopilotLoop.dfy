/**
 The autopilot's main loop: what it dispatches each cycle, the idle-worker warning and the error cap.
 Clock readings are milliseconds; queries and submissions are given by the tick.
 */
module AutopilotLoop {
  import opened Collections

  const FULL_CYCLE_FLOOR_MS: nat := 3600000
  const NO_WORKER_WARN_TICKS: nat := 3
  const FAILURE_CAP: nat := 5

  datatype Config = Config(noWorker: bool, dispatch: bool)

  /** A remediation step: its job and estimated seconds. */
  datatype Step = Step(job: string, est: nat)

  datatype Health = Health(score: int, plan: seq<Step>)

  /**
   What one cycle meets: the probe's live-worker count (None: the query failed), the health and plan (None:
   reading them failed), the time of the decision, the time a full-cycle submission returned (None: it
   threw) and whether an inline cycle failed.
   */
  datatype Tick = Tick(probe: Option<nat>, health: Option<Health>, now: nat, submitted: Option<nat>, inlineFailed: bool)

  datatype Action = Slept | Full(at: nat) | Targeted(steps: seq<Step>) | DispatchFailed | Inline(failed: bool)

  predicate Failed(a: Action) {
    a.DispatchFailed? || (a.Inline? && a.failed)
  }

  function EstTotal(plan: seq<Step>): nat {
    if plan == [] then 0 else EstTotal(plan[..|plan| - 1]) + plan[|plan| - 1].est
  }

  predicate ShouldSleep(h: Health, sinceFull: int) {
    h.score >= 95 && |h.plan| == 0 && sinceFull < FULL_CYCLE_FLOOR_MS
  }

  predicate ShouldFullCycle(h: Health, sinceFull: int) {
    || (h.score >= 95 && |h.plan| == 0 && sinceFull >= FULL_CYCLE_FLOOR_MS)
    || |h.plan| > 3
    || EstTotal(h.plan) >= 300
    || h.score < 70
  }

  /** Sleeping and the full cycle exclude each other, and what is left is a small plan on a fair brain. */
  lemma DispatchIsExclusive(h: Health, sinceFull: int)
    ensures !(ShouldSleep(h, sinceFull) && ShouldFullCycle(h, sinceFull))
    ensures !ShouldSleep(h, sinceFull) && !ShouldFullCycle(h, sinceFull) <==>
      |h.plan| <= 3 && EstTotal(h.plan) < 300 && h.score >= 70 && (h.score < 95 || h.plan != [])
  {
    assert h.plan == [] ==> EstTotal(h.plan) == 0;
  }

  function Choose(c: Config, t: Tick, lastFull: nat): Action {
    if !c.dispatch then Inline(t.inlineFailed)
    else if t.health.None? then DispatchFailed
    else if ShouldSleep(t.health.value, t.now - lastFull) then Slept
    else if ShouldFullCycle(t.health.value, t.now - lastFull) then
      if t.submitted.None? then DispatchFailed else Full(t.submitted.value)
    else Targeted(t.health.value.plan)
  }

  datatype State = State(errors: nat, idle: nat, lastFull: nat, warnings: nat, done: seq<Action>)

  predicate Probes(c: Config) {
    c.noWorker && c.dispatch
  }

  function Next(c: Config, s: State, t: Tick): State {
    var a := Choose(c, t, s.lastFull);
    var idle := if !Probes(c) || t.probe.None? then s.idle else if t.probe.value == 0 then s.idle + 1 else 0;
    State(
      if Failed(a) then s.errors + 1 else 0,
      idle,
      if a.Full? then a.at else s.lastFull,
      if idle > s.idle && idle == NO_WORKER_WARN_TICKS then s.warnings + 1 else s.warnings,
      s.done + [a])
  }

  function Run(c: Config, ts: seq<Tick>): State {
    if ts == [] then State(0, 0, 0, 0, []) else Next(c, Run(c, ts[..|ts| - 1]), ts[|ts| - 1])
  }

  class Autopilot {
    const config: Config
    var consecutiveErrors: nat
    var noWorkerConsecutiveIdle: nat
    var lastFullCycleAt: nat
    var warnings: nat
    var done: seq<Action>

    function Now(): State
      reads this
    {
      State(consecutiveErrors, noWorkerConsecutiveIdle, lastFullCycleAt, warnings, done)
    }

    constructor (c: Config)
      ensures config == c && Now() == Run(c, [])
    {
      config := c;
      consecutiveErrors, noWorkerConsecutiveIdle, lastFullCycleAt, warnings, done := 0, 0, 0, 0, [];
    }

    method ProbeWorker(probe: Option<nat>)
      modifies this`noWorkerConsecutiveIdle, this`warnings
      ensures var s := old(Now());
        && noWorkerConsecutiveIdle == (if probe.None? then s.idle else if probe.value == 0 then s.idle + 1 else 0)
        && warnings == s.warnings
          + if noWorkerConsecutiveIdle > s.idle && noWorkerConsecutiveIdle == 3 then 1 else 0
    {
      if probe.None? {
        return;
      }
      if probe.value == 0 {
        noWorkerConsecutiveIdle := noWorkerConsecutiveIdle + 1;
        if noWorkerConsecutiveIdle == NO_WORKER_WARN_TICKS {
          warnings := warnings + 1;
        }
      } else {
        noWorkerConsecutiveIdle := 0;
      }
    }

    method Dispatch(t: Tick) returns (cycleOk: bool)
      modifies this`lastFullCycleAt, this`done
      ensures var a := Choose(config, t, old(lastFullCycleAt));
        && done == old(done) + [a]
        && lastFullCycleAt == (if a.Full? then a.at else old(lastFullCycleAt))
        && cycleOk == !Failed(a)
    {
      cycleOk := true;
      if !config.dispatch {
        done := done + [Inline(t.inlineFailed)];
        return !t.inlineFailed;
      }
      if t.health.None? {
        done := done + [DispatchFailed];
        return false;
      }
      var health := t.health.value;
      var sinceFull := t.now - lastFullCycleAt;
      var estTotal := 0;
      for i := 0 to |health.plan|
        invariant estTotal == EstTotal(health.plan[..i])
      {
        assert health.plan[..i + 1][..i] == health.plan[..i];
        estTotal := estTotal + health.plan[i].est;
      }
      assert health.plan[..|health.plan|] == health.plan;
      var shouldFullCycle := (health.score >= 95 && |health.plan| == 0 && sinceFull >= FULL_CYCLE_FLOOR_MS)
        || |health.plan| > 3 || estTotal >= 300 || health.score < 70;
      var shouldSleep := health.score >= 95 && |health.plan| == 0 && sinceFull < FULL_CYCLE_FLOOR_MS;
      if shouldSleep {
        done := done + [Slept];
      } else if shouldFullCycle {
        if t.submitted.None? {
          done := done + [DispatchFailed];
          return false;
        }
        lastFullCycleAt := t.submitted.value;
        done := done + [Full(lastFullCycleAt)];
      } else {
        done := done + [Targeted(health.plan)];
      }
    }

    /** One turn of the loop, as the step function says. */
    method Cycle(t: Tick)
      modifies this
      ensures Now() == Next(config, old(Now()), t)
    {
      if config.noWorker && config.dispatch {
        ProbeWorker(t.probe);
      }
      var cycleOk := Dispatch(t);
      if cycleOk {
        consecutiveErrors := 0;
      } else {
        consecutiveErrors := consecutiveErrors + 1;
      }
    }

    /** Cycles until the ticks run out (somebody stops the process) or the failure cap fires. */
    method Loop(ts: seq<Tick>) returns (n: nat, capped: bool)
      requires Now() == Run(config, [])
      modifies this
      ensures n <= |ts| && Now() == Run(config, ts[..n]) && |done| == n
      ensures capped <==> LastFailed(done, FAILURE_CAP)
      ensures capped <==> |done| >= 5 && forall i :: |done| - 5 <= i < |done| ==> Failed(done[i])
      ensures !capped ==> n == |ts|
      ensures forall m :: 0 <= m < n ==> !LastFailed(done[..m], FAILURE_CAP)
    {
      hide Choose, Failed;
      n := 0;
      NothingFailed();
      while n < |ts|
        invariant n <= |ts| && Now() == Run(config, ts[..n]) && |done| == n
        invariant consecutiveErrors < FAILURE_CAP && done[..n] == done
        invariant forall m :: 0 <= m <= n ==> !LastFailed(done[..m], FAILURE_CAP)
      {
        ghost var before := done;
        assert ts[..n + 1][..n] == ts[..n];
        Cycle(ts[n]);
        n := n + 1;
        ErrorsAreTrailing(config, ts[..n]);
        forall m | 0 <= m < n ensures done[..m] == before[..m] {
        }
        assert done[..n] == done;
        if consecutiveErrors >= FAILURE_CAP {
          return n, true;
        }
      }
      return n, false;
    }
  }

  lemma NothingFailed()
    ensures !LastFailed([], FAILURE_CAP)
  {
  }

  /** The last k cycles all failed. */
  predicate LastFailed(done: seq<Action>, k: nat) {
    |done| >= k && forall i :: |done| - k <= i < |done| ==> Failed(done[i])
  }

  lemma {:induction false} ErrorsAreTrailing(c: Config, ts: seq<Tick>)
    ensures |Run(c, ts).done| == |ts|
    ensures forall k: nat :: LastFailed(Run(c, ts).done, k) <==> k <= Run(c, ts).errors
  {
    if ts != [] {
      var s, t := Run(c, ts[..|ts| - 1]), ts[|ts| - 1];
      ErrorsAreTrailing(c, ts[..|ts| - 1]);
      var a := Choose(c, t, s.lastFull);
      forall k: nat ensures LastFailed(s.done + [a], k) <==> k <= Run(c, ts).errors {
        TrailingStep(s.done, a, k);
      }
    }
  }

  lemma TrailingStep(done: seq<Action>, a: Action, k: nat)
    ensures LastFailed(done + [a], k) <==> k == 0 || (Failed(a) && LastFailed(done, k - 1))
  {
    if k > 0 && LastFailed(done + [a], k) {
      assert (done + [a])[|done|] == a;
      forall i | |done| - (k - 1) <= i < |done| ensures Failed(done[i]) {
        assert (done + [a])[i] == done[i];
      }
    }
  }

  /** The action recorded for a cycle is the one chosen then. */
  lemma {:induction false} DoneAt(c: Config, ts: seq<Tick>, k: nat)
    requires k < |ts|
    ensures |Run(c, ts).done| == |ts|
    ensures Run(c, ts).done[k] == Choose(c, ts[k], Run(c, ts[..k]).lastFull)
  {
    hide Choose, Failed;
    var n := |ts| - 1;
    if n > 0 {
      DoneAt(c, ts[..n], if k < n then k else 0);
    }
    if k < n {
      assert ts[..n][..k] == ts[..k];
    }
  }

  /**
   Over whole runs, a cycle that reads the health and plan dispatches targeted steps exactly if the plan has
   at most 3 of them, takes under 300 seconds in all and the score is 70 or more, unless the brain is at 95
   with nothing to do. What it dispatches is that plan.
   */
  lemma TargetedExactly(c: Config, ts: seq<Tick>, k: nat)
    requires k < |ts| && c.dispatch && ts[k].health.Some?
    ensures |Run(c, ts).done| == |ts|
    ensures var a, h := Run(c, ts).done[k], ts[k].health.value;
      && (a.Targeted? <==>
        |h.plan| <= 3 && EstTotal(h.plan) < 300 && h.score >= 70 && (h.score < 95 || h.plan != []))
      && (a.Targeted? ==> a.steps == h.plan)
      && (a.Slept? ==> h.score >= 95 && h.plan == [])
  {
    DoneAt(c, ts, k);
    DispatchIsExclusive(ts[k].health.value, ts[k].now - Run(c, ts[..k]).lastFull);
  }

  /** The estimates of a plan are added up. */
  lemma {:induction false} EstTotalAdds(a: seq<Step>, b: seq<Step>)
    ensures EstTotal(a + b) == EstTotal(a) + EstTotal(b)
    ensures |b| == 1 ==> EstTotal(b) == b[0].est
  {
    if b == [] {
      assert a + b == a;
    } else {
      EstTotalAdds(a, b[..|b| - 1]);
      assert (a + b)[..|a + b| - 1] == a + b[..|b| - 1];
    }
  }

  /** The time that is remembered is that of the last full cycle dispatched, or the beginning of time. */
  lemma {:induction false} RemembersLastFull(c: Config, ts: seq<Tick>)
    ensures |Run(c, ts).done| == |ts|
    ensures var s := Run(c, ts);
      || (s.lastFull == 0 && forall i :: 0 <= i < |ts| ==> !s.done[i].Full?)
      || exists i :: 0 <= i < |ts| && s.done[i] == Full(s.lastFull) && forall j :: i < j < |ts| ==> !s.done[j].Full?
  {
    hide Choose, Failed;
    if ts != [] {
      var n := |ts| - 1;
      RemembersLastFull(c, ts[..n]);
      var s, u := Run(c, ts[..n]), Run(c, ts);
      var a := Choose(c, ts[n], s.lastFull);
      assert u.done == s.done + [a];
      if a.Full? {
        assert u.done[n] == Full(u.lastFull);
      } else if i :| 0 <= i < n && s.done[i] == Full(s.lastFull) && forall j :: i < j < n ==> !s.done[j].Full? {
        assert u.done[i] == Full(u.lastFull);
      }
    }
  }

  /**
   What a cycle does, in terms of what it meets and of the last full cycle: it sleeps only on a brain at 95 with
   nothing to do and a full cycle within the hour; it submits a full cycle there after the hour, for a plan of more
   than 3 steps or 300 seconds, or below a score of 70; without the queue it runs inline.
   */
  lemma ActionExactly(c: Config, ts: seq<Tick>, k: nat)
    requires k < |ts|
    ensures |Run(c, ts).done| == |ts|
    ensures var a, t, since := Run(c, ts).done[k], ts[k], ts[k].now - Run(c, ts[..k]).lastFull;
      && (!c.dispatch ==> a == Inline(t.inlineFailed))
      && (c.dispatch && t.health.None? ==> a == DispatchFailed)
      && (c.dispatch && t.health.Some? ==>
            var h := t.health.value;
            var full := (h.score >= 95 && h.plan == [] && since >= 3600000)
                        || |h.plan| > 3 || EstTotal(h.plan) >= 300 || h.score < 70;
            && (a == Slept <==> h.score >= 95 && h.plan == [] && since < 3600000)
            && (full && t.submitted.Some? ==> a == Full(t.submitted.value))
            && (full && t.submitted.None? ==> a == DispatchFailed)
            && (a.Full? || a.DispatchFailed? ==> full))
  {
    DoneAt(c, ts, k);
    assert EstTotal([]) == 0;
  }

  /**
   A cycle counts as failed exactly if its inline run failed, its health could not be read, or the submission of a
   full cycle threw.
   */
  lemma FailedExactly(c: Config, ts: seq<Tick>, k: nat)
    requires k < |ts|
    ensures |Run(c, ts).done| == |ts|
    ensures var t, since := ts[k], ts[k].now - Run(c, ts[..k]).lastFull;
      Failed(Run(c, ts).done[k]) <==>
        if !c.dispatch then t.inlineFailed
        else if t.health.None? then true
        else
          var h := t.health.value;
          && t.submitted.None?
          && (|| (h.score >= 95 && h.plan == [] && since >= 3600000)
              || |h.plan| > 3 || EstTotal(h.plan) >= 300 || h.score < 70)
  {
    ActionExactly(c, ts, k);
  }

  /** The cap over what the cycles meet: inline, the loop stops at the first five failed runs in a row. */
  lemma InlineCap(c: Config, ts: seq<Tick>)
    requires !c.dispatch
    ensures LastFailed(Run(c, ts).done, FAILURE_CAP) <==>
      |ts| >= 5 && forall i :: |ts| - 5 <= i < |ts| ==> ts[i].inlineFailed
    ensures LastFailed(Run(c, ts).done, FAILURE_CAP) <==> Run(c, ts).errors >= 5
  {
    hide Run, Failed;
    ErrorsAreTrailing(c, ts);
    forall i | 0 <= i < |ts| ensures Failed(Run(c, ts).done[i]) <==> ts[i].inlineFailed {
      FailedExactly(c, ts, i);
    }
  }

  /** The clock does not run back, and a submission returns after the decision that made it. */
  ghost predicate ClockForward(ts: seq<Tick>) {
    && (forall i, j :: 0 <= i < j < |ts| ==> ts[i].now <= ts[j].now)
    && (forall i :: 0 <= i < |ts| && ts[i].submitted.Some? ==> ts[i].now <= ts[i].submitted.value)
    && (forall i, j :: 0 <= i < j < |ts| && ts[i].submitted.Some? ==> ts[i].submitted.value <= ts[j].now)
  }

  /** A full cycle stays remembered: later ones only move the mark on. */
  lemma {:induction false} MarkMovesOn(c: Config, ts: seq<Tick>, i: nat)
    requires ClockForward(ts) && i < |ts| && Choose(c, ts[i], Run(c, ts[..i]).lastFull).Full?
    ensures ts[i].submitted.Some? && Run(c, ts).lastFull >= ts[i].submitted.value
  {
    hide Failed;
    var n := |ts| - 1;
    assert Run(c, ts) == Next(c, Run(c, ts[..n]), ts[n]);
    if i < n {
      var front := ts[..n];
      assert front[..i] == ts[..i] && front[i] == ts[i];
      assert ClockForward(front) by {
        assert forall j :: 0 <= j < n ==> front[j] == ts[j];
      }
      MarkMovesOn(c, front, i);
    }
  }

  /**
   A full cycle dispatched on a healthy brain with nothing to do comes at least an hour after every earlier
   full cycle, whatever made that one run.
   */
  lemma HealthyFullCyclesAreSpaced(c: Config, ts: seq<Tick>, i: nat, j: nat)
    requires ClockForward(ts) && i < j < |ts|
    requires Choose(c, ts[i], Run(c, ts[..i]).lastFull).Full? && Choose(c, ts[j], Run(c, ts[..j]).lastFull).Full?
    requires ts[j].health.value.score >= 95 && ts[j].health.value.plan == []
    ensures ts[i].submitted.Some? && ts[j].submitted.Some?
    ensures ts[j].submitted.value - ts[i].submitted.value >= FULL_CYCLE_FLOOR_MS
  {
    var front := ts[..j];
    assert front[..i] == ts[..i] && front[i] == ts[i];
    assert ClockForward(front) by {
      assert forall k :: 0 <= k < j ==> front[k] == ts[k];
    }
    MarkMovesOn(c, front, i);
    assert EstTotal([]) == 0;
  }

  /** The probe results that came back, failures left out. */
  function Readings(ts: seq<Tick>): seq<nat> {
    if ts == [] then []
    else Readings(ts[..|ts| - 1]) + if ts[|ts| - 1].probe.Some? then [ts[|ts| - 1].probe.value] else []
  }

  /** The last k readings saw no worker. */
  predicate LastIdle(rs: seq<nat>, k: nat) {
    |rs| >= k && forall i :: |rs| - k <= i < |rs| ==> rs[i] == 0
  }

  /** How many idle streaks of the readings got as long as the warning needs. */
  function LongStreaks(rs: seq<nat>): nat {
    if rs == [] then 0
    else
      var reached := LastIdle(rs, NO_WORKER_WARN_TICKS) && !LastIdle(rs, NO_WORKER_WARN_TICKS + 1);
      LongStreaks(rs[..|rs| - 1]) + if reached then 1 else 0
  }

  lemma IdleStep(rs: seq<nat>, r: nat, k: nat)
    ensures LastIdle(rs + [r], k) <==> k == 0 || (r == 0 && LastIdle(rs, k - 1))
  {
    if k > 0 && LastIdle(rs + [r], k) {
      assert (rs + [r])[|rs|] == r;
      forall i | |rs| - (k - 1) <= i < |rs| ensures rs[i] == 0 {
        assert (rs + [r])[i] == rs[i];
      }
    }
  }

  /** One warning per idle streak that reaches the threshold; failed probes neither count nor break a streak. */
  lemma {:induction false} WarningsCountStreaks(c: Config, ts: seq<Tick>)
    requires Probes(c)
    ensures Run(c, ts).warnings == LongStreaks(Readings(ts))
    ensures forall k: nat :: LastIdle(Readings(ts), k) <==> k <= Run(c, ts).idle
  {
    if ts != [] {
      var front, t := ts[..|ts| - 1], ts[|ts| - 1];
      WarningsCountStreaks(c, front);
      var rs, s := Readings(front), Run(c, front);
      if t.probe.Some? {
        var r := t.probe.value;
        var more := rs + [r];
        assert Readings(ts) == more;
        forall k: nat ensures LastIdle(more, k) <==> k <= Run(c, ts).idle {
          IdleStep(rs, r, k);
        }
        assert more[..|more| - 1] == rs;
      } else {
        assert Readings(ts) == rs;
      }
    }
  }

  /** Without the flag, or without queue dispatch, nothing is probed and nothing is warned of. */
  lemma {:induction false} NoProbeNoWarning(c: Config, ts: seq<Tick>)
    requires !Probes(c)
    ensures Run(c, ts).warnings == 0
  {
    if ts != [] {
      NoProbeNoWarning(c, ts[..|ts| - 1]);
    }
  }
}
