/**
 The sliding worker pool of `gbrain embed`: workers share one queue index, and each claims the next
 task as soon as its last one is done.  A worker gives up control only at an `await`, so check,
 claim and increment are one atomic turn.  A schedule is any sequence of turns.
 */
module WorkerPool {
  datatype Slot = Free | Busy(task: nat) | Quit

  datatype Claims = Claims(next: nat, slots: seq<Slot>, finished: set<nat>)

  /** Worker `worker` gets to run; `stop` is what it would read from the abort signal. */
  datatype Turn = Turn(worker: nat, stop: bool)

  function NumWorkers(width: int, tasks: nat): nat {
    if width <= 0 then 0 else if width <= tasks then width else tasks
  }

  function Launch(width: int, tasks: nat): Claims {
    Claims(0, seq(NumWorkers(width, tasks), _ => Free), {})
  }

  /** A free worker claims or leaves; a busy one finishes its task and is free again. */
  function Take(c: Claims, tasks: nat, t: Turn): Claims {
    if t.worker >= |c.slots| then c
    else match c.slots[t.worker]
      case Free =>
        if c.next < tasks && !t.stop then c.(next := c.next + 1, slots := c.slots[t.worker := Busy(c.next)])
        else c.(slots := c.slots[t.worker := Quit])
      case Busy(k) => c.(slots := c.slots[t.worker := Free], finished := c.finished + {k})
      case Quit => c
  }

  function Run(c: Claims, tasks: nat, schedule: seq<Turn>): Claims
    decreases |schedule|
  {
    if schedule == [] then c else Run(Take(c, tasks, schedule[0]), tasks, schedule[1..])
  }

  function InFlight(slots: seq<Slot>): nat {
    if slots == [] then 0 else (if slots[0].Busy? then 1 else 0) + InFlight(slots[1..])
  }

  ghost predicate Held(slots: seq<Slot>, k: nat) {
    exists w :: 0 <= w < |slots| && slots[w] == Busy(k)
  }

  ghost predicate AllQuit(c: Claims) {
    forall w :: 0 <= w < |c.slots| ==> c.slots[w].Quit?
  }

  /** Every task below `next` was claimed once: it is held by exactly one worker or finished, not both.
      The count rules out finishing a task a second time. */
  ghost predicate Orderly(c: Claims, tasks: nat) {
    && c.next <= tasks
    && (forall k :: k in c.finished ==> k < c.next && !Held(c.slots, k))
    && (forall w :: 0 <= w < |c.slots| && c.slots[w].Busy? ==> c.slots[w].task < c.next)
    && (forall v, w :: 0 <= v < w < |c.slots| && c.slots[v].Busy? ==> c.slots[v] != c.slots[w])
    && (forall k :: 0 <= k < c.next ==> k in c.finished || Held(c.slots, k))
    && |c.finished| + InFlight(c.slots) == c.next
  }

  lemma {:induction false} InFlightUpdate(slots: seq<Slot>, w: nat, s: Slot)
    requires w < |slots|
    ensures InFlight(slots[w := s]) == InFlight(slots) - (if slots[w].Busy? then 1 else 0) + (if s.Busy? then 1 else 0)
  {
    if w == 0 {
      assert slots[w := s][1..] == slots[1..];
    } else {
      assert slots[w := s][1..] == slots[1..][w - 1 := s];
      InFlightUpdate(slots[1..], w - 1, s);
    }
  }

  lemma {:induction false} NoneInFlight(slots: seq<Slot>)
    requires forall w :: 0 <= w < |slots| ==> !slots[w].Busy?
    ensures InFlight(slots) == 0
  {
    if slots != [] {
      NoneInFlight(slots[1..]);
    }
  }

  lemma LaunchOrderly(width: int, tasks: nat)
    ensures Orderly(Launch(width, tasks), tasks)
  {
    NoneInFlight(Launch(width, tasks).slots);
  }

  lemma TakeOrderly(c: Claims, tasks: nat, t: Turn)
    requires Orderly(c, tasks)
    ensures Orderly(Take(c, tasks, t), tasks)
  {
    var d := Take(c, tasks, t);
    if t.worker < |c.slots| && !c.slots[t.worker].Quit? {
      InFlightUpdate(c.slots, t.worker, d.slots[t.worker]);
      assert c.slots[t.worker].Busy? ==> Held(c.slots, c.slots[t.worker].task);
      forall k | 0 <= k < d.next ensures k in d.finished || Held(d.slots, k) {
        if k == c.next {
          assert d.slots[t.worker] == Busy(k);
        } else if k !in c.finished {
          var w :| 0 <= w < |c.slots| && c.slots[w] == Busy(k);
          assert w == t.worker || d.slots[w] == Busy(k);
        }
      }
      forall k | k in d.finished ensures k < d.next && !Held(d.slots, k) {
        if Held(d.slots, k) {
          var w :| 0 <= w < |d.slots| && d.slots[w] == Busy(k);
          if w != t.worker {
            assert c.slots[w] == Busy(k) && Held(c.slots, k);
          }
        }
      }
    }
  }

  lemma {:induction false} RunOrderly(c: Claims, tasks: nat, schedule: seq<Turn>)
    requires Orderly(c, tasks)
    ensures Orderly(Run(c, tasks, schedule), tasks)
    decreases |schedule|
  {
    if schedule != [] {
      TakeOrderly(c, tasks, schedule[0]);
      RunOrderly(Take(c, tasks, schedule[0]), tasks, schedule[1..]);
    }
  }

  /** Nobody leaves an unfinished queue unless the abort signal was seen. */
  lemma {:induction false} RunQuitsLate(c: Claims, tasks: nat, schedule: seq<Turn>)
    requires forall i :: 0 <= i < |schedule| ==> !schedule[i].stop
    requires c.next <= tasks && (Quit in c.slots ==> c.next == tasks)
    ensures var d := Run(c, tasks, schedule); |d.slots| == |c.slots| && (Quit in d.slots ==> d.next == tasks)
    decreases |schedule|
  {
    if schedule != [] {
      var d := Take(c, tasks, schedule[0]);
      if Quit in d.slots && Quit !in c.slots {
        var w :| 0 <= w < |d.slots| && d.slots[w].Quit?;
        assert c.slots[w] in c.slots;
        assert w == schedule[0].worker;
      }
      RunQuitsLate(d, tasks, schedule[1..]);
    }
  }

  /**
   For every interleaving: claimed indices are exactly 0..next-1, none is held twice, finished plus
   in-flight equals claimed; and once all workers have left without an abort, each task was
   processed exactly once.  A pool of width 0 (or NaN) starts nobody and processes nothing.
   */
  lemma EveryInterleavingProcessesEachTaskOnce(width: int, tasks: nat, schedule: seq<Turn>)
    ensures var c := Run(Launch(width, tasks), tasks, schedule);
            && Orderly(c, tasks)
            && (AllQuit(c) && width >= 1 && (forall i :: 0 <= i < |schedule| ==> !schedule[i].stop) ==>
                  |c.finished| == tasks && forall k :: 0 <= k < tasks ==> k in c.finished)
            && (width <= 0 ==> c.finished == {})
  {
    var start := Launch(width, tasks);
    var c := Run(start, tasks, schedule);
    LaunchOrderly(width, tasks);
    RunOrderly(start, tasks, schedule);
    if AllQuit(c) && width >= 1 && forall i :: 0 <= i < |schedule| ==> !schedule[i].stop {
      RunQuitsLate(start, tasks, schedule);
      NoneInFlight(c.slots);
      if tasks > 0 {
        assert c.slots[0].Quit?;
      }
    }
    if width <= 0 {
      NobodyRuns(start, tasks, schedule);
    }
  }

  /** As many workers as asked for, or as tasks if those are fewer; so many tasks at most are in flight. */
  lemma WidthIsKept(width: int, tasks: nat, schedule: seq<Turn>)
    ensures var c := Run(Launch(width, tasks), tasks, schedule);
      && InFlight(c.slots) <= |c.slots| <= tasks
      && (width >= 0 ==> |c.slots| <= width && (|c.slots| == width || |c.slots| == tasks))
      && (width < 0 ==> c.slots == [])
  {
    SlotsStay(Launch(width, tasks), tasks, schedule);
    FlightFits(Run(Launch(width, tasks), tasks, schedule).slots);
  }

  lemma {:induction false} SlotsStay(c: Claims, tasks: nat, schedule: seq<Turn>)
    ensures |Run(c, tasks, schedule).slots| == |c.slots|
    decreases |schedule|
  {
    if schedule != [] {
      SlotsStay(Take(c, tasks, schedule[0]), tasks, schedule[1..]);
    }
  }

  lemma {:induction false} FlightFits(slots: seq<Slot>)
    ensures InFlight(slots) <= |slots|
  {
    if slots != [] {
      FlightFits(slots[1..]);
    }
  }

  /** Once everybody who asks sees the abort, no further task is claimed: only tasks in flight are finished. */
  lemma {:induction false} StopEndsClaims(c: Claims, tasks: nat, schedule: seq<Turn>)
    requires Orderly(c, tasks) && forall i :: 0 <= i < |schedule| ==> schedule[i].stop
    ensures var d := Run(c, tasks, schedule);
      d.next == c.next && forall k :: k in d.finished ==> k in c.finished || Held(c.slots, k)
    decreases |schedule|
  {
    hide Orderly;
    RunOrderly(c, tasks, schedule);
    NothingClaimed(c, tasks, schedule);
    ClaimedIsHeld(c, tasks, Run(c, tasks, schedule));
  }

  lemma {:induction false} NothingClaimed(c: Claims, tasks: nat, schedule: seq<Turn>)
    requires forall i :: 0 <= i < |schedule| ==> schedule[i].stop
    ensures Run(c, tasks, schedule).next == c.next
    decreases |schedule|
  {
    if schedule != [] {
      NothingClaimed(Take(c, tasks, schedule[0]), tasks, schedule[1..]);
    }
  }

  lemma ClaimedIsHeld(c: Claims, tasks: nat, d: Claims)
    requires Orderly(c, tasks) && Orderly(d, tasks) && d.next == c.next
    ensures forall k :: k in d.finished ==> k in c.finished || Held(c.slots, k)
  {
  }

  lemma {:induction false} NobodyRuns(c: Claims, tasks: nat, schedule: seq<Turn>)
    requires c.slots == []
    ensures Run(c, tasks, schedule) == c
  {
    if schedule != [] {
      NobodyRuns(c, tasks, schedule[1..]);
    }
  }
}
