/**
 The autopilot lock file as a timed lease: a start is refused while the file is fresh, the running
 instance touches it once a cycle. Times are milliseconds; check-then-write is one step.
 */
module AutopilotLease {
  import opened Collections

  const LEASE_MS: nat := 600000

  /** The interval after a cycle, in seconds; None when the health query failed. */
  function NextInterval(base: nat, score: Option<int>): nat {
    if score.None? then base
    else if score.value >= 90 then base * 2
    else if score.value < 70 then (if base / 2 > 60 then base / 2 else 60)
    else base
  }

  predicate Passes(lock: Option<nat>, now: nat) {
    lock.None? || now - lock.value >= LEASE_MS
  }

  /** A living instance: when it last touched the file, and when its next cycle begins. */
  datatype Hold = Hold(touched: nat, due: nat)

  datatype World = World(clock: nat, lock: Option<nat>, alive: map<nat, Hold>)

  /**
   A start attempt, a new cycle, an orderly shutdown (which removes the file) and a crash. `gap` is the
   time to the instance's next cycle: what the cycle takes plus the interval it then waits.
   */
  datatype Event =
    | Start(t: nat, id: nat, gap: nat)
    | Cycle(t: nat, id: nat, gap: nat)
    | Shutdown(t: nat, id: nat)
    | Crash(t: nat, id: nat)

  function Without(alive: map<nat, Hold>, id: nat): map<nat, Hold> {
    alive - {id}
  }

  function Apply(w: World, e: Event): World {
    match e
    case Start(t, id, gap) =>
      if Passes(w.lock, t) then World(t, Some(t), w.alive[id := Hold(t, t + gap)]) else w.(clock := t)
    case Cycle(t, id, gap) =>
      World(t, if w.lock.Some? then Some(t) else None, w.alive[id := Hold(t, t + gap)])
    case Shutdown(t, id) => World(t, None, Without(w.alive, id))
    case Crash(t, id) => World(t, w.lock, Without(w.alive, id))
  }

  /** Time does not run back, instances act only while alive, and none lets its next cycle pass. */
  ghost predicate Can(w: World, e: Event) {
    && w.clock <= e.t
    && (e.Start? <==> e.id !in w.alive)
    && forall i :: i in w.alive ==> e.t <= w.alive[i].due
  }

  function After(es: seq<Event>): World {
    if es == [] then World(0, None, map[]) else Apply(After(es[..|es| - 1]), es[|es| - 1])
  }

  ghost predicate Valid(es: seq<Event>) {
    forall k :: 0 <= k < |es| ==> Can(After(es[..k]), es[k])
  }

  /** The lock file on disk. */
  class LockFile {
    var mtime: Option<nat>

    constructor ()
      ensures mtime == None
    {
      mtime := None;
    }

    method Acquire(now: nat) returns (ok: bool)
      modifies this
      ensures ok == Passes(old(mtime), now)
      ensures ok <==> old(mtime) == None || now - old(mtime).value >= 600000
      ensures mtime == if ok then Some(now) else old(mtime)
    {
      if mtime.Some? {
        var age := now - mtime.value;
        if age < LEASE_MS {
          return false;
        }
      }
      mtime := Some(now);
      return true;
    }

    /** utimes: has no effect on a missing file. */
    method Touch(now: nat)
      modifies this
      ensures mtime == if old(mtime).Some? then Some(now) else None
    {
      if mtime.Some? {
        mtime := Some(now);
      }
    }

    method Remove()
      modifies this
      ensures mtime == None
    {
      mtime := None;
    }

    /** One event of a world that sees this file: what it does to the file and to who is alive. */
    method Handle(e: Event, running: set<nat>, ghost w: World) returns (alive: set<nat>)
      requires mtime == w.lock && running == w.alive.Keys
      modifies this
      ensures mtime == Apply(w, e).lock && alive == Apply(w, e).alive.Keys
    {
      alive := running;
      match e {
        case Start(t, id, _) =>
          var ok := Acquire(t);
          if ok {
            alive := alive + {id};
          }
        case Cycle(t, id, _) =>
          Touch(t);
          alive := alive + {id};
        case Shutdown(_, id) =>
          Remove();
          alive := alive - {id};
        case Crash(_, id) =>
          alive := alive - {id};
      }
    }

    /** A whole run on one file: acquiring, touching and removing it is what the timed model says. */
    method Replay(es: seq<Event>) returns (alive: set<nat>)
      requires mtime.None?
      modifies this
      ensures mtime == After(es).lock && alive == After(es).alive.Keys
    {
      alive := {};
      for i := 0 to |es|
        invariant mtime == After(es[..i]).lock && alive == After(es[..i]).alive.Keys
      {
        assert es[..i + 1][..i] == es[..i];
        alive := Handle(es[i], alive, After(es[..i]));
      }
      assert es[..|es|] == es;
    }
  }

  ghost predicate AtMostOne(w: World) {
    forall i, j :: i in w.alive && j in w.alive ==> i == j
  }

  /** The living instance's last touch is what the file shows. */
  ghost predicate Shown(w: World) {
    forall i :: i in w.alive ==> w.lock == Some(w.alive[i].touched)
  }

  /** Somebody tries to start when a living instance has not touched the file for the length of the lease. */
  ghost predicate Expired(w: World, e: Event) {
    e.Start? && exists i :: i in w.alive && e.t - w.alive[i].touched >= LEASE_MS
  }

  lemma StepKeeps(w: World, e: Event)
    requires AtMostOne(w) && Shown(w) && Can(w, e) && !Expired(w, e)
    ensures AtMostOne(Apply(w, e)) && Shown(Apply(w, e))
  {
  }

  lemma StepBreaks(w: World, e: Event)
    requires Shown(w) && Can(w, e) && Expired(w, e)
    ensures !AtMostOne(Apply(w, e))
  {
    var i :| i in w.alive && e.t - w.alive[i].touched >= LEASE_MS;
    var after := Apply(w, e);
    assert i in after.alive && e.id in after.alive;
  }

  lemma {:induction false} InTimeKeeps(es: seq<Event>)
    requires Valid(es) && forall k :: 0 <= k < |es| ==> !Expired(After(es[..k]), es[k])
    ensures AtMostOne(After(es)) && Shown(After(es))
  {
    if es != [] {
      var n := |es| - 1;
      forall k | 0 <= k < n ensures es[..n][..k] == es[..k] && es[..n][k] == es[k] {
      }
      InTimeKeeps(es[..n]);
      StepKeeps(After(es[..n]), es[n]);
    }
  }

  lemma {:induction false} PrefixInTime(es: seq<Event>, n: nat)
    requires Valid(es) && n <= |es| && forall k :: 0 <= k < n ==> !Expired(After(es[..k]), es[k])
    ensures AtMostOne(After(es[..n])) && Shown(After(es[..n]))
  {
    forall k | 0 <= k < n ensures es[..n][..k] == es[..k] && es[..n][k] == es[k] {
    }
    InTimeKeeps(es[..n]);
  }

  /** Mutual exclusion holds throughout a run exactly if no start ever meets an expired lease. */
  lemma ExclusiveExactly(es: seq<Event>)
    requires Valid(es)
    ensures (forall n :: 0 <= n <= |es| ==> AtMostOne(After(es[..n])))
      <==> (forall k :: 0 <= k < |es| ==> !Expired(After(es[..k]), es[k]))
  {
    hide Apply, Can, Expired, AtMostOne, Shown;
    if forall k :: 0 <= k < |es| ==> !Expired(After(es[..k]), es[k]) {
      forall n | 0 <= n <= |es| ensures AtMostOne(After(es[..n])) {
        PrefixInTime(es, n);
      }
    } else {
      var k := FirstExpired(es, 0);
      PrefixInTime(es, k);
      StepBreaks(After(es[..k]), es[k]);
      assert es[..k + 1][..k] == es[..k];
      assert !AtMostOne(After(es[..k + 1]));
    }
  }

  lemma {:induction false} FirstExpired(es: seq<Event>, from: nat) returns (k: nat)
    requires from <= |es| && forall j :: 0 <= j < from ==> !Expired(After(es[..j]), es[j])
    requires exists j :: from <= j < |es| && Expired(After(es[..j]), es[j])
    ensures k < |es| && Expired(After(es[..k]), es[k])
    ensures forall j :: 0 <= j < k ==> !Expired(After(es[..j]), es[j])
    decreases |es| - from
  {
    if Expired(After(es[..from]), es[from]) {
      k := from;
    } else {
      k := FirstExpired(es, from + 1);
    }
  }

  ghost predicate ShortGaps(es: seq<Event>) {
    forall k :: 0 <= k < |es| && (es[k].Start? || es[k].Cycle?) ==> es[k].gap < LEASE_MS
  }

  lemma {:induction false} ShortGapsAreDue(es: seq<Event>)
    requires Valid(es) && ShortGaps(es)
    ensures forall i :: i in After(es).alive ==> After(es).alive[i].due < After(es).alive[i].touched + LEASE_MS
  {
    if es != [] {
      var n := |es| - 1;
      forall k | 0 <= k < n ensures es[..n][..k] == es[..k] && es[..n][k] == es[k] {
      }
      ShortGapsAreDue(es[..n]);
    }
  }

  /** If every cycle and the wait after it together stay under the lease, no second instance ever starts. */
  lemma LeaseExcludes(es: seq<Event>)
    requires Valid(es) && ShortGaps(es)
    ensures forall n :: 0 <= n <= |es| ==> AtMostOne(After(es[..n]))
  {
    forall k | 0 <= k < |es| ensures !Expired(After(es[..k]), es[k]) {
      forall j | 0 <= j < k ensures es[..k][..j] == es[..j] && es[..k][j] == es[j] {
      }
      ShortGapsAreDue(es[..k]);
      assert Can(After(es[..k]), es[k]);
    }
    ExclusiveExactly(es);
  }

  /**
   The wait after a cycle: twice the base interval from a score of 90 on, half of it below 70 but no less than a
   minute, and the base interval in between or when the score could not be read.
   */
  lemma IntervalExactly(base: nat, score: Option<int>)
    ensures var n := NextInterval(base, score);
      && (score.None? ==> n == base)
      && (score.Some? && score.value >= 90 ==> n == 2 * base)
      && (score.Some? && 70 <= score.value < 90 ==> n == base)
      && (score.Some? && score.value < 70 ==> n >= 60 && (n == 60 || base - 1 <= 2 * n <= base) && 2 * n >= base - 1)
  {
  }

  /** A healthier brain is never looked at more often, exactly if the base interval is a minute or more. */
  lemma IntervalGrowsWithScore(base: nat)
    ensures (forall a: int, b: int :: a <= b ==> NextInterval(base, Some(a)) <= NextInterval(base, Some(b)))
      <==> base >= 60
  {
    if base < 60 {
      assert NextInterval(base, Some(0)) == 60 && NextInterval(base, Some(80)) == base;
    }
  }

  /** After an orderly shutdown the next start succeeds at once; after a crash only when the lease has run out. */
  lemma RestartExactly(w: World, i: nat, t: nat, later: nat)
    requires Shown(w) && i in w.alive
    ensures Passes(Apply(w, Shutdown(t, i)).lock, later)
    ensures Passes(Apply(w, Crash(t, i)).lock, later) <==> later - w.alive[i].touched >= 600000
  {
  }

  /** What each event does to the file and to the instances. */
  lemma EventsExactly(w: World, t: nat, id: nat, gap: nat)
    ensures var started := Apply(w, Start(t, id, gap));
      if w.lock == None || t - w.lock.value >= 600000
      then started == World(t, Some(t), w.alive[id := Hold(t, t + gap)])
      else started == World(t, w.lock, w.alive)
    ensures var cycled := Apply(w, Cycle(t, id, gap));
      && (w.lock.Some? ==> cycled.lock == Some(t)) && (w.lock.None? ==> cycled.lock == None)
      && cycled.alive == w.alive[id := Hold(t, t + gap)]
    ensures Apply(w, Shutdown(t, id)) == World(t, None, map i | i in w.alive && i != id :: w.alive[i])
    ensures Apply(w, Crash(t, id)) == World(t, w.lock, map i | i in w.alive && i != id :: w.alive[i])
  {
    assert w.alive - {id} == map i | i in w.alive && i != id :: w.alive[i];
  }

  function Gap(elapsed: nat, base: nat, score: Option<int>): nat {
    elapsed + 1000 * NextInterval(base, score)
  }

  /** The base intervals that keep the lease at every score, for a cycle of the given length. */
  lemma SafeBase(elapsed: nat, base: nat)
    ensures (forall score: Option<int> :: Gap(elapsed, base, score) < LEASE_MS)
      <==> elapsed + 2000 * base < LEASE_MS && elapsed + 60000 < LEASE_MS
  {
    assert Gap(elapsed, base, Some(90)) == elapsed + 2000 * base;
    assert Gap(elapsed, base, Some(0)) >= elapsed + 60000;
    forall score: Option<int>
      ensures Gap(elapsed, base, score) <= elapsed + 2000 * base || Gap(elapsed, base, score) <= elapsed + 60000
    {
    }
  }

  /**
   An instance whose next cycle is a full lease or more away can be taken over while it lives: a start
   exactly one lease after its last touch gets through. One that is sooner cannot.
   */
  lemma TakeoverExactly(w: World, i: nat, j: nat)
    requires AtMostOne(w) && Shown(w) && i in w.alive && j !in w.alive
    requires w.clock <= w.alive[i].touched + LEASE_MS
    ensures (exists t, gap :: Can(w, Start(t, j, gap)) && !AtMostOne(Apply(w, Start(t, j, gap))))
      <==> w.alive[i].due >= w.alive[i].touched + LEASE_MS
  {
    if w.alive[i].due >= w.alive[i].touched + LEASE_MS {
      var e := Start(w.alive[i].touched + LEASE_MS, j, 0);
      StepBreaks(w, e);
      assert Can(w, Start(e.t, j, 0)) && !AtMostOne(Apply(w, Start(e.t, j, 0)));
    } else {
      forall t: nat, gap: nat | Can(w, Start(t, j, gap)) ensures AtMostOne(Apply(w, Start(t, j, gap))) {
        StepKeeps(w, Start(t, j, gap));
      }
    }
  }

  /** With the default interval of 300 a healthy brain's wait alone is a full lease, however quick the cycle. */
  lemma DefaultIntervalLosesLease(w: World, i: nat, j: nat, elapsed: nat)
    requires AtMostOne(w) && Shown(w) && i in w.alive && j !in w.alive && w.clock == w.alive[i].touched
    requires w.alive[i].due == w.clock + Gap(elapsed, 300, Some(90))
    ensures exists t, gap :: Can(w, Start(t, j, gap)) && !AtMostOne(Apply(w, Start(t, j, gap)))
  {
    TakeoverExactly(w, i, j);
  }
}
