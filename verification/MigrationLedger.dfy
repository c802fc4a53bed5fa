/**
 `gbrain apply-migrations`: the append-only ledger of migration attempts, the status derived from it,
 the run plan, and the run loop.  Orchestrators are oracles: they may complete, report partial or
 failed, or throw, and any ledger write may fail.  `gbrain doctor` reads the same ledger its own way.
 */
module MigrationLedger {
  import opened Collections

  datatype Version = Version(major: nat, minor: nat, patch: nat)

  function CompareVersions(a: Version, b: Version): int {
    if a.major != b.major then (if a.major > b.major then 1 else -1)
    else if a.minor != b.minor then (if a.minor > b.minor then 1 else -1)
    else if a.patch != b.patch then (if a.patch > b.patch then 1 else -1)
    else 0
  }

  /** The sign of the comparison is the lexicographic order of the three numbers. */
  lemma ComparisonIsLexicographic(a: Version, b: Version)
    ensures CompareVersions(a, b) > 0 <==>
      || a.major > b.major
      || (a.major == b.major && a.minor > b.minor)
      || (a.major == b.major && a.minor == b.minor && a.patch > b.patch)
    ensures CompareVersions(a, b) == 0 <==> a == b
    ensures CompareVersions(a, b) < 0 <==> CompareVersions(b, a) > 0
  {
  }

  datatype Status = Complete | Partial | Retry

  datatype Entry = Entry(version: Version, status: Status)

  type Ledger = seq<Entry>

  const MAX_CONSECUTIVE_PARTIALS := 3

  /** The statuses recorded for one version, oldest first. */
  function Of(ledger: Ledger, v: Version): seq<Status> {
    if ledger == [] then []
    else
      var n := |ledger| - 1;
      Of(ledger[..n], v) + (if ledger[n].version == v then [ledger[n].status] else [])
  }

  lemma OfAppend(ledger: Ledger, e: Entry, v: Version)
    ensures Of(ledger + [e], v) == Of(ledger, v) + (if e.version == v then [e.status] else [])
  {
    assert (ledger + [e])[..|ledger|] == ledger;
  }

  // ----- the status, as an incremental state machine -----

  /** Settled once a complete entry was seen, otherwise the partials since the last retry. */
  datatype Track = Settled | Open(partials: nat)

  function Advance(t: Track, s: Status): Track {
    match (t, s)
    case (Settled, _) => Settled
    case (_, Complete) => Settled
    case (Open(n), Partial) => Open(n + 1)
    case (_, Retry) => Open(0)
  }

  function Follow(s: seq<Status>): Track {
    if s == [] then Open(0) else Advance(Follow(s[..|s| - 1]), s[|s| - 1])
  }

  lemma FollowAppend(s: seq<Status>, x: Status)
    ensures Follow(s + [x]) == Advance(Follow(s), x)
  {
    assert (s + [x])[..|s|] == s;
  }

  datatype Resolved = Done | Resumable | Pending | Wedged

  function Verdict(t: Track): Resolved {
    match t
    case Settled => Done
    case Open(n) => if n == 0 then Pending else if n >= MAX_CONSECUTIVE_PARTIALS then Wedged else Resumable
  }

  function StatusOf(ledger: Ledger, v: Version): Resolved {
    Verdict(Follow(Of(ledger, v)))
  }

  /** Length of the run of partials at the end. */
  function Trailing(s: seq<Status>): nat {
    if s == [] || s[|s| - 1] != Partial then 0 else 1 + Trailing(s[..|s| - 1])
  }

  /** The backward rescan and the forward state machine agree. */
  lemma {:induction false} FollowIsRescan(s: seq<Status>)
    ensures Follow(s) == if Complete in s then Settled else Open(Trailing(s))
  {
    if s != [] {
      var n := |s| - 1;
      FollowIsRescan(s[..n]);
      assert s == s[..n] + [s[n]];
    }
  }

  /**
   The status in terms of the entries of a version: done once one of them is complete, wedged after three
   partials in a row at the end, to be resumed after one or two, pending without any or after a retry marker.
   */
  lemma StatusExactly(ledger: Ledger, v: Version)
    ensures var s, r := Of(ledger, v), StatusOf(ledger, v);
      && (r == Done <==> Entry(v, Complete) in ledger)
      && (r == Pending <==> Entry(v, Complete) !in ledger && (s == [] || s[|s| - 1] == Retry))
      && (r == Wedged <==>
            Entry(v, Complete) !in ledger
            && |s| >= 3 && s[|s| - 1] == Partial && s[|s| - 2] == Partial && s[|s| - 3] == Partial)
  {
    var s := Of(ledger, v);
    FollowIsRescan(s);
    OfHolds(ledger, v, Complete);
    assert s != [] && s[|s| - 1] == Complete ==> Complete in s;
    ThreeTrailing(s);
  }

  lemma ThreeTrailing(s: seq<Status>)
    ensures Trailing(s) >= 3 <==>
      |s| >= 3 && s[|s| - 1] == Partial && s[|s| - 2] == Partial && s[|s| - 3] == Partial
    ensures Trailing(s) == 0 <==> s == [] || s[|s| - 1] != Partial
  {
    var n := |s|;
    if n >= 1 {
      var a := s[..n - 1];
      assert Trailing(s) == if s[n - 1] != Partial then 0 else 1 + Trailing(a);
      if n >= 2 {
        var b := a[..n - 2];
        assert Trailing(a) == if s[n - 2] != Partial then 0 else 1 + Trailing(b);
        if n >= 3 {
          assert b[n - 3] == s[n - 3];
        }
      }
    }
  }

  /** Complete is terminal: nothing appended later changes it. */
  lemma {:induction false} CompleteIsAbsorbing(ledger: Ledger, more: Ledger, v: Version)
    requires StatusOf(ledger, v) == Done
    ensures StatusOf(ledger + more, v) == Done
  {
    if more == [] {
      assert ledger + more == ledger;
    } else {
      var n := |more| - 1;
      CompleteIsAbsorbing(ledger, more[..n], v);
      OfAppend(ledger + more[..n], more[n], v);
      assert ledger + more == ledger + more[..n] + [more[n]];
      FollowAppend(Of(ledger + more[..n], v), more[n].status);
      assert more[n].version != v ==> Of(ledger + more, v) == Of(ledger + more[..n], v);
    }
  }

  method IndexCompleted(entries: Ledger) returns (byVersion: map<Version, seq<Status>>)
    ensures forall v ::
              (v in byVersion <==> Of(entries, v) != [])
              && (v in byVersion ==> byVersion[v] == Of(entries, v))
  {
    byVersion := map[];
    for i := 0 to |entries|
      invariant forall v ::
                  (v in byVersion <==> Of(entries[..i], v) != [])
                  && (v in byVersion ==> byVersion[v] == Of(entries[..i], v))
    {
      var e := entries[i];
      assert entries[..i + 1] == entries[..i] + [e];
      forall v ensures Of(entries[..i + 1], v) == Of(entries[..i], v) + (if e.version == v then [e.status] else []) {
        OfAppend(entries[..i], e, v);
      }
      var list := if e.version in byVersion then byVersion[e.version] else [];
      byVersion := byVersion[e.version := list + [e.status]];
    }
    assert entries[..|entries|] == entries;
  }

  method StatusForVersion(version: Version, byVersion: map<Version, seq<Status>>) returns (r: Resolved)
    ensures r == Verdict(Follow(if version in byVersion then byVersion[version] else []))
  {
    var entries := if version in byVersion then byVersion[version] else [];
    FollowIsRescan(entries);
    if |entries| == 0 { return Pending; }
    if Complete in entries { return Done; }
    if entries[|entries| - 1] == Retry { return Pending; }
    var consecutive, i := 0, |entries| - 1;
    assert entries[..i + 1] == entries;
    while i >= 0
      invariant -1 <= i < |entries|
      invariant consecutive == |entries| - 1 - i
      invariant Trailing(entries) == consecutive + Trailing(entries[..i + 1])
    {
      assert entries[..i + 1][..i] == entries[..i];
      if entries[i] == Partial { consecutive := consecutive + 1; } else { break; }
      i := i - 1;
    }
    if consecutive >= MAX_CONSECUTIVE_PARTIALS { return Wedged; }
    if Partial in entries { return Resumable; }
    return Pending;
  }

  // ----- the plan -----

  datatype Plan = Plan(applied: seq<Version>, partial: seq<Version>, pending: seq<Version>,
      skippedFuture: seq<Version>, wedged: seq<Version>)

  datatype Filter = Every | Only(version: Version)

  predicate Passes(f: Filter, v: Version) {
    f.Every? || f.version == v
  }

  predicate Runnable(installed: Version, f: Filter, v: Version) {
    Passes(f, v) && CompareVersions(v, installed) <= 0
  }

  /** The registry's runnable versions with the given status, in registry order. */
  function Bucket(registry: seq<Version>, ledger: Ledger, installed: Version, f: Filter, r: Resolved): seq<Version> {
    if registry == [] then []
    else
      var n := |registry| - 1;
      var v := registry[n];
      Bucket(registry[..n], ledger, installed, f, r)
      + (if Runnable(installed, f, v) && StatusOf(ledger, v) == r then [v] else [])
  }

  /** The registry's versions newer than the binary, in registry order. */
  function Future(registry: seq<Version>, installed: Version, f: Filter): seq<Version> {
    if registry == [] then []
    else
      var n := |registry| - 1;
      var v := registry[n];
      Future(registry[..n], installed, f) + (if Passes(f, v) && CompareVersions(v, installed) > 0 then [v] else [])
  }

  lemma {:induction false} BucketMeans(registry: seq<Version>, ledger: Ledger, installed: Version, f: Filter,
      r: Resolved)
    ensures forall v :: v in Bucket(registry, ledger, installed, f, r) <==>
      v in registry && (f == Every || f == Only(v)) && CompareVersions(v, installed) <= 0 && StatusOf(ledger, v) == r
    ensures InOrderOf(Bucket(registry, ledger, installed, f, r), registry)
  {
    hide StatusOf, CompareVersions, InOrderOf;
    if registry == [] {
      NothingInOrder<Version>();
    } else {
      var n := |registry| - 1;
      BucketMeans(registry[..n], ledger, installed, f, r);
      assert registry == registry[..n] + [registry[n]];
      InOrderNext(Bucket(registry[..n], ledger, installed, f, r), registry[..n], registry[n]);
      assert Bucket(registry[..n], ledger, installed, f, r) + [] == Bucket(registry[..n], ledger, installed, f, r);
    }
  }

  lemma {:induction false} FutureMeans(registry: seq<Version>, installed: Version, f: Filter)
    ensures forall v :: v in Future(registry, installed, f) <==>
      && v in registry && (f == Every || f == Only(v))
      && (|| v.major > installed.major
          || (v.major == installed.major && v.minor > installed.minor)
          || (v.major == installed.major && v.minor == installed.minor && v.patch > installed.patch))
    ensures InOrderOf(Future(registry, installed, f), registry)
  {
    hide CompareVersions, InOrderOf;
    if registry == [] {
      NothingInOrder<Version>();
    } else {
      var n := |registry| - 1;
      FutureMeans(registry[..n], installed, f);
      ComparisonIsLexicographic(registry[n], installed);
      assert registry == registry[..n] + [registry[n]];
      InOrderNext(Future(registry[..n], installed, f), registry[..n], registry[n]);
      assert Future(registry[..n], installed, f) + [] == Future(registry[..n], installed, f);
    }
  }

  lemma PlanMeans(registry: seq<Version>, ledger: Ledger, installed: Version, f: Filter)
    ensures forall v ::
      || v in Bucket(registry, ledger, installed, f, Done)
      || v in Bucket(registry, ledger, installed, f, Resumable)
      || v in Bucket(registry, ledger, installed, f, Pending)
      || v in Bucket(registry, ledger, installed, f, Wedged) <==>
        && v in registry && (f == Every || f == Only(v))
        && !(|| v.major > installed.major
             || (v.major == installed.major && v.minor > installed.minor)
             || (v.major == installed.major && v.minor == installed.minor && v.patch > installed.patch))
    ensures forall v, r :: v in Bucket(registry, ledger, installed, f, r) ==> StatusOf(ledger, v) == r
    ensures forall r :: InOrderOf(Bucket(registry, ledger, installed, f, r), registry)
  {
    hide Bucket, StatusOf, CompareVersions, InOrderOf;
    forall r
      ensures InOrderOf(Bucket(registry, ledger, installed, f, r), registry)
      ensures forall v :: v in Bucket(registry, ledger, installed, f, r) <==>
        v in registry && (f == Every || f == Only(v)) && CompareVersions(v, installed) <= 0 && StatusOf(ledger, v) == r
    {
      BucketMeans(registry, ledger, installed, f, r);
    }
    forall v
      ensures CompareVersions(v, installed) <= 0 <==>
        !(|| v.major > installed.major
          || (v.major == installed.major && v.minor > installed.minor)
          || (v.major == installed.major && v.minor == installed.minor && v.patch > installed.patch))
    {
      ComparisonIsLexicographic(v, installed);
    }
  }

  method BuildPlan(registry: seq<Version>, ledger: Ledger, installed: Version, f: Filter) returns (plan: Plan)
    ensures plan.applied == Bucket(registry, ledger, installed, f, Done)
    ensures plan.partial == Bucket(registry, ledger, installed, f, Resumable)
    ensures plan.pending == Bucket(registry, ledger, installed, f, Pending)
    ensures plan.wedged == Bucket(registry, ledger, installed, f, Wedged)
    ensures plan.skippedFuture == Future(registry, installed, f)
    ensures forall v :: v in plan.skippedFuture <==>
              && v in registry && (f == Every || f == Only(v))
              && (|| v.major > installed.major
                  || (v.major == installed.major && v.minor > installed.minor)
                  || (v.major == installed.major && v.minor == installed.minor && v.patch > installed.patch))
    ensures forall v ::
              v in plan.applied || v in plan.partial || v in plan.pending || v in plan.wedged <==>
                && v in registry && (f == Every || f == Only(v))
                && !(|| v.major > installed.major
                     || (v.major == installed.major && v.minor > installed.minor)
                     || (v.major == installed.major && v.minor == installed.minor && v.patch > installed.patch))
    ensures forall v ::
              && (v in plan.applied ==> StatusOf(ledger, v) == Done)
              && (v in plan.partial ==> StatusOf(ledger, v) == Resumable)
              && (v in plan.pending ==> StatusOf(ledger, v) == Pending)
              && (v in plan.wedged ==> StatusOf(ledger, v) == Wedged)
    ensures InOrderOf(plan.applied, registry) && InOrderOf(plan.partial, registry)
    ensures InOrderOf(plan.pending, registry) && InOrderOf(plan.wedged, registry)
    ensures InOrderOf(plan.skippedFuture, registry)
  {
    hide Of, Follow, Verdict, CompareVersions, InOrderOf;
    var idx := IndexCompleted(ledger);
    plan := Plan([], [], [], [], []);
    for i := 0 to |registry|
      invariant plan.applied == Bucket(registry[..i], ledger, installed, f, Done)
      invariant plan.partial == Bucket(registry[..i], ledger, installed, f, Resumable)
      invariant plan.pending == Bucket(registry[..i], ledger, installed, f, Pending)
      invariant plan.wedged == Bucket(registry[..i], ledger, installed, f, Wedged)
      invariant plan.skippedFuture == Future(registry[..i], installed, f)
    {
      var v := registry[i];
      assert registry[..i + 1][..i] == registry[..i];
      if !Passes(f, v) { continue; }
      if CompareVersions(v, installed) > 0 {
        plan := plan.(skippedFuture := plan.skippedFuture + [v]);
        continue;
      }
      var status := StatusForVersion(v, idx);
      assert status == StatusOf(ledger, v);
      match status {
        case Done => plan := plan.(applied := plan.applied + [v]);
        case Resumable => plan := plan.(partial := plan.partial + [v]);
        case Wedged => plan := plan.(wedged := plan.wedged + [v]);
        case Pending => plan := plan.(pending := plan.pending + [v]);
      }
    }
    assert registry[..|registry|] == registry;
    PlanMeans(registry, ledger, installed, f);
    FutureMeans(registry, installed, f);
  }

  // ----- the run loop -----

  datatype Outcome = Completed | PartlyDone | Failed | Threw

  /** appendCompletedMigration: a second complete in a row is dropped. */
  function Append(ledger: Ledger, e: Entry): Ledger {
    var prior := Of(ledger, e.version);
    if e.status == Complete && prior != [] && prior[|prior| - 1] == Complete then ledger else ledger + [e]
  }

  function Record(o: Outcome): Status {
    if o == Completed then Complete else Partial
  }

  /** Two orchestrators still append an entry of their own before they return. */
  predicate RecordsItself(v: Version) {
    v == Version(0, 16, 0) || v == Version(0, 18, 0)
  }

  /**
   What the world answers in one invocation: each orchestrator's outcome, whether its own append succeeds
   (a failure there is swallowed), and whether the runner's does.
   */
  datatype Answers = Answers(run: Version -> Outcome, ownOk: Version -> bool, writeOk: Version -> bool)

  /** An orchestrator that records itself does so when it returns with complete or partial. */
  predicate OwnEntry(v: Version, w: Answers) {
    RecordsItself(v) && w.ownOk(v) && (w.run(v) == Completed || w.run(v) == PartlyDone)
  }

  function AfterOwn(ledger: Ledger, v: Version, w: Answers): Ledger {
    if OwnEntry(v, w) then Append(ledger, Entry(v, Record(w.run(v)))) else ledger
  }

  /** What one orchestrator run leaves behind: its own entry, if it writes one, and the runner's. */
  function Attempt(ledger: Ledger, v: Version, w: Answers): Ledger {
    var own := AfterOwn(ledger, v, w);
    if w.writeOk(v) then Append(own, Entry(v, Record(w.run(v)))) else own
  }

  predicate GoesOn(o: Outcome, writeOk: bool) {
    (o == Completed || o == PartlyDone) && writeOk
  }

  /** The versions actually run: up to and including the first that stops the chain. */
  function Ran(toRun: seq<Version>, w: Answers): seq<Version> {
    if toRun == [] then []
    else [toRun[0]] + (if GoesOn(w.run(toRun[0]), w.writeOk(toRun[0])) then Ran(toRun[1..], w) else [])
  }

  function Attempts(ledger: Ledger, ran: seq<Version>, w: Answers): Ledger {
    if ran == [] then ledger
    else
      var n := |ran| - 1;
      Attempt(Attempts(ledger, ran[..n], w), ran[n], w)
  }

  /** All partials first, then all pending, whatever the registry order between them. */
  function ToRun(registry: seq<Version>, ledger: Ledger, installed: Version, f: Filter): seq<Version> {
    Bucket(registry, ledger, installed, f, Resumable) + Bucket(registry, ledger, installed, f, Pending)
  }

  /** The orchestrator itself: its outcome, after whatever it appends on its own. */
  method Orchestrate(ledger: Ledger, m: Version, w: Answers) returns (later: Ledger, result: Outcome)
    ensures later == AfterOwn(ledger, m, w) && result == w.run(m)
  {
    later, result := ledger, w.run(m);
    if RecordsItself(m) && (result == Completed || result == PartlyDone) {
      if w.ownOk(m) {
        later := Append(later, Entry(m, if result == Completed then Complete else Partial));
      }
    }
  }

  /** One migration: a failure is recorded as partial if it can be, and a failed write stops the chain too. */
  method RunOne(ledger: Ledger, m: Version, w: Answers) returns (later: Ledger, ok: bool)
    ensures later == Attempt(ledger, m, w) && ok == GoesOn(w.run(m), w.writeOk(m))
  {
    var result;
    later, result := Orchestrate(ledger, m, w);
    if result == Failed || result == Threw {
      if w.writeOk(m) {
        later := Append(later, Entry(m, Partial));
      }
      return later, false;
    }
    if !w.writeOk(m) {
      return later, false;
    }
    return Append(later, Entry(m, if result == Completed then Complete else Partial)), true;
  }

  method RunChain(toRun: seq<Version>, ledger: Ledger, w: Answers)
    returns (later: Ledger, ran: seq<Version>, failed: bool)
    ensures ran == Ran(toRun, w)
    ensures later == Attempts(ledger, ran, w)
    ensures !failed <==> forall v :: v in ran ==> GoesOn(w.run(v), w.writeOk(v))
  {
    hide Attempt, Attempts, Ran, GoesOn;
    later, ran, failed := ledger, [], false;
    NothingRan(ledger, toRun, w);
    for i := 0 to |toRun|
      invariant ran == toRun[..i] && !failed
      invariant later == Attempts(ledger, ran, w)
      invariant Ran(toRun, w) == ran + Ran(toRun[i..], w)
      invariant forall j :: 0 <= j < i ==> GoesOn(w.run(toRun[j]), w.writeOk(toRun[j]))
    {
      var m := toRun[i];
      AttemptsAppend(ledger, ran, m, w);
      RanStep(toRun, i, w);
      ran := ran + [m];
      var ok;
      later, ok := RunOne(later, m, w);
      if !ok {
        assert ran[i] == m;
        return later, ran, true;
      }
    }
  }

  method RunApplyMigrations(registry: seq<Version>, ledger: Ledger, installed: Version, f: Filter,
                            w: Answers) returns (later: Ledger, ran: seq<Version>, failed: bool)
    ensures ran == Ran(ToRun(registry, ledger, installed, f), w)
    ensures later == Attempts(ledger, ran, w)
    ensures forall i :: 0 <= i < |ran| - 1 ==> w.run(ran[i]) in {Completed, PartlyDone} && w.writeOk(ran[i])
    ensures ran != ToRun(registry, ledger, installed, f) ==>
      ran != [] && !(w.run(ran[|ran| - 1]) in {Completed, PartlyDone} && w.writeOk(ran[|ran| - 1]))
    ensures !failed <==> forall v :: v in ran ==> w.run(v) in {Completed, PartlyDone} && w.writeOk(v)
  {
    hide Append, Attempt, Bucket, Of, Attempts, Ran, StatusOf, CompareVersions, Passes, Runnable, GoesOn;
    var plan := BuildPlan(registry, ledger, installed, f);
    later, ran, failed := RunChain(plan.partial + plan.pending, ledger, w);
    RanExactly(plan.partial + plan.pending, w);
    forall v ensures GoesOn(w.run(v), w.writeOk(v)) <==> w.run(v) in {Completed, PartlyDone} && w.writeOk(v) {
      GoesOnExactly(w.run(v), w.writeOk(v));
    }
  }

  lemma GoesOnExactly(o: Outcome, writeOk: bool)
    ensures GoesOn(o, writeOk) <==> o in {Completed, PartlyDone} && writeOk
  {
  }

  /** All but the last of the versions run went on, and the list was cut short exactly by one that did not. */
  ghost predicate StopsShort(ran: seq<Version>, toRun: seq<Version>, w: Answers) {
    && ran <= toRun
    && (forall i :: 0 <= i < |ran| - 1 ==> w.run(ran[i]) in {Completed, PartlyDone} && w.writeOk(ran[i]))
    && (ran != toRun ==>
          ran != [] && !(w.run(ran[|ran| - 1]) in {Completed, PartlyDone} && w.writeOk(ran[|ran| - 1])))
  }

  lemma StopsShortBehind(v: Version, ran: seq<Version>, toRun: seq<Version>, w: Answers)
    requires StopsShort(ran, toRun, w) && w.run(v) in {Completed, PartlyDone} && w.writeOk(v)
    ensures StopsShort([v] + ran, [v] + toRun, w)
  {
    var more := [v] + ran;
    assert forall i :: 1 <= i < |more| ==> more[i] == ran[i - 1];
  }

  /** A chain runs a prefix of its list: all but the last ended as complete or partial and were recorded, and it
      stops short exactly because the last one was not. */
  lemma {:induction false} RanExactly(toRun: seq<Version>, w: Answers)
    ensures StopsShort(Ran(toRun, w), toRun, w)
  {
    hide StopsShort;
    if toRun == [] {
      NothingStops(w);
    } else {
      var v, rest := toRun[0], toRun[1..];
      assert toRun == [v] + rest;
      GoesOnExactly(w.run(v), w.writeOk(v));
      if GoesOn(w.run(v), w.writeOk(v)) {
        RanExactly(rest, w);
        StopsShortBehind(v, Ran(rest, w), rest, w);
      } else {
        StopsAtOnce(v, rest, w);
        assert [v] + [] == [v];
      }
    }
  }

  lemma NothingStops(w: Answers)
    ensures StopsShort([], [], w)
  {
  }

  lemma StopsAtOnce(v: Version, rest: seq<Version>, w: Answers)
    requires !(w.run(v) in {Completed, PartlyDone} && w.writeOk(v))
    ensures StopsShort([v], [v] + rest, w)
  {
  }

  lemma NothingRan(ledger: Ledger, toRun: seq<Version>, w: Answers)
    ensures Attempts(ledger, [], w) == ledger && Ran([], w) == []
    ensures toRun[0..] == toRun && toRun[|toRun|..] == []
  {
  }

  lemma AttemptsAppend(ledger: Ledger, ran: seq<Version>, m: Version, w: Answers)
    ensures Attempts(ledger, ran + [m], w) == Attempt(Attempts(ledger, ran, w), m, w)
  {
    assert (ran + [m])[..|ran|] == ran;
  }

  lemma RanUnfolds(rest: seq<Version>, w: Answers)
    requires rest != []
    ensures Ran(rest, w) == [rest[0]] + (if GoesOn(w.run(rest[0]), w.writeOk(rest[0])) then Ran(rest[1..], w) else [])
  {
  }

  lemma RanStep(toRun: seq<Version>, i: nat, w: Answers)
    requires i < |toRun| && Ran(toRun, w) == toRun[..i] + Ran(toRun[i..], w)
    ensures toRun[..i] + [toRun[i]] == toRun[..i + 1]
    ensures if GoesOn(w.run(toRun[i]), w.writeOk(toRun[i]))
            then Ran(toRun, w) == toRun[..i + 1] + Ran(toRun[i + 1..], w)
            else Ran(toRun, w) == toRun[..i + 1]
  {
    hide Ran, GoesOn;
    RanUnfolds(toRun[i..], w);
    assert toRun[i..][1..] == toRun[i + 1..];
    Regroup(toRun[..i], [toRun[i]], Ran(toRun[i + 1..], w));
  }

  // ----- histories of CLI invocations -----

  datatype Command =
    | Apply(installed: Version, filter: Filter, w: Answers)
    | ForceRetry(version: Version)
    | ForceOrchestrator

  function RanBy(registry: seq<Version>, ledger: Ledger, c: Command): seq<Version> {
    if c.Apply? then Ran(ToRun(registry, ledger, c.installed, c.filter), c.w) else []
  }

  /** A retry marker for each registered version the index calls wedged. */
  function Markers(registry: seq<Version>, index: Ledger): Ledger {
    if registry == [] then []
    else
      var n := |registry| - 1;
      Markers(registry[..n], index)
          + (if StatusOf(index, registry[n]) == Wedged then [Entry(registry[n], Retry)] else [])
  }

  function Exec(registry: seq<Version>, ledger: Ledger, c: Command): Ledger {
    match c
    case Apply(_, _, w) => Attempts(ledger, RanBy(registry, ledger, c), w)
    case ForceRetry(v) => if v in registry then ledger + [Entry(v, Retry)] else ledger
    case ForceOrchestrator => ledger + Markers(registry, ledger)
  }

  method ResetWedged(registry: seq<Version>, ledger: Ledger) returns (later: Ledger, resetCount: nat)
    ensures later == Exec(registry, ledger, ForceOrchestrator)
    ensures resetCount == |later| - |ledger|
  {
    hide Of, Follow, Verdict;
    var idx := IndexCompleted(ledger);
    later, resetCount := ledger, 0;
    for i := 0 to |registry|
      invariant later == ledger + Markers(registry[..i], ledger)
      invariant resetCount == |later| - |ledger|
    {
      assert registry[..i + 1][..i] == registry[..i];
      var status := StatusForVersion(registry[i], idx);
      assert status == StatusOf(ledger, registry[i]);
      if status == Wedged {
        later, resetCount := later + [Entry(registry[i], Retry)], resetCount + 1;
      }
    }
    assert registry[..|registry|] == registry;
  }

  function ExecAll(registry: seq<Version>, ledger: Ledger, cs: seq<Command>): Ledger {
    if cs == [] then ledger else Exec(registry, ExecAll(registry, ledger, cs[..|cs| - 1]), cs[|cs| - 1])
  }

  predicate RunsWithoutCompleting(registry: seq<Version>, ledger: Ledger, c: Command, v: Version) {
    v in RanBy(registry, ledger, c) && c.Apply? && c.w.run(v) != Completed
  }

  /** Whether a run of v leaves an entry, the runner's or its own. */
  predicate Recorded(w: Answers, v: Version) {
    w.writeOk(v) || OwnEntry(v, w)
  }

  /** How often v's orchestrator was run without completing. */
  function Failures(registry: seq<Version>, ledger: Ledger, cs: seq<Command>, v: Version): nat {
    if cs == [] then 0
    else
      var n := |cs| - 1;
      Failures(registry, ledger, cs[..n], v)
      + (if RunsWithoutCompleting(registry, ExecAll(registry, ledger, cs[..n]), cs[n], v) then 1 else 0)
  }

  /** ... and how many of those runs left no entry at all. */
  function Unrecorded(registry: seq<Version>, ledger: Ledger, cs: seq<Command>, v: Version): nat {
    if cs == [] then 0
    else
      var n := |cs| - 1;
      Unrecorded(registry, ledger, cs[..n], v)
      + (if RunsWithoutCompleting(registry, ExecAll(registry, ledger, cs[..n]), cs[n], v) && !Recorded(cs[n].w, v)
          then 1 else 0)
  }

  predicate Marks(registry: seq<Version>, ledger: Ledger, c: Command, v: Version) {
    v in registry && (c == ForceRetry(v) || (c.ForceOrchestrator? && StatusOf(ledger, v) == Wedged))
  }

  function Retries(registry: seq<Version>, ledger: Ledger, cs: seq<Command>, v: Version): nat {
    if cs == [] then 0
    else
      var n := |cs| - 1;
      Retries(registry, ledger, cs[..n], v)
          + (if Marks(registry, ExecAll(registry, ledger, cs[..n]), cs[n], v) then 1 else 0)
  }

  // ----- the order of a run -----

  /** The run list in registry order, as the comment beside it promises. */
  function Promised(registry: seq<Version>, ledger: Ledger, installed: Version, f: Filter): seq<Version> {
    if registry == [] then []
    else
      var n := |registry| - 1;
      var v := registry[n];
      Promised(registry[..n], ledger, installed, f)
      + (if Runnable(installed, f, v) && StatusOf(ledger, v) in {Resumable, Pending} then [v] else [])
  }

  predicate Listed(ledger: Ledger, installed: Version, f: Filter, v: Version, r: Resolved) {
    Runnable(installed, f, v) && StatusOf(ledger, v) == r
  }

  /** Somewhere in the registry a version still pending comes before one to be resumed. */
  ghost predicate PendingBeforeResumable(registry: seq<Version>, ledger: Ledger, installed: Version, f: Filter) {
    exists i, j :: 0 <= i < j < |registry|
      && Listed(ledger, installed, f, registry[i], Pending) && Listed(ledger, installed, f, registry[j], Resumable)
  }

  lemma {:induction false} PendingBucket(registry: seq<Version>, ledger: Ledger, installed: Version, f: Filter)
    ensures var p := Bucket(registry, ledger, installed, f, Pending);
      && (p == [] <==> forall i :: 0 <= i < |registry| ==> !Listed(ledger, installed, f, registry[i], Pending))
      && (p != [] ==> StatusOf(ledger, p[|p| - 1]) == Pending)
  {
    hide StatusOf, Runnable;
    if registry != [] {
      var n := |registry| - 1;
      PendingBucket(registry[..n], ledger, installed, f);
      assert forall i :: 0 <= i < n ==> registry[..n][i] == registry[i];
    }
  }

  lemma OrderStep(front: seq<Version>, v: Version, ledger: Ledger, installed: Version, f: Filter)
    ensures PendingBeforeResumable(front + [v], ledger, installed, f) <==>
      PendingBeforeResumable(front, ledger, installed, f)
      || (Listed(ledger, installed, f, v, Resumable) && Bucket(front, ledger, installed, f, Pending) != [])
  {
    hide Listed, Bucket;
    var all := front + [v];
    assert all[|front|] == v && forall i :: 0 <= i < |front| ==> all[i] == front[i];
    PendingBucket(front, ledger, installed, f);
    if PendingBeforeResumable(front, ledger, installed, f) {
      var i, j :| 0 <= i < j < |front|
        && Listed(ledger, installed, f, front[i], Pending) && Listed(ledger, installed, f, front[j], Resumable);
      assert Listed(ledger, installed, f, all[i], Pending) && Listed(ledger, installed, f, all[j], Resumable);
    }
    if Listed(ledger, installed, f, v, Resumable) && Bucket(front, ledger, installed, f, Pending) != [] {
      var i :| 0 <= i < |front| && Listed(ledger, installed, f, front[i], Pending);
      assert Listed(ledger, installed, f, all[i], Pending) && Listed(ledger, installed, f, all[|front|], Resumable);
    }
  }

  lemma SameLast(a: seq<Version>, p: seq<Version>, c: seq<Version>, v: Version)
    requires a + p == c + [v] && p != []
    ensures p[|p| - 1] == v
  {
    assert (a + p)[|a + p| - 1] == p[|p| - 1];
  }

  lemma DropLast(a: seq<Version>, b: seq<Version>, v: Version)
    ensures a + [v] == b + [v] <==> a == b
  {
    assert (a + [v])[..|a|] == a && (b + [v])[..|b|] == b;
  }

  /** A run goes in registry order exactly if no pending version is registered before one to be resumed. */
  lemma {:induction false} RegistryOrderExactly(registry: seq<Version>, ledger: Ledger, installed: Version, f: Filter)
    ensures ToRun(registry, ledger, installed, f) == Promised(registry, ledger, installed, f)
      <==> !PendingBeforeResumable(registry, ledger, installed, f)
  {
    hide StatusOf, Runnable, PendingBeforeResumable;
    if registry == [] {
      NothingBefore(ledger, installed, f);
    } else {
      var n := |registry| - 1;
      var front, v := registry[..n], registry[n];
      assert registry == front + [v];
      RegistryOrderExactly(front, ledger, installed, f);
      OrderStep(front, v, ledger, installed, f);
      PendingBucket(front, ledger, installed, f);
      var r, p := Bucket(front, ledger, installed, f, Resumable), Bucket(front, ledger, installed, f, Pending);
      var was, now := Promised(front, ledger, installed, f), ToRun(registry, ledger, installed, f);
      if Listed(ledger, installed, f, v, Pending) {
        assert now == r + (p + [v]);
        Regroup(r, p, [v]);
        DropLast(r + p, was, v);
      } else if Listed(ledger, installed, f, v, Resumable) {
        assert now == r + [v] + p;
        if p == [] {
          assert now == r + [v] && r + p == r;
          DropLast(r, was, v);
        } else if now == was + [v] {
          SameLast(r + [v], p, was, v);
        }
      } else {
        assert r + [] == r && p + [] == p && was + [] == was;
      }
    }
  }

  lemma NothingBefore(ledger: Ledger, installed: Version, f: Filter)
    ensures !PendingBeforeResumable([], ledger, installed, f)
  {
  }

  lemma TwoVersions(a: Version, b: Version, ledger: Ledger, installed: Version, f: Filter, r: Resolved)
    ensures Bucket([a, b], ledger, installed, f, r)
      == (if Listed(ledger, installed, f, a, r) then [a] else [])
          + (if Listed(ledger, installed, f, b, r) then [b] else [])
  {
    hide StatusOf, Runnable;
    assert [a, b][..1] == [a] && [a][..0] == [];
    assert Bucket([a], ledger, installed, f, r) == if Listed(ledger, installed, f, a, r) then [a] else [];
  }

  lemma FirstPartial(v: Version, w: Version)
    ensures StatusOf([Entry(v, Partial)], w) == if w == v then Resumable else Pending
  {
    OfAppend([], Entry(v, Partial), w);
    assert [] + [Entry(v, Partial)] == [Entry(v, Partial)];
    FollowAppend([], Partial);
    assert [] + [Partial] == [Partial];
    assert Follow([Partial]) == Open(1) && Follow([]) == Open(0);
    assert Of([Entry(v, Partial)], w) == if w == v then [Partial] else [];
  }

  /** A pending version registered before a partial one: the partial one runs first. */
  lemma PartialOvertakesPending(a: Version, b: Version, installed: Version)
    requires a != b && CompareVersions(a, installed) <= 0 && CompareVersions(b, installed) <= 0
    ensures ToRun([a, b], [Entry(b, Partial)], installed, Every) == [b, a]
    ensures Promised([a, b], [Entry(b, Partial)], installed, Every) == [a, b]
  {
    hide StatusOf, CompareVersions;
    var ledger := [Entry(b, Partial)];
    FirstPartial(b, a);
    FirstPartial(b, b);
    TwoVersions(a, b, ledger, installed, Every, Resumable);
    TwoVersions(a, b, ledger, installed, Every, Pending);
    assert [a, b][..1] == [a] && [a][..0] == [];
    assert Promised([a], ledger, installed, Every) == [a];
  }

  // ----- what one invocation does to one version -----

  function Noted(s: seq<Status>, x: Status): seq<Status> {
    if x == Complete && s != [] && s[|s| - 1] == Complete then s else s + [x]
  }

  lemma OfAppended(ledger: Ledger, e: Entry, v: Version)
    ensures Of(Append(ledger, e), v) == if e.version == v then Noted(Of(ledger, v), e.status) else Of(ledger, v)
  {
    OfAppend(ledger, e, v);
  }

  /** The statuses of a version after a run of it: two more at most. */
  function AfterAttempt(s: seq<Status>, v: Version, w: Answers): seq<Status> {
    var own := if OwnEntry(v, w) then Noted(s, Record(w.run(v))) else s;
    if w.writeOk(v) then Noted(own, Record(w.run(v))) else own
  }

  lemma AttemptOf(ledger: Ledger, m: Version, w: Answers, v: Version)
    ensures Of(Attempt(ledger, m, w), v) == if v == m then AfterAttempt(Of(ledger, v), v, w) else Of(ledger, v)
  {
    hide Append, Of, Noted;
    OfAppended(ledger, Entry(m, Record(w.run(m))), v);
    OfAppended(AfterOwn(ledger, m, w), Entry(m, Record(w.run(m))), v);
  }

  lemma {:induction false} AttemptsOf(ledger: Ledger, ran: seq<Version>, w: Answers, v: Version)
    requires Distinct(ran)
    ensures Of(Attempts(ledger, ran, w), v)
              == if v in ran then AfterAttempt(Of(ledger, v), v, w) else Of(ledger, v)
  {
    hide Attempt, Of, AfterAttempt;
    if ran != [] {
      var n := |ran| - 1;
      AttemptsOf(ledger, ran[..n], w, v);
      assert v in ran <==> v in ran[..n] || v == ran[n];
      AttemptOf(Attempts(ledger, ran[..n], w), ran[n], w, v);
    }
  }

  lemma {:induction false} BucketFacts(registry: seq<Version>, ledger: Ledger, installed: Version,
      f: Filter, r: Resolved)
    requires Distinct(registry)
    ensures Distinct(Bucket(registry, ledger, installed, f, r))
    ensures forall v :: v in Bucket(registry, ledger, installed, f, r) <==>
                        v in registry && Runnable(installed, f, v) && StatusOf(ledger, v) == r
  {
    if registry != [] {
      var n := |registry| - 1;
      BucketFacts(registry[..n], ledger, installed, f, r);
      assert registry == registry[..n] + [registry[n]];
    }
  }

  lemma {:induction false} FutureFacts(registry: seq<Version>, installed: Version, f: Filter, v: Version)
    ensures v in Future(registry, installed, f) <==> v in registry && Passes(f, v) && CompareVersions(v, installed) > 0
  {
    if registry != [] {
      var n := |registry| - 1;
      FutureFacts(registry[..n], installed, f, v);
      assert registry == registry[..n] + [registry[n]];
    }
  }

  /** Every registered version that passes the filter is in exactly one of the five lists. */
  lemma PlanIsPartition(registry: seq<Version>, ledger: Ledger, installed: Version, f: Filter, v: Version)
    requires Distinct(registry) && v in registry && Passes(f, v)
    ensures v in Future(registry, installed, f) <==> forall r :: v !in Bucket(registry, ledger, installed, f, r)
    ensures forall q, r ::
              v in Bucket(registry, ledger, installed, f, q) && v in Bucket(registry, ledger, installed, f, r)
              ==> q == r
  {
    FutureFacts(registry, installed, f, v);
    forall r ensures v in Bucket(registry, ledger, installed, f, r) <==>
                     CompareVersions(v, installed) <= 0 && StatusOf(ledger, v) == r
    {
      BucketFacts(registry, ledger, installed, f, r);
    }
    assert CompareVersions(v, installed) <= 0 ==> v in Bucket(registry, ledger, installed, f, StatusOf(ledger, v));
  }

  lemma {:induction false} RanIsPrefix(toRun: seq<Version>, w: Answers)
    ensures Ran(toRun, w) <= toRun
  {
    if toRun != [] {
      RanIsPrefix(toRun[1..], w);
    }
  }

  lemma RanByFacts(registry: seq<Version>, ledger: Ledger, c: Command)
    requires Distinct(registry)
    ensures Distinct(RanBy(registry, ledger, c))
    ensures forall v :: v in RanBy(registry, ledger, c) ==> StatusOf(ledger, v) in {Resumable, Pending}
  {
    if c.Apply? {
      var toRun := ToRun(registry, ledger, c.installed, c.filter);
      RanIsPrefix(toRun, c.w);
      BucketFacts(registry, ledger, c.installed, c.filter, Resumable);
      BucketFacts(registry, ledger, c.installed, c.filter, Pending);
      var ran, first := RanBy(registry, ledger, c), Bucket(registry, ledger, c.installed, c.filter, Resumable);
      forall i, j | 0 <= i < j < |toRun| ensures toRun[i] != toRun[j] {
        assert i < |first| <= j
               ==> toRun[i] in first && toRun[j] in Bucket(registry, ledger, c.installed, c.filter, Pending);
      }
      forall v | v in ran ensures v in toRun {
        var i :| 0 <= i < |ran| && ran[i] == v;
        assert toRun[i] == v;
      }
    }
  }

  lemma {:induction false} MarkersOf(ledger: Ledger, registry: seq<Version>, index: Ledger, v: Version)
    requires Distinct(registry)
    ensures Of(ledger + Markers(registry, index), v)
              == Of(ledger, v) + (if v in registry && StatusOf(index, v) == Wedged then [Retry] else [])
  {
    hide Of, StatusOf;
    if registry == [] {
      assert ledger + Markers(registry, index) == ledger;
    } else {
      var n := |registry| - 1;
      MarkersOf(ledger, registry[..n], index, v);
      assert v in registry <==> v in registry[..n] || v == registry[n];
      var before, all := ledger + Markers(registry[..n], index), ledger + Markers(registry, index);
      if StatusOf(index, registry[n]) == Wedged {
        OfAppend(before, Entry(registry[n], Retry), v);
        assert all == before + [Entry(registry[n], Retry)];
      } else {
        assert all == before;
      }
    }
  }

  lemma NotedTrack(s: seq<Status>, x: Status)
    ensures Follow(Noted(s, x)) == Advance(Follow(s), x)
  {
    FollowAppend(s, x);
    FollowIsRescan(s);
  }

  /** A run of v advances its state machine once for each entry it leaves. */
  function Moved(t: Track, v: Version, w: Answers): Track {
    var own := if OwnEntry(v, w) then Advance(t, Record(w.run(v))) else t;
    if w.writeOk(v) then Advance(own, Record(w.run(v))) else own
  }

  lemma AttemptTrack(s: seq<Status>, v: Version, w: Answers)
    ensures Follow(AfterAttempt(s, v, w)) == Moved(Follow(s), v, w)
  {
    hide Noted, Follow;
    var x := Record(w.run(v));
    NotedTrack(s, x);
    NotedTrack(Noted(s, x), x);
  }

  /** A version's next status: a marker if one is set, nothing otherwise. */
  lemma MarkTrack(ledger: Ledger, later: Ledger, v: Version, marked: bool)
    requires Of(later, v) == Of(ledger, v) + (if marked then [Retry] else [])
    ensures Follow(Of(later, v)) == if marked then Advance(Follow(Of(ledger, v)), Retry) else Follow(Of(ledger, v))
  {
    hide Of, Follow, Advance;
    var s := Of(ledger, v);
    FollowAppend(s, Retry);
    assert s + [] == s;
  }

  lemma RunTrack(registry: seq<Version>, ledger: Ledger, c: Command, v: Version)
    requires Distinct(registry) && c.Apply?
    ensures Follow(Of(Exec(registry, ledger, c), v))
              == if v in RanBy(registry, ledger, c) then Moved(Follow(Of(ledger, v)), v, c.w) else Follow(Of(ledger, v))
  {
    hide Of, Follow, Moved, AfterAttempt, RanBy, Attempts, StatusOf;
    RanByFacts(registry, ledger, c);
    AttemptsOf(ledger, RanBy(registry, ledger, c), c.w, v);
    AttemptTrack(Of(ledger, v), v, c.w);
  }

  lemma RetryTrack(registry: seq<Version>, ledger: Ledger, c: Command, v: Version)
    requires Distinct(registry) && !c.Apply?
    ensures Follow(Of(Exec(registry, ledger, c), v))
              == if Marks(registry, ledger, c, v) then Advance(Follow(Of(ledger, v)), Retry) else Follow(Of(ledger, v))
  {
    hide Of, Follow, Advance, StatusOf, Markers;
    var later := Exec(registry, ledger, c);
    match c {
      case ForceRetry(u) =>
        OfAppend(ledger, Entry(u, Retry), v);
        assert Of(ledger, v) + [] == Of(ledger, v);
      case ForceOrchestrator =>
        MarkersOf(ledger, registry, ledger, v);
    }
    MarkTrack(ledger, later, v, Marks(registry, ledger, c, v));
  }

  /**
   One invocation moves the state machine of each version by at most two statuses: a retry marker, or the
   orchestrator's own entry and the runner's.
   */
  lemma ExecTrack(registry: seq<Version>, ledger: Ledger, c: Command, v: Version)
    requires Distinct(registry)
    ensures var t, u := Follow(Of(ledger, v)), Follow(Of(Exec(registry, ledger, c), v));
            u == if Marks(registry, ledger, c, v) then Advance(t, Retry)
                 else if v in RanBy(registry, ledger, c) then Moved(t, v, c.w)
                 else t
  {
    hide Of, Follow, Exec, Moved, Advance, StatusOf, ToRun, Ran;
    if c.Apply? {
      RunTrack(registry, ledger, c, v);
    } else {
      RetryTrack(registry, ledger, c, v);
    }
  }

  /**
   The same in terms of what happened to the version: its own entry comes only from 0.16.0 and 0.18.0 ending as
   complete or partial, a run that completes and is recorded settles it, any other recorded one counts once or
   twice, and a retry marker starts the count afresh.
   */
  lemma ExecTrackExactly(registry: seq<Version>, ledger: Ledger, c: Command, v: Version)
    requires Distinct(registry)
    ensures var t, u := Follow(Of(ledger, v)), Follow(Of(Exec(registry, ledger, c), v));
      && (t.Settled? ==> u.Settled?)
      && (v in RanBy(registry, ledger, c) && c.Apply? && t.Open? ==>
            var o := c.w.run(v);
            var own := v in {Version(0, 16, 0), Version(0, 18, 0)} && c.w.ownOk(v) && o in {Completed, PartlyDone};
            var entries := (if own then 1 else 0) + (if c.w.writeOk(v) then 1 else 0);
            u == if entries > 0 && o == Completed then Settled else Open(t.partials + entries))
      && (c.ForceRetry? && t.Open? ==> u == if c.version == v && v in registry then Open(0) else t)
      && (c.ForceOrchestrator? && t.Open? ==> u == if v in registry && t.partials >= 3 then Open(0) else t)
      && (c.Apply? && v !in RanBy(registry, ledger, c) ==> u == t)
  {
    hide Of, Follow, Exec, ToRun, Ran;
    ExecTrack(registry, ledger, c, v);
  }

  /** Clearing the wedged versions makes exactly those registered ones pending and leaves all others as they were. */
  lemma ResetUnwedges(registry: seq<Version>, ledger: Ledger, v: Version)
    requires Distinct(registry)
    ensures StatusOf(Exec(registry, ledger, ForceOrchestrator), v)
              == if v in registry && StatusOf(ledger, v) == Wedged then Pending else StatusOf(ledger, v)
  {
    hide Of, Follow, Exec;
    ExecTrackExactly(registry, ledger, ForceOrchestrator, v);
  }

  /** A forced retry makes a registered version pending unless it completed, and touches no other. */
  lemma RetryFreshens(registry: seq<Version>, ledger: Ledger, u: Version, v: Version)
    requires Distinct(registry)
    ensures StatusOf(Exec(registry, ledger, ForceRetry(u)), v)
              == if v == u && u in registry && StatusOf(ledger, v) != Done then Pending else StatusOf(ledger, v)
    ensures u !in registry ==> Exec(registry, ledger, ForceRetry(u)) == ledger
  {
    ExecTrackExactly(registry, ledger, ForceRetry(u), v);
  }

  /** No version has two complete entries in a row. */
  ghost predicate CompletesApart(s: seq<Status>) {
    forall i :: 0 < i < |s| ==> !(s[i - 1] == Complete && s[i] == Complete)
  }

  lemma NotedApart(s: seq<Status>, x: Status)
    requires CompletesApart(s)
    ensures CompletesApart(Noted(s, x))
    ensures x != Complete || s == [] || s[|s| - 1] != Complete ==> Noted(s, x) == s + [x]
  {
  }

  /** Whatever is invoked, no second complete entry is written right after one. */
  lemma {:induction false} CompletesNeverRepeat(registry: seq<Version>, ledger: Ledger, cs: seq<Command>, v: Version)
    requires Distinct(registry) && CompletesApart(Of(ledger, v))
    ensures CompletesApart(Of(ExecAll(registry, ledger, cs), v))
  {
    hide Of, CompletesApart, StatusOf;
    if cs != [] {
      var n := |cs| - 1;
      CompletesNeverRepeat(registry, ledger, cs[..n], v);
      var before, c := ExecAll(registry, ledger, cs[..n]), cs[n];
      var s := Of(before, v);
      match c {
        case Apply(_, _, w) =>
          RanByFacts(registry, before, c);
          AttemptsOf(before, RanBy(registry, before, c), w, v);
          hide Noted;
          NotedApart(s, Record(w.run(v)));
          NotedApart(Noted(s, Record(w.run(v))), Record(w.run(v)));
        case ForceRetry(u) =>
          OfAppend(before, Entry(u, Retry), v);
          NotedApart(s, Retry);
          assert s + [] == s;
        case ForceOrchestrator =>
          MarkersOf(before, registry, before, v);
          NotedApart(s, Retry);
          assert s + [] == s;
      }
    }
  }

  /**
   Two recorded partial runs of a version that had no attempts to its name: it is wedged after them, one
   run early, exactly if it records itself and one of its own entries was written.
   */
  lemma WedgedAfterTwoRuns(registry: seq<Version>, ledger: Ledger, c: Command, d: Command, v: Version)
    requires Distinct(registry) && Follow(Of(ledger, v)) == Open(0)
    requires v in RanBy(registry, ledger, c) && v in RanBy(registry, Exec(registry, ledger, c), d)
    requires c.w.run(v) == PartlyDone && c.w.writeOk(v) && d.w.run(v) == PartlyDone && d.w.writeOk(v)
    ensures StatusOf(Exec(registry, Exec(registry, ledger, c), d), v) == Wedged
      <==> v in {Version(0, 16, 0), Version(0, 18, 0)} && (c.w.ownOk(v) || d.w.ownOk(v))
  {
    hide Exec, RanBy, Follow, Of, Marks;
    ExecTrack(registry, ledger, c, v);
    ExecTrack(registry, Exec(registry, ledger, c), d, v);
    RanIsNoMark(registry, ledger, c, v);
    RanIsNoMark(registry, Exec(registry, ledger, c), d, v);
  }

  lemma RanIsNoMark(registry: seq<Version>, ledger: Ledger, c: Command, v: Version)
    requires v in RanBy(registry, ledger, c)
    ensures c.Apply? && !Marks(registry, ledger, c, v)
  {
  }

  lemma OnlyVersion(v: Version, ledger: Ledger, w: Answers)
    requires StatusOf(ledger, v) in {Pending, Resumable}
    ensures RanBy([v], ledger, Apply(v, Every, w)) == [v]
  {
    hide StatusOf, GoesOn;
    assert [v][..0] == [] && [v][1..] == [];
    assert Bucket([], ledger, v, Every, Resumable) == [] == Bucket([], ledger, v, Every, Pending);
    assert Runnable(v, Every, v);
    assert Bucket([v], ledger, v, Every, Resumable) == if StatusOf(ledger, v) == Resumable then [v] else [];
    assert Bucket([v], ledger, v, Every, Pending) == if StatusOf(ledger, v) == Pending then [v] else [];
    assert ToRun([v], ledger, v, Every) == [v];
    assert Ran([], w) == [] && Ran([v], w) == [v];
  }

  /** 0.18.0 finishes as partial twice and every write succeeds: three attempts are allowed, and it is wedged. */
  lemma TwoPartialRunsWedge()
    ensures var v := Version(0, 18, 0);
      var c := Apply(v, Every, Answers(x => PartlyDone, x => true, x => true));
      StatusOf(ExecAll([v], [], [c, c]), v) == Wedged
  {
    hide StatusOf, Of, RanBy, Exec;
    var v := Version(0, 18, 0);
    var w := Answers(x => PartlyDone, x => true, x => true);
    var c := Apply(v, Every, w);
    NothingOf(v);
    OnlyVersion(v, [], w);
    ExecTrack([v], [], c, v);
    var mid := Exec([v], [], c);
    RanIsNoMark([v], [], c, v);
    TwoPartialsResume(mid, v);
    OnlyVersion(v, mid, w);
    WedgedAfterTwoRuns([v], [], c, c, v);
    assert [c, c][..1] == [c] && [c][..0] == [];
    assert ExecAll([v], [], [c]) == mid;
  }

  lemma NothingOf(v: Version)
    ensures Follow(Of([], v)) == Open(0) && StatusOf([], v) == Pending
  {
  }

  lemma TwoPartialsResume(ledger: Ledger, v: Version)
    requires Follow(Of(ledger, v)) == Open(2)
    ensures StatusOf(ledger, v) == Resumable
  {
  }

  // ----- the cap, over whole histories -----

  function Spent(t: Track): nat {
    match t
    case Settled => MAX_CONSECUTIVE_PARTIALS
    case Open(n) => if n < MAX_CONSECUTIVE_PARTIALS then n else MAX_CONSECUTIVE_PARTIALS
  }

  lemma {:induction false} FailuresArePaidFor(registry: seq<Version>, ledger: Ledger, cs: seq<Command>, v: Version)
    requires Distinct(registry)
    ensures Failures(registry, ledger, cs, v) + Spent(Follow(Of(ledger, v)))
              <= MAX_CONSECUTIVE_PARTIALS * Retries(registry, ledger, cs, v) + Unrecorded(registry, ledger, cs, v)
                 + Spent(Follow(Of(ExecAll(registry, ledger, cs), v)))
  {
    hide Of, Follow, Exec, RanBy, Marks;
    if cs != [] {
      var n := |cs| - 1;
      FailuresArePaidFor(registry, ledger, cs[..n], v);
      var before := ExecAll(registry, ledger, cs[..n]);
      ExecTrack(registry, before, cs[n], v);
      RanByFacts(registry, before, cs[n]);
    }
  }

  /**
   Over any sequence of invocations, from any ledger, a version's orchestrator is run without
   completing at most 3 * (1 + retry markers) times, plus the runs that left no entry.
   */
  lemma AttemptsAreCapped(registry: seq<Version>, ledger: Ledger, cs: seq<Command>, v: Version)
    requires Distinct(registry)
    ensures Failures(registry, ledger, cs, v)
              <= MAX_CONSECUTIVE_PARTIALS * (1 + Retries(registry, ledger, cs, v)) + Unrecorded(registry, ledger, cs, v)
  {
    FailuresArePaidFor(registry, ledger, cs, v);
  }

  /** Once a version is complete it stays complete, and no later invocation runs it again. */
  lemma {:induction false} CompleteIsNeverRerun(registry: seq<Version>, ledger: Ledger, cs: seq<Command>,
      next: Command, v: Version)
    requires Distinct(registry) && StatusOf(ledger, v) == Done
    ensures var later := ExecAll(registry, ledger, cs);
            StatusOf(later, v) == Done && v !in RanBy(registry, later, next)
  {
    if cs != [] {
      var n := |cs| - 1;
      CompleteIsNeverRerun(registry, ledger, cs[..n], cs[n], v);
      ExecTrack(registry, ExecAll(registry, ledger, cs[..n]), cs[n], v);
    }
    RanByFacts(registry, ExecAll(registry, ledger, cs), next);
  }

  // ----- the doctor's reading of the same ledger -----

  function Partials(s: seq<Status>): nat {
    if s == [] then 0 else Partials(s[..|s| - 1]) + (if s[|s| - 1] == Partial then 1 else 0)
  }

  ghost predicate Superseded(ledger: Ledger, v: Version) {
    exists w :: Complete in Of(ledger, w) && CompareVersions(w, v) >= 0
  }

  ghost predicate Stuck(ledger: Ledger, v: Version) {
    Partial in Of(ledger, v) && Complete !in Of(ledger, v) && !Superseded(ledger, v)
  }

  ghost predicate DoctorWedged(ledger: Ledger, v: Version) {
    Stuck(ledger, v) && Partials(Of(ledger, v)) >= 3
  }

  datatype Seen = Seen(complete: bool, partial: bool)

  lemma {:induction false} OfHolds(ledger: Ledger, v: Version, x: Status)
    ensures x in Of(ledger, v) <==> Entry(v, x) in ledger
  {
    if ledger != [] {
      var n := |ledger| - 1;
      OfHolds(ledger[..n], v, x);
      assert ledger == ledger[..n] + [ledger[n]];
    }
  }

  /** Both copies of the check: one pass into a map, then the filters. */
  method ScanLedger(completed: Ledger) returns (stuck: set<Version>, wedged: set<Version>)
    ensures forall v :: v in stuck <==> Stuck(completed, v)
    ensures forall v :: v in wedged <==> DoctorWedged(completed, v)
  {
    var byVersion: map<Version, Seen> := map[];
    for i := 0 to |completed|
      invariant forall v :: v in byVersion <==> exists x :: Entry(v, x) in completed[..i]
      invariant forall v :: v in byVersion ==>
                  byVersion[v] == Seen(Entry(v, Complete) in completed[..i], Entry(v, Partial) in completed[..i])
    {
      var entry := completed[i];
      assert completed[..i + 1] == completed[..i] + [entry];
      assert forall v, x ::
          Entry(v, x) in completed[..i + 1]
          <==> Entry(v, x) in completed[..i] || Entry(v, x) == entry;
      var seen := if entry.version in byVersion then byVersion[entry.version] else Seen(false, false);
      var now := Seen(seen.complete || entry.status == Complete, seen.partial || entry.status == Partial);
      byVersion := byVersion[entry.version := now];
    }
    assert completed[..|completed|] == completed;
    forall v, x ensures x in Of(completed, v) <==> Entry(v, x) in completed {
      OfHolds(completed, v, x);
    }
    var completedVersions := set v | v in byVersion && byVersion[v].complete;
    stuck := set v | v in byVersion && byVersion[v].partial && !byVersion[v].complete
                     && !exists cv | cv in completedVersions :: CompareVersions(cv, v) >= 0;
    wedged := set v | v in stuck && Partials(Of(completed, v)) >= 3;
  }

  /** The doctor's sets in terms of the entries: a version is stuck if it has a partial entry, no complete one, and
      neither does any version from it on; wedged if three of its entries are partial. */
  lemma StuckExactly(completed: Ledger, v: Version)
    ensures Stuck(completed, v) <==>
      && Entry(v, Partial) in completed && Entry(v, Complete) !in completed
      && forall w :: Entry(w, Complete) in completed ==>
           || v.major > w.major
           || (v.major == w.major && v.minor > w.minor)
           || (v.major == w.major && v.minor == w.minor && v.patch > w.patch)
    ensures DoctorWedged(completed, v) <==>
      Stuck(completed, v) && |set i | 0 <= i < |completed| && completed[i] == Entry(v, Partial)| >= 3
  {
    hide Of, Partials, CompareVersions;
    PartialsCounted(completed, v);
    forall w, x ensures x in Of(completed, w) <==> Entry(w, x) in completed {
      OfHolds(completed, w, x);
    }
    forall w
      ensures CompareVersions(w, v) < 0 <==>
        || v.major > w.major
        || (v.major == w.major && v.minor > w.minor)
        || (v.major == w.major && v.minor == w.minor && v.patch > w.patch)
    {
      ComparisonIsLexicographic(w, v);
      ComparisonIsLexicographic(v, w);
    }
  }

  lemma {:induction false} PartialsCounted(ledger: Ledger, v: Version)
    ensures Partials(Of(ledger, v)) == |set i | 0 <= i < |ledger| && ledger[i] == Entry(v, Partial)|
  {
    var all := set i | 0 <= i < |ledger| && ledger[i] == Entry(v, Partial);
    if ledger == [] {
      assert all == {};
    } else {
      var n := |ledger| - 1;
      PartialsCounted(ledger[..n], v);
      var front := set i | 0 <= i < n && ledger[..n][i] == Entry(v, Partial);
      assert front == all - {n};
      assert ledger[n] == Entry(v, Partial) <==> n in all;
      if ledger[n].version == v {
        PartialsAppend(Of(ledger[..n], v), ledger[n].status);
      } else {
        assert Of(ledger, v) == Of(ledger[..n], v);
      }
    }
  }

  lemma LastOf(s: seq<Status>, x: Status)
    requires s != []
    ensures x in s <==> x in s[..|s| - 1] || x == s[|s| - 1]
  {
    assert s == s[..|s| - 1] + [s[|s| - 1]];
  }

  lemma {:induction false} TrailingAtMostAll(s: seq<Status>)
    ensures Trailing(s) <= Partials(s)
    ensures Partials(s) > 0 <==> Partial in s
  {
    if s != [] {
      TrailingAtMostAll(s[..|s| - 1]);
      LastOf(s, Partial);
    }
  }

  lemma {:induction false} TrailingIsAll(s: seq<Status>)
    requires Retry !in s && Complete !in s
    ensures Trailing(s) == Partials(s)
  {
    if s != [] {
      var n := |s| - 1;
      LastOf(s, Retry);
      LastOf(s, Complete);
      TrailingIsAll(s[..n]);
      assert s[n] in s;
    }
  }

  /** The readers agree one way: unless superseded, what the runner calls wedged the doctor does too;
      and what the doctor calls wedged is stuck. */
  lemma RunnerWedgedIsDoctorWedged(ledger: Ledger, v: Version)
    ensures StatusOf(ledger, v) == Wedged && !Superseded(ledger, v) ==> DoctorWedged(ledger, v)
    ensures DoctorWedged(ledger, v) ==> Stuck(ledger, v)
  {
    FollowIsRescan(Of(ledger, v));
    TrailingAtMostAll(Of(ledger, v));
  }

  /** On a ledger without retry markers for the version they agree both ways. */
  lemma ReadersAgreeWithoutRetries(ledger: Ledger, v: Version)
    requires Retry !in Of(ledger, v) && !Superseded(ledger, v)
    ensures StatusOf(ledger, v) == Wedged <==> DoctorWedged(ledger, v)
  {
    FollowIsRescan(Of(ledger, v));
    TrailingAtMostAll(Of(ledger, v));
    if Complete !in Of(ledger, v) {
      TrailingIsAll(Of(ledger, v));
    }
  }

  /** Partials recorded after the last retry marker, and those before it. */
  function Since(s: seq<Status>): nat {
    if s == [] || s[|s| - 1] == Retry then 0
    else Since(s[..|s| - 1]) + (if s[|s| - 1] == Partial then 1 else 0)
  }

  function Before(s: seq<Status>): nat {
    if s == [] then 0
    else if s[|s| - 1] == Retry then Partials(s[..|s| - 1])
    else Before(s[..|s| - 1])
  }

  lemma {:induction false} PartialsSplit(s: seq<Status>)
    ensures Partials(s) == Before(s) + Since(s)
    ensures Complete !in s ==> Trailing(s) == Since(s)
  {
    if s != [] {
      var n := |s| - 1;
      PartialsSplit(s[..n]);
      LastOf(s, Complete);
    }
  }

  /**
   When the two readers agree on a version. One that completed never counts as wedged. One superseded by
   another is not wedged for the doctor, so its partials since the last retry marker must be few. Any
   other one must have three of them since the marker, or fewer than three in all.
   */
  lemma ReadersAgreeExactly(ledger: Ledger, v: Version)
    ensures var s := Of(ledger, v);
      (StatusOf(ledger, v) == Wedged <==> DoctorWedged(ledger, v)) <==>
        || Complete in s
        || (if Superseded(ledger, v) then Since(s) < 3 else Since(s) >= 3 || Before(s) + Since(s) < 3)
  {
    var s := Of(ledger, v);
    FollowIsRescan(s);
    TrailingAtMostAll(s);
    PartialsSplit(s);
  }

  function ThreePartials(v: Version): Ledger {
    [Entry(v, Partial)] + [Entry(v, Partial)] + [Entry(v, Partial)]
  }

  lemma OfThree(v: Version, w: Version)
    ensures Of(ThreePartials(v), w) == if w == v then [Partial] + [Partial] + [Partial] else []
  {
    var e := Entry(v, Partial);
    OfAppend([], e, w);
    assert [] + [e] == [e];
    OfAppend([e], e, w);
    OfAppend([e] + [e], e, w);
  }

  lemma PartialsAppend(s: seq<Status>, x: Status)
    ensures Partials(s + [x]) == Partials(s) + if x == Partial then 1 else 0
  {
    assert (s + [x])[..|s|] == s;
  }

  lemma ThreeArePartials()
    ensures Partials([Partial] + [Partial] + [Partial]) == 3
  {
    PartialsAppend([], Partial);
    assert [] + [Partial] == [Partial];
    PartialsAppend([Partial], Partial);
    PartialsAppend([Partial] + [Partial], Partial);
  }

  /** Three partials and nothing else: here the doctor's wedged set is all of its stuck set. */
  lemma WedgedCanBeAllStuck(v: Version)
    ensures DoctorWedged(ThreePartials(v), v)
    ensures forall w :: Stuck(ThreePartials(v), w) <==> DoctorWedged(ThreePartials(v), w)
  {
    hide Of, Partials, ThreePartials;
    ThreeArePartials();
    forall w ensures Of(ThreePartials(v), w) == if w == v then [Partial] + [Partial] + [Partial] else [] {
      OfThree(v, w);
    }
  }

  /** Three partials and a retry marker: wedged for the doctor, pending for the runner. */
  lemma PartialsThenRetryDisagree(v: Version)
    ensures StatusOf(ThreePartials(v) + [Entry(v, Retry)], v) == Pending
    ensures DoctorWedged(ThreePartials(v) + [Entry(v, Retry)], v)
  {
    WedgedCanBeAllStuck(v);
    DoctorIgnoresRetry(ThreePartials(v), v);
  }

  /** Three partials of a version that a newer one superseded: wedged for the runner, not for the doctor. */
  lemma SupersededWedgeDisagrees(v: Version, w: Version)
    requires CompareVersions(w, v) > 0
    ensures StatusOf(ThreePartials(v) + [Entry(w, Complete)], v) == Wedged
    ensures !DoctorWedged(ThreePartials(v) + [Entry(w, Complete)], v)
  {
    hide Of, ThreePartials;
    var ledger := ThreePartials(v) + [Entry(w, Complete)];
    OfThree(v, v);
    OfAppend(ThreePartials(v), Entry(w, Complete), v);
    OfAppend(ThreePartials(v), Entry(w, Complete), w);
    FollowAppend([], Partial);
    FollowAppend([Partial], Partial);
    FollowAppend([Partial] + [Partial], Partial);
    assert [] + [Partial] == [Partial];
    assert Of(ledger, v) == [Partial] + [Partial] + [Partial];
    assert Complete in Of(ledger, w);
  }

  /** The wedged set is a proper part of the stuck set exactly if some stuck version has one or two partials. */
  lemma WedgedIsProperExactly(ledger: Ledger)
    ensures (exists v :: Stuck(ledger, v) && !DoctorWedged(ledger, v)) <==>
      exists v :: Stuck(ledger, v) && 1 <= Partials(Of(ledger, v)) <= 2
  {
    if v :| Stuck(ledger, v) && !DoctorWedged(ledger, v) {
      TrailingAtMostAll(Of(ledger, v));
      assert Stuck(ledger, v) && 1 <= Partials(Of(ledger, v)) <= 2;
    }
  }

  /** After the advised force-retry the runner starts afresh, while the doctor keeps reporting a wedge. */
  lemma DoctorIgnoresRetry(ledger: Ledger, v: Version)
    requires DoctorWedged(ledger, v)
    ensures StatusOf(ledger + [Entry(v, Retry)], v) == Pending
    ensures DoctorWedged(ledger + [Entry(v, Retry)], v)
  {
    var later := ledger + [Entry(v, Retry)];
    var s := Of(ledger, v);
    OfAppend(ledger, Entry(v, Retry), v);
    FollowAppend(s, Retry);
    FollowIsRescan(s);
    assert (s + [Retry])[..|s|] == s;
    forall w ensures Complete in Of(later, w) <==> Complete in Of(ledger, w) {
      OfAppend(ledger, Entry(v, Retry), w);
    }
  }
}
