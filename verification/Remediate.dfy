/**
 doctor --remediate: submit one step at a time, wait for it, cascade failures to dependents and plan anew
 after each submitted step. The planner and the queue are arbitrary.
 */
module Remediate {
  import opened Collections

  /** A planned step and the steps it depends on. */
  datatype Rec = Rec(id: string, dependsOn: seq<string>)

  /**
   What submitting and waiting for a step comes to: a terminal status, or an exception before or after
   the job exists.
   */
  datatype Outcome = Ended(job: nat, status: string) | AddThrew(message: string) | WaitThrew(job: nat, message: string)

  /** One turn's answers: the step's outcome, and the plan computed afterwards if one is asked for. */
  datatype Turn = Turn(outcome: Outcome, replan: seq<Rec>)

  datatype Entry = Entry(step: nat, id: string, job: Option<nat>, status: string)

  datatype State = State(recs: seq<Rec>, count: nat, submitted: seq<Entry>, aborted: set<string>)

  predicate Blocked(r: Rec, aborted: set<string>) {
    exists d :: d in r.dependsOn && d in aborted
  }

  function ErrorStatus(message: string): string {
    "error: " + if |message| > 100 then message[..100] else message
  }

  /** The loop guard; no --max-jobs means no limit. */
  predicate Continues(s: State, maxJobs: Option<int>) {
    s.recs != [] && (maxJobs.None? || s.count < maxJobs.value)
  }

  function Entries(step: nat, id: string, o: Outcome): seq<Entry> {
    match o
    case Ended(job, status) => [Entry(step, id, Some(job), status)]
    case AddThrew(m) => [Entry(step, id, None, ErrorStatus(m))]
    case WaitThrew(job, m) => [Entry(step, id, Some(job), "submitted"), Entry(step, id, None, ErrorStatus(m))]
  }

  predicate Completed(o: Outcome) {
    o.Ended? && o.status == "completed"
  }

  function Next(s: State, t: Turn, maxJobs: Option<int>): State
    requires s.recs != []
  {
    var r, n, rest := s.recs[0], s.count + 1, s.recs[1..];
    if Blocked(r, s.aborted) then
      State(rest, n, s.submitted + [Entry(n, r.id, None, "skipped_dep_aborted")], s.aborted + {r.id})
    else
      State(
        if rest == [] || (maxJobs.Some? && n >= maxJobs.value) then rest else t.replan,
        n,
        s.submitted + Entries(n, r.id, t.outcome),
        if Completed(t.outcome) then s.aborted else s.aborted + {r.id})
  }

  function Run(plan: seq<Rec>, ts: seq<Turn>, maxJobs: Option<int>): State {
    if ts == [] then State(plan, 0, [], {})
    else
      var s := Run(plan, ts[..|ts| - 1], maxJobs);
      if Continues(s, maxJobs) then Next(s, ts[|ts| - 1], maxJobs) else s
  }

  method Submit(step: nat, r: Rec, o: Outcome, before: seq<Entry>, abortedBefore: set<string>)
    returns (submitted: seq<Entry>, aborted: set<string>)
    ensures submitted == before + Entries(step, r.id, o)
    ensures aborted == if Completed(o) then abortedBefore else abortedBefore + {r.id}
  {
    submitted, aborted := before, abortedBefore;
    if !o.AddThrew? {
      submitted := submitted + [Entry(step, r.id, Some(o.job), "submitted")];
    }
    if o.Ended? {
      var last := |submitted| - 1;
      submitted := submitted[last := submitted[last].(status := o.status)];
      if o.status != "completed" {
        aborted := aborted + {r.id};
      }
    } else {
      submitted := submitted + [Entry(step, r.id, None, ErrorStatus(o.message))];
      aborted := aborted + {r.id};
    }
  }

  /** Works until no step is left, the job cap is reached, or the given turns are used up (an interrupted run). */
  method RunRemediate(plan: seq<Rec>, ts: seq<Turn>, maxJobs: Option<int>)
    returns (s: State, used: nat)
    ensures used <= |ts| && s == Run(plan, ts[..used], maxJobs)
    ensures used == |ts| || !Continues(s, maxJobs)
    ensures used == |ts| || s.recs == [] || (maxJobs.Some? && used >= maxJobs.value)
    ensures s.count == used
  {
    hide Blocked, Entries, Completed;
    var recs, stepCount, submitted, aborted := plan, 0, [], {};
    used := 0;
    while |recs| > 0 && (maxJobs.None? || stepCount < maxJobs.value) && used < |ts|
      invariant stepCount == used
      invariant used <= |ts| && State(recs, stepCount, submitted, aborted) == Run(plan, ts[..used], maxJobs)
      decreases |ts| - used
    {
      assert ts[..used + 1][..used] == ts[..used];
      var step := recs[0];
      stepCount := stepCount + 1;
      used := used + 1;
      if Blocked(step, aborted) {
        submitted := submitted + [Entry(stepCount, step.id, None, "skipped_dep_aborted")];
        aborted := aborted + {step.id};
        recs := recs[1..];
        continue;
      }
      submitted, aborted := Submit(stepCount, step, ts[used - 1].outcome, submitted, aborted);
      recs := recs[1..];
      if |recs| == 0 || (maxJobs.Some? && stepCount >= maxJobs.value) {
        break;
      }
      recs := ts[used - 1].replan;
    }
    s := State(recs, stepCount, submitted, aborted);
  }

  ghost predicate HasOpenEntry(es: seq<Entry>, id: string) {
    exists k :: 0 <= k < |es| && es[k].id == id && es[k].status != "completed"
  }

  lemma OpenEntryAppend(es: seq<Entry>, more: seq<Entry>, id: string)
    ensures HasOpenEntry(es + more, id) <==> HasOpenEntry(es, id) || HasOpenEntry(more, id)
  {
    if HasOpenEntry(es, id) {
      var k :| 0 <= k < |es| && es[k].id == id && es[k].status != "completed";
      assert (es + more)[k] == es[k];
    }
    if HasOpenEntry(more, id) {
      var k :| 0 <= k < |more| && more[k].id == id && more[k].status != "completed";
      assert (es + more)[|es| + k] == more[k];
    }
  }

  lemma StatusesDiffer(m: string)
    ensures ErrorStatus(m) != "completed" && "submitted" != "completed" && "skipped_dep_aborted" != "completed"
  {
    assert ErrorStatus(m)[0] == 'e' && "submitted"[0] == 's' && "skipped_dep_aborted"[0] == 's'
           && "completed"[0] == 'c';
  }

  lemma OutcomeEntries(step: nat, r: Rec, o: Outcome, id: string)
    ensures HasOpenEntry(Entries(step, r.id, o), id) <==> id == r.id && !Completed(o)
  {
    StatusesDiffer(if o.Ended? then "" else o.message);
    assert !Completed(o) ==> Entries(step, r.id, o)[0].status != "completed";
  }

  /** What the loop keeps: the job count within the cap, and the aborted set telling which steps did not complete. */
  ghost predicate Kept(s: State, maxJobs: Option<int>) {
    && (maxJobs.Some? && s.count > 0 ==> s.count <= maxJobs.value)
    && (forall id :: id in s.aborted <==> HasOpenEntry(s.submitted, id))
    && |s.submitted| <= 2 * s.count
  }

  lemma NextKeeps(s: State, t: Turn, maxJobs: Option<int>)
    requires Kept(s, maxJobs) && Continues(s, maxJobs)
    ensures Kept(Next(s, t, maxJobs), maxJobs)
    ensures s.aborted <= Next(s, t, maxJobs).aborted && s.submitted <= Next(s, t, maxJobs).submitted
  {
    hide HasOpenEntry, Blocked;
    var r, n, after := s.recs[0], s.count + 1, Next(s, t, maxJobs);
    var more := if Blocked(r, s.aborted) then [Entry(n, r.id, None, "skipped_dep_aborted")]
        else Entries(n, r.id, t.outcome);
    assert after.submitted == s.submitted + more;
    forall id ensures id in after.aborted <==> HasOpenEntry(after.submitted, id) {
      OpenEntryAppend(s.submitted, more, id);
      if Blocked(r, s.aborted) {
        SkippedEntry(n, r.id, id);
      } else {
        OutcomeEntries(n, r, t.outcome, id);
      }
    }
  }

  lemma SkippedEntry(n: nat, own: string, id: string)
    ensures HasOpenEntry([Entry(n, own, None, "skipped_dep_aborted")], id) <==> id == own
  {
    StatusesDiffer("");
    assert [Entry(n, own, None, "skipped_dep_aborted")][0].status != "completed";
  }

  /** Whatever the planner answers: the cap holds, and aborted ids are exactly those with an entry not completed. */
  lemma {:induction false} RunKeeps(plan: seq<Rec>, ts: seq<Turn>, maxJobs: Option<int>)
    ensures Kept(Run(plan, ts, maxJobs), maxJobs)
  {
    if ts != [] {
      RunKeeps(plan, ts[..|ts| - 1], maxJobs);
      var s := Run(plan, ts[..|ts| - 1], maxJobs);
      if Continues(s, maxJobs) {
        NextKeeps(s, ts[|ts| - 1], maxJobs);
      }
    }
  }

  /** Every turn taken counts one job, so a run with a cap takes at most that many turns. */
  lemma {:induction false} CountIsTurns(plan: seq<Rec>, ts: seq<Turn>, maxJobs: Option<int>)
    requires ts != [] && Continues(Run(plan, ts[..|ts| - 1], maxJobs), maxJobs)
    ensures Run(plan, ts, maxJobs).count == |ts|
    ensures maxJobs.Some? ==> |ts| <= maxJobs.value
    decreases |ts|
  {
    var front := ts[..|ts| - 1];
    if front != [] {
      CountIsTurns(plan, front, maxJobs);
    }
  }

  /** The step a turn works on. */
  function Head(plan: seq<Rec>, ts: seq<Turn>, k: nat, maxJobs: Option<int>): Rec
    requires k < |ts| && Run(plan, ts[..k], maxJobs).recs != []
  {
    Run(plan, ts[..k], maxJobs).recs[0]
  }

  ghost predicate Takes(plan: seq<Rec>, ts: seq<Turn>, k: nat, maxJobs: Option<int>) {
    k < |ts| && Continues(Run(plan, ts[..k], maxJobs), maxJobs)
  }

  /** A step is handed to the queue exactly if none of its dependencies has an entry that did not complete. */
  lemma EnqueuedExactly(plan: seq<Rec>, ts: seq<Turn>, k: nat, maxJobs: Option<int>)
    requires Takes(plan, ts, k, maxJobs)
    ensures var s, r := Run(plan, ts[..k], maxJobs), Head(plan, ts, k, maxJobs);
      Blocked(r, s.aborted) <==> exists d :: d in r.dependsOn && HasOpenEntry(s.submitted, d)
    ensures var s, r := Run(plan, ts[..k], maxJobs), Head(plan, ts, k, maxJobs);
      Run(plan, ts[..k + 1], maxJobs).submitted == s.submitted
        + if Blocked(r, s.aborted) then [Entry(k + 1, r.id, None, "skipped_dep_aborted")]
          else match ts[k].outcome
            case Ended(job, status) => [Entry(k + 1, r.id, Some(job), status)]
            case AddThrew(m) => [Entry(k + 1, r.id, None, ErrorStatus(m))]
            case WaitThrew(job, m) =>
              [Entry(k + 1, r.id, Some(job), "submitted"), Entry(k + 1, r.id, None, ErrorStatus(m))]
  {
    hide HasOpenEntry, ErrorStatus;
    RunKeeps(plan, ts[..k], maxJobs);
    assert ts[..k + 1][..k] == ts[..k];
    CountIsTurns(plan, ts[..k + 1], maxJobs);
    var s, r := Run(plan, ts[..k], maxJobs), Head(plan, ts, k, maxJobs);
    assert Run(plan, ts[..k + 1], maxJobs) == Next(s, ts[k], maxJobs);
  }

  /** An error is recorded with the first hundred characters of its message. */
  lemma ErrorStatusExactly(m: string)
    ensures var s := ErrorStatus(m);
      && |s| == 7 + (if |m| <= 100 then |m| else 100)
      && s[..7] == "error: " && s[7..] <= m
  {
    var s := ErrorStatus(m);
    assert "error: "[..7] == s[..7];
    assert s[7..] == if |m| > 100 then m[..100] else m;
  }

  /** Turn k takes place and hands its step to the queue. */
  ghost predicate Handed(plan: seq<Rec>, ts: seq<Turn>, k: nat, maxJobs: Option<int>) {
    Takes(plan, ts, k, maxJobs) && !Blocked(Head(plan, ts, k, maxJobs), Run(plan, ts[..k], maxJobs).aborted)
  }

  /** The last turn before k that did. */
  ghost function LastHanded(plan: seq<Rec>, ts: seq<Turn>, k: nat, maxJobs: Option<int>): (j: Option<nat>)
    ensures j.Some? ==> j.value < k && Handed(plan, ts, j.value, maxJobs)
    ensures forall i: nat :: (j.Some? ==> j.value < i) && i < k ==> !Handed(plan, ts, i, maxJobs)
  {
    if k == 0 then None
    else if Handed(plan, ts, k - 1, maxJobs) then Some(k - 1)
    else LastHanded(plan, ts, k - 1, maxJobs)
  }

  /** How many steps are left, turn k's included, of the list that is worked on then: the first plan, or the one
      computed after the last step that was handed to the queue. */
  ghost function Left(plan: seq<Rec>, ts: seq<Turn>, k: nat, maxJobs: Option<int>): int {
    match LastHanded(plan, ts, k, maxJobs)
    case None => |plan| - k
    case Some(j) => |ts[j].replan| - (k - j - 1)
  }

  ghost predicate CapReached(k: nat, maxJobs: Option<int>) {
    maxJobs.Some? && k >= maxJobs.value
  }

  /** What is left to do before turn k, given the last turn that was handed to the queue. */
  ghost predicate ListIs(plan: seq<Rec>, ts: seq<Turn>, k: nat, maxJobs: Option<int>, recs: seq<Rec>)
    requires k <= |ts|
  {
    match LastHanded(plan, ts, k, maxJobs)
    case None => k <= |plan| && recs == plan[k..]
    case Some(j) =>
      && Left(plan, ts, j, maxJobs) >= 1
      && (Left(plan, ts, j, maxJobs) == 1 ==> recs == [])
      && (Left(plan, ts, j, maxJobs) > 1 && !CapReached(j + 1, maxJobs) ==>
            k - j - 1 <= |ts[j].replan| && recs == ts[j].replan[k - j - 1..])
  }

  lemma ListSize(plan: seq<Rec>, ts: seq<Turn>, k: nat, maxJobs: Option<int>, recs: seq<Rec>)
    requires k <= |ts| && ListIs(plan, ts, k, maxJobs, recs) && recs != [] && !CapReached(k, maxJobs)
    ensures |recs| == Left(plan, ts, k, maxJobs)
    ensures var j := LastHanded(plan, ts, k, maxJobs);
      j.Some? ==> Left(plan, ts, j.value, maxJobs) > 1 && !CapReached(j.value + 1, maxJobs)
  {
    hide Handed;
  }

  lemma LastHandedNext(plan: seq<Rec>, ts: seq<Turn>, n: nat, maxJobs: Option<int>)
    ensures LastHanded(plan, ts, n + 1, maxJobs)
         == if Handed(plan, ts, n, maxJobs) then Some(n) else LastHanded(plan, ts, n, maxJobs)
  {
  }

  /** A turn that is handed over replaces the list, unless that was its end. */
  lemma ListReplaced(plan: seq<Rec>, ts: seq<Turn>, n: nat, maxJobs: Option<int>, recs: seq<Rec>, more: seq<Rec>)
    requires n < |ts| && recs != [] && |recs| == Left(plan, ts, n, maxJobs)
    requires LastHanded(plan, ts, n + 1, maxJobs) == Some(n)
    requires more == if |recs| > 1 && !CapReached(n + 1, maxJobs) then ts[n].replan else recs[1..]
    ensures ListIs(plan, ts, n + 1, maxJobs, more)
  {
    hide Handed, LastHanded, Left;
    assert ts[n].replan[0..] == ts[n].replan;
  }

  /** A skipped turn takes one step off the list. */
  lemma ListShortened(plan: seq<Rec>, ts: seq<Turn>, n: nat, maxJobs: Option<int>, recs: seq<Rec>)
    requires n < |ts| && ListIs(plan, ts, n, maxJobs, recs) && recs != [] && !CapReached(n, maxJobs)
    requires LastHanded(plan, ts, n + 1, maxJobs) == LastHanded(plan, ts, n, maxJobs)
    ensures ListIs(plan, ts, n + 1, maxJobs, recs[1..])
  {
    ListSize(plan, ts, n, maxJobs, recs);
    hide Handed, LastHanded, Left;
    match LastHanded(plan, ts, n, maxJobs) {
      case None =>
        assert plan[n..][1..] == plan[n + 1..];
      case Some(i) =>
        var k := n - i - 1;
        assert ts[i].replan[k..][1..] == ts[i].replan[k + 1..];
    }
  }

  lemma ListStep(plan: seq<Rec>, ts: seq<Turn>, n: nat, maxJobs: Option<int>, recs: seq<Rec>, more: seq<Rec>)
    requires n < |ts| && ListIs(plan, ts, n, maxJobs, recs) && recs != [] && !CapReached(n, maxJobs)
    requires more == if Handed(plan, ts, n, maxJobs) && |recs| > 1 && !CapReached(n + 1, maxJobs)
                     then ts[n].replan else recs[1..]
    ensures ListIs(plan, ts, n + 1, maxJobs, more)
  {
    hide Handed, LastHanded, Left, ListIs;
    ListSize(plan, ts, n, maxJobs, recs);
    LastHandedNext(plan, ts, n, maxJobs);
    if Handed(plan, ts, n, maxJobs) {
      ListReplaced(plan, ts, n, maxJobs, recs, more);
    } else {
      ListShortened(plan, ts, n, maxJobs, recs);
    }
  }

  lemma {:induction false} ListAt(plan: seq<Rec>, ts: seq<Turn>, k: nat, maxJobs: Option<int>)
    requires k <= |ts| && (k > 0 ==> Takes(plan, ts, k - 1, maxJobs))
    ensures Run(plan, ts[..k], maxJobs).count == k
    ensures ListIs(plan, ts, k, maxJobs, Run(plan, ts[..k], maxJobs).recs)
  {
    hide Blocked, Entries, Completed, LastHanded, ListIs;
    if k == 0 {
      assert ts[..0] == [] && plan[0..] == plan;
      NothingHanded(plan, ts, maxJobs);
    } else {
      var n := k - 1;
      assert ts[..k][..n] == ts[..n];
      TakenBefore(plan, ts, n, maxJobs);
      ListAt(plan, ts, n, maxJobs);
      var s := Run(plan, ts[..n], maxJobs);
      assert Run(plan, ts[..k], maxJobs) == Next(s, ts[n], maxJobs);
      ListStep(plan, ts, n, maxJobs, s.recs, Next(s, ts[n], maxJobs).recs);
    }
  }

  lemma NothingHanded(plan: seq<Rec>, ts: seq<Turn>, maxJobs: Option<int>)
    ensures ListIs(plan, ts, 0, maxJobs, plan)
  {
    assert plan[0..] == plan;
  }

  /** A turn takes place only if the one before did. */
  lemma TakenBefore(plan: seq<Rec>, ts: seq<Turn>, k: nat, maxJobs: Option<int>)
    requires Takes(plan, ts, k, maxJobs)
    ensures k > 0 ==> Takes(plan, ts, k - 1, maxJobs)
  {
    if k > 0 {
      assert ts[..k][..k - 1] == ts[..k - 1];
    }
  }

  lemma HeadIs(plan: seq<Rec>, ts: seq<Turn>, k: nat, maxJobs: Option<int>)
    requires Takes(plan, ts, k, maxJobs)
    ensures match LastHanded(plan, ts, k, maxJobs)
      case None => k < |plan| && Head(plan, ts, k, maxJobs) == plan[k]
      case Some(j) => k - j - 1 < |ts[j].replan| && Head(plan, ts, k, maxJobs) == ts[j].replan[k - j - 1]
  {
    hide Handed, LastHanded, Next, Run;
    TakenBefore(plan, ts, k, maxJobs);
    ListAt(plan, ts, k, maxJobs);
  }

  /**
   The step of a turn: the next one of the first plan as long as every step so far was skipped, and otherwise
   the next one of the plan computed after the last step that was handed to the queue.
   */
  lemma WorksOnFreshPlan(plan: seq<Rec>, ts: seq<Turn>, k: nat, maxJobs: Option<int>, last: Option<nat>)
    requires Takes(plan, ts, k, maxJobs)
    requires last.Some? ==> last.value < k && Handed(plan, ts, last.value, maxJobs)
    requires forall i: nat :: (last.Some? ==> last.value < i) && i < k ==> !Handed(plan, ts, i, maxJobs)
    ensures match last
      case None => k < |plan| && Head(plan, ts, k, maxJobs) == plan[k]
      case Some(j) => k - j - 1 < |ts[j].replan| && Head(plan, ts, k, maxJobs) == ts[j].replan[k - j - 1]
  {
    HeadIs(plan, ts, k, maxJobs);
    hide Handed, LastHanded, Takes, Head;
    var found := LastHanded(plan, ts, k, maxJobs);
    assert found.Some? && last.Some? ==> !(found.value < last.value) && !(last.value < found.value);
    assert found == last;
  }

  /**
   When the run ends: the cap is reached, the list worked on is used up, or the last step handed to the queue was
   the last of its own list, in which case no new plan is computed.
   */
  lemma EndsExactly(plan: seq<Rec>, ts: seq<Turn>, k: nat, maxJobs: Option<int>)
    requires k < |ts| && (k > 0 ==> Takes(plan, ts, k - 1, maxJobs))
    ensures Takes(plan, ts, k, maxJobs) <==>
      && (maxJobs.Some? ==> k < maxJobs.value)
      && (match LastHanded(plan, ts, k, maxJobs)
          case None => k < |plan|
          case Some(j) => k - j - 1 < |ts[j].replan| && Left(plan, ts, j, maxJobs) > 1)
  {
    hide Handed, Next, Run;
    ListAt(plan, ts, k, maxJobs);
  }

  lemma {:induction false} AbortedStays(plan: seq<Rec>, ts: seq<Turn>, k: nat, maxJobs: Option<int>)
    requires k <= |ts|
    ensures Run(plan, ts[..k], maxJobs).aborted <= Run(plan, ts, maxJobs).aborted
  {
    if k == |ts| {
      assert ts[..k] == ts;
    } else {
      var front := ts[..|ts| - 1];
      assert front[..k] == ts[..k];
      AbortedStays(plan, front, k, maxJobs);
      RunKeeps(plan, front, maxJobs);
      var s := Run(plan, front, maxJobs);
      if Continues(s, maxJobs) {
        NextKeeps(s, ts[|ts| - 1], maxJobs);
      }
    }
  }

  /** Turn indices whose steps each depend on the one before. */
  ghost predicate Chain(plan: seq<Rec>, ts: seq<Turn>, ks: seq<nat>, maxJobs: Option<int>) {
    && (forall i :: 0 <= i < |ks| ==> Takes(plan, ts, ks[i], maxJobs))
    && (forall i :: 0 < i < |ks| ==>
      ks[i - 1] < ks[i] && Head(plan, ts, ks[i - 1], maxJobs).id in Head(plan, ts, ks[i], maxJobs).dependsOn)
  }

  /** A step taken after one of its dependencies was aborted is skipped and aborted too. */
  lemma CascadeStep(plan: seq<Rec>, ts: seq<Turn>, j: nat, k: nat, maxJobs: Option<int>, id: string)
    requires Takes(plan, ts, k, maxJobs) && j < k && id in Run(plan, ts[..j + 1], maxJobs).aborted
    requires id in Head(plan, ts, k, maxJobs).dependsOn
    ensures Blocked(Head(plan, ts, k, maxJobs), Run(plan, ts[..k], maxJobs).aborted)
    ensures Head(plan, ts, k, maxJobs).id in Run(plan, ts[..k + 1], maxJobs).aborted
  {
    hide Entries, Completed;
    assert ts[..k][..j + 1] == ts[..j + 1] && ts[..k + 1][..k] == ts[..k];
    AbortedStays(plan, ts[..k], j + 1, maxJobs);
    var s := Run(plan, ts[..k], maxJobs);
    assert id in s.aborted;
    assert Run(plan, ts[..k + 1], maxJobs) == Next(s, ts[k], maxJobs);
  }

  /**
   Failure propagates along any chain of processed dependents: if the first does not complete, each later
   one is skipped and becomes aborted itself, whatever plans are computed in between.
   */
  lemma {:induction false} FailureCascades(plan: seq<Rec>, ts: seq<Turn>, ks: seq<nat>, maxJobs: Option<int>)
    requires |ks| >= 1 && Chain(plan, ts, ks, maxJobs)
    requires Head(plan, ts, ks[0], maxJobs).id in Run(plan, ts[..ks[0] + 1], maxJobs).aborted
    ensures var k := ks[|ks| - 1];
      && Head(plan, ts, k, maxJobs).id in Run(plan, ts[..k + 1], maxJobs).aborted
      && (|ks| > 1 ==> Blocked(Head(plan, ts, k, maxJobs), Run(plan, ts[..k], maxJobs).aborted))
  {
    hide Run, Blocked, Head;
    if |ks| > 1 {
      var n := |ks| - 1;
      FailureCascades(plan, ts, ks[..n], maxJobs);
      CascadeStep(plan, ts, ks[n - 1], ks[n], maxJobs, Head(plan, ts, ks[n - 1], maxJobs).id);
    }
  }

  /** The exit code: the run reports failure exactly if some step did not complete. */
  lemma FailureIsReported(plan: seq<Rec>, ts: seq<Turn>, maxJobs: Option<int>)
    requires forall t :: t in ts && t.outcome.Ended? ==> t.outcome.status != "submitted"
    ensures var s := Run(plan, ts, maxJobs);
      (exists k :: 0 <= k < |s.submitted| && s.submitted[k].status != "completed"
          && s.submitted[k].status != "submitted")
        <==> s.aborted != {}
  {
    RunKeeps(plan, ts, maxJobs);
    var s := Run(plan, ts, maxJobs);
    if s.aborted != {} {
      var id :| id in s.aborted;
      AbortedHasFinalEntry(plan, ts, maxJobs, id);
    }
    if k :| 0 <= k < |s.submitted| && s.submitted[k].status != "completed" && s.submitted[k].status != "submitted" {
      assert HasOpenEntry(s.submitted, s.submitted[k].id);
    }
  }

  lemma {:induction false} AbortedHasFinalEntry(plan: seq<Rec>, ts: seq<Turn>, maxJobs: Option<int>, id: string)
    requires forall t :: t in ts && t.outcome.Ended? ==> t.outcome.status != "submitted"
    requires id in Run(plan, ts, maxJobs).aborted
    ensures var es := Run(plan, ts, maxJobs).submitted;
      exists k :: 0 <= k < |es| && es[k].id == id && es[k].status != "completed" && es[k].status != "submitted"
  {
    var front, t := ts[..|ts| - 1], ts[|ts| - 1];
    var s, after := Run(plan, front, maxJobs), Run(plan, ts, maxJobs);
    if id in s.aborted {
      AbortedHasFinalEntry(plan, front, maxJobs, id);
      var k :| 0 <= k < |s.submitted| && s.submitted[k].id == id && s.submitted[k].status != "completed"
          && s.submitted[k].status != "submitted";
      assert s.submitted <= after.submitted;
      assert after.submitted[k] == s.submitted[k];
    } else {
      FinalEntry(s, t, maxJobs);
      assert t in ts;
    }
  }

  lemma FinalEntry(s: State, t: Turn, maxJobs: Option<int>)
    requires s.recs != [] && (t.outcome.Ended? ==> t.outcome.status != "submitted")
    ensures var after := Next(s, t, maxJobs);
      s.recs[0].id in after.aborted && s.recs[0].id !in s.aborted ==>
        var e := after.submitted[|after.submitted| - 1];
        e.id == s.recs[0].id && e.status != "completed" && e.status != "submitted"
  {
    var m := if t.outcome.Ended? then "" else t.outcome.message;
    StatusesDiffer(m);
    assert ErrorStatus(m)[0] == 'e' && "skipped_dep_aborted"[1] == 'k' && "submitted"[1] == 'u'
           && "submitted"[0] == 's';
  }
}
