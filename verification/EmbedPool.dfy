/**
 The worker pool over one batch: each worker embeds a group, re-reads its page, merges and writes,
 and gives up control at every await.  Every await may fail and the budget may abort at any point.
 */
module EmbedPool {
  import opened Collections
  import opened ChunkStore
  import opened EmbedMerge
  import WorkerPool

  datatype Job = Job(pages: Pages, groups: seq<seq<StaleRow>>, embed: string -> Vector)

  /** Where a worker is between two awaits. */
  datatype Worker =
    | Idle
    | Embedding(key: nat)
    | Fetching(key: nat, vectors: map<nat, Vector>)
    | Storing(key: nat, inputs: map<nat, ChunkInput>)
    | Stopped

  /** Embedded and stored; failed and reported; or cut short by the budget. */
  datatype Fate = Won | Lost | Dropped

  /** `fate` records how each finished key ended; the code keeps only the two counters. */
  datatype Pool = Pool(
    rows: Rows, next: nat, workers: seq<Worker>, aborted: bool, embedded: nat, processed: nat, fate: map<nat, Fate>)

  /** One await resolves (`ok`) or throws in one worker, or the budget timer fires. */
  datatype Event = Advance(worker: nat, ok: bool) | Abort

  function Launch(rows: Rows, keys: nat, width: int, embedded: nat, processed: nat): Pool {
    Pool(rows, 0, seq(WorkerPool.NumWorkers(width, keys), _ => Idle), false, embedded, processed, map[])
  }

  /** The catch block: silent once the budget has fired, otherwise the page counts as processed. */
  function Fail(p: Pool, w: nat, key: nat): Pool
    requires w < |p.workers|
  {
    if p.aborted then p.(workers := p.workers[w := Idle], fate := p.fate[key := Dropped])
    else p.(workers := p.workers[w := Idle], fate := p.fate[key := Lost], processed := p.processed + 1)
  }

  /** getChunks, then the synchronous merge. */
  function Fetch(job: Job, p: Pool, w: nat, key: nat, vectors: map<nat, Vector>): Pool
    requires UniqueRefs(job.pages) && w < |p.workers| && key < |job.groups| && job.groups[key] != []
  {
    var page := FindPage(job.pages, job.groups[key][0].ref);
    var existing := if page.Some? then PageChunks(p.rows, page.value) else map[];
    p.(workers := p.workers[w := Storing(key, Merge(existing, vectors))])
  }

  /** upsertChunks, then the counters. */
  function Commit(job: Job, p: Pool, w: nat, key: nat, inputs: map<nat, ChunkInput>): Pool
    requires UniqueRefs(job.pages) && w < |p.workers| && key < |job.groups| && job.groups[key] != []
  {
    var page := FindPage(job.pages, job.groups[key][0].ref);
    if page.None? then Fail(p, w, key)
    else p.(rows := Upsert(p.rows, page.value, inputs), workers := p.workers[w := Idle],
            embedded := p.embedded + |job.groups[key]|, processed := p.processed + 1,
            fate := p.fate[key := Won])
  }

  predicate InRange(job: Job, p: Pool) {
    forall w :: 0 <= w < |p.workers| && Slot(p.workers[w]).Busy? ==>
                  p.workers[w].key < |job.groups| && job.groups[p.workers[w].key] != []
  }

  function Step(job: Job, p: Pool, e: Event): Pool
    requires UniqueRefs(job.pages) && InRange(job, p)
  {
    match e
    case Abort => p.(aborted := true)
    case Advance(w, ok) =>
      if w >= |p.workers| then p
      else match p.workers[w]
        case Idle =>
          if p.next < |job.groups| && !p.aborted
          then p.(next := p.next + 1, workers := p.workers[w := Embedding(p.next)])
          else p.(workers := p.workers[w := Stopped])
        case Embedding(k) =>
          if ok then p.(workers := p.workers[w := Fetching(k, Vectors(job.embed, job.groups[k]))]) else Fail(p, w, k)
        case Fetching(k, vectors) =>
          if ok then Fetch(job, p, w, k, vectors) else Fail(p, w, k)
        case Storing(k, inputs) =>
          if ok then Commit(job, p, w, k, inputs) else Fail(p, w, k)
        case Stopped => p
  }

  /** What the claim protocol sees of the pool. */
  function Slot(w: Worker): WorkerPool.Slot {
    match w
    case Idle => WorkerPool.Free
    case Stopped => WorkerPool.Quit
    case Embedding(k) => WorkerPool.Busy(k)
    case Fetching(k, _) => WorkerPool.Busy(k)
    case Storing(k, _) => WorkerPool.Busy(k)
  }

  function Slots(workers: seq<Worker>): (slots: seq<WorkerPool.Slot>)
    ensures |slots| == |workers| && forall w :: 0 <= w < |workers| ==> slots[w] == Slot(workers[w])
  {
    seq(|workers|, w requires 0 <= w < |workers| => Slot(workers[w]))
  }

  function Claims(p: Pool): WorkerPool.Claims {
    WorkerPool.Claims(p.next, Slots(p.workers), p.fate.Keys)
  }

  /** What a worker carries is still what the page held when the batch was listed. */
  ghost predicate Carries(job: Job, rows: Rows, w: Worker) {
    match w
    case Idle => true
    case Stopped => true
    case Embedding(k) => k < |job.groups|
    case Fetching(k, vectors) => k < |job.groups| && vectors == Vectors(job.embed, job.groups[k])
    case Storing(k, inputs) =>
      k < |job.groups| && job.groups[k] != [] &&
      inputs == Merge(PageChunks(rows, job.groups[k][0].addr.page), Vectors(job.embed, job.groups[k]))
  }

  function With(fate: map<nat, Fate>, f: Fate): set<nat> {
    set k | k in fate && fate[k] == f
  }

  lemma WithAdded(fate: map<nat, Fate>, k: nat, f: Fate)
    requires k !in fate
    ensures With(fate[k := f], f) == With(fate, f) + {k} && |With(fate[k := f], f)| == |With(fate, f)| + 1
    ensures forall g :: g != f ==> With(fate[k := f], g) == With(fate, g)
  {
  }

  /** The table holds exactly the won groups' vectors, and the counters say so. */
  ghost predicate Accounted(job: Job, rows: Rows, p: Pool, embedded: nat, processed: nat) {
    && p.rows == After(job.embed, rows, AddrsOfAll(job.groups, With(p.fate, Won)))
    && p.embedded == embedded + |AddrsOfAll(job.groups, With(p.fate, Won))|
    && p.processed == processed + |With(p.fate, Won)| + |With(p.fate, Lost)|
    && (With(p.fate, Dropped) != {} ==> p.aborted)
  }

  ghost predicate Sound(job: Job, rows: Rows, p: Pool, embedded: nat, processed: nat) {
    && WorkerPool.Orderly(Claims(p), |job.groups|)
    && Accounted(job, rows, p, embedded, processed)
    && (forall w :: 0 <= w < |p.workers| ==> Carries(job, rows, p.workers[w]))
    && (forall w :: 0 <= w < |p.workers| && p.workers[w].Stopped? && !p.aborted ==> p.next == |job.groups|)
  }

  ghost predicate Setting(job: Job, rows: Rows) {
    ValidTables(job.pages, rows) && GoodGroups(job.pages, rows, job.groups)
  }

  lemma LaunchSound(job: Job, rows: Rows, width: int, embedded: nat, processed: nat)
    requires Setting(job, rows)
    ensures Sound(job, rows, Launch(rows, |job.groups|, width, embedded, processed), embedded, processed)
  {
    var p := Launch(rows, |job.groups|, width, embedded, processed);
    WorkerPool.LaunchOrderly(width, |job.groups|);
    assert Claims(p) == WorkerPool.Launch(width, |job.groups|);
    AfterNothing(job.embed, rows);
    assert AddrsOfAll(job.groups, {}) == {};
  }

  lemma FailView(p: Pool, w: nat, key: nat)
    requires w < |p.workers|
    ensures var q := Fail(p, w, key);
            q.workers == p.workers[w := Idle] && q.next == p.next
            && q.fate.Keys == p.fate.Keys + {key}
  {
  }

  lemma FetchView(job: Job, p: Pool, w: nat, key: nat, vectors: map<nat, Vector>)
    requires Fetch.requires(job, p, w, key, vectors)
    ensures var q := Fetch(job, p, w, key, vectors);
      |q.workers| == |p.workers| && q.workers == p.workers[w := q.workers[w]]
      && Slot(q.workers[w]) == WorkerPool.Busy(key) && q.next == p.next && q.fate == p.fate
  {
    hide UniqueRefs, Merge, PageChunks, FindPage;
  }

  lemma CommitView(job: Job, p: Pool, w: nat, key: nat, inputs: map<nat, ChunkInput>)
    requires Commit.requires(job, p, w, key, inputs)
    ensures var q := Commit(job, p, w, key, inputs);
      q.workers == p.workers[w := Idle] && q.next == p.next && q.fate.Keys == p.fate.Keys + {key}
  {
    hide UniqueRefs, Upsert, FindPage, Fail;
    FailView(p, w, key);
  }

  /** What one worker's step does to the claims: claim or leave when idle, keep or finish the key when busy. */
  lemma StepView(job: Job, p: Pool, w: nat, ok: bool)
    requires UniqueRefs(job.pages) && InRange(job, p) && w < |p.workers|
    ensures var q := Step(job, p, Advance(w, ok));
      && |q.workers| == |p.workers| && q.workers == p.workers[w := q.workers[w]]
      && match Slot(p.workers[w])
        case Free =>
          && q.fate.Keys == p.fate.Keys
          && (if p.next < |job.groups| && !p.aborted
              then q.next == p.next + 1 && Slot(q.workers[w]) == WorkerPool.Busy(p.next)
              else q.next == p.next && Slot(q.workers[w]) == WorkerPool.Quit)
        case Busy(k) =>
          && q.next == p.next
          && (if Slot(q.workers[w]).Busy? then q.fate.Keys == p.fate.Keys && Slot(q.workers[w]) == WorkerPool.Busy(k)
              else q.fate.Keys == p.fate.Keys + {k} && Slot(q.workers[w]) == WorkerPool.Free)
        case Quit => q == p
  {
    hide UniqueRefs, Vectors, Fail, Fetch, Commit;
    if Slot(p.workers[w]).Busy? {
      var k := p.workers[w].key;
      if !ok {
        FailView(p, w, k);
      } else if p.workers[w].Fetching? {
        FetchView(job, p, w, k, p.workers[w].vectors);
      } else if p.workers[w].Storing? {
        CommitView(job, p, w, k, p.workers[w].inputs);
      }
    }
  }

  /** Every step of the embedding pool is a turn of the claim protocol or leaves it alone. */
  lemma StepRefinesClaims(job: Job, p: Pool, e: Event)
    requires Step.requires(job, p, e)
    ensures Claims(Step(job, p, e)) == Claims(p) ||
            (e.Advance? && Claims(Step(job, p, e))
                == WorkerPool.Take(Claims(p), |job.groups|, WorkerPool.Turn(e.worker, p.aborted)))
  {
    hide UniqueRefs, InRange, Slots, Slot;
    if e.Advance? && e.worker < |p.workers| {
      hide Step;
      var w, workers := e.worker, Step(job, p, e).workers;
      StepView(job, p, w, e.ok);
      SlotsUpdate(p.workers, w, workers[w]);
    }
  }

  lemma SlotsUpdate(workers: seq<Worker>, w: nat, worker: Worker)
    requires w < |workers|
    ensures Slots(workers[w := worker]) == Slots(workers)[w := Slot(worker)]
    ensures Slot(worker) == Slot(workers[w]) ==> Slots(workers[w := worker]) == Slots(workers)
  {
  }

  /** The key a worker holds: in range, its group well formed, and not yet accounted for. */
  ghost predicate HoldsFresh(job: Job, rows: Rows, p: Pool, w: nat) {
    && w < |p.workers| && Slot(p.workers[w]).Busy?
    && var k := p.workers[w].key;
       && k < |job.groups| && WellGrouped(job.pages, rows, job.groups[k])
       && k !in p.fate
  }

  lemma BusyHoldsFresh(job: Job, rows: Rows, p: Pool, w: nat, embedded: nat, processed: nat)
    requires Setting(job, rows) && Sound(job, rows, p, embedded, processed)
    requires w < |p.workers| && Slot(p.workers[w]).Busy?
    ensures HoldsFresh(job, rows, p, w)
  {
  }

  lemma SoundInRange(job: Job, rows: Rows, p: Pool, embedded: nat, processed: nat)
    requires Setting(job, rows) && Sound(job, rows, p, embedded, processed)
    ensures InRange(job, p)
  {
  }

  lemma StepOrderly(job: Job, p: Pool, e: Event)
    requires UniqueRefs(job.pages) && InRange(job, p) && WorkerPool.Orderly(Claims(p), |job.groups|)
    ensures WorkerPool.Orderly(Claims(Step(job, p, e)), |job.groups|)
  {
    StepRefinesClaims(job, p, e);
    if Claims(Step(job, p, e)) != Claims(p) {
      WorkerPool.TakeOrderly(Claims(p), |job.groups|, WorkerPool.Turn(e.worker, p.aborted));
    }
  }

  lemma FailAccounted(job: Job, rows: Rows, p: Pool, w: nat, embedded: nat, processed: nat)
    requires Accounted(job, rows, p, embedded, processed) && HoldsFresh(job, rows, p, w)
    ensures Accounted(job, rows, Fail(p, w, p.workers[w].key), embedded, processed)
  {
    WithAdded(p.fate, p.workers[w].key, if p.aborted then Dropped else Lost);
  }

  /** The one step that writes: the group's rows are settled, and nothing read since has changed. */
  lemma CommitAccounted(job: Job, rows: Rows, p: Pool, w: nat, embedded: nat, processed: nat)
    requires UniqueRefs(job.pages) && GoodGroups(job.pages, rows, job.groups)
    requires Accounted(job, rows, p, embedded, processed) && HoldsFresh(job, rows, p, w)
    requires p.workers[w].Storing? && Carries(job, rows, p.workers[w])
    ensures var q := Commit(job, p, w, p.workers[w].key, p.workers[w].inputs);
            Accounted(job, rows, q, embedded, processed) && q.workers == p.workers[w := Idle]
  {
    var k := p.workers[w].key;
    var q, g := Commit(job, p, w, k, p.workers[w].inputs), job.groups[k];
    assert g[0] in g && FindPage(job.pages, g[0].ref) == Some(g[0].addr.page);
    WithAdded(p.fate, k, Won);
    AllApart(job.pages, rows, job.groups, With(p.fate, Won), k);
    WriteSettles(job.embed, job.pages, rows, AddrsOfAll(job.groups, With(p.fate, Won)), g);
    AllAdd(job.groups, With(p.fate, Won), k);
    AllCount(job.pages, rows, job.groups, With(p.fate, Won), k);
  }

  /** A page nobody has written yet reads back as it was when the batch was listed. */
  lemma FetchCarries(job: Job, rows: Rows, p: Pool, w: nat, embedded: nat, processed: nat)
    requires UniqueRefs(job.pages) && GoodGroups(job.pages, rows, job.groups)
    requires Accounted(job, rows, p, embedded, processed) && HoldsFresh(job, rows, p, w)
    requires p.workers[w].Fetching? && Carries(job, rows, p.workers[w])
    ensures Carries(job, rows, Fetch(job, p, w, p.workers[w].key, p.workers[w].vectors).workers[w])
  {
    var k := p.workers[w].key;
    var g := job.groups[k];
    var page := g[0].addr.page;
    assert g[0] in g && FindPage(job.pages, g[0].ref) == Some(page);
    AllApart(job.pages, rows, job.groups, With(p.fate, Won), k);
    AfterElsewhere(job.embed, rows, AddrsOfAll(job.groups, With(p.fate, Won)), page);
  }

  lemma AfterElsewhere(embed: string -> Vector, rows: Rows, won: set<Addr>, page: nat)
    requires !Touched(won, page)
    ensures PageChunks(After(embed, rows, won), page) == PageChunks(rows, page)
  {
  }

  lemma StepCarries(job: Job, rows: Rows, p: Pool, e: Event, embedded: nat, processed: nat)
    requires UniqueRefs(job.pages) && GoodGroups(job.pages, rows, job.groups) && InRange(job, p)
    requires Accounted(job, rows, p, embedded, processed)
    requires forall w :: 0 <= w < |p.workers| ==> Carries(job, rows, p.workers[w])
    requires e.Advance? && e.worker < |p.workers| && Slot(p.workers[e.worker]).Busy?
             ==> HoldsFresh(job, rows, p, e.worker)
    ensures |Step(job, p, e).workers| == |p.workers|
    ensures forall w :: 0 <= w < |p.workers| ==> Carries(job, rows, Step(job, p, e).workers[w])
  {
    hide Accounted, GoodGroups, UniqueRefs, Vectors, Merge, PageChunks;
    if e.Advance? && e.worker < |p.workers| {
      var workers := Step(job, p, e).workers;
      assert workers == p.workers[e.worker := workers[e.worker]];
      if p.workers[e.worker].Fetching? {
        FetchCarries(job, rows, p, e.worker, embedded, processed);
      }
      assert Carries(job, rows, workers[e.worker]);
    }
  }

  /** A step that neither writes nor finishes a key leaves the account alone. */
  lemma AccountFrame(job: Job, rows: Rows, p: Pool, q: Pool, embedded: nat, processed: nat)
    requires Accounted(job, rows, p, embedded, processed)
    requires q.rows == p.rows && q.embedded == p.embedded && q.processed == p.processed && q.fate == p.fate
    requires p.aborted ==> q.aborted
    ensures Accounted(job, rows, q, embedded, processed)
  {
  }

  lemma StepAccounted(job: Job, rows: Rows, p: Pool, e: Event, embedded: nat, processed: nat)
    requires UniqueRefs(job.pages) && GoodGroups(job.pages, rows, job.groups) && InRange(job, p)
    requires Accounted(job, rows, p, embedded, processed)
    requires forall w :: 0 <= w < |p.workers| ==> Carries(job, rows, p.workers[w])
    requires e.Advance? && e.worker < |p.workers| && Slot(p.workers[e.worker]).Busy?
             ==> HoldsFresh(job, rows, p, e.worker)
    ensures Accounted(job, rows, Step(job, p, e), embedded, processed)
  {
    hide Accounted, UniqueRefs, GoodGroups, Carries, HoldsFresh, Fail, Commit, Vectors, Merge, PageChunks;
    if e.Advance? && e.worker < |p.workers| && Slot(p.workers[e.worker]).Busy? && !e.ok {
      FailAccounted(job, rows, p, e.worker, embedded, processed);
    } else if e.Advance? && e.worker < |p.workers| && p.workers[e.worker].Storing? {
      CommitAccounted(job, rows, p, e.worker, embedded, processed);
    } else {
      AccountFrame(job, rows, p, Step(job, p, e), embedded, processed);
    }
  }

  lemma StepLeavesLate(job: Job, p: Pool, e: Event)
    requires UniqueRefs(job.pages) && InRange(job, p) && p.next <= |job.groups|
    requires forall w :: 0 <= w < |p.workers| && p.workers[w].Stopped? && !p.aborted ==> p.next == |job.groups|
    ensures var q := Step(job, p, e);
            forall w :: 0 <= w < |q.workers| && q.workers[w].Stopped? && !q.aborted ==> q.next == |job.groups|
  {
  }

  /** Whatever the other workers do in between, every step keeps the whole account. */
  lemma StepSound(job: Job, rows: Rows, p: Pool, e: Event, embedded: nat, processed: nat)
    requires Setting(job, rows) && Sound(job, rows, p, embedded, processed)
    ensures InRange(job, p) && Sound(job, rows, Step(job, p, e), embedded, processed)
    ensures p.next <= |job.groups| && |Step(job, p, e).workers| == |p.workers|
  {
    SoundInRange(job, rows, p, embedded, processed);
    if e.Advance? && e.worker < |p.workers| && Slot(p.workers[e.worker]).Busy? {
      BusyHoldsFresh(job, rows, p, e.worker, embedded, processed);
    }
    StepOrderly(job, p, e);
    StepLeavesLate(job, p, e);
    StepCarries(job, rows, p, e, embedded, processed);
    StepAccounted(job, rows, p, e, embedded, processed);
  }

  /**
   A failed await changes no row. It counts the page as processed unless the budget fired before, and frees
   the worker either way.
   */
  lemma FailureCounts(job: Job, p: Pool, w: nat)
    requires UniqueRefs(job.pages) && InRange(job, p) && w < |p.workers|
    requires p.workers[w].Embedding? || p.workers[w].Fetching? || p.workers[w].Storing?
    ensures var q := Step(job, p, Advance(w, false));
      && q.rows == p.rows && q.embedded == p.embedded && q.next == p.next && q.aborted == p.aborted
      && q.processed == p.processed + (if p.aborted then 0 else 1)
      && q.workers == p.workers[w := Idle]
  {
  }

  /** Once the budget has fired nobody claims another group: an idle worker leaves. */
  lemma AbortEndsClaims(job: Job, p: Pool, e: Event)
    requires UniqueRefs(job.pages) && InRange(job, p) && p.aborted
    ensures var q := Step(job, p, e);
      && q.aborted && q.next == p.next
      && (e.Advance? && e.worker < |p.workers| && p.workers[e.worker].Idle? ==> q.workers[e.worker].Stopped?)
  {
    hide UniqueRefs, Vectors, Merge, PageChunks, Upsert, FindPage;
  }

  /** Without an abort an idle worker claims the next group, in order, while there is one. */
  lemma IdleClaims(job: Job, p: Pool, w: nat, ok: bool)
    requires UniqueRefs(job.pages) && InRange(job, p) && !p.aborted
    requires w < |p.workers| && p.workers[w].Idle? && p.next < |job.groups|
    ensures var q := Step(job, p, Advance(w, ok));
      q.next == p.next + 1 && q.workers[w] == Embedding(p.next)
  {
  }

  // ----- one batch -----

  function Cost(w: Worker): nat {
    match w
    case Stopped => 0
    case Idle => 1
    case Storing(_, _) => 2
    case Fetching(_, _) => 3
    case Embedding(_) => 4
  }

  function Costs(workers: seq<Worker>): nat {
    if workers == [] then 0 else Cost(workers[0]) + Costs(workers[1..])
  }

  lemma {:induction false} CostsUpdate(workers: seq<Worker>, w: nat, worker: Worker)
    requires w < |workers|
    ensures Costs(workers[w := worker]) == Costs(workers) - Cost(workers[w]) + Cost(worker)
  {
    if w == 0 {
      assert workers[w := worker][1..] == workers[1..];
    } else {
      assert workers[w := worker][1..] == workers[1..][w - 1 := worker];
      CostsUpdate(workers[1..], w - 1, worker);
    }
  }

  function Remaining(job: Job, p: Pool): int {
    4 * (|job.groups| - p.next) + Costs(p.workers) + (if p.aborted then 0 else 1)
  }

  /** A running worker moves on, at most claiming one more group for its four stations. */
  lemma StepMoves(job: Job, p: Pool, w: nat, ok: bool)
    requires UniqueRefs(job.pages) && InRange(job, p) && p.next <= |job.groups|
    requires w < |p.workers| && !p.workers[w].Stopped?
    ensures var q := Step(job, p, Advance(w, ok));
      && |q.workers| == |p.workers| && q.workers == p.workers[w := q.workers[w]]
      && q.aborted == p.aborted && p.next <= q.next <= |job.groups|
      && Cost(q.workers[w]) < Cost(p.workers[w]) + 4 * (q.next - p.next)
  {
    hide UniqueRefs, Vectors, Merge, PageChunks, Upsert, FindPage;
  }

  lemma StepProgresses(job: Job, p: Pool, e: Event)
    requires UniqueRefs(job.pages) && InRange(job, p) && p.next <= |job.groups|
    requires if e.Abort? then !p.aborted else e.worker < |p.workers| && !p.workers[e.worker].Stopped?
    ensures 0 <= Remaining(job, Step(job, p, e)) < Remaining(job, p)
  {
    hide UniqueRefs, InRange, Cost, Costs;
    if e.Advance? {
      hide Step;
      var q := Step(job, p, e);
      StepMoves(job, p, e.worker, e.ok);
      CostsUpdate(p.workers, e.worker, q.workers[e.worker]);
    }
  }

  predicate AllStopped(p: Pool) {
    forall w :: 0 <= w < |p.workers| ==> p.workers[w].Stopped?
  }

  /** The scheduler and the outside world choose: any running worker, any outcome of its await, or the timer. */
  method Choose(p: Pool) returns (e: Event)
    requires !AllStopped(p)
    ensures if e.Abort? then !p.aborted else e.worker < |p.workers| && !p.workers[e.worker].Stopped?
  {
    var w :| 0 <= w < |p.workers| && !p.workers[w].Stopped?;
    var ok, fires: bool := *, *;
    e := if fires && !p.aborted then Abort else Advance(w, ok);
  }

  /** Promise.all over the workers, under any interleaving and with any await failing. */
  method RunPool(job: Job, rows: Rows, width: int, embedded: nat, processed: nat) returns (p: Pool)
    requires Setting(job, rows)
    ensures Sound(job, rows, p, embedded, processed)
    ensures AllStopped(p) && |p.workers| == WorkerPool.NumWorkers(width, |job.groups|)
    ensures width <= 0 ==> p.fate == map[]
  {
    hide Sound;
    p := Launch(rows, |job.groups|, width, embedded, processed);
    LaunchSound(job, rows, width, embedded, processed);
    while !AllStopped(p)
      invariant Sound(job, rows, p, embedded, processed)
      invariant |p.workers| == WorkerPool.NumWorkers(width, |job.groups|)
      invariant width <= 0 ==> p.fate == map[]
      decreases Remaining(job, p)
    {
      var e := Choose(p);
      StepSound(job, rows, p, e, embedded, processed);
      StepProgresses(job, p, e);
      p := Step(job, p, e);
    }
  }

  lemma AccountSays(job: Job, rows: Rows, p: Pool, embedded: nat, processed: nat)
    requires Accounted(job, rows, p, embedded, processed)
    ensures p.embedded == embedded + |AddrsOfAll(job.groups, With(p.fate, Won))|
    ensures p.processed == processed + |With(p.fate, Won)| + |With(p.fate, Lost)|
    ensures With(p.fate, Dropped) != {} ==> p.aborted
  {
  }

  /** Once everybody has stopped without an abort, each key was won or lost; with no workers, none was. */
  lemma PoolFinished(job: Job, rows: Rows, p: Pool, width: int, embedded: nat, processed: nat)
    requires Sound(job, rows, p, embedded, processed) && AllStopped(p)
    requires |p.workers| == WorkerPool.NumWorkers(width, |job.groups|)
    ensures forall k :: k in p.fate ==> k < |job.groups|
    ensures p.embedded == embedded + |AddrsOfAll(job.groups, With(p.fate, Won))|
    ensures p.processed == processed + |With(p.fate, Won)| + |With(p.fate, Lost)|
    ensures !p.aborted && width >= 1 ==>
              forall k :: 0 <= k < |job.groups| ==> k in With(p.fate, Won) + With(p.fate, Lost)
  {
    hide Accounted, Carries, AddrsOfAll;
    var c := Claims(p);
    assert forall k :: k in p.fate ==> k in c.finished;
    AccountSays(job, rows, p, embedded, processed);
    if !p.aborted && width >= 1 {
      assert c.next == |job.groups| by {
        if |job.groups| > 0 {
          assert p.workers[0].Stopped?;
        }
      }
      forall k | 0 <= k < |job.groups| ensures k in With(p.fate, Won) + With(p.fate, Lost) {
        assert k in c.finished || WorkerPool.Held(c.slots, k);
        assert k !in With(p.fate, Dropped);
      }
    }
  }
}
