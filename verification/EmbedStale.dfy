/**
 `gbrain embed --stale`: page through the chunks whose embedding is NULL and hand each batch to the
 pool, while the listing being paged over shrinks underneath.
 */
module EmbedStale {
  import opened Collections
  import opened ChunkStore
  import opened EmbedMerge
  import opened EmbedPool
  import WorkerPool

  const PAGE_SIZE := 2000

  function CursorAt(s: seq<Addr>, k: nat): Cursor
    requires k <= |s|
  {
    if k == 0 then START else Cursor(s[k - 1].page, s[k - 1].index)
  }

  /** Settling chunks removes exactly those chunks from the stale listing. */
  lemma StaleAfter(embed: string -> Vector, pages: Pages, rows: Rows, source: Option<string>, won: set<Addr>)
    ensures StaleAddrs(pages, After(embed, rows, won), source) == StaleAddrs(pages, rows, source) - won
  {
  }

  lemma SplitApart(s: seq<Addr>, k: nat, a: Addr)
    requires StrictlySorted(s) && k <= |s| && a in s[k..]
    ensures a in s && a !in s[..k]
  {
  }

  lemma SuffixIsAbove(s: seq<Addr>, k: nat, a: Addr)
    requires StrictlySorted(s) && k <= |s|
    ensures a in s[k..] <==> a in s && Above(CursorAt(s, k), a)
  {
  }

  /**
   Keyset pagination over a shrinking set: once the first k stale rows have been visited, whatever
   subset of them was embedded, the listing above the cursor is exactly the remaining rows.
   */
  lemma NextBatch(embed: string -> Vector, pages: Pages, rows: Rows, source: Option<string>, won: set<Addr>, k: nat)
    requires var s := Sorted(StaleAddrs(pages, rows, source));
             k <= |s| && forall a :: a in won ==> a in s[..k]
    ensures var s := Sorted(StaleAddrs(pages, rows, source));
            Sorted(StaleAbove(pages, After(embed, rows, won), source, CursorAt(s, k))) == s[k..]
  {
    hide Sorted, After, CursorAt;
    var stale := StaleAddrs(pages, rows, source);
    var s := Sorted(stale);
    var above := StaleAbove(pages, After(embed, rows, won), source, CursorAt(s, k));
    StaleAfter(embed, pages, rows, source, won);
    forall a ensures a in s[k..] <==> a in above {
      SuffixIsAbove(s, k, a);
      if a in s[k..] {
        SplitApart(s, k, a);
      }
    }
    SortedIsUnique(s[k..], above);
  }

  /** The addresses of a batch split by what became of their group. */
  lemma BatchSplit(pages: Pages, rows: Rows, groups: seq<seq<StaleRow>>, t: seq<Addr>, won: set<nat>, lost: set<nat>)
    requires GoodGroups(pages, rows, groups) && won !! lost
    requires forall a :: a in t ==> a in rows && a.page in pages
    requires Lists(groups, RowsAt(pages, rows, t))
    ensures Splits(t, AddrsOfAll(groups, won), AddrsOfAll(groups, lost), false)
  {
    forall a | a in AddrsOfAll(groups, won) || a in AddrsOfAll(groups, lost) ensures a in t {
      var k: nat, r: StaleRow :| k < |groups| && r in groups[k] && r.addr == a;
      assert r in RowsAt(pages, rows, t);
    }
    forall a | a in AddrsOfAll(groups, won) ensures a !in AddrsOfAll(groups, lost) {
      var k: nat, r: StaleRow :| k in won && k < |groups| && r in groups[k] && r.addr == a;
      AllApart(pages, rows, groups, lost, k);
      assert WellGrouped(pages, rows, groups[k]);
    }
  }

  lemma BatchCovered(pages: Pages, rows: Rows, groups: seq<seq<StaleRow>>, t: seq<Addr>, won: set<nat>, lost: set<nat>)
    requires forall a :: a in t ==> a in rows && a.page in pages
    requires Lists(groups, RowsAt(pages, rows, t))
    requires forall k :: 0 <= k < |groups| ==> k in won + lost
    ensures forall a :: a in t ==> a in AddrsOfAll(groups, won) || a in AddrsOfAll(groups, lost)
  {
    forall a | a in t ensures a in AddrsOfAll(groups, won) || a in AddrsOfAll(groups, lost) {
      var i :| 0 <= i < |t| && t[i] == a;
      var r := RowsAt(pages, rows, t)[i];
      assert r in RowsAt(pages, rows, t) && r.addr == a;
      var k: nat :| k < |groups| && r in groups[k];
      assert k in won + lost;
    }
  }

  class EmbedResult {
    var embedded: nat
    var skipped: nat
    var wouldEmbed: nat
    var totalChunks: nat
    var pagesProcessed: nat

    constructor ()
      ensures embedded == 0 && skipped == 0 && wouldEmbed == 0 && totalChunks == 0 && pagesProcessed == 0
    {
      embedded, skipped, wouldEmbed, totalChunks, pagesProcessed := 0, 0, 0, 0, 0;
    }
  }

  /** What happened over the run: the rows loaded, in order, and which of them ended in a group that
      succeeded or failed. */
  datatype Report = Report(loaded: seq<Addr>, won: set<Addr>, lost: set<Addr>, aborted: bool)

  /** `sourceId ? { sourceId } : undefined`: an empty id is no filter. */
  function Scope(sourceId: Option<string>): Option<string> {
    if sourceId == Some("") then None else sourceId
  }

  /** Every row that came out won or lost was loaded, and all loaded rows came out if `complete`. */
  ghost predicate Splits(loaded: seq<Addr>, won: set<Addr>, lost: set<Addr>, complete: bool) {
    && won !! lost
    && (forall a :: a in won || a in lost ==> a in loaded)
    && (complete ==> forall a :: a in loaded ==> a in won || a in lost)
  }

  /** The account of a run that began with the stale listing `s` over `rows`. */
  ghost predicate Explains(r: Report, embed: string -> Vector, rows: Rows, later: Rows, s: seq<Addr>, width: int) {
    && r.loaded <= s
    && Splits(r.loaded, r.won, r.lost, width >= 1 && !r.aborted)
    && (width <= 0 ==> r.won == {} && r.lost == {})
    && later == After(embed, rows, r.won)
  }

  lemma StretchIsFresh(s: seq<Addr>, loaded: seq<Addr>, t: seq<Addr>)
    requires StrictlySorted(s) && loaded <= s && t == Take(s[|loaded|..], PAGE_SIZE)
    ensures loaded + t <= s
    ensures forall a :: a in t ==> a in s && a !in loaded
    ensures forall a :: a in loaded + t <==> a in loaded || a in t
  {
  }

  lemma SplitsExtended(loaded: seq<Addr>, t: seq<Addr>, w: set<Addr>, l: set<Addr>, won: set<Addr>,
      lost: set<Addr>, before: bool, now: bool)
    requires Splits(loaded, w, l, before) && Splits(t, won, lost, now) && (now ==> before)
    requires forall a :: a in t ==> a !in loaded
    ensures Splits(loaded + t, w + won, l + lost, now) && |w + won| == |w| + |won|
  {
  }

  /** Extending the account by the next stretch `t` of the listing, of which `won` and `lost` came out. */
  lemma ExplainsNext(r: Report, embed: string -> Vector, rows: Rows, before: Rows, s: seq<Addr>, width: int,
                     t: seq<Addr>, won: set<Addr>, lost: set<Addr>, aborted: bool)
    requires StrictlySorted(s) && Explains(r, embed, rows, before, s, width) && !r.aborted
    requires t == Take(s[|r.loaded|..], PAGE_SIZE) && Splits(t, won, lost, width >= 1 && !aborted)
    requires width <= 0 ==> won == {} && lost == {}
    ensures Explains(Report(r.loaded + t, r.won + won, r.lost + lost, aborted), embed, rows,
            After(embed, before, won), s, width)
    ensures |r.won + won| == |r.won| + |won|
  {
    AfterCompose(embed, rows, r.won, won);
    StretchIsFresh(s, r.loaded, t);
    hide After, Take, StrictlySorted;
    SplitsExtended(r.loaded, t, r.won, r.lost, won, lost, width >= 1, width >= 1 && !aborted);
  }

  function NextReport(report: Report, t: seq<Addr>, groups: seq<seq<StaleRow>>, p: Pool): Report {
    Report(report.loaded + t, report.won + AddrsOfAll(groups, With(p.fate, Won)),
      report.lost + AddrsOfAll(groups, With(p.fate, Lost)), p.aborted)
  }

  lemma SoundAccount(job: Job, before: Rows, p: Pool, embedded: nat, processed: nat)
    requires Sound(job, before, p, embedded, processed)
    ensures var won := AddrsOfAll(job.groups, With(p.fate, Won));
      p.rows == After(job.embed, before, won) && p.rows.Keys == before.Keys && p.embedded == embedded + |won|
  {
  }

  lemma OutcomesApart(job: Job, fate: map<nat, Fate>)
    ensures With(fate, Won) !! With(fate, Lost)
    ensures fate == map[] ==>
      AddrsOfAll(job.groups, With(fate, Won)) == {} && AddrsOfAll(job.groups, With(fate, Lost)) == {}
  {
  }

  lemma BatchExplained(report: Report, job: Job, before: Rows, p: Pool, rows: Rows, s: seq<Addr>, t: seq<Addr>,
                       width: int, embedded: nat, processed: nat)
    requires StrictlySorted(s) && Explains(report, job.embed, rows, before, s, width) && !report.aborted
    requires t == Take(s[|report.loaded|..], PAGE_SIZE) && (forall a :: a in t ==> a in before && a.page in job.pages)
    requires Setting(job, before) && Sound(job, before, p, embedded, processed)
    requires AllStopped(p) && |p.workers| == WorkerPool.NumWorkers(width, |job.groups|)
             && (width <= 0 ==> p.fate == map[])
    requires Lists(job.groups, RowsAt(job.pages, before, t))
    ensures var next := NextReport(report, t, job.groups, p);
            Explains(next, job.embed, rows, p.rows, s, width) && p.embedded == embedded + |next.won| - |report.won|
    ensures p.rows.Keys == before.Keys
  {
    hide Sound, Explains, After, GoodGroups, Lists, AddrsOfAll, With, Take, StrictlySorted, Splits,
        RowsAt, AllStopped, ValidTables;
    var won, lost := With(p.fate, Won), With(p.fate, Lost);
    PoolFinished(job, before, p, width, embedded, processed);
    SoundAccount(job, before, p, embedded, processed);
    OutcomesApart(job, p.fate);
    BatchSplit(job.pages, before, job.groups, t, won, lost);
    if width >= 1 && !p.aborted {
      BatchCovered(job.pages, before, job.groups, t, won, lost);
      SplitsWhole(t, AddrsOfAll(job.groups, won), AddrsOfAll(job.groups, lost));
    }
    ExplainsNext(report, job.embed, rows, before, s, width, t,
                 AddrsOfAll(job.groups, won), AddrsOfAll(job.groups, lost), p.aborted);
  }

  lemma SplitsWhole(t: seq<Addr>, won: set<Addr>, lost: set<Addr>)
    requires Splits(t, won, lost, false) && forall a :: a in t ==> a in won || a in lost
    ensures Splits(t, won, lost, true)
  {
  }

  lemma StretchIsStale(r: Report, embed: string -> Vector, rows: Rows, later: Rows, s: seq<Addr>,
      t: seq<Addr>, width: int)
    requires StrictlySorted(s) && Explains(r, embed, rows, later, s, width)
    requires t == Take(s[|r.loaded|..], PAGE_SIZE)
    requires forall a :: a in s ==> a in rows && rows[a].embedding.None?
    ensures StrictlySorted(t) && forall a :: a in t ==> a in later && later[a].embedding.None?
  {
    StretchIsFresh(s, r.loaded, t);
  }

  lemma SeparatedEverywhere(pages: Pages, rows: Rows, t: seq<Addr>)
    requires ValidTables(pages, rows) && Separated(pages) && forall a :: a in t ==> a in rows
    ensures forall a :: a in t ==> a.page in pages
    ensures SeparatedOn(pages, t)
  {
  }

  /** One turn of the cursor loop's body: group the batch, run the pool, keep the account. */
  method VisitBatch(store: Store, source: Option<string>, width: int, embed: string -> Vector, result: EmbedResult,
                    batch: seq<StaleRow>, report: Report, ghost rows: Rows, ghost s: seq<Addr>) returns (next: Report)
    requires store.Valid() && Separated(store.pages) && StrictlySorted(s)
    requires !report.aborted && report.loaded <= s && Explains(report, embed, rows, store.rows, s, width)
    requires forall a :: a in s ==> a in rows && rows[a].embedding.None?
    requires var t := Take(s[|report.loaded|..], PAGE_SIZE);
             (forall a :: a in t ==> a in store.rows && a.page in store.pages)
             && batch == RowsAt(store.pages, store.rows, t)
    modifies store`rows, result
    ensures store.Valid()
    ensures next.loaded == report.loaded + Take(s[|report.loaded|..], PAGE_SIZE)
    ensures Explains(next, embed, rows, store.rows, s, width)
    ensures result.embedded == old(result.embedded) + |next.won| - |report.won|
    ensures result.totalChunks == old(result.totalChunks) + |batch|
    ensures result.wouldEmbed == old(result.wouldEmbed) && result.skipped == old(result.skipped)
  {
    hide Sound, GoodGroups, Explains, Lists, After, AddrsOfAll, With, AllStopped, Separated, Take,
        StrictlySorted, UniqueRefs, Keys, GroupOf;
    ghost var t := Take(s[|report.loaded|..], PAGE_SIZE);
    StretchIsStale(report, embed, rows, store.rows, s, t, width);
    var keys, byKey := GroupByKey(batch);
    var groups := seq(|keys|, i requires 0 <= i < |keys| => byKey[keys[i]]);
    assert groups == Groups(batch);
    SeparatedEverywhere(store.pages, store.rows, t);
    GroupsOfBatch(store.pages, store.rows, t);

    result.totalChunks := result.totalChunks + |batch|;
    var job := Job(store.pages, groups, embed);
    var p := RunPool(job, store.rows, width, result.embedded, result.pagesProcessed);
    var loaded := seq(|batch|, i requires 0 <= i < |batch| => batch[i].addr);
    assert loaded == t;
    BatchExplained(report, job, store.rows, p, rows, s, t, width, result.embedded, result.pagesProcessed);
    next := NextReport(report, loaded, groups, p);
    result.embedded, result.pagesProcessed := p.embedded, p.processed;
    store.rows := p.rows;
  }

  lemma AbortExplained(r: Report, embed: string -> Vector, rows: Rows, later: Rows, s: seq<Addr>, width: int)
    requires Explains(r, embed, rows, later, s, width)
    ensures Explains(r.(aborted := true), embed, rows, later, s, width)
  {
  }

  lemma NextListing(r: Report, embed: string -> Vector, pages: Pages, rows: Rows, later: Rows,
      source: Option<string>, width: int)
    requires Explains(r, embed, rows, later, Sorted(StaleAddrs(pages, rows, source)), width)
    ensures var s, k := Sorted(StaleAddrs(pages, rows, source)), |r.loaded|;
            r.loaded <= s && Sorted(StaleAbove(pages, later, source, CursorAt(s, k))) == s[k..]
  {
    NextBatch(embed, pages, rows, source, r.won, |r.loaded|);
  }

  lemma StartExplained(embed: string -> Vector, pages: Pages, rows: Rows, source: Option<string>, width: int)
    ensures var s := Sorted(StaleAddrs(pages, rows, source));
            && CursorAt(s, 0) == START
            && (forall a :: a in s ==> a in rows && rows[a].embedding.None?)
            && Explains(Report([], {}, {}, false), embed, rows, rows, s, width)
  {
    AfterNothing(embed, rows);
  }

  lemma StretchEnds(s: seq<Addr>, loaded: seq<Addr>, t: seq<Addr>)
    requires loaded <= s && t == Take(s[|loaded|..], PAGE_SIZE)
    ensures loaded + t <= s
    ensures |t| < PAGE_SIZE ==> loaded + t == s
    ensures t != [] ==> CursorAt(s, |loaded + t|) == Cursor(t[|t| - 1].page, t[|t| - 1].index)
  {
    assert s == loaded + s[|loaded|..];
  }

  /** Any listing above the cursor is the next stretch of the initial one. */
  lemma NextStretch(report: Report, embed: string -> Vector, pages: Pages, rows: Rows, now: Rows,
      source: Option<string>, width: int, after: Cursor, batch: seq<StaleRow>)
    requires var s := Sorted(StaleAddrs(pages, rows, source));
      Explains(report, embed, rows, now, s, width) && report.loaded <= s && after == CursorAt(s, |report.loaded|)
    requires IsFirst(Addrs(batch), StaleAbove(pages, now, source, after), PAGE_SIZE)
    ensures Addrs(batch) == Take(Sorted(StaleAddrs(pages, rows, source))[|report.loaded|..], PAGE_SIZE)
    ensures |batch| <= PAGE_SIZE
  {
    hide Explains, StaleAddrs, StaleAbove, CursorAt, Take, IsFirst, Addrs;
    NextListing(report, embed, pages, rows, now, source, width);
    FirstIsUnique(Addrs(batch), StaleAbove(pages, now, source, after), PAGE_SIZE);
    FirstWithin(Addrs(batch), StaleAbove(pages, now, source, after), PAGE_SIZE);
  }

  /** listStaleChunks above the cursor: the next stretch of the initial listing. */
  method LoadBatch(store: Store, source: Option<string>, after: Cursor, report: Report, embed: string -> Vector,
                   ghost rows: Rows, ghost s: seq<Addr>, width: int) returns (batch: seq<StaleRow>)
    requires store.Valid() && s == Sorted(StaleAddrs(store.pages, rows, source))
    requires report.loaded <= s && after == CursorAt(s, |report.loaded|)
    requires Explains(report, embed, rows, store.rows, s, width)
    ensures |batch| <= 2000
    ensures var t := Take(s[|report.loaded|..], PAGE_SIZE);
            && (forall a :: a in t ==> a in store.rows && a.page in store.pages)
            && batch == RowsAt(store.pages, store.rows, t)
            && report.loaded + t <= s
            && (|batch| < PAGE_SIZE ==> report.loaded + t == s)
            && (batch != [] ==>
                CursorAt(s, |report.loaded + t|) == Cursor(batch[|batch| - 1].addr.page, batch[|batch| - 1].addr.index))
  {
    hide Explains, StaleAddrs, StaleAbove, CursorAt, Take, StrictlySorted, ValidTables, UniqueRefs,
        RowsAt, RowAt, IsFirst, ShowsRow, Sorted;
    batch := store.ListStaleChunks(source, after, PAGE_SIZE);
    ghost var t := Addrs(batch);
    NextStretch(report, embed, store.pages, rows, store.rows, source, width, after, batch);
    ShownRows(store.pages, store.rows, batch);
    StretchEnds(s, report.loaded, t);
  }

  /**
   The cursor loop.  Without an abort the batches concatenated are the initially stale rows in
   (page_id, chunk_index) order, each once, and every one of them ends won or lost.
   */
  method RunStale(store: Store, source: Option<string>, width: int, embed: string -> Vector, result: EmbedResult)
    returns (report: Report)
    requires store.Valid() && Separated(store.pages)
    modifies store`rows, result
    ensures store.Valid()
    ensures var s := Sorted(StaleAddrs(store.pages, old(store.rows), source));
            Explains(report, embed, old(store.rows), store.rows, s, width) && (!report.aborted ==> report.loaded == s)
    ensures result.embedded == old(result.embedded) + |report.won|
    ensures result.totalChunks == old(result.totalChunks) + |report.loaded|
    ensures result.wouldEmbed == old(result.wouldEmbed) && result.skipped == old(result.skipped)
  {
    hide StaleAddrs, Separated, CursorAt, Explains, ValidTables, Take, StrictlySorted;
    ghost var rows := store.rows;
    ghost var s := Sorted(StaleAddrs(store.pages, rows, source));
    report := Report([], {}, {}, false);
    var after := START;
    StartExplained(embed, store.pages, rows, source, width);
    while true
      invariant store.Valid() && report.loaded <= s && Explains(report, embed, rows, store.rows, s, width)
      invariant after == CursorAt(s, |report.loaded|)
      invariant result.embedded == old(result.embedded) + |report.won|
      invariant result.totalChunks == old(result.totalChunks) + |report.loaded|
      invariant result.wouldEmbed == old(result.wouldEmbed) && result.skipped == old(result.skipped)
      decreases |s| - |report.loaded|
    {
      var fired: bool := *;
      if fired || report.aborted {
        AbortExplained(report, embed, rows, store.rows, s, width);
        report := report.(aborted := true);
        break;
      }
      var batch := LoadBatch(store, source, after, report, embed, rows, s, width);
      if |batch| == 0 {
        break;
      }
      report := VisitBatch(store, source, width, embed, result, batch, report, rows, s);
      after := Cursor(batch[|batch| - 1].addr.page, batch[|batch| - 1].addr.index);
      if |batch| < PAGE_SIZE {
        break;
      }
    }
  }

  method EmbedAllStale(store: Store, sourceId: Option<string>, dryRun: bool, width: int,
      embed: string -> Vector, result: EmbedResult)
    returns (report: Report)
    requires store.Valid() && Separated(store.pages)
    modifies store`rows, result
    ensures store.Valid()
    ensures var stale := StaleAddrs(store.pages, old(store.rows), Scope(sourceId));
            && Explains(report, embed, old(store.rows), store.rows, Sorted(stale), width)
            && (dryRun ==> report == Report([], {}, {}, false))
            && (!dryRun && !report.aborted ==> report.loaded == Sorted(stale))
            && result.embedded == old(result.embedded) + |report.won|
            && result.wouldEmbed == old(result.wouldEmbed) + (if dryRun then |stale| else 0)
            && result.totalChunks == old(result.totalChunks) + (if dryRun then |stale| else |report.loaded|)
            && result.skipped == old(result.skipped)
    ensures dryRun ==>
      result.wouldEmbed == old(result.wouldEmbed) +
        |set a | a in old(store.rows) && old(store.rows)[a].embedding.None?
                 && (sourceId.Some? && sourceId.value != "" ==>
                       a.page in store.pages && store.pages[a.page].source == sourceId.value)|
    ensures !dryRun && !report.aborted ==>
      forall a :: a in report.loaded <==>
        && a in old(store.rows) && old(store.rows)[a].embedding.None?
        && (sourceId.Some? && sourceId.value != "" ==>
              a.page in store.pages && store.pages[a.page].source == sourceId.value)
    ensures sourceId.Some? && sourceId.value != "" ==>
      forall a :: a in old(store.rows) && store.pages[a.page].source != sourceId.value ==>
        a !in report.loaded && a in store.rows && store.rows[a] == old(store.rows)[a]
  {
    hide Sorted, Explains, StaleAddrs, After;
    ghost var rows := store.rows;
    ScopeExactly(store.pages, rows, sourceId);
    var source := Scope(sourceId);
    report := Report([], {}, {}, false);
    StartExplained(embed, store.pages, rows, source, width);
    var staleCount := store.CountStaleChunks(source);
    if staleCount == 0 {
      SortedOfNone(StaleAddrs(store.pages, rows, source));
      return;
    }
    if dryRun {
      result.wouldEmbed := result.wouldEmbed + staleCount;
      result.totalChunks := result.totalChunks + staleCount;
      return;
    }
    report := RunStale(store, source, width, embed, result);
    forall a | a in rows && sourceId.Some? && sourceId.value != "" && store.pages[a.page].source != sourceId.value
      ensures a !in report.loaded && a in store.rows && store.rows[a] == rows[a]
    {
      OtherSourcesKept(report, embed, store.pages, rows, store.rows, sourceId, width, a);
    }
  }

  lemma SortedOfNone(s: set<Addr>)
    requires |s| == 0
    ensures s == {} && Sorted(s) == []
  {
  }

  /** What is asked for: all stale chunks, or those of the source whose id is given and not empty. */
  lemma ScopeExactly(pages: Pages, rows: Rows, sourceId: Option<string>)
    ensures StaleAddrs(pages, rows, Scope(sourceId)) ==
      set a | a in rows && rows[a].embedding.None?
              && (sourceId.Some? && sourceId.value != "" ==>
                    a.page in pages && pages[a.page].source == sourceId.value)
  {
  }

  /** A run for one source neither loads nor changes a chunk of another. */
  lemma OtherSourcesKept(r: Report, embed: string -> Vector, pages: Pages, rows: Rows, later: Rows,
                         sourceId: Option<string>, width: int, a: Addr)
    requires ValidTables(pages, rows) && a in rows
    requires sourceId.Some? && sourceId.value != "" && pages[a.page].source != sourceId.value
    requires Explains(r, embed, rows, later, Sorted(StaleAddrs(pages, rows, Scope(sourceId))), width)
    ensures a !in r.loaded && a in later && later[a] == rows[a]
  {
    hide Sorted;
    var stale := StaleAddrs(pages, rows, Scope(sourceId));
    ScopeExactly(pages, rows, sourceId);
    WonWereStale(r, embed, rows, later, stale, width);
    LoadedIsStale(r, embed, rows, later, stale, width);
    assert !Touched(r.won, a.page) by {
      forall b | b in r.won ensures b.page != a.page {
        assert b in stale;
      }
    }
  }

  lemma LoadedIsStale(r: Report, embed: string -> Vector, rows: Rows, later: Rows, stale: set<Addr>, width: int)
    requires Explains(r, embed, rows, later, Sorted(stale), width)
    ensures forall a :: a in r.loaded ==> a in stale
  {
  }

  // ----- what a run means -----

  /** The chunks whose embedding went from NULL to a vector. */
  ghost function Filled(rows: Rows, later: Rows): set<Addr> {
    set a | a in rows && a in later && rows[a].embedding.None? && later[a].embedding.Some?
  }

  /**
   No work is lost: chunk indexes, texts and earlier vectors survive, each won chunk has the vector of
   its own text, and nothing else was filled.
   */
  lemma AfterLosesNothing(embed: string -> Vector, rows: Rows, won: set<Addr>)
    requires forall a :: a in won ==> a in rows && rows[a].embedding.None?
    ensures var later := After(embed, rows, won);
            && later.Keys == rows.Keys
            && (forall a :: a in rows ==> later[a].text == rows[a].text && later[a].kind == rows[a].kind)
            && (forall a :: a in rows && rows[a].embedding.Some? ==> later[a].embedding == rows[a].embedding)
            && (forall a :: a in won ==> later[a].embedding == Some(embed(rows[a].text)))
            && Filled(rows, later) == won
  {
  }

  /** ... whatever the interleaving, the failures and the batch boundaries, and what stays stale is
      exactly what did not come out of a successful group. */
  lemma RunLosesNothing(r: Report, embed: string -> Vector, pages: Pages, rows: Rows, later: Rows,
      source: Option<string>, width: int)
    requires Explains(r, embed, rows, later, Sorted(StaleAddrs(pages, rows, source)), width)
    ensures later.Keys == rows.Keys
    ensures forall a :: a in rows ==> later[a].text == rows[a].text && later[a].kind == rows[a].kind
    ensures forall a :: a in rows && rows[a].embedding.Some? ==> later[a].embedding == rows[a].embedding
    ensures forall a :: a in r.won ==> a in later && later[a].embedding == Some(embed(rows[a].text))
    ensures Filled(rows, later) == r.won
    ensures StaleAddrs(pages, later, source) == StaleAddrs(pages, rows, source) - r.won
  {
    WonWereStale(r, embed, rows, later, StaleAddrs(pages, rows, source), width);
    hide After;
    AfterLosesNothing(embed, rows, r.won);
    StaleAfter(embed, pages, rows, source, r.won);
  }

  lemma WonWereStale(r: Report, embed: string -> Vector, rows: Rows, later: Rows, stale: set<Addr>, width: int)
    requires Explains(r, embed, rows, later, Sorted(stale), width)
    ensures forall a :: a in r.won || a in r.lost ==> a in stale
  {
  }

  /** A run without an abort leaves stale exactly the rows of failed groups; without any failure it
      embeds what the dry run counted. */
  lemma CompleteRun(r: Report, embed: string -> Vector, pages: Pages, rows: Rows, later: Rows,
      source: Option<string>, width: int)
    requires var s := Sorted(StaleAddrs(pages, rows, source));
             Explains(r, embed, rows, later, s, width) && !r.aborted && r.loaded == s && width >= 1
    ensures StaleAddrs(pages, later, source) == r.lost
    ensures r.lost == {} <==> |r.won| == |StaleAddrs(pages, rows, source)|
  {
    var stale := StaleAddrs(pages, rows, source);
    RunLosesNothing(r, embed, pages, rows, later, source, width);
    WonWereStale(r, embed, rows, later, stale, width);
    LoadedSplit(stale, r.won, r.lost);
  }

  lemma LoadedSplit(stale: set<Addr>, won: set<Addr>, lost: set<Addr>)
    requires Splits(Sorted(stale), won, lost, true)
    ensures stale - won == lost && (lost == {} <==> |won| == |stale|)
  {
    hide Sorted;
    assert stale == won + lost;
  }

  /** A second run after an abort or failures starts from exactly what the first left over. */
  lemma RerunResumes(r: Report, q: Report, embed: string -> Vector, pages: Pages, rows: Rows, mid: Rows, later: Rows,
                     source: Option<string>, width: int)
    requires Explains(r, embed, rows, mid, Sorted(StaleAddrs(pages, rows, source)), width)
    requires Explains(q, embed, mid, later, Sorted(StaleAddrs(pages, mid, source)), width)
    ensures r.won !! q.won && later == After(embed, rows, r.won + q.won)
  {
    RunLosesNothing(r, embed, pages, rows, mid, source, width);
    WonWereStale(q, embed, mid, later, StaleAddrs(pages, mid, source), width);
    AfterCompose(embed, rows, r.won, q.won);
  }

  /**
   The columns the merged inputs leave out are a different matter: a page's symbol metadata survives
   a run exactly if it was empty or no group of that page succeeded.
   */
  lemma SymbolsSurvive(r: Report, embed: string -> Vector, rows: Rows, later: Rows, s: seq<Addr>, width: int, a: Addr)
    requires Explains(r, embed, rows, later, s, width) && a in rows
    ensures later[a].symbols == rows[a].symbols <==> rows[a].symbols.None? || !Touched(r.won, a.page)
  {
  }

  /**
   What a caller can tell beforehand: in a run that is not cut short and has no failures, a chunk's symbol
   metadata survives exactly if there is none or its page has no stale chunk in scope.
   */
  lemma SymbolsSurviveExactly(r: Report, embed: string -> Vector, pages: Pages, rows: Rows, later: Rows,
                              source: Option<string>, width: int, a: Addr)
    requires var s := Sorted(StaleAddrs(pages, rows, source));
             Explains(r, embed, rows, later, s, width) && !r.aborted && r.loaded == s && width >= 1 && r.lost == {}
    requires a in rows
    ensures later[a].symbols == rows[a].symbols <==>
      rows[a].symbols.None? || forall b :: b in StaleAddrs(pages, rows, source) ==> b.page != a.page
  {
    var stale := StaleAddrs(pages, rows, source);
    WonWereStale(r, embed, rows, later, stale, width);
    AllWon(r, embed, rows, later, stale, width);
    SymbolsSurvive(r, embed, rows, later, Sorted(stale), width, a);
    assert Touched(r.won, a.page) <==> exists b :: b in stale && b.page == a.page;
  }

  lemma AllWon(r: Report, embed: string -> Vector, rows: Rows, later: Rows, stale: set<Addr>, width: int)
    requires Explains(r, embed, rows, later, Sorted(stale), width) && r.loaded == Sorted(stale)
    requires !r.aborted && width >= 1 && r.lost == {}
    ensures r.won == stale
  {
    WonWereStale(r, embed, rows, later, stale, width);
    forall a | a in stale ensures a in r.won {
      assert a in r.loaded;
    }
  }

  /**
   One page, one embedded chunk with symbols, one stale chunk: embedding the second clears the symbols
   of the first.
   */
  lemma SymbolsAreCleared(embed: string -> Vector, v: Vector)
    ensures var coded, stale := Addr(1, 0), Addr(1, 1);
      var rows := map[
        coded := Chunk("f", "code", Some(v), None, Some("f()")),
        stale := Chunk("g", "code", None, None, None)];
      var later := After(embed, rows, {stale});
      later[coded].symbols == None && later[coded].embedding == Some(v) && later[stale].embedding == Some(embed("g"))
  {
    assert Addr(1, 1) in {Addr(1, 1)};
    assert Touched({Addr(1, 1)}, 1);
  }

  /**
   Why the id check matters: with source ids it refuses, two pages can share a composite key. They are
   grouped as one, the first page's chunk gets the second page's vector, the second page gets nothing,
   and the group, whose size is what the counter grows by, holds two rows although one was filled.
   */
  lemma ColonMisfiles(embed: string -> Vector, one: StaleRow, two: StaleRow, rows: Rows)
    requires embed("x") != embed("y")
    requires one == StaleRow(Addr(1, 0), PageRef("a", ":b"), "x")
             && two == StaleRow(Addr(2, 0), PageRef("a:", "b"), "y")
    requires rows == map[one.addr := Chunk("x", "", None, None, None), two.addr := Chunk("y", "", None, None, None)]
    ensures !ValidSourceId(two.ref.source)
    ensures Groups([one, two]) == [[one, two]]
    ensures var later := Upsert(rows, one.addr.page,
            Merge(PageChunks(rows, one.addr.page), Vectors(embed, [one, two])));
            && later[one.addr].embedding == Some(embed("y")) && later[two.addr].embedding == None
            && Filled(rows, later) == {one.addr}
  {
    ColonGroups(one, two);
    var batch := [one, two];
    assert batch[..1] == [one];
    assert Vectors(embed, batch)[0] == embed("y");
  }

  lemma ColonGroups(one: StaleRow, two: StaleRow)
    requires one == StaleRow(Addr(1, 0), PageRef("a", ":b"), "x")
             && two == StaleRow(Addr(2, 0), PageRef("a:", "b"), "y")
    ensures Groups([one, two]) == [[one, two]]
  {
    hide GroupOf, Keys;
    var batch, key := [one, two], "a:::b";
    assert KeyOf(one.ref) == key && KeyOf(two.ref) == key;
    assert batch[..0] == [] && batch[..1] == [one] && batch[..2] == batch;
    NoGroups();
    GroupStep(batch, 0, key);
    GroupStep(batch, 1, key);
    assert GroupOf(batch[..1], key) == [] + [one] == [one];
    assert GroupOf(batch, key) == [one] + [two] == batch;
    KeysStep(batch, 0);
    KeysStep(batch, 1);
    assert Keys(batch[..1]) == [] + [key] == [key];
    assert Keys(batch) == [key];
    assert Groups(batch) == [batch];
  }
}
