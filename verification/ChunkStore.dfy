/**
 The part of the brain database that `gbrain embed` reads and writes: pages, and the chunk rows of
 each page with their embedding column.  Rows are addressed by (page_id, chunk_index), which is also
 the keyset order of the stale listing.
 */
module ChunkStore {
  import opened Collections

  type Vector = seq<real>

  /** A page is named by its source and its slug; the pair is UNIQUE in the schema. */
  datatype PageRef = PageRef(source: string, slug: string)

  datatype Addr = Addr(page: nat, index: nat)

  /** `symbols` stands for the columns a chunk input may carry but the embed merge does not:
      language, symbol names, line range, parent path, doc comment and modality.  The upsert also names
      the default model for every chunk of the page; the model column is not part of the state. */
  datatype Chunk = Chunk(text: string, kind: string, embedding: Option<Vector>, tokens: Option<nat>,
      symbols: Option<string>)

  datatype ChunkInput = ChunkInput(text: string, kind: string, embedding: Option<Vector>, tokens: nat)

  type Rows = map<Addr, Chunk>
  type Pages = map<nat, PageRef>

  datatype StaleRow = StaleRow(addr: Addr, ref: PageRef, text: string)

  ghost predicate UniqueRefs(pages: Pages) {
    forall p, q :: p in pages && q in pages && pages[p] == pages[q] ==> p == q
  }

  /** The schema: page names are unique and every chunk belongs to a page. */
  ghost predicate ValidTables(pages: Pages, rows: Rows) {
    UniqueRefs(pages) && forall a :: a in rows ==> a.page in pages
  }

  function FindPage(pages: Pages, ref: PageRef): (r: Option<nat>)
    requires UniqueRefs(pages)
    ensures r.Some? ==> r.value in pages && pages[r.value] == ref
    ensures r.None? ==> forall p :: p in pages ==> pages[p] != ref
  {
    if ref in pages.Values then
      var p :| p in pages && pages[p] == ref;
      Some(p)
    else None
  }

  // ----- keyset order -----

  predicate Less(a: Addr, b: Addr) {
    a.page < b.page || (a.page == b.page && a.index < b.index)
  }

  ghost predicate StrictlySorted(s: seq<Addr>) {
    forall i, j :: 0 <= i < j < |s| ==> Less(s[i], s[j])
  }

  lemma LeastExists(s: set<Addr>)
    requires s != {}
    ensures exists m :: m in s && forall x :: x in s && x != m ==> Less(m, x)
  {
    var a :| a in s;
    if s == {a} {
    } else {
      var rest := s - {a};
      LeastExists(rest);
      var m :| m in rest && forall x :: x in rest && x != m ==> Less(m, x);
      var least := if Less(a, m) then a else m;
      forall x | x in s && x != least ensures Less(least, x) {
        assert x == a || x in rest;
      }
    }
  }

  /** ORDER BY page_id, chunk_index. */
  function Sorted(s: set<Addr>): (r: seq<Addr>)
    ensures StrictlySorted(r)
    ensures forall a :: a in r <==> a in s
    ensures |r| == |s|
  {
    if s == {} then []
    else
      LeastExists(s);
      var m :| m in s && forall x :: x in s && x != m ==> Less(m, x);
      [m] + Sorted(s - {m})
  }

  lemma TailHolds(r: seq<Addr>, s: set<Addr>, a: Addr)
    requires StrictlySorted(r) && r != [] && forall x :: x in r <==> x in s
    ensures a in r[1..] <==> a in s - {r[0]}
  {
    if a in r[1..] {
      var i :| 0 <= i < |r[1..]| && r[1..][i] == a;
      assert r[i + 1] == a && Less(r[0], r[i + 1]);
    }
    if a in s - {r[0]} {
      assert a in r;
      var i :| 0 <= i < |r| && r[i] == a;
      assert i > 0 && r[1..][i - 1] == a;
    }
  }

  lemma SortedHead(s: set<Addr>)
    requires s != {}
    ensures |Sorted(s)| > 0
    ensures var m := Sorted(s)[0];
            m in s && (forall x :: x in s && x != m ==> Less(m, x))
            && Sorted(s) == [m] + Sorted(s - {m})
  {
  }

  /** A strictly sorted sequence is the only sorted listing of its elements. */
  lemma {:induction false} SortedIsUnique(r: seq<Addr>, s: set<Addr>)
    requires StrictlySorted(r)
    requires forall a :: a in r <==> a in s
    ensures r == Sorted(s)
  {
    hide Sorted;
    if r == [] {
      assert s == {};
    } else {
      assert r[0] in s;
      SortedHead(s);
      var m := Sorted(s)[0];
      assert m in r && r[0] == m;
      forall a ensures a in r[1..] <==> a in s - {m} {
        TailHolds(r, s, a);
      }
      SortedIsUnique(r[1..], s - {m});
    }
  }

  // ----- the queries -----

  /** Cursor of the keyset pagination; (0, -1) is below every row. */
  datatype Cursor = Cursor(page: int, index: int)

  const START := Cursor(0, -1)

  predicate Above(c: Cursor, a: Addr) {
    c.page < a.page || (c.page == a.page && c.index < a.index)
  }

  predicate InScope(pages: Pages, source: Option<string>, page: nat) {
    source.None? || (page in pages && pages[page].source == source.value)
  }

  function StaleAddrs(pages: Pages, rows: Rows, source: Option<string>): set<Addr> {
    set a | a in rows && rows[a].embedding.None? && InScope(pages, source, a.page)
  }

  function StaleAbove(pages: Pages, rows: Rows, source: Option<string>, c: Cursor): set<Addr> {
    set a | a in StaleAddrs(pages, rows, source) && Above(c, a)
  }

  function RowAt(pages: Pages, rows: Rows, a: Addr): StaleRow
    requires a in rows && a.page in pages
  {
    StaleRow(a, pages[a.page], rows[a].text)
  }

  /** The rows of the given addresses, in the given order. */
  function RowsAt(pages: Pages, rows: Rows, s: seq<Addr>): (r: seq<StaleRow>)
    requires forall a :: a in s ==> a in rows && a.page in pages
    ensures |r| == |s|
    ensures forall i :: 0 <= i < |s| ==> r[i] == RowAt(pages, rows, s[i])
  {
    seq(|s|, i requires 0 <= i < |s| => RowAt(pages, rows, s[i]))
  }

  function PageChunks(rows: Rows, page: nat): map<nat, Chunk> {
    map a | a in rows && a.page == page :: a.index := rows[a]
  }

  /** One row of INSERT ... ON CONFLICT DO UPDATE. */
  function Put(prior: Option<Chunk>, input: ChunkInput): Chunk {
    Chunk(
      input.text,
      input.kind,
      if prior.Some? && prior.value.text == input.text && input.embedding.None?
      then prior.value.embedding
      else input.embedding,
      if input.tokens == 0 then None else Some(input.tokens),
      None)
  }

  /** Replaces the chunk set of one page. */
  function Upsert(rows: Rows, page: nat, inputs: map<nat, ChunkInput>): Rows {
    var inserted := set i | i in inputs :: Addr(page, i);
    map a | a in rows.Keys + inserted && (a.page == page ==> a.index in inputs) ::
      if a.page != page then rows[a] else Put(if a in rows then Some(rows[a]) else None, inputs[a.index])
  }

  class Store {
    const pages: Pages
    var rows: Rows

    constructor (pages: Pages, rows: Rows)
      requires ValidTables(pages, rows)
      ensures Valid() && this.pages == pages && this.rows == rows
    {
      this.pages, this.rows := pages, rows;
    }

    ghost predicate Valid()
      reads this
    {
      ValidTables(pages, rows)
    }

    /** SELECT count(*): one row after the other. */
    method CountStaleChunks(source: Option<string>) returns (n: nat)
      ensures n == |StaleAddrs(pages, rows, source)|
      ensures n == |set a | a in rows && rows[a].embedding.None?
                              && (source.Some? ==> a.page in pages && pages[a.page].source == source.value)|
    {
      StaleExactly(pages, rows, source);
      n := 0;
      var todo := rows.Keys;
      ghost var stale := StaleAddrs(pages, rows, source);
      assert stale * todo == stale;
      while todo != {}
        invariant todo <= rows.Keys && n + |stale * todo| == |stale|
        decreases todo
      {
        var a :| a in todo;
        CountOne(stale, todo, a);
        if rows[a].embedding.None? && InScope(pages, source, a.page) {
          n := n + 1;
        }
        todo := todo - {a};
      }
    }

    method ListStaleChunks(source: Option<string>, after: Cursor, limit: nat) returns (batch: seq<StaleRow>)
      requires Valid()
      ensures IsFirst(Addrs(batch), StaleAbove(pages, rows, source, after), limit)
      ensures forall r :: r in batch ==> ShowsRow(pages, rows, r)
      ensures forall i, j :: 0 <= i < j < |batch| ==>
                var a, b := batch[i].addr, batch[j].addr;
                a.page < b.page || (a.page == b.page && a.index < b.index)
      ensures forall a :: a in rows && rows[a].embedding.None?
                          && (source.Some? ==> pages[a.page].source == source.value)
                          && (after.page < a.page || (after.page == a.page && after.index < a.index)) ==>
                a in Addrs(batch)
                || (|batch| == limit && forall r :: r in batch ==>
                      r.addr.page < a.page || (r.addr.page == a.page && r.addr.index < a.index))
      ensures forall r :: r in batch ==>
                && r.addr in rows && rows[r.addr].embedding.None?
                && (source.Some? ==> r.ref.source == source.value)
                && (after.page < r.addr.page || (after.page == r.addr.page && after.index < r.addr.index))
    {
      hide IsFirst, Addrs, ShowsRow, RowsAt, Take, Sorted, StaleAbove;
      var above := StaleAbove(pages, rows, source, after);
      var first := Take(Sorted(above), limit);
      TakeIsFirst(above, limit);
      FirstWithin(first, above, limit);
      StaleAboveHolds(pages, rows, source, after);
      batch := RowsAt(pages, rows, first);
      RowsShow(pages, rows, first);
      ListingMeans(pages, rows, source, after, limit, batch);
    }
  }

  lemma StaleExactly(pages: Pages, rows: Rows, source: Option<string>)
    ensures StaleAddrs(pages, rows, source)
              == set a | a in rows && rows[a].embedding.None?
                         && (source.Some? ==> a.page in pages && pages[a.page].source == source.value)
  {
  }

  lemma StaleAboveHolds(pages: Pages, rows: Rows, source: Option<string>, after: Cursor)
    requires ValidTables(pages, rows)
    ensures forall a :: a in StaleAbove(pages, rows, source, after) ==> a in rows && a.page in pages
  {
  }

  /** A first listing, spelled out: the order is by page and then by index, and nothing is passed over. */
  lemma ListingMeans(pages: Pages, rows: Rows, source: Option<string>, after: Cursor, limit: nat, batch: seq<StaleRow>)
    requires ValidTables(pages, rows)
    requires IsFirst(Addrs(batch), StaleAbove(pages, rows, source, after), limit)
    requires forall r :: r in batch ==> ShowsRow(pages, rows, r)
    ensures forall i, j :: 0 <= i < j < |batch| ==>
              var a, b := batch[i].addr, batch[j].addr;
              a.page < b.page || (a.page == b.page && a.index < b.index)
    ensures forall a :: a in rows && rows[a].embedding.None?
                        && (source.Some? ==> pages[a.page].source == source.value)
                        && (after.page < a.page || (after.page == a.page && after.index < a.index)) ==>
              a in Addrs(batch)
              || (|batch| == limit && forall r :: r in batch ==>
                    r.addr.page < a.page || (r.addr.page == a.page && r.addr.index < a.index))
    ensures forall r :: r in batch ==>
              && r.addr in rows && rows[r.addr].embedding.None?
              && (source.Some? ==> r.ref.source == source.value)
              && (after.page < r.addr.page || (after.page == r.addr.page && after.index < r.addr.index))
  {
    var t := Addrs(batch);
    forall i, j | 0 <= i < j < |batch| ensures Less(batch[i].addr, batch[j].addr) {
      assert t[i] == batch[i].addr && t[j] == batch[j].addr;
    }
    forall r | r in batch ensures r.addr in StaleAbove(pages, rows, source, after) && r.addr in t {
      var i :| 0 <= i < |batch| && batch[i] == r;
      assert t[i] == r.addr && t[i] in t;
    }
    forall a | a in rows && rows[a].embedding.None? && InScope(pages, source, a.page) && Above(after, a) && a !in t
      ensures |batch| == limit && forall r :: r in batch ==> Less(r.addr, a)
    {
      assert a in StaleAbove(pages, rows, source, after);
    }
  }

  /**
   What an upsert does to a stored vector: it stays exactly if the input brings none and the same text, or
   brings that very vector. A chunk is stale afterwards exactly if the input brings no vector and there was
   none, or one of another text.
   */
  lemma UpsertKeepsVector(rows: Rows, page: nat, inputs: map<nat, ChunkInput>, a: Addr)
    requires a in rows && a.page == page && a.index in inputs
    ensures var later, input := Upsert(rows, page, inputs), inputs[a.index];
      && a in later && later[a].text == input.text
      && (later[a].embedding == rows[a].embedding <==>
            input.embedding == rows[a].embedding || (input.embedding.None? && input.text == rows[a].text))
      && (later[a].embedding.None? <==>
            input.embedding.None? && (rows[a].embedding.None? || input.text != rows[a].text))
  {
  }

  /** The chunks of the page are then those of the input; other pages keep theirs. */
  lemma UpsertReplaces(rows: Rows, page: nat, inputs: map<nat, ChunkInput>)
    ensures var later := Upsert(rows, page, inputs);
      && (forall a: Addr :: a.page == page ==> (a in later <==> a.index in inputs))
      && (forall a: Addr :: a.page != page ==> (a in later <==> a in rows) && (a in later ==> later[a] == rows[a]))
  {
    forall i | i in inputs ensures Addr(page, i) in Upsert(rows, page, inputs) {
    }
  }

  lemma CountOne(stale: set<Addr>, todo: set<Addr>, a: Addr)
    requires a in todo
    ensures |stale * todo| == |stale * (todo - {a})| + if a in stale then 1 else 0
  {
    if a in stale {
      assert stale * todo == stale * (todo - {a}) + {a};
    } else {
      assert stale * todo == stale * (todo - {a});
    }
  }

  /** The addresses of a batch. */
  function Addrs(batch: seq<StaleRow>): (t: seq<Addr>)
    ensures |t| == |batch| && forall i :: 0 <= i < |t| ==> t[i] == batch[i].addr
  {
    seq(|batch|, i requires 0 <= i < |batch| => batch[i].addr)
  }

  /** A listed row carries its page's name and its own text. */
  ghost predicate ShowsRow(pages: Pages, rows: Rows, r: StaleRow) {
    r.addr in rows && r.addr.page in pages && r.ref == pages[r.addr.page] && r.text == rows[r.addr].text
  }

  /**
   Up to `limit` of the given addresses, each once and in order; one that is left out means that the limit
   was reached, and comes after all that are listed.
   */
  ghost predicate IsFirst(t: seq<Addr>, all: set<Addr>, limit: nat) {
    && |t| <= limit
    && StrictlySorted(t)
    && (forall a :: a in t ==> a in all)
    && (forall a :: a in all && a !in t ==> |t| == limit && forall b :: b in t ==> Less(b, a))
  }

  lemma FirstWithin(t: seq<Addr>, all: set<Addr>, limit: nat)
    requires IsFirst(t, all, limit)
    ensures |t| <= limit && forall a :: a in t ==> a in all
  {
  }

  lemma TakeIsFirst(all: set<Addr>, limit: nat)
    ensures IsFirst(Take(Sorted(all), limit), all, limit)
  {
    hide Sorted;
    var s := Sorted(all);
    var t := Take(s, limit);
    forall a | a in all && a !in t ensures |t| == limit && forall b :: b in t ==> Less(b, a) {
      var k :| 0 <= k < |s| && s[k] == a;
      assert forall i :: 0 <= i < |t| ==> t[i] == s[i] && t[i] in t;
    }
  }

  lemma SplitSorted(t: seq<Addr>, all: set<Addr>)
    requires StrictlySorted(t) && (forall a :: a in t ==> a in all)
    requires forall a, b :: a in all && a !in t && b in t ==> Less(b, a)
    ensures t <= Sorted(all)
  {
    hide Sorted;
    var rest := set a | a in all && a !in t;
    var whole := t + Sorted(rest);
    forall i, j | 0 <= i < j < |whole| ensures Less(whole[i], whole[j]) {
      if i < |t| <= j {
        assert whole[i] in t && whole[j] in Sorted(rest);
      }
    }
    SortedIsUnique(whole, all);
  }

  /** That leaves no choice: they are the first ones of the sorted listing. */
  lemma FirstIsUnique(t: seq<Addr>, all: set<Addr>, limit: nat)
    requires IsFirst(t, all, limit)
    ensures t == Take(Sorted(all), limit)
  {
    hide Sorted;
    SplitSorted(t, all);
    var s := Sorted(all);
    if |t| < |s| {
      NextIsNew(s, |t|);
      assert s[..|t|] == t && s[|t|] in all;
    }
  }

  lemma NextIsNew(s: seq<Addr>, k: nat)
    requires StrictlySorted(s) && k < |s|
    ensures s[k] !in s[..k]
  {
    forall i | 0 <= i < k ensures s[i] != s[k] {
      assert Less(s[i], s[k]);
    }
  }

  lemma RowsShow(pages: Pages, rows: Rows, t: seq<Addr>)
    requires forall a :: a in t ==> a in rows && a.page in pages
    ensures Addrs(RowsAt(pages, rows, t)) == t
    ensures forall r :: r in RowsAt(pages, rows, t) ==> ShowsRow(pages, rows, r)
  {
  }

  lemma ShownRows(pages: Pages, rows: Rows, batch: seq<StaleRow>)
    requires forall r :: r in batch ==> ShowsRow(pages, rows, r)
    ensures forall a :: a in Addrs(batch) ==> a in rows && a.page in pages
    ensures batch == RowsAt(pages, rows, Addrs(batch))
  {
    assert forall i :: 0 <= i < |batch| ==> batch[i] in batch;
  }
}
