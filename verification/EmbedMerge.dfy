/**
 Grouping a batch of stale rows by page, and the read-merge-write of one page's chunks.
 `After` is the reference: the table in which a given set of chunks has received its vectors.
 */
module EmbedMerge {
  import opened Collections
  import opened ChunkStore

  function KeyOf(ref: PageRef): string {
    ref.source + "::" + ref.slug
  }

  /** The insertion order of a Map keyed by KeyOf. */
  function Keys(batch: seq<StaleRow>): seq<string> {
    if batch == [] then []
    else
      var n := |batch| - 1;
      var keys, k := Keys(batch[..n]), KeyOf(batch[n].ref);
      if k in keys then keys else keys + [k]
  }

  function GroupOf(batch: seq<StaleRow>, key: string): seq<StaleRow> {
    if batch == [] then []
    else
      var n := |batch| - 1;
      GroupOf(batch[..n], key) + (if KeyOf(batch[n].ref) == key then [batch[n]] else [])
  }

  function Groups(batch: seq<StaleRow>): seq<seq<StaleRow>> {
    var keys := Keys(batch);
    seq(|keys|, i requires 0 <= i < |keys| => GroupOf(batch, keys[i]))
  }

  lemma NoGroups()
    ensures Keys([]) == [] && forall k :: GroupOf([], k) == []
  {
  }

  lemma GroupStep(batch: seq<StaleRow>, i: nat, key: string)
    requires i < |batch|
    ensures GroupOf(batch[..i + 1], key)
         == GroupOf(batch[..i], key) + if KeyOf(batch[i].ref) == key then [batch[i]] else []
  {
    assert batch[..i + 1][..i] == batch[..i];
  }

  lemma KeysStep(batch: seq<StaleRow>, i: nat)
    requires i < |batch|
    ensures var k, keys := KeyOf(batch[i].ref), Keys(batch[..i]);
      Keys(batch[..i + 1]) == if k in keys then keys else keys + [k]
  {
    assert batch[..i + 1][..i] == batch[..i];
  }

  method GroupByKey(batch: seq<StaleRow>) returns (keys: seq<string>, byKey: map<string, seq<StaleRow>>)
    ensures keys == Keys(batch)
    ensures forall k :: k in byKey <==> k in keys
    ensures forall k :: k in keys ==> byKey[k] == GroupOf(batch, k)
  {
    hide GroupOf, Keys, KeyOf;
    keys, byKey := [], map[];
    NoGroups();
    for i := 0 to |batch|
      invariant keys == Keys(batch[..i])
      invariant forall k :: k in byKey <==> k in keys
      invariant forall k :: k in keys ==> byKey[k] == GroupOf(batch[..i], k)
      invariant forall k :: k !in keys ==> GroupOf(batch[..i], k) == []
    {
      var key := KeyOf(batch[i].ref);
      KeysStep(batch, i);
      forall k ensures GroupOf(batch[..i + 1], k) == GroupOf(batch[..i], k) + if key == k then [batch[i]] else [] {
        GroupStep(batch, i, k);
      }
      if key in byKey {
        byKey := byKey[key := byKey[key] + [batch[i]]];
      } else {
        keys, byKey := keys + [key], byKey[key := [batch[i]]];
      }
    }
    assert batch[..|batch|] == batch;
  }

  lemma {:induction false} KeysFacts(batch: seq<StaleRow>)
    ensures forall i, j :: 0 <= i < j < |Keys(batch)| ==> Keys(batch)[i] != Keys(batch)[j]
    ensures forall r :: r in batch ==> KeyOf(r.ref) in Keys(batch)
  {
    if batch != [] {
      var n := |batch| - 1;
      KeysFacts(batch[..n]);
      forall r | r in batch ensures KeyOf(r.ref) in Keys(batch) {
        assert r in batch[..n] || r == batch[n];
      }
    }
  }

  /** Keys come in the order their first rows do. */
  lemma {:induction false} KeysFirstSeen(batch: seq<StaleRow>, i: nat, j: nat) returns (p: nat)
    requires i < j < |Keys(batch)|
    ensures p < |batch| && batch[p].ref.source + "::" + batch[p].ref.slug == Keys(batch)[i]
    ensures forall q :: 0 <= q <= p ==> batch[q].ref.source + "::" + batch[q].ref.slug != Keys(batch)[j]
  {
    var n := |batch| - 1;
    KeysFacts(batch);
    KeysFacts(batch[..n]);
    if j < |Keys(batch[..n])| {
      p := KeysFirstSeen(batch[..n], i, j);
      assert forall q :: 0 <= q <= p ==> batch[..n][q] == batch[q];
    } else {
      p := KeyHasRow(batch[..n], i);
      forall q | 0 <= q <= p ensures KeyOf(batch[q].ref) != Keys(batch)[j] {
        assert batch[..n][q] in batch[..n];
      }
    }
  }

  lemma {:induction false} KeyHasRow(batch: seq<StaleRow>, i: nat) returns (p: nat)
    requires i < |Keys(batch)|
    ensures p < |batch| && KeyOf(batch[p].ref) == Keys(batch)[i]
  {
    var n := |batch| - 1;
    if i < |Keys(batch[..n])| {
      p := KeyHasRow(batch[..n], i);
    } else {
      p := n;
    }
  }

  /** A group holds exactly the batch's rows of that key, still in listing order. */
  lemma {:induction false} GroupFacts(batch: seq<StaleRow>, key: string)
    requires forall i, j :: 0 <= i < j < |batch| ==> Less(batch[i].addr, batch[j].addr)
    ensures var g := GroupOf(batch, key);
            && (forall r :: r in g <==> r in batch && KeyOf(r.ref) == key)
            && (forall i, j :: 0 <= i < j < |g| ==> Less(g[i].addr, g[j].addr))
            && (key in Keys(batch) ==> g != [])
  {
    if batch != [] {
      var n := |batch| - 1;
      GroupFacts(batch[..n], key);
      var h, g := GroupOf(batch[..n], key), GroupOf(batch, key);
      assert batch == batch[..n] + [batch[n]];
      forall i, j | 0 <= i < j < |g| ensures Less(g[i].addr, g[j].addr) {
        assert g[i] in batch[..n];
        if j == |h| {
          var q :| 0 <= q < n && batch[q] == g[i];
        }
      }
    }
  }

  /** The composite key separates pages as long as no source id contains a colon. */
  lemma KeyInjective(a: PageRef, b: PageRef)
    requires ':' !in a.source && ':' !in b.source && KeyOf(a) == KeyOf(b)
    ensures a == b
  {
    var k := KeyOf(a);
    assert k[|a.source|] == ':' && k[|b.source|] == ':';
    assert forall i :: 0 <= i < |a.source| ==> k[i] == a.source[i] && a.source[i] in a.source;
    assert forall i :: 0 <= i < |b.source| ==> k[i] == b.source[i] && b.source[i] in b.source;
    assert |a.source| == |b.source|;
    assert a.source == k[..|a.source|] == b.source;
    assert a.slug == k[|a.source| + 2..] == b.slug;
  }

  // ----- read, merge, write -----

  /** chunk_index -> new vector; a repeated index keeps the last one. */
  function Vectors(embed: string -> Vector, stale: seq<StaleRow>): map<nat, Vector> {
    if stale == [] then map[]
    else
      var n := |stale| - 1;
      Vectors(embed, stale[..n])[stale[n].addr.index := embed(stale[n].text)]
  }

  function TokenCount(c: Chunk): nat {
    if c.tokens.Some? && c.tokens.value != 0 then c.tokens.value else (|c.text| + 3) / 4
  }

  function Merge(existing: map<nat, Chunk>, vectors: map<nat, Vector>): map<nat, ChunkInput> {
    map i | i in existing ::
      ChunkInput(existing[i].text, existing[i].kind,
        if i in vectors then Some(vectors[i]) else None, TokenCount(existing[i]))
  }

  ghost predicate Touched(won: set<Addr>, page: nat) {
    exists a :: a in won && a.page == page
  }

  ghost function Settled(embed: string -> Vector, c: Chunk, mine: bool, touched: bool): Chunk {
    if !touched then c
    else Chunk(
        c.text,
        c.kind,
        if mine then Some(embed(c.text)) else c.embedding,
        if TokenCount(c) == 0 then None else Some(TokenCount(c)),
        None)
  }

  /** The table in which exactly the chunks `won` have received the vector of their own text. */
  ghost function After(embed: string -> Vector, rows: Rows, won: set<Addr>): Rows {
    map a | a in rows :: Settled(embed, rows[a], a in won, Touched(won, a.page))
  }

  lemma AfterNothing(embed: string -> Vector, rows: Rows)
    ensures After(embed, rows, {}) == rows
  {
  }

  /**
   The token counts: one that is there and not zero survives; any other on a page that is written becomes the
   length over four, rounded up, or nothing for an empty text. A page without a filled chunk stays as it is.
   */
  lemma TokensExactly(embed: string -> Vector, rows: Rows, won: set<Addr>, a: Addr)
    requires a in rows
    ensures var c, d := rows[a], After(embed, rows, won)[a];
      && (c.tokens.Some? && c.tokens.value != 0 ==> d.tokens == c.tokens)
      && ((exists b :: b in won && b.page == a.page) && c.tokens in {None, Some(0)} ==>
            && (d.tokens.None? <==> c.text == "")
            && (d.tokens.Some? ==> 4 * (d.tokens.value - 1) < |c.text| <= 4 * d.tokens.value))
      && ((forall b :: b in won ==> b.page != a.page) ==> d == c)
  {
  }

  lemma AfterCompose(embed: string -> Vector, rows: Rows, v: set<Addr>, w: set<Addr>)
    ensures After(embed, After(embed, rows, v), w) == After(embed, rows, v + w)
  {
  }

  ghost predicate WellGrouped(pages: Pages, rows: Rows, group: seq<StaleRow>) {
    && group != []
    && (forall r :: r in group ==>
          && r.addr in rows && r.addr.page in pages && r == RowAt(pages, rows, r.addr)
          && rows[r.addr].embedding.None? && r.addr.page == group[0].addr.page)
    && (forall i, j :: 0 <= i < j < |group| ==> group[i].addr != group[j].addr)
  }

  /** Every group is one page's stale rows, and no page has two groups. */
  ghost predicate GoodGroups(pages: Pages, rows: Rows, groups: seq<seq<StaleRow>>) {
    && (forall k :: 0 <= k < |groups| ==> WellGrouped(pages, rows, groups[k]))
    && (forall j, k :: 0 <= j < k < |groups| ==> groups[j][0].addr.page != groups[k][0].addr.page)
  }

  ghost function AddrsOf(group: seq<StaleRow>): set<Addr> {
    set r | r in group :: r.addr
  }

  function AddrsOfAll(groups: seq<seq<StaleRow>>, ks: set<nat>): set<Addr> {
    set k, r | k in ks && k < |groups| && r in groups[k] :: r.addr
  }

  lemma {:induction false} AddrsCount(group: seq<StaleRow>)
    requires forall i, j :: 0 <= i < j < |group| ==> group[i].addr != group[j].addr
    ensures |AddrsOf(group)| == |group|
  {
    if group != [] {
      var n := |group| - 1;
      AddrsCount(group[..n]);
      assert AddrsOf(group) == AddrsOf(group[..n]) + {group[n].addr};
      assert group[n].addr !in AddrsOf(group[..n]);
    }
  }

  lemma AllAdd(groups: seq<seq<StaleRow>>, ks: set<nat>, k: nat)
    requires k < |groups|
    ensures AddrsOfAll(groups, ks + {k}) == AddrsOfAll(groups, ks) + AddrsOf(groups[k])
  {
  }

  lemma AllApart(pages: Pages, rows: Rows, groups: seq<seq<StaleRow>>, ks: set<nat>, k: nat)
    requires GoodGroups(pages, rows, groups) && k < |groups| && k !in ks
    ensures !Touched(AddrsOfAll(groups, ks), groups[k][0].addr.page)
  {
  }

  lemma AllCount(pages: Pages, rows: Rows, groups: seq<seq<StaleRow>>, ks: set<nat>, k: nat)
    requires GoodGroups(pages, rows, groups) && k < |groups| && k !in ks
    ensures |AddrsOfAll(groups, ks + {k})| == |AddrsOfAll(groups, ks)| + |groups[k]|
  {
    assert WellGrouped(pages, rows, groups[k]);
    AllAdd(groups, ks, k);
    AllApart(pages, rows, groups, ks, k);
    AddrsCount(groups[k]);
    var before, mine := AddrsOfAll(groups, ks), AddrsOf(groups[k]);
    assert before !! mine by {
      forall a | a in mine ensures a !in before {
        assert a.page == groups[k][0].addr.page;
      }
    }
    assert |before + mine| == |before| + |mine|;
  }

  lemma {:induction false} VectorsAt(embed: string -> Vector, pages: Pages, rows: Rows, group: seq<StaleRow>, page: nat)
    requires forall r :: r in group ==>
               r.addr in rows && r.addr.page in pages && r == RowAt(pages, rows, r.addr) && r.addr.page == page
    ensures forall i :: i in Vectors(embed, group) <==> Addr(page, i) in AddrsOf(group)
    ensures forall i :: i in Vectors(embed, group) ==>
              Addr(page, i) in rows && Vectors(embed, group)[i] == embed(rows[Addr(page, i)].text)
  {
    if group != [] {
      var n := |group| - 1;
      VectorsAt(embed, pages, rows, group[..n], page);
      assert AddrsOf(group) == AddrsOf(group[..n]) + {group[n].addr};
    }
  }

  lemma TouchedUnion(v: set<Addr>, w: set<Addr>, page: nat)
    ensures Touched(v + w, page) <==> Touched(v, page) || Touched(w, page)
  {
  }

  /** One chunk of the page being written: the merged input settles it, with its own vector if it is in the group. */
  lemma PutSettles(embed: string -> Vector, pages: Pages, rows: Rows, group: seq<StaleRow>, a: Addr)
    requires WellGrouped(pages, rows, group) && a in rows && a.page == group[0].addr.page
    ensures a.index in Merge(PageChunks(rows, a.page), Vectors(embed, group))
    ensures Put(Some(rows[a]), Merge(PageChunks(rows, a.page), Vectors(embed, group))[a.index])
              == Settled(embed, rows[a], a in AddrsOf(group), true)
  {
  }

  /** On another page the write changes nothing and settles nothing. */
  lemma WriteElsewhere(embed: string -> Vector, rows: Rows, won: set<Addr>, group: seq<StaleRow>, page: nat,
                       inputs: map<nat, ChunkInput>, a: Addr)
    requires (forall r :: r in group ==> r.addr.page == page) && a.page != page
    ensures var mid := After(embed, rows, won);
      var left, right := Upsert(mid, page, inputs), After(embed, rows, won + AddrsOf(group));
      (a in left <==> a in right) && (a in left ==> left[a] == right[a])
  {
    hide Settled, Put;
    TouchedUnion(won, AddrsOf(group), a.page);
    assert forall b :: b in AddrsOf(group) ==> b.page == page;
  }

  lemma WriteHere(embed: string -> Vector, pages: Pages, rows: Rows, won: set<Addr>, group: seq<StaleRow>, a: Addr)
    requires WellGrouped(pages, rows, group) && !Touched(won, a.page) && a.page == group[0].addr.page && a in rows
    ensures var mid, inputs := After(embed, rows, won), Merge(PageChunks(rows, a.page), Vectors(embed, group));
      var left, right := Upsert(mid, a.page, inputs), After(embed, rows, won + AddrsOf(group));
      a in left && left[a] == right[a]
  {
    PutSettles(embed, pages, rows, group, a);
    hide Vectors, Merge, PageChunks, Put;
    assert group[0] in group && group[0].addr in AddrsOf(group);
    TouchedUnion(won, AddrsOf(group), a.page);
    assert a !in won;
  }

  lemma NothingNew(rows: Rows, mid: Rows, page: nat, vectors: map<nat, Vector>, a: Addr)
    requires mid.Keys == rows.Keys && a in Upsert(mid, page, Merge(PageChunks(rows, page), vectors)) && a.page == page
    ensures a in rows
  {
  }

  /** Writing the merge of an unchanged page settles exactly that group's chunks. */
  lemma WriteSettles(embed: string -> Vector, pages: Pages, rows: Rows, won: set<Addr>, group: seq<StaleRow>)
    requires WellGrouped(pages, rows, group) && !Touched(won, group[0].addr.page)
    ensures var page := group[0].addr.page;
            Upsert(After(embed, rows, won), page, Merge(PageChunks(rows, page), Vectors(embed, group)))
              == After(embed, rows, won + AddrsOf(group))
  {
    hide Upsert, Merge, PageChunks, Vectors, Settled, Touched;
    var page := group[0].addr.page;
    var mid, inputs := After(embed, rows, won), Merge(PageChunks(rows, page), Vectors(embed, group));
    var left, right := Upsert(mid, page, inputs), After(embed, rows, won + AddrsOf(group));
    forall a ensures (a in left <==> a in right) && (a in left ==> left[a] == right[a]) {
      if a.page != page {
        WriteElsewhere(embed, rows, won, group, page, inputs, a);
      } else if a in rows {
        WriteHere(embed, pages, rows, won, group, a);
      } else if a in left {
        NothingNew(rows, mid, page, Vectors(embed, group), a);
      }
    }
  }

  /** No two pages share a composite key. */
  ghost predicate Separated(pages: Pages) {
    forall p, q :: p in pages && q in pages && KeyOf(pages[p]) == KeyOf(pages[q]) ==> p == q
  }

  ghost predicate SeparatedOn(pages: Pages, t: seq<Addr>)
    requires forall a :: a in t ==> a.page in pages
  {
    forall a, b :: a in t && b in t && KeyOf(pages[a.page]) == KeyOf(pages[b.page]) ==> a.page == b.page
  }

  predicate IdChar(c: char) {
    'a' <= c <= 'z' || '0' <= c <= '9'
  }

  /** What a source id must look like to be stored. */
  predicate ValidSourceId(id: string) {
    && 1 <= |id| <= 32
    && IdChar(id[0]) && IdChar(id[|id| - 1])
    && forall i :: 0 <= i < |id| ==> IdChar(id[i]) || id[i] == '-'
  }

  /** The id check keeps the keys of different pages apart; the built-in source passes it too. */
  lemma ValidIdsSeparate(pages: Pages)
    requires UniqueRefs(pages) && forall p :: p in pages ==> ValidSourceId(pages[p].source)
    ensures Separated(pages) && ValidSourceId("default")
  {
    forall p, q | p in pages && q in pages && KeyOf(pages[p]) == KeyOf(pages[q]) ensures p == q {
      KeyInjective(pages[p], pages[q]);
    }
  }

  /** The groups hold the rows of the batch, no more and no fewer. */
  ghost predicate Lists(groups: seq<seq<StaleRow>>, batch: seq<StaleRow>) {
    && (forall r :: r in batch ==> exists k :: 0 <= k < |groups| && r in groups[k])
    && (forall k, r :: 0 <= k < |groups| && r in groups[k] ==> r in batch)
  }

  lemma RowsAtSorted(pages: Pages, rows: Rows, t: seq<Addr>)
    requires StrictlySorted(t) && forall a :: a in t ==> a in rows && a.page in pages
    ensures var batch := RowsAt(pages, rows, t);
            && (forall i, j :: 0 <= i < j < |batch| ==> Less(batch[i].addr, batch[j].addr))
            && (forall r :: r in batch ==> r.addr in t && r == RowAt(pages, rows, r.addr))
  {
  }

  lemma GroupsList(batch: seq<StaleRow>)
    requires forall i, j :: 0 <= i < j < |batch| ==> Less(batch[i].addr, batch[j].addr)
    ensures Lists(Groups(batch), batch)
    ensures forall k, r :: 0 <= k < |Groups(batch)| && r in Groups(batch)[k] ==> KeyOf(r.ref) == Keys(batch)[k]
    ensures forall k :: 0 <= k < |Groups(batch)| ==> Groups(batch)[k] != []
  {
    var keys, groups := Keys(batch), Groups(batch);
    KeysFacts(batch);
    forall k | 0 <= k < |groups|
      ensures groups[k] != []
      ensures forall r :: r in groups[k] ==> r in batch && KeyOf(r.ref) == keys[k]
    {
      GroupFacts(batch, keys[k]);
    }
    forall r | r in batch ensures exists k :: 0 <= k < |groups| && r in groups[k] {
      var k :| 0 <= k < |keys| && keys[k] == KeyOf(r.ref);
      GroupFacts(batch, keys[k]);
      assert r in groups[k];
    }
  }

  lemma GroupsHold(pages: Pages, rows: Rows, t: seq<Addr>, k: nat)
    requires StrictlySorted(t) && (forall a :: a in t ==> a in rows && a.page in pages && rows[a].embedding.None?)
    requires k < |Keys(RowsAt(pages, rows, t))|
    ensures var batch := RowsAt(pages, rows, t);
      var g := Groups(batch)[k];
      && g != []
      && (forall r :: r in g <==> r in batch && KeyOf(r.ref) == Keys(batch)[k])
      && (forall r :: r in g ==> r.addr in t && r == RowAt(pages, rows, r.addr))
      && (forall i, j :: 0 <= i < j < |g| ==> g[i].addr != g[j].addr)
  {
    var batch := RowsAt(pages, rows, t);
    RowsAtSorted(pages, rows, t);
    GroupFacts(batch, Keys(batch)[k]);
  }

  /** Where the batch's pages have different keys, grouping by composite key is grouping by page. */
  lemma GroupsOfBatch(pages: Pages, rows: Rows, t: seq<Addr>)
    requires StrictlySorted(t) && (forall a :: a in t ==> a in rows && a.page in pages && rows[a].embedding.None?)
    requires SeparatedOn(pages, t)
    ensures var batch := RowsAt(pages, rows, t);
            GoodGroups(pages, rows, Groups(batch)) && Lists(Groups(batch), batch)
  {
    hide StrictlySorted, KeyOf, Keys, GroupOf;
    var batch := RowsAt(pages, rows, t);
    var keys, groups := Keys(batch), Groups(batch);
    RowsAtSorted(pages, rows, t);
    GroupsList(batch);
    KeysFacts(batch);
    forall k | 0 <= k < |groups| ensures WellGrouped(pages, rows, groups[k]) {
      GroupsHold(pages, rows, t, k);
      assert groups[k][0] in groups[k];
    }
    forall j, k | 0 <= j < k < |groups| ensures groups[j][0].addr.page != groups[k][0].addr.page {
      GroupsHold(pages, rows, t, j);
      GroupsHold(pages, rows, t, k);
      assert groups[j][0] in groups[j] && groups[k][0] in groups[k];
    }
  }

  lemma SameKeySameGroup(pages: Pages, rows: Rows, t: seq<Addr>, a: Addr, b: Addr)
    requires StrictlySorted(t) && (forall c :: c in t ==> c in rows && c.page in pages && rows[c].embedding.None?)
    requires GoodGroups(pages, rows, Groups(RowsAt(pages, rows, t)))
    requires a in t && b in t && KeyOf(pages[a.page]) == KeyOf(pages[b.page])
    ensures a.page == b.page
  {
    hide StrictlySorted, KeyOf, Keys, GroupOf;
    var batch := RowsAt(pages, rows, t);
    var i, j :| 0 <= i < |t| && 0 <= j < |t| && t[i] == a && t[j] == b;
    assert batch[i] in batch && batch[j] in batch;
    KeysFacts(batch);
    var k :| 0 <= k < |Keys(batch)| && Keys(batch)[k] == KeyOf(batch[i].ref);
    GroupsHold(pages, rows, t, k);
    assert batch[i] in Groups(batch)[k] && batch[j] in Groups(batch)[k];
    assert WellGrouped(pages, rows, Groups(batch)[k]);
  }

  /** A batch is grouped by page exactly if its pages have different keys. */
  lemma GroupedByPageExactly(pages: Pages, rows: Rows, t: seq<Addr>)
    requires StrictlySorted(t) && (forall a :: a in t ==> a in rows && a.page in pages && rows[a].embedding.None?)
    ensures GoodGroups(pages, rows, Groups(RowsAt(pages, rows, t))) <==> SeparatedOn(pages, t)
  {
    hide StrictlySorted, KeyOf, Groups, GoodGroups;
    if SeparatedOn(pages, t) {
      GroupsOfBatch(pages, rows, t);
    }
    if GoodGroups(pages, rows, Groups(RowsAt(pages, rows, t))) {
      forall a, b | a in t && b in t && KeyOf(pages[a.page]) == KeyOf(pages[b.page]) ensures a.page == b.page {
        SameKeySameGroup(pages, rows, t, a, b);
      }
    }
  }
}
