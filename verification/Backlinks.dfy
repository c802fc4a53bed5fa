/**
 `gbrain check-backlinks`: find the pages that mention an entity whose page does not mention them
 back, and edit the entity pages in place to close the gaps.  The reference extractor and the title
 extractor are arbitrary functions of a page's text, so an inserted entry may itself be read as a
 new reference on the next scan.
 */
module Backlinks {
  import opened Collections
  import opened Text

  /** Relative path of a page, and the text of every page. */
  type Path = string
  type Files = map<Path, string>

  /** The extractor lets only these two directories through, and gives the slug without the directory. */
  datatype EntityDir = People | Companies

  datatype Ref = Ref(name: string, slug: string, dir: EntityDir)

  datatype Gap = Gap(source: Path, target: Path, entity: string, title: string)

  /** How the text of a page is read. */
  datatype Reader = Reader(refs: string -> seq<Ref>, title: string -> string)

  const MD := ".md"
  const TIMELINE := "## Timeline"
  const SECTION := "\n## "

  /** relPath.replace('.md', ''): only the first occurrence goes. */
  function Slug(path: Path): string {
    match IndexOf(path, MD, 0)
    case None => path
    case Some(i) => path[..i] + path[i + |MD|..]
  }

  function Basename(path: Path): (name: string)
    ensures |name| <= |path| && path == path[..|path| - |name|] + name
  {
    if '/' in path then Basename(path[1..]) else path
  }

  /** The file name is what follows the last slash. */
  lemma {:induction false} BasenameExactly(path: Path) returns (cut: nat)
    ensures cut <= |path| && Basename(path) == path[cut..] && '/' !in Basename(path)
    ensures cut == 0 || path[cut - 1] == '/'
  {
    if '/' in path {
      var rest := path[1..];
      var n := BasenameExactly(rest);
      cut := n + 1;
      assert rest[n..] == path[cut..];
      assert path == [path[0]] + rest;
      assert n > 0 ==> path[n] == rest[n - 1];
      assert n == 0 ==> rest[n..] == rest;
    } else {
      cut := 0;
      assert path[0..] == path;
    }
  }

  function HasBacklink(content: string, name: string): bool {
    Contains(content, name)
  }

  // ----- finding -----

  /** pagesBySlug: a later page with the same slug replaces an earlier one. */
  function BySlug(walk: seq<Path>, slug: string): Option<Path> {
    if walk == [] then None
    else if Slug(walk[|walk| - 1]) == slug then Some(walk[|walk| - 1])
    else BySlug(walk[..|walk| - 1], slug)
  }

  function Folder(d: EntityDir): string {
    if d.People? then "people/" else "companies/"
  }

  function TargetSlug(r: Ref): string {
    Folder(r.dir) + r.slug
  }

  /** Whether one of the first `n` references already named the target. */
  predicate Repeats(refs: seq<Ref>, n: nat, target: string) {
    exists m :: 0 <= m < n && m < |refs| && TargetSlug(refs[m]) == target
  }

  /** The gaps one page contributes from its first `n` references, one per distinct target. */
  function PageGaps(reader: Reader, walk: seq<Path>, files: Files, page: Path, n: nat): seq<Gap>
    requires page in files && (forall p :: p in walk ==> p in files) && n <= |reader.refs(files[page])|
  {
    if n == 0 then []
    else
      var refs := reader.refs(files[page]);
      var r := refs[n - 1];
      var t := BySlug(walk, TargetSlug(r));
      PageGaps(reader, walk, files, page, n - 1) +
      (if Repeats(refs, n - 1, TargetSlug(r)) || t.None? || t.value !in files
          || HasBacklink(files[t.value], Basename(page))
       then []
       else [Gap(page, TargetSlug(r) + MD, r.name, reader.title(files[page]))])
  }

  lemma NothingScanned(reader: Reader, walk: seq<Path>, files: Files, page: Path)
    requires page in files && forall p :: p in walk ==> p in files
    ensures PageGaps(reader, walk, files, page, 0) == []
    ensures forall t :: !Repeats(reader.refs(files[page]), 0, t)
  {
  }

  lemma PageGapsStep(reader: Reader, walk: seq<Path>, files: Files, page: Path, n: nat)
    requires page in files && (forall p :: p in walk ==> p in files) && n < |reader.refs(files[page])|
    ensures var r := reader.refs(files[page])[n];
            var t := BySlug(walk, TargetSlug(r));
            var none := Repeats(reader.refs(files[page]), n, TargetSlug(r)) || t.None? || t.value !in files
                        || HasBacklink(files[t.value], Basename(page));
            PageGaps(reader, walk, files, page, n + 1)
            == PageGaps(reader, walk, files, page, n)
               + (if none then [] else [Gap(page, TargetSlug(r) + MD, r.name, reader.title(files[page]))])
  {
  }

  function Gaps(reader: Reader, walk: seq<Path>, files: Files, n: nat): seq<Gap>
    requires (forall p :: p in walk ==> p in files) && n <= |walk|
  {
    if n == 0 then []
    else
      Gaps(reader, walk, files, n - 1)
      + PageGaps(reader, walk, files, walk[n - 1], |reader.refs(files[walk[n - 1]])|)
  }

  function AllGaps(reader: Reader, walk: seq<Path>, files: Files): seq<Gap>
    requires forall p :: p in walk ==> p in files
  {
    Gaps(reader, walk, files, |walk|)
  }

  // ----- fixing -----

  /** '../' once per directory of the target. */
  function Dots(target: Path): string {
    if target == [] then "" else (if target[0] == '/' then "../" else "") + Dots(target[1..])
  }

  function BuildEntry(title: string, relPath: string, date: string): string {
    "- **" + date + "** | Referenced in [" + title + "](" + relPath + ")"
  }

  function EntryFor(g: Gap, date: string): string {
    BuildEntry(g.title, Dots(g.target) + g.source, date)
  }

  /** Where the section after the timeline starts, looking no further than the next timeline heading. */
  function NextSection(content: string, start: nat): Option<nat>
    requires start <= |content|
  {
    var next := IndexOf(content, TIMELINE, start);
    var after := if next.Some? then content[start..next.value] else content[start..];
    match IndexOf(after, SECTION, 0)
    case None => None
    case Some(i) => Some(start + i)
  }

  function Insert(content: string, entry: string): string {
    match IndexOf(content, TIMELINE, 0)
    case None => TrimEnd(content) + "\n\n" + TIMELINE + "\n\n" + entry + "\n"
    case Some(p) =>
      match NextSection(content, p + |TIMELINE|)
      case None => TrimEnd(content) + "\n" + entry + "\n"
      case Some(i) => content[..i] + "\n" + entry + content[i..]
  }

  /** One gap, applied on its own; a target that does not exist is skipped. */
  function Fix(files: Files, g: Gap, date: string): Files {
    if g.target in files then files[g.target := Insert(files[g.target], EntryFor(g, date))] else files
  }

  /** The gaps applied one at a time in list order. */
  function FixAll(files: Files, gaps: seq<Gap>, date: string): Files {
    if gaps == [] then files else Fix(FixAll(files, gaps[..|gaps| - 1], date), gaps[|gaps| - 1], date)
  }

  function For(gaps: seq<Gap>, target: Path): seq<Gap> {
    if gaps == [] then []
    else
      var n := |gaps| - 1;
      For(gaps[..n], target) + (if gaps[n].target == target then [gaps[n]] else [])
  }

  function Edited(content: string, gaps: seq<Gap>, date: string): string {
    if gaps == [] then content else Insert(Edited(content, gaps[..|gaps| - 1], date), EntryFor(gaps[|gaps| - 1], date))
  }

  /** What the sequential fix does to one page depends only on the gaps of that page. */
  lemma {:induction false} FixAllAt(files: Files, gaps: seq<Gap>, date: string, t: Path)
    requires t in files
    ensures FixAll(files, gaps, date).Keys == files.Keys
    ensures FixAll(files, gaps, date)[t] == Edited(files[t], For(gaps, t), date)
  {
    hide Insert;
    if gaps != [] {
      var n := |gaps| - 1;
      FixAllAt(files, gaps[..n], date, t);
      if gaps[n].target == t {
        assert For(gaps, t)[..|For(gaps[..n], t)|] == For(gaps[..n], t);
      } else {
        assert For(gaps, t) == For(gaps[..n], t);
      }
    }
  }

  /** A directory of pages, in the order the walk visits them. */
  class BrainDir {
    const walk: seq<Path>
    var files: Files

    constructor (walk: seq<Path>, files: Files)
      requires forall p :: p in walk <==> p in files
      ensures Valid() && this.walk == walk && this.files == files
    {
      this.walk, this.files := walk, files;
    }

    ghost predicate Valid()
      reads this
    {
      forall p :: p in walk <==> p in files
    }

    method FindBacklinkGaps(reader: Reader) returns (gaps: seq<Gap>)
      requires Valid()
      ensures gaps == AllGaps(reader, walk, files)
    {
      hide BySlug, PageGaps;
      var pagesBySlug := IndexBySlug(walk);
      gaps := [];
      for i := 0 to |walk|
        invariant gaps == Gaps(reader, walk, files, i)
      {
        var found := PageScan(reader, walk[i], pagesBySlug);
        gaps := gaps + found;
      }
    }

    method PageScan(reader: Reader, page: Path, pagesBySlug: map<string, Path>) returns (gaps: seq<Gap>)
      requires Valid() && page in files
      requires Indexes(pagesBySlug, walk)
      ensures gaps == PageGaps(reader, walk, files, page, |reader.refs(files[page])|)
    {
      hide HasBacklink, BySlug, Slug, Basename, PageGaps, Repeats, TargetSlug;
      var refs, sourceFilename := reader.refs(files[page]), Basename(page);
      var seen: set<string> := {};
      gaps := [];
      NothingScanned(reader, walk, files, page);
      for n := 0 to |refs|
        invariant forall t :: t in seen <==> Repeats(refs, n, t)
        invariant gaps == PageGaps(reader, walk, files, page, n)
      {
        var targetSlug := TargetSlug(refs[n]);
        RepeatsStep(refs, n);
        PageGapsStep(reader, walk, files, page, n);
        if targetSlug in seen { continue; }
        seen := seen + {targetSlug};
        if targetSlug !in pagesBySlug { continue; }
        var target := pagesBySlug[targetSlug];
        BySlugFacts(walk, targetSlug);
        if !HasBacklink(files[target], sourceFilename) {
          gaps := gaps + [Gap(page, targetSlug + MD, refs[n].name, reader.title(files[page]))];
        }
      }
    }

    /** Grouped by target page to batch the writes; the same as one gap at a time. */
    method FixBacklinkGaps(gaps: seq<Gap>, date: string, dryRun: bool) returns (count: nat)
      requires Valid()
      modifies this`files
      ensures Valid()
      ensures files == if dryRun then old(files) else FixAll(old(files), gaps, date)
      ensures count == Existing(gaps, old(files))
      ensures count == |set i | 0 <= i < |gaps| && gaps[i].target in old(files)|
    {
      ExistingCounted(gaps, files);
      hide For, Edited, FixAll, Existing, ExistingFor, EditedUpTo;
      var targets, byTarget := GroupByTarget(gaps);
      count := 0;
      ghost var before := files;
      NothingEdited(before, gaps, date, dryRun);
      for i := 0 to |targets|
        invariant EditedUpTo(before, files, gaps, targets[..i], date, dryRun)
        invariant count == ExistingFor(targets[..i], gaps, before)
      {
        var targetPage := targets[i];
        assert targets[..i + 1] == targets[..i] + [targetPage] && targetPage !in targets[..i];
        OneMoreTarget(before, files, gaps, targets[..i], targetPage, date, dryRun);
        if targetPage !in files { continue; }
        var content := EditPage(files[targetPage], byTarget[targetPage], date);
        count := count + |byTarget[targetPage]|;
        if !dryRun {
          files := files[targetPage := content];
        }
      }
      assert targets[..|targets|] == targets;
      Grouped(before, files, gaps, targets, date, dryRun);
    }
  }

  /** The pages of the first targets have all their entries, the others none yet. */
  ghost predicate EditedUpTo(before: Files, now: Files, gaps: seq<Gap>, targets: seq<Path>, date: string,
      dryRun: bool) {
    && now.Keys == before.Keys
    && forall t :: t in before ==>
      now[t] == if !dryRun && t in targets then Edited(before[t], For(gaps, t), date) else before[t]
  }

  lemma NothingEdited(before: Files, gaps: seq<Gap>, date: string, dryRun: bool)
    ensures EditedUpTo(before, before, gaps, [], date, dryRun) && ExistingFor([], gaps, before) == 0
  {
  }

  lemma OneMoreTarget(before: Files, now: Files, gaps: seq<Gap>, done: seq<Path>, t: Path, date: string, dryRun: bool)
    requires EditedUpTo(before, now, gaps, done, date, dryRun) && t !in done
    ensures ExistingFor(done + [t], gaps, before)
            == ExistingFor(done, gaps, before) + (if t in before then |For(gaps, t)| else 0)
    ensures t in now <==> t in before
    ensures t in before ==> now[t] == before[t]
    ensures t !in before || dryRun ==> EditedUpTo(before, now, gaps, done + [t], date, dryRun)
    ensures t in before && !dryRun ==>
      EditedUpTo(before, now[t := Edited(before[t], For(gaps, t), date)], gaps, done + [t], date, dryRun)
  {
    hide For, Edited;
    assert (done + [t])[..|done|] == done;
  }

  /** The inner loop: one page's entries, inserted one after the other. */
  method EditPage(original: string, gaps: seq<Gap>, date: string) returns (content: string)
    ensures content == Edited(original, gaps, date)
  {
    content := original;
    for j := 0 to |gaps|
      invariant content == Edited(original, gaps[..j], date)
    {
      assert gaps[..j + 1][..j] == gaps[..j];
      content := Insert(content, EntryFor(gaps[j], date));
    }
    assert gaps[..|gaps|] == gaps;
  }

  lemma Grouped(before: Files, after: Files, gaps: seq<Gap>, targets: seq<Path>, date: string, dryRun: bool)
    requires EditedUpTo(before, after, gaps, targets, date, dryRun)
    requires forall i, j :: 0 <= i < j < |targets| ==> targets[i] != targets[j]
    requires forall t :: t !in targets ==> For(gaps, t) == []
    ensures after.Keys == before.Keys
    ensures after == if dryRun then before else FixAll(before, gaps, date)
    ensures ExistingFor(targets, gaps, before) == Existing(gaps, before)
  {
    hide For, Edited, FixAll;
    forall g | g in gaps ensures g.target in targets {
      ForHolds(gaps, g);
    }
    CountAgrees(targets, gaps, before);
    if dryRun {
      assert after == before;
    } else {
      FixAllKeys(before, gaps, date);
      forall t | t in before ensures after[t] == FixAll(before, gaps, date)[t] {
        FixAllAt(before, gaps, date, t);
        EditedByNone(before[t], date);
      }
      assert after == FixAll(before, gaps, date);
    }
  }

  lemma EditedByNone(content: string, date: string)
    ensures Edited(content, [], date) == content
  {
  }

  lemma {:induction false} FixAllKeys(files: Files, gaps: seq<Gap>, date: string)
    ensures FixAll(files, gaps, date).Keys == files.Keys
  {
    hide Insert;
    if gaps != [] {
      FixAllKeys(files, gaps[..|gaps| - 1], date);
    }
  }

  ghost predicate Indexes(pagesBySlug: map<string, Path>, walk: seq<Path>) {
    forall s :: BySlug(walk, s) == if s in pagesBySlug then Some(pagesBySlug[s]) else None
  }

  method IndexBySlug(walk: seq<Path>) returns (pagesBySlug: map<string, Path>)
    ensures Indexes(pagesBySlug, walk)
  {
    hide Slug;
    pagesBySlug := map[];
    for i := 0 to |walk|
      invariant Indexes(pagesBySlug, walk[..i])
    {
      assert walk[..i + 1][..i] == walk[..i];
      pagesBySlug := pagesBySlug[Slug(walk[i]) := walk[i]];
    }
    assert walk[..|walk|] == walk;
  }

  function Existing(gaps: seq<Gap>, files: Files): nat {
    if gaps == [] then 0 else Existing(gaps[..|gaps| - 1], files) + (if gaps[|gaps| - 1].target in files then 1 else 0)
  }

  lemma {:induction false} ExistingCounted(gaps: seq<Gap>, files: Files)
    ensures Existing(gaps, files) == |set i | 0 <= i < |gaps| && gaps[i].target in files|
  {
    var all := set i | 0 <= i < |gaps| && gaps[i].target in files;
    if gaps == [] {
      assert all == {};
    } else {
      var n := |gaps| - 1;
      ExistingCounted(gaps[..n], files);
      assert (set i | 0 <= i < n && gaps[..n][i].target in files) == all - {n};
      assert gaps[n].target in files <==> n in all;
    }
  }

  function ExistingFor(targets: seq<Path>, gaps: seq<Gap>, files: Files): nat {
    if targets == [] then 0
    else
      var n := |targets| - 1;
      ExistingFor(targets[..n], gaps, files) + (if targets[n] in files then |For(gaps, targets[n])| else 0)
  }

  lemma {:induction false} OneMoreGap(targets: seq<Path>, gaps: seq<Gap>, files: Files)
    requires gaps != [] && forall i, j :: 0 <= i < j < |targets| ==> targets[i] != targets[j]
    ensures var g := gaps[|gaps| - 1];
            ExistingFor(targets, gaps, files)
              == ExistingFor(targets, gaps[..|gaps| - 1], files)
                  + (if g.target in targets && g.target in files then 1 else 0)
  {
    if targets != [] {
      var n := |targets| - 1;
      OneMoreGap(targets[..n], gaps, files);
      assert targets == targets[..n] + [targets[n]];
    }
  }

  lemma {:induction false} CountAgrees(targets: seq<Path>, gaps: seq<Gap>, files: Files)
    requires forall i, j :: 0 <= i < j < |targets| ==> targets[i] != targets[j]
    requires forall g :: g in gaps ==> g.target in targets
    ensures ExistingFor(targets, gaps, files) == Existing(gaps, files)
  {
    if gaps == [] {
      NoGaps(targets, files);
    } else {
      OneMoreGap(targets, gaps, files);
      CountAgrees(targets, gaps[..|gaps| - 1], files);
    }
  }

  lemma NoGaps(targets: seq<Path>, files: Files)
    ensures ExistingFor(targets, [], files) == 0
  {
  }

  lemma {:induction false} ForHolds(gaps: seq<Gap>, g: Gap)
    ensures g in gaps <==> g in For(gaps, g.target)
  {
    if gaps != [] {
      var n := |gaps| - 1;
      ForHolds(gaps[..n], g);
      assert gaps == gaps[..n] + [gaps[n]];
    }
  }

  lemma RepeatsStep(refs: seq<Ref>, n: nat)
    requires n < |refs|
    ensures forall t :: Repeats(refs, n + 1, t) <==> Repeats(refs, n, t) || t == TargetSlug(refs[n])
  {
    forall t | Repeats(refs, n, t) ensures Repeats(refs, n + 1, t) {
      var m :| 0 <= m < n && m < |refs| && TargetSlug(refs[m]) == t;
      assert m < n + 1;
    }
    assert Repeats(refs, n + 1, TargetSlug(refs[n])) by {
      assert n < n + 1;
    }
  }

  lemma {:induction false} BySlugFacts(walk: seq<Path>, slug: string)
    ensures var t := BySlug(walk, slug); t.Some? ==> t.value in walk && Slug(t.value) == slug
  {
    if walk != [] && Slug(walk[|walk| - 1]) != slug {
      BySlugFacts(walk[..|walk| - 1], slug);
    }
  }

  /** What grouping promises: each target once, with its gaps in list order. */
  ghost predicate Groups(gaps: seq<Gap>, targets: seq<Path>, byTarget: map<Path, seq<Gap>>) {
    && (forall i, j :: 0 <= i < j < |targets| ==> targets[i] != targets[j])
    && (forall t :: t in byTarget <==> t in targets)
    && forall t :: (if t in byTarget then byTarget[t] else []) == For(gaps, t)
  }

  lemma ForStep(gaps: seq<Gap>, i: nat, target: Path)
    requires i < |gaps|
    ensures For(gaps[..i + 1], target)
              == For(gaps[..i], target) + (if gaps[i].target == target then [gaps[i]] else [])
  {
    assert gaps[..i + 1][..i] == gaps[..i];
  }

  lemma GroupsOneMore(gaps: seq<Gap>, i: nat, targets: seq<Path>, byTarget: map<Path, seq<Gap>>)
    requires i < |gaps| && Groups(gaps[..i], targets, byTarget)
    ensures var t := gaps[i].target;
            Groups(gaps[..i + 1], if t in byTarget then targets else targets + [t],
                    byTarget[t := (if t in byTarget then byTarget[t] else []) + [gaps[i]]])
  {
    hide For;
    forall u ensures For(gaps[..i + 1], u) == For(gaps[..i], u) + (if gaps[i].target == u then [gaps[i]] else []) {
      ForStep(gaps, i, u);
    }
  }

  lemma GroupsExactly(gaps: seq<Gap>, targets: seq<Path>, byTarget: map<Path, seq<Gap>>)
    requires Groups(gaps, targets, byTarget)
    ensures forall i, j :: 0 <= i < j < |targets| ==> targets[i] != targets[j]
    ensures forall t :: t in byTarget <==> t in targets
    ensures forall t :: (t in byTarget ==> byTarget[t] == For(gaps, t)) && (t !in byTarget ==> For(gaps, t) == [])
  {
  }

  method GroupByTarget(gaps: seq<Gap>) returns (targets: seq<Path>, byTarget: map<Path, seq<Gap>>)
    ensures forall i, j :: 0 <= i < j < |targets| ==> targets[i] != targets[j]
    ensures forall t :: t in byTarget <==> t in targets
    ensures forall t :: (t in byTarget ==> byTarget[t] == For(gaps, t)) && (t !in byTarget ==> For(gaps, t) == [])
  {
    targets, byTarget := [], map[];
    assert Groups(gaps[..0], targets, byTarget);
    hide Groups;
    for i := 0 to |gaps|
      invariant Groups(gaps[..i], targets, byTarget)
    {
      GroupsOneMore(gaps, i, targets, byTarget);
      var t := gaps[i].target;
      if t !in byTarget {
        targets := targets + [t];
      }
      byTarget := byTarget[t := (if t in byTarget then byTarget[t] else []) + [gaps[i]]];
    }
    assert gaps[..|gaps|] == gaps;
    GroupsExactly(gaps, targets, byTarget);
  }

  // ----- an edit keeps every link and adds its own -----

  /** A file name the walk can produce: it ends in .md.  Line breaks are excluded. */
  predicate PageName(path: Path) {
    var name := Basename(path);
    |name| >= |MD| && name[|name| - |MD|..] == MD && '\n' !in name
  }

  lemma OccursInSlice(s: string, a: nat, b: nat, j: nat, t: string)
    requires a <= b <= |s| && OccursAt(s[a..b], j, t)
    ensures OccursAt(s, a + j, t)
  {
    var w := s[a..b];
    var u, v := w[j..j + |t|], s[a + j..a + j + |t|];
    forall k | 0 <= k < |t| ensures u[k] == v[k] {
      assert u[k] == w[j + k];
      assert w[j + k] == s[a + (j + k)];
      assert v[k] == s[(a + j) + k];
    }
    assert u == v;
  }

  lemma OccursStarts(s: string, i: nat, t: string)
    requires OccursAt(s, i, t) && t != []
    ensures i < |s| && s[i] == t[0]
  {
    assert s[i..i + |t|][0] == s[i];
  }

  lemma SectionStartsLine(content: string, start: nat)
    requires start <= |content|
    ensures var i := NextSection(content, start);
      i.Some? ==> i.value < |content| && content[i.value] == '\n' && OccursAt(content, i.value, SECTION)
  {
    hide OccursAt;
    var i := NextSection(content, start);
    if i.Some? {
      var next := IndexOf(content, TIMELINE, start);
      NextWithin(content, start);
      if next.Some? {
        OccursInSlice(content, start, next.value, i.value - start, SECTION);
      } else {
        assert content[start..] == content[start..|content|];
        OccursInSlice(content, start, |content|, i.value - start, SECTION);
      }
      OccursStarts(content, i.value, SECTION);
    }
  }

  lemma NextWithin(content: string, start: nat)
    requires start <= |content|
    ensures var next := IndexOf(content, TIMELINE, start); next.Some? ==> start <= next.value <= |content|
  {
  }

  lemma SliceOccurs(s: string, a: nat, b: nat, i: nat, t: string)
    requires a <= i && i + |t| <= b <= |s| && OccursAt(s, i, t)
    ensures OccursAt(s[a..b], i - a, t)
  {
    var w, j := s[a..b], i - a;
    var u, v := w[j..j + |t|], s[i..i + |t|];
    forall k | 0 <= k < |t| ensures u[k] == v[k] {
      assert u[k] == w[j + k];
      assert w[j + k] == s[a + (j + k)];
      assert v[k] == s[i + k];
    }
    assert u == v;
  }

  /** A text without line breaks lies on one side of a line break. */
  lemma OneSide(s: string, cut: nat, t: string, k: nat)
    requires cut < |s| && s[cut] == '\n' && OccursAt(s, k, t) && '\n' !in t
    ensures k + |t| <= cut || k > cut
  {
    assert forall q :: k <= q < k + |t| ==> s[q] == s[k..k + |t|][q - k] && s[k..k + |t|][q - k] in t;
  }

  /** Text inserted in front of a line break cannot cut a name that has none. */
  lemma InsertionKeeps(content: string, cut: nat, middle: string, name: string)
    requires cut < |content| && content[cut] == '\n' && Contains(content, name) && '\n' !in name
    ensures Contains(content[..cut] + middle + content[cut..], name)
  {
    var before, after := content[..cut], content[cut..];
    var k :| 0 <= k <= |content| && OccursAt(content, k, name);
    OneSide(content, cut, name, k);
    hide OccursAt;
    assert before == content[0..cut] && after == content[cut..|content|];
    if k + |name| <= cut {
      SliceOccurs(content, 0, cut, k, name);
      ContainsLeft(before, middle, name);
      ContainsLeft(before + middle, after, name);
    } else {
      SliceOccurs(content, cut, |content|, k, name);
      ContainsRight(before + middle, after, name);
    }
  }

  lemma InsertKeeps(content: string, entry: string, name: string)
    requires Contains(content, name) && name != [] && '\n' !in name && !IsSpace(name[|name| - 1])
    ensures Contains(Insert(content, entry), name)
  {
    hide Contains, NextSection, TrimEnd, IsSpace;
    var p, t := IndexOf(content, TIMELINE, 0), TrimEnd(content);
    var i := if p.Some? then NextSection(content, p.value + |TIMELINE|) else None;
    if i.Some? {
      SectionStartsLine(content, p.value + |TIMELINE|);
      InsertionKeeps(content, i.value, "\n" + entry, name);
      Regroup(content[..i.value], "\n", entry);
    } else {
      TrimEndKeeps(content, name);
      if p.Some? {
        ContainsLeft(t, "\n", name);
        ContainsLeft(t + "\n", entry, name);
        ContainsLeft(t + "\n" + entry, "\n", name);
      } else {
        ContainsLeft(t, "\n\n", name);
        ContainsLeft(t + "\n\n", TIMELINE, name);
        ContainsLeft(t + "\n\n" + TIMELINE, "\n\n", name);
        ContainsLeft(t + "\n\n" + TIMELINE + "\n\n", entry, name);
        ContainsLeft(t + "\n\n" + TIMELINE + "\n\n" + entry, "\n", name);
      }
    }
  }

  lemma InsertAdds(content: string, entry: string, name: string)
    requires Contains(entry, name)
    ensures Contains(Insert(content, entry), name)
  {
    hide Contains, NextSection, TrimEnd;
    var p, t := IndexOf(content, TIMELINE, 0), TrimEnd(content);
    var i := if p.Some? then NextSection(content, p.value + |TIMELINE|) else None;
    if i.Some? {
      SectionStartsLine(content, p.value + |TIMELINE|);
      ContainsInside(content[..i.value] + "\n", entry, content[i.value..], name);
    } else if p.Some? {
      ContainsInside(t + "\n", entry, "\n", name);
    } else {
      ContainsInside(t + "\n\n" + TIMELINE + "\n\n", entry, "\n", name);
    }
  }

  /** The entry becomes line k, in front of a section heading. */
  ghost predicate LineInserted(before: seq<string>, after: seq<string>, entry: string, k: nat) {
    k < |before| && "## " <= before[k] && after == before[..k] + [entry] + before[k..]
  }

  /** The first timeline heading is at p. */
  ghost predicate FirstTimeline(content: string, p: nat) {
    OccursAt(content, p, TIMELINE) && forall q :: 0 <= q < p ==> !OccursAt(content, q, TIMELINE)
  }

  /**
   The next section heading after the first timeline heading starts at i: no section heading comes between
   the two, and no second timeline heading up to it.
   */
  ghost predicate NextHeading(content: string, i: nat) {
    exists p :: 0 <= p <= |content| && FirstTimeline(content, p) && HeadingAfter(content, p + |TIMELINE|, i)
  }

  ghost predicate HeadingAfter(content: string, start: nat, i: nat) {
    && start <= i && OccursAt(content, i, SECTION)
    && (forall j :: start <= j < i ==> !OccursAt(content, j, SECTION))
    && (forall q :: start <= q < i + |SECTION| ==> !OccursAt(content, q, TIMELINE))
  }

  /** The search for the next section finds exactly that heading. */
  lemma NextSectionExactly(content: string, start: nat, i: nat)
    requires start <= |content|
    ensures NextSection(content, start) == Some(i) <==> HeadingAfter(content, start, i)
  {
    hide OccursAt, IndexOf;
    var next := IndexOf(content, TIMELINE, start);
    NextWithin(content, start);
    var stop := if next.Some? then next.value else |content|;
    assert content[start..] == content[start..|content|];
    var after := content[start..stop];
    var found := IndexOf(after, SECTION, 0);
    OccursInside(after);
    if found.Some? {
      OccursInSlice(content, start, stop, found.value, SECTION);
      forall j | start <= j < start + found.value ensures !OccursAt(content, j, SECTION) {
        if OccursAt(content, j, SECTION) {
          SliceOccurs(content, start, stop, j, SECTION);
        }
      }
    }
    if HeadingAfter(content, start, i) {
      FitsBefore(content, start, i, stop);
      SliceOccurs(content, start, stop, i, SECTION);
    }
  }

  lemma OccursInside(s: string)
    ensures var i := IndexOf(s, SECTION, 0); i.Some? ==> i.value + |SECTION| <= |s|
  {
  }

  lemma FitsBefore(content: string, start: nat, i: nat, stop: nat)
    requires start <= stop <= |content| && HeadingAfter(content, start, i)
    requires stop == |content| || OccursAt(content, stop, TIMELINE)
    ensures i + |SECTION| <= stop
  {
  }

  lemma FirstTimelineExactly(content: string, p: nat)
    ensures IndexOf(content, TIMELINE, 0) == Some(p) <==> FirstTimeline(content, p)
  {
  }

  /**
   Line by line, an insertion adds the entry and moves nothing: in front of the next section heading after
   the first timeline heading, at the end if there is none, and under a new timeline heading if there is
   no timeline.
   */
  lemma InsertAddsLine(content: string, entry: string)
    requires '\n' !in entry
    ensures !Contains(content, "## Timeline") ==>
      Lines(Insert(content, entry)) == Lines(TrimEnd(content)) + ["", "## Timeline", "", entry, ""]
    ensures Contains(content, "## Timeline") && (forall i: nat :: !NextHeading(content, i)) ==>
      Lines(Insert(content, entry)) == Lines(TrimEnd(content)) + [entry, ""]
    ensures forall i: nat :: NextHeading(content, i) ==>
      i <= |content| && LineInserted(Lines(content), Lines(Insert(content, entry)), entry, |Lines(content[..i])|)
  {
    hide Lines, TrimEnd, NextSection, HeadingAfter, FirstTimeline;
    var p, t := IndexOf(content, TIMELINE, 0), TrimEnd(content);
    forall q: nat ensures p == Some(q) <==> FirstTimeline(content, q) {
      FirstTimelineExactly(content, q);
    }
    if p.None? {
      NewTimelineLines(t, entry);
    } else {
      var start := p.value + |TIMELINE|;
      var i := NextSection(content, start);
      forall j: nat ensures i == Some(j) <==> NextHeading(content, j) {
        NextSectionExactly(content, start, j);
      }
      if i.Some? {
        SectionStartsLine(content, start);
        InsertedAt(content, i.value, entry);
      } else {
        LinesOfEnded(entry);
        LinesAppend(t, entry + "\n");
        Regroup(t + "\n", entry, "\n");
      }
    }
  }

  lemma NewTimelineLines(t: string, entry: string)
    requires '\n' !in entry
    ensures Lines(t + "\n\n" + TIMELINE + "\n\n" + entry + "\n") == Lines(t) + ["", TIMELINE, "", entry, ""]
  {
    hide Lines;
    var rest2 := "" + "\n" + (entry + "\n");
    var rest1 := TIMELINE + "\n" + rest2;
    var rest0 := "" + "\n" + rest1;
    LinesOfEnded(entry);
    LinesAppend("", entry + "\n");
    LinesOfLine("");
    LinesAppend(TIMELINE, rest2);
    LinesOfLine(TIMELINE);
    LinesAppend("", rest1);
    LinesAppend(t, rest0);
    assert t + "\n\n" + TIMELINE + "\n\n" + entry + "\n" == t + "\n" + rest0;
  }

  lemma InsertedAt(content: string, i: nat, entry: string)
    requires i < |content| && OccursAt(content, i, SECTION) && '\n' !in entry
    ensures LineInserted(Lines(content), Lines(content[..i] + "\n" + entry + content[i..]), entry,
            |Lines(content[..i])|)
  {
    hide Lines;
    var a, b := content[..i], content[i + 1..];
    assert content[i..i + |SECTION|] == SECTION;
    assert content[i] == SECTION[0] && content[i + 1..i + 4] == SECTION[1..] == "## ";
    LinesAt(content, i);
    assert "## " <= b;
    FirstLineStarts(b, "## ");
    LinesAppend(entry, b);
    LinesOfLine(entry);
    LinesAppend(a, entry + "\n" + b);
    assert a + "\n" + entry + content[i..] == a + "\n" + (entry + "\n" + b);
  }

  lemma EntryNamesSource(g: Gap, date: string)
    ensures Contains(EntryFor(g, date), Basename(g.source))
  {
    hide Contains, Dots, Basename;
    var name := Basename(g.source);
    var folder, relPath := g.source[..|g.source| - |name|], Dots(g.target) + g.source;
    var opening := "- **" + date + "** | Referenced in [" + g.title + "](";
    ContainsSelf(name);
    ContainsRight(folder, name, name);
    ContainsRight(Dots(g.target), g.source, name);
    ContainsRight(opening, relPath, name);
    ContainsLeft(opening + relPath, ")", name);
  }

  /** Following a relative link from a directory: two dots leave it, any other step enters one. */
  function Resolve(dir: seq<string>, steps: seq<string>): seq<string>
    decreases |steps|
  {
    if steps == [] then dir
    else if steps[0] == ".." then Resolve(if dir == [] then [] else dir[..|dir| - 1], steps[1..])
    else Resolve(dir + [steps[0]], steps[1..])
  }

  lemma {:induction false} PlainSteps(dir: seq<string>, steps: seq<string>)
    requires ".." !in steps
    ensures Resolve(dir, steps) == dir + steps
    decreases |steps|
  {
    if steps != [] {
      PlainSteps(dir + [steps[0]], steps[1..]);
      assert dir + [steps[0]] + steps[1..] == dir + steps;
    }
  }

  /** The dots lead from the target's directory to the root, so the steps after them start there. */
  lemma {:induction false} DotsClimb(target: Path, dir: seq<string>, link: string)
    requires |dir| == |Split(target, '/')| - 1
    ensures Resolve(dir, Split(Dots(target) + link, '/')) == Resolve([], Split(link, '/'))
  {
    if target == [] {
      assert Dots(target) + link == link;
    } else if target[0] == '/' {
      var rest := Dots(target[1..]) + link;
      assert Dots(target) + link == ".." + ['/'] + rest;
      SplitAppend("..", rest, '/');
      SplitNone("..", '/');
      assert ([".."] + Split(rest, '/'))[1..] == Split(rest, '/');
      DotsClimb(target[1..], dir[..|dir| - 1], link);
    } else {
      assert Dots(target) + link == Dots(target[1..]) + link;
      DotsClimb(target[1..], dir, link);
    }
  }

  /** The entry is one dated line with the source's title, and its link leads from the target page back to it. */
  lemma EntryLinksBack(g: Gap, date: string) returns (link: string)
    requires ".." !in Split(g.source, '/')
    ensures EntryFor(g, date) == "- **" + date + "** | Referenced in [" + g.title + "](" + link + ")"
    ensures var steps := Split(g.target, '/');
      Resolve(steps[..|steps| - 1], Split(link, '/')) == Split(g.source, '/')
  {
    hide Dots;
    link := Dots(g.target) + g.source;
    var steps := Split(g.target, '/');
    DotsClimb(g.target, steps[..|steps| - 1], g.source);
    PlainSteps([], Split(g.source, '/'));
    assert [] + Split(g.source, '/') == Split(g.source, '/');
  }

  /** Gaps are applied in list order, each to what the earlier ones left. */
  lemma {:induction false} FixAllInOrder(files: Files, a: seq<Gap>, b: seq<Gap>, date: string)
    ensures FixAll(files, a + b, date) == FixAll(FixAll(files, a, date), b, date)
  {
    hide Fix;
    if b == [] {
      assert a + b == a;
    } else {
      var n, all := |b| - 1, a + b;
      FixAllInOrder(files, a, b[..n], date);
      assert all[..|all| - 1] == a + b[..n] && all[|all| - 1] == b[n];
    }
  }

  lemma {:induction false} OthersStay(files: Files, gaps: seq<Gap>, date: string, t: Path)
    requires t in files && forall g :: g in gaps ==> g.target != t
    ensures t in FixAll(files, gaps, date) && FixAll(files, gaps, date)[t] == files[t]
  {
    hide Insert, EntryFor;
    if gaps != [] {
      var n := |gaps| - 1;
      assert gaps == gaps[..n] + [gaps[n]];
      OthersStay(files, gaps[..n], date, t);
    }
  }

  ghost predicate Linked(files: Files, s: Path, t: Path) {
    t in files && HasBacklink(files[t], Basename(s))
  }

  lemma {:induction false} FixAllKeeps(files: Files, gaps: seq<Gap>, date: string, s: Path, t: Path)
    requires PageName(s) && Linked(files, s, t)
    ensures Linked(FixAll(files, gaps, date), s, t)
  {
    hide Insert, EntryFor, Contains, Basename;
    if gaps != [] {
      var n := |gaps| - 1;
      FixAllKeeps(files, gaps[..n], date, s, t);
      var mid, name := FixAll(files, gaps[..n], date), Basename(s);
      assert name[|name| - 1] == MD[|MD| - 1];
      if gaps[n].target == t {
        InsertKeeps(mid[t], EntryFor(gaps[n], date), name);
      }
    }
  }

  lemma {:induction false} FixAllCloses(files: Files, gaps: seq<Gap>, date: string, g: Gap)
    requires g in gaps && g.target in files && PageName(g.source)
    ensures Linked(FixAll(files, gaps, date), g.source, g.target)
  {
    hide Insert, EntryFor, Contains, Basename;
    var n := |gaps| - 1;
    FixAllKeys(files, gaps[..n], date);
    var mid := FixAll(files, gaps[..n], date);
    if g == gaps[n] {
      EntryNamesSource(g, date);
      InsertAdds(mid[g.target], EntryFor(g, date), Basename(g.source));
    } else {
      assert g in gaps[..n];
      FixAllCloses(files, gaps[..n], date, g);
      FixAllKeeps(mid, [gaps[n]], date, g.source, g.target);
      assert FixAll(mid, [gaps[n]][..0], date) == mid;
      assert FixAll(mid, [gaps[n]], date) == FixAll(files, gaps, date);
    }
  }

  // ----- rounds of find-then-fix -----

  /** The path a fix writes to is the page the gap was found on. */
  predicate WellNamed(path: Path) {
    Slug(path) + MD == path
  }

  /** The page a reference to its slug leads to: no later page of the walk has the same slug. */
  predicate Wins(walk: seq<Path>, page: Path) {
    page in walk && BySlug(walk, Slug(page)) == Some(page)
  }

  predicate IsEntity(slug: string) {
    Folder(People) <= slug || Folder(Companies) <= slug
  }

  ghost predicate Walks(walk: seq<Path>, files: Files) {
    (forall p :: p in walk <==> p in files) && (forall p :: p in walk ==> PageName(p))
  }

  /** Every entity page that wins its slug is where a fix for it is written. */
  ghost predicate WinnersNamed(walk: seq<Path>) {
    forall p :: Wins(walk, p) && IsEntity(Slug(p)) ==> WellNamed(p)
  }

  ghost predicate Named(walk: seq<Path>, files: Files) {
    Walks(walk, files) && WinnersNamed(walk)
  }

  lemma {:induction false} PageGapsFacts(reader: Reader, walk: seq<Path>, files: Files, page: Path, n: nat, g: Gap)
    requires page in files && (forall p :: p in walk ==> p in files) && n <= |reader.refs(files[page])|
    requires g in PageGaps(reader, walk, files, page, n)
    ensures g.source == page
    ensures exists t :: Wins(walk, t) && IsEntity(Slug(t)) && Slug(t) + MD == g.target && !Linked(files, page, t)
  {
    hide Slug, HasBacklink, Basename;
    var r := reader.refs(files[page])[n - 1];
    var t := BySlug(walk, TargetSlug(r));
    if g in PageGaps(reader, walk, files, page, n - 1) {
      PageGapsFacts(reader, walk, files, page, n - 1, g);
    } else {
      BySlugFacts(walk, TargetSlug(r));
      assert Wins(walk, t.value) && IsEntity(Slug(t.value)) && Slug(t.value) + MD == g.target;
    }
  }

  lemma {:induction false} GapsFacts(reader: Reader, walk: seq<Path>, files: Files, n: nat, g: Gap)
    requires (forall p :: p in walk ==> p in files) && n <= |walk| && g in Gaps(reader, walk, files, n)
    ensures g.source in walk
    ensures exists t :: Wins(walk, t) && IsEntity(Slug(t)) && Slug(t) + MD == g.target && !Linked(files, g.source, t)
  {
    hide Wins, IsEntity, Slug, Linked, PageGaps, BySlug;
    var page := walk[n - 1];
    if g in Gaps(reader, walk, files, n - 1) {
      GapsFacts(reader, walk, files, n - 1, g);
    } else {
      PageGapsFacts(reader, walk, files, page, |reader.refs(files[page])|, g);
    }
  }

  /** Where a gap comes from: a reference on its source page, with that reference's directory and slug as target. */
  ghost predicate FromReference(reader: Reader, files: Files, g: Gap) {
    && g.source in files && g.title == reader.title(files[g.source])
    && exists k :: 0 <= k < |reader.refs(files[g.source])| && Names(reader.refs(files[g.source])[k], g)
  }

  ghost predicate Names(r: Ref, g: Gap) {
    && g.entity == r.name
    && g.target == (if r.dir == People then "people/" else "companies/") + r.slug + ".md"
  }

  lemma {:induction false} PageGapsNamed(reader: Reader, walk: seq<Path>, files: Files, page: Path, n: nat, g: Gap)
    requires page in files && (forall p :: p in walk ==> p in files) && n <= |reader.refs(files[page])|
    requires g in PageGaps(reader, walk, files, page, n)
    ensures g.source == page && FromReference(reader, files, g)
  {
    hide BySlug, HasBacklink, Basename, Repeats;
    if g in PageGaps(reader, walk, files, page, n - 1) {
      PageGapsNamed(reader, walk, files, page, n - 1, g);
    } else {
      assert Names(reader.refs(files[page])[n - 1], g);
    }
  }

  lemma {:induction false} GapsNamed(reader: Reader, walk: seq<Path>, files: Files, n: nat, g: Gap)
    requires (forall p :: p in walk ==> p in files) && n <= |walk| && g in Gaps(reader, walk, files, n)
    ensures g.source in walk && FromReference(reader, files, g)
  {
    hide PageGaps, FromReference;
    var page := walk[n - 1];
    if g in Gaps(reader, walk, files, n - 1) {
      GapsNamed(reader, walk, files, n - 1, g);
    } else {
      PageGapsNamed(reader, walk, files, page, |reader.refs(files[page])|, g);
    }
  }

  /**
   What a gap says: its source is a page with a reference to a person or a company, and its target is
   people/ or companies/, the slug of that reference, and .md.
   */
  lemma GapsAreReferences(reader: Reader, walk: seq<Path>, files: Files, g: Gap) returns (r: Ref)
    requires (forall p :: p in walk ==> p in files) && g in AllGaps(reader, walk, files)
    ensures g.source in walk && r in reader.refs(files[g.source])
    ensures r.dir == People ==> g.target == "people/" + r.slug + ".md"
    ensures r.dir == Companies ==> g.target == "companies/" + r.slug + ".md"
    ensures g.entity == r.name && g.title == reader.title(files[g.source])
  {
    GapsNamed(reader, walk, files, |walk|, g);
    var k :| 0 <= k < |reader.refs(files[g.source])| && Names(reader.refs(files[g.source])[k], g);
    r := reader.refs(files[g.source])[k];
  }

  lemma {:induction false} PageGapFound(reader: Reader, walk: seq<Path>, files: Files, page: Path,
      n: nat, k: nat, t: Path)
    requires page in files && (forall p :: p in walk ==> p in files) && k < n <= |reader.refs(files[page])|
    requires BySlug(walk, TargetSlug(reader.refs(files[page])[k])) == Some(t)
    requires t in files && !HasBacklink(files[t], Basename(page))
    ensures exists g :: g in PageGaps(reader, walk, files, page, n)
                        && g.source == page && g.target == TargetSlug(reader.refs(files[page])[k]) + MD
  {
    hide BySlug, HasBacklink, Basename, TargetSlug, PageGaps, Repeats;
    var refs := reader.refs(files[page]);
    var slug, more := TargetSlug(refs[k]), PageGaps(reader, walk, files, page, n - 1);
    PageGapsStep(reader, walk, files, page, n - 1);
    if k < n - 1 {
      PageGapFound(reader, walk, files, page, n - 1, k, t);
      var g :| g in more && g.source == page && g.target == slug + MD;
      assert g in PageGaps(reader, walk, files, page, n);
    } else if Repeats(refs, n - 1, slug) {
      var m := FirstNamed(refs, n - 1, slug);
      PageGapFound(reader, walk, files, page, n - 1, m, t);
      var g :| g in more && g.source == page && g.target == slug + MD;
      assert g in PageGaps(reader, walk, files, page, n);
    } else {
      var g := Gap(page, slug + MD, refs[k].name, reader.title(files[page]));
      assert PageGaps(reader, walk, files, page, n) == more + [g];
      assert (more + [g])[|more|] == g;
    }
  }

  lemma FirstNamed(refs: seq<Ref>, n: nat, slug: string) returns (m: nat)
    requires Repeats(refs, n, slug)
    ensures m < n && m < |refs| && TargetSlug(refs[m]) == slug
  {
    m :| m < n && m < |refs| && TargetSlug(refs[m]) == slug;
  }

  lemma {:induction false} GapsHold(reader: Reader, walk: seq<Path>, files: Files, n: nat, i: nat, g: Gap)
    requires (forall p :: p in walk ==> p in files) && i < n <= |walk|
    requires g in PageGaps(reader, walk, files, walk[i], |reader.refs(files[walk[i]])|)
    ensures g in Gaps(reader, walk, files, n)
  {
    hide PageGaps;
    if i < n - 1 {
      GapsHold(reader, walk, files, n - 1, i, g);
    }
  }

  /**
   The scan reports a page and a person exactly if the page refers to that person, whose own page does not
   contain the page's file name. That page has to be found by its name: it is well named and wins its slug.
   Companies go the same way.
   */
  lemma GapsExactly(reader: Reader, walk: seq<Path>, files: Files, page: Path, slug: string, dir: EntityDir)
    requires (forall p :: p in walk ==> p in files) && page in walk
    requires var t := (if dir == People then "people/" else "companies/") + slug + ".md"; WellNamed(t) && Wins(walk, t)
    ensures var t := (if dir == People then "people/" else "companies/") + slug + ".md";
      (exists g :: g in AllGaps(reader, walk, files) && g.source == page && g.target == t) <==>
        (exists r :: r in reader.refs(files[page]) && r.dir == dir && r.slug == slug)
        && !Contains(files[t], Basename(page))
  {
    hide BySlug, Slug, Basename, Contains, Gaps, PageGaps;
    var t := (if dir == People then "people/" else "companies/") + slug + ".md";
    TargetsDiffer(dir, slug, t);
    if r :| r in reader.refs(files[page]) && r.dir == dir && r.slug == slug && !Contains(files[t], Basename(page)) {
      var refs := reader.refs(files[page]);
      var k :| 0 <= k < |refs| && refs[k] == r;
      assert TargetSlug(r) + MD == t;
      PageGapFound(reader, walk, files, page, |refs|, k, t);
      var g :| g in PageGaps(reader, walk, files, page, |refs|) && g.source == page && g.target == TargetSlug(r) + MD;
      var i :| 0 <= i < |walk| && walk[i] == page;
      GapsHold(reader, walk, files, |walk|, i, g);
    }
    if g :| g in AllGaps(reader, walk, files) && g.source == page && g.target == t {
      var r := GapsAreReferences(reader, walk, files, g);
      SameTarget(r, dir, slug, t);
      GapsFacts(reader, walk, files, |walk|, g);
      var u :| Wins(walk, u) && IsEntity(Slug(u)) && Slug(u) + MD == g.target && !Linked(files, page, u);
      assert Slug(u) == Slug(t) && u == t;
    }
  }

  /** The slug of a well-named page is what a reference to it is looked up by. */
  lemma TargetsDiffer(dir: EntityDir, slug: string, t: Path)
    requires t == (if dir == People then "people/" else "companies/") + slug + ".md" && WellNamed(t)
    ensures forall r: Ref :: r.dir == dir && r.slug == slug ==> TargetSlug(r) == Slug(t)
    ensures forall u :: Slug(u) + MD == t ==> Slug(u) == Slug(t)
  {
    hide Slug;
    forall s: string | s + MD == t ensures s == Slug(t) {
      assert s == t[..|t| - |MD|] == Slug(t);
    }
    forall r: Ref | r.dir == dir && r.slug == slug ensures TargetSlug(r) + MD == t {
    }
  }

  lemma SameTarget(r: Ref, dir: EntityDir, slug: string, t: Path)
    requires t == (if dir == People then "people/" else "companies/") + slug + ".md"
    requires t == (if r.dir == People then "people/" else "companies/") + r.slug + ".md"
    ensures r.dir == dir && r.slug == slug
  {
    assert "people/"[0] == 'p' && "companies/"[0] == 'c';
    assert t[0] == (if dir == People then 'p' else 'c') && t[0] == (if r.dir == People then 'p' else 'c');
    var k := if dir == People then 7 else 10;
    assert slug == t[k..|t| - 3] == r.slug;
  }

  /** A page and a target are reported together at most once. */
  lemma {:induction false} PageGapsDiffer(reader: Reader, walk: seq<Path>, files: Files, page: Path, n: nat)
    requires page in files && (forall p :: p in walk ==> p in files) && n <= |reader.refs(files[page])|
    ensures var gs := PageGaps(reader, walk, files, page, n);
      && (forall g :: g in gs ==>
            g.source == page && |g.target| >= |MD|
            && Repeats(reader.refs(files[page]), n, g.target[..|g.target| - |MD|]))
      && forall i, j :: 0 <= i < j < |gs| ==> gs[i].target != gs[j].target
  {
    hide BySlug, HasBacklink, Basename, TargetSlug, Repeats, PageGaps;
    NothingScanned(reader, walk, files, page);
    if n > 0 {
      var refs := reader.refs(files[page]);
      var slug := TargetSlug(refs[n - 1]);
      var before, after := PageGaps(reader, walk, files, page, n - 1), PageGaps(reader, walk, files, page, n);
      PageGapsDiffer(reader, walk, files, page, n - 1);
      PageGapsStep(reader, walk, files, page, n - 1);
      RepeatsStep(refs, n - 1);
      assert forall g: Gap :: g.target == slug + MD ==> g.target[..|g.target| - |MD|] == slug;
      forall i, j | 0 <= i < j < |after| ensures after[i].target != after[j].target {
        assert after[i] == before[i] && before[i] in before;
      }
    }
  }

  /** No two gaps have the same source and the same target. */
  ghost predicate PairsDiffer(gs: seq<Gap>) {
    forall i, j :: 0 <= i < j < |gs| ==> gs[i].source != gs[j].source || gs[i].target != gs[j].target
  }

  lemma PairsJoined(before: seq<Gap>, more: seq<Gap>, page: Path)
    requires PairsDiffer(before) && forall g :: g in before ==> g.source != page
    requires forall i, j :: 0 <= i < j < |more| ==> more[i].target != more[j].target
    requires forall g :: g in more ==> g.source == page
    ensures PairsDiffer(before + more)
  {
    var all := before + more;
    forall i, j | 0 <= i < j < |all| ensures all[i].source != all[j].source || all[i].target != all[j].target {
      if j < |before| {
        assert all[i] == before[i] && all[j] == before[j];
      } else if i < |before| {
        var g, h := before[i], more[j - |before|];
        assert all[i] == g && all[j] == h && g in before && h in more;
      } else {
        assert all[i] == more[i - |before|] && all[j] == more[j - |before|];
      }
    }
  }

  lemma {:induction false} GapsDiffer(reader: Reader, walk: seq<Path>, files: Files, n: nat)
    requires (forall p :: p in walk ==> p in files) && n <= |walk| && Distinct(walk)
    ensures var gs := Gaps(reader, walk, files, n);
      PairsDiffer(gs) && forall g :: g in gs ==> g.source in walk[..n]
  {
    hide PageGaps, PairsDiffer, Distinct;
    if n == 0 {
      NothingPaired();
    } else {
      var page := walk[n - 1];
      var before := Gaps(reader, walk, files, n - 1);
      var more := PageGaps(reader, walk, files, page, |reader.refs(files[page])|);
      GapsDiffer(reader, walk, files, n - 1);
      PageGapsDiffer(reader, walk, files, page, |reader.refs(files[page])|);
      NewInWalk(walk, n - 1);
      forall g | g in before ensures g.source != page && g.source in walk[..n] {
      }
      forall g | g in more ensures g.source == page && g.source in walk[..n] {
      }
      PairsJoined(before, more, page);
    }
  }

  lemma NewInWalk(walk: seq<Path>, k: nat)
    requires Distinct(walk) && k < |walk|
    ensures walk[k] !in walk[..k] && walk[..k + 1] == walk[..k] + [walk[k]]
  {
  }

  lemma NothingPaired()
    ensures PairsDiffer([])
  {
  }

  /** A reported gap is between two existing pages, and the link is missing. */
  lemma GapIsLacking(reader: Reader, walk: seq<Path>, files: Files, g: Gap)
    requires Named(walk, files) && g in AllGaps(reader, walk, files)
    ensures g.source in files && g.target in files && !Linked(files, g.source, g.target)
  {
    GapsFacts(reader, walk, files, |walk|, g);
  }

  /** Each of the page's first n references that leads to a page finds a link back there. */
  ghost predicate RefsLinked(reader: Reader, walk: seq<Path>, files: Files, page: Path, n: nat)
    requires page in files && n <= |reader.refs(files[page])|
  {
    forall k :: 0 <= k < n ==>
      var t := BySlug(walk, TargetSlug(reader.refs(files[page])[k]));
      t.Some? ==> Linked(files, page, t.value)
  }

  /** What a scan looks for: every page is linked from all the pages its references lead to. */
  ghost predicate AllLinked(reader: Reader, walk: seq<Path>, files: Files, n: nat)
    requires (forall p :: p in walk ==> p in files) && n <= |walk|
  {
    forall i :: 0 <= i < n ==> RefsLinked(reader, walk, files, walk[i], |reader.refs(files[walk[i]])|)
  }

  lemma {:induction false} PageIsClean(reader: Reader, walk: seq<Path>, files: Files, page: Path, n: nat)
    requires page in files && (forall p :: p in walk ==> p in files) && n <= |reader.refs(files[page])|
    ensures PageGaps(reader, walk, files, page, n) == [] <==> RefsLinked(reader, walk, files, page, n)
  {
    hide BySlug, HasBacklink, Basename, TargetSlug;
    if n > 0 {
      var refs := reader.refs(files[page]);
      var slug := TargetSlug(refs[n - 1]);
      var t := BySlug(walk, slug);
      PageIsClean(reader, walk, files, page, n - 1);
      BySlugFacts(walk, slug);
      assert RefsLinked(reader, walk, files, page, n) <==>
        RefsLinked(reader, walk, files, page, n - 1) && (t.Some? ==> Linked(files, page, t.value));
      if Repeats(refs, n - 1, slug) {
        var m :| 0 <= m < n - 1 && TargetSlug(refs[m]) == slug;
        assert RefsLinked(reader, walk, files, page, n - 1) && t.Some? ==> Linked(files, page, t.value);
      }
    }
  }

  /** A scan reports nothing exactly if every page is linked back from all the pages it refers to. */
  lemma {:induction false} CleanExactly(reader: Reader, walk: seq<Path>, files: Files, n: nat)
    requires (forall p :: p in walk ==> p in files) && n <= |walk|
    ensures Gaps(reader, walk, files, n) == [] <==> AllLinked(reader, walk, files, n)
  {
    hide PageGaps, RefsLinked;
    if n > 0 {
      CleanExactly(reader, walk, files, n - 1);
      PageIsClean(reader, walk, files, walk[n - 1], |reader.refs(files[walk[n - 1]])|);
    }
  }

  /** Every source/target pair of pages without a back-link. */
  ghost function Lacking(files: Files): set<(Path, Path)> {
    set s, t | s in files && t in files && !Linked(files, s, t) :: (s, t)
  }

  ghost function Round(reader: Reader, walk: seq<Path>, files: Files, date: string): Files
    requires Walks(walk, files)
  {
    FixAll(files, AllGaps(reader, walk, files), date)
  }

  /** A round closes every gap it reports, loses no link, and so shrinks the lacking pairs. */
  lemma RoundShrinks(reader: Reader, walk: seq<Path>, files: Files, date: string)
    requires Named(walk, files)
    ensures var later := Round(reader, walk, files, date);
            && later.Keys == files.Keys
            && (forall g :: g in AllGaps(reader, walk, files) ==> Linked(later, g.source, g.target))
            && Lacking(later) <= Lacking(files)
            && (AllGaps(reader, walk, files) != [] ==> Lacking(later) < Lacking(files))
  {
    var gaps := AllGaps(reader, walk, files);
    var later := Round(reader, walk, files, date);
    FixAllKeys(files, gaps, date);
    forall s, t | s in files && Linked(files, s, t) ensures Linked(later, s, t) {
      FixAllKeeps(files, gaps, date, s, t);
    }
    forall g | g in gaps ensures Linked(later, g.source, g.target) && (g.source, g.target) in Lacking(files) {
      GapIsLacking(reader, walk, files, g);
      FixAllCloses(files, gaps, date, g);
    }
    forall p | p in Lacking(later) ensures p in Lacking(files) {
    }
    if gaps != [] {
      var g := gaps[0];
      assert (g.source, g.target) in Lacking(files) && (g.source, g.target) !in Lacking(later);
    }
  }

  ghost function Iterate(reader: Reader, walk: seq<Path>, files: Files, dates: nat -> string, n: nat): (later: Files)
    requires Walks(walk, files)
    ensures Walks(walk, later)
  {
    if n == 0 then files
    else
      var mid := Iterate(reader, walk, files, dates, n - 1);
      FixAllKeys(mid, AllGaps(reader, walk, mid), dates(n - 1));
      Round(reader, walk, mid, dates(n - 1))
  }

  lemma {:induction false} LinksOnlyGrow(reader: Reader, walk: seq<Path>, files: Files, dates: nat -> string,
      i: nat, j: nat)
    requires Named(walk, files) && i <= j
    ensures Lacking(Iterate(reader, walk, files, dates, j)) <= Lacking(Iterate(reader, walk, files, dates, i))
  {
    hide Lacking, Walks, WinnersNamed, AllGaps, FixAll;
    if i < j {
      LinksOnlyGrow(reader, walk, files, dates, i, j - 1);
      RoundShrinks(reader, walk, Iterate(reader, walk, files, dates, j - 1), dates(j - 1));
    }
  }

  /** A gap reported in one round is not reported in any later round. */
  lemma GapsNeverReturn(reader: Reader, walk: seq<Path>, files: Files, dates: nat -> string,
      i: nat, j: nat, g: Gap, h: Gap)
    requires Named(walk, files) && i < j
    requires g in AllGaps(reader, walk, Iterate(reader, walk, files, dates, i))
    requires h in AllGaps(reader, walk, Iterate(reader, walk, files, dates, j))
    ensures (g.source, g.target) != (h.source, h.target)
  {
    hide Walks, WinnersNamed, AllGaps, FixAll, HasBacklink;
    var before, after, last := Iterate(reader, walk, files, dates, i), Iterate(reader, walk, files, dates, i + 1),
        Iterate(reader, walk, files, dates, j);
    RoundShrinks(reader, walk, before, dates(i));
    GapIsLacking(reader, walk, before, g);
    LinksOnlyGrow(reader, walk, files, dates, i + 1, j);
    GapIsLacking(reader, walk, last, h);
    assert (h.source, h.target) in Lacking(last);
    assert (g.source, g.target) !in Lacking(after);
  }

  /**
   Find-then-fix reaches a fixpoint, for any reference extractor, within as many rounds as there are
   pairs without a back-link: every page is then linked back from all the pages it refers to, from then on
   every scan is clean and nothing changes.
   */
  lemma {:induction false} Converges(reader: Reader, walk: seq<Path>, files: Files, dates: nat -> string,
      i: nat) returns (n: nat)
    requires Named(walk, files)
    ensures i <= n <= i + |Lacking(Iterate(reader, walk, files, dates, i))|
    ensures AllGaps(reader, walk, Iterate(reader, walk, files, dates, n)) == []
    ensures AllLinked(reader, walk, Iterate(reader, walk, files, dates, n), |walk|)
    ensures forall m :: m >= n ==> Iterate(reader, walk, files, dates, m) == Iterate(reader, walk, files, dates, n)
    decreases |Lacking(Iterate(reader, walk, files, dates, i))|
  {
    hide Lacking, Gaps, FixAll, PageName, WellNamed, AllLinked;
    var here := Iterate(reader, walk, files, dates, i);
    if AllGaps(reader, walk, here) == [] {
      n := i;
      CleanExactly(reader, walk, here, |walk|);
      forall m | m >= n ensures Iterate(reader, walk, files, dates, m) == here {
        StaysClean(reader, walk, files, dates, n, m);
      }
    } else {
      RoundShrinks(reader, walk, here, dates(i));
      SubsetSmaller(Lacking(Iterate(reader, walk, files, dates, i + 1)), Lacking(here));
      n := Converges(reader, walk, files, dates, i + 1);
    }
  }

  lemma SubsetSmaller<T>(a: set<T>, b: set<T>)
    requires a < b
    ensures |a| < |b|
  {
    var x :| x in b && x !in a;
    assert a <= b - {x};
    SubsetNoLarger(a, b - {x});
  }

  lemma {:induction false} SubsetNoLarger<T>(a: set<T>, b: set<T>)
    requires a <= b
    ensures |a| <= |b|
  {
    if a != {} {
      var x :| x in a;
      SubsetNoLarger(a - {x}, b - {x});
    }
  }

  lemma {:induction false} StaysClean(reader: Reader, walk: seq<Path>, files: Files, dates: nat -> string,
      n: nat, m: nat)
    requires Named(walk, files) && n <= m
    requires AllGaps(reader, walk, Iterate(reader, walk, files, dates, n)) == []
    ensures Iterate(reader, walk, files, dates, m) == Iterate(reader, walk, files, dates, n)
  {
    hide Walks, WinnersNamed, AllGaps;
    if n < m {
      StaysClean(reader, walk, files, dates, n, m - 1);
    }
  }

  // ----- exactly when it converges -----

  /** A page wins its slug exactly if it has a place in the walk after which no page has that slug. */
  lemma {:induction false} WinsExactly(walk: seq<Path>, page: Path)
    ensures Wins(walk, page) <==>
      exists i :: 0 <= i < |walk| && walk[i] == page && forall j :: i < j < |walk| ==> Slug(walk[j]) != Slug(page)
  {
    hide Slug;
    if walk != [] {
      var n := |walk| - 1;
      var front := walk[..n];
      assert walk == front + [walk[n]];
      if Slug(walk[n]) == Slug(page) {
        assert Wins(walk, page) <==> walk[n] == page;
      } else {
        WinsExactly(front, page);
        assert Wins(walk, page) <==> Wins(front, page);
        assert forall i :: 0 <= i < n ==> front[i] == walk[i];
        if i :| 0 <= i < |walk| && walk[i] == page && forall j :: i < j < |walk| ==> Slug(walk[j]) != Slug(page) {
          assert i < n && front[i] == page && forall j :: i < j < |front| ==> Slug(front[j]) != Slug(page);
        }
        if i :| 0 <= i < |front| && front[i] == page && forall j :: i < j < |front| ==> Slug(front[j]) != Slug(page) {
          assert walk[i] == page && forall j :: i < j < |walk| ==> Slug(walk[j]) != Slug(page);
        }
      }
    }
  }

  /** What a link to a page spells: its path without the ending. */
  function Stem(page: Path): string
    requires |page| >= |MD|
  {
    page[..|page| - |MD|]
  }

  /** A link to a page's own path finds it exactly if the page is well named and wins its slug. */
  lemma FoundByOwnPath(walk: seq<Path>, page: Path)
    requires page in walk && PageName(page)
    ensures BySlug(walk, Stem(page)) == Some(page) <==> WellNamed(page) && Wins(walk, page)
  {
    hide Slug, BySlug, Basename;
    var name := Basename(page);
    assert page == page[..|page| - |name|] + name;
    assert page == Stem(page) + MD;
    BySlugFacts(walk, Stem(page));
    if WellNamed(page) {
      assert Slug(page) == (Slug(page) + MD)[..|Slug(page)|] == Stem(page);
    }
  }

  /** The page whose stem already holds ".md" is not well named: a link to its own path finds nothing. */
  lemma OwnLinkFindsNothing()
    ensures Slug("people/x.mdy.md") == "people/xy.md" && !WellNamed("people/x.mdy.md")
    ensures BySlug(["people/x.mdy.md"], "people/x.mdy") == None
  {
    StemWithMdIsMisnamed();
    assert "people/xy.md"[8] == 'y' && "people/x.mdy"[8] == '.';
    assert ["people/x.mdy.md"][..0] == [];
  }

  /** An extractor that reads one and the same reference in every page. */
  function Constant(r: Ref): Reader {
    Reader(text => [r], text => "")
  }

  function Blank(walk: seq<Path>): Files {
    map p | p in walk :: ""
  }

  lemma PageTargets(r: Ref, walk: seq<Path>, files: Files, page: Path, n: nat, g: Gap)
    requires page in files && (forall p :: p in walk ==> p in files) && n <= 1
    requires g in PageGaps(Constant(r), walk, files, page, n)
    ensures g.target == TargetSlug(r) + MD
  {
    hide TargetSlug, BySlug, HasBacklink;
    assert PageGaps(Constant(r), walk, files, page, 0) == [];
  }

  lemma {:induction false} GapTargets(r: Ref, walk: seq<Path>, files: Files, n: nat, g: Gap)
    requires (forall p :: p in walk ==> p in files) && n <= |walk| && g in Gaps(Constant(r), walk, files, n)
    ensures g.target == TargetSlug(r) + MD
  {
    hide PageGaps;
    if g in Gaps(Constant(r), walk, files, n - 1) {
      GapTargets(r, walk, files, n - 1, g);
    } else {
      PageTargets(r, walk, files, walk[n - 1], 1, g);
    }
  }

  lemma {:induction false} ForNone(gaps: seq<Gap>, t: Path)
    requires forall g :: g in gaps ==> g.target != t
    ensures For(gaps, t) == []
  {
    if gaps != [] {
      ForNone(gaps[..|gaps| - 1], t);
    }
  }

  lemma PageReports(r: Ref, walk: seq<Path>, files: Files, t: Path)
    requires t in files && (forall p :: p in walk ==> p in files)
    requires BySlug(walk, TargetSlug(r)) == Some(t) && !Linked(files, t, t)
    ensures PageGaps(Constant(r), walk, files, t, 1) != []
  {
    hide BySlug, HasBacklink, Basename, TargetSlug;
    assert !Repeats([r], 0, TargetSlug(r));
    assert PageGaps(Constant(r), walk, files, t, 0) == [];
  }

  lemma {:induction false} GapReported(r: Ref, walk: seq<Path>, files: Files, t: Path, n: nat)
    requires (forall p :: p in walk ==> p in files) && n <= |walk| && t in walk[..n]
    requires BySlug(walk, TargetSlug(r)) == Some(t) && !Linked(files, t, t)
    ensures Gaps(Constant(r), walk, files, n) != []
  {
    hide BySlug, TargetSlug, PageGaps, Linked;
    if t in walk[..n - 1] {
      GapReported(r, walk, files, t, n - 1);
    } else {
      assert walk[..n] == walk[..n - 1] + [walk[n - 1]];
      assert walk[n - 1] == t;
      PageReports(r, walk, files, t);
    }
  }

  lemma NoLinkInEmptyPage(name: string)
    requires name != ""
    ensures !HasBacklink("", name)
  {
  }

  /** While every gap is written elsewhere, the misnamed page stays blank and its own link stays missing. */
  lemma {:induction false} MisnamedStaysBlank(r: Ref, walk: seq<Path>, t: Path, dates: nat -> string, n: nat)
    requires Walks(walk, Blank(walk)) && t in walk && TargetSlug(r) + MD != t
    ensures var later := Iterate(Constant(r), walk, Blank(walk), dates, n);
      t in later && later[t] == ""
  {
    hide AllGaps, TargetSlug, FixAll, PageName;
    if n > 0 {
      MisnamedStaysBlank(r, walk, t, dates, n - 1);
      var mid := Iterate(Constant(r), walk, Blank(walk), dates, n - 1);
      BlankRound(r, walk, mid, t, dates(n - 1));
    }
  }

  lemma BlankRound(r: Ref, walk: seq<Path>, files: Files, t: Path, date: string)
    requires Walks(walk, files) && t in files && TargetSlug(r) + MD != t
    ensures var later := Round(Constant(r), walk, files, date);
      t in later && later[t] == files[t]
  {
    hide For, FixAll, Gaps, TargetSlug;
    var gaps := AllGaps(Constant(r), walk, files);
    forall g | g in gaps ensures g.target != t {
      GapTargets(r, walk, files, |walk|, g);
    }
    ForNone(gaps, t);
    FixAllAt(files, gaps, date, t);
    EditedByNone(files[t], date);
  }

  /** The reference that leads to an entity page. */
  function RefTo(t: Path): Ref {
    var slug := Slug(t);
    if Folder(People) <= slug then Ref("", slug[|Folder(People)|..], People)
    else if Folder(Companies) <= slug then Ref("", slug[|Folder(Companies)|..], Companies)
    else Ref("", "", People)
  }

  lemma RefLeadsTo(t: Path)
    requires IsEntity(Slug(t))
    ensures TargetSlug(RefTo(t)) == Slug(t)
  {
    hide Slug;
  }

  /** The scan after n rounds reports nothing. */
  ghost predicate CleanAfter(reader: Reader, walk: seq<Path>, files: Files, dates: nat -> string, n: nat)
    requires Walks(walk, files)
  {
    AllGaps(reader, walk, Iterate(reader, walk, files, dates, n)) == []
  }

  ghost predicate Settles(reader: Reader, walk: seq<Path>, files: Files, dates: nat -> string)
    requires Walks(walk, files)
  {
    exists n :: CleanAfter(reader, walk, files, dates, n)
  }

  /**
   One entity page that wins its slug without being well named is enough: with an extractor that refers to
   it and pages that are blank, every round reports a gap for it, for ever.
   */
  lemma MisnamedPageNeverCloses(walk: seq<Path>, t: Path, dates: nat -> string, n: nat)
    requires Walks(walk, Blank(walk)) && Wins(walk, t) && IsEntity(Slug(t)) && !WellNamed(t)
    ensures !CleanAfter(Constant(RefTo(t)), walk, Blank(walk), dates, n)
  {
    hide Slug, BySlug, Gaps, HasBacklink, RefTo, IsEntity, Iterate, Constant, TargetSlug, Basename;
    var r := RefTo(t);
    RefLeadsTo(t);
    MisnamedStaysBlank(r, walk, t, dates, n);
    assert PageName(t) && Basename(t) != "";
    NoLinkInEmptyPage(Basename(t));
    assert walk[..|walk|] == walk;
    GapReported(r, walk, Iterate(Constant(r), walk, Blank(walk), dates, n), t, |walk|);
  }

  /**
   On a walk of page names, find-then-fix reaches a clean scan for every extractor and every content
   exactly if each entity page that wins its slug is well named.
   */
  lemma ConvergesExactly(walk: seq<Path>, dates: nat -> string)
    requires forall p :: p in walk ==> PageName(p)
    ensures WinnersNamed(walk) <==>
      forall reader: Reader, files: Files :: Walks(walk, files) ==> Settles(reader, walk, files, dates)
  {
    hide AllGaps, Iterate, Wins, IsEntity, PageName, WellNamed;
    if WinnersNamed(walk) {
      forall reader: Reader, files: Files | Walks(walk, files) ensures Settles(reader, walk, files, dates) {
        var n := Converges(reader, walk, files, dates, 0);
        assert CleanAfter(reader, walk, files, dates, n);
      }
    } else {
      var t :| Wins(walk, t) && IsEntity(Slug(t)) && !WellNamed(t);
      var reader, files := Constant(RefTo(t)), Blank(walk);
      assert Walks(walk, files);
      forall n: nat ensures !CleanAfter(reader, walk, files, dates, n) {
        MisnamedPageNeverCloses(walk, t, dates, n);
      }
      assert !Settles(reader, walk, files, dates);
    }
  }

  lemma {:induction false} MisnamedTargetsAreSkipped(files: Files, gaps: seq<Gap>, date: string)
    requires forall g :: g in gaps ==> g.target !in files
    ensures FixAll(files, gaps, date) == files
  {
    if gaps != [] {
      MisnamedTargetsAreSkipped(files, gaps[..|gaps| - 1], date);
    }
  }

  /** A page whose stem already contains ".md" is one: its slug loses the wrong ".md". */
  lemma StemWithMdIsMisnamed()
    ensures Slug("people/x.mdy.md") == "people/xy.md" && !WellNamed("people/x.mdy.md")
  {
    hide Slug;
    var b := "people/x.mdy.md";
    assert b[8..11] == MD;
    SlugAt(b, 8);
    assert b[..8] == "people/x" && b[11..] == "y.md";
    assert ("people/xy.md" + MD)[8] == 'y';
  }

  lemma SlugAt(path: Path, i: nat)
    requires i + |MD| <= |path| && path[i..i + |MD|] == MD && forall j :: 0 <= j < i ==> path[j] != '.'
    ensures Slug(path) == path[..i] + path[i + |MD|..]
  {
    assert OccursAt(path, i, MD);
    forall j | 0 <= j < i ensures !OccursAt(path, j, MD) {
      var here := path[j..j + |MD|];
      assert here[0] == path[j] && MD[0] == '.';
    }
  }
}
