/** The diff-based test selector: classify a change set and narrow the test list by a glob map. */
module SelectE2E {
  import opened Collections
  import Glob

  const DOC_ROOT_FILES: seq<string> :=
    ["README.md", "CLAUDE.md", "AGENTS.md", "CHANGELOG.md", "TODOS.md", "LICENSE", "VERSION"]

  const ESCAPE_HATCH_FILES: seq<string> :=
    ["src/schema.sql", "src/core/migrate.ts", "src/core/db.ts", "src/core/engine-factory.ts",
     "src/core/operations.ts", "package.json", "bun.lock", "Dockerfile.ci", "docker-compose.ci.yml",
     "scripts/ci-local.sh", "scripts/run-e2e.sh", "scripts/select-e2e.ts", "scripts/e2e-test-map.ts",
     "test/e2e/helpers.ts"]

  const ESCAPE_HATCH_PREFIXES: seq<string> :=
    ["src/commands/migrations/", "test/e2e/fixtures/", "skills/", ".github/workflows/"]

  predicate EndsWith(p: string, suffix: string) {
    |suffix| <= |p| && p[|p| - |suffix|..] == suffix
  }

  predicate IsDocPath(p: string) {
    p in DOC_ROOT_FILES || ('/' !in p && EndsWith(p, ".md")) || "docs/" <= p
  }

  predicate IsEscapeHatch(p: string) {
    p in ESCAPE_HATCH_FILES || exists prefix :: prefix in ESCAPE_HATCH_PREFIXES && prefix <= p
  }

  predicate IsTestFile(p: string) {
    "test/e2e/" <= p && EndsWith(p, ".test.ts")
  }

  datatype Class = Empty | DocOnly | Src

  method Classify(changed: seq<string>) returns (c: Class)
    ensures c.Empty? <==> changed == []
    ensures c.DocOnly? <==> changed != [] && forall f :: f in changed ==> IsDocPath(f)
    ensures c.DocOnly? <==> changed != [] && forall f :: f in changed ==>
      || f in ["README.md", "CLAUDE.md", "AGENTS.md", "CHANGELOG.md", "TODOS.md", "LICENSE", "VERSION"]
      || ('/' !in f && |f| >= 3 && f[|f| - 3..] == ".md")
      || "docs/" <= f
  {
    if |changed| == 0 {
      return Empty;
    }
    for i := 0 to |changed|
      invariant forall j :: 0 <= j < i ==> IsDocPath(changed[j])
    {
      if !IsDocPath(changed[i]) {
        return Src;
      }
    }
    return DocOnly;
  }

  /** String order of Array.sort: by code unit, a prefix first. */
  predicate AtMost(a: string, b: string) {
    a == [] || (b != [] && (a[0] < b[0] || (a[0] == b[0] && AtMost(a[1..], b[1..]))))
  }

  lemma {:induction false} AtMostTotal(a: string, b: string)
    ensures AtMost(a, b) || AtMost(b, a)
  {
    if a != [] && b != [] {
      AtMostTotal(a[1..], b[1..]);
    }
  }

  lemma {:induction false} AtMostTransitive(a: string, b: string, c: string)
    requires AtMost(a, b) && AtMost(b, c)
    ensures AtMost(a, c)
  {
    if a != [] && a[0] == b[0] == c[0] {
      AtMostTransitive(a[1..], b[1..], c[1..]);
    }
  }

  /** The two strings agree before i and differ there, the first having the smaller character. */
  ghost predicate SmallerAt(a: string, b: string, i: nat) {
    i < |a| && i < |b| && a[i] < b[i] && forall k :: 0 <= k < i ==> a[k] == b[k]
  }

  lemma SmallerBehind(a: string, b: string, i: nat)
    requires a != [] && b != [] && a[0] == b[0]
    ensures SmallerAt(a, b, i) <==> i > 0 && SmallerAt(a[1..], b[1..], i - 1)
  {
    if i > 0 && SmallerAt(a[1..], b[1..], i - 1) {
      forall k | 0 <= k < i ensures a[k] == b[k] {
        assert k > 0 ==> a[k] == a[1..][k - 1] && b[k] == b[1..][k - 1];
      }
    }
  }

  /** The order compares at the first difference; where there is none the shorter string comes first. */
  lemma {:induction false} AtMostExactly(a: string, b: string)
    ensures AtMost(a, b) <==> a <= b || exists i :: SmallerAt(a, b, i)
  {
    hide SmallerAt;
    if a != [] && b != [] && a[0] == b[0] {
      AtMostExactly(a[1..], b[1..]);
      assert a <= b <==> a[1..] <= b[1..];
      forall i: nat ensures SmallerAt(a, b, i) <==> i > 0 && SmallerAt(a[1..], b[1..], i - 1) {
        SmallerBehind(a, b, i);
      }
      if i: nat :| SmallerAt(a[1..], b[1..], i) {
        assert SmallerAt(a, b, i + 1);
      }
    } else {
      NowOrNever(a, b);
    }
  }

  lemma NowOrNever(a: string, b: string)
    requires a == [] || b == [] || a[0] != b[0]
    ensures (exists i :: SmallerAt(a, b, i)) <==> a != [] && b != [] && a[0] < b[0]
  {
    if a != [] && b != [] && a[0] < b[0] {
      assert SmallerAt(a, b, 0);
    }
  }

  ghost predicate Sorted(s: seq<string>) {
    forall i, j :: 0 <= i < j < |s| ==> AtMost(s[i], s[j])
  }

  function Insert(s: seq<string>, t: string): seq<string> {
    if s == [] || AtMost(s[|s| - 1], t) then s + [t] else Insert(s[..|s| - 1], t) + [s[|s| - 1]]
  }

  function Sort(s: seq<string>): seq<string> {
    if s == [] then [] else Insert(Sort(s[..|s| - 1]), s[|s| - 1])
  }

  lemma {:induction false} InsertSorted(s: seq<string>, t: string)
    requires Sorted(s)
    ensures Sorted(Insert(s, t)) && multiset(Insert(s, t)) == multiset(s) + multiset{t}
  {
    hide AtMost;
    if s != [] {
      var last := s[|s| - 1];
      assert s == s[..|s| - 1] + [last];
      if AtMost(last, t) {
        forall i | 0 <= i < |s| ensures AtMost(s[i], t) {
          if i < |s| - 1 {
            AtMostTransitive(s[i], last, t);
          }
        }
      } else {
        AtMostTotal(last, t);
        InsertSorted(s[..|s| - 1], t);
        LastStaysLast(s[..|s| - 1], t, last);
      }
    }
  }

  lemma LastStaysLast(s: seq<string>, t: string, last: string)
    requires AtMost(t, last) && forall x :: x in s ==> AtMost(x, last)
    requires multiset(Insert(s, t)) == multiset(s) + multiset{t}
    ensures forall i :: 0 <= i < |Insert(s, t)| ==> AtMost(Insert(s, t)[i], last)
  {
    hide AtMost, Insert;
    forall i | 0 <= i < |Insert(s, t)| ensures AtMost(Insert(s, t)[i], last) {
      assert Insert(s, t)[i] in multiset(Insert(s, t));
    }
  }

  lemma {:induction false} SortSorts(s: seq<string>)
    ensures Sorted(Sort(s)) && multiset(Sort(s)) == multiset(s)
  {
    hide Insert, AtMost, Sorted;
    if s == [] {
      EmptyIsDistinct();
    } else {
      var front, last := s[..|s| - 1], s[|s| - 1];
      assert s == front + [last];
      SortSorts(front);
      InsertSorted(Sort(front), last);
    }
  }

  datatype Entry = Entry(glob: string, tests: seq<string>)

  /** A changed file asks for a test: the file itself if it is one, else whatever its map entries name. */
  ghost predicate Asks(entries: seq<Entry>, f: string, t: string) {
    !IsDocPath(f) && if IsTestFile(f) then t == f else Mapped(entries, f, t)
  }

  ghost predicate Mapped(entries: seq<Entry>, f: string, t: string) {
    exists k :: 0 <= k < |entries| && Glob.GlobMatches(entries[k].glob, f) && t in entries[k].tests
  }

  ghost predicate Wanted(entries: seq<Entry>, changed: seq<string>, t: string) {
    exists f :: f in changed && Asks(entries, f, t)
  }

  ghost predicate AnyWanted(entries: seq<Entry>, changed: seq<string>) {
    exists t :: Wanted(entries, changed, t)
  }

  predicate AllDocs(changed: seq<string>) {
    forall f :: f in changed ==> IsDocPath(f)
  }

  predicate AnyEscape(changed: seq<string>) {
    exists f :: f in changed && IsEscapeHatch(f)
  }

  /** A file for which the map is consulted. */
  predicate Consults(f: string) {
    !IsDocPath(f) && !IsTestFile(f)
  }

  predicate BadMap(entries: seq<Entry>) {
    exists k :: 0 <= k < |entries| && Glob.Unsupported(entries[k].glob)
  }

  /** Every test is run: nothing changed, or some source changed and it is an escape or nothing is asked for. */
  ghost predicate EmitsAll(entries: seq<Entry>, changed: seq<string>) {
    changed == [] || (!AllDocs(changed) && (AnyEscape(changed) || !AnyWanted(entries, changed)))
  }

  ghost predicate Throws(entries: seq<Entry>, changed: seq<string>) {
    BadMap(entries) && !AnyEscape(changed) && exists f :: f in changed && Consults(f)
  }

  /** The three kinds of path, spelled out. */
  lemma KindsExactly(f: string)
    ensures IsDocPath(f) <==>
      || f in ["README.md", "CLAUDE.md", "AGENTS.md", "CHANGELOG.md", "TODOS.md", "LICENSE", "VERSION"]
      || ('/' !in f && |f| >= 3 && f[|f| - 3..] == ".md")
      || "docs/" <= f
    ensures IsTestFile(f) <==> "test/e2e/" <= f && |f| >= 8 && f[|f| - 8..] == ".test.ts"
    ensures IsEscapeHatch(f) <==>
      || f in ["src/schema.sql", "src/core/migrate.ts", "src/core/db.ts", "src/core/engine-factory.ts",
               "src/core/operations.ts", "package.json", "bun.lock", "Dockerfile.ci", "docker-compose.ci.yml",
               "scripts/ci-local.sh", "scripts/run-e2e.sh", "scripts/select-e2e.ts", "scripts/e2e-test-map.ts",
               "test/e2e/helpers.ts"]
      || "src/commands/migrations/" <= f || "test/e2e/fixtures/" <= f || "skills/" <= f || ".github/workflows/" <= f
  {
    assert ".github/workflows/" in ESCAPE_HATCH_PREFIXES && "skills/" in ESCAPE_HATCH_PREFIXES;
    assert "test/e2e/fixtures/" in ESCAPE_HATCH_PREFIXES && "src/commands/migrations/" in ESCAPE_HATCH_PREFIXES;
  }

  /** The selection, spelled out: who asks for a test, when everything runs, and when a glob cannot be read. */
  lemma SelectionExactly(entries: seq<Entry>, changed: seq<string>, t: string)
    ensures Wanted(entries, changed, t) <==>
      exists f :: f in changed && !IsDocPath(f) &&
        (if IsTestFile(f) then t == f
         else exists k :: 0 <= k < |entries| && Glob.GlobMatches(entries[k].glob, f) && t in entries[k].tests)
    ensures EmitsAll(entries, changed) <==>
      || changed == []
      || (&& (exists f :: f in changed && !IsDocPath(f))
          && ((exists f :: f in changed && IsEscapeHatch(f)) || forall u :: !Wanted(entries, changed, u)))
    ensures Throws(entries, changed) <==>
      && (forall f :: f in changed ==> !IsEscapeHatch(f))
      && (exists f :: f in changed && !IsDocPath(f) && !IsTestFile(f))
      && exists k :: 0 <= k < |entries| && ('?' in entries[k].glob || '[' in entries[k].glob || '{' in entries[k].glob)
  {
    hide IsDocPath, IsTestFile, IsEscapeHatch, Glob.GlobMatches;
  }

  datatype Selection = BadGlob | Tests(list: seq<string>)

  /** Adds to the result what the map names for a file; fails at the first glob it cannot read. */
  method AddMapped(entries: seq<Entry>, f: string, before: seq<string>) returns (ok: bool, result: seq<string>)
    requires Distinct(before)
    ensures ok <==> !BadMap(entries)
    ensures ok ==> Distinct(result) && forall t :: t in result <==> t in before || Mapped(entries, f, t)
  {
    result := before;
    for k := 0 to |entries|
      invariant Distinct(result)
      invariant forall i :: 0 <= i < k ==> !Glob.Unsupported(entries[i].glob)
      invariant forall t :: t in result <==> t in before || Mapped(entries[..k], f, t)
    {
      MappedStep(entries, k, f);
      var verdict := Glob.MatchGlob(entries[k].glob, f);
      if verdict.Unreadable? {
        return false, result;
      }
      if verdict.matched {
        result := AddEach(result, entries[k].tests);
      }
    }
    assert entries[..|entries|] == entries;
    return true, result;
  }

  lemma MappedStep(entries: seq<Entry>, k: nat, f: string)
    requires k < |entries|
    ensures forall t :: Mapped(entries[..k + 1], f, t) <==>
      (Mapped(entries[..k], f, t) || (Glob.GlobMatches(entries[k].glob, f) && t in entries[k].tests))
  {
  }

  lemma EmptyIsDistinct()
    ensures Distinct<string>([]) && Sorted([])
  {
  }

  /** Set.add for each element, keeping insertion order. */
  method AddEach(before: seq<string>, more: seq<string>) returns (result: seq<string>)
    requires Distinct(before)
    ensures Distinct(result)
    ensures forall t :: t in result <==> t in before || t in more
  {
    result := before;
    for i := 0 to |more|
      invariant Distinct(result)
      invariant forall t :: t in result <==> t in before || t in more[..i]
    {
      if more[i] !in result {
        result := result + [more[i]];
      }
    }
  }

  method AddAsked(entries: seq<Entry>, f: string, before: seq<string>) returns (ok: bool, result: seq<string>)
    requires Distinct(before)
    ensures ok <==> !Consults(f) || !BadMap(entries)
    ensures ok ==> Distinct(result) && forall t :: t in result <==> t in before || Asks(entries, f, t)
  {
    ok, result := true, before;
    if IsDocPath(f) {
      return;
    }
    if IsTestFile(f) {
      result := AddEach(before, [f]);
      return;
    }
    ok, result := AddMapped(entries, f, before);
  }

  /** Narrows the tests to what the changed files ask for, or to all of them when in doubt. */
  method SelectTests(changed: seq<string>, all: seq<string>, entries: seq<Entry>) returns (r: Selection)
    ensures r.BadGlob? <==> Throws(entries, changed)
    ensures r.Tests? ==> Sorted(r.list)
    ensures r.Tests? && EmitsAll(entries, changed) ==> multiset(r.list) == multiset(all)
    ensures r.Tests? && changed != [] && AllDocs(changed) ==> r.list == []
    ensures r.Tests? && !EmitsAll(entries, changed) ==>
      multiset(r.list) == multiset(set t | t in r.list) && forall t :: t in r.list <==> Wanted(entries, changed, t)
  {
    hide Asks, BadMap, Consults, IsDocPath, IsEscapeHatch, Sort, Sorted, Distinct;
    var kind := Classify(changed);
    SortSorts(all);
    if kind.Empty? {
      return Tests(Sort(all));
    }
    if kind.DocOnly? {
      EmptyIsDistinct();
      DocsAskNothing(entries, changed);
      return Tests([]);
    }
    for i := 0 to |changed|
      invariant forall j :: 0 <= j < i ==> !IsEscapeHatch(changed[j])
    {
      if IsEscapeHatch(changed[i]) {
        return Tests(Sort(all));
      }
    }
    assert !AnyEscape(changed);
    var result, ok := [], true;
    EmptyIsDistinct();
    for i := 0 to |changed|
      invariant Distinct(result)
      invariant forall j :: 0 <= j < i ==> !Consults(changed[j]) || !BadMap(entries)
      invariant forall t :: t in result <==> Wanted(entries, changed[..i], t)
    {
      WantedStep(entries, changed, i);
      ok, result := AddAsked(entries, changed[i], result);
      if !ok {
        assert changed[i] in changed;
        return BadGlob;
      }
    }
    assert changed[..|changed|] == changed;
    if |result| == 0 {
      assert forall t :: t in result <==> Wanted(entries, changed, t);
      return Tests(Sort(all));
    }
    assert result[0] in result;
    SortSorts(result);
    SameMembers(result, Sort(result));
    return Tests(Sort(result));
  }

  lemma WantedStep(entries: seq<Entry>, changed: seq<string>, i: nat)
    requires i < |changed|
    ensures forall t ::
              Wanted(entries, changed[..i + 1], t)
              <==> Wanted(entries, changed[..i], t) || Asks(entries, changed[i], t)
  {
  }

  lemma DocsAskNothing(entries: seq<Entry>, changed: seq<string>)
    requires AllDocs(changed)
    ensures !Throws(entries, changed) && forall t :: !Wanted(entries, changed, t)
  {
  }

  lemma SameMembers(s: seq<string>, r: seq<string>)
    requires Distinct(s) && multiset(r) == multiset(s)
    ensures forall t :: t in r <==> t in s
    ensures multiset(r) == multiset(set t | t in r)
  {
    forall t ensures t in r <==> t in s {
      assert t in r <==> t in multiset(r);
      assert t in s <==> t in multiset(s);
    }
    forall t ensures multiset(s)[t] <= 1 {
      AtMostOnce(s, t);
    }
    var members := set t | t in r;
    forall t ensures multiset(r)[t] == multiset(members)[t] {
      assert t in members <==> t in multiset(s);
    }
  }

  lemma {:induction false} AtMostOnce(s: seq<string>, t: string)
    requires Distinct(s)
    ensures multiset(s)[t] <= 1
  {
    if s != [] {
      var n := |s| - 1;
      AtMostOnce(s[..n], t);
      assert s == s[..n] + [s[n]];
      if s[n] == t {
        assert t !in multiset(s[..n]);
      }
    }
  }

  /**
   A changed source file that no entry covers widens the selection only if it stands alone: beside a
   covered file nothing else is asked for. As the map is consulted for it, an unreadable glob now shows,
   unless an escape path makes everything run first.
   */
  lemma UncoveredFileIsSilent(entries: seq<Entry>, changed: seq<string>, f: string)
    requires !IsDocPath(f) && !IsEscapeHatch(f) && forall t :: !Asks(entries, f, t)
    ensures Throws(entries, changed + [f]) <==> BadMap(entries) && !AnyEscape(changed)
    ensures forall t :: Wanted(entries, changed + [f], t) <==> Wanted(entries, changed, t)
    ensures EmitsAll(entries, changed + [f]) <==> AnyEscape(changed) || !AnyWanted(entries, changed)
  {
    hide IsDocPath, IsTestFile, IsEscapeHatch, Mapped;
    assert !Asks(entries, f, f);
    assert Consults(f) && f in changed + [f];
    assert AnyEscape(changed + [f]) <==> AnyEscape(changed) by {
      if g :| g in changed && IsEscapeHatch(g) {
        assert g in changed + [f];
      }
    }
    forall t ensures Wanted(entries, changed + [f], t) <==> Wanted(entries, changed, t) {
      if g :| g in changed && Asks(entries, g, t) {
        assert g in changed + [f];
      }
    }
  }

  lemma HatchFileShape(f: string)
    requires f in ESCAPE_HATCH_FILES
    ensures |f| >= 8 && (f[3] == '/' || f[4] == '/' || f[7] == '/' || f[|f| - 1] in "nkil")
    ensures f[0] != 'd' || f[3] != 's'
  {
  }

  lemma DocRootShape(f: string)
    requires f in DOC_ROOT_FILES
    ensures |f| >= 7 && f[|f| - 1] in "dEN" && '/' !in f
  {
  }

  lemma DocTreeIsNeither(f: string)
    requires "docs/" <= f
    ensures !IsEscapeHatch(f) && !IsTestFile(f)
  {
    assert f[0] == 'd' && f[3] == 's';
    if f in ESCAPE_HATCH_FILES {
      HatchFileShape(f);
    }
    hide ESCAPE_HATCH_FILES;
  }

  lemma RootDocIsNeither(f: string)
    requires '/' !in f && f != [] && f[|f| - 1] in "dEN"
    ensures !IsEscapeHatch(f) && !IsTestFile(f)
  {
    if f in ESCAPE_HATCH_FILES {
      HatchFileShape(f);
    }
    hide ESCAPE_HATCH_FILES;
    NoSlashNoTree(f);
  }

  /** A document path is never an escape path or a test, so a change of documents only is safe to skip. */
  lemma DocsAreNeither(f: string)
    requires IsDocPath(f)
    ensures !IsEscapeHatch(f) && !IsTestFile(f)
  {
    hide IsEscapeHatch, IsTestFile, DOC_ROOT_FILES;
    if "docs/" <= f {
      DocTreeIsNeither(f);
    } else {
      if f in DOC_ROOT_FILES {
        DocRootShape(f);
      } else {
        assert f[|f| - 3..][2] == f[|f| - 1];
      }
      RootDocIsNeither(f);
    }
  }

  lemma NoSlashNoTree(f: string)
    requires '/' !in f
    ensures !("src/commands/migrations/" <= f) && !("test/e2e/fixtures/" <= f) && !("skills/" <= f)
    ensures !(".github/workflows/" <= f) && !("test/e2e/" <= f)
  {
    assert "src/commands/migrations/"[3] == '/' && "test/e2e/fixtures/"[4] == '/' && "skills/"[6] == '/';
    assert ".github/workflows/"[7] == '/' && "test/e2e/"[4] == '/';
  }

  lemma PlainSource(f: string)
    requires f == "src/x.ts"
    ensures !IsDocPath(f) && !IsEscapeHatch(f) && !IsTestFile(f)
  {
    assert |f| == 8 && f[0] == 's' && f[1] == 'r' && f[3] == '/';
  }

  lemma PlainEnds(f: string)
    requires f == "test/e2e/a.test.ts"
    ensures EndsWith(f, ".test.ts")
  {
    assert f[|f| - 8..] == ".test.ts";
  }

  lemma PlainTest(f: string)
    requires f == "test/e2e/a.test.ts"
    ensures !IsDocPath(f) && !IsEscapeHatch(f) && IsTestFile(f)
  {
    hide EndsWith, IsEscapeHatch;
    PlainEnds(f);
    TestIsNoEscape(f);
    assert |f| == 18 && f[0] == 't' && f[4] == '/';
    assert f[..9] == "test/e2e/";
  }

  lemma TestIsNoEscape(f: string)
    requires f == "test/e2e/a.test.ts"
    ensures !IsEscapeHatch(f)
  {
    assert |f| == 18 && f[0] == 't' && f[9] == 'a';
    assert "test/e2e/helpers.ts"[9] == 'h' && "test/e2e/fixtures/"[9] == 'f';
  }

  /** A changed test file beside a source file that an empty map does not cover: not everything runs. */
  lemma UncoveredBesideTest()
    ensures var changed := ["test/e2e/a.test.ts", "src/x.ts"];
      && !IsDocPath("src/x.ts") && !IsEscapeHatch("src/x.ts") && (forall t :: !Asks([], "src/x.ts", t))
      && !EmitsAll([], changed) && !Throws([], changed)
      && forall t :: Wanted([], changed, t) <==> t == "test/e2e/a.test.ts"
  {
    hide IsDocPath, IsEscapeHatch, IsTestFile;
    var a, f := "test/e2e/a.test.ts", "src/x.ts";
    PlainTest(a);
    PlainSource(f);
    var changed := [a, f];
    assert a in changed && f in changed && Asks([], a, a);
    assert Wanted([], changed, a);
  }

  /** Touching more files never drops a test that was asked for, unless everything runs. */
  lemma MoreChangesMoreTests(entries: seq<Entry>, changed: seq<string>, more: seq<string>, t: string)
    requires !EmitsAll(entries, changed) && Wanted(entries, changed, t)
    ensures EmitsAll(entries, changed + more) || Wanted(entries, changed + more, t)
  {
  }
}
