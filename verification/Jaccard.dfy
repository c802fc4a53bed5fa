/** The overlap score two evaluation commands compare result lists by. Ratios are exact, not floating point. */
module Jaccard {
  import opened Collections

  function Elems(s: seq<string>): set<string> {
    set x | x in s
  }

  /** The first occurrences, in order. */
  function Firsts(s: seq<string>): seq<string> {
    if s == [] then []
    else
      var front, x := s[..|s| - 1], s[|s| - 1];
      Firsts(front) + if x in front then [] else [x]
  }

  lemma {:induction false} FirstsFacts(s: seq<string>)
    ensures Distinct(Firsts(s)) && Elems(Firsts(s)) == Elems(s)
    ensures forall x :: x in Firsts(s) <==> x in s
  {
    if s != [] {
      FirstsFacts(s[..|s| - 1]);
      assert s == s[..|s| - 1] + [s[|s| - 1]];
    }
  }

  /** The distinct slugs come in the order of their first occurrences. */
  lemma {:induction false} FirstsInOrder(s: seq<string>, i: nat, j: nat) returns (p: nat)
    requires i < j < |Firsts(s)|
    ensures p < |s| && s[p] == Firsts(s)[i] && Firsts(s)[j] !in s[..p + 1]
  {
    var n := |s| - 1;
    var front := Firsts(s[..n]);
    FirstsFacts(s);
    FirstsFacts(s[..n]);
    if j < |front| {
      p := FirstsInOrder(s[..n], i, j);
      assert s[..n][..p + 1] == s[..p + 1];
    } else {
      assert front[i] in s[..n];
      p :| 0 <= p < n && s[p] == front[i];
      assert s[..p + 1] <= s[..n];
      assert forall x :: x in s[..p + 1] ==> x in s[..n];
    }
  }

  lemma {:induction false} DistinctSize(s: seq<string>)
    requires Distinct(s)
    ensures |Elems(s)| == |s|
  {
    if s != [] {
      var n := |s| - 1;
      DistinctSize(s[..n]);
      assert s == s[..n] + [s[n]];
      assert Elems(s) == Elems(s[..n]) + {s[n]} && s[n] !in Elems(s[..n]);
    }
  }

  lemma NothingYet()
    ensures Firsts([]) == [] && Elems([]) == {}
  {
  }

  lemma OneMore(s: seq<string>, x: string)
    ensures Elems(s + [x]) == Elems(s) + {x} && (x in Elems(s) <==> x in s)
    ensures Firsts(s + [x]) == Firsts(s) + if x in s then [] else [x]
  {
    assert (s + [x])[..|s|] == s;
  }

  /** Keeps each slug's first occurrence: the loop over a seen set. */
  method Dedup(s: seq<string>) returns (r: seq<string>)
    ensures r == Firsts(s)
  {
    hide Firsts, Elems;
    r := [];
    var seen: set<string> := {};
    NothingYet();
    for i := 0 to |s|
      invariant r == Firsts(s[..i]) && seen == Elems(s[..i])
    {
      assert s[..i + 1] == s[..i] + [s[i]];
      OneMore(s[..i], s[i]);
      if s[i] !in seen {
        seen := seen + {s[i]};
        r := r + [s[i]];
      }
    }
    assert s[..|s|] == s;
  }

  /** |A * B| / |A + B|, and 1 for two empty sets. */
  function Similarity(a: set<string>, b: set<string>): real {
    if |a + b| == 0 then 1.0 else |a * b| as real / |a + b| as real
  }

  lemma UnionSize(a: set<string>, b: set<string>)
    ensures |a + b| == |a| + |b| - |a * b|
  {
  }

  method CountCommon(setA: seq<string>, setB: seq<string>) returns (n: nat)
    requires Distinct(setA)
    ensures n == |Elems(setA) * Elems(setB)|
  {
    n := 0;
    for i := 0 to |setA|
      invariant n == |Elems(setA[..i]) * Elems(setB)|
    {
      assert setA[..i + 1] == setA[..i] + [setA[i]];
      CountStep(setA[..i], setA[i], Elems(setB));
      if setA[i] in setB {
        n := n + 1;
      }
    }
    assert setA[..|setA|] == setA;
  }

  /** The counting loop computes the set ratio: order and duplicates are ignored. */
  method JaccardSlugs(a: seq<string>, b: seq<string>) returns (j: real)
    ensures j == Similarity(Elems(a), Elems(b))
  {
    hide Elems, Distinct, Firsts;
    var setA := Dedup(a);
    var setB := Dedup(b);
    FirstsFacts(a);
    FirstsFacts(b);
    DistinctSize(setA);
    DistinctSize(setB);
    UnionSize(Elems(a), Elems(b));
    if |setA| == 0 && |setB| == 0 {
      return 1.0;
    }
    var intersection := CountCommon(setA, setB);
    var union := |setA| + |setB| - intersection;
    j := if union == 0 then 1.0 else intersection as real / union as real;
  }

  lemma CountStep(s: seq<string>, x: string, b: set<string>)
    requires x !in s
    ensures |Elems(s + [x]) * b| == |Elems(s) * b| + if x in b then 1 else 0
  {
    var before, after := Elems(s) * b, Elems(s + [x]) * b;
    if x in b {
      assert after == before + {x} && x !in before;
    } else {
      assert after == before;
    }
  }

  method JaccardAtK(a: seq<string>, b: seq<string>, k: nat) returns (j: real)
    ensures j == Similarity(Elems(Take(a, k)), Elems(Take(b, k)))
  {
    j := JaccardSlugs(Take(a, k), Take(b, k));
  }

  method TopKHit(actual: seq<string>, expected: seq<string>, k: nat) returns (hit: bool)
    ensures hit <==> Elems(Take(actual, k)) * Elems(expected) != {}
  {
    var top := Take(actual, k);
    for i := 0 to |top|
      invariant forall j :: 0 <= j < i ==> top[j] !in expected
    {
      if top[i] in expected {
        assert top[i] in Elems(top) * Elems(expected);
        return true;
      }
    }
    return false;
  }

  /** Scoring the deduplicated results is the same as scoring them as returned. */
  lemma DedupDoesNotMatter(s: seq<string>, t: seq<string>)
    ensures Similarity(Elems(Firsts(s)), Elems(t)) == Similarity(Elems(s), Elems(t))
  {
    FirstsFacts(s);
  }

  lemma Product(x: real, n: real)
    requires n > 0.0
    ensures x > 0.0 <==> x * n > 0.0
    ensures x < 0.0 <==> x * n < 0.0
  {
  }

  /** A quotient is above, at or below 0 and 1 as the parts compare. */
  lemma Bounded(x: real, n: real)
    requires 0.0 <= x <= n && n > 0.0
    ensures 0.0 <= x / n <= 1.0 && (x / n == 1.0 <==> x == n) && (x / n == 0.0 <==> x == 0.0)
  {
    var q := x / n;
    assert q * n == x;
    Product(q, n);
    assert (q - 1.0) * n == x - n;
    Product(q - 1.0, n);
  }

  lemma Ratio(x: nat, y: nat)
    requires x <= y && y > 0
    ensures 0.0 <= x as real / y as real <= 1.0
    ensures x as real / y as real == 1.0 <==> x == y
    ensures x as real / y as real == 0.0 <==> x == 0
  {
    Bounded(x as real, y as real);
  }

  lemma SubsetSize(a: set<string>, b: set<string>)
    requires a <= b
    ensures |a| <= |b| && (|a| == |b| <==> a == b)
  {
    assert b == a + (b - a);
    if |a| == |b| {
      assert b - a == {};
    }
  }

  /**
   The score lies in [0, 1], is symmetric, is 1 exactly on equal sets, and 0 exactly on disjoint ones
   not both empty.
   */
  lemma SimilarityFacts(a: set<string>, b: set<string>)
    ensures 0.0 <= Similarity(a, b) <= 1.0
    ensures Similarity(a, b) == Similarity(b, a)
    ensures Similarity(a, b) == 1.0 <==> a == b
    ensures Similarity(a, b) == 0.0 <==> a * b == {} && a + b != {}
  {
    assert a + b == b + a && a * b == b * a;
    SubsetSize(a * b, a + b);
    if a == b {
      assert a + b == a && a * b == a;
    }
    if |a + b| != 0 {
      Ratio(|a * b|, |a + b|);
      if a * b == a + b {
        assert forall x :: x in a ==> x in a + b;
        assert forall x :: x in b ==> x in a + b;
      }
    } else {
      assert a == {} && b == {};
    }
  }

  function Distance(a: set<string>, b: set<string>): real {
    1.0 - Similarity(a, b)
  }

  function Apart(a: set<string>, b: set<string>): nat {
    |a - b| + |b - a|
  }

  lemma ApartTriangle(a: set<string>, b: set<string>, c: set<string>)
    ensures Apart(a, c) <= Apart(a, b) + Apart(b, c)
    ensures |b| <= |a| + Apart(a, b) && |b| <= |c| + Apart(b, c)
  {
    SubsetSize(a - c, (a - b) + (b - c));
    SubsetSize(c - a, (c - b) + (b - a));
    SubsetSize(b, a + (b - a));
    SubsetSize(b, c + (b - c));
  }

  /** The distance is a ratio in the sizes and the number of elements in one set only. */
  lemma DistanceByApart(a: set<string>, b: set<string>)
    requires a + b != {}
    ensures |a| + |b| + Apart(a, b) > 0
    ensures Distance(a, b) == (2 * Apart(a, b)) as real / (|a| + |b| + Apart(a, b)) as real
  {
  }

  lemma CrossMultiply(a: real, b: real, c: real, d: real)
    requires b > 0.0 && d > 0.0 && a * d <= c * b
    ensures a / b <= c / d
  {
    assert (c / d - a / b) * (b * d) == c * b - a * d;
  }

  lemma Grows(x: real, y: real, k: real)
    requires 0.0 <= x <= y && 0.0 <= k && x + k > 0.0
    ensures x / (x + k) <= y / (y + k)
  {
    assert x * k <= y * k;
    CrossMultiply(x, x + k, y, y + k);
  }

  lemma Shrinks(x: real, n: real, m: real)
    requires 0.0 <= x && 0.0 < m <= n
    ensures x / n <= x / m
  {
  }

  lemma AddQuotients(p: real, q: real, n: real)
    requires n > 0.0
    ensures (p + q) / n == p / n + q / n
  {
    var x, y, z := p / n, q / n, (p + q) / n;
    assert x * n == p && y * n == q && z * n == p + q;
    assert (z - (x + y)) * n == z * n - x * n - y * n;
    Product(z - (x + y), n);
  }

  /** p, q, r elements apart, with sizes a, b, c: the arithmetic of the triangle inequality. */
  lemma SteinhausTransform(a: real, b: real, c: real, p: real, q: real, r: real)
    requires a >= 0.0 && b >= 0.0 && c >= 0.0 && p > 0.0 && q > 0.0 && 0.0 < r <= p + q
    requires b <= a + p && b <= c + q
    ensures r / (a + c + r) <= p / (a + b + p) + q / (b + c + q)
  {
    Grows(r, p + q, a + c);
    var n := p + q + (a + c);
    AddQuotients(p, q, n);
    Shrinks(p, n, a + b + p);
    Shrinks(q, n, b + c + q);
    assert a + c + r == r + (a + c);
  }

  lemma Halved(d: nat, n: nat)
    requires n > 0
    ensures (2 * d) as real / n as real == 2.0 * (d as real / n as real)
  {
  }

  /** One minus the score is a metric: identity and symmetry are in SimilarityFacts, this is the triangle. */
  lemma Triangle(a: set<string>, b: set<string>, c: set<string>)
    ensures Distance(a, c) <= Distance(a, b) + Distance(b, c)
  {
    SimilarityFacts(a, b);
    SimilarityFacts(b, c);
    SimilarityFacts(a, c);
    if a != b && b != c && a != c {
      var p, q, r := Apart(a, b), Apart(b, c), Apart(a, c);
      DifferentIsApart(a, b);
      DifferentIsApart(b, c);
      DifferentIsApart(a, c);
      DistanceByApart(a, b);
      DistanceByApart(b, c);
      DistanceByApart(a, c);
      ApartTriangle(a, b, c);
      Halved(p, |a| + |b| + p);
      Halved(q, |b| + |c| + q);
      Halved(r, |a| + |c| + r);
      SteinhausTransform(|a| as real, |b| as real, |c| as real, p as real, q as real, r as real);
    }
  }

  lemma DifferentIsApart(a: set<string>, b: set<string>)
    requires a != b
    ensures Apart(a, b) > 0 && a + b != {}
  {
    assert a == (a - b) + a * b && b == (b - a) + a * b;
  }

  /** A hit on at most k expected slugs is the same as a positive score, unless nothing was expected or found. */
  lemma HitIsPositiveScore(actual: seq<string>, expected: seq<string>, k: nat)
    requires |expected| <= k && expected != []
    ensures Elems(Take(actual, k)) * Elems(expected) != {}
      <==> Similarity(Elems(Take(actual, k)), Elems(Take(expected, k))) > 0.0
  {
    assert expected[0] in Elems(expected) && Take(expected, k) == expected;
    SimilarityFacts(Elems(Take(actual, k)), Elems(expected));
  }

  datatype RowResult = RowResult(captured: seq<string>, current: seq<string>, leftOut: bool)

  function Eligible(rs: seq<RowResult>): seq<RowResult> {
    if rs == [] then []
    else Eligible(rs[..|rs| - 1]) + if rs[|rs| - 1].leftOut then [] else [rs[|rs| - 1]]
  }

  function Score(r: RowResult): real {
    Similarity(Elems(r.captured), Elems(r.current))
  }

  function Total(rs: seq<RowResult>): real {
    if rs == [] then 0.0 else Total(rs[..|rs| - 1]) + Score(rs[|rs| - 1])
  }

  /** The mean over the rows neither skipped nor failed, and 0 when there are none. */
  function MeanJaccard(rs: seq<RowResult>): real {
    var eligible := Eligible(rs);
    if |eligible| == 0 then 0.0 else Total(eligible) / |eligible| as real
  }

  ghost predicate Stable(r: RowResult) {
    Elems(r.captured) == Elems(r.current)
  }

  lemma {:induction false} TotalFacts(rs: seq<RowResult>)
    ensures 0.0 <= Total(rs) <= |rs| as real
    ensures Total(rs) == |rs| as real <==> forall i :: 0 <= i < |rs| ==> Stable(rs[i])
  {
    if rs != [] {
      var n := |rs| - 1;
      TotalFacts(rs[..n]);
      SimilarityFacts(Elems(rs[n].captured), Elems(rs[n].current));
      assert forall i :: 0 <= i < n ==> rs[..n][i] == rs[i];
      assert (forall i :: 0 <= i < |rs| ==> Stable(rs[i]))
             <==> (forall i :: 0 <= i < n ==> Stable(rs[..n][i])) && Stable(rs[n]);
    }
  }

  lemma {:induction false} EligibleRows(rs: seq<RowResult>)
    ensures forall r :: r in Eligible(rs) <==> r in rs && !r.leftOut
  {
    if rs != [] {
      EligibleRows(rs[..|rs| - 1]);
      assert rs == rs[..|rs| - 1] + [rs[|rs| - 1]];
    }
  }

  /** One row that counts moves the mean by its share; one that is left out does not. */
  lemma MeanMoves(rs: seq<RowResult>, r: RowResult)
    ensures r.leftOut ==> MeanJaccard(rs + [r]) == MeanJaccard(rs)
    ensures !r.leftOut ==>
      var n := |Eligible(rs)| as real;
      MeanJaccard(rs + [r]) * (n + 1.0) == MeanJaccard(rs) * n + Similarity(Elems(r.captured), Elems(r.current))
    ensures |Eligible(rs + [r])| == |Eligible(rs)| + if r.leftOut then 0 else 1
  {
    EligibleNext(rs, r);
    hide Eligible, Elems, Similarity;
    MeanTimesCount(rs);
    MeanTimesCount(rs + [r]);
    if !r.leftOut {
      TotalNext(Eligible(rs), r);
    }
  }

  lemma EligibleNext(rs: seq<RowResult>, r: RowResult)
    ensures Eligible(rs + [r]) == if r.leftOut then Eligible(rs) else Eligible(rs) + [r]
  {
    assert (rs + [r])[..|rs|] == rs && Eligible(rs) + [] == Eligible(rs);
  }

  lemma TotalNext(es: seq<RowResult>, r: RowResult)
    ensures Total(es + [r]) == Total(es) + Score(r)
  {
    assert (es + [r])[..|es|] == es;
  }

  lemma MeanTimesCount(rs: seq<RowResult>)
    ensures MeanJaccard(rs) * |Eligible(rs)| as real == Total(Eligible(rs))
  {
    hide Score, Eligible;
  }

  /** A replay reports a perfect mean exactly if some row counted and every row that counted found the same slugs. */
  lemma PerfectMeanIsStability(rs: seq<RowResult>)
    ensures 0.0 <= MeanJaccard(rs) <= 1.0
    ensures MeanJaccard(rs) == 1.0 <==>
      (exists r :: r in rs && !r.leftOut) && (forall r :: r in rs && !r.leftOut ==> Stable(r))
  {
    var es := Eligible(rs);
    EligibleRows(rs);
    TotalFacts(es);
    if |es| > 0 {
      assert es[0] in es;
      var n := |es| as real;
      Bounded(Total(es), n);
      if forall i :: 0 <= i < |es| ==> Stable(es[i]) {
        forall r | r in rs && !r.leftOut ensures Stable(r) {
          assert r in es;
        }
      }
      if forall r :: r in rs && !r.leftOut ==> Stable(r) {
        forall i | 0 <= i < |es| ensures Stable(es[i]) {
          assert es[i] in es;
        }
      }
    }
  }
}
