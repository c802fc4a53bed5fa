/** The string operations the commands use: substring search, trimEnd, split and join. */
module Text {
  import opened Collections

  predicate OccursAt(s: string, i: nat, t: string) {
    i + |t| <= |s| && s[i..i + |t|] == t
  }

  predicate Contains(s: string, t: string) {
    exists i :: 0 <= i <= |s| && OccursAt(s, i, t)
  }

  /** indexOf(t, from). */
  function IndexOf(s: string, t: string, from: nat): (r: Option<nat>)
    ensures r.Some? ==> from <= r.value && OccursAt(s, r.value, t)
    ensures r.Some? ==> forall i :: from <= i < r.value ==> !OccursAt(s, i, t)
    ensures r.None? ==> forall i :: i >= from ==> !OccursAt(s, i, t)
    decreases |s| - from
  {
    if from > |s| then None
    else if OccursAt(s, from, t) then Some(from)
    else IndexOf(s, t, from + 1)
  }

  lemma ContainsSelf(t: string)
    ensures Contains(t, t)
  {
    assert OccursAt(t, 0, t);
  }

  lemma ContainsLeft(s: string, u: string, t: string)
    requires Contains(s, t)
    ensures Contains(s + u, t)
  {
    var i :| 0 <= i <= |s| && OccursAt(s, i, t);
    assert (s + u)[i..i + |t|] == s[i..i + |t|];
    assert OccursAt(s + u, i, t);
  }

  lemma ContainsRight(s: string, u: string, t: string)
    requires Contains(u, t)
    ensures Contains(s + u, t)
  {
    var i :| 0 <= i <= |u| && OccursAt(u, i, t);
    assert (s + u)[|s| + i..|s| + i + |t|] == u[i..i + |t|];
    assert OccursAt(s + u, |s| + i, t);
  }

  lemma ContainsInside(before: string, s: string, after: string, t: string)
    requires Contains(s, t)
    ensures Contains(before + s + after, t)
  {
    ContainsRight(before, s, t);
    ContainsLeft(before + s, after, t);
  }

  /** White space as trimEnd sees it. */
  predicate IsSpace(c: char) {
    c in " \t\n\r" || c == 0x0b as char || c == 0x0c as char || c == 0xa0 as char || c == 0x1680 as char
    || (0x2000 as char <= c && c <= 0x200a as char)
    || c == 0x2028 as char || c == 0x2029 as char || c == 0x202f as char || c == 0x205f as char
    || c == 0x3000 as char || c == 0xfeff as char
  }

  function TrimEnd(s: string): (r: string)
    ensures r <= s
    ensures forall i :: |r| <= i < |s| ==> IsSpace(s[i])
    ensures r != [] ==> !IsSpace(r[|r| - 1])
  {
    if s != [] && IsSpace(s[|s| - 1]) then TrimEnd(s[..|s| - 1]) else s
  }

  /** A substring that ends in a visible character survives trimEnd. */
  lemma TrimEndKeeps(s: string, t: string)
    requires Contains(s, t) && t != [] && !IsSpace(t[|t| - 1])
    ensures Contains(TrimEnd(s), t)
  {
    var i :| 0 <= i <= |s| && OccursAt(s, i, t);
    var r := TrimEnd(s);
    assert s[i + |t| - 1] == t[|t| - 1];
    assert r[i..i + |t|] == s[i..i + |t|];
    assert OccursAt(r, i, t);
  }

  /** split(c). */
  function Split(s: string, c: char): (r: seq<string>)
    ensures |r| >= 1
    ensures forall l :: l in r ==> c !in l
  {
    if s == [] then [""]
    else
      var rest := Split(s[1..], c);
      if s[0] == c then [""] + rest else [[s[0]] + rest[0]] + rest[1..]
  }

  function Lines(s: string): (r: seq<string>)
    ensures |r| >= 1
    ensures forall l :: l in r ==> '\n' !in l
  {
    Split(s, '\n')
  }

  function TrimStart(s: string): string {
    if s != [] && IsSpace(s[0]) then TrimStart(s[1..]) else s
  }

  function Trim(s: string): string {
    TrimEnd(TrimStart(s))
  }

  /** Only white space goes, and only at the ends. */
  lemma TrimExactly(s: string) returns (a: nat, b: nat)
    ensures a <= b <= |s| && Trim(s) == s[a..b]
    ensures forall i :: 0 <= i < a || b <= i < |s| ==> IsSpace(s[i])
    ensures a < b ==> !IsSpace(s[a]) && !IsSpace(s[b - 1])
  {
    hide IsSpace, TrimStart, TrimEnd;
    a := TrimStartExactly(s);
    var t := s[a..];
    var r := TrimEnd(t);
    b := a + |r|;
    assert r == t[..|r|] == s[a..b];
    forall i | b <= i < |s| ensures IsSpace(s[i]) {
      assert s[i] == t[i - a];
    }
    if a < b {
      assert t[0] == s[a] && r[|r| - 1] == s[b - 1];
    }
  }

  lemma {:induction false} TrimStartExactly(s: string) returns (a: nat)
    ensures a <= |s| && TrimStart(s) == s[a..]
    ensures forall i :: 0 <= i < a ==> IsSpace(s[i])
    ensures a < |s| ==> !IsSpace(s[a])
  {
    hide IsSpace;
    if s != [] && IsSpace(s[0]) {
      var t := s[1..];
      var n := TrimStartExactly(t);
      a := n + 1;
      assert t[n..] == s[a..];
      assert forall i :: 1 <= i < |s| ==> s[i] == t[i - 1];
    } else {
      a := 0;
      assert s[0..] == s;
    }
  }

  /** join('\n'). */
  function Unlines(ls: seq<string>): string {
    if |ls| == 0 then "" else if |ls| == 1 then ls[0] else ls[0] + "\n" + Unlines(ls[1..])
  }

  lemma {:induction false} UnlinesOfLines(s: string)
    ensures Unlines(Lines(s)) == s
  {
    if s != [] {
      UnlinesOfLines(s[1..]);
      var rest := Lines(s[1..]);
      if s[0] == '\n' {
        assert ([""] + rest)[1..] == rest;
      } else {
        assert Lines(s)[1..] == rest[1..];
      }
    }
  }

  function PutFront(a: char, ls: seq<string>, c: char): seq<string>
    requires |ls| >= 1
  {
    if a == c then [""] + ls else [[a] + ls[0]] + ls[1..]
  }

  lemma SplitCons(s: string, c: char)
    requires s != []
    ensures Split(s, c) == PutFront(s[0], Split(s[1..], c), c)
  {
  }

  lemma PutFrontAppend(a: char, ls: seq<string>, more: seq<string>, c: char)
    requires |ls| >= 1
    ensures PutFront(a, ls + more, c) == PutFront(a, ls, c) + more
  {
  }

  /** Splitting at an explicit separator splits there. */
  lemma {:induction false} SplitAppend(s: string, t: string, c: char)
    ensures Split(s + [c] + t, c) == Split(s, c) + Split(t, c)
  {
    var u := s + [c] + t;
    SplitCons(u, c);
    if s == [] {
      assert u == [c] + t && u[1..] == t;
    } else {
      SplitAppend(s[1..], t, c);
      SplitCons(s, c);
      assert u[1..] == s[1..] + [c] + t;
      PutFrontAppend(s[0], Split(s[1..], c), Split(t, c), c);
    }
  }

  lemma LinesAppend(s: string, t: string)
    ensures Lines(s + "\n" + t) == Lines(s) + Lines(t)
  {
    SplitAppend(s, t, '\n');
  }

  lemma {:induction false} SplitNone(s: string, c: char)
    requires c !in s
    ensures Split(s, c) == [s]
  {
    if s != [] {
      SplitNone(s[1..], c);
      assert s == [s[0]] + s[1..];
    }
  }

  lemma LinesOfLine(s: string)
    requires '\n' !in s
    ensures Lines(s) == [s]
  {
    SplitNone(s, '\n');
  }

  lemma LinesAt(s: string, i: nat)
    requires i < |s| && s[i] == '\n'
    ensures Lines(s) == Lines(s[..i]) + Lines(s[i + 1..])
  {
    LinesAppend(s[..i], s[i + 1..]);
    assert s == s[..i] + "\n" + s[i + 1..];
  }

  lemma LinesOfEnded(s: string)
    requires '\n' !in s
    ensures Lines(s + "\n") == [s, ""]
  {
    assert s + "\n" == s + "\n" + "";
    LinesAppend(s, "");
    LinesOfLine(s);
  }

  lemma {:induction false} FirstLineStarts(s: string, p: string)
    requires p <= s && '\n' !in p
    ensures p <= Lines(s)[0]
  {
    if p != [] {
      assert p[0] == s[0] && p[0] in p && p[1..] <= s[1..];
      FirstLineStarts(s[1..], p[1..]);
      SplitCons(s, '\n');
      assert p == [p[0]] + p[1..];
    }
  }

  /** A line-break-free text occurs in a file exactly if it occurs in one of its lines. */
  lemma {:induction false} LineContains(s: string, t: string, l: string)
    requires l in Lines(s) && Contains(l, t)
    ensures Contains(s, t)
  {
    UnlinesOfLines(s);
    UnlinesContains(Lines(s), t, l);
  }

  lemma {:induction false} UnlinesContains(ls: seq<string>, t: string, l: string)
    requires l in ls && Contains(l, t)
    ensures Contains(Unlines(ls), t)
  {
    if |ls| > 1 {
      if l == ls[0] {
        ContainsLeft(l, "\n", t);
        ContainsLeft(l + "\n", Unlines(ls[1..]), t);
      } else {
        UnlinesContains(ls[1..], t, l);
        ContainsRight(ls[0] + "\n", Unlines(ls[1..]), t);
      }
    }
  }

  lemma SameText(s: string, i: nat, t: string)
    requires i + |t| <= |s| && forall k :: i <= k < i + |t| ==> s[k] == t[k - i]
    ensures OccursAt(s, i, t) && Contains(s, t)
  {
    var u := s[i..i + |t|];
    assert forall k :: 0 <= k < |t| ==> u[k] == s[i + k] == t[k];
    assert u == t;
    assert OccursAt(s, i, t);
  }

  lemma ContainsAcross(a: string, b: string, t: string)
    requires Contains(a + "\n" + b, t) && '\n' !in t && t != []
    ensures Contains(a, t) || Contains(b, t)
  {
    var s := a + "\n" + b;
    var i :| 0 <= i <= |s| && OccursAt(s, i, t);
    assert s[|a|] == '\n';
    assert forall k :: i <= k < i + |t| ==> s[k] == t[k - i];
    if i + |t| <= |a| {
      SameText(a, i, t);
    } else if i > |a| {
      var j := i - |a| - 1;
      assert forall k :: 0 <= k < |b| ==> b[k] == s[|a| + 1 + k];
      SameText(b, j, t);
    }
  }

  /** A text without line breaks occurs in joined lines only inside one of them. */
  lemma {:induction false} UnlinesContainsOnly(ls: seq<string>, t: string)
    requires Contains(Unlines(ls), t) && '\n' !in t && t != []
    ensures exists l :: l in ls && Contains(l, t)
  {
    if |ls| == 1 {
      assert ls[0] in ls;
    } else if |ls| > 1 {
      ContainsAcross(ls[0], Unlines(ls[1..]), t);
      if Contains(ls[0], t) {
        assert ls[0] in ls;
      } else {
        UnlinesContainsOnly(ls[1..], t);
        var l :| l in ls[1..] && Contains(l, t);
        assert l in ls;
      }
    }
  }
}
