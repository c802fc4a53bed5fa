/** The glob compiler of the test selector: it emits a regular expression as text and runs it anchored. */
module Glob {
  import opened Collections

  datatype Token = Lit(c: char) | Star | StarStar

  predicate Unsupported(glob: string) {
    '?' in glob || '[' in glob || '{' in glob
  }

  function Tokens(glob: string): seq<Token> {
    if glob == [] then []
    else if glob[0] == '*' then
      if |glob| > 1 && glob[1] == '*' then [StarStar] + Tokens(glob[2..]) else [Star] + Tokens(glob[1..])
    else [Lit(glob[0])] + Tokens(glob[1..])
  }

  /** The characters the compiler puts a backslash before. */
  predicate Escaped(c: char) {
    c in ".+^${}()|\\"
  }

  function Emit(t: Token): string {
    match t
    case Lit(c) => if Escaped(c) then ['\\', c] else [c]
    case Star => "[^/]*"
    case StarStar => ".*"
  }

  function EmitAll(ts: seq<Token>): string {
    if ts == [] then "" else Emit(ts[0]) + EmitAll(ts[1..])
  }

  lemma {:induction false} EmitAllAppend(ts: seq<Token>, t: Token)
    ensures EmitAll(ts + [t]) == EmitAll(ts) + Emit(t)
  {
    if ts == [] {
      assert ts + [t] == [t];
    } else {
      EmitAllAppend(ts[1..], t);
      assert (ts + [t])[1..] == ts[1..] + [t];
    }
  }

  method Compile(glob: string) returns (regex: string)
    ensures regex == EmitAll(Tokens(glob))
  {
    hide EmitAll, Escaped;
    regex := "";
    var i := 0;
    ghost var done: seq<Token> := [];
    EmitNothing();
    while i < |glob|
      invariant 0 <= i <= |glob|
      invariant Tokens(glob) == done + Tokens(glob[i..])
      invariant regex == EmitAll(done)
      decreases |glob| - i
    {
      var c := glob[i];
      ghost var rest, before := glob[i..], done;
      if c == '*' && i + 1 < |glob| && glob[i + 1] == '*' {
        EmitAllAppend(done, StarStar);
        assert Tokens(rest) == [StarStar] + Tokens(rest[2..]) && rest[2..] == glob[i + 2..];
        regex := regex + ".*";
        done := done + [StarStar];
        i := i + 2;
      } else if c == '*' {
        EmitAllAppend(done, Star);
        assert Tokens(rest) == [Star] + Tokens(rest[1..]) && rest[1..] == glob[i + 1..];
        regex := regex + "[^/]*";
        done := done + [Star];
        i := i + 1;
      } else if Escaped(c) {
        EmitAllAppend(done, Lit(c));
        assert Tokens(rest) == [Lit(c)] + Tokens(rest[1..]) && rest[1..] == glob[i + 1..];
        regex := regex + (['\\'] + [c]);
        done := done + [Lit(c)];
        i := i + 1;
      } else {
        EmitAllAppend(done, Lit(c));
        assert Tokens(rest) == [Lit(c)] + Tokens(rest[1..]) && rest[1..] == glob[i + 1..];
        regex := regex + [c];
        done := done + [Lit(c)];
        i := i + 1;
      }
      Regroup(before, done[|before|..], Tokens(glob[i..]));
    }
    assert Tokens(glob[i..]) == [] && done + [] == done;
  }

  lemma EmitNothing()
    ensures EmitAll([]) == ""
  {
  }

  /** A regular expression, as far as the compiler can emit one: a row of atoms, each maybe starred. */
  datatype Atom = Plain(c: char) | AnyInLine | NotSlash
  datatype Piece = Piece(atom: Atom, starred: bool)

  /** Characters that stand for something other than themselves in a pattern. */
  predicate IsSyntax(c: char) {
    c in "^$\\.*+?()[{|"
  }

  /** One atom of a pattern and its length; None for anything beyond this fragment. */
  function ReadAtom(s: string): (r: Option<(Atom, nat)>)
    ensures r.Some? ==> 0 < r.value.1 <= |s|
  {
    if s == [] then None
    else if s[0] == '.' then Some((AnyInLine, 1))
    else if s[0] == '\\' then
      if |s| > 1 && (IsSyntax(s[1]) || s[1] in "]}/") then Some((Plain(s[1]), 2)) else None
    else if s[0] == '[' then
      if |s| >= 4 && s[..4] == "[^/]" then Some((NotSlash, 4)) else None
    else if IsSyntax(s[0]) then None
    else Some((Plain(s[0]), 1))
  }

  function Read(s: string): Option<seq<Piece>>
    decreases |s|
  {
    if s == [] then Some([])
    else
      match ReadAtom(s)
      case None => None
      case Some((atom, n)) =>
        var starred := n < |s| && s[n] == '*';
        match Read(s[if starred then n + 1 else n..])
        case None => None
        case Some(rest) => Some([Piece(atom, starred)] + rest)
  }

  function Meaning(t: Token): Piece {
    match t
    case Lit(c) => Piece(Plain(c), false)
    case Star => Piece(NotSlash, true)
    case StarStar => Piece(AnyInLine, true)
  }

  function Meanings(ts: seq<Token>): seq<Piece> {
    if ts == [] then [] else [Meaning(ts[0])] + Meanings(ts[1..])
  }

  ghost predicate Supported(ts: seq<Token>) {
    forall k :: 0 <= k < |ts| && ts[k].Lit? ==> ts[k].c !in "?[{*"
  }

  lemma {:induction false} TokensSupported(glob: string)
    requires !Unsupported(glob)
    ensures Supported(Tokens(glob))
    decreases |glob|
  {
    if glob != [] {
      var n := if glob[0] == '*' && |glob| > 1 && glob[1] == '*' then 2 else 1;
      assert !Unsupported(glob[n..]);
      TokensSupported(glob[n..]);
    }
  }

  lemma NoLeadingStar(ts: seq<Token>)
    requires Supported(ts)
    ensures EmitAll(ts) == [] || EmitAll(ts)[0] != '*'
  {
  }

  lemma ReadOne(t: Token, rest: string)
    requires t.Lit? ==> t.c !in "?[{*"
    requires rest == [] || rest[0] != '*'
    requires Read(rest).Some?
    ensures Read(Emit(t) + rest) == Some([Meaning(t)] + Read(rest).value)
  {
    var s := Emit(t) + rest;
    match t
    case Lit(c) =>
      if Escaped(c) {
        assert s[0] == '\\' && s[1] == c;
        assert s[2..] == rest;
      } else {
        assert s[1..] == rest;
      }
    case Star =>
      assert s[..4] == "[^/]" && s[4] == '*';
      assert s[5..] == rest;
    case StarStar =>
      assert s[0] == '.' && s[1] == '*';
      assert s[2..] == rest;
  }

  /** The emitted text reads back as the intended pieces: nothing else in it is taken for syntax. */
  lemma {:induction false} EmitReadsBack(ts: seq<Token>)
    requires Supported(ts)
    ensures Read(EmitAll(ts)) == Some(Meanings(ts))
  {
    if ts != [] {
      assert Supported(ts[1..]) by {
        forall k | 0 <= k < |ts[1..]| && ts[1..][k].Lit? ensures ts[1..][k].c !in "?[{*" {
          assert ts[1..][k] == ts[k + 1];
        }
      }
      EmitReadsBack(ts[1..]);
      NoLeadingStar(ts[1..]);
      ReadOne(ts[0], EmitAll(ts[1..]));
    }
  }

  predicate EndsLine(c: char) {
    c == '\n' || c == '\r' || c == 0x2028 as char || c == 0x2029 as char
  }

  predicate Accepts(a: Atom, c: char) {
    match a
    case Plain(d) => c == d
    case AnyInLine => !EndsLine(c)
    case NotSlash => c != '/'
  }

  /** The anchored match a regular-expression engine performs. */
  predicate Matches(ps: seq<Piece>, s: string)
    decreases |ps| + |s|
  {
    if ps == [] then s == []
    else if ps[0].starred then
      Matches(ps[1..], s) || (s != [] && Accepts(ps[0].atom, s[0]) && Matches(ps, s[1..]))
    else s != [] && Accepts(ps[0].atom, s[0]) && Matches(ps[1..], s[1..])
  }

  /** What one glob token stands for. */
  predicate Fits(t: Token, part: string) {
    match t
    case Lit(c) => part == [c]
    case Star => '/' !in part
    case StarStar => forall i :: 0 <= i < |part| ==> !EndsLine(part[i])
  }

  function Concat(parts: seq<string>): string {
    if parts == [] then "" else parts[0] + Concat(parts[1..])
  }

  ghost predicate SplitsAs(ts: seq<Token>, path: string, parts: seq<string>) {
    && |parts| == |ts|
    && Concat(parts) == path
    && forall k :: 0 <= k < |ts| ==> Fits(ts[k], parts[k])
  }

  /** What a glob promises: the path splits into one fitting part per token. */
  ghost predicate GlobMatches(glob: string, path: string) {
    exists parts :: SplitsAs(Tokens(glob), path, parts)
  }

  lemma {:induction false} StarTakes(a: Atom, rest: seq<Piece>, part: string, s: string)
    requires forall i :: 0 <= i < |part| ==> Accepts(a, part[i])
    requires Matches(rest, s)
    ensures Matches([Piece(a, true)] + rest, part + s)
  {
    var ps := [Piece(a, true)] + rest;
    assert ps[1..] == rest;
    if part == [] {
      assert part + s == s;
    } else {
      StarTakes(a, rest, part[1..], s);
      assert (part + s)[1..] == part[1..] + s;
    }
  }

  lemma {:induction false} SplitMatches(ts: seq<Token>, path: string, parts: seq<string>)
    requires SplitsAs(ts, path, parts)
    ensures Matches(Meanings(ts), path)
  {
    if ts != [] {
      var rest := Concat(parts[1..]);
      assert SplitsAs(ts[1..], rest, parts[1..]) by {
        forall k | 0 <= k < |ts[1..]| ensures Fits(ts[1..][k], parts[1..][k]) {
          assert Fits(ts[k + 1], parts[k + 1]);
        }
      }
      SplitMatches(ts[1..], rest, parts[1..]);
      assert Fits(ts[0], parts[0]);
      if ts[0].Lit? {
        assert path[1..] == rest;
      } else {
        StarTakes(Meaning(ts[0]).atom, Meanings(ts[1..]), parts[0], rest);
      }
    }
  }

  lemma {:induction false} MatchSplits(ts: seq<Token>, path: string) returns (parts: seq<string>)
    requires Matches(Meanings(ts), path)
    ensures SplitsAs(ts, path, parts)
    decreases |ts| + |path|
  {
    if ts == [] {
      parts := [];
    } else {
      var p := Meaning(ts[0]);
      if p.starred && Matches(Meanings(ts[1..]), path) {
        var more := MatchSplits(ts[1..], path);
        parts := [""] + more;
        Prepended(ts, "", path, more);
      } else if p.starred {
        var more := MatchSplits(ts, path[1..]);
        parts := [[path[0]] + more[0]] + more[1..];
        LongerFirst(ts, path, more);
      } else {
        var more := MatchSplits(ts[1..], path[1..]);
        parts := [[path[0]]] + more;
        Prepended(ts, [path[0]], path[1..], more);
        assert [path[0]] + path[1..] == path;
      }
    }
  }

  lemma Prepended(ts: seq<Token>, part: string, rest: string, more: seq<string>)
    requires ts != [] && Fits(ts[0], part) && SplitsAs(ts[1..], rest, more)
    ensures SplitsAs(ts, part + rest, [part] + more)
  {
  }

  lemma LongerFirst(ts: seq<Token>, path: string, more: seq<string>)
    requires ts != [] && !ts[0].Lit? && path != [] && Accepts(Meaning(ts[0]).atom, path[0])
    requires SplitsAs(ts, path[1..], more)
    ensures SplitsAs(ts, path, [[path[0]] + more[0]] + more[1..])
  {
  }

  datatype Outcome = Unreadable | Verdict(matched: bool)

  /** new RegExp("^" + regex + "$").test(path), for patterns in the fragment above. */
  function Test(regex: string, path: string): bool {
    var ps := Read(regex);
    ps.Some? && Matches(ps.value, path)
  }

  /** Compiling to text and running the text decides exactly what the glob promises. */
  method MatchGlob(glob: string, path: string) returns (r: Outcome)
    ensures r.Unreadable? <==> Unsupported(glob)
    ensures r.Unreadable? <==> '?' in glob || '[' in glob || '{' in glob
    ensures r.Verdict? ==> (r.matched <==> GlobMatches(glob, path))
  {
    if Unsupported(glob) {
      return Unreadable;
    }
    var regex := Compile(glob);
    TokensSupported(glob);
    EmitReadsBack(Tokens(glob));
    r := Verdict(Test(regex, path));
    if r.matched {
      ghost var parts := MatchSplits(Tokens(glob), path);
    } else {
      forall parts | SplitsAs(Tokens(glob), path, parts) ensures false {
        SplitMatches(Tokens(glob), path, parts);
      }
    }
  }

  ghost predicate SomeSplit(ts: seq<Token>, path: string) {
    exists parts :: SplitsAs(ts, path, parts)
  }

  /** A first token takes a fitting start of the path and leaves the rest to the others. */
  lemma SplitFirst(t: Token, ts: seq<Token>, path: string)
    ensures SomeSplit([t] + ts, path) <==>
      exists n :: 0 <= n <= |path| && Fits(t, path[..n]) && SomeSplit(ts, path[n..])
  {
    var all := [t] + ts;
    assert all[1..] == ts;
    if SomeSplit(all, path) {
      var parts :| SplitsAs(all, path, parts);
      var first, rest := parts[0], Concat(parts[1..]);
      assert path[..|first|] == first && path[|first|..] == rest;
      forall k | 0 <= k < |ts| ensures Fits(ts[k], parts[1..][k]) {
        assert Fits(all[k + 1], parts[k + 1]);
      }
      assert SplitsAs(ts, rest, parts[1..]);
      assert Fits(t, path[..|first|]) && SomeSplit(ts, path[|first|..]);
    }
    if n :| 0 <= n <= |path| && Fits(t, path[..n]) && SomeSplit(ts, path[n..]) {
      var more :| SplitsAs(ts, path[n..], more);
      Prepended(all, path[..n], path[n..], more);
      assert path[..n] + path[n..] == path;
    }
  }

  /** A part without stars stands for itself. */
  lemma {:induction false} PlainPrefix(p: string, g: string, path: string)
    requires '*' !in p
    ensures GlobMatches(p + g, path) <==> p <= path && GlobMatches(g, path[|p|..])
  {
    hide SplitsAs, Fits;
    if p == [] {
      assert p + g == g && path[0..] == path;
    } else {
      var glob, rest := p + g, p[1..] + g;
      assert glob[1..] == rest && glob[0] == p[0] && p == [p[0]] + p[1..];
      assert Tokens(glob) == [Lit(p[0])] + Tokens(rest);
      SplitFirst(Lit(p[0]), Tokens(rest), path);
      LitTakesOne(p[0], Tokens(rest), path);
      if path != [] && path[0] == p[0] {
        PlainPrefix(p[1..], g, path[1..]);
        assert p <= path <==> p[1..] <= path[1..];
        assert p <= path ==> path[1..][|p[1..]|..] == path[|p|..];
      }
    }
  }

  lemma LitTakesOne(c: char, ts: seq<Token>, path: string)
    ensures (exists n :: 0 <= n <= |path| && Fits(Lit(c), path[..n]) && SomeSplit(ts, path[n..])) <==>
      path != [] && path[0] == c && SomeSplit(ts, path[1..])
  {
    hide SomeSplit;
    if n :| 0 <= n <= |path| && Fits(Lit(c), path[..n]) && SomeSplit(ts, path[n..]) {
      assert path[..n] == [c] && n == 1;
      assert path[..n][0] == path[0];
    }
    if path != [] && path[0] == c && SomeSplit(ts, path[1..]) {
      assert path[..1] == [c];
    }
  }

  /** A star stands for any part without a slash, and what follows it for the rest of the path. */
  lemma StarExactly(p: string, g: string, path: string)
    requires '*' !in p && (g == [] || g[0] != '*')
    ensures GlobMatches(p + "*" + g, path) <==>
      exists n :: |p| <= n <= |path| && p <= path && '/' !in path[|p|..n] && GlobMatches(g, path[n..])
  {
    hide SplitsAs;
    var star := "*" + g;
    assert p + "*" + g == p + star && star[1..] == g;
    assert Tokens(star) == [Star] + Tokens(g);
    PlainPrefix(p, star, path);
    if p <= path {
      Remainder(path, |p|, Star, Tokens(g));
    }
  }

  /** Two stars cross slashes: they stand for any part within one line. */
  lemma StarStarExactly(p: string, g: string, path: string)
    requires '*' !in p
    ensures GlobMatches(p + "**" + g, path) <==>
      exists n :: |p| <= n <= |path| && p <= path && GlobMatches(g, path[n..]) && forall i :: |p| <= i < n ==>
        path[i] != '\n' && path[i] != '\r' && path[i] as int != 0x2028 && path[i] as int != 0x2029
  {
    hide SplitsAs;
    var stars := "**" + g;
    assert p + "**" + g == p + stars && stars[2..] == g;
    assert Tokens(stars) == [StarStar] + Tokens(g);
    PlainPrefix(p, stars, path);
    if p <= path {
      Remainder(path, |p|, StarStar, Tokens(g));
      forall n | |p| <= n <= |path|
        ensures Fits(StarStar, path[|p|..n]) <==> forall i :: |p| <= i < n ==>
          path[i] != '\n' && path[i] != '\r' && path[i] as int != 0x2028 && path[i] as int != 0x2029
      {
        LineFree(path, |p|, n);
      }
    }
  }

  lemma LineFree(path: string, a: nat, b: nat)
    requires a <= b <= |path|
    ensures Fits(StarStar, path[a..b]) <==> forall i :: a <= i < b ==>
      path[i] != '\n' && path[i] != '\r' && path[i] as int != 0x2028 && path[i] as int != 0x2029
  {
    var part := path[a..b];
    assert forall k :: 0 <= k < |part| ==> part[k] == path[a + k];
    assert forall i :: a <= i < b ==> path[i] == part[i - a];
  }

  lemma Remainder(path: string, a: nat, t: Token, ts: seq<Token>)
    requires a <= |path|
    ensures SomeSplit([t] + ts, path[a..]) <==>
      exists n :: a <= n <= |path| && Fits(t, path[a..n]) && SomeSplit(ts, path[n..])
  {
    hide Fits, SomeSplit;
    var rest := path[a..];
    SplitFirst(t, ts, rest);
    if m :| 0 <= m <= |rest| && Fits(t, rest[..m]) && SomeSplit(ts, rest[m..]) {
      assert rest[..m] == path[a..a + m] && rest[m..] == path[a + m..];
    }
    if n :| a <= n <= |path| && Fits(t, path[a..n]) && SomeSplit(ts, path[n..]) {
      assert rest[..n - a] == path[a..n] && rest[n - a..] == path[n..];
    }
  }

  /** At the end of a glob: all of a directory's tree, or only what lies directly in it. */
  lemma TrailingStars(p: string, path: string)
    requires '*' !in p
    ensures GlobMatches(p + "**", path) <==>
      p <= path && forall i :: |p| <= i < |path| ==>
        path[i] != '\n' && path[i] != '\r' && path[i] as int != 0x2028 && path[i] as int != 0x2029
    ensures GlobMatches(p + "*", path) <==> p <= path && '/' !in path[|p|..]
  {
    hide GlobMatches;
    StarStarExactly(p, "", path);
    StarExactly(p, "", path);
    assert p + "**" + "" == p + "**" && p + "*" + "" == p + "*";
    forall n | 0 <= n <= |path| ensures GlobMatches("", path[n..]) <==> n == |path| {
      PlainGlobMatchesItself("", path[n..]);
    }
    assert p <= path ==> path[|p|..|path|] == path[|p|..];
  }

  /** A glob without wildcards matches itself only, whatever other special characters it holds. */
  lemma {:induction false} PlainGlobMatchesItself(glob: string, path: string)
    requires '*' !in glob
    ensures GlobMatches(glob, path) <==> path == glob
  {
    if GlobMatches(glob, path) {
      var parts :| SplitsAs(Tokens(glob), path, parts);
      PlainSplit(glob, path, parts);
    }
    if path == glob {
      var parts := PlainParts(glob);
    }
  }

  lemma {:induction false} PlainSplit(glob: string, path: string, parts: seq<string>)
    requires '*' !in glob && SplitsAs(Tokens(glob), path, parts)
    ensures path == glob
  {
    if glob != [] {
      assert Fits(Tokens(glob)[0], parts[0]);
      assert Tokens(glob)[1..] == Tokens(glob[1..]);
      forall k | 0 <= k < |parts[1..]| ensures Fits(Tokens(glob[1..])[k], parts[1..][k]) {
        assert Fits(Tokens(glob)[k + 1], parts[k + 1]);
      }
      PlainSplit(glob[1..], Concat(parts[1..]), parts[1..]);
      assert glob == [glob[0]] + glob[1..];
    }
  }

  lemma {:induction false} PlainParts(glob: string) returns (parts: seq<string>)
    requires '*' !in glob
    ensures SplitsAs(Tokens(glob), glob, parts)
  {
    if glob == [] {
      parts := [];
    } else {
      var more := PlainParts(glob[1..]);
      parts := [[glob[0]]] + more;
      assert Tokens(glob)[1..] == Tokens(glob[1..]);
      Prepended(Tokens(glob), [glob[0]], glob[1..], more);
      assert [glob[0]] + glob[1..] == glob;
    }
  }
}
