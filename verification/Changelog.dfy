/** The update check: version comparison, and the part of a changelog that is newer than a version. */
module Changelog {
  import opened Decimal
  import opened Text
  import opened Collections

  /** The three components that are compared. */
  datatype Version = Version(major: real, minor: real, patch: real)

  predicate Gt(a: Version, b: Version) {
    if a.major != b.major then a.major > b.major
    else if a.minor != b.minor then a.minor > b.minor
    else a.patch > b.patch
  }

  /** Being newer is decided by the first component that differs. */
  lemma GtIsLexicographic(a: Version, b: Version)
    ensures Gt(a, b) <==>
      || a.major > b.major
      || (a.major == b.major && a.minor > b.minor)
      || (a.major == b.major && a.minor == b.minor && a.patch > b.patch)
  {
  }

  /** Being newer is a strict total order. */
  lemma GtIsStrictTotal(a: Version, b: Version, c: Version)
    ensures !Gt(a, a)
    ensures Gt(a, b) && Gt(b, c) ==> Gt(a, c)
    ensures a != b <==> Gt(a, b) || Gt(b, a)
    ensures Gt(a, b) ==> !Gt(b, a)
  {
  }

  /** Number(text), NaN being None, is a parameter: all that is used is that it reads digit strings. */
  ghost predicate ReadsDigits(number: string -> Option<real>) {
    forall s :: Numeral(s) ==> number(s).Some?
  }

  function ParseSemver(number: string -> Option<real>, v: string): Option<Version> {
    var clean := if v != [] && v[0] == 'v' then v[1..] else v;
    var parts := Split(clean, '.');
    if |parts| < 3 then None
    else
      var a, b, c := number(parts[0]), number(parts[1]), number(parts[2]);
      if a.None? || b.None? || c.None? then None else Some(Version(a.value, b.value, c.value))
  }

  /**
   A version parses exactly if it has three dotted parts that are numbers, which are then its components in order;
   one leading v is passed over.
   */
  lemma ParsesExactly(number: string -> Option<real>, v: string)
    requires v == [] || v[0] != 'v'
    ensures var parts := Split(v, '.');
      && ParseSemver(number, "v" + v) == ParseSemver(number, v)
      && (ParseSemver(number, v).Some? <==>
            |parts| >= 3 && number(parts[0]).Some? && number(parts[1]).Some? && number(parts[2]).Some?)
      && (ParseSemver(number, v).Some? ==>
            var w := ParseSemver(number, v).value;
            Some(w.major) == number(parts[0]) && Some(w.minor) == number(parts[1]) && Some(w.patch) == number(parts[2]))
  {
    assert ("v" + v)[1..] == v;
  }

  /** A release worth announcing: a patch bump is not. */
  function IsMinorOrMajorBump(number: string -> Option<real>, current: string, latest: string): bool {
    var cur, lat := ParseSemver(number, current), ParseSemver(number, latest);
    cur.Some? && lat.Some? &&
    (lat.value.major > cur.value.major || (lat.value.major == cur.value.major && lat.value.minor > cur.value.minor))
  }

  /** It is a newer version that is still newer with every patch number ignored. */
  lemma BumpIsNewerBeyondPatch(number: string -> Option<real>, current: string, latest: string)
    requires ParseSemver(number, current).Some? && ParseSemver(number, latest).Some?
    ensures var cur, lat := ParseSemver(number, current).value, ParseSemver(number, latest).value;
      IsMinorOrMajorBump(number, current, latest) <==>
        lat.major > cur.major || (lat.major == cur.major && lat.minor > cur.minor)
    ensures var cur, lat := ParseSemver(number, current).value, ParseSemver(number, latest).value;
      IsMinorOrMajorBump(number, current, latest) <==>
        Gt(lat, cur) && forall p: real, q: real :: Gt(lat.(patch := p), cur.(patch := q))
  {
  }

  /** The length of the digits a string starts with. */
  function DigitRun(s: string): (n: nat)
    ensures n <= |s| && AllDigits(s[..n]) && (n < |s| ==> !IsDigit(s[n]))
  {
    if s == [] || !IsDigit(s[0]) then 0
    else
      var n := DigitRun(s[1..]);
      assert s[..n + 1] == [s[0]] + s[1..][..n];
      n + 1
  }

  /** One or more digits and the rest. */
  function Number(s: string): (r: Option<(string, string)>)
    ensures r.Some? ==> s == r.value.0 + r.value.1 && r.value.0 != [] && AllDigits(r.value.0)
  {
    var n := DigitRun(s);
    if n == 0 then None else Some((s[..n], s[n..]))
  }

  function After(s: string, prefix: string): (r: Option<string>)
    ensures r.Some? ==> s == prefix + r.value
    ensures r.Some? <==> prefix <= s
  {
    if prefix <= s then Some(s[|prefix|..]) else None
  }

  /** The part between the brackets: two dots, maybe a third, nothing else before the closing bracket. */
  function Bracketed(s: string): Option<string> {
    var a := Number(s);
    if a.None? then None else
    var s1 := After(a.value.1, ".");
    if s1.None? then None else
    var b := Number(s1.value);
    if b.None? then None else
    var s2 := After(b.value.1, ".");
    if s2.None? then None else
    var c := Number(s2.value);
    if c.None? then None else
    var version := a.value.0 + "." + b.value.0 + "." + c.value.0;
    if "]" <= c.value.1 then Some(version)
    else
      var s3 := After(c.value.1, ".");
      if s3.None? then None else
      var d := Number(s3.value);
      if d.None? || !("]" <= d.value.1) then None else Some(version + "." + d.value.0)
  }

  /** The version text of a section heading line, if it is one. */
  function Heading(line: string): Option<string> {
    var rest := After(line, "## [");
    if rest.None? then None else Bracketed(rest.value)
  }

  /** What the heading pattern means: three or four dotted digit strings. */
  ghost predicate IsVersionText(v: string) {
    exists a, b, c :: Numeral(a) && Numeral(b) && Numeral(c) &&
      (v == a + "." + b + "." + c || exists d :: Numeral(d) && v == a + "." + b + "." + c + "." + d)
  }

  /** A digit run before anything else than a digit is taken whole. */
  lemma {:induction false} DigitRunTakes(a: string, rest: string)
    requires AllDigits(a) && (rest == [] || !IsDigit(rest[0]))
    ensures DigitRun(a + rest) == |a|
  {
    if a == [] {
      assert a + rest == rest;
    } else {
      assert (a + rest)[1..] == a[1..] + rest;
      DigitRunTakes(a[1..], rest);
    }
  }

  lemma NumberTakes(a: string, rest: string)
    requires Numeral(a) && (rest == [] || !IsDigit(rest[0]))
    ensures Number(a + rest) == Some((a, rest))
  {
    DigitRunTakes(a, rest);
    assert (a + rest)[..|a|] == a && (a + rest)[|a|..] == rest;
  }

  lemma ThreePartsRead(a: string, b: string, c: string, rest: string)
    requires Numeral(a) && Numeral(b) && Numeral(c)
    ensures Bracketed(a + ("." + (b + ("." + (c + ("]" + rest)))))) == Some(a + "." + b + "." + c)
  {
    hide Number, DigitRun;
    var s2 := c + ("]" + rest);
    var s1 := b + ("." + s2);
    NumberTakes(a, "." + s1);
    NumberTakes(b, "." + s2);
    NumberTakes(c, "]" + rest);
    assert ("." + s1)[1..] == s1 && ("." + s2)[1..] == s2;
  }

  lemma FourPartsRead(a: string, b: string, c: string, d: string, rest: string)
    requires Numeral(a) && Numeral(b) && Numeral(c) && Numeral(d)
    ensures Bracketed(a + ("." + (b + ("." + (c + ("." + (d + ("]" + rest))))))))
            == Some(a + "." + b + "." + c + "." + d)
  {
    hide Number, DigitRun;
    var s3 := d + ("]" + rest);
    var s2 := c + ("." + s3);
    var s1 := b + ("." + s2);
    NumberTakes(a, "." + s1);
    NumberTakes(b, "." + s2);
    NumberTakes(c, "." + s3);
    NumberTakes(d, "]" + rest);
    assert ("." + s1)[1..] == s1 && ("." + s2)[1..] == s2 && ("." + s3)[1..] == s3;
  }

  lemma Dotted(a: string, b: string, rest: string)
    ensures a + ("." + (b + rest)) == a + "." + b + rest
  {
  }

  lemma Starts(v: string, rest: string)
    requires "]" <= rest
    ensures v + "]" <= v + rest
  {
    assert (v + rest)[..|v| + 1] == v + "]";
  }

  /** Everything the heading pattern accepts is a version text followed by the bracket. */
  lemma BracketedMeans(s: string)
    requires Bracketed(s).Some?
    ensures IsVersionText(Bracketed(s).value) && Bracketed(s).value + "]" <= s
  {
    hide DigitRun, Number, After, AllDigits;
    var (a, r1) := Number(s).value;
    var s1 := After(r1, ".").value;
    var (b, r2) := Number(s1).value;
    var s2 := After(r2, ".").value;
    var (c, r3) := Number(s2).value;
    assert Numeral(a) && Numeral(b) && Numeral(c);
    Dotted(a, b, "." + (c + r3));
    Dotted(a + "." + b, c, r3);
    var v := a + "." + b + "." + c;
    assert s == v + r3;
    if "]" <= r3 {
      Starts(v, r3);
    } else {
      var (d, r4) := Number(After(r3, ".").value).value;
      assert Numeral(d);
      Dotted(v, d, r4);
      Starts(v + "." + d, r4);
    }
  }

  lemma BracketedComplete(v: string, rest: string)
    requires IsVersionText(v)
    ensures Bracketed(v + ("]" + rest)) == Some(v)
  {
    hide Bracketed, AllDigits;
    var a, b, c :| Numeral(a) && Numeral(b) && Numeral(c) &&
      (v == a + "." + b + "." + c || exists d :: Numeral(d) && v == a + "." + b + "." + c + "." + d);
    if v == a + "." + b + "." + c {
      ThreePartsRead(a, b, c, rest);
      Dotted(a, b, "." + (c + ("]" + rest)));
      Dotted(a + "." + b, c, "]" + rest);
    } else {
      var d :| Numeral(d) && v == a + "." + b + "." + c + "." + d;
      FourPartsRead(a, b, c, d, rest);
      Dotted(a, b, "." + (c + ("." + (d + ("]" + rest)))));
      Dotted(a + "." + b, c, "." + (d + ("]" + rest)));
      Dotted(a + "." + b + "." + c, d, "]" + rest);
    }
  }

  /** The heading matcher accepts exactly "## [", a version text and the closing bracket, and captures the version. */
  lemma HeadingExactly(line: string, v: string)
    ensures Heading(line) == Some(v) <==> IsVersionText(v) && "## [" + (v + "]") <= line
  {
    hide Bracketed, IsVersionText;
    if Heading(line) == Some(v) {
      var rest := After(line, "## [").value;
      BracketedMeans(rest);
      assert line[..|v| + 5] == "## [" + (v + "]");
    }
    if IsVersionText(v) && "## [" + (v + "]") <= line {
      var rest := line[|v| + 5..];
      BracketedComplete(v, rest);
      assert line == "## [" + (v + ("]" + rest));
      assert line[4..] == v + ("]" + rest);
    }
  }

  /** Every version text has only components the number reader accepts, so every heading parses. */
  lemma VersionTextParses(number: string -> Option<real>, v: string)
    requires ReadsDigits(number) && IsVersionText(v)
    ensures ParseSemver(number, v).Some?
  {
    var a, b, c :| Numeral(a) && Numeral(b) && Numeral(c) &&
      (v == a + "." + b + "." + c || exists d :: Numeral(d) && v == a + "." + b + "." + c + "." + d);
    if v == a + "." + b + "." + c {
      DottedSplit(a, b, c);
    } else {
      var d :| Numeral(d) && v == a + "." + b + "." + c + "." + d;
      FourthPartIgnored(number, a, b, c, d);
      DottedSplit(a, b, c);
      FirstIsDigit(a, b, c);
    }
    FirstIsDigit(a, b, c);
    assert v[0] == a[0];
  }

  lemma FirstIsDigit(a: string, b: string, c: string)
    requires Numeral(a)
    ensures (a + "." + b + "." + c)[0] == a[0] && IsDigit(a[0])
  {
  }

  lemma DottedSplit(a: string, b: string, c: string)
    requires Numeral(a) && Numeral(b) && Numeral(c)
    ensures Split(a + "." + b + "." + c, '.') == [a, b, c]
  {
    SplitAppend(a + "." + b, c, '.');
    SplitAppend(a, b, '.');
    SplitNone(a, '.');
    SplitNone(b, '.');
    SplitNone(c, '.');
  }

  /** A fourth component, a hotfix of a release, is ignored: the two compare as equal. */
  lemma FourthPartIgnored(number: string -> Option<real>, a: string, b: string, c: string, d: string)
    requires Numeral(a) && Numeral(b) && Numeral(c) && Numeral(d)
    ensures ParseSemver(number, a + "." + b + "." + c + "." + d) == ParseSemver(number, a + "." + b + "." + c)
  {
    var v := a + "." + b + "." + c;
    DottedSplit(a, b, c);
    SplitAppend(v, d, '.');
    SplitNone(d, '.');
    FirstIsDigit(a, b, c);
    assert (v + "." + d)[0] == v[0];
  }

  /** The heading's version; a heading that would not parse does not exist. */
  lemma HeadingParses(number: string -> Option<real>, line: string)
    requires ReadsDigits(number) && Heading(line).Some?
    ensures ParseSemver(number, Heading(line).value).Some?
  {
    hide Bracketed, ParseSemver, IsVersionText;
    var rest := After(line, "## [").value;
    BracketedMeans(rest);
    VersionTextParses(number, Heading(line).value);
  }

  predicate NewerHeading(number: string -> Option<real>, line: string, from: Version) {
    var h := Heading(line);
    h.Some? && var v := ParseSemver(number, h.value); v.Some? && Gt(v.value, from)
  }

  predicate OlderHeading(number: string -> Option<real>, line: string, from: Version) {
    var h := Heading(line);
    h.Some? && var v := ParseSemver(number, h.value); v.Some? && !Gt(v.value, from)
  }

  lemma LineKind(number: string -> Option<real>, line: string, from: Version)
    ensures var h := Heading(line);
      if h.None? || ParseSemver(number, h.value).None?
      then !NewerHeading(number, line, from) && !OlderHeading(number, line, from)
      else
        var newer := Gt(ParseSemver(number, h.value).value, from);
        (NewerHeading(number, line, from) <==> newer) && (OlderHeading(number, line, from) <==> !newer)
  {
    hide Heading, ParseSemver, Gt;
  }

  /** Lines s to e: from the first newer heading to the next one that is not newer. */
  ghost predicate FirstNewerStretch(number: string -> Option<real>, lines: seq<string>, from: Version, s: nat, e: nat) {
    && s <= e <= |lines|
    && (forall i :: 0 <= i < s ==> !NewerHeading(number, lines[i], from))
    && (s < |lines| ==> s < e && NewerHeading(number, lines[s], from))
    && (forall i :: s <= i < e ==> !OlderHeading(number, lines[i], from))
    && (e < |lines| ==> OlderHeading(number, lines[e], from))
  }

  /**
   The scan over lines collects exactly one stretch. The upper bound `to` is not used, so the result lies
   between the two versions only if the changelog itself keeps the bound.
   */
  method Extract(number: string -> Option<real>, changelog: string, from: string, to: string)
    returns (r: string, ghost s: nat, ghost e: nat)
    ensures ParseSemver(number, from).None? ==> r == ""
    ensures ParseSemver(number, from).Some? ==>
      FirstNewerStretch(number, Lines(changelog), ParseSemver(number, from).value, s, e)
      && r == Trim(Unlines(Lines(changelog)[s..e]))
    ensures ReadsDigits(number) && ParseSemver(number, from).Some? && ParseSemver(number, to).Some? ==>
      var lines, f, t := Lines(changelog), ParseSemver(number, from).value, ParseSemver(number, to).value;
      ReturnsBetween(number, lines, f, t, s, e) <==> BoundKept(number, lines, f, t, s, e)
  {
    hide Heading, ParseSemver, Gt, Lines, Trim, ReadsDigits, ReturnsBetween, BoundKept, NewerHeading, OlderHeading;
    var lines := Lines(changelog);
    var entries: seq<string> := [];
    var capturing := false;
    s, e := |lines|, |lines|;
    var fromParsed := ParseSemver(number, from);
    if fromParsed.None? {
      return "", s, e;
    }
    for i := 0 to |lines|
      invariant e == |lines|
      invariant capturing ==> s < i && NewerHeading(number, lines[s], fromParsed.value) && entries == lines[s..i]
      invariant !capturing ==> s == |lines| && entries == []
      invariant !capturing ==> forall j :: 0 <= j < i ==> !NewerHeading(number, lines[j], fromParsed.value)
      invariant capturing ==> forall j :: 0 <= j < s ==> !NewerHeading(number, lines[j], fromParsed.value)
      invariant capturing ==> forall j :: s <= j < i ==> !OlderHeading(number, lines[j], fromParsed.value)
    {
      var version := Heading(lines[i]);
      LineKind(number, lines[i], fromParsed.value);
      assert lines[i..i + 1] == [lines[i]];
      assert capturing ==> lines[s..i] + [lines[i]] == lines[s..i + 1];
      if version.Some? {
        var verParsed := ParseSemver(number, version.value);
        if verParsed.None? {
          if capturing {
            entries := entries + [lines[i]];
          }
          continue;
        }
        if !capturing {
          if Gt(verParsed.value, fromParsed.value) {
            capturing := true;
            s := i;
            entries := entries + [lines[i]];
          }
        } else {
          if !Gt(verParsed.value, fromParsed.value) {
            e := i;
            break;
          }
          entries := entries + [lines[i]];
        }
      } else if capturing {
        entries := entries + [lines[i]];
      }
    }
    assert entries == lines[s..e];
    r := Trim(Unlines(entries));
    if ReadsDigits(number) && ParseSemver(number, to).Some? {
      BetweenExactly(number, lines, fromParsed.value, ParseSemver(number, to).value, s, e);
    }
  }

  /** The section a line belongs to: the last heading at or above it. */
  function SectionOf(lines: seq<string>, i: nat): Option<string>
    requires i < |lines|
  {
    if Heading(lines[i]).Some? then Heading(lines[i]) else if i == 0 then None else SectionOf(lines, i - 1)
  }

  predicate InNewerSection(number: string -> Option<real>, lines: seq<string>, from: Version, i: nat)
    requires i < |lines|
  {
    var h := SectionOf(lines, i);
    h.Some? && var v := ParseSemver(number, h.value); v.Some? && Gt(v.value, from)
  }

  /** Inside the stretch every line belongs to a newer section, and above it none does. */
  lemma {:induction false} StretchIsNewer(number: string -> Option<real>, lines: seq<string>,
      from: Version, s: nat, e: nat, i: nat)
    requires ReadsDigits(number) && FirstNewerStretch(number, lines, from, s, e) && i < e
    ensures InNewerSection(number, lines, from, i) <==> s <= i
  {
    hide Heading, ParseSemver, Gt;
    assert s < |lines| ==> NewerHeading(number, lines[s], from);
    if Heading(lines[i]).Some? {
      HeadingParses(number, lines[i]);
      if i < s {
        assert !NewerHeading(number, lines[i], from);
      } else {
        assert !OlderHeading(number, lines[i], from);
      }
    } else if i > 0 && i != s {
      StretchIsNewer(number, lines, from, s, e, i - 1);
    }
  }

  /** The scan returns every line of every newer section exactly if no newer heading follows the stretch. */
  lemma AllNewerExactly(number: string -> Option<real>, lines: seq<string>, from: Version, s: nat, e: nat)
    requires ReadsDigits(number) && FirstNewerStretch(number, lines, from, s, e)
    ensures (forall i :: 0 <= i < |lines| ==> (InNewerSection(number, lines, from, i) <==> s <= i < e))
      <==> (forall i :: e <= i < |lines| ==> !NewerHeading(number, lines[i], from))
  {
    hide Heading, ParseSemver, Gt, FirstNewerStretch;
    if forall i :: e <= i < |lines| ==> !NewerHeading(number, lines[i], from) {
      forall i | 0 <= i < |lines| ensures InNewerSection(number, lines, from, i) <==> s <= i < e {
        if i < e {
          StretchIsNewer(number, lines, from, s, e, i);
        } else {
          NoneNewerBelow(number, lines, from, s, e, i);
        }
      }
    } else {
      var i :| e <= i < |lines| && NewerHeading(number, lines[i], from);
      assert InNewerSection(number, lines, from, i);
    }
  }

  lemma {:induction false} NoneNewerBelow(number: string -> Option<real>, lines: seq<string>,
      from: Version, s: nat, e: nat, i: nat)
    requires FirstNewerStretch(number, lines, from, s, e)
    requires forall j :: e <= j < |lines| ==> !NewerHeading(number, lines[j], from)
    requires e <= i < |lines|
    ensures !InNewerSection(number, lines, from, i)
  {
    hide Heading, ParseSemver, Gt;
    if i > e {
      NoneNewerBelow(number, lines, from, s, e, i - 1);
    }
    assert OlderHeading(number, lines[e], from);
    assert !NewerHeading(number, lines[i], from);
  }

  /** No heading is newer than one above it. */
  ghost predicate Descending(number: string -> Option<real>, lines: seq<string>) {
    forall i, j :: 0 <= i < j < |lines| && Heading(lines[i]).Some? && Heading(lines[j]).Some? ==>
      var v, w := ParseSemver(number, Heading(lines[i]).value), ParseSemver(number, Heading(lines[j]).value);
      v.Some? && w.Some? ==> !Gt(w.value, v.value)
  }

  /** On a changelog in descending order the scan returns all the newer sections and nothing else. */
  lemma DescendingGetsAllNewer(number: string -> Option<real>, lines: seq<string>, from: Version, s: nat, e: nat)
    requires ReadsDigits(number) && FirstNewerStretch(number, lines, from, s, e) && Descending(number, lines)
    ensures forall i :: 0 <= i < |lines| ==> (InNewerSection(number, lines, from, i) <==> s <= i < e)
  {
    hide Heading, ParseSemver, InNewerSection;
    forall i | e <= i < |lines| ensures !NewerHeading(number, lines[i], from) {
      assert OlderHeading(number, lines[e], from);
      if i > e && NewerHeading(number, lines[i], from) {
        var v, w := ParseSemver(number, Heading(lines[e]).value).value,
            ParseSemver(number, Heading(lines[i]).value).value;
        GtIsStrictTotal(w, from, v);
        assert false;
      }
    }
    AllNewerExactly(number, lines, from, s, e);
  }

  /** The line belongs to a section newer than `from` and not newer than `to`: what a caller asks for. */
  predicate InBetween(number: string -> Option<real>, lines: seq<string>, from: Version, to: Version, i: nat)
    requires i < |lines|
  {
    var h := SectionOf(lines, i);
    h.Some? && var v := ParseSemver(number, h.value); v.Some? && Gt(v.value, from) && !Gt(v.value, to)
  }

  ghost predicate ReturnsBetween(number: string -> Option<real>, lines: seq<string>, from: Version,
      to: Version, s: nat, e: nat) {
    forall i :: 0 <= i < |lines| ==> (InBetween(number, lines, from, to, i) <==> s <= i < e)
  }

  ghost predicate BoundKept(number: string -> Option<real>, lines: seq<string>, from: Version,
      to: Version, s: nat, e: nat)
    requires s <= e <= |lines|
  {
    && (forall k :: s <= k < e ==> !NewerHeading(number, lines[k], to))
    && (forall k :: e <= k < |lines| ==> !NewerHeading(number, lines[k], from) || NewerHeading(number, lines[k], to))
  }

  /** Below a heading, a line's section starts at that heading or later. */
  lemma {:induction false} SectionStart(lines: seq<string>, top: nat, i: nat) returns (k: nat)
    requires top <= i < |lines| && Heading(lines[top]).Some?
    ensures top <= k <= i && Heading(lines[k]).Some? && SectionOf(lines, i) == Heading(lines[k])
  {
    hide Heading;
    if Heading(lines[i]).Some? {
      k := i;
    } else {
      k := SectionStart(lines, top, i - 1);
    }
  }

  lemma BetweenAtHeading(number: string -> Option<real>, lines: seq<string>, from: Version, to: Version, i: nat, k: nat)
    requires k <= i < |lines| && Heading(lines[k]).Some? && SectionOf(lines, i) == Heading(lines[k])
    ensures InBetween(number, lines, from, to, i)
      <==> NewerHeading(number, lines[k], from) && !NewerHeading(number, lines[k], to)
  {
    hide Heading, ParseSemver, Gt;
  }

  lemma BetweenInStretch(number: string -> Option<real>, lines: seq<string>, from: Version, to: Version,
      s: nat, e: nat, i: nat)
    requires ReadsDigits(number) && FirstNewerStretch(number, lines, from, s, e)
    requires BoundKept(number, lines, from, to, s, e) && i < |lines|
    ensures InBetween(number, lines, from, to, i) <==> s <= i < e
  {
    hide Heading, ParseSemver, Gt;
    if i < e {
      StretchIsNewer(number, lines, from, s, e, i);
      if s <= i {
        assert NewerHeading(number, lines[s], from);
        var k := SectionStart(lines, s, i);
        assert !NewerHeading(number, lines[k], to);
        BetweenAtHeading(number, lines, from, to, i, k);
      }
    } else {
      assert OlderHeading(number, lines[e], from);
      var k := SectionStart(lines, e, i);
      BetweenAtHeading(number, lines, from, to, i, k);
    }
  }

  /**
   The result is what lies between the two versions exactly if no captured heading is newer than `to`
   and no heading below the stretch lies between them.
   */
  lemma BetweenExactly(number: string -> Option<real>, lines: seq<string>, from: Version, to: Version, s: nat, e: nat)
    requires ReadsDigits(number) && FirstNewerStretch(number, lines, from, s, e)
    ensures ReturnsBetween(number, lines, from, to, s, e) <==> BoundKept(number, lines, from, to, s, e)
  {
    hide Heading, ParseSemver, Gt, InBetween, OlderHeading;
    if ReturnsBetween(number, lines, from, to, s, e) {
      forall k | 0 <= k < |lines| && Heading(lines[k]).Some?
        ensures NewerHeading(number, lines[k], from) && !NewerHeading(number, lines[k], to) <==> s <= k < e
      {
        BetweenAtHeading(number, lines, from, to, k, k);
        assert InBetween(number, lines, from, to, k) <==> s <= k < e;
      }
    } else if BoundKept(number, lines, from, to, s, e) {
      forall i | 0 <= i < |lines| ensures InBetween(number, lines, from, to, i) <==> s <= i < e {
        BetweenInStretch(number, lines, from, to, s, e, i);
      }
    }
  }

  /** A heading below one that is not newer than `to` is not newer either, on a descending changelog. */
  lemma NewerComesFirst(number: string -> Option<real>, lines: seq<string>, v: Version, i: nat, j: nat)
    requires ReadsDigits(number) && Descending(number, lines) && i < j < |lines|
    requires Heading(lines[i]).Some? && NewerHeading(number, lines[j], v)
    ensures NewerHeading(number, lines[i], v)
  {
    hide Heading, ParseSemver;
    HeadingParses(number, lines[i]);
    var a, b := ParseSemver(number, Heading(lines[i]).value).value, ParseSemver(number, Heading(lines[j]).value).value;
    assert !Gt(b, a);
    GtIsStrictTotal(a, b, v);
  }

  /** On a descending changelog the upper bound is kept exactly if the first captured heading keeps it. */
  lemma UpperBoundExactly(number: string -> Option<real>, lines: seq<string>, from: Version, to: Version,
      s: nat, e: nat)
    requires ReadsDigits(number) && FirstNewerStretch(number, lines, from, s, e) && Descending(number, lines)
    ensures ReturnsBetween(number, lines, from, to, s, e)
      <==> s == |lines| || !NewerHeading(number, lines[s], to)
  {
    hide Heading, ParseSemver, Gt, InBetween, Descending;
    BetweenExactly(number, lines, from, to, s, e);
    forall k | e <= k < |lines| ensures !NewerHeading(number, lines[k], from) {
      assert OlderHeading(number, lines[e], from);
      if k > e && NewerHeading(number, lines[k], from) {
        NewerComesFirst(number, lines, from, e, k);
      }
    }
    if s < |lines| && !NewerHeading(number, lines[s], to) {
      assert NewerHeading(number, lines[s], from);
      forall k | s <= k < e ensures !NewerHeading(number, lines[k], to) {
        if k > s && NewerHeading(number, lines[k], to) {
          NewerComesFirst(number, lines, to, s, k);
        }
      }
    }
  }

  /** A number reader there is: decimal digits, and NaN for anything else. */
  function DecimalNumber(s: string): Option<real> {
    if Numeral(s) then Some(Value(s) as real) else None
  }

  lemma DecimalReadsDigits()
    ensures ReadsDigits(s => DecimalNumber(s))
  {
  }

  function SectionLine(version: string): string {
    "## [" + (version + "]")
  }

  lemma SectionLineRead(number: string -> Option<real>, a: string, b: string, c: string)
    requires ReadsDigits(number) && Numeral(a) && Numeral(b) && Numeral(c)
    ensures var v := a + "." + b + "." + c;
      && Heading(SectionLine(v)) == Some(v)
      && ParseSemver(number, v) == Some(Version(number(a).value, number(b).value, number(c).value))
  {
    var v := a + "." + b + "." + c;
    HeadingExactly(SectionLine(v), v);
    DottedSplit(a, b, c);
    FirstIsDigit(a, b, c);
  }

  lemma ThreeSections(number: string -> Option<real>, lines: seq<string>, from: Version, to: Version, top: Version)
    requires |lines| == 3 && forall i :: 0 <= i < 3 ==> Heading(lines[i]).Some?
    requires ParseSemver(number, Heading(lines[0]).value) == Some(top)
    requires ParseSemver(number, Heading(lines[1]).value) == Some(to)
    requires ParseSemver(number, Heading(lines[2]).value) == Some(from)
    requires Gt(top, to) && Gt(to, from)
    ensures FirstNewerStretch(number, lines, from, 0, 2) && Descending(number, lines)
    ensures NewerHeading(number, lines[0], to) && !NewerHeading(number, lines[1], to)
  {
    hide Heading, ParseSemver;
    GtIsStrictTotal(top, to, from);
    GtIsStrictTotal(to, from, top);
    GtIsStrictTotal(from, from, from);
  }

  /**
   An unreleased section at the top: the changelog is that of the main branch, while `to` is the latest
   release, and the section above it is returned too.
   */
  lemma UnreleasedIsReturned(number: string -> Option<real>, two: string, one: string, zero: string)
    requires ReadsDigits(number) && Numeral(two) && Numeral(one) && Numeral(zero)
    requires number(two).value > number(one).value > number(zero).value
    ensures var from, to := one + "." + zero + "." + zero, one + "." + one + "." + zero;
      var lines := [SectionLine(two + "." + zero + "." + zero), SectionLine(to), SectionLine(from)];
      && ParseSemver(number, from).Some? && ParseSemver(number, to).Some?
      && var (f, t) := (ParseSemver(number, from).value, ParseSemver(number, to).value);
      && FirstNewerStretch(number, lines, f, 0, 2) && Descending(number, lines)
      && NewerHeading(number, lines[0], t) && !NewerHeading(number, lines[1], t)
  {
    hide Heading, ParseSemver, SectionLine, Numeral;
    SectionLineRead(number, two, zero, zero);
    SectionLineRead(number, one, one, zero);
    SectionLineRead(number, one, zero, zero);
    var from, to := one + "." + zero + "." + zero, one + "." + one + "." + zero;
    var lines := [SectionLine(two + "." + zero + "." + zero), SectionLine(to), SectionLine(from)];
    ThreeSections(number, lines, ParseSemver(number, from).value, ParseSemver(number, to).value,
      Version(number(two).value, number(zero).value, number(zero).value));
  }

  /** With decimal numbers: an update from 1.0.0 to release 1.1.0 returns the section of 2.0.0 as well. */
  lemma UnreleasedExample()
    ensures var number := s => DecimalNumber(s);
      var lines := [SectionLine("2" + "." + "0" + "." + "0"), SectionLine("1" + "." + "1" + "." + "0"),
                    SectionLine("1" + "." + "0" + "." + "0")];
      && FirstNewerStretch(number, lines, Version(1.0, 0.0, 0.0), 0, 2)
      && NewerHeading(number, lines[0], Version(1.0, 1.0, 0.0))
  {
    hide Heading, ParseSemver, SectionLine;
    var number := s => DecimalNumber(s);
    DecimalReadsDigits();
    assert Numeral("0") && Numeral("1") && Numeral("2");
    assert number("0") == Some(0.0) && number("1") == Some(1.0) && number("2") == Some(2.0);
    UnreleasedIsReturned(number, "2", "1", "0");
    SectionLineRead(number, "1", "0", "0");
    SectionLineRead(number, "1", "1", "0");
  }
}
