/** The text edits of autopilot --install and --uninstall: a marked bootstrap snippet and a crontab line. */
module AutopilotInstall {
  import opened Collections
  import opened Text

  function Marker(): (m: string)
    ensures m != [] && '\n' !in m && !IsSpace(m[|m| - 1])
  {
    "# gbrain:autopilot v0.11.0"
  }

  predicate Marked(s: string) {
    Contains(s, Marker())
  }

  function StartCall(scriptPath: string): (r: string)
    ensures '\n' !in scriptPath ==> '\n' !in r
  {
    "bash " + scriptPath
  }

  /** Appends the start call under the marker unless the marker is there already. */
  function Inject(content: string, scriptPath: string): string {
    if Marked(content) then content
    else TrimEnd(content) + "\n" + (Marker() + "\n" + (StartCall(scriptPath) + "\n"))
  }

  /** Each marker line goes, and the line after it. */
  function DropMarked(ls: seq<string>): seq<string> {
    if ls == [] then []
    else if Marked(ls[0]) then (if |ls| > 1 then DropMarked(ls[2..]) else [])
    else [ls[0]] + DropMarked(ls[1..])
  }

  function Remove(content: string): string {
    if Marked(content) then Unlines(DropMarked(Lines(content))) else content
  }

  method RemoveMarked(content: string) returns (r: string)
    ensures r == Remove(content)
  {
    if !Marked(content) {
      return content;
    }
    var lines := Lines(content);
    var cleaned := [];
    var i := 0;
    while i < |lines|
      invariant 0 <= i
      invariant DropMarked(lines) == cleaned + if i <= |lines| then DropMarked(lines[i..]) else []
    {
      ghost var rest, before := lines[i..], cleaned;
      if Marked(lines[i]) {
        assert |rest| > 1 ==> rest[2..] == lines[i + 2..];
        i := i + 2;
        continue;
      }
      assert rest[1..] == lines[i + 1..];
      cleaned := cleaned + [lines[i]];
      assert before + ([lines[i]] + DropMarked(lines[i + 1..])) == cleaned + DropMarked(lines[i + 1..]);
      i := i + 1;
    }
    assert DropMarked(lines) == cleaned;
    return Unlines(cleaned);
  }

  lemma {:induction false} DropMarkedClean(ls: seq<string>)
    ensures forall l :: l in DropMarked(ls) ==> !Marked(l)
    decreases |ls|
  {
    if ls != [] {
      if Marked(ls[0]) {
        if |ls| > 1 {
          DropMarkedClean(ls[2..]);
        }
      } else {
        DropMarkedClean(ls[1..]);
      }
    }
  }

  lemma {:induction false} DropMarkedKeeps(ls: seq<string>, more: seq<string>)
    requires forall l :: l in ls ==> !Marked(l)
    ensures DropMarked(ls + more) == ls + DropMarked(more)
  {
    if ls == [] {
      assert ls + more == more;
    } else {
      DropMarkedKeeps(ls[1..], more);
      assert (ls + more)[1..] == ls[1..] + more;
    }
  }

  lemma CleanLines(content: string)
    requires !Marked(content)
    ensures forall l :: l in Lines(TrimEnd(content)) ==> !Marked(l)
  {
    var t := TrimEnd(content);
    forall l | l in Lines(t) ensures !Marked(l) {
      if Marked(l) {
        LineContains(t, Marker(), l);
        assert content == t + content[|t|..];
        ContainsLeft(t, content[|t|..], Marker());
      }
    }
  }

  lemma InjectedIsMarked(content: string, scriptPath: string)
    ensures Marked(Inject(content, scriptPath))
  {
    hide Marker, Contains, StartCall;
    if !Marked(content) {
      var after := "\n" + (StartCall(scriptPath) + "\n");
      ContainsSelf(Marker());
      ContainsLeft(Marker(), after, Marker());
      assert Marker() + after == Marker() + "\n" + (StartCall(scriptPath) + "\n");
      ContainsRight(TrimEnd(content) + "\n", Marker() + after, Marker());
    }
  }

  /** What is appended: the marker on a line of its own, and the call that starts the script. */
  lemma InjectAppends(content: string, scriptPath: string)
    ensures Contains(content, "# gbrain:autopilot v0.11.0") ==> Inject(content, scriptPath) == content
    ensures !Contains(content, "# gbrain:autopilot v0.11.0") ==>
      Inject(content, scriptPath) == TrimEnd(content) + "\n# gbrain:autopilot v0.11.0\nbash " + scriptPath + "\n"
  {
    SnippetHead();
    hide Contains, TrimEnd, Marker;
    Spread(TrimEnd(content), Marker(), "bash ", scriptPath);
  }

  lemma SnippetHead()
    ensures Marker() == "# gbrain:autopilot v0.11.0"
    ensures "\n# gbrain:autopilot v0.11.0\nbash " == "\n" + Marker() + "\n" + "bash "
  {
  }

  lemma Spread(t: string, marker: string, command: string, path: string)
    ensures t + "\n" + (marker + "\n" + (command + path + "\n"))
         == t + ("\n" + marker + "\n" + command) + path + "\n"
  {
  }

  /** Installing twice is installing once. */
  lemma InjectIsIdempotent(content: string, scriptPath: string, other: string)
    ensures Inject(Inject(content, scriptPath), other) == Inject(content, scriptPath)
  {
    InjectedIsMarked(content, scriptPath);
  }

  lemma RemovedIsClean(content: string)
    ensures !Marked(Remove(content))
  {
    if Marked(content) {
      var cleaned := DropMarked(Lines(content));
      DropMarkedClean(Lines(content));
      if Marked(Unlines(cleaned)) {
        UnlinesContainsOnly(cleaned, Marker());
      }
    }
  }

  lemma RemoveIsIdempotent(content: string)
    ensures Remove(Remove(content)) == Remove(content)
  {
    RemovedIsClean(content);
  }

  lemma {:induction false} UnlinesAppendBlank(ls: seq<string>)
    requires ls != []
    ensures Unlines(ls + [""]) == Unlines(ls) + "\n"
  {
    if |ls| > 1 {
      UnlinesAppendBlank(ls[1..]);
      assert (ls + [""])[1..] == ls[1..] + [""];
    } else {
      assert (ls + [""])[1..] == [""];
    }
  }

  lemma InjectedLines(content: string, scriptPath: string)
    requires !Marked(content) && '\n' !in scriptPath
    ensures Lines(Inject(content, scriptPath)) == Lines(TrimEnd(content)) + [Marker(), StartCall(scriptPath), ""]
  {
    hide Marker, Contains, Lines, TrimEnd, StartCall;
    var call := StartCall(scriptPath);
    LinesOfEnded(call);
    LinesAppend(Marker(), call + "\n");
    LinesOfLine(Marker());
    LinesAppend(TrimEnd(content), Marker() + "\n" + (call + "\n"));
  }

  /**
   Uninstalling after installing leaves the file with its end trimmed to one line break, exactly if it did
   not carry the marker before.
   */
  lemma UninstallUndoesInject(content: string, scriptPath: string)
    requires '\n' !in scriptPath
    ensures Remove(Inject(content, scriptPath)) == TrimEnd(content) + "\n" <==> !Marked(content)
  {
    hide Marker, Contains, Lines, TrimEnd, StartCall;
    var t := TrimEnd(content);
    if Marked(content) {
      TrimEndKeeps(content, Marker());
      ContainsLeft(t, "\n", Marker());
      RemovedIsClean(content);
    } else {
      var tail := [Marker(), StartCall(scriptPath), ""];
      InjectedIsMarked(content, scriptPath);
      InjectedLines(content, scriptPath);
      CleanLines(content);
      DropMarkedKeeps(Lines(t), tail);
      TailDropped(StartCall(scriptPath));
      UnlinesAppendBlank(Lines(t));
      UnlinesOfLines(t);
    }
  }

  lemma TailDropped(call: string)
    ensures DropMarked([Marker(), call, ""]) == [""]
  {
    hide Marker;
    var tail := [Marker(), call, ""];
    ContainsSelf(Marker());
    assert tail[2..] == [""];
    assert !Marked("");
    assert DropMarked([""]) == [""] + DropMarked([""][1..]);
  }

  function CommandName(): (m: string)
    ensures m != [] && '\n' !in m && !IsSpace(m[|m| - 1])
  {
    "gbrain autopilot"
  }

  function WrapperName(): (m: string)
    ensures m != [] && '\n' !in m && !IsSpace(m[|m| - 1]) && '\'' !in m
  {
    "autopilot-run.sh"
  }

  /** What makes a crontab, or a line of one, look like ours. */
  predicate Owned(s: string) {
    Contains(s, CommandName()) || Contains(s, WrapperName())
  }

  function QuotedChar(c: char): string {
    if c == '\'' then "'\\''" else [c]
  }

  /** Single quotes closed, escaped and reopened for the shell. */
  function Quoted(s: string): string {
    if s == [] then [] else QuotedChar(s[0]) + Quoted(s[1..])
  }

  function CronLine(home: string): string {
    "*/5 * * * * '" + Quoted(home + "/.gbrain/" + WrapperName())
        + ("' >> '" + Quoted(home) + "/.gbrain/autopilot.log' 2>&1")
  }

  function InstallCron(crontab: string, home: string): string {
    if Owned(crontab) then crontab else TrimEnd(crontab) + "\n" + (CronLine(home) + "\n")
  }

  function Foreign(ls: seq<string>): seq<string> {
    if ls == [] then [] else (if Owned(ls[0]) then [] else [ls[0]]) + Foreign(ls[1..])
  }

  function UninstallCron(crontab: string): string {
    if Owned(crontab) then Unlines(Foreign(Lines(crontab))) else crontab
  }

  lemma {:induction false} QuotedAppend(a: string, b: string)
    ensures Quoted(a + b) == Quoted(a) + Quoted(b)
  {
    hide QuotedChar;
    if a == [] {
      assert a + b == b;
    } else {
      QuotedAppend(a[1..], b);
      assert (a + b)[1..] == a[1..] + b;
      Regroup(QuotedChar(a[0]), Quoted(a[1..]), Quoted(b));
    }
  }

  lemma {:induction false} QuotedPlain(s: string)
    ensures '\'' !in s ==> Quoted(s) == s
    ensures '\n' !in s ==> '\n' !in Quoted(s)
  {
    if s != [] {
      QuotedPlain(s[1..]);
      assert s == [s[0]] + s[1..];
    }
  }

  /**
   Reading one word as the shell does: between single quotes every character stands for itself, outside them a
   backslash protects the next one and a blank or the end ends the word. None for an open quote.
   */
  function ShellWord(s: string, quoted: bool): Option<string>
    decreases |s|
  {
    if s == [] then (if quoted then None else Some(""))
    else if s[0] == '\'' then ShellWord(s[1..], !quoted)
    else if !quoted && s[0] == ' ' then Some("")
    else if !quoted && s[0] == '\\' then
      if |s| == 1 then None
      else
        match ShellWord(s[2..], false)
        case None => None
        case Some(w) => Some([s[1]] + w)
    else
      match ShellWord(s[1..], quoted)
      case None => None
      case Some(w) => Some([s[0]] + w)
  }

  /** Whatever a path holds, its quoted form is read back as that path, and what follows the blank is not touched. */
  lemma {:induction false} QuotedReadsBack(s: string, rest: string)
    requires rest == [] || rest[0] == ' '
    ensures ShellWord(Quoted(s) + "'" + rest, true) == Some(s)
    ensures ShellWord("'" + Quoted(s) + "'" + rest, false) == Some(s)
  {
    hide QuotedChar;
    var end := "'" + rest;
    var whole := Quoted(s) + "'" + rest;
    assert ("'" + Quoted(s) + "'" + rest)[1..] == whole;
    if s == [] {
      assert whole == end && end[1..] == rest;
    } else {
      var more := Quoted(s[1..]) + "'" + rest;
      QuotedReadsBack(s[1..], rest);
      assert s == [s[0]] + s[1..];
      Regroup(QuotedChar(s[0]), Quoted(s[1..]), end);
      Regroup(Quoted(s[1..]), "'", rest);
      Regroup(Quoted(s), "'", rest);
      assert whole == QuotedChar(s[0]) + more;
      QuotedCharReads(s[0], more);
    }
  }

  lemma QuotedCharReads(c: char, more: string)
    requires ShellWord(more, true).Some?
    ensures ShellWord(QuotedChar(c) + more, true) == Some([c] + ShellWord(more, true).value)
  {
    var u := QuotedChar(c) + more;
    if c == '\'' {
      assert u[0] == '\'' && u[1] == '\\' && u[2] == '\'' && u[3] == '\'';
      var v, w := u[1..], u[3..];
      assert v[0] == '\\' && v[1] == '\'' && v[2..] == w;
      assert w[0] == '\'' && w[1..] == more;
      assert ShellWord(w, false) == ShellWord(more, true);
      assert ShellWord(v, false) == Some(['\''] + ShellWord(more, true).value);
    } else {
      assert u[0] == c && u[1..] == more;
    }
  }

  /** The crontab line: every five minutes, the wrapper in the home directory, its output to the log. */
  lemma CronLineRuns(home: string)
    ensures var line := CronLine(home);
      && line[..12] == "*/5 * * * * "
      && ShellWord(line[12..], false) == Some(home + "/.gbrain/autopilot-run.sh")
  {
    hide Quoted;
    var path := home + "/.gbrain/" + WrapperName();
    var rest := " >> '" + Quoted(home) + "/.gbrain/autopilot.log' 2>&1";
    assert path == home + "/.gbrain/autopilot-run.sh";
    assert CronLine(home) == "*/5 * * * * " + ("'" + Quoted(path) + "'" + rest);
    assert CronLine(home)[12..] == "'" + Quoted(path) + "'" + rest;
    QuotedReadsBack(path, rest);
  }

  lemma CronLineIsOwned(home: string)
    ensures Owned(CronLine(home))
    ensures '\n' !in home ==> '\n' !in CronLine(home)
  {
    hide WrapperName, CommandName, Contains, Quoted;
    var dir := home + "/.gbrain/";
    QuotedAppend(dir, WrapperName());
    QuotedPlain(dir + WrapperName());
    QuotedPlain(WrapperName());
    QuotedPlain(home);
    ContainsSelf(WrapperName());
    ContainsRight(Quoted(dir), WrapperName(), WrapperName());
    ContainsInside("*/5 * * * * '", Quoted(dir + WrapperName()),
      "' >> '" + Quoted(home) + "/.gbrain/autopilot.log' 2>&1", WrapperName());
  }

  lemma {:induction false} ForeignKeeps(ls: seq<string>, more: seq<string>)
    requires forall l :: l in ls ==> !Owned(l)
    ensures Foreign(ls + more) == ls + Foreign(more)
  {
    if ls == [] {
      assert ls + more == more;
    } else {
      ForeignKeeps(ls[1..], more);
      assert (ls + more)[1..] == ls[1..] + more;
    }
  }

  lemma {:induction false} ForeignClean(ls: seq<string>)
    ensures forall l :: l in Foreign(ls) ==> !Owned(l)
  {
    if ls != [] {
      ForeignClean(ls[1..]);
    }
  }

  /** What is kept of a crontab: exactly the lines without either name, in their order. */
  lemma {:induction false} ForeignExactly(ls: seq<string>)
    ensures forall l :: l in Foreign(ls) <==>
      l in ls && !Contains(l, "gbrain autopilot") && !Contains(l, "autopilot-run.sh")
    ensures InOrderOf(Foreign(ls), ls)
  {
    NamesExactly();
    hide CommandName, WrapperName, Contains, InOrderOf;
    if ls == [] {
      NothingInOrder<string>();
    } else {
      var n := |ls| - 1;
      ForeignExactly(ls[..n]);
      assert ls == ls[..n] + [ls[n]];
      ForeignAppend(ls[..n], ls[n]);
      InOrderNext(Foreign(ls[..n]), ls[..n], ls[n]);
      assert Foreign(ls[..n]) + [] == Foreign(ls[..n]);
    }
  }

  lemma NamesExactly()
    ensures CommandName() == "gbrain autopilot" && WrapperName() == "autopilot-run.sh"
  {
  }

  lemma {:induction false} ForeignAppend(ls: seq<string>, l: string)
    ensures Foreign(ls + [l]) == Foreign(ls) + (if Owned(l) then [] else [l])
  {
    hide Owned;
    if ls == [] {
      assert ls + [l] == [l] && [l][1..] == [];
    } else {
      ForeignAppend(ls[1..], l);
      assert (ls + [l])[1..] == ls[1..] + [l];
    }
  }

  lemma UninstalledIsForeign(crontab: string)
    ensures !Owned(UninstallCron(crontab))
  {
    hide WrapperName, CommandName, Contains;
    if Owned(crontab) {
      var kept := Foreign(Lines(crontab));
      ForeignClean(Lines(crontab));
      if Contains(Unlines(kept), CommandName()) {
        UnlinesContainsOnly(kept, CommandName());
      }
      if Contains(Unlines(kept), WrapperName()) {
        UnlinesContainsOnly(kept, WrapperName());
      }
    }
  }

  lemma ForeignLines(crontab: string)
    requires !Owned(crontab)
    ensures forall l :: l in Lines(TrimEnd(crontab)) ==> !Owned(l)
  {
    hide WrapperName, CommandName, Contains, Lines;
    var t := TrimEnd(crontab);
    assert crontab == t + crontab[|t|..];
    forall l | l in Lines(t) ensures !Owned(l) {
      if Contains(l, CommandName()) {
        LineContains(t, CommandName(), l);
        ContainsLeft(t, crontab[|t|..], CommandName());
      }
      if Contains(l, WrapperName()) {
        LineContains(t, WrapperName(), l);
        ContainsLeft(t, crontab[|t|..], WrapperName());
      }
    }
  }

  lemma OwnedInside(before: string, line: string, after: string)
    requires Owned(line)
    ensures Owned(before + line + after)
  {
    hide WrapperName, CommandName, Contains;
    ContainsInside(before, line, after, if Contains(line, CommandName()) then CommandName() else WrapperName());
  }

  lemma OwnedTrimmed(crontab: string)
    requires Owned(crontab)
    ensures Owned(TrimEnd(crontab) + "\n")
  {
    hide WrapperName, CommandName, Contains, TrimEnd;
    var name := if Contains(crontab, CommandName()) then CommandName() else WrapperName();
    TrimEndKeeps(crontab, name);
    ContainsLeft(TrimEnd(crontab), "\n", name);
  }

  lemma InstalledLines(crontab: string, home: string)
    requires !Owned(crontab) && '\n' !in home
    ensures Lines(InstallCron(crontab, home)) == Lines(TrimEnd(crontab)) + [CronLine(home), ""]
  {
    hide CronLine, Owned, Lines, TrimEnd;
    CronLineIsOwned(home);
    LinesOfEnded(CronLine(home));
    LinesAppend(TrimEnd(crontab), CronLine(home) + "\n");
  }

  lemma InstalledIsOwned(crontab: string, home: string)
    ensures Owned(InstallCron(crontab, home))
  {
    hide CronLine, Owned, TrimEnd;
    if !Owned(crontab) {
      CronLineIsOwned(home);
      OwnedInside(TrimEnd(crontab) + "\n", CronLine(home), "\n");
      Regroup(TrimEnd(crontab) + "\n", CronLine(home), "\n");
    }
  }

  lemma CronTailDropped(line: string)
    requires Owned(line)
    ensures Foreign([line, ""]) == [""]
  {
    hide WrapperName, CommandName;
    assert !Owned("");
    assert [line, ""][1..] == [""];
    assert Foreign([""]) == [""] + Foreign([""][1..]);
  }

  /** The crontab entry is undone the same way, exactly if no line looked like one before. */
  lemma UninstallUndoesCron(crontab: string, home: string)
    requires '\n' !in home
    ensures UninstallCron(InstallCron(crontab, home)) == TrimEnd(crontab) + "\n" <==> !Owned(crontab)
  {
    hide CronLine, Owned, Lines, TrimEnd;
    var t := TrimEnd(crontab);
    if Owned(crontab) {
      OwnedTrimmed(crontab);
      UninstalledIsForeign(crontab);
    } else {
      InstalledLines(crontab, home);
      InstalledIsOwned(crontab, home);
      CronLineIsOwned(home);
      ForeignLines(crontab);
      ForeignKeeps(Lines(t), [CronLine(home), ""]);
      CronTailDropped(CronLine(home));
      UnlinesAppendBlank(Lines(t));
      UnlinesOfLines(t);
    }
  }

  lemma InstallCronIsIdempotent(crontab: string, home: string, other: string)
    ensures InstallCron(InstallCron(crontab, home), other) == InstallCron(crontab, home)
  {
    InstalledIsOwned(crontab, home);
  }
}
