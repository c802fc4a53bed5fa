/**
 Crash-resume of the LongMemEval run: one result row per question is appended to a file, and a resumed
 run skips the questions the file already answers.
 */
module EvalResume {
  import opened Collections

  /** What one run got for a question: an answer, possibly empty, or an exception with its message. */
  datatype Answer = Answered(hypothesis: string) | Threw(message: string)

  /** A result row; an absent error field and an empty one read the same. */
  datatype Row = Row(id: string, hypothesis: string, error: string)

  /** A line of the file as the resume reader sees it; JSON null parses, and then has no fields to read. */
  datatype Line = Blank | Corrupt | JsonNull | NoId | Data(row: Row)

  predicate IsDone(r: Row) {
    r.error == "" || r.hypothesis != ""
  }

  predicate HasDone(lines: seq<Line>, id: string) {
    exists i :: 0 <= i < |lines| && lines[i].Data? && lines[i].row.id == id && IsDone(lines[i].row)
  }

  /** The set of done questions; reading a field of JSON null throws, and the run ends there. */
  method LoadResumeSet(lines: seq<Line>) returns (ok: bool, done: set<string>)
    ensures ok <==> JsonNull !in lines
    ensures ok ==> forall id :: id in done <==> HasDone(lines, id)
    ensures ok ==> forall id :: id in done <==>
              exists i :: 0 <= i < |lines| && lines[i].Data? && lines[i].row.id == id
                          && (lines[i].row.error == "" || lines[i].row.hypothesis != "")
  {
    done := {};
    for i := 0 to |lines|
      invariant JsonNull !in lines[..i]
      invariant forall id :: id in done <==> HasDone(lines[..i], id)
    {
      HasDoneAppend(lines[..i], lines[i]);
      assert lines[..i + 1] == lines[..i] + [lines[i]];
      if lines[i].JsonNull? {
        return false, done;
      }
      if !lines[i].Data? {
        continue;
      }
      var row := lines[i].row;
      if row.error != "" && row.hypothesis == "" {
        continue;
      }
      done := done + {row.id};
    }
    assert lines[..|lines|] == lines;
    return true, done;
  }

  lemma HasDoneAppend(lines: seq<Line>, l: Line)
    ensures forall id ::
              HasDone(lines + [l], id)
              <==> HasDone(lines, id) || (l.Data? && l.row.id == id && IsDone(l.row))
  {
    forall id ensures HasDone(lines + [l], id) <==> HasDone(lines, id) || (l.Data? && l.row.id == id && IsDone(l.row)) {
      if HasDone(lines, id) {
        var i :| 0 <= i < |lines| && lines[i].Data? && lines[i].row.id == id && IsDone(lines[i].row);
        assert (lines + [l])[i] == lines[i];
      }
      if l.Data? && l.row.id == id && IsDone(l.row) {
        assert (lines + [l])[|lines|] == l;
      }
    }
  }

  /** The questions a resumed run still asks. */
  function Remaining(lines: seq<Line>, questions: seq<string>): seq<string> {
    if questions == [] then []
    else
      var front, q := questions[..|questions| - 1], questions[|questions| - 1];
      Remaining(lines, front) + if HasDone(lines, q) then [] else [q]
  }

  function RowFor(id: string, a: Answer): Row {
    match a
    case Answered(h) => Row(id, h, "")
    case Threw(m) => Row(id, "", m)
  }

  function RowsFor(ids: seq<string>, ask: string -> Answer): seq<Line> {
    if ids == [] then [] else RowsFor(ids[..|ids| - 1], ask) + [Data(RowFor(ids[|ids| - 1], ask(ids[|ids| - 1])))]
  }

  /**
   One run: whether it resumes from its own output file, its questions, what each would get, and after
   how many rows it is cut off.
   */
  datatype Session = Session(resume: bool, questions: seq<string>, ask: string -> Answer, cut: nat)

  /** What a run sets out to ask; a resumed one that cannot read its file ends before asking anything. */
  function Todo(lines: seq<Line>, s: Session): seq<string> {
    if !s.resume then s.questions else if JsonNull in lines then [] else Remaining(lines, s.questions)
  }

  /** The file one run leaves: a fresh run truncates it, unless there is nothing to ask. */
  function AfterRun(lines: seq<Line>, s: Session): seq<Line> {
    var todo := Todo(lines, s);
    if todo == [] then lines
    else (if s.resume then lines else []) + RowsFor(Take(todo, s.cut), s.ask)
  }

  class ResultFile {
    var lines: seq<Line>

    method Emit(row: Row)
      modifies this
      ensures lines == old(lines) + [Data(row)]
    {
      lines := lines + [Data(row)];
    }

    method Filter(questions: seq<string>) returns (ok: bool, todo: seq<string>)
      ensures ok <==> JsonNull !in lines
      ensures ok ==> todo == Remaining(lines, questions)
    {
      var done;
      todo := [];
      ok, done := LoadResumeSet(lines);
      if !ok {
        return;
      }
      for i := 0 to |questions|
        invariant todo == Remaining(lines, questions[..i])
      {
        assert questions[..i + 1][..i] == questions[..i];
        if questions[i] !in done {
          todo := todo + [questions[i]];
        }
      }
      assert questions[..|questions|] == questions;
    }

    /** Asks question after question, a failure becoming an error row, until all are asked or the run is cut. */
    method Run(s: Session)
      modifies this
      ensures lines == AfterRun(old(lines), s)
    {
      var todo := s.questions;
      if s.resume {
        var ok;
        ok, todo := Filter(s.questions);
        if !ok {
          return;
        }
      }
      if |todo| == 0 {
        return;
      }
      if !s.resume {
        lines := [];
      }
      ghost var start := lines;
      var i := 0;
      while i < |todo| && i < s.cut
        invariant 0 <= i <= |todo| && i <= s.cut
        invariant lines == start + RowsFor(todo[..i], s.ask)
      {
        assert todo[..i + 1][..i] == todo[..i];
        Emit(RowFor(todo[i], s.ask(todo[i])));
        i := i + 1;
      }
      assert todo[..i] == Take(todo, s.cut);
    }
  }

  /** A row that counts as done is the last row of its question. */
  ghost predicate DoneIsLast(lines: seq<Line>) {
    forall i, j :: 0 <= i < j < |lines| && lines[i].Data? && lines[j].Data? && lines[i].row.id == lines[j].row.id
      ==> !IsDone(lines[i].row)
  }

  lemma {:induction false} RemainingFacts(lines: seq<Line>, questions: seq<string>)
    ensures forall q :: q in Remaining(lines, questions) <==> q in questions && !HasDone(lines, q)
    ensures Distinct(questions) ==> Distinct(Remaining(lines, questions))
  {
    if questions != [] {
      var n := |questions| - 1;
      RemainingFacts(lines, questions[..n]);
      assert questions == questions[..n] + [questions[n]];
      if Distinct(questions) {
        assert Distinct(questions[..n]);
        assert questions[n] !in questions[..n];
      }
    }
  }

  lemma {:induction false} RowsForAt(ids: seq<string>, ask: string -> Answer)
    ensures |RowsFor(ids, ask)| == |ids|
    ensures forall i :: 0 <= i < |ids| ==> RowsFor(ids, ask)[i] == Data(RowFor(ids[i], ask(ids[i])))
  {
    if ids != [] {
      RowsForAt(ids[..|ids| - 1], ask);
    }
  }

  /**
   The file one run leaves: what a resumed run found, or nothing for a fresh one, and then a row for each question
   asked, with its answer or with the message of its exception.
   */
  lemma RunWrites(lines: seq<Line>, s: Session)
    ensures var todo, after := Todo(lines, s), AfterRun(lines, s);
      && (todo == [] ==> after == lines)
      && (todo != [] ==>
            var kept, n := if s.resume then lines else [], if s.cut < |todo| then s.cut else |todo|;
            && kept <= after && |after| == |kept| + n
            && forall i :: 0 <= i < n ==>
                 match s.ask(todo[i])
                 case Answered(h) => after[|kept| + i] == Data(Row(todo[i], h, ""))
                 case Threw(m) => after[|kept| + i] == Data(Row(todo[i], "", m)))
  {
    hide Todo, RowsFor;
    var todo := Todo(lines, s);
    var ids, kept := Take(todo, s.cut), if s.resume then lines else [];
    RowsForAt(ids, s.ask);
    if todo != [] {
      var rows := RowsFor(ids, s.ask);
      forall i | 0 <= i < |ids| ensures (kept + rows)[|kept| + i] == Data(RowFor(todo[i], s.ask(todo[i]))) {
        assert ids[i] == todo[i];
      }
      assert AfterRun(lines, s) == kept + rows;
    }
  }

  /** A fresh run asks all its questions; a resumed one keeps their order. */
  lemma TodoInOrder(lines: seq<Line>, s: Session)
    ensures !s.resume ==> Todo(lines, s) == s.questions
    ensures s.resume ==> InOrderOf(Todo(lines, s), s.questions)
  {
    NothingInOrder<string>();
    RemainingInOrder(lines, s.questions);
  }

  lemma {:induction false} RemainingInOrder(lines: seq<Line>, questions: seq<string>)
    ensures InOrderOf(Remaining(lines, questions), questions)
  {
    hide InOrderOf, HasDone;
    if questions == [] {
      NothingInOrder<string>();
    } else {
      var n := |questions| - 1;
      var before := Remaining(lines, questions[..n]);
      RemainingInOrder(lines, questions[..n]);
      RemainingFacts(lines, questions[..n]);
      InOrderNext(before, questions[..n], questions[n]);
      assert questions[..n] + [questions[n]] == questions && before + [] == before;
    }
  }

  lemma TodoFacts(lines: seq<Line>, s: Session)
    requires Distinct(s.questions)
    ensures Distinct(Take(Todo(lines, s), s.cut))
    ensures s.resume ==> forall q :: q in Take(Todo(lines, s), s.cut) ==> !HasDone(lines, q)
  {
    RemainingFacts(lines, s.questions);
  }

  lemma AppendKeeps(lines: seq<Line>, ids: seq<string>, ask: string -> Answer)
    requires DoneIsLast(lines) && Distinct(ids) && forall q :: q in ids ==> !HasDone(lines, q)
    ensures DoneIsLast(lines + RowsFor(ids, ask))
  {
    RowsForAt(ids, ask);
    var after := lines + RowsFor(ids, ask);
    forall i, j | 0 <= i < j < |after| && after[i].Data? && after[j].Data? && after[i].row.id == after[j].row.id
      ensures !IsDone(after[i].row)
    {
      if j >= |lines| {
        var q := ids[j - |lines|];
        assert after[j] == Data(RowFor(q, ask(q)));
        if i < |lines| {
          assert q in ids && after[i] == lines[i];
        }
      }
    }
  }

  /** Every run, cut off anywhere, keeps done rows last; a resumed one only appends. */
  lemma RunKeeps(lines: seq<Line>, s: Session)
    requires DoneIsLast(lines) && Distinct(s.questions)
    ensures DoneIsLast(AfterRun(lines, s))
    ensures s.resume ==> lines <= AfterRun(lines, s)
  {
    TodoFacts(lines, s);
    var ids := Take(Todo(lines, s), s.cut);
    if s.resume {
      AppendKeeps(lines, ids, s.ask);
    } else {
      AppendKeeps([], ids, s.ask);
    }
  }

  function Runs(lines: seq<Line>, ss: seq<Session>): seq<Line> {
    if ss == [] then lines else AfterRun(Runs(lines, ss[..|ss| - 1]), ss[|ss| - 1])
  }

  ghost predicate Uncut(lines: seq<Line>, s: Session) {
    s.cut >= |Todo(lines, s)|
  }

  predicate HasRow(lines: seq<Line>, id: string) {
    exists i :: 0 <= i < |lines| && lines[i].Data? && lines[i].row.id == id
  }

  /** Over any runs on one file no question ends up with two rows counted as done, or with a row after one. */
  lemma {:induction false} NeverAnsweredTwice(lines: seq<Line>, ss: seq<Session>)
    requires DoneIsLast(lines) && forall s :: s in ss ==> Distinct(s.questions)
    ensures DoneIsLast(Runs(lines, ss))
  {
    if ss != [] {
      var front, s := ss[..|ss| - 1], ss[|ss| - 1];
      NeverAnsweredTwice(lines, front);
      assert s in ss;
      RunKeeps(Runs(lines, front), s);
    }
  }

  lemma AttemptedHasRow(lines: seq<Line>, s: Session, k: nat)
    requires k < |Take(Todo(lines, s), s.cut)|
    ensures var q := Todo(lines, s)[k];
      HasRow(AfterRun(lines, s), q) && (IsDone(RowFor(q, s.ask(q))) ==> HasDone(AfterRun(lines, s), q))
  {
    var ids := Take(Todo(lines, s), s.cut);
    var q := ids[k];
    RowsForAt(ids, s.ask);
    var start := if s.resume then lines else [];
    assert AfterRun(lines, s)[|start| + k] == Data(RowFor(q, s.ask(q)));
  }

  lemma KeptRow(lines: seq<Line>, after: seq<Line>, id: string)
    requires lines <= after
    ensures HasDone(lines, id) ==> HasDone(after, id) && HasRow(after, id)
    ensures HasRow(lines, id) ==> HasRow(after, id)
  {
  }

  /** When the last of any runs is not cut off and can read its file, every question it was given has a row. */
  lemma LastRunCompletes(lines: seq<Line>, ss: seq<Session>, q: string)
    requires ss != []
    requires var before := Runs(lines, ss[..|ss| - 1]);
      Uncut(before, ss[|ss| - 1]) && q in ss[|ss| - 1].questions
    ensures HasRow(Runs(lines, ss), q) || (ss[|ss| - 1].resume && JsonNull in Runs(lines, ss[..|ss| - 1]))
  {
    var before, s := Runs(lines, ss[..|ss| - 1]), ss[|ss| - 1];
    RemainingFacts(before, s.questions);
    if s.resume && HasDone(before, q) {
      KeptRow(before, AfterRun(before, s), q);
    } else if !s.resume || JsonNull !in before {
      assert q in Todo(before, s);
      var k :| 0 <= k < |Todo(before, s)| && Todo(before, s)[k] == q;
      AttemptedHasRow(before, s, k);
    }
  }

  /** Runs write no such line; once one is in the file, resumed runs leave it as it is. */
  lemma {:induction false} NullStopsResuming(lines: seq<Line>, ss: seq<Session>)
    ensures JsonNull in Runs(lines, ss) ==> JsonNull in lines
    ensures JsonNull in lines && (forall s :: s in ss ==> s.resume) ==> Runs(lines, ss) == lines
  {
    if ss != [] {
      var front, s := ss[..|ss| - 1], ss[|ss| - 1];
      assert s in ss;
      NullStopsResuming(lines, front);
      RowsForAt(Take(Todo(Runs(lines, front), s), s.cut), s.ask);
    }
  }

  /** A resumed run asks exactly its questions without a done row, unless it cannot read the file. */
  lemma AsksExactlyTheOpen(lines: seq<Line>, s: Session, q: string)
    requires s.resume
    ensures q in Todo(lines, s) <==> JsonNull !in lines && q in s.questions && !HasDone(lines, q)
  {
    RemainingFacts(lines, s.questions);
  }

  /**
   What a run got for a question decides whether a later resumed run asks it again: it does so exactly if
   an exception with a non-empty message was recorded. An exception whose message is empty is taken for
   done, and so is an empty answer.
   */
  lemma RetriedExactly(lines: seq<Line>, s: Session, next: Session, k: nat)
    requires DoneIsLast(lines) && Distinct(s.questions) && next.resume
    requires k < |Take(Todo(lines, s), s.cut)| && Todo(lines, s)[k] in next.questions
    ensures var q := Todo(lines, s)[k];
      q in Todo(AfterRun(lines, s), next) <==> s.ask(q).Threw? && s.ask(q).message != ""
  {
    hide DoneIsLast, Distinct, RowsFor, Remaining;
    var q := Todo(lines, s)[k];
    var ids := Take(Todo(lines, s), s.cut);
    var after := AfterRun(lines, s);
    var start := if s.resume then lines else [];
    AsksExactlyTheOpen(after, next, q);
    RunKeeps(lines, s);
    TodoFacts(lines, s);
    RowsForAt(ids, s.ask);
    assert after[|start| + k] == Data(RowFor(q, s.ask(q)));
    AttemptedHasRow(lines, s, k);
    if HasDone(after, q) {
      var i :| 0 <= i < |after| && after[i].Data? && after[i].row.id == q && IsDone(after[i].row);
      OnlyDoneRow(after, start, ids, s.ask, i, k);
    }
  }

  lemma OnlyDoneRow(after: seq<Line>, start: seq<Line>, ids: seq<string>, ask: string -> Answer, i: nat, k: nat)
    requires after == start + RowsFor(ids, ask) && Distinct(ids) && DoneIsLast(after)
    requires k < |ids| && i < |after| && after[i].Data? && after[i].row.id == ids[k] && IsDone(after[i].row)
    ensures IsDone(RowFor(ids[k], ask(ids[k])))
  {
    RowsForAt(ids, ask);
    assert after[|start| + k] == Data(RowFor(ids[k], ask(ids[k])));
  }

  function Attempts(lines: seq<Line>, q: string): nat {
    if lines == [] then 0
    else
      var l := lines[|lines| - 1];
      Attempts(lines[..|lines| - 1], q) + if l.Data? && l.row.id == q then 1 else 0
  }

  /** Once done a question is settled: no later resumed run gives it another row. */
  lemma {:induction false} DoneIsSettled(lines: seq<Line>, ss: seq<Session>, q: string)
    requires HasDone(lines, q) && forall s :: s in ss ==> s.resume
    ensures HasDone(Runs(lines, ss), q) && Attempts(Runs(lines, ss), q) == Attempts(lines, q)
  {
    if ss != [] {
      var front, s := ss[..|ss| - 1], ss[|ss| - 1];
      DoneIsSettled(lines, front, q);
      assert s in ss;
      var before := Runs(lines, front);
      RemainingFacts(before, s.questions);
      if Todo(before, s) != [] {
        NoRowAdded(before, Take(Todo(before, s), s.cut), s.ask, q);
        KeptRow(before, AfterRun(before, s), q);
      }
    }
  }

  lemma {:induction false} NoRowAdded(lines: seq<Line>, ids: seq<string>, ask: string -> Answer, q: string)
    requires q !in ids
    ensures Attempts(lines + RowsFor(ids, ask), q) == Attempts(lines, q)
  {
    if ids == [] {
      assert lines + [] == lines;
    } else {
      var n := |ids| - 1;
      NoRowAdded(lines, ids[..n], ask, q);
      var shorter := lines + RowsFor(ids[..n], ask);
      assert lines + RowsFor(ids, ask) == shorter + [Data(RowFor(ids[n], ask(ids[n])))];
    }
  }
}
