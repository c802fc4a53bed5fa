/**
 `gbrain agent logs --follow`: poll two growing logs (audit events and messages), print what lies
 above a watermark in time order, and advance the watermark.
 */
module AgentLogs {
  import opened Collections

  datatype Event = Event(ts: nat, line: string)

  /**
   What one poll reads: both logs as of now, whether the dump finds the job's status terminal, and
   whether the follow loop, which reads the status again, does.
   */
  datatype Poll = Poll(audit: seq<Event>, messages: seq<Event>, terminal: bool, over: bool)

  predicate Beyond(since: Option<nat>, ts: nat) {
    since.None? || ts > since.value
  }

  function Newer(s: seq<Event>, since: Option<nat>): seq<Event> {
    if s == [] then [] else Newer(s[..|s| - 1], since) + (if Beyond(since, s[|s| - 1].ts) then [s[|s| - 1]] else [])
  }

  /** The events at one timestamp, in log order. */
  function At(s: seq<Event>, t: nat): seq<Event> {
    if s == [] then [] else At(s[..|s| - 1], t) + (if s[|s| - 1].ts == t then [s[|s| - 1]] else [])
  }

  lemma AtLast(s: seq<Event>, e: Event, t: nat)
    ensures At(s + [e], t) == At(s, t) + (if e.ts == t then [e] else [])
  {
    assert (s + [e])[..|s|] == s;
  }

  lemma {:induction false} AtAppend(s: seq<Event>, r: seq<Event>, t: nat)
    ensures At(s + r, t) == At(s, t) + At(r, t)
  {
    if r == [] {
      assert s + r == s;
    } else {
      hide At;
      var n := |r| - 1;
      var last := if r[n].ts == t then [r[n]] else [];
      AtAppend(s, r[..n], t);
      AtLast(r[..n], r[n], t);
      AtLast(s + r[..n], r[n], t);
      assert r == r[..n] + [r[n]] && s + r == s + r[..n] + [r[n]];
      Regroup(At(s, t), At(r[..n], t), last);
    }
  }

  lemma {:induction false} NewerAppend(s: seq<Event>, r: seq<Event>, since: Option<nat>)
    ensures Newer(s + r, since) == Newer(s, since) + Newer(r, since)
  {
    if r == [] {
      assert s + r == s;
    } else {
      NewerAppend(s, r[..|r| - 1], since);
      assert (s + r)[..|s + r| - 1] == s + r[..|r| - 1];
    }
  }

  lemma {:induction false} AtIn(s: seq<Event>, t: nat, e: Event)
    ensures e in At(s, t) <==> e in s && e.ts == t
  {
    if s != [] {
      AtIn(s[..|s| - 1], t, e);
      assert s == s[..|s| - 1] + [s[|s| - 1]];
    }
  }

  lemma {:induction false} AtNewer(s: seq<Event>, since: Option<nat>, t: nat)
    ensures At(Newer(s, since), t) == if Beyond(since, t) then At(s, t) else []
  {
    if s != [] {
      var n := |s| - 1;
      AtNewer(s[..n], since, t);
      AtAppend(Newer(s[..n], since), if Beyond(since, s[n].ts) then [s[n]] else [], t);
      assert At([s[n]], t) == if s[n].ts == t then [s[n]] else [];
    }
  }

  ghost predicate InOrder(s: seq<Event>) {
    forall i, j :: 0 <= i <= j < |s| ==> s[i].ts <= s[j].ts
  }

  /** Array.sort by timestamp: stable, so each event goes behind its equals. */
  function Place(r: seq<Event>, e: Event): seq<Event> {
    if r == [] || r[|r| - 1].ts <= e.ts then r + [e] else Place(r[..|r| - 1], e) + [r[|r| - 1]]
  }

  function Sort(s: seq<Event>): seq<Event> {
    if s == [] then [] else Place(Sort(s[..|s| - 1]), s[|s| - 1])
  }

  lemma {:induction false} PlaceKeeps(r: seq<Event>, e: Event)
    ensures multiset(Place(r, e)) == multiset(r) + multiset{e}
  {
    if r != [] && r[|r| - 1].ts > e.ts {
      PlaceKeeps(r[..|r| - 1], e);
      assert r == r[..|r| - 1] + [r[|r| - 1]];
    }
  }

  lemma PlacedWithin(r: seq<Event>, e: Event, top: nat)
    requires e.ts <= top && forall x :: x in r ==> x.ts <= top
    ensures forall x :: x in Place(r, e) ==> x.ts <= top
  {
  }

  lemma {:induction false} PlaceOrdered(r: seq<Event>, e: Event)
    requires InOrder(r)
    ensures InOrder(Place(r, e))
  {
    if r != [] && r[|r| - 1].ts > e.ts {
      var n := |r| - 1;
      PlaceOrdered(r[..n], e);
      PlacedWithin(r[..n], e, r[n].ts);
    }
  }

  lemma {:induction false} PlaceAt(r: seq<Event>, e: Event, t: nat)
    ensures At(Place(r, e), t) == At(r, t) + (if e.ts == t then [e] else [])
  {
    hide At;
    if r == [] || r[|r| - 1].ts <= e.ts {
      AtLast(r, e, t);
    } else {
      var n := |r| - 1;
      PlaceAt(r[..n], e, t);
      AtLast(Place(r[..n], e), r[n], t);
      AtLast(r[..n], r[n], t);
      assert r == r[..n] + [r[n]];
    }
  }

  lemma {:induction false} SortFacts(s: seq<Event>)
    ensures InOrder(Sort(s)) && multiset(Sort(s)) == multiset(s)
  {
    if s != [] {
      var n := |s| - 1;
      SortFacts(s[..n]);
      PlaceOrdered(Sort(s[..n]), s[n]);
      PlaceKeeps(Sort(s[..n]), s[n]);
      assert s == s[..n] + [s[n]];
    }
  }

  lemma {:induction false} SortAt(s: seq<Event>, t: nat)
    ensures At(Sort(s), t) == At(s, t)
  {
    if s != [] {
      var n := |s| - 1;
      SortFacts(s[..n]);
      SortAt(s[..n], t);
      PlaceAt(Sort(s[..n]), s[n], t);
    }
  }

  ghost predicate SameAt(s: seq<Event>, r: seq<Event>) {
    forall t :: At(s, t) == At(r, t)
  }

  lemma SameFront(s: seq<Event>, r: seq<Event>, t: nat)
    requires s != [] && r != [] && s[|s| - 1] == r[|r| - 1] && At(s, t) == At(r, t)
    ensures At(s[..|s| - 1], t) == At(r[..|r| - 1], t)
  {
    var last := if s[|s| - 1].ts == t then [s[|s| - 1]] else [];
    var a, b := At(s[..|s| - 1], t), At(r[..|r| - 1], t);
    assert a == (a + last)[..|a|] && b == (b + last)[..|b|];
  }

  lemma SameLast(s: seq<Event>, r: seq<Event>)
    requires InOrder(s) && InOrder(r) && SameAt(s, r) && s != []
    ensures r != [] && s[|s| - 1] == r[|r| - 1]
  {
    var e := s[|s| - 1];
    AtIn(s, e.ts, e);
    AtIn(r, e.ts, e);
    var f := r[|r| - 1];
    AtIn(r, f.ts, f);
    AtIn(s, f.ts, f);
    var a, b := At(s, e.ts), At(r, e.ts);
    assert a[|a| - 1] == e && b[|b| - 1] == f;
  }

  /** An ordered listing is determined by its events at each timestamp. */
  lemma {:induction false} OrderIsUnique(s: seq<Event>, r: seq<Event>)
    requires InOrder(s) && InOrder(r) && SameAt(s, r)
    ensures s == r
  {
    if s == [] {
      if r != [] {
        SameLast(r, s);
      }
    } else {
      SameLast(s, r);
      var sFront, rFront := s[..|s| - 1], r[..|r| - 1];
      forall t ensures At(sFront, t) == At(rFront, t) {
        SameFront(s, r, t);
      }
      OrderIsUnique(sFront, rFront);
      assert s == s[..|s| - 1] + [s[|s| - 1]] && r == r[..|r| - 1] + [r[|r| - 1]];
    }
  }

  /** The events whose timestamp is not below the mark: what the audit reader lets through. */
  function AtLeast(s: seq<Event>, since: Option<nat>): seq<Event> {
    if s == [] then []
    else AtLeast(s[..|s| - 1], since) + (if since.None? || s[|s| - 1].ts >= since.value then [s[|s| - 1]] else [])
  }

  lemma {:induction false} AtAtLeast(s: seq<Event>, since: Option<nat>, t: nat)
    ensures At(AtLeast(s, since), t) == if since.None? || t >= since.value then At(s, t) else []
  {
    if s != [] {
      var n := |s| - 1;
      AtAtLeast(s[..n], since, t);
      AtAppend(AtLeast(s[..n], since), if since.None? || s[n].ts >= since.value then [s[n]] else [], t);
      assert At([s[n]], t) == if s[n].ts == t then [s[n]] else [];
    }
  }

  function Log(p: Poll): seq<Event> {
    p.audit + p.messages
  }

  /** One dump: everything above the mark, in time order, audit events before messages of the same instant. */
  function Listing(p: Poll, since: Option<nat>): seq<Event> {
    Sort(Newer(Log(p), since))
  }

  lemma ListingAt(p: Poll, since: Option<nat>, t: nat)
    ensures At(Listing(p, since), t) == if Beyond(since, t) then At(Log(p), t) else []
  {
    SortAt(Newer(Log(p), since), t);
    AtNewer(Log(p), since, t);
  }

  lemma ListingBeyond(p: Poll, since: Option<nat>, e: Event)
    requires e in Listing(p, since)
    ensures Beyond(since, e.ts)
  {
    AtIn(Listing(p, since), e.ts, e);
    ListingAt(p, since, e.ts);
  }

  /** The largest timestamp seen so far. */
  function Advance(since: Option<nat>, out: seq<Event>): Option<nat> {
    if out == [] then since
    else
      var m := Advance(since, out[..|out| - 1]);
      var ts := out[|out| - 1].ts;
      if m.None? || ts > m.value then Some(ts) else m
  }

  lemma {:induction false} AdvanceCovers(since: Option<nat>, out: seq<Event>)
    ensures forall e :: e in out ==> !Beyond(Advance(since, out), e.ts)
    ensures forall t :: Beyond(Advance(since, out), t) ==> Beyond(since, t)
    ensures out != [] ==> Advance(since, out).Some?
  {
    if out != [] {
      AdvanceCovers(since, out[..|out| - 1]);
      assert out == out[..|out| - 1] + [out[|out| - 1]];
    }
  }

  lemma {:induction false} AdvanceIsSeen(since: Option<nat>, out: seq<Event>)
    ensures Advance(since, out) == since || exists e :: e in out && Advance(since, out) == Some(e.ts)
  {
    if out != [] {
      AdvanceIsSeen(since, out[..|out| - 1]);
      assert out == out[..|out| - 1] + [out[|out| - 1]];
      assert out[|out| - 1] in out;
    }
  }

  /** A listing, spelled out: the events of either log above the mark, in time order, the audit log's first. */
  lemma ListingMeans(p: Poll, since: Option<nat>)
    ensures var out := Listing(p, since);
      && (forall e :: e in out <==> (e in p.audit || e in p.messages) && (since == None || e.ts > since.value))
      && (forall i, j :: 0 <= i < j < |out| ==> out[i].ts <= out[j].ts)
      && (forall t: nat :: since == None || t > since.value ==> At(out, t) == At(p.audit, t) + At(p.messages, t))
  {
    hide At, Sort, Newer;
    var out := Listing(p, since);
    SortFacts(Newer(Log(p), since));
    forall t ensures At(out, t) == if Beyond(since, t) then At(p.audit, t) + At(p.messages, t) else [] {
      ListingAt(p, since, t);
      AtAppend(p.audit, p.messages, t);
    }
    forall e ensures e in out <==> (e in p.audit || e in p.messages) && Beyond(since, e.ts) {
      AtIn(out, e.ts, e);
      AtIn(p.audit, e.ts, e);
      AtIn(p.messages, e.ts, e);
    }
  }

  method ReadAudit(log: seq<Event>, since: Option<nat>) returns (out: seq<Event>)
    ensures out == Sort(AtLeast(log, since))
  {
    out := [];
    for i := 0 to |log|
      invariant out == AtLeast(log[..i], since)
    {
      assert log[..i + 1][..i] == log[..i];
      if since.Some? && log[i].ts < since.value {
        continue;
      }
      out := out + [log[i]];
    }
    assert log[..|log|] == log;
    out := Sort(out);
  }

  lemma ReadAuditListing(p: Poll, since: Option<nat>)
    ensures Sort(Newer(Sort(AtLeast(p.audit, since)), since) + Newer(p.messages, since)) == Listing(p, since)
  {
    var read := Sort(AtLeast(p.audit, since));
    var merged := Newer(read, since) + Newer(p.messages, since);
    SortFacts(merged);
    SortFacts(Newer(Log(p), since));
    forall t ensures At(Sort(merged), t) == At(Listing(p, since), t) {
      ListingAt(p, since, t);
      AtAppend(p.audit, p.messages, t);
      SortAt(merged, t);
      AtAppend(Newer(read, since), Newer(p.messages, since), t);
      AtNewer(read, since, t);
      AtNewer(p.messages, since, t);
      SortAt(AtLeast(p.audit, since), t);
      AtAtLeast(p.audit, since, t);
    }
    OrderIsUnique(Sort(merged), Listing(p, since));
  }

  predicate ShowsTail(p: Poll, since: Option<nat>) {
    p.messages != [] && since.None? && p.terminal
  }

  method PushNewer(merged: seq<Event>, s: seq<Event>, since: Option<nat>) returns (r: seq<Event>)
    ensures r == merged + Newer(s, since)
  {
    r := merged;
    for i := 0 to |s|
      invariant r == merged + Newer(s[..i], since)
    {
      assert s[..i + 1][..i] == s[..i];
      if since.Some? && s[i].ts <= since.value {
        continue;
      }
      r := r + [s[i]];
    }
    assert s[..|s|] == s;
  }

  method Print(merged: seq<Event>, since: Option<nat>) returns (out: seq<Event>, maxTs: Option<nat>)
    ensures out == merged && maxTs == Advance(since, merged)
  {
    out := [];
    maxTs := since;
    for i := 0 to |merged|
      invariant out == merged[..i] && maxTs == Advance(since, out)
    {
      assert merged[..i + 1][..i] == merged[..i];
      out := out + [merged[i]];
      if maxTs.None? || merged[i].ts > maxTs.value {
        maxTs := Some(merged[i].ts);
      }
    }
  }

  /** The audit reader keeps the mark itself, the merge then drops it; what is printed is the plain listing. */
  method DumpSince(p: Poll, since: Option<nat>) returns (out: seq<Event>, tail: bool, maxTs: Option<nat>)
    ensures out == Listing(p, since)
    ensures tail == ShowsTail(p, since)
    ensures maxTs == Advance(since, out)
    ensures forall e :: e in out <==> (e in p.audit || e in p.messages) && (since == None || e.ts > since.value)
    ensures forall i, j :: 0 <= i < j < |out| ==> out[i].ts <= out[j].ts
    ensures forall t: nat :: since == None || t > since.value ==> At(out, t) == At(p.audit, t) + At(p.messages, t)
    ensures tail <==> p.messages != [] && since == None && p.terminal
    ensures maxTs == since || exists e :: e in out && maxTs == Some(e.ts)
    ensures forall e :: e in out ==> maxTs.Some? && e.ts <= maxTs.value
  {
    hide Sort, Newer, AtLeast, Advance, Log, Listing;
    var audit := ReadAudit(p.audit, since);
    var merged := PushNewer([], audit, since);
    merged := PushNewer(merged, p.messages, since);
    assert [] + Newer(audit, since) == Newer(audit, since);
    ReadAuditListing(p, since);
    merged := Sort(merged);
    out, maxTs := Print(merged, since);
    tail := |p.messages| > 0 && since.None? && p.terminal;
    ListingMeans(p, since);
    AdvanceCovers(since, out);
    AdvanceIsSeen(since, out);
  }

  /** What a row of polls prints, and the watermark it leaves. */
  function Output(polls: seq<Poll>, since: Option<nat>): seq<Event> {
    if polls == [] then []
    else Output(polls[..|polls| - 1], since) + Listing(polls[|polls| - 1], Mark(polls[..|polls| - 1], since))
  }

  function Mark(polls: seq<Poll>, since: Option<nat>): Option<nat> {
    if polls == [] then since
    else
      var m := Mark(polls[..|polls| - 1], since);
      Advance(m, Listing(polls[|polls| - 1], m))
  }

  function Tails(polls: seq<Poll>, since: Option<nat>): nat {
    if polls == [] then 0
    else
      var front := polls[..|polls| - 1];
      Tails(front, since) + if ShowsTail(polls[|polls| - 1], Mark(front, since)) then 1 else 0
  }

  lemma NothingPolled(since: Option<nat>)
    ensures Output([], since) == [] && Tails([], since) == 0 && Mark([], since) == since
  {
  }

  lemma OnePollMore(polls: seq<Poll>, n: nat, since: Option<nat>)
    requires n < |polls|
    ensures var m, more := Mark(polls[..n], since), polls[..n + 1];
      && Output(more, since) == Output(polls[..n], since) + Listing(polls[n], m)
      && Mark(more, since) == Advance(m, Listing(polls[n], m))
      && Tails(more, since) == Tails(polls[..n], since) + if ShowsTail(polls[n], m) then 1 else 0
  {
    hide Listing, Advance, ShowsTail;
    assert polls[..n + 1][..n] == polls[..n];
  }

  method RunAgentLogs(polls: seq<Poll>, since: Option<nat>, follow: bool)
    returns (out: seq<Event>, tails: nat, n: nat)
    requires polls != []
    ensures 1 <= n <= |polls| && (!follow ==> n == 1)
    ensures follow ==> (n == |polls| || (n > 1 && polls[n - 1].over)) && forall i :: 1 <= i < n - 1 ==> !polls[i].over
    ensures out == Output(polls[..n], since) && tails == Tails(polls[..n], since)
  {
    hide Listing, Advance, ShowsTail, At, Output, Tails, Mark;
    var lastTs, tail;
    assert polls[..0] == [];
    NothingPolled(since);
    OnePollMore(polls, 0, since);
    out, tail, lastTs := DumpSince(polls[0], since);
    tails := if tail then 1 else 0;
    n := 1;
    if !follow {
      return;
    }
    while n < |polls|
      invariant 1 <= n <= |polls|
      invariant forall i :: 1 <= i < n ==> !polls[i].over
      invariant out == Output(polls[..n], since) && tails == Tails(polls[..n], since)
      invariant lastTs == Mark(polls[..n], since)
    {
      var more;
      OnePollMore(polls, n, since);
      more, tail, lastTs := DumpSince(polls[n], lastTs);
      out := out + more;
      tails := tails + if tail then 1 else 0;
      n := n + 1;
      if polls[n - 1].over {
        return;
      }
    }
  }

  /** Whatever the polls return, the output is in time order, above the requested start and up to the mark. */
  lemma {:induction false} OutputInOrder(polls: seq<Poll>, since: Option<nat>)
    ensures InOrder(Output(polls, since))
    ensures forall e :: e in Output(polls, since) ==> Beyond(since, e.ts) && !Beyond(Mark(polls, since), e.ts)
    ensures forall t :: Beyond(Mark(polls, since), t) ==> Beyond(since, t)
  {
    if polls != [] {
      var front, p := polls[..|polls| - 1], polls[|polls| - 1];
      OutputInOrder(front, since);
      var m := Mark(front, since);
      var more := Listing(p, m);
      SortFacts(Newer(Log(p), m));
      AdvanceCovers(m, more);
      forall e | e in more ensures Beyond(m, e.ts) {
        ListingBeyond(p, m, e);
      }
      Joined(Output(front, since), more, m);
    }
  }

  lemma Joined(s: seq<Event>, r: seq<Event>, m: Option<nat>)
    requires InOrder(s) && InOrder(r)
    requires forall e :: e in s ==> !Beyond(m, e.ts)
    requires forall e :: e in r ==> Beyond(m, e.ts)
    ensures InOrder(s + r)
  {
  }

  /** Both logs only gain events at their ends. */
  ghost predicate Grows(polls: seq<Poll>) {
    forall i, j :: 0 <= i <= j < |polls| ==> polls[i].audit <= polls[j].audit && polls[i].messages <= polls[j].messages
  }

  function Arrivals(p: Poll, q: Poll): seq<Event>
    requires p.audit <= q.audit && p.messages <= q.messages
  {
    q.audit[|p.audit|..] + q.messages[|p.messages|..]
  }

  lemma LogAt(p: Poll, t: nat)
    ensures At(Log(p), t) == At(p.audit, t) + At(p.messages, t)
  {
    AtAppend(p.audit, p.messages, t);
  }

  lemma Interleaved(x: seq<Event>, a: seq<Event>, y: seq<Event>, m: seq<Event>)
    ensures multiset((x + a) + (y + m)) == multiset(x + y) + multiset(a + m)
    ensures a + m == [] ==> (x + a) + (y + m) == x + y
  {
  }

  lemma LogGrows(p: Poll, q: Poll, t: nat)
    requires p.audit <= q.audit && p.messages <= q.messages
    ensures multiset(At(Log(q), t)) == multiset(At(Log(p), t)) + multiset(At(Arrivals(p, q), t))
    ensures At(Arrivals(p, q), t) == [] ==> At(Log(q), t) == At(Log(p), t)
  {
    hide At, Log;
    var a, m := q.audit[|p.audit|..], q.messages[|p.messages|..];
    assert q.audit == p.audit + a && q.messages == p.messages + m;
    LogAt(p, t);
    LogAt(q, t);
    AtAppend(p.audit, a, t);
    AtAppend(p.messages, m, t);
    AtAppend(a, m, t);
    Interleaved(At(p.audit, t), At(a, t), At(p.messages, t), At(m, t));
  }

  lemma OutputGrowsAt(polls: seq<Poll>, since: Option<nat>, t: nat)
    requires polls != []
    ensures var front, p := polls[..|polls| - 1], polls[|polls| - 1];
      At(Output(polls, since), t)
        == At(Output(front, since), t) + (if Beyond(Mark(front, since), t) then At(Log(p), t) else [])
  {
    hide At, Listing, Mark;
    var front, p := polls[..|polls| - 1], polls[|polls| - 1];
    var m := Mark(front, since);
    AtAppend(Output(front, since), Listing(p, m), t);
    ListingAt(p, m, t);
  }

  /** At each instant the output lists no more than the log of the last poll holds. */
  lemma {:induction false} OutputAt(polls: seq<Poll>, since: Option<nat>, t: nat)
    requires polls != [] && Grows(polls)
    ensures multiset(At(Output(polls, since), t)) <= multiset(At(Log(polls[|polls| - 1]), t))
  {
    OutputGrowsAt(polls, since, t);
    NothingPolled(since);
    hide At, Log, Output, Mark, Beyond;
    var front, p := polls[..|polls| - 1], polls[|polls| - 1];
    if Beyond(Mark(front, since), t) {
      OutputSettled(front, since, t);
      assert [] + At(Log(p), t) == At(Log(p), t);
    } else if front != [] {
      OutputAt(front, since, t);
      LogGrows(front[|front| - 1], p, t);
      assert At(Output(front, since), t) + [] == At(Output(front, since), t);
    } else {
      OutputSettled(front, since, t);
    }
  }

  lemma OutputSettled(polls: seq<Poll>, since: Option<nat>, t: nat)
    requires Beyond(Mark(polls, since), t) || !Beyond(since, t)
    ensures At(Output(polls, since), t) == []
  {
    OutputInOrder(polls, since);
    var a := At(Output(polls, since), t);
    if a != [] {
      AtIn(Output(polls, since), t, a[0]);
    }
  }

  lemma CountLast(s: seq<Event>, x: Event, e: Event)
    ensures multiset(s + [x])[e] == multiset(s)[e] + if x == e then 1 else 0
  {
  }

  lemma NothingAt(t: nat)
    ensures At([], t) == []
  {
  }

  lemma {:induction false} CountAt(s: seq<Event>, e: Event)
    ensures multiset(s)[e] == multiset(At(s, e.ts))[e]
  {
    hide At;
    if s == [] {
      NothingAt(e.ts);
    } else {
      var front, x := s[..|s| - 1], s[|s| - 1];
      assert s == front + [x];
      CountAt(front, e);
      AtLast(front, x, e.ts);
      CountLast(front, x, e);
      if x.ts == e.ts {
        CountLast(At(front, e.ts), x, e);
      }
    }
  }

  /** Following a growing log never prints an event twice. */
  lemma PrintedAtMostOnce(polls: seq<Poll>, since: Option<nat>)
    requires polls != [] && Grows(polls)
    ensures multiset(Output(polls, since)) <= multiset(Log(polls[|polls| - 1]))
  {
    forall e ensures multiset(Output(polls, since))[e] <= multiset(Log(polls[|polls| - 1]))[e] {
      CountAt(Output(polls, since), e);
      CountAt(Log(polls[|polls| - 1]), e);
      OutputAt(polls, since, e.ts);
    }
  }

  /** No event of interest arrives at or below the mark of the poll before it. */
  ghost predicate NoneLate(polls: seq<Poll>, since: Option<nat>)
    requires Grows(polls)
  {
    forall k, e :: 0 < k < |polls| && e in Arrivals(polls[k - 1], polls[k]) && Beyond(since, e.ts)
      ==> Beyond(Mark(polls[..k], since), e.ts)
  }

  lemma NoneLateFront(polls: seq<Poll>, since: Option<nat>)
    requires polls != [] && Grows(polls) && NoneLate(polls, since)
    ensures Grows(polls[..|polls| - 1]) && NoneLate(polls[..|polls| - 1], since)
  {
    var front := polls[..|polls| - 1];
    forall k, e | 0 < k < |front| && e in Arrivals(front[k - 1], front[k]) && Beyond(since, e.ts)
      ensures Beyond(Mark(front[..k], since), e.ts)
    {
      assert front[..k] == polls[..k];
      assert e in Arrivals(polls[k - 1], polls[k]);
    }
  }

  lemma NoLateAt(polls: seq<Poll>, since: Option<nat>, t: nat)
    requires |polls| >= 2 && Grows(polls) && NoneLate(polls, since)
    requires Beyond(since, t) && !Beyond(Mark(polls[..|polls| - 1], since), t)
    ensures At(Arrivals(polls[|polls| - 2], polls[|polls| - 1]), t) == []
  {
    hide Mark, Arrivals, At;
    var k := |polls| - 1;
    var late := At(Arrivals(polls[k - 1], polls[k]), t);
    if late != [] {
      AtIn(Arrivals(polls[k - 1], polls[k]), t, late[0]);
    }
  }

  lemma {:induction false} InTimeAgreesAt(polls: seq<Poll>, since: Option<nat>, t: nat)
    requires polls != [] && Grows(polls) && NoneLate(polls, since)
    ensures At(Output(polls, since), t) == At(Listing(polls[|polls| - 1], since), t)
  {
    hide Listing, Log, Advance, Arrivals, NoneLate, At;
    var n := |polls| - 1;
    var front, p := polls[..n], polls[n];
    var m := Mark(front, since);
    AtAppend(Output(front, since), Listing(p, m), t);
    ListingAt(p, m, t);
    ListingAt(p, since, t);
    OutputInOrder(front, since);
    if !Beyond(since, t) || Beyond(m, t) {
      OutputSettled(front, since, t);
    } else {
      assert front != [];
      NoneLateFront(polls, since);
      InTimeAgreesAt(front, since, t);
      ListingAt(polls[n - 1], since, t);
      NoLateAt(polls, since, t);
      LogGrows(polls[n - 1], p, t);
    }
  }

  /** Once the mark has passed an instant, later polls add nothing there. */
  lemma {:induction false} PassedIsFixed(polls: seq<Poll>, since: Option<nat>, k: nat, t: nat)
    requires k <= |polls| && !Beyond(Mark(polls[..k], since), t)
    ensures At(Output(polls, since), t) == At(Output(polls[..k], since), t)
    ensures !Beyond(Mark(polls, since), t)
  {
    if k == |polls| {
      assert polls[..k] == polls;
    } else {
      var front, p := polls[..|polls| - 1], polls[|polls| - 1];
      var m := Mark(front, since);
      assert front[..k] == polls[..k];
      PassedIsFixed(front, since, k, t);
      OutputGrowsAt(polls, since, t);
      AdvanceCovers(m, Listing(p, m));
      hide At, Listing, Advance, Output;
      assert At(Output(front, since), t) + [] == At(Output(front, since), t);
    }
  }

  /** A late arrival is never printed: at its instant the listing outgrows the output for good. */
  lemma LateIsMissed(polls: seq<Poll>, since: Option<nat>, k: nat, e: Event)
    requires Grows(polls) && 0 < k < |polls| && e in Arrivals(polls[k - 1], polls[k])
    requires Beyond(since, e.ts) && !Beyond(Mark(polls[..k], since), e.ts)
    ensures |At(Output(polls, since), e.ts)| < |At(Listing(polls[|polls| - 1], since), e.ts)|
  {
    hide At, Listing, Log, Output, Mark, Arrivals, Beyond;
    var last := polls[|polls| - 1];
    PassedIsFixed(polls, since, k, e.ts);
    SeenBefore(polls, since, k, e.ts);
    AtIn(Arrivals(polls[k - 1], polls[k]), e.ts, e);
    LogGrowsBy(polls[k - 1], polls[k], e.ts);
    LogGrowsBy(polls[k], last, e.ts);
    ListingAt(last, since, e.ts);
  }

  lemma SeenBefore(polls: seq<Poll>, since: Option<nat>, k: nat, t: nat)
    requires Grows(polls) && 0 < k < |polls|
    ensures |At(Output(polls[..k], since), t)| <= |At(Log(polls[k - 1]), t)|
  {
    hide At, Log, Output;
    assert Grows(polls[..k]);
    OutputAt(polls[..k], since, t);
    SizeOf(At(Output(polls[..k], since), t), At(Log(polls[k - 1]), t), []);
  }

  lemma LogGrowsBy(p: Poll, q: Poll, t: nat)
    requires p.audit <= q.audit && p.messages <= q.messages
    ensures |At(Log(q), t)| >= |At(Log(p), t)| + |At(Arrivals(p, q), t)|
  {
    hide At, Log, Arrivals;
    LogGrows(p, q, t);
    SizeOf(At(Log(p), t), At(Log(q), t), At(Arrivals(p, q), t));
  }

  lemma SizeOf(s: seq<Event>, r: seq<Event>, rest: seq<Event>)
    requires multiset(s) + multiset(rest) <= multiset(r)
    ensures |s| + |rest| <= |r|
  {
    assert multiset(r) == multiset(s) + multiset(rest) + (multiset(r) - multiset(s) - multiset(rest));
    assert |multiset(s)| == |s| && |multiset(r)| == |r| && |multiset(rest)| == |rest|;
  }

  /** Following equals one dump of the final log exactly if no event of interest arrived late. */
  lemma FollowAgreesWithDump(polls: seq<Poll>, since: Option<nat>)
    requires polls != [] && Grows(polls)
    ensures Output(polls, since) == Listing(polls[|polls| - 1], since) <==> NoneLate(polls, since)
  {
    var whole := Listing(polls[|polls| - 1], since);
    if NoneLate(polls, since) {
      OutputInOrder(polls, since);
      SortFacts(Newer(Log(polls[|polls| - 1]), since));
      forall t ensures At(Output(polls, since), t) == At(whole, t) {
        InTimeAgreesAt(polls, since, t);
      }
      OrderIsUnique(Output(polls, since), whole);
    } else {
      var k, e :| 0 < k < |polls| && e in Arrivals(polls[k - 1], polls[k]) && Beyond(since, e.ts)
        && !Beyond(Mark(polls[..k], since), e.ts);
      LateIsMissed(polls, since, k, e);
    }
  }

  lemma {:induction false} MarkNone(polls: seq<Poll>, since: Option<nat>)
    ensures Mark(polls, since).None? <==> since.None? && Output(polls, since) == []
  {
    hide Listing;
    if polls != [] {
      var front, p := polls[..|polls| - 1], polls[|polls| - 1];
      var m := Mark(front, since);
      MarkNone(front, since);
      AdvanceCovers(m, Listing(p, m));
    }
  }

  /**
   A poll renders the transcript exactly if no start was asked for, no earlier poll printed anything, it finds
   messages and the job is over.
   */
  lemma TailExactly(polls: seq<Poll>, since: Option<nat>)
    requires polls != []
    ensures var front, p := polls[..|polls| - 1], polls[|polls| - 1];
      Tails(polls, since) == Tails(front, since)
        + if since == None && Output(front, since) == [] && p.messages != [] && p.terminal then 1 else 0
  {
    MarkNone(polls[..|polls| - 1], since);
  }

  /** The transcript is rendered at most once in a run, and never when a start was asked for. */
  lemma {:induction false} TailAtMostOnce(polls: seq<Poll>, since: Option<nat>)
    ensures Tails(polls, since) <= 1
    ensures Mark(polls, since).None? ==> Tails(polls, since) == 0
    ensures since.Some? ==> Tails(polls, since) == 0 && Mark(polls, since).Some?
  {
    if polls != [] {
      var front, p := polls[..|polls| - 1], polls[|polls| - 1];
      TailAtMostOnce(front, since);
      var m := Mark(front, since);
      AdvanceCovers(m, Listing(p, m));
      if ShowsTail(p, m) {
        var e := p.messages[0];
        assert e in Log(p);
        ListingAt(p, m, e.ts);
        AtIn(Log(p), e.ts, e);
        AtIn(Listing(p, m), e.ts, e);
      }
    }
  }
}
