/** scripts/import-gym.ts, lines 12-50: the parsed sessions on or after the
    minimum date are folded into one record per date. The first session of a
    date is copied; a later one adds the exercises not yet seen (ignoring
    case) and its notes. The records come out newest date first. */
module ImportMerge {
  import opened Text
  import opened Sorting
  import opened GymText

  /** `IMPORT_MIN_DATE` when the environment does not set it. */
  const DefaultMinDate: string := "2025-01-01"

  /** `.filter((session) => session.sessionDate >= IMPORT_MIN_DATE)` */
  function FilterMinDate(sessions: seq<ParsedSession>, minDate: string): (r: seq<ParsedSession>)
    ensures |r| <= |sessions|
    ensures forall s :: s in r <==> s in sessions && !StrLess(s.sessionDate, minDate)
  {
    if sessions == [] then []
    else
      var front := FilterMinDate(sessions[..|sessions| - 1], minDate);
      var last := sessions[|sessions| - 1];
      assert forall s :: s in sessions <==> s in sessions[..|sessions| - 1] || s == last;
      front + (if StrLess(last.sessionDate, minDate) then [] else [last])
  }

  /** Session by session: with the membership fact above (which settles a
      single session), the kept sessions are in their order and each kept as
      often as it occurs. */
  lemma {:induction false} FilterMinDateConcat(a: seq<ParsedSession>, b: seq<ParsedSession>, minDate: string)
    ensures FilterMinDate(a + b, minDate) == FilterMinDate(a, minDate) + FilterMinDate(b, minDate)
  {
    if b == [] {
      assert a + b == a;
    } else {
      var front := b[..|b| - 1];
      var last := b[|b| - 1];
      assert a + b == (a + front) + [last] && b == front + [last];
      FilterMinDateSnoc(a + front, last, minDate);
      FilterMinDateSnoc(front, last, minDate);
      FilterMinDateConcat(a, front, minDate);
      Associative(FilterMinDate(a, minDate), FilterMinDate(front, minDate),
                  if StrLess(last.sessionDate, minDate) then [] else [last]);
    }
  }

  lemma FilterMinDateSnoc(sessions: seq<ParsedSession>, last: ParsedSession, minDate: string)
    ensures FilterMinDate(sessions + [last], minDate)
      == FilterMinDate(sessions, minDate) + (if StrLess(last.sessionDate, minDate) then [] else [last])
  {
    assert (sessions + [last])[..|sessions|] == sessions;
  }

  // ---------------------------------------------------------------------------
  // The fold

  /** The value `mergedByDate` holds for one date. */
  datatype Merged = Merged(exercises: seq<string>, notesRawParts: seq<string>, seen: set<string>)

  /** The lower-cased exercises. */
  function LowerSet(xs: seq<string>): (r: set<string>)
    ensures forall x :: x in xs ==> Lower(x) in r
    ensures forall y :: y in r ==> exists x :: x in xs && Lower(x) == y
  {
    set x | x in xs :: Lower(x)
  }

  lemma LowerSetAppend(xs: seq<string>, ys: seq<string>)
    ensures LowerSet(xs + ys) == LowerSet(xs) + LowerSet(ys)
  {
    assert forall x :: x in xs + ys <==> x in xs || x in ys;
  }

  lemma LowerSetSingle(e: string)
    ensures LowerSet([e]) == {Lower(e)}
  {
    forall y | y in LowerSet([e]) ensures y == Lower(e) {
      var x :| x in [e] && Lower(x) == y;
    }
  }

  /** `notesRaw ? [notesRaw] : []` */
  function NotePart(notesRaw: string): seq<string> {
    if notesRaw == [] then [] else [notesRaw]
  }

  /** The record a date's first session starts. */
  function Start(s: ParsedSession): Merged {
    Merged(s.exercises, NotePart(s.notesRaw), LowerSet(s.exercises))
  }

  /** One turn of the inner loop. */
  function AbsorbOne(m: Merged, exercise: string): Merged {
    if Lower(exercise) in m.seen then m
    else m.(exercises := m.exercises + [exercise], seen := m.seen + {Lower(exercise)})
  }

  /** The inner loop over a later session's exercises. */
  function AbsorbAll(m: Merged, incoming: seq<string>): Merged {
    if incoming == [] then m
    else AbsorbOne(AbsorbAll(m, incoming[..|incoming| - 1]), incoming[|incoming| - 1])
  }

  /** A later session of the same date. */
  function Step(m: Merged, s: ParsedSession): Merged {
    var absorbed := AbsorbAll(m, s.exercises);
    absorbed.(notesRawParts := absorbed.notesRawParts + NotePart(s.notesRaw))
  }

  /** The inner loop keeps the notes, keeps what was there as a prefix, and
      extends `seen` by the lower case of every incoming exercise. */
  lemma {:induction false} AbsorbSeen(m: Merged, incoming: seq<string>)
    ensures var r := AbsorbAll(m, incoming);
      && r.notesRawParts == m.notesRawParts
      && m.exercises <= r.exercises
      && r.seen == m.seen + LowerSet(incoming)
    decreases |incoming|
  {
    if incoming != [] {
      var front := incoming[..|incoming| - 1];
      var e := incoming[|incoming| - 1];
      AbsorbSeen(m, front);
      var p := AbsorbAll(m, front);
      assert AbsorbAll(m, incoming) == AbsorbOne(p, e);
      assert AbsorbOne(p, e).seen == p.seen + {Lower(e)};
      assert incoming == front + [e];
      LowerSetAppend(front, [e]);
      LowerSetSingle(e);
      assert LowerSet(incoming) == LowerSet(front) + {Lower(e)};
    }
  }

  /** It appends only incoming exercises whose lower case was not seen
      before, and no lower case twice. */
  lemma {:induction false} AbsorbAppendsUnseen(m: Merged, incoming: seq<string>)
    ensures var r := AbsorbAll(m, incoming);
      && (forall i :: |m.exercises| <= i < |r.exercises| ==> r.exercises[i] in incoming && Lower(r.exercises[i]) !in m.seen)
      && (forall i, j :: |m.exercises| <= i < j < |r.exercises| ==> Lower(r.exercises[i]) != Lower(r.exercises[j]))
    decreases |incoming|
  {
    if incoming != [] {
      var front := incoming[..|incoming| - 1];
      var e := incoming[|incoming| - 1];
      AbsorbAppendsUnseen(m, front);
      AbsorbSeen(m, front);
      var p := AbsorbAll(m, front);
      var r := AbsorbOne(p, e);
      assert forall x :: x in front ==> x in incoming;
      if Lower(e) !in p.seen {
        forall i | |m.exercises| <= i < |p.exercises| ensures Lower(p.exercises[i]) != Lower(e) {
          assert Lower(p.exercises[i]) in LowerSet(front);
        }
      }
    }
  }

  /** `seen` stays the lower case of the list. */
  lemma {:induction false} AbsorbKeepsSeen(m: Merged, incoming: seq<string>)
    requires m.seen == LowerSet(m.exercises)
    ensures AbsorbAll(m, incoming).seen == LowerSet(AbsorbAll(m, incoming).exercises)
    decreases |incoming|
  {
    if incoming != [] {
      var front := incoming[..|incoming| - 1];
      var e := incoming[|incoming| - 1];
      AbsorbKeepsSeen(m, front);
      var p := AbsorbAll(m, front);
      LowerSetAppend(p.exercises, [e]);
      assert LowerSet([e]) == {Lower(e)};
    }
  }

  /** The map and the order in which its dates were first set. */
  datatype MergeState = MergeState(byDate: map<string, Merged>, order: seq<string>)

  function FoldStep(st: MergeState, s: ParsedSession): MergeState {
    if s.sessionDate in st.byDate then
      MergeState(st.byDate[s.sessionDate := Step(st.byDate[s.sessionDate], s)], st.order)
    else
      MergeState(st.byDate[s.sessionDate := Start(s)], st.order + [s.sessionDate])
  }

  /** The outer loop over the sessions. */
  function Fold(sessions: seq<ParsedSession>): MergeState {
    if sessions == [] then MergeState(map[], [])
    else FoldStep(Fold(sessions[..|sessions| - 1]), sessions[|sessions| - 1])
  }

  /** The fold as the script runs it: a loop over the sessions, with an inner
      loop over the exercises of a date already present. */
  method MergeByDate(sessions: seq<ParsedSession>) returns (st: MergeState)
    ensures st == Fold(sessions)
  {
    var byDate: map<string, Merged> := map[];
    var order: seq<string> := [];
    var k := 0;
    while k < |sessions|
      invariant 0 <= k <= |sessions|
      invariant MergeState(byDate, order) == Fold(sessions[..k])
    {
      var session := sessions[k];
      assert sessions[..k + 1][..k] == sessions[..k];
      if session.sessionDate !in byDate {
        byDate := byDate[session.sessionDate := Start(session)];
        order := order + [session.sessionDate];
      } else {
        var existing := byDate[session.sessionDate];
        var j := 0;
        while j < |session.exercises|
          invariant 0 <= j <= |session.exercises|
          invariant existing == AbsorbAll(byDate[session.sessionDate], session.exercises[..j])
        {
          assert session.exercises[..j + 1][..j] == session.exercises[..j];
          var normalized := Lower(session.exercises[j]);
          if normalized !in existing.seen {
            existing := existing.(exercises := existing.exercises + [session.exercises[j]],
                                  seen := existing.seen + {normalized});
          }
          j := j + 1;
        }
        assert session.exercises[..j] == session.exercises;
        if session.notesRaw != [] {
          existing := existing.(notesRawParts := existing.notesRawParts + [session.notesRaw]);
        }
        assert existing == Step(byDate[session.sessionDate], session);
        byDate := byDate[session.sessionDate := existing];
      }
      k := k + 1;
    }
    assert sessions[..k] == sessions;
    st := MergeState(byDate, order);
  }

  // ---------------------------------------------------------------------------
  // What the fold holds for each date

  /** The sessions of one date, in order. */
  function OfDate(sessions: seq<ParsedSession>, date: string): (r: seq<ParsedSession>)
    ensures forall s :: s in r <==> s in sessions && s.sessionDate == date
  {
    if sessions == [] then []
    else
      var last := sessions[|sessions| - 1];
      assert forall s :: s in sessions <==> s in sessions[..|sessions| - 1] || s == last;
      OfDate(sessions[..|sessions| - 1], date) + (if last.sessionDate == date then [last] else [])
  }

  /** The non-empty notes of the sessions, in order. */
  function NotesOf(sessions: seq<ParsedSession>): seq<string> {
    if sessions == [] then []
    else NotesOf(sessions[..|sessions| - 1]) + NotePart(sessions[|sessions| - 1].notesRaw)
  }

  /** Every exercise of the sessions, lower-cased. */
  function LowersOf(sessions: seq<ParsedSession>): set<string> {
    if sessions == [] then {}
    else LowersOf(sessions[..|sessions| - 1]) + LowerSet(sessions[|sessions| - 1].exercises)
  }

  lemma OfDateAppend(sessions: seq<ParsedSession>, s: ParsedSession, date: string)
    ensures OfDate(sessions + [s], date) == OfDate(sessions, date) + (if s.sessionDate == date then [s] else [])
  {
    assert (sessions + [s])[..|sessions|] == sessions;
  }

  /** The dates listed are exactly the dates of the sessions, each once, in
      order of first appearance. */
  lemma {:induction false} FoldDates(sessions: seq<ParsedSession>)
    ensures var st := Fold(sessions);
      && Distinct(st.order)
      && (forall d :: d in st.order <==> d in st.byDate)
      && (forall d :: d in st.byDate <==> exists s :: s in sessions && s.sessionDate == d)
  {
    if sessions != [] {
      var front := sessions[..|sessions| - 1];
      var s := sessions[|sessions| - 1];
      FoldDates(front);
      assert forall x :: x in sessions <==> x in front || x == s;
    }
  }

  /** A date is in the map exactly when it has sessions. */
  lemma OfDateEmpty(sessions: seq<ParsedSession>, d: string)
    ensures d in Fold(sessions).byDate <==> OfDate(sessions, d) != []
  {
    FoldDates(sessions);
    if OfDate(sessions, d) != [] {
      assert OfDate(sessions, d)[0] in OfDate(sessions, d);
    }
  }

  /** One more session of a date keeps the first session's exercises in
      front and `seen` the lower case of the list and of all sessions. */
  lemma StepExercises(m: Merged, before: seq<ParsedSession>, s: ParsedSession)
    requires before != [] && before[0].exercises <= m.exercises
    requires m.seen == LowerSet(m.exercises) && m.seen == LowersOf(before)
    ensures var m' := Step(m, s);
      && (before + [s])[0].exercises <= m'.exercises
      && m'.seen == LowerSet(m'.exercises)
      && m'.seen == LowersOf(before + [s])
  {
    assert (before + [s])[..|before|] == before;
    assert LowersOf(before + [s]) == LowersOf(before) + LowerSet(s.exercises);
    AbsorbSeen(m, s.exercises);
    AbsorbKeepsSeen(m, s.exercises);
  }

  /** For each date present, the merged list begins with the exercises of
      its first session, and `seen` is the lower case of the merged list and
      of every exercise of the date. */
  lemma {:induction false} FoldExercises(sessions: seq<ParsedSession>, d: string)
    requires d in Fold(sessions).byDate
    ensures var m := Fold(sessions).byDate[d];
      var ofDate := OfDate(sessions, d);
      && ofDate != []
      && ofDate[0].exercises <= m.exercises
      && m.seen == LowerSet(m.exercises)
      && m.seen == LowersOf(ofDate)
  {
    OfDateEmpty(sessions, d);
    var front := sessions[..|sessions| - 1];
    var s := sessions[|sessions| - 1];
    var prev := Fold(front);
    var m := Fold(sessions).byDate[d];
    var before := OfDate(front, d);
    var ofDate := OfDate(sessions, d);
    if d != s.sessionDate {
      assert m == prev.byDate[d] && ofDate == before;
      FoldExercises(front, d);
    } else if d in prev.byDate {
      assert m == Step(prev.byDate[d], s);
      assert ofDate == before + [s];
      FoldExercises(front, d);
      StepExercises(prev.byDate[d], before, s);
    } else {
      assert m == Start(s);
      OfDateEmpty(front, d);
      assert ofDate == [s];
      assert ofDate[..0] == [];
    }
  }

  /** For each date present, the note parts are the non-empty notes of its
      sessions in encounter order. */
  lemma {:induction false} FoldNotes(sessions: seq<ParsedSession>, d: string)
    requires d in Fold(sessions).byDate
    ensures Fold(sessions).byDate[d].notesRawParts == NotesOf(OfDate(sessions, d))
  {
    var front := sessions[..|sessions| - 1];
    var s := sessions[|sessions| - 1];
    var prev := Fold(front);
    var m := Fold(sessions).byDate[d];
    var before := OfDate(front, d);
    var ofDate := OfDate(sessions, d);
    if d != s.sessionDate {
      assert m == prev.byDate[d] && ofDate == before;
      FoldNotes(front, d);
    } else if d in prev.byDate {
      assert m == Step(prev.byDate[d], s);
      assert ofDate == before + [s];
      FoldNotes(front, d);
      assert ofDate[..|ofDate| - 1] == before;
      AbsorbSeen(prev.byDate[d], s.exercises);
    } else {
      assert m == Start(s);
      OfDateEmpty(front, d);
      assert ofDate == [s];
      assert ofDate[..0] == [];
    }
  }

  /** Merging [Bench, Squats] then [bench, Deadlift] on one date keeps the
      first spelling of the bench press and adds the deadlift. */
  lemma MergeExample()
    ensures var a := ParsedSession("2025-03-01", ["Bench", "Squats"], "Mar 1");
      var b := ParsedSession("2025-03-01", ["bench", "Deadlift"], "");
      var m := Fold([a, b]).byDate["2025-03-01"];
      m.exercises == ["Bench", "Squats", "Deadlift"] && m.notesRawParts == ["Mar 1"]
  {
    var a := ParsedSession("2025-03-01", ["Bench", "Squats"], "Mar 1");
    var b := ParsedSession("2025-03-01", ["bench", "Deadlift"], "");
    assert [a, b][..1] == [a];
    assert [a][..0] == [];
    var m0 := Start(a);
    assert Fold([a]) == MergeState(map["2025-03-01" := m0], ["2025-03-01"]);
    assert Lower("Bench") == "bench";
    assert Lower("Squats") == "squats";
    assert Lower("bench") == "bench";
    assert Lower("Deadlift") == "deadlift";
    assert m0.seen == {"bench", "squats"} by {
      assert ["Bench", "Squats"][0] == "Bench" && ["Bench", "Squats"][1] == "Squats";
    }
    assert ["bench", "Deadlift"][..1] == ["bench"];
    assert ["bench"][..0] == [];
    var m1 := AbsorbAll(m0, ["bench"]);
    assert m1 == m0;
    assert "deadlift" !in m0.seen;
    assert AbsorbAll(m0, ["bench", "Deadlift"]) == AbsorbOne(m1, "Deadlift");
    assert Fold([a, b]).byDate["2025-03-01"] == Step(m0, b);
  }

  // ---------------------------------------------------------------------------
  // The records written

  /** A merged record: the exercises and the note parts joined by " | ". */
  datatype MergedSession = MergedSession(sessionDate: string, exercises: seq<string>, notesRaw: string)

  const NoteSeparator: string := " | "

  /** `[...mergedByDate.entries()].map(...)`: the records in map order. */
  function Emit(st: MergeState): (r: seq<MergedSession>)
    requires forall d :: d in st.order ==> d in st.byDate
    ensures |r| == |st.order|
    ensures forall i :: 0 <= i < |r| ==>
      r[i] == MergedSession(st.order[i], st.byDate[st.order[i]].exercises,
                            Join(st.byDate[st.order[i]].notesRawParts, NoteSeparator))
  {
    seq(|st.order|, i requires 0 <= i < |st.order| =>
      var d := st.order[i];
      MergedSession(d, st.byDate[d].exercises, Join(st.byDate[d].notesRawParts, NoteSeparator)))
  }

  /** The comparator `a.sessionDate < b.sessionDate ? 1 : -1`: a later date
      comes first. */
  predicate NewerFirst(a: MergedSession, b: MergedSession) {
    !StrLess(a.sessionDate, b.sessionDate)
  }

  lemma NewerFirstIsTotalPreorder()
    ensures TotalPreorder(NewerFirst)
  {
    forall a: MergedSession, b: MergedSession ensures NewerFirst(a, b) || NewerFirst(b, a) {
      if StrLess(a.sessionDate, b.sessionDate) { StrLessAsymmetric(a.sessionDate, b.sessionDate); }
    }
    forall a: MergedSession, b: MergedSession, c: MergedSession | NewerFirst(a, b) && NewerFirst(b, c)
      ensures NewerFirst(a, c)
    {
      StrNotLessTransitive(c.sessionDate, b.sessionDate, a.sessionDate);
    }
  }

  /** The records in map order carry distinct dates, so no record twice. */
  lemma EmitDistinct(st: MergeState)
    requires Distinct(st.order) && forall d :: d in st.order ==> d in st.byDate
    ensures Distinct(Emit(st))
    ensures forall x, y :: x in Emit(st) && y in Emit(st) && x.sessionDate == y.sessionDate ==> x == y
  {
  }

  /** What `run` hands to the upserts: the merged records, newest date first. */
  function ImportSessions(parsed: seq<ParsedSession>, minDate: string): seq<MergedSession> {
    FoldDates(FilterMinDate(parsed, minDate));
    NewerFirstIsTotalPreorder();
    SortBy(Emit(Fold(FilterMinDate(parsed, minDate))), NewerFirst)
  }

  /** Sorted newest first with one record per date means strictly newest
      first. */
  lemma StrictlyNewestFirst(r: seq<MergedSession>)
    requires Distinct(r)
    requires forall i, j :: 0 <= i < j < |r| ==> NewerFirst(r[i], r[j])
    requires forall x, y :: x in r && y in r && x.sessionDate == y.sessionDate ==> x == y
    ensures forall i, j :: 0 <= i < j < |r| ==> StrLess(r[j].sessionDate, r[i].sessionDate)
  {
    forall i, j | 0 <= i < j < |r| ensures StrLess(r[j].sessionDate, r[i].sessionDate) {
      assert NewerFirst(r[i], r[j]) && r[i] != r[j];
      StrLessTotal(r[i].sessionDate, r[j].sessionDate);
    }
  }

  /** The output is strictly newest first, so one record per date. */
  lemma ImportSessionsNewestFirst(parsed: seq<ParsedSession>, minDate: string)
    ensures var r := ImportSessions(parsed, minDate);
      forall i, j :: 0 <= i < j < |r| ==> StrLess(r[j].sessionDate, r[i].sessionDate)
  {
    var kept := FilterMinDate(parsed, minDate);
    var st := Fold(kept);
    FoldDates(kept);
    NewerFirstIsTotalPreorder();
    var e := Emit(st);
    var r := ImportSessions(parsed, minDate);
    assert r == SortBy(e, NewerFirst);
    EmitDistinct(st);
    DistinctOfPermutation(e, r);
    assert forall x :: x in r ==> x in e by {
      forall x | x in r ensures x in e {
        assert x in multiset(r);
      }
    }
    StrictlyNewestFirst(r);
  }

  /** The output has a record for every date of a kept session and for no
      other date. */
  lemma ImportSessionsDates(parsed: seq<ParsedSession>, minDate: string, d: string)
    ensures var r := ImportSessions(parsed, minDate);
      (exists i :: 0 <= i < |r| && r[i].sessionDate == d) <==>
        exists s :: s in parsed && s.sessionDate == d && !StrLess(d, minDate)
  {
    var kept := FilterMinDate(parsed, minDate);
    var st := Fold(kept);
    FoldDates(kept);
    NewerFirstIsTotalPreorder();
    var e := Emit(st);
    var r := ImportSessions(parsed, minDate);
    assert r == SortBy(e, NewerFirst);
    assert multiset(r) == multiset(e);
    if s :| s in parsed && s.sessionDate == d && !StrLess(d, minDate) {
      assert s in kept;
      assert d in st.order;
      var k :| 0 <= k < |st.order| && st.order[k] == d;
      assert e[k] in multiset(r);
      var i :| 0 <= i < |r| && r[i] == e[k];
    }
    if i :| 0 <= i < |r| && r[i].sessionDate == d {
      assert r[i] in multiset(e);
      var k :| 0 <= k < |e| && e[k] == r[i];
      assert d in st.byDate;
      var s :| s in kept && s.sessionDate == d;
    }
  }

  /** Each record's exercises begin with the first kept session of its date
      and hold every exercise of that date up to case; its notes are the
      date's non-empty notes joined by " | ". */
  lemma ImportSessionsRecords(parsed: seq<ParsedSession>, minDate: string, i: nat)
    requires i < |ImportSessions(parsed, minDate)|
    ensures var r := ImportSessions(parsed, minDate)[i];
      var ofDate := OfDate(FilterMinDate(parsed, minDate), r.sessionDate);
      && ofDate != []
      && ofDate[0].exercises <= r.exercises
      && LowerSet(r.exercises) == LowersOf(ofDate)
      && r.notesRaw == Join(NotesOf(ofDate), NoteSeparator)
  {
    var kept := FilterMinDate(parsed, minDate);
    var st := Fold(kept);
    FoldDates(kept);
    var r := ImportSessions(parsed, minDate);
    assert r[i] in multiset(Emit(st));
    var k :| 0 <= k < |st.order| && Emit(st)[k] == r[i];
    FoldExercises(kept, st.order[k]);
    FoldNotes(kept, st.order[k]);
  }

  /** `run` up to the upserts: filter, merge, emit and sort. */
  method Run(parsed: seq<ParsedSession>, minDate: string) returns (sessions: seq<MergedSession>)
    ensures sessions == ImportSessions(parsed, minDate)
  {
    var kept := FilterMinDate(parsed, minDate);
    var st := MergeByDate(kept);
    FoldDates(kept);
    NewerFirstIsTotalPreorder();
    sessions := SortBy(Emit(st), NewerFirst);
  }
}
