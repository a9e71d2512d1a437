/** `lib/parse-gym-txt.ts`: splits a free-text workout log into dated sessions.
    The log is a list of lines; a line that reads as a "Mon D" label starts a
    session, and the lines after it up to the next such label are its
    exercises. */
module GymText {
  import opened Wrappers
  import opened Text
  import opened Dates

  /** `ParsedSession`; `notesRaw` is always present in what the parser builds. */
  datatype ParsedSession = ParsedSession(sessionDate: string, exercises: seq<string>, notesRaw: string)

  /** `isDateLine` */
  predicate IsDateLine(line: string) {
    IsSupportedMonthDayLabel(line)
  }

  // ---------------------------------------------------------------------------
  // From text to lines

  /** The index of the last '\n' in s, which must contain one. */
  function LastNewline(s: string): (k: nat)
    requires '\n' in s
    ensures k < |s| && s[k] == '\n' && '\n' !in s[k + 1..]
  {
    if s[|s| - 1] == '\n' then |s| - 1
    else
      assert '\n' in s[..|s| - 1] by {
        var i :| 0 <= i < |s| && s[i] == '\n';
        assert s[..|s| - 1][i] == '\n';
      }
      var k := LastNewline(s[..|s| - 1]);
      assert s[k + 1..] == s[..|s| - 1][k + 1..] + [s[|s| - 1]];
      k
  }

  /** `text.split(/\r?\n/)`: the text cut at every '\n', and a '\r' right
      before a '\n' is part of the separator. */
  function SplitLines(text: string): (r: seq<string>)
    ensures |r| >= 1
    ensures forall i :: 0 <= i < |r| ==> '\n' !in r[i]
    decreases |text|
  {
    if '\n' !in text then [text]
    else
      var k := LastNewline(text);
      var head := text[..k];
      var head' := if head != [] && head[|head| - 1] == '\r' then head[..|head| - 1] else head;
      SplitLines(head') + [text[k + 1..]]
  }

  /** Without '\r', splitting is undone by joining with "\n". */
  lemma {:induction false} SplitLinesJoin(text: string)
    requires '\r' !in text
    ensures Join(SplitLines(text), "\n") == text
    decreases |text|
  {
    if '\n' in text {
      var k := LastNewline(text);
      var head := text[..k];
      assert '\r' !in head by {
        forall i | 0 <= i < |head| ensures head[i] != '\r' { assert head[i] == text[i]; }
      }
      assert head == [] || head[|head| - 1] != '\r';
      var init := SplitLines(head);
      var parts := init + [text[k + 1..]];
      assert SplitLines(text) == parts;
      SplitLinesJoin(head);
      assert parts[..|parts| - 1] == init;
      assert Join(parts, "\n") == Join(init, "\n") + "\n" + text[k + 1..];
      CutAt(text, k);
    }
  }

  lemma CutAt<T>(s: seq<T>, k: nat)
    requires k < |s|
    ensures s == s[..k] + [s[k]] + s[k + 1..]
  {
  }

  /** The lines of the text, trimmed, without the blank ones. */
  function CleanLines(text: string): (r: seq<string>)
    ensures forall i :: 0 <= i < |r| ==> r[i] != [] && IsTrimmed(r[i])
    ensures '\n' !in text ==> r == if Trim(text) == [] then [] else [Trim(text)]
  {
    TrimmedNonBlankOne(text);
    TrimmedNonBlank(SplitLines(text))
  }

  /** The last line of a text is its own piece. */
  lemma SplitLinesAppendLine(text: string, line: string)
    requires '\n' !in line
    requires text == [] || text[|text| - 1] != '\r'
    ensures SplitLines(text + "\n" + line) == SplitLines(text) + [line]
  {
    var s := text + "\n" + line;
    assert s[|text|] == '\n';
    assert forall j :: |text| < j < |s| ==> s[j] == line[j - |text| - 1];
    var k := LastNewline(s);
    assert k >= |text| ==> k == |text|;
    assert s[..k] == text && s[k + 1..] == line;
  }

  /** Line by line: a line appended to the text adds its trimmed form to the
      clean lines when it is not blank, and nothing otherwise; so every
      non-blank line is kept, in order. */
  lemma CleanLinesAppendLine(text: string, line: string)
    requires '\n' !in line
    requires text == [] || text[|text| - 1] != '\r'
    ensures CleanLines(text + "\n" + line) ==
      CleanLines(text) + (if Trim(line) == [] then [] else [Trim(line)])
  {
    SplitLinesAppendLine(text, line);
    TrimmedNonBlankConcat(SplitLines(text), [line]);
    TrimmedNonBlankOne(line);
  }

  /** `/^gym$/i` on a trimmed line. */
  predicate IsTitle(line: string) {
    Lower(line) == "gym"
  }

  /** The first line is dropped when it is the title "gym" in any case. */
  function DropTitle(lines: seq<string>): (r: seq<string>)
    ensures lines != [] && IsTitle(lines[0]) ==> r == lines[1..]
    ensures !(lines != [] && IsTitle(lines[0])) ==> r == lines
  {
    if lines != [] && IsTitle(lines[0]) then lines[1..] else lines
  }

  /** `withoutHeader` */
  function LogLines(text: string): seq<string> {
    DropTitle(CleanLines(text))
  }

  // ---------------------------------------------------------------------------
  // Segmentation

  /** A log line as the segmenter sees it: a date header, with the month and
      day `parseMonthDay` reads from it, or an entry. */
  datatype LogLine = DateHeader(text: string, monthDay: ParsedMonthDay) | Entry(text: string)

  function Classify(line: string): (r: LogLine)
    ensures r.text == line
    ensures r.DateHeader? <==> IsDateLine(line)
    ensures r.DateHeader? ==> ParseMonthDay(line) == Ok(r.monthDay)
  {
    match ParseMonthDay(line)
    case Ok(md) => DateHeader(line, md)
    case Err(_) => Entry(line)
  }

  function ClassifyAll(lines: seq<string>): (r: seq<LogLine>)
    ensures |r| == |lines|
    ensures forall i :: 0 <= i < |r| ==> r[i] == Classify(lines[i])
  {
    seq(|lines|, i requires 0 <= i < |lines| => Classify(lines[i]))
  }

  /** The number of entries from index i on, before the next date header. */
  function EntryRun(ls: seq<LogLine>, i: nat): (n: nat)
    requires i <= |ls|
    ensures i + n <= |ls|
    decreases |ls| - i
  {
    if i == |ls| || ls[i].DateHeader? then 0 else 1 + EntryRun(ls, i + 1)
  }

  /** The texts of that run of entries. */
  function RunTexts(ls: seq<LogLine>, i: nat): (r: seq<string>)
    requires i <= |ls|
    ensures |r| == EntryRun(ls, i)
    decreases |ls| - i
  {
    if i == |ls| || ls[i].DateHeader? then [] else [ls[i].text] + RunTexts(ls, i + 1)
  }

  /** What the loop of `parseGymTxt` produces from the classified lines from
      index i on, when the date cursor is `previous`: each date header
      resolves to a date that becomes the cursor (`FromHeader`). */
  function Segment(ls: seq<LogLine>, i: nat, previous: Option<Date>, now: Date): seq<ParsedSession>
    requires i <= |ls|
    requires ValidDate(now)
    requires previous.Some? ==> ValidDate(previous.value)
    decreases |ls| - i, 1
  {
    if i == |ls| then []
    else match ls[i]
      case Entry(_) => Segment(ls, i + 1, previous, now)
      case DateHeader(_, md) => FromHeader(ls, i, ResolveYear(md, previous, now), now)
  }

  /** The sessions from the date header at i on, once it has resolved to
      `date`: a session of its run of entries when the run is not empty,
      then the rest with `date` as the cursor. */
  function FromHeader(ls: seq<LogLine>, i: nat, date: Date, now: Date): seq<ParsedSession>
    requires i < |ls|
    requires ValidDate(now) && ValidDate(date)
    decreases |ls| - i, 0
  {
    var n := EntryRun(ls, i + 1);
    var rest := Segment(ls, i + 1 + n, Some(date), now);
    if n == 0 then rest
    else [ParsedSession(ToIsoDate(date), RunTexts(ls, i + 1), ls[i].text)] + rest
  }

  /** `parseGymTxt(text, now)`: the log lines are classified once, which is
      the `isDateLine` test and the `parseMonthDay` read of each line, and the
      loop runs over them. The previous date is kept as the date it resolved
      to rather than as its ISO text (`IsoDateFields` reads the text back as
      the same date). */
  method ParseGymTxt(text: string, now: Date) returns (sessions: seq<ParsedSession>)
    requires ValidDate(now)
    ensures sessions == Segment(ClassifyAll(LogLines(text)), 0, None, now)
  {
    var lines := LogLines(text);
    sessions := SegmentLog(ClassifyAll(lines), now);
  }

  /** The two nested loops of `parseGymTxt` over the classified lines. */
  method SegmentLog(ls: seq<LogLine>, now: Date) returns (sessions: seq<ParsedSession>)
    requires ValidDate(now)
    ensures sessions == Segment(ls, 0, None, now)
  {
    sessions := [];
    var i := 0;
    var previous: Option<Date> := None;
    while i < |ls|
      invariant 0 <= i <= |ls|
      invariant previous.Some? ==> ValidDate(previous.value)
      invariant sessions + Segment(ls, i, previous, now) == Segment(ls, 0, None, now)
      decreases |ls| - i
    {
      if ls[i].Entry? {
        EntryStep(ls, i, previous, now);
        i := i + 1;
        continue;
      }
      var date, emitted, next := SessionAt(ls, i, previous, now);
      Associative(sessions, emitted, Segment(ls, next, Some(date), now));
      sessions := sessions + emitted;
      previous := Some(date);
      i := next;
    }
  }

  /** One turn of the outer loop at the date header i: it resolves the date,
      collects the entries after it, and emits the session they make, if any. */
  method SessionAt(ls: seq<LogLine>, i: nat, previous: Option<Date>, now: Date)
    returns (date: Date, emitted: seq<ParsedSession>, next: nat)
    requires ValidDate(now) && (previous.Some? ==> ValidDate(previous.value))
    requires i < |ls| && ls[i].DateHeader?
    ensures ValidDate(date) && i < next <= |ls|
    ensures date == ResolveYear(ls[i].monthDay, previous, now)
    ensures Segment(ls, i, previous, now) == emitted + Segment(ls, next, Some(date), now)
  {
    var line := ls[i].text;
    date := ResolveYear(ls[i].monthDay, previous, now);
    var sessionDate := ToIsoDate(date);
    var exercises;
    exercises, next := CollectEntries(ls, i + 1);
    HeaderTurn(ls, i, previous, now);
    HeaderStep(ls, i, date, now);
    if |exercises| > 0 {
      emitted := [ParsedSession(sessionDate, exercises, line)];
    } else {
      emitted := [];
      LeftUnit(Segment(ls, next, Some(date), now));
    }
  }

  /** The inner loop: the entries from `start` up to the next date header. */
  method CollectEntries(ls: seq<LogLine>, start: nat) returns (exercises: seq<string>, next: nat)
    requires start <= |ls|
    ensures next == start + EntryRun(ls, start)
    ensures exercises == RunTexts(ls, start)
  {
    next := start;
    exercises := [];
    LeftUnit(RunTexts(ls, start));
    while next < |ls| && ls[next].Entry?
      invariant start <= next <= |ls|
      invariant next + EntryRun(ls, next) == start + EntryRun(ls, start)
      invariant exercises + RunTexts(ls, next) == RunTexts(ls, start)
      decreases |ls| - next
    {
      Associative(exercises, [ls[next].text], RunTexts(ls, next + 1));
      exercises := exercises + [ls[next].text];
      next := next + 1;
    }
    RightUnit(exercises);
  }

  /** A turn of the outer loop at an entry skips it. */
  lemma EntryStep(ls: seq<LogLine>, i: nat, previous: Option<Date>, now: Date)
    requires ValidDate(now) && (previous.Some? ==> ValidDate(previous.value))
    requires i < |ls| && ls[i].Entry?
    ensures Segment(ls, i, previous, now) == Segment(ls, i + 1, previous, now)
  {
  }

  /** A date header moves the cursor to the date it resolves to. */
  lemma HeaderTurn(ls: seq<LogLine>, i: nat, previous: Option<Date>, now: Date)
    requires ValidDate(now) && (previous.Some? ==> ValidDate(previous.value))
    requires i < |ls| && ls[i].DateHeader?
    ensures Segment(ls, i, previous, now) == FromHeader(ls, i, ResolveYear(ls[i].monthDay, previous, now), now)
  {
  }

  /** The date header at i makes a session of the entries after it when there
      are any, and the rest starts after them. */
  lemma HeaderStep(ls: seq<LogLine>, i: nat, date: Date, now: Date)
    requires ValidDate(now) && ValidDate(date)
    requires i < |ls|
    ensures var exercises := RunTexts(ls, i + 1);
      var rest := Segment(ls, i + 1 + EntryRun(ls, i + 1), Some(date), now);
      FromHeader(ls, i, date, now) ==
        if |exercises| == 0 then rest else [ParsedSession(ToIsoDate(date), exercises, ls[i].text)] + rest
  {
  }

  // ---------------------------------------------------------------------------
  // What the segmentation promises

  /** The number of date headers from index i on. */
  function HeaderCount(ls: seq<LogLine>, i: nat): (c: nat)
    requires i <= |ls|
    ensures c <= |ls| - i
    decreases |ls| - i
  {
    if i == |ls| then 0
    else (if ls[i].DateHeader? then 1 else 0) + HeaderCount(ls, i + 1)
  }

  /** The texts of the entries from index i on, in order. */
  function EntryTexts(ls: seq<LogLine>, i: nat): seq<string>
    requires i <= |ls|
    decreases |ls| - i
  {
    if i == |ls| then []
    else if ls[i].Entry? then [ls[i].text] + EntryTexts(ls, i + 1)
    else EntryTexts(ls, i + 1)
  }

  /** The index of the first date header from i on, or |ls| when none. */
  function FirstHeader(ls: seq<LogLine>, i: nat): (k: nat)
    requires i <= |ls|
    ensures i <= k <= |ls|
    decreases |ls| - i
  {
    if i == |ls| || ls[i].DateHeader? then i else FirstHeader(ls, i + 1)
  }

  /** All the exercises of the sessions, in session order. */
  function Flatten(ss: seq<ParsedSession>): seq<string> {
    if ss == [] then [] else ss[0].exercises + Flatten(ss[1..])
  }

  lemma {:induction false} FlattenAppend(a: seq<ParsedSession>, b: seq<ParsedSession>)
    ensures Flatten(a + b) == Flatten(a) + Flatten(b)
    decreases |a|
  {
    if a != [] {
      assert (a + b)[0] == a[0] && (a + b)[1..] == a[1..] + b;
      FlattenAppend(a[1..], b);
      calc {
        Flatten(a + b);
        a[0].exercises + Flatten(a[1..] + b);
        a[0].exercises + (Flatten(a[1..]) + Flatten(b));
        { Associative(a[0].exercises, Flatten(a[1..]), Flatten(b)); }
        (a[0].exercises + Flatten(a[1..])) + Flatten(b);
      }
    } else {
      LeftUnit(b);
    }
  }

  lemma FlattenSingle(s: ParsedSession)
    ensures Flatten([s]) == s.exercises
  {
    assert [s][1..] == [];
    RightUnit(s.exercises);
  }

  /** A run of entries contributes its texts, in order, to the entry texts. */
  lemma {:induction false} EntryTextsOfRun(ls: seq<LogLine>, i: nat)
    requires i <= |ls|
    ensures EntryTexts(ls, i) == RunTexts(ls, i) + EntryTexts(ls, i + EntryRun(ls, i))
    decreases |ls| - i
  {
    if i < |ls| && ls[i].Entry? {
      var j := i + EntryRun(ls, i);
      assert j == i + 1 + EntryRun(ls, i + 1);
      EntryTextsOfRun(ls, i + 1);
      calc {
        EntryTexts(ls, i);
        [ls[i].text] + EntryTexts(ls, i + 1);
        [ls[i].text] + (RunTexts(ls, i + 1) + EntryTexts(ls, j));
        { Associative([ls[i].text], RunTexts(ls, i + 1), EntryTexts(ls, j)); }
        ([ls[i].text] + RunTexts(ls, i + 1)) + EntryTexts(ls, j);
        RunTexts(ls, i) + EntryTexts(ls, j);
      }
    } else {
      LeftUnit(EntryTexts(ls, i));
    }
  }

  /** The run ends at a date header or at the end of the log. */
  lemma {:induction false} RunEnd(ls: seq<LogLine>, i: nat)
    requires i <= |ls|
    ensures FirstHeader(ls, i + EntryRun(ls, i)) == i + EntryRun(ls, i)
    decreases |ls| - i
  {
    if i < |ls| && ls[i].Entry? {
      RunEnd(ls, i + 1);
    }
  }

  /** No exercise is lost, duplicated or moved: the sessions' exercises, one
      after the other, are exactly the entries that follow the first date
      header, in log order. Entries before any date header are skipped. */
  lemma {:induction false} SegmentCoversEntries(ls: seq<LogLine>, i: nat, previous: Option<Date>, now: Date)
    requires i <= |ls|
    requires ValidDate(now) && (previous.Some? ==> ValidDate(previous.value))
    ensures Flatten(Segment(ls, i, previous, now)) == EntryTexts(ls, FirstHeader(ls, i))
    decreases |ls| - i, 1
  {
    if i < |ls| {
      if ls[i].Entry? {
        SegmentCoversEntries(ls, i + 1, previous, now);
      } else {
        HeaderTurn(ls, i, previous, now);
        FromHeaderCoversEntries(ls, i, ResolveYear(ls[i].monthDay, previous, now), now);
      }
    }
  }

  lemma {:induction false} FromHeaderCoversEntries(ls: seq<LogLine>, i: nat, date: Date, now: Date)
    requires i < |ls| && ls[i].DateHeader?
    requires ValidDate(now) && ValidDate(date)
    ensures Flatten(FromHeader(ls, i, date, now)) == EntryTexts(ls, i)
    decreases |ls| - i, 0
  {
    var next := i + 1 + EntryRun(ls, i + 1);
    RunEnd(ls, i + 1);
    SegmentCoversEntries(ls, next, Some(date), now);
    FromHeaderThenRest(ls, i, date, now);
  }

  /** Once the rest of the log is known to cover its entries, so does the
      session group of the header at i. */
  lemma FromHeaderThenRest(ls: seq<LogLine>, i: nat, date: Date, now: Date)
    requires i < |ls| && ls[i].DateHeader?
    requires ValidDate(now) && ValidDate(date)
    requires var next := i + 1 + EntryRun(ls, i + 1);
      Flatten(Segment(ls, next, Some(date), now)) == EntryTexts(ls, next)
    ensures Flatten(FromHeader(ls, i, date, now)) == EntryTexts(ls, i)
  {
    var next := i + 1 + EntryRun(ls, i + 1);
    var rest := Flatten(Segment(ls, next, Some(date), now));
    assert Flatten(FromHeader(ls, i, date, now)) == RunTexts(ls, i + 1) + rest by {
      FromHeaderFlatten(ls, i, date, now);
    }
    assert EntryTexts(ls, i + 1) == RunTexts(ls, i + 1) + EntryTexts(ls, next) by {
      EntryTextsOfRun(ls, i + 1);
    }
    assert EntryTexts(ls, i) == EntryTexts(ls, i + 1);
  }

  /** The exercises of the sessions from a date header on: its run, then the
      rest's. */
  lemma FromHeaderFlatten(ls: seq<LogLine>, i: nat, date: Date, now: Date)
    requires i < |ls|
    requires ValidDate(now) && ValidDate(date)
    ensures Flatten(FromHeader(ls, i, date, now))
      == RunTexts(ls, i + 1) + Flatten(Segment(ls, i + 1 + EntryRun(ls, i + 1), Some(date), now))
  {
    var run := RunTexts(ls, i + 1);
    var rest := Segment(ls, i + 1 + EntryRun(ls, i + 1), Some(date), now);
    HeaderStep(ls, i, date, now);
    if |run| > 0 {
      var head := ParsedSession(ToIsoDate(date), run, ls[i].text);
      FlattenAppend([head], rest);
      FlattenSingle(head);
    } else {
      LeftUnit(Flatten(rest));
    }
  }

  /** A run of entries holds no date header. */
  lemma {:induction false} NoHeaderInRun(ls: seq<LogLine>, i: nat)
    requires i <= |ls|
    ensures HeaderCount(ls, i) == HeaderCount(ls, i + EntryRun(ls, i))
    decreases |ls| - i
  {
    if i < |ls| && ls[i].Entry? {
      NoHeaderInRun(ls, i + 1);
    }
  }

  /** At most one session per date header. */
  lemma {:induction false} SegmentAtMostHeaders(ls: seq<LogLine>, i: nat, previous: Option<Date>, now: Date)
    requires i <= |ls|
    requires ValidDate(now) && (previous.Some? ==> ValidDate(previous.value))
    ensures |Segment(ls, i, previous, now)| <= HeaderCount(ls, i)
    decreases |ls| - i, 1
  {
    if i < |ls| {
      if ls[i].Entry? {
        SegmentAtMostHeaders(ls, i + 1, previous, now);
      } else {
        HeaderTurn(ls, i, previous, now);
        FromHeaderAtMostHeaders(ls, i, ResolveYear(ls[i].monthDay, previous, now), now);
      }
    }
  }

  lemma {:induction false} FromHeaderAtMostHeaders(ls: seq<LogLine>, i: nat, date: Date, now: Date)
    requires i < |ls| && ls[i].DateHeader?
    requires ValidDate(now) && ValidDate(date)
    ensures |FromHeader(ls, i, date, now)| <= HeaderCount(ls, i)
    decreases |ls| - i, 0
  {
    HeaderStep(ls, i, date, now);
    SegmentAtMostHeaders(ls, i + 1 + EntryRun(ls, i + 1), Some(date), now);
    NoHeaderInRun(ls, i + 1);
  }

  /** Every text of a run is the text of an entry at or after i. */
  lemma {:induction false} RunTextsAreEntries(ls: seq<LogLine>, i: nat)
    requires i <= |ls|
    ensures forall e :: e in RunTexts(ls, i) ==> exists k :: i <= k < |ls| && ls[k] == Entry(e)
    decreases |ls| - i
  {
    if i < |ls| && ls[i].Entry? {
      RunTextsAreEntries(ls, i + 1);
      assert ls[i] == Entry(ls[i].text);
    }
  }

  /** Every session has at least one exercise, every exercise is the text of
      an entry, and the notes are the text of a date header. */
  lemma {:induction false} SessionsAreWellFormed(ls: seq<LogLine>, i: nat, previous: Option<Date>, now: Date)
    requires i <= |ls|
    requires ValidDate(now) && (previous.Some? ==> ValidDate(previous.value))
    ensures forall s :: s in Segment(ls, i, previous, now) ==> WellFormedFrom(ls, i, s)
    decreases |ls| - i, 1
  {
    if i < |ls| {
      if ls[i].Entry? {
        SessionsAreWellFormed(ls, i + 1, previous, now);
        forall s | s in Segment(ls, i, previous, now) ensures WellFormedFrom(ls, i, s) {
          WellFormedFromEarlier(ls, i, i + 1, s);
        }
      } else {
        HeaderTurn(ls, i, previous, now);
        FromHeaderWellFormed(ls, i, ResolveYear(ls[i].monthDay, previous, now), now);
      }
    }
  }

  lemma {:induction false} FromHeaderWellFormed(ls: seq<LogLine>, i: nat, date: Date, now: Date)
    requires i < |ls| && ls[i].DateHeader?
    requires ValidDate(now) && ValidDate(date)
    ensures forall s :: s in FromHeader(ls, i, date, now) ==> WellFormedFrom(ls, i, s)
    decreases |ls| - i, 0
  {
    SessionsAreWellFormed(ls, i + 1 + EntryRun(ls, i + 1), Some(date), now);
    FromHeaderWellFormedThen(ls, i, date, now);
  }

  /** Once the rest of the log is known to give well-formed sessions, so does
      the header at i. */
  lemma FromHeaderWellFormedThen(ls: seq<LogLine>, i: nat, date: Date, now: Date)
    requires i < |ls| && ls[i].DateHeader?
    requires ValidDate(now) && ValidDate(date)
    requires var next := i + 1 + EntryRun(ls, i + 1);
      forall s :: s in Segment(ls, next, Some(date), now) ==> WellFormedFrom(ls, next, s)
    ensures forall s :: s in FromHeader(ls, i, date, now) ==> WellFormedFrom(ls, i, s)
  {
    var next := i + 1 + EntryRun(ls, i + 1);
    var exercises := RunTexts(ls, i + 1);
    var rest := Segment(ls, next, Some(date), now);
    HeaderStep(ls, i, date, now);
    forall s | s in FromHeader(ls, i, date, now) ensures WellFormedFrom(ls, i, s) {
      if s in rest {
        WellFormedFromEarlier(ls, i, next, s);
      } else {
        assert exercises != [] && s == ParsedSession(ToIsoDate(date), exercises, ls[i].text);
        HeadWellFormed(ls, i, date);
      }
    }
  }

  /** The session a header opens is well formed when its run has an entry. */
  lemma HeadWellFormed(ls: seq<LogLine>, i: nat, date: Date)
    requires i < |ls| && ls[i].DateHeader? && RunTexts(ls, i + 1) != [] && ValidDate(date)
    ensures WellFormedFrom(ls, i, ParsedSession(ToIsoDate(date), RunTexts(ls, i + 1), ls[i].text))
  {
    RunTextsAreEntries(ls, i + 1);
  }

  /** A session with at least one exercise, each the text of an entry at or
      after i, and notes that are the text of a date header at or after i. */
  predicate WellFormedFrom(ls: seq<LogLine>, i: nat, s: ParsedSession) {
    && s.exercises != []
    && (forall e :: e in s.exercises ==> exists k :: i <= k < |ls| && ls[k] == Entry(e))
    && (exists k :: i <= k < |ls| && ls[k].DateHeader? && ls[k].text == s.notesRaw)
  }

  lemma WellFormedFromEarlier(ls: seq<LogLine>, i: nat, j: nat, s: ParsedSession)
    requires i <= j && WellFormedFrom(ls, j, s)
    ensures WellFormedFrom(ls, i, s)
  {
  }

  /** A date header with no entry after it emits nothing, and the date it
      resolves to is still the cursor for the next header. */
  lemma EmptyHeaderStillAnchors(ls: seq<LogLine>, i: nat, previous: Option<Date>, now: Date)
    requires ValidDate(now) && (previous.Some? ==> ValidDate(previous.value))
    requires i + 1 < |ls| && ls[i].DateHeader? && ls[i + 1].DateHeader?
    ensures Segment(ls, i, previous, now) == Segment(ls, i + 1, Some(ResolveYear(ls[i].monthDay, previous, now)), now)
  {
    HeaderTurn(ls, i, previous, now);
    HeaderStep(ls, i, ResolveYear(ls[i].monthDay, previous, now), now);
  }

  /** The session of a date header with entries after it: its date is the
      header's month and day with the year chosen against the cursor, its
      notes are the header's text and its exercises the entries' texts. */
  lemma HeaderSession(ls: seq<LogLine>, i: nat, previous: Option<Date>, now: Date)
    requires ValidDate(now) && (previous.Some? ==> ValidDate(previous.value))
    requires i + 1 < |ls| && ls[i].DateHeader? && ls[i + 1].Entry?
    ensures var date := ResolveYear(ls[i].monthDay, previous, now);
      var r := Segment(ls, i, previous, now);
      && r != []
      && r[0] == ParsedSession(ToIsoDate(date), RunTexts(ls, i + 1), ls[i].text)
      && r[1..] == Segment(ls, i + 1 + EntryRun(ls, i + 1), Some(date), now)
  {
    HeaderTurn(ls, i, previous, now);
    HeaderStep(ls, i, ResolveYear(ls[i].monthDay, previous, now), now);
  }

  /** Without date headers there are no sessions. */
  lemma NoHeadersNoSessions(ls: seq<LogLine>, previous: Option<Date>, now: Date)
    requires ValidDate(now) && (previous.Some? ==> ValidDate(previous.value))
    requires HeaderCount(ls, 0) == 0
    ensures Segment(ls, 0, previous, now) == []
  {
    SegmentAtMostHeaders(ls, 0, previous, now);
  }
}
