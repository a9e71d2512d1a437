/** scripts/review-exercises.ts: a report of the raw exercise lines of the
    legacy sessions. It counts every trimmed line, groups the trimmed lines
    by the canonical name they resolve to at their session's location, and
    lists both tallies as sorted rows. */
module Review {
  import opened Wrappers
  import opened Text
  import opened Sorting
  import opened Normalize
  import opened SessionsRepo

  /** What one raw line contributes: its trimmed text and its canonical name. */
  datatype Entry = Entry(key: string, canonical: string)

  /** What the line `raw` contributes at `location`. */
  function EntryOf(raw: string, location: Location): Entry {
    Entry(Trim(raw), CanonicalNameFor(raw, location))
  }

  /** The entry of each line, in order. */
  function EntriesOf(lines: seq<string>, entry: string -> Entry): (r: seq<Entry>)
    ensures |r| == |lines|
    ensures forall i :: 0 <= i < |r| ==> r[i] == entry(lines[i])
  {
    if lines == [] then []
    else
      var n := |lines| - 1;
      assert forall i :: 0 <= i < n ==> lines[..n][i] == lines[i];
      EntriesOf(lines[..n], entry) + [entry(lines[n])]
  }

  /** The entries of a session's lines, in order, all at the location its
      lines give. */
  function SessionEntries(exercises: seq<string>, location: Location): (r: seq<Entry>)
    ensures |r| == |exercises|
    ensures forall i :: 0 <= i < |r| ==> r[i] == EntryOf(exercises[i], location)
  {
    EntriesOf(exercises, raw => EntryOf(raw, location))
  }

  /** The entries of all sessions, in order. */
  function Entries(sessions: seq<LegacySession>): seq<Entry> {
    if sessions == [] then []
    else
      var last := sessions[|sessions| - 1];
      Entries(sessions[..|sessions| - 1]) + SessionEntries(last.exercises, InferLocation(last.exercises))
  }

  /** The keys of the entries. */
  function Keys(entries: seq<Entry>): (r: seq<string>)
    ensures |r| == |entries|
    ensures forall i :: 0 <= i < |r| ==> r[i] == entries[i].key
  {
    seq(|entries|, i requires 0 <= i < |entries| => entries[i].key)
  }

  // ---------------------------------------------------------------------------
  // The accumulation

  /** `counts` and `grouped` with the order in which their keys were first
      set (the iteration order of a `Map`); a group is a `Set` of keys, kept
      in insertion order. */
  datatype Tally = Tally(counts: map<string, nat>, countOrder: seq<string>,
                         grouped: map<string, seq<string>>, groupOrder: seq<string>)

  /** `counts.get(key) || 0` */
  function CountOf(counts: map<string, nat>, key: string): nat {
    if key in counts then counts[key] else 0
  }

  /** `grouped.get(canonical)`, or a new empty set. */
  function GroupOf(grouped: map<string, seq<string>>, canonical: string): seq<string> {
    if canonical in grouped then grouped[canonical] else []
  }

  /** One turn of the inner loop. */
  function Add(t: Tally, e: Entry): Tally {
    var group := GroupOf(t.grouped, e.canonical);
    Tally(t.counts[e.key := CountOf(t.counts, e.key) + 1],
          if e.key in t.counts then t.countOrder else t.countOrder + [e.key],
          t.grouped[e.canonical := if e.key in group then group else group + [e.key]],
          if e.canonical in t.grouped then t.groupOrder else t.groupOrder + [e.canonical])
  }

  function TallyOf(entries: seq<Entry>): Tally {
    if entries == [] then Tally(map[], [], map[], [])
    else Add(TallyOf(entries[..|entries| - 1]), entries[|entries| - 1])
  }

  lemma EntriesStep(sessions: seq<LegacySession>, k: nat)
    requires k < |sessions|
    ensures Entries(sessions[..k + 1]) ==
      Entries(sessions[..k]) + SessionEntries(sessions[k].exercises, InferLocation(sessions[k].exercises))
  {
    assert sessions[..k + 1][..k] == sessions[..k];
  }

  lemma SessionEntriesStep(exercises: seq<string>, j: nat, location: Location)
    requires j < |exercises|
    ensures SessionEntries(exercises[..j + 1], location) ==
      SessionEntries(exercises[..j], location) + [EntryOf(exercises[j], location)]
  {
    assert exercises[..j + 1][..j] == exercises[..j];
    assert EntriesOf(exercises[..j + 1], raw => EntryOf(raw, location))
      == EntriesOf(exercises[..j], raw => EntryOf(raw, location)) + [EntryOf(exercises[j], location)];
  }

  lemma TallyOfSnoc(done: seq<Entry>, e: Entry)
    ensures TallyOf(done + [e]) == Add(TallyOf(done), e)
  {
    assert (done + [e])[..|done|] == done;
  }

  lemma TallyOfSnocAfter(done: seq<Entry>, added: seq<Entry>, e: Entry)
    ensures TallyOf(done + (added + [e])) == Add(TallyOf(done + added), e)
  {
    assert done + (added + [e]) == (done + added) + [e];
    TallyOfSnoc(done + added, e);
  }

  /** The body of the inner loop: count the trimmed line and file it under
      its canonical name. */
  method AddLine(counts: map<string, nat>, countOrder: seq<string>,
                 grouped: map<string, seq<string>>, groupOrder: seq<string>, key: string, canonical: string)
    returns (counts': map<string, nat>, countOrder': seq<string>,
             grouped': map<string, seq<string>>, groupOrder': seq<string>)
    ensures Tally(counts', countOrder', grouped', groupOrder') ==
      Add(Tally(counts, countOrder, grouped, groupOrder), Entry(key, canonical))
  {
    countOrder' := countOrder;
    if key !in counts {
      countOrder' := countOrder + [key];
    }
    counts' := counts[key := CountOf(counts, key) + 1];
    grouped' := grouped;
    groupOrder' := groupOrder;
    if canonical !in grouped' {
      grouped' := grouped'[canonical := []];
      groupOrder' := groupOrder' + [canonical];
    }
    if key !in grouped'[canonical] {
      grouped' := grouped'[canonical := grouped'[canonical] + [key]];
    }
  }

  /** The inner loop of `run`: every line of one session, at the location
      inferred from all its lines. */
  method AddSession(counts: map<string, nat>, countOrder: seq<string>,
                    grouped: map<string, seq<string>>, groupOrder: seq<string>,
                    ghost done: seq<Entry>, exercises: seq<string>, location: Location)
    returns (counts': map<string, nat>, countOrder': seq<string>,
             grouped': map<string, seq<string>>, groupOrder': seq<string>)
    requires Tally(counts, countOrder, grouped, groupOrder) == TallyOf(done)
    ensures Tally(counts', countOrder', grouped', groupOrder') == TallyOf(done + SessionEntries(exercises, location))
  {
    counts', countOrder', grouped', groupOrder' := counts, countOrder, grouped, groupOrder;
    ghost var tally := TallyOf(done);
    ghost var added: seq<Entry> := [];
    assert done + added == done;
    var j := 0;
    while j < |exercises|
      invariant 0 <= j <= |exercises|
      invariant added == SessionEntries(exercises[..j], location)
      invariant tally == TallyOf(done + added)
      invariant Tally(counts', countOrder', grouped', groupOrder') == tally
    {
      var e := EntryOf(exercises[j], location);
      SessionEntriesStep(exercises, j, location);
      TallyOfSnocAfter(done, added, e);
      counts', countOrder', grouped', groupOrder' :=
        AddLine(counts', countOrder', grouped', groupOrder', e.key, e.canonical);
      tally := Add(tally, e);
      added := added + [e];
      j := j + 1;
    }
    assert exercises[..j] == exercises;
  }

  /** The nested loops of `run` over the sessions and their lines. */
  method Accumulate(sessions: seq<LegacySession>) returns (t: Tally)
    ensures t == TallyOf(Entries(sessions))
  {
    var counts: map<string, nat> := map[];
    var countOrder: seq<string> := [];
    var grouped: map<string, seq<string>> := map[];
    var groupOrder: seq<string> := [];
    var k := 0;
    while k < |sessions|
      invariant 0 <= k <= |sessions|
      invariant Tally(counts, countOrder, grouped, groupOrder) == TallyOf(Entries(sessions[..k]))
    {
      EntriesStep(sessions, k);
      var exercises := sessions[k].exercises;
      counts, countOrder, grouped, groupOrder :=
        AddSession(counts, countOrder, grouped, groupOrder, Entries(sessions[..k]), exercises, InferLocation(exercises));
      k := k + 1;
    }
    assert sessions[..k] == sessions;
    t := Tally(counts, countOrder, grouped, groupOrder);
  }

  // ---------------------------------------------------------------------------
  // What the tally holds

  /** `counts[k]` is the number of lines whose trimmed text is `k`; the keys
      are listed once each, and they are exactly the trimmed lines. */
  lemma {:induction false} TallyCounts(entries: seq<Entry>)
    ensures var t := TallyOf(entries);
      && (forall k :: CountOf(t.counts, k) == multiset(Keys(entries))[k])
      && Distinct(t.countOrder)
      && (forall k :: k in t.countOrder <==> k in t.counts)
      && (forall k :: k in t.counts <==> k in Keys(entries))
  {
    if entries != [] {
      var front := entries[..|entries| - 1];
      var e := entries[|entries| - 1];
      TallyCounts(front);
      assert Keys(entries) == Keys(front) + [e.key];
      assert multiset(Keys(entries)) == multiset(Keys(front)) + multiset{e.key};
    }
  }

  /** The key of the first entry with the canonical name. */
  function FirstKey(entries: seq<Entry>, canonical: string): Option<string> {
    if entries == [] then None
    else
      var earlier := FirstKey(entries[..|entries| - 1], canonical);
      var e := entries[|entries| - 1];
      if earlier.Some? then earlier
      else if e.canonical == canonical then Some(e.key)
      else None
  }

  /** The groups are listed once each and are exactly the canonical names of
      the entries; a group holds each key of its entries once, starting with
      the key of its first entry. */
  lemma {:induction false} TallyGroups(entries: seq<Entry>)
    ensures var t := TallyOf(entries);
      && Distinct(t.groupOrder)
      && (forall c :: c in t.groupOrder <==> c in t.grouped)
      && (forall c :: c in t.grouped <==> FirstKey(entries, c).Some?)
      && (forall c :: c in t.grouped ==>
            && Distinct(t.grouped[c])
            && t.grouped[c] != [] && t.grouped[c][0] == FirstKey(entries, c).value
            && (forall k :: k in t.grouped[c] <==> Entry(k, c) in entries))
  {
    if entries != [] {
      var front := entries[..|entries| - 1];
      var e := entries[|entries| - 1];
      TallyGroups(front);
      var prev := TallyOf(front);
      var t := TallyOf(entries);
      assert forall x :: x in entries <==> x in front || x == e;
      forall c | c in t.grouped
        ensures && Distinct(t.grouped[c])
                && t.grouped[c] != [] && t.grouped[c][0] == FirstKey(entries, c).value
                && (forall k :: k in t.grouped[c] <==> Entry(k, c) in entries)
      {
        if c == e.canonical && c !in prev.grouped {
          assert t.grouped[c] == [e.key];
          forall k | Entry(k, c) in front ensures FirstKey(front, c).Some? {
            FirstKeyOfMember(front, Entry(k, c));
          }
        }
      }
    }
  }

  /** Every entry's canonical name has a group. */
  lemma FirstKeyOfMember(entries: seq<Entry>, e: Entry)
    requires e in entries
    ensures FirstKey(entries, e.canonical).Some?
  {
    var i :| 0 <= i < |entries| && entries[i] == e;
    FirstKeyAt(entries, i);
  }

  lemma {:induction false} FirstKeyAt(entries: seq<Entry>, i: nat)
    requires i < |entries|
    ensures FirstKey(entries, entries[i].canonical).Some?
  {
    var front := entries[..|entries| - 1];
    if i < |front| {
      assert front[i] == entries[i];
      FirstKeyAt(front, i);
    }
  }

  // ---------------------------------------------------------------------------
  // The rows of the report

  datatype RawRow = RawRow(name: string, count: nat)

  /** `b[1] - a[1] || a[0].localeCompare(b[0])`: higher count first, then name. */
  predicate RawBefore(a: RawRow, b: RawRow) {
    if a.count != b.count then a.count > b.count else !StrLess(b.name, a.name)
  }

  lemma RawBeforeIsTotalPreorder()
    ensures TotalPreorder(RawBefore)
  {
    forall a: RawRow, b: RawRow ensures RawBefore(a, b) || RawBefore(b, a) {
      if StrLess(a.name, b.name) { StrLessAsymmetric(a.name, b.name); }
    }
    forall a: RawRow, b: RawRow, c: RawRow | RawBefore(a, b) && RawBefore(b, c) ensures RawBefore(a, c) {
      if a.count == b.count == c.count {
        StrNotLessTransitive(a.name, b.name, c.name);
      }
    }
  }

  /** `a.localeCompare(b)` as a "may come before" relation. */
  predicate NameOrder(a: string, b: string) {
    !StrLess(b, a)
  }

  lemma NameOrderIsTotalPreorder()
    ensures TotalPreorder(NameOrder)
  {
    forall a: string, b: string ensures NameOrder(a, b) || NameOrder(b, a) {
      if StrLess(a, b) { StrLessAsymmetric(a, b); }
    }
    forall a: string, b: string, c: string | NameOrder(a, b) && NameOrder(b, c) ensures NameOrder(a, c) {
      StrNotLessTransitive(a, b, c);
    }
  }

  datatype GroupRow = GroupRow(canonical: string, aliases: seq<string>, normalizedKeySample: string)

  /** `normalizeExerciseAlias([...aliases][0] || canonical)`: the first key in
      insertion order, or the canonical name when that is empty. */
  function Sample(group: seq<string>, canonical: string): string {
    NormalizeAlias(if group != [] && group[0] != [] then group[0] else canonical)
  }

  predicate GroupBefore(a: GroupRow, b: GroupRow) {
    NameOrder(a.canonical, b.canonical)
  }

  lemma GroupBeforeIsTotalPreorder()
    ensures TotalPreorder(GroupBefore)
  {
    NameOrderIsTotalPreorder();
  }

  /** The raw rows in map order. */
  function RawRowsOf(t: Tally): (r: seq<RawRow>)
    requires forall k :: k in t.countOrder ==> k in t.counts
    ensures |r| == |t.countOrder|
    ensures forall i :: 0 <= i < |r| ==> r[i] == RawRow(t.countOrder[i], t.counts[t.countOrder[i]])
  {
    seq(|t.countOrder|, i requires 0 <= i < |t.countOrder| => RawRow(t.countOrder[i], t.counts[t.countOrder[i]]))
  }

  /** The group rows in map order, each with its keys sorted. */
  function GroupRowsOf(t: Tally): (r: seq<GroupRow>)
    requires forall c :: c in t.groupOrder ==> c in t.grouped
    ensures |r| == |t.groupOrder|
    ensures forall i :: 0 <= i < |r| ==>
      var c := t.groupOrder[i];
      r[i] == GroupRow(c, SortedNames(t.grouped[c]), Sample(t.grouped[c], c))
  {
    seq(|t.groupOrder|, i requires 0 <= i < |t.groupOrder| =>
      var c := t.groupOrder[i];
      GroupRow(c, SortedNames(t.grouped[c]), Sample(t.grouped[c], c)))
  }

  /** `[...aliases].sort((a, b) => a.localeCompare(b))` */
  function SortedNames(xs: seq<string>): (r: seq<string>)
    ensures multiset(r) == multiset(xs)
    ensures forall i, j :: 0 <= i < j < |r| ==> !StrLess(r[j], r[i])
  {
    NameOrderIsTotalPreorder();
    var r := SortBy(xs, NameOrder);
    assert forall i, j :: 0 <= i < j < |r| ==> NameOrder(r[i], r[j]);
    r
  }

  /** `rawRows`: higher counts first, equal counts by name. */
  function RawRows(t: Tally): (rows: seq<RawRow>)
    requires forall k :: k in t.countOrder ==> k in t.counts
    ensures multiset(rows) == multiset(RawRowsOf(t))
    ensures forall i, j :: 0 <= i < j < |rows| ==> rows[i].count >= rows[j].count
    ensures forall i, j :: 0 <= i < j < |rows| && rows[i].count == rows[j].count ==>
      !StrLess(rows[j].name, rows[i].name)
  {
    RawBeforeIsTotalPreorder();
    var rows := SortBy(RawRowsOf(t), RawBefore);
    assert forall i, j :: 0 <= i < j < |rows| ==> RawBefore(rows[i], rows[j]);
    rows
  }

  /** `normalizedRows`: by canonical name. */
  function GroupRows(t: Tally): (rows: seq<GroupRow>)
    requires forall c :: c in t.groupOrder ==> c in t.grouped
    ensures multiset(rows) == multiset(GroupRowsOf(t))
    ensures forall i, j :: 0 <= i < j < |rows| ==> !StrLess(rows[j].canonical, rows[i].canonical)
  {
    GroupBeforeIsTotalPreorder();
    var rows := SortBy(GroupRowsOf(t), GroupBefore);
    assert forall i, j :: 0 <= i < j < |rows| ==> GroupBefore(rows[i], rows[j]);
    rows
  }

  /** The report, less its time stamp and user. */
  datatype Report = Report(sessions: nat, uniqueRawExercises: nat, uniqueCanonicalExercises: nat,
                           raw: seq<RawRow>, canonicalGroups: seq<GroupRow>)

  function ReportOf(sessions: seq<LegacySession>): Report {
    var t := TallyOf(Entries(sessions));
    TallyCounts(Entries(sessions));
    TallyGroups(Entries(sessions));
    var raw := RawRows(t);
    var groups := GroupRows(t);
    Report(|sessions|, |raw|, |groups|, raw, groups)
  }

  /** `run` up to writing the file. */
  method Run(sessions: seq<LegacySession>) returns (report: Report)
    ensures report == ReportOf(sessions)
  {
    var t := Accumulate(sessions);
    TallyCounts(Entries(sessions));
    TallyGroups(Entries(sessions));
    var raw := RawRows(t);
    var groups := GroupRows(t);
    report := Report(|sessions|, |raw|, |groups|, raw, groups);
  }

  // ---------------------------------------------------------------------------
  // What the report says

  /** A list of distinct strings has as many elements as its set. */
  lemma DistinctListSize(order: seq<string>, members: set<string>)
    requires Distinct(order) && forall k :: k in order <==> k in members
    ensures |order| == |members|
  {
    DistinctCardinality(order);
    assert (set k | k in order) == members;
  }

  /** The trimmed lines are the keys of the entries. */
  lemma KeysAreEntryKeys(entries: seq<Entry>)
    ensures forall k :: k in Keys(entries) <==> k in (set e | e in entries :: e.key)
  {
    forall k ensures k in Keys(entries) <==> k in (set e | e in entries :: e.key) {
      if k in Keys(entries) {
        var i :| 0 <= i < |Keys(entries)| && Keys(entries)[i] == k;
        assert entries[i] in entries;
      }
      if k in (set e | e in entries :: e.key) {
        var e :| e in entries && e.key == k;
        var i :| 0 <= i < |entries| && entries[i] == e;
        assert Keys(entries)[i] == k;
      }
    }
  }

  /** The groups are the canonical names of the entries. */
  lemma GroupsAreEntryCanonicals(entries: seq<Entry>)
    ensures forall c :: c in TallyOf(entries).groupOrder <==> c in (set e | e in entries :: e.canonical)
  {
    var t := TallyOf(entries);
    TallyGroups(entries);
    forall c ensures c in t.groupOrder <==> c in (set e | e in entries :: e.canonical) {
      if c in t.groupOrder {
        assert Entry(t.grouped[c][0], c) in entries;
      }
      if c in (set e | e in entries :: e.canonical) {
        var e :| e in entries && e.canonical == c;
        FirstKeyOfMember(entries, e);
      }
    }
  }

  /** `uniqueRawExercises` is the number of distinct trimmed lines and
      `uniqueCanonicalExercises` the number of distinct canonical names. */
  lemma ReportUniqueCounts(sessions: seq<LegacySession>)
    ensures var r := ReportOf(sessions);
      var entries := Entries(sessions);
      && r.uniqueRawExercises == |set e | e in entries :: e.key|
      && r.uniqueCanonicalExercises == |set e | e in entries :: e.canonical|
  {
    var entries := Entries(sessions);
    var t := TallyOf(entries);
    TallyCounts(entries);
    TallyGroups(entries);
    var raw := RawRows(t);
    var groups := GroupRows(t);
    assert ReportOf(sessions) == Report(|sessions|, |raw|, |groups|, raw, groups);
    assert |raw| == |RawRowsOf(t)| by {
      assert |multiset(raw)| == |multiset(RawRowsOf(t))|;
    }
    assert |groups| == |GroupRowsOf(t)| by {
      assert |multiset(groups)| == |multiset(GroupRowsOf(t))|;
    }
    KeysAreEntryKeys(entries);
    DistinctListSize(t.countOrder, set e | e in entries :: e.key);
    GroupsAreEntryCanonicals(entries);
    DistinctListSize(t.groupOrder, set e | e in entries :: e.canonical);
  }

  /** The sorted raw rows of a tally: one per key, with its count. */
  lemma RawRowsContent(t: Tally, keys: seq<string>)
    requires forall k :: k in t.countOrder <==> k in t.counts
    requires forall k :: k in t.counts <==> k in keys
    requires forall k :: CountOf(t.counts, k) == multiset(keys)[k]
    ensures var rows := RawRows(t);
      && (forall i :: 0 <= i < |rows| ==> rows[i].count == multiset(keys)[rows[i].name] && rows[i].name in keys)
      && (forall k :: k in keys ==> exists i :: 0 <= i < |rows| && rows[i].name == k)
  {
    var unsorted := RawRowsOf(t);
    var rows := RawRows(t);
    forall i | 0 <= i < |rows| ensures rows[i].count == multiset(keys)[rows[i].name] && rows[i].name in keys {
      assert rows[i] in multiset(unsorted);
      var p :| 0 <= p < |unsorted| && unsorted[p] == rows[i];
      assert CountOf(t.counts, t.countOrder[p]) == t.counts[t.countOrder[p]];
    }
    forall k | k in keys ensures exists i :: 0 <= i < |rows| && rows[i].name == k {
      var p :| 0 <= p < |t.countOrder| && t.countOrder[p] == k;
      assert unsorted[p] in multiset(rows);
      var i :| 0 <= i < |rows| && rows[i] == unsorted[p];
    }
  }

  /** The raw rows are the distinct trimmed lines, each with the number of
      lines that trim to it. */
  lemma ReportRawRows(sessions: seq<LegacySession>)
    ensures var rows := ReportOf(sessions).raw;
      var keys := Keys(Entries(sessions));
      && (forall i :: 0 <= i < |rows| ==> rows[i].count == multiset(keys)[rows[i].name] && rows[i].name in keys)
      && (forall k :: k in keys ==> exists i :: 0 <= i < |rows| && rows[i].name == k)
  {
    var entries := Entries(sessions);
    var t := TallyOf(entries);
    TallyCounts(entries);
    TallyGroups(entries);
    assert ReportOf(sessions).raw == RawRows(t);
    RawRowsContent(t, Keys(entries));
  }

  /** Each group row lists its keys sorted, exactly the trimmed lines that
      resolve to its canonical name, and takes its sample from the first such
      line in encounter order, not from the sorted list. */
  lemma ReportGroupRow(sessions: seq<LegacySession>, i: nat)
    requires i < |ReportOf(sessions).canonicalGroups|
    ensures var row := ReportOf(sessions).canonicalGroups[i];
      var entries := Entries(sessions);
      var first := FirstKey(entries, row.canonical);
      && first.Some?
      && (forall a, b :: 0 <= a < b < |row.aliases| ==> !StrLess(row.aliases[b], row.aliases[a]))
      && (forall k :: k in row.aliases <==> Entry(k, row.canonical) in entries)
      && row.normalizedKeySample == NormalizeAlias(if first.value != [] then first.value else row.canonical)
  {
    var entries := Entries(sessions);
    var t := TallyOf(entries);
    TallyGroups(entries);
    var unsorted := GroupRowsOf(t);
    var rows := GroupRows(t);
    assert ReportOf(sessions).canonicalGroups == rows;
    assert rows[i] in multiset(unsorted);
    var p :| 0 <= p < |unsorted| && unsorted[p] == rows[i];
    var c := t.groupOrder[p];
    var group := t.grouped[c];
    assert rows[i].aliases == SortedNames(group);
    forall k ensures k in rows[i].aliases <==> k in group {
      assert k in rows[i].aliases <==> k in multiset(rows[i].aliases);
      assert k in group <==> k in multiset(group);
    }
  }
}
