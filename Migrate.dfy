/** scripts/migrate-v1-to-v2.ts: every legacy session becomes one v2 session.
    Its location is inferred from all its lines, each line is resolved to an
    exercise record through `ensureExercise`, and the ids are kept once each,
    in first-seen order. A thrown error ends the script; here it ends the
    loop and is returned. */
module Migrate {
  import opened Wrappers
  import opened Text
  import opened Normalize
  import opened SessionsRepo

  /** The arguments of the `ensureExercise` call for one raw line. */
  datatype LineCall = LineCall(name: string, alias: string, preferredId: string)

  /** The canonical name for the session's location, the line without its
      location prefix as alias and the canonical id as preferred id. */
  function CallFor(raw: string, location: Location): LineCall {
    LineCall(CanonicalNameFor(raw, location), StripLocationPrefix(raw), CanonicalIdFor(raw, location))
  }

  /** The calls for the lines of a session, in order. */
  function CallsFor(exercises: seq<string>, location: Location): (r: seq<LineCall>)
    ensures |r| == |exercises|
    ensures forall k :: 0 <= k < |r| ==> r[k] == CallFor(exercises[k], location)
  {
    seq(|exercises|, k requires 0 <= k < |exercises| => CallFor(exercises[k], location))
  }

  /** An `ensureExercise` call as a step on the table; the table is always
      well formed where it is taken (`ExerciseTable.Valid`). */
  ghost function EnsureStep(now: string, stamp: string): (Table, LineCall) -> Outcome {
    (t: Table, c: LineCall) =>
      if WellFormed(t) then Ensure(t, c.name, Some(c.alias), Some(c.preferredId), now, stamp)
      else Outcome(t, Err(NameRequired))
  }

  /** A step keeps the table well formed, removes no record, and stores the
      record it returns. */
  ghost predicate KeepsTable(step: (Table, LineCall) -> Outcome) {
    forall t, c :: WellFormed(t) ==>
      && WellFormed(step(t, c).table)
      && t.records.Keys <= step(t, c).table.records.Keys
      && (step(t, c).result.Ok? ==> step(t, c).result.value.exerciseId in step(t, c).table.records)
  }

  lemma EnsureStepKeepsTable(now: string, stamp: string)
    ensures KeepsTable(EnsureStep(now, stamp))
  {
  }

  /** The table after some calls, the id each call returned, and the error
      of the call that threw, if one did. */
  datatype Resolution = Resolution(table: Table, returned: seq<string>, failure: Option<string>)

  /** The calls made one after the other, each seeing the table the calls
      before it left; the first error ends the resolution. */
  ghost function ResolveOf(t: Table, calls: seq<LineCall>, step: (Table, LineCall) -> Outcome): (r: Resolution)
    ensures r.failure.None? ==> |r.returned| == |calls|
    ensures r.failure.Some? ==> |r.returned| < |calls|
    ensures KeepsTable(step) && WellFormed(t) ==>
      && WellFormed(r.table) && t.records.Keys <= r.table.records.Keys
      && forall id :: id in r.returned ==> id in r.table.records
    decreases |calls|
  {
    if calls == [] then Resolution(t, [], None)
    else
      var o := step(t, calls[0]);
      if o.result.Err? then Resolution(o.table, [], Some(o.result.message))
      else
        var rest := ResolveOf(o.table, calls[1..], step);
        Resolution(rest.table, [o.result.value.exerciseId] + rest.returned, rest.failure)
  }

  /** Call k, when it was made, returned the record whose id is the k-th
      returned id, on the table the calls 0..k-1 left; none of those threw. */
  lemma {:induction false} ResolvedAt(t: Table, calls: seq<LineCall>, step: (Table, LineCall) -> Outcome, k: nat)
    requires k < |ResolveOf(t, calls, step).returned|
    ensures var r := ResolveOf(t, calls, step);
      var p := ResolveOf(t, calls[..k], step);
      var o := step(p.table, calls[k]);
      && p.failure.None? && p.returned == r.returned[..k]
      && o.result.Ok? && r.returned[k] == o.result.value.exerciseId
    decreases k
  {
    var o0 := step(t, calls[0]);
    if k > 0 {
      var tail := calls[1..];
      ResolvedAt(o0.table, tail, step, k - 1);
      assert calls[..k][0] == calls[0] && calls[..k][1..] == tail[..k - 1];
      assert tail[k - 1] == calls[k];
    } else {
      assert calls[..0] == [];
    }
  }

  /** A resolution that failed stopped at the first call that threw: the
      calls before it succeeded, and the table is the one that call left. */
  lemma {:induction false} ResolveFailure(t: Table, calls: seq<LineCall>, step: (Table, LineCall) -> Outcome)
    requires ResolveOf(t, calls, step).failure.Some?
    ensures var r := ResolveOf(t, calls, step);
      var n := |r.returned|;
      var p := ResolveOf(t, calls[..n], step);
      var o := step(p.table, calls[n]);
      && p.failure.None? && p.returned == r.returned
      && o.result.Err? && r.failure == Some(o.result.message) && r.table == o.table
    decreases |calls|
  {
    var r := ResolveOf(t, calls, step);
    var o0 := step(t, calls[0]);
    if o0.result.Ok? {
      var tail := calls[1..];
      ResolveFailure(o0.table, tail, step);
      var n := |r.returned|;
      assert calls[..n][0] == calls[0] && calls[..n][1..] == tail[..n - 1];
      assert tail[n - 1] == calls[n];
    } else {
      assert calls[..0] == [];
    }
  }

  /** The call returned the record with the id, and left the table `next`. */
  predicate StepOk(o: Outcome, next: Table, id: string) {
    o.result.Ok? && o.result.value.exerciseId == id && o.table == next
  }

  /** A run of calls as the loop makes them: call j, on table `tables[j]`,
      returned the id `returned[j]` and left `tables[j + 1]`. */
  ghost predicate Traced(tables: seq<Table>, calls: seq<LineCall>, returned: seq<string>,
                         step: (Table, LineCall) -> Outcome)
  {
    && |tables| == |returned| + 1 && |returned| <= |calls|
    && forall j :: 0 <= j < |returned| ==> StepOk(step(tables[j], calls[j]), tables[j + 1], returned[j])
  }

  /** One more call that returned an id extends the trace. */
  lemma TracedSnoc(tables: seq<Table>, calls: seq<LineCall>, returned: seq<string>,
                   step: (Table, LineCall) -> Outcome, next: Table, id: string)
    requires Traced(tables, calls, returned, step) && |returned| < |calls|
    requires StepOk(step(tables[|returned|], calls[|returned|]), next, id)
    ensures Traced(tables + [next], calls, returned + [id], step)
  {
    var tables', returned' := tables + [next], returned + [id];
    forall j | 0 <= j < |returned'|
      ensures StepOk(step(tables'[j], calls[j]), tables'[j + 1], returned'[j])
    {
      if j < |returned| {
        assert tables'[j] == tables[j] && tables'[j + 1] == tables[j + 1] && returned'[j] == returned[j];
      }
    }
  }

  /** A trace of every call, or of the calls up to one that threw, is the
      resolution of the calls. */
  lemma {:induction false} TracedResolves(tables: seq<Table>, calls: seq<LineCall>, returned: seq<string>,
                                          step: (Table, LineCall) -> Outcome)
    requires Traced(tables, calls, returned, step)
    ensures |returned| == |calls| ==>
      ResolveOf(tables[0], calls, step) == Resolution(tables[|returned|], returned, None)
    ensures |returned| < |calls| && step(tables[|returned|], calls[|returned|]).result.Err? ==>
      var o := step(tables[|returned|], calls[|returned|]);
      ResolveOf(tables[0], calls, step) == Resolution(o.table, returned, Some(o.result.message))
    decreases |returned|
  {
    if returned != [] {
      assert Traced(tables[1..], calls[1..], returned[1..], step) by {
        forall j | 0 <= j < |returned| - 1
          ensures StepOk(step(tables[1..][j], calls[1..][j]), tables[1..][j + 1], returned[1..][j])
        {
          assert StepOk(step(tables[j + 1], calls[j + 1]), tables[j + 2], returned[j + 1]);
        }
      }
      TracedResolves(tables[1..], calls[1..], returned[1..], step);
      assert StepOk(step(tables[0], calls[0]), tables[1], returned[0]);
      assert returned == [returned[0]] + returned[1..];
    }
  }

  /** The inner loop: one `ensureExercise` per call; a returned id is kept
      unless it was seen. `returned` lists every id `ensureExercise` gave and
      `tables` the table each call saw: the calls ran in order, each on the
      table the one before left, until one threw. */
  method ResolveCalls(table: ExerciseTable, calls: seq<LineCall>, now: string, stamp: string)
    returns (ids: seq<string>, ghost returned: seq<string>, failure: Option<string>, ghost tables: seq<Table>)
    requires table.Valid()
    modifies table
    ensures table.Valid()
    ensures Traced(tables, calls, returned, EnsureStep(now, stamp)) && tables[0] == old(table.State())
    ensures failure.None? ==> |returned| == |calls| && tables[|returned|] == table.State()
    ensures failure.Some? ==> (
      && |returned| < |calls|
      && var o := EnsureStep(now, stamp)(tables[|returned|], calls[|returned|]);
      && o.result.Err? && failure == Some(o.result.message) && o.table == table.State())
    ensures ids == Uniq(returned)
    ensures old(table.records).Keys <= table.records.Keys
    ensures forall id :: id in ids ==> id in table.records
  {
    ids := [];
    returned := [];
    failure := None;
    tables := [table.State()];
    var seen: set<string> := {};
    var k := 0;
    while k < |calls|
      invariant 0 <= k <= |calls| && |returned| == k
      invariant table.Valid()
      invariant ids == Uniq(returned)
      invariant forall id :: id in seen <==> id in ids
      invariant old(table.records).Keys <= table.records.Keys
      invariant forall id :: id in ids ==> id in table.records
      invariant Traced(tables, calls, returned, EnsureStep(now, stamp))
      invariant tables[0] == old(table.State()) && tables[k] == table.State()
    {
      var call := calls[k];
      ghost var before := table.State();
      var r := table.EnsureExercise(call.name, Some(call.alias), Some(call.preferredId), now, stamp);
      assert EnsureStep(now, stamp)(before, calls[k]) == Outcome(table.State(), r);
      if r.Err? {
        return ids, returned, Some(r.message), tables;
      }
      var id := r.value.exerciseId;
      UniqSnoc(returned, id);
      if id !in seen {
        seen := seen + {id};
        ids := ids + [id];
      }
      TracedSnoc(tables, calls, returned, EnsureStep(now, stamp), table.State(), id);
      returned := returned + [id];
      tables := tables + [table.State()];
      k := k + 1;
    }
  }

  /** The lines of one legacy session, each resolved through the call for
      the session's location. */
  method ResolveExercises(table: ExerciseTable, exercises: seq<string>, location: Location,
                          now: string, stamp: string)
    returns (ids: seq<string>, ghost returned: seq<string>, failure: Option<string>)
    requires table.Valid()
    modifies table
    ensures table.Valid()
    ensures Resolution(table.State(), returned, failure) == ResolveOf(old(table.State()), CallsFor(exercises, location), EnsureStep(now, stamp))
    ensures ids == Uniq(returned)
    ensures old(table.records).Keys <= table.records.Keys
    ensures failure.None? ==> |returned| == |exercises|
    ensures forall id :: id in ids ==> id in table.records
  {
    ghost var tables;
    ids, returned, failure, tables := ResolveCalls(table, CallsFor(exercises, location), now, stamp);
    TracedResolves(tables, CallsFor(exercises, location), returned, EnsureStep(now, stamp));
  }

  /** What `run` writes for a legacy session: the same user-given date and
      notes, the inferred location, no start time, and item ids that are
      distinct, no more than the raw lines, and all in the table. */
  ghost predicate MigratedFrom(s: SessionV2, legacy: LegacySession, userId: string, sessionId: string,
                               keys: set<string>)
  {
    var ids := ItemIds(s.exerciseItems);
    && s.userId == userId && s.sessionId == sessionId
    && s.sessionDate == legacy.sessionDate && s.notesRaw == legacy.notesRaw
    && s.locationId == LocationIdOf(InferLocation(legacy.exercises))
    && s.sessionSortKey == legacy.sessionDate + "T00:00"
    && Distinct(ids) && |ids| <= |legacy.exercises|
    && (forall id :: id in ids ==> id in keys)
  }

  lemma MigratedFromGrows(s: SessionV2, legacy: LegacySession, userId: string, sessionId: string,
                          keys: set<string>, keys': set<string>)
    requires MigratedFrom(s, legacy, userId, sessionId, keys) && keys <= keys'
    ensures MigratedFrom(s, legacy, userId, sessionId, keys')
  {
  }

  /** How session k was migrated: starting from table `before`, its lines
      resolved without error to the table `after`, and the session written
      holds the distinct resolved ids, in first-seen order. */
  ghost predicate SessionResolved(s: SessionV2, legacy: LegacySession, before: Table, after: Table,
                                  now: string, stamp: string)
  {
    && WellFormed(before)
    && var r := ResolveOf(before, CallsFor(legacy.exercises, InferLocation(legacy.exercises)), EnsureStep(now, stamp));
    && r.failure.None? && r.table == after
    && ItemIds(s.exerciseItems) == Uniq(r.returned)
  }

  /** Session k as `run` leaves it: written from its legacy session, with
      ids in the table `after`, and resolved from `before` to `after`. */
  ghost predicate SessionMigrated(s: SessionV2, legacy: LegacySession, userId: string, sessionId: string,
                                  before: Table, after: Table, now: string, stamp: string)
  {
    && MigratedFrom(s, legacy, userId, sessionId, after.records.Keys)
    && SessionResolved(s, legacy, before, after, now, stamp)
  }

  /** Every session written so far was migrated, session k from table
      `tables[k]` to `tables[k + 1]`. */
  ghost predicate AllMigrated(written: seq<SessionV2>, sessions: seq<LegacySession>, userId: string,
                              sessionIds: seq<string>, tables: seq<Table>, now: string, stamp: string)
  {
    && |written| <= |sessions| && |sessionIds| == |sessions| && |tables| == |written| + 1
    && forall k :: 0 <= k < |written| ==>
         SessionMigrated(written[k], sessions[k], userId, sessionIds[k], tables[k], tables[k + 1], now, stamp)
  }

  lemma AllMigratedSnoc(written: seq<SessionV2>, sessions: seq<LegacySession>, userId: string,
                        sessionIds: seq<string>, tables: seq<Table>, now: string, stamp: string,
                        item: SessionV2, next: Table)
    requires AllMigrated(written, sessions, userId, sessionIds, tables, now, stamp) && |written| < |sessions|
    requires var k := |written|;
      SessionMigrated(item, sessions[k], userId, sessionIds[k], tables[k], next, now, stamp)
    ensures AllMigrated(written + [item], sessions, userId, sessionIds, tables + [next], now, stamp)
  {
    var written', tables' := written + [item], tables + [next];
    forall k | 0 <= k < |written'|
      ensures SessionMigrated(written'[k], sessions[k], userId, sessionIds[k], tables'[k], tables'[k + 1], now, stamp)
    {
      if k < |written| {
        assert written'[k] == written[k] && tables'[k] == tables[k] && tables'[k + 1] == tables[k + 1];
      }
    }
  }

  /** No migrated session removes a record: the table only grows from
      session to session. */
  lemma {:induction false} TablesGrow(written: seq<SessionV2>, sessions: seq<LegacySession>, userId: string,
                                      sessionIds: seq<string>, tables: seq<Table>, now: string, stamp: string, j: nat)
    requires AllMigrated(written, sessions, userId, sessionIds, tables, now, stamp) && j < |tables|
    ensures tables[j].records.Keys <= tables[|tables| - 1].records.Keys
    decreases |tables| - j
  {
    if j < |tables| - 1 {
      assert SessionMigrated(written[j], sessions[j], userId, sessionIds[j], tables[j], tables[j + 1], now, stamp);
      EnsureStepKeepsTable(now, stamp);
      TablesGrow(written, sessions, userId, sessionIds, tables, now, stamp, j + 1);
    }
  }

  /** Every id a migrated session refers to is in the table the last
      migrated session left. */
  lemma MigratedIdsKept(written: seq<SessionV2>, sessions: seq<LegacySession>, userId: string,
                        sessionIds: seq<string>, tables: seq<Table>, now: string, stamp: string)
    requires AllMigrated(written, sessions, userId, sessionIds, tables, now, stamp)
    ensures forall k, id :: 0 <= k < |written| && id in ItemIds(written[k].exerciseItems) ==>
      id in tables[|tables| - 1].records
  {
    forall k, id | 0 <= k < |written| && id in ItemIds(written[k].exerciseItems)
      ensures id in tables[|tables| - 1].records
    {
      assert SessionMigrated(written[k], sessions[k], userId, sessionIds[k], tables[k], tables[k + 1], now, stamp);
      TablesGrow(written, sessions, userId, sessionIds, tables, now, stamp, k + 1);
    }
  }

  /** The session `upsertSessionV2` stores for a legacy session whose lines
      resolved to the distinct ids `ids`, all in the table. */
  lemma UpsertMigrated(legacy: LegacySession, userId: string, sessionId: string, ids: seq<string>,
                       keys: set<string>, now: string)
    requires Distinct(ids) && |ids| <= |legacy.exercises|
    requires forall id :: id in ids ==> id in keys
    ensures var s := UpsertSessionV2(userId, None, legacy.sessionDate, None, None,
                                     LocationIdOf(InferLocation(legacy.exercises)), Items(ids),
                                     legacy.notesRaw, now, sessionId);
      MigratedFrom(s, legacy, userId, sessionId, keys) && ItemIds(s.exerciseItems) == ids
  {
    ItemIdsOfItems(ids);
    UpsertSortKeyAgrees(userId, None, legacy.sessionDate, None, None, LocationIdOf(InferLocation(legacy.exercises)),
                        Items(ids), legacy.notesRaw, now, sessionId);
  }

  /** The body of `run`'s loop for one legacy session: its location, its
      lines resolved, and the v2 session `upsertSessionV2` stores. */
  method MigrateOne(table: ExerciseTable, session: LegacySession, userId: string, sessionId: string,
                    now: string, stamp: string)
    returns (item: SessionV2, failure: Option<string>)
    requires table.Valid()
    modifies table
    ensures table.Valid()
    ensures old(table.records).Keys <= table.records.Keys
    ensures failure.None? ==>
      SessionMigrated(item, session, userId, sessionId, old(table.State()), table.State(), now, stamp)
    ensures failure.Some? ==>
      var r := ResolveOf(old(table.State()), CallsFor(session.exercises, InferLocation(session.exercises)), EnsureStep(now, stamp));
      r.failure == failure && r.table == table.State()
  {
    var location := InferLocation(session.exercises);
    var ids;
    ghost var returned;
    ids, returned, failure := ResolveExercises(table, session.exercises, location, now, stamp);
    item := UpsertSessionV2(userId, None, session.sessionDate, None, None, LocationIdOf(location),
                            Items(ids), session.notesRaw, now, sessionId);
    if failure.None? {
      UpsertMigrated(session, userId, sessionId, ids, table.records.Keys, now);
    }
  }

  /** `run`: `sessionIds[k]` stands for the `newSessionId()` of the k-th
      session. `written` is what `upsertSessionV2` stored, in order, and
      `tables[k]` the exercise table when session k was reached; no record is
      removed, so every written id is still in the final table. */
  method Run(table: ExerciseTable, sessions: seq<LegacySession>, userId: string,
             sessionIds: seq<string>, now: string, stamp: string)
    returns (written: seq<SessionV2>, migrated: nat, failure: Option<string>, ghost tables: seq<Table>)
    requires table.Valid() && |sessionIds| == |sessions|
    modifies table
    ensures table.Valid()
    ensures migrated == |written| <= |sessions|
    ensures failure.None? ==> migrated == |sessions|
    ensures AllMigrated(written, sessions, userId, sessionIds, tables, now, stamp)
    ensures tables[0] == old(table.State())
    ensures tables[|written|].records.Keys <= table.records.Keys
    ensures failure.None? ==> tables[|written|] == table.State()
    ensures failure.Some? ==> (
      && |written| < |sessions|
      && var legacy := sessions[|written|];
      && var r := ResolveOf(tables[|written|], CallsFor(legacy.exercises, InferLocation(legacy.exercises)), EnsureStep(now, stamp));
      && r.failure == failure && r.table == table.State())
  {
    written := [];
    migrated := 0;
    failure := None;
    tables := [table.State()];
    var k := 0;
    while k < |sessions|
      invariant 0 <= k <= |sessions| && migrated == |written| == k
      invariant table.Valid()
      invariant AllMigrated(written, sessions, userId, sessionIds, tables, now, stamp)
      invariant tables[0] == old(table.State()) && tables[k] == table.State()
    {
      var item, err := MigrateOne(table, sessions[k], userId, sessionIds[k], now, stamp);
      if err.Some? {
        return written, migrated, err, tables;
      }
      AllMigratedSnoc(written, sessions, userId, sessionIds, tables, now, stamp, item, table.State());
      tables := tables + [table.State()];
      written := written + [item];
      migrated := migrated + 1;
      k := k + 1;
    }
  }
}
