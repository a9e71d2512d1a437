/** lib/sessions-repo.ts: the exercise identity table and the helpers the
    repository functions share. The DynamoDB tables are in-memory values: the
    exercise table is a map from `exerciseId` to its record together with the
    order a `Scan` returns the records in, held by the class `ExerciseTable`.
    The clock (`nowIso`) and the collision suffix (`Date.now()`) are
    parameters. */
module SessionsRepo {
  import opened Wrappers
  import opened Text
  import opened Sorting

  // ---------------------------------------------------------------------------
  // Sessions (the v2 table)

  datatype ExerciseItem = ExerciseItem(exerciseId: string, notes: Option<string>)

  /** The ids a session's items refer to. */
  function ItemIds(items: seq<ExerciseItem>): (r: seq<string>)
    ensures |r| == |items|
    ensures forall i :: 0 <= i < |r| ==> r[i] == items[i].exerciseId
  {
    seq(|items|, i requires 0 <= i < |items| => items[i].exerciseId)
  }

  /** `exerciseIds.map((exerciseId) => ({ exerciseId }))` */
  function Items(ids: seq<string>): (r: seq<ExerciseItem>)
    ensures |r| == |ids|
    ensures forall i :: 0 <= i < |r| ==> r[i] == ExerciseItem(ids[i], None)
  {
    seq(|ids|, i requires 0 <= i < |ids| => ExerciseItem(ids[i], None))
  }

  lemma ItemIdsOfItems(ids: seq<string>)
    ensures ItemIds(Items(ids)) == ids
  {
  }

  /** `GymSessionV2`, with the `_deleted` marker some items carry. */
  datatype SessionV2 = SessionV2(
    userId: string, sessionId: string, sessionDate: string, sessionSortKey: string,
    startTime: Option<string>, endTime: Option<string>, locationId: string,
    exerciseItems: seq<ExerciseItem>, notesRaw: Option<string>,
    createdAt: string, updatedAt: string, deleted: bool)

  /** `startTime?.trim() || "00:00"` */
  function StartTimeKey(startTime: Option<string>): (t: string)
    ensures t != [] && IsTrimmed(t)
    ensures startTime.None? || AllSpace(startTime.value) ==> t == "00:00"
    ensures startTime.Some? && !AllSpace(startTime.value) ==> t == Trim(startTime.value)
  {
    if startTime.Some? then
      TrimIsEmptyIffBlank(startTime.value);
      TrimShape(startTime.value);
      if Trim(startTime.value) != [] then Trim(startTime.value) else "00:00"
    else "00:00"
  }

  /** `sessionSortValue`: the date, "T", then the start time. */
  function SessionSortValue(sessionDate: string, startTime: Option<string>): string {
    sessionDate + "T" + StartTimeKey(startTime)
  }

  /** Sort values of dates of one length (ISO dates have ten characters)
      order by date first, then by start time. */
  lemma SessionSortValueOrder(d1: string, t1: Option<string>, d2: string, t2: Option<string>)
    requires |d1| == |d2|
    ensures StrLess(SessionSortValue(d1, t1), SessionSortValue(d2, t2)) <==>
      StrLess(d1, d2) || (d1 == d2 && StrLess(StartTimeKey(t1), StartTimeKey(t2)))
  {
    DateThenTime(d1, StartTimeKey(t1), d2, StartTimeKey(t2));
  }

  lemma DateThenTime(d1: string, k1: string, d2: string, k2: string)
    requires |d1| == |d2|
    ensures StrLess(d1 + "T" + k1, d2 + "T" + k2) <==> StrLess(d1, d2) || (d1 == d2 && StrLess(k1, k2))
  {
    var u1, u2 := "T" + k1, "T" + k2;
    assert d1 + "T" + k1 == d1 + u1 && d2 + "T" + k2 == d2 + u2;
    if d1 != d2 {
      StrLessPrefix(d1, d2, u1, u2);
    } else {
      StrLessCommonPrefix(d1, u1, u2);
      StrLessCommonPrefix("T", k1, k2);
      StrLessIrreflexive(d1);
    }
  }

  /** A session of the legacy table, one per date (`GymSession`). */
  datatype LegacySession = LegacySession(
    userId: string, sessionDate: string, exercises: seq<string>, notesRaw: Option<string>,
    createdAt: string, updatedAt: string)

  /** `input.x?.trim() || undefined` */
  function TrimmedOrNone(x: Option<string>): (r: Option<string>)
    ensures r.Some? <==> x.Some? && !AllSpace(x.value)
    ensures r.Some? ==> r.value == Trim(x.value) && r.value != []
  {
    if x.Some? then
      TrimIsEmptyIffBlank(x.value);
      if Trim(x.value) != [] then Some(Trim(x.value)) else None
    else None
  }

  /** The item `upsertSessionV2` puts: `newId` stands for `newSessionId()` and
      `now` for `nowIso()`. */
  function UpsertSessionV2(userId: string, sessionId: Option<string>, sessionDate: string,
                           startTime: Option<string>, endTime: Option<string>, locationId: string,
                           exerciseItems: seq<ExerciseItem>, notesRaw: Option<string>,
                           now: string, newId: string): (s: SessionV2)
    ensures s.userId == userId && s.sessionDate == sessionDate && s.locationId == locationId
    ensures s.startTime == TrimmedOrNone(startTime) && s.endTime == TrimmedOrNone(endTime)
    ensures s.exerciseItems == exerciseItems && s.notesRaw == notesRaw && !s.deleted
    ensures s.createdAt == now && s.updatedAt == now
  {
    var id := TrimmedOrNone(sessionId);
    SessionV2(userId, if id.Some? then id.value else newId, sessionDate,
              SessionSortValue(sessionDate, startTime), TrimmedOrNone(startTime), TrimmedOrNone(endTime),
              locationId, exerciseItems, notesRaw, now, now, false)
  }

  /** The sort key of a stored session agrees with its stored start time: the
      date and "T" followed by the start time, or by "00:00" when there is
      none; a given, non-blank session id is kept trimmed. */
  lemma UpsertSortKeyAgrees(userId: string, sessionId: Option<string>, sessionDate: string,
                            startTime: Option<string>, endTime: Option<string>, locationId: string,
                            exerciseItems: seq<ExerciseItem>, notesRaw: Option<string>,
                            now: string, newId: string)
    ensures var s := UpsertSessionV2(userId, sessionId, sessionDate, startTime, endTime, locationId,
                                     exerciseItems, notesRaw, now, newId);
      && s.sessionSortKey == sessionDate + "T" + (if s.startTime.Some? then s.startTime.value else "00:00")
      && (sessionId.Some? && !AllSpace(sessionId.value) ==> s.sessionId == Trim(sessionId.value))
      && (sessionId.None? || AllSpace(sessionId.value) ==> s.sessionId == newId)
  {
  }

  /** The comparator of `listRawSessionsV2`: later sort keys first, then
      greater session ids first. */
  predicate SessionBefore(a: SessionV2, b: SessionV2) {
    if a.sessionSortKey != b.sessionSortKey then StrLess(b.sessionSortKey, a.sessionSortKey)
    else !StrLess(a.sessionId, b.sessionId)
  }

  lemma SessionBeforeIsTotalPreorder()
    ensures TotalPreorder(SessionBefore)
  {
    forall a: SessionV2, b: SessionV2 ensures SessionBefore(a, b) || SessionBefore(b, a) {
      StrLessTotal(a.sessionSortKey, b.sessionSortKey);
      if StrLess(a.sessionId, b.sessionId) { StrLessAsymmetric(a.sessionId, b.sessionId); }
    }
    forall a: SessionV2, b: SessionV2, c: SessionV2 | SessionBefore(a, b) && SessionBefore(b, c)
      ensures SessionBefore(a, c)
    {
      var ka, kb, kc := a.sessionSortKey, b.sessionSortKey, c.sessionSortKey;
      if ka == kb && kb == kc {
        StrLessTotal(b.sessionId, a.sessionId);
        StrLessTotal(c.sessionId, b.sessionId);
        StrNotLessTransitive(c.sessionId, b.sessionId, a.sessionId);
      } else if ka == kb {
        assert StrLess(kc, kb);
      } else if kb == kc {
        assert StrLess(kb, ka);
      } else {
        StrLessTransitive(kc, kb, ka);
        StrLessAsymmetric(kc, ka);
      }
    }
  }

  /** `.filter((x) => !x._deleted)` */
  function Live(items: seq<SessionV2>): (r: seq<SessionV2>)
    ensures forall x :: x in r <==> x in items && !x.deleted
  {
    if items == [] then []
    else (if items[0].deleted then [] else [items[0]]) + Live(items[1..])
  }

  /** `listRawSessionsV2` after the query: the items not marked deleted,
      newest sort key first and, on equal keys, greatest session id first. */
  function ListRawSessionsV2(items: seq<SessionV2>): (r: seq<SessionV2>)
    ensures multiset(r) == multiset(Live(items))
    ensures forall x :: x in r <==> x in items && !x.deleted
    ensures forall i, j :: 0 <= i < j < |r| ==> !StrLess(r[i].sessionSortKey, r[j].sessionSortKey)
    ensures forall i, j :: 0 <= i < j < |r| && r[i].sessionSortKey == r[j].sessionSortKey ==>
      !StrLess(r[i].sessionId, r[j].sessionId)
  {
    SessionBeforeIsTotalPreorder();
    var r := SortBy(Live(items), SessionBefore);
    assert forall x :: x in r <==> x in multiset(Live(items));
    forall i, j | 0 <= i < j < |r| ensures !StrLess(r[i].sessionSortKey, r[j].sessionSortKey) {
      assert SessionBefore(r[i], r[j]);
      if r[i].sessionSortKey != r[j].sessionSortKey {
        StrLessAsymmetric(r[j].sessionSortKey, r[i].sessionSortKey);
      } else {
        StrLessIrreflexive(r[i].sessionSortKey);
      }
    }
    r
  }

  // ---------------------------------------------------------------------------
  // `batchGetByIds`

  /** `.filter(Boolean)` on strings. */
  function NonEmpty(xs: seq<string>): (r: seq<string>)
    ensures forall x :: x in r <==> x in xs && x != []
    ensures Distinct(xs) ==> Distinct(r)
  {
    if xs == [] then []
    else
      var rest := NonEmpty(xs[1..]);
      assert Distinct(xs) ==> xs[0] !in xs[1..];
      (if xs[0] == [] then [] else [xs[0]]) + rest
  }

  /** `uniq(ids).filter(Boolean)`: the non-empty ids, each once, in the order
      of their first occurrence. */
  function UniqueIds(ids: seq<string>): (r: seq<string>)
    ensures Distinct(r)
    ensures forall x :: x in r <==> x in ids && x != []
  {
    NonEmpty(Uniq(ids))
  }

  /** The number of keys one `BatchGetCommand` may carry. */
  const BatchSize: nat := 100

  /** The chunks, one after the other. */
  function Concat<T>(chunks: seq<seq<T>>): seq<T> {
    if chunks == [] then [] else Concat(chunks[..|chunks| - 1]) + chunks[|chunks| - 1]
  }

  /** The loop that cuts the unique ids into chunks of `BatchSize`: the
      chunks spell the ids in order, none is empty, and all but the last are
      full. */
  method Chunk(unique: seq<string>) returns (chunks: seq<seq<string>>)
    ensures Concat(chunks) == unique
    ensures forall k :: 0 <= k < |chunks| ==> 0 < |chunks[k]| <= BatchSize
    ensures forall k :: 0 <= k < |chunks| - 1 ==> |chunks[k]| == BatchSize
  {
    chunks := [];
    var i := 0;
    while i < |unique|
      invariant i == BatchSize * |chunks|
      invariant i <= |unique| ==> Concat(chunks) == unique[..i]
      invariant i > |unique| ==> Concat(chunks) == unique
      invariant forall k :: 0 <= k < |chunks| ==> 0 < |chunks[k]| <= BatchSize
      invariant i <= |unique| ==> forall k :: 0 <= k < |chunks| ==> |chunks[k]| == BatchSize
      invariant forall k :: 0 <= k < |chunks| - 1 ==> |chunks[k]| == BatchSize
      decreases |unique| - i
    {
      var end := if i + BatchSize <= |unique| then i + BatchSize else |unique|;
      assert unique[..end] == unique[..i] + unique[i..end];
      ghost var before := chunks;
      chunks := chunks + [unique[i..end]];
      assert chunks[..|chunks| - 1] == before;
      i := i + BatchSize;
    }
    if i == |unique| {
      assert unique[..i] == unique;
    }
  }

  /** The records a batch get returns for the ids, in the order of the ids;
      ids with no record are skipped. */
  function Found<T(!new)>(ids: seq<string>, table: map<string, T>): (r: seq<T>)
    ensures |r| <= |ids|
    ensures forall x :: x in r <==> exists id :: id in ids && id in table && table[id] == x
  {
    if ids == [] then []
    else
      var front := ids[..|ids| - 1];
      var last := ids[|ids| - 1];
      assert forall id :: id in ids <==> id in front || id == last;
      Found(front, table) + (if last in table then [table[last]] else [])
  }

  lemma {:induction false} FoundAppend<T(!new)>(a: seq<string>, b: seq<string>, table: map<string, T>)
    ensures Found(a + b, table) == Found(a, table) + Found(b, table)
    decreases |b|
  {
    if b == [] {
      assert a + b == a;
    } else {
      var b' := b[..|b| - 1];
      assert (a + b)[..|a + b| - 1] == a + b';
      FoundAppend(a, b', table);
    }
  }

  /** What `batchGetByIds` returns: the records of the unique non-empty ids. */
  function GetByIds<T(!new)>(table: map<string, T>, ids: seq<string>): (r: seq<T>)
    ensures forall x :: x in r <==> exists id :: id in ids && id != [] && id in table && table[id] == x
  {
    Found(UniqueIds(ids), table)
  }

  /** `batchGetByIds`: the unique non-empty ids, in chunks of at most
      `BatchSize`, each chunk fetched in turn. */
  method BatchGetByIds<T(!new)>(table: map<string, T>, ids: seq<string>) returns (out: seq<T>)
    ensures out == GetByIds(table, ids)
  {
    var unique := UniqueIds(ids);
    if |unique| == 0 {
      return [];
    }
    var chunks := Chunk(unique);
    out := [];
    var k := 0;
    while k < |chunks|
      invariant 0 <= k <= |chunks|
      invariant out == Found(Concat(chunks[..k]), table)
    {
      assert chunks[..k + 1][..k] == chunks[..k];
      FoundAppend(Concat(chunks[..k]), chunks[k], table);
      out := out + Found(chunks[k], table);
      k := k + 1;
    }
    assert chunks[..|chunks|] == chunks;
  }

  // ---------------------------------------------------------------------------
  // Exercise records and the table

  /** `Exercise`, as `createExercise` builds it, with the `usageCount` and
      `sortOrder` that the ranking script adds. */
  datatype Exercise = Exercise(
    exerciseId: string, name: string, nameLower: string, aliases: seq<string>,
    iconKey: Option<string>, createdAt: string, updatedAt: string,
    usageCount: Option<int>, sortOrder: Option<int>)

  /** The exercise table: records by id, and the order a scan lists them in. */
  datatype Table = Table(records: map<string, Exercise>, order: seq<string>)

  /** Every record is listed once, under its own id, and no record holds an
      alias twice (every writer passes the aliases through `uniq`). */
  ghost predicate WellFormed(t: Table) {
    && Distinct(t.order)
    && (forall id :: id in t.order <==> id in t.records)
    && (forall id :: id in t.records ==> t.records[id].exerciseId == id && Distinct(t.records[id].aliases))
  }

  /** A `ScanCommand` over the table. */
  function Scan(t: Table): (r: seq<Exercise>)
    requires forall id :: id in t.order ==> id in t.records
    ensures |r| == |t.order|
    ensures forall i :: 0 <= i < |r| ==> r[i] == t.records[t.order[i]]
  {
    seq(|t.order|, i requires 0 <= i < |t.order| => t.records[t.order[i]])
  }

  /** A scan lists exactly the records of the table. */
  lemma ScanMembers(t: Table)
    requires WellFormed(t)
    ensures forall x :: x in Scan(t) <==> x.exerciseId in t.records && t.records[x.exerciseId] == x
  {
    var s := Scan(t);
    forall x ensures x in s <==> x.exerciseId in t.records && t.records[x.exerciseId] == x {
      if x.exerciseId in t.records && t.records[x.exerciseId] == x {
        var k :| 0 <= k < |t.order| && t.order[k] == x.exerciseId;
        assert s[k] == x;
      }
    }
  }

  /** A `PutCommand`: the record replaces the one with its id, or is added
      at the end of the scan order. */
  function Put(t: Table, item: Exercise): (r: Table)
    requires WellFormed(t) && Distinct(item.aliases)
    ensures WellFormed(r)
    ensures r.records == t.records[item.exerciseId := item]
  {
    var id := item.exerciseId;
    var order := if id in t.records then t.order else t.order + [id];
    assert id !in t.records ==> id !in t.order;
    Table(t.records[id := item], order)
  }

  /** `ExerciseTable` replaces a record in place and keeps the scan order
      when the id is known, and appends it otherwise. */
  lemma PutShape(t: Table, item: Exercise)
    requires WellFormed(t) && Distinct(item.aliases)
    ensures item.exerciseId in t.records ==> Put(t, item).order == t.order
    ensures item.exerciseId !in t.records ==> Put(t, item).order == t.order + [item.exerciseId]
    ensures Put(t, item).records.Keys == t.records.Keys + {item.exerciseId}
  {
  }

  /** Putting a record under an id already stored adds no key. */
  lemma PutKeepsKeys(t: Table, item: Exercise)
    requires WellFormed(t) && Distinct(item.aliases) && item.exerciseId in t.records
    ensures Put(t, item).records.Keys == t.records.Keys
  {
    PutShape(t, item);
  }

  // ---------------------------------------------------------------------------
  // `listExercises`

  /** `Number.MAX_SAFE_INTEGER`, the order of a record without `sortOrder`. */
  const MaxSafeInteger: int := 9007199254740991

  function OrderKey(x: Exercise): int {
    if x.sortOrder.Some? then x.sortOrder.value else MaxSafeInteger
  }

  function CountKey(x: Exercise): int {
    if x.usageCount.Some? then x.usageCount.value else 0
  }

  /** The comparator of `listExercises`: `sortOrder` ascending, then
      `usageCount` descending, then name. */
  predicate ListedBefore(a: Exercise, b: Exercise) {
    if OrderKey(a) != OrderKey(b) then OrderKey(a) < OrderKey(b)
    else if CountKey(a) != CountKey(b) then CountKey(a) > CountKey(b)
    else !StrLess(b.name, a.name)
  }

  lemma ListedBeforeIsTotalPreorder()
    ensures TotalPreorder(ListedBefore)
  {
    forall a: Exercise, b: Exercise ensures ListedBefore(a, b) || ListedBefore(b, a) {
      if StrLess(a.name, b.name) { StrLessAsymmetric(a.name, b.name); }
    }
    forall a: Exercise, b: Exercise, c: Exercise | ListedBefore(a, b) && ListedBefore(b, c)
      ensures ListedBefore(a, c)
    {
      if OrderKey(a) == OrderKey(b) == OrderKey(c) && CountKey(a) == CountKey(b) == CountKey(c) {
        StrNotLessTransitive(a.name, b.name, c.name);
      }
    }
  }

  /** The query matches the lower-cased name or a lower-cased alias. */
  predicate MatchesQuery(x: Exercise, q: string) {
    Contains(x.nameLower, q) || exists alias :: alias in x.aliases && Contains(Lower(alias), q)
  }

  function FilterQuery(all: seq<Exercise>, q: string): (r: seq<Exercise>)
    ensures |r| <= |all|
    ensures forall x :: x in r <==> x in all && MatchesQuery(x, q)
  {
    if all == [] then []
    else (if MatchesQuery(all[0], q) then [all[0]] else []) + FilterQuery(all[1..], q)
  }

  /** Record by record: with the membership facts above (which settle a
      single record), the matches are in scan order and each kept as often
      as it occurs. */
  lemma {:induction false} FilterQueryConcat(a: seq<Exercise>, b: seq<Exercise>, q: string)
    ensures FilterQuery(a + b, q) == FilterQuery(a, q) + FilterQuery(b, q)
  {
    if a != [] {
      var t := a[1..];
      assert a + b == [a[0]] + (t + b) && a == [a[0]] + t;
      FilterQueryCons(a[0], t + b, q);
      FilterQueryCons(a[0], t, q);
      FilterQueryConcat(t, b, q);
      Associative(if MatchesQuery(a[0], q) then [a[0]] else [], FilterQuery(t, q), FilterQuery(b, q));
    } else {
      assert a + b == b;
    }
  }

  lemma FilterQueryCons(x: Exercise, s: seq<Exercise>, q: string)
    ensures FilterQuery([x] + s, q) == (if MatchesQuery(x, q) then [x] else []) + FilterQuery(s, q)
  {
    assert ([x] + s)[1..] == s;
  }

  /** The filter of `listExercises`: everything for a blank query, else the
      records the trimmed, lower-cased query matches. */
  function Matching(all: seq<Exercise>, query: string): (r: seq<Exercise>)
    ensures AllSpace(query) ==> r == all
    ensures !AllSpace(query) ==> forall x :: x in r <==> x in all && MatchesQuery(x, Lower(Trim(query)))
  {
    TrimIsEmptyIffBlank(query);
    var q := Lower(Trim(query));
    if q == [] then all else FilterQuery(all, q)
  }

  /** Record by record, for every query: the records kept from `a + b` are
      those kept from `a` followed by those kept from `b`. */
  lemma MatchingConcat(a: seq<Exercise>, b: seq<Exercise>, query: string)
    ensures Matching(a + b, query) == Matching(a, query) + Matching(b, query)
  {
    FilterQueryConcat(a, b, Lower(Trim(query)));
  }

  /** `listExercises(query, limit)` over the scanned records `all`: the first
      `limit` matches in the listing order. */
  function ListExercisesOf(all: seq<Exercise>, query: string, limit: nat): (r: seq<Exercise>)
    ensures |r| <= limit
    ensures |Matching(all, query)| > limit ==> |r| == limit
    ensures forall x :: x in r ==> x in Matching(all, query)
    ensures |Matching(all, query)| <= limit ==> multiset(r) == multiset(Matching(all, query))
  {
    ListedBeforeIsTotalPreorder();
    var matching := Matching(all, query);
    var sorted := SortBy(matching, ListedBefore);
    var r := if |sorted| <= limit then sorted else sorted[..limit];
    assert forall x :: x in r ==> x in sorted;
    assert forall x :: x in sorted ==> x in matching by {
      forall x | x in sorted ensures x in matching { assert x in multiset(sorted); }
    }
    r
  }

  /** The listing order: by `sortOrder` (missing last), then `usageCount`
      descending (missing is 0), then by name. */
  lemma ListExercisesOrdered(all: seq<Exercise>, query: string, limit: nat)
    ensures var r := ListExercisesOf(all, query, limit);
      && (forall i, j :: 0 <= i < j < |r| ==> OrderKey(r[i]) <= OrderKey(r[j]))
      && (forall i, j :: 0 <= i < j < |r| && OrderKey(r[i]) == OrderKey(r[j]) ==> CountKey(r[i]) >= CountKey(r[j]))
      && (forall i, j :: 0 <= i < j < |r| && OrderKey(r[i]) == OrderKey(r[j]) && CountKey(r[i]) == CountKey(r[j]) ==>
            !StrLess(r[j].name, r[i].name))
  {
    ListedBeforeIsTotalPreorder();
    var sorted := SortBy(Matching(all, query), ListedBefore);
    ListedOrder(sorted, ListExercisesOf(all, query, limit));
  }

  /** The records listed are the first matches in the listing order: every
      match left out comes after every record listed. */
  lemma ListExercisesFirst(all: seq<Exercise>, query: string, limit: nat)
    ensures var r := ListExercisesOf(all, query, limit);
      && multiset(r) <= multiset(Matching(all, query))
      && forall x, i :: x in multiset(Matching(all, query)) - multiset(r) && 0 <= i < |r| ==> ListedBefore(r[i], x)
  {
    ListedBeforeIsTotalPreorder();
    var sorted := SortBy(Matching(all, query), ListedBefore);
    TakeFirst(sorted, ListExercisesOf(all, query, limit), limit);
  }

  /** What a prefix of a sorted list leaves out comes after all it keeps. */
  lemma TakeFirst(sorted: seq<Exercise>, r: seq<Exercise>, limit: nat)
    requires forall i, j :: 0 <= i < j < |sorted| ==> ListedBefore(sorted[i], sorted[j])
    requires r == if |sorted| <= limit then sorted else sorted[..limit]
    ensures multiset(r) <= multiset(sorted)
    ensures forall x, i :: x in multiset(sorted) - multiset(r) && 0 <= i < |r| ==> ListedBefore(r[i], x)
  {
    var rest := sorted[|r|..];
    assert sorted == r + rest;
    assert multiset(sorted) == multiset(r) + multiset(rest);
    forall x, i | x in multiset(sorted) - multiset(r) && 0 <= i < |r| ensures ListedBefore(r[i], x) {
      assert x in multiset(rest);
      var k :| 0 <= k < |rest| && rest[k] == x;
      assert sorted[|r| + k] == x && sorted[i] == r[i];
    }
  }

  /** A prefix of a list sorted by `ListedBefore` is in the listing order. */
  lemma ListedOrder(sorted: seq<Exercise>, r: seq<Exercise>)
    requires forall i, j :: 0 <= i < j < |sorted| ==> ListedBefore(sorted[i], sorted[j])
    requires r <= sorted
    ensures forall i, j :: 0 <= i < j < |r| ==> OrderKey(r[i]) <= OrderKey(r[j])
    ensures forall i, j :: 0 <= i < j < |r| && OrderKey(r[i]) == OrderKey(r[j]) ==> CountKey(r[i]) >= CountKey(r[j])
    ensures forall i, j :: 0 <= i < j < |r| && OrderKey(r[i]) == OrderKey(r[j]) && CountKey(r[i]) == CountKey(r[j]) ==>
      !StrLess(r[j].name, r[i].name)
  {
    forall i, j | 0 <= i < j < |r| ensures ListedBefore(r[i], r[j]) {
      assert r[i] == sorted[i] && r[j] == sorted[j];
    }
  }

  /** A blank query lists every record, when there are no more than `limit`. */
  lemma BlankQueryListsAll(all: seq<Exercise>, query: string, limit: nat)
    requires AllSpace(query) && |all| <= limit
    ensures multiset(ListExercisesOf(all, query, limit)) == multiset(all)
  {
  }

  /** A record whose lower-cased name is the trimmed, lower-cased query is
      listed, when no more than `limit` records match. */
  lemma ExactNameListed(all: seq<Exercise>, query: string, limit: nat, x: Exercise)
    requires x in all && x.nameLower == Lower(Trim(query))
    requires |Matching(all, query)| <= limit
    ensures x in ListExercisesOf(all, query, limit)
  {
    ContainsSelf(x.nameLower);
    assert x in Matching(all, query);
    assert x in multiset(Matching(all, query));
  }

  // ---------------------------------------------------------------------------
  // Finding a record by name

  /** x is at some index of xs, and no record before it is named `lower`. */
  predicate FirstSoNamed(xs: seq<Exercise>, lower: string, x: Exercise) {
    exists k :: 0 <= k < |xs| && xs[k] == x && forall j :: 0 <= j < k ==> xs[j].nameLower != lower
  }

  /** `.find((x) => x.nameLower === lower)` */
  function FindByNameLower(xs: seq<Exercise>, lower: string): (r: Option<Exercise>)
    ensures r.Some? ==> r.value in xs && r.value.nameLower == lower
    ensures r.None? <==> forall x :: x in xs ==> x.nameLower != lower
  {
    if xs == [] then None
    else if xs[0].nameLower == lower then Some(xs[0])
    else FindByNameLower(xs[1..], lower)
  }

  /** The record found is the first one so named. */
  lemma {:induction false} FindByNameLowerFirst(xs: seq<Exercise>, lower: string)
    ensures FindByNameLower(xs, lower).Some? ==> FirstSoNamed(xs, lower, FindByNameLower(xs, lower).value)
  {
    if xs != [] && xs[0].nameLower != lower {
      var r := FindByNameLower(xs[1..], lower);
      FindByNameLowerFirst(xs[1..], lower);
      if r.Some? {
        var k :| 0 <= k < |xs[1..]| && xs[1..][k] == r.value && forall j :: 0 <= j < k ==> xs[1..][j].nameLower != lower;
        assert xs[k + 1] == r.value;
        forall j | 0 <= j < k + 1 ensures xs[j].nameLower != lower {
          if j > 0 { assert xs[j] == xs[1..][j - 1]; }
        }
      }
    } else if xs != [] {
      assert xs[0] == FindByNameLower(xs, lower).value;
    }
  }

  /** The lookup `createExercise` and `ensureExercise` share: the first of the
      (at most 200) records `listExercises(name, 200)` lists whose lower-cased
      name is the lower-cased name. */
  function FindExisting(t: Table, name: string): (r: Option<Exercise>)
    requires WellFormed(t)
    ensures r.Some? ==>
      (r.value.nameLower == Lower(Trim(name)) && r.value.exerciseId in t.records
       && t.records[r.value.exerciseId] == r.value)
    ensures (forall x :: x in Scan(t) ==> x.nameLower != Lower(Trim(name))) ==> r.None?
  {
    ScanMembers(t);
    var r := FindByNameLower(ListExercisesOf(Scan(t), name, 200), Lower(Trim(name)));
    assert r.Some? ==> r.value in Scan(t) by {
      if r.Some? { assert r.value in Matching(Scan(t), name); }
    }
    r
  }

  /** The record found is the first one so named among the (at most 200)
      records `listExercises(name, 200)` returns, in their listing order. */
  lemma FindExistingFirst(t: Table, name: string)
    requires WellFormed(t)
    ensures var r := FindExisting(t, name);
      var listed := ListExercisesOf(Scan(t), name, 200);
      && (r.None? <==> forall x :: x in listed ==> x.nameLower != Lower(Trim(name)))
      && (r.Some? ==> FirstSoNamed(listed, Lower(Trim(name)), r.value))
  {
    FindByNameLowerFirst(ListExercisesOf(Scan(t), name, 200), Lower(Trim(name)));
  }

  /** A record with the name is found whenever no more than 200 records
      match the name as a query. */
  lemma FindExistingWithinWindow(t: Table, name: string, x: Exercise)
    requires WellFormed(t)
    requires x in Scan(t) && x.nameLower == Lower(Trim(name))
    requires |Matching(Scan(t), name)| <= 200
    ensures FindExisting(t, name).Some?
  {
    ExactNameListed(Scan(t), name, 200, x);
  }

  // ---------------------------------------------------------------------------
  // `createExercise`, `updateExercise`, `ensureExercise`

  /** A changed table and what the call returned or threw. */
  datatype Outcome = Outcome(table: Table, result: Result<Exercise>)

  const NameRequired: string := "Exercise name is required"
  const IdRequired: string := "exerciseId is required"
  const NotFoundPrefix: string := "Exercise not found: "

  /** `slugify` of lib/sessions-repo.ts, whose fallback is "item". */
  function ItemSlug(value: string): (r: string)
    ensures IsSlug(r)
  {
    assert IsSlug("item");
    Slugify(value, "item")
  }

  /** `uniq(aliases.map((x) => x.trim()).filter(Boolean))` */
  function CleanAliases(aliases: seq<string>): (r: seq<string>)
    ensures Distinct(r)
    ensures forall a :: a in r <==> a != [] && exists y :: y in aliases && Trim(y) == a
  {
    Uniq(TrimmedNonBlank(aliases))
  }

  /** Alias by alias: the cleaned list of `aliases + [y]` is that of
      `aliases`, followed by the trimmed `y` when it is not blank and not
      already there; so the cleaned aliases keep the order of their first
      occurrence. */
  lemma CleanAliasesSnoc(aliases: seq<string>, y: string)
    ensures CleanAliases(aliases + [y]) ==
      if Trim(y) == [] || Trim(y) in CleanAliases(aliases) then CleanAliases(aliases)
      else CleanAliases(aliases) + [Trim(y)]
  {
    var ts := TrimmedNonBlank(aliases);
    TrimmedNonBlankConcat(aliases, [y]);
    TrimmedNonBlankOne(y);
    if Trim(y) != [] {
      UniqSnoc(ts, Trim(y));
    } else {
      assert ts + [] == ts;
    }
  }

  /** `input.preferredId || slugify(name)` */
  function BaseId(name: string, preferredId: Option<string>): string {
    if preferredId.Some? && preferredId.value != [] then preferredId.value else ItemSlug(name)
  }

  /** The id of a new record: the base id, with the clock suffix only when a
      record already has the base id. */
  function FreshId(t: Table, baseId: string, stamp: string): string {
    if baseId in t.records then baseId + "-" + stamp else baseId
  }

  /** `createExercise` */
  function Create(t: Table, name: string, aliases: seq<string>, iconKey: Option<string>,
                  preferredId: Option<string>, now: string, stamp: string): (o: Outcome)
    requires WellFormed(t)
    ensures WellFormed(o.table)
    ensures t.records.Keys <= o.table.records.Keys
    ensures o.result.Ok? ==> o.result.value.exerciseId in o.table.records
                             && o.table.records[o.result.value.exerciseId] == o.result.value
  {
    var clean := CleanName(name);
    if clean == [] then Outcome(t, Err(NameRequired))
    else match FindExisting(t, clean)
      case Some(exact) => Outcome(t, Ok(exact))
      case None =>
        var id := FreshId(t, BaseId(clean, preferredId), stamp);
        var item := Exercise(id, clean, Lower(clean), CleanAliases(aliases), iconKey, now, now, None, None);
        Outcome(Put(t, item), Ok(item))
  }

  /** A blank name is refused and nothing is written. */
  lemma CreateRejectsBlankName(t: Table, name: string, aliases: seq<string>, iconKey: Option<string>,
                               preferredId: Option<string>, now: string, stamp: string)
    requires WellFormed(t) && AllSpace(name)
    ensures Create(t, name, aliases, iconKey, preferredId, now, stamp) == Outcome(t, Err(NameRequired))
  {
    TrimIsEmptyIffBlank(name);
  }

  /** A record already named so (ignoring case, once the name is cleaned) is
      returned and the table is unchanged, provided it is within the 200
      records `listExercises` returns. */
  lemma CreateReturnsExisting(t: Table, name: string, aliases: seq<string>, iconKey: Option<string>,
                              preferredId: Option<string>, now: string, stamp: string, x: Exercise)
    requires WellFormed(t) && CleanName(name) != []
    requires x in Scan(t) && x.nameLower == Lower(CleanName(name))
    requires |Matching(Scan(t), CleanName(name))| <= 200
    ensures var o := Create(t, name, aliases, iconKey, preferredId, now, stamp);
      o.table == t && o.result.Ok? && o.result.value.nameLower == x.nameLower
      && o.result.value.exerciseId in t.records && t.records[o.result.value.exerciseId] == o.result.value
  {
    CleanNameIsClean(name);
    TrimOfTrimmed(CleanName(name));
    FindExistingWithinWindow(t, CleanName(name), x);
  }

  /** With no record of that name, exactly one record is written: the cleaned
      name, its lower case, the cleaned aliases, no usage or order, created
      and updated now, under the preferred id or the slug of the name, with
      the suffix only when that id is taken. */
  lemma CreateAddsOne(t: Table, name: string, aliases: seq<string>, iconKey: Option<string>,
                      preferredId: Option<string>, now: string, stamp: string)
    requires WellFormed(t) && CleanName(name) != []
    requires FindExisting(t, CleanName(name)).None?
    ensures var o := Create(t, name, aliases, iconKey, preferredId, now, stamp);
      var clean := CleanName(name);
      var baseId := BaseId(clean, preferredId);
      && o.result.Ok?
      && var item := o.result.value;
      && item == Exercise(item.exerciseId, clean, Lower(clean), CleanAliases(aliases), iconKey, now, now, None, None)
      && (item.exerciseId == baseId <==> baseId !in t.records)
      && (baseId in t.records ==> item.exerciseId == baseId + "-" + stamp)
      && o.table.records == t.records[item.exerciseId := item]
      && (item.exerciseId !in t.records ==> o.table.order == t.order + [item.exerciseId])
  {
    var clean := CleanName(name);
    var baseId := BaseId(clean, preferredId);
    if baseId in t.records {
      assert |baseId + "-" + stamp| > |baseId|;
    }
  }

  /** Creating again what was just created changes nothing and returns a
      record of the same name, while no more than 200 records match it. */
  lemma CreateIdempotent(t: Table, name: string, aliases: seq<string>, iconKey: Option<string>,
                         preferredId: Option<string>, now: string, stamp: string,
                         aliases': seq<string>, iconKey': Option<string>,
                         preferredId': Option<string>, now': string, stamp': string)
    requires WellFormed(t)
    requires var o := Create(t, name, aliases, iconKey, preferredId, now, stamp);
      o.result.Ok? && |Matching(Scan(o.table), CleanName(name))| <= 200
    ensures var o := Create(t, name, aliases, iconKey, preferredId, now, stamp);
      var o' := Create(o.table, name, aliases', iconKey', preferredId', now', stamp');
      o'.table == o.table && o'.result.Ok? && o'.result.value.nameLower == o.result.value.nameLower
  {
    var o := Create(t, name, aliases, iconKey, preferredId, now, stamp);
    var clean := CleanName(name);
    CleanNameIsClean(name);
    TrimOfTrimmed(clean);
    var x := o.result.value;
    assert x.nameLower == Lower(clean);
    assert x.exerciseId in o.table.records && o.table.records[x.exerciseId] == x;
    ScanMembers(o.table);
    CreateReturnsExisting(o.table, name, aliases', iconKey', preferredId', now', stamp', x);
  }

  /** `updateExercise` */
  function Update(t: Table, exerciseId: string, name: string, aliases: seq<string>,
                  iconKey: Option<string>, now: string): (o: Outcome)
    requires WellFormed(t)
    ensures WellFormed(o.table)
  {
    var id := Trim(exerciseId);
    if id == [] then Outcome(t, Err(IdRequired))
    else if id !in t.records then Outcome(t, Err(NotFoundPrefix + id))
    else
      var clean := CleanName(name);
      if clean == [] then Outcome(t, Err(NameRequired))
      else
        var existing := t.records[id];
        var icon := if iconKey.Some? && Trim(iconKey.value) != [] then Some(Trim(iconKey.value)) else existing.iconKey;
        var updated := existing.(name := clean, nameLower := Lower(clean), aliases := CleanAliases(aliases),
                                 iconKey := icon, updatedAt := now);
        Outcome(Put(t, updated), Ok(updated))
  }

  /** An update never adds a record: an unknown id is "not found" with the
      table unchanged, every failure leaves the table unchanged, and a
      success rewrites the one record in place, keeping its id, its creation
      time, its usage and order, and its icon when no icon is given. */
  lemma UpdateNeverCreates(t: Table, exerciseId: string, name: string, aliases: seq<string>,
                           iconKey: Option<string>, now: string)
    requires WellFormed(t)
    ensures var o := Update(t, exerciseId, name, aliases, iconKey, now);
      var id := Trim(exerciseId);
      && o.table.records.Keys == t.records.Keys && o.table.order == t.order
      && (o.result.Err? ==> o.table == t)
      && (id != [] && id !in t.records ==> o == Outcome(t, Err(NotFoundPrefix + id)))
      && (o.result.Ok? ==>
            var old_ := t.records[id];
            var r := o.result.value;
            && r.exerciseId == id && r.createdAt == old_.createdAt
            && r.usageCount == old_.usageCount && r.sortOrder == old_.sortOrder
            && r.name == CleanName(name) && r.nameLower == Lower(CleanName(name))
            && r.aliases == CleanAliases(aliases) && r.updatedAt == now
            && (iconKey.None? || AllSpace(iconKey.value) ==> r.iconKey == old_.iconKey)
            && o.table.records == t.records[id := r])
  {
    if iconKey.Some? { TrimIsEmptyIffBlank(iconKey.value); }
  }

  /** The outcome of each check of `updateExercise`, in order: a blank id,
      an unknown id, a blank name, and otherwise the update, whose icon is the
      trimmed given one when that is not blank. */
  lemma UpdateOutcomes(t: Table, exerciseId: string, name: string, aliases: seq<string>,
                       iconKey: Option<string>, now: string)
    requires WellFormed(t)
    ensures var o := Update(t, exerciseId, name, aliases, iconKey, now);
      var id := Trim(exerciseId);
      && (AllSpace(exerciseId) ==> o == Outcome(t, Err(IdRequired)))
      && (!AllSpace(exerciseId) && id !in t.records ==> o == Outcome(t, Err(NotFoundPrefix + id)))
      && (!AllSpace(exerciseId) && id in t.records && AllSpace(name) ==> o == Outcome(t, Err(NameRequired)))
      && (!AllSpace(exerciseId) && id in t.records && !AllSpace(name) ==>
            && o.result.Ok? && o.result.value.exerciseId == id && o.result.value.name == CleanName(name)
            && (iconKey.Some? && !AllSpace(iconKey.value) ==> o.result.value.iconKey == Some(Trim(iconKey.value))))
  {
    TrimIsEmptyIffBlank(exerciseId);
    TrimIsEmptyIffBlank(name);
    if iconKey.Some? { TrimIsEmptyIffBlank(iconKey.value); }
  }

  /** The alias list an `ensureExercise` call brings: `input.alias ? [input.alias] : []`. */
  function AliasList(alias: Option<string>): seq<string> {
    if alias.Some? && alias.value != [] then [alias.value] else []
  }

  /** The match branch of `ensureExercise`: a given alias the record does not
      hold yet is added, once, with a new update time; otherwise the record
      is returned as it is. */
  function AddAlias(t: Table, existing: Exercise, alias: Option<string>, now: string): (o: Outcome)
    requires WellFormed(t) && existing.exerciseId in t.records && t.records[existing.exerciseId] == existing
    ensures WellFormed(o.table) && o.table.records.Keys == t.records.Keys
    ensures o.result.Ok? && o.result.value.exerciseId == existing.exerciseId
    ensures o.table.records[existing.exerciseId] == o.result.value
  {
    if alias.Some? && alias.value != [] && alias.value !in existing.aliases then
      var updated := existing.(aliases := Uniq(existing.aliases + [alias.value]), updatedAt := now);
      PutShape(t, updated);
      Outcome(Put(t, updated), Ok(updated))
    else Outcome(t, Ok(existing))
  }

  /** `ensureExercise` */
  function Ensure(t: Table, name: string, alias: Option<string>, preferredId: Option<string>,
                  now: string, stamp: string): (o: Outcome)
    requires WellFormed(t)
    ensures WellFormed(o.table)
    ensures t.records.Keys <= o.table.records.Keys
    ensures o.result.Ok? ==> o.result.value.exerciseId in o.table.records
                             && o.table.records[o.result.value.exerciseId] == o.result.value
  {
    var trimmed := Trim(name);
    match FindExisting(t, trimmed)
    case Some(existing) => AddAlias(t, existing, alias, now)
    case None =>
      Create(t, trimmed, AliasList(alias), None, preferredId, now, stamp)
  }

  lemma DistinctSnoc(xs: seq<string>, a: string)
    requires Distinct(xs) && a !in xs
    ensures Distinct(xs + [a])
  {
  }

  /** On a name match a new alias is appended at the end and nothing else
      changes but the update time; a known or absent alias leaves the record
      and the table as they are. */
  lemma EnsureOnMatch(t: Table, name: string, alias: Option<string>, preferredId: Option<string>,
                      now: string, stamp: string)
    requires WellFormed(t) && FindExisting(t, Trim(name)).Some?
    ensures var x := FindExisting(t, Trim(name)).value;
      var o := Ensure(t, name, alias, preferredId, now, stamp);
      var isNew := alias.Some? && alias.value != [] && alias.value !in x.aliases;
      && o.result == Ok(if isNew then x.(aliases := x.aliases + [alias.value], updatedAt := now) else x)
      && o.table.order == t.order
      && o.table.records == t.records[x.exerciseId := o.result.value]
  {
    var x := FindExisting(t, Trim(name)).value;
    if alias.Some? && alias.value != [] && alias.value !in x.aliases {
      DistinctSnoc(x.aliases, alias.value);
      UniqOfDistinct(x.aliases + [alias.value]);
    } else {
      assert t.records[x.exerciseId := x] == t.records;
    }
  }

  /** With no record of the trimmed name among the 200 listed, `createExercise`
      is called with the trimmed name. It cleans the name further (inner
      whitespace runs become one space) and looks again: a record of the
      cleaned name within its window is returned with the table unchanged,
      and otherwise one record is created with the cleaned name and the alias
      as its only alias. A blank name is refused. */
  lemma EnsureCreates(t: Table, name: string, alias: Option<string>, preferredId: Option<string>,
                      now: string, stamp: string)
    requires WellFormed(t) && FindExisting(t, Trim(name)).None?
    ensures var o := Ensure(t, name, alias, preferredId, now, stamp);
      var clean := CleanName(name);
      && (clean == [] ==> o == Outcome(t, Err(NameRequired)))
      && (clean != [] && FindExisting(t, clean).Some? ==> o == Outcome(t, Ok(FindExisting(t, clean).value)))
      && (clean != [] && FindExisting(t, clean).None? ==>
            && o.result.Ok? && o.result.value.name == clean && o.result.value.nameLower == Lower(clean)
            && o.result.value.aliases == (if alias.Some? && !AllSpace(alias.value) then [Trim(alias.value)] else [])
            && o.table.records == t.records[o.result.value.exerciseId := o.result.value])
  {
    var trimmed := Trim(name);
    TrimShape(name);
    TrimOfTrimmed(trimmed);
    assert CleanName(trimmed) == CleanName(name);
    var clean := CleanName(name);
    if clean != [] && FindExisting(t, clean).None? {
      CreateAddsOne(t, trimmed, AliasList(alias), None, preferredId, now, stamp);
      EnsureCreatesAliases(alias);
    }
  }

  /** The aliases a created record gets from `ensureExercise`'s one alias. */
  lemma EnsureCreatesAliases(alias: Option<string>)
    ensures CleanAliases(AliasList(alias)) == (if alias.Some? && !AllSpace(alias.value) then [Trim(alias.value)] else [])
  {
    if alias.Some? && alias.value != [] {
      TrimIsEmptyIffBlank(alias.value);
      var ts := TrimmedNonBlank([alias.value]);
      if !AllSpace(alias.value) {
        assert ts == [Trim(alias.value)];
      } else {
        assert ts == [];
      }
      assert Uniq(ts) == ts;
    } else {
      assert AllSpace([]);
    }
  }

  /** `getExercisesByIds([id]).has(id)` is the test that the table holds a
      record with the (non-empty) id. */
  lemma GetOneById(t: Table, id: string)
    requires WellFormed(t) && id != []
    ensures (exists x :: x in GetByIds(t.records, [id]) && x.exerciseId == id) <==> id in t.records
  {
    if id in t.records {
      assert t.records[id] in GetByIds(t.records, [id]);
    }
  }

  // ---------------------------------------------------------------------------
  // The table as an object

  /** The exercise table the repository functions read and write. */
  class ExerciseTable {
    var records: map<string, Exercise>
    var order: seq<string>

    function State(): Table
      reads this
    {
      Table(records, order)
    }

    ghost predicate Valid()
      reads this
    {
      WellFormed(State())
    }

    constructor ()
      ensures Valid() && records == map[] && order == []
    {
      records := map[];
      order := [];
    }

    /** A `PutCommand` with the record. */
    method PutExercise(item: Exercise)
      requires Valid() && Distinct(item.aliases)
      modifies this
      ensures Valid()
      ensures State() == Put(old(State()), item)
    {
      if item.exerciseId !in records {
        order := order + [item.exerciseId];
      }
      records := records[item.exerciseId := item];
    }

    /** `listExercises(query, limit)`: at most `limit` stored records, each
      matching the query, in the listing order. */
    method ListExercises(query: string, limit: nat) returns (r: seq<Exercise>)
      requires Valid()
      ensures r == ListExercisesOf(Scan(State()), query, limit)
      ensures |r| <= limit
      ensures forall x :: x in r ==> x.exerciseId in records && records[x.exerciseId] == x
      ensures !AllSpace(query) ==> forall x :: x in r ==> MatchesQuery(x, Lower(Trim(query)))
      ensures forall i, j :: 0 <= i < j < |r| ==> ListedBefore(r[i], r[j])
    {
      ScanMembers(State());
      var all := Scan(State());
      r := ListExercisesOf(all, query, limit);
      ListExercisesOrdered(all, query, limit);
    }

    /** The lookup `createExercise` and `ensureExercise` both make:
      `listExercises(name, 200)`, then `.find` on the lower-cased name. */
    method FindNamed(name: string) returns (r: Option<Exercise>)
      requires Valid()
      ensures r == FindExisting(State(), name)
    {
      var listed := ListExercises(name, 200);
      r := FindByNameLower(listed, Lower(Trim(name)));
    }

    /** `createExercise`; a thrown error is an `Err`. */
    method CreateExercise(name: string, aliases: seq<string>, iconKey: Option<string>,
                          preferredId: Option<string>, now: string, stamp: string)
      returns (r: Result<Exercise>)
      requires Valid()
      modifies this
      ensures Valid()
      ensures Outcome(State(), r) == Create(old(State()), name, aliases, iconKey, preferredId, now, stamp)
      ensures old(records).Keys <= records.Keys
    {
      var clean := CleanName(name);
      if clean == [] {
        return Err(NameRequired);
      }
      var exact := FindNamed(clean);
      if exact.Some? {
        return Ok(exact.value);
      }
      var baseId := BaseId(clean, preferredId);
      var exerciseId := baseId;
      var byId := BatchGetByIds(records, [exerciseId]);
      GetOneById(State(), exerciseId);
      if exists x :: x in byId && x.exerciseId == exerciseId {
        exerciseId := baseId + "-" + stamp;
      }
      var item := Exercise(exerciseId, clean, Lower(clean), CleanAliases(aliases), iconKey, now, now, None, None);
      PutExercise(item);
      r := Ok(item);
    }

    /** `updateExercise`; a thrown error is an `Err`. */
    method UpdateExercise(exerciseId: string, name: string, aliases: seq<string>,
                          iconKey: Option<string>, now: string)
      returns (r: Result<Exercise>)
      requires Valid()
      modifies this
      ensures Valid()
      ensures Outcome(State(), r) == Update(old(State()), exerciseId, name, aliases, iconKey, now)
      ensures records.Keys == old(records).Keys
    {
      var id := Trim(exerciseId);
      if id == [] {
        return Err(IdRequired);
      }
      var found := BatchGetByIds(records, [id]);
      GetOneById(State(), id);
      if !(exists x :: x in found && x.exerciseId == id) {
        return Err(NotFoundPrefix + id);
      }
      var existing := records[id];
      var clean := CleanName(name);
      if clean == [] {
        return Err(NameRequired);
      }
      var cleanAliases := CleanAliases(aliases);
      var icon := existing.iconKey;
      if iconKey.Some? && Trim(iconKey.value) != [] {
        icon := Some(Trim(iconKey.value));
      }
      var updated := existing.(name := clean, nameLower := Lower(clean), aliases := cleanAliases,
                               iconKey := icon, updatedAt := now);
      ghost var before := State();
      assert Update(before, exerciseId, name, aliases, iconKey, now) == Outcome(Put(before, updated), Ok(updated));
      assert updated.exerciseId == id && id in before.records;
      PutKeepsKeys(before, updated);
      PutExercise(updated);
      r := Ok(updated);
    }

    /** The match branch of `ensureExercise`. */
    method AddAliasTo(x: Exercise, alias: Option<string>, now: string) returns (r: Result<Exercise>)
      requires Valid() && x.exerciseId in records && records[x.exerciseId] == x
      modifies this
      ensures Valid()
      ensures Outcome(State(), r) == AddAlias(old(State()), x, alias, now)
    {
      if alias.Some? && alias.value != [] && alias.value !in x.aliases {
        var updated := x.(aliases := Uniq(x.aliases + [alias.value]), updatedAt := now);
        PutExercise(updated);
        return Ok(updated);
      }
      return Ok(x);
    }

    /** `ensureExercise`; a thrown error is an `Err`. */
    method EnsureExercise(name: string, alias: Option<string>, preferredId: Option<string>,
                          now: string, stamp: string)
      returns (r: Result<Exercise>)
      requires Valid()
      modifies this
      ensures Valid()
      ensures Outcome(State(), r) == Ensure(old(State()), name, alias, preferredId, now, stamp)
      ensures old(records).Keys <= records.Keys
      ensures r.Ok? ==> r.value.exerciseId in records && records[r.value.exerciseId] == r.value
    {
      ghost var before := State();
      var trimmed := Trim(name);
      var existing := FindNamed(trimmed);
      if existing.Some? {
        r := AddAliasTo(existing.value, alias, now);
        assert Ensure(before, name, alias, preferredId, now, stamp) == AddAlias(before, existing.value, alias, now);
      } else {
        r := CreateExercise(trimmed, AliasList(alias), None, preferredId, now, stamp);
        assert Ensure(before, name, alias, preferredId, now, stamp)
          == Create(before, trimmed, AliasList(alias), None, preferredId, now, stamp);
      }
    }
  }
}
