/** scripts/rank-exercises.ts: count how often each exercise id occurs in
    the items of the live sessions, rank the exercise records by that count
    (most used first, then by name) and write each record back with its
    usage count, its position as `sortOrder` and a new update time. */
module Rank {
  import opened Wrappers
  import opened Text
  import opened Sorting
  import opened SessionsRepo

  /** Every item's exercise id, session by session. */
  function AllItemIds(sessions: seq<SessionV2>): seq<string> {
    if sessions == [] then []
    else AllItemIds(sessions[..|sessions| - 1]) + ItemIds(sessions[|sessions| - 1].exerciseItems)
  }

  /** `usage.get(id) || 0` */
  function UsageOf(usage: map<string, nat>, id: string): nat {
    if id in usage then usage[id] else 0
  }

  /** One more item: its id counts once more, every other id as before. */
  lemma CountStep(usage: map<string, nat>, counted: seq<string>, id: string)
    requires forall y :: UsageOf(usage, y) == multiset(counted)[y]
    requires forall y :: y in usage <==> y in counted
    ensures var usage' := usage[id := UsageOf(usage, id) + 1];
      && (forall y :: UsageOf(usage', y) == multiset(counted + [id])[y])
      && (forall y :: y in usage' <==> y in counted + [id])
  {
    var usage' := usage[id := UsageOf(usage, id) + 1];
    forall y ensures UsageOf(usage', y) == multiset(counted + [id])[y] {
      assert multiset(counted + [id]) == multiset(counted) + multiset{id};
    }
  }

  lemma AllItemIdsStep(sessions: seq<SessionV2>, k: nat)
    requires k < |sessions|
    ensures AllItemIds(sessions[..k + 1]) == AllItemIds(sessions[..k]) + ItemIds(sessions[k].exerciseItems)
  {
    assert sessions[..k + 1][..k] == sessions[..k];
  }

  /** The nested counting loops: `usage[id]` ends as the number of items,
      over all sessions, that carry `id`, and only ids that occur are keys. */
  method CountUsage(sessions: seq<SessionV2>) returns (usage: map<string, nat>)
    ensures forall id :: UsageOf(usage, id) == multiset(AllItemIds(sessions))[id]
    ensures forall id :: id in usage <==> id in AllItemIds(sessions)
  {
    usage := map[];
    ghost var counted: seq<string> := [];
    var k := 0;
    while k < |sessions|
      invariant 0 <= k <= |sessions|
      invariant counted == AllItemIds(sessions[..k])
      invariant forall id :: UsageOf(usage, id) == multiset(counted)[id]
      invariant forall id :: id in usage <==> id in counted
    {
      AllItemIdsStep(sessions, k);
      var items := sessions[k].exerciseItems;
      ghost var before := counted;
      var j := 0;
      while j < |items|
        invariant 0 <= j <= |items|
        invariant counted == before + ItemIds(items[..j])
        invariant forall id :: UsageOf(usage, id) == multiset(counted)[id]
        invariant forall id :: id in usage <==> id in counted
      {
        var id := items[j].exerciseId;
        assert ItemIds(items[..j + 1]) == ItemIds(items[..j]) + [id];
        CountStep(usage, counted, id);
        usage := usage[id := UsageOf(usage, id) + 1];
        counted := counted + [id];
        j := j + 1;
      }
      assert items[..j] == items;
      k := k + 1;
    }
    assert sessions[..k] == sessions;
  }

  /** The comparator: higher usage first, then name. */
  function RankedBefore(usage: map<string, nat>): (le: (Exercise, Exercise) -> bool) {
    (a: Exercise, b: Exercise) =>
      var ca, cb := UsageOf(usage, a.exerciseId), UsageOf(usage, b.exerciseId);
      if ca != cb then ca > cb else !StrLess(b.name, a.name)
  }

  lemma RankedBeforeIsTotalPreorder(usage: map<string, nat>)
    ensures TotalPreorder(RankedBefore(usage))
  {
    var le := RankedBefore(usage);
    forall a: Exercise, b: Exercise ensures le(a, b) || le(b, a) {
      if StrLess(a.name, b.name) { StrLessAsymmetric(a.name, b.name); }
    }
    forall a: Exercise, b: Exercise, c: Exercise | le(a, b) && le(b, c) ensures le(a, c) {
      if UsageOf(usage, a.exerciseId) == UsageOf(usage, b.exerciseId) == UsageOf(usage, c.exerciseId) {
        StrNotLessTransitive(a.name, b.name, c.name);
      }
    }
  }

  /** `ranked`: the records, most used first and, on equal usage, by name. */
  function Ranked(usage: map<string, nat>, exercises: seq<Exercise>): (r: seq<Exercise>)
    ensures multiset(r) == multiset(exercises)
    ensures forall i, j :: 0 <= i < j < |r| ==>
      UsageOf(usage, r[i].exerciseId) >= UsageOf(usage, r[j].exerciseId)
    ensures forall i, j :: 0 <= i < j < |r| && UsageOf(usage, r[i].exerciseId) == UsageOf(usage, r[j].exerciseId) ==>
      !StrLess(r[j].name, r[i].name)
  {
    RankedBeforeIsTotalPreorder(usage);
    var r := SortBy(exercises, RankedBefore(usage));
    assert forall i, j :: 0 <= i < j < |r| ==> RankedBefore(usage)(r[i], r[j]);
    r
  }

  /** The record written for the exercise at position i of the ranking. */
  function Reranked(x: Exercise, usage: map<string, nat>, i: nat, now: string): (r: Exercise)
    ensures r.exerciseId == x.exerciseId && r.name == x.name && r.nameLower == x.nameLower
    ensures r.aliases == x.aliases && r.iconKey == x.iconKey && r.createdAt == x.createdAt
    ensures r.usageCount == Some(UsageOf(usage, x.exerciseId)) && r.sortOrder == Some(i + 1)
    ensures r.updatedAt == now
  {
    x.(usageCount := Some(UsageOf(usage, x.exerciseId)), sortOrder := Some(i + 1), updatedAt := now)
  }

  /** The orders the rewritten records carry are exactly 1 to n, each once
      (order n is carried by the record ranked n-th), and a record that no session uses gets a usage count of 0. */
  lemma RerankedOrders(ranked: seq<Exercise>, usage: map<string, nat>, now: string)
    ensures forall i :: 0 <= i < |ranked| ==>
      var o := Reranked(ranked[i], usage, i, now).sortOrder; o.Some? && 1 <= o.value <= |ranked|
    ensures forall n: int :: 1 <= n <= |ranked| ==> Reranked(ranked[n - 1], usage, n - 1, now).sortOrder == Some(n)
    ensures forall i, j :: 0 <= i < j < |ranked| ==>
      Reranked(ranked[i], usage, i, now).sortOrder != Reranked(ranked[j], usage, j, now).sortOrder
    ensures forall i :: 0 <= i < |ranked| && ranked[i].exerciseId !in usage ==>
      Reranked(ranked[i], usage, i, now).usageCount == Some(0)
  {
  }

  /** The records of the ranking have distinct ids: they are the table's
      records, each once. */
  lemma RankedIdsDistinct(t: Table, usage: map<string, nat>)
    requires WellFormed(t)
    ensures var r := Ranked(usage, Scan(t));
      forall i, j :: 0 <= i < j < |r| ==> r[i].exerciseId != r[j].exerciseId
    ensures var r := Ranked(usage, Scan(t));
      forall i :: 0 <= i < |r| ==> r[i].exerciseId in t.records && t.records[r[i].exerciseId] == r[i]
    ensures forall id :: id in t.records ==> exists i :: 0 <= i < |Ranked(usage, Scan(t))| && Ranked(usage, Scan(t))[i].exerciseId == id
  {
    var s := Scan(t);
    var r := Ranked(usage, s);
    ScanMembers(t);
    assert Distinct(s) by {
      forall i, j | 0 <= i < j < |s| ensures s[i] != s[j] {
        assert s[i].exerciseId == t.order[i] && s[j].exerciseId == t.order[j];
      }
    }
    DistinctOfPermutation(s, r);
    forall i | 0 <= i < |r| ensures r[i].exerciseId in t.records && t.records[r[i].exerciseId] == r[i] {
      assert r[i] in multiset(s);
    }
    forall id | id in t.records ensures exists i :: 0 <= i < |r| && r[i].exerciseId == id {
      assert t.records[id] in s;
      assert t.records[id] in multiset(r);
      var i :| 0 <= i < |r| && r[i] == t.records[id];
    }
  }

  /** After the first i writes: the first i ranked records are written back
      reranked, the others are as scanned. */
  ghost predicate WrittenUpTo(t: Table, ranked: seq<Exercise>, usage: map<string, nat>, now: string, i: nat) {
    forall j :: 0 <= j < |ranked| ==>
      && ranked[j].exerciseId in t.records
      && t.records[ranked[j].exerciseId] == (if j < i then Reranked(ranked[j], usage, j, now) else ranked[j])
  }

  /** One write keeps the scan order and the ids, and moves the frontier by
      one: the ids are distinct, so it touches no other ranked record. */
  lemma WriteStep(t: Table, ranked: seq<Exercise>, usage: map<string, nat>, now: string, i: nat)
    requires WellFormed(t) && i < |ranked|
    requires forall a, b :: 0 <= a < b < |ranked| ==> ranked[a].exerciseId != ranked[b].exerciseId
    requires WrittenUpTo(t, ranked, usage, now, i)
    ensures Distinct(Reranked(ranked[i], usage, i, now).aliases)
    ensures var t' := Put(t, Reranked(ranked[i], usage, i, now));
      && t'.order == t.order && t'.records.Keys == t.records.Keys
      && WrittenUpTo(t', ranked, usage, now, i + 1)
  {
    var updated := Reranked(ranked[i], usage, i, now);
    assert t.records[ranked[i].exerciseId] == ranked[i];
    PutShape(t, updated);
    var t' := Put(t, updated);
    assert t'.records == t.records[ranked[i].exerciseId := updated];
    forall j | 0 <= j < |ranked| && j != i
      ensures t'.records[ranked[j].exerciseId] == t.records[ranked[j].exerciseId]
    {
      assert ranked[j].exerciseId != ranked[i].exerciseId;
    }
  }

  /** The writing loop: each ranked record is put back with its usage and
      its position; the ids are distinct, so each write touches its own
      record. */
  method WriteRanking(table: ExerciseTable, ranked: seq<Exercise>, usage: map<string, nat>, now: string)
    requires table.Valid()
    requires forall i, j :: 0 <= i < j < |ranked| ==> ranked[i].exerciseId != ranked[j].exerciseId
    requires forall i :: 0 <= i < |ranked| ==>
      ranked[i].exerciseId in table.records && table.records[ranked[i].exerciseId] == ranked[i]
    modifies table
    ensures table.Valid()
    ensures table.order == old(table.order) && table.records.Keys == old(table.records).Keys
    ensures forall i :: 0 <= i < |ranked| ==>
      table.records[ranked[i].exerciseId] == Reranked(ranked[i], usage, i, now)
  {
    var i := 0;
    while i < |ranked|
      invariant 0 <= i <= |ranked|
      invariant table.Valid()
      invariant table.order == old(table.order) && table.records.Keys == old(table.records).Keys
      invariant WrittenUpTo(table.State(), ranked, usage, now, i)
    {
      WriteStep(table.State(), ranked, usage, now, i);
      table.PutExercise(Reranked(ranked[i], usage, i, now));
      i := i + 1;
    }
    assert WrittenUpTo(table.State(), ranked, usage, now, |ranked|);
  }

  /** `run`: count over the live sessions of `items` (what
      `listRawSessionsV2` returns), rank the scanned records, and put each
      record back with its usage count and its order. `now` stands for the
      update time of every write. */
  method Run(table: ExerciseTable, items: seq<SessionV2>, now: string)
    returns (ranked: seq<Exercise>, usage: map<string, nat>)
    requires table.Valid()
    modifies table
    ensures table.Valid()
    ensures forall id :: UsageOf(usage, id) == multiset(AllItemIds(ListRawSessionsV2(items)))[id]
    ensures ranked == Ranked(usage, Scan(old(table.State())))
    ensures table.order == old(table.order) && table.records.Keys == old(table.records).Keys
    ensures forall i :: 0 <= i < |ranked| ==>
      ranked[i].exerciseId in table.records && table.records[ranked[i].exerciseId] == Reranked(ranked[i], usage, i, now)
  {
    var sessions := ListRawSessionsV2(items);
    usage := CountUsage(sessions);
    var exercises := Scan(table.State());
    ranked := Ranked(usage, exercises);
    RankedIdsDistinct(table.State(), usage);
    WriteRanking(table, ranked, usage, now);
  }
}
