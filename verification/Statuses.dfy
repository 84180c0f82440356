/**
 The dependency-drift report: for each dependency of a tag and each newer tag
 of that dependency with recorded drift, the worst severity and what to do.
 */
module Statuses {
  import opened Base
  import opened Severity
  import opened Events
  import opened Store
  import opened Drift
  import opened Daemon
  import opened Search
  import opened Dependencies
  import opened Advice

  method RecordedRank(table: seq<PgRow>, m: Id, t: Id) returns (rank: nat)
    ensures rank == MaxRank(table, m, t)
  {
    rank := 0;
    for i := 0 to |table|
      invariant rank == MaxRank(table[..i], m, t)
    {
      assert table[..i + 1][..i] == table[..i];
      if table[i].moduleId == m && table[i].tagId == t && Rank(table[i].severity) > rank {
        rank := Rank(table[i].severity);
      }
    }
    assert table[..|table|] == table;
  }

  method OldestOf(db: Db, candidates: set<Id>) returns (best: Id)
    requires candidates != {} && candidates <= db.tags.Keys
    ensures best in candidates
    ensures forall t :: t in candidates ==> db.tags[best].updatedAt <= db.tags[t].updatedAt
  {
    best :| best in candidates;
    var rest := candidates;
    while rest != {}
      invariant rest <= candidates && best in candidates
      invariant forall t :: t in candidates - rest ==> db.tags[best].updatedAt <= db.tags[t].updatedAt
      decreases |rest|
    {
      var t :| t in rest;
      if db.tags[t].updatedAt < db.tags[best].updatedAt {
        best := t;
      }
      rest := rest - {t};
    }
  }

  /** The newer tags of the module, oldest first. */
  ghost predicate AreNewer(db: Db, pinned: Id, ids: seq<Id>)
    requires pinned in db.tags
  {
    && (forall t :: t in ids <==> IsNewer(db, pinned, t))
    && OldestFirst(db, ids)
  }

  ghost predicate OldestFirst(db: Db, ids: seq<Id>) {
    forall i, j :: 0 <= i < j < |ids| ==>
      && ids[i] != ids[j] && ids[i] in db.tags && ids[j] in db.tags
      && db.tags[ids[i]].updatedAt <= db.tags[ids[j]].updatedAt
  }

  lemma OldestGoesLast(db: Db, ids: seq<Id>, t: Id)
    requires OldestFirst(db, ids) && t in db.tags
    requires forall s :: s in ids ==> s != t && s in db.tags && db.tags[s].updatedAt <= db.tags[t].updatedAt
    ensures OldestFirst(db, ids + [t])
  {
    assert forall i :: 0 <= i < |ids| ==> ids[i] in ids;
  }

  method NewerTags(db: Db, pinned: Id) returns (ids: seq<Id>)
    requires pinned in db.tags
    ensures AreNewer(db, pinned, ids)
  {
    var rest := set t | t in db.tags && IsNewer(db, pinned, t);
    ids := [];
    while rest != {}
      invariant rest <= db.tags.Keys
      invariant forall t :: IsNewer(db, pinned, t) <==> t in ids || t in rest
      invariant forall t :: t in ids ==> t !in rest && t in db.tags
      invariant forall s, t :: s in ids && t in rest ==> db.tags[s].updatedAt <= db.tags[t].updatedAt
      invariant OldestFirst(db, ids)
      decreases |rest|
    {
      var t := OldestOf(db, rest);
      OldestGoesLast(db, ids, t);
      ids := ids + [t];
      rest := rest - {t};
    }
  }

  /** With distinct times, the pinned tag and the query's rows are the chain that the advice is about. */
  lemma NewerTagsAreChain(db: Db, pinned: Id, ids: seq<Id>)
    requires pinned in db.tags && AreNewer(db, pinned, ids) && DistinctTimes(db, db.tags[pinned].moduleId)
    ensures IsChain(db, [pinned] + ids)
  {
    var chain := [pinned] + ids;
    assert forall i :: 0 < i < |chain| ==> chain[i] == ids[i - 1] && ids[i - 1] in ids;
    forall i, j | 0 <= i < j < |chain|
      ensures chain[i] in db.tags && chain[j] in db.tags && db.tags[chain[i]].updatedAt < db.tags[chain[j]].updatedAt
    {
      assert IsNewer(db, pinned, chain[j]);
      if i > 0 {
        assert IsNewer(db, pinned, chain[i]);
        assert ids[i - 1] != ids[j - 1];
      }
    }
    forall s | IsNewer(db, pinned, s)
      ensures s in chain
    {
      assert s in ids;
    }
  }

  /** The status of one newer tag, or none if nothing is recorded on it. */
  function StatusFor(db: Db, d: Dep, m: Id, v: Id): seq<Status>
    requires v in db.tags
  {
    var rank := MaxRank(db.events, m, v);
    if rank == 0 then []
    else [Status(d.name, d.tag, db.tags[v].name, SeverityFromRank(rank), RecommendationFrom(SeverityFromRank(rank)))]
  }

  function StatusList(db: Db, d: Dep, m: Id, newer: seq<Id>): seq<Status>
    requires forall t :: t in newer ==> t in db.tags
  {
    if newer == [] then []
    else StatusList(db, d, m, newer[..|newer| - 1]) + StatusFor(db, d, m, newer[|newer| - 1])
  }

  /** The statuses of one dependency: one for each newer tag with recorded drift, oldest first, and no other. */
  ghost predicate IsReport(db: Db, d: Dep, pinned: Id, statuses: seq<Status>)
    requires pinned in db.tags
  {
    exists newer :: AreNewer(db, pinned, newer) && statuses == StatusList(db, d, db.tags[pinned].moduleId, newer)
  }

  method StatusesOf(db: Db, d: Dep, pinned: Id) returns (statuses: seq<Status>)
    requires pinned in db.tags
    ensures IsReport(db, d, pinned, statuses)
  {
    var m := db.tags[pinned].moduleId;
    var newer := NewerTags(db, pinned);
    statuses := [];
    assert forall t :: t in newer ==> IsNewer(db, pinned, t);
    for i := 0 to |newer|
      invariant forall t :: t in newer[..i] ==> t in db.tags
      invariant statuses == StatusList(db, d, m, newer[..i])
    {
      assert newer[i] in newer;
      assert newer[..i + 1][..i] == newer[..i];
      var rank := RecordedRank(db.events, m, newer[i]);
      if rank != 0 {
        var severity := SeverityFromRank(rank);
        statuses := statuses + [Status(d.name, d.tag, db.tags[newer[i]].name, severity, RecommendationFrom(severity))];
      }
    }
    assert newer[..|newer|] == newer;
  }

  // ---------------------------------------------------------------------------
  // The whole report

  function Flatten(parts: seq<seq<Status>>): seq<Status> {
    if parts == [] then [] else Flatten(parts[..|parts| - 1]) + parts[|parts| - 1]
  }

  /** What one dependency row contributes: its report, or nothing when its target is gone. */
  ghost predicate IsPartFor(db: Db, e: Edge, part: seq<Status>) {
    if Resolves(db, e.dependencyTagId)
    then exists d :: Is(db, d, e.dependencyTagId) && IsReport(db, d, e.dependencyTagId, part)
    else part == []
  }

  /** Each dependency row of the tag once, in any order, with its part. */
  ghost predicate AreParts(db: Db, rows: set<Edge>, order: seq<Edge>, parts: seq<seq<Status>>) {
    && |parts| == |order|
    && (forall e :: e in order <==> e in rows)
    && (forall i, j :: 0 <= i < j < |order| ==> order[i] != order[j])
    && (forall i :: 0 <= i < |order| ==> IsPartFor(db, order[i], parts[i]))
  }

  function RowsFrom(db: Db, tagId: Id): set<Edge> {
    set e | e in db.edges && e.tagId == tagId
  }

  /** The whole report: the parts of all dependency rows, one after the other. */
  ghost predicate IsFullReport(db: Db, tagId: Id, statuses: seq<Status>) {
    exists order, parts :: AreParts(db, RowsFrom(db, tagId), order, parts) && statuses == Flatten(parts)
  }

  /** An edge whose target is gone drops out of the joined query; an unknown tag is an error. */
  method GetModuleDependencyDriftStatuses(db: Db, name: string, tag: string)
    returns (r: Result<seq<Status>, LookupError>, ghost tagId: Id)
    requires UniqueRows(db)
    ensures NothingToResolve(db, name, tag) ==> r == Ok([])
    ensures tag != "" && !TagExists(db, name, tag) ==> r == Err(TagNotFound)
    ensures r.Ok? && !NothingToResolve(db, name, tag) ==>
              && (exists resolved :: ResolvesTo(db, name, tag, resolved) && IsTag(db, name, resolved, tagId))
              && IsFullReport(db, tagId, r.value)
    ensures r.Ok? <==> NothingToResolve(db, name, tag) || tag == "" || TagExists(db, name, tag)
  {
    tagId := 0;
    var actual := tag;
    if tag == "" {
      var latest := FindLatest(db, name);
      if latest.None? {
        return Ok([]), tagId;
      }
      actual := latest.value;
    }
    var found := FindTag(db, name, actual);
    if found.None? {
      return Err(TagNotFound), tagId;
    }
    tagId := found.value;
    var statuses := ReportAll(db, found.value);
    assert ResolvesTo(db, name, tag, actual) && TagExists(db, name, actual);
    return Ok(statuses), tagId;
  }

  method ReportAll(db: Db, tagId: Id) returns (statuses: seq<Status>)
    requires UniqueRows(db)
    ensures IsFullReport(db, tagId, statuses)
  {
    statuses := [];
    var rest := RowsFrom(db, tagId);
    ghost var all, order: seq<Edge>, parts: seq<seq<Status>> := rest, [], [];
    while rest != {}
      invariant rest <= all && AreParts(db, all - rest, order, parts) && statuses == Flatten(parts)
      decreases |rest|
    {
      var e :| e in rest;
      var target := Describe(db, e.dependencyTagId);
      var more := [];
      if target.Some? {
        more := StatusesOf(db, target.value, e.dependencyTagId);
      }
      PartAdded(db, all - rest, order, parts, e, more);
      assert all - rest + {e} == all - (rest - {e});
      statuses := statuses + more;
      order, parts, rest := order + [e], parts + [more], rest - {e};
    }
    assert all - rest == all;
  }

  lemma PartAdded(db: Db, done: set<Edge>, order: seq<Edge>, parts: seq<seq<Status>>, e: Edge, more: seq<Status>)
    requires AreParts(db, done, order, parts) && e !in done && IsPartFor(db, e, more)
    ensures AreParts(db, done + {e}, order + [e], parts + [more])
    ensures Flatten(parts + [more]) == Flatten(parts) + more
  {
    assert forall i :: 0 <= i < |order| ==> order[i] in order;
    assert (parts + [more])[..|parts|] == parts;
  }

  // ---------------------------------------------------------------------------
  // Reading the report

  lemma {:induction false} FlattenHolds(parts: seq<seq<Status>>, i: nat, s: Status)
    requires i < |parts| && s in parts[i]
    ensures s in Flatten(parts)
  {
    if i < |parts| - 1 {
      FlattenHolds(parts[..|parts| - 1], i, s);
    }
  }

  lemma {:induction false} ListHolds(db: Db, d: Dep, m: Id, newer: seq<Id>, v: Id, s: Status)
    requires (forall t :: t in newer ==> t in db.tags) && v in newer && s in StatusFor(db, d, m, v)
    ensures s in StatusList(db, d, m, newer)
  {
    if v != newer[|newer| - 1] {
      ListHolds(db, d, m, newer[..|newer| - 1], v, s);
    }
  }

  /** Every newer tag with recorded drift shows in the part of every row that leads to the pinned tag. */
  lemma PartHolds(db: Db, e: Edge, d: Dep, part: seq<Status>, v: Id, s: Status)
    requires UniqueRows(db) && Is(db, d, e.dependencyTagId) && IsPartFor(db, e, part)
    requires IsNewer(db, e.dependencyTagId, v) && s in StatusFor(db, d, db.tags[e.dependencyTagId].moduleId, v)
    ensures s in part
  {
    var d' :| Is(db, d', e.dependencyTagId) && IsReport(db, d', e.dependencyTagId, part);
    NodeIsUnique(db, d', d, e.dependencyTagId);
    var m := db.tags[e.dependencyTagId].moduleId;
    var newer :| AreNewer(db, e.dependencyTagId, newer) && part == StatusList(db, d, m, newer);
    ListHolds(db, d, m, newer, v, s);
  }

  lemma ReportHolds(db: Db, tagId: Id, statuses: seq<Status>, e: Edge, d: Dep, v: Id, s: Status)
    requires UniqueRows(db) && IsFullReport(db, tagId, statuses)
    requires e in db.edges && e.tagId == tagId && Is(db, d, e.dependencyTagId)
    requires IsNewer(db, e.dependencyTagId, v) && s in StatusFor(db, d, db.tags[e.dependencyTagId].moduleId, v)
    ensures s in statuses
  {
    var order, parts :| AreParts(db, RowsFrom(db, tagId), order, parts) && statuses == Flatten(parts);
    assert e in order;
    var i :| 0 <= i < |order| && order[i] == e;
    PartHolds(db, e, d, parts[i], v, s);
    FlattenHolds(parts, i, s);
  }

  /** The report has no status, of this dependency, that asks for a review of one of the first k newer tags. */
  ghost predicate Reassures(db: Db, statuses: seq<Status>, d: Dep, chain: seq<Id>, k: nat)
    requires k < |chain| && forall i :: 0 < i <= k ==> chain[i] in db.tags
  {
    forall s, i :: s in statuses && 0 < i <= k && s.dependency == d.name && s.currentTag == d.tag ==>
      s.targetTag == db.tags[chain[i]].name ==> s.recommendation == SuggestUpdate
  }

  lemma UnreportedIsSuggested(db: Db, tagId: Id, statuses: seq<Status>, e: Edge, d: Dep, chain: seq<Id>, k: nat, i: nat)
    requires UniqueRows(db) && IsFullReport(db, tagId, statuses)
    requires e in db.edges && e.tagId == tagId && Is(db, d, e.dependencyTagId)
    requires IsChain(db, chain) && chain[0] == e.dependencyTagId && 0 < i <= k < |chain|
    requires Reassures(db, statuses, d, chain, k)
    ensures RecommendationFrom(SeverityFromRank(MaxRank(db.events, db.tags[chain[0]].moduleId, chain[i]))) == SuggestUpdate
  {
    var m, v := db.tags[chain[0]].moduleId, chain[i];
    assert OfModule(db, m, v) && db.tags[chain[0]].updatedAt < db.tags[chain[i]].updatedAt;
    if MaxRank(db.events, m, v) > 0 {
      var s := StatusFor(db, d, m, v)[0];
      ReportHolds(db, tagId, statuses, e, d, v, s);
      assert s.targetTag == db.tags[chain[i]].name;
    }
  }

  /**
   Reading the query's answer: if no status of a dependency up to the k-th newer tag asks for a review,
   then updating that dependency straight to that tag changes nothing beyond info.
   */
  lemma ReportedUpdatesAreSafe(db: Db, env: Env, tagId: Id, statuses: seq<Status>, e: Edge, d: Dep, chain: seq<Id>, k: nat, f: string)
    requires Consistent(db, env) && CollisionFree(env) && ParsesHaveBodies(db, env)
    requires IsFullReport(db, tagId, statuses)
    requires e in db.edges && e.tagId == tagId && Is(db, d, e.dependencyTagId)
    requires StepsRecorded(db, env, chain, k) && 0 < k && chain[0] == e.dependencyTagId
    requires (forall i :: 0 < i <= k ==> chain[i] in db.tags) && Reassures(db, statuses, d, chain, k)
    ensures FileRank(env, ContentOf(db, chain[0], f), ContentOf(db, chain[k], f)) <= Rank(Info)
  {
    forall i | 0 < i <= k
      ensures RecommendationFrom(SeverityFromRank(MaxRank(db.events, db.tags[chain[0]].moduleId, chain[i]))) == SuggestUpdate
    {
      UnreportedIsSuggested(db, tagId, statuses, e, d, chain, k, i);
    }
    SuggestedUpdatesAreSafe(db, env, chain, k, f);
  }

  // ---------------------------------------------------------------------------
  // What a status says about the recorded events

  /** Some event of this severity is recorded on the tag. */
  ghost predicate HasRow(table: seq<PgRow>, m: Id, v: Id, s: DriftSeverity) {
    exists r :: r in table && r.moduleId == m && r.tagId == v && r.severity == s
  }

  ghost predicate HasRows(table: seq<PgRow>, m: Id, v: Id) {
    exists r :: r in table && r.moduleId == m && r.tagId == v
  }

  /** The status names the dependency, its tag and the newer tag, and tells the worst event on it and what to do. */
  ghost predicate Tells(db: Db, d: Dep, pinned: Id, v: Id, s: Status)
    requires pinned in db.tags
  {
    var m := db.tags[pinned].moduleId;
    && IsNewer(db, pinned, v) && s.dependency == d.name && s.currentTag == d.tag && s.targetTag == db.tags[v].name
    && HasRows(db.events, m, v)
    && (s.severity == Critical <==> HasRow(db.events, m, v, Critical))
    && (s.severity == Warning <==> !HasRow(db.events, m, v, Critical) && HasRow(db.events, m, v, Warning))
    && (s.severity == Info <==> !HasRow(db.events, m, v, Critical) && !HasRow(db.events, m, v, Warning))
    && (s.recommendation == AlertReview <==> HasRow(db.events, m, v, Critical) || HasRow(db.events, m, v, Warning))
  }

  lemma RankByRows(table: seq<PgRow>, m: Id, v: Id)
    ensures MaxRank(table, m, v) == 3 <==> HasRow(table, m, v, Critical)
    ensures MaxRank(table, m, v) == 2 <==> !HasRow(table, m, v, Critical) && HasRow(table, m, v, Warning)
    ensures MaxRank(table, m, v) == 0 <==> !HasRows(table, m, v)
    ensures MaxRank(table, m, v) <= 3
  {
    MaxRankBound(table, m, v);
    forall r | r in table && r.moduleId == m && r.tagId == v
      ensures Rank(r.severity) <= MaxRank(table, m, v)
    {
      MaxRankCovers(table, m, v, r);
    }
  }

  lemma StatusForTells(db: Db, d: Dep, pinned: Id, v: Id, s: Status)
    requires pinned in db.tags && IsNewer(db, pinned, v)
    requires s in StatusFor(db, d, db.tags[pinned].moduleId, v)
    ensures Tells(db, d, pinned, v, s)
  {
    RankByRows(db.events, db.tags[pinned].moduleId, v);
  }

  lemma {:induction false} ListSource(db: Db, d: Dep, m: Id, newer: seq<Id>, s: Status) returns (v: Id)
    requires (forall t :: t in newer ==> t in db.tags) && s in StatusList(db, d, m, newer)
    ensures v in newer && s in StatusFor(db, d, m, v)
  {
    var init, last := newer[..|newer| - 1], newer[|newer| - 1];
    if s in StatusFor(db, d, m, last) {
      v := last;
    } else {
      v := ListSource(db, d, m, init, s);
    }
  }

  lemma {:induction false} FlattenSource(parts: seq<seq<Status>>, s: Status) returns (i: nat)
    requires s in Flatten(parts)
    ensures i < |parts| && s in parts[i]
  {
    if s in parts[|parts| - 1] {
      i := |parts| - 1;
    } else {
      i := FlattenSource(parts[..|parts| - 1], s);
    }
  }

  lemma PartTells(db: Db, e: Edge, part: seq<Status>, s: Status) returns (d: Dep, v: Id)
    requires IsPartFor(db, e, part) && s in part
    ensures Is(db, d, e.dependencyTagId) && Tells(db, d, e.dependencyTagId, v, s)
  {
    d :| Is(db, d, e.dependencyTagId) && IsReport(db, d, e.dependencyTagId, part);
    var m := db.tags[e.dependencyTagId].moduleId;
    var newer :| AreNewer(db, e.dependencyTagId, newer) && part == StatusList(db, d, m, newer);
    v := ListSource(db, d, m, newer, s);
    StatusForTells(db, d, e.dependencyTagId, v, s);
  }

  /** Every status of the answer is about one of the tag's dependencies and tells the truth about a newer tag of it. */
  lemma StatusTellsTruth(db: Db, tagId: Id, statuses: seq<Status>, s: Status) returns (e: Edge, d: Dep, v: Id)
    requires IsFullReport(db, tagId, statuses) && s in statuses
    ensures e in db.edges && e.tagId == tagId && Is(db, d, e.dependencyTagId) && Tells(db, d, e.dependencyTagId, v, s)
  {
    var order, parts :| AreParts(db, RowsFrom(db, tagId), order, parts) && statuses == Flatten(parts);
    var i := FlattenSource(parts, s);
    e := order[i];
    assert e in order;
    d, v := PartTells(db, e, parts[i], s);
  }

  /** Every newer tag of every dependency with a recorded event has its status in the answer. */
  lemma EveryEventIsTold(db: Db, tagId: Id, statuses: seq<Status>, e: Edge, d: Dep, v: Id) returns (s: Status)
    requires UniqueRows(db) && IsFullReport(db, tagId, statuses)
    requires e in db.edges && e.tagId == tagId && Is(db, d, e.dependencyTagId)
    requires IsNewer(db, e.dependencyTagId, v) && HasRows(db.events, db.tags[e.dependencyTagId].moduleId, v)
    ensures s in statuses && Tells(db, d, e.dependencyTagId, v, s)
  {
    var m := db.tags[e.dependencyTagId].moduleId;
    RankByRows(db.events, m, v);
    s := StatusFor(db, d, m, v)[0];
    ReportHolds(db, tagId, statuses, e, d, v, s);
    StatusForTells(db, d, e.dependencyTagId, v, s);
  }

  /** The later tag holds everything that the earlier one holds, unchanged. */
  ghost predicate OnlyAdds(db: Db, p: Id, t: Id) {
    forall f :: ContentOf(db, p, f).Some? ==> ContentOf(db, t, f) == ContentOf(db, p, f)
  }

  /** An upgrade that only adds files has only info events. */
  lemma AdditionsAreInfo(db: Db, env: Env, p: Id, t: Id, r: PgRow)
    requires t in db.tags && DistinctTimes(db, db.tags[t].moduleId) && IsPrevious(db, t, Some(p)) && OnlyAdds(db, p, t)
    requires ExactFor(db, env, t) && r in db.events && r.tagId == t
    ensures r.eventType == Added && r.severity == Info
  {
    RowsOfMembers(db.events, t);
    ExactIsTrue(db, env, t);
    if IsPrevious(db, t, None) {
      PreviousIsUnique(db, t, Some(p), None);
    }
    var q :| IsPrevious(db, t, Some(q)) && RowsSay(db, env, q, t, RowsOf(db.events, t));
    PreviousIsUnique(db, t, Some(p), Some(q));
    assert RowSays(env, ContentOf(db, p, r.filename), ContentOf(db, t, r.filename), r);
    assert ContentOf(db, p, r.filename).Some? ==> ContentOf(db, t, r.filename) == ContentOf(db, p, r.filename);
  }

  /** And it is suggested: whatever the answer says about it is info. */
  lemma AdditionsAreSuggested(db: Db, env: Env, p: Id, t: Id, d: Dep, pinned: Id, s: Status)
    requires t in db.tags && DistinctTimes(db, db.tags[t].moduleId) && IsPrevious(db, t, Some(p)) && OnlyAdds(db, p, t)
    requires ExactFor(db, env, t) && pinned in db.tags && Tells(db, d, pinned, t, s)
    ensures s.severity == Info && s.recommendation == SuggestUpdate
  {
    forall r | r in db.events && r.tagId == t
      ensures r.severity == Info
    {
      AdditionsAreInfo(db, env, p, t, r);
    }
  }
}
