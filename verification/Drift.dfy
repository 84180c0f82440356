/**
 Comparing two versions of a module file by file.  `FileChange` says what a
 change is, from the contents alone; detection works on stored hashes and
 stored parses, in loops over maps.
 */
module Drift {
  import opened Base
  import opened Proto
  import opened Severity
  import opened Events
  import opened Store

  datatype Change = Change(eventType: EventType, previousHash: string, currentHash: string, severity: DriftSeverity)

  function Get<V>(m: map<string, V>, k: string): Option<V> {
    if k in m then Some(m[k]) else None
  }

  /** What happened to one file, judged from its contents on both sides. */
  function FileChange(env: Env, previous: Option<string>, current: Option<string>): Option<Change> {
    match (previous, current)
    case (None, None) => None
    case (None, Some(y)) => Some(Change(Added, "", env.hash(y), Info))
    case (Some(x), None) => Some(Change(Deleted, env.hash(x), "", Critical))
    case (Some(x), Some(y)) =>
      if env.hash(x) == env.hash(y) then None
      else Some(Change(Modified, env.hash(x), env.hash(y), SeverityOf(env.Parse(x), env.Parse(y))))
  }

  /** What detection computes for one file, from stored hashes and stored parses. */
  function ChangeFor(f: string, previous: map<string, string>, current: map<string, string>,
                     previousParsed: map<string, ProtoFile>, currentParsed: map<string, ProtoFile>): Option<Change>
  {
    if f in current && f !in previous then Some(Change(Added, "", current[f], Info))
    else if f in previous && f !in current then Some(Change(Deleted, previous[f], "", Critical))
    else if f in current && current[f] != previous[f] then
      Some(Change(Modified, previous[f], current[f], SeverityOf(Get(previousParsed, f), Get(currentParsed, f))))
    else None
  }

  type Changes = string -> Option<Change>

  function ChangeOf(e: DriftEvent): Change {
    Change(e.eventType, e.previousHash, e.currentHash, e.severity)
  }

  predicate DistinctFiles(events: seq<DriftEvent>) {
    forall i, j :: 0 <= i < j < |events| ==> events[i].filename != events[j].filename
  }

  /** The events are exactly the changes: right, at most one per file, and none missing. */
  ghost predicate IsDiff(events: seq<DriftEvent>, moduleId: Id, tagId: Id, changes: Changes) {
    && DistinctFiles(events)
    && (forall e :: e in events ==>
          e.moduleId == moduleId && e.tagId == tagId && changes(e.filename) == Some(ChangeOf(e)))
    && (forall f :: changes(f).Some? ==> exists e :: e in events && e.filename == f)
  }

  // ---------------------------------------------------------------------------
  // Detection

  function HashesOf(db: Db, tagId: Id): map<string, string> {
    map f | f in FileNames(db, tagId) && db.files[FileKey(tagId, f)].hash.Some? :: db.files[FileKey(tagId, f)].hash.value
  }

  function ParsedOf(db: Db, tagId: Id): map<string, ProtoFile> {
    map f | f in (set k | k in db.parsed && k.tagId == tagId :: k.filename) :: db.parsed[FileKey(tagId, f)]
  }

  ghost predicate IsPrevious(db: Db, t: Id, p: Option<Id>)
    requires t in db.tags
  {
    var row := db.tags[t];
    match p
    case None => forall s :: OfModule(db, row.moduleId, s) ==> db.tags[s].updatedAt >= row.updatedAt
    case Some(q) =>
      && OfModule(db, row.moduleId, q) && db.tags[q].updatedAt < row.updatedAt
      && forall s :: OfModule(db, row.moduleId, s) && db.tags[s].updatedAt < row.updatedAt ==>
           db.tags[s].updatedAt <= db.tags[q].updatedAt
  }

  /** `WHERE module_id = $1 AND id != $2 AND updated_at < $3 ORDER BY updated_at DESC LIMIT 1`. */
  method GetPreviousTagId(db: Db, t: Id) returns (p: Option<Id>)
    requires t in db.tags
    ensures IsPrevious(db, t, p)
  {
    var row := db.tags[t];
    var rest := set s | s in db.tags && OfModule(db, row.moduleId, s) && s != t && db.tags[s].updatedAt < row.updatedAt;
    ghost var all := rest;
    p := None;
    while rest != {}
      invariant rest <= all
      invariant p.Some? ==> p.value in all
      invariant p.None? ==> rest == all
      invariant forall s :: s in all - rest ==> p.Some? && db.tags[s].updatedAt <= db.tags[p.value].updatedAt
      decreases |rest|
    {
      var s :| s in rest;
      if p.None? || db.tags[s].updatedAt > db.tags[p.value].updatedAt {
        p := Some(s);
      }
      rest := rest - {s};
    }
    assert forall s :: OfModule(db, row.moduleId, s) && db.tags[s].updatedAt < row.updatedAt ==> s in all;
  }

  datatype Detection = Detection(added: seq<DriftEvent>, modified: seq<DriftEvent>, deleted: seq<DriftEvent>) {
    predicate HasDrift() { |added| > 0 || |modified| > 0 || |deleted| > 0 }

    function TotalChanges(): nat { |added| + |modified| + |deleted| }

    function Events(): seq<DriftEvent> { added + modified + deleted }
  }

  /** The changes that the stored rows of two tags show; none when there is no earlier tag. */
  ghost function StoredChanges(db: Db, p: Option<Id>, t: Id): Changes {
    f => if p.None? then None
         else ChangeFor(f, HashesOf(db, p.value), HashesOf(db, t), ParsedOf(db, p.value), ParsedOf(db, t))
  }

  function EventOf(moduleId: Id, tagId: Id, now: nat, f: string, c: Change): DriftEvent {
    DriftEvent(moduleId, tagId, f, c.eventType, c.previousHash, c.currentHash, c.severity, now)
  }

  /** The events of one type, for the files in the order in which a loop visits them. */
  ghost function EventsIn(order: seq<string>, changes: Changes, kind: EventType, moduleId: Id, tagId: Id, now: nat): seq<DriftEvent> {
    if order == [] then []
    else
      var f := order[|order| - 1];
      EventsIn(order[..|order| - 1], changes, kind, moduleId, tagId, now) +
      (if changes(f).Some? && changes(f).value.eventType == kind
       then [EventOf(moduleId, tagId, now, f, changes(f).value)] else [])
  }

  lemma EventsInNext(order: seq<string>, f: string, changes: Changes, kind: EventType, moduleId: Id, tagId: Id, now: nat)
    ensures EventsIn(order + [f], changes, kind, moduleId, tagId, now)
         == EventsIn(order, changes, kind, moduleId, tagId, now) +
            (if changes(f).Some? && changes(f).value.eventType == kind
             then [EventOf(moduleId, tagId, now, f, changes(f).value)] else [])
  {
    assert (order + [f])[..|order|] == order;
  }

  lemma {:induction false} EventsInMembers(order: seq<string>, changes: Changes, kind: EventType, moduleId: Id, tagId: Id, now: nat, e: DriftEvent)
    ensures e in EventsIn(order, changes, kind, moduleId, tagId, now) <==>
            e.filename in order && changes(e.filename).Some? && changes(e.filename).value.eventType == kind &&
            e == EventOf(moduleId, tagId, now, e.filename, changes(e.filename).value)
  {
    if order != [] {
      var init, last := order[..|order| - 1], order[|order| - 1];
      EventsInMembers(init, changes, kind, moduleId, tagId, now, e);
      assert order == init + [last];
    }
  }

  ghost predicate DistinctOrder(order: seq<string>) {
    forall i, j :: 0 <= i < j < |order| ==> order[i] != order[j]
  }

  lemma {:induction false} EventsInDistinct(order: seq<string>, changes: Changes, kind: EventType, moduleId: Id, tagId: Id, now: nat)
    requires DistinctOrder(order)
    ensures DistinctFiles(EventsIn(order, changes, kind, moduleId, tagId, now))
  {
    if order != [] {
      var init, last := order[..|order| - 1], order[|order| - 1];
      EventsInDistinct(init, changes, kind, moduleId, tagId, now);
      forall e | e in EventsIn(init, changes, kind, moduleId, tagId, now)
        ensures e.filename != last
      {
        EventsInMembers(init, changes, kind, moduleId, tagId, now, e);
        var i :| 0 <= i < |init| && init[i] == e.filename;
        assert order[i] != order[|order| - 1];
      }
    }
  }

  /** The loop has visited these files of the map, each once. */
  ghost predicate Visited(order: seq<string>, all: set<string>, rest: set<string>) {
    DistinctOrder(order) && rest <= all && forall f :: f in order <==> f in all - rest
  }

  lemma VisitNext(order: seq<string>, all: set<string>, rest: set<string>, f: string)
    requires Visited(order, all, rest) && f in rest
    ensures Visited(order + [f], all, rest - {f})
  {
    assert forall i :: 0 <= i < |order| ==> order[i] in order;
  }

  /** The events of one type are exactly the changes of that type, one per file. */
  ghost predicate IsPart(events: seq<DriftEvent>, changes: Changes, kind: EventType, moduleId: Id, tagId: Id, now: nat) {
    && DistinctFiles(events)
    && forall e :: e in events <==>
         && changes(e.filename).Some? && changes(e.filename).value.eventType == kind
         && e == EventOf(moduleId, tagId, now, e.filename, changes(e.filename).value)
  }

  /** Added and modified files are on the current side, deleted ones on the previous side. */
  ghost predicate Sided(changes: Changes, current: set<string>, previous: set<string>) {
    forall f :: changes(f).Some? ==>
      if changes(f).value.eventType == Deleted then f in previous else f in current
  }

  /** A loop over all the files on the side of a type collects all the changes of that type. */
  lemma VisitedIsPart(order: seq<string>, all: set<string>, changes: Changes, kind: EventType, moduleId: Id, t: Id, now: nat)
    requires Visited(order, all, {})
    requires forall f :: changes(f).Some? && changes(f).value.eventType == kind ==> f in all
    ensures IsPart(EventsIn(order, changes, kind, moduleId, t, now), changes, kind, moduleId, t, now)
  {
    EventsInDistinct(order, changes, kind, moduleId, t, now);
    forall e
      ensures e in EventsIn(order, changes, kind, moduleId, t, now) <==>
              && changes(e.filename).Some? && changes(e.filename).value.eventType == kind
              && e == EventOf(moduleId, t, now, e.filename, changes(e.filename).value)
    {
      EventsInMembers(order, changes, kind, moduleId, t, now, e);
    }
  }

  /** Files of the current tag: added ones, and modified ones with the severity of their parses, loaded when first needed. */
  method DetectAddedAndModified(db: Db, p: Id, t: Id, moduleId: Id, now: nat)
    returns (added: seq<DriftEvent>, modified: seq<DriftEvent>)
    ensures IsPart(added, StoredChanges(db, Some(p), t), Added, moduleId, t, now)
    ensures IsPart(modified, StoredChanges(db, Some(p), t), Modified, moduleId, t, now)
  {
    var currentFiles, previousFiles := HashesOf(db, t), HashesOf(db, p);
    var currentParsed: Option<map<string, ProtoFile>>, previousParsed: Option<map<string, ProtoFile>> := None, None;
    added, modified := [], [];
    ghost var changes, order := StoredChanges(db, Some(p), t), [];
    var rest := currentFiles.Keys;
    while rest != {}
      invariant Visited(order, currentFiles.Keys, rest)
      invariant currentParsed.Some? ==> currentParsed.value == ParsedOf(db, t)
      invariant previousParsed.Some? ==> previousParsed.value == ParsedOf(db, p)
      invariant added == EventsIn(order, changes, Added, moduleId, t, now)
      invariant modified == EventsIn(order, changes, Modified, moduleId, t, now)
      decreases |rest|
    {
      var f :| f in rest;
      EventsInNext(order, f, changes, Added, moduleId, t, now);
      EventsInNext(order, f, changes, Modified, moduleId, t, now);
      VisitNext(order, currentFiles.Keys, rest, f);
      if f !in previousFiles {
        added := added + [DriftEvent(moduleId, t, f, Added, "", currentFiles[f], Info, now)];
      } else if currentFiles[f] != previousFiles[f] {
        if currentParsed.None? {
          currentParsed := Some(ParsedOf(db, t));
        }
        if previousParsed.None? {
          previousParsed := Some(ParsedOf(db, p));
        }
        var severity := DetermineSeverity(Get(previousParsed.value, f), Get(currentParsed.value, f));
        modified := modified + [DriftEvent(moduleId, t, f, Modified, previousFiles[f], currentFiles[f], severity, now)];
      }
      order := order + [f];
      rest := rest - {f};
    }
    StoredChangesAreSided(db, p, t);
    VisitedIsPart(order, currentFiles.Keys, changes, Added, moduleId, t, now);
    VisitedIsPart(order, currentFiles.Keys, changes, Modified, moduleId, t, now);
  }

  method DetectDeleted(db: Db, p: Id, t: Id, moduleId: Id, now: nat) returns (deleted: seq<DriftEvent>)
    ensures IsPart(deleted, StoredChanges(db, Some(p), t), Deleted, moduleId, t, now)
  {
    var currentFiles, previousFiles := HashesOf(db, t), HashesOf(db, p);
    deleted := [];
    ghost var changes, order := StoredChanges(db, Some(p), t), [];
    var rest := previousFiles.Keys;
    while rest != {}
      invariant Visited(order, previousFiles.Keys, rest)
      invariant deleted == EventsIn(order, changes, Deleted, moduleId, t, now)
      decreases |rest|
    {
      var f :| f in rest;
      EventsInNext(order, f, changes, Deleted, moduleId, t, now);
      VisitNext(order, previousFiles.Keys, rest, f);
      if f !in currentFiles {
        deleted := deleted + [DriftEvent(moduleId, t, f, Deleted, previousFiles[f], "", Critical, now)];
      }
      order := order + [f];
      rest := rest - {f};
    }
    StoredChangesAreSided(db, p, t);
    VisitedIsPart(order, previousFiles.Keys, changes, Deleted, moduleId, t, now);
  }

  /** Each event is in the list of its type. */
  ghost predicate IsSorted(d: Detection) {
    && (forall e :: e in d.added ==> e.eventType == Added)
    && (forall e :: e in d.modified ==> e.eventType == Modified)
    && (forall e :: e in d.deleted ==> e.eventType == Deleted)
  }

  lemma JoinDetections(changes: Changes, moduleId: Id, t: Id, now: nat, d: Detection)
    requires IsPart(d.added, changes, Added, moduleId, t, now)
    requires IsPart(d.modified, changes, Modified, moduleId, t, now)
    requires IsPart(d.deleted, changes, Deleted, moduleId, t, now)
    ensures IsDiff(d.Events(), moduleId, t, changes) && IsSorted(d)
  {
    DistinctConcat(d.added, d.modified);
    DistinctConcat(d.added + d.modified, d.deleted);
    forall f | changes(f).Some?
      ensures exists e :: e in d.Events() && e.filename == f
    {
      var e := EventOf(moduleId, t, now, f, changes(f).value);
      assert e in d.added || e in d.modified || e in d.deleted;
      assert e in d.Events();
    }
  }

  lemma DistinctConcat(a: seq<DriftEvent>, b: seq<DriftEvent>)
    requires DistinctFiles(a) && DistinctFiles(b)
    requires forall x, y :: x in a && y in b ==> x.filename != y.filename
    ensures DistinctFiles(a + b)
  {
    forall i, j | 0 <= i < |a| && 0 <= j < |b|
      ensures a[i].filename != b[j].filename
    {
      assert a[i] in a && b[j] in b;
    }
  }

  lemma StoredChangesAreSided(db: Db, p: Id, t: Id)
    ensures Sided(StoredChanges(db, Some(p), t), HashesOf(db, t).Keys, HashesOf(db, p).Keys)
  {
  }

  /** The added, modified and deleted events of two tags, spelled out from the stored hashes and parses. */
  ghost predicate IsSpelled(db: Db, p: Id, t: Id, now: nat, d: Detection) {
    forall e :: e in d.added || e in d.modified || e in d.deleted ==>
      e.detectedAt == now && EventIsSpelled(HashesOf(db, p), HashesOf(db, t), ParsedOf(db, p), ParsedOf(db, t), e)
  }

  /** One change, by its type. */
  lemma ChangeIsSpelled(f: string, previous: map<string, string>, current: map<string, string>,
                        previousParsed: map<string, ProtoFile>, currentParsed: map<string, ProtoFile>, c: Change)
    requires ChangeFor(f, previous, current, previousParsed, currentParsed) == Some(c)
    ensures c.eventType == Added ==>
              f !in previous && f in current && c.previousHash == "" && c.currentHash == current[f] && c.severity == Info
    ensures c.eventType == Deleted ==>
              f in previous && f !in current && c.previousHash == previous[f] && c.currentHash == "" && c.severity == Critical
    ensures c.eventType == Modified ==>
              && f in previous && f in current && c.previousHash == previous[f] && c.currentHash == current[f]
              && c.previousHash != c.currentHash && c.severity == SeverityOf(Get(previousParsed, f), Get(currentParsed, f))
  {
  }

  lemma DetectionIsSpelled(db: Db, p: Id, t: Id, moduleId: Id, now: nat, d: Detection)
    requires IsPart(d.added, StoredChanges(db, Some(p), t), Added, moduleId, t, now)
    requires IsPart(d.modified, StoredChanges(db, Some(p), t), Modified, moduleId, t, now)
    requires IsPart(d.deleted, StoredChanges(db, Some(p), t), Deleted, moduleId, t, now)
    ensures IsSpelled(db, p, t, now, d)
  {
    PartIsSpelled(db, p, t, moduleId, now, d.added, Added);
    PartIsSpelled(db, p, t, moduleId, now, d.modified, Modified);
    PartIsSpelled(db, p, t, moduleId, now, d.deleted, Deleted);
  }

  ghost predicate EventIsSpelled(previous: map<string, string>, current: map<string, string>,
                                 previousParsed: map<string, ProtoFile>, currentParsed: map<string, ProtoFile>, e: DriftEvent)
  {
    match e.eventType
    case Added =>
      && e.filename !in previous && e.filename in current && e.previousHash == "" && e.currentHash == current[e.filename]
      && e.severity == Info
    case Deleted =>
      && e.filename in previous && e.filename !in current && e.previousHash == previous[e.filename] && e.currentHash == ""
      && e.severity == Critical
    case Modified =>
      && e.filename in previous && e.filename in current
      && e.previousHash == previous[e.filename] && e.currentHash == current[e.filename] && e.previousHash != e.currentHash
      && e.severity == SeverityOf(Get(previousParsed, e.filename), Get(currentParsed, e.filename))
  }

  lemma PartIsSpelled(db: Db, p: Id, t: Id, moduleId: Id, now: nat, events: seq<DriftEvent>, kind: EventType)
    requires IsPart(events, StoredChanges(db, Some(p), t), kind, moduleId, t, now)
    ensures forall e :: e in events ==>
              e.eventType == kind && e.detectedAt == now &&
              EventIsSpelled(HashesOf(db, p), HashesOf(db, t), ParsedOf(db, p), ParsedOf(db, t), e)
  {
    forall e | e in events
      ensures e.eventType == kind && e.detectedAt == now
      ensures EventIsSpelled(HashesOf(db, p), HashesOf(db, t), ParsedOf(db, p), ParsedOf(db, t), e)
    {
      var c := StoredChanges(db, Some(p), t)(e.filename).value;
      ChangeIsSpelled(e.filename, HashesOf(db, p), HashesOf(db, t), ParsedOf(db, p), ParsedOf(db, t), c);
    }
  }

  method DetectDrift(db: Db, tagId: Id, now: nat) returns (r: Option<Detection>, ghost p: Option<Id>)
    ensures r.None? <==> tagId !in db.tags
    ensures r.Some? ==> IsPrevious(db, tagId, p)
    ensures r.Some? ==> IsDiff(r.value.Events(), db.tags[tagId].moduleId, tagId, StoredChanges(db, p, tagId)) && IsSorted(r.value)
    ensures r.Some? && p.Some? ==> IsSpelled(db, p.value, tagId, now, r.value)
    ensures r.Some? && p.None? ==> !r.value.HasDrift()
  {
    p := None;
    if tagId !in db.tags {
      return None, p;
    }
    var moduleId := db.tags[tagId].moduleId;
    var previous := GetPreviousTagId(db, tagId);
    p := previous;
    if previous.None? {
      return Some(Detection([], [], [])), p;
    }
    var added, modified := DetectAddedAndModified(db, previous.value, tagId, moduleId, now);
    var deleted := DetectDeleted(db, previous.value, tagId, moduleId, now);
    JoinDetections(StoredChanges(db, p, tagId), moduleId, tagId, now, Detection(added, modified, deleted));
    DetectionIsSpelled(db, previous.value, tagId, moduleId, now, Detection(added, modified, deleted));
    return Some(Detection(added, modified, deleted)), p;
  }

  // ---------------------------------------------------------------------------
  // Replaying a diff

  function Patch(files: map<string, string>, events: seq<DriftEvent>): map<string, string> {
    if events == [] then files
    else
      var e := events[|events| - 1];
      var before := Patch(files, events[..|events| - 1]);
      match e.eventType
      case Deleted => before - {e.filename}
      case _ => before[e.filename := e.currentHash]
  }

  lemma {:induction false} PatchElsewhere(files: map<string, string>, events: seq<DriftEvent>, f: string)
    requires forall e :: e in events ==> e.filename != f
    ensures Get(Patch(files, events), f) == Get(files, f)
  {
    if events != [] {
      assert events[|events| - 1] in events;
      PatchElsewhere(files, events[..|events| - 1], f);
    }
  }

  lemma {:induction false} PatchAt(files: map<string, string>, events: seq<DriftEvent>, i: nat)
    requires DistinctFiles(events) && i < |events|
    ensures Get(Patch(files, events), events[i].filename) ==
            if events[i].eventType == Deleted then None else Some(events[i].currentHash)
  {
    var init, last := events[..|events| - 1], events[|events| - 1];
    if i < |events| - 1 {
      PatchAt(files, init, i);
      assert events[i].filename != events[|events| - 1].filename;
    }
  }

  /** Replaying the events on the previous hashes gives the current ones; there is no event exactly when they agree. */
  lemma DiffReplays(previous: map<string, string>, current: map<string, string>, changes: Changes,
                    events: seq<DriftEvent>, moduleId: Id, tagId: Id)
    requires IsDiff(events, moduleId, tagId, changes) && Turns(changes, previous, current)
    ensures Patch(previous, events) == current
    ensures events == [] <==> previous == current
  {
    var patched := Patch(previous, events);
    forall f
      ensures Get(patched, f) == Get(current, f)
    {
      if changes(f).Some? {
        var e :| e in events && e.filename == f;
        var i :| 0 <= i < |events| && events[i] == e;
        PatchAt(previous, events, i);
      } else {
        PatchElsewhere(previous, events, f);
      }
    }
    assert forall f :: f in patched <==> Get(patched, f).Some?;
    assert forall f :: f in current <==> Get(current, f).Some?;
    assert forall f :: f in patched ==> Get(patched, f) == Some(patched[f]);
    if events != [] {
      assert changes(events[0].filename).Some?;
      assert Get(previous, events[0].filename) != Get(current, events[0].filename);
    }
  }

  /** There is a change exactly where the hashes differ, and it says what is there now. */
  ghost predicate Turns(changes: Changes, previous: map<string, string>, current: map<string, string>) {
    forall f ::
      && (changes(f).Some? <==> Get(previous, f) != Get(current, f))
      && (changes(f).Some? ==>
            Get(current, f) == if changes(f).value.eventType == Deleted then None else Some(changes(f).value.currentHash))
  }

  /** The stored changes of a tag replay into its stored hashes. */
  lemma StoredChangesTurn(db: Db, p: Id, t: Id)
    ensures Turns(StoredChanges(db, Some(p), t), HashesOf(db, p), HashesOf(db, t))
  {
  }

  function ChangedFiles(previous: map<string, string>, current: map<string, string>): set<string> {
    set f | f in previous.Keys + current.Keys && Get(previous, f) != Get(current, f)
  }

  /** The result's own summary: drift exactly when the hashes differ, and one change per differing file. */
  lemma DetectionCounts(previous: map<string, string>, current: map<string, string>, changes: Changes,
                        d: Detection, moduleId: Id, tagId: Id)
    requires IsDiff(d.Events(), moduleId, tagId, changes) && Turns(changes, previous, current)
    ensures d.HasDrift() <==> previous != current
    ensures d.TotalChanges() == |ChangedFiles(previous, current)|
  {
    DiffReplays(previous, current, changes, d.Events(), moduleId, tagId);
    var files := set e | e in d.Events() :: e.filename;
    FilesCount(d.Events());
    forall f
      ensures f in files <==> f in ChangedFiles(previous, current)
    {
      assert f in files <==> exists e :: e in d.Events() && e.filename == f;
      assert changes(f).Some? <==> Get(previous, f) != Get(current, f);
    }
    assert files == ChangedFiles(previous, current);
  }

  lemma {:induction false} FilesCount(events: seq<DriftEvent>)
    requires DistinctFiles(events)
    ensures |set e | e in events :: e.filename| == |events|
  {
    if events != [] {
      var init, last := events[..|events| - 1], events[|events| - 1];
      FilesCount(init);
      assert events == init + [last];
      assert (set e | e in events :: e.filename) == (set e | e in init :: e.filename) + {last.filename};
    }
  }

  /** A diff never collides with itself on the unique index: into a table without this tag, every event goes in. */
  lemma {:induction false} DiffIsSavedWhole(table: seq<PgRow>, firstId: Id, events: seq<DriftEvent>, tagId: Id)
    requires DistinctFiles(events)
    requires (forall e :: e in events ==> e.tagId == tagId) && forall r :: r in table ==> r.tagId != tagId
    ensures PgSave(table, firstId, events) == table + RowsFor(firstId, events)
  {
    if events != [] {
      var init, last := events[..|events| - 1], events[|events| - 1];
      DiffIsSavedWhole(table, firstId, init, tagId);
      var before := table + RowsFor(firstId, init);
      NoRowForLast(table, firstId, events, tagId);
      assert RowsFor(firstId, events) == RowsFor(firstId, init) + [PgRowOf(firstId + |init|, last)];
    }
  }

  lemma NoRowForLast(table: seq<PgRow>, firstId: Id, events: seq<DriftEvent>, tagId: Id)
    requires events != [] && DistinctFiles(events)
    requires (forall e :: e in events ==> e.tagId == tagId) && forall r :: r in table ==> r.tagId != tagId
    ensures !PgHas(table + RowsFor(firstId, events[..|events| - 1]), KeyOf(events[|events| - 1]))
  {
    assert events[|events| - 1] in events;
    forall r | r in table + RowsFor(firstId, events[..|events| - 1])
      ensures PgKey(r) != KeyOf(events[|events| - 1])
    {
      RowIsNotLast(table, firstId, events, tagId, r);
    }
  }

  lemma RowIsNotLast(table: seq<PgRow>, firstId: Id, events: seq<DriftEvent>, tagId: Id, r: PgRow)
    requires events != [] && DistinctFiles(events) && r in table + RowsFor(firstId, events[..|events| - 1])
    requires events[|events| - 1].tagId == tagId && forall r :: r in table ==> r.tagId != tagId
    ensures PgKey(r) != KeyOf(events[|events| - 1])
  {
    if r !in table {
      var i :| 0 <= i < |events| - 1 && r == PgRowOf(firstId + i, events[..|events| - 1][i]);
      assert events[i].filename != events[|events| - 1].filename;
    }
  }

  function RowsFor(firstId: Id, events: seq<DriftEvent>): seq<PgRow> {
    seq(|events|, i requires 0 <= i < |events| => PgRowOf(firstId + i, events[i]))
  }
}
