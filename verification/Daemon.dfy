/**
 The proto-parsing daemon.  A run parses every unprocessed tag, then hashes
 what has no hash, then compares each newly processed tag with the tag before
 it and saves the differences.  A file that does not parse stops the run before
 any comparison.
 */
module Daemon {
  import opened Base
  import opened Proto
  import opened Severity
  import opened Events
  import opened Store
  import opened History
  import opened Drift
  import opened Registry

  // ---------------------------------------------------------------------------
  // What the event table says about a tag

  function RowsOf(table: seq<PgRow>, tagId: Id): seq<PgRow> {
    if table == [] then []
    else
      var last := table[|table| - 1];
      RowsOf(table[..|table| - 1], tagId) + (if last.tagId == tagId then [last] else [])
  }

  function RowChange(r: PgRow): Change {
    Change(r.eventType, Coalesce(r.previousHash), Coalesce(r.currentHash), r.severity)
  }

  /** The rows are exactly the changes: right, one per file, none missing. */
  ghost predicate RowsExact(rows: seq<PgRow>, changes: Changes) {
    && DistinctRows(rows)
    && (forall r :: r in rows ==> changes(r.filename) == Some(RowChange(r)))
    && (forall f :: changes(f).Some? ==> exists r :: r in rows && r.filename == f)
  }

  /** The changes between the contents of two tags; none when there is no earlier tag. */
  ghost function TagChanges(db: Db, env: Env, p: Option<Id>, t: Id): Changes {
    f => if p.None? then None else FileChange(env, Get(Contents(db, p.value), f), Get(Contents(db, t), f))
  }

  /** The recorded events of a tag are exactly its differences from the tag before it. */
  ghost predicate ExactFor(db: Db, env: Env, t: Id)
    requires t in db.tags
  {
    exists p :: IsPrevious(db, t, p) && RowsExact(RowsOf(db.events, t), TagChanges(db, env, p, t))
  }

  // ---------------------------------------------------------------------------
  // What a run does to the tables

  ghost predicate SameTags(db: Db, after: Db) {
    && after.tags.Keys == db.tags.Keys
    && forall t :: t in db.tags ==>
         && after.tags[t].(processed := db.tags[t].processed) == db.tags[t]
         && (db.tags[t].processed ==> after.tags[t].processed)
  }

  ghost predicate SameContents(db: Db, after: Db) {
    && after.files.Keys == db.files.Keys
    && forall k :: k in db.files ==>
         && after.files[k].content == db.files[k].content
         && (db.files[k].hash.Some? ==> after.files[k].hash == db.files[k].hash)
  }

  ghost predicate AllHashed(db: Db) { forall k :: k in db.files ==> db.files[k].hash.Some? }

  ghost predicate AllProcessed(db: Db) { forall t :: t in db.tags ==> db.tags[t].processed }

  /** Only parses have been stored and tags marked. */
  ghost predicate OnlyParsed(db: Db, after: Db) {
    after == db.(parsed := after.parsed, tags := after.tags) && SameTags(db, after)
  }

  /** The file is not the same on both sides: it is there on one only, or its hashes differ. */
  predicate Differs(env: Env, x: Option<string>, y: Option<string>) {
    x.Some? != y.Some? || (x.Some? && y.Some? && env.hash(x.value) != env.hash(y.value))
  }

  /** What a recorded event says about its file, from the contents of the tag and of the one before it. */
  ghost predicate RowSays(env: Env, x: Option<string>, y: Option<string>, r: PgRow) {
    && Coalesce(r.previousHash) == (if x.Some? then env.hash(x.value) else "")
    && Coalesce(r.currentHash) == (if y.Some? then env.hash(y.value) else "")
    && match r.eventType
       case Added => x.None? && y.Some? && r.severity == Info
       case Deleted => x.Some? && y.None? && r.severity == Critical
       case Modified =>
         x.Some? && y.Some? && Differs(env, x, y) && r.severity == SeverityOf(env.Parse(x.value), env.Parse(y.value))
  }

  /** The rows say the truth about every file that differs, once each, and name no other. */
  ghost predicate RowsSay(db: Db, env: Env, p: Id, t: Id, rows: seq<PgRow>) {
    && DistinctRows(rows)
    && (forall r :: r in rows ==> RowSays(env, Get(Contents(db, p), r.filename), Get(Contents(db, t), r.filename), r))
    && (forall f :: Differs(env, Get(Contents(db, p), f), Get(Contents(db, t), f)) ==> exists r :: r in rows && r.filename == f)
  }

  /** The record of a tag in its own terms: nothing for the first tag, and the truth against the tag before any other. */
  ghost predicate RecordIsTrue(db: Db, env: Env, t: Id)
    requires t in db.tags
  {
    || (IsPrevious(db, t, None) && RowsOf(db.events, t) == [])
    || exists p :: IsPrevious(db, t, Some(p)) && RowsSay(db, env, p, t, RowsOf(db.events, t))
  }

  lemma ChangeSays(env: Env, x: Option<string>, y: Option<string>, r: PgRow)
    ensures FileChange(env, x, y) == Some(RowChange(r)) <==> RowSays(env, x, y, r)
  {
  }

  lemma ChangeIsDifference(env: Env, x: Option<string>, y: Option<string>)
    ensures FileChange(env, x, y).Some? <==> Differs(env, x, y)
  {
  }

  lemma RowsSayIff(db: Db, env: Env, p: Id, t: Id, rows: seq<PgRow>)
    ensures RowsExact(rows, TagChanges(db, env, Some(p), t)) <==> RowsSay(db, env, p, t, rows)
  {
    var changes := TagChanges(db, env, Some(p), t);
    forall r | r in rows
      ensures changes(r.filename) == Some(RowChange(r)) <==>
              RowSays(env, Get(Contents(db, p), r.filename), Get(Contents(db, t), r.filename), r)
    {
      ChangeSays(env, Get(Contents(db, p), r.filename), Get(Contents(db, t), r.filename), r);
    }
    forall f
      ensures changes(f).Some? <==> Differs(env, Get(Contents(db, p), f), Get(Contents(db, t), f))
    {
      ChangeIsDifference(env, Get(Contents(db, p), f), Get(Contents(db, t), f));
    }
  }

  lemma FirstHasNoRows(db: Db, env: Env, t: Id, rows: seq<PgRow>)
    ensures RowsExact(rows, TagChanges(db, env, None, t)) <==> rows == []
  {
    if rows != [] {
      assert rows[0] in rows && TagChanges(db, env, None, t)(rows[0].filename) == None;
    }
  }

  /** An exact record is one that says the truth: info for added files, critical for deleted ones, the severity of the two parses for modified ones. */
  lemma ExactIsTrue(db: Db, env: Env, t: Id)
    requires t in db.tags
    ensures ExactFor(db, env, t) <==> RecordIsTrue(db, env, t)
  {
    FirstHasNoRows(db, env, t, RowsOf(db.events, t));
    forall p: Id
      ensures RowsExact(RowsOf(db.events, t), TagChanges(db, env, Some(p), t)) <==> RowsSay(db, env, p, t, RowsOf(db.events, t))
    {
      RowsSayIff(db, env, p, t, RowsOf(db.events, t));
    }
    if ExactFor(db, env, t) {
      var p :| IsPrevious(db, t, p) && RowsExact(RowsOf(db.events, t), TagChanges(db, env, p, t));
      if p.Some? {
        assert IsPrevious(db, t, Some(p.value)) && RowsSay(db, env, p.value, t, RowsOf(db.events, t));
      }
    }
    if RecordIsTrue(db, env, t) {
      if IsPrevious(db, t, None) && RowsOf(db.events, t) == [] {
        assert RowsExact(RowsOf(db.events, t), TagChanges(db, env, None, t));
      } else {
        var p :| IsPrevious(db, t, Some(p)) && RowsSay(db, env, p, t, RowsOf(db.events, t));
        assert RowsExact(RowsOf(db.events, t), TagChanges(db, env, Some(p), t));
      }
    }
  }

  /** Every tag that the run has processed has a true record. */
  ghost predicate NewRecordsAreTrue(db: Db, after: Db, env: Env) {
    forall t :: t in db.tags && !db.tags[t].processed ==> t in after.tags && RecordIsTrue(after, env, t)
  }

  lemma CompletedIsTrue(db: Db, after: Db, env: Env)
    requires Completed(db, after, env)
    ensures NewRecordsAreTrue(db, after, env)
  {
    forall t | t in db.tags && !db.tags[t].processed
      ensures t in after.tags && RecordIsTrue(after, env, t)
    {
      ExactIsTrue(after, env, t);
    }
  }

  /** A run that returned without error. */
  ghost predicate Completed(db: Db, after: Db, env: Env) {
    && after.modules == db.modules && after.drafts == db.drafts && after.edges == db.edges
    && SameTags(db, after) && SameContents(db, after)
    && Consistent(after, env) && AllProcessed(after)
    && (AllProcessed(db) || AllHashed(after))
    && (forall t :: t in db.tags && db.tags[t].processed ==> RowsOf(after.events, t) == RowsOf(db.events, t))
    && (forall t :: t in db.tags && !db.tags[t].processed ==> ExactFor(after, env, t))
  }

  /** A run that stopped at a tag with a file that does not parse: no event is saved and that tag stays unprocessed. */
  ghost predicate Aborted(db: Db, after: Db, env: Env) {
    && OnlyParsed(db, after) && Consistent(after, env)
    && exists t :: t in db.tags && !after.tags[t].processed && !Parses(db, env, t)
  }

  // ---------------------------------------------------------------------------
  // Parsing

  function ParsesOf(db: Db, env: Env, tagId: Id): map<FileKey, ProtoFile>
    requires forall k :: k in db.files && k.tagId == tagId ==> env.Parse(db.files[k].content).Some?
  {
    map k | k in db.files && k.tagId == tagId :: env.Parse(db.files[k].content).value
  }

  method ParseProtoFiles(db: Db, env: Env, tagId: Id) returns (r: Option<map<FileKey, ProtoFile>>)
    ensures r.Some? <==> Parses(db, env, tagId)
    ensures r.Some? ==> r.value == ParsesOf(db, env, tagId)
  {
    var rest := set k | k in db.files && k.tagId == tagId;
    ghost var all := rest;
    var parsed: map<FileKey, ProtoFile> := map[];
    while rest != {}
      invariant rest <= all && parsed.Keys == all - rest
      invariant forall k :: k in parsed ==> env.Parse(db.files[k].content) == Some(parsed[k])
      decreases |rest|
    {
      var k :| k in rest;
      var proto := env.Parse(db.files[k].content);
      if proto.None? {
        return None;
      }
      parsed := parsed[k := proto.value];
      rest := rest - {k};
    }
    return Some(parsed);
  }

  /** The upserts and the mark, in one transaction. */
  method ParseAndSave(repo: Repository, tagId: Id) returns (ok: bool)
    requires tagId in repo.db.tags
    modifies repo
    ensures repo.db == ParseTag(old(repo.db), repo.env, tagId)
    ensures ok <==> Parses(old(repo.db), repo.env, tagId)
  {
    var parsed := ParseProtoFiles(repo.db, repo.env, tagId);
    if parsed.None? {
      return false;
    }
    var tx := repo.db.(parsed := repo.db.parsed + parsed.value);
    tx := tx.(tags := tx.tags[tagId := tx.tags[tagId].(processed := true)]);
    repo.db := tx;
    return true;
  }

  method UnprocessedTagIds(db: Db) returns (ids: seq<Id>)
    ensures AreUnprocessed(db, ids)
  {
    ids := SequenceOf(set t | t in db.tags && !db.tags[t].processed);
  }

  method SequenceOf(s: set<Id>) returns (ids: seq<Id>)
    ensures forall t :: t in ids <==> t in s
    ensures forall i, j :: 0 <= i < j < |ids| ==> ids[i] != ids[j]
  {
    ids := [];
    var rest := s;
    while rest != {}
      invariant rest <= s
      invariant forall t :: t in ids <==> t in s - rest
      invariant forall i, j :: 0 <= i < j < |ids| ==> ids[i] != ids[j]
      decreases |rest|
    {
      var t :| t in rest;
      assert forall i :: 0 <= i < |ids| ==> ids[i] in ids;
      ids := ids + [t];
      rest := rest - {t};
    }
  }

  ghost function ParseSeq(db: Db, env: Env, ids: seq<Id>): Db {
    if ids == [] then db else ParseTag(ParseSeq(db, env, ids[..|ids| - 1]), env, ids[|ids| - 1])
  }

  lemma {:induction false} ParseSeqKeeps(db: Db, env: Env, ids: seq<Id>)
    ensures OnlyParsed(db, ParseSeq(db, env, ids))
    ensures forall t :: Parses(ParseSeq(db, env, ids), env, t) <==> Parses(db, env, t)
  {
    if ids != [] {
      ParseSeqKeeps(db, env, ids[..|ids| - 1]);
    }
  }

  lemma {:induction false} ParseSeqIsConsistent(db: Db, env: Env, ids: seq<Id>)
    requires Consistent(db, env)
    ensures Consistent(ParseSeq(db, env, ids), env)
  {
    if ids != [] {
      ParseSeqIsConsistent(db, env, ids[..|ids| - 1]);
      ParseIsConsistent(ParseSeq(db, env, ids[..|ids| - 1]), env, ids[|ids| - 1]);
    }
  }

  /** The tags processed after parsing a list are those processed before and those on the list. */
  lemma {:induction false} ParseSeqProcesses(db: Db, env: Env, ids: seq<Id>, t: Id)
    requires forall s :: s in ids ==> s in db.tags && Parses(db, env, s)
    requires t in db.tags
    ensures t in ParseSeq(db, env, ids).tags
    ensures ParseSeq(db, env, ids).tags[t].processed <==> db.tags[t].processed || t in ids
  {
    if ids != [] {
      var init, last := ids[..|ids| - 1], ids[|ids| - 1];
      assert ids == init + [last];
      ParseSeqProcesses(db, env, init, t);
      ParseSeqKeeps(db, env, init);
      assert Parses(ParseSeq(db, env, init), env, last);
    }
  }

  method ParseAll(repo: Repository, ids: seq<Id>) returns (ok: bool, ghost done: nat)
    requires forall t :: t in ids ==> t in repo.db.tags
    modifies repo
    ensures done <= |ids| && repo.db == ParseSeq(old(repo.db), repo.env, ids[..done])
    ensures forall k :: 0 <= k < done ==> Parses(old(repo.db), repo.env, ids[k])
    ensures if ok then done == |ids| else done < |ids| && !Parses(old(repo.db), repo.env, ids[done])
  {
    ghost var start := repo.db;
    for i := 0 to |ids|
      invariant repo.db == ParseSeq(start, repo.env, ids[..i])
      invariant forall k :: 0 <= k < i ==> Parses(start, repo.env, ids[k])
    {
      ParseSeqKeeps(start, repo.env, ids[..i]);
      assert ids[i] in ids;
      ok := ParseAndSave(repo, ids[i]);
      if !ok {
        done := i;
        return;
      }
      assert ids[..i + 1][..i] == ids[..i];
    }
    ok, done := true, |ids|;
  }

  lemma StoppedIsAborted(db: Db, env: Env, ids: seq<Id>, done: nat)
    requires Consistent(db, env) && done < |ids|
    requires AreUnprocessed(db, ids)
    requires forall k :: 0 <= k < done ==> Parses(db, env, ids[k])
    requires !Parses(db, env, ids[done])
    ensures Aborted(db, ParseSeq(db, env, ids[..done]), env)
  {
    ParseSeqIsConsistent(db, env, ids[..done]);
    ParseSeqKeeps(db, env, ids[..done]);
    assert ids[done] in ids && ids[done] !in ids[..done];
    assert forall s :: s in ids[..done] ==> s in ids;
    ParseSeqProcesses(db, env, ids[..done], ids[done]);
  }

  // ---------------------------------------------------------------------------
  // Hashing

  /** Reads the files of the tag without a hash, then updates them all. */
  method HashFiles(db: Db, env: Env, tagId: Id) returns (files: map<FileKey, FileRow>)
    ensures files == HashTag(db, env, tagId).files
  {
    var rest := set k | k in db.files && k.tagId == tagId && db.files[k].hash.None?;
    ghost var all := rest;
    files := db.files;
    while rest != {}
      invariant rest <= all && files.Keys == db.files.Keys
      invariant forall k :: k in all - rest ==> files[k] == db.files[k].(hash := Some(env.hash(db.files[k].content)))
      invariant forall k :: k in files && k !in all - rest ==> files[k] == db.files[k]
      decreases |rest|
    {
      var k :| k in rest;
      files := files[k := files[k].(hash := Some(env.hash(files[k].content)))];
      rest := rest - {k};
    }
  }

  method ComputeAndStoreHashes(repo: Repository, tagId: Id)
    modifies repo
    ensures repo.db == HashTag(old(repo.db), repo.env, tagId)
  {
    var files := HashFiles(repo.db, repo.env, tagId);
    repo.db := repo.db.(files := files);
  }

  ghost predicate OnlyHashed(db: Db, after: Db) {
    after == db.(files := after.files) && SameContents(db, after)
  }

  ghost function HashSeq(db: Db, env: Env, ids: seq<Id>): Db {
    if ids == [] then db else HashTag(HashSeq(db, env, ids[..|ids| - 1]), env, ids[|ids| - 1])
  }

  lemma {:induction false} HashSeqHashes(db: Db, env: Env, ids: seq<Id>)
    ensures OnlyHashed(db, HashSeq(db, env, ids))
    ensures forall k :: k in db.files && k.tagId in ids ==> HashSeq(db, env, ids).files[k].hash.Some?
  {
    if ids != [] {
      var init, last := ids[..|ids| - 1], ids[|ids| - 1];
      assert ids == init + [last];
      HashSeqHashes(db, env, init);
    }
  }

  lemma {:induction false} HashSeqIsConsistent(db: Db, env: Env, ids: seq<Id>)
    requires Consistent(db, env)
    ensures Consistent(HashSeq(db, env, ids), env)
  {
    if ids != [] {
      HashSeqIsConsistent(db, env, ids[..|ids| - 1]);
      HashIsConsistent(HashSeq(db, env, ids[..|ids| - 1]), env, ids[|ids| - 1]);
    }
  }

  method HashAll(repo: Repository) returns (ghost ids: seq<Id>)
    modifies repo
    ensures repo.db == HashSeq(old(repo.db), repo.env, ids)
    ensures forall k :: k in old(repo.db).files && old(repo.db).files[k].hash.None? ==> k.tagId in ids
  {
    ghost var start := repo.db;
    var tagIds := SequenceOf(set k | k in repo.db.files && repo.db.files[k].hash.None? :: k.tagId);
    ids := tagIds;
    for i := 0 to |tagIds|
      invariant repo.db == HashSeq(start, repo.env, tagIds[..i])
    {
      ComputeAndStoreHashes(repo, tagIds[i]);
      assert tagIds[..i + 1][..i] == tagIds[..i];
    }
    assert tagIds[..|tagIds|] == tagIds;
  }

  lemma AllAreHashed(db: Db, env: Env, ids: seq<Id>)
    requires Consistent(db, env)
    requires forall k :: k in db.files && db.files[k].hash.None? ==> k.tagId in ids
    ensures Consistent(HashSeq(db, env, ids), env)
    ensures OnlyHashed(db, HashSeq(db, env, ids)) && AllHashed(HashSeq(db, env, ids))
  {
    HashSeqHashes(db, env, ids);
    HashSeqIsConsistent(db, env, ids);
  }

  // ---------------------------------------------------------------------------
  // Comparing

  lemma {:induction false} RowsOfConcat(a: seq<PgRow>, b: seq<PgRow>, t: Id)
    ensures RowsOf(a + b, t) == RowsOf(a, t) + RowsOf(b, t)
  {
    if b == [] {
      assert a + b == a;
    } else {
      var c := b[..|b| - 1];
      assert (a + b)[..|a + b| - 1] == a + c;
      RowsOfConcat(a, c, t);
    }
  }

  lemma {:induction false} RowsOfUniform(rows: seq<PgRow>, t: Id, s: Id)
    requires forall r :: r in rows ==> r.tagId == t
    ensures RowsOf(rows, s) == if s == t then rows else []
  {
    if rows != [] {
      assert rows[|rows| - 1] in rows;
      RowsOfUniform(rows[..|rows| - 1], t, s);
    }
  }

  lemma {:induction false} RowsOfMembers(rows: seq<PgRow>, t: Id)
    ensures forall r :: r in RowsOf(rows, t) <==> r in rows && r.tagId == t
  {
    if rows != [] {
      RowsOfMembers(rows[..|rows| - 1], t);
      assert rows == rows[..|rows| - 1] + [rows[|rows| - 1]];
    }
  }

  /** Saving a diff of a tag that has no events yet: its rows become exactly the changes, other tags keep theirs. */
  lemma SavedDiff(table: seq<PgRow>, firstId: Id, events: seq<DriftEvent>, moduleId: Id, t: Id, changes: Changes)
    requires IsDiff(events, moduleId, t, changes) && RowsOf(table, t) == []
    ensures RowsExact(RowsOf(PgSave(table, firstId, events), t), changes)
    ensures forall s :: s != t ==> RowsOf(PgSave(table, firstId, events), s) == RowsOf(table, s)
  {
    RowsOfMembers(table, t);
    assert forall r :: r in table ==> r.tagId != t;
    DiffIsSavedWhole(table, firstId, events, t);
    var rows := RowsFor(firstId, events);
    RowsForDiff(firstId, events, moduleId, t, changes);
    forall s
      ensures RowsOf(table + rows, s) == RowsOf(table, s) + (if s == t then rows else [])
    {
      RowsOfConcat(table, rows, s);
      RowsOfUniform(rows, t, s);
    }
  }

  lemma RowsForDiff(firstId: Id, events: seq<DriftEvent>, moduleId: Id, t: Id, changes: Changes)
    requires IsDiff(events, moduleId, t, changes)
    ensures forall r :: r in RowsFor(firstId, events) ==> r.tagId == t
    ensures RowsExact(RowsFor(firstId, events), changes)
  {
    RowsAreDistinct(firstId, events);
    forall r | r in RowsFor(firstId, events)
      ensures r.tagId == t && changes(r.filename) == Some(RowChange(r))
    {
      RowIsChange(firstId, events, moduleId, t, changes, r);
    }
    forall f | changes(f).Some?
      ensures exists r :: r in RowsFor(firstId, events) && r.filename == f
    {
      RowForFile(firstId, events, f);
    }
  }

  predicate DistinctRows(rows: seq<PgRow>) {
    forall i, j :: 0 <= i < j < |rows| ==> rows[i].filename != rows[j].filename
  }

  lemma RowsAreDistinct(firstId: Id, events: seq<DriftEvent>)
    requires DistinctFiles(events)
    ensures DistinctRows(RowsFor(firstId, events))
  {
    var rows := RowsFor(firstId, events);
    assert forall i :: 0 <= i < |rows| ==> rows[i].filename == events[i].filename;
  }

  lemma RowIsChange(firstId: Id, events: seq<DriftEvent>, moduleId: Id, t: Id, changes: Changes, r: PgRow)
    requires IsDiff(events, moduleId, t, changes) && r in RowsFor(firstId, events)
    ensures r.tagId == t && changes(r.filename) == Some(RowChange(r))
  {
    var i :| 0 <= i < |events| && r == PgRowOf(firstId + i, events[i]);
    assert events[i] in events && RowChange(r) == ChangeOf(events[i]);
  }

  lemma RowForFile(firstId: Id, events: seq<DriftEvent>, f: string)
    requires exists e :: e in events && e.filename == f
    ensures exists r :: r in RowsFor(firstId, events) && r.filename == f
  {
    var e :| e in events && e.filename == f;
    var i :| 0 <= i < |events| && events[i] == e;
    assert RowsFor(firstId, events)[i].filename == f;
  }

  /** On hashed and processed tags, the stored changes are the true ones. */
  lemma StoredIsTrue(db: Db, env: Env, p: Option<Id>, t: Id, f: string)
    requires Consistent(db, env) && AllHashed(db) && AllProcessed(db)
    requires t in db.tags && (p.Some? ==> p.value in db.tags)
    ensures StoredChanges(db, p, t)(f) == TagChanges(db, env, p, t)(f)
  {
    if p.Some? {
      StoredSide(db, env, t, f);
      StoredSide(db, env, p.value, f);
      SidesAgree(env, f, HashesOf(db, p.value), HashesOf(db, t), ParsedOf(db, p.value), ParsedOf(db, t),
                 Get(Contents(db, p.value), f), Get(Contents(db, t), f));
    }
  }

  ghost predicate IsSide(env: Env, f: string, hashes: map<string, string>, parsed: map<string, ProtoFile>, content: Option<string>) {
    && (f in hashes <==> content.Some?)
    && (content.Some? ==> hashes[f] == env.hash(content.value) && Get(parsed, f) == env.Parse(content.value))
  }

  /** Judged from true hashes and parses, a change is what it is judged from the contents. */
  lemma SidesAgree(env: Env, f: string, previous: map<string, string>, current: map<string, string>,
                   previousParsed: map<string, ProtoFile>, currentParsed: map<string, ProtoFile>,
                   x: Option<string>, y: Option<string>)
    requires IsSide(env, f, previous, previousParsed, x) && IsSide(env, f, current, currentParsed, y)
    ensures ChangeFor(f, previous, current, previousParsed, currentParsed) == FileChange(env, x, y)
  {
  }

  lemma StoredSide(db: Db, env: Env, t: Id, f: string)
    requires Consistent(db, env) && AllHashed(db) && AllProcessed(db) && t in db.tags
    ensures IsSide(env, f, HashesOf(db, t), ParsedOf(db, t), Get(Contents(db, t), f))
  {
    ContentsAt(db, t, f);
    var k := FileKey(t, f);
    if k in db.files {
      assert IsParsedFrom(db, env, k);
      assert k.filename == f && f in FileNames(db, t);
      assert f in set j | j in db.parsed && j.tagId == t :: j.filename;
    }
  }

  lemma SameChangesExact(rows: seq<PgRow>, c: Changes, d: Changes)
    requires RowsExact(rows, c) && forall f :: c(f) == d(f)
    ensures RowsExact(rows, d)
  {
  }

  lemma DiffIsForTag(db: Db, t: Id, events: seq<DriftEvent>, changes: Changes)
    requires t in db.tags && db.tags[t].processed && IsDiff(events, db.tags[t].moduleId, t, changes)
    ensures EventsFor(db, t, events)
  {
  }

  method SaveDetection(repo: Repository, t: Id, detection: Detection)
    requires EventsFor(repo.db, t, detection.Events())
    modifies repo
    ensures repo.db == SaveEvents(old(repo.db), t, detection.Events())
  {
    if detection.HasDrift() {
      var events := detection.added + detection.modified;
      events := events + detection.deleted;
      var rows := SaveBatch(repo.db.events, repo.db.nextId, events);
      repo.db := repo.db.(events := rows, nextId := repo.db.nextId + |events|);
    } else {
      assert detection.Events() == [];
    }
  }

  /** One tag: detect, and save if there is drift. */
  method DetectAndSave(repo: Repository, t: Id, now: nat) returns (ghost p: Option<Id>, ghost saved: seq<DriftEvent>)
    requires t in repo.db.tags && repo.db.tags[t].processed
    modifies repo
    ensures IsPrevious(old(repo.db), t, p)
    ensures IsDiff(saved, old(repo.db).tags[t].moduleId, t, StoredChanges(old(repo.db), p, t))
    ensures repo.db == SaveEvents(old(repo.db), t, saved)
  {
    var result;
    result, p := DetectDrift(repo.db, t, now);
    saved := result.value.Events();
    DiffIsForTag(repo.db, t, saved, StoredChanges(repo.db, p, t));
    SaveDetection(repo, t, result.value);
  }

  // ---------------------------------------------------------------------------
  // A whole run

  ghost predicate OnlyEvents(db: Db, after: Db) {
    after == db.(events := after.events, nextId := after.nextId)
  }

  ghost predicate Compared(start: Db, env: Env, table: seq<PgRow>, t: Id)
    requires t in start.tags
  {
    exists p :: IsPrevious(start, t, p) && RowsExact(RowsOf(table, t), TagChanges(start, env, p, t))
  }

  /** The comparison of the first i tags of the list is recorded; the other tags keep their rows. */
  ghost predicate ComparedUpTo(start: Db, env: Env, db: Db, ids: seq<Id>, i: nat)
    requires i <= |ids| && forall t :: t in ids ==> t in start.tags
  {
    && OnlyEvents(start, db)
    && (forall k :: 0 <= k < i ==> ids[k] in ids && Compared(start, env, db.events, ids[k]))
    && (forall s :: s !in ids[..i] ==> RowsOf(db.events, s) == RowsOf(start.events, s))
  }

  lemma SameStored(start: Db, db: Db, s: Id)
    requires OnlyEvents(start, db)
    ensures HashesOf(db, s) == HashesOf(start, s) && ParsedOf(db, s) == ParsedOf(start, s)
  {
  }

  lemma EventsDoNotMatter(start: Db, db: Db, p: Option<Id>, t: Id)
    requires OnlyEvents(start, db) && t in start.tags && IsPrevious(db, t, p)
    ensures IsPrevious(start, t, p)
    ensures forall f :: StoredChanges(db, p, t)(f) == StoredChanges(start, p, t)(f)
  {
    SameStored(start, db, t);
    if p.Some? {
      SameStored(start, db, p.value);
    }
  }

  /** The stored changes seen in the middle of the run are the true changes between the tags' contents. */
  lemma StoredAreTrue(start: Db, env: Env, db: Db, t: Id, p: Option<Id>)
    requires Consistent(start, env) && AllHashed(start) && AllProcessed(start)
    requires OnlyEvents(start, db) && t in start.tags && IsPrevious(db, t, p)
    ensures forall f :: StoredChanges(db, p, t)(f) == TagChanges(start, env, p, t)(f)
  {
    EventsDoNotMatter(start, db, p, t);
    forall f
      ensures StoredChanges(db, p, t)(f) == TagChanges(start, env, p, t)(f)
    {
      StoredIsTrue(start, env, p, t, f);
    }
  }

  lemma NewlyCompared(start: Db, env: Env, db: Db, t: Id, p: Option<Id>, events: seq<DriftEvent>)
    requires OnlyEvents(start, db) && t in start.tags && RowsOf(db.events, t) == []
    requires IsPrevious(db, t, p) && IsDiff(events, db.tags[t].moduleId, t, StoredChanges(db, p, t))
    requires forall f :: StoredChanges(db, p, t)(f) == TagChanges(start, env, p, t)(f)
    ensures Compared(start, env, PgSave(db.events, db.nextId, events), t)
    ensures forall s :: s != t ==> RowsOf(PgSave(db.events, db.nextId, events), s) == RowsOf(db.events, s)
  {
    var table := PgSave(db.events, db.nextId, events);
    EventsDoNotMatter(start, db, p, t);
    SavedDiff(db.events, db.nextId, events, db.tags[t].moduleId, t, StoredChanges(db, p, t));
    SameChangesExact(RowsOf(table, t), StoredChanges(db, p, t), TagChanges(start, env, p, t));
  }

  lemma CompareStep(start: Db, env: Env, db: Db, table: seq<PgRow>, ids: seq<Id>, i: nat)
    requires forall t :: t in ids ==> t in start.tags
    requires i < |ids| && ComparedUpTo(start, env, db, ids, i) && ids[i] !in ids[..i]
    requires Compared(start, env, table, ids[i])
    requires forall s :: s != ids[i] ==> RowsOf(table, s) == RowsOf(db.events, s)
    ensures forall n: nat :: ComparedUpTo(start, env, db.(events := table, nextId := n), ids, i + 1)
  {
    assert ids[..i + 1] == ids[..i] + [ids[i]];
    forall k | 0 <= k < i
      ensures Compared(start, env, table, ids[k])
    {
      assert ids[..i][k] == ids[k] && ids[k] != ids[i];
    }
  }

  lemma CompareOne(start: Db, env: Env, db: Db, ids: seq<Id>, i: nat, p: Option<Id>, events: seq<DriftEvent>)
    requires Consistent(start, env) && AllHashed(start) && AllProcessed(start)
    requires forall t :: t in ids ==> t in start.tags && RowsOf(start.events, t) == []
    requires i < |ids| && ComparedUpTo(start, env, db, ids, i) && ids[i] in ids && ids[i] !in ids[..i]
    requires IsPrevious(db, ids[i], p)
    requires IsDiff(events, db.tags[ids[i]].moduleId, ids[i], StoredChanges(db, p, ids[i]))
    ensures ComparedUpTo(start, env, SaveEvents(db, ids[i], events), ids, i + 1)
  {
    StoredAreTrue(start, env, db, ids[i], p);
    NewlyCompared(start, env, db, ids[i], p, events);
    CompareStep(start, env, db, PgSave(db.events, db.nextId, events), ids, i);
    assert EventsFor(db, ids[i], events);
  }

  /** The comparison phase over the newly processed tags, none of which has events yet. */
  method CompareAll(repo: Repository, ids: seq<Id>, now: nat)
    requires repo.Valid() && AllHashed(repo.db) && AllProcessed(repo.db)
    requires forall t :: t in ids ==> t in repo.db.tags && RowsOf(repo.db.events, t) == []
    requires forall i, j :: 0 <= i < j < |ids| ==> ids[i] != ids[j]
    modifies repo
    ensures ComparedUpTo(old(repo.db), repo.env, repo.db, ids, |ids|)
    ensures repo.Valid()
  {
    ghost var start := repo.db;
    for i := 0 to |ids|
      invariant ComparedUpTo(start, repo.env, repo.db, ids, i)
      invariant repo.Valid()
    {
      assert ids[i] in ids && ids[i] !in ids[..i];
      ghost var before := repo.db;
      ghost var p, events;
      p, events := DetectAndSave(repo, ids[i], now);
      CompareOne(start, repo.env, before, ids, i, p, events);
      SaveIsConsistent(before, repo.env, ids[i], events);
    }
  }

  lemma NoEventsYet(db: Db, env: Env, t: Id)
    requires Consistent(db, env) && t in db.tags && !db.tags[t].processed
    ensures RowsOf(db.events, t) == []
  {
    RowsOfMembers(db.events, t);
    NoneOrSome(RowsOf(db.events, t));
  }

  lemma NoneOrSome(rows: seq<PgRow>)
    ensures rows == [] || exists r :: r in rows
  {
    if rows != [] {
      assert rows[0] in rows;
    }
  }

  /** Parsing and hashing have happened; nothing else has changed. */
  ghost predicate Prepared(start: Db, ready: Db) {
    && ready == start.(parsed := ready.parsed, tags := ready.tags, files := ready.files)
    && SameTags(start, ready) && SameContents(start, ready)
  }

  ghost predicate AreUnprocessed(db: Db, ids: seq<Id>) {
    && (forall t :: t in ids <==> t in db.tags && !db.tags[t].processed)
    && (forall i, j :: 0 <= i < j < |ids| ==> ids[i] != ids[j])
  }

  lemma ParsedFacts(start: Db, env: Env, ids: seq<Id>)
    requires Consistent(start, env) && AreUnprocessed(start, ids)
    requires forall t :: t in ids ==> Parses(start, env, t)
    ensures Consistent(ParseSeq(start, env, ids), env)
    ensures OnlyParsed(start, ParseSeq(start, env, ids)) && AllProcessed(ParseSeq(start, env, ids))
  {
    ParseSeqIsConsistent(start, env, ids);
    ParseSeqKeeps(start, env, ids);
    forall t | t in start.tags
      ensures ParseSeq(start, env, ids).tags[t].processed
    {
      ParseSeqProcesses(start, env, ids, t);
    }
  }

  lemma ReadyToCompare(start: Db, parsed: Db, ready: Db, env: Env, ids: seq<Id>)
    requires Consistent(start, env) && AreUnprocessed(start, ids)
    requires OnlyParsed(start, parsed) && AllProcessed(parsed) && OnlyHashed(parsed, ready)
    ensures Prepared(start, ready) && AllProcessed(ready)
    ensures forall t :: t in ids ==> t in ready.tags && RowsOf(ready.events, t) == []
  {
    forall t | t in ids
      ensures t in ready.tags && RowsOf(ready.events, t) == []
    {
      NoEventsYet(start, env, t);
    }
  }

  lemma SameTagChanges(db: Db, after: Db, env: Env, p: Option<Id>, t: Id)
    requires Contents(after, t) == Contents(db, t) && (p.Some? ==> Contents(after, p.value) == Contents(db, p.value))
    ensures forall f :: TagChanges(db, env, p, t)(f) == TagChanges(after, env, p, t)(f)
  {
  }

  lemma ComparedIsExact(ready: Db, after: Db, env: Env, t: Id)
    requires OnlyEvents(ready, after) && t in ready.tags && Compared(ready, env, after.events, t)
    ensures ExactFor(after, env, t)
  {
    var p :| IsPrevious(ready, t, p) && RowsExact(RowsOf(after.events, t), TagChanges(ready, env, p, t));
    assert IsPrevious(after, t, p);
    if p.Some? {
      SameFilesSameContents(ready, after, p.value);
    }
    SameFilesSameContents(ready, after, t);
    SameTagChanges(ready, after, env, p, t);
    SameChangesExact(RowsOf(after.events, t), TagChanges(ready, env, p, t), TagChanges(after, env, p, t));
  }

  lemma ComparedIsCompleted(start: Db, ready: Db, after: Db, env: Env, ids: seq<Id>)
    requires AreUnprocessed(start, ids) && Prepared(start, ready) && AllProcessed(ready) && AllHashed(ready)
    requires Consistent(after, env)
    requires (forall t :: t in ids ==> t in ready.tags) && ComparedUpTo(ready, env, after, ids, |ids|)
    ensures Completed(start, after, env)
  {
    assert ids[..|ids|] == ids;
    PreparedTables(start, ready, after);
    forall t | t in start.tags && !start.tags[t].processed
      ensures ExactFor(after, env, t)
    {
      ComparedTagIsExact(ready, after, env, ids, t);
    }
  }

  lemma PreparedTables(start: Db, ready: Db, after: Db)
    requires Prepared(start, ready) && AllProcessed(ready) && AllHashed(ready) && OnlyEvents(ready, after)
    ensures SameTags(start, after) && SameContents(start, after) && AllProcessed(after) && AllHashed(after)
    ensures after.tags == ready.tags
  {
  }

  lemma ComparedTagIsExact(ready: Db, after: Db, env: Env, ids: seq<Id>, t: Id)
    requires (forall t :: t in ids ==> t in ready.tags) && ComparedUpTo(ready, env, after, ids, |ids|) && t in ids
    ensures t in after.tags && ExactFor(after, env, t)
  {
    var k :| 0 <= k < |ids| && ids[k] == t;
    assert Compared(ready, env, after.events, ids[k]);
    ComparedIsExact(ready, after, env, t);
  }

  /**
   A run.  When it returns without error, every tag that was unprocessed has exactly the events of its
   differences from the tag before it, judged from the real parses; when it does not, nothing was compared.
   */
  method RunDaemon(repo: Repository, now: nat) returns (ok: bool)
    requires repo.Valid()
    modifies repo
    ensures repo.Valid()
    ensures ok <==> forall t :: t in old(repo.db).tags && !old(repo.db).tags[t].processed ==> Parses(old(repo.db), repo.env, t)
    ensures ok ==> Completed(old(repo.db), repo.db, repo.env) && NewRecordsAreTrue(old(repo.db), repo.db, repo.env)
    ensures !ok ==> Aborted(old(repo.db), repo.db, repo.env)
  {
    ghost var start, done, hashed := repo.db, 0, [];
    var tagIds := UnprocessedTagIds(repo.db);
    ok, done := ParseAll(repo, tagIds);
    if !ok {
      assert tagIds[done] in tagIds;
      StoppedIsAborted(start, repo.env, tagIds, done);
      return;
    }
    assert tagIds[..done] == tagIds;
    ParsedFacts(start, repo.env, tagIds);
    if |tagIds| > 0 {
      ghost var parsed := repo.db;
      hashed := HashAll(repo);
      AllAreHashed(parsed, repo.env, hashed);
      ReadyToCompare(start, parsed, repo.db, repo.env, tagIds);
      ghost var ready := repo.db;
      CompareAll(repo, tagIds, now);
      ComparedIsCompleted(start, ready, repo.db, repo.env, tagIds);
    } else {
      assert AllProcessed(start);
    }
    CompletedIsTrue(start, repo.db, repo.env);
  }
}
