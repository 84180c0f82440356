/**
 The registry's tables and the statements that change them.  A statement is a
 function on the tables; a run is any sequence of operations, including deletes
 that stop after any of their statements.  Every reachable state is consistent.
 */
module Store {
  import opened Base
  import opened Proto
  import opened Events

  /** What the registry gets from outside: the parser's two stages and the content hash. */
  datatype Env = Env(syntax: string -> bool, interpret: string -> Option<ProtoFile>, hash: string -> string) {
    /** What the daemon needs of a file: some text, correct syntax, and an interpretation. */
    function Parse(content: string): Option<ProtoFile> {
      if content == "" || !syntax(content) then None else interpret(content)
    }
  }

  datatype SourceFile = SourceFile(filename: string, content: string)

  datatype TagRow = TagRow(moduleId: Id, name: string, updatedAt: nat, processed: bool)

  datatype FileKey = FileKey(tagId: Id, filename: string)

  datatype FileRow = FileRow(content: string, hash: Option<string>)

  datatype DraftKey = DraftKey(moduleId: Id, tag: string)

  datatype DraftRow = DraftRow(files: seq<SourceFile>, updatedAt: nat)

  datatype Edge = Edge(tagId: Id, dependencyTagId: Id)

  /** The tables; a unique index on columns other than the identifier is the key of its map. */
  datatype Db = Db(
    nextId: Id,
    modules: map<string, Id>,
    tags: map<Id, TagRow>,
    files: map<FileKey, FileRow>,
    drafts: map<DraftKey, DraftRow>,
    edges: set<Edge>,
    parsed: map<FileKey, ProtoFile>,
    events: seq<PgRow>)

  const EMPTY := Db(0, map[], map[], map[], map[], {}, map[], [])

  predicate IsTag(db: Db, name: string, tag: string, id: Id) {
    name in db.modules && id in db.tags && db.tags[id].moduleId == db.modules[name] && db.tags[id].name == tag
  }

  ghost predicate TagExists(db: Db, name: string, tag: string) { exists id :: IsTag(db, name, tag, id) }

  predicate OfModule(db: Db, moduleId: Id, tagId: Id) {
    tagId in db.tags && db.tags[tagId].moduleId == moduleId
  }

  /** No two tags of the module have the same time. */
  ghost predicate DistinctTimes(db: Db, m: Id) {
    forall s, t :: OfModule(db, m, s) && OfModule(db, m, t) && db.tags[s].updatedAt == db.tags[t].updatedAt ==> s == t
  }

  function FileNames(db: Db, tagId: Id): set<string> {
    set k | k in db.files && k.tagId == tagId :: k.filename
  }

  /** The files of a tag, by name. */
  function Contents(db: Db, tagId: Id): map<string, string> {
    map f | f in FileNames(db, tagId) :: db.files[FileKey(tagId, f)].content
  }

  lemma ContentsAt(db: Db, tagId: Id, f: string)
    ensures f in Contents(db, tagId) <==> FileKey(tagId, f) in db.files
    ensures f in Contents(db, tagId) ==> Contents(db, tagId)[f] == db.files[FileKey(tagId, f)].content
  {
    assert FileKey(tagId, f).filename == f;
  }

  // ---------------------------------------------------------------------------
  // Consistency

  predicate SameName(s: TagRow, t: TagRow) { s.moduleId == t.moduleId && s.name == t.name }

  ghost predicate UniqueRows(db: Db) {
    && (forall a, b :: a in db.modules && b in db.modules && db.modules[a] == db.modules[b] ==> a == b)
    && (forall s, t :: s in db.tags && t in db.tags && SameName(db.tags[s], db.tags[t]) ==> s == t)
  }

  ghost predicate FreshIds(db: Db) {
    && (forall a :: a in db.modules ==> db.modules[a] < db.nextId)
    && (forall t :: t in db.tags ==> t < db.nextId)
    && (forall k :: k in db.parsed ==> k.tagId < db.nextId)
    && (forall e :: e in db.edges ==> e.dependencyTagId < db.nextId)
  }

  /** Every reference that must resolve does: file to tag, tag to module, draft to module, edge source to tag. */
  ghost predicate NoOrphans(db: Db) {
    && (forall t :: t in db.tags ==> db.tags[t].moduleId in db.modules.Values)
    && (forall k :: k in db.files ==> k.tagId in db.tags)
    && (forall k :: k in db.drafts ==> k.moduleId in db.modules.Values)
    && (forall e :: e in db.edges ==> e.tagId in db.tags)
  }

  ghost predicate EdgesResolve(db: Db) {
    forall e :: e in db.edges ==> e.dependencyTagId in db.tags
  }

  ghost predicate NamedTags(db: Db) { forall t :: t in db.tags ==> db.tags[t].name != "" }

  ghost predicate HashesAreTrue(db: Db, env: Env) {
    forall k :: k in db.files && db.files[k].hash.Some? ==> db.files[k].hash.value == env.hash(db.files[k].content)
  }

  ghost predicate IsParsedFrom(db: Db, env: Env, k: FileKey)
    requires k in db.files
  {
    k in db.parsed && env.Parse(db.files[k].content) == Some(db.parsed[k])
  }

  ghost predicate ParsesAreTrue(db: Db, env: Env) {
    forall k :: k in db.files && k.tagId in db.tags && db.tags[k.tagId].processed ==> IsParsedFrom(db, env, k)
  }

  /** Events belong to processed tags, under the tag's own module. */
  ghost predicate EventsAnchored(db: Db) {
    forall r :: r in db.events ==>
      r.tagId in db.tags && db.tags[r.tagId].processed && db.tags[r.tagId].moduleId == r.moduleId
  }

  ghost predicate Consistent(db: Db, env: Env) {
    && UniqueRows(db)
    && FreshIds(db)
    && NoOrphans(db)
    && HashesAreTrue(db, env)
    && ParsesAreTrue(db, env)
    && EventsAnchored(db)
    && DistinctKeys(db.events)
  }

  // ---------------------------------------------------------------------------
  // Single statements

  function Register(db: Db, name: string): Db {
    if name in db.modules then db
    else db.(modules := db.modules[name := db.nextId], nextId := db.nextId + 1)
  }

  predicate DistinctNames(files: seq<SourceFile>) {
    forall i, j :: 0 <= i < j < |files| ==> files[i].filename != files[j].filename
  }

  /** The rows that a push inserts: one per file, not hashed yet. */
  function NewFiles(tagId: Id, files: seq<SourceFile>): map<FileKey, FileRow> {
    if files == [] then map[]
    else
      var f := files[|files| - 1];
      NewFiles(tagId, files[..|files| - 1])[FileKey(tagId, f.filename) := FileRow(f.content, None)]
  }

  ghost predicate CanPush(db: Db, name: string, tag: string, files: seq<SourceFile>) {
    name in db.modules && !TagExists(db, name, tag) && DistinctNames(files)
  }

  ghost function Push(db: Db, name: string, tag: string, files: seq<SourceFile>, now: nat): Db {
    if !CanPush(db, name, tag, files) then db
    else
      db.(tags := db.tags[db.nextId := TagRow(db.modules[name], tag, now, false)],
          files := db.files + NewFiles(db.nextId, files),
          nextId := db.nextId + 1)
  }

  function PushDraft(db: Db, name: string, tag: string, files: seq<SourceFile>, now: nat): Db {
    if name !in db.modules then db
    else db.(drafts := db.drafts[DraftKey(db.modules[name], tag) := DraftRow(files, now)])
  }

  function DropDraftsBefore(db: Db, cutoff: nat): Db {
    db.(drafts := map k | k in db.drafts && db.drafts[k].updatedAt >= cutoff :: db.drafts[k])
  }

  function AddEdge(db: Db, tagId: Id, dependencyTagId: Id): Db {
    if tagId in db.tags && dependencyTagId in db.tags then db.(edges := db.edges + {Edge(tagId, dependencyTagId)})
    else db
  }

  /** Rows of a table of events whose tag is still there; deleting a tag cascades to its events. */
  function Anchored(rows: seq<PgRow>, tags: map<Id, TagRow>): seq<PgRow> {
    if rows == [] then []
    else
      var last := rows[|rows| - 1];
      Anchored(rows[..|rows| - 1], tags) + (if last.tagId in tags then [last] else [])
  }

  function DropTags(db: Db, keep: map<Id, TagRow>): Db {
    db.(tags := keep, events := Anchored(db.events, keep))
  }

  function DropModuleFiles(db: Db, m: Id): Db {
    db.(files := map f | f in db.files && !OfModule(db, m, f.tagId) :: db.files[f])
  }

  function DropModuleEdges(db: Db, m: Id): Db {
    db.(edges := set e | e in db.edges && !OfModule(db, m, e.tagId))
  }

  function DropModuleTags(db: Db, m: Id): Db {
    DropTags(db, map t | t in db.tags && db.tags[t].moduleId != m :: db.tags[t])
  }

  function DropModuleDrafts(db: Db, m: Id): Db {
    db.(drafts := map d | d in db.drafts && d.moduleId != m :: db.drafts[d])
  }

  function DropModule(db: Db, name: string): Db {
    db.(modules := db.modules - {name})
  }

  /** The state after the first k of the five statements that delete a module. */
  function DeleteModuleUpTo(db: Db, name: string, k: nat): Db
    requires k <= 5
  {
    if k == 0 || name !in db.modules then db
    else
      var before, m := DeleteModuleUpTo(db, name, k - 1), db.modules[name];
      match k
      case 1 => DropModuleFiles(before, m)
      case 2 => DropModuleEdges(before, m)
      case 3 => DropModuleTags(before, m)
      case 4 => DropModuleDrafts(before, m)
      case _ => DropModule(before, name)
  }

  function DropTagFiles(db: Db, t: Id): Db {
    db.(files := map f | f in db.files && f.tagId != t :: db.files[f])
  }

  function DropTagEdges(db: Db, t: Id): Db {
    db.(edges := set e | e in db.edges && e.tagId != t && e.dependencyTagId != t)
  }

  function DropTag(db: Db, t: Id): Db {
    DropTags(db, db.tags - {t})
  }

  /** The state after the first k of the three statements that delete a tag. */
  function DeleteTagUpTo(db: Db, tagId: Id, k: nat): Db
    requires k <= 3
  {
    if k == 0 then db
    else
      var before := DeleteTagUpTo(db, tagId, k - 1);
      match k
      case 1 => DropTagFiles(before, tagId)
      case 2 => DropTagEdges(before, tagId)
      case _ => DropTag(before, tagId)
  }

  /** Hashes the files of a tag that have no hash yet, all of them. */
  function HashTag(db: Db, env: Env, tagId: Id): Db {
    db.(files := map k | k in db.files ::
                   if k.tagId == tagId && db.files[k].hash.None?
                   then db.files[k].(hash := Some(env.hash(db.files[k].content))) else db.files[k])
  }

  ghost predicate Parses(db: Db, env: Env, tagId: Id) {
    forall k :: k in db.files && k.tagId == tagId ==> env.Parse(db.files[k].content).Some?
  }

  /** Stores the parse of every file of a tag and marks the tag processed; nothing if some file does not parse. */
  ghost function ParseTag(db: Db, env: Env, tagId: Id): Db {
    if tagId !in db.tags || !Parses(db, env, tagId) then db
    else
      db.(parsed := db.parsed +
                    (map k | k in db.files && k.tagId == tagId :: env.Parse(db.files[k].content).value),
          tags := db.tags[tagId := db.tags[tagId].(processed := true)])
  }

  predicate EventsFor(db: Db, tagId: Id, events: seq<DriftEvent>) {
    && tagId in db.tags && db.tags[tagId].processed
    && forall e :: e in events ==> e.tagId == tagId && e.moduleId == db.tags[tagId].moduleId
  }

  /** The daemon saves events of tags that it has processed. */
  function SaveEvents(db: Db, tagId: Id, events: seq<DriftEvent>): Db {
    if EventsFor(db, tagId, events)
    then db.(events := PgSave(db.events, db.nextId, events), nextId := db.nextId + |events|)
    else db
  }

  // ---------------------------------------------------------------------------
  // Runs

  datatype Step =
    | DoRegister(name: string)
    | DoPush(name: string, tag: string, files: seq<SourceFile>, now: nat)
    | DoPushDraft(name: string, tag: string, files: seq<SourceFile>, now: nat)
    | DoDropDrafts(cutoff: nat)
    | DoAddEdge(tagId: Id, dependencyTagId: Id)
    | DoDeleteModule(name: string, statements: nat)
    | DoDeleteTag(name: string, tag: string, statements: nat)
    | DoHash(tagId: Id)
    | DoParse(tagId: Id)
    | DoSaveEvents(tagId: Id, events: seq<DriftEvent>)
    | DoAcknowledge(eventId: Id, ack: Acknowledgement)

  ghost function TagIdOf(db: Db, name: string, tag: string): (id: Id)
    requires TagExists(db, name, tag)
    ensures IsTag(db, name, tag, id)
  {
    var id :| IsTag(db, name, tag, id); id
  }

  ghost function Apply(db: Db, env: Env, step: Step): Db {
    match step
    case DoRegister(name) => Register(db, name)
    case DoPush(name, tag, files, now) => Push(db, name, tag, files, now)
    case DoPushDraft(name, tag, files, now) => PushDraft(db, name, tag, files, now)
    case DoDropDrafts(cutoff) => DropDraftsBefore(db, cutoff)
    case DoAddEdge(s, t) => AddEdge(db, s, t)
    case DoDeleteModule(name, k) => DeleteModuleUpTo(db, name, if k <= 5 then k else 5)
    case DoDeleteTag(name, tag, k) =>
      if TagExists(db, name, tag) then DeleteTagUpTo(db, TagIdOf(db, name, tag), if k <= 3 then k else 3) else db
    case DoHash(t) => HashTag(db, env, t)
    case DoParse(t) => ParseTag(db, env, t)
    case DoSaveEvents(t, events) => SaveEvents(db, t, events)
    case DoAcknowledge(id, ack) => db.(events := PgAcknowledge(db.events, id, ack))
  }

  ghost function Run(db: Db, env: Env, steps: seq<Step>): Db {
    if steps == [] then db else Apply(Run(db, env, steps[..|steps| - 1]), env, steps[|steps| - 1])
  }

  // ---------------------------------------------------------------------------
  // Every step keeps the tables consistent

  lemma {:induction false} NewFilesRows(tagId: Id, files: seq<SourceFile>)
    ensures forall k :: k in NewFiles(tagId, files) ==> k.tagId == tagId && NewFiles(tagId, files)[k].hash.None?
    ensures forall k :: k in NewFiles(tagId, files) ==>
              exists f :: f in files && f.filename == k.filename && NewFiles(tagId, files)[k].content == f.content
    ensures forall f :: f in files ==> FileKey(tagId, f.filename) in NewFiles(tagId, files)
  {
    if files != [] {
      var init, last := files[..|files| - 1], files[|files| - 1];
      NewFilesRows(tagId, init);
      assert files == init + [last];
    }
  }

  lemma PushIsConsistent(db: Db, env: Env, name: string, tag: string, files: seq<SourceFile>, now: nat)
    requires Consistent(db, env)
    ensures Consistent(Push(db, name, tag, files, now), env)
  {
    if CanPush(db, name, tag, files) {
      NewFilesRows(db.nextId, files);
      PushedRowsAreUnique(db, name, tag, files, now);
      PushedParsesAreTrue(db, env, name, tag, files, now);
    }
  }

  lemma PushedRowsAreUnique(db: Db, name: string, tag: string, files: seq<SourceFile>, now: nat)
    requires UniqueRows(db) && CanPush(db, name, tag, files)
    ensures UniqueRows(Push(db, name, tag, files, now))
  {
    forall t | t in db.tags && db.tags[t].moduleId == db.modules[name]
      ensures db.tags[t].name != tag
    {
      assert IsTag(db, name, tag, t) <==> db.tags[t].name == tag;
    }
  }

  lemma PushedParsesAreTrue(db: Db, env: Env, name: string, tag: string, files: seq<SourceFile>, now: nat)
    requires ParsesAreTrue(db, env) && FreshIds(db) && CanPush(db, name, tag, files)
    ensures ParsesAreTrue(Push(db, name, tag, files, now), env)
  {
    var after := Push(db, name, tag, files, now);
    NewFilesRows(db.nextId, files);
    forall k | k in after.files && k.tagId in after.tags && after.tags[k.tagId].processed
      ensures IsParsedFrom(after, env, k)
    {
      assert k.tagId != db.nextId && k in db.files && after.files[k] == db.files[k];
      assert IsParsedFrom(db, env, k);
    }
  }

  lemma AnchoredRows(rows: seq<PgRow>, tags: map<Id, TagRow>)
    ensures forall r :: r in Anchored(rows, tags) <==> r in rows && r.tagId in tags
    ensures DistinctKeys(rows) ==> DistinctKeys(Anchored(rows, tags))
  {
    forall r
      ensures r in Anchored(rows, tags) <==> r in rows && r.tagId in tags
    {
      AnchoredMember(rows, tags, r);
    }
    if DistinctKeys(rows) {
      AnchoredKeys(rows, tags);
    }
  }

  lemma {:induction false} AnchoredMember(rows: seq<PgRow>, tags: map<Id, TagRow>, r: PgRow)
    ensures r in Anchored(rows, tags) <==> r in rows && r.tagId in tags
  {
    if rows != [] {
      var init, last := rows[..|rows| - 1], rows[|rows| - 1];
      AnchoredMember(init, tags, r);
      assert rows == init + [last];
    }
  }

  lemma {:induction false} AnchoredKeys(rows: seq<PgRow>, tags: map<Id, TagRow>)
    requires DistinctKeys(rows)
    ensures DistinctKeys(Anchored(rows, tags))
  {
    if rows != [] {
      var init, last := rows[..|rows| - 1], rows[|rows| - 1];
      AnchoredKeys(init, tags);
      forall r | r in Anchored(init, tags)
        ensures PgKey(r) != PgKey(last)
      {
        AnchoredMember(init, tags, r);
        var i :| 0 <= i < |init| && init[i] == r;
        assert rows[i] == r;
      }
      DistinctAppend(Anchored(init, tags), last);
    }
  }

  lemma DistinctAppend(rows: seq<PgRow>, last: PgRow)
    requires DistinctKeys(rows) && forall r :: r in rows ==> PgKey(r) != PgKey(last)
    ensures DistinctKeys(rows + [last])
  {
  }

  /** The later tables hold a part of the earlier rows, unchanged. */
  ghost predicate Shrinks(db: Db, after: Db) {
    && after.nextId == db.nextId && after.parsed == db.parsed && after.edges <= db.edges
    && (forall a :: a in after.modules ==> a in db.modules && after.modules[a] == db.modules[a])
    && (forall t :: t in after.tags ==> t in db.tags && after.tags[t] == db.tags[t])
    && (forall k :: k in after.files ==> k in db.files && after.files[k] == db.files[k])
  }

  lemma ShrinkingIsConsistent(db: Db, after: Db, env: Env)
    requires Consistent(db, env) && Shrinks(db, after)
    requires NoOrphans(after)
    requires after.events == Anchored(db.events, after.tags) || (after.events == db.events && after.tags == db.tags)
    ensures Consistent(after, env)
  {
    AnchoredRows(db.events, after.tags);
    forall k | k in after.files && k.tagId in after.tags && after.tags[k.tagId].processed
      ensures IsParsedFrom(after, env, k)
    {
      assert IsParsedFrom(db, env, k);
    }
  }

  /** How far a stopped module delete has got. */
  ghost predicate DeletedUpTo(db: Db, now: Db, name: string, k: nat)
    requires name in db.modules
  {
    var m := db.modules[name];
    && (k < 5 ==> now.modules == db.modules)
    && (k >= 1 ==> forall f :: f in now.files ==> !OfModule(now, m, f.tagId))
    && (k >= 2 ==> forall e :: e in now.edges ==> !OfModule(now, m, e.tagId))
    && (k >= 3 ==> forall t :: t in now.tags ==> now.tags[t].moduleId != m)
    && (k >= 4 ==> forall d :: d in now.drafts ==> d.moduleId != m)
  }

  lemma DropModuleLeavesNoOrphans(db: Db, env: Env, name: string)
    requires Consistent(db, env) && name in db.modules
    requires forall t :: t in db.tags ==> db.tags[t].moduleId != db.modules[name]
    requires forall d :: d in db.drafts ==> d.moduleId != db.modules[name]
    ensures NoOrphans(DropModule(db, name))
  {
    var after := DropModule(db, name);
    forall id | id in db.modules.Values && id != db.modules[name]
      ensures id in after.modules.Values
    {
      var a :| a in db.modules && db.modules[a] == id;
      assert a in after.modules;
    }
  }

  lemma {:induction false} DeleteModuleIsConsistent(db: Db, env: Env, name: string, k: nat)
    requires k <= 5 && Consistent(db, env) && name in db.modules
    ensures Consistent(DeleteModuleUpTo(db, name, k), env)
    ensures DeletedUpTo(db, DeleteModuleUpTo(db, name, k), name, k)
  {
    if k > 0 {
      DeleteModuleIsConsistent(db, env, name, k - 1);
      DeleteStatement(db, name, k);
      var before, after := DeleteModuleUpTo(db, name, k - 1), DeleteModuleUpTo(db, name, k);
      if k == 5 {
        DropModuleLeavesNoOrphans(before, env, name);
      } else {
        DeleteStatementLeavesNoOrphans(db, name, k);
      }
      ShrinkingIsConsistent(before, after, env);
    }
  }

  lemma DeleteStatement(db: Db, name: string, k: nat)
    requires 0 < k <= 5 && name in db.modules && DeletedUpTo(db, DeleteModuleUpTo(db, name, k - 1), name, k - 1)
    ensures DeletedUpTo(db, DeleteModuleUpTo(db, name, k), name, k)
    ensures Shrinks(DeleteModuleUpTo(db, name, k - 1), DeleteModuleUpTo(db, name, k))
  {
  }

  lemma DeleteStatementLeavesNoOrphans(db: Db, name: string, k: nat)
    requires 0 < k < 5 && name in db.modules && DeletedUpTo(db, DeleteModuleUpTo(db, name, k - 1), name, k - 1)
    requires NoOrphans(DeleteModuleUpTo(db, name, k - 1))
    ensures NoOrphans(DeleteModuleUpTo(db, name, k))
  {
  }

  /** How far a stopped tag delete has got; edges into the tag go as well. */
  ghost predicate TagDeletedUpTo(now: Db, tagId: Id, k: nat) {
    && (k >= 1 ==> forall f :: f in now.files ==> f.tagId != tagId)
    && (k >= 2 ==> forall e :: e in now.edges ==> e.tagId != tagId && e.dependencyTagId != tagId)
    && (k >= 3 ==> tagId !in now.tags)
  }

  lemma {:induction false} DeleteTagIsConsistent(db: Db, env: Env, tagId: Id, k: nat)
    requires k <= 3 && Consistent(db, env)
    ensures Consistent(DeleteTagUpTo(db, tagId, k), env)
    ensures TagDeletedUpTo(DeleteTagUpTo(db, tagId, k), tagId, k)
  {
    if k > 0 {
      DeleteTagIsConsistent(db, env, tagId, k - 1);
      var before, after := DeleteTagUpTo(db, tagId, k - 1), DeleteTagUpTo(db, tagId, k);
      assert TagDeletedUpTo(after, tagId, k);
      assert Shrinks(before, after);
      assert NoOrphans(after);
      ShrinkingIsConsistent(before, after, env);
    }
  }

  lemma HashIsConsistent(db: Db, env: Env, tagId: Id)
    requires Consistent(db, env)
    ensures Consistent(HashTag(db, env, tagId), env)
    ensures forall k :: k in db.files && k.tagId == tagId ==>
              HashTag(db, env, tagId).files[k].hash == Some(env.hash(db.files[k].content))
  {
    var after := HashTag(db, env, tagId);
    assert ParsesAreTrue(after, env) by {
      forall k | k in after.files && k.tagId in after.tags && after.tags[k.tagId].processed
        ensures IsParsedFrom(after, env, k)
      {
        assert IsParsedFrom(db, env, k);
      }
    }
  }

  lemma ParseIsConsistent(db: Db, env: Env, tagId: Id)
    requires Consistent(db, env)
    ensures Consistent(ParseTag(db, env, tagId), env)
  {
    if tagId in db.tags && Parses(db, env, tagId) {
      var after := ParseTag(db, env, tagId);
      assert ParsesAreTrue(after, env) by {
        forall k | k in after.files && k.tagId in after.tags && after.tags[k.tagId].processed
          ensures IsParsedFrom(after, env, k)
        {
          if k.tagId != tagId {
            assert IsParsedFrom(db, env, k);
          }
        }
      }
    }
  }

  /** Hashing a tag changes nothing but the missing hashes of its own files. */
  lemma HashTouchesOnly(db: Db, env: Env, tagId: Id)
    ensures var after := HashTag(db, env, tagId);
            && after == db.(files := after.files) && after.files.Keys == db.files.Keys
            && (forall k :: k in db.files ==> after.files[k].content == db.files[k].content)
            && (forall k :: k in db.files && (k.tagId != tagId || db.files[k].hash.Some?) ==> after.files[k] == db.files[k])
  {
  }

  /** Parsing a tag stores the parses of its own files and marks it, and touches no other tag; a tag that does not parse stays as it is. */
  lemma ParseTouchesOnly(db: Db, env: Env, tagId: Id)
    ensures var after := ParseTag(db, env, tagId);
            && after == db.(parsed := after.parsed, tags := after.tags) && after.tags.Keys == db.tags.Keys
            && (forall t :: t in db.tags && t != tagId ==> after.tags[t] == db.tags[t])
            && (forall k: FileKey :: k.tagId != tagId ==> (k in after.parsed <==> k in db.parsed))
            && (forall k :: k in db.parsed && k.tagId != tagId ==> after.parsed[k] == db.parsed[k])
            && (tagId in db.tags && Parses(db, env, tagId) ==>
                  && after.tags[tagId] == db.tags[tagId].(processed := true)
                  && forall k :: k in db.files && k.tagId == tagId ==>
                       k in after.parsed && Some(after.parsed[k]) == env.Parse(db.files[k].content))
            && (!Parses(db, env, tagId) ==> after == db)
  {
  }

  lemma SaveIsConsistent(db: Db, env: Env, tagId: Id, events: seq<DriftEvent>)
    requires Consistent(db, env)
    ensures Consistent(SaveEvents(db, tagId, events), env)
  {
    if EventsFor(db, tagId, events) {
      SaveKeeps(db.events, db.nextId, events);
      SavedRows(db.events, db.nextId, events);
      var after := SaveEvents(db, tagId, events);
      assert EventsAnchored(after) by {
        forall r | r in after.events
          ensures r.tagId in after.tags && after.tags[r.tagId].processed && after.tags[r.tagId].moduleId == r.moduleId
        {
        }
      }
      assert forall k :: k in db.files ==> (IsParsedFrom(db, env, k) <==> IsParsedFrom(after, env, k));
    }
  }

  /** A row of the table after a save was there before or is the row of one of the events. */
  lemma {:induction false} SavedRows(table: seq<PgRow>, firstId: Id, events: seq<DriftEvent>)
    ensures forall r :: r in PgSave(table, firstId, events) ==>
              r in table || exists e :: e in events && PgRowOf(r.id, e) == r
  {
    if events != [] {
      var init, last := events[..|events| - 1], events[|events| - 1];
      SavedRows(table, firstId, init);
      assert events == init + [last];
      forall r | r in PgSave(table, firstId, events) && r !in table
        ensures exists e :: e in events && PgRowOf(r.id, e) == r
      {
        if r in PgSave(table, firstId, init) {
          var e :| e in init && PgRowOf(r.id, e) == r;
          assert e in events;
        } else {
          assert last in events && PgRowOf(r.id, last) == r;
        }
      }
    }
  }

  lemma ApplyIsConsistent(db: Db, env: Env, step: Step)
    requires Consistent(db, env)
    ensures Consistent(Apply(db, env, step), env)
  {
    var after := Apply(db, env, step);
    match step
    case DoPush(name, tag, files, now) => PushIsConsistent(db, env, name, tag, files, now);
    case DoDeleteModule(name, k) =>
      if name in db.modules {
        DeleteModuleIsConsistent(db, env, name, if k <= 5 then k else 5);
      }
    case DoDeleteTag(name, tag, k) =>
      if TagExists(db, name, tag) {
        DeleteTagIsConsistent(db, env, TagIdOf(db, name, tag), if k <= 3 then k else 3);
      }
    case DoHash(t) => HashIsConsistent(db, env, t);
    case DoParse(t) => ParseIsConsistent(db, env, t);
    case DoSaveEvents(t, events) => SaveIsConsistent(db, env, t, events);
    case _ => OtherStepIsConsistent(db, env, step);
  }

  lemma OtherStepIsConsistent(db: Db, env: Env, step: Step)
    requires Consistent(db, env)
    requires step.DoRegister? || step.DoPushDraft? || step.DoDropDrafts? || step.DoAddEdge? || step.DoAcknowledge?
    ensures Consistent(Apply(db, env, step), env)
  {
    match step
    case DoRegister(name) => RegisterIsConsistent(db, env, name);
    case DoAcknowledge(id, ack) => AcknowledgeIsConsistent(db, env, id, ack);
    case DoPushDraft(name, tag, files, now) => LinksAreConsistent(db, PushDraft(db, name, tag, files, now), env);
    case DoDropDrafts(cutoff) => LinksAreConsistent(db, DropDraftsBefore(db, cutoff), env);
    case DoAddEdge(t, d) => LinksAreConsistent(db, AddEdge(db, t, d), env);
  }

  lemma LinksAreConsistent(db: Db, after: Db, env: Env)
    requires Consistent(db, env) && after == db.(drafts := after.drafts, edges := after.edges)
    requires forall k :: k in after.drafts ==> k.moduleId in db.modules.Values
    requires forall e :: e in after.edges ==> e.tagId in db.tags && e.dependencyTagId < db.nextId
    ensures Consistent(after, env)
  {
    ParsesUnchanged(db, after, env);
  }

  lemma ParsesUnchanged(db: Db, after: Db, env: Env)
    requires ParsesAreTrue(db, env) && after.files == db.files && after.tags == db.tags && after.parsed == db.parsed
    ensures ParsesAreTrue(after, env)
  {
    forall k | k in after.files && k.tagId in after.tags && after.tags[k.tagId].processed
      ensures IsParsedFrom(after, env, k)
    {
      assert IsParsedFrom(db, env, k);
    }
  }

  lemma RegisterIsConsistent(db: Db, env: Env, name: string)
    requires Consistent(db, env)
    ensures Consistent(Register(db, name), env)
  {
    var after := Register(db, name);
    if name !in db.modules {
      RegisterKeepsReferences(db, name);
      ParsesUnchanged(db, after, env);
    }
  }

  lemma RegisterKeepsReferences(db: Db, name: string)
    requires UniqueRows(db) && FreshIds(db) && NoOrphans(db) && name !in db.modules
    ensures UniqueRows(Register(db, name)) && FreshIds(Register(db, name)) && NoOrphans(Register(db, name))
  {
    var after := Register(db, name);
    forall id | id in db.modules.Values
      ensures id in after.modules.Values
    {
      var a :| a in db.modules && db.modules[a] == id;
      assert a in after.modules && after.modules[a] == id;
    }
  }

  lemma AcknowledgeIsConsistent(db: Db, env: Env, id: Id, ack: Acknowledgement)
    requires Consistent(db, env)
    ensures Consistent(db.(events := PgAcknowledge(db.events, id, ack)), env)
  {
    var rows := PgAcknowledge(db.events, id, ack);
    ParsesUnchanged(db, db.(events := rows), env);
    forall i | 0 <= i < |rows|
      ensures rows[i].tagId == db.events[i].tagId && rows[i].moduleId == db.events[i].moduleId
      ensures PgKey(rows[i]) == PgKey(db.events[i]) && db.events[i] in db.events
    {
    }
  }

  /** Every state that operations can reach, stopped deletes included, is consistent. */
  lemma {:induction false} ReachableIsConsistent(env: Env, steps: seq<Step>)
    ensures Consistent(Run(EMPTY, env, steps), env)
  {
    if steps != [] {
      ReachableIsConsistent(env, steps[..|steps| - 1]);
      ApplyIsConsistent(Run(EMPTY, env, steps[..|steps| - 1]), env, steps[|steps| - 1]);
    }
  }
}
