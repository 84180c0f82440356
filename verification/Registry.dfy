/**
 The repository as an object: tables that its methods change statement by
 statement, inside a transaction where the source uses one.  Each method is
 proved against the functions on tables; deletes may fail before any statement.
 */
module Registry {
  import opened Base
  import opened Events
  import opened Store
  import opened History
  import opened Search
  import opened Dependencies

  datatype RepoError =
    | NoSuchModule
    | TagAlreadyExists
    | CouldNotInsert
    | NoSuchTag
    | NoSuchDependency
    | Interrupted
    | InvalidRequest
    | NoSuchDraft

  const RECENT := 10

  ghost predicate NewestFirst(db: Db, ids: seq<Id>)
    requires forall t :: t in ids ==> t in db.tags
  {
    forall i, j :: 0 <= i < j < |ids| ==>
      var s, t := ids[i], ids[j];
      s != t && s in ids && t in ids && db.tags[t].updatedAt <= db.tags[s].updatedAt
  }

  /** The newest tags, newest first, as many as fit; a tag left out is no newer than any tag listed. */
  ghost predicate IsRecent(db: Db, m: Id, ids: seq<Id>, limit: nat) {
    && |ids| <= limit
    && (forall t :: t in ids ==> OfModule(db, m, t))
    && NewestFirst(db, ids)
    && (forall s, t :: OfModule(db, m, s) && s !in ids && t in ids ==> db.tags[s].updatedAt <= db.tags[t].updatedAt)
    && (|ids| < limit ==> forall s :: OfModule(db, m, s) ==> s in ids)
  }

  method NewestOf(db: Db, candidates: set<Id>) returns (best: Id)
    requires candidates != {} && candidates <= db.tags.Keys
    ensures best in candidates
    ensures forall t :: t in candidates ==> db.tags[t].updatedAt <= db.tags[best].updatedAt
  {
    best :| best in candidates;
    var rest := candidates;
    while rest != {}
      invariant rest <= candidates && best in candidates
      invariant forall t :: t in candidates - rest ==> db.tags[t].updatedAt <= db.tags[best].updatedAt
      decreases |rest|
    {
      var t :| t in rest;
      if db.tags[t].updatedAt > db.tags[best].updatedAt {
        best := t;
      }
      rest := rest - {t};
    }
  }

  /** `SELECT tag FROM tags WHERE module_id = $1 ORDER BY updated_at DESC LIMIT limit`. */
  method RecentTags(db: Db, m: Id, limit: nat) returns (ids: seq<Id>)
    ensures IsRecent(db, m, ids, limit)
  {
    ids := [];
    var rest := set t | t in db.tags && OfModule(db, m, t);
    while rest != {} && |ids| < limit
      invariant rest <= db.tags.Keys && |ids| <= limit
      invariant forall t :: OfModule(db, m, t) <==> t in ids || t in rest
      invariant forall s, t :: s in rest && t in ids ==> s != t && db.tags[s].updatedAt <= db.tags[t].updatedAt
      invariant NewestFirst(db, ids)
      decreases |rest|
    {
      var t := NewestOf(db, rest);
      ids := ids + [t];
      rest := rest - {t};
    }
  }

  /** The files of a tag, in whatever order the rows come. */
  method ReadFiles(db: Db, id: Id) returns (files: seq<SourceFile>)
    ensures IsListing(files, Contents(db, id))
  {
    var rest := set k | k in db.files && k.tagId == id;
    ghost var all := rest;
    files := [];
    while rest != {}
      invariant rest <= all
      invariant forall f: SourceFile :: f in files <==>
                  FileKey(id, f.filename) in all - rest && db.files[FileKey(id, f.filename)].content == f.content
      invariant DistinctNames(files)
      decreases |rest|
    {
      var k :| k in rest;
      assert k == FileKey(id, k.filename);
      files := files + [SourceFile(k.filename, db.files[k].content)];
      rest := rest - {k};
    }
    forall f: SourceFile
      ensures f in files <==> f.filename in Contents(db, id) && Contents(db, id)[f.filename] == f.content
    {
      ContentsAt(db, id, f.filename);
    }
  }

  /** A sequence shows a map of contents: each file once. */
  ghost predicate IsListing(files: seq<SourceFile>, contents: map<string, string>) {
    && DistinctNames(files)
    && forall f: SourceFile :: f in files <==> f.filename in contents && contents[f.filename] == f.content
  }

  ghost predicate Shows(files: seq<SourceFile>, pulled: Pulled) {
    match pulled
    case Stable(contents) => IsListing(files, contents)
    case Draft(draft) => files == draft
  }

  method PullModule(db: Db, name: string, tag: string) returns (r: Result<seq<SourceFile>, RepoError>)
    ensures name !in db.modules <==> r == Err(NoSuchModule)
    ensures name in db.modules && !TagExists(db, name, tag) <==> r == Err(NoSuchTag)
    ensures r.Ok? ==> exists id :: IsTag(db, name, tag, id) && IsListing(r.value, Contents(db, id))
    ensures r.Err? ==> r.error == NoSuchModule || r.error == NoSuchTag
  {
    if name !in db.modules {
      return Err(NoSuchModule);
    }
    var id := FindTag(db, name, tag);
    if id.None? {
      return Err(NoSuchTag);
    }
    var files := ReadFiles(db, id.value);
    return Ok(files);
  }

  method PullDraftModule(db: Db, name: string, tag: string) returns (r: Result<seq<SourceFile>, RepoError>)
    ensures r == if name !in db.modules then Err(NoSuchModule)
                 else if DraftKey(db.modules[name], tag) !in db.drafts then Err(NoSuchDraft)
                 else Ok(db.drafts[DraftKey(db.modules[name], tag)].files)
  {
    if name !in db.modules {
      return Err(NoSuchModule);
    }
    if DraftKey(db.modules[name], tag) !in db.drafts {
      return Err(NoSuchDraft);
    }
    return Ok(db.drafts[DraftKey(db.modules[name], tag)].files);
  }

  /** The server's pull: the stable tag first, the draft only when there is no stable tag. */
  method ServerPull(db: Db, name: string, tag: string) returns (r: Result<seq<SourceFile>, RepoError>)
    requires UniqueRows(db)
    ensures name == "" || tag == "" ==> r == Err(InvalidRequest)
    ensures name != "" && tag != "" ==> (r.Ok? <==> Pull(db, name, tag).Ok?)
    ensures r.Ok? ==> Shows(r.value, Pull(db, name, tag).value)
  {
    if name == "" || tag == "" {
      return Err(InvalidRequest);
    }
    var tagNotFound := false;
    r := PullModule(db, name, tag);
    if r.Err? {
      if r.error != NoSuchTag {
        return r;
      }
      tagNotFound := true;
    } else {
      ghost var id :| IsTag(db, name, tag, id) && IsListing(r.value, Contents(db, id));
      TagIdIsUnique(db, name, tag, id);
    }
    if tagNotFound {
      r := PullDraftModule(db, name, tag);
    }
  }

  /** The first look for an existing tag: it only sees the newest ones. */
  method IsAmongRecent(db: Db, name: string, tag: string) returns (known: bool)
    requires name in db.modules
    ensures Sees(db, db.modules[name], tag, known) && (known ==> TagExists(db, name, tag))
  {
    var recent := RecentTags(db, db.modules[name], RECENT);
    for i := 0 to |recent|
      invariant !HasName(db, recent[..i], tag)
    {
      assert recent[i] in recent;
      if db.tags[recent[i]].name == tag {
        assert IsTag(db, name, tag, recent[i]);
        assert HasName(db, recent, tag);
        return true;
      }
    }
    assert recent[..|recent|] == recent;
    return false;
  }

  /** The tags of the module that are strictly newer than one of them. */
  function NewerThan(db: Db, m: Id, t: Id): set<Id>
    requires t in db.tags
  {
    set s | s in db.tags && OfModule(db, m, s) && db.tags[t].updatedAt < db.tags[s].updatedAt
  }

  function Items(ids: seq<Id>): set<Id> { set t | t in ids }

  lemma {:induction false} ItemCount(ids: seq<Id>)
    ensures |Items(ids)| <= |ids|
    ensures (forall i, j :: 0 <= i < j < |ids| ==> ids[i] != ids[j]) ==> |Items(ids)| == |ids|
  {
    if ids != [] {
      var init, last := ids[..|ids| - 1], ids[|ids| - 1];
      ItemCount(init);
      assert ids == init + [last];
      assert Items(ids) == Items(init) + {last};
    }
  }

  lemma SubsetCount(a: set<Id>, b: set<Id>)
    requires a <= b
    ensures |a| <= |b|
  {
    assert b == a + (b - a);
  }

  /** The first ten hide a tag with ten newer ones, and, with distinct times, show every other. */
  lemma RecentIff(db: Db, m: Id, recent: seq<Id>, t: Id)
    requires IsRecent(db, m, recent, 10) && OfModule(db, m, t)
    ensures t in recent ==> |NewerThan(db, m, t)| < 10
    ensures DistinctTimes(db, m) && t !in recent ==> |NewerThan(db, m, t)| >= 10
  {
    var items := Items(recent);
    ItemCount(recent);
    if t in recent {
      assert t in items && |items - {t}| == |items| - 1;
      SubsetCount(NewerThan(db, m, t), items - {t});
    } else if DistinctTimes(db, m) {
      forall s | s in items
        ensures s in NewerThan(db, m, t)
      {
        assert db.tags[t].updatedAt <= db.tags[s].updatedAt;
      }
      SubsetCount(items, NewerThan(db, m, t));
    }
  }

  /** Whether an existing tag is reported as such: not with ten newer ones, and with fewer, under distinct times, it is. */
  ghost predicate ReportsAs(db: Db, m: Id, t: Id, known: bool)
    requires t in db.tags
  {
    && (|NewerThan(db, m, t)| >= 10 ==> !known)
    && (|NewerThan(db, m, t)| < 10 && DistinctTimes(db, m) ==> known)
  }

  lemma SeesForAll(db: Db, name: string, tag: string, known: bool)
    requires UniqueRows(db) && name in db.modules && Sees(db, db.modules[name], tag, known)
    ensures forall t :: IsTag(db, name, tag, t) ==> ReportsAs(db, db.modules[name], t, known)
  {
    forall t | IsTag(db, name, tag, t)
      ensures ReportsAs(db, db.modules[name], t, known)
    {
      SeesIff(db, name, tag, t, known);
    }
  }

  lemma SeesIff(db: Db, name: string, tag: string, t: Id, known: bool)
    requires UniqueRows(db) && IsTag(db, name, tag, t) && Sees(db, db.modules[name], tag, known)
    ensures ReportsAs(db, db.modules[name], t, known)
  {
    var m := db.modules[name];
    var recent :| IsRecent(db, m, recent, RECENT) && (known <==> HasName(db, recent, tag));
    RecentIff(db, m, recent, t);
    forall s | s in recent && s in db.tags && db.tags[s].name == tag
      ensures s == t
    {
      assert SameName(db.tags[s], db.tags[t]);
    }
  }

  ghost predicate HasName(db: Db, ids: seq<Id>, tag: string) {
    exists t :: t in ids && t in db.tags && db.tags[t].name == tag
  }

  /** Whether the tag shows among the newest ones, as the query lists them. */
  ghost predicate Sees(db: Db, m: Id, tag: string, known: bool) {
    exists recent :: IsRecent(db, m, recent, RECENT) && (known <==> HasName(db, recent, tag))
  }

  /** The k-th statement of a module delete. */
  method ModuleStatement(ghost start: Db, db: Db, name: string, k: nat) returns (after: Db)
    requires 1 <= k <= 5 && name in start.modules && name in db.modules && db.modules[name] == start.modules[name]
    requires db == DeleteModuleUpTo(start, name, k - 1)
    ensures after == DeleteModuleUpTo(start, name, k)
  {
    var m := db.modules[name];
    match k
    case 1 => after := db.(files := map f | f in db.files && !OfModule(db, m, f.tagId) :: db.files[f]);
    case 2 => after := db.(edges := set e | e in db.edges && !OfModule(db, m, e.tagId));
    case 3 => after := DropTags(db, map t | t in db.tags && db.tags[t].moduleId != m :: db.tags[t]);
    case 4 => after := db.(drafts := map d | d in db.drafts && d.moduleId != m :: db.drafts[d]);
    case _ => after := db.(modules := db.modules - {name});
  }

  /** One insert per file; the unique index refuses a second file of the same name. */
  method InsertFiles(table: map<FileKey, FileRow>, tagId: Id, files: seq<SourceFile>) returns (r: Option<map<FileKey, FileRow>>)
    requires forall k :: k in table ==> k.tagId != tagId
    ensures r == if DistinctNames(files) then Some(table + NewFiles(tagId, files)) else None
  {
    var rows := table;
    for i := 0 to |files|
      invariant rows == table + NewFiles(tagId, files[..i])
      invariant DistinctNames(files[..i])
    {
      if FileKey(tagId, files[i].filename) in rows {
        DuplicateName(tagId, files, i);
        return None;
      }
      NewName(tagId, files, i);
      rows := rows[FileKey(tagId, files[i].filename) := FileRow(files[i].content, None)];
    }
    assert files[..|files|] == files;
    return Some(rows);
  }

  class Repository {
    var db: Db
    const env: Env

    ghost predicate Valid()
      reads this
    {
      Consistent(db, env)
    }

    constructor (env: Env)
      ensures Valid() && db == EMPTY && this.env == env
    {
      this.env := env;
      db := EMPTY;
    }

    method RegisterModule(name: string)
      requires Valid()
      modifies this
      ensures Valid() && db == Register(old(db), name)
    {
      RegisterIsConsistent(db, env, name);
      if name !in db.modules {
        db := db.(modules := db.modules[name := db.nextId], nextId := db.nextId + 1);
      }
    }

    /**
     All or nothing: the tag is inserted with exactly the given files, or nothing changes.  A tag that
     exists is refused whether or not it is among the recent ones that the first check looks at.
     */
    method PushModule(name: string, tag: string, files: seq<SourceFile>, now: nat) returns (r: Result<(), RepoError>)
      requires Valid()
      modifies this
      ensures Valid() && db == Push(old(db), name, tag, files, now)
      ensures r.Ok? <==> CanPush(old(db), name, tag, files)
      ensures r == Err(NoSuchModule) <==> name !in old(db).modules
      ensures name in old(db).modules ==> Sees(old(db), old(db).modules[name], tag, r == Err(TagAlreadyExists))
      ensures r.Err? ==> r.error in {NoSuchModule, TagAlreadyExists, CouldNotInsert}
      ensures forall t :: IsTag(old(db), name, tag, t) ==> ReportsAs(old(db), old(db).modules[name], t, r == Err(TagAlreadyExists))
    {
      if name !in db.modules {
        return Err(NoSuchModule);
      }
      var known := IsAmongRecent(db, name, tag);
      SeesForAll(db, name, tag, known);
      if known {
        return Err(TagAlreadyExists);
      }
      var existing := FindTag(db, name, tag);
      if existing.Some? {
        return Err(CouldNotInsert);
      }
      var tagId := db.nextId;
      var tx := db.(tags := db.tags[tagId := TagRow(db.modules[name], tag, now, false)], nextId := db.nextId + 1);
      assert forall k :: k in tx.files ==> k.tagId != tagId;
      var rows := InsertFiles(tx.files, tagId, files);
      if rows.None? {
        return Err(CouldNotInsert);
      }
      tx := tx.(files := rows.value);
      assert tx == Push(db, name, tag, files, now);
      PushIsConsistent(db, env, name, tag, files, now);
      db := tx;
      return Ok(());
    }

    method PushDraftModule(name: string, tag: string, files: seq<SourceFile>, now: nat) returns (r: Result<(), RepoError>)
      requires Valid()
      modifies this
      ensures Valid() && db == PushDraft(old(db), name, tag, files, now)
      ensures r == if name in old(db).modules then Ok(()) else Err(NoSuchModule)
    {
      OtherStepIsConsistent(db, env, DoPushDraft(name, tag, files, now));
      if name !in db.modules {
        return Err(NoSuchModule);
      }
      db := db.(drafts := db.drafts[DraftKey(db.modules[name], tag) := DraftRow(files, now)]);
      return Ok(());
    }

    method DeleteObsoleteDraftTags(cutoff: nat)
      requires Valid()
      modifies this
      ensures Valid() && db == DropDraftsBefore(old(db), cutoff)
    {
      OtherStepIsConsistent(db, env, DoDropDrafts(cutoff));
      db := db.(drafts := map k | k in db.drafts && db.drafts[k].updatedAt >= cutoff :: db.drafts[k]);
    }

    /** Five statements, no transaction: `failing` is the statement at which the database gives up, if any. */
    method DeleteModule(name: string, failing: Option<nat>) returns (r: Result<(), RepoError>)
      requires Valid()
      requires failing.Some? ==> 1 <= failing.value <= 5
      modifies this
      ensures Valid()
      ensures db == DeleteModuleUpTo(old(db), name, if failing.Some? then failing.value - 1 else 5)
      ensures r == if failing.Some? then Err(Interrupted)
                   else if name in old(db).modules then Ok(()) else Err(NoSuchModule)
    {
      if name in db.modules {
        DeleteModuleIsConsistent(db, env, name, if failing.Some? then failing.value - 1 else 5);
      }
      ghost var start := db;
      var deleted := false;
      for k := 1 to 6
        invariant db == DeleteModuleUpTo(start, name, k - 1)
        invariant deleted <==> k == 6 && name in start.modules
        invariant failing.Some? ==> k <= failing.value
      {
        if failing == Some(k) {
          return Err(Interrupted);
        }
        ModuleRowIsKept(start, name, k - 1);
        if name in db.modules {
          db := ModuleStatement(start, db, name, k);
          deleted := k == 5;
        }
      }
      return if deleted then Ok(()) else Err(NoSuchModule);
    }

    /** Three statements, no transaction; edges into the tag go as well. */
    method DeleteModuleTag(name: string, tag: string, failing: Option<nat>) returns (r: Result<(), RepoError>, ghost id: Id)
      requires Valid()
      requires failing.Some? ==> 1 <= failing.value <= 3
      modifies this
      ensures Valid()
      ensures !TagExists(old(db), name, tag) ==> r == Err(NoSuchTag) && db == old(db)
      ensures TagExists(old(db), name, tag) ==>
                && IsTag(old(db), name, tag, id)
                && db == DeleteTagUpTo(old(db), id, if failing.Some? then failing.value - 1 else 3)
                && r == if failing.Some? then Err(Interrupted) else Ok(())
    {
      id := 0;
      var found := FindTag(db, name, tag);
      if found.None? {
        return Err(NoSuchTag), id;
      }
      var t := found.value;
      id := t;
      ghost var start := db;
      for k := 1 to 4
        invariant db == DeleteTagUpTo(start, t, k - 1)
        invariant failing.Some? ==> k <= failing.value
      {
        if failing == Some(k) {
          DeleteTagIsConsistent(start, env, t, k - 1);
          return Err(Interrupted), id;
        }
        match k
        case 1 => db := db.(files := map f | f in db.files && f.tagId != t :: db.files[f]);
        case 2 => db := db.(edges := set e | e in db.edges && e.tagId != t && e.dependencyTagId != t);
        case _ => db := DropTags(db, db.tags - {t});
      }
      DeleteTagIsConsistent(start, env, t, 3);
      return Ok(()), id;
    }

    /** One insert per dependency, no transaction: the edges inserted before a failure stay. */
    method AddModuleDependencies(name: string, tag: string, dependencies: seq<Dep>)
      returns (r: Result<(), RepoError>, ghost done: nat)
      requires Valid()
      modifies this
      ensures Valid() && OnlyAddsEdgesFrom(old(db), db, Dep(name, tag))
      ensures StopsAt(old(db), Dep(name, tag), dependencies, done)
      ensures TagExists(old(db), name, tag) ==> (r.Ok? <==> done == |dependencies|)
      ensures TagExists(old(db), name, tag) ==> forall v ::
                Links(db, Dep(name, tag), v) <==> Links(old(db), Dep(name, tag), v) || v in dependencies[..done]
      ensures EdgesResolve(old(db)) ==> EdgesResolve(db)
      ensures !TagExists(old(db), name, tag) ==> r == Err(NoSuchTag) && db == old(db)
    {
      ghost var start, from := db, Dep(name, tag);
      done := HowFar(start, from, dependencies);
      var found := FindTag(db, name, tag);
      if found.None? {
        return Err(NoSuchTag), done;
      }
      var tagId := found.value;
      for i := 0 to |dependencies|
        invariant OnlyAddsEdges(start, db, tagId) && i <= done
        invariant forall v :: Links(db, from, v) <==> Links(start, from, v) || v in dependencies[..i]
      {
        var d := dependencies[i];
        var target := FindTag(db, d.name, d.tag);
        EdgesAreConsistent(start, db, env, tagId);
        SameTagsExist(start, db, d);
        NextInsert(start, from, dependencies, i, done);
        if target.None? {
          return Err(NoSuchDependency), done;
        }
        LinkAdded(db, from, d, Edge(tagId, target.value));
        if Edge(tagId, target.value) in db.edges {
          return Err(CouldNotInsert), done;
        }
        db := db.(edges := db.edges + {Edge(tagId, target.value)});
      }
      EdgesAreConsistent(start, db, env, tagId);
      return Ok(()), done;
    }

    /** A stable push and its dependencies are two steps: an error from the second leaves the tag published. */
    method PushAndLink(name: string, tag: string, files: seq<SourceFile>, dependencies: seq<Dep>, now: nat)
      returns (r: Result<(), RepoError>, ghost done: nat)
      requires Valid()
      modifies this
      ensures Valid()
      ensures PushedAndLinked(old(db), Push(old(db), name, tag, files, now), db, Dep(name, tag),
                              CanPush(old(db), name, tag, files), dependencies, done, r.Ok?)
    {
      done := 0;
      r := PushModule(name, tag, files, now);
      if r.Ok? {
        NewTagHasNoLinks(old(db), env, name, tag, files, now);
        NewTagExists(old(db), name, tag, files, now);
        ghost var pushed := db;
        r, done := AddModuleDependencies(name, tag, dependencies);
        StopsAtEndIff(pushed, Dep(name, tag), dependencies, done);
      }
    }

    /** The server's push: the request is checked first, and a draft keeps its dependencies to itself. */
    method ServerPush(name: string, tag: string, files: seq<SourceFile>, dependencies: seq<Dep>, isDraft: bool, now: nat)
      returns (r: Result<(), RepoError>, ghost done: nat)
      requires Valid()
      modifies this
      ensures Valid()
      ensures !WellFormedRequest(env, name, tag, files) ==> r == Err(InvalidRequest) && db == old(db)
      ensures WellFormedRequest(env, name, tag, files) && isDraft ==>
                db == PushDraft(old(db), name, tag, files, now) && (r.Ok? <==> name in old(db).modules)
      ensures WellFormedRequest(env, name, tag, files) && !isDraft ==>
                PushedAndLinked(old(db), Push(old(db), name, tag, files, now), db, Dep(name, tag),
                                CanPush(old(db), name, tag, files), dependencies, done, r.Ok?)
    {
      done := 0;
      if name == "" || tag == "" {
        return Err(InvalidRequest), done;
      }
      for i := 0 to |files|
        invariant forall k :: 0 <= k < i ==> WellFormedFile(env, files[k])
      {
        if !WellFormedFile(env, files[i]) {
          return Err(InvalidRequest), done;
        }
      }
      if isDraft {
        r := PushDraftModule(name, tag, files, now);
      } else {
        r, done := PushAndLink(name, tag, files, dependencies, now);
      }
    }
  }

  /** A request is refused exactly for an empty name or tag, or a file without a name, without text or with wrong syntax. */
  lemma RefusedIff(env: Env, name: string, tag: string, files: seq<SourceFile>)
    ensures !WellFormedRequest(env, name, tag, files) <==>
            || name == "" || tag == ""
            || exists f :: f in files && (f.filename == "" || f.content == "" || !env.syntax(f.content))
  {
    if WellFormedRequest(env, name, tag, files) {
      forall f | f in files
        ensures f.filename != "" && f.content != "" && env.syntax(f.content)
      {
        var i :| 0 <= i < |files| && files[i] == f;
        assert WellFormedFile(env, files[i]);
      }
    } else if name != "" && tag != "" {
      var i :| 0 <= i < |files| && !WellFormedFile(env, files[i]);
      assert files[i] in files;
    }
  }

  predicate WellFormedRequest(env: Env, name: string, tag: string, files: seq<SourceFile>) {
    name != "" && tag != "" && forall i :: 0 <= i < |files| ==> WellFormedFile(env, files[i])
  }

  /**
   A stable push that cannot happen changes nothing; one that can publishes the tag whatever becomes of
   its dependencies, and links it to exactly the first `done` of them.
   */
  ghost predicate PushedAndLinked(db: Db, pushed: Db, after: Db, from: Dep, canPush: bool, dependencies: seq<Dep>,
                                  done: nat, ok: bool)
  {
    if !canPush then !ok && after == db
    else
      && OnlyAddsEdgesFrom(pushed, after, from)
      && StopsAt(pushed, from, dependencies, done)
      && (ok <==> done == |dependencies|)
      && (ok <==> Distinct(dependencies) && forall d :: d in dependencies ==> Exists(pushed, d))
      && forall v :: Links(after, from, v) <==> v in dependencies[..done]
  }

  /** What the server checks of a pushed file: a name, some text, correct syntax. */
  predicate WellFormedFile(env: Env, f: SourceFile) {
    f.filename != "" && f.content != "" && env.syntax(f.content)
  }

  lemma NewName(tagId: Id, files: seq<SourceFile>, i: nat)
    requires i < |files| && DistinctNames(files[..i]) && FileKey(tagId, files[i].filename) !in NewFiles(tagId, files[..i])
    ensures DistinctNames(files[..i + 1])
    ensures NewFiles(tagId, files[..i + 1]) ==
            NewFiles(tagId, files[..i])[FileKey(tagId, files[i].filename) := FileRow(files[i].content, None)]
  {
    assert files[..i + 1][..i] == files[..i];
    NewNameIsDistinct(tagId, files, i);
  }

  lemma NewNameIsDistinct(tagId: Id, files: seq<SourceFile>, i: nat)
    requires i < |files| && DistinctNames(files[..i]) && FileKey(tagId, files[i].filename) !in NewFiles(tagId, files[..i])
    ensures DistinctNames(files[..i + 1])
  {
    var before := files[..i];
    NewFilesRows(tagId, before);
    forall f | f in before
      ensures f.filename != files[i].filename
    {
      assert FileKey(tagId, f.filename) in NewFiles(tagId, before);
    }
    DistinctNext(before, files[i]);
    assert files[..i + 1] == before + [files[i]];
  }

  lemma DistinctNext(files: seq<SourceFile>, next: SourceFile)
    requires DistinctNames(files) && forall f :: f in files ==> f.filename != next.filename
    ensures DistinctNames(files + [next])
  {
  }

  lemma DuplicateName(tagId: Id, files: seq<SourceFile>, i: nat)
    requires i < |files| && FileKey(tagId, files[i].filename) in NewFiles(tagId, files[..i])
    ensures !DistinctNames(files)
  {
    NewFilesRows(tagId, files[..i]);
    var f :| f in files[..i] && f.filename == files[i].filename;
    var j :| 0 <= j < i && files[..i][j] == f;
    assert files[j].filename == files[i].filename;
  }

  lemma {:induction false} ModuleRowIsKept(db: Db, name: string, k: nat)
    requires k < 5
    ensures DeleteModuleUpTo(db, name, k).modules == db.modules
  {
    if k > 0 {
      ModuleRowIsKept(db, name, k - 1);
    }
  }

  /** Every insert will go through: the targets exist, none is listed twice and none is linked already. */
  ghost predicate CanLink(db: Db, from: Dep, dependencies: seq<Dep>) {
    Distinct(dependencies) && forall d :: d in dependencies ==> Exists(db, d) && !Links(db, from, d)
  }

  /** The edge table has grown by edges from one tag to existing tags, and nothing else has changed. */
  ghost predicate OnlyAddsEdges(db: Db, after: Db, tagId: Id) {
    && after == db.(edges := after.edges) && db.edges <= after.edges
    && forall e :: e in after.edges ==> e in db.edges || (e.tagId == tagId && e.dependencyTagId in db.tags)
  }

  ghost predicate OnlyAddsEdgesFrom(db: Db, after: Db, from: Dep) {
    after == db || exists tagId :: Is(db, from, tagId) && OnlyAddsEdges(db, after, tagId)
  }

  lemma EdgesAreConsistent(db: Db, after: Db, env: Env, tagId: Id)
    requires Consistent(db, env) && tagId in db.tags && OnlyAddsEdges(db, after, tagId)
    ensures Consistent(after, env) && (EdgesResolve(db) ==> EdgesResolve(after))
  {
    LinksAreConsistent(db, after, env);
  }

  lemma LinkAdded(db: Db, from: Dep, d: Dep, e: Edge)
    requires UniqueRows(db) && Is(db, from, e.tagId) && Is(db, d, e.dependencyTagId)
    ensures var after := db.(edges := db.edges + {e});
            forall v :: Links(after, from, v) <==> Links(db, from, v) || v == d
    ensures Links(db, from, d) <==> e in db.edges
  {
    var after := db.(edges := db.edges + {e});
    IdIsUnique(db, from, e.tagId);
    IdIsUnique(db, d, e.dependencyTagId);
    forall v
      ensures Links(after, from, v) <==> Links(db, from, v) || v == d
    {
      NodeIsUnique(db, v, d, e.dependencyTagId);
      if Links(db, from, v) {
        var x :| x in db.edges && Is(db, from, x.tagId) && Is(db, v, x.dependencyTagId);
        assert x in after.edges && Is(after, from, x.tagId) && Is(after, v, x.dependencyTagId);
      }
      if v == d {
        assert e in after.edges && Is(after, from, e.tagId) && Is(after, v, e.dependencyTagId);
      }
      if Links(after, from, v) && v != d {
        var x :| x in after.edges && Is(after, from, x.tagId) && Is(after, v, x.dependencyTagId);
        assert x in db.edges && Is(db, from, x.tagId) && Is(db, v, x.dependencyTagId);
      }
    }
  }

  lemma SameTagsExist(db: Db, after: Db, d: Dep)
    requires after == db.(edges := after.edges)
    ensures Exists(after, d) <==> Exists(db, d)
  {
    if Exists(db, d) {
      var id :| IsTag(db, d.name, d.tag, id);
      assert IsTag(after, d.name, d.tag, id);
    }
    if Exists(after, d) {
      var id :| IsTag(after, d.name, d.tag, id);
      assert IsTag(db, d.name, d.tag, id);
    }
  }

  lemma NewTagExists(db: Db, name: string, tag: string, files: seq<SourceFile>, now: nat)
    requires CanPush(db, name, tag, files)
    ensures Exists(Push(db, name, tag, files, now), Dep(name, tag))
  {
    assert Is(Push(db, name, tag, files, now), Dep(name, tag), db.nextId);
  }

  /** How many of the inserts go through: all of them, or those before the first that cannot. */
  ghost predicate StopsAt(db: Db, from: Dep, dependencies: seq<Dep>, done: nat) {
    && done <= |dependencies| && CanLink(db, from, dependencies[..done])
    && (done < |dependencies| ==> !CanLink(db, from, dependencies[..done + 1]))
  }

  lemma HowFar(db: Db, from: Dep, dependencies: seq<Dep>) returns (done: nat)
    ensures StopsAt(db, from, dependencies, done)
  {
    done := 0;
    while done < |dependencies| && CanLink(db, from, dependencies[..done + 1])
      invariant done <= |dependencies| && CanLink(db, from, dependencies[..done])
    {
      done := done + 1;
    }
  }

  lemma StopsAtEndIff(db: Db, from: Dep, dependencies: seq<Dep>, done: nat)
    requires StopsAt(db, from, dependencies, done)
    ensures done == |dependencies| <==> CanLink(db, from, dependencies)
  {
    assert dependencies[..|dependencies|] == dependencies;
    if done < |dependencies| && CanLink(db, from, dependencies) {
      forall d | d in dependencies[..done + 1]
        ensures d in dependencies
      {
      }
    }
  }

  /** The next insert goes through exactly when its target exists and is not linked, or listed, before. */
  lemma NextInsert(db: Db, from: Dep, dependencies: seq<Dep>, i: nat, done: nat)
    requires StopsAt(db, from, dependencies, done) && i <= done && i < |dependencies|
    ensures i < done <==> Exists(db, dependencies[i]) && !Links(db, from, dependencies[i]) && dependencies[i] !in dependencies[..i]
    ensures dependencies[..i + 1] == dependencies[..i] + [dependencies[i]]
  {
    var d := dependencies[i];
    if i < done {
      assert dependencies[..done][i] == d && d in dependencies[..done];
      forall j | 0 <= j < i
        ensures dependencies[..i][j] != d
      {
        assert dependencies[..done][j] != dependencies[..done][i];
      }
    } else {
      assert dependencies[..i + 1] == dependencies[..i] + [d];
      CanLinkNext(db, from, dependencies[..i], d);
    }
  }

  lemma CanLinkNext(db: Db, from: Dep, dependencies: seq<Dep>, d: Dep)
    requires CanLink(db, from, dependencies)
    ensures Exists(db, d) && !Links(db, from, d) && d !in dependencies ==> CanLink(db, from, dependencies + [d])
  {
  }

  lemma NewTagHasNoLinks(db: Db, env: Env, name: string, tag: string, files: seq<SourceFile>, now: nat)
    requires Consistent(db, env) && CanPush(db, name, tag, files)
    ensures forall v :: !Links(Push(db, name, tag, files, now), Dep(name, tag), v)
  {
    forall v | Links(Push(db, name, tag, files, now), Dep(name, tag), v)
      ensures false
    {
      var pushed := Push(db, name, tag, files, now);
      var e :| e in pushed.edges && Is(pushed, Dep(name, tag), e.tagId) && Is(pushed, v, e.dependencyTagId);
      assert e in db.edges && e.tagId in db.tags;
      assert IsTag(db, name, tag, e.tagId);
    }
  }
}
