/**
 What an operation leaves alone, seen from outside: the pulls, the dependencies
 and the recorded events of everything that the operation is not about.
 */
module Effects {
  import opened Base
  import opened Events
  import opened Store
  import opened History
  import opened Search
  import opened Dependencies
  import opened Daemon
  import opened Frames

  // ---------------------------------------------------------------------------
  // Pulls and links depend on little

  /** The same tag by this name in both states, with the same files, and the same draft. */
  ghost predicate SameNode(db: Db, after: Db, d: Dep) {
    && (d.name in db.modules <==> d.name in after.modules)
    && (d.name in db.modules ==> after.modules[d.name] == db.modules[d.name])
    && (forall id :: Is(after, d, id) <==> Is(db, d, id))
    && (forall id :: Is(db, d, id) ==> SameFiles(db, after, id))
    && (d.name in db.modules ==> SameDraft(db, after, DraftKey(db.modules[d.name], d.tag)))
  }

  ghost predicate SameDraft(db: Db, after: Db, k: DraftKey) {
    (k in db.drafts <==> k in after.drafts) && (k in db.drafts ==> after.drafts[k] == db.drafts[k])
  }

  lemma SameNodeSamePull(db: Db, after: Db, d: Dep)
    requires UniqueRows(db) && SameNode(db, after, d)
    ensures Pull(after, d.name, d.tag) == Pull(db, d.name, d.tag)
  {
    if TagExists(db, d.name, d.tag) {
      var id := TagIdOf(db, d.name, d.tag);
      assert Is(db, d, id);
      IdIsUnique(db, d, id);
      assert Is(after, d, id);
      assert Is(after, d, TagIdOf(after, d.name, d.tag));
      SameFilesSameContents(db, after, id);
    }
    if TagExists(after, d.name, d.tag) {
      assert Is(db, d, TagIdOf(after, d.name, d.tag));
      assert IsTag(db, d.name, d.tag, TagIdOf(after, d.name, d.tag));
    }
  }

  lemma SameNodesSameLinks(db: Db, after: Db, u: Dep, v: Dep)
    requires (forall id :: Is(after, u, id) <==> Is(db, u, id)) && (forall id :: Is(after, v, id) <==> Is(db, v, id))
    requires forall e: Edge :: Is(db, u, e.tagId) && Is(db, v, e.dependencyTagId) ==> (e in after.edges <==> e in db.edges)
    ensures Links(after, u, v) <==> Links(db, u, v)
  {
    if Links(db, u, v) {
      var e :| e in db.edges && Is(db, u, e.tagId) && Is(db, v, e.dependencyTagId);
      assert e in after.edges && Is(after, u, e.tagId) && Is(after, v, e.dependencyTagId);
    }
    if Links(after, u, v) {
      var e :| e in after.edges && Is(after, u, e.tagId) && Is(after, v, e.dependencyTagId);
      assert e in db.edges && Is(db, u, e.tagId) && Is(db, v, e.dependencyTagId);
    }
  }

  // ---------------------------------------------------------------------------
  // Deleting a tag

  /** The tables that a tag delete does not touch, and what it does to the edges. */
  lemma {:induction false} TagDeleteTables(db: Db, b: Id, k: nat)
    requires k <= 3
    ensures var after := DeleteTagUpTo(db, b, k);
            && after.modules == db.modules && after.drafts == db.drafts
            && (forall e: Edge :: e.tagId != b && e.dependencyTagId != b ==> (e in after.edges <==> e in db.edges))
            && (k < 2 ==> after.edges == db.edges)
            && (k >= 2 ==> forall e :: e in after.edges ==> e.tagId != b && e.dependencyTagId != b)
  {
    if k > 0 {
      TagDeleteTables(db, b, k - 1);
    }
  }

  lemma TagDeleteKeepsNode(db: Db, d: Dep, b: Id, k: nat, u: Dep)
    requires k <= 3 && UniqueRows(db) && Is(db, d, b) && u != d
    ensures SameNode(db, DeleteTagUpTo(db, b, k), u)
    ensures !Is(db, u, b)
  {
    var after := DeleteTagUpTo(db, b, k);
    NodeIsUnique(db, u, d, b);
    TagDeleteTables(db, b, k);
    TagDeleteShrinksTags(db, b, k);
    forall id | Is(db, u, id)
      ensures Is(after, u, id) && SameFiles(db, after, id)
    {
      TagDeleteSpares(db, b, k, id);
    }
  }

  /**
   After any number of statements of a tag delete, everything else is as it was: the pull of every other
   name, stable or draft, the dependencies between every two other tags, and the events of every other tag.
   */
  lemma TagDeleteKeepsOthers(db: Db, d: Dep, b: Id, k: nat, u: Dep, v: Dep, t: Id)
    requires k <= 3 && UniqueRows(db) && Is(db, d, b) && u != d && v != d && t in db.tags && t != b
    ensures var after := DeleteTagUpTo(db, b, k);
            && Pull(after, u.name, u.tag) == Pull(db, u.name, u.tag)
            && (Links(after, u, v) <==> Links(db, u, v))
            && t in after.tags && after.tags[t] == db.tags[t] && RowsOf(after.events, t) == RowsOf(db.events, t)
  {
    var after := DeleteTagUpTo(db, b, k);
    TagDeleteKeepsNode(db, d, b, k, u);
    TagDeleteKeepsNode(db, d, b, k, v);
    SameNodeSamePull(db, after, u);
    TagDeleteTables(db, b, k);
    SameNodesSameLinks(db, after, u, v);
    TagDeleteSpares(db, b, k, t);
  }

  lemma OnlyNode(db: Db, after: Db, d: Dep, b: Id, id: Id)
    requires UniqueRows(db) && Is(db, d, b) && after.modules == db.modules
    requires forall t :: t in after.tags ==> t in db.tags && after.tags[t] == db.tags[t]
    ensures Is(after, d, id) ==> id == b
  {
    IdIsUnique(db, d, b);
    assert Is(after, d, id) ==> Is(db, d, id);
  }

  /** From the second statement on, nothing links to or from the tag. */
  lemma TagDeleteUnlinks(db: Db, d: Dep, b: Id, k: nat, v: Dep)
    requires 2 <= k <= 3 && UniqueRows(db) && Is(db, d, b)
    ensures !Links(DeleteTagUpTo(db, b, k), d, v) && !Links(DeleteTagUpTo(db, b, k), v, d)
  {
    var after := DeleteTagUpTo(db, b, k);
    TagDeleteTables(db, b, k);
    TagDeleteShrinksTags(db, b, k);
    forall id
      ensures Is(after, d, id) ==> id == b
    {
      OnlyNode(db, after, d, b, id);
    }
  }

  lemma PullEmptied(db: Db, after: Db, d: Dep, b: Id)
    requires UniqueRows(db) && Is(db, d, b) && after.modules == db.modules && after.tags == db.tags
    requires forall f :: f in after.files ==> f.tagId != b
    ensures Pull(after, d.name, d.tag) == Ok(Stable(map[]))
  {
    assert IsTag(after, d.name, d.tag, b);
    OnlyNode(db, after, d, b, TagIdOf(after, d.name, d.tag));
    NoFilesNoContents(after, b);
  }

  lemma PullDeleted(db: Db, after: Db, d: Dep, b: Id)
    requires UniqueRows(db) && Is(db, d, b) && after.modules == db.modules && after.drafts == db.drafts && b !in after.tags
    requires forall t :: t in after.tags ==> t in db.tags && after.tags[t] == db.tags[t]
    ensures Pull(after, d.name, d.tag) ==
            if DraftKey(db.modules[d.name], d.tag) in db.drafts
            then Ok(Draft(db.drafts[DraftKey(db.modules[d.name], d.tag)].files)) else Err(DraftTagNotFound)
  {
    forall id
      ensures !IsTag(after, d.name, d.tag, id)
    {
      OnlyNode(db, after, d, b, id);
    }
  }

  /** What a pull of the tag itself returns: no files after the first statement, and in the end its draft, if there is one. */
  lemma TagDeleteThenPull(db: Db, env: Env, d: Dep, b: Id, k: nat)
    requires 0 < k <= 3 && Consistent(db, env) && Is(db, d, b)
    ensures Pull(DeleteTagUpTo(db, b, k), d.name, d.tag) ==
            if k < 3 then Ok(Stable(map[]))
            else if DraftKey(db.modules[d.name], d.tag) in db.drafts
            then Ok(Draft(db.drafts[DraftKey(db.modules[d.name], d.tag)].files)) else Err(DraftTagNotFound)
  {
    var after := DeleteTagUpTo(db, b, k);
    DeleteTagIsConsistent(db, env, b, k);
    TagDeleteTables(db, b, k);
    if k < 3 {
      TagRowStays(db, b, k);
      PullEmptied(db, after, d, b);
    } else {
      TagDeleteShrinksTags(db, b, k);
      PullDeleted(db, after, d, b);
    }
  }

  lemma {:induction false} TagRowStays(db: Db, b: Id, k: nat)
    requires k < 3
    ensures DeleteTagUpTo(db, b, k).tags == db.tags
  {
    if k > 0 {
      TagRowStays(db, b, k - 1);
    }
  }

  lemma NoFilesNoContents(db: Db, b: Id)
    requires forall f :: f in db.files ==> f.tagId != b
    ensures Contents(db, b) == map[]
  {
    forall f
      ensures f !in Contents(db, b)
    {
      ContentsAt(db, b, f);
    }
  }

  // ---------------------------------------------------------------------------
  // Deleting a module

  lemma {:induction false} ModuleDeleteModules(db: Db, name: string, k: nat)
    requires k <= 5 && name in db.modules
    ensures DeleteModuleUpTo(db, name, k).modules == if k < 5 then db.modules else db.modules - {name}
  {
    if k > 0 {
      ModuleDeleteModules(db, name, k - 1);
    }
  }

  lemma {:induction false} ModuleDeleteDrafts(db: Db, name: string, k: nat, d: DraftKey)
    requires k <= 5 && name in db.modules && d.moduleId != db.modules[name]
    ensures SameDraft(db, DeleteModuleUpTo(db, name, k), d)
  {
    if k > 0 {
      ModuleDeleteDrafts(db, name, k - 1, d);
    }
  }

  lemma ModuleDeleteKeepsNode(db: Db, name: string, k: nat, u: Dep)
    requires k <= 5 && UniqueRows(db) && name in db.modules && u.name != name
    ensures SameNode(db, DeleteModuleUpTo(db, name, k), u)
  {
    var after := DeleteModuleUpTo(db, name, k);
    ModuleDeleteModules(db, name, k);
    if u.name in db.modules {
      ModuleDeleteDrafts(db, name, k, DraftKey(db.modules[u.name], u.tag));
    }
    ModuleDeleteShrinksTags(db, name, k);
    forall id | Is(db, u, id)
      ensures Is(after, u, id) && SameFiles(db, after, id)
    {
      ModuleDeleteSpares(db, name, k, id);
    }
  }

  /**
   After any number of statements of a module delete, every other module is as it was: its pulls, stable
   or draft, the dependencies between tags of other modules, and the events of their tags.
   */
  lemma ModuleDeleteKeepsOthers(db: Db, name: string, k: nat, u: Dep, v: Dep, t: Id)
    requires k <= 5 && UniqueRows(db) && name in db.modules && u.name != name && v.name != name
    requires t in db.tags && db.tags[t].moduleId != db.modules[name]
    ensures var after := DeleteModuleUpTo(db, name, k);
            && Pull(after, u.name, u.tag) == Pull(db, u.name, u.tag)
            && (Links(after, u, v) <==> Links(db, u, v))
            && t in after.tags && after.tags[t] == db.tags[t] && RowsOf(after.events, t) == RowsOf(db.events, t)
  {
    var after := DeleteModuleUpTo(db, name, k);
    ModuleDeleteKeepsNode(db, name, k, u);
    ModuleDeleteKeepsNode(db, name, k, v);
    SameNodeSamePull(db, after, u);
    ModuleDeleteTables(db, name, k);
    forall e: Edge | Is(db, u, e.tagId)
      ensures e in after.edges <==> e in db.edges
    {
      assert !OfModule(db, db.modules[name], e.tagId);
    }
    SameNodesSameLinks(db, after, u, v);
    ModuleDeleteSpares(db, name, k, t);
  }

  // ---------------------------------------------------------------------------
  // Pushing

  /** A push leaves every other pull, all dependencies and all events as they were. */
  lemma PushKeepsOthers(db: Db, env: Env, name: string, tag: string, files: seq<SourceFile>, now: nat, u: Dep, v: Dep, d: Dep)
    requires Consistent(db, env) && d != Dep(name, tag)
    ensures var after := Push(db, name, tag, files, now);
            && Pull(after, d.name, d.tag) == Pull(db, d.name, d.tag)
            && (Links(after, u, v) <==> Links(db, u, v))
            && after.events == db.events
  {
    var after := Push(db, name, tag, files, now);
    if CanPush(db, name, tag, files) {
      PushKeepsNode(db, env, name, tag, files, now, d);
      SameNodeSamePull(db, after, d);
      PushKeepsLinks(db, env, name, tag, files, now, u, v);
    }
  }

  lemma PushKeepsNode(db: Db, env: Env, name: string, tag: string, files: seq<SourceFile>, now: nat, d: Dep)
    requires Consistent(db, env) && CanPush(db, name, tag, files) && d != Dep(name, tag)
    ensures SameNode(db, Push(db, name, tag, files, now), d)
  {
    var after := Push(db, name, tag, files, now);
    assert !Is(after, d, db.nextId);
    forall id | Is(db, d, id)
      ensures SameFiles(db, after, id)
    {
      PushLeavesFiles(db, after, files, id);
    }
  }

  lemma PushKeepsLinks(db: Db, env: Env, name: string, tag: string, files: seq<SourceFile>, now: nat, u: Dep, v: Dep)
    requires Consistent(db, env) && CanPush(db, name, tag, files)
    ensures Links(Push(db, name, tag, files, now), u, v) <==> Links(db, u, v)
  {
    NewTagKeepsLinks(db, Push(db, name, tag, files, now), db.nextId, u, v);
  }

  lemma NewTagKeepsLinks(db: Db, after: Db, id: Id, u: Dep, v: Dep)
    requires after.modules == db.modules && after.edges == db.edges && id in after.tags && after.tags - {id} == db.tags
    requires forall e :: e in db.edges ==> e.tagId != id && e.dependencyTagId != id
    ensures Links(after, u, v) <==> Links(db, u, v)
  {
    forall t | t != id
      ensures t in after.tags <==> t in db.tags
      ensures t in db.tags ==> after.tags[t] == db.tags[t]
    {
      assert t in after.tags - {id} <==> t in db.tags;
    }
    if Links(db, u, v) {
      var e :| e in db.edges && Is(db, u, e.tagId) && Is(db, v, e.dependencyTagId);
      assert Is(after, u, e.tagId) && Is(after, v, e.dependencyTagId);
    }
    if Links(after, u, v) {
      var e :| e in after.edges && Is(after, u, e.tagId) && Is(after, v, e.dependencyTagId);
      assert Is(db, u, e.tagId) && Is(db, v, e.dependencyTagId);
    }
  }

  /** A pushed draft lasts until its own time is before the cutoff. */
  lemma DraftExpires(db: Db, name: string, tag: string, files: seq<SourceFile>, now: nat, cutoff: nat)
    requires UniqueRows(db) && name in db.modules && !TagExists(db, name, tag)
    ensures Pull(DropDraftsBefore(PushDraft(db, name, tag, files, now), cutoff), name, tag) ==
            if now < cutoff then Err(DraftTagNotFound) else Ok(Draft(files))
  {
    var after := PushDraft(db, name, tag, files, now);
    SameStable(db, after, name, tag);
    PushDraftThenPull(db, name, tag, files, now, name, tag);
    DropDraftsThenPull(after, cutoff, name, tag);
  }

  /** A new edge is a dependency of its source on its target, and of nothing else on anything. */
  lemma AddEdgeLinks(db: Db, s: Id, t: Id, u: Dep, v: Dep)
    requires s in db.tags && t in db.tags
    ensures Links(AddEdge(db, s, t), u, v) <==> Links(db, u, v) || (Is(db, u, s) && Is(db, v, t))
  {
    var after := AddEdge(db, s, t);
    if Links(db, u, v) {
      var e :| e in db.edges && Is(db, u, e.tagId) && Is(db, v, e.dependencyTagId);
      assert e in after.edges && Is(after, u, e.tagId) && Is(after, v, e.dependencyTagId);
    }
    if Is(db, u, s) && Is(db, v, t) {
      var e := Edge(s, t);
      assert e in after.edges && Is(after, u, e.tagId) && Is(after, v, e.dependencyTagId);
    }
    if Links(after, u, v) {
      var e :| e in after.edges && Is(after, u, e.tagId) && Is(after, v, e.dependencyTagId);
      assert e in db.edges || e == Edge(s, t);
      assert Is(db, u, e.tagId) && Is(db, v, e.dependencyTagId);
    }
  }
}
