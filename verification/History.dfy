/**
 What a published tag is worth: once pushed, a tag pulls back the same files
 through every later run that does not delete it, and deletes leave dependency
 targets dangling in exactly one situation.
 */
module History {
  import opened Base
  import opened Events
  import opened Store

  datatype Pulled = Stable(files: map<string, string>) | Draft(draft: seq<SourceFile>)

  datatype PullError = ModuleNotFound | DraftTagNotFound

  /** A server pull: a stable tag shadows a draft of the same name. */
  ghost function Pull(db: Db, name: string, tag: string): Result<Pulled, PullError> {
    if name !in db.modules then Err(ModuleNotFound)
    else if TagExists(db, name, tag) then Ok(Stable(Contents(db, TagIdOf(db, name, tag))))
    else if DraftKey(db.modules[name], tag) in db.drafts then Ok(Draft(db.drafts[DraftKey(db.modules[name], tag)].files))
    else Err(DraftTagNotFound)
  }

  /** The step is not a delete of this tag or of its module. */
  predicate Spares(step: Step, name: string, tag: string) {
    && (step.DoDeleteModule? ==> step.name != name)
    && (step.DoDeleteTag? ==> step.name != name || step.tag != tag)
  }

  ghost predicate Publishes(db: Db, name: string, tag: string, id: Id, files: map<string, string>) {
    IsTag(db, name, tag, id) && Contents(db, id) == files
  }

  lemma TagIdIsUnique(db: Db, name: string, tag: string, id: Id)
    requires UniqueRows(db) && IsTag(db, name, tag, id)
    ensures TagIdOf(db, name, tag) == id
  {
    assert SameName(db.tags[TagIdOf(db, name, tag)], db.tags[id]);
  }

  /** The rows of one tag are the same in both states. */
  ghost predicate SameFiles(db: Db, after: Db, id: Id) {
    forall k: FileKey :: k.tagId == id ==>
      (k in db.files <==> k in after.files) &&
      (k in db.files ==> after.files[k].content == db.files[k].content)
  }

  lemma SameFilesSameContents(db: Db, after: Db, id: Id)
    requires SameFiles(db, after, id)
    ensures Contents(db, id) == Contents(after, id)
  {
    forall f
      ensures f in Contents(db, id) <==> FileKey(id, f) in db.files
      ensures f in Contents(after, id) <==> FileKey(id, f) in after.files
    {
      assert FileKey(id, f).filename == f;
    }
  }

  lemma {:induction false} DeleteOtherModuleKeepsTag(db: Db, env: Env, other: string, k: nat, name: string, tag: string, id: Id)
    requires k <= 5 && Consistent(db, env) && other in db.modules && other != name
    requires IsTag(db, name, tag, id)
    ensures IsTag(DeleteModuleUpTo(db, other, k), name, tag, id)
    ensures SameFiles(db, DeleteModuleUpTo(db, other, k), id)
  {
    if k > 0 {
      DeleteOtherModuleKeepsTag(db, env, other, k - 1, name, tag, id);
      StatementKeepsTag(db, other, k, name, tag, id);
    }
  }

  lemma StatementKeepsTag(db: Db, other: string, k: nat, name: string, tag: string, id: Id)
    requires 0 < k <= 5 && UniqueRows(db) && other in db.modules && other != name && IsTag(db, name, tag, id)
    requires IsTag(DeleteModuleUpTo(db, other, k - 1), name, tag, id) && SameFiles(db, DeleteModuleUpTo(db, other, k - 1), id)
    ensures IsTag(DeleteModuleUpTo(db, other, k), name, tag, id) && SameFiles(db, DeleteModuleUpTo(db, other, k), id)
  {
    var before, m := DeleteModuleUpTo(db, other, k - 1), db.modules[other];
    ModuleDeleteShrinksTags(db, other, k - 1);
    assert before.tags[id].moduleId == db.modules[name] != m;
    match k
    case 1 => assert SameFiles(before, DropModuleFiles(before, m), id);
    case _ =>
  }

  lemma {:induction false} DeleteOtherTagKeepsTag(db: Db, other: Id, k: nat, name: string, tag: string, id: Id)
    requires k <= 3 && other != id && IsTag(db, name, tag, id)
    ensures IsTag(DeleteTagUpTo(db, other, k), name, tag, id)
    ensures SameFiles(db, DeleteTagUpTo(db, other, k), id)
  {
    if k > 0 {
      DeleteOtherTagKeepsTag(db, other, k - 1, name, tag, id);
    }
  }

  lemma PushKeepsTag(db: Db, env: Env, step: Step, name: string, tag: string, id: Id)
    requires step.DoPush? && Consistent(db, env) && IsTag(db, name, tag, id)
    ensures IsTag(Apply(db, env, step), name, tag, id)
    ensures SameFiles(db, Apply(db, env, step), id)
  {
    NewFilesRows(db.nextId, step.files);
  }

  lemma DeleteKeepsTag(db: Db, env: Env, step: Step, name: string, tag: string, id: Id)
    requires step.DoDeleteModule? || step.DoDeleteTag?
    requires Consistent(db, env) && IsTag(db, name, tag, id) && Spares(step, name, tag)
    ensures IsTag(Apply(db, env, step), name, tag, id)
    ensures SameFiles(db, Apply(db, env, step), id)
  {
    match step
    case DoDeleteModule(other, k) =>
      if other in db.modules {
        DeleteOtherModuleKeepsTag(db, env, other, if k <= 5 then k else 5, name, tag, id);
      }
    case DoDeleteTag(other, t, k) =>
      if TagExists(db, other, t) {
        var otherId := TagIdOf(db, other, t);
        assert otherId != id by {
          assert other != name ==> db.modules[other] != db.modules[name];
        }
        DeleteOtherTagKeepsTag(db, otherId, if k <= 3 then k else 3, name, tag, id);
      }
  }

  lemma StepKeepsTag(db: Db, env: Env, step: Step, name: string, tag: string, id: Id)
    requires Consistent(db, env) && IsTag(db, name, tag, id) && Spares(step, name, tag)
    ensures IsTag(Apply(db, env, step), name, tag, id)
    ensures SameFiles(db, Apply(db, env, step), id)
  {
    if step.DoDeleteModule? || step.DoDeleteTag? {
      DeleteKeepsTag(db, env, step, name, tag, id);
    } else if step.DoPush? {
      PushKeepsTag(db, env, step, name, tag, id);
    } else {
      OtherStepKeepsTag(db, env, step, name, tag, id);
    }
  }

  lemma OtherStepKeepsTag(db: Db, env: Env, step: Step, name: string, tag: string, id: Id)
    requires !step.DoDeleteModule? && !step.DoDeleteTag? && !step.DoPush?
    requires IsTag(db, name, tag, id)
    ensures IsTag(Apply(db, env, step), name, tag, id)
    ensures SameFiles(db, Apply(db, env, step), id)
  {
    if step.DoHash? {
      assert HashTag(db, env, step.tagId).tags == db.tags;
    } else if step.DoParse? {
      assert ParseTag(db, env, step.tagId).files == db.files;
    } else {
      assert Apply(db, env, step).files == db.files && Apply(db, env, step).tags == db.tags;
    }
  }

  /**
   Tags are immutable over every run: whatever else is pushed, drafted, compacted, hashed, parsed,
   acknowledged or deleted, a published tag pulls back the same files.
   */
  lemma {:induction false} TagIsImmutable(db: Db, env: Env, steps: seq<Step>, name: string, tag: string, id: Id, files: map<string, string>)
    requires Consistent(db, env) && Publishes(db, name, tag, id, files)
    requires forall s :: s in steps ==> Spares(s, name, tag)
    ensures Consistent(Run(db, env, steps), env)
    ensures Publishes(Run(db, env, steps), name, tag, id, files)
    ensures Pull(Run(db, env, steps), name, tag) == Ok(Stable(files))
  {
    if steps == [] {
      TagIdIsUnique(db, name, tag, id);
    } else {
      var init, last := steps[..|steps| - 1], steps[|steps| - 1];
      TagIsImmutable(db, env, init, name, tag, id, files);
      var before, after := Run(db, env, init), Run(db, env, steps);
      ApplyIsConsistent(before, env, last);
      StepKeepsTag(before, env, last, name, tag, id);
      SameFilesSameContents(before, after, id);
      TagIdIsUnique(after, name, tag, id);
    }
  }

  lemma {:induction false} NewFilesContents(id: Id, files: seq<SourceFile>, f: SourceFile)
    requires DistinctNames(files)
    ensures f in files <==>
            FileKey(id, f.filename) in NewFiles(id, files) &&
            NewFiles(id, files)[FileKey(id, f.filename)].content == f.content
  {
    if files != [] {
      var init, last := files[..|files| - 1], files[|files| - 1];
      NewFilesContents(id, init, f);
      if last.filename == f.filename {
        assert f !in init by {
          forall i | 0 <= i < |init|
            ensures init[i] != f
          {
            assert files[i].filename != files[|files| - 1].filename;
          }
        }
        assert f in files <==> f == last;
      } else {
        assert f in files <==> f in init;
      }
    }
  }

  /** A push that goes through publishes exactly the pushed files; any other push changes nothing. */
  lemma PushThenPull(db: Db, env: Env, name: string, tag: string, files: seq<SourceFile>, now: nat)
    requires Consistent(db, env)
    ensures !CanPush(db, name, tag, files) ==> Push(db, name, tag, files, now) == db
    ensures CanPush(db, name, tag, files) ==>
              var pulled := Pull(Push(db, name, tag, files, now), name, tag);
              && pulled.Ok? && pulled.value.Stable?
              && |pulled.value.files| == |files|
              && forall f: SourceFile :: f in files <==>
                   f.filename in pulled.value.files && pulled.value.files[f.filename] == f.content
  {
    if CanPush(db, name, tag, files) {
      var after, id := Push(db, name, tag, files, now), db.nextId;
      PushIsConsistent(db, env, name, tag, files, now);
      TagIdIsUnique(after, name, tag, id);
      forall f: SourceFile
        ensures f in files <==> f.filename in Contents(after, id) && Contents(after, id)[f.filename] == f.content
      {
        PushedContents(db, after, id, files, f);
      }
      CountByName(files, Contents(after, id));
    }
  }

  lemma PushedContents(db: Db, after: Db, id: Id, files: seq<SourceFile>, f: SourceFile)
    requires DistinctNames(files) && (forall k :: k in db.files ==> k.tagId != id)
    requires after.files == db.files + NewFiles(id, files)
    ensures f in files <==> f.filename in Contents(after, id) && Contents(after, id)[f.filename] == f.content
  {
    NewFilesContents(id, files, f);
    ContentsAt(after, id, f.filename);
  }

  lemma {:induction false} CountByName(files: seq<SourceFile>, contents: map<string, string>)
    requires DistinctNames(files)
    requires forall f: SourceFile :: f in files <==> f.filename in contents && contents[f.filename] == f.content
    ensures |contents| == |files|
  {
    if files == [] {
      assert forall name :: name in contents ==> SourceFile(name, contents[name]) in files;
      assert contents.Keys == {};
    } else {
      var init, last := files[..|files| - 1], files[|files| - 1];
      var rest := contents - {last.filename};
      assert files == init + [last];
      assert last in files;
      forall f: SourceFile
        ensures f in init <==> f.filename in rest && rest[f.filename] == f.content
      {
        if f in init {
          var i :| 0 <= i < |init| && init[i] == f;
          assert files[i].filename != files[|files| - 1].filename;
        }
      }
      CountByName(init, rest);
      assert contents.Keys == rest.Keys + {last.filename};
    }
  }

  // ---------------------------------------------------------------------------
  // Tag names

  lemma {:induction false} ModuleDeleteShrinksTags(db: Db, name: string, k: nat)
    requires k <= 5
    ensures forall t :: t in DeleteModuleUpTo(db, name, k).tags ==>
              t in db.tags && DeleteModuleUpTo(db, name, k).tags[t] == db.tags[t]
  {
    if k > 0 {
      ModuleDeleteShrinksTags(db, name, k - 1);
    }
  }

  lemma {:induction false} TagDeleteShrinksTags(db: Db, tagId: Id, k: nat)
    requires k <= 3
    ensures forall t :: t in DeleteTagUpTo(db, tagId, k).tags ==>
              t in db.tags && DeleteTagUpTo(db, tagId, k).tags[t] == db.tags[t]
  {
    if k > 0 {
      TagDeleteShrinksTags(db, tagId, k - 1);
    }
  }

  lemma StepKeepsNamed(db: Db, env: Env, step: Step)
    requires NamedTags(db) && (step.DoPush? ==> step.tag != "")
    ensures NamedTags(Apply(db, env, step))
  {
    if step.DoDeleteModule? {
      ModuleDeleteShrinksTags(db, step.name, if step.statements <= 5 then step.statements else 5);
    } else if step.DoDeleteTag? {
      if TagExists(db, step.name, step.tag) {
        TagDeleteShrinksTags(db, TagIdOf(db, step.name, step.tag), if step.statements <= 3 then step.statements else 3);
      }
    }
  }

  /** The server refuses an empty tag, so in every state it can reach all tags are named. */
  lemma {:induction false} ReachableTagsAreNamed(env: Env, steps: seq<Step>)
    requires forall s :: s in steps && s.DoPush? ==> s.tag != ""
    ensures NamedTags(Run(EMPTY, env, steps))
  {
    if steps != [] {
      var init, step := steps[..|steps| - 1], steps[|steps| - 1];
      assert step in steps && forall s :: s in init ==> s in steps;
      ReachableTagsAreNamed(env, init);
      StepKeepsNamed(Run(EMPTY, env, init), env, step);
    }
  }

  // ---------------------------------------------------------------------------
  // Dependency targets

  lemma {:induction false} DeleteTagKeepsTargets(db: Db, env: Env, tagId: Id, k: nat)
    requires k <= 3 && Consistent(db, env) && EdgesResolve(db)
    ensures EdgesResolve(DeleteTagUpTo(db, tagId, k))
  {
    if k > 0 {
      DeleteTagKeepsTargets(db, env, tagId, k - 1);
      DeleteTagIsConsistent(db, env, tagId, k - 1);
    }
  }

  /** Another module's tag depends on a tag of this module. */
  ghost predicate DependedOn(db: Db, m: Id) {
    exists e :: e in db.edges && OfModule(db, m, e.dependencyTagId) && !OfModule(db, m, e.tagId)
  }

  lemma {:induction false} ModuleDeleteTables(db: Db, name: string, k: nat)
    requires k <= 5 && name in db.modules
    ensures k < 3 ==> DeleteModuleUpTo(db, name, k).tags == db.tags
    ensures k >= 3 ==> DeleteModuleUpTo(db, name, k).tags ==
                       map t | t in db.tags && db.tags[t].moduleId != db.modules[name] :: db.tags[t]
    ensures k < 2 ==> DeleteModuleUpTo(db, name, k).edges == db.edges
    ensures k >= 2 ==> DeleteModuleUpTo(db, name, k).edges ==
                       set e | e in db.edges && !OfModule(db, db.modules[name], e.tagId)
  {
    if k > 0 {
      ModuleDeleteTables(db, name, k - 1);
    }
  }

  /** Deleting a module, or stopping on the way, dangles a dependency target exactly when another module uses it. */
  lemma DeleteModuleKeepsTargetsIff(db: Db, env: Env, name: string, k: nat)
    requires k <= 5 && Consistent(db, env) && EdgesResolve(db) && name in db.modules
    ensures EdgesResolve(DeleteModuleUpTo(db, name, k)) <==> k < 3 || !DependedOn(db, db.modules[name])
  {
    ModuleDeleteTables(db, name, k);
    var after := DeleteModuleUpTo(db, name, k);
    if k >= 3 && DependedOn(db, db.modules[name]) {
      var e :| e in db.edges && OfModule(db, db.modules[name], e.dependencyTagId) && !OfModule(db, db.modules[name], e.tagId);
      assert e in after.edges && e.dependencyTagId !in after.tags;
    }
  }

  // ---------------------------------------------------------------------------
  // What a pull sees of registrations and drafts

  lemma SameStable(db: Db, after: Db, name: string, tag: string)
    requires UniqueRows(db) && after.modules == db.modules && after.tags == db.tags && after.files == db.files
    ensures TagExists(after, name, tag) <==> TagExists(db, name, tag)
    ensures TagExists(db, name, tag) ==> Pull(after, name, tag) == Pull(db, name, tag)
  {
    if TagExists(db, name, tag) {
      var id := TagIdOf(db, name, tag);
      assert IsTag(after, name, tag, id);
      TagIdIsUnique(after, name, tag, id);
      SameFilesSameContents(db, after, id);
    }
    if TagExists(after, name, tag) {
      assert IsTag(db, name, tag, TagIdOf(after, name, tag));
    }
  }

  /** A pushed draft is what a pull of its tag returns unless a stable tag shadows it; every other pull is as before. */
  lemma PushDraftThenPull(db: Db, name: string, tag: string, files: seq<SourceFile>, now: nat, name': string, tag': string)
    requires UniqueRows(db)
    ensures Pull(PushDraft(db, name, tag, files, now), name', tag') ==
            if name' == name && tag' == tag && name in db.modules && !TagExists(db, name, tag) then Ok(Draft(files))
            else Pull(db, name', tag')
  {
    SameStable(db, PushDraft(db, name, tag, files, now), name', tag');
  }

  /** Dropping old drafts hides exactly the drafts before the cutoff; stable tags and younger drafts are pulled as before. */
  lemma DropDraftsThenPull(db: Db, cutoff: nat, name: string, tag: string)
    requires UniqueRows(db)
    ensures Pull(DropDraftsBefore(db, cutoff), name, tag) ==
            if name in db.modules && !TagExists(db, name, tag) && DraftKey(db.modules[name], tag) in db.drafts &&
               db.drafts[DraftKey(db.modules[name], tag)].updatedAt < cutoff then Err(DraftTagNotFound)
            else Pull(db, name, tag)
  {
    SameStable(db, DropDraftsBefore(db, cutoff), name, tag);
  }

  /** A newly registered module has nothing to pull; every other pull is as before, and registering again changes nothing. */
  lemma RegisterThenPull(db: Db, env: Env, name: string, name': string, tag: string)
    requires Consistent(db, env)
    ensures Pull(Register(db, name), name', tag) ==
            if name' == name && name !in db.modules then Err(DraftTagNotFound) else Pull(db, name', tag)
  {
    var after := Register(db, name);
    if name !in db.modules {
      if name' == name {
        assert forall id :: !IsTag(after, name, tag, id);
      } else {
        OtherPull(db, after, name', tag);
      }
    }
  }

  lemma OtherPull(db: Db, after: Db, name: string, tag: string)
    requires UniqueRows(db) && UniqueRows(after) && after == db.(modules := after.modules, nextId := after.nextId)
    requires name in db.modules <==> name in after.modules
    requires name in db.modules ==> after.modules[name] == db.modules[name]
    ensures Pull(after, name, tag) == Pull(db, name, tag)
  {
    assert forall id :: IsTag(after, name, tag, id) <==> IsTag(db, name, tag, id);
    if TagExists(db, name, tag) {
      var id := TagIdOf(db, name, tag);
      assert IsTag(after, name, tag, id);
      TagIdIsUnique(after, name, tag, id);
      SameFilesSameContents(db, after, id);
    }
    if TagExists(after, name, tag) {
      assert IsTag(db, name, tag, TagIdOf(after, name, tag));
    }
  }
}
