/**
 What the recorded events of a module depend on, and which steps leave all of
 that alone: everything that happens to other modules, and pushes of later tags.
 */
module Frames {
  import opened Base
  import opened Events
  import opened Store
  import opened History
  import opened Drift
  import opened Daemon
  import opened Advice

  /** What the registry guarantees for one module: every processed tag has an exact record. */
  ghost predicate Sound(db: Db, env: Env, m: Id) {
    && Consistent(db, env) && DistinctTimes(db, m)
    && forall t :: OfModule(db, m, t) && db.tags[t].processed ==> ExactFor(db, env, t)
  }

  // ---------------------------------------------------------------------------
  // Frames

  ghost predicate IsNew(db: Db, after: Db, m: Id, s: Id) { OfModule(after, m, s) && s !in db.tags }

  ghost predicate IsGone(db: Db, after: Db, m: Id, s: Id) { OfModule(db, m, s) && s !in after.tags }

  ghost predicate IsKept(db: Db, after: Db, m: Id, s: Id) { OfModule(db, m, s) && s in after.tags }

  /** Kept tags keep their place and files; new tags come after, and gone tags came after, all that are kept. */
  ghost predicate Carries(db: Db, after: Db, m: Id) {
    && (forall s :: OfModule(after, m, s) && s in db.tags ==> IsKept(db, after, m, s))
    && (forall s :: IsKept(db, after, m, s) ==>
          OfModule(after, m, s) && after.tags[s].updatedAt == db.tags[s].updatedAt && SameFiles(db, after, s))
    && (forall s, t :: IsNew(db, after, m, s) && OfModule(db, m, t) ==> db.tags[t].updatedAt < after.tags[s].updatedAt)
    && (forall s, t :: IsNew(db, after, m, s) && IsNew(db, after, m, t) ==> s == t)
    && (forall s, t :: IsGone(db, after, m, s) && IsKept(db, after, m, t) ==> db.tags[t].updatedAt < db.tags[s].updatedAt)
  }

  /** The same rows, except that some may have been acknowledged. */
  ghost predicate SameRows(a: seq<PgRow>, b: seq<PgRow>) {
    |a| == |b| && forall i :: 0 <= i < |a| ==> b[i].(ack := a[i].ack) == a[i]
  }

  /** A kept tag has the same predecessor in both states, and it is kept as well. */
  lemma PreviousFrame(db: Db, after: Db, m: Id, t: Id, p: Option<Id>)
    requires Carries(db, after, m) && IsKept(db, after, m, t)
    ensures IsPrevious(db, t, p) <==> IsPrevious(after, t, p)
    ensures IsPrevious(db, t, p) && p.Some? ==> IsKept(db, after, m, p.value)
  {
    forall s
      ensures OfModule(db, m, s) && db.tags[s].updatedAt < db.tags[t].updatedAt
         <==> OfModule(after, m, s) && after.tags[s].updatedAt < after.tags[t].updatedAt
    {
      assert IsNew(db, after, m, s) || IsGone(db, after, m, s) || IsKept(db, after, m, s) || (!OfModule(db, m, s) && !OfModule(after, m, s));
    }
  }

  lemma RowsFrame(a: seq<PgRow>, b: seq<PgRow>, c: Changes, d: Changes)
    requires RowsExact(a, c) && SameRows(a, b) && forall f :: c(f) == d(f)
    ensures RowsExact(b, d)
  {
    forall r | r in b
      ensures d(r.filename) == Some(RowChange(r))
    {
      var i :| 0 <= i < |b| && b[i] == r;
      assert a[i] in a && RowChange(a[i]) == RowChange(b[i]);
    }
    forall f | d(f).Some?
      ensures exists r :: r in b && r.filename == f
    {
      assert c(f).Some?;
      var r :| r in a && r.filename == f;
      var i :| 0 <= i < |a| && a[i] == r;
      assert b[i] in b && b[i].filename == f;
    }
  }

  lemma ExactFrame(db: Db, after: Db, env: Env, m: Id, t: Id)
    requires Carries(db, after, m) && IsKept(db, after, m, t) && ExactFor(db, env, t)
    requires SameRows(RowsOf(db.events, t), RowsOf(after.events, t))
    ensures ExactFor(after, env, t)
  {
    var p :| IsPrevious(db, t, p) && RowsExact(RowsOf(db.events, t), TagChanges(db, env, p, t));
    PreviousFrame(db, after, m, t, p);
    SameFilesSameContents(db, after, t);
    if p.Some? {
      SameFilesSameContents(db, after, p.value);
    }
    SameTagChanges(db, after, env, p, t);
    RowsFrame(RowsOf(db.events, t), RowsOf(after.events, t), TagChanges(db, env, p, t), TagChanges(after, env, p, t));
  }

  lemma CarriesTimes(db: Db, after: Db, m: Id)
    requires Carries(db, after, m) && DistinctTimes(db, m)
    ensures DistinctTimes(after, m)
  {
    forall s, t | OfModule(after, m, s) && OfModule(after, m, t) && after.tags[s].updatedAt == after.tags[t].updatedAt
      ensures s == t
    {
      assert (IsNew(db, after, m, s) || IsKept(db, after, m, s)) && (IsNew(db, after, m, t) || IsKept(db, after, m, t));
    }
  }

  /** Kept tags keep their flag and rows as well, and new tags are not processed yet. */
  ghost predicate Leaves(db: Db, after: Db, m: Id) {
    && Carries(db, after, m)
    && (forall t :: IsKept(db, after, m, t) ==>
          after.tags[t].processed == db.tags[t].processed && SameRows(RowsOf(db.events, t), RowsOf(after.events, t)))
    && (forall t :: IsNew(db, after, m, t) ==> !after.tags[t].processed)
  }

  lemma LeavesKeepsSound(db: Db, after: Db, env: Env, m: Id)
    requires Sound(db, env, m) && Leaves(db, after, m) && Consistent(after, env)
    ensures Sound(after, env, m)
  {
    CarriesTimes(db, after, m);
    forall t | OfModule(after, m, t) && after.tags[t].processed
      ensures ExactFor(after, env, t)
    {
      assert IsNew(db, after, m, t) || IsKept(db, after, m, t);
      ExactFrame(db, after, env, m, t);
    }
  }

  // ---------------------------------------------------------------------------
  // Steps that leave a module alone

  /** Anything that happens to other modules; in this one, pushes as the clock moves on, drafts, links, hashes and acknowledgements. */
  ghost predicate Elsewhere(db: Db, step: Step, m: Id) {
    match step
    case DoPush(name, _, _, now) =>
      name in db.modules && db.modules[name] == m ==> forall t :: OfModule(db, m, t) ==> db.tags[t].updatedAt < now
    case DoDeleteModule(name, _) => name in db.modules ==> db.modules[name] != m
    case DoDeleteTag(name, _, _) => name in db.modules ==> db.modules[name] != m
    case DoParse(t) => !OfModule(db, m, t)
    case DoSaveEvents(t, _) => !OfModule(db, m, t)
    case _ => true
  }

  /** The tags of the module are the same rows, with the same files and events. */
  ghost predicate Untouched(db: Db, after: Db, m: Id) {
    && (forall t :: OfModule(db, m, t) ==>
          && t in after.tags && after.tags[t] == db.tags[t] && SameFiles(db, after, t)
          && SameRows(RowsOf(db.events, t), RowsOf(after.events, t)))
    && (forall t :: OfModule(after, m, t) ==> t in db.tags && db.tags[t].moduleId == m)
  }

  lemma UntouchedLeaves(db: Db, after: Db, m: Id)
    requires Untouched(db, after, m)
    ensures Leaves(db, after, m)
  {
    assert forall t :: !IsNew(db, after, m, t) && !IsGone(db, after, m, t);
  }

  lemma {:induction false} AcknowledgedRows(table: seq<PgRow>, id: Id, ack: Acknowledgement, t: Id)
    ensures SameRows(RowsOf(table, t), RowsOf(PgAcknowledge(table, id, ack), t))
  {
    if table != [] {
      var init := table[..|table| - 1];
      AcknowledgedRows(init, id, ack, t);
      var marked := PgAcknowledge(table, id, ack);
      assert marked[..|marked| - 1] == PgAcknowledge(init, id, ack);
    }
  }

  lemma {:induction false} AnchoredRowsOf(rows: seq<PgRow>, tags: map<Id, TagRow>, t: Id)
    requires t in tags
    ensures RowsOf(Anchored(rows, tags), t) == RowsOf(rows, t)
  {
    if rows != [] {
      var init, last := rows[..|rows| - 1], rows[|rows| - 1];
      AnchoredRowsOf(init, tags, t);
      if last.tagId in tags {
        RowsOfConcat(Anchored(init, tags), [last], t);
        RowsOfUniform([last], last.tagId, t);
      } else {
        assert Anchored(rows, tags) == Anchored(init, tags);
      }
    }
  }

  // Pushes

  lemma PushLeaves(db: Db, env: Env, step: Step, m: Id)
    requires Consistent(db, env) && step.DoPush? && Elsewhere(db, step, m)
    ensures Leaves(db, Apply(db, env, step), m)
  {
    var after := Apply(db, env, step);
    if CanPush(db, step.name, step.tag, step.files) {
      var row := TagRow(db.modules[step.name], step.tag, step.now, false);
      NewTagLeaves(db, after, m, row, step.files);
    } else {
      UntouchedLeaves(db, after, m);
    }
  }

  lemma NewTagLeaves(db: Db, after: Db, m: Id, row: TagRow, files: seq<SourceFile>)
    requires db.nextId !in db.tags && after.tags == db.tags[db.nextId := row] && !row.processed
    requires after.events == db.events && after.files == db.files + NewFiles(db.nextId, files)
    requires row.moduleId == m ==> forall t :: OfModule(db, m, t) ==> db.tags[t].updatedAt < row.updatedAt
    ensures Leaves(db, after, m)
  {
    forall s | IsKept(db, after, m, s)
      ensures SameFiles(db, after, s)
    {
      PushLeavesFiles(db, after, files, s);
    }
    assert forall s :: IsNew(db, after, m, s) ==> s == db.nextId && row.moduleId == m;
    assert forall s :: !IsGone(db, after, m, s);
  }

  lemma PushLeavesFiles(db: Db, after: Db, files: seq<SourceFile>, s: Id)
    requires after.files == db.files + NewFiles(db.nextId, files) && s != db.nextId
    ensures SameFiles(db, after, s)
  {
    NewFilesRows(db.nextId, files);
  }

  // Deletes

  lemma {:induction false} ModuleDeleteSpares(db: Db, other: string, k: nat, t: Id)
    requires k <= 5 && other in db.modules && t in db.tags && db.tags[t].moduleId != db.modules[other]
    ensures var after := DeleteModuleUpTo(db, other, k);
            && t in after.tags && after.tags[t] == db.tags[t] && SameFiles(db, after, t)
            && RowsOf(after.events, t) == RowsOf(db.events, t)
  {
    if k > 0 {
      ModuleDeleteSpares(db, other, k - 1, t);
      var before, after := DeleteModuleUpTo(db, other, k - 1), DeleteModuleUpTo(db, other, k);
      if k == 3 {
        AnchoredRowsOf(before.events, after.tags, t);
      }
    }
  }

  lemma ModuleDeleteLeaves(db: Db, other: string, k: nat, m: Id)
    requires k <= 5 && (other in db.modules ==> db.modules[other] != m)
    ensures Leaves(db, DeleteModuleUpTo(db, other, k), m)
  {
    var after := DeleteModuleUpTo(db, other, k);
    if other in db.modules {
      ModuleDeleteShrinksTags(db, other, k);
      forall t | OfModule(db, m, t)
        ensures t in after.tags && after.tags[t] == db.tags[t] && SameFiles(db, after, t)
        ensures SameRows(RowsOf(db.events, t), RowsOf(after.events, t))
      {
        ModuleDeleteSpares(db, other, k, t);
      }
    }
    UntouchedLeaves(db, after, m);
  }

  lemma {:induction false} TagDeleteSpares(db: Db, b: Id, k: nat, t: Id)
    requires k <= 3 && t in db.tags && t != b
    ensures var after := DeleteTagUpTo(db, b, k);
            && t in after.tags && after.tags[t] == db.tags[t] && SameFiles(db, after, t)
            && RowsOf(after.events, t) == RowsOf(db.events, t)
  {
    if k > 0 {
      TagDeleteSpares(db, b, k - 1, t);
      var before, after := DeleteTagUpTo(db, b, k - 1), DeleteTagUpTo(db, b, k);
      if k == 3 {
        AnchoredRowsOf(before.events, after.tags, t);
      }
    }
  }

  lemma TagDeleteLeaves(db: Db, b: Id, k: nat, m: Id)
    requires k <= 3 && b in db.tags && db.tags[b].moduleId != m
    ensures Leaves(db, DeleteTagUpTo(db, b, k), m)
  {
    var after := DeleteTagUpTo(db, b, k);
    TagDeleteShrinksTags(db, b, k);
    forall t | OfModule(db, m, t)
      ensures t in after.tags && after.tags[t] == db.tags[t] && SameFiles(db, after, t)
      ensures SameRows(RowsOf(db.events, t), RowsOf(after.events, t))
    {
      TagDeleteSpares(db, b, k, t);
    }
    UntouchedLeaves(db, after, m);
  }

  lemma DeleteLeaves(db: Db, env: Env, step: Step, m: Id)
    requires (step.DoDeleteModule? || step.DoDeleteTag?) && Elsewhere(db, step, m)
    ensures Leaves(db, Apply(db, env, step), m)
  {
    match step
    case DoDeleteModule(name, k) => ModuleDeleteLeaves(db, name, if k <= 5 then k else 5, m);
    case DoDeleteTag(name, tag, k) =>
      if TagExists(db, name, tag) {
        TagDeleteLeaves(db, TagIdOf(db, name, tag), if k <= 3 then k else 3, m);
      } else {
        UntouchedLeaves(db, db, m);
      }
  }

  // The rest

  lemma SaveLeaves(db: Db, t: Id, events: seq<DriftEvent>, m: Id)
    requires !OfModule(db, m, t)
    ensures Leaves(db, SaveEvents(db, t, events), m)
  {
    var after := SaveEvents(db, t, events);
    if EventsFor(db, t, events) {
      forall s | s != t
        ensures RowsOf(after.events, s) == RowsOf(db.events, s)
      {
        SavedRowsOf(db.events, db.nextId, events, t, s);
      }
    }
    UntouchedLeaves(db, after, m);
  }

  lemma {:induction false} SavedRowsOf(table: seq<PgRow>, firstId: Id, events: seq<DriftEvent>, t: Id, s: Id)
    requires s != t && forall e :: e in events ==> e.tagId == t
    ensures RowsOf(PgSave(table, firstId, events), s) == RowsOf(table, s)
  {
    if events != [] {
      var init, last := events[..|events| - 1], events[|events| - 1];
      assert last in events;
      SavedRowsOf(table, firstId, init, t, s);
      var row := PgRowOf(firstId + |events| - 1, last);
      RowsOfConcat(PgSave(table, firstId, init), [row], s);
      RowsOfUniform([row], t, s);
    }
  }

  lemma AcknowledgeLeaves(db: Db, id: Id, ack: Acknowledgement, m: Id)
    ensures Leaves(db, db.(events := PgAcknowledge(db.events, id, ack)), m)
  {
    var after := db.(events := PgAcknowledge(db.events, id, ack));
    forall t
      ensures SameRows(RowsOf(db.events, t), RowsOf(after.events, t))
    {
      AcknowledgedRows(db.events, id, ack, t);
    }
    UntouchedLeaves(db, after, m);
  }

  lemma HashLeaves(db: Db, env: Env, t: Id, m: Id)
    ensures Leaves(db, HashTag(db, env, t), m)
  {
    UntouchedLeaves(db, HashTag(db, env, t), m);
  }

  lemma ParseLeaves(db: Db, env: Env, t: Id, m: Id)
    requires !OfModule(db, m, t)
    ensures Leaves(db, ParseTag(db, env, t), m)
  {
    UntouchedLeaves(db, ParseTag(db, env, t), m);
  }

  lemma OtherLeaves(db: Db, env: Env, step: Step, m: Id)
    requires step.DoRegister? || step.DoPushDraft? || step.DoDropDrafts? || step.DoAddEdge?
    ensures Leaves(db, Apply(db, env, step), m)
  {
    var after := Apply(db, env, step);
    assert after.tags == db.tags && after.files == db.files && after.events == db.events;
    UntouchedLeaves(db, after, m);
  }

  /** A step elsewhere leaves the module alone. */
  lemma ElsewhereLeaves(db: Db, env: Env, step: Step, m: Id)
    requires Consistent(db, env) && Elsewhere(db, step, m)
    ensures Leaves(db, Apply(db, env, step), m)
  {
    match step
    case DoPush(_, _, _, _) => PushLeaves(db, env, step, m);
    case DoDeleteModule(_, _) => DeleteLeaves(db, env, step, m);
    case DoDeleteTag(_, _, _) => DeleteLeaves(db, env, step, m);
    case DoSaveEvents(t, events) => SaveLeaves(db, t, events, m);
    case DoAcknowledge(id, ack) => AcknowledgeLeaves(db, id, ack, m);
    case DoHash(t) => HashLeaves(db, env, t, m);
    case DoParse(t) => ParseLeaves(db, env, t, m);
    case _ => OtherLeaves(db, env, step, m);
  }

  // ---------------------------------------------------------------------------
  // Runs of the daemon

  lemma RunCarries(db: Db, after: Db, m: Id)
    requires SameTags(db, after) && SameContents(db, after)
    ensures Carries(db, after, m)
  {
    assert forall s :: !IsNew(db, after, m, s) && !IsGone(db, after, m, s);
  }

  lemma CompletedKeepsSound(db: Db, after: Db, env: Env, m: Id)
    requires Sound(db, env, m) && Completed(db, after, env)
    ensures Sound(after, env, m)
  {
    RunCarries(db, after, m);
    CarriesTimes(db, after, m);
    forall t | OfModule(after, m, t)
      ensures ExactFor(after, env, t)
    {
      CompletedIsExactAt(db, after, env, m, t);
    }
  }

  lemma CompletedIsExactAt(db: Db, after: Db, env: Env, m: Id, t: Id)
    requires Carries(db, after, m) && IsKept(db, after, m, t)
    requires db.tags[t].processed ==> ExactFor(db, env, t) && RowsOf(after.events, t) == RowsOf(db.events, t)
    requires !db.tags[t].processed ==> ExactFor(after, env, t)
    ensures ExactFor(after, env, t)
  {
    if db.tags[t].processed {
      ExactFrame(db, after, env, m, t);
    }
  }
}
