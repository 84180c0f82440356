/**
 Daemon runs that stop early.  A tag processed by such a run is never compared
 with its predecessor, in that run or later; and a run can stop although the
 server checks every pushed file, because it checks less than the daemon needs.
 */
module Stops {
  import opened Base
  import opened Proto
  import opened Events
  import opened Store
  import opened History
  import opened Registry
  import opened Drift
  import opened Daemon
  import opened Advice
  import opened Frames
  import opened Deletes

  // ---------------------------------------------------------------------------
  // The tags that a stopped run has processed

  /** A tag without events has an exact record if and only if it changed nothing. */
  lemma EmptyRecordIsExactIff(db: Db, env: Env, t: Id)
    requires t in db.tags && DistinctTimes(db, db.tags[t].moduleId) && RowsOf(db.events, t) == []
    ensures Unchanged(db, t) ==> ExactFor(db, env, t)
    ensures CollisionFree(env) && ExactFor(db, env, t) ==> Unchanged(db, t)
  {
    var p := PreviousExists(db, t);
    UnchangedWith(db, t, p);
    ExactWithPrevious(db, env, t, p);
    if p.Some? {
      NoChangeIff(db, env, p.value, t);
    } else {
      NothingToRecord([], TagChanges(db, env, None, t));
    }
  }

  lemma UnchangedWith(db: Db, t: Id, p: Option<Id>)
    requires t in db.tags && DistinctTimes(db, db.tags[t].moduleId) && IsPrevious(db, t, p)
    ensures Unchanged(db, t) <==> p.None? || SameVersion(db, p.value, t)
  {
    forall q: Id | IsPrevious(db, t, Some(q))
      ensures p == Some(q)
    {
      PreviousIsUnique(db, t, p, Some(q));
    }
  }

  lemma NoChangeIff(db: Db, env: Env, p: Id, t: Id)
    ensures SameVersion(db, p, t) ==> RowsExact([], TagChanges(db, env, Some(p), t))
    ensures CollisionFree(env) && RowsExact([], TagChanges(db, env, Some(p), t)) ==> SameVersion(db, p, t)
  {
    var changes := TagChanges(db, env, Some(p), t);
    VersionsByFile(db, p, t);
    if SameVersion(db, p, t) {
      NothingToRecord([], changes);
    }
    if CollisionFree(env) && RowsExact([], changes) {
      EmptyRowsExact([], changes);
      forall f
        ensures ContentOf(db, p, f) == ContentOf(db, t, f)
      {
        assert changes(f).None?;
        ChangeTellsSides(env, ContentOf(db, p, f), ContentOf(db, t, f), None);
      }
    }
  }

  /** Whether a tag changed anything is the same question in both states. */
  lemma UnchangedFrame(db: Db, after: Db, m: Id, t: Id)
    requires Carries(db, after, m) && IsKept(db, after, m, t)
    ensures Unchanged(db, t) <==> Unchanged(after, t)
  {
    forall p
      ensures IsPrevious(db, t, Some(p)) <==> IsPrevious(after, t, Some(p))
      ensures IsPrevious(db, t, Some(p)) ==> (SameVersion(db, p, t) <==> SameVersion(after, p, t))
    {
      PreviousFrame(db, after, m, t, Some(p));
      if IsPrevious(db, t, Some(p)) {
        SameFilesSameContents(db, after, t);
        SameFilesSameContents(db, after, p);
      }
    }
  }

  ghost predicate NewlyProcessed(db: Db, after: Db, m: Id, t: Id) {
    OfModule(db, m, t) && t in after.tags && !db.tags[t].processed && after.tags[t].processed
  }

  /** Every tag of the module that the stopped run processed changed nothing. */
  ghost predicate LostNothing(db: Db, after: Db, m: Id) {
    forall t :: NewlyProcessed(db, after, m, t) ==> Unchanged(db, t)
  }

  lemma StoppedCarries(db: Db, after: Db, env: Env, m: Id)
    requires Aborted(db, after, env)
    ensures Carries(db, after, m) && after.events == db.events
    ensures forall t :: OfModule(after, m, t) ==> IsKept(db, after, m, t)
  {
    assert SameContents(db, after);
    RunCarries(db, after, m);
  }

  lemma NewlyProcessedIsExactIff(db: Db, after: Db, env: Env, m: Id, t: Id)
    requires Consistent(db, env) && DistinctTimes(db, m) && Aborted(db, after, env) && NewlyProcessed(db, after, m, t)
    ensures Unchanged(db, t) ==> ExactFor(after, env, t)
    ensures CollisionFree(env) && ExactFor(after, env, t) ==> Unchanged(db, t)
  {
    StoppedCarries(db, after, env, m);
    CarriesTimes(db, after, m);
    NoEventsYet(db, env, t);
    UnchangedFrame(db, after, m, t);
    EmptyRecordIsExactIff(after, env, t);
  }

  lemma HarmlessRunKeepsSound(db: Db, after: Db, env: Env, m: Id)
    requires Sound(db, env, m) && Aborted(db, after, env) && LostNothing(db, after, m)
    ensures Sound(after, env, m)
  {
    StoppedCarries(db, after, env, m);
    CarriesTimes(db, after, m);
    forall t | OfModule(after, m, t) && after.tags[t].processed
      ensures ExactFor(after, env, t)
    {
      if db.tags[t].processed {
        ExactFrame(db, after, env, m, t);
      } else {
        assert NewlyProcessed(db, after, m, t);
        NewlyProcessedIsExactIff(db, after, env, m, t);
      }
    }
  }

  /** A run that stops keeps every record of a module exact if and only if the tags it processed there changed nothing. */
  lemma StoppedRunKeepsSoundIff(db: Db, after: Db, env: Env, m: Id)
    requires Sound(db, env, m) && Aborted(db, after, env) && CollisionFree(env)
    ensures Sound(after, env, m) <==> LostNothing(db, after, m)
  {
    if LostNothing(db, after, m) {
      HarmlessRunKeepsSound(db, after, env, m);
    }
    if Sound(after, env, m) {
      forall t | NewlyProcessed(db, after, m, t)
        ensures Unchanged(db, t)
      {
        StoppedCarries(db, after, env, m);
        assert OfModule(after, m, t);
        NewlyProcessedIsExactIff(db, after, env, m, t);
      }
    }
  }

  // ---------------------------------------------------------------------------
  // What happens to them later

  /** Any operation but saving events of this tag by hand, and any run of the daemon. */
  ghost predicate Happens(db: Db, after: Db, env: Env, t: Id) {
    || (exists step :: after == Apply(db, env, step) && !(step.DoSaveEvents? && step.tagId == t))
    || Completed(db, after, env) || Aborted(db, after, env)
  }

  lemma {:induction false} DeleteKeepsRows(db: Db, env: Env, step: Step, t: Id)
    requires step.DoDeleteModule? || step.DoDeleteTag?
    requires t in db.tags && t in Apply(db, env, step).tags
    ensures RowsOf(Apply(db, env, step).events, t) == RowsOf(db.events, t)
    ensures Apply(db, env, step).tags[t] == db.tags[t]
  {
    match step
    case DoDeleteModule(name, k) => ModuleDeleteKeepsRows(db, name, if k <= 5 then k else 5, t);
    case DoDeleteTag(name, tag, k) =>
      if TagExists(db, name, tag) {
        TagDeleteKeepsRows(db, TagIdOf(db, name, tag), if k <= 3 then k else 3, t);
      }
  }

  lemma {:induction false} ModuleDeleteKeepsRows(db: Db, name: string, k: nat, t: Id)
    requires k <= 5 && t in db.tags && t in DeleteModuleUpTo(db, name, k).tags
    ensures RowsOf(DeleteModuleUpTo(db, name, k).events, t) == RowsOf(db.events, t)
    ensures DeleteModuleUpTo(db, name, k).tags[t] == db.tags[t]
  {
    if k > 0 && name in db.modules {
      ModuleDeleteKeepsRows(db, name, k - 1, t);
      if k == 3 {
        AnchoredRowsOf(DeleteModuleUpTo(db, name, 2).events, DeleteModuleUpTo(db, name, 3).tags, t);
      }
    }
  }

  lemma {:induction false} TagDeleteKeepsRows(db: Db, b: Id, k: nat, t: Id)
    requires k <= 3 && t in db.tags && t in DeleteTagUpTo(db, b, k).tags
    ensures RowsOf(DeleteTagUpTo(db, b, k).events, t) == RowsOf(db.events, t)
    ensures DeleteTagUpTo(db, b, k).tags[t] == db.tags[t]
  {
    if k > 0 {
      TagDeleteKeepsRows(db, b, k - 1, t);
      if k == 3 {
        AnchoredRowsOf(DeleteTagUpTo(db, b, 2).events, DeleteTagUpTo(db, b, 3).tags, t);
      }
    }
  }

  lemma StepKeepsRows(db: Db, env: Env, step: Step, t: Id)
    requires FreshIds(db) && t in db.tags && db.tags[t].processed && t in Apply(db, env, step).tags
    requires !(step.DoSaveEvents? && step.tagId == t)
    ensures Apply(db, env, step).tags[t].processed
    ensures SameRows(RowsOf(db.events, t), RowsOf(Apply(db, env, step).events, t))
  {
    match step
    case DoDeleteModule(_, _) => DeleteKeepsRows(db, env, step, t);
    case DoDeleteTag(_, _, _) => DeleteKeepsRows(db, env, step, t);
    case _ => OtherStepKeepsRows(db, env, step, t);
  }

  lemma OtherStepKeepsRows(db: Db, env: Env, step: Step, t: Id)
    requires FreshIds(db) && t in db.tags && db.tags[t].processed && !step.DoDeleteModule? && !step.DoDeleteTag?
    requires !(step.DoSaveEvents? && step.tagId == t)
    ensures t in Apply(db, env, step).tags && Apply(db, env, step).tags[t].processed
    ensures SameRows(RowsOf(db.events, t), RowsOf(Apply(db, env, step).events, t))
  {
    match step
    case DoAcknowledge(id, ack) => AcknowledgedRows(db.events, id, ack, t);
    case DoSaveEvents(s, events) =>
      if EventsFor(db, s, events) {
        SavedRowsOf(db.events, db.nextId, events, s, t);
      }
    case _ =>
  }

  /** What follows, as long as the tag is there. */
  ghost predicate IsSequel(states: seq<Db>, env: Env, t: Id) {
    states != [] && t in states[|states| - 1].tags &&
    (|states| > 1 ==>
       IsSequel(states[..|states| - 1], env, t) && Happens(states[|states| - 2], states[|states| - 1], env, t))
  }

  lemma HappensKeepsRows(db: Db, after: Db, env: Env, t: Id)
    requires Consistent(db, env) && t in db.tags && db.tags[t].processed && t in after.tags && Happens(db, after, env, t)
    ensures Consistent(after, env)
    ensures after.tags[t].processed && SameRows(RowsOf(db.events, t), RowsOf(after.events, t))
  {
    if step :| after == Apply(db, env, step) && !(step.DoSaveEvents? && step.tagId == t) {
      ApplyIsConsistent(db, env, step);
      StepKeepsRows(db, env, step, t);
    }
  }

  lemma SameRowsTransitive(a: seq<PgRow>, b: seq<PgRow>, c: seq<PgRow>)
    requires SameRows(a, b) && SameRows(b, c)
    ensures SameRows(a, c)
  {
    forall i | 0 <= i < |a|
      ensures c[i].(ack := a[i].ack) == a[i]
    {
      assert b[i].(ack := a[i].ack) == a[i] && c[i].(ack := b[i].ack) == b[i];
    }
  }

  /** The events of a processed tag never change while it is there, whatever else happens. */
  lemma {:induction false} ProcessedRowsAreFrozen(states: seq<Db>, env: Env, t: Id)
    requires IsSequel(states, env, t) && Consistent(states[0], env) && t in states[0].tags && states[0].tags[t].processed
    ensures var last := states[|states| - 1];
            && Consistent(last, env) && last.tags[t].processed
            && SameRows(RowsOf(states[0].events, t), RowsOf(last.events, t))
  {
    var n := |states|;
    if n > 1 {
      ProcessedRowsAreFrozen(states[..n - 1], env, t);
      HappensKeepsRows(states[n - 2], states[n - 1], env, t);
      SameRowsTransitive(RowsOf(states[0].events, t), RowsOf(states[n - 2].events, t), RowsOf(states[n - 1].events, t));
    }
  }

  ghost predicate IsNewest(db: Db, m: Id, b: Id) {
    OfModule(db, m, b) && forall s :: OfModule(db, m, s) ==> db.tags[s].updatedAt <= db.tags[b].updatedAt
  }

  /** The whole delete of the newest tag of the module. */
  ghost predicate DeletesNewest(db: Db, step: Step, m: Id) {
    && step.DoDeleteTag? && step.statements >= 3 && TagExists(db, step.name, step.tag)
    && IsNewest(db, m, TagIdOf(db, step.name, step.tag))
  }

  /** The module's tags stay in place: others are pushed later, or deleted from the newest end. */
  ghost predicate StaysInPlace(db: Db, after: Db, env: Env, m: Id) {
    || (exists step :: after == Apply(db, env, step) && (Elsewhere(db, step, m) || DeletesNewest(db, step, m)))
    || Completed(db, after, env) || Aborted(db, after, env)
  }

  lemma NewestDeleteCarries(db: Db, b: Id, m: Id)
    requires IsNewest(db, m, b) && DistinctTimes(db, m)
    ensures Carries(db, DeleteTagUpTo(db, b, 3), m)
  {
    var after := DeleteTagUpTo(db, b, 3);
    DeletedTables(db, b);
    assert forall s :: !IsNew(db, after, m, s) && (IsGone(db, after, m, s) ==> s == b);
    forall s | IsKept(db, after, m, s)
      ensures SameFiles(db, after, s)
    {
      TagDeleteSpares(db, b, 3, s);
    }
  }

  lemma StaysCarries(db: Db, after: Db, env: Env, m: Id)
    requires Consistent(db, env) && DistinctTimes(db, m) && StaysInPlace(db, after, env, m)
    ensures Carries(db, after, m)
  {
    if Completed(db, after, env) {
      RunCarries(db, after, m);
    } else if Aborted(db, after, env) {
      StoppedCarries(db, after, env, m);
    } else {
      var step :| after == Apply(db, env, step) && (Elsewhere(db, step, m) || DeletesNewest(db, step, m));
      if Elsewhere(db, step, m) {
        ElsewhereLeaves(db, env, step, m);
      } else {
        NewestDeleteCarries(db, TagIdOf(db, step.name, step.tag), m);
      }
    }
  }

  ghost predicate IsOrderly(states: seq<Db>, env: Env, m: Id) {
    states != [] &&
    (|states| > 1 ==>
       IsOrderly(states[..|states| - 1], env, m) && StaysInPlace(states[|states| - 2], states[|states| - 1], env, m))
  }

  lemma {:induction false} UnchangedStays(states: seq<Db>, env: Env, m: Id, t: Id)
    requires IsSequel(states, env, t) && IsOrderly(states, env, m)
    requires Consistent(states[0], env) && DistinctTimes(states[0], m) && OfModule(states[0], m, t) && states[0].tags[t].processed
    ensures var last := states[|states| - 1];
            OfModule(last, m, t) && DistinctTimes(last, m) && (Unchanged(states[0], t) <==> Unchanged(last, t))
  {
    var n := |states|;
    if n > 1 {
      UnchangedStays(states[..n - 1], env, m, t);
      ProcessedRowsAreFrozen(states[..n - 1], env, t);
      UnchangedStep(states[n - 2], states[n - 1], env, m, t);
    }
  }

  lemma UnchangedStep(db: Db, after: Db, env: Env, m: Id, t: Id)
    requires Consistent(db, env) && DistinctTimes(db, m) && StaysInPlace(db, after, env, m) && OfModule(db, m, t) && t in after.tags
    ensures OfModule(after, m, t) && DistinctTimes(after, m) && (Unchanged(db, t) <==> Unchanged(after, t))
  {
    StaysCarries(db, after, env, m);
    CarriesTimes(db, after, m);
    assert IsKept(db, after, m, t);
    UnchangedFrame(db, after, m, t);
  }

  /**
   A tag processed by a run that stopped is never compared: whatever happens later, it has no events.
   As long as its predecessor stays in place, its record is exact if and only if, already before the
   run, it was the first of its module or had the same files as the tag before it.
   */
  lemma StoppedRunIsNeverMadeUp(db: Db, states: seq<Db>, env: Env, m: Id, t: Id)
    requires Consistent(db, env) && DistinctTimes(db, m) && CollisionFree(env)
    requires IsSequel(states, env, t) && Aborted(db, states[0], env) && NewlyProcessed(db, states[0], m, t)
    ensures var last := states[|states| - 1];
            && RowsOf(last.events, t) == []
            && (IsOrderly(states, env, m) ==> (ExactFor(last, env, t) <==> Unchanged(db, t)))
  {
    var last := states[|states| - 1];
    NoEventsYet(db, env, t);
    StoppedCarries(db, states[0], env, m);
    ProcessedRowsAreFrozen(states, env, t);
    if IsOrderly(states, env, m) {
      CarriesTimes(db, states[0], m);
      UnchangedFrame(db, states[0], m, t);
      UnchangedStays(states, env, m, t);
      EmptyRecordIsExactIff(last, env, t);
    }
  }

  // ---------------------------------------------------------------------------
  // Whether a run can stop at all

  ghost predicate ServerSteps(env: Env, steps: seq<Step>) {
    forall s :: s in steps && s.DoPush? ==> WellFormedRequest(env, s.name, s.tag, s.files)
  }

  /** Every stored file has passed the server's check. */
  ghost predicate Checked(db: Db, env: Env) {
    forall k :: k in db.files ==> db.files[k].content != "" && env.syntax(db.files[k].content)
  }

  lemma {:induction false} ModuleDeleteChecked(db: Db, env: Env, name: string, k: nat)
    requires k <= 5 && Checked(db, env)
    ensures Checked(DeleteModuleUpTo(db, name, k), env)
  {
    if k > 0 && name in db.modules {
      ModuleDeleteChecked(db, env, name, k - 1);
    }
  }

  lemma {:induction false} TagDeleteChecked(db: Db, env: Env, b: Id, k: nat)
    requires k <= 3 && Checked(db, env)
    ensures Checked(DeleteTagUpTo(db, b, k), env)
  {
    if k > 0 {
      TagDeleteChecked(db, env, b, k - 1);
    }
  }

  lemma PushChecked(db: Db, env: Env, name: string, tag: string, files: seq<SourceFile>, now: nat)
    requires Checked(db, env) && WellFormedRequest(env, name, tag, files)
    ensures Checked(Push(db, name, tag, files, now), env)
  {
    NewFilesRows(db.nextId, files);
  }

  lemma StepChecked(db: Db, env: Env, step: Step)
    requires Checked(db, env) && ServerSteps(env, [step])
    ensures Checked(Apply(db, env, step), env)
  {
    assert step in [step];
    match step
    case DoPush(name, tag, files, now) => PushChecked(db, env, name, tag, files, now);
    case DoDeleteModule(name, k) => ModuleDeleteChecked(db, env, name, if k <= 5 then k else 5);
    case DoDeleteTag(name, tag, k) =>
      if TagExists(db, name, tag) {
        TagDeleteChecked(db, env, TagIdOf(db, name, tag), if k <= 3 then k else 3);
      }
    case _ =>
  }

  lemma {:induction false} ServerRunIsChecked(env: Env, steps: seq<Step>)
    requires ServerSteps(env, steps)
    ensures Checked(Run(EMPTY, env, steps), env)
  {
    if steps != [] {
      var init, last := steps[..|steps| - 1], steps[|steps| - 1];
      assert last in steps;
      ServerRunIsChecked(env, init);
      StepChecked(Run(EMPTY, env, init), env, last);
    }
  }

  /** In every state reached through the server, every tag parses, so no run of the daemon stops. */
  ghost predicate NeverStops(env: Env) {
    forall steps, t :: ServerSteps(env, steps) ==> Parses(Run(EMPTY, env, steps), env, t)
  }

  /** One pushed file is enough to store any text that passes the check. */
  lemma CanStore(env: Env, text: string) returns (steps: seq<Step>)
    requires text != "" && env.syntax(text)
    ensures ServerSteps(env, steps)
    ensures FileKey(1, "f") in Run(EMPTY, env, steps).files && Run(EMPTY, env, steps).files[FileKey(1, "f")].content == text
  {
    var register, files := DoRegister("m"), [SourceFile("f", text)];
    var push, first := DoPush("m", "v", files, 0), [register];
    steps := [register, push];
    assert steps[..1] == first && first[..0] == [];
    var db := Register(EMPTY, "m");
    assert Run(EMPTY, env, first[..0]) == EMPTY;
    assert Run(EMPTY, env, first) == Apply(EMPTY, env, register) == db;
    assert Run(EMPTY, env, steps) == Push(db, "m", "v", files, 0);
    assert files[..0] == [];
    assert NewFiles(1, files) == map[FileKey(1, "f") := FileRow(text, None)];
  }

  /** The daemon never stops on what the server lets in if and only if every text with correct syntax has an interpretation. */
  lemma NeverStopsIff(env: Env)
    ensures NeverStops(env) <==> forall text :: text != "" && env.syntax(text) ==> env.interpret(text).Some?
  {
    if forall text :: text != "" && env.syntax(text) ==> env.interpret(text).Some? {
      forall steps, t | ServerSteps(env, steps)
        ensures Parses(Run(EMPTY, env, steps), env, t)
      {
        ServerRunIsChecked(env, steps);
      }
    }
    if NeverStops(env) {
      forall text | text != "" && env.syntax(text)
        ensures env.interpret(text).Some?
      {
        var steps := CanStore(env, text);
        assert Parses(Run(EMPTY, env, steps), env, 1);
        assert env.Parse(text).Some?;
      }
    }
  }
}
