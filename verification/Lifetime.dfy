/**
 The advice over whole histories of the registry, module by module: whatever
 happens to other modules, and in this one as long as no record is spoiled, no
 breaking change hides behind the steps.
 */
module Lifetime {
  import opened Base
  import opened Severity
  import opened Events
  import opened Store
  import opened Daemon
  import opened Search
  import opened Dependencies
  import opened Advice
  import opened Statuses
  import opened Frames
  import opened Deletes
  import opened Stops

  /** A delete of one of the module's own tags, as far as it got, that spoils no record. */
  ghost predicate OwnDelete(db: Db, step: Step, m: Id) {
    && step.DoDeleteTag? && TagExists(db, step.name, step.tag)
    && var b := TagIdOf(db, step.name, step.tag);
       && OfModule(db, m, b)
       && (step.statements == 0 || (if step.statements < 3 then HarmlessStop(db, b) else HarmlessDelete(db, b)))
  }

  /** The module itself is deleted, with its tags. */
  ghost predicate OwnEnd(db: Db, step: Step, m: Id) {
    step.DoDeleteModule? && step.statements >= 3 && step.name in db.modules && db.modules[step.name] == m
  }

  ghost predicate SoundStep(db: Db, after: Db, env: Env, m: Id) {
    exists step :: after == Apply(db, env, step) && (Elsewhere(db, step, m) || OwnDelete(db, step, m) || OwnEnd(db, step, m))
  }

  /** One step of a history: an operation, a run of the daemon, or a run that stopped and lost nothing of this module. */
  ghost predicate Transition(db: Db, after: Db, env: Env, m: Id) {
    || SoundStep(db, after, env, m)
    || Completed(db, after, env)
    || (Aborted(db, after, env) && LostNothing(db, after, m))
  }

  ghost predicate IsHistory(states: seq<Db>, env: Env, m: Id) {
    states != [] &&
    if |states| == 1 then states[0] == EMPTY
    else
      var n := |states|;
      IsHistory(states[..n - 1], env, m) && Transition(states[n - 2], states[n - 1], env, m)
  }

  lemma OwnDeleteKeepsSound(db: Db, env: Env, step: Step, m: Id)
    requires Sound(db, env, m) && OwnDelete(db, step, m)
    ensures Sound(Apply(db, env, step), env, m)
  {
    var b, k := TagIdOf(db, step.name, step.tag), step.statements;
    if k >= 3 {
      HarmlessDeleteKeepsSound(db, env, m, b);
    } else if k > 0 {
      HarmlessStopKeepsSound(db, env, m, b, k);
    }
  }

  lemma OwnEndKeepsSound(db: Db, env: Env, step: Step, m: Id)
    requires Sound(db, env, m) && OwnEnd(db, step, m)
    ensures Sound(Apply(db, env, step), env, m)
  {
    var k := if step.statements <= 5 then step.statements else 5;
    DeleteModuleIsConsistent(db, env, step.name, k);
    assert forall t :: !OfModule(Apply(db, env, step), m, t);
  }

  lemma StepKeepsSound(db: Db, after: Db, env: Env, m: Id)
    requires Sound(db, env, m) && SoundStep(db, after, env, m)
    ensures Sound(after, env, m)
  {
    var step :| after == Apply(db, env, step) && (Elsewhere(db, step, m) || OwnDelete(db, step, m) || OwnEnd(db, step, m));
    if Elsewhere(db, step, m) {
      ApplyIsConsistent(db, env, step);
      ElsewhereLeaves(db, env, step, m);
      LeavesKeepsSound(db, after, env, m);
    } else if OwnDelete(db, step, m) {
      OwnDeleteKeepsSound(db, env, step, m);
    } else {
      OwnEndKeepsSound(db, env, step, m);
    }
  }

  /** In every such history the recorded events of the module stay exact. */
  lemma {:induction false} HistoryIsSound(states: seq<Db>, env: Env, m: Id)
    requires IsHistory(states, env, m)
    ensures Sound(states[|states| - 1], env, m)
  {
    var n := |states|;
    if n > 1 {
      HistoryIsSound(states[..n - 1], env, m);
      var db, after := states[n - 2], states[n - 1];
      if Completed(db, after, env) {
        CompletedKeepsSound(db, after, env, m);
      } else if SoundStep(db, after, env, m) {
        StepKeepsSound(db, after, env, m);
      } else {
        HarmlessRunKeepsSound(db, after, env, m);
      }
    }
  }

  lemma SoundIsRecorded(db: Db, env: Env, m: Id, chain: seq<Id>, k: nat)
    requires Sound(db, env, m) && IsChain(db, chain) && db.tags[chain[0]].moduleId == m && k < |chain|
    requires forall i :: 0 < i <= k ==> chain[i] in db.tags && db.tags[chain[i]].processed
    ensures StepsRecorded(db, env, chain, k)
  {
    forall i | 0 < i <= k
      ensures Recorded(db, env, chain[i])
    {
      assert OfModule(db, m, chain[i]);
    }
  }

  /**
   End to end: after any such history, for a pinned tag and its newer tags that have been processed, no
   file's direct comparison is worse than the worst severity that the advice shows on the way.
   */
  lemma AdviceInEveryHistory(states: seq<Db>, env: Env, m: Id, chain: seq<Id>, k: nat, f: string)
    requires IsHistory(states, env, m) && CollisionFree(env)
    requires var db := states[|states| - 1];
             ParsesHaveBodies(db, env) && IsChain(db, chain) && db.tags[chain[0]].moduleId == m && 0 < k < |chain| &&
             forall i :: 0 < i <= k ==> chain[i] in db.tags && db.tags[chain[i]].processed
    ensures var db := states[|states| - 1];
            FileRank(env, ContentOf(db, chain[0], f), ContentOf(db, chain[k], f)) <= WorstRecorded(db, m, chain, k)
  {
    HistoryIsSound(states, env, m);
    SoundIsRecorded(states[|states| - 1], env, m, chain, k);
    AdviceIsSound(states[|states| - 1], env, chain, k, f);
  }

  /**
   And in the query's own terms: after any such history, if the answer for a tag holds no review of a
   dependency up to its k-th newer tag, updating that dependency straight there changes nothing beyond info.
   */
  lemma ReportInEveryHistory(states: seq<Db>, env: Env, m: Id, tagId: Id, statuses: seq<Status>, e: Edge, d: Dep,
                             chain: seq<Id>, k: nat, f: string)
    requires IsHistory(states, env, m) && CollisionFree(env)
    requires var db := states[|states| - 1];
             ParsesHaveBodies(db, env) && IsChain(db, chain) && db.tags[chain[0]].moduleId == m && 0 < k < |chain| &&
             (forall i :: 0 < i <= k ==> chain[i] in db.tags && db.tags[chain[i]].processed) &&
             IsFullReport(db, tagId, statuses) && e in db.edges && e.tagId == tagId && Is(db, d, e.dependencyTagId) &&
             chain[0] == e.dependencyTagId && Reassures(db, statuses, d, chain, k)
    ensures var db := states[|states| - 1];
            FileRank(env, ContentOf(db, chain[0], f), ContentOf(db, chain[k], f)) <= Rank(Info)
  {
    var db := states[|states| - 1];
    HistoryIsSound(states, env, m);
    SoundIsRecorded(db, env, m, chain, k);
    ReportedUpdatesAreSafe(db, env, tagId, statuses, e, d, chain, k, f);
  }
}
