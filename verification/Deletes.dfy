/**
 What deleting a tag does to the records of its module: exactly when they stay
 exact, after every statement of the delete, and how much a stepwise reader can
 then miss.
 */
module Deletes {
  import opened Base
  import opened Severity
  import opened Chains
  import opened Events
  import opened Store
  import opened History
  import opened Drift
  import opened Daemon
  import opened Advice
  import opened Frames

  // ---------------------------------------------------------------------------
  // Records and versions

  ghost predicate SameVersion(db: Db, a: Id, b: Id) { Contents(db, a) == Contents(db, b) }

  lemma VersionsByFile(db: Db, a: Id, b: Id)
    ensures SameVersion(db, a, b) <==> forall f :: ContentOf(db, a, f) == ContentOf(db, b, f)
  {
    SameByKey(Contents(db, a), Contents(db, b));
    assert forall f :: ContentOf(db, a, f) == Get(Contents(db, a), f) && ContentOf(db, b, f) == Get(Contents(db, b), f);
  }

  lemma SameByKey(x: map<string, string>, y: map<string, string>)
    ensures x == y <==> forall f :: Get(x, f) == Get(y, f)
  {
    if forall f :: Get(x, f) == Get(y, f) {
      assert forall f :: f in x <==> Get(x, f).Some?;
      assert forall f :: f in y <==> Get(y, f).Some?;
      assert forall f :: f in x ==> Get(x, f) == Some(x[f]);
    }
  }

  /** The tag is the first of its module, or has the same files as the tag before it. */
  ghost predicate Unchanged(db: Db, t: Id)
    requires t in db.tags
  {
    forall p :: IsPrevious(db, t, Some(p)) ==> SameVersion(db, p, t)
  }

  /** A recorded diff determines the changes. */
  lemma RowsDetermineChanges(rows: seq<PgRow>, c: Changes, d: Changes, f: string)
    requires RowsExact(rows, c) && RowsExact(rows, d)
    ensures c(f) == d(f)
  {
    if c(f).Some? || d(f).Some? {
      var r :| r in rows && r.filename == f;
    }
  }

  /** A change between two versions tells either of them from the other. */
  lemma ChangeTellsSides(env: Env, x: Option<string>, y: Option<string>, z: Option<string>)
    requires CollisionFree(env)
    ensures FileChange(env, x, z) == FileChange(env, y, z) <==> x == y
    ensures FileChange(env, z, x) == FileChange(env, z, y) <==> x == y
    ensures FileChange(env, x, y).None? <==> x == y
  {
  }

  lemma EmptyRowsExact(rows: seq<PgRow>, changes: Changes)
    requires RowsExact(rows, changes)
    ensures rows == [] <==> forall f :: changes(f).None?
  {
    if rows != [] {
      assert rows[0] in rows && changes(rows[0].filename).Some?;
    }
  }

  lemma UnchangedHasNoRows(db: Db, env: Env, a: Id, b: Id)
    requires CollisionFree(env) && RowsExact(RowsOf(db.events, b), TagChanges(db, env, Some(a), b))
    ensures RowsOf(db.events, b) == [] <==> SameVersion(db, a, b)
  {
    EmptyRowsExact(RowsOf(db.events, b), TagChanges(db, env, Some(a), b));
    VersionsByFile(db, a, b);
    forall f
      ensures TagChanges(db, env, Some(a), b)(f).None? <==> ContentOf(db, a, f) == ContentOf(db, b, f)
    {
      ChangeTellsSides(env, ContentOf(db, a, f), ContentOf(db, b, f), None);
    }
  }

  lemma ExactWithPrevious(db: Db, env: Env, t: Id, p: Option<Id>)
    requires t in db.tags && DistinctTimes(db, db.tags[t].moduleId) && IsPrevious(db, t, p)
    ensures ExactFor(db, env, t) <==> RowsExact(RowsOf(db.events, t), TagChanges(db, env, p, t))
  {
    if ExactFor(db, env, t) {
      var q :| IsPrevious(db, t, q) && RowsExact(RowsOf(db.events, t), TagChanges(db, env, q, t));
      PreviousIsUnique(db, t, p, q);
    }
  }

  lemma PreviousExists(db: Db, t: Id) returns (p: Option<Id>)
    requires t in db.tags
    ensures IsPrevious(db, t, p)
  {
    var row := db.tags[t];
    var earlier := set s | s in db.tags && OfModule(db, row.moduleId, s) && db.tags[s].updatedAt < row.updatedAt;
    p := None;
    if earlier != {} {
      var q := LatestOf(db, earlier);
      p := Some(q);
    }
    assert forall s :: s in earlier <==> OfModule(db, row.moduleId, s) && db.tags[s].updatedAt < row.updatedAt;
  }

  lemma LatestOf(db: Db, ids: set<Id>) returns (q: Id)
    requires ids != {} && ids <= db.tags.Keys
    ensures q in ids && forall s :: s in ids ==> db.tags[s].updatedAt <= db.tags[q].updatedAt
    decreases ids
  {
    q :| q in ids;
    var rest := ids - {q};
    if rest != {} {
      var r := LatestOf(db, rest);
      if db.tags[q].updatedAt < db.tags[r].updatedAt {
        q := r;
      }
    }
    assert forall s :: s in ids ==> s in rest || s in ids - rest;
  }

  // ---------------------------------------------------------------------------
  // A whole delete

  /** The tables without the tag, its files and its events. */
  ghost predicate TagDeleted(db: Db, after: Db, b: Id) {
    && after.tags == db.tags - {b} && after.events == Anchored(db.events, after.tags)
    && forall t :: t != b ==> Contents(after, t) == Contents(db, t)
  }

  lemma DeletedTables(db: Db, b: Id)
    ensures TagDeleted(db, DeleteTagUpTo(db, b, 3), b)
  {
    var one, two, after := DeleteTagUpTo(db, b, 1), DeleteTagUpTo(db, b, 2), DeleteTagUpTo(db, b, 3);
    assert DeleteTagUpTo(db, b, 0) == db;
    assert one == DropTagFiles(db, b);
    assert two == DropTagEdges(one, b);
    assert after == DropTag(two, b);
    forall t | t != b
      ensures Contents(after, t) == Contents(db, t)
    {
      SameFilesSameContents(db, after, t);
    }
  }

  ghost predicate Follows(db: Db, b: Id, c: Id) { c in db.tags && IsPrevious(db, c, Some(b)) }

  lemma EarlierWithout(db: Db, after: Db, b: Id, c: Id, s: Id)
    requires after.tags == db.tags - {b} && b in db.tags && DistinctTimes(db, db.tags[b].moduleId) && Follows(db, b, c)
    ensures OfModule(after, db.tags[b].moduleId, s) && after.tags[s].updatedAt < db.tags[c].updatedAt
       <==> OfModule(db, db.tags[b].moduleId, s) && db.tags[s].updatedAt < db.tags[b].updatedAt
  {
  }

  lemma PreviousWithout(db: Db, after: Db, a: Option<Id>, b: Id, c: Id)
    requires after.tags == db.tags - {b} && b in db.tags && DistinctTimes(db, db.tags[b].moduleId)
    requires IsPrevious(db, b, a) && Follows(db, b, c)
    ensures c in after.tags && IsPrevious(after, c, a)
  {
    forall s
      ensures OfModule(after, db.tags[b].moduleId, s) && after.tags[s].updatedAt < db.tags[c].updatedAt
         <==> OfModule(db, db.tags[b].moduleId, s) && db.tags[s].updatedAt < db.tags[b].updatedAt
    {
      EarlierWithout(db, after, b, c, s);
    }
  }

  /** After the delete, the tag before the deleted one precedes the tag after it, and nothing else does. */
  lemma PreviousAfterDelete(db: Db, after: Db, a: Option<Id>, b: Id, c: Id, p: Option<Id>)
    requires TagDeleted(db, after, b) && b in db.tags && DistinctTimes(db, db.tags[b].moduleId)
    requires IsPrevious(db, b, a) && Follows(db, b, c)
    ensures c != b && c in after.tags
    ensures IsPrevious(after, c, p) <==> p == a
  {
    PreviousWithout(db, after, a, b, c);
    FewerTimes(db, after, b);
    if IsPrevious(after, c, p) {
      PreviousIsUnique(after, c, p, a);
    }
  }

  lemma FewerTimes(db: Db, after: Db, b: Id)
    requires after.tags == db.tags - {b}
    ensures forall m :: DistinctTimes(db, m) ==> DistinctTimes(after, m)
  {
  }

  lemma DeletedExactIff(db: Db, after: Db, env: Env, a: Option<Id>, b: Id, c: Id)
    requires TagDeleted(db, after, b) && b in db.tags && DistinctTimes(db, db.tags[b].moduleId)
    requires IsPrevious(db, b, a) && Follows(db, b, c)
    ensures c in after.tags
    ensures ExactFor(after, env, c) <==> RowsExact(RowsOf(db.events, c), TagChanges(db, env, a, c))
  {
    PreviousAfterDelete(db, after, a, b, c, a);
    AnchoredRowsOf(db.events, after.tags, c);
    assert a.Some? ==> a.value != b;
    SameTagChanges(db, after, env, a, c);
    if ExactFor(after, env, c) {
      var p :| IsPrevious(after, c, p) && RowsExact(RowsOf(after.events, c), TagChanges(after, env, p, c));
      PreviousAfterDelete(db, after, a, b, c, p);
      SameChangesExact(RowsOf(after.events, c), TagChanges(after, env, a, c), TagChanges(db, env, a, c));
    }
    if RowsExact(RowsOf(db.events, c), TagChanges(db, env, a, c)) {
      SameChangesExact(RowsOf(after.events, c), TagChanges(db, env, a, c), TagChanges(after, env, a, c));
    }
  }

  lemma SameOriginSameChanges(db: Db, env: Env, a: Id, b: Id, c: Id)
    requires RowsExact(RowsOf(db.events, c), TagChanges(db, env, Some(b), c))
    ensures SameVersion(db, a, b) ==> RowsExact(RowsOf(db.events, c), TagChanges(db, env, Some(a), c))
    ensures CollisionFree(env) && RowsExact(RowsOf(db.events, c), TagChanges(db, env, Some(a), c)) ==> SameVersion(db, a, b)
  {
    var rows, fromA, fromB := RowsOf(db.events, c), TagChanges(db, env, Some(a), c), TagChanges(db, env, Some(b), c);
    VersionsByFile(db, a, b);
    if SameVersion(db, a, b) {
      SameChangesExact(rows, fromB, fromA);
    }
    if CollisionFree(env) && RowsExact(rows, fromA) {
      forall f
        ensures ContentOf(db, a, f) == ContentOf(db, b, f)
      {
        RowsDetermineChanges(rows, fromA, fromB, f);
        ChangeTellsSides(env, ContentOf(db, a, f), ContentOf(db, b, f), ContentOf(db, c, f));
      }
    }
  }

  /** The record of the next tag survives: the deleted tag changed nothing, or it was the first and the next one changed nothing. */
  ghost predicate NextSurvives(db: Db, a: Option<Id>, b: Id, c: Id) {
    if a.Some? then SameVersion(db, a.value, b) else RowsOf(db.events, c) == []
  }

  lemma NextIsExactIff(db: Db, after: Db, env: Env, a: Option<Id>, b: Id, c: Id)
    requires TagDeleted(db, after, b) && b in db.tags && DistinctTimes(db, db.tags[b].moduleId)
    requires IsPrevious(db, b, a) && Follows(db, b, c) && ExactFor(db, env, c)
    ensures c in after.tags
    ensures NextSurvives(db, a, b, c) ==> ExactFor(after, env, c)
    ensures CollisionFree(env) && ExactFor(after, env, c) ==> NextSurvives(db, a, b, c)
  {
    DeletedExactIff(db, after, env, a, b, c);
    ExactWithPrevious(db, env, c, Some(b));
    if a.Some? {
      SameOriginSameChanges(db, env, a.value, b, c);
    } else {
      NothingToRecord(RowsOf(db.events, c), TagChanges(db, env, None, c));
    }
  }

  lemma NothingToRecord(rows: seq<PgRow>, changes: Changes)
    requires forall f :: changes(f).None?
    ensures RowsExact(rows, changes) <==> rows == []
  {
    if RowsExact(rows, changes) {
      EmptyRowsExact(rows, changes);
    }
  }

  /**
   Deleting a processed tag leaves the next record exact if and only if the deleted tag had no events
   itself; for the first tag of the module, if and only if the next one had none.
   */
  lemma DeleteKeepsExactIff(db: Db, env: Env, a: Option<Id>, b: Id, c: Id)
    requires b in db.tags && DistinctTimes(db, db.tags[b].moduleId) && CollisionFree(env)
    requires IsPrevious(db, b, a) && Follows(db, b, c) && ExactFor(db, env, b) && ExactFor(db, env, c)
    ensures c in DeleteTagUpTo(db, b, 3).tags
    ensures ExactFor(DeleteTagUpTo(db, b, 3), env, c) <==> RowsOf(db.events, if a.Some? then b else c) == []
  {
    DeletedTables(db, b);
    NextIsExactIff(db, DeleteTagUpTo(db, b, 3), env, a, b, c);
    ExactWithPrevious(db, env, b, a);
    if a.Some? {
      UnchangedHasNoRows(db, env, a.value, b);
    }
  }

  lemma PreviousSpared(db: Db, after: Db, b: Id, t: Id, p: Option<Id>)
    requires after.tags == db.tags - {b} && t in db.tags && t != b && IsPrevious(db, t, p) && p != Some(b)
    ensures IsPrevious(after, t, p)
  {
  }

  lemma SparedSides(db: Db, after: Db, b: Id, t: Id, p: Option<Id>)
    requires TagDeleted(db, after, b) && t in db.tags && t != b && IsPrevious(db, t, p) && p != Some(b)
    ensures t in after.tags && IsPrevious(after, t, p) && RowsOf(after.events, t) == RowsOf(db.events, t)
    ensures Contents(after, t) == Contents(db, t) && (p.Some? ==> Contents(after, p.value) == Contents(db, p.value))
  {
    PreviousSpared(db, after, b, t, p);
    AnchoredRowsOf(db.events, after.tags, t);
  }

  lemma DeleteSparesExact(db: Db, after: Db, env: Env, b: Id, t: Id)
    requires TagDeleted(db, after, b) && t in db.tags && t != b && !Follows(db, b, t) && ExactFor(db, env, t)
    ensures t in after.tags && ExactFor(after, env, t)
  {
    var p :| IsPrevious(db, t, p) && RowsExact(RowsOf(db.events, t), TagChanges(db, env, p, t));
    SparedSides(db, after, b, t, p);
    ExactMoves(db, after, env, t, p);
  }

  lemma ExactMoves(db: Db, after: Db, env: Env, t: Id, p: Option<Id>)
    requires t in after.tags && IsPrevious(after, t, p) && RowsOf(after.events, t) == RowsOf(db.events, t)
    requires Contents(after, t) == Contents(db, t) && (p.Some? ==> Contents(after, p.value) == Contents(db, p.value))
    requires RowsExact(RowsOf(db.events, t), TagChanges(db, env, p, t))
    ensures ExactFor(after, env, t)
  {
    SameTagChanges(db, after, env, p, t);
    SameChangesExact(RowsOf(db.events, t), TagChanges(db, env, p, t), TagChanges(after, env, p, t));
  }

  /** No processed tag follows, or its record survives. */
  ghost predicate HarmlessDelete(db: Db, b: Id)
    requires b in db.tags
  {
    forall a, c :: IsPrevious(db, b, a) && Follows(db, b, c) && db.tags[c].processed ==> NextSurvives(db, a, b, c)
  }

  lemma HarmlessDeleteKeepsSound(db: Db, env: Env, m: Id, b: Id)
    requires Sound(db, env, m) && OfModule(db, m, b) && HarmlessDelete(db, b)
    ensures Sound(DeleteTagUpTo(db, b, 3), env, m)
  {
    var after := DeleteTagUpTo(db, b, 3);
    DeletedTables(db, b);
    DeleteTagIsConsistent(db, env, b, 3);
    forall t | OfModule(after, m, t) && after.tags[t].processed
      ensures ExactFor(after, env, t)
    {
      if Follows(db, b, t) {
        var a := PreviousExists(db, b);
        NextIsExactIff(db, after, env, a, b, t);
      } else {
        DeleteSparesExact(db, after, env, b, t);
      }
    }
  }

  /**
   Deleting a tag, whichever it is, keeps every record of its module exact if and only if it is harmless:
   the newest tag, or one before an unprocessed tag, or one that changed nothing, or the first one before
   one that changed nothing.
   */
  lemma DeleteKeepsSoundIff(db: Db, env: Env, m: Id, b: Id)
    requires Sound(db, env, m) && OfModule(db, m, b) && CollisionFree(env)
    ensures Sound(DeleteTagUpTo(db, b, 3), env, m) <==> HarmlessDelete(db, b)
  {
    if HarmlessDelete(db, b) {
      HarmlessDeleteKeepsSound(db, env, m, b);
    }
    if Sound(DeleteTagUpTo(db, b, 3), env, m) {
      forall a, c | IsPrevious(db, b, a) && Follows(db, b, c) && db.tags[c].processed
        ensures NextSurvives(db, a, b, c)
      {
        DeletedTables(db, b);
        NextIsExactIff(db, DeleteTagUpTo(db, b, 3), env, a, b, c);
      }
    }
  }

  /** Deleting the newest tag of a module is harmless. */
  lemma NewestIsHarmless(db: Db, b: Id)
    requires b in db.tags
    requires forall s :: OfModule(db, db.tags[b].moduleId, s) ==> db.tags[s].updatedAt <= db.tags[b].updatedAt
    ensures HarmlessDelete(db, b)
  {
    forall c | Follows(db, b, c)
      ensures false
    {
      assert OfModule(db, db.tags[b].moduleId, c);
    }
  }

  lemma DeleteNewestKeepsSound(db: Db, env: Env, m: Id, b: Id)
    requires Sound(db, env, m) && OfModule(db, m, b)
    requires forall s :: OfModule(db, m, s) ==> db.tags[s].updatedAt <= db.tags[b].updatedAt
    ensures Sound(DeleteTagUpTo(db, b, 3), env, m)
  {
    NewestIsHarmless(db, b);
    HarmlessDeleteKeepsSound(db, env, m, b);
  }

  // ---------------------------------------------------------------------------
  // A delete that stops after its first or second statement: the tag is there, without its files

  /** The same tables, except that the tag has no files. */
  ghost predicate Emptied(db: Db, after: Db, b: Id) {
    && after.tags == db.tags && after.events == db.events && Contents(after, b) == map[]
    && forall t :: t != b ==> Contents(after, t) == Contents(db, t)
  }

  lemma StoppedTables(db: Db, b: Id, k: nat)
    requires 1 <= k <= 2
    ensures Emptied(db, DeleteTagUpTo(db, b, k), b)
  {
    var one, after := DeleteTagUpTo(db, b, 1), DeleteTagUpTo(db, b, k);
    assert DeleteTagUpTo(db, b, 0) == db;
    assert one == DropTagFiles(db, b) && after.files == one.files;
    forall t | t != b
      ensures Contents(after, t) == Contents(db, t)
    {
      SameFilesSameContents(db, after, t);
    }
    forall f
      ensures f !in Contents(after, b)
    {
      ContentsAt(after, b, f);
    }
  }

  /** No record involves files of the tag. */
  ghost predicate HarmlessStop(db: Db, b: Id)
    requires b in db.tags
  {
    || Contents(db, b) == map[]
    || ((db.tags[b].processed ==> IsPrevious(db, b, None)) && forall c :: Follows(db, b, c) ==> !db.tags[c].processed)
  }

  lemma EmptiedKeepsExact(db: Db, after: Db, env: Env, b: Id, t: Id)
    requires Emptied(db, after, b) && b in db.tags && HarmlessStop(db, b)
    requires t in db.tags && db.tags[t].processed && ExactFor(db, env, t) && DistinctTimes(db, db.tags[t].moduleId)
    ensures ExactFor(after, env, t)
  {
    var p :| IsPrevious(db, t, p) && RowsExact(RowsOf(db.events, t), TagChanges(db, env, p, t));
    SamePrevious(db, after, t, p);
    if p.None? {
      NothingToRecord(RowsOf(db.events, t), TagChanges(db, env, None, t));
      NothingToRecord(RowsOf(db.events, t), TagChanges(after, env, None, t));
    } else {
      SidesStay(db, after, b, t, p.value);
      ExactMoves(db, after, env, t, p);
    }
  }

  lemma SidesStay(db: Db, after: Db, b: Id, t: Id, p: Id)
    requires Emptied(db, after, b) && b in db.tags && HarmlessStop(db, b)
    requires t in db.tags && db.tags[t].processed && DistinctTimes(db, db.tags[t].moduleId) && IsPrevious(db, t, Some(p))
    ensures Contents(after, t) == Contents(db, t) && Contents(after, p) == Contents(db, p)
  {
    assert p == b ==> Follows(db, b, t);
    if t == b && Contents(db, b) != map[] {
      PreviousIsUnique(db, t, Some(p), None);
    }
  }

  lemma EmptiedBreaksExact(db: Db, after: Db, env: Env, b: Id, t: Id, p: Id)
    requires Emptied(db, after, b) && CollisionFree(env) && (t == b || p == b) && t != p
    requires RowsExact(RowsOf(db.events, t), TagChanges(db, env, Some(p), t))
    requires RowsExact(RowsOf(db.events, t), TagChanges(after, env, Some(p), t))
    ensures Contents(db, b) == map[]
  {
    forall f
      ensures f !in Contents(db, b)
    {
      RowsDetermineChanges(RowsOf(db.events, t), TagChanges(db, env, Some(p), t), TagChanges(after, env, Some(p), t), f);
      ChangeTellsSides(env, ContentOf(db, b, f), None, ContentOf(db, if t == b then p else t, f));
    }
  }

  lemma StopIsHarmless(db: Db, after: Db, env: Env, m: Id, b: Id)
    requires Sound(db, env, m) && OfModule(db, m, b) && Emptied(db, after, b) && CollisionFree(env)
    requires forall t :: OfModule(db, m, t) && db.tags[t].processed ==> ExactFor(after, env, t)
    ensures HarmlessStop(db, b)
  {
    var q := PreviousExists(db, b);
    if q.Some? && db.tags[b].processed {
      InvolvedMeansEmpty(db, after, env, b, b, q.value);
    }
    forall c | Follows(db, b, c) && db.tags[c].processed
      ensures Contents(db, b) == map[]
    {
      assert OfModule(db, m, c);
      InvolvedMeansEmpty(db, after, env, b, c, b);
    }
  }

  lemma InvolvedMeansEmpty(db: Db, after: Db, env: Env, b: Id, t: Id, p: Id)
    requires Emptied(db, after, b) && CollisionFree(env) && (t == b || p == b)
    requires t in db.tags && DistinctTimes(db, db.tags[t].moduleId) && IsPrevious(db, t, Some(p))
    requires ExactFor(db, env, t) && ExactFor(after, env, t)
    ensures Contents(db, b) == map[]
  {
    SamePrevious(db, after, t, Some(p));
    ExactWithPrevious(db, env, t, Some(p));
    ExactWithPrevious(after, env, t, Some(p));
    EmptiedBreaksExact(db, after, env, b, t, p);
  }

  lemma SamePrevious(db: Db, after: Db, t: Id, p: Option<Id>)
    requires after.tags == db.tags && t in db.tags && IsPrevious(db, t, p) && DistinctTimes(db, db.tags[t].moduleId)
    ensures IsPrevious(after, t, p) && DistinctTimes(after, db.tags[t].moduleId)
  {
  }

  /** A delete that stops with the tag still there keeps every record exact if and only if none involves files of the tag. */
  lemma StoppedDeleteKeepsSoundIff(db: Db, env: Env, m: Id, b: Id, k: nat)
    requires Sound(db, env, m) && OfModule(db, m, b) && 1 <= k <= 2 && CollisionFree(env)
    ensures Sound(DeleteTagUpTo(db, b, k), env, m) <==> HarmlessStop(db, b)
  {
    var after := DeleteTagUpTo(db, b, k);
    StoppedTables(db, b, k);
    if HarmlessStop(db, b) {
      HarmlessStopKeepsSound(db, env, m, b, k);
    }
    if Sound(after, env, m) {
      forall t | OfModule(db, m, t) && db.tags[t].processed
        ensures ExactFor(after, env, t)
      {
        assert OfModule(after, m, t);
      }
      StopIsHarmless(db, after, env, m, b);
    }
  }

  lemma HarmlessStopKeepsSound(db: Db, env: Env, m: Id, b: Id, k: nat)
    requires Sound(db, env, m) && OfModule(db, m, b) && 1 <= k <= 2 && HarmlessStop(db, b)
    ensures Sound(DeleteTagUpTo(db, b, k), env, m)
  {
    var after := DeleteTagUpTo(db, b, k);
    StoppedTables(db, b, k);
    DeleteTagIsConsistent(db, env, b, k);
    forall t | OfModule(after, m, t) && after.tags[t].processed
      ensures ExactFor(after, env, t)
    {
      EmptiedKeepsExact(db, after, env, b, t);
    }
  }

  // ---------------------------------------------------------------------------
  // What a stepwise reader can miss

  function Without(chain: seq<Id>, j: nat): seq<Id>
    requires j < |chain|
  {
    chain[..j] + chain[j + 1..]
  }

  /** The chain of a pinned tag without a later tag is the chain after that tag has been deleted. */
  lemma ChainWithout(db: Db, chain: seq<Id>, j: nat)
    requires IsChain(db, chain) && 0 < j < |chain|
    ensures IsChain(DeleteTagUpTo(db, chain[j], 3), Without(chain, j))
  {
    var after, rest := DeleteTagUpTo(db, chain[j], 3), Without(chain, j);
    DeletedTables(db, chain[j]);
    forall i | 0 <= i < |rest|
      ensures rest[i] == chain[if i < j then i else i + 1] && rest[i] != chain[j]
      ensures OfModule(after, db.tags[chain[0]].moduleId, rest[i])
    {
      var k := if i < j then i else i + 1;
      assert OfModule(db, db.tags[chain[0]].moduleId, chain[k]);
      assert if k < j then db.tags[chain[k]].updatedAt < db.tags[chain[j]].updatedAt
             else db.tags[chain[j]].updatedAt < db.tags[chain[k]].updatedAt;
    }
    forall s | IsNewer(after, rest[0], s)
      ensures s in rest
    {
      assert IsNewer(db, chain[0], s);
      var i :| 0 <= i < |chain| && chain[i] == s;
      assert rest[if i < j then i else i - 1] == s;
    }
  }

  lemma {:induction false} AnchoredMaxRank(rows: seq<PgRow>, tags: map<Id, TagRow>, m: Id, t: Id)
    requires t in tags
    ensures MaxRank(Anchored(rows, tags), m, t) == MaxRank(rows, m, t)
  {
    if rows != [] {
      var init, last := rows[..|rows| - 1], rows[|rows| - 1];
      AnchoredMaxRank(init, tags, m, t);
      var kept := Anchored(rows, tags);
      if last.tagId in tags {
        assert kept[..|kept| - 1] == Anchored(init, tags);
      } else {
        assert kept == Anchored(init, tags);
      }
    }
  }

  lemma {:induction false} SameWorst(db: Db, after: Db, m: Id, chain: seq<Id>, other: seq<Id>, k: nat)
    requires k < |chain| && k < |other|
    requires forall i :: 0 < i <= k ==> other[i] == chain[i] && MaxRank(after.events, m, chain[i]) == MaxRank(db.events, m, chain[i])
    ensures WorstRecorded(after, m, other, k) == WorstRecorded(db, m, chain, k)
  {
    if k > 0 {
      SameWorst(db, after, m, chain, other, k - 1);
    }
  }

  /** The worst record on the way is the deleted one or is still there. */
  lemma {:induction false} WorstWithout(db: Db, after: Db, m: Id, chain: seq<Id>, j: nat, k: nat)
    requires 0 < j <= k < |chain|
    requires forall i :: 0 < i <= k && i != j ==> MaxRank(after.events, m, chain[i]) == MaxRank(db.events, m, chain[i])
    ensures WorstRecorded(db, m, chain, k) == Max(WorstRecorded(after, m, Without(chain, j), k - 1), MaxRank(db.events, m, chain[j]))
  {
    var rest := Without(chain, j);
    if k == j {
      SameWorst(db, after, m, chain, rest, k - 1);
    } else {
      WorstWithout(db, after, m, chain, j, k - 1);
      assert rest[k - 1] == chain[k];
    }
  }

  /** What is left to see after the delete: together with the deleted record, exactly what there was. */
  lemma DeletedStepIsForgotten(db: Db, chain: seq<Id>, j: nat, k: nat)
    requires IsChain(db, chain) && 0 < j <= k < |chain|
    ensures var m, after := db.tags[chain[0]].moduleId, DeleteTagUpTo(db, chain[j], 3);
            WorstRecorded(db, m, chain, k) ==
            Max(WorstRecorded(after, m, Without(chain, j), k - 1), MaxRank(db.events, m, chain[j]))
  {
    var m, after := db.tags[chain[0]].moduleId, DeleteTagUpTo(db, chain[j], 3);
    DeletedTables(db, chain[j]);
    forall i | 0 < i <= k && i != j
      ensures MaxRank(after.events, m, chain[i]) == MaxRank(db.events, m, chain[i])
    {
      assert OfModule(db, m, chain[i]) && OfModule(db, m, chain[j]);
      assert if i < j then db.tags[chain[i]].updatedAt < db.tags[chain[j]].updatedAt
             else db.tags[chain[j]].updatedAt < db.tags[chain[i]].updatedAt;
      AnchoredMaxRank(db.events, after.tags, m, chain[i]);
    }
    WorstWithout(db, after, m, chain, j, k);
  }

  lemma EndsAreKept(db: Db, chain: seq<Id>, j: nat, k: nat)
    requires IsChain(db, chain) && 0 < j < k < |chain|
    ensures var after, rest := DeleteTagUpTo(db, chain[j], 3), Without(chain, j);
            && rest[0] == chain[0] && rest[k - 1] == chain[k]
            && Contents(after, chain[0]) == Contents(db, chain[0]) && Contents(after, chain[k]) == Contents(db, chain[k])
  {
    DeletedTables(db, chain[j]);
    assert db.tags[chain[0]].updatedAt < db.tags[chain[j]].updatedAt < db.tags[chain[k]].updatedAt;
  }

  /**
   After deleting any later tag, comparing the pinned tag with a tag beyond it is at most the worst of
   what is still recorded and what was recorded on the deleted tag.
   */
  lemma AdviceAfterDelete(db: Db, env: Env, chain: seq<Id>, j: nat, k: nat, f: string)
    requires Consistent(db, env) && StepsRecorded(db, env, chain, k) && 0 < j < k
    requires CollisionFree(env) && ParsesHaveBodies(db, env)
    ensures var m, after, rest := db.tags[chain[0]].moduleId, DeleteTagUpTo(db, chain[j], 3), Without(chain, j);
            && IsChain(after, rest) && rest[0] == chain[0] && rest[k - 1] == chain[k]
            && FileRank(env, ContentOf(after, rest[0], f), ContentOf(after, rest[k - 1], f))
               <= Max(WorstRecorded(after, m, rest, k - 1), MaxRank(db.events, m, chain[j]))
  {
    ChainWithout(db, chain, j);
    EndsAreKept(db, chain, j, k);
    DeletedStepIsForgotten(db, chain, j, k);
    AdviceIsSound(db, env, chain, k, f);
  }
}
