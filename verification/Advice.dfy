/**
 Upgrade advice.  A dependency pinned to a tag is told, for each newer tag, the
 worst severity recorded on that tag.  As long as the records of those tags are
 exact, no breaking change hides behind the steps, whatever has happened to
 other tags and modules.
 */
module Advice {
  import opened Base
  import opened Proto
  import opened Severity
  import opened Chains
  import opened Events
  import opened Store
  import opened History
  import opened Drift
  import opened Daemon

  datatype Recommendation = SuggestUpdate | AlertReview

  datatype Status = Status(dependency: string, currentTag: string, targetTag: string, severity: DriftSeverity, recommendation: Recommendation)

  function SeverityFromRank(rank: nat): DriftSeverity {
    match rank
    case 3 => Critical
    case 2 => Warning
    case _ => Info
  }

  function RecommendationFrom(s: DriftSeverity): Recommendation {
    if s == Critical || s == Warning then AlertReview else SuggestUpdate
  }

  // ---------------------------------------------------------------------------
  // Ranks

  /** `COALESCE(MAX(rank of severity), 0) ... WHERE module_id = $1 AND tag_id = $2`. */
  function MaxRank(table: seq<PgRow>, m: Id, t: Id): nat {
    if table == [] then 0
    else
      var last := table[|table| - 1];
      Max(MaxRank(table[..|table| - 1], m, t), if last.moduleId == m && last.tagId == t then Rank(last.severity) else 0)
  }

  lemma {:induction false} MaxRankCovers(table: seq<PgRow>, m: Id, t: Id, r: PgRow)
    requires r in table && r.moduleId == m && r.tagId == t
    ensures Rank(r.severity) <= MaxRank(table, m, t) <= 3
  {
    var init, last := table[..|table| - 1], table[|table| - 1];
    MaxRankBound(init, m, t);
    if r != last {
      MaxRankCovers(init, m, t, r);
    }
  }

  lemma {:induction false} MaxRankBound(table: seq<PgRow>, m: Id, t: Id)
    ensures MaxRank(table, m, t) <= 3
    ensures MaxRank(table, m, t) > 0 ==>
              exists r :: r in table && r.moduleId == m && r.tagId == t && Rank(r.severity) == MaxRank(table, m, t)
  {
    if table != [] {
      var init, last := table[..|table| - 1], table[|table| - 1];
      MaxRankBound(init, m, t);
      if MaxRank(table, m, t) > 0 {
        if MaxRank(table, m, t) == MaxRank(init, m, t) {
          var r :| r in init && r.moduleId == m && r.tagId == t && Rank(r.severity) == MaxRank(init, m, t);
          assert r in table;
        } else {
          assert last in table;
        }
      }
    }
  }

  /** The rank of what happened to one file between two versions; zero when nothing did. */
  function FileRank(env: Env, previous: Option<string>, current: Option<string>): nat {
    match FileChange(env, previous, current)
    case None => 0
    case Some(c) => Rank(c.severity)
  }

  ghost predicate CollisionFree(env: Env) { forall a, b :: env.hash(a) == env.hash(b) ==> a == b }

  lemma FileTriangle(env: Env, x: Option<string>, y: Option<string>, z: Option<string>)
    requires CollisionFree(env) && (y.Some? ==> IsParsed(env.Parse(y.value)))
    ensures FileRank(env, x, z) <= Max(FileRank(env, x, y), FileRank(env, y, z))
  {
    if x.Some? && y.Some? && z.Some? {
      Triangle(env.Parse(x.value), env.Parse(y.value), env.Parse(z.value));
    }
  }

  // ---------------------------------------------------------------------------
  // The chain of newer tags

  predicate IsNewer(db: Db, pinned: Id, s: Id)
    requires pinned in db.tags
  {
    OfModule(db, db.tags[pinned].moduleId, s) && db.tags[pinned].updatedAt < db.tags[s].updatedAt
  }

  /** The pinned tag followed by the newer tags of its module, oldest first, none left out. */
  ghost predicate IsChain(db: Db, chain: seq<Id>) {
    && chain != [] && chain[0] in db.tags
    && (forall i :: 0 <= i < |chain| ==> OfModule(db, db.tags[chain[0]].moduleId, chain[i]))
    && (forall i, j :: 0 <= i < j < |chain| ==> db.tags[chain[i]].updatedAt < db.tags[chain[j]].updatedAt)
    && (forall s :: IsNewer(db, chain[0], s) ==> s in chain)
  }

  lemma PreviousIsUnique(db: Db, t: Id, p: Option<Id>, q: Option<Id>)
    requires t in db.tags && DistinctTimes(db, db.tags[t].moduleId) && IsPrevious(db, t, p) && IsPrevious(db, t, q)
    ensures p == q
  {
    if p.Some? && q.Some? {
      assert db.tags[p.value].updatedAt == db.tags[q.value].updatedAt;
    }
  }

  /** The tag has been processed and its recorded events are exact. */
  ghost predicate Recorded(db: Db, env: Env, t: Id) {
    t in db.tags && db.tags[t].processed && ExactFor(db, env, t)
  }

  /** The first k steps of the chain have exact records; nothing is asked of other tags or modules. */
  ghost predicate StepsRecorded(db: Db, env: Env, chain: seq<Id>, k: nat) {
    && IsChain(db, chain) && k < |chain| && DistinctTimes(db, db.tags[chain[0]].moduleId)
    && forall i :: 0 < i <= k ==> Recorded(db, env, chain[i])
  }

  /** Neighbours on the chain are neighbours in time. */
  lemma NeighboursOnChain(db: Db, chain: seq<Id>, i: nat, p: Option<Id>)
    requires IsChain(db, chain) && DistinctTimes(db, db.tags[chain[0]].moduleId) && 0 < i < |chain|
    requires IsPrevious(db, chain[i], p)
    ensures p == Some(chain[i - 1])
  {
    var m := db.tags[chain[0]].moduleId;
    assert OfModule(db, m, chain[i]) && OfModule(db, m, chain[i - 1]);
    assert db.tags[chain[i - 1]].updatedAt < db.tags[chain[i]].updatedAt;
    var q := p.value;
    assert db.tags[chain[i - 1]].updatedAt <= db.tags[q].updatedAt < db.tags[chain[i]].updatedAt;
    NothingBetween(db, chain, i, q);
  }

  /** No tag of the module lies strictly between two neighbours on the chain. */
  lemma NothingBetween(db: Db, chain: seq<Id>, i: nat, q: Id)
    requires IsChain(db, chain) && 0 < i < |chain| && OfModule(db, db.tags[chain[0]].moduleId, q)
    ensures db.tags[q].updatedAt <= db.tags[chain[i - 1]].updatedAt || db.tags[chain[i]].updatedAt <= db.tags[q].updatedAt
  {
    assert db.tags[chain[0]].updatedAt <= db.tags[chain[i - 1]].updatedAt;
    if IsNewer(db, chain[0], q) {
      var j :| 0 <= j < |chain| && chain[j] == q;
      assert j <= i - 1 || i <= j;
    }
  }

  function ContentOf(db: Db, t: Id, f: string): Option<string> { Get(Contents(db, t), f) }

  /** The rank of one file between two positions of the chain. */
  ghost function ChainDistance(db: Db, env: Env, chain: seq<Id>, f: string): (nat, nat) -> nat {
    (i: nat, j: nat) =>
      if i < |chain| && j < |chain| then FileRank(env, ContentOf(db, chain[i], f), ContentOf(db, chain[j], f)) else 0
  }

  /** A change that is recorded exactly is covered by the worst recorded rank. */
  lemma ChangeIsCovered(table: seq<PgRow>, m: Id, t: Id, changes: Changes, f: string)
    requires RowsExact(RowsOf(table, t), changes) && changes(f).Some?
    requires forall r :: r in table && r.tagId == t ==> r.moduleId == m
    ensures Rank(changes(f).value.severity) <= MaxRank(table, m, t)
  {
    var r :| r in RowsOf(table, t) && r.filename == f;
    assert changes(r.filename) == Some(RowChange(r));
    RowsOfMembers(table, t);
    MaxRankCovers(table, m, t, r);
  }

  /** A step of the chain is never worse than what is recorded on the tag it leads to. */
  lemma StepIsRecorded(db: Db, env: Env, chain: seq<Id>, i: nat, f: string)
    requires EventsAnchored(db) && StepsRecorded(db, env, chain, i) && 0 < i
    ensures FileRank(env, ContentOf(db, chain[i - 1], f), ContentOf(db, chain[i], f))
         <= MaxRank(db.events, db.tags[chain[0]].moduleId, chain[i])
  {
    var t, m := chain[i], db.tags[chain[0]].moduleId;
    assert OfModule(db, m, t) && Recorded(db, env, chain[i]);
    var p :| IsPrevious(db, t, p) && RowsExact(RowsOf(db.events, t), TagChanges(db, env, p, t));
    NeighboursOnChain(db, chain, i, p);
    var changes := TagChanges(db, env, p, t);
    assert changes(f) == FileChange(env, ContentOf(db, chain[i - 1], f), ContentOf(db, t, f));
    if changes(f).Some? {
      ChangeIsCovered(db.events, m, t, changes, f);
    }
  }

  lemma HopIsFileRank(db: Db, env: Env, chain: seq<Id>, i: nat, f: string)
    requires 0 < i < |chain|
    ensures ChainDistance(db, env, chain, f)(i - 1, i) == FileRank(env, ContentOf(db, chain[i - 1], f), ContentOf(db, chain[i], f))
  {
  }

  /** The worst rank recorded on the first k newer tags. */
  function WorstRecorded(db: Db, m: Id, chain: seq<Id>, k: nat): nat
    requires k < |chain|
  {
    if k == 0 then 0 else Max(WorstRecorded(db, m, chain, k - 1), MaxRank(db.events, m, chain[k]))
  }

  lemma {:induction false} HopsAreRecorded(db: Db, m: Id, chain: seq<Id>, d: (nat, nat) -> nat, k: nat)
    requires k < |chain|
    requires forall i: nat :: 0 < i <= k ==> d(i - 1, i) <= MaxRank(db.events, m, chain[i])
    ensures WorstHop(d, k) <= WorstRecorded(db, m, chain, k)
  {
    if k > 0 {
      HopsAreRecorded(db, m, chain, d, k - 1);
      assert d(k - 1, k) <= MaxRank(db.events, m, chain[k]);
    }
  }

  /**
   No breaking change is hidden by stepwise advice: for every file, the direct comparison of the pinned
   tag with the k-th newer tag is at most the worst severity recorded on the k steps in between.
   */
  lemma AdviceIsSound(db: Db, env: Env, chain: seq<Id>, k: nat, f: string)
    requires Consistent(db, env) && StepsRecorded(db, env, chain, k) && 0 < k
    requires CollisionFree(env) && ParsesHaveBodies(db, env)
    ensures FileRank(env, ContentOf(db, chain[0], f), ContentOf(db, chain[k], f))
         <= WorstRecorded(db, db.tags[chain[0]].moduleId, chain, k)
  {
    var d, m := ChainDistance(db, env, chain, f), db.tags[chain[0]].moduleId;
    forall i | 0 < i < k
      ensures ContentHasBody(db, env, chain[i], f)
    {
      assert Recorded(db, env, chain[i]);
      ContentIsParsed(db, env, chain[i], f);
    }
    DirectWithinHops(db, env, chain, k, f);
    StepsAreRecorded(db, env, chain, k, f);
    HopsAreRecorded(db, m, chain, d, k);
  }

  ghost predicate ContentHasBody(db: Db, env: Env, t: Id, f: string) {
    ContentOf(db, t, f).Some? ==> IsParsed(env.Parse(ContentOf(db, t, f).value))
  }

  lemma DirectWithinHops(db: Db, env: Env, chain: seq<Id>, k: nat, f: string)
    requires CollisionFree(env) && 0 < k < |chain|
    requires forall i :: 0 < i < k ==> ContentHasBody(db, env, chain[i], f)
    ensures ChainDistance(db, env, chain, f)(0, k) <= WorstHop(ChainDistance(db, env, chain, f), k)
  {
    var d := ChainDistance(db, env, chain, f);
    forall i: nat | 0 < i < k
      ensures d(0, i + 1) <= Max(d(0, i), d(i, i + 1))
    {
      assert ContentHasBody(db, env, chain[i], f);
      ChainTriangle(db, env, chain, i, f);
    }
    ChainBound(d, k);
  }

  lemma StepsAreRecorded(db: Db, env: Env, chain: seq<Id>, k: nat, f: string)
    requires EventsAnchored(db) && StepsRecorded(db, env, chain, k)
    ensures forall i: nat :: 0 < i <= k ==>
              ChainDistance(db, env, chain, f)(i - 1, i) <= MaxRank(db.events, db.tags[chain[0]].moduleId, chain[i])
  {
    forall i: nat | 0 < i <= k
      ensures ChainDistance(db, env, chain, f)(i - 1, i) <= MaxRank(db.events, db.tags[chain[0]].moduleId, chain[i])
    {
      StepIsRecorded(db, env, chain, i, f);
      HopIsFileRank(db, env, chain, i, f);
    }
  }

  lemma ContentIsParsed(db: Db, env: Env, t: Id, f: string)
    requires Consistent(db, env) && ParsesHaveBodies(db, env) && t in db.tags && db.tags[t].processed
    ensures ContentHasBody(db, env, t, f)
  {
    ContentsAt(db, t, f);
    if FileKey(t, f) in db.files {
      assert IsParsedFrom(db, env, FileKey(t, f));
    }
  }

  lemma ChainTriangle(db: Db, env: Env, chain: seq<Id>, i: nat, f: string)
    requires CollisionFree(env) && 0 < i < |chain| - 1
    requires ContentHasBody(db, env, chain[i], f)
    ensures var d := ChainDistance(db, env, chain, f); d(0, i + 1) <= Max(d(0, i), d(i, i + 1))
  {
    FileTriangle(env, ContentOf(db, chain[0], f), ContentOf(db, chain[i], f), ContentOf(db, chain[i + 1], f));
  }

  /** The parser never returns a file without a body. */
  ghost predicate ParsesHaveBodies(db: Db, env: Env) {
    forall k :: k in db.files && env.Parse(db.files[k].content).Some? ==> IsParsed(env.Parse(db.files[k].content))
  }

  /** If every status up to the k-th newer tag suggests the update, the direct comparison has only info events. */
  lemma SuggestedUpdatesAreSafe(db: Db, env: Env, chain: seq<Id>, k: nat, f: string)
    requires Consistent(db, env) && StepsRecorded(db, env, chain, k) && 0 < k
    requires CollisionFree(env) && ParsesHaveBodies(db, env)
    requires forall i :: 0 < i <= k ==>
               RecommendationFrom(SeverityFromRank(MaxRank(db.events, db.tags[chain[0]].moduleId, chain[i]))) == SuggestUpdate
    ensures FileRank(env, ContentOf(db, chain[0], f), ContentOf(db, chain[k], f)) <= Rank(Info)
  {
    AdviceIsSound(db, env, chain, k, f);
    SuggestedIsInfo(db, db.tags[chain[0]].moduleId, chain, k);
  }

  lemma {:induction false} SuggestedIsInfo(db: Db, m: Id, chain: seq<Id>, k: nat)
    requires k < |chain|
    requires forall i :: 0 < i <= k ==> RecommendationFrom(SeverityFromRank(MaxRank(db.events, m, chain[i]))) == SuggestUpdate
    ensures WorstRecorded(db, m, chain, k) <= 1
  {
    if k > 0 {
      SuggestedIsInfo(db, m, chain, k - 1);
      MaxRankBound(db.events, m, chain[k]);
    }
  }
}
