/**
 Registries in which the records go wrong.  A module with one file in three
 versions shows what deleting the middle one can hide, for every pair of ranks;
 a module whose newest file the daemon cannot interpret shows what a stopped run
 can hide.
 */
module Counterexample {
  import opened Base
  import opened Proto
  import opened Severity
  import opened Extract
  import opened Chains
  import opened Events
  import opened Store
  import opened Registry
  import opened Drift
  import opened Daemon
  import opened Advice
  import opened Frames
  import opened Deletes
  import opened Stops

  // ---------------------------------------------------------------------------
  // One file in three versions

  /** The row that the daemon records for one file between two versions, if any. */
  function StepRows(env: Env, id: Id, t: Id, x: string, y: string): seq<PgRow> {
    match FileChange(env, Some(x), Some(y))
    case None => []
    case Some(c) => [PgRowOf(id, EventOf(0, t, 4, "f", c))]
  }

  function ThreeTags(): map<Id, TagRow> {
    map[1 := TagRow(0, "v1", 1, true), 2 := TagRow(0, "v2", 2, true), 3 := TagRow(0, "v3", 3, true)]
  }

  function ThreeFiles(env: Env, x: string, y: string, z: string): map<FileKey, FileRow> {
    map[FileKey(1, "f") := FileRow(x, Some(env.hash(x))), FileKey(2, "f") := FileRow(y, Some(env.hash(y))),
        FileKey(3, "f") := FileRow(z, Some(env.hash(z)))]
  }

  function ThreeVersions(env: Env, x: string, y: string, z: string): Db
    requires env.Parse(x).Some? && env.Parse(y).Some? && env.Parse(z).Some?
  {
    Db(9, map["m" := 0], ThreeTags(), ThreeFiles(env, x, y, z), map[], {},
       map[FileKey(1, "f") := env.Parse(x).value, FileKey(2, "f") := env.Parse(y).value, FileKey(3, "f") := env.Parse(z).value],
       StepRows(env, 7, 2, x, y) + StepRows(env, 8, 3, y, z))
  }

  ghost predicate IsThree(db: Db, env: Env, x: string, y: string, z: string) {
    && env.Parse(x).Some? && env.Parse(y).Some? && env.Parse(z).Some? && db == ThreeVersions(env, x, y, z)
  }

  lemma ThreeContents(db: Db, env: Env, x: string, y: string, z: string, t: Id, f: string)
    requires IsThree(db, env, x, y, z)
    ensures ContentOf(db, t, f) ==
            if f == "f" && t == 1 then Some(x) else if f == "f" && t == 2 then Some(y)
            else if f == "f" && t == 3 then Some(z) else None
  {
    ContentsAt(db, t, f);
  }

  lemma StepRowsOf(env: Env, id: Id, t: Id, x: string, y: string, s: Id)
    ensures RowsOf(StepRows(env, id, t, x, y), s) == if s == t then StepRows(env, id, t, x, y) else []
    ensures forall r :: r in StepRows(env, id, t, x, y) ==>
              r.tagId == t && r.moduleId == 0 && FileChange(env, Some(x), Some(y)) == Some(RowChange(r))
  {
    RowsOfUniform(StepRows(env, id, t, x, y), t, s);
  }

  lemma ThreeRows(db: Db, env: Env, x: string, y: string, z: string)
    requires IsThree(db, env, x, y, z)
    ensures RowsOf(db.events, 1) == [] && RowsOf(db.events, 2) == StepRows(env, 7, 2, x, y)
    ensures RowsOf(db.events, 3) == StepRows(env, 8, 3, y, z)
  {
    forall t: Id
      ensures RowsOf(db.events, t) == (if t == 2 then StepRows(env, 7, 2, x, y) else []) +
                                      (if t == 3 then StepRows(env, 8, 3, y, z) else [])
    {
      RowsOfConcat(StepRows(env, 7, 2, x, y), StepRows(env, 8, 3, y, z), t);
      StepRowsOf(env, 7, 2, x, y, t);
      StepRowsOf(env, 8, 3, y, z, t);
    }
  }

  /** With one row or none on the tag, the recorded rank is that of the change. */
  lemma RankOfStep(table: seq<PgRow>, env: Env, id: Id, t: Id, x: string, y: string)
    requires RowsOf(table, t) == StepRows(env, id, t, x, y)
    ensures MaxRank(table, 0, t) == FileRank(env, Some(x), Some(y))
  {
    var rows := StepRows(env, id, t, x, y);
    StepRowsOf(env, id, t, x, y, t);
    RowsOfMembers(table, t);
    MaxRankBound(table, 0, t);
    if rows != [] {
      assert rows[0] in rows;
      MaxRankCovers(table, 0, t, rows[0]);
    }
  }

  lemma ThreePrevious(db: Db)
    requires db.tags == ThreeTags()
    ensures IsPrevious(db, 1, None) && IsPrevious(db, 2, Some(1)) && IsPrevious(db, 3, Some(2))
  {
  }

  /** The tag has one file. */
  ghost predicate Holds(db: Db, t: Id, text: string) {
    forall f :: ContentOf(db, t, f) == if f == "f" then Some(text) else None
  }

  lemma OneChangeExact(rows: seq<PgRow>, changes: Changes, c: Option<Change>)
    requires forall f :: changes(f) == if f == "f" then c else None
    requires if c.None? then rows == [] else |rows| == 1 && rows[0].filename == "f" && RowChange(rows[0]) == c.value
    ensures RowsExact(rows, changes)
  {
    if c.Some? {
      assert rows == [rows[0]] && rows[0] in rows;
    }
  }

  /** Two tags that hold one file each: its row, if any, is an exact record. */
  lemma OneFileExact(db: Db, env: Env, p: Id, t: Id, x: string, y: string, id: Id)
    requires Holds(db, p, x) && Holds(db, t, y)
    ensures RowsExact(StepRows(env, id, t, x, y), TagChanges(db, env, Some(p), t))
  {
    var changes, c := TagChanges(db, env, Some(p), t), FileChange(env, Some(x), Some(y));
    forall f
      ensures changes(f) == if f == "f" then c else None
    {
      OneFileChange(db, env, p, t, x, y, f);
    }
    OneChangeExact(StepRows(env, id, t, x, y), changes, c);
  }

  lemma OneFileChange(db: Db, env: Env, p: Id, t: Id, x: string, y: string, f: string)
    requires Holds(db, p, x) && Holds(db, t, y)
    ensures TagChanges(db, env, Some(p), t)(f) == if f == "f" then FileChange(env, Some(x), Some(y)) else None
  {
    assert ContentOf(db, p, f) == (if f == "f" then Some(x) else None) && ContentOf(db, t, f) == if f == "f" then Some(y) else None;
  }

  lemma StepExact(db: Db, env: Env, p: Id, t: Id, x: string, y: string, id: Id)
    requires t in db.tags && IsPrevious(db, t, Some(p)) && RowsOf(db.events, t) == StepRows(env, id, t, x, y)
    requires Holds(db, p, x) && Holds(db, t, y)
    ensures ExactFor(db, env, t)
  {
    OneFileExact(db, env, p, t, x, y, id);
  }

  lemma FirstExact(db: Db, env: Env, t: Id)
    requires t in db.tags && IsPrevious(db, t, None) && RowsOf(db.events, t) == []
    ensures ExactFor(db, env, t)
  {
    assert RowsExact([], TagChanges(db, env, None, t));
  }

  /** What matters about the three versions. */
  ghost predicate AreThree(db: Db, env: Env, x: string, y: string, z: string) {
    && Consistent(db, env) && db.tags == ThreeTags()
    && Holds(db, 1, x) && Holds(db, 2, y) && Holds(db, 3, z)
    && RowsOf(db.events, 1) == [] && RowsOf(db.events, 2) == StepRows(env, 7, 2, x, y)
    && RowsOf(db.events, 3) == StepRows(env, 8, 3, y, z)
  }

  lemma ThreeHold(db: Db, env: Env, x: string, y: string, z: string)
    requires IsThree(db, env, x, y, z)
    ensures Holds(db, 1, x) && Holds(db, 2, y) && Holds(db, 3, z)
  {
    forall t: Id, f | 1 <= t <= 3
      ensures ContentOf(db, t, f) == if f == "f" then Some(if t == 1 then x else if t == 2 then y else z) else None
    {
      ThreeContents(db, env, x, y, z, t, f);
    }
  }

  lemma ThreeKeys(db: Db, env: Env, x: string, y: string, z: string)
    requires IsThree(db, env, x, y, z)
    ensures forall k :: k in db.files ==> 1 <= k.tagId <= 3
    ensures forall k :: k in db.parsed ==> 1 <= k.tagId <= 3
  {
  }

  lemma ThreeAreFresh(db: Db)
    requires db.nextId == 9 && db.tags == ThreeTags() && db.modules == map["m" := 0] && db.edges == {}
    requires forall k :: k in db.parsed ==> 1 <= k.tagId <= 3
    ensures FreshIds(db)
  {
  }

  lemma ThreeReferences(db: Db, env: Env, x: string, y: string, z: string)
    requires IsThree(db, env, x, y, z)
    ensures UniqueRows(db) && FreshIds(db) && NoOrphans(db)
  {
    ThreeKeys(db, env, x, y, z);
    ThreeAreUnique(db);
    ThreeAreFresh(db);
    ThreeHaveParents(db);
  }

  lemma ThreeHaveParents(db: Db)
    requires db.tags == ThreeTags() && db.modules == map["m" := 0] && db.drafts == map[] && db.edges == {}
    requires forall k :: k in db.files ==> 1 <= k.tagId <= 3
    ensures NoOrphans(db)
  {
    assert db.modules["m"] == 0;
  }

  lemma ThreeAreUnique(db: Db)
    requires db.tags == ThreeTags() && db.modules == map["m" := 0]
    ensures UniqueRows(db)
  {
    assert db.tags.Keys == {1, 2, 3} && db.modules.Keys == {"m"};
  }

  lemma ThreeFileRows(db: Db, env: Env, x: string, y: string, z: string)
    requires IsThree(db, env, x, y, z)
    ensures HashesAreTrue(db, env) && ParsesAreTrue(db, env)
  {
  }

  lemma TwoRows(db: Db, a: seq<PgRow>, b: seq<PgRow>)
    requires db.tags == ThreeTags() && db.events == a + b && |a| <= 1 && |b| <= 1
    requires (forall r :: r in a ==> r.tagId == 2 && r.moduleId == 0) && forall r :: r in b ==> r.tagId == 3 && r.moduleId == 0
    ensures EventsAnchored(db) && DistinctKeys(db.events)
  {
    assert forall i :: 0 <= i < |a| ==> a[i] in a;
    assert forall i :: 0 <= i < |b| ==> b[i] in b;
  }

  lemma ThreeEventRows(db: Db, env: Env, x: string, y: string, z: string)
    requires IsThree(db, env, x, y, z)
    ensures EventsAnchored(db) && DistinctKeys(db.events)
  {
    StepRowsOf(env, 7, 2, x, y, 2);
    StepRowsOf(env, 8, 3, y, z, 3);
    TwoRows(db, StepRows(env, 7, 2, x, y), StepRows(env, 8, 3, y, z));
  }

  lemma ThreeIsConsistent(db: Db, env: Env, x: string, y: string, z: string)
    requires IsThree(db, env, x, y, z)
    ensures Consistent(db, env)
  {
    ThreeReferences(db, env, x, y, z);
    ThreeFileRows(db, env, x, y, z);
    ThreeEventRows(db, env, x, y, z);
  }

  lemma ThreeAreThree(db: Db, env: Env, x: string, y: string, z: string)
    requires IsThree(db, env, x, y, z)
    ensures AreThree(db, env, x, y, z)
  {
    ThreeIsConsistent(db, env, x, y, z);
    ThreeHold(db, env, x, y, z);
    ThreeRows(db, env, x, y, z);
  }

  lemma ThreeChain(db: Db)
    requires db.tags == ThreeTags()
    ensures IsChain(db, [1, 2, 3]) && DistinctTimes(db, 0)
  {
    var chain := [1, 2, 3];
    assert chain[0] == 1 && chain[1] == 2 && chain[2] == 3;
    assert db.tags.Keys == {1, 2, 3};
  }

  lemma ThreeAreExact(db: Db, env: Env, x: string, y: string, z: string)
    requires AreThree(db, env, x, y, z)
    ensures ExactFor(db, env, 2) && ExactFor(db, env, 3)
  {
    ThreePrevious(db);
    StepExact(db, env, 1, 2, x, y, 7);
    StepExact(db, env, 2, 3, y, z, 8);
  }

  lemma ChainItems(chain: seq<Id>)
    requires chain == [1, 2, 3]
    ensures |chain| == 3 && chain[0] == 1 && chain[1] == 2 && chain[2] == 3
  {
  }

  lemma TwoStepsRecorded(db: Db, env: Env, chain: seq<Id>)
    requires IsChain(db, chain) && |chain| == 3 && DistinctTimes(db, db.tags[chain[0]].moduleId)
    requires Recorded(db, env, chain[1]) && Recorded(db, env, chain[2])
    ensures StepsRecorded(db, env, chain, 2)
  {
  }

  lemma ThreeAreRecorded(db: Db, env: Env, chain: seq<Id>, x: string, y: string, z: string)
    requires AreThree(db, env, x, y, z) && chain == [1, 2, 3]
    ensures StepsRecorded(db, env, chain, 2)
  {
    ThreeChain(db);
    ChainItems(chain);
    ThreeAreExact(db, env, x, y, z);
    TwoStepsRecorded(db, env, chain);
  }

  lemma ThreeRanks(db: Db, env: Env, x: string, y: string, z: string)
    requires AreThree(db, env, x, y, z)
    ensures MaxRank(db.events, 0, 2) == FileRank(env, Some(x), Some(y)) && MaxRank(db.events, 0, 3) == FileRank(env, Some(y), Some(z))
  {
    RankOfStep(db.events, env, 7, 2, x, y);
    RankOfStep(db.events, env, 8, 3, y, z);
  }

  /** After the middle tag has gone: the later step is all there is to see of the way from the first to the third. */
  lemma WithoutMiddle(db: Db, after: Db, rest: seq<Id>, x: string, z: string)
    requires db.tags == ThreeTags() && Holds(db, 1, x) && Holds(db, 3, z) && TagDeleted(db, after, 2) && rest == [1, 3]
    ensures WorstRecorded(after, 0, rest, 1) == MaxRank(db.events, 0, 3)
    ensures ContentOf(after, rest[0], "f") == Some(x) && ContentOf(after, rest[1], "f") == Some(z)
  {
    AnchoredMaxRank(db.events, after.tags, 0, 3);
    assert WorstRecorded(after, 0, rest, 0) == 0 && rest[1] == 3;
    assert ContentOf(db, 1, "f") == Some(x) && ContentOf(db, 3, "f") == Some(z);
  }

  // ---------------------------------------------------------------------------
  // What a delete can hide

  /** Something of the way to position k is worse than the s that is recorded on it. */
  ghost predicate Conceals(db: Db, env: Env, m: Id, chain: seq<Id>, k: nat, f: string, s: nat)
    requires k < |chain|
  {
    WorstRecorded(db, m, chain, k) == s && FileRank(env, ContentOf(db, chain[0], f), ContentOf(db, chain[k], f)) > s
  }

  /** Deleting position j of the chain hides something of the way to position k: its record was r, what remains is s. */
  ghost predicate Hides(db: Db, env: Env, chain: seq<Id>, j: nat, k: nat, f: string, r: nat, s: nat) {
    && Consistent(db, env) && CollisionFree(env) && ParsesHaveBodies(db, env)
    && StepsRecorded(db, env, chain, k) && 0 < j < k
    && var m := db.tags[chain[0]].moduleId;
       && MaxRank(db.events, m, chain[j]) == r
       && Conceals(DeleteTagUpTo(db, chain[j], 3), env, m, Without(chain, j), k - 1, f, s)
  }

  ghost predicate CanHide(r: nat, s: nat) {
    exists db, env, chain, j: nat, k: nat, f :: Hides(db, env, chain, j, k, f, r, s)
  }

  lemma HidingIsBounded(db: Db, env: Env, chain: seq<Id>, j: nat, k: nat, f: string, r: nat, s: nat)
    requires Hides(db, env, chain, j, k, f, r, s)
    ensures s < r <= 3
  {
    AdviceAfterDelete(db, env, chain, j, k, f);
    MaxRankBound(db.events, db.tags[chain[0]].moduleId, chain[j]);
  }

  lemma ThreeConceal(db: Db, env: Env, after: Db, rest: seq<Id>, x: string, y: string, z: string, s: nat)
    requires AreThree(db, env, x, y, z) && TagDeleted(db, after, 2) && rest == [1, 3]
    requires FileRank(env, Some(y), Some(z)) == s < FileRank(env, Some(x), Some(z))
    ensures Conceals(after, env, 0, rest, 1, "f", s)
  {
    ThreeRanks(db, env, x, y, z);
    WithoutMiddle(db, after, rest, x, z);
  }

  lemma MiddleDropped(chain: seq<Id>)
    requires chain == [1, 2, 3]
    ensures Without(chain, 1) == [1, 3]
  {
  }

  lemma ThreeHides(db: Db, env: Env, chain: seq<Id>, x: string, y: string, z: string, r: nat, s: nat)
    requires AreThree(db, env, x, y, z) && CollisionFree(env) && ParsesHaveBodies(db, env) && chain == [1, 2, 3]
    requires FileRank(env, Some(x), Some(y)) == r && FileRank(env, Some(y), Some(z)) == s < FileRank(env, Some(x), Some(z))
    ensures CanHide(r, s)
  {
    ThreeAreRecorded(db, env, chain, x, y, z);
    ThreeRanks(db, env, x, y, z);
    var after, rest := DeleteTagUpTo(db, chain[1], 3), Without(chain, 1);
    DeletedTables(db, chain[1]);
    MiddleDropped(chain);
    ThreeConceal(db, env, after, rest, x, y, z, s);
    HidesInThree(db, env, chain, after, rest, r, s);
  }

  lemma HidesInThree(db: Db, env: Env, chain: seq<Id>, after: Db, rest: seq<Id>, r: nat, s: nat)
    requires Consistent(db, env) && CollisionFree(env) && ParsesHaveBodies(db, env)
    requires StepsRecorded(db, env, chain, 2) && |chain| == 3 && db.tags[chain[0]].moduleId == 0 && MaxRank(db.events, 0, chain[1]) == r
    requires after == DeleteTagUpTo(db, chain[1], 3) && rest == Without(chain, 1) && Conceals(after, env, 0, rest, 1, "f", s)
    ensures CanHide(r, s)
  {
    assert Hides(db, env, chain, 1, 2, "f", r, s);
  }

  // Files and texts

  const OLD := ProtoBody(["x"], [], [], [])
  const NEW := ProtoBody(["y"], [], [], [])

  const DEMANDING := [Message("M", Some(MessageBody([Field("f", "int32", "1", true)], [], [], [])))]

  /** The text "a" is the old file, "b" the new one, "r" and "w" are those with a required field; a second letter is a comment. */
  function Interpreted(text: string): Option<ProtoFile> {
    if text == "" || text == "bad" then None
    else if text[0] == 'a' then Some(ProtoFile(Some(OLD)))
    else if text[0] == 'b' then Some(ProtoFile(Some(NEW)))
    else if text[0] == 'r' then Some(ProtoFile(Some(OLD.(messages := DEMANDING))))
    else Some(ProtoFile(Some(NEW.(messages := DEMANDING))))
  }

  function ExampleEnv(): Env {
    Env(_ => true, Interpreted, s => s)
  }

  lemma DemandingIsRequired()
    ensures RequiredIn(DEMANDING) == 1 && RequiredIn([]) == 0
  {
    var fields := DEMANDING[0].body.value.fields;
    assert fields[..0] == [] && RequiredAmong(fields) == 1;
    assert DEMANDING[..0] == [];
    assert RequiredOfMessage(DEMANDING[0]) == 1;
  }

  lemma ContractOfEmpty(package: string)
    ensures var c := ContractOf(ProtoBody([package], [], [], []));
            c.package == package && c.required == 0 &&
            forall d: Contract :: d.package == package ==> Honours(c, d) && !Renames(c, d)
  {
  }

  lemma AddingDemands(b: ProtoBody, package: string)
    requires b == ProtoBody([package], [], [], [])
    ensures SeverityOf(Some(ProtoFile(Some(b))), Some(ProtoFile(Some(b.(messages := DEMANDING))))) == Warning
  {
    ContractOfEmpty(package);
    DemandingIsRequired();
  }

  lemma ChangingPackage(a: ProtoBody, b: ProtoBody)
    requires a.packages == ["x"] && b.packages == ["y"]
    ensures SeverityOf(Some(ProtoFile(Some(a))), Some(ProtoFile(Some(b)))) == Critical
  {
  }

  /** Different texts differ by the severity of their files, equal ones by nothing. */
  lemma RankOf(x: string, y: string)
    requires Interpreted(x).Some? && Interpreted(y).Some?
    ensures FileRank(ExampleEnv(), Some(x), Some(y)) == if x == y then 0 else Rank(SeverityOf(Interpreted(x), Interpreted(y)))
  {
  }

  lemma ExampleRanks(x: string, y: string, z: string)
    requires x == "a" && (y == "a2" || y == "r" || y == "b")
    requires z == y || (y == "r" && z == "r2") || (y == "b" && (z == "b2" || z == "w"))
    ensures var env, r := ExampleEnv(), if y == "a2" then 1 else if y == "r" then 2 else 3;
            && FileRank(env, Some(x), Some(y)) == r && FileRank(env, Some(x), Some(z)) == r
            && FileRank(env, Some(y), Some(z)) == if z == y then 0 else if z == "w" then 2 else 1
  {
    RankOf(x, y);
    RankOf(x, z);
    RankOf(y, z);
    MildSeverities();
    DemandingSeverities();
    BreakingSeverities();
  }

  lemma Interpretations()
    ensures Interpreted("a") == Interpreted("a2") == Some(ProtoFile(Some(OLD)))
    ensures Interpreted("b") == Interpreted("b2") == Some(ProtoFile(Some(NEW)))
    ensures Interpreted("r") == Interpreted("r2") == Some(ProtoFile(Some(OLD.(messages := DEMANDING))))
    ensures Interpreted("w") == Some(ProtoFile(Some(NEW.(messages := DEMANDING))))
  {
  }

  lemma MildSeverities()
    ensures SeverityOf(Interpreted("a"), Interpreted("a2")) == Info
    ensures SeverityOf(Interpreted("r"), Interpreted("r2")) == Info
    ensures SeverityOf(Interpreted("b"), Interpreted("b2")) == Info
  {
    Interpretations();
    SelfComparison(Interpreted("a"));
    SelfComparison(Interpreted("b"));
    SelfComparison(Interpreted("r"));
  }

  lemma DemandingSeverities()
    ensures SeverityOf(Interpreted("a"), Interpreted("r")) == SeverityOf(Interpreted("a"), Interpreted("r2")) == Warning
    ensures SeverityOf(Interpreted("b"), Interpreted("w")) == Warning
  {
    Interpretations();
    AddingDemands(OLD, "x");
    AddingDemands(NEW, "y");
  }

  lemma BreakingSeverities()
    ensures SeverityOf(Interpreted("a"), Interpreted("b")) == SeverityOf(Interpreted("a"), Interpreted("b2")) == Critical
    ensures SeverityOf(Interpreted("a"), Interpreted("w")) == Critical
  {
    Interpretations();
    ChangingPackage(OLD, NEW);
    ChangingPackage(OLD, NEW.(messages := DEMANDING));
  }

  lemma ExampleParses(x: string, y: string, z: string)
    requires Interpreted(x).Some? && Interpreted(y).Some? && Interpreted(z).Some?
    ensures IsThree(ThreeVersions(ExampleEnv(), x, y, z), ExampleEnv(), x, y, z)
    ensures CollisionFree(ExampleEnv()) && ParsesHaveBodies(ThreeVersions(ExampleEnv(), x, y, z), ExampleEnv())
  {
  }

  /** The witness: three texts with the wanted ranks. */
  lemma ExampleHides(x: string, y: string, z: string, r: nat, s: nat)
    requires Interpreted(x).Some? && Interpreted(y).Some? && Interpreted(z).Some?
    requires FileRank(ExampleEnv(), Some(x), Some(y)) == r
    requires FileRank(ExampleEnv(), Some(y), Some(z)) == s < FileRank(ExampleEnv(), Some(x), Some(z))
    ensures CanHide(r, s)
  {
    ExampleParses(x, y, z);
    ThreeAreThree(ThreeVersions(ExampleEnv(), x, y, z), ExampleEnv(), x, y, z);
    ThreeHides(ThreeVersions(ExampleEnv(), x, y, z), ExampleEnv(), [1, 2, 3], x, y, z, r, s);
  }

  /** Texts whose ranks are r on the first step, s on the second, and r from end to end. */
  lemma ExampleTexts(r: nat, s: nat) returns (x: string, y: string, z: string)
    requires s < r <= 3
    ensures Interpreted(x).Some? && Interpreted(y).Some? && Interpreted(z).Some?
    ensures FileRank(ExampleEnv(), Some(x), Some(y)) == FileRank(ExampleEnv(), Some(x), Some(z)) == r
    ensures FileRank(ExampleEnv(), Some(y), Some(z)) == s
  {
    x := "a";
    y := if r == 1 then "a2" else if r == 2 then "r" else "b";
    z := if s == 0 then y else if s == 2 then "w" else if r == 2 then "r2" else "b2";
    ExampleRanks(x, y, z);
  }

  /**
   Exactly when a delete can make the advice wrong: there is a registry with exact records in which
   deleting a tag with recorded rank r leaves rank s to be seen and hides something worse, if and only
   if s is below r.  So the advice stays right whenever what remains is no better than what goes.
   */
  lemma CanHideIff(r: nat, s: nat)
    ensures CanHide(r, s) <==> s < r <= 3
  {
    if CanHide(r, s) {
      var db, env, chain, j: nat, k: nat, f :| Hides(db, env, chain, j, k, f, r, s);
      HidingIsBounded(db, env, chain, j, k, f, r, s);
    }
    if s < r <= 3 {
      var x, y, z := ExampleTexts(r, s);
      ExampleHides(x, y, z, r, s);
    }
  }

  /** In particular a critical change can end up advised as info. */
  lemma DeleteHidesBreakingChange()
    ensures CanHide(Rank(Critical), Rank(Info))
  {
    CanHideIff(Rank(Critical), Rank(Info));
  }

  // ---------------------------------------------------------------------------
  // What a stopped run can hide

  /** Two versions, a run on the first, and then a file whose syntax is correct but that has no interpretation. */
  function StopSteps(): seq<Step> {
    [DoRegister("m"), DoPush("m", "v1", [SourceFile("f", "a")], 1), DoParse(1), DoHash(1),
     DoPush("m", "v2", [SourceFile("f", "b")], 2), DoPush("m", "v3", [SourceFile("f", "bad")], 3)]
  }

  lemma RunNext(env: Env, steps: seq<Step>, k: nat)
    requires k < |steps|
    ensures Run(EMPTY, env, steps[..k + 1]) == Apply(Run(EMPTY, env, steps[..k]), env, steps[k])
  {
    assert steps[..k + 1][..k] == steps[..k];
  }

  lemma PushOne(db: Db, name: string, tag: string, f: SourceFile, now: nat)
    requires name in db.modules && forall t :: t in db.tags ==> db.tags[t].name != tag
    ensures Push(db, name, tag, [f], now) ==
            db.(tags := db.tags[db.nextId := TagRow(db.modules[name], tag, now, false)],
                files := db.files[FileKey(db.nextId, f.filename) := FileRow(f.content, None)],
                nextId := db.nextId + 1)
  {
    var files := [f];
    assert files[..0] == [];
    assert NewFiles(db.nextId, files) == map[FileKey(db.nextId, f.filename) := FileRow(f.content, None)];
  }

  function OneVersion(processed: bool, hash: Option<string>, parsed: map<FileKey, ProtoFile>): Db {
    Db(2, map["m" := 0], map[1 := TagRow(0, "v1", 1, processed)], map[FileKey(1, "f") := FileRow("a", hash)],
       map[], {}, parsed, [])
  }

  function FirstParsed(): map<FileKey, ProtoFile> { map[FileKey(1, "f") := ProtoFile(Some(OLD))] }

  function TwoVersions(): Db {
    Db(3, map["m" := 0], map[1 := TagRow(0, "v1", 1, true), 2 := TagRow(0, "v2", 2, false)],
       map[FileKey(1, "f") := FileRow("a", Some("a")), FileKey(2, "f") := FileRow("b", None)], map[], {}, FirstParsed(), [])
  }

  function StopTags(): map<Id, TagRow> {
    map[1 := TagRow(0, "v1", 1, true), 2 := TagRow(0, "v2", 2, false), 3 := TagRow(0, "v3", 3, false)]
  }

  function StopDb(): Db {
    Db(4, map["m" := 0], StopTags(),
       map[FileKey(1, "f") := FileRow("a", Some("a")), FileKey(2, "f") := FileRow("b", None), FileKey(3, "f") := FileRow("bad", None)],
       map[], {}, FirstParsed(), [])
  }

  lemma FirstPush()
    ensures Push(Register(EMPTY, "m"), "m", "v1", [SourceFile("f", "a")], 1) == OneVersion(false, None, map[])
  {
    PushOne(Register(EMPTY, "m"), "m", "v1", SourceFile("f", "a"), 1);
  }

  lemma FirstRun()
    ensures ParseTag(OneVersion(false, None, map[]), ExampleEnv(), 1) == OneVersion(true, None, FirstParsed())
    ensures HashTag(OneVersion(true, None, FirstParsed()), ExampleEnv(), 1) == OneVersion(true, Some("a"), FirstParsed())
  {
    var db := OneVersion(false, None, map[]);
    assert Parses(db, ExampleEnv(), 1) && ExampleEnv().Parse("a") == Some(ProtoFile(Some(OLD)));
  }

  lemma LaterPushes()
    ensures Push(OneVersion(true, Some("a"), FirstParsed()), "m", "v2", [SourceFile("f", "b")], 2) == TwoVersions()
    ensures Push(TwoVersions(), "m", "v3", [SourceFile("f", "bad")], 3) == StopDb()
  {
    PushOne(OneVersion(true, Some("a"), FirstParsed()), "m", "v2", SourceFile("f", "b"), 2);
    PushOne(TwoVersions(), "m", "v3", SourceFile("f", "bad"), 3);
  }

  lemma RunToTwo(env: Env, steps: seq<Step>)
    requires steps == StopSteps()
    ensures Run(EMPTY, env, steps[..2]) == OneVersion(false, None, map[])
  {
    assert steps[..0] == [];
    RunNext(env, steps, 0);
    RunNext(env, steps, 1);
    FirstPush();
  }

  lemma RunToFour(env: Env, steps: seq<Step>)
    requires env == ExampleEnv() && steps == StopSteps()
    ensures Run(EMPTY, env, steps[..4]) == OneVersion(true, Some("a"), FirstParsed())
  {
    RunToTwo(env, steps);
    RunNext(env, steps, 2);
    RunNext(env, steps, 3);
    FirstRun();
  }

  lemma RunToSix(env: Env, steps: seq<Step>)
    requires env == ExampleEnv() && steps == StopSteps()
    ensures Run(EMPTY, env, steps) == StopDb()
  {
    assert steps[..6] == steps;
    RunToFour(env, steps);
    RunNext(env, steps, 4);
    RunNext(env, steps, 5);
    LaterPushes();
  }

  lemma StopStepsAreServed(env: Env, steps: seq<Step>)
    requires env == ExampleEnv() && steps == StopSteps()
    ensures ServerSteps(env, steps)
  {
    forall s | s in steps && s.DoPush?
      ensures WellFormedRequest(env, s.name, s.tag, s.files)
    {
      assert s == steps[1] || s == steps[4] || s == steps[5];
    }
  }

  ghost predicate HasStopTables(db: Db) {
    && db.tags == StopTags() && db.events == []
    && (forall k :: k in db.files <==> k == FileKey(1, "f") || k == FileKey(2, "f") || k == FileKey(3, "f"))
    && db.files[FileKey(1, "f")].content == "a" && db.files[FileKey(2, "f")].content == "b"
    && db.files[FileKey(3, "f")].content == "bad"
  }

  lemma StopDbTables()
    ensures HasStopTables(StopDb())
  {
  }

  /** What matters about the registry before the run. */
  ghost predicate IsStopDb(db: Db, env: Env) { Consistent(db, env) && HasStopTables(db) }

  lemma StopDbIsStopDb(env: Env, steps: seq<Step>)
    requires env == ExampleEnv() && steps == StopSteps()
    ensures IsStopDb(Run(EMPTY, env, steps), env)
  {
    RunToSix(env, steps);
    StopDbTables();
    ReachableIsConsistent(env, steps);
  }

  lemma StopPrevious(db: Db)
    requires db.tags == StopTags()
    ensures IsPrevious(db, 1, None) && IsPrevious(db, 2, Some(1)) && DistinctTimes(db, 0)
    ensures forall t :: OfModule(db, 0, t) && db.tags[t].processed ==> t == 1
  {
  }

  lemma StopDbIsSound(db: Db, env: Env)
    requires IsStopDb(db, env)
    ensures Sound(db, env, 0) && IsPrevious(db, 2, Some(1))
  {
    StopPrevious(db);
    FirstExact(db, env, 1);
  }

  lemma StopUnprocessed(db: Db, ids: seq<Id>)
    requires db.tags == StopTags() && ids == [2, 3]
    ensures AreUnprocessed(db, ids) && ids[0] == 2 && ids[1] == 3 && ids[..1] == [2]
  {
    assert ids[0] == 2 && ids[1] == 3;
    assert forall t :: t in ids <==> t == 2 || t == 3;
  }

  /** The run processes v2 and stops at v3. */
  lemma StopDbStops(db: Db, env: Env, ids: seq<Id>)
    requires IsStopDb(db, env) && env == ExampleEnv() && ids == [2, 3]
    ensures var after := ParseSeq(db, env, ids[..1]);
            AreUnprocessed(db, ids) && Aborted(db, after, env) && NewlyProcessed(db, after, 0, 2) && after.events == []
  {
    StopUnprocessed(db, ids);
    StopDbParses(db, env);
    StoppedIsAborted(db, env, ids, 1);
    ParseSeqProcesses(db, env, ids[..1], 2);
  }

  lemma StopDbParses(db: Db, env: Env)
    requires IsStopDb(db, env) && env == ExampleEnv()
    ensures Parses(db, env, 2) && !Parses(db, env, 3)
  {
    assert env.Parse("b").Some? && env.Parse("bad").None?;
    assert FileKey(3, "f") in db.files;
  }

  lemma StopDbContents(db: Db)
    requires HasStopTables(db)
    ensures ContentOf(db, 1, "f") == Some("a") && ContentOf(db, 2, "f") == Some("b")
  {
    ContentIs(db, 1, "f");
    ContentIs(db, 2, "f");
  }

  lemma ContentIs(db: Db, t: Id, f: string)
    requires FileKey(t, f) in db.files
    ensures ContentOf(db, t, f) == Some(db.files[FileKey(t, f)].content)
  {
    ContentsAt(db, t, f);
  }

  lemma StopDbChange()
    ensures FileRank(ExampleEnv(), Some("a"), Some("b")) == Rank(Critical)
  {
    RankOf("a", "b");
    BreakingSeverities();
  }

  /** A run that stops hides a breaking change of tag t from the tag p before it. */
  ghost predicate StopHides(db: Db, after: Db, env: Env, m: Id, p: Id, t: Id, f: string) {
    && Sound(db, env, m) && CollisionFree(env) && Aborted(db, after, env) && NewlyProcessed(db, after, m, t)
    && IsPrevious(db, t, Some(p)) && FileRank(env, ContentOf(db, p, f), ContentOf(db, t, f)) == Rank(Critical)
    && MaxRank(after.events, m, t) == 0 && !Unchanged(db, t)
  }

  lemma StopDbHides(db: Db, env: Env, ids: seq<Id>)
    requires IsStopDb(db, env) && env == ExampleEnv() && ids == [2, 3]
    ensures AreUnprocessed(db, ids) && StopHides(db, ParseSeq(db, env, ids[..1]), env, 0, 1, 2, "f")
  {
    StopDbIsSound(db, env);
    StopDbStops(db, env, ids);
    StopDbContents(db);
    StopDbChange();
    assert !SameVersion(db, 1, 2);
  }

  /**
   Pushed through the server alone, with every record exact: the run that stops at the third version
   leaves the second one processed, breaking and without a record.
   */
  lemma StoppedRunHidesBreakingChange(env: Env, steps: seq<Step>, ids: seq<Id>)
    requires env == ExampleEnv() && steps == StopSteps() && ids == [2, 3]
    ensures var db := Run(EMPTY, env, steps);
            && ServerSteps(env, steps) && AreUnprocessed(db, ids)
            && StopHides(db, ParseSeq(db, env, ids[..1]), env, 0, 1, 2, "f")
  {
    StopStepsAreServed(env, steps);
    StopDbIsStopDb(env, steps);
    StopDbHides(Run(EMPTY, env, steps), env, ids);
  }
}
