/**
 The two ways of storing a content hash: Postgres keeps NULL until a file has
 been hashed, SQLite keeps the empty text.  Hashing keeps the two in step; the
 queries agree exactly as long as no stored content hashes to the empty text.
 */
module HashColumns {
  import opened Base
  import opened Events
  import opened Store
  import opened Drift
  import opened Daemon

  datatype LiteFileRow = LiteFileRow(content: string, contentHash: string)

  type LiteFiles = map<FileKey, LiteFileRow>

  /** The same files in the other encoding. */
  function Encoded(files: map<FileKey, FileRow>): LiteFiles {
    map k | k in files :: LiteFileRow(files[k].content, Coalesce(files[k].hash))
  }

  /** The SQLite transaction: files of the tag with an empty hash are hashed. */
  function LiteHashTag(files: LiteFiles, env: Env, tagId: Id): LiteFiles {
    map k | k in files ::
      if k.tagId == tagId && files[k].contentHash == "" then files[k].(contentHash := env.hash(files[k].content)) else files[k]
  }

  /** `SELECT filename, content_hash ... WHERE tag_id = ? AND content_hash != ''`. */
  function LiteHashesOf(files: LiteFiles, tagId: Id): map<string, string> {
    map f | f in (set k | k in files && k.tagId == tagId && files[k].contentHash != "" :: k.filename) ::
      files[FileKey(tagId, f)].contentHash
  }

  /** `SELECT DISTINCT tag_id ... WHERE content_hash = ''`, and the same with NULL. */
  predicate LiteLacksHash(files: LiteFiles, tagId: Id) {
    exists k :: k in files && k.tagId == tagId && files[k].contentHash == ""
  }

  predicate LacksHash(files: map<FileKey, FileRow>, tagId: Id) {
    exists k :: k in files && k.tagId == tagId && files[k].hash.None?
  }

  /** Hashing a tag does the same in both encodings, whatever the hash function. */
  lemma HashingAgrees(db: Db, env: Env, tagId: Id)
    requires HashesAreTrue(db, env)
    ensures LiteHashTag(Encoded(db.files), env, tagId) == Encoded(HashTag(db, env, tagId).files)
  {
  }

  ghost predicate QueriesAgree(db: Db) {
    && (forall t :: LiteHashesOf(Encoded(db.files), t) == HashesOf(db, t))
    && (forall t :: LiteLacksHash(Encoded(db.files), t) <==> LacksHash(db.files, t))
  }

  lemma LiteHashesAt(files: LiteFiles, t: Id, f: string)
    ensures f in LiteHashesOf(files, t) <==> FileKey(t, f) in files && files[FileKey(t, f)].contentHash != ""
  {
    assert FileKey(t, f).filename == f;
  }

  lemma HashesAt(db: Db, t: Id, f: string)
    ensures f in HashesOf(db, t) <==> FileKey(t, f) in db.files && db.files[FileKey(t, f)].hash.Some?
  {
    assert FileKey(t, f).filename == f;
  }

  lemma TagQueriesAgree(db: Db, t: Id)
    requires forall k :: k in db.files ==> db.files[k].hash != Some("")
    ensures LiteHashesOf(Encoded(db.files), t) == HashesOf(db, t)
    ensures LiteLacksHash(Encoded(db.files), t) <==> LacksHash(db.files, t)
  {
    forall f
      ensures f in LiteHashesOf(Encoded(db.files), t) <==> f in HashesOf(db, t)
    {
      LiteHashesAt(Encoded(db.files), t, f);
      HashesAt(db, t, f);
    }
    assert forall k :: k in db.files ==> (Encoded(db.files)[k].contentHash == "" <==> db.files[k].hash.None?);
  }

  /** The queries of the two databases agree on every tag if and only if no content hashed so far has the empty text as its hash. */
  lemma QueriesAgreeIff(db: Db, env: Env)
    requires HashesAreTrue(db, env)
    ensures QueriesAgree(db) <==>
            forall k :: k in db.files && db.files[k].hash.Some? ==> env.hash(db.files[k].content) != ""
  {
    if forall k :: k in db.files && db.files[k].hash.Some? ==> env.hash(db.files[k].content) != "" {
      forall t
        ensures LiteHashesOf(Encoded(db.files), t) == HashesOf(db, t)
        ensures LiteLacksHash(Encoded(db.files), t) <==> LacksHash(db.files, t)
      {
        TagQueriesAgree(db, t);
      }
    }
    if QueriesAgree(db) {
      forall k | k in db.files && db.files[k].hash.Some?
        ensures env.hash(db.files[k].content) != ""
      {
        assert LiteHashesOf(Encoded(db.files), k.tagId) == HashesOf(db, k.tagId);
        HashesAt(db, k.tagId, k.filename);
        LiteHashesAt(Encoded(db.files), k.tagId, k.filename);
      }
    }
  }
}
