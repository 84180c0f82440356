/**
 Access decisions.  The table keeps one entry per user and module, only for
 users that exist; the decision reads the exact entry and then the wildcard.
 The theorem reads the same decision off the history of operations alone.
 */
module Acl {
  import opened Base

  datatype Permission = Read | Write | Admin | Unrecognised(text: string)

  const WILDCARD := "*"

  /** Levels of a permission; a text that is not in the level table counts as zero. */
  function Level(p: Permission): nat {
    match p
    case Read => 1
    case Write => 2
    case Admin => 3
    case Unrecognised(_) => 0
  }

  datatype Key = Key(user: string, moduleName: string)

  /** The users, and the entries that refer to them. */
  datatype Tables = Tables(users: set<string>, entries: map<Key, Permission>)

  const NONE := Tables({}, map[])

  datatype Op =
    | AddUser(user: string)
    | RemoveUser(user: string)
    | Grant(user: string, moduleName: string, permission: Permission)
    | Revoke(user: string, moduleName: string)
    | DeletePermissions(user: string)

  datatype AclError = PermissionNotFound | ConstraintViolated

  function WithoutUser(entries: map<Key, Permission>, user: string): map<Key, Permission> {
    map k | k in entries && k.user != user :: entries[k]
  }

  function Apply(t: Tables, op: Op): Tables {
    match op
    case AddUser(u) => t.(users := t.users + {u})
    case RemoveUser(u) => Tables(t.users - {u}, WithoutUser(t.entries, u))
    case Grant(u, m, p) => if p.Unrecognised? || u !in t.users then t else t.(entries := t.entries[Key(u, m) := p])
    case Revoke(u, m) => t.(entries := t.entries - {Key(u, m)})
    case DeletePermissions(u) => t.(entries := WithoutUser(t.entries, u))
  }

  function Replay(ops: seq<Op>): Tables {
    if ops == [] then NONE else Apply(Replay(ops[..|ops| - 1]), ops[|ops| - 1])
  }

  predicate Allows(t: Tables, user: string, moduleName: string, required: Permission) {
    if Key(user, moduleName) in t.entries then Level(t.entries[Key(user, moduleName)]) >= Level(required)
    else Key(user, WILDCARD) in t.entries && Level(t.entries[Key(user, WILDCARD)]) >= Level(required)
  }

  /** What each permission is good for: admin for all three, write for write and read, read for read only. */
  predicate Suffices(granted: Permission, required: Permission) {
    match required
    case Unrecognised(_) => true
    case Read => granted == Read || granted == Write || granted == Admin
    case Write => granted == Write || granted == Admin
    case Admin => granted == Admin
  }

  class AclRepository {
    var tables: Tables

    constructor (users: set<string>)
      ensures tables == Tables(users, map[])
    {
      tables := Tables(users, map[]);
    }

    /** An upsert; the check on the level and the reference to the user can refuse it. */
    method GrantPermission(user: string, moduleName: string, permission: Permission) returns (r: Result<(), AclError>)
      modifies this
      ensures tables == Apply(old(tables), Grant(user, moduleName, permission))
      ensures r.Err? <==> permission.Unrecognised? || user !in old(tables).users
      ensures r.Ok? ==> forall weaker :: Level(weaker) <= Level(permission) ==> Allows(tables, user, moduleName, weaker)
      ensures r.Err? ==> tables == old(tables)
    {
      if permission.Unrecognised? || user !in tables.users {
        return Err(ConstraintViolated);
      }
      tables := tables.(entries := tables.entries[Key(user, moduleName) := permission]);
      return Ok(());
    }

    method RevokePermission(user: string, moduleName: string) returns (r: Result<(), AclError>)
      modifies this
      ensures tables == Apply(old(tables), Revoke(user, moduleName))
      ensures r.Err? <==> Key(user, moduleName) !in old(tables).entries
      ensures r.Err? ==> tables == old(tables)
    {
      if Key(user, moduleName) !in tables.entries {
        return Err(PermissionNotFound);
      }
      tables := tables.(entries := tables.entries - {Key(user, moduleName)});
      return Ok(());
    }

    method DeleteUserPermissions(user: string)
      modifies this
      ensures tables == Apply(old(tables), DeletePermissions(user))
      ensures forall m, required :: !Allows(tables, user, m, required)
      ensures forall u, m, required :: u != user ==> Allows(tables, u, m, required) == Allows(old(tables), u, m, required)
    {
      tables := tables.(entries := WithoutUser(tables.entries, user));
    }

    method CheckPermission(user: string, moduleName: string, required: Permission) returns (allowed: bool)
      ensures allowed <==> Allows(tables, user, moduleName, required)
      ensures Key(user, moduleName) in tables.entries ==> allowed == Suffices(tables.entries[Key(user, moduleName)], required)
      ensures Key(user, moduleName) !in tables.entries && Key(user, WILDCARD) in tables.entries ==>
                allowed == Suffices(tables.entries[Key(user, WILDCARD)], required)
      ensures Key(user, moduleName) !in tables.entries && Key(user, WILDCARD) !in tables.entries ==> !allowed
    {
      if Key(user, moduleName) in tables.entries {
        return Level(tables.entries[Key(user, moduleName)]) >= Level(required);
      }
      if Key(user, WILDCARD) !in tables.entries {
        return false;
      }
      return Level(tables.entries[Key(user, WILDCARD)]) >= Level(required);
    }
  }

  // ---------------------------------------------------------------------------
  // The decision as a property of the history

  /** The user was added by operation i and not removed since. */
  predicate AddedAt(ops: seq<Op>, i: nat, user: string) {
    i < |ops| && ops[i] == AddUser(user) && forall j :: i < j < |ops| ==> ops[j] != RemoveUser(user)
  }

  ghost predicate Known(ops: seq<Op>, user: string) { exists i: nat :: AddedAt(ops, i, user) }

  lemma {:induction false} UsersAreHistory(ops: seq<Op>, user: string)
    ensures user in Replay(ops).users <==> Known(ops, user)
  {
    if ops != [] {
      var n := |ops| - 1;
      UsersAreHistory(ops[..n], user);
      if ops[n] == AddUser(user) {
        assert AddedAt(ops, n, user);
      } else if ops[n] != RemoveUser(user) {
        assert forall i: nat :: AddedAt(ops[..n], i, user) <==> AddedAt(ops, i, user);
      }
    }
  }

  /** Entries refer to existing users: removing a user takes the entries along. */
  lemma {:induction false} EntriesHaveUsers(ops: seq<Op>)
    ensures forall k :: k in Replay(ops).entries ==> k.user in Replay(ops).users
  {
    if ops != [] {
      EntriesHaveUsers(ops[..|ops| - 1]);
    }
  }

  predicate Touches(op: Op, user: string, moduleName: string) {
    match op
    case AddUser(_) => false
    case RemoveUser(u) => u == user
    case Grant(u, m, p) => u == user && m == moduleName && !p.Unrecognised?
    case Revoke(u, m) => u == user && m == moduleName
    case DeletePermissions(u) => u == user
  }

  /** Operation i granted p on exactly this module to a user known then, and nothing later touched the entry. */
  ghost predicate Survives(ops: seq<Op>, i: nat, user: string, moduleName: string, p: Permission) {
    && i < |ops|
    && ops[i] == Grant(user, moduleName, p)
    && !p.Unrecognised? && Known(ops[..i], user)
    && forall j :: i < j < |ops| ==> !Touches(ops[j], user, moduleName)
  }

  ghost predicate Granted(ops: seq<Op>, user: string, moduleName: string, p: Permission) {
    exists i: nat :: Survives(ops, i, user, moduleName, p)
  }

  ghost predicate AnyGranted(ops: seq<Op>, user: string, moduleName: string) {
    exists p :: Granted(ops, user, moduleName, p)
  }

  lemma {:induction false} TableIsHistory(ops: seq<Op>, user: string, moduleName: string, p: Permission)
    ensures Key(user, moduleName) in Replay(ops).entries && Replay(ops).entries[Key(user, moduleName)] == p
       <==> Granted(ops, user, moduleName, p)
  {
    if ops != [] {
      var n := |ops| - 1;
      var init, last := ops[..n], ops[n];
      TableIsHistory(init, user, moduleName, p);
      UsersAreHistory(init, user);
      EntriesHaveUsers(init);
      if Touches(last, user, moduleName) {
        assert Granted(ops, user, moduleName, p) ==> Survives(ops, n, user, moduleName, p);
        if last == Grant(user, moduleName, p) && Known(init, user) {
          assert Survives(ops, n, user, moduleName, p);
        }
      } else {
        forall i: nat
          ensures Survives(init, i, user, moduleName, p) <==> Survives(ops, i, user, moduleName, p)
        {
          assert i < n ==> init[..i] == ops[..i];
        }
      }
    }
  }

  /**
   After any run of operations, access is allowed exactly when the surviving grant on the module itself
   suffices, or no grant on the module survives and the surviving wildcard grant suffices.
   */
  lemma DecisionIsHistory(ops: seq<Op>, user: string, moduleName: string, required: Permission)
    ensures Allows(Replay(ops), user, moduleName, required) <==>
            || (exists p :: Granted(ops, user, moduleName, p) && Level(p) >= Level(required))
            || (!AnyGranted(ops, user, moduleName) &&
                exists p :: Granted(ops, user, WILDCARD, p) && Level(p) >= Level(required))
  {
    var t := Replay(ops).entries;
    forall m, p
      ensures Key(user, m) in t && t[Key(user, m)] == p <==> Granted(ops, user, m, p)
    {
      TableIsHistory(ops, user, m, p);
    }
    if Key(user, moduleName) in t {
      assert Granted(ops, user, moduleName, t[Key(user, moduleName)]);
    }
    if Key(user, WILDCARD) in t {
      assert Granted(ops, user, WILDCARD, t[Key(user, WILDCARD)]);
    }
  }

  /** The grant that decides: the surviving one on the module itself, or, when there is none, the one on the wildcard. */
  ghost predicate Decides(ops: seq<Op>, user: string, moduleName: string, p: Permission) {
    if AnyGranted(ops, user, moduleName) then Granted(ops, user, moduleName, p) else Granted(ops, user, WILDCARD, p)
  }

  /** The decision by name: which of the three permissions the deciding grant allows, and none without one. */
  lemma DecisionByName(ops: seq<Op>, user: string, moduleName: string)
    ensures var t := Replay(ops);
            && (Decides(ops, user, moduleName, Admin) ==>
                  Allows(t, user, moduleName, Read) && Allows(t, user, moduleName, Write) && Allows(t, user, moduleName, Admin))
            && (Decides(ops, user, moduleName, Write) ==>
                  Allows(t, user, moduleName, Read) && Allows(t, user, moduleName, Write) && !Allows(t, user, moduleName, Admin))
            && (Decides(ops, user, moduleName, Read) ==>
                  Allows(t, user, moduleName, Read) && !Allows(t, user, moduleName, Write) && !Allows(t, user, moduleName, Admin))
            && ((forall p :: !Decides(ops, user, moduleName, p)) ==> forall required :: !Allows(t, user, moduleName, required))
  {
    var t := Replay(ops).entries;
    forall m, p
      ensures Key(user, m) in t && t[Key(user, m)] == p <==> Granted(ops, user, m, p)
    {
      TableIsHistory(ops, user, m, p);
    }
    if Key(user, moduleName) in t {
      assert Granted(ops, user, moduleName, t[Key(user, moduleName)]);
    } else if Key(user, WILDCARD) in t {
      assert Granted(ops, user, WILDCARD, t[Key(user, WILDCARD)]);
    }
  }

  /** A wildcard operation is invisible where an exact entry exists, and to other users. */
  lemma WildcardReachesOnlyUnlisted(ops: seq<Op>, op: Op, user: string, moduleName: string, required: Permission)
    requires (op.Grant? || op.Revoke?) && op.moduleName == WILDCARD && moduleName != WILDCARD
    requires AnyGranted(ops, user, moduleName) || op.user != user
    ensures Allows(Replay(ops + [op]), user, moduleName, required) == Allows(Replay(ops), user, moduleName, required)
  {
    assert (ops + [op])[..|ops|] == ops;
    if p :| Granted(ops, user, moduleName, p) {
      TableIsHistory(ops, user, moduleName, p);
    }
  }

  /** A decision that allows a level allows every lower one. */
  lemma DecisionsAreDownwardClosed(ops: seq<Op>, user: string, moduleName: string, required: Permission, weaker: Permission)
    requires Allows(Replay(ops), user, moduleName, required) && Level(weaker) <= Level(required)
    ensures Allows(Replay(ops), user, moduleName, weaker)
  {
  }
}
