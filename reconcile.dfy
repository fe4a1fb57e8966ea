/**
 * The directory-reconciliation engine as functions of the table it reads and
 * writes: each returns what the Go function returns together with the table
 * after it. The class methods in module Crud are proved to compute exactly
 * these; the lemmas here state what the engine promises.
 */
module Reconcile {
  import opened Wrappers
  import opened Paths
  import opened Tables
  import opened Schema

  /** The table after an UPDATE whose error is dropped: the updated table, or the old one when it failed. */
  function Ignoring<T>(r: Result<seq<T>, DbError>, rows: seq<T>): (t: seq<T>)
    ensures t == rows || (r.Ok? && t == r.value)
  {
    if r.Ok? then r.value else rows
  }

  /** Index of the first entity whose stored directory holds a `.user` marker. */
  function FirstMarked(entities: seq<UserEntity>, markers: set<Path>): (r: Option<nat>)
    ensures r.Some? ==> r.value < |entities| && entities[r.value].parentDir in markers
    ensures r.Some? ==> forall k :: 0 <= k < r.value ==> entities[k].parentDir !in markers
    ensures r.None? <==> forall k :: 0 <= k < |entities| ==> entities[k].parentDir !in markers
  {
    FirstIndex(entities, (e: UserEntity) => e.parentDir in markers, true)
  }

  /** Index of the first list entity whose name equals `name` up to case (strings.EqualFold). */
  function FirstNamed(entities: seq<LstEntity>, name: string): (r: Option<nat>)
    ensures r.Some? ==> r.value < |entities| && EqualFold(entities[r.value].name, name)
    ensures r.Some? ==> forall k :: 0 <= k < r.value ==> !EqualFold(entities[k].name, name)
    ensures r.None? <==> forall k :: 0 <= k < |entities| ==> !EqualFold(entities[k].name, name)
  {
    FirstIndex(entities, (e: LstEntity) => Fold(e.name), Fold(name))
  }

  // ---------------------------------------------------------------- user entities

  /** A relocation on a locate path: the UPDATE's error is dropped and `e` is reported at `abs` regardless. */
  function MoveUserIgnoringError(rows: seq<UserEntity>, e: UserEntity, abs: Path)
    : (r: (Result<Option<UserEntity>, DbError>, seq<UserEntity>))
    ensures r.0.Ok? && r.0.value.Some? && r.0.value.value.id == e.id && r.0.value.value.parentDir == abs
    ensures |r.1| == |rows| && forall i :: 0 <= i < |rows| && rows[i].id != e.id ==> r.1[i] == rows[i]
  {
    (Ok(Some(e.(parentDir := abs))), Ignoring(RelocateUserEntity(rows, e.id, abs, None), rows))
  }

  /** LocateUserEntity: marker fast path, then exact (user, directory) match, then marker scan; never inserts. */
  function LocateUser(rows: seq<UserEntity>, uid: nat, parentDir: Path, env: Env)
    : (r: (Result<Option<UserEntity>, DbError>, seq<UserEntity>))
    ensures r.0.Err? <==> Abs(env, parentDir).None?
    ensures |r.1| == |rows|
    ensures r.0.Ok? && r.0.value.Some? ==>
              r.0.value.value.uid == uid && EqualFold(r.0.value.value.parentDir, Abs(env, parentDir).value)
  {
    match Abs(env, parentDir)
    case None => (Err(WorkingDirUnavailable), rows)
    case Some(abs) =>
      var mine := Where(rows, UserEntityOwner, uid);
      if abs in env.markers && |mine| > 0 then assert mine[0] in mine; MoveUserIgnoringError(rows, mine[0], abs)
      else MatchOrScanUser(rows, uid, abs, env.markers)
  }

  /** LocateUserEntity after the fast path: the exact (user, directory) match, then the marker scan. */
  function MatchOrScanUser(rows: seq<UserEntity>, uid: nat, abs: Path, markers: set<Path>)
    : (r: (Result<Option<UserEntity>, DbError>, seq<UserEntity>))
    ensures r.0.Ok? && |r.1| == |rows|
    ensures r.0.value.Some? ==> r.0.value.value.uid == uid && EqualFold(r.0.value.value.parentDir, abs)
    ensures r.0.value.None? ==> r.1 == rows
  {
    match Lookup(rows, UserEntityDirKey, (uid, Fold(abs)))
    case Some(e) => (Ok(Some(e)), rows)
    case None =>
      var mine := Where(rows, UserEntityOwner, uid);
      match FirstMarked(mine, markers)
      case Some(i) => assert mine[i] in mine; MoveUserIgnoringError(rows, mine[i], abs)
      case None => (Ok(None), rows)
  }

  /** A relocation on the create path: directory and name are written together and a failure is returned. */
  function MoveUser(rows: seq<UserEntity>, e: UserEntity, abs: Path, name: string)
    : (r: (Result<UserEntity, DbError>, seq<UserEntity>))
    ensures r.0.Err? ==> r.0.error == UniqueViolation(UserEntities) && r.1 == rows
    ensures r.0.Ok? ==> r.0.value.id == e.id && r.0.value.uid == e.uid && r.0.value.parentDir == abs && r.0.value.name == name
    ensures |r.1| == |rows| && forall i :: 0 <= i < |rows| && rows[i].id != e.id ==> r.1[i] == rows[i]
  {
    match RelocateUserEntity(rows, e.id, abs, Some(name))
    case Err(err) => (Err(err), rows)
    case Ok(rows') => (Ok(e.(parentDir := abs, name := name)), rows')
  }

  /** CreateOrUpdateUserEntityWithPathChange: marker fast path, then marker scan, then insert; no exact-match phase. */
  function CreateOrUpdateUser(rows: seq<UserEntity>, entity: UserEntity, env: Env)
    : (r: (Result<UserEntity, DbError>, seq<UserEntity>))
    ensures r.0.Err? ==> r.1 == rows
    ensures Abs(env, entity.parentDir).None? ==> r.0 == Err(WorkingDirUnavailable)
    ensures r.0.Ok? ==>
              Abs(env, entity.parentDir) == Some(r.0.value.parentDir) &&
              r.0.value.uid == entity.uid && r.0.value.name == entity.name
    ensures |r.1| == |rows| || |r.1| == |rows| + 1
  {
    match Abs(env, entity.parentDir)
    case None => (Err(WorkingDirUnavailable), rows)
    case Some(abs) =>
      var mine := Where(rows, UserEntityOwner, entity.uid);
      if abs in env.markers && |mine| > 0 then assert mine[0] in mine; MoveUser(rows, mine[0], abs, entity.name)
      else ScanOrInsertUser(rows, entity, abs, env.markers)
  }

  /** The create path after the fast path: the marker scan, then the insert. */
  function ScanOrInsertUser(rows: seq<UserEntity>, entity: UserEntity, abs: Path, markers: set<Path>)
    : (r: (Result<UserEntity, DbError>, seq<UserEntity>))
    ensures r.0.Err? ==> r.0.error == UniqueViolation(UserEntities) && r.1 == rows
    ensures r.0.Ok? ==> r.0.value.parentDir == abs && r.0.value.uid == entity.uid && r.0.value.name == entity.name
    ensures |r.1| == |rows| || |r.1| == |rows| + 1
  {
    var mine := Where(rows, UserEntityOwner, entity.uid);
    match FirstMarked(mine, markers)
    case Some(i) => assert mine[i] in mine; MoveUser(rows, mine[i], abs, entity.name)
    case None => InsertUser(rows, entity, abs)
  }

  /** The insert ending the create path: a fresh row at `abs`, reported with its new id. */
  function InsertUser(rows: seq<UserEntity>, entity: UserEntity, abs: Path): (r: (Result<UserEntity, DbError>, seq<UserEntity>))
    ensures r.0.Err? ==> r.0.error == UniqueViolation(UserEntities) && r.1 == rows
    ensures r.0.Err? <==> exists i :: 0 <= i < |rows| && rows[i].uid == entity.uid && EqualFold(rows[i].parentDir, abs)
    ensures r.0.Ok? ==>
              r.0.value.parentDir == abs && r.0.value.uid == entity.uid && r.0.value.name == entity.name &&
              (forall i :: 0 <= i < |rows| ==> rows[i].id != r.0.value.id) &&
              |r.1| == |rows| + 1 && r.1[..|rows|] == rows && r.1[|rows|].id == r.0.value.id
  {
    var row := NewUserEntity(rows, entity.uid, entity.name, abs);
    match InsertUserEntity(rows, row)
    case Err(err) => (Err(err), rows)
    case Ok(rows') => (Ok(entity.(id := row.id, parentDir := abs)), rows')
  }

  // ---------------------------------------------------------------- list entities

  /** LocateLstEntity: exact (list, directory) match, then the list's first row if the directory exists; never inserts. */
  function LocateLst(rows: seq<LstEntity>, lid: int, parentDir: Path, env: Env)
    : (r: (Result<Option<LstEntity>, DbError>, seq<LstEntity>))
    ensures r.0.Err? <==> Abs(env, parentDir).None?
    ensures |r.1| == |rows|
    ensures r.0.Ok? && r.0.value.Some? ==>
              r.0.value.value.lstId == lid && EqualFold(r.0.value.value.parentDir, Abs(env, parentDir).value)
  {
    match Abs(env, parentDir)
    case None => (Err(WorkingDirUnavailable), rows)
    case Some(abs) =>
      match Lookup(rows, LstEntityDirKey, (lid, Fold(abs)))
      case Some(e) => (Ok(Some(e)), rows)
      case None =>
        var mine := Where(rows, LstEntityOwner, lid);
        if |mine| > 0 && abs in env.existing then
          assert mine[0] in mine;
          (Ok(Some(mine[0].(parentDir := abs))), Ignoring(RelocateLstEntity(rows, mine[0].id, abs), rows))
        else (Ok(None), rows)
  }

  /** CreateOrUpdateLstEntityWithPathChange: relocate the list's first row with the same name up to case, else insert. */
  function CreateOrUpdateLst(rows: seq<LstEntity>, entity: LstEntity, env: Env)
    : (r: (Result<LstEntity, DbError>, seq<LstEntity>))
    ensures r.0.Err? ==> r.1 == rows
    ensures Abs(env, entity.parentDir).None? ==> r.0 == Err(WorkingDirUnavailable)
    ensures r.0.Ok? ==>
              Abs(env, entity.parentDir) == Some(r.0.value.parentDir) &&
              r.0.value.lstId == entity.lstId && EqualFold(r.0.value.name, entity.name)
    ensures |r.1| == |rows| || |r.1| == |rows| + 1
  {
    match Abs(env, entity.parentDir)
    case None => (Err(WorkingDirUnavailable), rows)
    case Some(abs) =>
      var mine := Where(rows, LstEntityOwner, entity.lstId);
      match FirstNamed(mine, entity.name)
      case Some(i) => assert mine[i] in mine; MoveLst(rows, mine[i], abs)
      case None => InsertLst(rows, entity, abs)
  }

  /** A relocation on the list create path: only the directory is written and a failure is returned. */
  function MoveLst(rows: seq<LstEntity>, e: LstEntity, abs: Path): (r: (Result<LstEntity, DbError>, seq<LstEntity>))
    ensures r.0.Err? ==> r.0.error == UniqueViolation(LstEntities) && r.1 == rows
    ensures r.0.Ok? ==> r.0.value.id == e.id && r.0.value.lstId == e.lstId && r.0.value.parentDir == abs && r.0.value.name == e.name
    ensures |r.1| == |rows| && forall i :: 0 <= i < |rows| && rows[i].id != e.id ==> r.1[i] == rows[i]
  {
    match RelocateLstEntity(rows, e.id, abs)
    case Err(err) => (Err(err), rows)
    case Ok(rows') => (Ok(e.(parentDir := abs)), rows')
  }

  /** The insert ending the list create path: a fresh row at `abs`, reported with its new id. */
  function InsertLst(rows: seq<LstEntity>, entity: LstEntity, abs: Path): (r: (Result<LstEntity, DbError>, seq<LstEntity>))
    ensures r.0.Err? ==> r.0.error == UniqueViolation(LstEntities) && r.1 == rows
    ensures r.0.Err? <==> exists i :: 0 <= i < |rows| && rows[i].lstId == entity.lstId && EqualFold(rows[i].parentDir, abs)
    ensures r.0.Ok? ==>
              r.0.value.parentDir == abs && r.0.value.lstId == entity.lstId && r.0.value.name == entity.name &&
              (forall i :: 0 <= i < |rows| ==> rows[i].id != r.0.value.id) &&
              |r.1| == |rows| + 1 && r.1[..|rows|] == rows && r.1[|rows|].id == r.0.value.id
  {
    var row := NewLstEntity(rows, entity.lstId, entity.name, abs);
    match InsertLstEntity(rows, row)
    case Err(err) => (Err(err), rows)
    case Ok(rows') => (Ok(entity.(id := row.id, parentDir := abs)), rows')
  }

  // ---------------------------------------------------------------- properties: LocateUserEntity

  /** A store error never surfaces from LocateUserEntity: it fails only when the path cannot be made absolute. */
  lemma LocateUserFailsOnlyWithoutAbsPath(rows: seq<UserEntity>, uid: nat, parentDir: Path, env: Env)
    ensures var out := LocateUser(rows, uid, parentDir, env);
            (out.0.Err? <==> Abs(env, parentDir).None?) &&
            (out.0.Err? ==> out.1 == rows && out.0.error == WorkingDirUnavailable)
  {
  }

  /**
   * LocateUserEntity never inserts or deletes a row, and the only row it can
   * change is the one it returns, and only in its directory.
   */
  lemma LocateUserOnlyMovesReturnedRow(rows: seq<UserEntity>, uid: nat, parentDir: Path, env: Env)
    requires UserEntitiesValid(rows)
    ensures var out := LocateUser(rows, uid, parentDir, env);
            |out.1| == |rows| &&
            forall i :: 0 <= i < |rows| && out.1[i] != rows[i] ==>
              out.0 == Ok(Some(out.1[i])) && out.1[i] == rows[i].(parentDir := out.1[i].parentDir)
  {
    match Abs(env, parentDir)
    case None =>
    case Some(abs) =>
      var mine := Where(rows, UserEntityOwner, uid);
      if abs in env.markers && |mine| > 0 {
        RelocatedUserRow(rows, mine[0], abs, None);
      } else if Lookup(rows, UserEntityDirKey, (uid, Fold(abs))).None? {
        match FirstMarked(mine, env.markers)
        case Some(i) => RelocatedUserRow(rows, mine[i], abs, None);
        case None =>
      }
  }

  /** LocateUserEntity keeps the primary key and the (user_id, parent_dir) constraint. */
  lemma LocateUserKeepsValid(rows: seq<UserEntity>, uid: nat, parentDir: Path, env: Env)
    requires UserEntitiesValid(rows)
    ensures UserEntitiesValid(LocateUser(rows, uid, parentDir, env).1)
  {
    match Abs(env, parentDir)
    case None =>
    case Some(abs) =>
      var mine := Where(rows, UserEntityOwner, uid);
      if abs in env.markers && |mine| > 0 {
        RelocateUserEntityKeepsValid(rows, mine[0].id, abs, None);
      } else if Lookup(rows, UserEntityDirKey, (uid, Fold(abs))).None? {
        match FirstMarked(mine, env.markers)
        case Some(i) => RelocateUserEntityKeepsValid(rows, mine[i].id, abs, None);
        case None =>
      }
  }

  /**
   * Marker fast path: when `<abs>/.user` exists and the user has a row, the
   * user's first row is returned with its id and moved to `abs`, whether or not
   * the store accepted the move.
   */
  lemma LocateUserMarkerFastPath(rows: seq<UserEntity>, uid: nat, parentDir: Path, env: Env, abs: Path)
    requires Abs(env, parentDir) == Some(abs) && abs in env.markers
    requires exists i :: 0 <= i < |rows| && rows[i].uid == uid
    ensures match FirstIndex(rows, UserEntityOwner, uid)
            case Some(k) => LocateUser(rows, uid, parentDir, env).0 == Ok(Some(rows[k].(parentDir := abs)))
            case None => false
  {
    var mine := Where(rows, UserEntityOwner, uid);
    var i :| 0 <= i < |rows| && rows[i].uid == uid;
    assert rows[i] in mine;
  }

  /**
   * Exact match: with no marker at `abs`, a stored row of the user whose
   * directory equals `abs` up to case is returned unchanged and the store is
   * untouched.
   */
  lemma LocateUserExactMatchIsNoOp(rows: seq<UserEntity>, uid: nat, parentDir: Path, env: Env, abs: Path, k: nat)
    requires UserEntitiesValid(rows)
    requires Abs(env, parentDir) == Some(abs) && abs !in env.markers
    requires k < |rows| && rows[k].uid == uid && EqualFold(rows[k].parentDir, abs)
    ensures LocateUser(rows, uid, parentDir, env) == (Ok(Some(rows[k])), rows)
  {
    assert FirstIndex(rows, UserEntityDirKey, (uid, Fold(abs))) == Some(k) by {
      forall j | 0 <= j < k ensures UserEntityDirKey(rows[j]) != (uid, Fold(abs)) {
        assert UserEntityDirKey(rows[j]) != UserEntityDirKey(rows[k]);
      }
    }
  }

  /**
   * Marker scan: when the fast path does not apply (no marker at `abs`, or a
   * marker but no row of the user) and no row of the user is at `abs`, the
   * user's first row (in store order) whose stored directory still holds a
   * marker is returned moved to `abs`; when there is none, nil is returned and
   * the store is untouched. A leftover marker with no row thus yields nil.
   */
  lemma LocateUserMarkerScan(rows: seq<UserEntity>, uid: nat, parentDir: Path, env: Env, abs: Path)
    requires Abs(env, parentDir) == Some(abs)
    requires abs !in env.markers || forall i :: 0 <= i < |rows| ==> rows[i].uid != uid
    requires forall i :: 0 <= i < |rows| && rows[i].uid == uid ==> !EqualFold(rows[i].parentDir, abs)
    ensures var out := LocateUser(rows, uid, parentDir, env);
            match out.0
            case Ok(Some(e)) =>
              exists j :: 0 <= j < |rows| && rows[j].uid == uid && rows[j].parentDir in env.markers &&
                          e == rows[j].(parentDir := abs) &&
                          forall l :: 0 <= l < j && rows[l].uid == uid ==> rows[l].parentDir !in env.markers
            case Ok(None) =>
              out.1 == rows && forall j :: 0 <= j < |rows| && rows[j].uid == uid ==> rows[j].parentDir !in env.markers
            case Err(_) => false
  {
    var mine := Where(rows, UserEntityOwner, uid);
    var marked := (e: UserEntity) => e.parentDir in env.markers;
    if abs in env.markers {
      assert |mine| == 0;
    }
    assert Lookup(rows, UserEntityDirKey, (uid, Fold(abs))).None? by {
      forall x | x in rows ensures UserEntityDirKey(x) != (uid, Fold(abs)) {
        var i :| 0 <= i < |rows| && rows[i] == x;
      }
    }
    match FirstMarked(mine, env.markers)
    case Some(i) =>
      FirstIndexOfWhere(rows, UserEntityOwner, uid, marked, true, i);
    case None =>
      NoneInWhere(rows, UserEntityOwner, uid, marked, true);
  }

  // ---------------------------------------------------------------- properties: CreateOrUpdateUserEntityWithPathChange

  /**
   * On success the returned entity lies at the absolute path and carries the
   * caller's user and name, and the store holds a row with its id, user,
   * name and directory.
   */
  lemma CreateOrUpdateUserStoresReturnedEntity(rows: seq<UserEntity>, entity: UserEntity, env: Env)
    requires UserEntitiesValid(rows)
    ensures var out := CreateOrUpdateUser(rows, entity, env);
            out.0.Ok? ==>
              var e := out.0.value;
              Abs(env, entity.parentDir) == Some(e.parentDir) && e.name == entity.name && e.uid == entity.uid &&
              exists k :: 0 <= k < |out.1| && out.1[k].id == e.id && out.1[k].uid == e.uid &&
                          out.1[k].name == e.name && out.1[k].parentDir == e.parentDir
  {
    match Abs(env, entity.parentDir)
    case None =>
    case Some(abs) =>
      var mine := Where(rows, UserEntityOwner, entity.uid);
      if abs in env.markers && |mine| > 0 {
        RelocatedUserRow(rows, mine[0], abs, Some(entity.name));
      } else {
        match FirstMarked(mine, env.markers)
        case Some(i) => RelocatedUserRow(rows, mine[i], abs, Some(entity.name));
        case None =>
          var row := NewUserEntity(rows, entity.uid, entity.name, abs);
          if InsertUserEntity(rows, row).Ok? {
            assert CreateOrUpdateUser(rows, entity, env).1[|rows|] == row;
          }
      }
  }

  /**
   * The create path never deletes. A failure leaves the store as it was. A
   * relocation rewrites only the returned row, in directory and name. An insert
   * appends exactly one row with a fresh id, the returned one.
   */
  lemma CreateOrUpdateUserChangesOneRow(rows: seq<UserEntity>, entity: UserEntity, env: Env)
    requires UserEntitiesValid(rows)
    ensures var out := CreateOrUpdateUser(rows, entity, env);
            (out.0.Err? ==> out.1 == rows) &&
            (|out.1| == |rows| ==>
              forall i :: 0 <= i < |rows| && out.1[i] != rows[i] ==>
                out.0.Ok? && out.1[i].id == out.0.value.id &&
                out.1[i] == rows[i].(parentDir := out.0.value.parentDir, name := out.0.value.name)) &&
            (|out.1| != |rows| ==>
              |out.1| == |rows| + 1 && out.1[..|rows|] == rows && out.0.Ok? &&
              out.1[|rows|].id == out.0.value.id && forall i :: 0 <= i < |rows| ==> rows[i].id != out.0.value.id)
  {
    match Abs(env, entity.parentDir)
    case None =>
    case Some(abs) =>
      var mine := Where(rows, UserEntityOwner, entity.uid);
      if abs in env.markers && |mine| > 0 {
        RelocatedUserRow(rows, mine[0], abs, Some(entity.name));
      } else {
        match FirstMarked(mine, env.markers)
        case Some(i) => RelocatedUserRow(rows, mine[i], abs, Some(entity.name));
        case None =>
      }
  }

  /**
   * A row is inserted only when no relocation could happen: there is no marker
   * at the absolute path or the user has no row, and no row of the user has a
   * marker in its stored directory.
   */
  lemma CreateOrUpdateUserInsertsOnlyWithoutMarker(rows: seq<UserEntity>, entity: UserEntity, env: Env)
    ensures var out := CreateOrUpdateUser(rows, entity, env);
            |out.1| != |rows| ==>
              Abs(env, entity.parentDir).Some? &&
              var abs := Abs(env, entity.parentDir).value;
              (abs !in env.markers || forall i :: 0 <= i < |rows| ==> rows[i].uid != entity.uid) &&
              forall i :: 0 <= i < |rows| && rows[i].uid == entity.uid ==> rows[i].parentDir !in env.markers
  {
    match Abs(env, entity.parentDir)
    case None =>
    case Some(abs) =>
      var mine := Where(rows, UserEntityOwner, entity.uid);
      if abs in env.markers && |mine| > 0 {
      } else if FirstMarked(mine, env.markers).None? {
        NoneInWhere(rows, UserEntityOwner, entity.uid, (e: UserEntity) => e.parentDir in env.markers, true);
        if abs in env.markers {
          forall i | 0 <= i < |rows| ensures rows[i].uid != entity.uid {
            var x := rows[i];
            assert x.uid == entity.uid ==> x in mine;
          }
        }
      }
  }

  /**
   * Marker fast path on the create path: the user's first row is moved to the
   * absolute path and renamed, or, when another row of the user already holds
   * that directory, the uniqueness error is returned and the store is unchanged.
   */
  lemma CreateOrUpdateUserMarkerFastPath(rows: seq<UserEntity>, entity: UserEntity, env: Env, abs: Path)
    requires UserEntitiesValid(rows)
    requires Abs(env, entity.parentDir) == Some(abs) && abs in env.markers
    requires exists i :: 0 <= i < |rows| && rows[i].uid == entity.uid
    ensures match FirstIndex(rows, UserEntityOwner, entity.uid)
            case Some(k) =>
              var out := CreateOrUpdateUser(rows, entity, env);
              (out.0.Ok? <==> forall j :: 0 <= j < |rows| && j != k && rows[j].uid == entity.uid ==>
                                           !EqualFold(rows[j].parentDir, abs)) &&
              (out.0.Ok? ==> out.0 == Ok(rows[k].(parentDir := abs, name := entity.name))) &&
              (out.0.Err? ==> out.0 == Err(UniqueViolation(UserEntities)) && out.1 == rows)
            case None => false
  {
    var mine := Where(rows, UserEntityOwner, entity.uid);
    var i :| 0 <= i < |rows| && rows[i].uid == entity.uid;
    assert rows[i] in mine;
    var k := FirstIndex(rows, UserEntityOwner, entity.uid).value;
    assert CreateOrUpdateUser(rows, entity, env) == MoveUser(rows, rows[k], abs, entity.name) by {
      assert mine[0] == rows[k];
    }
    MoveUserOutcome(rows, k, abs, entity.name);
  }

  /**
   * Relocating the stored row `k` on the create path succeeds exactly when no
   * other row of its user holds the target directory up to case.
   */
  lemma MoveUserOutcome(rows: seq<UserEntity>, k: nat, abs: Path, name: string)
    requires UserEntitiesValid(rows) && k < |rows|
    ensures var out := MoveUser(rows, rows[k], abs, name);
            (out.0.Ok? <==> forall j :: 0 <= j < |rows| && j != k && rows[j].uid == rows[k].uid ==>
                                         !EqualFold(rows[j].parentDir, abs)) &&
            (out.0.Ok? ==> out.0 == Ok(rows[k].(parentDir := abs, name := name))) &&
            (out.0.Err? ==> out.0 == Err(UniqueViolation(UserEntities)) && out.1 == rows)
  {
    assert FirstIndex(rows, UserEntityIdOf, rows[k].id) == Some(k) by {
      forall j | 0 <= j < k ensures UserEntityIdOf(rows[j]) != rows[k].id {
        assert UserEntityIdOf(rows[j]) != UserEntityIdOf(rows[k]);
      }
    }
    var moved := rows[k].(parentDir := abs, name := name);
    assert UserEntityDirKey(moved) == (rows[k].uid, Fold(abs));
  }

  /**
   * Marker scan on the create path: with no fast path, the user's first row in
   * store order whose stored directory holds a marker is the one moved and
   * renamed (or the uniqueness error is returned with the store unchanged).
   */
  lemma CreateOrUpdateUserMarkerScan(rows: seq<UserEntity>, entity: UserEntity, env: Env, abs: Path, j: nat)
    requires Abs(env, entity.parentDir) == Some(abs) && abs !in env.markers
    requires j < |rows| && rows[j].uid == entity.uid && rows[j].parentDir in env.markers
    requires forall l :: 0 <= l < j && rows[l].uid == entity.uid ==> rows[l].parentDir !in env.markers
    ensures var out := CreateOrUpdateUser(rows, entity, env);
            (out.0 == Ok(rows[j].(parentDir := abs, name := entity.name)) ||
             (out.0 == Err(UniqueViolation(UserEntities)) && out.1 == rows)) &&
            (UserEntitiesValid(rows) ==>
               (out.0.Ok? <==> forall m :: 0 <= m < |rows| && m != j && rows[m].uid == entity.uid ==>
                                            !EqualFold(rows[m].parentDir, abs)))
  {
    var mine := Where(rows, UserEntityOwner, entity.uid);
    var marked := (e: UserEntity) => e.parentDir in env.markers;
    assert rows[j] in mine;
    var i := FirstMarked(mine, env.markers).value;
    FirstIndexOfWhere(rows, UserEntityOwner, entity.uid, marked, true, i);
    var j' :| 0 <= j' < |rows| && mine[i] == rows[j'] && rows[j'].uid == entity.uid && rows[j'].parentDir in env.markers &&
              NoneBefore(rows, UserEntityOwner, entity.uid, marked, true, j');
    var found, wanted := rows[j'], rows[j];
    assert j' < j ==> found.parentDir !in env.markers;
    assert j < j' ==> marked(wanted) != true;
    assert j' == j;
    if UserEntitiesValid(rows) {
      MoveUserOutcome(rows, j, abs, entity.name);
    }
  }

  /**
   * The create path has no exact-match phase: with no marker evidence (no
   * marked row of the user, and a marker at `abs` only when the user has no
   * row) it inserts a fresh row at the absolute path, and that succeeds exactly
   * when no row of the user holds the directory up to case. Otherwise the
   * insert of a duplicate fails with the uniqueness error and the store is
   * unchanged.
   */
  lemma CreateOrUpdateUserInsertsUnlessHeld(rows: seq<UserEntity>, entity: UserEntity, env: Env, abs: Path)
    requires Abs(env, entity.parentDir) == Some(abs)
    requires abs !in env.markers || forall i :: 0 <= i < |rows| ==> rows[i].uid != entity.uid
    requires forall i :: 0 <= i < |rows| && rows[i].uid == entity.uid ==> rows[i].parentDir !in env.markers
    ensures var row := NewUserEntity(rows, entity.uid, entity.name, abs);
            var out := CreateOrUpdateUser(rows, entity, env);
            (out.0.Ok? <==> forall i :: 0 <= i < |rows| && rows[i].uid == entity.uid ==> !EqualFold(rows[i].parentDir, abs)) &&
            (out.0.Ok? ==> out == (Ok(entity.(id := row.id, parentDir := abs)), rows + [row])) &&
            (out.0.Err? ==> out == (Err(UniqueViolation(UserEntities)), rows))
  {
    var mine := Where(rows, UserEntityOwner, entity.uid);
    assert FirstMarked(mine, env.markers).None? by {
      forall m | 0 <= m < |mine| ensures mine[m].parentDir !in env.markers {
        assert mine[m] in rows;
      }
    }
    assert CreateOrUpdateUser(rows, entity, env) == InsertUser(rows, entity, abs);
    var row := NewUserEntity(rows, entity.uid, entity.name, abs);
    assert !HeldByOther(rows, UserEntityIdOf, row.id, -1);
  }

  /** The create path keeps the primary key and the (user_id, parent_dir) constraint. */
  lemma CreateOrUpdateUserKeepsValid(rows: seq<UserEntity>, entity: UserEntity, env: Env)
    requires UserEntitiesValid(rows)
    ensures UserEntitiesValid(CreateOrUpdateUser(rows, entity, env).1)
  {
    match Abs(env, entity.parentDir)
    case None =>
    case Some(abs) =>
      var mine := Where(rows, UserEntityOwner, entity.uid);
      if abs in env.markers && |mine| > 0 {
        RelocateUserEntityKeepsValid(rows, mine[0].id, abs, Some(entity.name));
      } else {
        match FirstMarked(mine, env.markers)
        case Some(i) => RelocateUserEntityKeepsValid(rows, mine[i].id, abs, Some(entity.name));
        case None => InsertUserEntityKeepsValid(rows, NewUserEntity(rows, entity.uid, entity.name, abs));
      }
  }

  /**
   * The row LocateUserEntity returns is what the store holds, unless another
   * row of the same user already holds the returned directory: then the
   * dropped UPDATE error hides that the store kept the old directory.
   */
  lemma LocateUserReportsStoredRowUnlessHeld(rows: seq<UserEntity>, uid: nat, parentDir: Path, env: Env)
    requires UserEntitiesValid(rows)
    ensures var out := LocateUser(rows, uid, parentDir, env);
            out.0.Ok? && out.0.value.Some? &&
            (forall j :: 0 <= j < |rows| && rows[j].uid == uid && EqualFold(rows[j].parentDir, out.0.value.value.parentDir) ==>
                         rows[j].id == out.0.value.value.id)
            ==> out.0.value.value in out.1
  {
    match Abs(env, parentDir)
    case None =>
    case Some(abs) =>
      var mine := Where(rows, UserEntityOwner, uid);
      if abs in env.markers && |mine| > 0 {
        assert mine[0] in rows;
        MoveUserIgnoringErrorStores(rows, mine[0], abs);
      } else {
        assert LocateUser(rows, uid, parentDir, env) == MatchOrScanUser(rows, uid, abs, env.markers);
        if Lookup(rows, UserEntityDirKey, (uid, Fold(abs))).None? {
          match FirstMarked(mine, env.markers)
          case Some(i) =>
            assert mine[i] in rows;
            MoveUserIgnoringErrorStores(rows, mine[i], abs);
          case None =>
        }
      }
  }

  /**
   * A locate-path relocation of the stored row `e` is accepted, and so reports
   * a stored row, when no other row of its user holds the target directory.
   */
  lemma MoveUserIgnoringErrorStores(rows: seq<UserEntity>, e: UserEntity, abs: Path)
    requires UserEntitiesValid(rows) && e in rows
    ensures (forall j :: 0 <= j < |rows| && rows[j].uid == e.uid && EqualFold(rows[j].parentDir, abs) ==> rows[j].id == e.id) ==>
            var out := MoveUserIgnoringError(rows, e, abs);
            out.0.value.value in out.1
  {
    if forall j :: 0 <= j < |rows| && rows[j].uid == e.uid && EqualFold(rows[j].parentDir, abs) ==> rows[j].id == e.id {
      RelocatedUserRow(rows, e, abs, None);
      RelocateUserEntityKeepsValid(rows, e.id, abs, None);
      var m :| 0 <= m < |rows| && rows[m] == e;
      forall i, j | 0 <= i < |rows| && 0 <= j < |rows| && i != j && rows[i].id == e.id
        ensures !(rows[j].uid == rows[i].uid && EqualFold(rows[j].parentDir, abs))
      {
        assert UserEntityIdOf(rows[i]) == UserEntityIdOf(rows[m]);
        assert i == m;
        var x, y := rows[j], rows[m];
        assert x.uid == y.uid && EqualFold(x.parentDir, abs) ==> UserEntityIdOf(x) == UserEntityIdOf(y);
      }
    }
  }

  // ---------------------------------------------------------------- properties: LocateLstEntity

  /** A store error never surfaces from LocateLstEntity: it fails only when the path cannot be made absolute. */
  lemma LocateLstFailsOnlyWithoutAbsPath(rows: seq<LstEntity>, lid: int, parentDir: Path, env: Env)
    ensures var out := LocateLst(rows, lid, parentDir, env);
            (out.0.Err? <==> Abs(env, parentDir).None?) &&
            (out.0.Err? ==> out.1 == rows && out.0.error == WorkingDirUnavailable)
  {
  }

  /**
   * LocateLstEntity never inserts or deletes a row, and the only row it can
   * change is the one it returns, and only in its directory.
   */
  lemma LocateLstOnlyMovesReturnedRow(rows: seq<LstEntity>, lid: int, parentDir: Path, env: Env)
    requires LstEntitiesValid(rows)
    ensures var out := LocateLst(rows, lid, parentDir, env);
            |out.1| == |rows| &&
            forall i :: 0 <= i < |rows| && out.1[i] != rows[i] ==>
              out.0 == Ok(Some(out.1[i])) && out.1[i] == rows[i].(parentDir := out.1[i].parentDir)
  {
    match Abs(env, parentDir)
    case None =>
    case Some(abs) =>
      var mine := Where(rows, LstEntityOwner, lid);
      if Lookup(rows, LstEntityDirKey, (lid, Fold(abs))).None? && |mine| > 0 && abs in env.existing {
        RelocatedLstRow(rows, mine[0], abs);
      }
  }

  /** LocateLstEntity keeps the primary key and the (lst_id, parent_dir) constraint. */
  lemma LocateLstKeepsValid(rows: seq<LstEntity>, lid: int, parentDir: Path, env: Env)
    requires LstEntitiesValid(rows)
    ensures LstEntitiesValid(LocateLst(rows, lid, parentDir, env).1)
  {
    match Abs(env, parentDir)
    case None =>
    case Some(abs) =>
      var mine := Where(rows, LstEntityOwner, lid);
      if Lookup(rows, LstEntityDirKey, (lid, Fold(abs))).None? && |mine| > 0 && abs in env.existing {
        RelocateLstEntityKeepsValid(rows, mine[0].id, abs);
      }
  }

  /** Exact match: a row of the list whose directory equals `abs` up to case is returned unchanged, store untouched. */
  lemma LocateLstExactMatchIsNoOp(rows: seq<LstEntity>, lid: int, parentDir: Path, env: Env, abs: Path, k: nat)
    requires LstEntitiesValid(rows)
    requires Abs(env, parentDir) == Some(abs)
    requires k < |rows| && rows[k].lstId == lid && EqualFold(rows[k].parentDir, abs)
    ensures LocateLst(rows, lid, parentDir, env) == (Ok(Some(rows[k])), rows)
  {
    assert FirstIndex(rows, LstEntityDirKey, (lid, Fold(abs))) == Some(k) by {
      forall j | 0 <= j < k ensures LstEntityDirKey(rows[j]) != (lid, Fold(abs)) {
        assert LstEntityDirKey(rows[j]) != LstEntityDirKey(rows[k]);
      }
    }
  }

  /**
   * Fallback without a name check: with no exact match, when the directory
   * `abs` exists the list's first row is returned moved to `abs`, whatever its
   * name; when the directory does not exist or the list has no row, nil is
   * returned and the store is untouched.
   */
  lemma LocateLstFallbackIgnoresName(rows: seq<LstEntity>, lid: int, parentDir: Path, env: Env, abs: Path)
    requires Abs(env, parentDir) == Some(abs)
    requires forall i :: 0 <= i < |rows| && rows[i].lstId == lid ==> !EqualFold(rows[i].parentDir, abs)
    ensures var out := LocateLst(rows, lid, parentDir, env);
            match FirstIndex(rows, LstEntityOwner, lid)
            case Some(k) =>
              if abs in env.existing then out.0 == Ok(Some(rows[k].(parentDir := abs)))
              else out == (Ok(None), rows)
            case None => out == (Ok(None), rows)
  {
    assert Lookup(rows, LstEntityDirKey, (lid, Fold(abs))).None? by {
      forall x | x in rows ensures LstEntityDirKey(x) != (lid, Fold(abs)) {
        var i :| 0 <= i < |rows| && rows[i] == x;
      }
    }
  }

  /**
   * The row LocateLstEntity returns is always what the store holds: the
   * relocation it makes happens only when no row of the list holds the target
   * directory, so the UPDATE whose error it drops cannot be refused.
   */
  lemma LocateLstReportsStoredRow(rows: seq<LstEntity>, lid: int, parentDir: Path, env: Env)
    requires LstEntitiesValid(rows)
    ensures var out := LocateLst(rows, lid, parentDir, env);
            out.0.Ok? && out.0.value.Some? ==> out.0.value.value in out.1
  {
    match Abs(env, parentDir)
    case None =>
    case Some(abs) =>
      var mine := Where(rows, LstEntityOwner, lid);
      if Lookup(rows, LstEntityDirKey, (lid, Fold(abs))).None? && |mine| > 0 && abs in env.existing {
        RelocatedLstRow(rows, mine[0], abs);
        RelocateLstEntityKeepsValid(rows, mine[0].id, abs);
        assert mine[0].lstId == lid;
      }
  }

  // ---------------------------------------------------------------- properties: CreateOrUpdateLstEntityWithPathChange

  /**
   * Relocation by name: when the list has a row whose name equals the
   * candidate's up to case, the first such row in store order is moved to the
   * absolute path and returned with its stored name; every other row is kept.
   * Or, when another row of the list already holds that directory, the
   * uniqueness error is returned and the store is unchanged.
   */
  lemma CreateOrUpdateLstRelocatesSameName(rows: seq<LstEntity>, entity: LstEntity, env: Env, abs: Path, j: nat)
    requires LstEntitiesValid(rows)
    requires Abs(env, entity.parentDir) == Some(abs)
    requires j < |rows| && rows[j].lstId == entity.lstId && EqualFold(rows[j].name, entity.name)
    requires forall l :: 0 <= l < j && rows[l].lstId == entity.lstId ==> !EqualFold(rows[l].name, entity.name)
    ensures var out := CreateOrUpdateLst(rows, entity, env);
            (out.0 == Ok(rows[j].(parentDir := abs)) && |out.1| == |rows| && out.1[j] == rows[j].(parentDir := abs) &&
             forall i :: 0 <= i < |rows| && i != j ==> out.1[i] == rows[i]) ||
            (out.0 == Err(UniqueViolation(LstEntities)) && out.1 == rows)
    ensures var out := CreateOrUpdateLst(rows, entity, env);
            out.0.Ok? <==> forall m :: 0 <= m < |rows| && m != j && rows[m].lstId == entity.lstId ==>
                                        !EqualFold(rows[m].parentDir, abs)
  {
    var mine := Where(rows, LstEntityOwner, entity.lstId);
    var named := (e: LstEntity) => Fold(e.name);
    assert rows[j] in mine;
    var i := FirstNamed(mine, entity.name).value;
    FirstIndexOfWhere(rows, LstEntityOwner, entity.lstId, named, Fold(entity.name), i);
    var j' :| 0 <= j' < |rows| && mine[i] == rows[j'] && rows[j'].lstId == entity.lstId &&
              named(rows[j']) == Fold(entity.name) &&
              NoneBefore(rows, LstEntityOwner, entity.lstId, named, Fold(entity.name), j');
    var found, wanted := rows[j'], rows[j];
    assert j' < j ==> !EqualFold(found.name, entity.name);
    assert j < j' ==> named(wanted) != Fold(entity.name);
    assert j' == j;
    MoveLstOutcome(rows, j, abs);
  }

  /**
   * Relocating the stored row `k` on the list create path succeeds exactly
   * when no other row of its list holds the target directory up to case, and
   * then rewrites that row's directory alone.
   */
  lemma MoveLstOutcome(rows: seq<LstEntity>, k: nat, abs: Path)
    requires LstEntitiesValid(rows) && k < |rows|
    ensures var out := MoveLst(rows, rows[k], abs);
            (out.0.Ok? <==> forall j :: 0 <= j < |rows| && j != k && rows[j].lstId == rows[k].lstId ==>
                                         !EqualFold(rows[j].parentDir, abs)) &&
            (out.0.Ok? ==> out == (Ok(rows[k].(parentDir := abs)), rows[k := rows[k].(parentDir := abs)])) &&
            (out.0.Err? ==> out == (Err(UniqueViolation(LstEntities)), rows))
  {
    assert FirstIndex(rows, LstEntityIdOf, rows[k].id) == Some(k) by {
      forall j | 0 <= j < k ensures LstEntityIdOf(rows[j]) != rows[k].id {
        assert LstEntityIdOf(rows[j]) != LstEntityIdOf(rows[k]);
      }
    }
    var moved := rows[k].(parentDir := abs);
    assert LstEntityDirKey(moved) == (rows[k].lstId, Fold(abs));
  }

  /**
   * A row is inserted only when no row of the list has the candidate's name up
   * to case; it is appended with a fresh id and is the entity returned.
   */
  lemma CreateOrUpdateLstInsertsOnlyWithoutName(rows: seq<LstEntity>, entity: LstEntity, env: Env)
    ensures var out := CreateOrUpdateLst(rows, entity, env);
            |out.1| != |rows| ==>
              (forall i :: 0 <= i < |rows| && rows[i].lstId == entity.lstId ==> !EqualFold(rows[i].name, entity.name)) &&
              out.0.Ok? && out.1 == rows + [out.0.value] &&
              Abs(env, entity.parentDir) == Some(out.0.value.parentDir) &&
              out.0.value.lstId == entity.lstId && out.0.value.name == entity.name &&
              forall i :: 0 <= i < |rows| ==> rows[i].id != out.0.value.id
  {
    match Abs(env, entity.parentDir)
    case None =>
    case Some(abs) =>
      var mine := Where(rows, LstEntityOwner, entity.lstId);
      if FirstNamed(mine, entity.name).None? {
        NoneInWhere(rows, LstEntityOwner, entity.lstId, (e: LstEntity) => Fold(e.name), Fold(entity.name));
      }
  }

  /**
   * On success the returned entity is a row of the store, at the absolute path
   * and of the caller's list; on failure the store is unchanged.
   */
  lemma CreateOrUpdateLstStoresReturnedEntity(rows: seq<LstEntity>, entity: LstEntity, env: Env)
    requires LstEntitiesValid(rows)
    ensures var out := CreateOrUpdateLst(rows, entity, env);
            (out.0.Err? ==> out.1 == rows) &&
            (out.0.Ok? ==>
               out.0.value in out.1 && Abs(env, entity.parentDir) == Some(out.0.value.parentDir) &&
               out.0.value.lstId == entity.lstId)
  {
    match Abs(env, entity.parentDir)
    case None =>
    case Some(abs) =>
      var mine := Where(rows, LstEntityOwner, entity.lstId);
      match FirstNamed(mine, entity.name)
      case Some(i) =>
        RelocatedLstRow(rows, mine[i], abs);
        assert mine[i] in rows;
      case None =>
        var row := NewLstEntity(rows, entity.lstId, entity.name, abs);
        if InsertLstEntity(rows, row).Ok? {
          assert CreateOrUpdateLst(rows, entity, env).1[|rows|] == row;
        }
  }

  /**
   * With no row of the list sharing the candidate's name, a fresh row is
   * inserted at the absolute path, and that succeeds exactly when no row of the
   * list holds the directory up to case. Otherwise the insert of a duplicate
   * fails with the uniqueness error and the store is unchanged.
   */
  lemma CreateOrUpdateLstInsertsUnlessHeld(rows: seq<LstEntity>, entity: LstEntity, env: Env, abs: Path)
    requires Abs(env, entity.parentDir) == Some(abs)
    requires forall i :: 0 <= i < |rows| && rows[i].lstId == entity.lstId ==> !EqualFold(rows[i].name, entity.name)
    ensures var row := NewLstEntity(rows, entity.lstId, entity.name, abs);
            var out := CreateOrUpdateLst(rows, entity, env);
            (out.0.Ok? <==> forall i :: 0 <= i < |rows| && rows[i].lstId == entity.lstId ==> !EqualFold(rows[i].parentDir, abs)) &&
            (out.0.Ok? ==> out == (Ok(entity.(id := row.id, parentDir := abs)), rows + [row])) &&
            (out.0.Err? ==> out == (Err(UniqueViolation(LstEntities)), rows))
  {
    var mine := Where(rows, LstEntityOwner, entity.lstId);
    assert FirstNamed(mine, entity.name).None? by {
      forall l | 0 <= l < |mine| ensures !EqualFold(mine[l].name, entity.name) {
        assert mine[l] in rows;
      }
    }
    assert CreateOrUpdateLst(rows, entity, env) == InsertLst(rows, entity, abs);
    var row := NewLstEntity(rows, entity.lstId, entity.name, abs);
    assert !HeldByOther(rows, LstEntityIdOf, row.id, -1);
  }

  /** The create path keeps the primary key and the (lst_id, parent_dir) constraint. */
  lemma CreateOrUpdateLstKeepsValid(rows: seq<LstEntity>, entity: LstEntity, env: Env)
    requires LstEntitiesValid(rows)
    ensures LstEntitiesValid(CreateOrUpdateLst(rows, entity, env).1)
  {
    match Abs(env, entity.parentDir)
    case None =>
    case Some(abs) =>
      var mine := Where(rows, LstEntityOwner, entity.lstId);
      match FirstNamed(mine, entity.name)
      case Some(i) => RelocateLstEntityKeepsValid(rows, mine[i].id, abs);
      case None => InsertLstEntityKeepsValid(rows, NewLstEntity(rows, entity.lstId, entity.name, abs));
  }

  // ---------------------------------------------------------------- finding: the dropped UPDATE error

  /**
   * As written, LocateUserEntity can report a directory the store never took:
   * user 7 has rows at /a and /b and /b holds a marker, so the fast path tries
   * to move the first row (/a) to /b; the store refuses, the error is dropped,
   * and the call still answers "row 1 is at /b".
   */
  lemma LocateUserMayReportUnstoredDir()
    ensures var rows := [UserEntity(1, 7, "a", None, "/a", None), UserEntity(2, 7, "b", None, "/b", None)];
            var out := LocateUser(rows, 7, "/b", Env(None, {"/b"}, {}));
            out.0 == Ok(Some(rows[0].(parentDir := "/b"))) && out.1 == rows &&
            out.0.value.value !in out.1
  {
    var rows := [UserEntity(1, 7, "a", None, "/a", None), UserEntity(2, 7, "b", None, "/b", None)];
    var mine := Where(rows, UserEntityOwner, 7);
    assert rows[0] in mine;
    assert mine[0] == rows[0];
    assert FirstIndex(rows, UserEntityIdOf, 1) == Some(0);
    assert HeldByOther(rows, UserEntityDirKey, UserEntityDirKey(rows[0].(parentDir := "/b")), 0) by {
      assert UserEntityDirKey(rows[1]) == UserEntityDirKey(rows[0].(parentDir := "/b"));
    }
    assert Fold("/a") != Fold("/b") by {
      assert Fold("/a")[1] == 'a' && Fold("/b")[1] == 'b';
    }
  }

  /** The fast path's relocation with its error returned, as the create path does. */
  function MoveUserChecked(rows: seq<UserEntity>, e: UserEntity, abs: Path)
    : (r: (Result<Option<UserEntity>, DbError>, seq<UserEntity>))
    ensures r.0.Err? ==> r.0.error == UniqueViolation(UserEntities) && r.1 == rows
    ensures r.0.Ok? ==> r.0.value.Some? && r.0.value.value.id == e.id && r.0.value.value.parentDir == abs
    ensures |r.1| == |rows| && forall i :: 0 <= i < |rows| && rows[i].id != e.id ==> r.1[i] == rows[i]
  {
    match RelocateUserEntity(rows, e.id, abs, None)
    case Err(err) => (Err(err), rows)
    case Ok(rows') => (Ok(Some(e.(parentDir := abs))), rows')
  }

  /** LocateUserEntity with the relocation errors returned instead of dropped. */
  function LocateUserChecked(rows: seq<UserEntity>, uid: nat, parentDir: Path, env: Env)
    : (r: (Result<Option<UserEntity>, DbError>, seq<UserEntity>))
    ensures Abs(env, parentDir).None? ==> r.0 == Err(WorkingDirUnavailable)
    ensures r.0.Err? ==> r.1 == rows
    ensures |r.1| == |rows|
    ensures r.0.Ok? && r.0.value.Some? ==>
              r.0.value.value.uid == uid && EqualFold(r.0.value.value.parentDir, Abs(env, parentDir).value)
  {
    match Abs(env, parentDir)
    case None => (Err(WorkingDirUnavailable), rows)
    case Some(abs) =>
      var mine := Where(rows, UserEntityOwner, uid);
      if abs in env.markers && |mine| > 0 then assert mine[0] in mine; MoveUserChecked(rows, mine[0], abs)
      else match Lookup(rows, UserEntityDirKey, (uid, Fold(abs)))
        case Some(e) => (Ok(Some(e)), rows)
        case None =>
          match FirstMarked(mine, env.markers)
          case Some(i) => assert mine[i] in mine; MoveUserChecked(rows, mine[i], abs)
          case None => (Ok(None), rows)
  }

  /**
   * With errors returned, every entity LocateUserChecked reports is a row of
   * the store, it agrees with LocateUserEntity whenever it succeeds, and a
   * failure leaves the store unchanged.
   */
  lemma LocateUserCheckedReportsStoredRow(rows: seq<UserEntity>, uid: nat, parentDir: Path, env: Env)
    requires UserEntitiesValid(rows)
    ensures var out := LocateUserChecked(rows, uid, parentDir, env);
            (out.0.Ok? && out.0.value.Some? ==> out.0.value.value in out.1) &&
            (out.0.Ok? ==> out == LocateUser(rows, uid, parentDir, env)) &&
            (out.0.Err? ==> out.1 == rows)
  {
    match Abs(env, parentDir)
    case None =>
    case Some(abs) =>
      var mine := Where(rows, UserEntityOwner, uid);
      if abs in env.markers && |mine| > 0 {
        RelocatedUserRow(rows, mine[0], abs, None);
      } else if Lookup(rows, UserEntityDirKey, (uid, Fold(abs))).None? {
        match FirstMarked(mine, env.markers)
        case Some(i) => RelocatedUserRow(rows, mine[i], abs, None);
        case None =>
      }
  }
}
