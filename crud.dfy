/**
 * The store as the Go package sees it: one object holding the six tables, with
 * one method per exported function of the database package. Methods that issue
 * INSERT, UPDATE or DELETE statements change the table they name and nothing
 * else; the Get functions read the tables without changing them. The four
 * reconciliation methods walk the selected rows with the same loops as the Go
 * code and are proved to compute exactly the functions of module Reconcile,
 * about which the engine's properties are proved.
 */
module Crud {
  import opened Wrappers
  import opened Paths
  import opened Tables
  import opened Schema
  import opened Reconcile

  class Store {
    var users: seq<User>
    var previousNames: seq<PreviousName>
    var lsts: seq<Lst>
    var lstEntities: seq<LstEntity>
    var userEntities: seq<UserEntity>
    var userLinks: seq<UserLink>

    /** Every PRIMARY KEY and UNIQUE constraint of the schema holds. */
    ghost predicate Valid()
      reads this
    {
      UsersValid(users) && PreviousNamesValid(previousNames) && LstsValid(lsts) &&
      LstEntitiesValid(lstEntities) && UserEntitiesValid(userEntities) && UserLinksValid(userLinks)
    }

    /** A database on which CreateTables has just run: every table exists and is empty. */
    constructor ()
      ensures Valid()
      ensures users == [] && previousNames == [] && lsts == []
      ensures lstEntities == [] && userEntities == [] && userLinks == []
    {
      users, previousNames, lsts := [], [], [];
      lstEntities, userEntities, userLinks := [], [], [];
    }

    // ------------------------------------------------------------ users

    /** INSERT of a user with its own id: refused when the id or the screen name is taken. */
    method CreateUser(usr: User) returns (r: Outcome<DbError>)
      requires Valid()
      modifies this`users
      ensures Valid()
      ensures r.Pass? <==>
        forall i :: 0 <= i < |old(users)| ==> old(users)[i].id != usr.id && old(users)[i].screenName != usr.screenName
      ensures r.Pass? ==> users == old(users) + [usr] && GetUserById(usr.id) == Some(usr)
      ensures r.Fail? ==> users == old(users) && (r.error == PrimaryKeyViolation(Users) || r.error == UniqueViolation(Users))
    {
      var res := InsertRow(users, UserIdOf, ScreenNameOf, usr, Users);
      InsertRowKeepsDistinct(users, UserIdOf, ScreenNameOf, usr, Users);
      if res.Err? {
        return Fail(res.error);
      }
      LookupAfterInsert(users, UserIdOf, usr);
      users := res.value;
      return Pass;
    }

    /** DELETE of the user with id `uid`; every other user is kept. */
    method DelUser(uid: nat)
      requires Valid()
      modifies this`users
      ensures Valid()
      ensures users == DeleteWhere(old(users), UserIdOf, uid)
      ensures GetUserById(uid).None?
      ensures forall u :: u in old(users) && u.id != uid ==> u in users
    {
      DeleteKeepsDistinct(users, UserIdOf, uid, UserIdOf);
      DeleteKeepsDistinct(users, UserIdOf, uid, ScreenNameOf);
      users := DeleteWhere(users, UserIdOf, uid);
    }

    /** SELECT of the user with id `uid`; nil when there is none. */
    function GetUserById(uid: nat): (r: Option<User>)
      reads this
      ensures r.Some? ==> r.value in users && r.value.id == uid
      ensures r.None? <==> forall u :: u in users ==> u.id != uid
    {
      Lookup(users, UserIdOf, uid)
    }

    /**
     * UPDATE of every column of the user with `usr`'s id; refused when another
     * user holds the new screen name.
     */
    method UpdateUser(usr: User) returns (r: Outcome<DbError>)
      requires Valid()
      modifies this`users
      ensures Valid()
      ensures r.Fail? <==> exists i, j :: 0 <= i < |old(users)| && 0 <= j < |old(users)| && i != j &&
                                          old(users)[i].id == usr.id && old(users)[j].screenName == usr.screenName
      ensures r.Fail? ==> r.error == UniqueViolation(Users) && users == old(users)
      ensures r.Pass? ==> users == UpdateWhere(old(users), UserIdOf, usr.id, UserUpdate(usr))
      ensures r.Pass? ==> GetUserById(usr.id) == if old(GetUserById(usr.id)).Some? then Some(usr) else None
    {
      var res := UpdateRow(users, UserIdOf, ScreenNameOf, usr.id, UserUpdate(usr), Users);
      UpdateUserOutcome(users, usr);
      if res.Err? {
        return Fail(res.error);
      }
      users := res.value;
      return Pass;
    }

    /**
     * INSERT into user_previous_names with a fresh rowid and `now` as the record
     * date: the history only grows, by exactly one row.
     */
    method RecordUserPreviousName(uid: nat, name: string, screenName: string, now: Time) returns (record: PreviousName)
      requires Valid()
      modifies this`previousNames
      ensures Valid()
      ensures previousNames == old(previousNames) + [record]
      ensures record.uid == uid && record.name == name && record.screenName == screenName && record.recordDate == now
      ensures forall i :: 0 <= i < |old(previousNames)| ==> old(previousNames)[i].id != record.id
    {
      record := PreviousName(NextRowId(previousNames, PreviousNameIdOf), uid, screenName, name, now);
      InsertKeepsDistinct(previousNames, PreviousNameIdOf, record);
      previousNames := previousNames + [record];
    }

    // ------------------------------------------------------------ user entities

    /**
     * INSERT of a user entity at the absolute form of its directory, with a fresh
     * rowid: refused when another row of the same user holds that directory up to
     * case. The inserted entity is returned with its id and absolute directory.
     */
    method CreateUserEntity(entity: UserEntity, env: Env) returns (r: Result<UserEntity, DbError>)
      requires Valid()
      modifies this`userEntities
      ensures Valid()
      ensures Abs(env, entity.parentDir).None? ==> r == Err(WorkingDirUnavailable)
      ensures r.Err? ==> userEntities == old(userEntities)
      ensures Abs(env, entity.parentDir).Some? ==>
        (r.Ok? <==> forall i :: 0 <= i < |old(userEntities)| ==>
                      !(old(userEntities)[i].uid == entity.uid &&
                        EqualFold(old(userEntities)[i].parentDir, Abs(env, entity.parentDir).value)))
      ensures r.Ok? ==>
        Abs(env, entity.parentDir) == Some(r.value.parentDir) &&
        r.value == entity.(id := r.value.id, parentDir := r.value.parentDir) &&
        (forall i :: 0 <= i < |old(userEntities)| ==> old(userEntities)[i].id != r.value.id) &&
        userEntities == old(userEntities) + [UserEntity(r.value.id, entity.uid, entity.name, None, r.value.parentDir, None)] &&
        GetUserEntity(r.value.id) == Some(userEntities[|old(userEntities)|])
    {
      var absPath := Abs(env, entity.parentDir);
      if absPath.None? {
        return Err(WorkingDirUnavailable);
      }
      var abs := absPath.value;
      var row := NewUserEntity(userEntities, entity.uid, entity.name, abs);
      var res := InsertUserEntity(userEntities, row);
      InsertUserEntityKeepsValid(userEntities, row);
      if res.Err? {
        return Err(res.error);
      }
      LookupAfterInsert(userEntities, UserEntityIdOf, row);
      userEntities := res.value;
      return Ok(entity.(id := row.id, parentDir := abs));
    }

    /** DELETE of the user entity with id `id`; every other row is kept. */
    method DelUserEntity(id: int)
      requires Valid()
      modifies this`userEntities
      ensures Valid()
      ensures userEntities == DeleteWhere(old(userEntities), UserEntityIdOf, id)
      ensures GetUserEntity(id).None?
      ensures forall e :: e in old(userEntities) && e.id != id ==> e in userEntities
    {
      DeleteKeepsDistinct(userEntities, UserEntityIdOf, id, UserEntityIdOf);
      DeleteKeepsDistinct(userEntities, UserEntityIdOf, id, UserEntityDirKey);
      userEntities := DeleteWhere(userEntities, UserEntityIdOf, id);
    }

    /** SELECT of the user entity with id `id`; nil when there is none. */
    function GetUserEntity(id: int): (r: Option<UserEntity>)
      reads this
      ensures r.Some? ==> r.value in userEntities && r.value.id == id
      ensures r.None? <==> forall e :: e in userEntities ==> e.id != id
    {
      Lookup(userEntities, UserEntityIdOf, id)
    }

    /** UPDATE of the name, latest release time and media count of the row with `entity`'s id. */
    method UpdateUserEntity(entity: UserEntity)
      requires Valid()
      modifies this`userEntities
      ensures Valid()
      ensures userEntities == UpdateWhere(old(userEntities), UserEntityIdOf, entity.id,
        (e: UserEntity) => e.(name := entity.name, latestReleaseTime := entity.latestReleaseTime, mediaCount := entity.mediaCount))
      ensures GetUserEntity(entity.id) ==
        match old(GetUserEntity(entity.id))
        case None => None
        case Some(e) => Some(e.(name := entity.name, latestReleaseTime := entity.latestReleaseTime, mediaCount := entity.mediaCount))
    {
      var change := (e: UserEntity) =>
        e.(name := entity.name, latestReleaseTime := entity.latestReleaseTime, mediaCount := entity.mediaCount);
      UpdateKeepsDistinct(userEntities, UserEntityIdOf, entity.id, change, UserEntityIdOf);
      UpdateKeepsDistinct(userEntities, UserEntityIdOf, entity.id, change, UserEntityDirKey);
      LookupAfterUpdate(userEntities, UserEntityIdOf, entity.id, change);
      userEntities := UpdateWhere(userEntities, UserEntityIdOf, entity.id, change);
    }

    /** UPDATE of the media count of the row with id `eid`. */
    method UpdateUserEntityMediCount(eid: int, count: int)
      requires Valid()
      modifies this`userEntities
      ensures Valid()
      ensures userEntities == UpdateWhere(old(userEntities), UserEntityIdOf, eid, (e: UserEntity) => e.(mediaCount := Some(count)))
      ensures GetUserEntity(eid) ==
        match old(GetUserEntity(eid)) case None => None case Some(e) => Some(e.(mediaCount := Some(count)))
    {
      var change := (e: UserEntity) => e.(mediaCount := Some(count));
      UpdateKeepsDistinct(userEntities, UserEntityIdOf, eid, change, UserEntityIdOf);
      UpdateKeepsDistinct(userEntities, UserEntityIdOf, eid, change, UserEntityDirKey);
      LookupAfterUpdate(userEntities, UserEntityIdOf, eid, change);
      userEntities := UpdateWhere(userEntities, UserEntityIdOf, eid, change);
    }

    /** UPDATE of the latest release time and the media count of the row with id `eid`. */
    method UpdateUserEntityTweetStat(eid: int, baseline: Time, count: int)
      requires Valid()
      modifies this`userEntities
      ensures Valid()
      ensures userEntities == UpdateWhere(old(userEntities), UserEntityIdOf, eid,
        (e: UserEntity) => e.(latestReleaseTime := Some(baseline), mediaCount := Some(count)))
      ensures GetUserEntity(eid) ==
        match old(GetUserEntity(eid))
        case None => None
        case Some(e) => Some(e.(latestReleaseTime := Some(baseline), mediaCount := Some(count)))
    {
      var change := (e: UserEntity) => e.(latestReleaseTime := Some(baseline), mediaCount := Some(count));
      UpdateKeepsDistinct(userEntities, UserEntityIdOf, eid, change, UserEntityIdOf);
      UpdateKeepsDistinct(userEntities, UserEntityIdOf, eid, change, UserEntityDirKey);
      LookupAfterUpdate(userEntities, UserEntityIdOf, eid, change);
      userEntities := UpdateWhere(userEntities, UserEntityIdOf, eid, change);
    }

    /** UPDATE of the latest release time of the row with id `id`. */
    method SetUserEntityLatestReleaseTime(id: int, t: Time)
      requires Valid()
      modifies this`userEntities
      ensures Valid()
      ensures userEntities == UpdateWhere(old(userEntities), UserEntityIdOf, id, (e: UserEntity) => e.(latestReleaseTime := Some(t)))
      ensures GetUserEntity(id) ==
        match old(GetUserEntity(id)) case None => None case Some(e) => Some(e.(latestReleaseTime := Some(t)))
    {
      var change := (e: UserEntity) => e.(latestReleaseTime := Some(t));
      UpdateKeepsDistinct(userEntities, UserEntityIdOf, id, change, UserEntityIdOf);
      UpdateKeepsDistinct(userEntities, UserEntityIdOf, id, change, UserEntityDirKey);
      LookupAfterUpdate(userEntities, UserEntityIdOf, id, change);
      userEntities := UpdateWhere(userEntities, UserEntityIdOf, id, change);
    }

    /** One relocating UPDATE on user_entities; its error is returned for the caller to keep or drop. */
    method ExecRelocateUserEntity(id: int, dir: Path, name: Option<string>) returns (r: Outcome<DbError>)
      requires Valid()
      modifies this`userEntities
      ensures Valid()
      ensures match RelocateUserEntity(old(userEntities), id, dir, name)
              case Ok(rows) => r.Pass? && userEntities == rows
              case Err(err) => r == Fail(err) && userEntities == old(userEntities)
    {
      var res := RelocateUserEntity(userEntities, id, dir, name);
      RelocateUserEntityKeepsValid(userEntities, id, dir, name);
      if res.Err? {
        return Fail(res.error);
      }
      userEntities := res.value;
      return Pass;
    }

    /** The locate path's relocation: the UPDATE's error is dropped and `e` is reported at `abs`. */
    method MoveUserEntityIgnoringError(e: UserEntity, abs: Path) returns (r: Result<Option<UserEntity>, DbError>)
      requires Valid()
      modifies this`userEntities
      ensures Valid()
      ensures (r, userEntities) == MoveUserIgnoringError(old(userEntities), e, abs)
    {
      var ignored := ExecRelocateUserEntity(e.id, abs, None);
      return Ok(Some(e.(parentDir := abs)));
    }

    /** The create path's relocation: directory and name are written together and a failure is returned. */
    method MoveUserEntity(e: UserEntity, abs: Path, name: string) returns (r: Result<UserEntity, DbError>)
      requires Valid()
      modifies this`userEntities
      ensures Valid()
      ensures (r, userEntities) == MoveUser(old(userEntities), e, abs, name)
    {
      var res := ExecRelocateUserEntity(e.id, abs, Some(name));
      if res.Fail? {
        return Err(res.error);
      }
      return Ok(e.(parentDir := abs, name := name));
    }

    /** The create path's INSERT of a fresh row at `abs`, reported with its new id. */
    method InsertNewUserEntity(entity: UserEntity, abs: Path) returns (r: Result<UserEntity, DbError>)
      requires Valid()
      modifies this`userEntities
      ensures Valid()
      ensures (r, userEntities) == InsertUser(old(userEntities), entity, abs)
    {
      var row := NewUserEntity(userEntities, entity.uid, entity.name, abs);
      var res := InsertUserEntity(userEntities, row);
      InsertUserEntityKeepsValid(userEntities, row);
      if res.Err? {
        return Err(res.error);
      }
      userEntities := res.value;
      return Ok(entity.(id := row.id, parentDir := abs));
    }

    /**
     * LocateUserEntity: when the target directory holds a `.user` marker, the
     * user's first row is moved there; otherwise a row already at the directory
     * is returned; otherwise the first row whose own directory holds a marker is
     * moved there. The relocating UPDATE's error is dropped.
     */
    method LocateUserEntity(uid: nat, parentDir: Path, env: Env) returns (r: Result<Option<UserEntity>, DbError>)
      requires Valid()
      modifies this`userEntities
      ensures Valid()
      ensures (r, userEntities) == LocateUser(old(userEntities), uid, parentDir, env)
    {
      var absPath := Abs(env, parentDir);
      if absPath.None? {
        return Err(WorkingDirUnavailable);
      }
      var abs := absPath.value;
      if abs in env.markers {
        var entities := Where(userEntities, UserEntityOwner, uid);
        if |entities| > 0 {
          r := MoveUserEntityIgnoringError(entities[0], abs);
          return;
        }
      }
      r := MatchOrScanUserEntity(uid, abs, env.markers);
    }

    /** LocateUserEntity after the fast path: the exact match, then the loop over the user's rows. */
    method MatchOrScanUserEntity(uid: nat, abs: Path, markers: set<Path>) returns (r: Result<Option<UserEntity>, DbError>)
      requires Valid()
      modifies this`userEntities
      ensures Valid()
      ensures (r, userEntities) == MatchOrScanUser(old(userEntities), uid, abs, markers)
    {
      var result := Lookup(userEntities, UserEntityDirKey, (uid, Fold(abs)));
      if result.Some? {
        return Ok(result);
      }
      var entities := Where(userEntities, UserEntityOwner, uid);
      var i := 0;
      while i < |entities|
        invariant 0 <= i <= |entities|
        invariant forall k :: 0 <= k < i ==> entities[k].parentDir !in markers
        invariant userEntities == old(userEntities)
      {
        var entity := entities[i];
        if entity.parentDir in markers {
          assert FirstMarked(entities, markers) == Some(i);
          r := MoveUserEntityIgnoringError(entity, abs);
          return;
        }
        i := i + 1;
      }
      return Ok(None);
    }

    /**
     * CreateOrUpdateUserEntityWithPathChange: when the target directory holds a
     * `.user` marker, the user's first row is moved there and renamed; otherwise
     * the first row whose own directory holds a marker is; otherwise a new row is
     * inserted. Every store error is returned.
     */
    method CreateOrUpdateUserEntityWithPathChange(entity: UserEntity, env: Env) returns (r: Result<UserEntity, DbError>)
      requires Valid()
      modifies this`userEntities
      ensures Valid()
      ensures (r, userEntities) == CreateOrUpdateUser(old(userEntities), entity, env)
    {
      var absPath := Abs(env, entity.parentDir);
      if absPath.None? {
        return Err(WorkingDirUnavailable);
      }
      var abs := absPath.value;
      if abs in env.markers {
        var entities := Where(userEntities, UserEntityOwner, entity.uid);
        if |entities| > 0 {
          r := MoveUserEntity(entities[0], abs, entity.name);
          return;
        }
      }
      r := ScanOrInsertUserEntity(entity, abs, env.markers);
    }

    /** The create path after the fast path: the loop over the user's rows, then the insert. */
    method ScanOrInsertUserEntity(entity: UserEntity, abs: Path, markers: set<Path>) returns (r: Result<UserEntity, DbError>)
      requires Valid()
      modifies this`userEntities
      ensures Valid()
      ensures (r, userEntities) == ScanOrInsertUser(old(userEntities), entity, abs, markers)
    {
      var entities := Where(userEntities, UserEntityOwner, entity.uid);
      var i := 0;
      while i < |entities|
        invariant 0 <= i <= |entities|
        invariant forall k :: 0 <= k < i ==> entities[k].parentDir !in markers
        invariant userEntities == old(userEntities)
      {
        var existing := entities[i];
        if existing.parentDir in markers {
          assert FirstMarked(entities, markers) == Some(i);
          r := MoveUserEntity(existing, abs, entity.name);
          return;
        }
        i := i + 1;
      }
      r := InsertNewUserEntity(entity, abs);
    }

    // ------------------------------------------------------------ lists

    /** INSERT of a list with its own id: refused when the id is taken. */
    method CreateLst(lst: Lst) returns (r: Outcome<DbError>)
      requires Valid()
      modifies this`lsts
      ensures Valid()
      ensures r.Pass? <==> forall i :: 0 <= i < |old(lsts)| ==> old(lsts)[i].id != lst.id
      ensures r.Pass? ==> lsts == old(lsts) + [lst] && GetLst(lst.id) == Some(lst)
      ensures r.Fail? ==> lsts == old(lsts) && r.error == PrimaryKeyViolation(Lsts)
    {
      var res := InsertRow(lsts, LstIdOf, LstIdOf, lst, Lsts);
      InsertRowKeepsDistinct(lsts, LstIdOf, LstIdOf, lst, Lsts);
      if res.Err? {
        return Fail(res.error);
      }
      LookupAfterInsert(lsts, LstIdOf, lst);
      lsts := res.value;
      return Pass;
    }

    /** DELETE of the list with id `lid`; every other list is kept. */
    method DelLst(lid: nat)
      requires Valid()
      modifies this`lsts
      ensures Valid()
      ensures lsts == DeleteWhere(old(lsts), LstIdOf, lid)
      ensures GetLst(lid).None?
      ensures forall l :: l in old(lsts) && l.id != lid ==> l in lsts
    {
      DeleteKeepsDistinct(lsts, LstIdOf, lid, LstIdOf);
      lsts := DeleteWhere(lsts, LstIdOf, lid);
    }

    /** SELECT of the list with id `lid`; nil when there is none. */
    function GetLst(lid: nat): (r: Option<Lst>)
      reads this
      ensures r.Some? ==> r.value in lsts && r.value.id == lid
      ensures r.None? <==> forall l :: l in lsts ==> l.id != lid
    {
      Lookup(lsts, LstIdOf, lid)
    }

    /** UPDATE of the name of the list with `lst`'s id; the owner is not touched. */
    method UpdateLst(lst: Lst)
      requires Valid()
      modifies this`lsts
      ensures Valid()
      ensures lsts == UpdateWhere(old(lsts), LstIdOf, lst.id, (l: Lst) => l.(name := lst.name))
      ensures GetLst(lst.id) == match old(GetLst(lst.id)) case None => None case Some(l) => Some(l.(name := lst.name))
    {
      var change := (l: Lst) => l.(name := lst.name);
      UpdateKeepsDistinct(lsts, LstIdOf, lst.id, change, LstIdOf);
      LookupAfterUpdate(lsts, LstIdOf, lst.id, change);
      lsts := UpdateWhere(lsts, LstIdOf, lst.id, change);
    }

    // ------------------------------------------------------------ list entities

    /**
     * INSERT of a list entity at the absolute form of its directory. The id is
     * the entity's own when `idValid` holds (a non-NULL id column) and a fresh
     * rowid otherwise; the insert is refused when the id is taken or another row
     * of the same list holds the directory up to case.
     */
    method CreateLstEntity(entity: LstEntity, idValid: bool, env: Env) returns (r: Result<LstEntity, DbError>)
      requires Valid()
      modifies this`lstEntities
      ensures Valid()
      ensures Abs(env, entity.parentDir).None? ==> r == Err(WorkingDirUnavailable)
      ensures r.Err? ==> lstEntities == old(lstEntities)
      ensures Abs(env, entity.parentDir).Some? ==>
        var id := if idValid then entity.id else NextRowId(old(lstEntities), LstEntityIdOf);
        (r.Ok? <==> forall i :: 0 <= i < |old(lstEntities)| ==>
                      old(lstEntities)[i].id != id &&
                      !(old(lstEntities)[i].lstId == entity.lstId &&
                        EqualFold(old(lstEntities)[i].parentDir, Abs(env, entity.parentDir).value)))
      ensures r.Ok? ==>
        Abs(env, entity.parentDir) == Some(r.value.parentDir) &&
        r.value == entity.(id := r.value.id, parentDir := r.value.parentDir) &&
        (idValid ==> r.value.id == entity.id) &&
        lstEntities == old(lstEntities) + [r.value] && GetLstEntity(r.value.id) == Some(r.value)
    {
      var absPath := Abs(env, entity.parentDir);
      if absPath.None? {
        return Err(WorkingDirUnavailable);
      }
      var abs := absPath.value;
      var id := if idValid then entity.id else NextRowId(lstEntities, LstEntityIdOf);
      var row := entity.(id := id, parentDir := abs);
      var res := InsertLstEntity(lstEntities, row);
      InsertLstEntityKeepsValid(lstEntities, row);
      if res.Err? {
        return Err(res.error);
      }
      LookupAfterInsert(lstEntities, LstEntityIdOf, row);
      lstEntities := res.value;
      return Ok(row);
    }

    /** DELETE of the list entity with id `id`; every other row is kept. */
    method DelLstEntity(id: int)
      requires Valid()
      modifies this`lstEntities
      ensures Valid()
      ensures lstEntities == DeleteWhere(old(lstEntities), LstEntityIdOf, id)
      ensures GetLstEntity(id).None?
      ensures forall e :: e in old(lstEntities) && e.id != id ==> e in lstEntities
    {
      DeleteKeepsDistinct(lstEntities, LstEntityIdOf, id, LstEntityIdOf);
      DeleteKeepsDistinct(lstEntities, LstEntityIdOf, id, LstEntityDirKey);
      lstEntities := DeleteWhere(lstEntities, LstEntityIdOf, id);
    }

    /** SELECT of the list entity with id `id`; nil when there is none. */
    function GetLstEntity(id: int): (r: Option<LstEntity>)
      reads this
      ensures r.Some? ==> r.value in lstEntities && r.value.id == id
      ensures r.None? <==> forall e :: e in lstEntities ==> e.id != id
    {
      Lookup(lstEntities, LstEntityIdOf, id)
    }

    /** UPDATE of the name of the list entity with `entity`'s id; its directory is not touched. */
    method UpdateLstEntity(entity: LstEntity)
      requires Valid()
      modifies this`lstEntities
      ensures Valid()
      ensures lstEntities == UpdateWhere(old(lstEntities), LstEntityIdOf, entity.id, (e: LstEntity) => e.(name := entity.name))
      ensures GetLstEntity(entity.id) ==
        match old(GetLstEntity(entity.id)) case None => None case Some(e) => Some(e.(name := entity.name))
    {
      var change := (e: LstEntity) => e.(name := entity.name);
      UpdateKeepsDistinct(lstEntities, LstEntityIdOf, entity.id, change, LstEntityIdOf);
      UpdateKeepsDistinct(lstEntities, LstEntityIdOf, entity.id, change, LstEntityDirKey);
      LookupAfterUpdate(lstEntities, LstEntityIdOf, entity.id, change);
      lstEntities := UpdateWhere(lstEntities, LstEntityIdOf, entity.id, change);
    }

    /** One relocating UPDATE on lst_entities; its error is returned for the caller to keep or drop. */
    method ExecRelocateLstEntity(id: int, dir: Path) returns (r: Outcome<DbError>)
      requires Valid()
      modifies this`lstEntities
      ensures Valid()
      ensures match RelocateLstEntity(old(lstEntities), id, dir)
              case Ok(rows) => r.Pass? && lstEntities == rows
              case Err(err) => r == Fail(err) && lstEntities == old(lstEntities)
    {
      var res := RelocateLstEntity(lstEntities, id, dir);
      RelocateLstEntityKeepsValid(lstEntities, id, dir);
      if res.Err? {
        return Fail(res.error);
      }
      lstEntities := res.value;
      return Pass;
    }

    /**
     * LocateLstEntity: a row of the list already at the directory is returned;
     * otherwise, when the directory exists, the list's first row is moved there,
     * dropping the UPDATE's error. The loop's test does not depend on the row.
     */
    method LocateLstEntity(lid: int, parentDir: Path, env: Env) returns (r: Result<Option<LstEntity>, DbError>)
      requires Valid()
      modifies this`lstEntities
      ensures Valid()
      ensures (r, lstEntities) == LocateLst(old(lstEntities), lid, parentDir, env)
    {
      var absPath := Abs(env, parentDir);
      if absPath.None? {
        return Err(WorkingDirUnavailable);
      }
      var abs := absPath.value;
      var result := Lookup(lstEntities, LstEntityDirKey, (lid, Fold(abs)));
      if result.Some? {
        return Ok(result);
      }
      var entities := Where(lstEntities, LstEntityOwner, lid);
      var i := 0;
      while i < |entities|
        invariant 0 <= i <= |entities|
        invariant i > 0 ==> abs !in env.existing
        invariant lstEntities == old(lstEntities)
      {
        var entity := entities[i];
        if abs in env.existing {
          var ignored := ExecRelocateLstEntity(entity.id, abs);
          return Ok(Some(entity.(parentDir := abs)));
        }
        i := i + 1;
      }
      return Ok(None);
    }

    /**
     * CreateOrUpdateLstEntityWithPathChange: the list's first row whose name
     * equals the entity's up to case is moved to the absolute directory, keeping
     * its stored name; with no such row a new one is inserted. Every store error
     * is returned.
     */
    method CreateOrUpdateLstEntityWithPathChange(entity: LstEntity, env: Env) returns (r: Result<LstEntity, DbError>)
      requires Valid()
      modifies this`lstEntities
      ensures Valid()
      ensures (r, lstEntities) == CreateOrUpdateLst(old(lstEntities), entity, env)
    {
      var absPath := Abs(env, entity.parentDir);
      if absPath.None? {
        return Err(WorkingDirUnavailable);
      }
      var abs := absPath.value;
      var entities := Where(lstEntities, LstEntityOwner, entity.lstId);
      var i := 0;
      while i < |entities|
        invariant 0 <= i <= |entities|
        invariant forall k :: 0 <= k < i ==> !EqualFold(entities[k].name, entity.name)
        invariant lstEntities == old(lstEntities)
      {
        var existing := entities[i];
        if EqualFold(existing.name, entity.name) {
          assert FirstNamed(entities, entity.name) == Some(i);
          r := MoveLstEntity(existing, abs);
          return;
        }
        i := i + 1;
      }
      r := InsertNewLstEntity(entity, abs);
    }

    /** The list create path's relocation: only the directory is written and a failure is returned. */
    method MoveLstEntity(e: LstEntity, abs: Path) returns (r: Result<LstEntity, DbError>)
      requires Valid()
      modifies this`lstEntities
      ensures Valid()
      ensures (r, lstEntities) == MoveLst(old(lstEntities), e, abs)
    {
      var res := ExecRelocateLstEntity(e.id, abs);
      if res.Fail? {
        return Err(res.error);
      }
      return Ok(e.(parentDir := abs));
    }

    /** The list create path's INSERT of a fresh row at `abs`, reported with its new id. */
    method InsertNewLstEntity(entity: LstEntity, abs: Path) returns (r: Result<LstEntity, DbError>)
      requires Valid()
      modifies this`lstEntities
      ensures Valid()
      ensures (r, lstEntities) == InsertLst(old(lstEntities), entity, abs)
    {
      var row := NewLstEntity(lstEntities, entity.lstId, entity.name, abs);
      var res := InsertLstEntity(lstEntities, row);
      InsertLstEntityKeepsValid(lstEntities, row);
      if res.Err? {
        return Err(res.error);
      }
      lstEntities := res.value;
      return Ok(entity.(id := row.id, parentDir := abs));
    }

    // ------------------------------------------------------------ user links

    /**
     * INSERT of a link with a fresh rowid: refused when the user already has a
     * link under the same parent list entity. The link is returned with its id.
     */
    method CreateUserLink(lnk: UserLink) returns (r: Result<UserLink, DbError>)
      requires Valid()
      modifies this`userLinks
      ensures Valid()
      ensures r.Ok? <==> forall i :: 0 <= i < |old(userLinks)| ==>
        !(old(userLinks)[i].uid == lnk.uid && old(userLinks)[i].parentLstEntityId == lnk.parentLstEntityId)
      ensures r.Err? ==> r.error == UniqueViolation(UserLinks) && userLinks == old(userLinks)
      ensures r.Ok? ==>
        r.value == lnk.(id := r.value.id) && userLinks == old(userLinks) + [r.value] &&
        (forall i :: 0 <= i < |old(userLinks)| ==> old(userLinks)[i].id != r.value.id) &&
        GetUserLink(lnk.uid, lnk.parentLstEntityId) == Some(r.value)
    {
      var row := lnk.(id := NextRowId(userLinks, UserLinkIdOf));
      var res := InsertRow(userLinks, UserLinkIdOf, UserLinkKey, row, UserLinks);
      InsertRowKeepsDistinct(userLinks, UserLinkIdOf, UserLinkKey, row, UserLinks);
      if res.Err? {
        return Err(res.error);
      }
      LookupAfterInsert(userLinks, UserLinkKey, row);
      userLinks := res.value;
      return Ok(row);
    }

    /** DELETE of the link with id `id`; every other link is kept. */
    method DelUserLink(id: int)
      requires Valid()
      modifies this`userLinks
      ensures Valid()
      ensures userLinks == DeleteWhere(old(userLinks), UserLinkIdOf, id)
      ensures forall l :: l in userLinks ==> l.id != id
      ensures forall l :: l in old(userLinks) && l.id != id ==> l in userLinks
    {
      DeleteKeepsDistinct(userLinks, UserLinkIdOf, id, UserLinkIdOf);
      DeleteKeepsDistinct(userLinks, UserLinkIdOf, id, UserLinkKey);
      userLinks := DeleteWhere(userLinks, UserLinkIdOf, id);
    }

    /** SELECT of every link of user `uid`, in store order. */
    function GetUserLinks(uid: nat): (r: seq<UserLink>)
      reads this
      ensures forall l :: l in r <==> l in userLinks && l.uid == uid
      ensures |r| <= |userLinks|
    {
      Where(userLinks, UserLinkOwner, uid)
    }

    /** SELECT of the link of user `uid` under list entity `parentLstEntityId`; nil when there is none. */
    function GetUserLink(uid: nat, parentLstEntityId: int): (r: Option<UserLink>)
      reads this
      ensures r.Some? ==> r.value in userLinks && r.value.uid == uid && r.value.parentLstEntityId == parentLstEntityId
      ensures r.None? <==> forall l :: l in userLinks ==> !(l.uid == uid && l.parentLstEntityId == parentLstEntityId)
    {
      Lookup(userLinks, UserLinkKey, (uid, parentLstEntityId))
    }

    /** UPDATE of the name of the link with id `id`. */
    method UpdateUserLink(id: int, name: string)
      requires Valid()
      modifies this`userLinks
      ensures Valid()
      ensures userLinks == UpdateWhere(old(userLinks), UserLinkIdOf, id, (l: UserLink) => l.(name := name))
      ensures forall l :: l in userLinks && l.id == id ==> l.name == name
    {
      var change := (l: UserLink) => l.(name := name);
      UpdateKeepsDistinct(userLinks, UserLinkIdOf, id, change, UserLinkIdOf);
      UpdateKeepsDistinct(userLinks, UserLinkIdOf, id, change, UserLinkKey);
      userLinks := UpdateWhere(userLinks, UserLinkIdOf, id, change);
    }
  }
}
