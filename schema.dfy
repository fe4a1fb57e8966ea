/**
 * The six tables of the store: their rows, their PRIMARY KEY and UNIQUE
 * constraints, and the effect of each INSERT or key-changing UPDATE statement
 * the reconciliation engine issues.
 */
module Schema {
  import opened Wrappers
  import opened Paths
  import opened Tables

  /** An opaque timestamp (the DATE and DATETIME columns). */
  type Time = int

  datatype Table = Users | UserPreviousNames | Lsts | LstEntities | UserEntities | UserLinks

  datatype DbError =
    | WorkingDirUnavailable            // filepath.Abs could not read the working directory
    | PrimaryKeyViolation(table: Table)
    | UniqueViolation(table: Table)

  datatype User = User(id: nat, screenName: string, name: string, isProtected: bool, friendsCount: int)
  datatype PreviousName = PreviousName(id: int, uid: nat, screenName: string, name: string, recordDate: Time)
  datatype Lst = Lst(id: nat, name: string, ownerUid: nat)
  datatype LstEntity = LstEntity(id: int, lstId: int, name: string, parentDir: Path)
  datatype UserEntity = UserEntity(
    id: int, uid: nat, name: string, latestReleaseTime: Option<Time>, parentDir: Path, mediaCount: Option<int>)
  datatype UserLink = UserLink(id: int, uid: nat, name: string, parentLstEntityId: int)

  // Keys: the columns each constraint or WHERE clause compares.

  function UserIdOf(u: User): int { u.id }
  function ScreenNameOf(u: User): string { u.screenName }
  function PreviousNameIdOf(p: PreviousName): int { p.id }
  function LstIdOf(l: Lst): int { l.id }
  function LstEntityIdOf(e: LstEntity): int { e.id }
  function LstEntityOwner(e: LstEntity): int { e.lstId }
  /** (lst_id, parent_dir) with parent_dir compared under NOCASE. */
  function LstEntityDirKey(e: LstEntity): (int, string) { (e.lstId, Fold(e.parentDir)) }
  function UserEntityIdOf(e: UserEntity): int { e.id }
  function UserEntityOwner(e: UserEntity): nat { e.uid }
  /** (user_id, parent_dir) with parent_dir compared under NOCASE. */
  function UserEntityDirKey(e: UserEntity): (nat, string) { (e.uid, Fold(e.parentDir)) }
  function UserLinkIdOf(l: UserLink): int { l.id }
  function UserLinkOwner(l: UserLink): nat { l.uid }
  function UserLinkKey(l: UserLink): (nat, int) { (l.uid, l.parentLstEntityId) }

  // Constraints of the schema.

  ghost predicate UsersValid(rows: seq<User>)
  {
    DistinctKeys(rows, UserIdOf) && DistinctKeys(rows, ScreenNameOf)
  }

  ghost predicate PreviousNamesValid(rows: seq<PreviousName>)
  {
    DistinctKeys(rows, PreviousNameIdOf)
  }

  ghost predicate LstsValid(rows: seq<Lst>)
  {
    DistinctKeys(rows, LstIdOf)
  }

  ghost predicate LstEntitiesValid(rows: seq<LstEntity>)
  {
    DistinctKeys(rows, LstEntityIdOf) && DistinctKeys(rows, LstEntityDirKey)
  }

  ghost predicate UserEntitiesValid(rows: seq<UserEntity>)
  {
    DistinctKeys(rows, UserEntityIdOf) && DistinctKeys(rows, UserEntityDirKey)
  }

  ghost predicate UserLinksValid(rows: seq<UserLink>)
  {
    DistinctKeys(rows, UserLinkIdOf) && DistinctKeys(rows, UserLinkKey)
  }

  // Statements common to every table.

  /**
   * An INSERT: the row is appended unless its primary key or its UNIQUE key is
   * already held, and then the primary key is reported first.
   */
  function InsertRow<T, K(==), L(==)>(rows: seq<T>, idOf: T -> K, uniqueOf: T -> L, x: T, table: Table)
    : (r: Result<seq<T>, DbError>)
    ensures r.Ok? <==> forall i :: 0 <= i < |rows| ==> idOf(rows[i]) != idOf(x) && uniqueOf(rows[i]) != uniqueOf(x)
    ensures r.Ok? ==> r.value == rows + [x]
    ensures r.Err? ==> r.error == PrimaryKeyViolation(table) || r.error == UniqueViolation(table)
    ensures r.Err? && r.error == UniqueViolation(table) ==> forall i :: 0 <= i < |rows| ==> idOf(rows[i]) != idOf(x)
    ensures r.Err? && r.error == PrimaryKeyViolation(table) ==> exists i :: 0 <= i < |rows| && idOf(rows[i]) == idOf(x)
  {
    if HeldByOther(rows, idOf, idOf(x), -1) then Err(PrimaryKeyViolation(table))
    else if HeldByOther(rows, uniqueOf, uniqueOf(x), -1) then Err(UniqueViolation(table))
    else Ok(rows + [x])
  }

  /** An accepted INSERT keeps both constraints. */
  lemma InsertRowKeepsDistinct<T, K, L>(rows: seq<T>, idOf: T -> K, uniqueOf: T -> L, x: T, table: Table)
    requires DistinctKeys(rows, idOf) && DistinctKeys(rows, uniqueOf)
    ensures InsertRow(rows, idOf, uniqueOf, x, table).Ok? ==>
      DistinctKeys(rows + [x], idOf) && DistinctKeys(rows + [x], uniqueOf)
  {
    if InsertRow(rows, idOf, uniqueOf, x, table).Ok? {
      InsertKeepsDistinct(rows, idOf, x);
      InsertKeepsDistinct(rows, uniqueOf, x);
    }
  }

  /**
   * An UPDATE ... WHERE id=? that may change a UNIQUE column: refused when
   * another row already holds the new value; an id that matches no row changes
   * nothing.
   */
  function UpdateRow<T, K(==), L(==)>(rows: seq<T>, idOf: T -> K, uniqueOf: T -> L, id: K, change: T -> T, table: Table)
    : (r: Result<seq<T>, DbError>)
    ensures r.Err? ==> r.error == UniqueViolation(table)
    ensures r.Err? <==> exists i, j :: 0 <= i < |rows| && 0 <= j < |rows| && i != j &&
                                       FirstIndex(rows, idOf, id) == Some(i) && uniqueOf(rows[j]) == uniqueOf(change(rows[i]))
    ensures r.Ok? ==> r.value == UpdateWhere(rows, idOf, id, change)
  {
    match FirstIndex(rows, idOf, id)
    case None => Ok(rows)
    case Some(k) =>
      if HeldByOther(rows, uniqueOf, uniqueOf(change(rows[k])), k) then Err(UniqueViolation(table))
      else Ok(rows[k := change(rows[k])])
  }

  /** An accepted UPDATE that keeps the primary key keeps both constraints. */
  lemma UpdateRowKeepsDistinct<T, K, L>(rows: seq<T>, idOf: T -> K, uniqueOf: T -> L, id: K, change: T -> T, table: Table)
    requires DistinctKeys(rows, idOf) && DistinctKeys(rows, uniqueOf)
    requires forall x :: idOf(change(x)) == idOf(x)
    ensures UpdateRow(rows, idOf, uniqueOf, id, change, table).Ok? ==>
      var rows' := UpdateRow(rows, idOf, uniqueOf, id, change, table).value;
      DistinctKeys(rows', idOf) && DistinctKeys(rows', uniqueOf)
  {
    match FirstIndex(rows, idOf, id)
    case None =>
    case Some(k) =>
      if !HeldByOther(rows, uniqueOf, uniqueOf(change(rows[k])), k) {
        ReplaceSameKeyKeepsDistinct(rows, idOf, k, change(rows[k]));
        ReplaceKeepsDistinct(rows, uniqueOf, k, change(rows[k]));
      }
  }

  /** After an UPDATE that keeps the primary key, looking the id up finds the changed row. */
  lemma LookupAfterUpdate<T(!new), K>(rows: seq<T>, idOf: T -> K, id: K, change: T -> T)
    requires forall x :: idOf(change(x)) == idOf(x)
    ensures Lookup(UpdateWhere(rows, idOf, id, change), idOf, id) ==
      match Lookup(rows, idOf, id) case None => None case Some(x) => Some(change(x))
  {
    match FirstIndex(rows, idOf, id)
    case None =>
    case Some(k) =>
      var r := rows[k := change(rows[k])];
      assert FirstIndex(r, idOf, id) == Some(k) by {
        assert idOf(r[k]) == idOf(change(rows[k])) == id;
        forall j | 0 <= j < k ensures idOf(r[j]) != id {
          assert r[j] == rows[j];
        }
      }
  }

  /** After an accepted INSERT, looking the new row's primary key up finds it. */
  lemma LookupAfterInsert<T(!new), K>(rows: seq<T>, idOf: T -> K, x: T)
    requires forall i :: 0 <= i < |rows| ==> idOf(rows[i]) != idOf(x)
    ensures Lookup(rows + [x], idOf, idOf(x)) == Some(x)
  {
    var r := rows + [x];
    assert idOf(r[|rows|]) == idOf(x);
  }

  // users

  /** The change `UPDATE users SET <every other column> WHERE id=?` makes: the row becomes `usr`, keeping its id. */
  function UserUpdate(usr: User): User -> User
  {
    (u: User) => usr.(id := u.id)
  }

  /**
   * Overwriting the user with `usr`'s id fails exactly when another user holds
   * `usr`'s screen name; otherwise the table stays valid and a SELECT of the id
   * returns `usr` when the user existed and nil when it did not.
   */
  lemma UpdateUserOutcome(rows: seq<User>, usr: User)
    requires UsersValid(rows)
    ensures var r := UpdateRow(rows, UserIdOf, ScreenNameOf, usr.id, UserUpdate(usr), Users);
            (r.Err? <==> exists i, j :: 0 <= i < |rows| && 0 <= j < |rows| && i != j &&
                                        rows[i].id == usr.id && rows[j].screenName == usr.screenName) &&
            (r.Ok? ==> UsersValid(r.value) &&
                       Lookup(r.value, UserIdOf, usr.id) == if Lookup(rows, UserIdOf, usr.id).Some? then Some(usr) else None)
  {
    var change := UserUpdate(usr);
    UpdateRowKeepsDistinct(rows, UserIdOf, ScreenNameOf, usr.id, change, Users);
    LookupAfterUpdate(rows, UserIdOf, usr.id, change);
    match FirstIndex(rows, UserIdOf, usr.id)
    case None =>
    case Some(k) =>
      assert change(rows[k]) == usr;
      forall i | 0 <= i < |rows| && rows[i].id == usr.id ensures i == k {
        assert UserIdOf(rows[i]) == UserIdOf(rows[k]);
      }
  }

  // user_entities

  /** The row `INSERT INTO user_entities(user_id, name, parent_dir)` stores: a fresh rowid, NULL time and count. */
  function NewUserEntity(rows: seq<UserEntity>, uid: nat, name: string, dir: Path): (e: UserEntity)
    ensures forall i :: 0 <= i < |rows| ==> rows[i].id != e.id
    ensures e.uid == uid && e.name == name && e.parentDir == dir
    ensures e.latestReleaseTime.None? && e.mediaCount.None?
  {
    UserEntity(NextRowId(rows, UserEntityIdOf), uid, name, None, dir, None)
  }

  /** Appending a user-entity row; refused when its id or its (user_id, parent_dir) is already held. */
  function InsertUserEntity(rows: seq<UserEntity>, e: UserEntity): (r: Result<seq<UserEntity>, DbError>)
    ensures r.Ok? ==> r.value == rows + [e]
    ensures r.Err? <==>
      (exists i :: 0 <= i < |rows| && rows[i].id == e.id) ||
      (exists i :: 0 <= i < |rows| && rows[i].uid == e.uid && EqualFold(rows[i].parentDir, e.parentDir))
  {
    InsertRow(rows, UserEntityIdOf, UserEntityDirKey, e, UserEntities)
  }

  /**
   * `UPDATE user_entities SET parent_dir=? WHERE id=?`, or with `name` present
   * `UPDATE user_entities SET parent_dir=?, name=? WHERE id=?`. It is refused
   * when another row of the same user already holds `dir` up to case; an id that
   * matches no row changes nothing.
   */
  function RelocateUserEntity(rows: seq<UserEntity>, id: int, dir: Path, name: Option<string>)
    : (r: Result<seq<UserEntity>, DbError>)
    ensures r.Err? ==> exists i, j :: 0 <= i < |rows| && 0 <= j < |rows| && i != j && rows[i].id == id &&
                                      rows[j].uid == rows[i].uid && EqualFold(rows[j].parentDir, dir)
    ensures r.Ok? ==> |r.value| == |rows|
    ensures r.Ok? ==> forall i :: 0 <= i < |rows| ==>
      r.value[i] == rows[i] ||
      (rows[i].id == id && r.value[i] == rows[i].(parentDir := dir, name := if name.Some? then name.value else rows[i].name))
    ensures r.Ok? && FirstIndex(rows, UserEntityIdOf, id).Some? ==>
      var k := FirstIndex(rows, UserEntityIdOf, id).value;
      r.value[k] == rows[k].(parentDir := dir, name := if name.Some? then name.value else rows[k].name)
  {
    match FirstIndex(rows, UserEntityIdOf, id)
    case None => Ok(rows)
    case Some(k) =>
      var e := rows[k].(parentDir := dir, name := if name.Some? then name.value else rows[k].name);
      if HeldByOther(rows, UserEntityDirKey, UserEntityDirKey(e), k) then Err(UniqueViolation(UserEntities))
      else Ok(rows[k := e])
  }

  lemma InsertUserEntityKeepsValid(rows: seq<UserEntity>, e: UserEntity)
    requires UserEntitiesValid(rows)
    ensures InsertUserEntity(rows, e).Ok? ==> UserEntitiesValid(InsertUserEntity(rows, e).value)
  {
    if InsertUserEntity(rows, e).Ok? {
      InsertKeepsDistinct(rows, UserEntityIdOf, e);
      InsertKeepsDistinct(rows, UserEntityDirKey, e);
    }
  }

  /** In a valid table, a relocation fails exactly when another row of the same user holds the target directory. */
  lemma RelocateUserEntityKeepsValid(rows: seq<UserEntity>, id: int, dir: Path, name: Option<string>)
    requires UserEntitiesValid(rows)
    ensures RelocateUserEntity(rows, id, dir, name).Ok? ==> UserEntitiesValid(RelocateUserEntity(rows, id, dir, name).value)
    ensures RelocateUserEntity(rows, id, dir, name).Err? <==>
      exists i, j :: 0 <= i < |rows| && 0 <= j < |rows| && i != j && rows[i].id == id &&
                     rows[j].uid == rows[i].uid && EqualFold(rows[j].parentDir, dir)
  {
    match FirstIndex(rows, UserEntityIdOf, id)
    case None =>
    case Some(k) =>
      var e := rows[k].(parentDir := dir, name := if name.Some? then name.value else rows[k].name);
      if !HeldByOther(rows, UserEntityDirKey, UserEntityDirKey(e), k) {
        ReplaceSameKeyKeepsDistinct(rows, UserEntityIdOf, k, e);
        ReplaceKeepsDistinct(rows, UserEntityDirKey, k, e);
        forall i, j | 0 <= i < |rows| && 0 <= j < |rows| && i != j && rows[i].id == id
          ensures !(rows[j].uid == rows[i].uid && EqualFold(rows[j].parentDir, dir))
        {
          assert i == k;
          assert UserEntityDirKey(rows[j]) != UserEntityDirKey(e);
        }
      }
  }

  /** With distinct ids, a successful relocation of the stored row `e` rewrites that row alone. */
  lemma RelocatedUserRow(rows: seq<UserEntity>, e: UserEntity, dir: Path, name: Option<string>)
    requires DistinctKeys(rows, UserEntityIdOf) && e in rows
    ensures var r := RelocateUserEntity(rows, e.id, dir, name);
            var moved := e.(parentDir := dir, name := if name.Some? then name.value else e.name);
            r.Ok? ==>
              (forall i :: 0 <= i < |rows| && r.value[i] != rows[i] ==> rows[i] == e && r.value[i] == moved) &&
              (exists k :: 0 <= k < |rows| && rows[k] == e && r.value[k] == moved)
  {
    var m :| 0 <= m < |rows| && rows[m] == e;
    assert FirstIndex(rows, UserEntityIdOf, e.id) == Some(m) by {
      forall j | 0 <= j < m ensures UserEntityIdOf(rows[j]) != e.id {
        assert UserEntityIdOf(rows[j]) != UserEntityIdOf(rows[m]);
      }
    }
    var r := RelocateUserEntity(rows, e.id, dir, name);
    if r.Ok? {
      forall i | 0 <= i < |rows| && r.value[i] != rows[i]
        ensures rows[i] == e
      {
        assert UserEntityIdOf(rows[i]) == UserEntityIdOf(rows[m]);
        assert i == m;
      }
    }
  }

  // lst_entities

  /** The row `INSERT INTO lst_entities(lst_id, name, parent_dir)` stores, with a fresh rowid. */
  function NewLstEntity(rows: seq<LstEntity>, lstId: int, name: string, dir: Path): (e: LstEntity)
    ensures forall i :: 0 <= i < |rows| ==> rows[i].id != e.id
    ensures e.lstId == lstId && e.name == name && e.parentDir == dir
  {
    LstEntity(NextRowId(rows, LstEntityIdOf), lstId, name, dir)
  }

  /** Appending a list-entity row; refused when its id or its (lst_id, parent_dir) is already held. */
  function InsertLstEntity(rows: seq<LstEntity>, e: LstEntity): (r: Result<seq<LstEntity>, DbError>)
    ensures r.Ok? ==> r.value == rows + [e]
    ensures r.Err? <==>
      (exists i :: 0 <= i < |rows| && rows[i].id == e.id) ||
      (exists i :: 0 <= i < |rows| && rows[i].lstId == e.lstId && EqualFold(rows[i].parentDir, e.parentDir))
  {
    InsertRow(rows, LstEntityIdOf, LstEntityDirKey, e, LstEntities)
  }

  /**
   * `UPDATE lst_entities SET parent_dir=? WHERE id=?`: refused when another row
   * of the same list already holds `dir` up to case. The name is never touched.
   */
  function RelocateLstEntity(rows: seq<LstEntity>, id: int, dir: Path): (r: Result<seq<LstEntity>, DbError>)
    ensures r.Err? ==> exists i, j :: 0 <= i < |rows| && 0 <= j < |rows| && i != j && rows[i].id == id &&
                                      rows[j].lstId == rows[i].lstId && EqualFold(rows[j].parentDir, dir)
    ensures r.Ok? ==> |r.value| == |rows|
    ensures r.Ok? ==> forall i :: 0 <= i < |rows| ==>
      r.value[i] == rows[i] || (rows[i].id == id && r.value[i] == rows[i].(parentDir := dir))
    ensures r.Ok? && FirstIndex(rows, LstEntityIdOf, id).Some? ==>
      var k := FirstIndex(rows, LstEntityIdOf, id).value;
      r.value[k] == rows[k].(parentDir := dir)
  {
    match FirstIndex(rows, LstEntityIdOf, id)
    case None => Ok(rows)
    case Some(k) =>
      var e := rows[k].(parentDir := dir);
      if HeldByOther(rows, LstEntityDirKey, LstEntityDirKey(e), k) then Err(UniqueViolation(LstEntities))
      else Ok(rows[k := e])
  }

  /** With distinct ids, a successful relocation of the stored row `e` rewrites that row alone. */
  lemma RelocatedLstRow(rows: seq<LstEntity>, e: LstEntity, dir: Path)
    requires DistinctKeys(rows, LstEntityIdOf) && e in rows
    ensures var r := RelocateLstEntity(rows, e.id, dir);
            r.Ok? ==>
              (forall i :: 0 <= i < |rows| && r.value[i] != rows[i] ==> rows[i] == e && r.value[i] == e.(parentDir := dir)) &&
              (exists k :: 0 <= k < |rows| && rows[k] == e && r.value[k] == e.(parentDir := dir))
  {
    var m :| 0 <= m < |rows| && rows[m] == e;
    assert FirstIndex(rows, LstEntityIdOf, e.id) == Some(m) by {
      forall j | 0 <= j < m ensures LstEntityIdOf(rows[j]) != e.id {
        assert LstEntityIdOf(rows[j]) != LstEntityIdOf(rows[m]);
      }
    }
    var r := RelocateLstEntity(rows, e.id, dir);
    if r.Ok? {
      forall i | 0 <= i < |rows| && r.value[i] != rows[i]
        ensures rows[i] == e
      {
        assert LstEntityIdOf(rows[i]) == LstEntityIdOf(rows[m]);
        assert i == m;
      }
    }
  }

  lemma InsertLstEntityKeepsValid(rows: seq<LstEntity>, e: LstEntity)
    requires LstEntitiesValid(rows)
    ensures InsertLstEntity(rows, e).Ok? ==> LstEntitiesValid(InsertLstEntity(rows, e).value)
  {
    if InsertLstEntity(rows, e).Ok? {
      InsertKeepsDistinct(rows, LstEntityIdOf, e);
      InsertKeepsDistinct(rows, LstEntityDirKey, e);
    }
  }

  /** In a valid table, a relocation fails exactly when another row of the same list holds the target directory. */
  lemma RelocateLstEntityKeepsValid(rows: seq<LstEntity>, id: int, dir: Path)
    requires LstEntitiesValid(rows)
    ensures RelocateLstEntity(rows, id, dir).Ok? ==> LstEntitiesValid(RelocateLstEntity(rows, id, dir).value)
    ensures RelocateLstEntity(rows, id, dir).Err? <==>
      exists i, j :: 0 <= i < |rows| && 0 <= j < |rows| && i != j && rows[i].id == id &&
                     rows[j].lstId == rows[i].lstId && EqualFold(rows[j].parentDir, dir)
  {
    match FirstIndex(rows, LstEntityIdOf, id)
    case None =>
    case Some(k) =>
      var e := rows[k].(parentDir := dir);
      if !HeldByOther(rows, LstEntityDirKey, LstEntityDirKey(e), k) {
        ReplaceSameKeyKeepsDistinct(rows, LstEntityIdOf, k, e);
        ReplaceKeepsDistinct(rows, LstEntityDirKey, k, e);
        forall i, j | 0 <= i < |rows| && 0 <= j < |rows| && i != j && rows[i].id == id
          ensures !(rows[j].lstId == rows[i].lstId && EqualFold(rows[j].parentDir, dir))
        {
          assert i == k;
          assert LstEntityDirKey(rows[j]) != LstEntityDirKey(e);
        }
      }
  }
}
