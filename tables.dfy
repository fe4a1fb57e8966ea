/**
 * A table is a sequence of rows in the order the store returns them. The
 * functions here are the generic effect of a single SQL statement on such a
 * sequence: a lookup, a filtered select, a delete, and the rowid SQLite picks for
 * an insert; the lemmas say when a key constraint survives an insert, an update
 * or a delete.
 */
module Tables {
  import opened Wrappers

  /** No two rows agree on `keyOf`: a PRIMARY KEY or UNIQUE constraint. */
  ghost predicate DistinctKeys<T, K>(rows: seq<T>, keyOf: T -> K)
  {
    forall i, j :: 0 <= i < j < |rows| ==> keyOf(rows[i]) != keyOf(rows[j])
  }

  /** Some row other than the one at index `except` holds `key` (`except` is -1 for an insert). */
  predicate HeldByOther<T, K(==)>(rows: seq<T>, keyOf: T -> K, key: K, except: int)
  {
    exists j :: 0 <= j < |rows| && j != except && keyOf(rows[j]) == key
  }

  /** The index of the first row whose key is `key`, if any. */
  function FirstIndex<T, K(==)>(rows: seq<T>, keyOf: T -> K, key: K): (r: Option<nat>)
    ensures r.Some? ==> r.value < |rows| && keyOf(rows[r.value]) == key
    ensures r.Some? ==> forall j :: 0 <= j < r.value ==> keyOf(rows[j]) != key
    ensures r.None? <==> forall j :: 0 <= j < |rows| ==> keyOf(rows[j]) != key
  {
    if |rows| == 0 then None
    else if keyOf(rows[0]) == key then Some(0)
    else match FirstIndex(rows[1..], keyOf, key)
      case None => None
      case Some(k) => Some(k + 1)
  }

  /** `SELECT * ... WHERE key = ?` answered by `db.Get`: the first matching row, or nil. */
  function Lookup<T(!new), K(==)>(rows: seq<T>, keyOf: T -> K, key: K): (r: Option<T>)
    ensures r.Some? ==> r.value in rows && keyOf(r.value) == key
    ensures r.None? <==> forall x :: x in rows ==> keyOf(x) != key
  {
    match FirstIndex(rows, keyOf, key)
    case None => None
    case Some(k) => Some(rows[k])
  }

  /** `SELECT * ... WHERE key = ?` answered by `db.Select`: every matching row, in store order. */
  function Where<T(!new), K(==)>(rows: seq<T>, keyOf: T -> K, key: K): (r: seq<T>)
    ensures |r| <= |rows|
    ensures forall x :: x in r <==> x in rows && keyOf(x) == key
    ensures r == [] <==> FirstIndex(rows, keyOf, key).None?
    ensures r != [] ==> r[0] == rows[FirstIndex(rows, keyOf, key).value]
  {
    if |rows| == 0 then []
    else
      var rest := Where(rows[1..], keyOf, key);
      assert forall x :: x in rows <==> x == rows[0] || x in rows[1..];
      if keyOf(rows[0]) == key then [rows[0]] + rest else rest
  }

  /**
   * `db.Select` keeps store order and multiplicity: appending a row extends the
   * selection by that row exactly when it matches. With `Where([]) == []` this
   * determines the selection from the last row backwards.
   */
  lemma {:induction false} WhereAppend<T(!new), K>(rows: seq<T>, keyOf: T -> K, key: K, x: T)
    ensures Where(rows + [x], keyOf, key) == Where(rows, keyOf, key) + (if keyOf(x) == key then [x] else [])
    decreases |rows|
  {
    if |rows| > 0 {
      assert (rows + [x])[1..] == rows[1..] + [x];
      WhereAppend(rows[1..], keyOf, key, x);
    }
  }

  /** `DELETE FROM ... WHERE key = ?`: the rows whose key differs, in store order. */
  function DeleteWhere<T(!new), K(==)>(rows: seq<T>, keyOf: T -> K, key: K): (r: seq<T>)
    ensures |r| <= |rows|
    ensures forall x :: x in r <==> x in rows && keyOf(x) != key
  {
    if |rows| == 0 then []
    else
      var rest := DeleteWhere(rows[1..], keyOf, key);
      assert forall x :: x in rows <==> x == rows[0] || x in rows[1..];
      if keyOf(rows[0]) == key then rest else [rows[0]] + rest
  }

  /**
   * `UPDATE ... SET <columns> WHERE id = ?`: the row with that id becomes
   * `change` of itself; every other row is untouched.
   */
  function UpdateWhere<T, K(==)>(rows: seq<T>, idOf: T -> K, id: K, change: T -> T): (r: seq<T>)
    ensures |r| == |rows|
    ensures forall i :: 0 <= i < |rows| ==> r[i] == rows[i] || (idOf(rows[i]) == id && r[i] == change(rows[i]))
  {
    match FirstIndex(rows, idOf, id)
    case None => rows
    case Some(k) => rows[k := change(rows[k])]
  }

  /**
   * The rowid SQLite gives a row inserted without one: one more than the largest
   * rowid in use, or 1 in an empty table.
   */
  function NextRowId<T>(rows: seq<T>, idOf: T -> int): (r: int)
    ensures forall i :: 0 <= i < |rows| ==> idOf(rows[i]) < r
    ensures rows == [] ==> r == 1
    ensures rows != [] ==> exists i :: 0 <= i < |rows| && r == idOf(rows[i]) + 1
  {
    if |rows| == 0 then 1
    else if |rows| == 1 then idOf(rows[0]) + 1
    else
      var rest := NextRowId(rows[1..], idOf);
      if idOf(rows[0]) + 1 > rest then idOf(rows[0]) + 1 else rest
  }

  /** No row of `owner` before index `j` has key `key`. */
  ghost predicate NoneBefore<T, K, L>(rows: seq<T>, ownerOf: T -> K, owner: K, keyOf: T -> L, key: L, j: int)
  {
    forall l :: 0 <= l < j && l < |rows| && ownerOf(rows[l]) == owner ==> keyOf(rows[l]) != key
  }

  /**
   * Searching one owner's selected rows for a key finds the owner's first row
   * with that key in store order: the selection keeps the store's order.
   */
  lemma {:induction false} FirstIndexOfWhere<T(!new), K, L>(
    rows: seq<T>, ownerOf: T -> K, owner: K, keyOf: T -> L, key: L, i: nat)
    requires FirstIndex(Where(rows, ownerOf, owner), keyOf, key) == Some(i)
    ensures exists j :: 0 <= j < |rows| && Where(rows, ownerOf, owner)[i] == rows[j] &&
                        ownerOf(rows[j]) == owner && keyOf(rows[j]) == key && NoneBefore(rows, ownerOf, owner, keyOf, key, j)
  {
    var h, t := rows[0], rows[1..];
    var sel, rest := Where(rows, ownerOf, owner), Where(t, ownerOf, owner);
    if ownerOf(h) == owner && keyOf(h) == key {
      assert sel[0] == h;
      assert FirstIndex(sel, keyOf, key) == Some(0);
      assert NoneBefore(rows, ownerOf, owner, keyOf, key, 0);
    } else {
      var i' := if ownerOf(h) == owner then i - 1 else i;
      if ownerOf(h) == owner {
        assert sel == [h] + rest;
        assert sel[1..] == rest;
      } else {
        assert sel == rest;
      }
      assert FirstIndex(rest, keyOf, key) == Some(i');
      FirstIndexOfWhere(t, ownerOf, owner, keyOf, key, i');
      var j' :| 0 <= j' < |t| && rest[i'] == t[j'] &&
        ownerOf(t[j']) == owner && keyOf(t[j']) == key && NoneBefore(t, ownerOf, owner, keyOf, key, j');
      assert sel[i] == rows[j' + 1];
      assert NoneBefore(rows, ownerOf, owner, keyOf, key, j' + 1) by {
        forall l | 0 <= l < j' + 1 && ownerOf(rows[l]) == owner
          ensures keyOf(rows[l]) != key
        {
          if l > 0 { assert rows[l] == t[l - 1]; }
        }
      }
    }
  }

  /** When one owner's selected rows hold no row with a key, no row of that owner in the store does. */
  lemma NoneInWhere<T(!new), K, L>(rows: seq<T>, ownerOf: T -> K, owner: K, keyOf: T -> L, key: L)
    requires FirstIndex(Where(rows, ownerOf, owner), keyOf, key).None?
    ensures forall j :: 0 <= j < |rows| && ownerOf(rows[j]) == owner ==> keyOf(rows[j]) != key
  {
    var sel := Where(rows, ownerOf, owner);
    forall j | 0 <= j < |rows| && ownerOf(rows[j]) == owner
      ensures keyOf(rows[j]) != key
    {
      assert rows[j] in sel;
    }
  }

  /** A row whose key no row holds can be appended without breaking the constraint. */
  lemma InsertKeepsDistinct<T, K>(rows: seq<T>, keyOf: T -> K, x: T)
    requires DistinctKeys(rows, keyOf)
    requires !HeldByOther(rows, keyOf, keyOf(x), -1)
    ensures DistinctKeys(rows + [x], keyOf)
  {
    forall i, j | 0 <= i < j < |rows + [x]|
      ensures keyOf((rows + [x])[i]) != keyOf((rows + [x])[j])
    {
      if j == |rows| {
        assert keyOf(rows[i]) != keyOf(x);
      }
    }
  }

  /** A row may take any key that no other row holds. */
  lemma ReplaceKeepsDistinct<T, K>(rows: seq<T>, keyOf: T -> K, k: nat, x: T)
    requires k < |rows|
    requires DistinctKeys(rows, keyOf)
    requires !HeldByOther(rows, keyOf, keyOf(x), k)
    ensures DistinctKeys(rows[k := x], keyOf)
  {
    var r := rows[k := x];
    forall i, j | 0 <= i < j < |r|
      ensures keyOf(r[i]) != keyOf(r[j])
    {
      if i == k {
        assert keyOf(rows[j]) != keyOf(x);
      } else if j == k {
        assert keyOf(rows[i]) != keyOf(x);
      }
    }
  }

  /** Replacing a row by one with the same key keeps the constraint. */
  lemma ReplaceSameKeyKeepsDistinct<T, K>(rows: seq<T>, keyOf: T -> K, k: nat, x: T)
    requires k < |rows|
    requires DistinctKeys(rows, keyOf)
    requires keyOf(x) == keyOf(rows[k])
    ensures DistinctKeys(rows[k := x], keyOf)
  {
    forall j | 0 <= j < |rows| && j != k
      ensures keyOf(rows[j]) != keyOf(x)
    {
      if j < k {
        assert keyOf(rows[j]) != keyOf(rows[k]);
      } else {
        assert keyOf(rows[k]) != keyOf(rows[j]);
      }
    }
    ReplaceKeepsDistinct(rows, keyOf, k, x);
  }

  /** An update that leaves a key unchanged keeps that key's constraint. */
  lemma UpdateKeepsDistinct<T, K, L>(rows: seq<T>, idOf: T -> K, id: K, change: T -> T, keyOf: T -> L)
    requires DistinctKeys(rows, keyOf)
    requires forall x :: keyOf(change(x)) == keyOf(x)
    ensures DistinctKeys(UpdateWhere(rows, idOf, id, change), keyOf)
  {
    match FirstIndex(rows, idOf, id)
    case None =>
    case Some(k) => ReplaceSameKeyKeepsDistinct(rows, keyOf, k, change(rows[k]));
  }

  /** Deleting rows keeps every key constraint the table satisfied. */
  lemma {:induction false} DeleteKeepsDistinct<T(!new), K, L>(rows: seq<T>, keyOf: T -> K, key: K, other: T -> L)
    requires DistinctKeys(rows, other)
    ensures DistinctKeys(DeleteWhere(rows, keyOf, key), other)
  {
    if |rows| > 0 {
      var rest := DeleteWhere(rows[1..], keyOf, key);
      assert DistinctKeys(rows[1..], other) by {
        forall i, j | 0 <= i < j < |rows[1..]|
          ensures other(rows[1..][i]) != other(rows[1..][j])
        {
          assert rows[1..][i] == rows[i + 1] && rows[1..][j] == rows[j + 1];
        }
      }
      DeleteKeepsDistinct(rows[1..], keyOf, key, other);
      if keyOf(rows[0]) != key {
        var r := [rows[0]] + rest;
        forall i, j | 0 <= i < j < |r|
          ensures other(r[i]) != other(r[j])
        {
          if i == 0 {
            assert r[j] == rest[j - 1];
            assert r[j] in rows[1..];
            var m :| 0 <= m < |rows[1..]| && rows[1..][m] == r[j];
            assert other(rows[0]) != other(rows[m + 1]);
          } else {
            assert r[i] == rest[i - 1] && r[j] == rest[j - 1];
          }
        }
      }
    }
  }
}
