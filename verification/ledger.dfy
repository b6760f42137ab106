/** The `expenses` table of the expense tracker and the three mutations the data
    layer performs on it: insertEntry, updateEntry and deleteEntry.

    The SQLite table is modelled as the sequence of its rows in storage order
    together with the AUTOINCREMENT bookkeeping that SQLite keeps for it: the
    largest id ever handed out (the table's entry in `sqlite_sequence`, 0 for a
    table that never had a row). */
module Ledger {
  import opened Options

  /** The largest ROWID SQLite can assign (a signed 64-bit integer). Once an
      AUTOINCREMENT table has issued it, every further INSERT fails with
      SQLITE_FULL. */
  const MaxRowId: int := 0x7FFF_FFFF_FFFF_FFFF

  /** One row of `expenses(id, description, value, category, date)`. */
  datatype Entry = Entry(id: int, description: string, value: int, category: string, date: string)

  /** The table: rows in storage order and the largest id ever issued. */
  datatype Table = Table(rows: seq<Entry>, lastId: int)

  /** The table `CREATE TABLE IF NOT EXISTS` produces on a fresh database. */
  const Empty: Table := Table([], 0)

  /** A fresh database satisfies the table invariant. */
  lemma EmptyIsValid()
    ensures Valid(Empty)
  {
  }

  /** The PRIMARY KEY constraint: no two rows share an id. */
  ghost predicate DistinctIds(rows: seq<Entry>) {
    forall i, j :: 0 <= i < j < |rows| ==> rows[i].id != rows[j].id
  }

  /** Storage order is ascending id order, the order in which SQLite scans a
      rowid table. */
  ghost predicate AscendingIds(rows: seq<Entry>) {
    forall i, j :: 0 <= i < j < |rows| ==> rows[i].id < rows[j].id
  }

  /** The table invariant: ids are unique (the PRIMARY KEY), every id is
      positive and no larger than the largest id ever issued, and that counter
      never passes the ROWID range, and rows are stored in ascending id
      order. Positivity is not a schema constraint:
      SQLite would accept an explicit id of 0 or below, but the data layer's
      INSERT never names `id`, so every id comes from the AUTOINCREMENT
      counter. */
  ghost predicate Valid(t: Table) {
    && 0 <= t.lastId <= MaxRowId
    && (forall i :: 0 <= i < |t.rows| ==> 1 <= t.rows[i].id <= t.lastId)
    && DistinctIds(t.rows)
    && AscendingIds(t.rows)
  }

  /** Some row of `rows` carries `id`. */
  predicate HasId(rows: seq<Entry>, id: int) {
    exists i :: 0 <= i < |rows| && rows[i].id == id
  }

  /** The row carrying `id`, if any (the first one, should ids ever repeat). */
  function Find(rows: seq<Entry>, id: int): (r: Option<Entry>)
    ensures r.Some? <==> HasId(rows, id)
    ensures r.Some? ==> r.value in rows && r.value.id == id
  {
    if |rows| == 0 then None
    else if rows[0].id == id then Some(rows[0])
    else
      var r := Find(rows[1..], id);
      assert HasId(rows[1..], id) ==> HasId(rows, id) by {
        if HasId(rows[1..], id) {
          var i :| 0 <= i < |rows[1..]| && rows[1..][i].id == id;
          assert rows[i + 1].id == id;
        }
      }
      assert HasId(rows, id) ==> HasId(rows[1..], id) by {
        if HasId(rows, id) {
          var i :| 0 <= i < |rows| && rows[i].id == id;
          assert i != 0 && rows[1..][i - 1].id == id;
        }
      }
      r
  }

  /** insertEntry: `INSERT INTO expenses (description, value, category, date)
      VALUES (?, ?, ?, ?)`. The id column is `INTEGER PRIMARY KEY AUTOINCREMENT`,
      so SQLite assigns one more than the largest id ever issued; when that
      counter is exhausted the statement fails, the data layer only reports the
      error, and the table is left as it was. */
  function InsertEntry(t: Table, description: string, value: int, category: string, date: string): (r: Table)
    ensures t.lastId < MaxRowId ==>
      && |r.rows| == |t.rows| + 1
      && r.rows[..|t.rows|] == t.rows
      && var e := r.rows[|t.rows|];
         && e.description == description && e.value == value
         && e.category == category && e.date == date
         && e.id > t.lastId
         && e.id == r.lastId
         && (Valid(t) ==> !HasId(t.rows, e.id))
    ensures t.lastId >= MaxRowId ==> r == t
    ensures r.lastId >= t.lastId
    ensures Valid(t) ==> Valid(r)
  {
    if t.lastId >= MaxRowId then t
    else
      var id := t.lastId + 1;
      Table(t.rows + [Entry(id, description, value, category, date)], id)
  }

  /** The row `e` after `UPDATE expenses SET description=?, value=?,
      category=?, date=? WHERE id=?`: the four mutable fields are overwritten
      when the id matches; the id itself is never touched. */
  function Overwrite(e: Entry, description: string, value: int, category: string, date: string, id: int): Entry {
    if e.id == id then Entry(e.id, description, value, category, date) else e
  }

  /** The rows after the UPDATE statement, row by row. */
  function UpdateRows(rows: seq<Entry>, description: string, value: int, category: string, date: string, id: int): (r: seq<Entry>)
    ensures |r| == |rows|
    ensures forall i :: 0 <= i < |rows| ==> r[i].id == rows[i].id
    ensures forall i :: 0 <= i < |rows| && rows[i].id != id ==> r[i] == rows[i]
    ensures forall i :: 0 <= i < |rows| && rows[i].id == id ==>
      r[i] == Entry(id, description, value, category, date)
    ensures !HasId(rows, id) ==> r == rows
  {
    if |rows| == 0 then []
    else
      UpdateRows(rows[..|rows| - 1], description, value, category, date, id)
        + [Overwrite(rows[|rows| - 1], description, value, category, date, id)]
  }

  /** updateEntry. A missing id matches no row: zero rows are affected and no
      error is raised. */
  function UpdateEntry(t: Table, description: string, value: int, category: string, date: string, id: int): (r: Table)
    ensures r.lastId == t.lastId
    ensures !HasId(t.rows, id) ==> r == t
    ensures HasId(t.rows, id) ==> Find(r.rows, id) == Some(Entry(id, description, value, category, date))
    ensures forall other :: other != id ==> Find(r.rows, other) == Find(t.rows, other)
    ensures |r.rows| == |t.rows|
    ensures Valid(t) ==> Valid(r)
    ensures Valid(t) ==> forall k :: 0 <= k < |t.rows| && t.rows[k].id == id ==>
      r.rows == t.rows[..k] + [Entry(id, description, value, category, date)] + t.rows[k + 1..]
  {
    var rows := UpdateRows(t.rows, description, value, category, date, id);
    FindAfterUpdate(t.rows, description, value, category, date, id);
    UpdateCuts(t, description, value, category, date, id);
    SameIdsKeepValid(t, Table(rows, t.lastId));
    Table(rows, t.lastId)
  }

  /** A table whose rows carry the same ids, position by position, under the
      same counter is valid whenever the original is. */
  lemma SameIdsKeepValid(t: Table, r: Table)
    requires |r.rows| == |t.rows| && r.lastId == t.lastId
    requires forall i :: 0 <= i < |t.rows| ==> r.rows[i].id == t.rows[i].id
    ensures Valid(t) ==> Valid(r)
  {
  }

  /** With unique ids, the UPDATE statement replaces exactly the one matching
      row, in place. */
  lemma UpdateCuts(t: Table, description: string, value: int, category: string, date: string, id: int)
    ensures Valid(t) ==> forall k :: 0 <= k < |t.rows| && t.rows[k].id == id ==>
      UpdateRows(t.rows, description, value, category, date, id)
        == t.rows[..k] + [Entry(id, description, value, category, date)] + t.rows[k + 1..]
  {
    if Valid(t) {
      forall k | 0 <= k < |t.rows| && t.rows[k].id == id
        ensures UpdateRows(t.rows, description, value, category, date, id)
          == t.rows[..k] + [Entry(id, description, value, category, date)] + t.rows[k + 1..]
      {
        UpdateSplices(t.rows, k, description, value, category, date, id);
      }
    }
  }

  /** With unique ids, UPDATE swaps the row at the id's position for the new
      entry. */
  lemma UpdateSplices(rows: seq<Entry>, k: int, description: string, value: int, category: string, date: string, id: int)
    requires DistinctIds(rows) && 0 <= k < |rows| && rows[k].id == id
    ensures UpdateRows(rows, description, value, category, date, id)
      == rows[..k] + [Entry(id, description, value, category, date)] + rows[k + 1..]
  {
    var u := UpdateRows(rows, description, value, category, date, id);
    var e := Entry(id, description, value, category, date);
    var v := rows[..k] + [e] + rows[k + 1..];
    assert |u| == |v|;
    forall i | 0 <= i < |rows|
      ensures u[i] == v[i]
    {
      if i < k {
        assert v[i] == rows[i] && rows[i].id != rows[k].id;
      } else if i == k {
        assert v[i] == e;
      } else {
        assert v[i] == rows[i] && rows[i].id != rows[k].id;
      }
    }
  }

  /** How a lookup sees the updated rows. */
  lemma {:induction false} FindAfterUpdate(rows: seq<Entry>, description: string, value: int, category: string, date: string, id: int)
    ensures forall other :: other != id ==>
      Find(UpdateRows(rows, description, value, category, date, id), other) == Find(rows, other)
    ensures HasId(rows, id) ==>
      Find(UpdateRows(rows, description, value, category, date, id), id) == Some(Entry(id, description, value, category, date))
    decreases |rows|
  {
    if |rows| > 0 {
      var u := UpdateRows(rows, description, value, category, date, id);
      FindAfterUpdate(rows[1..], description, value, category, date, id);
      assert UpdateRows(rows[1..], description, value, category, date, id) == u[1..];
    }
  }

  /** The rows after `DELETE FROM expenses WHERE id=?`. */
  function DeleteRows(rows: seq<Entry>, id: int): (r: seq<Entry>)
    ensures !HasId(rows, id) ==> r == rows
    ensures |r| <= |rows|
  {
    if |rows| == 0 then []
    else
      var front := rows[..|rows| - 1];
      var last := rows[|rows| - 1];
      assert !HasId(rows, id) ==> !HasId(front, id) by {
        if HasId(front, id) {
          var i :| 0 <= i < |front| && front[i].id == id;
          assert rows[i].id == id;
        }
      }
      assert rows == front + [last];
      DeleteRows(front, id) + (if last.id == id then [] else [last])
  }

  /** A row survives the DELETE statement exactly when its id differs. */
  lemma {:induction false} DeleteMembership(rows: seq<Entry>, id: int)
    ensures forall e :: e in DeleteRows(rows, id) <==> e in rows && e.id != id
    decreases |rows|
  {
    if |rows| > 0 {
      var front := rows[..|rows| - 1];
      var last := rows[|rows| - 1];
      DeleteMembership(front, id);
      assert rows == front + [last];
    }
  }

  /** deleteEntry. A missing id is a silent no-op. */
  function DeleteEntry(t: Table, id: int): (r: Table)
    ensures r.lastId == t.lastId
    ensures !HasId(t.rows, id) ==> r == t
    ensures forall e :: e in r.rows <==> e in t.rows && e.id != id
    ensures Valid(t) ==> Valid(r)
    ensures Valid(t) && HasId(t.rows, id) ==> |r.rows| == |t.rows| - 1
    ensures Valid(t) ==> forall k :: 0 <= k < |t.rows| && t.rows[k].id == id ==>
      r.rows == t.rows[..k] + t.rows[k + 1..]
  {
    DeleteKeepsValid(t, id);
    DeleteCuts(t, id);
    DeleteMembership(t.rows, id);
    Table(DeleteRows(t.rows, id), t.lastId)
  }

  // The facts about DeleteEntry that rest on the ids being unique.

  /** Deleting by id keeps the table valid. */
  lemma DeleteKeepsValid(t: Table, id: int)
    ensures Valid(t) ==> Valid(Table(DeleteRows(t.rows, id), t.lastId))
  {
    if Valid(t) && HasId(t.rows, id) {
      var k :| 0 <= k < |t.rows| && t.rows[k].id == id;
      DeleteSplices(t.rows, id, k);
      SpliceKeepsValid(t, k);
    }
  }

  /** Cutting one row out of a valid table leaves it valid. */
  lemma SpliceKeepsValid(t: Table, k: int)
    requires Valid(t) && 0 <= k < |t.rows|
    ensures Valid(Table(t.rows[..k] + t.rows[k + 1..], t.lastId))
  {
    var s := t.rows[..k] + t.rows[k + 1..];
    SpliceKeepsIds(t.rows, k);
    forall i | 0 <= i < |s|
      ensures 1 <= s[i].id <= t.lastId
    {
      assert s[i] == t.rows[if i < k then i else i + 1];
    }
  }

  /** In a valid table, deleting by id cuts out exactly the row with that id. */
  lemma DeleteCuts(t: Table, id: int)
    ensures Valid(t) ==> forall k :: 0 <= k < |t.rows| && t.rows[k].id == id ==>
      DeleteRows(t.rows, id) == t.rows[..k] + t.rows[k + 1..]
    ensures Valid(t) && HasId(t.rows, id) ==> |DeleteRows(t.rows, id)| == |t.rows| - 1
  {
    if Valid(t) {
      forall k | 0 <= k < |t.rows| && t.rows[k].id == id
        ensures DeleteRows(t.rows, id) == t.rows[..k] + t.rows[k + 1..]
      {
        DeleteSplices(t.rows, id, k);
      }
    }
  }

  /** With unique ids, deleting by id cuts exactly the one matching row out
      of the sequence and leaves every other row where it was. */
  lemma {:induction false} DeleteSplices(rows: seq<Entry>, id: int, k: int)
    requires DistinctIds(rows)
    requires 0 <= k < |rows| && rows[k].id == id
    ensures DeleteRows(rows, id) == rows[..k] + rows[k + 1..]
    decreases |rows|, 1
  {
    var front := rows[..|rows| - 1];
    var last := rows[|rows| - 1];
    assert DeleteRows(rows, id) == DeleteRows(front, id) + (if last.id == id then [] else [last]);
    if k == |rows| - 1 {
      forall i | 0 <= i < |front|
        ensures front[i].id != id
      {
        assert front[i] == rows[i];
      }
      assert !HasId(front, id);
      assert DeleteRows(front, id) == front;
      assert rows[..k] + rows[k + 1..] == front;
    } else {
      DeleteSplicesEarlier(rows, id, k);
    }
  }

  /** The case of DeleteSplices where the deleted row is not the last one. */
  lemma {:induction false} DeleteSplicesEarlier(rows: seq<Entry>, id: int, k: int)
    requires DistinctIds(rows)
    requires 0 <= k < |rows| - 1 && rows[k].id == id
    ensures DeleteRows(rows, id) == rows[..k] + rows[k + 1..]
    decreases |rows|, 0
  {
    var front := rows[..|rows| - 1];
    var last := rows[|rows| - 1];
    assert last.id != id by {
      assert rows[k].id != rows[|rows| - 1].id;
    }
    assert DeleteRows(rows, id) == DeleteRows(front, id) + [last];
    assert DistinctIds(front) by {
      forall i, j | 0 <= i < j < |front|
        ensures front[i].id != front[j].id
      {
        assert front[i] == rows[i] && front[j] == rows[j];
      }
    }
    DeleteSplices(front, id, k);
    assert front[..k] == rows[..k];
    assert front[k + 1..] + [last] == rows[k + 1..];
  }

  /** Cutting one row out of a valid table keeps its ids valid. */
  lemma SpliceKeepsIds(rows: seq<Entry>, k: int)
    requires DistinctIds(rows) && 0 <= k < |rows|
    ensures DistinctIds(rows[..k] + rows[k + 1..])
    ensures AscendingIds(rows) ==> AscendingIds(rows[..k] + rows[k + 1..])
  {
    var s := rows[..k] + rows[k + 1..];
    forall i, j | 0 <= i < j < |s|
      ensures s[i].id != s[j].id
      ensures AscendingIds(rows) ==> s[i].id < s[j].id
    {
      var i' := if i < k then i else i + 1;
      var j' := if j < k then j else j + 1;
      assert s[i] == rows[i'] && s[j] == rows[j'];
    }
  }
}
