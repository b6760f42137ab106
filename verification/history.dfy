/** The data layer over time: any sequence of insertEntry, updateEntry and
    deleteEntry calls, and what the table promises across such a sequence. */
module History {
  import opened Options
  import opened Ledger
  import opened Query
  import opened Engine

  /** One call into the data layer that changes the table. */
  datatype Op =
    | Insert(description: string, value: int, category: string, date: string)
    | Update(description: string, value: int, category: string, date: string, id: int)
    | Delete(id: int)

  /** The table after one call. */
  function Apply(t: Table, op: Op): (r: Table)
    ensures r.lastId >= t.lastId
    ensures op.Insert? && t.lastId < MaxRowId ==> r.lastId == t.lastId + 1
    ensures !op.Insert? ==> r.lastId == t.lastId
    ensures op.Insert? && t.lastId < MaxRowId ==>
      |r.rows| == |t.rows| + 1 && r.rows[|t.rows|].id == r.lastId
  {
    match op
    case Insert(d, v, c, dt) => InsertEntry(t, d, v, c, dt)
    case Update(d, v, c, dt, id) => UpdateEntry(t, d, v, c, dt, id)
    case Delete(id) => DeleteEntry(t, id)
  }

  /** The table after performing `ops` in order, starting from `t`. */
  function Run(t: Table, ops: seq<Op>): (r: Table)
    ensures r.lastId >= t.lastId
    ensures Valid(t) ==> Valid(r)
    decreases |ops|
  {
    if |ops| == 0 then t else Run(Apply(t, ops[0]), ops[1..])
  }

  /** Every table the data layer can reach from a fresh database satisfies
      the table invariant. */
  lemma ReachableIsValid(ops: seq<Op>)
    ensures Valid(Run(Empty, ops))
  {
    EmptyIsValid();
  }

  /** The ids SQLite hands out while performing `ops`, in order: the id of
      the row each successful insert appends. */
  function Issued(t: Table, ops: seq<Op>): seq<int>
    decreases |ops|
  {
    if |ops| == 0 then []
    else
      (if ops[0].Insert? && t.lastId < MaxRowId then [Apply(t, ops[0]).rows[|t.rows|].id] else [])
        + Issued(Apply(t, ops[0]), ops[1..])
  }

  /** `ids` strictly increase and all lie in the half-open range (lo, hi]. */
  ghost predicate IncreasingWithin(ids: seq<int>, lo: int, hi: int) {
    && (forall i :: 0 <= i < |ids| ==> lo < ids[i] <= hi)
    && (forall i, j :: 0 <= i < j < |ids| ==> ids[i] < ids[j])
  }

  /** Putting a smaller id in front of an increasing run keeps it increasing. */
  lemma PrependIncreasing(x: int, rest: seq<int>, lo: int, hi: int)
    requires lo < x <= hi && IncreasingWithin(rest, x, hi)
    ensures IncreasingWithin([x] + rest, lo, hi)
  {
    var ids := [x] + rest;
    forall i, j | 0 <= i < j < |ids|
      ensures ids[i] < ids[j]
    {
      assert ids[j] == rest[j - 1];
      if i > 0 {
        assert ids[i] == rest[i - 1];
      }
    }
    forall i | 0 <= i < |ids|
      ensures lo < ids[i] <= hi
    {
      if i > 0 {
        assert ids[i] == rest[i - 1];
      }
    }
  }

  /** AUTOINCREMENT never reuses an id: across any sequence of calls the ids
      handed out strictly increase, all of them exceed every id issued before
      the sequence began (so none equals an id still in the table, nor one
      that was deleted), and the table's counter covers them all. */
  lemma {:induction false} IdsNeverReused(t: Table, ops: seq<Op>)
    ensures IncreasingWithin(Issued(t, ops), t.lastId, Run(t, ops).lastId)
    decreases |ops|
  {
    if |ops| > 0 {
      var t' := Apply(t, ops[0]);
      IdsNeverReused(t', ops[1..]);
      var rest := Issued(t', ops[1..]);
      var last := Run(t', ops[1..]).lastId;
      assert Run(t, ops).lastId == last;
      if ops[0].Insert? && t.lastId < MaxRowId {
        assert Issued(t, ops) == [t'.lastId] + rest;
        PrependIncreasing(t'.lastId, rest, t.lastId, last);
      } else {
        assert Issued(t, ops) == rest;
        assert t'.lastId == t.lastId;
      }
    }
  }

  /** An id issued during the sequence is not carried by any row that was in
      the table before it. */
  lemma IssuedIdsAreFresh(t: Table, ops: seq<Op>)
    requires Valid(t)
    ensures forall i :: 0 <= i < |Issued(t, ops)| ==> !HasId(t.rows, Issued(t, ops)[i])
  {
    IdsNeverReused(t, ops);
  }

  /** Inserting an entry and then listing with both "show all" flags set
      returns a row carrying exactly the inserted description, value,
      category and date, under an id no other listed row has. */
  lemma InsertThenListAll(t: Table, description: string, value: int, category: string, date: string, anyDate: string, anyCategory: string)
    requires Valid(t) && t.lastId < MaxRowId
    ensures var t' := InsertEntry(t, description, value, category, date);
      var c := Execute(GetTableWithFilters(true, true, anyDate, anyCategory), t'.rows);
      && c.Rows?
      && exists e :: e in c.rows
           && e.description == description && e.value == value
           && e.category == category && e.date == date
           && (forall e' :: e' in c.rows && e' != e ==> e'.id != e.id)
  {
    var t' := InsertEntry(t, description, value, category, date);
    var e := t'.rows[|t.rows|];
    FilteredQueryMeaning(true, true, anyDate, anyCategory, t'.rows);
    var c := Execute(GetTableWithFilters(true, true, anyDate, anyCategory), t'.rows);
    assert e in c.rows;
    forall e' | e' in c.rows && e' != e
      ensures e'.id != e.id
    {
      var k :| 0 <= k < |t'.rows| && t'.rows[k] == e';
      assert k != |t.rows|;
    }
  }
}
