/** getBalance: the ledger balance as the data layer computes it, with two SQL
    aggregates, `SUM(value)` over the receipts rows and over all other rows.
    SQL's SUM over no rows is NULL, which the data layer turns into 0. */
module Balance {
  import opened Options
  import opened Ledger

  /** The one category that counts as incoming money ("receipts"); every other
      category is an expense. */
  const Receipts: string := "Поступления"

  predicate IsReceipt(e: Entry) {
    e.category == Receipts
  }

  /** `SELECT SUM(value) FROM expenses WHERE category='Поступления'` when
      `receipts` holds, `... WHERE category<>'Поступления'` otherwise: the sum
      of the qualifying values, or NULL when no row qualifies. */
  function SqlSum(rows: seq<Entry>, receipts: bool): (r: Option<int>)
    ensures r.None? <==> forall i :: 0 <= i < |rows| ==> IsReceipt(rows[i]) != receipts
  {
    if |rows| == 0 then None
    else
      var front := rows[..|rows| - 1];
      var last := rows[|rows| - 1];
      var s := SqlSum(front, receipts);
      assert forall i :: 0 <= i < |front| ==> front[i] == rows[i];
      if IsReceipt(last) == receipts then Some(s.GetOr(0) + last.value) else s
  }

  /** What a row contributes to the balance: receipts add, everything else
      subtracts. */
  function SignedValue(category: string, value: int): int {
    if category == Receipts then value else -value
  }

  /** The reference meaning of the balance: the signed contributions of all
      rows, added up row by row. */
  function Net(rows: seq<Entry>): int {
    if |rows| == 0 then 0
    else
      var last := rows[|rows| - 1];
      Net(rows[..|rows| - 1]) + SignedValue(last.category, last.value)
  }

  /** SQLite's integers are signed 64-bit: the bounds of a stored integer and
      of every partial sum inside `SUM`. */
  const MinInt64: int := -0x8000_0000_0000_0000
  const MaxInt64: int := 0x7FFF_FFFF_FFFF_FFFF

  predicate InInt64(x: int) {
    MinInt64 <= x <= MaxInt64
  }

  /** Every running total of the aggregate, taken after each row of the scan,
      is a 64-bit integer. */
  predicate SumFits(rows: seq<Entry>, receipts: bool) {
    forall i :: 0 <= i <= |rows| ==> InInt64(SqlSum(rows[..i], receipts).GetOr(0))
  }

  /** Neither of the balance's two aggregates overflows. */
  predicate NoOverflow(rows: seq<Entry>) {
    SumFits(rows, true) && SumFits(rows, false)
  }

  /** What SQLite's `SUM` over integers holds while it scans: NULL before the
      first qualifying row, then a running total, or the overflow flag once a
      running total left the 64-bit range. An overflowed `SUM` makes the
      statement fail with "integer overflow" instead of returning a row. */
  datatype Aggregate = Null | Total(sum: int) | IntegerOverflow

  /** The exact aggregate, as SQLite reports it when nothing overflowed. */
  function Exact(s: Option<int>): Aggregate {
    match s
    case None => Null
    case Some(v) => Total(v)
  }

  /** One step of SQLite's `SUM`: add the row's value when it qualifies, and
      remember an overflow for good. */
  function SumStep(a: Aggregate, e: Entry, receipts: bool): Aggregate {
    if a.IntegerOverflow? || IsReceipt(e) != receipts then a
    else
      var s := (if a.Total? then a.sum else 0) + e.value;
      if InInt64(s) then Total(s) else IntegerOverflow
  }

  /** The aggregate query as SQLite runs it: the steps over the rows in scan
      order, which for a table satisfying `Valid` is the stored order
      (ascending ids, as SQLite scans a rowid table). It overflows exactly
      when some running total leaves the 64-bit range, and otherwise agrees
      with the exact sum. */
  function Sum64(rows: seq<Entry>, receipts: bool): (r: Aggregate)
    ensures r.IntegerOverflow? <==> !SumFits(rows, receipts)
    ensures !r.IntegerOverflow? ==> r == Exact(SqlSum(rows, receipts))
    ensures r.Total? ==> InInt64(r.sum)
    decreases |rows|
  {
    if |rows| == 0 then
      assert rows[..0] == [];
      Null
    else
      SumFitsFront(rows, receipts);
      SumStep(Sum64(rows[..|rows| - 1], receipts), rows[|rows| - 1], receipts)
  }

  /** The running totals of `rows` fit exactly when those of all but its last
      row fit and so does the full total. */
  lemma SumFitsFront(rows: seq<Entry>, receipts: bool)
    requires |rows| > 0
    ensures SumFits(rows, receipts) <==>
      SumFits(rows[..|rows| - 1], receipts) && InInt64(SqlSum(rows, receipts).GetOr(0))
  {
    var front := rows[..|rows| - 1];
    if SumFits(rows, receipts) {
      forall i | 0 <= i <= |front|
        ensures InInt64(SqlSum(front[..i], receipts).GetOr(0))
      {
        assert front[..i] == rows[..i];
      }
      assert rows[..|rows|] == rows;
    }
    if SumFits(front, receipts) && InInt64(SqlSum(rows, receipts).GetOr(0)) {
      forall i | 0 <= i <= |rows|
        ensures InInt64(SqlSum(rows[..i], receipts).GetOr(0))
      {
        if i == |rows| {
          assert rows[..i] == rows;
        } else {
          assert front[..i] == rows[..i];
        }
      }
    }
  }

  /** What the data layer reads from one aggregate query: a failed query has
      no row and leaves the starting 0; a NULL sum reads as 0 through `or 0`. */
  function ReadSum(a: Aggregate): int {
    match a
    case Total(v) => v
    case _ => 0
  }

  /** getBalance: income minus outcome. When neither sum overflows, this is
      the signed sum of all rows; an aggregate that overflows contributes 0. */
  function GetBalance(t: Table): (r: int)
    ensures NoOverflow(t.rows) ==> r == Net(t.rows)
    ensures !SumFits(t.rows, true) && SumFits(t.rows, false) ==> r == -SqlSum(t.rows, false).GetOr(0)
    ensures SumFits(t.rows, true) && !SumFits(t.rows, false) ==> r == SqlSum(t.rows, true).GetOr(0)
    ensures !SumFits(t.rows, true) && !SumFits(t.rows, false) ==> r == 0
    ensures |t.rows| == 0 ==> r == 0
  {
    AggregatesAreNet(t.rows);
    ReadSum(Sum64(t.rows, true)) - ReadSum(Sum64(t.rows, false))
  }

  /** The two SQL aggregates, NULLs read as 0, differ by exactly the signed
      sum of the rows. */
  lemma {:induction false} AggregatesAreNet(rows: seq<Entry>)
    ensures SqlSum(rows, true).GetOr(0) - SqlSum(rows, false).GetOr(0) == Net(rows)
    decreases |rows|
  {
    if |rows| > 0 {
      AggregatesAreNet(rows[..|rows| - 1]);
    }
  }

  /** The signed sum is additive over concatenation. */
  lemma {:induction false} NetAppend(a: seq<Entry>, b: seq<Entry>)
    ensures Net(a + b) == Net(a) + Net(b)
    decreases |b|
  {
    if |b| == 0 {
      assert a + b == a;
    } else {
      var front := b[..|b| - 1];
      assert (a + b)[..|a + b| - 1] == a + front;
      assert (a + b)[|a + b| - 1] == b[|b| - 1];
      NetAppend(a, front);
    }
  }

  /** The signed sum with one row cut out at position `k`. */
  lemma NetSplice(rows: seq<Entry>, k: int)
    requires 0 <= k < |rows|
    ensures Net(rows[..k] + rows[k + 1..]) == Net(rows) - SignedValue(rows[k].category, rows[k].value)
  {
    SpliceParts(rows, k);
    NetAround(rows, rows[..k], rows[k], rows[k + 1..]);
    NetAppend(rows[..k], rows[k + 1..]);
  }

  /** A sequence is the part before position `k`, the element there and the
      part after it. */
  lemma SpliceParts(rows: seq<Entry>, k: int)
    requires 0 <= k < |rows|
    ensures rows == rows[..k] + [rows[k]] + rows[k + 1..]
  {
  }

  /** The signed sum of rows `p`, then `x`, then `q`. */
  lemma NetAround(s: seq<Entry>, p: seq<Entry>, x: Entry, q: seq<Entry>)
    requires s == p + [x] + q
    ensures Net(s) == Net(p) + SignedValue(x.category, x.value) + Net(q)
  {
    NetAppend(p + [x], q);
    NetAppend(p, [x]);
    NetSingle(x);
  }

  /** The signed sum of a single row is that row's signed value. */
  lemma NetSingle(e: Entry)
    ensures Net([e]) == SignedValue(e.category, e.value)
  {
    assert [e][..0] == [];
  }

  /** With unique ids, the row a lookup finds is the one at the id's position. */
  lemma FindAt(rows: seq<Entry>, k: int)
    requires DistinctIds(rows) && 0 <= k < |rows|
    ensures Find(rows, rows[k].id) == Some(rows[k])
  {
    var r := Find(rows, rows[k].id);
    var j :| 0 <= j < |rows| && rows[j] == r.value;
  }

  /** The signed value of the row carrying `id`, or 0 when there is none. */
  function Contribution(rows: seq<Entry>, id: int): int {
    match Find(rows, id)
    case Some(e) => SignedValue(e.category, e.value)
    case None => 0
  }

  /** Appending a row adds its signed value to the signed sum; the running
      totals of the longer rows fit only if those of the shorter rows do; and
      a zero-value row changes neither aggregate as the data layer reads it. */
  lemma AppendRow(rows: seq<Entry>, e: Entry)
    ensures Net(rows + [e]) == Net(rows) + SignedValue(e.category, e.value)
    ensures NoOverflow(rows + [e]) ==> NoOverflow(rows)
    ensures e.value == 0 ==> ReadSum(Sum64(rows + [e], true)) == ReadSum(Sum64(rows, true))
    ensures e.value == 0 ==> ReadSum(Sum64(rows + [e], false)) == ReadSum(Sum64(rows, false))
  {
    NetAppend(rows, [e]);
    NetSingle(e);
    AppendStep(rows, e, true);
    AppendStep(rows, e, false);
    ZeroStep(Sum64(rows, true), e, true);
    ZeroStep(Sum64(rows, false), e, false);
  }

  /** A zero-value row never changes what the data layer reads from an
      aggregate. */
  lemma ZeroStep(a: Aggregate, e: Entry, receipts: bool)
    requires a.Total? ==> InInt64(a.sum)
    ensures e.value == 0 ==> ReadSum(SumStep(a, e, receipts)) == ReadSum(a)
  {
  }

  /** One aggregate over one more row: its running totals fit only if they
      fit before, and it takes one more step. */
  lemma AppendStep(rows: seq<Entry>, e: Entry, receipts: bool)
    ensures SumFits(rows + [e], receipts) ==> SumFits(rows, receipts)
    ensures Sum64(rows + [e], receipts) == SumStep(Sum64(rows, receipts), e, receipts)
  {
    var s := rows + [e];
    assert s[..|s| - 1] == rows;
    SumFitsFront(s, receipts);
  }

  /** Inserting a row moves the balance by that row's signed value; a failed
      insert changes nothing. A zero-value row leaves the balance unchanged
      even where a sum overflows. */
  lemma BalanceAfterInsert(t: Table, description: string, value: int, category: string, date: string)
    ensures Net(InsertEntry(t, description, value, category, date).rows)
      == Net(t.rows) + (if t.lastId < MaxRowId then SignedValue(category, value) else 0)
    ensures NoOverflow(InsertEntry(t, description, value, category, date).rows) ==>
      GetBalance(InsertEntry(t, description, value, category, date))
        == GetBalance(t) + (if t.lastId < MaxRowId then SignedValue(category, value) else 0)
    ensures value == 0 ==> GetBalance(InsertEntry(t, description, value, category, date)) == GetBalance(t)
  {
    var r := InsertEntry(t, description, value, category, date);
    if t.lastId < MaxRowId {
      var e := Entry(r.rows[|t.rows|].id, description, value, category, date);
      assert r.rows == t.rows + [e];
      AppendRow(t.rows, e);
    }
  }

  /** Deleting the row with `id` takes its signed value out of the signed
      sum; deleting a missing id changes nothing. */
  lemma NetAfterDelete(t: Table, id: int)
    requires Valid(t)
    ensures Net(DeleteEntry(t, id).rows) == Net(t.rows) - Contribution(t.rows, id)
  {
    if HasId(t.rows, id) {
      var k :| 0 <= k < |t.rows| && t.rows[k].id == id;
      DeleteSplices(t.rows, id, k);
      NetSplice(t.rows, k);
      FindAt(t.rows, k);
    }
  }

  /** Deleting the row with `id` takes its signed value out of the balance;
      deleting a missing id changes nothing. */
  lemma BalanceAfterDelete(t: Table, id: int)
    requires Valid(t)
    ensures Net(DeleteEntry(t, id).rows) == Net(t.rows) - Contribution(t.rows, id)
    ensures NoOverflow(t.rows) && NoOverflow(DeleteEntry(t, id).rows) ==>
      GetBalance(DeleteEntry(t, id)) == GetBalance(t) - Contribution(t.rows, id)
  {
    NetAfterDelete(t, id);
  }

  /** Updating the row with `id` swaps its old signed value for the new one
      in the signed sum; updating a missing id changes nothing. */
  lemma NetAfterUpdate(t: Table, description: string, value: int, category: string, date: string, id: int)
    requires Valid(t)
    ensures Net(UpdateEntry(t, description, value, category, date, id).rows) == Net(t.rows)
      + (if HasId(t.rows, id) then SignedValue(category, value) else 0) - Contribution(t.rows, id)
  {
    if HasId(t.rows, id) {
      var k :| 0 <= k < |t.rows| && t.rows[k].id == id;
      NetReplace(t.rows, k, Entry(id, description, value, category, date));
      FindAt(t.rows, k);
    }
  }

  /** Updating the row with `id` swaps its old signed value for the new one in
      the balance; updating a missing id changes nothing. */
  lemma BalanceAfterUpdate(t: Table, description: string, value: int, category: string, date: string, id: int)
    requires Valid(t)
    ensures Net(UpdateEntry(t, description, value, category, date, id).rows) == Net(t.rows)
      + (if HasId(t.rows, id) then SignedValue(category, value) else 0) - Contribution(t.rows, id)
    ensures NoOverflow(t.rows) && NoOverflow(UpdateEntry(t, description, value, category, date, id).rows) ==>
      GetBalance(UpdateEntry(t, description, value, category, date, id)) == GetBalance(t)
        + (if HasId(t.rows, id) then SignedValue(category, value) else 0) - Contribution(t.rows, id)
  {
    NetAfterUpdate(t, description, value, category, date, id);
  }

  /** The signed sum with the row at position `k` replaced by `e`. */
  lemma NetReplace(rows: seq<Entry>, k: int, e: Entry)
    requires 0 <= k < |rows|
    ensures Net(rows[..k] + [e] + rows[k + 1..])
      == Net(rows) - SignedValue(rows[k].category, rows[k].value) + SignedValue(e.category, e.value)
  {
    SpliceParts(rows, k);
    NetAround(rows, rows[..k], rows[k], rows[k + 1..]);
    NetAround(rows[..k] + [e] + rows[k + 1..], rows[..k], e, rows[k + 1..]);
  }

  /** `SUM` over one more row is one more step of the aggregate. */
  lemma Sum64Extend(rows: seq<Entry>, i: int, receipts: bool)
    requires 0 <= i < |rows|
    ensures Sum64(rows[..i + 1], receipts) == SumStep(Sum64(rows[..i], receipts), rows[i], receipts)
  {
    assert rows[..i + 1][..i] == rows[..i];
  }

  /** The two aggregates accumulated together in a single pass over the rows,
      each with SQLite's 64-bit overflow check, then read as the data layer
      reads them. */
  method ComputeBalance(t: Table) returns (balance: int)
    ensures balance == GetBalance(t)
    ensures NoOverflow(t.rows) ==> balance == Net(t.rows)
  {
    var income := Null;
    var outcome := Null;
    var i := 0;
    while i < |t.rows|
      invariant 0 <= i <= |t.rows|
      invariant income == Sum64(t.rows[..i], true)
      invariant outcome == Sum64(t.rows[..i], false)
    {
      Sum64Extend(t.rows, i, true);
      Sum64Extend(t.rows, i, false);
      income := SumStep(income, t.rows[i], true);
      outcome := SumStep(outcome, t.rows[i], false);
      i := i + 1;
    }
    assert t.rows[..i] == t.rows;
    balance := ReadSum(income) - ReadSum(outcome);
  }
}
