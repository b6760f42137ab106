/** What the database does with the statement getTableWithFilters builds: an
    abstract SQL engine for `SELECT * FROM expenses [WHERE col=? [AND col=?]...]`
    over the rows of the table. The engine reads the template text itself,
    so the meaning of the filtered query below is derived from the exact
    characters the data layer produces, not from the flags that chose them. */
module Engine {
  import opened Options
  import opened Ledger
  import opened Query

  /** The columns of `expenses`, in schema order. */
  datatype Column = Id | Description | Value | Category | Date

  function ColumnName(c: Column): string {
    match c
    case Id => "id"
    case Description => "description"
    case Value => "value"
    case Category => "category"
    case Date => "date"
  }

  /** The equality predicate `<column>=?`. */
  function Condition(c: Column): string {
    ColumnName(c) + "=?"
  }

  /** A row's value in a column. */
  function Cell(e: Entry, c: Column): SqlValue {
    match c
    case Id => Int(e.id)
    case Description => Text(e.description)
    case Value => Int(e.value)
    case Category => Text(e.category)
    case Date => Text(e.date)
  }

  /** The column whose equality predicate starts `s`. */
  function ParseCondition(s: string): (r: Option<Column>)
    ensures r.Some? ==> Condition(r.value) <= s
  {
    if Condition(Id) <= s then Some(Id)
    else if Condition(Description) <= s then Some(Description)
    else if Condition(Value) <= s then Some(Value)
    else if Condition(Category) <= s then Some(Category)
    else if Condition(Date) <= s then Some(Date)
    else None
  }

  /** `c1=? AND c2=? AND ...`: the columns compared, in order. */
  function ParseConjunction(s: string): (r: Option<seq<Column>>)
    ensures r.Some? ==> |r.value| > 0
    decreases |s|
  {
    match ParseCondition(s)
    case None => None
    case Some(c) =>
      var rest := s[|Condition(c)|..];
      if rest == "" then Some([c])
      else if And <= rest then
        match ParseConjunction(rest[|And|..])
        case None => None
        case Some(cs) => Some([c] + cs)
      else None
  }

  /** The columns a `SELECT * FROM expenses` statement compares, or None when
      the text is not such a statement. */
  function ParseSelect(text: string): Option<seq<Column>> {
    if SelectAll <= text then
      var rest := text[|SelectAll|..];
      if rest == "" then Some([])
      else if Where <= rest then ParseConjunction(rest[|Where|..])
      else None
    else None
  }

  /** Why a statement produced no rows. */
  datatype SqlError = SyntaxError | ParameterCountMismatch

  /** The cursor a statement yields: the result rows or a failure. */
  datatype Cursor = Rows(rows: seq<Entry>) | Failed(error: SqlError)

  /** Row `e` satisfies every `cols[i]=?` with `vals[i]` bound to it. */
  predicate Satisfies(e: Entry, cols: seq<Column>, vals: seq<SqlValue>)
    requires |cols| == |vals|
  {
    forall i :: 0 <= i < |cols| ==> Cell(e, cols[i]) == vals[i]
  }

  /** The rows satisfying the conditions, in storage order. */
  function SelectWhere(rows: seq<Entry>, cols: seq<Column>, vals: seq<SqlValue>): (r: seq<Entry>)
    requires |cols| == |vals|
    ensures forall e :: e in r <==> e in rows && Satisfies(e, cols, vals)
    ensures multiset(r) <= multiset(rows)
    ensures |r| <= |rows|
  {
    if |rows| == 0 then []
    else
      var front := rows[..|rows| - 1];
      var last := rows[|rows| - 1];
      assert rows == front + [last];
      SelectWhere(front, cols, vals) + (if Satisfies(last, cols, vals) then [last] else [])
  }

  /** Running a SELECT template with its bindings over the table's rows. Text
      that does not parse fails; a statement with one binding per placeholder
      yields exactly the rows that satisfy every comparison, and never a row
      the table does not hold. */
  function Execute(q: Statement, rows: seq<Entry>): (r: Cursor)
    ensures r.Failed? <==> ParseSelect(q.text).None? || |ParseSelect(q.text).value| != |q.bindings|
    ensures ParseSelect(q.text).None? ==> r == Failed(SyntaxError)
    ensures r.Rows? ==> |r.rows| <= |rows| && forall e :: e in r.rows ==> e in rows
    ensures r.Rows? ==> multiset(r.rows) <= multiset(rows)
    ensures r.Rows? ==> forall e :: e in r.rows <==> e in rows && Satisfies(e, ParseSelect(q.text).value, q.bindings)
  {
    match ParseSelect(q.text)
    case None => Failed(SyntaxError)
    case Some(cols) =>
      if |cols| != |q.bindings| then Failed(ParameterCountMismatch)
      else Rows(SelectWhere(rows, cols, q.bindings))
  }

  /** The predicates of `cols`, in order. */
  function Conditions(cols: seq<Column>): (r: seq<string>)
    ensures |r| == |cols|
  {
    if |cols| == 0 then [] else [Condition(cols[0])] + Conditions(cols[1..])
  }

  /** No column's predicate is a prefix of another's text: the engine reads
      back the column that was written. */
  lemma ParseConditionOf(c: Column, tail: string)
    ensures ParseCondition(Condition(c) + tail) == Some(c)
  {
    var s := Condition(c) + tail;
    assert s[..|Condition(c)|] == Condition(c);
    match c
    case Id =>
    case Description =>
      assert s[0] == 'd' && s[1] == 'e';
    case Value =>
      assert s[0] == 'v';
    case Category =>
      assert s[0] == 'c';
    case Date =>
      assert s[0] == 'd' && s[1] == 'a';
  }

  /** One step of ParseConjunction on text that starts with a predicate. */
  lemma ParseConjunctionStep(c: Column, tail: string)
    ensures ParseConjunction(Condition(c) + tail) ==
      if tail == "" then Some([c])
      else if And <= tail then
        match ParseConjunction(tail[|And|..])
        case None => None
        case Some(cs) => Some([c] + cs)
      else None
  {
    ParseConditionOf(c, tail);
    assert (Condition(c) + tail)[|Condition(c)|..] == tail;
  }

  /** Printing a conjunction and parsing it back yields the same columns. */
  lemma {:induction false} ConjunctionRoundTrip(cols: seq<Column>)
    requires |cols| > 0
    ensures ParseConjunction(Join(Conditions(cols), And)) == Some(cols)
    decreases |cols|
  {
    var c := cols[0];
    if |cols| == 1 {
      ParseConjunctionStep(c, "");
      assert Condition(c) + "" == Join(Conditions(cols), And);
      assert cols == [c];
    } else {
      var parts := Conditions(cols);
      var rest := Join(Conditions(cols[1..]), And);
      assert parts == [Condition(c)] + Conditions(cols[1..]);
      JoinCons(Condition(c), Conditions(cols[1..]), And);
      ParseConjunctionStep(c, And + rest);
      SeparatorPrefix(And, rest);
      ConjunctionRoundTrip(cols[1..]);
      assert [c] + cols[1..] == cols;
    }
  }

  /** The columns getTableWithFilters compares, in the order it adds them:
      date when the date flag is false, then category when the category flag
      is false. */
  function FilterColumns(dateCb: bool, categoryCb: bool): seq<Column> {
    (if !dateCb then [Date] else []) + (if !categoryCb then [Category] else [])
  }

  /** The filtered query parses as a SELECT comparing exactly the columns whose
      flag is false, and its i-th binding is the filter value for the column
      of its i-th placeholder. */
  lemma FilteredQueryParses(dateCb: bool, categoryCb: bool, date: string, category: string)
    ensures var q := GetTableWithFilters(dateCb, categoryCb, date, category);
      var cols := FilterColumns(dateCb, categoryCb);
      && ParseSelect(q.text) == Some(cols)
      && q.bindings == FilterValues(dateCb, categoryCb, date, category)
  {
    var q := GetTableWithFilters(dateCb, categoryCb, date, category);
    FilterBindings(dateCb, categoryCb, date, category);
    var cols := FilterColumns(dateCb, categoryCb);
    if dateCb && categoryCb {
      assert q.text[|SelectAll|..] == "";
    } else {
      FilterConditions(dateCb, categoryCb);
      WhereRoundTrip(cols);
    }
  }

  /** The bindings getTableWithFilters sends are the filter values of the
      flagged columns. */
  lemma FilterBindings(dateCb: bool, categoryCb: bool, date: string, category: string)
    ensures GetTableWithFilters(dateCb, categoryCb, date, category).bindings
      == FilterValues(dateCb, categoryCb, date, category)
  {
  }

  /** There is one binding per compared column, and the i-th binding is the
      filter value of the i-th column: placeholders and values line up. */
  lemma BindingsFollowPlaceholders(dateCb: bool, categoryCb: bool, date: string, category: string)
    ensures var cols := FilterColumns(dateCb, categoryCb);
      var vals := GetTableWithFilters(dateCb, categoryCb, date, category).bindings;
      && |vals| == |cols|
      && forall i :: 0 <= i < |cols| ==>
           vals[i] == (if cols[i] == Date then Text(date) else Text(category))
  {
    FilterBindings(dateCb, categoryCb, date, category);
  }

  /** The text getTableWithFilters emits for a non-empty filter is the
      predicates of its columns joined under WHERE. */
  lemma FilterConditions(dateCb: bool, categoryCb: bool)
    requires !dateCb || !categoryCb
    ensures forall date, category ::
      GetTableWithFilters(dateCb, categoryCb, date, category).text
        == SelectAll + Where + Join(Conditions(FilterColumns(dateCb, categoryCb)), And)
  {
    var cols := FilterColumns(dateCb, categoryCb);
    FragmentsAreConditions();
    if !dateCb && !categoryCb {
      assert Conditions(cols) == [DateEq, CategoryEq];
      JoinPair(DateEq, CategoryEq, And);
    } else {
      assert Conditions(cols) == [if dateCb then CategoryEq else DateEq];
    }
  }

  /** The query's predicate fragments are the engine's column predicates. */
  lemma FragmentsAreConditions()
    ensures DateEq == Condition(Date) && CategoryEq == Condition(Category)
  {
  }

  /** A WHERE clause over any non-empty column list reads back as those
      columns. */
  lemma WhereRoundTrip(cols: seq<Column>)
    requires |cols| > 0
    ensures ParseSelect(SelectAll + Where + Join(Conditions(cols), And)) == Some(cols)
  {
    var body := Join(Conditions(cols), And);
    var text := SelectAll + Where + body;
    assert text == SelectAll + (Where + body);
    assert text[|SelectAll|..] == Where + body;
    assert (Where + body)[|Where|..] == body;
    ConjunctionRoundTrip(cols);
  }

  /** The row filter getTableWithFilters is meant to apply: a false flag
      requires the field to equal the filter value, a true flag admits every
      value. */
  predicate Shown(dateCb: bool, categoryCb: bool, date: string, category: string, e: Entry) {
    (dateCb || e.date == date) && (categoryCb || e.category == category)
  }

  /** The bindings getTableWithFilters sends, in placeholder order. */
  function FilterValues(dateCb: bool, categoryCb: bool, date: string, category: string): seq<SqlValue> {
    (if !dateCb then [Text(date)] else []) + (if !categoryCb then [Text(category)] else [])
  }

  /** Comparing the flagged columns with the bound values is exactly the
      intended row filter. */
  lemma SatisfiesIsShown(dateCb: bool, categoryCb: bool, date: string, category: string, e: Entry)
    ensures Satisfies(e, FilterColumns(dateCb, categoryCb), FilterValues(dateCb, categoryCb, date, category))
      <==> Shown(dateCb, categoryCb, date, category, e)
  {
    var cols := FilterColumns(dateCb, categoryCb);
    var vals := FilterValues(dateCb, categoryCb, date, category);
    if Satisfies(e, cols, vals) {
      forall i | 0 <= i < |cols|
        ensures cols[i] == Date ==> e.date == date
        ensures cols[i] == Category ==> e.category == category
      {
        assert Cell(e, cols[i]) == vals[i];
      }
      assert !dateCb ==> cols[0] == Date;
      assert !categoryCb ==> cols[|cols| - 1] == Category;
    }
    if Shown(dateCb, categoryCb, date, category, e) {
      forall i | 0 <= i < |cols|
        ensures Cell(e, cols[i]) == vals[i]
      {
        if !dateCb && i == 0 {
          assert cols[i] == Date && vals[i] == Text(date);
        } else {
          assert cols[i] == Category && vals[i] == Text(category);
        }
      }
    }
  }

  /** Running the filtered query never fails, and it returns exactly the
      table's rows that pass the filter: nothing else is filtered out and
      nothing is added. */
  lemma FilteredQueryMeaning(dateCb: bool, categoryCb: bool, date: string, category: string, rows: seq<Entry>)
    ensures var c := Execute(GetTableWithFilters(dateCb, categoryCb, date, category), rows);
      && c.Rows?
      && forall e :: e in c.rows <==> e in rows && Shown(dateCb, categoryCb, date, category, e)
    ensures var c := Execute(GetTableWithFilters(dateCb, categoryCb, date, category), rows);
      c.Rows? ==> multiset(c.rows) <= multiset(rows)
  {
    var q := GetTableWithFilters(dateCb, categoryCb, date, category);
    var cols := FilterColumns(dateCb, categoryCb);
    var vals := FilterValues(dateCb, categoryCb, date, category);
    FilteredQueryParses(dateCb, categoryCb, date, category);
    assert Execute(q, rows) == Rows(SelectWhere(rows, cols, vals));
    forall e: Entry
      ensures Satisfies(e, cols, vals) <==> Shown(dateCb, categoryCb, date, category, e)
    {
      SatisfiesIsShown(dateCb, categoryCb, date, category, e);
    }
  }

  /** Three sample rows: A and C share a date, A and B share a category. */
  const SampleA: Entry := Entry(1, "A", 10, "Food", "2024-01-01")
  const SampleB: Entry := Entry(2, "B", 20, "Food", "2024-01-02")
  const SampleC: Entry := Entry(3, "C", 30, "Transport", "2024-01-01")

  /** Date filter on (flag false), category filter off (flag true). */
  lemma ExampleDateOnly()
    ensures var c := Execute(GetTableWithFilters(false, true, "2024-01-01", ""), [SampleA, SampleB, SampleC]);
      c.Rows? && forall e :: e in c.rows <==> (e == SampleA || e == SampleC)
  {
    FilteredQueryMeaning(false, true, "2024-01-01", "", [SampleA, SampleB, SampleC]);
    assert SampleB.date != "2024-01-01" by { assert SampleB.date[9] != '1'; }
  }

  /** Category filter on, date filter off. */
  lemma ExampleCategoryOnly()
    ensures var c := Execute(GetTableWithFilters(true, false, "", "Food"), [SampleA, SampleB, SampleC]);
      c.Rows? && forall e :: e in c.rows <==> (e == SampleA || e == SampleB)
  {
    FilteredQueryMeaning(true, false, "", "Food", [SampleA, SampleB, SampleC]);
    assert SampleC.category != "Food" by { assert SampleC.category[0] != 'F'; }
  }

  /** Both filters on: the predicates are combined with AND. */
  lemma ExampleBoth()
    ensures var c := Execute(GetTableWithFilters(false, false, "2024-01-01", "Food"), [SampleA, SampleB, SampleC]);
      c.Rows? && forall e :: e in c.rows <==> e == SampleA
  {
    FilteredQueryMeaning(false, false, "2024-01-01", "Food", [SampleA, SampleB, SampleC]);
    assert SampleB.date != "2024-01-01" by { assert SampleB.date[9] != '1'; }
    assert SampleC.category != "Food" by { assert SampleC.category[0] != 'F'; }
  }

  /** Both flags set: every row, whatever the filter values. */
  lemma ExampleNeither()
    ensures var c := Execute(GetTableWithFilters(true, true, "", ""), [SampleA, SampleB, SampleC]);
      c.Rows? && forall e :: e in c.rows <==> (e == SampleA || e == SampleB || e == SampleC)
  {
    FilteredQueryMeaning(true, true, "", "", [SampleA, SampleB, SampleC]);
  }
}
