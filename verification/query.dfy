/** getTableWithFilters, as pure text building: the statement it hands to the
    database is a SELECT over the whole table with zero, one or two equality
    predicates, and the values for those predicates travel separately, as an
    ordered list of bindings for the `?` placeholders. */
module Query {

  /** A value bound to a placeholder. */
  datatype SqlValue = Int(i: int) | Text(s: string)

  /** A statement template together with the values bound to its
      placeholders, in placeholder order. */
  datatype Statement = Statement(text: string, bindings: seq<SqlValue>)

  /** The fixed fragments the filtered query is assembled from. */
  const SelectAll: string := "SELECT * FROM expenses"
  const Where: string := " WHERE "
  const And: string := " AND "
  const DateEq: string := "date=?"
  const CategoryEq: string := "category=?"

  /** Python's `sep.join(parts)`. */
  function Join(parts: seq<string>, sep: string): string
    decreases |parts|
  {
    if |parts| == 0 then ""
    else if |parts| == 1 then parts[0]
    else parts[0] + sep + Join(parts[1..], sep)
  }

  /** Joining a head onto a non-empty tail puts one separator between them. */
  lemma JoinCons(head: string, tail: seq<string>, sep: string)
    requires |tail| > 0
    ensures Join([head] + tail, sep) == head + (sep + Join(tail, sep))
  {
    assert ([head] + tail)[1..] == tail;
  }

  /** Stripping a separator from the front leaves what followed it. */
  lemma SeparatorPrefix(sep: string, rest: string)
    ensures sep <= sep + rest && (sep + rest)[|sep|..] == rest
  {
  }

  /** Joining two parts puts one separator between them. */
  lemma JoinPair(a: string, b: string, sep: string)
    ensures Join([a, b], sep) == a + sep + b
  {
    assert [a, b][1..] == [b];
  }

  /** getTableWithFilters(date_cb, category_cb, date, category). The flags are
      "show everything" toggles: a predicate is added when its flag is FALSE.
      The date predicate, when present, comes first, and so does its value. */
  function GetTableWithFilters(dateCb: bool, categoryCb: bool, date: string, category: string): (q: Statement)
    ensures dateCb && categoryCb ==>
      q == Statement(SelectAll, [])
    ensures !dateCb && categoryCb ==>
      q == Statement(SelectAll + Where + DateEq, [Text(date)])
    ensures dateCb && !categoryCb ==>
      q == Statement(SelectAll + Where + CategoryEq, [Text(category)])
    ensures !dateCb && !categoryCb ==>
      q == Statement(SelectAll + Where + DateEq + And + CategoryEq, [Text(date), Text(category)])
  {
    var (conditions, values) := if !dateCb then ([DateEq], [Text(date)]) else ([], []);
    var (conditions, values) :=
      if !categoryCb then (conditions + [CategoryEq], values + [Text(category)]) else (conditions, values);
    JoinPair(DateEq, CategoryEq, And);
    var text := if |conditions| > 0 then SelectAll + Where + Join(conditions, And) else SelectAll;
    Statement(text, values)
  }

  /** The number of `?` placeholders in a statement template. */
  function Placeholders(s: string): nat {
    if |s| == 0 then 0 else (if s[0] == '?' then 1 else 0) + Placeholders(s[1..])
  }

  /** Placeholders are counted piece by piece over a concatenation. */
  lemma {:induction false} PlaceholdersAppend(a: string, b: string)
    ensures Placeholders(a + b) == Placeholders(a) + Placeholders(b)
    decreases |a|
  {
    if |a| == 0 {
      assert a + b == b;
    } else {
      assert (a + b)[1..] == a[1..] + b;
      PlaceholdersAppend(a[1..], b);
    }
  }

  /** Text without a `?` has no placeholder. */
  lemma {:induction false} NoPlaceholders(s: string)
    requires '?' !in s
    ensures Placeholders(s) == 0
    decreases |s|
  {
    if |s| > 0 {
      assert s[0] in s;
      assert forall c :: c in s[1..] ==> c in s;
      NoPlaceholders(s[1..]);
    }
  }

  /** A template with `?` at its end and none before. */
  lemma OnePlaceholder(prefix: string)
    requires '?' !in prefix
    ensures Placeholders(prefix + "?") == 1
  {
    PlaceholdersAppend(prefix, "?");
    NoPlaceholders(prefix);
  }

  /** The fixed parts of the query carry no placeholder. */
  lemma SelectAllIsFixed() ensures Placeholders(SelectAll) == 0 {
    assert '?' !in SelectAll;
    NoPlaceholders(SelectAll);
  }

  lemma WhereIsFixed() ensures Placeholders(Where) == 0 {
    NoPlaceholders(Where);
  }

  lemma AndIsFixed() ensures Placeholders(And) == 0 {
    NoPlaceholders(And);
  }

  /** Each condition carries exactly one placeholder. */
  lemma ConditionFragments()
    ensures Placeholders(DateEq) == 1 && Placeholders(CategoryEq) == 1
  {
    OnePlaceholder("date=");
    assert "date=" + "?" == DateEq;
    OnePlaceholder("category=");
    assert "category=" + "?" == CategoryEq;
  }

  /** Every binding has a placeholder and every placeholder a binding, for
      all four flag combinations. */
  lemma PlaceholdersMatchBindings(dateCb: bool, categoryCb: bool, date: string, category: string)
    ensures var q := GetTableWithFilters(dateCb, categoryCb, date, category);
      Placeholders(q.text) == |q.bindings|
  {
    HeadIsFixed();
    ConditionFragments();
    var head := SelectAll + Where;
    if dateCb && categoryCb {
      SelectAllIsFixed();
    } else if !dateCb && categoryCb {
      OneCondition(head, DateEq);
    } else if dateCb && !categoryCb {
      OneCondition(head, CategoryEq);
    } else {
      AndIsFixed();
      TwoConditions(head, DateEq, And, CategoryEq);
    }
  }

  /** A placeholder-free head followed by one predicate. */
  lemma OneCondition(head: string, cond: string)
    requires Placeholders(head) == 0 && Placeholders(cond) == 1
    ensures Placeholders(head + cond) == 1
  {
    PlaceholdersAppend(head, cond);
  }

  /** A placeholder-free head followed by two predicates and a
      placeholder-free separator. */
  lemma TwoConditions(head: string, first: string, sep: string, second: string)
    requires Placeholders(head) == 0 && Placeholders(sep) == 0
    requires Placeholders(first) == 1 && Placeholders(second) == 1
    ensures Placeholders(head + first + sep + second) == 2
  {
    PlaceholdersAppend(head, first);
    PlaceholdersAppend(head + first, sep);
    PlaceholdersAppend(head + first + sep, second);
  }

  /** `SELECT * FROM expenses WHERE ` carries no placeholder. */
  lemma HeadIsFixed()
    ensures Placeholders(SelectAll + Where) == 0
  {
    SelectAllIsFixed();
    WhereIsFixed();
    PlaceholdersAppend(SelectAll, Where);
  }

}
