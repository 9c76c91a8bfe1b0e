/**
 * The query side of `search.py`: the filters `search` builds from its
 * options, `filter_data` narrowing the rows one filter at a time, sorting,
 * the column selection, the row limit and the truncation of long names when
 * the result is printed.
 *
 * A loaded report is a `Table`: its column names in order, the names of the
 * columns holding text (pandas `object` columns), and its rows, each a map
 * from column name to cell.
 */
module Query {
  import opened Outcomes
  import opened Text
  import opened Seqs
  import opened Dates
  import Products

  // ---------------------------------------------------------- column names

  const ProductNameColumn := "Product Name"
  const SetNameColumn := "Set Name"
  const UserNameColumn := "Username"
  const PurchasedColumn := "Purchased"
  const TotalPriceColumn := "Sum"
  const QuantityColumn := "Qty"
  const OrderIdColumn := "OrderID"
  const ShipmentCostColumn := "Shipment Costs"
  const QualityColumn := "Quality"
  const LanguageColumn := "Lang"
  const FoilColumn := "Foil"

  // ----------------------------------------------------------------- tables

  /** One cell: text, a number, a purchase date, or a missing value (`None`, `NaN`, `NaT`). */
  datatype Cell = Str(s: string) | Num(value: real) | Day(date: Date) | Missing

  type Row = map<string, Cell>

  datatype Table = Table(columns: seq<string>, textColumns: set<string>, rows: seq<Row>)

  /** The cell of `row` in column `key`; a row without it reads as missing. */
  function CellOf(row: Row, key: string): Cell {
    if key in row then row[key] else Missing
  }

  // ---------------------------------------------------------------- filters

  /** One entry of the `columns` list `search` passes: `{key: value}`. */
  datatype Filter = Filter(key: string, value: string)

  /** The row test a filter applies to the cells of its column. */
  datatype Condition =
    | Later(bound: Date)               // `df[key] > value`
    | Earlier(bound: Date)             // `df[key] < value`
    | Within(first: Date, last: Date)  // `(df[key] >= start) & (df[key] <= end)`
    | Mentions(pattern: string)        // `df[key].str.contains(value, case=False, na=False)`
    | Equals(value: string)            // `df[key] == value`

  /** Whether a cell passes a condition; a missing date, like `NaT`, passes no date test. */
  predicate Holds(c: Condition, cell: Cell) {
    match c
    case Later(d) => cell.Day? && Before(d, cell.date)
    case Earlier(d) => cell.Day? && Before(cell.date, d)
    case Within(lo, hi) => cell.Day? && NotAfter(lo, cell.date) && NotAfter(cell.date, hi)
    case Mentions(p) => cell.Str? && ContainsIgnoreCase(cell.s, p)
    case Equals(v) => cell == Str(v)
  }

  /** What narrowing can raise. */
  datatype QueryError =
    | BadDate(text: string)        // `strptime` rejects the text
    | BadRange(text: string)       // `a to b` does not split into exactly two parts
    | MissingColumn(name: string)  // `KeyError`

  /**
   * The test a purchase-date filter value asks for: `>` and `<` followed by a
   * date, `a to b` with two dates, or nothing at all for any other value.
   */
  function DateCondition(value: string): Result<Option<Condition>, QueryError> {
    if StartsWith(value, ">") then
      var text := Strip(value[1..]);
      match ParseIsoDate(text)
      case None => Err(BadDate(text))
      case Some(d) => Ok(Some(Later(d)))
    else if StartsWith(value, "<") then
      var text := Strip(value[1..]);
      match ParseIsoDate(text)
      case None => Err(BadDate(text))
      case Some(d) => Ok(Some(Earlier(d)))
    else if Contains(value, "to") then
      var parts := SplitOn(value, "to");
      if |parts| != 2 then Err(BadRange(value))
      else
        var first, last := Strip(parts[0]), Strip(parts[1]);
        match ParseIsoDate(first)
        case None => Err(BadDate(first))
        case Some(lo) =>
          match ParseIsoDate(last)
          case None => Err(BadDate(last))
          case Some(hi) => Ok(Some(Within(lo, hi)))
    else Ok(None)
  }

  /**
   * The test one filter applies in a table with the given columns, `None`
   * when it keeps every row. The date value is read before the column is
   * looked up; a text column is searched, any other column compared.
   */
  function FilterCondition(columns: seq<string>, text: set<string>, f: Filter): Result<Option<Condition>, QueryError> {
    if f.key == PurchasedColumn then
      match DateCondition(f.value)
      case Err(e) => Err(e)
      case Ok(None) => Ok(None)
      case Ok(Some(c)) => if f.key in columns then Ok(Some(c)) else Err(MissingColumn(f.key))
    else if f.key !in columns then Err(MissingColumn(f.key))
    else if f.key in text then Ok(Some(Mentions(f.value)))
    else Ok(Some(Equals(f.value)))
  }

  /** `df[mask]`: the rows whose cell in column `key` passes `c`, in order. */
  function Select(rows: seq<Row>, key: string, c: Condition): (r: seq<Row>)
    ensures |r| <= |rows|
  {
    if rows == [] then []
    else if Holds(c, CellOf(rows[0], key)) then [rows[0]] + Select(rows[1..], key, c)
    else Select(rows[1..], key, c)
  }

  /**
   * How a filter is read: the test it applies in a table with the given
   * columns and text columns, `None` when it keeps every row.
   */
  type FilterTest = (seq<string>, set<string>, Filter) -> Result<Option<Condition>, QueryError>

  /** One filter applied to a table, read by `test`. */
  function ApplyFilterBy(t: Table, f: Filter, test: FilterTest): Result<Table, QueryError> {
    match test(t.columns, t.textColumns, f)
    case Err(e) => Err(e)
    case Ok(None) => Ok(t)
    case Ok(Some(c)) => Ok(t.(rows := Select(t.rows, f.key, c)))
  }

  /** The filters applied in order; the first one that raises stops the others. */
  function ApplyFiltersBy(t: Table, filters: seq<Filter>, test: FilterTest): Result<Table, QueryError> {
    if filters == [] then Ok(t)
    else
      match ApplyFiltersBy(t, filters[..|filters| - 1], test)
      case Err(e) => Err(e)
      case Ok(u) => ApplyFilterBy(u, filters[|filters| - 1], test)
  }

  /** Whether a row passes a filter read by `test`. */
  predicate PassesBy(columns: seq<string>, text: set<string>, f: Filter, row: Row, test: FilterTest) {
    match test(columns, text, f)
    case Ok(Some(c)) => Holds(c, CellOf(row, f.key))
    case _ => true
  }

  /** One filter of `filter_data` applied to a table. */
  function ApplyFilter(t: Table, f: Filter): Result<Table, QueryError> {
    ApplyFilterBy(t, f, FilterCondition)
  }

  /** The filters of `filter_data` applied in order. */
  function ApplyFilters(t: Table, filters: seq<Filter>): Result<Table, QueryError> {
    ApplyFiltersBy(t, filters, FilterCondition)
  }

  /** Whether a row passes a filter of a table with the given columns. */
  predicate Passes(columns: seq<string>, text: set<string>, f: Filter, row: Row) {
    PassesBy(columns, text, f, row, FilterCondition)
  }

  /**
   * The selection keeps the rows that pass, in their order, each as many
   * times as the table holds it, and no others.
   */
  lemma {:induction false} SelectSpec(rows: seq<Row>, key: string, c: Condition)
    ensures SubSeq(Select(rows, key, c), rows)
    ensures forall row :: row in Select(rows, key, c) <==> row in rows && Holds(c, CellOf(row, key))
    ensures forall row :: multiset(Select(rows, key, c))[row] == (if Holds(c, CellOf(row, key)) then multiset(rows)[row] else 0)
  {
    if rows != [] {
      SelectSpec(rows[1..], key, c);
      var tail := Select(rows[1..], key, c);
      assert rows == [rows[0]] + rows[1..];
      assert multiset(rows) == multiset{rows[0]} + multiset(rows[1..]);
      assert forall row :: row in rows <==> row == rows[0] || row in rows[1..];
      if Holds(c, CellOf(rows[0], key)) {
        assert ([rows[0]] + tail)[1..] == tail;
        assert multiset([rows[0]] + tail) == multiset{rows[0]} + multiset(tail);
      } else if tail != [] {
        assert SubSeq(tail, rows[1..]);
      }
    }
  }

  /** A filter that raises makes every longer list of filters raise the same. */
  lemma {:induction false} NarrowPrefix(t: Table, filters: seq<Filter>, n: nat, test: FilterTest)
    requires n <= |filters| && ApplyFiltersBy(t, filters[..n], test).Err?
    ensures ApplyFiltersBy(t, filters, test) == ApplyFiltersBy(t, filters[..n], test)
    decreases |filters| - n
  {
    if n < |filters| {
      var m := |filters| - 1;
      assert filters[..m][..n] == filters[..n];
      NarrowPrefix(t, filters[..m], n, test);
    } else {
      assert filters[..n] == filters;
    }
  }

  /** One filter keeps the columns and exactly the rows that pass it, in order. */
  lemma NarrowOne(t: Table, f: Filter, test: FilterTest)
    requires ApplyFilterBy(t, f, test).Ok?
    ensures var u := ApplyFilterBy(t, f, test).value;
      && u.columns == t.columns && u.textColumns == t.textColumns
      && SubSeq(u.rows, t.rows)
      && forall row :: row in u.rows <==> row in t.rows && PassesBy(t.columns, t.textColumns, f, row, test)
  {
    match test(t.columns, t.textColumns, f)
    case Ok(None) =>
      SubSeqRefl(t.rows);
    case Ok(Some(c)) =>
      SelectSpec(t.rows, f.key, c);
  }

  /** One filter keeps each row that passes it as many times as the table holds it. */
  lemma NarrowOneCounts(t: Table, f: Filter, test: FilterTest)
    requires ApplyFilterBy(t, f, test).Ok?
    ensures var u := ApplyFilterBy(t, f, test).value;
      forall row :: multiset(u.rows)[row] ==
        if PassesBy(t.columns, t.textColumns, f, row, test) then multiset(t.rows)[row] else 0
  {
    match test(t.columns, t.textColumns, f)
    case Ok(None) =>
    case Ok(Some(c)) =>
      SelectSpec(t.rows, f.key, c);
  }

  /** Narrowing keeps the columns and which of them hold text. */
  lemma {:induction false} NarrowColumns(t: Table, filters: seq<Filter>, test: FilterTest)
    requires ApplyFiltersBy(t, filters, test).Ok?
    ensures ApplyFiltersBy(t, filters, test).value.columns == t.columns
    ensures ApplyFiltersBy(t, filters, test).value.textColumns == t.textColumns
  {
    if filters != [] {
      NarrowColumns(t, filters[..|filters| - 1], test);
    }
  }

  /** `ApplyFiltersRows` for any way of reading the filters. */
  lemma {:induction false} NarrowRows(t: Table, filters: seq<Filter>, test: FilterTest)
    requires ApplyFiltersBy(t, filters, test).Ok?
    ensures var u := ApplyFiltersBy(t, filters, test).value;
      && u.columns == t.columns && u.textColumns == t.textColumns
      && SubSeq(u.rows, t.rows)
      && forall row :: row in u.rows <==>
           row in t.rows && forall i :: 0 <= i < |filters| ==> PassesBy(t.columns, t.textColumns, filters[i], row, test)
  {
    if filters == [] {
      SubSeqRefl(t.rows);
    } else {
      var n := |filters| - 1;
      var init, f := filters[..n], filters[n];
      NarrowRows(t, init, test);
      var v := ApplyFiltersBy(t, init, test).value;
      var u := ApplyFiltersBy(t, filters, test).value;
      assert ApplyFilterBy(v, f, test) == Ok(u);
      NarrowOne(v, f, test);
      SubSeqTrans(u.rows, v.rows, t.rows);
      forall row ensures row in u.rows <==>
        row in t.rows && forall i :: 0 <= i < |filters| ==> PassesBy(t.columns, t.textColumns, filters[i], row, test)
      {
        assert forall i :: 0 <= i < n ==> init[i] == filters[i];
      }
    }
  }

  /** Narrowing keeps each row that passes every filter as many times as the table holds it. */
  lemma {:induction false} NarrowRowCounts(t: Table, filters: seq<Filter>, test: FilterTest)
    requires ApplyFiltersBy(t, filters, test).Ok?
    ensures var u := ApplyFiltersBy(t, filters, test).value;
      forall row :: multiset(u.rows)[row] ==
        if forall i :: 0 <= i < |filters| ==> PassesBy(t.columns, t.textColumns, filters[i], row, test)
        then multiset(t.rows)[row] else 0
  {
    if filters != [] {
      var n := |filters| - 1;
      var init, f := filters[..n], filters[n];
      assert ApplyFiltersBy(t, init, test).Ok?;
      NarrowRowCounts(t, init, test);
      NarrowColumns(t, init, test);
      assert init + [f] == filters;
      NarrowCounts(t, init, f, test);
    }
  }

  /** The row counts after one more filter, from those before it. */
  lemma NarrowCounts(t: Table, init: seq<Filter>, f: Filter, test: FilterTest)
    requires ApplyFiltersBy(t, init + [f], test).Ok?
    requires ApplyFiltersBy(t, init, test).Ok?
    requires var v := ApplyFiltersBy(t, init, test).value;
      && v.columns == t.columns && v.textColumns == t.textColumns
      && forall row :: multiset(v.rows)[row] ==
           if forall i :: 0 <= i < |init| ==> PassesBy(t.columns, t.textColumns, init[i], row, test)
           then multiset(t.rows)[row] else 0
    ensures var u := ApplyFiltersBy(t, init + [f], test).value;
      forall row :: multiset(u.rows)[row] ==
        if forall i :: 0 <= i < |init + [f]| ==> PassesBy(t.columns, t.textColumns, (init + [f])[i], row, test)
        then multiset(t.rows)[row] else 0
  {
    var filters := init + [f];
    var v := ApplyFiltersBy(t, init, test).value;
    assert filters[..|init|] == init && filters[|init|] == f;
    assert ApplyFilterBy(v, f, test) == ApplyFiltersBy(t, filters, test);
    NarrowOneCounts(v, f, test);
    forall row ensures (forall i :: 0 <= i < |filters| ==> PassesBy(t.columns, t.textColumns, filters[i], row, test)) <==>
      (forall i :: 0 <= i < |init| ==> PassesBy(t.columns, t.textColumns, init[i], row, test))
        && PassesBy(t.columns, t.textColumns, f, row, test)
    {
      assert forall i :: 0 <= i < |init| ==> filters[i] == init[i];
    }
  }

  /** `ApplyFiltersErrors` for any way of reading the filters. */
  lemma {:induction false} NarrowErrors(t: Table, filters: seq<Filter>, test: FilterTest)
    ensures ApplyFiltersBy(t, filters, test).Ok? <==>
      forall i :: 0 <= i < |filters| ==> test(t.columns, t.textColumns, filters[i]).Ok?
    ensures ApplyFiltersBy(t, filters, test).Err? ==> exists i :: (
      && 0 <= i < |filters|
      && (forall j :: 0 <= j < i ==> test(t.columns, t.textColumns, filters[j]).Ok?)
      && test(t.columns, t.textColumns, filters[i]) == Err(ApplyFiltersBy(t, filters, test).error))
  {
    if filters != [] {
      var n := |filters| - 1;
      var init, f := filters[..n], filters[n];
      var r, ri := ApplyFiltersBy(t, filters, test), ApplyFiltersBy(t, init, test);
      NarrowErrors(t, init, test);
      assert forall i :: 0 <= i < n ==> init[i] == filters[i];
      if ri.Err? {
        assert r == ri;
        var i :| && 0 <= i < n
                 && (forall j :: 0 <= j < i ==> test(t.columns, t.textColumns, init[j]).Ok?)
                 && test(t.columns, t.textColumns, init[i]) == Err(ri.error);
        assert filters[i] == init[i];
      } else {
        NarrowColumns(t, init, test);
        var c := test(t.columns, t.textColumns, f);
        assert r == ApplyFilterBy(ri.value, f, test);
        if c.Err? {
          assert r == Err(c.error);
          assert forall j :: 0 <= j < n ==> test(t.columns, t.textColumns, filters[j]).Ok?;
        }
      }
    }
  }

  /** Narrowing keeps the columns and which of them hold text. */
  lemma ApplyFiltersColumns(t: Table, filters: seq<Filter>)
    requires ApplyFilters(t, filters).Ok?
    ensures ApplyFilters(t, filters).value.columns == t.columns
    ensures ApplyFilters(t, filters).value.textColumns == t.textColumns
  {
    NarrowColumns(t, filters, FilterCondition);
  }

  /**
   * Narrowing keeps the columns, and keeps exactly the rows that pass every
   * filter, in their original order, each as many times as the table holds it.
   */
  lemma ApplyFiltersRows(t: Table, filters: seq<Filter>)
    requires ApplyFilters(t, filters).Ok?
    ensures var u := ApplyFilters(t, filters).value;
      && u.columns == t.columns && u.textColumns == t.textColumns
      && SubSeq(u.rows, t.rows)
      && (forall row :: row in u.rows <==>
           row in t.rows && forall i :: 0 <= i < |filters| ==> Passes(t.columns, t.textColumns, filters[i], row))
      && forall row :: multiset(u.rows)[row] ==
           if forall i :: 0 <= i < |filters| ==> Passes(t.columns, t.textColumns, filters[i], row)
           then multiset(t.rows)[row] else 0
  {
    NarrowRows(t, filters, FilterCondition);
    NarrowRowCounts(t, filters, FilterCondition);
  }

  /**
   * Narrowing raises exactly when one of the filters raises, and then with
   * the error of the first such filter.
   */
  lemma ApplyFiltersErrors(t: Table, filters: seq<Filter>)
    ensures ApplyFilters(t, filters).Ok? <==>
      forall i :: 0 <= i < |filters| ==> FilterCondition(t.columns, t.textColumns, filters[i]).Ok?
    ensures ApplyFilters(t, filters).Err? ==> exists i :: (
      && 0 <= i < |filters|
      && (forall j :: 0 <= j < i ==> FilterCondition(t.columns, t.textColumns, filters[j]).Ok?)
      && FilterCondition(t.columns, t.textColumns, filters[i]) == Err(ApplyFilters(t, filters).error))
  {
    NarrowErrors(t, filters, FilterCondition);
  }

  /**
   * `filter_data(df, columns)`: each filter narrows the rows left by the
   * ones before it; a malformed date, a range that is not two dates, or an
   * unknown column raises.
   */
  method FilterData(table: Table, filters: seq<Filter>) returns (r: Result<Table, QueryError>)
    ensures r == ApplyFilters(table, filters)
  {
    var df := table;
    for i := 0 to |filters|
      invariant ApplyFilters(table, filters[..i]) == Ok(df)
    {
      var key, value := filters[i].key, filters[i].value;
      assert filters[..i + 1][..i] == filters[..i];
      var condition: Condition;
      if key == PurchasedColumn {
        if StartsWith(value, ">") {
          var bound := ParseIsoDate(Strip(value[1..]));
          if bound.None? {
            r := Err(BadDate(Strip(value[1..])));
            NarrowPrefix(table, filters, i + 1, FilterCondition);
            return;
          }
          condition := Later(bound.value);
        } else if StartsWith(value, "<") {
          var bound := ParseIsoDate(Strip(value[1..]));
          if bound.None? {
            r := Err(BadDate(Strip(value[1..])));
            NarrowPrefix(table, filters, i + 1, FilterCondition);
            return;
          }
          condition := Earlier(bound.value);
        } else if Contains(value, "to") {
          var parts := SplitOn(value, "to");
          if |parts| != 2 {
            r := Err(BadRange(value));
            NarrowPrefix(table, filters, i + 1, FilterCondition);
            return;
          }
          var start := ParseIsoDate(Strip(parts[0]));
          if start.None? {
            r := Err(BadDate(Strip(parts[0])));
            NarrowPrefix(table, filters, i + 1, FilterCondition);
            return;
          }
          var end := ParseIsoDate(Strip(parts[1]));
          if end.None? {
            r := Err(BadDate(Strip(parts[1])));
            NarrowPrefix(table, filters, i + 1, FilterCondition);
            return;
          }
          condition := Within(start.value, end.value);
        } else {
          continue;
        }
        if key !in df.columns {
          r := Err(MissingColumn(key));
          NarrowPrefix(table, filters, i + 1, FilterCondition);
          return;
        }
      } else if key !in df.columns {
        r := Err(MissingColumn(key));
        NarrowPrefix(table, filters, i + 1, FilterCondition);
        return;
      } else if key in df.textColumns {
        condition := Mentions(value);
      } else {
        condition := Equals(value);
      }
      df := df.(rows := Select(df.rows, key, condition));
    }
    assert filters[..|filters|] == filters;
    r := Ok(df);
  }

  // ------------------------------------------------------ the date filters

  /** `> date` keeps the rows purchased after the date and drops the date itself. */
  lemma LaterIsStrict(columns: seq<string>, text: set<string>, after: string, d: Date, row: Row)
    requires PurchasedColumn in columns && ParseIsoDate(Strip(after)) == Some(d)
    ensures FilterCondition(columns, text, Filter(PurchasedColumn, ">" + after)).Ok?
    ensures Passes(columns, text, Filter(PurchasedColumn, ">" + after), row) <==>
      CellOf(row, PurchasedColumn).Day? && Before(d, CellOf(row, PurchasedColumn).date)
    ensures CellOf(row, PurchasedColumn) == Day(d) ==> !Passes(columns, text, Filter(PurchasedColumn, ">" + after), row)
  {
    ComparisonCondition(">" + after, after, d);
  }

  /** `< date` keeps the rows purchased before the date and drops the date itself. */
  lemma EarlierIsStrict(columns: seq<string>, text: set<string>, before: string, d: Date, row: Row)
    requires PurchasedColumn in columns && ParseIsoDate(Strip(before)) == Some(d)
    ensures FilterCondition(columns, text, Filter(PurchasedColumn, "<" + before)).Ok?
    ensures Passes(columns, text, Filter(PurchasedColumn, "<" + before), row) <==>
      CellOf(row, PurchasedColumn).Day? && Before(CellOf(row, PurchasedColumn).date, d)
    ensures CellOf(row, PurchasedColumn) == Day(d) ==> !Passes(columns, text, Filter(PurchasedColumn, "<" + before), row)
  {
    ComparisonCondition("<" + before, before, d);
  }

  /** `>` or `<` followed by text that strips to a date asks for the dates after or before it. */
  lemma ComparisonCondition(v: string, text: string, d: Date)
    requires v != [] && (v[0] == '>' || v[0] == '<') && v[1..] == text
    requires ParseIsoDate(Strip(text)) == Some(d)
    ensures DateCondition(v) == Ok(Some(if v[0] == '>' then Later(d) else Earlier(d)))
  {
    assert StartsWith(v, ">") <==> v[0] == '>';
    assert StartsWith(v, "<") <==> v[0] == '<';
  }

  /** The parts of `a + "to" + b` split on `"to"`, when neither part mentions `"to"`. */
  lemma SplitRange(a: string, b: string)
    requires !Contains(a, "to") && !Contains(b, "to")
    ensures Contains(a + "to" + b, "to")
    ensures SplitOn(a + "to" + b, "to") == [a, b]
  {
    var s := a + "to" + b;
    assert OccursAt(s, "to", |a|);
    forall j | 0 <= j < |a| ensures !OccursAt(s, "to", j) {
      if j + 1 < |a| {
        assert a[j..j + 2] == s[j..j + 2];
        assert !OccursAt(a, "to", j);
      } else {
        assert s[j + 1] == 't';
      }
    }
    assert Find(s, "to") == Some(|a|);
    assert s[..|a|] == a && s[|a| + 2..] == b;
    assert SplitOn(b, "to") == [b];
  }

  /** A value whose first part strips to a date does not start with `>` or `<`. */
  lemma NotAComparison(a: string, rest: string)
    requires YearDigits(Strip(a))
    ensures !StartsWith(a + rest, ">") && !StartsWith(a + rest, "<")
  {
    assert a != [];
    var c := a[0];
    assert c != '>' && c != '<' by {
      if !IsSpace(c) {
        StripFirst(a);
      }
    }
    assert (a + rest)[0..1] == [c];
  }

  /** `a to b` with two dates asks for the purchase dates from the first to the second. */
  lemma RangeCondition(a: string, b: string, lo: Date, hi: Date)
    requires !Contains(a, "to") && !Contains(b, "to")
    requires ParseIsoDate(Strip(a)) == Some(lo) && ParseIsoDate(Strip(b)) == Some(hi)
    ensures DateCondition(a + "to" + b) == Ok(Some(Within(lo, hi)))
  {
    var v := a + "to" + b;
    ParsedStartsWithYear(Strip(a));
    NotAComparison(a, "to" + b);
    assert v == a + ("to" + b);
    SplitRange(a, b);
    RangeOfParts(v, a, b, lo, hi);
  }

  /** A value that is no comparison and splits on `"to"` into two dates asks for that range. */
  lemma RangeOfParts(v: string, a: string, b: string, lo: Date, hi: Date)
    requires !StartsWith(v, ">") && !StartsWith(v, "<") && Contains(v, "to") && SplitOn(v, "to") == [a, b]
    requires ParseIsoDate(Strip(a)) == Some(lo) && ParseIsoDate(Strip(b)) == Some(hi)
    ensures DateCondition(v) == Ok(Some(Within(lo, hi)))
  {
  }

  /** `a to b` keeps the rows purchased from `a` to `b`, both ends included. */
  lemma WithinIsInclusive(columns: seq<string>, text: set<string>, a: string, b: string, lo: Date, hi: Date, row: Row)
    requires PurchasedColumn in columns
    requires !Contains(a, "to") && !Contains(b, "to")
    requires ParseIsoDate(Strip(a)) == Some(lo) && ParseIsoDate(Strip(b)) == Some(hi)
    ensures FilterCondition(columns, text, Filter(PurchasedColumn, a + "to" + b)).Ok?
    ensures Passes(columns, text, Filter(PurchasedColumn, a + "to" + b), row) <==>
      CellOf(row, PurchasedColumn).Day? && NotAfter(lo, CellOf(row, PurchasedColumn).date) && NotAfter(CellOf(row, PurchasedColumn).date, hi)
    ensures NotAfter(lo, hi) ==> Passes(columns, text, Filter(PurchasedColumn, a + "to" + b), row[PurchasedColumn := Day(lo)])
    ensures NotAfter(lo, hi) ==> Passes(columns, text, Filter(PurchasedColumn, a + "to" + b), row[PurchasedColumn := Day(hi)])
  {
    RangeCondition(a, b, lo, hi);
    assert CellOf(row[PurchasedColumn := Day(lo)], PurchasedColumn) == Day(lo);
    assert CellOf(row[PurchasedColumn := Day(hi)], PurchasedColumn) == Day(hi);
  }

  /** Any other purchase-date value filters nothing, whatever the table holds. */
  lemma OtherDateValuesKeepEverything(t: Table, value: string)
    requires !StartsWith(value, ">") && !StartsWith(value, "<") && !Contains(value, "to")
    ensures ApplyFilter(t, Filter(PurchasedColumn, value)) == Ok(t)
  {
  }

  /** A text column keeps the rows whose text contains the value, ignoring case; a missing value never matches. */
  lemma TextColumnsSearch(t: Table, f: Filter, row: Row)
    requires f.key != PurchasedColumn && f.key in t.columns && f.key in t.textColumns
    ensures Passes(t.columns, t.textColumns, f, row) <==>
      exists s :: CellOf(row, f.key) == Str(s) && Contains(Lower(s), Lower(f.value))
  {
    if Passes(t.columns, t.textColumns, f, row) {
      assert CellOf(row, f.key) == Str(CellOf(row, f.key).s);
    }
  }

  /**
   * Any other column is compared with the value as it was typed: only a text
   * cell equal to it passes, so a number or a date never does.
   */
  lemma OtherColumnsCompare(t: Table, f: Filter, row: Row)
    requires f.key != PurchasedColumn && f.key in t.columns && f.key !in t.textColumns
    ensures Passes(t.columns, t.textColumns, f, row) <==> CellOf(row, f.key) == Str(f.value)
    ensures CellOf(row, f.key).Num? || CellOf(row, f.key).Day? ==> !Passes(t.columns, t.textColumns, f, row)
  {
  }

  // -------------------------------------------------- building the query

  /** The options of `search`; an option left out is the empty string or `false`. */
  datatype Request = Request(
    productName: string, setName: string, userName: string, purchased: string, foil: bool,
    sortBy: string, ascending: bool, display: string, limit: int)

  /** The display presets `"1"` to `"5"`; any other value is a column list already. */
  function PresetDisplay(display: string): (r: string)
    ensures display !in {"1", "2", "3", "4", "5"} ==> r == display
    ensures display in {"1", "2", "3", "4", "5"} ==> r != "" && r[0] != ',' && r[|r| - 1] != ','
  {
    if display == "1" then
      ProductNameColumn + "," + QuantityColumn + "," + QualityColumn + "," + FoilColumn
    else if display == "2" then
      ProductNameColumn + "," + SetNameColumn + "," + QuantityColumn + "," + QualityColumn + "," + LanguageColumn + ","
        + FoilColumn + ",Price," + PurchasedColumn
    else if display == "3" then
      ProductNameColumn + "," + SetNameColumn + "," + QuantityColumn + "," + TotalPriceColumn + ",Price,"
        + PurchasedColumn + "," + UserNameColumn + "," + OrderIdColumn
    else if display == "4" then
      SetNameColumn + "," + ProductNameColumn + "," + UserNameColumn + "," + OrderIdColumn + "," + QuantityColumn + ","
        + TotalPriceColumn + ",Price," + PurchasedColumn
    else if display == "5" then
      UserNameColumn + "," + OrderIdColumn + "," + ShipmentCostColumn + "," + TotalPriceColumn + ",Price," + PurchasedColumn
    else display
  }

  /** The filters of a request, in the order `search` appends them: date, foil, user, set, product. */
  function ActiveFilters(req: Request): seq<Filter> {
    (if req.purchased != "" then [Filter(PurchasedColumn, req.purchased)] else [])
    + (if req.foil then [Filter(FoilColumn, "⭐")] else [])
    + (if req.userName != "" then [Filter(UserNameColumn, req.userName)] else [])
    + (if req.setName != "" then [Filter(SetNameColumn, req.setName)] else [])
    + (if req.productName != "" then [Filter(ProductNameColumn, req.productName)] else [])
  }

  /** The five candidate filters of a request, one list per option, in the order `search` appends them. */
  lemma ActiveFiltersParts(req: Request) returns (a: seq<Filter>, b: seq<Filter>, c: seq<Filter>, d: seq<Filter>, e: seq<Filter>)
    ensures a == if req.purchased != "" then [Filter(PurchasedColumn, req.purchased)] else []
    ensures b == if req.foil then [Filter(FoilColumn, "⭐")] else []
    ensures c == if req.userName != "" then [Filter(UserNameColumn, req.userName)] else []
    ensures d == if req.setName != "" then [Filter(SetNameColumn, req.setName)] else []
    ensures e == if req.productName != "" then [Filter(ProductNameColumn, req.productName)] else []
    ensures forall f :: f in ActiveFilters(req) <==> f in a || f in b || f in c || f in d || f in e
  {
    a := if req.purchased != "" then [Filter(PurchasedColumn, req.purchased)] else [];
    b := if req.foil then [Filter(FoilColumn, "⭐")] else [];
    c := if req.userName != "" then [Filter(UserNameColumn, req.userName)] else [];
    d := if req.setName != "" then [Filter(SetNameColumn, req.setName)] else [];
    e := if req.productName != "" then [Filter(ProductNameColumn, req.productName)] else [];
    assert ActiveFilters(req) == a + b + c + d + e;
  }

  /** Each option that is given adds one filter on its own column with the value typed. */
  lemma ActiveFiltersSpec(req: Request)
    ensures var fs := ActiveFilters(req);
      && (req.purchased != "" ==> Filter(PurchasedColumn, req.purchased) in fs)
      && (req.foil ==> Filter(FoilColumn, "⭐") in fs)
      && (req.userName != "" ==> Filter(UserNameColumn, req.userName) in fs)
      && (req.setName != "" ==> Filter(SetNameColumn, req.setName) in fs)
      && (req.productName != "" ==> Filter(ProductNameColumn, req.productName) in fs)
  {
    var a, b, c, d, e := ActiveFiltersParts(req);
  }

  /** No filter is added but those of the options given. */
  lemma ActiveFiltersOnly(req: Request)
    ensures forall f :: f in ActiveFilters(req) ==>
      || (f == Filter(PurchasedColumn, req.purchased) && req.purchased != "")
      || (f == Filter(FoilColumn, "⭐") && req.foil)
      || (f == Filter(UserNameColumn, req.userName) && req.userName != "")
      || (f == Filter(SetNameColumn, req.setName) && req.setName != "")
      || (f == Filter(ProductNameColumn, req.productName) && req.productName != "")
  {
    var a, b, c, d, e := ActiveFiltersParts(req);
  }

  /** The column list with each filter's column put in front unless its name already occurs in the list. */
  function Prepended(display: string, filters: seq<Filter>): string {
    if filters == [] then display
    else
      var d := Prepended(display, filters[..|filters| - 1]);
      var key := filters[|filters| - 1].key;
      if Contains(d, key) then d else key + "," + d
  }

  /** The column list a request displays. */
  function DisplayColumns(req: Request): string {
    Prepended(PresetDisplay(req.display), ActiveFilters(req))
  }

  /**
   * The displayed columns name every filtered column and still hold the
   * original list at their end.
   */
  lemma {:induction false} PrependedNamesFilters(display: string, filters: seq<Filter>)
    ensures forall i :: 0 <= i < |filters| ==> Contains(Prepended(display, filters), filters[i].key)
    ensures exists front :: Prepended(display, filters) == front + display
  {
    PrependedEndsWithDisplay(display, filters);
    if filters != [] {
      var n := |filters| - 1;
      var init := filters[..n];
      PrependedNamesFilters(display, init);
      var d := Prepended(display, init);
      var key := filters[n].key;
      assert forall i :: 0 <= i < n ==> init[i] == filters[i];
      if !Contains(d, key) {
        PrependName(key, d);
      }
    }
  }

  /** Each step leaves the list as it is or puts one name and a comma in front. */
  lemma PrependedStep(display: string, filters: seq<Filter>)
    requires filters != []
    ensures var d := Prepended(display, filters[..|filters| - 1]);
      || Prepended(display, filters) == d
      || Prepended(display, filters) == filters[|filters| - 1].key + "," + d
  {
  }

  /** The original list stays at the end of the displayed columns. */
  lemma {:induction false} PrependedEndsWithDisplay(display: string, filters: seq<Filter>)
    ensures exists front :: Prepended(display, filters) == front + display
  {
    if filters == [] {
      assert display == [] + display;
    } else {
      var d := Prepended(display, filters[..|filters| - 1]);
      PrependedEndsWithDisplay(display, filters[..|filters| - 1]);
      PrependedStep(display, filters);
      var front :| d == front + display;
      var p := Prepended(display, filters);
      if p == d {
        assert p == front + display;
      } else {
        var pre := filters[|filters| - 1].key + ",";
        assert p == pre + d;
        assert pre + (front + display) == (pre + front) + display;
      }
    }
  }

  /** A name put in front of a column list occurs in it, and so does everything the list held. */
  lemma PrependName(key: string, d: string)
    ensures Contains(key + "," + d, key)
    ensures forall p :: Contains(d, p) ==> Contains(key + "," + d, p)
  {
    forall p | Contains(d, p) ensures Contains(key + "," + d, p) {
      ContainsInSuffix(key + ",", d, p);
    }
    ContainsSelf(key);
    assert OccursAt(key + "," + d, key, 0);
  }

  /** `[col.strip() for col in display_columns.split(',')]`. */
  function ColumnsToDisplay(display: string): (r: seq<string>)
    ensures |r| == |SplitOn(display, ",")|
  {
    var parts := SplitOn(display, ",");
    seq(|parts|, i requires 0 <= i < |parts| => Strip(parts[i]))
  }

  // ----------------------------------------------- sorting and selection

  /** `sort_values(by=key, ascending=...)`, given by the caller: pandas' sort is not modelled. */
  type Sorter = (seq<Row>, string, bool) -> seq<Row>

  /**
   * Sort by a column when one is named; an unknown column raises. Sorting
   * keeps the columns and which of them hold text.
   */
  function Sort(t: Table, key: string, ascending: bool, sorter: Sorter): (r: Result<Table, QueryError>)
    ensures r.Err? <==> key != "" && key !in t.columns
    ensures r.Err? ==> r.error == MissingColumn(key)
    ensures r.Ok? ==> r.value.columns == t.columns && r.value.textColumns == t.textColumns
  {
    if key == "" then Ok(t)
    else if key !in t.columns then Err(MissingColumn(key))
    else Ok(t.(rows := sorter(t.rows, key, ascending)))
  }

  /** The first of `names` that is not a column, if any. */
  function FirstUnknown(columns: seq<string>, names: seq<string>): (r: Option<string>)
    ensures r.None? <==> forall i :: 0 <= i < |names| ==> names[i] in columns
    ensures r.Some? ==> r.value in names && r.value !in columns
  {
    if names == [] then None
    else if names[0] !in columns then Some(names[0])
    else
      var r := FirstUnknown(columns, names[1..]);
      assert forall i :: 1 <= i < |names| ==> names[i] == names[1..][i - 1];
      r
  }

  /**
   * `df[names]`: the named columns, in the given order, every row kept and
   * holding only the cells of those columns; an unknown name raises.
   */
  function Project(t: Table, names: seq<string>): (r: Result<Table, QueryError>)
    ensures r.Ok? <==> forall i :: 0 <= i < |names| ==> names[i] in t.columns
    ensures r.Err? ==> r.error.MissingColumn? && r.error.name in names && r.error.name !in t.columns
    ensures r.Ok? ==> r.value.columns == names && |r.value.rows| == |t.rows|
    ensures r.Ok? ==> forall k :: k in r.value.textColumns <==> k in t.textColumns && k in names
    ensures r.Ok? ==> forall i, k :: 0 <= i < |t.rows| ==>
      CellOf(r.value.rows[i], k) == if k in names then CellOf(t.rows[i], k) else Missing
  {
    match FirstUnknown(t.columns, names)
    case Some(name) => Err(MissingColumn(name))
    case None =>
      var keep := set i | 0 <= i < |names| :: names[i];
      Ok(Table(names, t.textColumns * keep,
        seq(|t.rows|, i requires 0 <= i < |t.rows| => map k | k in t.rows[i] && k in keep :: t.rows[i][k])))
  }

  /** The rows `search` keeps, in the order it shows them: filtered, then sorted. */
  function Narrowed(table: Table, filters: seq<Filter>, sortBy: string, ascending: bool, sorter: Sorter): Result<Table, QueryError> {
    match ApplyFilters(table, filters)
    case Err(e) => Err(e)
    case Ok(filtered) => Sort(filtered, sortBy, ascending, sorter)
  }

  /** Filtering and sorting keep the columns. */
  lemma NarrowedColumns(table: Table, filters: seq<Filter>, sortBy: string, ascending: bool, sorter: Sorter)
    requires Narrowed(table, filters, sortBy, ascending, sorter).Ok?
    ensures Narrowed(table, filters, sortBy, ascending, sorter).value.columns == table.columns
  {
    ApplyFiltersColumns(table, filters);
  }

  /**
   * Filtering then sorting fails exactly when a filter raises or the sort key
   * names no column; otherwise the columns stay and the rows are the filtered
   * rows, handed to the sort when a key is given.
   */
  lemma NarrowedSpec(table: Table, filters: seq<Filter>, sortBy: string, ascending: bool, sorter: Sorter)
    ensures var n := Narrowed(table, filters, sortBy, ascending, sorter);
      && (n.Ok? <==> ApplyFilters(table, filters).Ok? && (sortBy == "" || sortBy in table.columns))
      && (n.Ok? ==>
            var filtered := ApplyFilters(table, filters).value.rows;
            && n.value.columns == table.columns
            && n.value.rows == if sortBy == "" then filtered else sorter(filtered, sortBy, ascending))
  {
    if ApplyFilters(table, filters).Ok? {
      ApplyFiltersColumns(table, filters);
    }
  }

  /** The rows `search` passes on for printing, before the limit: filtered, sorted, projected. */
  function Listing(table: Table, req: Request, sorter: Sorter): Result<Table, QueryError> {
    match Narrowed(table, ActiveFilters(req), req.sortBy, req.ascending, sorter)
    case Err(e) => Err(e)
    case Ok(sorted) =>
      var display := DisplayColumns(req);
      if display == "" then Ok(sorted) else Project(sorted, ColumnsToDisplay(display))
  }

  /**
   * The listing fails exactly when a filter raises, the sort key names no
   * column, or a displayed name is no column. Otherwise, with no column list
   * it is the filtered and sorted table; with one, it has exactly the listed
   * columns, and row `i` is row `i` of the filtered and sorted table holding
   * only the cells of those columns.
   */
  lemma ListingSpec(table: Table, req: Request, sorter: Sorter)
    ensures var l := Listing(table, req, sorter);
      var display := DisplayColumns(req);
      var names := ColumnsToDisplay(display);
      var n := Narrowed(table, ActiveFilters(req), req.sortBy, req.ascending, sorter);
      && (l.Ok? <==>
            && ApplyFilters(table, ActiveFilters(req)).Ok?
            && (req.sortBy == "" || req.sortBy in table.columns)
            && (display == "" || forall i :: 0 <= i < |names| ==> names[i] in table.columns))
      && (l.Ok? && display == "" ==> l == n)
      && (l.Ok? && display != "" ==>
            && l.value.columns == names
            && |l.value.rows| == |n.value.rows|
            && forall i, k :: 0 <= i < |n.value.rows| ==>
                 CellOf(l.value.rows[i], k) == if k in names then CellOf(n.value.rows[i], k) else Missing)
  {
    NarrowedSpec(table, ActiveFilters(req), req.sortBy, req.ascending, sorter);
  }

  /**
   * An empty column list with any filter becomes `"<column>,"`: the empty
   * name after the last comma is no column, so the search fails.
   */
  lemma EmptyDisplayWithFilterFails(table: Table, req: Request, sorter: Sorter)
    requires PresetDisplay(req.display) == "" && ActiveFilters(req) != []
    requires "" !in table.columns
    ensures Listing(table, req, sorter).Err?
  {
    var filters := ActiveFilters(req);
    var names := ColumnsToDisplay(DisplayColumns(req));
    assert DisplayColumns(req) != "" && "" in names by {
      assert forall i :: 0 <= i < |filters| ==> filters[i].key != "";
      EmptyNameDisplayed(filters);
    }
    var narrowed := Narrowed(table, filters, req.sortBy, req.ascending, sorter);
    if narrowed.Ok? {
      NarrowedColumns(table, filters, req.sortBy, req.ascending, sorter);
      assert FirstUnknown(narrowed.value.columns, names).Some?;
    }
  }

  /** Prepending to an empty list leaves a trailing comma, and so an empty column name. */
  lemma EmptyNameDisplayed(filters: seq<Filter>)
    requires filters != [] && forall i :: 0 <= i < |filters| ==> filters[i].key != ""
    ensures Prepended("", filters) != ""
    ensures "" in ColumnsToDisplay(Prepended("", filters))
  {
    PrependedEndsWithComma(filters);
    TrailingCommaNamesNothing(Prepended("", filters));
  }

  /** A column list ending in a comma names the empty column. */
  lemma TrailingCommaNamesNothing(d: string)
    requires |d| >= 1 && d[|d| - 1] == ','
    ensures "" in ColumnsToDisplay(d)
  {
    assert d == d[..|d| - 1] + [','];
    SplitOnTrailingSeparator(d[..|d| - 1], ',');
    var parts := SplitOn(d, ",");
    assert ColumnsToDisplay(d)[|parts| - 1] == Strip(parts[|parts| - 1]);
  }

  lemma {:induction false} PrependedEndsWithComma(filters: seq<Filter>)
    requires filters != [] && forall i :: 0 <= i < |filters| ==> filters[i].key != ""
    ensures var d := Prepended("", filters); |d| >= 1 && d[|d| - 1] == ','
  {
    var n := |filters| - 1;
    var key := filters[n].key;
    var init := filters[..n];
    var d := Prepended("", init);
    if n == 0 {
      assert init == [] && d == "";
      assert !Contains(d, key) by {
        assert !OccursAt(d, key, 0);
      }
    } else {
      assert forall i :: 0 <= i < n ==> init[i] == filters[i];
      PrependedEndsWithComma(init);
    }
  }

  // ------------------------------------------------- limit and truncation

  /** The width long product and set names are cut to when printed. */
  const NameWidth := 35

  /**
   * `truncate_value(value, max_length)`: a text longer than `maxLength` keeps
   * `value[:max_length - 1]`, with Python's slice rules, and gains a `-`;
   * shorter texts and other values are left alone.
   */
  function TruncateValue(cell: Cell, maxLength: int): Cell {
    if cell.Str? && |cell.s| > maxLength then Str(SliceTo(cell.s, maxLength - 1) + "-") else cell
  }

  /**
   * A text longer than the width becomes exactly as long as the width, keeps
   * its beginning and ends in `-`; anything else is unchanged.
   */
  lemma TruncateValueSpec(cell: Cell, maxLength: int)
    ensures !(cell.Str? && |cell.s| > maxLength) ==> TruncateValue(cell, maxLength) == cell
    ensures cell.Str? && |cell.s| > maxLength && maxLength >= 1 ==>
      var r := TruncateValue(cell, maxLength);
      && r.Str? && |r.s| == maxLength && r.s[maxLength - 1] == '-'
      && r.s[..maxLength - 1] == cell.s[..maxLength - 1]
  {
  }

  /** Truncating a truncated value changes nothing, for any width that is not negative. */
  lemma TruncateValueIdempotent(cell: Cell, maxLength: int)
    requires maxLength >= 0
    ensures TruncateValue(TruncateValue(cell, maxLength), maxLength) == TruncateValue(cell, maxLength)
  {
    if cell.Str? && |cell.s| > maxLength && maxLength == 0 {
      var r := TruncateValue(cell, maxLength).s;
      assert r[..|r| - 1] + "-" == r;
    }
  }

  /** A named column cut to the width in one row; a column listed twice is left alone, as pandas does. */
  function FitColumn(columns: seq<string>, row: Row, column: string, maxLength: int): Row {
    if multiset(columns)[column] == 1 && column in row then row[column := TruncateValue(row[column], maxLength)]
    else row
  }

  /** One row as printed: product and set names cut to `NameWidth`. */
  function PrintRow(columns: seq<string>, row: Row): Row {
    FitColumn(columns, FitColumn(columns, row, ProductNameColumn, NameWidth), SetNameColumn, NameWidth)
  }

  /** The table `formatted_output` prints. */
  function Printed(t: Table): Table {
    t.(rows := seq(|t.rows|, i requires 0 <= i < |t.rows| => PrintRow(t.columns, t.rows[i])))
  }

  /**
   * Printing keeps a row's columns and every cell outside the two name
   * columns; a name column listed once has its text cut to `NameWidth`.
   */
  lemma PrintRowSpec(columns: seq<string>, row: Row)
    ensures PrintRow(columns, row).Keys == row.Keys
    ensures forall k :: k != ProductNameColumn && k != SetNameColumn ==> CellOf(PrintRow(columns, row), k) == CellOf(row, k)
    ensures forall k :: (k == ProductNameColumn || k == SetNameColumn) ==>
      CellOf(PrintRow(columns, row), k) ==
        if multiset(columns)[k] == 1 then TruncateValue(CellOf(row, k), NameWidth) else CellOf(row, k)
    ensures forall k :: (k == ProductNameColumn || k == SetNameColumn) && multiset(columns)[k] == 1 ==>
      var c := CellOf(PrintRow(columns, row), k); c.Str? ==> |c.s| <= NameWidth
  {
    assert ProductNameColumn != SetNameColumn;
  }

  /** Printing a printed table again changes nothing. */
  lemma PrintedIdempotent(t: Table)
    ensures Printed(Printed(t)) == Printed(t)
  {
    var p := Printed(t);
    forall i | 0 <= i < |t.rows| ensures PrintRow(t.columns, p.rows[i]) == p.rows[i] {
      var row := t.rows[i];
      var once := FitColumn(t.columns, row, ProductNameColumn, NameWidth);
      assert ProductNameColumn != SetNameColumn;
      if ProductNameColumn in row {
        TruncateValueIdempotent(row[ProductNameColumn], NameWidth);
      }
      if SetNameColumn in row {
        TruncateValueIdempotent(row[SetNameColumn], NameWidth);
      }
    }
  }

  // ----------------------------------------------------------------- search

  datatype SearchError = LoadFailed(cause: Products.LoadError) | QueryFailed(reason: QueryError)

  /**
   * What `search` prints: the rows, followed by the "first results" notice
   * when `notice` holds; "No results found." for an empty frame; or the error
   * it caught.
   */
  datatype Outcome = Shown(table: Table, notice: bool) | NoResults | Failed(error: SearchError)

  /**
   * `search(...)`: load, filter, sort, select the columns, keep the first
   * `limit` rows (`head`), and note whether rows were left out; any error
   * along the way is caught and printed instead.
   */
  function Search(loaded: Result<Table, Products.LoadError>, req: Request, sorter: Sorter): Outcome {
    match loaded
    case Err(e) => Failed(LoadFailed(e))
    case Ok(table) =>
      match Listing(table, req, sorter)
      case Err(e) => Failed(QueryFailed(e))
      case Ok(listing) => Limited(listing, req.limit)
  }

  /** A frame pandas calls `empty`: it has no rows or no columns. */
  predicate IsEmptyFrame(t: Table) { t.rows == [] || t.columns == [] }

  /**
   * The first `limit` rows of a listing (`head`) as `formatted_output` prints
   * them: nothing but "No results found." when that frame is empty, otherwise
   * the rows, with the notice when `limit_message` was set because rows were
   * left out.
   */
  function Limited(listing: Table, limit: int): Outcome {
    var head := Printed(listing.(rows := SliceTo(listing.rows, limit)));
    if IsEmptyFrame(head) then NoResults else Shown(head, |listing.rows| > limit)
  }

  /**
   * The limit on its own: which rows are shown, when "No results found." is
   * printed instead, and when the notice follows the rows.
   */
  lemma LimitedSpec(listing: Table, limit: int)
    ensures var out := Limited(listing, limit);
      && (out.NoResults? || out.Shown?)
      && (out.NoResults? <==>
            listing.columns == [] || (if limit >= 0 then limit == 0 || listing.rows == [] else |listing.rows| <= -limit))
      && (out.Shown? ==>
            && out.table.columns == listing.columns
            && 0 < |out.table.rows| <= |listing.rows|
            && (forall i :: 0 <= i < |out.table.rows| ==> out.table.rows[i] == PrintRow(listing.columns, listing.rows[i]))
            && (limit >= 0 ==> |out.table.rows| == if limit < |listing.rows| then limit else |listing.rows|)
            && (limit < 0 ==> |out.table.rows| == |listing.rows| + limit)
            && (limit >= 0 ==> (out.notice <==> |out.table.rows| < |listing.rows|))
            && (limit < 0 ==> out.notice))
  {
    var head := SliceTo(listing.rows, limit);
    assert forall i :: 0 <= i < |head| ==> head[i] == listing.rows[i];
  }

  /** A limit of 0 prints "No results found." however many rows matched. */
  lemma ZeroLimitNoResults(listing: Table)
    ensures Limited(listing, 0) == NoResults
  {
    LimitedSpec(listing, 0);
  }

  /**
   * When loading and the query succeed, `search` prints the limited listing:
   * with a limit that is not negative, the first `limit` rows (all of them
   * when there are fewer), each as printed, and the notice exactly when some
   * rows were left out; a negative limit drops rows from the end and always
   * adds the notice; and "No results found." whenever no row is left to show.
   */
  lemma SearchLimit(loaded: Result<Table, Products.LoadError>, req: Request, sorter: Sorter)
    requires loaded.Ok? && Listing(loaded.value, req, sorter).Ok?
    ensures var listing := Listing(loaded.value, req, sorter).value;
      var out := Search(loaded, req, sorter);
      && (out.NoResults? || out.Shown?)
      && (out.NoResults? <==>
            listing.columns == [] || (if req.limit >= 0 then req.limit == 0 || listing.rows == [] else |listing.rows| <= -req.limit))
      && (out.Shown? ==>
            && 0 < |out.table.rows| <= |listing.rows|
            && (forall i :: 0 <= i < |out.table.rows| ==> out.table.rows[i] == PrintRow(listing.columns, listing.rows[i]))
            && (req.limit >= 0 ==> |out.table.rows| == if req.limit < |listing.rows| then req.limit else |listing.rows|)
            && (req.limit >= 0 ==> (out.notice <==> |out.table.rows| < |listing.rows|))
            && (req.limit < 0 ==> out.notice))
  {
    var listing := Listing(loaded.value, req, sorter).value;
    assert Search(loaded, req, sorter) == Limited(listing, req.limit);
    LimitedSpec(listing, req.limit);
  }

  /** Every filtered column is displayed: its name occurs in the column list. */
  lemma FilteredColumnsDisplayed(req: Request)
    ensures forall f :: f in ActiveFilters(req) ==> Contains(DisplayColumns(req), f.key)
  {
    PrependedNamesFilters(PresetDisplay(req.display), ActiveFilters(req));
  }
}
